/**
 * The GNC encoder (src/gncEncoder.c): sizing and validation of the code
 * parameters, the encoding context (generations, LDPC precode graph and
 * packet buffers), precoding, packet encoding, generation scheduling and
 * data recovery.
 *
 * The values rand() would return are parameters (`draw`, `draws`).  The
 * context is the one the source builds: number_of_checks with its extra
 * increment (Primes.NumberOfChecks), random grouping without magicX
 * (Grouping.GroupRandGnc) and the size_b * size_p check of
 * verify_code_parameter.  Those can put packet indices outside the
 * packets, so encoding asks for GroupsInRange; the evidently intended
 * definitions are kept beside them (ParameterValid, IntendedBandInRange,
 * Grouping.GroupRand, Primes.NumberOfChecksFixed).
 */
module GncEncoder {
  import opened Wrappers
  import opened Common
  import opened Arith
  import opened GaloisArith
  import opened Packets
  import opened Grouping
  import opened Bipartite
  import opened Primes
  import SncEncoder

  /** Code types (include/gncEncoder.h); create_context_from_meta groups only the first two. */
  const RandGnc: int := 0
  const BandGnc: int := 1
  const WindWrapGnc: int := 2

  /** gnc_parameter without pcrate, and the datasize create_gnc_context is given. */
  datatype Parameter = Parameter(datasize: int, sizeB: int, sizeG: int, sizeP: int, typ: int)

  /** gnc_metainfo: the parameters together with the packet and generation counts. */
  datatype Meta = Meta(datasize: int, sizeB: int, sizeG: int, sizeP: int, typ: int,
                       snum: int, cnum: int, gnum: int)

  // ---------------------------------------------------------------------
  // Sizing and validation
  // ---------------------------------------------------------------------

  /** The sizing of create_gnc_context: snum packets of size_p bytes, cnum checks, ALIGN(snum + cnum, size_b) generations. */
  function Sizing(gp: Parameter, cnum: int): (m: Meta)
    requires gp.sizeP > 0 && gp.sizeB > 0
    ensures m.snum == Align(gp.datasize, gp.sizeP) && m.cnum == cnum && m.gnum == Align(m.snum + cnum, gp.sizeB)
    ensures m.datasize == gp.datasize && m.sizeB == gp.sizeB && m.sizeG == gp.sizeG && m.sizeP == gp.sizeP && m.typ == gp.typ
  {
    var snum := Align(gp.datasize, gp.sizeP);
    Meta(gp.datasize, gp.sizeB, gp.sizeG, gp.sizeP, gp.typ, snum, cnum, Align(snum + cnum, gp.sizeB))
  }

  /** verify_code_parameter as written: size_b <= size_g and size_b * size_p <= datasize. */
  predicate ParameterValidAsWritten(gp: Parameter)
  {
    gp.sizeB <= gp.sizeG && gp.sizeB * gp.sizeP <= gp.datasize
  }

  /** verify_code_parameter as the SNC encoder writes it: a full generation of size_g packets fits in the data. */
  predicate ParameterValid(gp: Parameter)
  {
    gp.sizeB <= gp.sizeG && gp.sizeG * gp.sizeP <= gp.datasize
  }

  /** The meta of a context create_gnc_context returns. */
  predicate Accepted(m: Meta)
  {
    m.sizeP > 0 && m.sizeB > 0 && m.datasize >= 0 && m.cnum >= 0 &&
    m.snum == Align(m.datasize, m.sizeP) && m.gnum == Align(m.snum + m.cnum, m.sizeB) &&
    ParameterValidAsWritten(Parameter(m.datasize, m.sizeB, m.sizeG, m.sizeP, m.typ))
  }

  /**
   * Accepted sizes: a block of size_b packets fits among the source
   * packets, and the source packets hold the data with less than one
   * packet of padding.  size_g itself is bounded only by size_b.
   */
  lemma ValidSizes(gp: Parameter)
    requires gp.sizeP > 0 && gp.sizeB > 0 && ParameterValidAsWritten(gp)
    ensures 0 < gp.sizeB <= gp.sizeG && gp.sizeB <= Align(gp.datasize, gp.sizeP)
    ensures Align(gp.datasize, gp.sizeP) * gp.sizeP >= gp.datasize > (Align(gp.datasize, gp.sizeP) - 1) * gp.sizeP
  {
    var snum := Align(gp.datasize, gp.sizeP);
    MulAtLeast(gp.sizeB, gp.sizeP);
    AlignIsCeiling(gp.datasize, gp.sizeP);
    if gp.sizeB > snum {
      MulMonotone(snum + 1, gp.sizeB, gp.sizeP);
      assert false;
    }
  }

  /** The evidently intended check also bounds size_g by the source packets, and implies the check as written. */
  lemma IntendedSizes(gp: Parameter)
    requires gp.sizeP > 0 && gp.sizeB > 0 && ParameterValid(gp)
    ensures ParameterValidAsWritten(gp) && gp.sizeG <= Align(gp.datasize, gp.sizeP)
  {
    var snum := Align(gp.datasize, gp.sizeP);
    MulMonotone(gp.sizeB, gp.sizeG, gp.sizeP);
    AlignIsCeiling(gp.datasize, gp.sizeP);
    if gp.sizeG > snum {
      MulMonotone(snum + 1, gp.sizeG, gp.sizeP);
      assert false;
    }
  }

  /** The sizes of an accepted meta the grouping needs. */
  lemma GroupSizes(m: Meta)
    requires Accepted(m)
    ensures 0 < m.sizeB <= m.sizeG && m.sizeB <= m.snum && m.gnum >= 1
  {
    ValidSizes(Parameter(m.datasize, m.sizeB, m.sizeG, m.sizeP, m.typ));
    AlignIsCeiling(m.snum + m.cnum, m.sizeB);
  }

  /** Sizing parameters verify_code_parameter accepts, with any check count, gives an accepted meta. */
  lemma SizingAccepted(gp: Parameter, cnum: int)
    requires gp.sizeP > 0 && gp.sizeB > 0 && gp.datasize >= 0 && cnum >= 0
    ensures Accepted(Sizing(gp, cnum)) <==> ParameterValidAsWritten(gp)
  {
  }

  // ---------------------------------------------------------------------
  // Grouping
  // ---------------------------------------------------------------------

  /** The two code types create_context_from_meta groups packets for. */
  predicate KnownType(typ: int)
  {
    typ == RandGnc || typ == BandGnc
  }

  /**
   * The generations create_context_from_meta builds: group_packets_rand
   * or group_packets_band over the snum + cnum packets; for any other
   * type they keep gid -1 and packet ids -1.
   */
  function Groups(m: Meta): (gene: seq<Generation>)
    requires Accepted(m)
    ensures |gene| == m.gnum
  {
    GroupSizes(m);
    var numP := m.snum + m.cnum;
    if m.typ == RandGnc then GncRandGroups(m.gnum, m.sizeB, m.sizeG, m.gnum, numP)
    else if m.typ == BandGnc then seq(m.gnum, i => Generation(i, BandGeneration(i, m.sizeB, m.sizeG, numP)))
    else seq(m.gnum, _ => Generation(-1, seq(m.sizeG, _ => -1)))
  }

  /** Every packet index the grouping holds lies among the snum + cnum packets, the buffers encode_packet reads. */
  predicate GroupsInRange(m: Meta)
    requires Accepted(m)
  {
    forall i :: 0 <= i < m.gnum ==> InPackets(Groups(m)[i].pktid, m.snum + m.cnum)
  }

  /**
   * Every generation of a known type carries its own index and size_g
   * distinct packet indices, and its first size_b entries are the base
   * indices (i * size_b + j) % num_p.
   */
  lemma GroupsValid(m: Meta, i: int)
    requires Accepted(m) && KnownType(m.typ) && 0 <= i < m.gnum
    ensures Groups(m)[i].gid == i && |Groups(m)[i].pktid| == m.sizeG && Distinct(Groups(m)[i].pktid)
    ensures m.typ == RandGnc ==>
      forall j :: 0 <= j < m.sizeB ==> Groups(m)[i].pktid[j] == (i * m.sizeB + j) % (m.snum + m.cnum)
  {
    GroupSizes(m);
    var numP := m.snum + m.cnum;
    if m.typ == RandGnc {
      GncRandGroupsAt(m.gnum, i, m.sizeB, m.sizeG, m.gnum, numP);
      GncRandGenerationDistinct(m.sizeG, i, Rotation(i, m.sizeG), m.sizeB, m.sizeG, m.gnum, numP);
      GncRandBase(m.sizeG, i, Rotation(i, m.sizeG), m.sizeB, m.sizeG, m.gnum, numP);
    } else {
      var g := BandGeneration(i, m.sizeB, m.sizeG, numP);
      assert forall a, b :: 0 <= a < b < |g| ==> g[a] < g[b];
    }
  }

  /** Band grouping stays among the packets exactly when a generation of size_g fits in snum + cnum packets. */
  lemma BandInRangeIff(m: Meta)
    requires Accepted(m) && m.typ == BandGnc
    ensures GroupsInRange(m) <==> m.sizeG <= m.snum + m.cnum
  {
    GroupSizes(m);
    var numP := m.snum + m.cnum;
    if m.sizeG <= numP {
      forall i | 0 <= i < m.gnum
        ensures InPackets(Groups(m)[i].pktid, numP)
      {
        BandInRange(i, m.sizeB, m.sizeG, numP);
      }
    } else {
      assert Groups(m)[0].pktid[0] == numP - m.sizeG < 0;
    }
  }

  /** With the evidently intended check, a band grouping always stays among the packets. */
  lemma IntendedBandInRange(m: Meta)
    requires Accepted(m) && m.typ == BandGnc
    requires ParameterValid(Parameter(m.datasize, m.sizeB, m.sizeG, m.sizeP, m.typ))
    ensures GroupsInRange(m)
  {
    IntendedSizes(Parameter(m.datasize, m.sizeB, m.sizeG, m.sizeP, m.typ));
    BandInRangeIff(m);
  }

  /**
   * verify_code_parameter as written lets size_g exceed the packet count:
   * 10 bytes in 10-byte packets make one source packet, number_of_checks
   * gives 4 checks, and with size_b = 1 and size_g = 6 the band grouping
   * starts generation 0 at packet -1.
   */
  lemma BandIndexBelowZero()
    ensures var gp := Parameter(10, 1, 6, 10, BandGnc);
      ParameterValidAsWritten(gp) && !ParameterValid(gp) && ChecksAsWritten(1, 4) &&
      Sizing(gp, 4) == Meta(10, 1, 6, 10, BandGnc, 1, 4, 5) &&
      Groups(Sizing(gp, 4))[0].pktid[0] == -1 && !GroupsInRange(Sizing(gp, 4))
  {
    assert FloorSqrt(2) == 1;
    assert XOf(1) == 2;
    assert Align(1, 100) == 1;
    assert CountsPrime(3);
    assert Align(10, 10) == 1 && Align(5, 1) == 5;
  }

  /**
   * A context create_gnc_context accepts whose random grouping holds a
   * negative index: one source packet, 4 checks, size_b = 1, size_g = 2,
   * and entry 1 of generation 0 is packet -2.
   */
  lemma RandIndexBelowZero()
    ensures var gp := Parameter(10, 1, 2, 10, RandGnc);
      ParameterValidAsWritten(gp) && ChecksAsWritten(1, 4) &&
      Sizing(gp, 4) == Meta(10, 1, 2, 10, RandGnc, 1, 4, 5) &&
      Groups(Sizing(gp, 4))[0].pktid[1] == -2 && !GroupsInRange(Sizing(gp, 4))
  {
    assert FloorSqrt(2) == 1;
    assert XOf(1) == 2;
    assert Align(1, 100) == 1;
    assert CountsPrime(3);
    assert Align(10, 10) == 1 && Align(5, 1) == 5;
    GncRandGroupsAt(5, 0, 1, 2, 5, 5);
    GncRandNegativeIndex();
  }

  /** Under random grouping packet p is base entry p % size_b of generation p / size_b. */
  lemma RandGrouped(m: Meta, p: int)
    requires Accepted(m) && m.typ == RandGnc && 0 <= p < m.snum + m.cnum
    ensures 0 <= p / m.sizeB < m.gnum && p in Groups(m)[p / m.sizeB].pktid
  {
    GroupSizes(m);
    var numP, sb := m.snum + m.cnum, m.sizeB;
    var i, k := p / sb, p % sb;
    SncEncoder.RandBaseIndex(p, sb, m.gnum, numP);
    GroupsValid(m, i);
    var ids := Groups(m)[i].pktid;
    assert ids[k] == (i * sb + k) % numP;
    BaseIsPacket(p, sb, numP);
  }

  /** p is its own base index (p / size_b) * size_b + p % size_b, taken modulo num_p. */
  lemma BaseIsPacket(p: int, sb: int, numP: int)
    requires 0 < sb && 0 <= p < numP
    ensures (p / sb * sb + p % sb) % numP == p
  {
    assert p / sb * sb + p % sb == p;
    DivModUnique(p, 0, p, numP);
  }

  /** Under band grouping every packet lies in some band, clipped bands included. */
  lemma BandGrouped(m: Meta, p: int)
    requires Accepted(m) && m.typ == BandGnc && 0 <= p < m.snum + m.cnum
    ensures exists i :: 0 <= i < m.gnum && p in Groups(m)[i].pktid
  {
    GroupSizes(m);
    var numP := m.snum + m.cnum;
    if m.sizeG <= numP {
      GncBandCount(m.sizeB, m.sizeG, numP);
      BandCovers(p, m.sizeB, m.sizeG, m.gnum, numP);
      var i :| 0 <= i < m.gnum && p in BandGeneration(i, m.sizeB, m.sizeG, numP);
      assert Groups(m)[i].pktid == BandGeneration(i, m.sizeB, m.sizeG, numP);
    } else {
      // generation 0 is clipped to start at numP - size_g < 0 and so holds every packet
      var g := Groups(m)[0].pktid;
      assert g == BandGeneration(0, m.sizeB, m.sizeG, numP);
      assert g[p - (numP - m.sizeG)] == p;
    }
  }

  /** Every packet, source or check, belongs to some generation. */
  lemma EveryPacketGrouped(m: Meta, p: int)
    requires Accepted(m) && KnownType(m.typ) && 0 <= p < m.snum + m.cnum
    ensures exists i :: 0 <= i < m.gnum && p in Groups(m)[i].pktid
  {
    if m.typ == RandGnc {
      RandGrouped(m, p);
    } else {
      BandGrouped(m, p);
    }
  }

  /** The grouping step of create_context_from_meta, dispatched on the code type. */
  method GroupPackets(m: Meta) returns (gene: seq<Generation>)
    requires Accepted(m)
    ensures gene == Groups(m)
  {
    GroupSizes(m);
    var numP := m.snum + m.cnum;
    if m.typ == RandGnc {
      gene := GroupRandGnc(m.sizeB, m.sizeG, m.gnum, numP);
    } else if m.typ == BandGnc {
      gene := GroupBand(m.sizeB, m.sizeG, m.gnum, numP);
    } else {
      gene := seq(m.gnum, _ => Generation(-1, seq(m.sizeG, _ => -1)));
    }
  }

  /** The members of a generation in range name size_p-byte buffers among the snum + cnum packets. */
  lemma MembersCover(m: Meta, pp: seq<seq<bv8>>, i: int)
    requires Accepted(m) && KnownType(m.typ) && GroupsInRange(m) && 0 <= i < m.gnum
    requires |pp| == m.snum + m.cnum && Uniform(pp, m.sizeP)
    ensures |Groups(m)[i].pktid| == m.sizeG && Covers(pp, Groups(m)[i].pktid, m.sizeP)
  {
    GroupsValid(m, i);
    var ids := Groups(m)[i].pktid;
    assert InPackets(ids, m.snum + m.cnum);
    forall k | 0 <= k < |ids|
      ensures 0 <= ids[k] < |pp| && m.sizeP <= |pp[ids[k]]|
    {
    }
  }

  // ---------------------------------------------------------------------
  // Loading
  // ---------------------------------------------------------------------

  /**
   * The load loop of create_gnc_context runs over all snum + cnum buffers:
   * once the data is used up nothing more is read, so the sources hold the
   * zero-padded data and every check buffer is zero.
   */
  lemma {:induction false} LoadedChecksZero(pp: seq<seq<bv8>>, data: seq<bv8>, snum: nat, sizeP: nat)
    requires snum <= |pp| && Uniform(pp, sizeP) && |data| <= snum * sizeP
    requires Concat(pp) == data + Zeros(|pp| * sizeP - |data|)
    ensures Concat(pp[..snum]) == data + Zeros(snum * sizeP - |data|)
    ensures forall k :: snum <= k < |pp| ==> pp[k] == Zeros(sizeP)
    decreases |pp|
  {
    if |pp| > snum {
      var n := |pp| - 1;
      var front, last := pp[..n], pp[n];
      ConcatLength(front, sizeP);
      MulMonotone(snum, n, sizeP);
      assert n * sizeP + sizeP == |pp| * sizeP;
      var all := data + Zeros(|pp| * sizeP - |data|);
      assert Concat(pp) == Concat(front) + last;
      assert Concat(front) == all[..n * sizeP];
      assert last == all[n * sizeP..];
      assert all[..n * sizeP] == data + Zeros(n * sizeP - |data|);
      assert last == Zeros(sizeP);
      LoadedChecksZero(front, data, snum, sizeP);
      assert front[..snum] == pp[..snum];
    } else {
      assert pp[..snum] == pp;
    }
  }

  // ---------------------------------------------------------------------
  // Encoding
  // ---------------------------------------------------------------------

  /** The coefficients encode_packet draws: the low byte of each rand() value. */
  function DrawCoefficients(draws: seq<nat>): (co: seq<bv8>)
    ensures |co| == |draws|
  {
    seq(|draws|, i requires 0 <= i < |draws| => (draws[i] % 256) as bv8)
  }

  /** The payload encode_packet adds to syms for generation gid: its members weighted by the drawn coefficients. */
  function EncodedPayload(m: Meta, pp: seq<seq<bv8>>, gid: int, syms: seq<bv8>, draws: seq<nat>): seq<bv8>
    requires Accepted(m) && KnownType(m.typ) && GroupsInRange(m) && 0 <= gid < m.gnum
    requires |pp| == m.snum + m.cnum && Uniform(pp, m.sizeP) && |syms| == m.sizeP && |draws| == m.sizeG
  {
    MembersCover(m, pp, gid);
    Accumulate(syms, pp, Groups(m)[gid].pktid, DrawCoefficients(draws), m.sizeG)
  }

  /** schedule_generation: rand() % gnum, a valid generation id. */
  function ScheduleGeneration(gnum: int, draw: nat): (gid: int)
    requires gnum >= 1
    ensures 0 <= gid < gnum && gid % gnum == draw % gnum
  {
    draw % gnum
  }

  // ---------------------------------------------------------------------
  // The encoding context
  // ---------------------------------------------------------------------

  /** gnc_context. */
  class GncContext {
    var meta: Meta
    /** The generations gene[0 .. gnum-1]. */
    var gene: seq<Generation>
    /** The precode graph; null when there are no check packets. */
    var graph: Graph?
    /** The snum source packets followed by the cnum check packets. */
    var pp: seq<seq<bv8>>
    /** The data the source packets were cut from. */
    ghost var data: seq<bv8>

    /** What create_context_from_meta builds: the generations and a precode graph whose check lists name source packets. */
    ghost predicate Structured()
      reads this`meta, this`gene, this`graph, graph
    {
      Accepted(meta) && gene == Groups(meta) &&
      (meta.cnum != 0 ==>
        graph != null && |graph.lNbrsOfR| == meta.cnum && SncEncoder.NamesSources(graph.lNbrsOfR, meta.snum))
    }

    /** The graph is the one create_bipartite_graph builds for snum source and cnum check packets. */
    ghost predicate GraphBuilt()
      reads this`meta, this`graph, graph
    {
      meta.cnum != 0 ==>
        graph != null && graph.Valid() && graph.nleft == meta.snum && graph.nright == meta.cnum &&
        graph.joined == meta.snum
    }

    /** The state create_gnc_context leaves, apart from the packet contents. */
    ghost predicate Valid()
      reads this`meta, this`gene, this`graph, this`pp, graph
    {
      Structured() && |pp| == meta.snum + meta.cnum
    }

    /** The packets were loaded from data: every buffer holds size_p bytes and the sources lay out data, zero-padded. */
    ghost predicate Loaded()
      reads this`meta, this`pp, this`data
    {
      meta.sizeP >= 0 && |pp| >= meta.snum >= 0 && Uniform(pp, meta.sizeP) &&
      |data| == meta.datasize && |data| <= meta.snum * meta.sizeP &&
      Concat(pp[..meta.snum]) == data + Zeros(meta.snum * meta.sizeP - |data|)
    }

    /** The neighbour lists of the checks: l_nbrs_of_r of the graph, none without checks. */
    function CheckLists(): (lists: seq<seq<nat>>)
      requires Valid()
      reads this`meta, this`gene, this`graph, this`pp, graph
      ensures |lists| == meta.cnum && SncEncoder.NamesSources(lists, meta.snum)
    {
      if meta.cnum == 0 then [] else graph.lNbrsOfR
    }

    constructor (m: Meta)
      ensures meta == m && gene == [] && graph == null && pp == [] && data == []
    {
      meta, gene, graph, pp, data := m, [], null, [], [];
    }

    /**
     * create_gnc_context: cnum is what number_of_checks returns for snum;
     * null when verify_code_parameter rejects the sizes; otherwise the
     * generations and the precode graph are built and, when a buffer is
     * given, its datasize bytes are cut into snum zero-padded source
     * packets followed by check packets precoded from zero.
     */
    static method Create(gp: Parameter, buf: Option<seq<bv8>>) returns (gc: GncContext?)
      requires gp.sizeP > 0 && gp.sizeB > 0 && gp.datasize >= 0
      requires buf.Some? ==> |buf.value| == gp.datasize
      ensures gc == null <==> !ParameterValidAsWritten(gp)
      ensures gc != null ==> fresh(gc) && (gc.graph == null || fresh(gc.graph))
      ensures gc != null ==> gc.Valid() && gc.GraphBuilt() && gc.meta == Sizing(gp, gc.meta.cnum)
      ensures gc != null ==> ChecksAsWritten(gc.meta.snum, gc.meta.cnum)
      ensures gc != null && buf.None? ==> gc.pp == seq(gc.meta.snum + gc.meta.cnum, _ => [])
      ensures gc != null && buf.Some? ==> gc.Loaded() && gc.data == buf.value
      ensures gc != null && buf.Some? ==> SncEncoder.ChecksAreSums(gc.pp, gc.meta.snum, gc.CheckLists(), gc.meta.sizeP)
    {
      var snum := Align(gp.datasize, gp.sizeP);
      var cnum := NumberOfChecks(snum);
      ChecksPositive(snum, cnum);
      if !ParameterValidAsWritten(gp) {
        return null;
      }
      var m := Sizing(gp, cnum);
      gc := new GncContext(m);
      gc.Populate(buf);
    }

    /** The rest of create_gnc_context once meta is fixed: the structure, then the packets (empty buffers without data). */
    method Populate(buf: Option<seq<bv8>>)
      requires Accepted(meta) && (buf.Some? ==> |buf.value| == meta.datasize)
      modifies this
      ensures meta == old(meta) && (graph == null || fresh(graph))
      ensures Valid() && GraphBuilt()
      ensures buf.None? ==> pp == seq(meta.snum + meta.cnum, _ => [])
      ensures buf.Some? ==> Loaded() && data == buf.value
      ensures buf.Some? ==> SncEncoder.ChecksAreSums(pp, meta.snum, CheckLists(), meta.sizeP)
    {
      var m := meta;
      ValidSizes(Parameter(m.datasize, m.sizeB, m.sizeG, m.sizeP, m.typ));
      CreateFromMeta();
      if buf.None? {
        pp := seq(m.snum + m.cnum, _ => []);
        return;
      }
      LoadData(buf.value);
    }

    /** create_context_from_meta: gnum generations grouped by the code type, and the precode graph when cnum != 0. */
    method CreateFromMeta()
      requires Accepted(meta)
      modifies this
      ensures Structured() && GraphBuilt() && meta == old(meta) && pp == old(pp) && data == old(data)
      ensures graph == null || fresh(graph)
    {
      var m := meta;
      GroupSizes(m);
      gene := GroupPackets(m);
      graph := null;
      if m.cnum != 0 {
        graph := SncEncoder.BuildGraph(m.snum, m.cnum);
      }
    }

    /**
     * The loading step of create_gnc_context: datasize bytes copied into
     * the snum + cnum buffers in turn (the checks get none and stay zero),
     * then the checks precoded, so that each is the sum of its source
     * neighbours.
     */
    method LoadData(buf: seq<bv8>)
      requires Structured() && |buf| == meta.datasize
      modifies this
      ensures Valid() && Loaded() && data == buf
      ensures meta == old(meta) && gene == old(gene) && graph == old(graph)
      ensures SncEncoder.ChecksAreSums(pp, meta.snum, CheckLists(), meta.sizeP)
    {
      var m := meta;
      ValidSizes(Parameter(m.datasize, m.sizeB, m.sizeG, m.sizeP, m.typ));
      MulMonotone(m.snum, m.snum + m.cnum, m.sizeP);
      var all := Load(buf, m.sizeP, m.snum + m.cnum);
      LoadedChecksZero(all, buf, m.snum, m.sizeP);
      pp := all;
      data := buf;
      ghost var before := pp;
      PerformPrecoding();
      SncEncoder.PrecodedSums(before, m.snum, CheckLists(), m.sizeP);
    }

    /** perform_precoding: each check gets the sum of its source neighbours added. */
    method PerformPrecoding()
      requires Valid() && Loaded()
      modifies this
      ensures Valid() && Loaded()
      ensures meta == old(meta) && gene == old(gene) && graph == old(graph) && data == old(data)
      ensures pp == SncEncoder.Precoded(old(pp), meta.snum, CheckLists(), meta.sizeP)
    {
      ghost var before := pp;
      pp := SncEncoder.PrecodeAll(pp, meta.snum, CheckLists(), meta.sizeP);
      assert pp[..meta.snum] == before[..meta.snum];
    }

    /**
     * encode_packet for generation gid: for each member i in turn, a
     * coefficient is drawn, written to coes[i], and that multiple of the
     * member is added to the payload.
     */
    method EncodePacket(gid: int, pkt: SncEncoder.Packet, draws: seq<nat>) returns (out: SncEncoder.Packet)
      requires Valid() && Loaded() && KnownType(meta.typ) && GroupsInRange(meta) && 0 <= gid < meta.gnum
      requires |pkt.coes| == meta.sizeG && |pkt.syms| == meta.sizeP && |draws| == meta.sizeG
      ensures out.gid == gid && out.coes == DrawCoefficients(draws)
      ensures out.syms == EncodedPayload(meta, pp, gid, pkt.syms, draws)
    {
      MembersCover(meta, pp, gid);
      var co := DrawCoefficients(draws);
      var coes, syms := SncEncoder.EncodeCoded(false, pkt.coes, pkt.syms, pp, gene[gid].pktid, co);
      assert coes == co;
      out := SncEncoder.Packet(gid, coes, syms);
    }

    /**
     * generate_gnc_packet: a zeroed packet filled for the scheduled
     * generation.  Its payload is the combination of the generation's
     * packets that its coefficient vector names.
     */
    method GeneratePacket(draw: nat, draws: seq<nat>) returns (pkt: SncEncoder.Packet)
      requires Valid() && Loaded() && KnownType(meta.typ) && GroupsInRange(meta) && |draws| == meta.sizeG
      ensures pkt.gid == draw % meta.gnum && |pkt.coes| == meta.sizeG && |pkt.syms| == meta.sizeP
      ensures pkt.coes == DrawCoefficients(draws)
      ensures Covers(pp, gene[pkt.gid].pktid, meta.sizeP) && |gene[pkt.gid].pktid| == meta.sizeG &&
        pkt.syms == Accumulate(Zeros(meta.sizeP), pp, gene[pkt.gid].pktid, pkt.coes, meta.sizeG)
    {
      GroupSizes(meta);
      var gid := ScheduleGeneration(meta.gnum, draw);
      MembersCover(meta, pp, gid);
      pkt := EncodePacket(gid, SncEncoder.Packet(0, Zeros(meta.sizeG), Zeros(meta.sizeP)), draws);
    }

    /** recover_data: datasize bytes read back from the source packets, which is the loaded data. */
    method RecoverData() returns (r: seq<bv8>)
      requires Valid() && Loaded()
      ensures r == data
    {
      ConcatLength(pp[..meta.snum], meta.sizeP);
      ConcatPrefix(pp, meta.snum);
      r := Recover(pp, meta.sizeP, meta.datasize);
      assert Concat(pp)[..meta.datasize] == Concat(pp[..meta.snum])[..meta.datasize];
    }
  }
}
