/**
 * The SNC encoder (src/sncEncoder.c): sizing and validation of the code
 * parameters, the encoding context (subgenerations, precode graph, packet
 * buffers and per-subgeneration send counters), precoding, packet
 * encoding, generation scheduling and data recovery.
 *
 * The values rand() would return are parameters (`draw`, `draws`), and so
 * is cnum, which the source obtains from number_of_checks(snum, pcrate).
 * galois_multiply_add_region is taken as its specification AddScaled
 * (Galois.Field.MultiplyAddRegion is proved to compute it).
 */
module SncEncoder {
  import opened Wrappers
  import opened Common
  import opened Arith
  import opened GaloisArith
  import opened Packets
  import opened Grouping
  import opened Bipartite

  /** Code types (include/sparsenc.h). */
  const RandSnc: int := 0
  const BandSnc: int := 1
  const WindWrapSnc: int := 2

  /** snc_parameter: what the caller asks for (pcrate only feeds cnum). */
  datatype Parameter = Parameter(datasize: int, sizeB: int, sizeG: int, sizeP: int, typ: int,
                                 bpc: bool, bnc: bool, sys: bool)

  /** snc_metainfo: the parameters together with the packet and subgeneration counts. */
  datatype Meta = Meta(datasize: int, sizeB: int, sizeG: int, sizeP: int, typ: int,
                       bpc: bool, bnc: bool, sys: bool, snum: int, cnum: int, gnum: int)

  /** snc_packet: subgeneration id, coefficient bytes and payload. */
  datatype Packet = Packet(gid: int, coes: seq<bv8>, syms: seq<bv8>)

  // ---------------------------------------------------------------------
  // Sizing and validation
  // ---------------------------------------------------------------------

  /** The number of subgenerations for num_p packets: a BAND code needs one window more than it advances. */
  function GenerationCount(typ: int, numP: int, sb: int, sg: int): int
    requires sb != 0
  {
    if typ == BandSnc then Align(numP - sg, sb) + 1 else Align(numP, sb)
  }

  /** The sizing of snc_create_enc_context: snum packets of size_p bytes, cnum checks, gnum subgenerations. */
  function Sizing(sp: Parameter, cnum: int): (m: Meta)
    requires sp.sizeP > 0 && sp.sizeB > 0
    ensures m.snum == Align(sp.datasize, sp.sizeP) && m.cnum == cnum
    ensures m.gnum == GenerationCount(sp.typ, m.snum + cnum, sp.sizeB, sp.sizeG)
  {
    var snum := Align(sp.datasize, sp.sizeP);
    Meta(sp.datasize, sp.sizeB, sp.sizeG, sp.sizeP, sp.typ, sp.bpc, sp.bnc, sp.sys,
         snum, cnum, GenerationCount(sp.typ, snum + cnum, sp.sizeB, sp.sizeG))
  }

  /** verify_code_parameter returns 0: size_b <= size_g and size_g * size_p <= datasize. */
  predicate ParameterValid(m: Meta)
  {
    m.sizeB <= m.sizeG && m.sizeG * m.sizeP <= m.datasize
  }

  /** The meta of a context snc_create_enc_context returns. */
  predicate Accepted(m: Meta)
  {
    m.sizeP > 0 && m.sizeB > 0 && m.datasize >= 0 && m.cnum >= 0 &&
    m.snum == Align(m.datasize, m.sizeP) &&
    m.gnum == GenerationCount(m.typ, m.snum + m.cnum, m.sizeB, m.sizeG) &&
    ParameterValid(m)
  }

  /**
   * The sizes an accepted meta guarantees: a subgeneration fits among the
   * source packets, and there is at least one source packet and one
   * subgeneration.
   */
  lemma AcceptedSizes(m: Meta)
    requires Accepted(m)
    ensures 0 < m.sizeB <= m.sizeG <= m.snum && m.gnum >= 1
    ensures m.snum * m.sizeP >= m.datasize > (m.snum - 1) * m.sizeP
  {
    MulAtLeast(m.sizeB, m.sizeP);
    MulMonotone(m.sizeB, m.sizeG, m.sizeP);
    AlignIsCeiling(m.datasize, m.sizeP);
    if m.sizeG > m.snum {
      MulMonotone(m.snum + 1, m.sizeG, m.sizeP);
      assert false;
    }
    var numP := m.snum + m.cnum;
    if m.typ == BandSnc {
      AlignIsCeiling(numP - m.sizeG, m.sizeB);
    } else {
      AlignIsCeiling(numP, m.sizeB);
    }
  }

  /** The part of AcceptedSizes the grouping functions need. */
  lemma GroupSizes(m: Meta)
    requires Accepted(m)
    ensures 0 < m.sizeB <= m.sizeG <= m.snum && m.gnum >= 1
  {
    AcceptedSizes(m);
  }

  /** Sizing a parameter set that verify_code_parameter accepts gives an accepted meta. */
  lemma SizingAccepted(sp: Parameter, cnum: int)
    requires sp.sizeP > 0 && sp.sizeB > 0 && sp.datasize >= 0 && cnum >= 0
    ensures Accepted(Sizing(sp, cnum)) <==> ParameterValid(Sizing(sp, cnum))
  {
  }

  // ---------------------------------------------------------------------
  // Grouping
  // ---------------------------------------------------------------------

  /** The three code types create_context_from_meta groups packets for. */
  predicate KnownType(typ: int)
  {
    typ == RandSnc || typ == BandSnc || typ == WindWrapSnc
  }

  /**
   * The subgenerations create_context_from_meta builds: by the random,
   * band or window-wrap grouping; for any other type they keep gid -1 and
   * packet ids -1.
   */
  function Groups(m: Meta): (gene: seq<Generation>)
    requires Accepted(m)
    ensures |gene| == m.gnum
  {
    GroupSizes(m);
    var numP := m.snum + m.cnum;
    if m.typ == RandSnc then SncRandGroups(m.gnum, m.sizeB, m.sizeG, m.gnum, numP)
    else if m.typ == BandSnc then seq(m.gnum, i => Generation(i, BandGeneration(i, m.sizeB, m.sizeG, numP)))
    else if m.typ == WindWrapSnc then seq(m.gnum, i => Generation(i, WindWrapGeneration(i, m.sizeB, m.sizeG, numP)))
    else seq(m.gnum, _ => Generation(-1, seq(m.sizeG, _ => -1)))
  }

  /**
   * Every subgeneration of a known code type carries its own index as gid
   * and size_g distinct packet indices below snum + cnum.
   */
  lemma GroupsValid(m: Meta, i: int)
    requires Accepted(m) && KnownType(m.typ) && 0 <= i < m.gnum
    ensures Groups(m)[i].gid == i && |Groups(m)[i].pktid| == m.sizeG
    ensures Distinct(Groups(m)[i].pktid) && InPackets(Groups(m)[i].pktid, m.snum + m.cnum)
  {
    AcceptedSizes(m);
    var numP := m.snum + m.cnum;
    if m.typ == RandSnc {
      SncRandGroupsAt(m.gnum, i, m.sizeB, m.sizeG, m.gnum, numP);
      SncRandGenerationValid(m.sizeG, i, Rotation(i, m.sizeG), m.sizeB, m.sizeG, m.gnum, numP);
    } else if m.typ == BandSnc {
      BandInRange(i, m.sizeB, m.sizeG, numP);
    } else {
      WindWrapInRange(i, m.sizeB, m.sizeG, numP);
    }
  }

  /** Random grouping: packet p sits in the base part of subgeneration p / size_b. */
  lemma RandCovers(m: Meta, p: int)
    requires Accepted(m) && m.typ == RandSnc && 0 <= p < m.snum + m.cnum
    ensures exists i :: 0 <= i < m.gnum && p in Groups(m)[i].pktid
  {
    AcceptedSizes(m);
    var numP := m.snum + m.cnum;
    RandBaseIndex(p, m.sizeB, m.gnum, numP);
    RandBaseMember(p, m.sizeB, m.sizeG, m.gnum, numP);
    assert p in Groups(m)[p / m.sizeB].pktid;
  }

  /** With gnum == ALIGN(numP, size_b) the base of every packet index is a subgeneration. */
  lemma RandBaseIndex(p: int, sb: int, gnum: int, numP: int)
    requires 0 < sb && 0 <= p < numP && gnum == Align(numP, sb)
    ensures 0 <= p / sb < gnum
  {
    var i, k := p / sb, p % sb;
    assert p == i * sb + k;
    AlignIsCeiling(numP, sb);
    if i >= gnum {
      MulMonotone(gnum, i, sb);
    }
  }

  /** Packet p is member p % size_b of the base of subgeneration p / size_b. */
  lemma RandBaseMember(p: int, sb: int, sg: int, gnum: int, numP: int)
    requires 0 < sb <= sg <= numP && 0 <= p < numP && p / sb < gnum
    ensures p in SncRandGroups(gnum, sb, sg, gnum, numP)[p / sb].pktid
  {
    var i, k := p / sb, p % sb;
    assert p == i * sb + k;
    var g := SncRandGeneration(sg, i, Rotation(i, sg), sb, sg, gnum, numP);
    SncRandGenerationValid(sg, i, Rotation(i, sg), sb, sg, gnum, numP);
    assert g[k] == (i * sb + k) % numP;
    DivModUnique(p, 0, p, numP);
    SncRandGroupsAt(gnum, i, sb, sg, gnum, numP);
    assert g[k] == p;
  }

  /**
   * With the gnum of snc_create_enc_context every packet index belongs to
   * some subgeneration, for each of the three code types.
   */
  lemma EveryPacketGrouped(m: Meta, p: int)
    requires Accepted(m) && KnownType(m.typ) && 0 <= p < m.snum + m.cnum
    ensures exists i :: 0 <= i < m.gnum && p in Groups(m)[i].pktid
  {
    AcceptedSizes(m);
    var numP := m.snum + m.cnum;
    if m.typ == RandSnc {
      RandCovers(m, p);
    } else if m.typ == BandSnc {
      BandCovers(p, m.sizeB, m.sizeG, m.gnum, numP);
      var i :| 0 <= i < m.gnum && p in BandGeneration(i, m.sizeB, m.sizeG, numP);
      assert Groups(m)[i].pktid == BandGeneration(i, m.sizeB, m.sizeG, numP);
    } else {
      WindWrapCovers(p, m.sizeB, m.sizeG, numP);
      var i := p / m.sizeB;
      assert Groups(m)[i].pktid == WindWrapGeneration(i, m.sizeB, m.sizeG, numP);
    }
  }

  /** The grouping step of create_context_from_meta, dispatched on the code type. */
  method GroupPackets(m: Meta) returns (gene: seq<Generation>)
    requires Accepted(m)
    ensures gene == Groups(m)
  {
    AcceptedSizes(m);
    var numP := m.snum + m.cnum;
    if m.typ == RandSnc {
      gene := GroupRand(m.sizeB, m.sizeG, m.gnum, numP);
    } else if m.typ == BandSnc {
      gene := GroupBand(m.sizeB, m.sizeG, m.gnum, numP);
    } else if m.typ == WindWrapSnc {
      gene := GroupWindWrap(m.sizeB, m.sizeG, m.gnum, numP);
    } else {
      gene := seq(m.gnum, _ => Generation(-1, seq(m.sizeG, _ => -1)));
    }
  }

  /** The precode graph create_context_from_meta builds when there are check packets. */
  method BuildGraph(snum: nat, cnum: nat) returns (g: Graph)
    requires cnum > 0
    ensures fresh(g) && g.Valid() && g.nleft == snum && g.nright == cnum && g.joined == snum
    ensures |g.lNbrsOfR| == cnum && NamesSources(g.lNbrsOfR, snum)
  {
    g := new Graph();
    g.Create(snum, cnum);
    JoinedBelow(g.lNbrsOfR, g.rNbrsOfL, g.table, g.nright, g.joined);
  }

  /** The members of a subgeneration name size_p-byte buffers among the snum + cnum packets. */
  lemma MembersCover(m: Meta, pp: seq<seq<bv8>>, i: int)
    requires Accepted(m) && KnownType(m.typ) && 0 <= i < m.gnum
    requires |pp| == m.snum + m.cnum && Uniform(pp, m.sizeP)
    ensures |Groups(m)[i].pktid| == m.sizeG && Covers(pp, Groups(m)[i].pktid, m.sizeP)
  {
    GroupsValid(m, i);
    var ids := Groups(m)[i].pktid;
    forall k | 0 <= k < |ids|
      ensures 0 <= ids[k] < |pp| && m.sizeP <= |pp[ids[k]]|
    {
    }
  }

  // ---------------------------------------------------------------------
  // Precoding
  // ---------------------------------------------------------------------

  /** The neighbour lists name source packets only. */
  predicate NamesSources(lists: seq<seq<nat>>, snum: int)
  {
    forall i, k :: 0 <= i < |lists| && 0 <= k < |lists[i]| ==> lists[i][k] < snum
  }

  /**
   * The packets once the first n checks are precoded: the sources
   * unchanged, and check i < n with the sum of its source neighbours (edge
   * coefficient 1) added.
   */
  function PrecodeFirst(pp: seq<seq<bv8>>, snum: nat, lists: seq<seq<nat>>, sizeP: nat, n: nat): (r: seq<seq<bv8>>)
    requires n <= |lists| && |pp| == snum + |lists| && Uniform(pp, sizeP) && NamesSources(lists, snum)
    ensures |r| == |pp| && Uniform(r, sizeP) && r[..snum] == pp[..snum]
    ensures forall k :: snum + n <= k < |pp| ==> r[k] == pp[k]
  {
    if n == 0 then pp
    else
      var r := PrecodeFirst(pp, snum, lists, sizeP, n - 1);
      var nb := lists[n - 1];
      r[snum + n - 1 := Accumulate(pp[snum + n - 1], pp[..snum], nb, Ones(|nb|), |nb|)]
  }

  /** The packets after perform_precoding: every check precoded. */
  function Precoded(pp: seq<seq<bv8>>, snum: nat, lists: seq<seq<nat>>, sizeP: nat): (r: seq<seq<bv8>>)
    requires |pp| == snum + |lists| && Uniform(pp, sizeP) && NamesSources(lists, snum)
  {
    PrecodeFirst(pp, snum, lists, sizeP, |lists|)
  }

  /** Check i after the first n are precoded: its neighbours added when i < n, untouched otherwise. */
  lemma {:induction false} PrecodeFirstAt(pp: seq<seq<bv8>>, snum: nat, lists: seq<seq<nat>>, sizeP: nat, n: nat, i: nat)
    requires n <= |lists| && |pp| == snum + |lists| && Uniform(pp, sizeP) && NamesSources(lists, snum)
    requires i < |lists|
    ensures var nb := lists[i];
      PrecodeFirst(pp, snum, lists, sizeP, n)[snum + i]
      == if i < n then Accumulate(pp[snum + i], pp[..snum], nb, Ones(|nb|), |nb|) else pp[snum + i]
  {
    if n > 0 && i < n - 1 {
      PrecodeFirstAt(pp, snum, lists, sizeP, n - 1, i);
    }
  }

  /**
   * Checks precoded from zero buffers satisfy their parity equations:
   * adding the neighbours once more cancels every check.
   */
  lemma PrecodedParity(pp: seq<seq<bv8>>, snum: nat, lists: seq<seq<nat>>, sizeP: nat, i: nat)
    requires |pp| == snum + |lists| && Uniform(pp, sizeP) && NamesSources(lists, snum)
    requires i < |lists| && pp[snum + i] == Zeros(sizeP)
    ensures var n := |lists[i]|;
      Accumulate(Precoded(pp, snum, lists, sizeP)[snum + i], pp[..snum], lists[i], Ones(n), n) == Zeros(sizeP)
  {
    PrecodeFirstAt(pp, snum, lists, sizeP, |lists|, i);
    ParityEquation(pp[..snum], lists[i], sizeP);
  }

  /** One more check precoded: check n gets the sum of its neighbours among the (unchanged) sources. */
  lemma PrecodeFirstStep(pp: seq<seq<bv8>>, snum: nat, lists: seq<seq<nat>>, sizeP: nat, n: nat)
    requires n < |lists| && |pp| == snum + |lists| && Uniform(pp, sizeP) && NamesSources(lists, snum)
    ensures var q := PrecodeFirst(pp, snum, lists, sizeP, n);
      var nb := lists[n];
      Covers(q[..snum], nb, |q[snum + n]|) &&
      PrecodeFirst(pp, snum, lists, sizeP, n + 1)
      == q[snum + n := Accumulate(q[snum + n], q[..snum], nb, Ones(|nb|), |nb|)]
  {
    var q := PrecodeFirst(pp, snum, lists, sizeP, n);
    assert q[snum + n] == pp[snum + n];
    var nb := lists[n];
    forall k | 0 <= k < |nb|
      ensures 0 <= nb[k] < |q[..snum]| && |q[snum + n]| <= |q[..snum][nb[k]]|
    {
      assert nb[k] < snum;
    }
  }

  /** Every check packet is the sum of its source neighbours (edge coefficient 1). */
  predicate ChecksAreSums(pp: seq<seq<bv8>>, snum: int, lists: seq<seq<nat>>, sizeP: int)
  {
    0 <= snum && 0 <= sizeP && |pp| == snum + |lists| &&
    forall i :: 0 <= i < |lists| ==>
      Covers(pp[..snum], lists[i], sizeP) &&
      pp[snum + i] == Accumulate(Zeros(sizeP), pp[..snum], lists[i], Ones(|lists[i]|), |lists[i]|)
  }

  /** Precoding checks that start as zero buffers makes each of them the sum of its neighbours. */
  lemma PrecodedSums(pp: seq<seq<bv8>>, snum: nat, lists: seq<seq<nat>>, sizeP: nat)
    requires |pp| == snum + |lists| && Uniform(pp, sizeP) && NamesSources(lists, snum)
    requires forall k :: snum <= k < |pp| ==> pp[k] == Zeros(sizeP)
    ensures ChecksAreSums(Precoded(pp, snum, lists, sizeP), snum, lists, sizeP)
  {
    var q := Precoded(pp, snum, lists, sizeP);
    forall i | 0 <= i < |lists|
      ensures Covers(q[..snum], lists[i], sizeP)
      ensures q[snum + i] == Accumulate(Zeros(sizeP), q[..snum], lists[i], Ones(|lists[i]|), |lists[i]|)
    {
      PrecodeFirstStep(pp, snum, lists, sizeP, i);
      PrecodeFirstAt(pp, snum, lists, sizeP, |lists|, i);
      assert pp[snum + i] == Zeros(sizeP);
    }
  }

  /** The precoding loop of perform_precoding on the packet buffers. */
  method PrecodeAll(pp: seq<seq<bv8>>, snum: nat, lists: seq<seq<nat>>, sizeP: nat) returns (q: seq<seq<bv8>>)
    requires |pp| == snum + |lists| && Uniform(pp, sizeP) && NamesSources(lists, snum)
    ensures q == Precoded(pp, snum, lists, sizeP)
  {
    q := pp;
    var i := 0;
    while i < |lists|
      invariant 0 <= i <= |lists| && q == PrecodeFirst(pp, snum, lists, sizeP, i)
    {
      PrecodeFirstStep(pp, snum, lists, sizeP, i);
      var nb := lists[i];
      var check := Combine(q[snum + i], q[..snum], nb, Ones(|nb|), |nb|);
      q := q[snum + i := check];
      i := i + 1;
    }
  }

  /** The sum of co[i] * pp[ids[i]] for i < n added to acc, one multiply-add at a time. */
  method Combine(acc: seq<bv8>, pp: seq<seq<bv8>>, ids: seq<int>, co: seq<bv8>, n: nat) returns (r: seq<bv8>)
    requires n <= |ids| && n <= |co| && Covers(pp, ids, |acc|)
    ensures r == Accumulate(acc, pp, ids, co, n)
  {
    r := acc;
    var i := 0;
    while i < n
      invariant 0 <= i <= n && r == Accumulate(acc, pp, ids, co, i)
    {
      r := AddScaled(r, pp[ids[i]], co[i]);
      i := i + 1;
    }
  }

  // ---------------------------------------------------------------------
  // Coefficient vectors
  // ---------------------------------------------------------------------

  /**
   * Bit i of a bit array: bit i % 8 of byte i / 8.  get_bit_in_array and
   * set_bit_in_array are declared but not defined in the source; this
   * layout stands in for theirs.
   */
  function GetBit(coes: seq<bv8>, i: nat): bv8
    requires i < 8 * |coes|
  {
    (coes[i / 8] >> ((i % 8) as bv8)) & 1
  }

  /** set_bit_in_array: bit i set, every other bit kept. */
  function SetBit(coes: seq<bv8>, i: nat): (r: seq<bv8>)
    requires i < 8 * |coes|
    ensures |r| == |coes|
  {
    coes[i / 8 := coes[i / 8] | (1 << ((i % 8) as bv8))]
  }

  /** Setting bit a of a byte leaves bit c != a alone and makes bit a one. */
  lemma ByteBit(b: bv8, a: bv8, c: bv8)
    requires a < 8 && c < 8
    ensures ((b | (1 << a)) >> c) & 1 == if a == c then 1 else (b >> c) & 1
  {
  }

  /** After SetBit(coes, i), bit j reads 1 when j == i and is unchanged otherwise. */
  lemma SetBitGet(coes: seq<bv8>, i: nat, j: nat)
    requires i < 8 * |coes| && j < 8 * |coes|
    ensures GetBit(SetBit(coes, i), j) == if i == j then 1 else GetBit(coes, j)
  {
    if i / 8 == j / 8 {
      SetBitSameByte(coes, i, j);
    } else {
      assert SetBit(coes, i)[j / 8] == coes[j / 8];
    }
  }

  /** Bits i and j in the same byte: the byte is read back through ByteBit. */
  lemma SetBitSameByte(coes: seq<bv8>, i: nat, j: nat)
    requires i < 8 * |coes| && j < 8 * |coes| && i / 8 == j / 8
    ensures GetBit(SetBit(coes, i), j) == if i == j then 1 else GetBit(coes, j)
  {
    var a, c := (i % 8) as bv8, (j % 8) as bv8;
    ByteBit(coes[i / 8], a, c);
    assert i == j <==> a == c by {
      DivModUnique(i, i / 8, i % 8, 8);
      DivModUnique(j, j / 8, j % 8, 8);
    }
  }


  /** The bits i < n with co[i] == 1 set, in increasing i, as the binary encoding loop does. */
  function SetBits(coes: seq<bv8>, co: seq<bv8>, n: nat): (r: seq<bv8>)
    requires n <= |co| && n <= 8 * |coes|
    ensures |r| == |coes|
  {
    if n == 0 then coes
    else
      var c := SetBits(coes, co, n - 1);
      if co[n - 1] == 1 then SetBit(c, n - 1) else c
  }

  /** Bit j after SetBits: one if it was set or co[j] == 1 with j < n. */
  lemma {:induction false} SetBitsGet(coes: seq<bv8>, co: seq<bv8>, n: nat, j: nat)
    requires n <= |co| && n <= 8 * |coes| && j < 8 * |coes|
    ensures GetBit(SetBits(coes, co, n), j) == if j < n && co[j] == 1 then 1 else GetBit(coes, j)
  {
    if n > 0 {
      SetBitsGet(coes, co, n - 1, j);
      if co[n - 1] == 1 {
        SetBitGet(SetBits(coes, co, n - 1), n - 1, j);
      }
    }
  }

  /** The length of the coefficient buffer: ALIGN(size_g, 8) bytes of bits, or size_g bytes. */
  function CoesLength(m: Meta): (n: int)
    requires m.sizeG >= 0
    ensures n >= 0 && (m.bnc ==> 8 * n >= m.sizeG) && (!m.bnc ==> n == m.sizeG)
  {
    AlignIsCeiling(m.sizeG, 8);
    if m.bnc then Align(m.sizeG, 8) else m.sizeG
  }

  /** The size_g coefficients a packet carries: bits of the buffer, or its bytes. */
  function Coefficients(m: Meta, coes: seq<bv8>): (co: seq<bv8>)
    requires m.sizeG >= 0 && |coes| == CoesLength(m)
    ensures |co| == m.sizeG
  {
    if m.bnc then seq(m.sizeG, i requires 0 <= i < m.sizeG => GetBit(coes, i)) else coes
  }

  /** A zero buffer with bits set from a 0/1 coefficient vector reads back as that vector. */
  lemma BinaryCoefficients(m: Meta, co: seq<bv8>)
    requires m.sizeG >= 0 && m.bnc && |co| == m.sizeG && forall i :: 0 <= i < |co| ==> co[i] <= 1
    ensures Coefficients(m, SetBits(Zeros(CoesLength(m)), co, m.sizeG)) == co
  {
    var z := Zeros(CoesLength(m));
    forall j | 0 <= j < m.sizeG
      ensures GetBit(SetBits(z, co, m.sizeG), j) == co[j]
    {
      SetBitsGet(z, co, m.sizeG, j);
    }
  }

  /** A bit array with a single bit set reads as a unit vector. */
  lemma BinaryUnit(m: Meta, n: nat)
    requires m.sizeG >= 0 && m.bnc && n < m.sizeG
    ensures Coefficients(m, SetBit(Zeros(CoesLength(m)), n)) == Unit(m.sizeG, n)
  {
    var z := Zeros(CoesLength(m));
    forall j | 0 <= j < m.sizeG
      ensures GetBit(SetBit(z, n), j) == Unit(m.sizeG, n)[j]
    {
      SetBitGet(z, n, j);
    }
  }

  /**
   * The coefficients of a coded packet from the rand() values: `rand() % 2`
   * for a binary code, the low byte otherwise.
   */
  function DrawCoefficients(m: Meta, draws: seq<nat>): (co: seq<bv8>)
    requires |draws| == m.sizeG >= 0
    ensures |co| == m.sizeG && (m.bnc ==> forall i :: 0 <= i < |co| ==> co[i] <= 1)
  {
    seq(m.sizeG, i requires 0 <= i < m.sizeG => if m.bnc then (draws[i] % 2) as bv8 else (draws[i] % 256) as bv8)
  }

  /** Writing co[i] over position i extends the copied prefix of co by one. */
  lemma CopyNext(co: seq<bv8>, c0: seq<bv8>, i: nat)
    requires i < |co| <= |c0|
    ensures (co[..i] + c0[i..])[i := co[i]] == co[..i + 1] + c0[i + 1..]
  {
    var a, b := (co[..i] + c0[i..])[i := co[i]], co[..i + 1] + c0[i + 1..];
    assert |a| == |b|;
    forall k | 0 <= k < |a|
      ensures a[k] == b[k]
    {
    }
  }

  /**
   * The coding loop of encode_packet: for each member i in turn, its
   * coefficient co[i] is written into the buffer (a bit for a binary code,
   * a byte otherwise) and co[i] times its packet is added to the payload.
   */
  method EncodeCoded(bnc: bool, coes0: seq<bv8>, syms0: seq<bv8>, pp: seq<seq<bv8>>, ids: seq<int>, co: seq<bv8>)
    returns (coes: seq<bv8>, syms: seq<bv8>)
    requires |ids| == |co| && Covers(pp, ids, |syms0|)
    requires if bnc then |co| <= 8 * |coes0| else |co| <= |coes0|
    ensures bnc ==> coes == SetBits(coes0, co, |co|)
    ensures !bnc ==> coes == co + coes0[|co|..]
    ensures syms == Accumulate(syms0, pp, ids, co, |co|)
  {
    coes, syms := coes0, syms0;
    var i := 0;
    while i < |co|
      invariant 0 <= i <= |co| && |coes| == |coes0|
      invariant bnc ==> coes == SetBits(coes0, co, i)
      invariant !bnc ==> coes == co[..i] + coes0[i..]
      invariant syms == Accumulate(syms0, pp, ids, co, i)
    {
      if bnc {
        if co[i] == 1 {
          coes := SetBit(coes, i);
        }
      } else {
        CopyNext(co, coes0, i);
        coes := coes[i := co[i]];
      }
      syms := AddScaled(syms, pp[ids[i]], co[i]);
      i := i + 1;
    }
    assert co[..|co|] == co;
  }

  /**
   * The payload encode_packet sends for subgeneration gid after n packets
   * of it went out: the n-th member uncoded while a systematic code has
   * sent fewer than size_b, else syms plus the members weighted by the
   * drawn coefficients.
   */
  function EncodedPayload(m: Meta, pp: seq<seq<bv8>>, gid: int, n: int, syms: seq<bv8>, draws: seq<nat>): seq<bv8>
    requires Accepted(m) && KnownType(m.typ) && 0 <= gid < m.gnum && n >= 0
    requires |pp| == m.snum + m.cnum && Uniform(pp, m.sizeP) && |syms| == m.sizeP && |draws| == m.sizeG
  {
    MembersCover(m, pp, gid);
    var ids := Groups(m)[gid].pktid;
    if m.sys && n < m.sizeB then pp[ids[n]]
    else Accumulate(syms, pp, ids, DrawCoefficients(m, draws), m.sizeG)
  }

  /** The coefficients encode_packet writes into a zeroed buffer: the unit vector of member n, or the drawn ones. */
  function EncodedCoefficients(m: Meta, n: int, draws: seq<nat>): (co: seq<bv8>)
    requires Accepted(m) && n >= 0 && |draws| == m.sizeG
    ensures |co| == m.sizeG
  {
    if m.sys && n < m.sizeB then Unit(m.sizeG, n) else DrawCoefficients(m, draws)
  }

  /**
   * The coefficient write of a systematic packet: bit n set for a binary
   * code, byte n set to 1 otherwise.  From a zeroed buffer this is the unit
   * vector of member n.
   */
  method MarkUnit(m: Meta, coes0: seq<bv8>, n: int) returns (coes: seq<bv8>)
    requires m.sizeG >= 0 && |coes0| == CoesLength(m) && 0 <= n < m.sizeG
    ensures |coes| == |coes0|
    ensures coes0 == Zeros(CoesLength(m)) ==> Coefficients(m, coes) == Unit(m.sizeG, n)
  {
    if m.bnc {
      coes := SetBit(coes0, n);
      if coes0 == Zeros(CoesLength(m)) {
        BinaryUnit(m, n);
      }
    } else {
      coes := coes0[n := 1];
    }
  }

  /** The coefficient buffer the coding loop leaves in a zeroed buffer reads back as the drawn coefficients. */
  lemma CodedCoefficients(m: Meta, coes0: seq<bv8>, co: seq<bv8>)
    requires m.sizeG >= 0 && |coes0| == CoesLength(m) && |co| == m.sizeG
    requires m.bnc ==> forall i :: 0 <= i < |co| ==> co[i] <= 1
    ensures coes0 == Zeros(CoesLength(m)) ==>
      Coefficients(m, if m.bnc then SetBits(coes0, co, |co|) else co + coes0[|co|..]) == co
  {
    if m.bnc && coes0 == Zeros(CoesLength(m)) {
      BinaryCoefficients(m, co);
    }
  }

  /** snc_alloc_empty_packet: gid 0 (calloc), zero coefficients and zero payload. */
  function EmptyPacket(m: Meta): (pkt: Packet)
    requires m.sizeG >= 0 && m.sizeP >= 0
    ensures |pkt.coes| == CoesLength(m) && |pkt.syms| == m.sizeP
    ensures Coefficients(m, pkt.coes) == Zeros(m.sizeG)
  {
    var pkt := Packet(0, Zeros(CoesLength(m)), Zeros(m.sizeP));
    assert Coefficients(m, pkt.coes) == Zeros(m.sizeG) by {
      if m.bnc {
        forall j | 0 <= j < m.sizeG
          ensures GetBit(pkt.coes, j) == 0
        {
        }
      }
    }
    pkt
  }

  /**
   * What encode_packet makes of an empty packet, in either branch: a
   * payload that is the combination of the subgeneration's members named
   * by the coefficient vector it carries.
   */
  lemma EncodedIsCombination(m: Meta, pp: seq<seq<bv8>>, gid: int, n: int, draws: seq<nat>, out: Packet)
    requires Accepted(m) && KnownType(m.typ) && 0 <= gid < m.gnum && n >= 0
    requires |pp| == m.snum + m.cnum && Uniform(pp, m.sizeP) && |draws| == m.sizeG
    requires |out.coes| == CoesLength(m)
    requires out.syms == EncodedPayload(m, pp, gid, n, Zeros(m.sizeP), draws)
    requires Coefficients(m, out.coes) == EncodedCoefficients(m, n, draws)
    ensures Covers(pp, Groups(m)[gid].pktid, m.sizeP) && |Groups(m)[gid].pktid| == m.sizeG
    ensures out.syms == Accumulate(Zeros(m.sizeP), pp, Groups(m)[gid].pktid, Coefficients(m, out.coes), m.sizeG)
  {
    AcceptedSizes(m);
    MembersCover(m, pp, gid);
    var ids := Groups(m)[gid].pktid;
    if m.sys && n < m.sizeB {
      UnitCombination(pp, ids, n, m.sizeG, m.sizeP);
      assert pp[ids[n]][..m.sizeP] == pp[ids[n]];
    }
  }

  /** schedule_generation: 0 for a single subgeneration, else rand() % gnum; always a valid gid. */
  function ScheduleGeneration(gnum: int, draw: nat): (gid: int)
    requires gnum >= 1
    ensures 0 <= gid < gnum
    ensures gnum > 1 ==> gid == draw % gnum
  {
    if gnum == 1 then 0 else draw % gnum
  }

  // ---------------------------------------------------------------------
  // The encoding context
  // ---------------------------------------------------------------------

  /** snc_context. */
  class EncContext {
    var meta: Meta
    /** The subgenerations gene[0 .. gnum-1]. */
    var gene: seq<Generation>
    /** The precode graph; null when there are no check packets. */
    var graph: Graph?
    /** The snum source packets followed by the cnum check packets. */
    var pp: seq<seq<bv8>>
    /** nccount: how many packets each subgeneration has sent. */
    var nccount: seq<int>
    /** The data the source packets were cut from. */
    ghost var data: seq<bv8>

    /**
     * What create_context_from_meta builds: the subgenerations, the send
     * counters, and a precode graph whose check lists name source packets.
     */
    ghost predicate Structured()
      reads this`meta, this`gene, this`nccount, this`graph, graph
    {
      Accepted(meta) && gene == Groups(meta) && |nccount| == meta.gnum &&
      (meta.cnum != 0 ==>
        graph != null && |graph.lNbrsOfR| == meta.cnum && NamesSources(graph.lNbrsOfR, meta.snum))
    }

    /** The graph is the one create_bipartite_graph builds for snum source and cnum check packets. */
    ghost predicate GraphBuilt()
      reads this`meta, this`graph, graph
    {
      meta.cnum != 0 ==>
        graph != null && graph.Valid() && graph.nleft == meta.snum && graph.nright == meta.cnum &&
        graph.joined == meta.snum
    }

    /** The state snc_create_enc_context leaves, apart from the packet contents. */
    ghost predicate Valid()
      reads this`meta, this`gene, this`nccount, this`graph, this`pp, graph
    {
      Structured() && |pp| == meta.snum + meta.cnum
    }

    /** The packets were loaded from data: every buffer holds size_p bytes and the sources lay out data, zero-padded. */
    ghost predicate Loaded()
      reads this`meta, this`pp, this`data
    {
      meta.sizeP >= 0 && |pp| >= meta.snum >= 0 && Uniform(pp, meta.sizeP) &&
      |data| == meta.datasize && |data| <= meta.snum * meta.sizeP &&
      Concat(pp[..meta.snum]) == data + Zeros(meta.snum * meta.sizeP - |data|)
    }

    /** The neighbour lists of the checks: l_nbrs_of_r of the graph, none without checks. */
    function CheckLists(): (lists: seq<seq<nat>>)
      requires Valid()
      reads this`meta, this`gene, this`nccount, this`graph, this`pp, graph
      ensures |lists| == meta.cnum && NamesSources(lists, meta.snum)
    {
      if meta.cnum == 0 then [] else graph.lNbrsOfR
    }

    constructor (m: Meta)
      ensures meta == m && gene == [] && graph == null && pp == [] && nccount == [] && data == []
    {
      meta, gene, graph, pp, nccount, data := m, [], null, [], [], [];
    }

    /**
     * snc_create_enc_context: null when verify_code_parameter rejects the
     * sizes; otherwise the subgenerations, the precode graph (when there
     * are checks) and, when a buffer is given, its datasize bytes cut into
     * snum zero-padded source packets followed by precoded check packets.
     */
    static method Create(sp: Parameter, cnum: int, buf: Option<seq<bv8>>) returns (sc: EncContext?)
      requires sp.sizeP > 0 && sp.sizeB > 0 && sp.datasize >= 0 && cnum >= 0
      requires buf.Some? ==> |buf.value| == sp.datasize
      ensures sc == null <==> !ParameterValid(Sizing(sp, cnum))
      ensures sc != null ==> fresh(sc) && (sc.graph == null || fresh(sc.graph))
      ensures sc != null ==> sc.Valid() && sc.GraphBuilt() && sc.meta == Sizing(sp, cnum) && sc.nccount == seq(sc.meta.gnum, _ => 0)
      ensures sc != null && buf.None? ==> sc.pp == seq(sc.meta.snum + cnum, _ => [])
      ensures sc != null && buf.Some? ==> sc.Loaded() && sc.data == buf.value
      ensures sc != null && buf.Some? ==> ChecksAreSums(sc.pp, sc.meta.snum, sc.CheckLists(), sc.meta.sizeP)
    {
      var m := Sizing(sp, cnum);
      if !ParameterValid(m) {
        return null;
      }
      AcceptedSizes(m);
      sc := new EncContext(m);
      sc.CreateFromMeta();
      var numP := m.snum + m.cnum;
      if buf.None? {
        sc.pp := seq(numP, _ => []);
        return;
      }
      sc.LoadData(buf.value);
    }

    /**
     * The loading step of snc_create_enc_context: datasize bytes copied
     * into snum zero-padded source packets, the check packets zeroed and
     * then precoded, so that each is the sum of its source neighbours.
     */
    method LoadData(buf: seq<bv8>)
      requires Structured() && |buf| == meta.datasize
      modifies this
      ensures Valid() && Loaded() && data == buf
      ensures meta == old(meta) && gene == old(gene) && graph == old(graph) && nccount == old(nccount)
      ensures ChecksAreSums(pp, meta.snum, CheckLists(), meta.sizeP)
    {
      var m := meta;
      AcceptedSizes(m);
      var sources := Load(buf, m.sizeP, m.snum);
      pp := sources + seq(m.cnum, _ => Zeros(m.sizeP));
      data := buf;
      assert pp[..m.snum] == sources;
      ghost var before := pp;
      PerformPrecoding();
      assert forall k :: m.snum <= k < |before| ==> before[k] == Zeros(m.sizeP);
      PrecodedSums(before, m.snum, CheckLists(), m.sizeP);
    }

    /**
     * create_context_from_meta: gnum subgenerations grouped by the code
     * type, zero send counters, and the precode graph when cnum != 0.
     */
    method CreateFromMeta()
      requires Accepted(meta)
      modifies this
      ensures Structured() && GraphBuilt() && meta == old(meta) && pp == old(pp) && data == old(data)
      ensures nccount == seq(meta.gnum, _ => 0) && (graph == null || fresh(graph))
    {
      var m := meta;
      AcceptedSizes(m);
      gene := GroupPackets(m);
      nccount := seq(m.gnum, _ => 0);
      graph := null;
      if m.cnum != 0 {
        graph := BuildGraph(m.snum, m.cnum);
      }
    }

    /** perform_precoding: each check gets the sum of its source neighbours added. */
    method PerformPrecoding()
      requires Valid() && Loaded()
      modifies this
      ensures Valid() && Loaded()
      ensures meta == old(meta) && gene == old(gene) && graph == old(graph) && nccount == old(nccount) && data == old(data)
      ensures pp == Precoded(old(pp), meta.snum, CheckLists(), meta.sizeP)
    {
      ghost var before := pp;
      pp := PrecodeAll(pp, meta.snum, CheckLists(), meta.sizeP);
      assert pp[..meta.snum] == before[..meta.snum];
    }

    /**
     * encode_packet for subgeneration gid.  While the code is systematic
     * and fewer than size_b packets of gid were sent, the nccount[gid]-th
     * member goes out uncoded with a unit coefficient; otherwise the packet
     * is the combination of all members with coefficients drawn from draws.
     * The send counter of gid grows by one either way.
     */
    method EncodePacket(gid: int, pkt: Packet, draws: seq<nat>) returns (out: Packet)
      requires Valid() && Loaded() && KnownType(meta.typ) && 0 <= gid < meta.gnum && nccount[gid] >= 0
      requires |pkt.coes| == CoesLength(meta) && |pkt.syms| == meta.sizeP && |draws| == meta.sizeG
      modifies this
      ensures Valid() && Loaded()
      ensures meta == old(meta) && gene == old(gene) && graph == old(graph) && pp == old(pp) && data == old(data)
      ensures nccount == old(nccount)[gid := old(nccount)[gid] + 1]
      ensures out.gid == gid && |out.coes| == |pkt.coes| && |out.syms| == |pkt.syms|
      ensures out.syms == EncodedPayload(meta, pp, gid, old(nccount)[gid], pkt.syms, draws)
      ensures pkt.coes == Zeros(CoesLength(meta)) ==>
        Coefficients(meta, out.coes) == EncodedCoefficients(meta, old(nccount)[gid], draws)
    {
      MembersCover(meta, pp, gid);
      var ids := gene[gid].pktid;
      var n := nccount[gid];
      if meta.sys && n < meta.sizeB {
        var coes := MarkUnit(meta, pkt.coes, n);
        out := Packet(gid, coes, pp[ids[n]]);
        nccount := nccount[gid := n + 1];
        return;
      }
      var co := DrawCoefficients(meta, draws);
      var coes, syms := EncodeCoded(meta.bnc, pkt.coes, pkt.syms, pp, ids, co);
      CodedCoefficients(meta, pkt.coes, co);
      out := Packet(gid, coes, syms);
      nccount := nccount[gid := n + 1];
    }

    /**
     * snc_generate_packet: an empty packet filled for the scheduled
     * subgeneration.  Its payload is the combination of the subgeneration's
     * packets that its coefficient vector names.
     */
    method GeneratePacket(draw: nat, draws: seq<nat>) returns (pkt: Packet)
      requires Valid() && Loaded() && KnownType(meta.typ) && |draws| == meta.sizeG
      requires forall g :: 0 <= g < |nccount| ==> nccount[g] >= 0
      modifies this
      ensures Valid() && Loaded() && meta == old(meta) && gene == old(gene) && pp == old(pp)
      ensures graph == old(graph) && data == old(data)
      ensures 0 <= pkt.gid < meta.gnum && |pkt.coes| == CoesLength(meta) && |pkt.syms| == meta.sizeP
      ensures pkt.gid == ScheduleGeneration(meta.gnum, draw)
      ensures nccount == old(nccount)[pkt.gid := old(nccount)[pkt.gid] + 1]
      ensures Coefficients(meta, pkt.coes) == EncodedCoefficients(meta, old(nccount)[pkt.gid], draws)
      ensures Covers(pp, gene[pkt.gid].pktid, meta.sizeP) && |gene[pkt.gid].pktid| == meta.sizeG &&
        pkt.syms == Accumulate(Zeros(meta.sizeP), pp, gene[pkt.gid].pktid, Coefficients(meta, pkt.coes), meta.sizeG)
    {
      AcceptedSizes(meta);
      var empty := EmptyPacket(meta);
      var gid := ScheduleGeneration(meta.gnum, draw);
      ghost var n := nccount[gid];
      pkt := EncodePacket(gid, empty, draws);
      EncodedIsCombination(meta, pp, gid, n, draws, pkt);
    }

    /** snc_recover_data: datasize bytes read back from the source packets, which is the loaded data. */
    method RecoverData() returns (r: seq<bv8>)
      requires Valid() && Loaded()
      ensures r == data
    {
      ConcatLength(pp[..meta.snum], meta.sizeP);
      ConcatPrefix(pp, meta.snum);
      r := Recover(pp, meta.sizeP, meta.datasize);
      assert Concat(pp)[..meta.datasize] == Concat(pp[..meta.snum])[..meta.datasize];
    }
  }
}
