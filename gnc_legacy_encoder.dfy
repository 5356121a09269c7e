/**
 * The older GNC encoder (gncEncoder.c at the repository root): the same
 * sizing as src/gncEncoder.c, but no parameter validation, one
 * deterministic grouping (group_packets, the loop it shares with
 * group_packets_rand of src/gncEncoder.c, which Grouping.GroupRandGnc
 * models) and number_of_checks with its extra increment.
 *
 * This module models the file as written: its generations can name
 * packets outside 0 .. snum+cnum-1 (Grouping.GncRandNegativeIndex), so the
 * encoding operations ask that the chosen generation names loaded
 * packets, which the C code needs for its reads to stay in bounds.
 */
module GncLegacyEncoder {
  import opened Wrappers
  import opened Common
  import opened Arith
  import opened Packets
  import opened Grouping
  import opened Bipartite
  import opened Primes
  import SncEncoder
  import GncEncoder

  /** gnc_metainfo of gncEncoder.h: no code type. */
  datatype Meta = Meta(datasize: int, sizeB: int, sizeG: int, sizeP: int, snum: int, cnum: int, gnum: int)

  /** The sizing of create_gnc_context: snum packets of size_p bytes, cnum checks, ALIGN(snum + cnum, size_b) generations. */
  function Sizing(datasize: int, sizeB: int, sizeG: int, sizeP: int, cnum: int): (m: Meta)
    requires sizeP > 0 && sizeB > 0
    ensures m.snum == Align(datasize, sizeP) && m.cnum == cnum && m.gnum == Align(m.snum + cnum, sizeB)
  {
    var snum := Align(datasize, sizeP);
    Meta(datasize, sizeB, sizeG, sizeP, snum, cnum, Align(snum + cnum, sizeB))
  }

  /**
   * The sizes the context is built with: positive size_b and size_p (the
   * divisors of ALIGN), size_b <= size_g (group_packets writes size_b
   * entries into a size_g array), and the counts of Sizing with at least
   * one check, as number_of_checks always returns.
   */
  predicate Sized(m: Meta)
  {
    m.sizeP > 0 && 0 < m.sizeB <= m.sizeG && m.datasize >= 0 && m.cnum >= 1 &&
    m.snum == Align(m.datasize, m.sizeP) && m.gnum == Align(m.snum + m.cnum, m.sizeB)
  }

  lemma LegacySizes(m: Meta)
    requires Sized(m)
    ensures m.snum >= 0 && m.snum + m.cnum >= 1 && m.gnum >= 1
  {
    AlignIsCeiling(m.datasize, m.sizeP);
    AlignIsCeiling(m.snum + m.cnum, m.sizeB);
  }

  /** The meta of create_gnc_context: ALIGN(datasize, size_p) sources and number_of_checks of them as checks. */
  method LegacyMeta(datasize: int, sizeB: int, sizeG: int, sizeP: int) returns (m: Meta)
    requires sizeP > 0 && 0 < sizeB <= sizeG && datasize >= 0
    ensures Sized(m) && m == Sizing(datasize, sizeB, sizeG, sizeP, m.cnum)
    ensures ChecksAsWritten(m.snum, m.cnum)
  {
    AlignIsCeiling(datasize, sizeP);
    var snum := Align(datasize, sizeP);
    var cnum := NumberOfChecks(snum);
    ChecksPositive(snum, cnum);
    m := Meta(datasize, sizeB, sizeG, sizeP, snum, cnum, Align(snum + cnum, sizeB));
  }

  /** The generations group_packets builds: the deterministic loop of group_packets_rand in src/gncEncoder.c, without magicX, over the snum + cnum packets. */
  function Groups(m: Meta): (gene: seq<Generation>)
    requires Sized(m)
    ensures |gene| == m.gnum
  {
    LegacySizes(m);
    GncRandGroups(m.gnum, m.sizeB, m.sizeG, m.gnum, m.snum + m.cnum)
  }

  /** group_packets gives generation i the id i and size_g packet ids, none of them twice. */
  lemma GroupsDistinct(m: Meta, i: int)
    requires Sized(m) && 0 <= i < m.gnum
    ensures Groups(m)[i].gid == i && |Groups(m)[i].pktid| == m.sizeG && Distinct(Groups(m)[i].pktid)
  {
    LegacySizes(m);
    var numP := m.snum + m.cnum;
    GncRandGroupsAt(m.gnum, i, m.sizeB, m.sizeG, m.gnum, numP);
    GncRandGenerationDistinct(m.sizeG, i, Rotation(i, m.sizeG), m.sizeB, m.sizeG, m.gnum, numP);
  }

  /**
   * Without validation the grouping can leave the packets: with at most
   * size_p bytes of data there is one source packet, number_of_checks
   * gives 4 checks, and with size_b 1 and size_g 2 entry 1 of generation 0
   * is packet -2, which no buffer covers.
   */
  lemma NegativeIndex(c: int, pp: seq<seq<bv8>>)
    requires ChecksAsWritten(1, c)
    ensures var m := Sizing(10, 1, 2, 10, c);
      c == 4 && Sized(m) && m.gnum == 5 && Groups(m)[0].pktid[1] == -2 &&
      !Covers(pp, Groups(m)[0].pktid, m.sizeP)
  {
    ChecksAsWrittenOffByOne(c);
    assert Align(10, 10) == 1 && Align(5, 1) == 5;
    var m := Sizing(10, 1, 2, 10, c);
    assert m == Meta(10, 1, 2, 10, 1, 4, 5);
    GncRandGroupsAt(5, 0, 1, 2, 5, 5);
    GncRandNegativeIndex();
  }

  /** gnc_context of gncEncoder.h. */
  class LegacyContext {
    var meta: Meta
    var gene: seq<Generation>
    var graph: Graph?
    var pp: seq<seq<bv8>>
    ghost var data: seq<bv8>

    /** What create_gnc_context builds before loading: the generations and a precode graph naming source packets. */
    ghost predicate Valid()
      reads this`meta, this`gene, this`graph, this`pp, graph
    {
      Sized(meta) && gene == Groups(meta) && |pp| == meta.snum + meta.cnum &&
      graph != null && |graph.lNbrsOfR| == meta.cnum && SncEncoder.NamesSources(graph.lNbrsOfR, meta.snum)
    }

    /** The graph is the one create_bipartite_graph builds for snum source and cnum check packets. */
    ghost predicate GraphBuilt()
      reads this`meta, this`graph, graph
    {
      graph != null && graph.Valid() && graph.nleft == meta.snum && graph.nright == meta.cnum &&
      graph.joined == meta.snum
    }

    /** The packets were loaded from data: every buffer holds size_p bytes and the sources lay out data, zero-padded. */
    ghost predicate Loaded()
      reads this`meta, this`pp, this`data
    {
      meta.sizeP >= 0 && |pp| >= meta.snum >= 0 && Uniform(pp, meta.sizeP) &&
      |data| == meta.datasize && |data| <= meta.snum * meta.sizeP &&
      Concat(pp[..meta.snum]) == data + Zeros(meta.snum * meta.sizeP - |data|)
    }

    constructor (m: Meta)
      ensures meta == m && gene == [] && graph == null && pp == [] && data == []
    {
      meta, gene, graph, pp, data := m, [], null, [], [];
    }

    /**
     * create_gnc_context: no validation; cnum is what number_of_checks
     * returns, the generations are grouped, the precode graph is built
     * and, when a buffer is given, its bytes are cut into the snum + cnum
     * buffers (the checks stay zero) and the checks are precoded.
     */
    static method Create(datasize: int, sizeB: int, sizeG: int, sizeP: int, buf: Option<seq<bv8>>)
      returns (gc: LegacyContext)
      requires sizeP > 0 && 0 < sizeB <= sizeG && datasize >= 0
      requires buf.Some? ==> |buf.value| == datasize
      ensures fresh(gc) && fresh(gc.graph) && gc.Valid() && gc.GraphBuilt()
      ensures gc.meta == Sizing(datasize, sizeB, sizeG, sizeP, gc.meta.cnum) && ChecksAsWritten(gc.meta.snum, gc.meta.cnum)
      ensures buf.None? ==> gc.pp == seq(gc.meta.snum + gc.meta.cnum, _ => [])
      ensures buf.Some? ==> gc.Loaded() && gc.data == buf.value
      ensures buf.Some? ==> SncEncoder.ChecksAreSums(gc.pp, gc.meta.snum, gc.graph.lNbrsOfR, gc.meta.sizeP)
    {
      var m := LegacyMeta(datasize, sizeB, sizeG, sizeP);
      gc := new LegacyContext(m);
      gc.Populate(buf);
      assert gc.meta == m;
    }

    /** The rest of create_gnc_context once meta is fixed: grouping, the precode graph, then the packets. */
    method Populate(buf: Option<seq<bv8>>)
      requires Sized(meta) && (buf.Some? ==> |buf.value| == meta.datasize)
      modifies this
      ensures meta == old(meta) && fresh(graph) && Valid() && GraphBuilt()
      ensures buf.None? ==> pp == seq(meta.snum + meta.cnum, _ => [])
      ensures buf.Some? ==> Loaded() && data == buf.value
      ensures buf.Some? ==> SncEncoder.ChecksAreSums(pp, meta.snum, graph.lNbrsOfR, meta.sizeP)
    {
      var m := meta;
      LegacySizes(m);
      gene := GroupRandGnc(m.sizeB, m.sizeG, m.gnum, m.snum + m.cnum);
      graph := SncEncoder.BuildGraph(m.snum, m.cnum);
      if buf.None? {
        pp := seq(m.snum + m.cnum, _ => []);
        return;
      }
      LoadData(buf.value);
    }

    /**
     * The loading step of create_gnc_context: datasize bytes copied into
     * the snum + cnum buffers in turn, then the checks precoded.
     */
    method LoadData(buf: seq<bv8>)
      requires Sized(meta) && gene == Groups(meta) && |buf| == meta.datasize
      requires graph != null && |graph.lNbrsOfR| == meta.cnum && SncEncoder.NamesSources(graph.lNbrsOfR, meta.snum)
      modifies this
      ensures Valid() && Loaded() && data == buf
      ensures meta == old(meta) && gene == old(gene) && graph == old(graph)
      ensures SncEncoder.ChecksAreSums(pp, meta.snum, graph.lNbrsOfR, meta.sizeP)
    {
      var m := meta;
      LegacySizes(m);
      AlignIsCeiling(m.datasize, m.sizeP);
      MulMonotone(m.snum, m.snum + m.cnum, m.sizeP);
      var all := Load(buf, m.sizeP, m.snum + m.cnum);
      GncEncoder.LoadedChecksZero(all, buf, m.snum, m.sizeP);
      var lists := graph.lNbrsOfR;
      pp := SncEncoder.PrecodeAll(all, m.snum, lists, m.sizeP);
      data := buf;
      SncEncoder.PrecodedSums(all, m.snum, lists, m.sizeP);
      assert pp[..m.snum] == all[..m.snum];
    }

    /**
     * encode_packet for generation gid: coes[i] is the drawn coefficient
     * of member i, and the payload gains that multiple of the member.  The
     * members must name loaded packets.
     */
    method EncodePacket(gid: int, pkt: SncEncoder.Packet, draws: seq<nat>) returns (out: SncEncoder.Packet)
      requires Valid() && Loaded() && 0 <= gid < meta.gnum
      requires Covers(pp, gene[gid].pktid, meta.sizeP)
      requires |pkt.coes| == meta.sizeG && |pkt.syms| == meta.sizeP && |draws| == meta.sizeG
      ensures out.gid == gid && out.coes == GncEncoder.DrawCoefficients(draws)
      ensures |gene[gid].pktid| == meta.sizeG &&
        out.syms == Accumulate(pkt.syms, pp, gene[gid].pktid, out.coes, meta.sizeG)
    {
      GroupsDistinct(meta, gid);
      var co := GncEncoder.DrawCoefficients(draws);
      var coes, syms := SncEncoder.EncodeCoded(false, pkt.coes, pkt.syms, pp, gene[gid].pktid, co);
      assert coes == co;
      out := SncEncoder.Packet(gid, coes, syms);
    }

    /** generate_gnc_packet: a zeroed packet encoded for generation rand() % gnum. */
    method GeneratePacket(draw: nat, draws: seq<nat>) returns (pkt: SncEncoder.Packet)
      requires Valid() && Loaded() && |draws| == meta.sizeG
      requires meta.gnum >= 1 && Covers(pp, gene[draw % meta.gnum].pktid, meta.sizeP)
      ensures pkt.gid == draw % meta.gnum && pkt.coes == GncEncoder.DrawCoefficients(draws)
      ensures |gene[pkt.gid].pktid| == meta.sizeG &&
        pkt.syms == Accumulate(Zeros(meta.sizeP), pp, gene[pkt.gid].pktid, pkt.coes, meta.sizeG)
    {
      var gid := GncEncoder.ScheduleGeneration(meta.gnum, draw);
      pkt := EncodePacket(gid, SncEncoder.Packet(0, Zeros(meta.sizeG), Zeros(meta.sizeP)), draws);
    }

    /** recover_data: datasize bytes read back from the source packets, which is the loaded data. */
    method RecoverData() returns (r: seq<bv8>)
      requires Valid() && Loaded()
      ensures r == data
    {
      ConcatLength(pp[..meta.snum], meta.sizeP);
      ConcatPrefix(pp, meta.snum);
      r := Recover(pp, meta.sizeP, meta.datasize);
      assert Concat(pp)[..meta.datasize] == Concat(pp[..meta.snum])[..meta.datasize];
    }
  }
}
