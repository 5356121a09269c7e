/**
 * The older compact band decoder of the GNC library (src/gncCBDDecoder.c).
 *
 * It differs from src/decoderCBD.c in three ways: it refuses every code
 * but a band code (the context is then left uninitialised, here: no
 * decoder), it has no naive mode, so rows stay within size_g until the
 * precode is applied, and its coefficients are always bytes.  The matrix
 * operations are those of CompactRows; the parity vectors are the
 * corrected ones of Decoding.ParityRow (the loop at
 * src/gncCBDDecoder.c:190-194 assigns, see Decoding.ParityRowAsWrittenFails).
 */
module GncDecoderCbd {
  import opened Wrappers
  import opened Packets
  import opened Grouping
  import opened Bipartite
  import opened Decoding
  import opened GncEncoder
  import opened CompactRows
  import SncEncoder
  import DecoderCbd
  import Linear
  import Primes

  /** A gnc context's check lists are those create_bipartite_graph builds for its sizes. */
  lemma ContextLists(gc: GncContext)
    requires gc.Valid() && gc.GraphBuilt()
    ensures gc.meta.snum >= 0 && gc.meta.cnum >= 0
    ensures gc.CheckLists() == DecoderCbd.GraphLists(gc.meta.snum, gc.meta.cnum)
  {
    GroupSizes(gc.meta);
    if gc.meta.cnum != 0 {
      var lists := gc.CheckLists();
      assert forall r :: 0 <= r < gc.meta.cnum ==> lists[r] == DecoderCbd.GraphLists(gc.meta.snum, gc.meta.cnum)[r];
    }
  }

  /** The packet was coded from X: the combination of its generation's members of X with its coefficients. */
  ghost predicate Encoded(m: Meta, X: seq<seq<bv8>>, pkt: SncEncoder.Packet)
  {
    Accepted(m) && 0 <= pkt.gid < m.gnum && |pkt.coes| == m.sizeG &&
    |Groups(m)[pkt.gid].pktid| == m.sizeG && Covers(X, Groups(m)[pkt.gid].pktid, m.sizeP) &&
    pkt.syms == Accumulate(Zeros(m.sizeP), X, Groups(m)[pkt.gid].pktid, pkt.coes, m.sizeG)
  }

  /**
   * The vector of a band packet: its generation's members are in range,
   * its coefficients lie in the band's window, and for a packet coded from
   * X it is an equation of X with the packet's payload.
   */
  lemma PacketVector(m: Meta, pkt: SncEncoder.Packet, X: seq<seq<bv8>>)
    requires Accepted(m) && m.typ == BandGnc && m.sizeG <= m.snum + m.cnum
    requires 0 <= pkt.gid < m.gnum && |pkt.coes| == m.sizeG
    ensures m.snum + m.cnum >= 0 && m.sizeG >= 0
    ensures InPackets(Groups(m)[pkt.gid].pktid, m.snum + m.cnum) && |Groups(m)[pkt.gid].pktid| == m.sizeG
    ensures Window(Assigned(pkt.coes, Groups(m)[pkt.gid].pktid, m.snum + m.cnum, m.sizeG),
                   BandLead(pkt.gid, m.sizeB, m.sizeG, m.snum + m.cnum), m.sizeG)
    ensures Encoded(m, X, pkt) && |X| == m.snum + m.cnum && m.sizeP >= 0 && Linear.Rect(X, m.sizeP) ==>
      Holds(Assigned(pkt.coes, Groups(m)[pkt.gid].pktid, m.snum + m.cnum, m.sizeG), pkt.syms, X)
  {
    GroupSizes(m);
    GroupsValid(m, pkt.gid);
    BandInRangeIff(m);
    var n := m.snum + m.cnum;
    var ids := Groups(m)[pkt.gid].pktid;
    assert ids == BandGeneration(pkt.gid, m.sizeB, m.sizeG, n);
    BandVectorWindow(pkt.coes, pkt.gid, m.sizeB, m.sizeG, n);
    if Encoded(m, X, pkt) && |X| == n && Linear.Rect(X, m.sizeP) {
      AssignedIsCombined(pkt.coes, ids, n, |ids|);
      CodedEquation(pkt.coes, ids, X, m.sizeP);
    }
  }

  /** The scatter loop of process_packet_CBD: the packet's coefficients over its generation's members. */
  method FullVector(m: Meta, gene: seq<Generation>, pkt: SncEncoder.Packet, ghost X: seq<seq<bv8>>) returns (ces: seq<bv8>)
    requires Accepted(m) && gene == Groups(m) && m.typ == BandGnc && m.sizeG <= m.snum + m.cnum
    requires 0 <= pkt.gid < m.gnum && |pkt.coes| == m.sizeG
    ensures m.snum + m.cnum >= 0 && |gene[pkt.gid].pktid| == m.sizeG && InPackets(gene[pkt.gid].pktid, m.snum + m.cnum)
    ensures ces == Assigned(pkt.coes, gene[pkt.gid].pktid, m.snum + m.cnum, m.sizeG)
    ensures Window(ces, BandLead(pkt.gid, m.sizeB, m.sizeG, m.snum + m.cnum), m.sizeG)
    ensures Encoded(m, X, pkt) && |X| == m.snum + m.cnum && m.sizeP >= 0 && Linear.Rect(X, m.sizeP) ==>
      Holds(ces, pkt.syms, X)
  {
    PacketVector(m, pkt, X);
    ces := ScatterCoefficients(gene[pkt.gid].pktid, pkt.coes, m.snum + m.cnum);
  }

  class GncCbdDecoder {
    const meta: Meta
    /** The generations of the code (gc->gene). */
    const gene: seq<Generation>
    /** The left neighbours of each check (gc->graph->l_nbrs_of_r). */
    const checks: seq<seq<nat>>
    var finished: bool
    /** DoF: the number of stored rows. */
    var dof: int
    /** Set once the parity-check vectors are to be processed. */
    var dePrecode: bool
    var row: Rows
    var message: seq<seq<bv8>>
    /** The decoded packets (gc->pp), empty until decoding finishes. */
    var pp: seq<seq<bv8>>
    /** The number of packets processed. */
    var overhead: int

    /** The band code being decoded, fixed at creation. */
    ghost predicate Code()
    {
      Accepted(meta) && meta.typ == BandGnc && gene == Groups(meta) &&
      |checks| == meta.cnum && SncEncoder.NamesSources(checks, meta.snum)
    }

    /** The structure kept between and inside the steps of decoding. */
    ghost predicate Shape()
      reads this
    {
      Code() && Matrix(meta.snum + meta.cnum, meta.sizeG, meta.sizeP, row, message, !dePrecode) && |pp| == |row| &&
      dof == Stored(row) && overhead >= 0
    }

    /** Between packets: decoding has finished exactly when every row is stored. */
    ghost predicate Valid()
      reads this
    {
      Shape() && (finished <==> dof == |row|)
    }

    /** X could be the encoder's packets: snum + cnum packets of size_p bytes whose checks are the sums of their neighbours. */
    ghost predicate Sources(X: seq<seq<bv8>>)
    {
      |X| == meta.snum + meta.cnum && meta.sizeP >= 0 && Linear.Rect(X, meta.sizeP) &&
      SncEncoder.ChecksAreSums(X, meta.snum, checks, meta.sizeP)
    }

    /** Every stored row is an equation of X, and a finished decoder holds X. */
    ghost predicate Consistent(X: seq<seq<bv8>>)
      reads this
    {
      RowsHold(row, message, X) && (finished ==> pp == X)
    }

    constructor (m: Meta, g: seq<Generation>, lists: seq<seq<nat>>, n: nat)
      requires m.sizeP >= 0
      ensures meta == m && gene == g && checks == lists
      ensures !finished && dof == 0 && !dePrecode && overhead == 0
      ensures row == seq(n, _ => None) && message == seq(n, _ => Zeros(m.sizeP)) && pp == seq(n, _ => [])
    {
      meta, gene, checks := m, g, lists;
      finished, dof, dePrecode, overhead := false, 0, false, 0;
      row := seq(n, _ => None);
      message := seq(n, _ => Zeros(m.sizeP));
      pp := seq(n, _ => []);
    }

    /**
     * create_decoding_context_CBD: no decoder for a code that is not a
     * band code or whose parameters create_gnc_context rejects; otherwise
     * the context of the code, no rows and zero messages, and every X is
     * consistent with the empty matrix.
     */
    static method Create(gp: Parameter) returns (d: GncCbdDecoder?)
      requires gp.sizeP > 0 && gp.sizeB > 0 && gp.datasize >= 0
      ensures d == null <==> gp.typ != BandGnc || !ParameterValidAsWritten(gp)
      ensures d != null ==> fresh(d) && d.Valid() && d.meta == Sizing(gp, d.meta.cnum)
      ensures d != null ==>
        d.meta.snum >= 0 && d.meta.cnum >= 0 && d.checks == DecoderCbd.GraphLists(d.meta.snum, d.meta.cnum)
      ensures d != null ==> d.dof == 0 && !d.finished && !d.dePrecode && d.overhead == 0
      ensures d != null ==> d.row == seq(|d.row|, _ => None) && d.message == seq(|d.row|, _ => Zeros(gp.sizeP))
      ensures d != null ==> forall X :: d.Consistent(X)
    {
      if gp.typ != BandGnc {
        return null;
      }
      var gc := GncContext.Create(gp, None);
      if gc == null {
        return null;
      }
      var m := gc.meta;
      GroupSizes(m);
      ContextLists(gc);
      var lists := gc.CheckLists();
      var n := m.snum + m.cnum;
      d := new GncCbdDecoder(m, gc.gene, lists, n);
      StoredNone(n);
    }

    /**
     * process_vector_CBD: reduce the vector, then store it at its pivot
     * with its message and count one more DoF, or report -1 and change
     * nothing for a vector that reduces to zero.
     */
    method ProcessVector(v0: seq<bv8>, msg0: seq<bv8>, ghost X: seq<seq<bv8>>, ghost lo: int) returns (pivot: int)
      requires Shape() && |v0| == |row| && |msg0| == meta.sizeP
      modifies this`row, this`message, this`dof
      ensures Shape() && |row| == |old(row)| && -1 <= pivot < |row|
      ensures pivot == -1 ==> row == old(row) && message == old(message) && dof == old(dof)
      ensures pivot >= 0 ==>
        old(row)[pivot].None? && row == old(row)[pivot := row[pivot]] && message == old(message)[pivot := message[pivot]] &&
        row[pivot].Some? && |row[pivot].value| == RowLength(|row|, pivot, meta.sizeG, dePrecode) &&
        dof == old(dof) + 1
      ensures (old(Consistent(X)) && Holds(v0, msg0, X) && (!dePrecode ==> Window(v0, lo, meta.sizeG))) ==>
        Consistent(X)
      ensures pivot == ReduceFrom(old(row), v0, 0).0
      ensures pivot == -1 <==> InSpan(old(row), v0)
      ensures pivot >= 0 && (dePrecode || Window(v0, lo, meta.sizeG)) ==> RowVector(row, pivot) == ReduceFrom(old(row), v0, 0).1
    {
      GroupSizes(meta);
      var r, msgs;
      ReducedSpan(row, v0);
      pivot, r, msgs := StoreRow(row, message, v0, msg0, meta.sizeG, meta.sizeP, dePrecode, X, lo);
      row, message := r, msgs;
      if pivot >= 0 {
        dof := dof + 1;
      }
    }

    /**
     * apply_parity_check_matrix: process the parity vector of every check
     * with an all-zero message, one more DoF per vector stored, then count
     * the rows still missing.
     */
    method ApplyParityCheckMatrix(ghost X: seq<seq<bv8>>) returns (missing: int)
      requires Shape() && dePrecode
      modifies this`row, this`message, this`dof
      ensures Shape() && |row| == |old(row)| && missing == |row| - dof && old(dof) <= dof
      ensures forall i :: 0 <= i < |row| && old(row)[i].Some? ==> row[i] == old(row)[i]
      ensures Sources(X) && RowsHold(old(row), old(message), X) ==> RowsHold(row, message, X)
    {
      GroupSizes(meta);
      var r, msgs, added := ApplyChecks(meta.snum, checks, meta.sizeG, meta.sizeP, row, message, X);
      row, message := r, msgs;
      dof := dof + added;
      missing := CountMissing(row);
    }

    /** finish_recovering_CBD: diagonalise, copy out every packet, and mark decoding finished. */
    method FinishRecovering(ghost X: seq<seq<bv8>>)
      requires Shape() && dof == |row|
      modifies this`row, this`message, this`pp, this`finished
      ensures Shape() && finished && |row| == |old(row)| && pp == message
      ensures Full(row) && forall i :: 0 <= i < |row| ==> UnitRow(row[i].value)
      ensures |X| == |row| && RowsHold(old(row), old(message), X) ==> RowsHold(row, message, X) && pp == X
    {
      GroupSizes(meta);
      var r, msgs, out := Finish(row, message, pp, meta.sizeG, meta.sizeP, !dePrecode, X);
      row, message, pp := r, msgs, out;
      finished := true;
    }

    /**
     * process_packet_CBD: count the packet, scatter its coefficients over
     * the generation's members, process the vector, then apply the
     * precode at snum DoF and finish at snum + cnum DoF.  DoF and the
     * flags only grow, no stored row is removed, and a packet coded from
     * the encoder's packets X keeps the decoder consistent with X.
     */
    method ProcessPacket(pkt: SncEncoder.Packet, ghost X: seq<seq<bv8>>)
      requires Valid() && meta.sizeG <= meta.snum + meta.cnum
      requires 0 <= pkt.gid < meta.gnum && |pkt.coes| == meta.sizeG && |pkt.syms| == meta.sizeP
      modifies this
      ensures Valid() && |row| == |old(row)|
      ensures overhead == old(overhead) + 1
      ensures old(dof) <= dof && (old(dePrecode) ==> dePrecode) && (old(finished) ==> finished)
      ensures forall i :: 0 <= i < |row| && old(row)[i].Some? ==> row[i].Some?
      ensures Sources(X) && old(Consistent(X)) && Encoded(meta, X, pkt) ==> Consistent(X)
    {
      var ces := FullVector(meta, gene, pkt, X);
      var pivot := ProcessVector(ces, pkt.syms, X, BandLead(pkt.gid, meta.sizeB, meta.sizeG, |row|));
      CheckProgress(X);
      overhead := overhead + 1;
    }

    /**
     * The end of process_packet_CBD: at snum DoF mark the precode applied,
     * process the parity-check vectors and take DoF as the rows present;
     * at snum + cnum DoF finish.
     */
    method CheckProgress(ghost X: seq<seq<bv8>>)
      requires Shape() && (finished ==> dof == |row|)
      modifies this`row, this`message, this`pp, this`dof, this`dePrecode, this`finished
      ensures Valid() && |row| == |old(row)|
      ensures old(dof) <= dof && (old(dePrecode) ==> dePrecode) && (old(finished) ==> finished)
      ensures forall i :: 0 <= i < |row| && old(row)[i].Some? ==> row[i].Some?
      ensures Sources(X) && old(Consistent(X)) ==> Consistent(X)
    {
      var n := |row|;
      if dof == meta.snum {
        dePrecode := true;
        var missing := ApplyParityCheckMatrix(X);
        dof := n - missing;
      }
      if dof == n {
        FinishRecovering(X);
      }
    }
  }
}
