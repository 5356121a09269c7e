/**
 * The compact band decoder (src/decoderCBD.c).
 *
 * A received packet is scattered to a full-length vector and processed
 * into the triangular matrix of CompactRows.  Once snum rows are stored
 * the parity-check vectors of the precode are processed the same way;
 * once all snum + cnum rows are present the matrix is made diagonal and
 * the packets are read off.
 *
 * The correctness statement is relative to the packets X the encoder
 * held: if every stored row was an equation of X before a packet that was
 * coded from X, every stored row is one afterwards, and a finished
 * decoder holds X.  The parity vectors are the corrected ones of
 * Decoding.ParityRow (see Decoding.ParityRowAsWrittenFails).
 */
module DecoderCbd {
  import opened Wrappers
  import opened GaloisArith
  import opened GaloisPrimitive
  import opened Packets
  import opened Grouping
  import opened Bipartite
  import opened Decoding
  import opened SncEncoder
  import opened CompactRows
  import Linear

  /** The check lists create_bipartite_graph builds (l_nbrs_of_r), none without checks. */
  function GraphLists(snum: nat, cnum: nat): (lists: seq<seq<nat>>)
    ensures |lists| == cnum
  {
    if cnum == 0 then [] else seq(cnum, r requires 0 <= r < cnum => LeftsOf(r, snum, Precode(snum, cnum)))
  }

  /** An encoding context's check lists are determined by its sizes. */
  lemma ContextLists(sc: EncContext)
    requires sc.Valid() && sc.GraphBuilt()
    ensures sc.meta.snum >= 0 && sc.meta.cnum >= 0
    ensures sc.CheckLists() == GraphLists(sc.meta.snum, sc.meta.cnum)
  {
    AcceptedSizes(sc.meta);
    if sc.meta.cnum != 0 {
      var lists := sc.CheckLists();
      assert forall r :: 0 <= r < sc.meta.cnum ==> lists[r] == GraphLists(sc.meta.snum, sc.meta.cnum)[r];
    }
  }

  /**
   * The packet was coded from X: its subgeneration exists, its coefficient
   * buffer has the length of the code, and its payload is the combination
   * of the subgeneration's members of X with its coefficients.
   */
  ghost predicate Encoded(m: Meta, X: seq<seq<bv8>>, pkt: Packet)
  {
    Accepted(m) && 0 <= pkt.gid < m.gnum && |pkt.coes| == CoesLength(m) &&
    |Groups(m)[pkt.gid].pktid| == m.sizeG && Covers(X, Groups(m)[pkt.gid].pktid, m.sizeP) &&
    pkt.syms == Accumulate(Zeros(m.sizeP), X, Groups(m)[pkt.gid].pktid, Coefficients(m, pkt.coes), m.sizeG)
  }

  /**
   * The full-length vector of a packet of subgeneration gid names packets
   * of the code only; for a band code it lies in the band of gid, and for
   * a packet coded from X it is an equation of X with the packet's payload.
   */
  lemma PacketVector(m: Meta, pkt: Packet, X: seq<seq<bv8>>)
    requires Accepted(m) && KnownType(m.typ) && 0 <= pkt.gid < m.gnum && |pkt.coes| == CoesLength(m)
    ensures m.snum + m.cnum >= 0 && m.sizeG >= 0
    ensures InPackets(Groups(m)[pkt.gid].pktid, m.snum + m.cnum) && |Groups(m)[pkt.gid].pktid| == m.sizeG
    ensures m.typ == BandSnc ==>
      Window(Assigned(Coefficients(m, pkt.coes), Groups(m)[pkt.gid].pktid, m.snum + m.cnum, m.sizeG),
             BandLead(pkt.gid, m.sizeB, m.sizeG, m.snum + m.cnum), m.sizeG)
    ensures Encoded(m, X, pkt) && |X| == m.snum + m.cnum && m.sizeP >= 0 && Linear.Rect(X, m.sizeP) ==>
      Holds(Assigned(Coefficients(m, pkt.coes), Groups(m)[pkt.gid].pktid, m.snum + m.cnum, m.sizeG), pkt.syms, X)
  {
    AcceptedSizes(m);
    GroupsValid(m, pkt.gid);
    var n := m.snum + m.cnum;
    var ids := Groups(m)[pkt.gid].pktid;
    var co := Coefficients(m, pkt.coes);
    if m.typ == BandSnc {
      assert ids == BandGeneration(pkt.gid, m.sizeB, m.sizeG, n);
      BandVectorWindow(co, pkt.gid, m.sizeB, m.sizeG, n);
    }
    if Encoded(m, X, pkt) && |X| == n && Linear.Rect(X, m.sizeP) {
      AssignedIsCombined(co, ids, n, |ids|);
      CodedEquation(co, ids, X, m.sizeP);
    }
  }

  /**
   * The first part of process_packet_CBD: the packet's coefficients
   * scattered over the members of its subgeneration in a zeroed vector of
   * snum + cnum entries.  For a band code the vector lies in the band of
   * the subgeneration, and for a packet coded from X it is an equation of
   * X with the packet's payload.
   */
  method FullVector(m: Meta, gene: seq<Generation>, pkt: Packet, ghost X: seq<seq<bv8>>) returns (ces: seq<bv8>)
    requires Accepted(m) && gene == Groups(m) && KnownType(m.typ)
    requires 0 <= pkt.gid < m.gnum && |pkt.coes| == CoesLength(m)
    ensures m.snum + m.cnum >= 0 && |gene[pkt.gid].pktid| == m.sizeG && InPackets(gene[pkt.gid].pktid, m.snum + m.cnum)
    ensures ces == Assigned(Coefficients(m, pkt.coes), gene[pkt.gid].pktid, m.snum + m.cnum, m.sizeG)
    ensures m.typ == BandSnc ==> Window(ces, BandLead(pkt.gid, m.sizeB, m.sizeG, m.snum + m.cnum), m.sizeG)
    ensures Encoded(m, X, pkt) && |X| == m.snum + m.cnum && m.sizeP >= 0 && Linear.Rect(X, m.sizeP) ==>
      Holds(ces, pkt.syms, X)
  {
    PacketVector(m, pkt, X);
    ces := ScatterCoefficients(gene[pkt.gid].pktid, Coefficients(m, pkt.coes), m.snum + m.cnum);
  }

  class CbdDecoder {
    const meta: Meta
    /** The subgenerations of the code (the context's gene). */
    const gene: seq<Generation>
    /** The left neighbours of each check (the context graph's l_nbrs_of_r). */
    const checks: seq<seq<nat>>
    /** Set for a code that is not a band code: rows are then stored at full width. */
    const naive: bool
    var finished: bool
    /** DoF: the number of stored rows. */
    var dof: int
    /** Set once the parity-check vectors are to be processed. */
    var dePrecode: bool
    var row: Rows
    var message: seq<seq<bv8>>
    /** The decoded packets (sc->pp), empty until decoding finishes. */
    var pp: seq<seq<bv8>>
    /** The number of packets processed. */
    var overhead: int

    /** The code being decoded, fixed at creation: its parameters, subgenerations and check lists. */
    ghost predicate Code()
    {
      Accepted(meta) && gene == Groups(meta) && |checks| == meta.cnum && NamesSources(checks, meta.snum) &&
      naive == (meta.typ != BandSnc)
    }

    /** The structure kept between and inside the steps of decoding. */
    ghost predicate Shape()
      reads this
    {
      Code() && Matrix(meta.snum + meta.cnum, meta.sizeG, meta.sizeP, row, message, !dePrecode && !naive) && |pp| == |row| &&
      dof == Stored(row) && overhead >= 0
    }

    /** Between packets: decoding has finished exactly when every row is stored. */
    ghost predicate Valid()
      reads this
    {
      Shape() && (finished <==> dof == |row|)
    }

    /** X could be the encoder's packets: snum + cnum packets of size_p bytes whose checks are the sums of their neighbours. */
    ghost predicate Sources(X: seq<seq<bv8>>)
    {
      |X| == meta.snum + meta.cnum && meta.sizeP >= 0 && Linear.Rect(X, meta.sizeP) &&
      ChecksAreSums(X, meta.snum, checks, meta.sizeP)
    }

    /** Every stored row is an equation of X, and a finished decoder holds X. */
    ghost predicate Consistent(X: seq<seq<bv8>>)
      reads this
    {
      RowsHold(row, message, X) && (finished ==> pp == X)
    }

    constructor (m: Meta, g: seq<Generation>, lists: seq<seq<nat>>, n: nat)
      requires m.sizeP >= 0
      ensures meta == m && gene == g && checks == lists && naive == (m.typ != BandSnc)
      ensures !finished && dof == 0 && !dePrecode && overhead == 0
      ensures row == seq(n, _ => None) && message == seq(n, _ => Zeros(m.sizeP)) && pp == seq(n, _ => [])
    {
      meta, gene, checks := m, g, lists;
      naive := m.typ != BandSnc;
      finished, dof, dePrecode, overhead := false, 0, false, 0;
      row := seq(n, _ => None);
      message := seq(n, _ => Zeros(m.sizeP));
      pp := seq(n, _ => []);
    }

    /**
     * create_dec_context_CBD: null when the code parameters are rejected;
     * otherwise no rows, zero messages, and naive mode for a code that is
     * not a band code.  Every X is consistent with the empty matrix.
     */
    static method Create(sp: Parameter, cnum: int) returns (d: CbdDecoder?)
      requires sp.sizeP > 0 && sp.sizeB > 0 && sp.datasize >= 0 && cnum >= 0
      ensures d == null <==> !ParameterValid(Sizing(sp, cnum))
      ensures d != null ==> fresh(d) && d.Valid() && d.meta == Sizing(sp, cnum)
      ensures d != null ==>
        d.naive == (sp.typ != BandSnc) && d.meta.snum >= 0 && d.meta.cnum >= 0 &&
        d.checks == GraphLists(d.meta.snum, d.meta.cnum)
      ensures d != null ==> d.dof == 0 && !d.finished && !d.dePrecode && d.overhead == 0
      ensures d != null ==> d.row == seq(|d.row|, _ => None) && d.message == seq(|d.row|, _ => Zeros(sp.sizeP))
      ensures d != null ==> forall X :: d.Consistent(X)
    {
      var sc := EncContext.Create(sp, cnum, None);
      if sc == null {
        return null;
      }
      var m := sc.meta;
      AcceptedSizes(m);
      ContextLists(sc);
      var lists := sc.CheckLists();
      var n := m.snum + m.cnum;
      d := new CbdDecoder(m, sc.gene, lists, n);
      StoredNone(n);
    }

    /**
     * process_vector_CBD: reduce the vector, then store it at its pivot
     * with its message and count one more DoF, or report -1 and change
     * nothing for a vector that reduces to zero.
     */
    method ProcessVector(v0: seq<bv8>, msg0: seq<bv8>, ghost X: seq<seq<bv8>>, ghost lo: int) returns (pivot: int)
      requires Shape() && |v0| == |row| && |msg0| == meta.sizeP
      modifies this`row, this`message, this`dof
      ensures Shape() && |row| == |old(row)| && -1 <= pivot < |row|
      ensures pivot == -1 ==> row == old(row) && message == old(message) && dof == old(dof)
      ensures pivot >= 0 ==>
        old(row)[pivot].None? && row == old(row)[pivot := row[pivot]] && message == old(message)[pivot := message[pivot]] &&
        row[pivot].Some? && |row[pivot].value| == RowLength(|row|, pivot, meta.sizeG, dePrecode || naive) &&
        dof == old(dof) + 1
      ensures (old(Consistent(X)) && Holds(v0, msg0, X) &&
               (!dePrecode && !naive ==> Window(v0, lo, meta.sizeG))) ==> Consistent(X)
      ensures pivot == ReduceFrom(old(row), v0, 0).0
      ensures pivot == -1 <==> InSpan(old(row), v0)
      ensures pivot >= 0 && (dePrecode || naive || Window(v0, lo, meta.sizeG)) ==> RowVector(row, pivot) == ReduceFrom(old(row), v0, 0).1
    {
      var r, msgs;
      ReducedSpan(row, v0);
      pivot, r, msgs := StoreRow(row, message, v0, msg0, meta.sizeG, meta.sizeP, dePrecode || naive, X, lo);
      row, message, dof := r, msgs, if pivot >= 0 then dof + 1 else dof;
    }

    /**
     * apply_parity_check_matrix: process the parity vector of every check
     * with an all-zero message, one more DoF per vector stored, then count
     * the rows still missing.
     */
    method ApplyParityCheckMatrix(ghost X: seq<seq<bv8>>) returns (missing: int)
      requires Shape() && dePrecode
      modifies this`row, this`message, this`dof
      ensures Shape() && |row| == |old(row)| && missing == |row| - dof && old(dof) <= dof
      ensures forall i :: 0 <= i < |row| && old(row)[i].Some? ==> row[i] == old(row)[i]
      ensures Sources(X) && RowsHold(old(row), old(message), X) ==> RowsHold(row, message, X)
    {
      var r, msgs, added := ApplyChecks(meta.snum, checks, meta.sizeG, meta.sizeP, row, message, X);
      row, message := r, msgs;
      dof := dof + added;
      missing := CountMissing(row);
    }

    /** finish_recovering_CBD: diagonalise, copy out every packet, and mark decoding finished. */
    method FinishRecovering(ghost X: seq<seq<bv8>>)
      requires Shape() && dof == |row|
      modifies this`row, this`message, this`pp, this`finished
      ensures Shape() && finished && |row| == |old(row)| && pp == message
      ensures Full(row) && forall i :: 0 <= i < |row| ==> UnitRow(row[i].value)
      ensures |X| == |row| && RowsHold(old(row), old(message), X) ==> RowsHold(row, message, X) && pp == X
    {
      var r, msgs, out := Finish(row, message, pp, meta.sizeG, meta.sizeP, !dePrecode && !naive, X);
      row, message, pp := r, msgs, out;
      finished := true;
    }

    /**
     * process_packet_CBD: count the packet, scatter its coefficients over
     * the subgeneration's members, process the vector; at snum DoF apply
     * the precode, at snum + cnum DoF finish.  DoF and the flags only
     * grow, no stored row is removed, and a packet coded from the
     * encoder's packets X keeps every stored row an equation of X, so a
     * finished decoder holds X.
     */
    method ProcessPacket(pkt: Packet, ghost X: seq<seq<bv8>>)
      requires Valid() && KnownType(meta.typ)
      requires 0 <= pkt.gid < meta.gnum && |pkt.coes| == CoesLength(meta) && |pkt.syms| == meta.sizeP
      modifies this
      ensures Valid() && |row| == |old(row)|
      ensures overhead == old(overhead) + 1
      ensures old(dof) <= dof && (old(dePrecode) ==> dePrecode) && (old(finished) ==> finished)
      ensures forall i :: 0 <= i < |row| && old(row)[i].Some? ==> row[i].Some?
      ensures Sources(X) && old(Consistent(X)) && Encoded(meta, X, pkt) ==> Consistent(X)
    {
      var ces := FullVector(meta, gene, pkt, X);
      var pivot := ProcessVector(ces, pkt.syms, X, BandLead(pkt.gid, meta.sizeB, meta.sizeG, |row|));
      CheckProgress(X);
      overhead := overhead + 1;
    }

    /**
     * The end of process_packet_CBD: at snum DoF mark the precode applied,
     * process the parity-check vectors and take DoF as the rows present;
     * at snum + cnum DoF finish.  Stored rows stay, and a decoder whose rows
     * are equations of X, and which holds X if it had finished, is
     * consistent with X afterwards.
     */
    method CheckProgress(ghost X: seq<seq<bv8>>)
      requires Shape() && (finished ==> dof == |row|)
      modifies this`row, this`message, this`pp, this`dof, this`dePrecode, this`finished
      ensures Valid() && |row| == |old(row)|
      ensures old(dof) <= dof && (old(dePrecode) ==> dePrecode) && (old(finished) ==> finished)
      ensures forall i :: 0 <= i < |row| && old(row)[i].Some? ==> row[i].Some?
      ensures Sources(X) && old(Consistent(X)) ==> Consistent(X)
    {
      var n := |row|;
      if dof == meta.snum {
        dePrecode := true;
        var missing := ApplyParityCheckMatrix(X);
        dof := n - missing;
      }
      if dof == n {
        FinishRecovering(X);
      }
    }
  }
}
