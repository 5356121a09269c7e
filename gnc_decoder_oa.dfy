/**
 * The older overlap-aware decoder (gncOADecoder.c).
 *
 * It runs the algorithm of src/decoderOA.c with three differences in
 * state.  The global decoding matrix is allocated when the decoder is
 * created, with the precode's check rows already in place and otoc and
 * ctoo the identity.  The local matrices are kept once the decoder is
 * OA-ready.  And from then on a packet is first reduced against its
 * generation's local matrix and stored there, and only a packet that
 * adds a local row goes on, as that reduced row, to the global matrix.
 */
module GncDecoderOa {
  import opened Packets
  import opened Grouping
  import opened Decoding
  import opened SncEncoder
  import opened CompactRows
  import opened DecoderBd
  import opened Reordering
  import opened GlobalMatrix
  import opened Pivoting
  import opened DecoderOa
  import Linear
  import PivotRounds

  /** The identity is its own inverse: otoc and ctoo as create_decoding_context_OA sets them. */
  lemma IdentityInverses(n: nat)
    ensures PivotRounds.Inverses(PivotRounds.Identity(n), PivotRounds.Identity(n))
  {
    var p := PivotRounds.Identity(n);
    assert IsPermutation(p, n);
    PivotRounds.InverseFromLeft(p, p);
  }

  /**
   * The GDM create_decoding_context_OA allocates: numpp + aoh rows over
   * numpp = snum + cnum packets, row snum + aoh + i the parity row of
   * check i, and every other row and every message zero.
   */
  ghost predicate Allocated(J: Matrix, B: Matrix, snum: nat, aoh: nat, checks: seq<seq<nat>>, w: nat)
  {
    var n := snum + |checks|;
    Gdm(J, B, n, w) && |J| == n + aoh &&
    (forall r :: 0 <= r < snum + aoh ==> J[r] == Zeros(n)) &&
    (forall i :: 0 <= i < |checks| ==> InPackets(checks[i], snum) && J[snum + aoh + i] == ParityRow(checks[i], snum, i, n)) &&
    (forall r :: 0 <= r < |B| ==> B[r] == Zeros(w))
  }

  /** Every row of the allocated GDM is an equation of packets whose checks are the sums of their neighbours. */
  lemma AllocatedHolds(J: Matrix, B: Matrix, snum: nat, aoh: nat, checks: seq<seq<nat>>, w: nat, X: seq<seq<bv8>>)
    requires NamesSources(checks, snum) && Allocated(J, B, snum, aoh, checks, w)
    requires ChecksAreSums(X, snum, checks, w) && Linear.Rect(X, w)
    ensures AllHold(J, B, X)
  {
    CheckRowsHold(J, B, snum, aoh, checks, w, X);
  }

  /**
   * C is S partially diagonalised, generation by generation: the same
   * diagonal, the rows with a zero diagonal entry unchanged, and every
   * column with a nonzero diagonal entry zero off the diagonal.
   */
  ghost predicate InRef(S: seq<Matrix>, C: seq<Matrix>)
  {
    |C| == |S| &&
    forall g :: 0 <= g < |S| ==>
      Square(S[g], |S[g]|) && Square(C[g], |S[g]|) &&
      (forall i :: 0 <= i < |S[g]| ==> C[g][i][i] == S[g][i][i]) &&
      (forall i :: 0 <= i < |S[g]| && S[g][i][i] == 0 ==> C[g][i] == S[g][i]) &&
      (forall i, k :: 0 <= i < |S[g]| && 0 <= k < |S[g]| && i != k && S[g][k][k] != 0 ==> C[g][i][k] == 0)
  }

  /**
   * The state create_decoding_context_OA allocates: a zero size_g square
   * matrix and zero messages per generation, with no pivot, and the GDM
   * with the check rows in place.
   */
  method Allocate(snum: nat, aoh: nat, checks: seq<seq<nat>>, gene: seq<Generation>, sizeG: nat, sizeP: nat)
    returns (Cs: seq<Matrix>, Ms: seq<Matrix>, J: Matrix, B: Matrix)
    requires sizeG >= 1 && NamesSources(checks, snum) && forall g :: 0 <= g < |gene| ==> |gene[g].pktid| == sizeG
    ensures Locals(Cs, Ms, gene, sizeG, sizeP) && LocalDoF(Cs, |Cs|) == 0
    ensures forall g :: 0 <= g < |gene| ==> Cs[g] == ZeroMatrix(sizeG, sizeG) && Pivots(Cs[g], 0) == 0
    ensures Allocated(J, B, snum, aoh, checks, sizeP)
    ensures forall g :: 0 <= g < |gene| ==> Ms[g] == ZeroMatrix(sizeG, sizeP)
  {
    Cs := seq(|gene|, _ => ZeroMatrix(sizeG, sizeG));
    Ms := seq(|gene|, _ => ZeroMatrix(sizeG, sizeP));
    ZeroMatrixHolds(sizeG, sizeG, sizeP, []);
    LocalDoFNone(Cs, |Cs|);
    J, B := CheckRows(snum, aoh, checks, sizeP);
  }

  /**
   * The OA-ready transition of the older process_packet_OA: the local
   * matrices are partially diagonalised in place
   * (partially_diag_RM_matrices), the GDM allocated at creation is filled
   * from them and pivoted (construct_GDM_inactivation), and
   * finish_recovering_inactivation runs at once if global_DoF reaches
   * numpp.  The local matrices are kept, in reduced row-echelon form and
   * still equations of their members; the GDM says what they and the
   * checks said of X, or the packets are recovered.
   */
  method GncReady(Cs0: seq<Matrix>, Ms0: seq<Matrix>, gene: seq<Generation>, sizeG: nat, snum: nat, aoh: nat,
                  checks: seq<seq<nat>>, J0: Matrix, B0: Matrix, pp0: seq<seq<bv8>>, w: nat, ghost X: seq<seq<bv8>>)
    returns (Cs: seq<Matrix>, Ms: seq<Matrix>, J: Matrix, B: Matrix, otoc: seq<int>, ctoo: seq<int>, inactives: int,
             dof: int, pp: seq<seq<bv8>>, finished: bool)
    requires NamesSources(checks, snum) && Locals(Cs0, Ms0, gene, sizeG, w) && sizeG >= 1
    requires forall g :: 0 <= g < |gene| ==> InPackets(gene[g].pktid, snum + |checks|)
    requires Allocated(J0, B0, snum, aoh, checks, w) && LocalDoF(Cs0, |Cs0|) <= snum + aoh && |pp0| == snum + |checks|
    ensures Locals(Cs, Ms, gene, sizeG, w) && InRef(Cs0, Cs) && LocalDoF(Cs, |Cs|) == LocalDoF(Cs0, |Cs0|)
    ensures ReadyState(J, B, otoc, ctoo, inactives, dof, pp, snum + |checks|, aoh, w)
    ensures finished <==> dof == snum + |checks|
    ensures finished ==>
      (forall r :: 0 <= r < snum + |checks| - inactives ==> J[r] == Unit(snum + |checks|, r)) &&
      (forall j :: 0 <= j < snum + |checks| ==> pp[ctoo[j]] == B[j])
    ensures ChecksAreSums(X, snum, checks, w) && Linear.Rect(X, w) && LocalsHold(Cs0, Ms0, gene, X) &&
            (forall g :: 0 <= g < |gene| ==> Distinct(gene[g].pktid)) ==>
      LocalsHold(Cs, Ms, gene, X) && ReadyHolds(J, B, ctoo, pp, snum + |checks|, finished, X)
  {
    var n := snum + |checks|;
    Cs, Ms := RunningMatrixToRef(Cs0, Ms0, gene, sizeG, w, X);
    if ChecksAreSums(X, snum, checks, w) && Linear.Rect(X, w) {
      AllocatedHolds(J0, B0, snum, aoh, checks, w, X);
    }
    J, B, otoc, ctoo, inactives, dof := FillGdm(J0, B0, Cs, Ms, gene, sizeG, n, w, X);
    J, B, pp, finished := FinishWhenFull(J, B, otoc, ctoo, inactives, dof, pp0, n, aoh, w, X);
  }

  /** The state of the older decoding_context_OA: the local matrices throughout, the GDM from creation on. */
  class GncOaDecoder {
    const snum: nat
    const aoh: nat
    const sizeG: nat
    const sizeP: nat
    /** The generations, each a list of size_g packet ids. */
    const gene: seq<Generation>
    /** The precode: check i is the sum of the source packets checks[i]; cnum is |checks|. */
    const checks: seq<seq<nat>>
    /** Per generation, the coefficient and message rows of its local matrix. */
    var coefficient: seq<Matrix>
    var message: seq<Matrix>
    var localDoF: int
    var overhead: int
    var ready: bool
    var finished: bool
    /** The GDM: numpp + aoh coefficient rows over the numpp packets in column order, and their messages. */
    var jmbCoefficient: Matrix
    var jmbMessage: Matrix
    /** otoc maps a packet to its column, ctoo a column to its packet. */
    var otoc: seq<int>
    var ctoo: seq<int>
    var inactives: int
    var globalDoF: int
    /** The recovered packets, in packet order. */
    var pp: seq<seq<bv8>>

    /** numpp: the source packets and the check packets. */
    function Numpp(): nat
    {
      snum + |checks|
    }

    /** The parameters: generations of size_g packet ids among the numpp packets, and checks over the snum sources. */
    ghost predicate Params()
    {
      sizeG >= 1 && snum >= 1 && NamesSources(checks, snum) &&
      forall g :: 0 <= g < |gene| ==> |gene[g].pktid| == sizeG && InPackets(gene[g].pktid, Numpp())
    }

    /** What holds in every state: the parameters, and the local degrees of freedom counted within the packets received. */
    ghost predicate Common()
      reads this`localDoF, this`overhead
    {
      Params() && 0 <= localDoF <= overhead
    }

    /** Every local matrix is size_g square and banded over size_g. */
    ghost predicate LocalShape()
      reads this`coefficient, this`message
    {
      sizeG >= 1 && Locals(coefficient, message, gene, sizeG, sizeP)
    }

    /**
     * The GDM as it was allocated: check rows in place, otoc and ctoo the
     * identity, no inactive column, no global degree of freedom, and a pp
     * slot per packet.
     */
    ghost predicate AsAllocated()
      reads this`jmbCoefficient, this`jmbMessage, this`otoc, this`ctoo, this`inactives, this`globalDoF, this`pp
    {
      Allocated(jmbCoefficient, jmbMessage, snum, aoh, checks, sizeP) &&
      otoc == PivotRounds.Identity(Numpp()) && ctoo == PivotRounds.Identity(Numpp()) &&
      inactives == 0 && globalDoF == 0 && |pp| == Numpp()
    }

    /**
     * The local matrices are always well formed.  Before OA-readiness
     * local_DoF counts their pivots, the last readiness test failed and the
     * GDM is as allocated; afterwards the GDM is well formed, and decoding
     * is finished exactly when global_DoF reaches numpp.
     */
    ghost predicate Shape()
      reads this
    {
      Common() && LocalShape() &&
      (!ready ==>
        localDoF == LocalDoF(coefficient, |coefficient|) && !finished && (localDoF < snum || overhead < snum + aoh) &&
        AsAllocated()) &&
      (ready ==>
        ReadyState(jmbCoefficient, jmbMessage, otoc, ctoo, inactives, globalDoF, pp, Numpp(), aoh, sizeP) &&
        (finished <==> globalDoF == Numpp()))
    }

    /**
     * X is the packets of the code: numpp packets of size_p bytes whose
     * checks are the sums of their source neighbours, with every generation
     * listing distinct packets among them.
     */
    ghost predicate Sources(X: seq<seq<bv8>>)
    {
      |X| == Numpp() && Linear.Rect(X, sizeP) && ChecksAreSums(X, snum, checks, sizeP) &&
      forall g :: 0 <= g < |gene| ==> InPackets(gene[g].pktid, |X|) && Distinct(gene[g].pktid)
    }

    /**
     * Every row decoding keeps is an equation of X: a local row of its
     * generation's members, once OA-ready a GDM row of X in column order,
     * and once finished every recovered packet is X's.
     */
    ghost predicate Correct(X: seq<seq<bv8>>)
      reads this
    {
      Sources(X) && LocalsHold(coefficient, message, gene, X) &&
      (ready ==> ReadyHolds(jmbCoefficient, jmbMessage, ctoo, pp, Numpp(), finished, X))
    }

    /**
     * create_decoding_context_OA: zeroed local matrices, no degree of
     * freedom, no packet, not OA-ready and not finished; the GDM allocated
     * with check i's parity row at row snum + aoh + i and zeros elsewhere,
     * and otoc and ctoo the identity, each the inverse of the other.
     */
    constructor (snum: nat, aoh: nat, sizeG: nat, sizeP: nat, gene: seq<Generation>, checks: seq<seq<nat>>)
      requires sizeG >= 1 && snum >= 1 && NamesSources(checks, snum)
      requires forall g :: 0 <= g < |gene| ==> |gene[g].pktid| == sizeG && InPackets(gene[g].pktid, snum + |checks|)
      ensures this.snum == snum && this.aoh == aoh && this.sizeG == sizeG && this.sizeP == sizeP && this.gene == gene
      ensures this.checks == checks
      ensures Shape() && AsAllocated() && localDoF == 0 && overhead == 0 && !ready && !finished
      ensures forall g :: 0 <= g < |gene| ==> Pivots(coefficient[g], 0) == 0
      ensures PivotRounds.Inverses(otoc, ctoo)
      ensures forall X :: Sources(X) ==> Correct(X)
    {
      var Cs, Ms, J, B := Allocate(snum, aoh, checks, gene, sizeG, sizeP);
      var n := snum + |checks|;
      IdentityInverses(n);
      this.snum, this.aoh, this.sizeG, this.sizeP, this.gene, this.checks := snum, aoh, sizeG, sizeP, gene, checks;
      coefficient, message, jmbCoefficient, jmbMessage := Cs, Ms, J, B;
      localDoF, overhead, ready, finished := 0, 0, false, false;
      otoc, ctoo, inactives, globalDoF := PivotRounds.Identity(n), PivotRounds.Identity(n), 0, 0;
      pp := seq(n, _ => []);
      new;
      forall X | Sources(X)
        ensures Correct(X)
      {
        forall g | 0 <= g < |gene|
          ensures AllHold(Cs[g], Ms[g], Gathered(X, gene[g].pktid))
        {
          ZeroMatrixHolds(sizeG, sizeG, sizeP, Gathered(X, gene[g].pktid));
        }
      }
    }

    /**
     * The reduction of a packet's first size_g coefficients against its
     * generation's local matrix; the first component is the pivot, -1 when
     * the vector reduces to zero.
     */
    ghost function LocalReduction(pkt: Packet): (r: (int, seq<bv8>))
      requires LocalShape() && 0 <= pkt.gid < |gene| && |pkt.coes| >= sizeG
      reads this`coefficient, this`message
      ensures -1 <= r.0 < sizeG && |r.1| == sizeG
    {
      ReduceFrom(View(coefficient[pkt.gid], sizeG, false), pkt.coes[..sizeG], 0)
    }

    /**
     * The reduction against the GDM of a local vector v of generation g:
     * placed at its members' columns, then reduced left to right; the
     * first component is the pivot, -1 when the vector reduces to zero.
     */
    ghost function GlobalReduction(g: int, v: seq<bv8>): (r: (int, seq<bv8>))
      requires Params() && ReadyState(jmbCoefficient, jmbMessage, otoc, ctoo, inactives, globalDoF, pp, Numpp(), aoh, sizeP)
      requires 0 <= g < |gene| && |v| == sizeG
      reads this`jmbCoefficient, this`jmbMessage, this`otoc, this`ctoo, this`inactives, this`globalDoF, this`pp
      ensures -1 <= r.0 < Numpp() && |r.1| == Numpp()
    {
      ReduceFrom(View(jmbCoefficient[..Numpp()], 1, true), Reordered(Assigned(v, gene[g].pktid, Numpp(), sizeG), ctoo), 0)
    }

    /**
     * The local stage of the older process_packet_OA for generation g: the
     * vector is reduced against the rows on the diagonal and, if an entry
     * survives at an empty diagonal, stored there with its message; the
     * local pivots grow by one exactly then.  No other generation changes,
     * and rows that were equations of the generation's members stay so
     * when the packet is one.
     */
    method StoreLocal(g: int, ces: seq<bv8>, syms: seq<bv8>, ghost X: seq<seq<bv8>>) returns (pivot: int)
      requires LocalShape() && 0 <= g < |gene| && |ces| == sizeG && |syms| == sizeP
      modifies this`coefficient, this`message
      ensures LocalShape() && -1 <= pivot < sizeG
      ensures pivot == ReduceFrom(View(old(coefficient)[g], sizeG, false), ces, 0).0
      ensures pivot == -1 ==> coefficient == old(coefficient) && message == old(message)
      ensures pivot >= 0 ==>
        old(coefficient)[g][pivot][pivot] == 0 &&
        coefficient == old(coefficient)[g := old(coefficient)[g][pivot := ReduceFrom(View(old(coefficient)[g], sizeG, false), ces, 0).1]] &&
        message == old(message)[g := old(message)[g][pivot := message[g][pivot]]]
      ensures LocalDoF(coefficient, |coefficient|) == old(LocalDoF(coefficient, |coefficient|)) + (if pivot >= 0 then 1 else 0)
      ensures old(LocalsHold(coefficient, message, gene, X)) && Holds(ces, syms, Gathered(X, gene[g].pktid)) ==>
        LocalsHold(coefficient, message, gene, X)
    {
      ghost var Y := if LocalsHold(coefficient, message, gene, X) then Gathered(X, gene[g].pktid) else [];
      var C, M;
      pivot, C, M := StoreBanded(coefficient[g], message[g], ces, syms, sizeG, 0, Y);
      LocalsSet(coefficient, message, gene, sizeG, sizeP, g, C, M, X);
      if pivot >= 0 {
        coefficient := coefficient[g := C];
        message := message[g := M];
      }
    }

    /** One more packet received. */
    method CountPacket()
      modifies this`overhead
      ensures overhead == old(overhead) + 1
    {
      overhead := overhead + 1;
    }

    /**
     * The OA-ready transition: the local matrices are brought to reduced
     * row-echelon form and the GDM allocated at creation is filled from
     * them, pivoted, and finished at once if global_DoF reaches numpp.
     * What the local rows and the checks said of X the GDM says.
     */
    method BecomeReady(ghost X: seq<seq<bv8>>)
      requires Common() && !ready && !finished && LocalShape() && AsAllocated()
      requires localDoF == LocalDoF(coefficient, |coefficient|) && localDoF <= snum + aoh
      modifies this`coefficient, this`message, this`ready, this`finished, this`jmbCoefficient, this`jmbMessage,
               this`otoc, this`ctoo, this`inactives, this`globalDoF, this`pp
      ensures Shape() && ready && InRef(old(coefficient), coefficient)
      ensures finished ==>
        (forall r :: 0 <= r < Numpp() - inactives ==> jmbCoefficient[r] == Unit(Numpp(), r)) &&
        (forall j :: 0 <= j < Numpp() ==> pp[ctoo[j]] == jmbMessage[j])
      ensures Sources(X) && old(LocalsHold(coefficient, message, gene, X)) ==> Correct(X)
    {
      var Cs, Ms, J, B, ot, ct, ias, dof, rec, fin :=
        GncReady(coefficient, message, gene, sizeG, snum, aoh, checks, jmbCoefficient, jmbMessage, pp, sizeP, X);
      InstallReady(Cs, Ms, J, B, ot, ct, ias, dof, rec, fin, X);
    }

    /** The decoder is OA-ready with the given local matrices and a well-formed GDM. */
    method InstallReady(Cs: seq<Matrix>, Ms: seq<Matrix>, J: Matrix, B: Matrix, ot: seq<int>, ct: seq<int>, ias: int,
                        dof: int, rec: seq<seq<bv8>>, fin: bool, ghost X: seq<seq<bv8>>)
      requires Common() && sizeG >= 1 && Locals(Cs, Ms, gene, sizeG, sizeP)
      requires ReadyState(J, B, ot, ct, ias, dof, rec, Numpp(), aoh, sizeP) && (fin <==> dof == Numpp())
      modifies this`coefficient, this`message, this`ready, this`finished, this`jmbCoefficient, this`jmbMessage,
               this`otoc, this`ctoo, this`inactives, this`globalDoF, this`pp
      ensures Shape() && ready && coefficient == Cs && message == Ms && finished == fin
      ensures jmbCoefficient == J && jmbMessage == B && otoc == ot && ctoo == ct && inactives == ias && globalDoF == dof
      ensures pp == rec
      ensures Sources(X) && LocalsHold(Cs, Ms, gene, X) && ReadyHolds(J, B, ct, rec, Numpp(), fin, X) ==> Correct(X)
    {
      SetLocals(Cs, Ms);
      EnterReady(ot, ct, ias);
      SetGdm(J, B, dof, rec, fin, X);
    }

    /** The local matrices take new values. */
    method SetLocals(Cs: seq<Matrix>, Ms: seq<Matrix>)
      modifies this`coefficient, this`message
      ensures coefficient == Cs && message == Ms
    {
      coefficient, message := Cs, Ms;
    }

    /** The decoder is OA-ready and the GDM's column order is fixed. */
    method EnterReady(ot: seq<int>, ct: seq<int>, ias: int)
      modifies this`ready, this`otoc, this`ctoo, this`inactives
      ensures ready && otoc == ot && ctoo == ct && inactives == ias
    {
      ready, otoc, ctoo, inactives := true, ot, ct, ias;
    }

    /** The GDM, global_DoF, pp and finished take new values. */
    method SetGdm(J: Matrix, B: Matrix, dof: int, rec: seq<seq<bv8>>, fin: bool, ghost X: seq<seq<bv8>>)
      requires Common() && ready && LocalShape()
      requires ReadyState(J, B, otoc, ctoo, inactives, dof, rec, Numpp(), aoh, sizeP) && (fin <==> dof == Numpp())
      modifies this`jmbCoefficient, this`jmbMessage, this`globalDoF, this`pp, this`finished
      ensures jmbCoefficient == J && jmbMessage == B && globalDoF == dof && pp == rec && finished == fin
      ensures Shape()
      ensures Sources(X) && LocalsHold(coefficient, message, gene, X) && ReadyHolds(J, B, ctoo, rec, Numpp(), fin, X) ==>
        Correct(X)
    {
      jmbCoefficient, jmbMessage, globalDoF, pp, finished := J, B, dof, rec, fin;
    }

    /**
     * The OA-ready branch's use of the GDM: the local vector v of
     * generation g, with its message, is placed at its members' columns,
     * reduced against the GDM and, if an entry survives at a column without
     * a row, stored there, adding one global degree of freedom; decoding
     * finishes, with finish_recovering_inactivation, when global_DoF reaches
     * numpp.  An equation of g's members of X keeps what the decoder knows.
     */
    method ProcessGlobal(g: int, v: seq<bv8>, msg: seq<bv8>, ghost X: seq<seq<bv8>>) returns (pivot: int)
      requires Shape() && ready && 0 <= g < |gene| && |v| == sizeG && |msg| == sizeP
      modifies this`jmbCoefficient, this`jmbMessage, this`globalDoF, this`pp, this`finished
      ensures Shape() && ready
      ensures pivot == old(GlobalReduction(g, v)).0
      ensures old(finished) ==> pivot == -1
      ensures pivot == -1 ==>
        jmbCoefficient == old(jmbCoefficient) && jmbMessage == old(jmbMessage) && globalDoF == old(globalDoF) &&
        pp == old(pp) && finished == old(finished)
      ensures pivot >= 0 ==>
        Numpp() - inactives <= pivot && old(jmbCoefficient)[pivot][pivot] == 0 && globalDoF == old(globalDoF) + 1
      ensures pivot >= 0 && !finished ==>
        jmbCoefficient == old(jmbCoefficient)[pivot := old(GlobalReduction(g, v)).1] &&
        jmbMessage == old(jmbMessage)[pivot := jmbMessage[pivot]] && pp == old(pp)
      ensures pivot >= 0 && finished ==>
        (forall r :: 0 <= r < Numpp() - inactives ==> jmbCoefficient[r] == Unit(Numpp(), r)) &&
        (forall j :: 0 <= j < Numpp() ==> pp[ctoo[j]] == jmbMessage[j])
      ensures (Sources(X) && Holds(v, msg, Gathered(X, gene[g].pktid)) && old(Correct(X))) ==> Correct(X)
    {
      var J, B, dof, rec, fin;
      pivot, J, B, dof, rec, fin := GlobalStep(jmbCoefficient, jmbMessage, otoc, ctoo, inactives, globalDoF, pp, finished,
                                               Numpp(), aoh, gene[g].pktid, v, msg, X);
      SetGdm(J, B, dof, rec, fin, X);
    }

    /**
     * The count and the readiness test of the older process_packet_OA:
     * overhead grows by one, and the decoder becomes OA-ready exactly when
     * local_DoF >= snum and overhead >= snum + aoh, the local matrices then
     * brought to reduced row-echelon form; otherwise nothing else changes.
     */
    method TestReady(ghost X: seq<seq<bv8>>)
      requires Params() && 0 <= localDoF <= overhead + 1 && !ready && !finished && LocalShape() && AsAllocated()
      requires localDoF == LocalDoF(coefficient, |coefficient|) && localDoF <= snum + aoh
      modifies this`coefficient, this`message, this`overhead, this`ready, this`finished, this`jmbCoefficient,
               this`jmbMessage, this`otoc, this`ctoo, this`inactives, this`globalDoF, this`pp
      ensures Shape() && overhead == old(overhead) + 1 && localDoF == old(localDoF)
      ensures ready <==> localDoF >= snum && overhead >= snum + aoh
      ensures !ready ==> coefficient == old(coefficient) && message == old(message)
      ensures ready ==> InRef(old(coefficient), coefficient)
      ensures Sources(X) && old(LocalsHold(coefficient, message, gene, X)) ==> Correct(X)
    {
      CountPacket();
      if localDoF >= snum && overhead >= snum + aoh {
        BecomeReady(X);
      }
    }

    /**
     * The branch of the older process_packet_OA before OA-readiness: the
     * packet is counted, reduced and stored in its generation's local
     * matrix as LocalReduction says, local_DoF grows by one exactly when it
     * is stored, and the decoder becomes OA-ready exactly when local_DoF >=
     * snum and overhead >= snum + aoh, the local matrices, with the packet
     * stored, then brought to reduced row-echelon form.
     */
    method ProcessLocal(pkt: Packet, ghost X: seq<seq<bv8>>)
      requires Shape() && !ready && 0 <= pkt.gid < |gene| && |pkt.coes| >= sizeG && |pkt.syms| == sizeP
      modifies this`coefficient, this`message, this`localDoF, this`overhead, this`ready, this`finished,
               this`jmbCoefficient, this`jmbMessage, this`otoc, this`ctoo, this`inactives, this`globalDoF, this`pp
      ensures Shape() && overhead == old(overhead) + 1
      ensures ready <==> localDoF >= snum && overhead >= snum + aoh
      ensures var (pivot, v) := old(LocalReduction(pkt));
        var S := if pivot >= 0 then old(coefficient)[pkt.gid := old(coefficient)[pkt.gid][pivot := v]] else old(coefficient);
        localDoF == old(localDoF) + (if pivot >= 0 then 1 else 0) &&
        (pivot >= 0 ==> old(coefficient)[pkt.gid][pivot][pivot] == 0) &&
        (!ready ==> coefficient == S) &&
        (!ready && pivot == -1 ==> message == old(message)) &&
        (!ready && pivot >= 0 ==> message == old(message)[pkt.gid := old(message)[pkt.gid][pivot := message[pkt.gid][pivot]]]) &&
        (ready ==> InRef(S, coefficient))
      ensures (Sources(X) && pkt.syms == Accumulate(Zeros(sizeP), X, gene[pkt.gid].pktid, pkt.coes, sizeG) &&
               old(Correct(X))) ==> Correct(X)
    {
      assert localDoF < snum + aoh by {
        assert localDoF <= overhead && (localDoF < snum || overhead < snum + aoh);
      }
      var pivot := AddLocal(pkt, X);
      TestReady(X);
    }

    /**
     * The store of ProcessLocal before the readiness test: the packet is
     * stored as LocalReduction says and local_DoF counts the stored row;
     * local_DoF stays within snum + aoh.
     */
    method AddLocal(pkt: Packet, ghost X: seq<seq<bv8>>) returns (pivot: int)
      requires Common() && LocalShape() && !ready && !finished && 0 <= pkt.gid < |gene| && |pkt.coes| >= sizeG
      requires |pkt.syms| == sizeP && localDoF == LocalDoF(coefficient, |coefficient|) && localDoF < snum + aoh
      modifies this`coefficient, this`message, this`localDoF
      ensures Params() && 0 <= localDoF <= overhead + 1 && !ready && !finished && LocalShape()
      ensures localDoF == LocalDoF(coefficient, |coefficient|) && localDoF <= snum + aoh
      ensures pivot == old(LocalReduction(pkt)).0
      ensures localDoF == old(localDoF) + (if pivot >= 0 then 1 else 0)
      ensures pivot == -1 ==> coefficient == old(coefficient) && message == old(message)
      ensures pivot >= 0 ==>
        old(coefficient)[pkt.gid][pivot][pivot] == 0 &&
        coefficient == old(coefficient)[pkt.gid := old(coefficient)[pkt.gid][pivot := old(LocalReduction(pkt)).1]] &&
        message == old(message)[pkt.gid := old(message)[pkt.gid][pivot := message[pkt.gid][pivot]]]
      ensures (Sources(X) && pkt.syms == Accumulate(Zeros(sizeP), X, gene[pkt.gid].pktid, pkt.coes, sizeG) &&
               old(Correct(X))) ==> Sources(X) && LocalsHold(coefficient, message, gene, X)
    {
      if Sources(X) {
        PacketHolds(X, gene[pkt.gid].pktid, pkt.coes, pkt.syms, sizeP);
      }
      pivot := StoreLocal(pkt.gid, pkt.coes[..sizeG], pkt.syms, X);
      localDoF := localDoF + if pivot >= 0 then 1 else 0;
    }

    /**
     * The branch of the older process_packet_OA once OA-ready: the packet
     * is counted, reduced and stored in its generation's local matrix as
     * LocalReduction says, without counting a local degree of freedom, and
     * only when it is stored does its reduced row go on to the GDM, as
     * ProcessGlobal says.
     */
    method ProcessReady(pkt: Packet, ghost X: seq<seq<bv8>>)
      requires Shape() && ready && 0 <= pkt.gid < |gene| && |pkt.coes| >= sizeG && |pkt.syms| == sizeP
      modifies this`coefficient, this`message, this`overhead, this`jmbCoefficient, this`jmbMessage, this`globalDoF,
               this`pp, this`finished
      ensures Shape() && ready && overhead == old(overhead) + 1
      ensures var (pivot, v) := old(LocalReduction(pkt));
        (pivot == -1 ==>
          coefficient == old(coefficient) && message == old(message) &&
          jmbCoefficient == old(jmbCoefficient) && jmbMessage == old(jmbMessage) && globalDoF == old(globalDoF) &&
          pp == old(pp) && finished == old(finished)) &&
        (pivot >= 0 ==>
          coefficient == old(coefficient)[pkt.gid := old(coefficient)[pkt.gid][pivot := v]] &&
          message == old(message)[pkt.gid := old(message)[pkt.gid][pivot := message[pkt.gid][pivot]]])
      ensures var (pivot, v) := old(LocalReduction(pkt));
        pivot >= 0 ==>
          var (gp, u) := old(GlobalReduction(pkt.gid, v));
          (gp == -1 ==>
            jmbCoefficient == old(jmbCoefficient) && jmbMessage == old(jmbMessage) && globalDoF == old(globalDoF) &&
            pp == old(pp) && finished == old(finished)) &&
          (gp >= 0 ==> !old(finished) && Numpp() - inactives <= gp && globalDoF == old(globalDoF) + 1) &&
          (gp >= 0 && !finished ==>
            jmbCoefficient == old(jmbCoefficient)[gp := u] && jmbMessage == old(jmbMessage)[gp := jmbMessage[gp]])
      ensures (Sources(X) && pkt.syms == Accumulate(Zeros(sizeP), X, gene[pkt.gid].pktid, pkt.coes, sizeG) &&
               old(Correct(X))) ==> Correct(X)
    {
      var pivot := AddReady(pkt, X);
      if pivot >= 0 {
        var gp := ProcessGlobal(pkt.gid, coefficient[pkt.gid][pivot], message[pkt.gid][pivot], X);
      }
    }

    /**
     * The local store of ProcessReady: the packet is counted and stored as
     * LocalReduction says; a stored row of a coded packet of X is an
     * equation of its generation's members.
     */
    method AddReady(pkt: Packet, ghost X: seq<seq<bv8>>) returns (pivot: int)
      requires Common() && LocalShape() && 0 <= pkt.gid < |gene| && |pkt.coes| >= sizeG && |pkt.syms| == sizeP
      modifies this`coefficient, this`message, this`overhead
      ensures Common() && LocalShape() && overhead == old(overhead) + 1
      ensures pivot == old(LocalReduction(pkt)).0
      ensures pivot == -1 ==> coefficient == old(coefficient) && message == old(message)
      ensures pivot >= 0 ==>
        coefficient == old(coefficient)[pkt.gid := old(coefficient)[pkt.gid][pivot := old(LocalReduction(pkt)).1]] &&
        message == old(message)[pkt.gid := old(message)[pkt.gid][pivot := message[pkt.gid][pivot]]] &&
        |coefficient[pkt.gid][pivot]| == sizeG && |message[pkt.gid][pivot]| == sizeP
      ensures (Sources(X) && pkt.syms == Accumulate(Zeros(sizeP), X, gene[pkt.gid].pktid, pkt.coes, sizeG) &&
               old(LocalsHold(coefficient, message, gene, X))) ==>
        LocalsHold(coefficient, message, gene, X) &&
        (pivot >= 0 ==> Holds(coefficient[pkt.gid][pivot], message[pkt.gid][pivot], Gathered(X, gene[pkt.gid].pktid)))
    {
      CountPacket();
      if Sources(X) {
        PacketHolds(X, gene[pkt.gid].pktid, pkt.coes, pkt.syms, sizeP);
      }
      pivot := StoreLocal(pkt.gid, pkt.coes[..sizeG], pkt.syms, X);
    }

    /**
     * The older process_packet_OA: one more packet is counted and stored in
     * its generation's local matrix.  Before OA-readiness it may make the
     * decoder OA-ready, as ProcessLocal says; from then on a stored row goes
     * on to the GDM, as ProcessReady says.  Coded packets of X keep every
     * stored row an equation of X.
     */
    method ProcessPacket(pkt: Packet, ghost X: seq<seq<bv8>>)
      requires Shape() && 0 <= pkt.gid < |gene| && |pkt.coes| >= sizeG && |pkt.syms| == sizeP
      modifies this`coefficient, this`message, this`localDoF, this`overhead, this`ready, this`finished,
               this`jmbCoefficient, this`jmbMessage, this`otoc, this`ctoo, this`inactives, this`globalDoF, this`pp
      ensures Shape() && overhead == old(overhead) + 1
      ensures !old(ready) ==> (ready <==> localDoF >= snum && overhead >= snum + aoh)
      ensures old(ready) ==>
        ready && localDoF == old(localDoF) && otoc == old(otoc) && ctoo == old(ctoo) && inactives == old(inactives)
      ensures var (pivot, v) := old(LocalReduction(pkt));
        var S := if pivot >= 0 then old(coefficient)[pkt.gid := old(coefficient)[pkt.gid][pivot := v]] else old(coefficient);
        (!old(ready) ==> localDoF == old(localDoF) + (if pivot >= 0 then 1 else 0)) &&
        (old(ready) == ready ==> coefficient == S) &&
        (old(ready) != ready ==> InRef(S, coefficient))
      ensures old(ready) ==>
        var (pivot, v) := old(LocalReduction(pkt));
        (pivot == -1 ==>
          jmbCoefficient == old(jmbCoefficient) && jmbMessage == old(jmbMessage) && globalDoF == old(globalDoF) &&
          pp == old(pp) && finished == old(finished)) &&
        (pivot >= 0 ==>
          var (gp, u) := old(GlobalReduction(pkt.gid, v));
          (gp == -1 ==>
            jmbCoefficient == old(jmbCoefficient) && jmbMessage == old(jmbMessage) && globalDoF == old(globalDoF) &&
            pp == old(pp) && finished == old(finished)) &&
          (gp >= 0 ==> !old(finished) && globalDoF == old(globalDoF) + 1) &&
          (gp >= 0 && !finished ==> jmbCoefficient == old(jmbCoefficient)[gp := u]))
      ensures (Sources(X) && pkt.syms == Accumulate(Zeros(sizeP), X, gene[pkt.gid].pktid, pkt.coes, sizeG) &&
               old(Correct(X))) ==> Correct(X)
    {
      if !ready {
        ProcessLocal(pkt, X);
      } else {
        ProcessReady(pkt, X);
      }
    }
  }
}
