/**
 * The first stage of the overlap-aware decoder (src/decoderOA.c).
 *
 * Until the decoder is OA-ready, every generation keeps a local decoding
 * matrix of size_g rows over its own size_g members.  A received packet's
 * coefficient vector is reduced left to right against the rows already on
 * the diagonal and stored at its first nonzero position that has no row;
 * each stored row is one more local degree of freedom.  Once local_DoF
 * reaches snum and at least snum + aoh packets have arrived, the decoder
 * is OA-ready, for good, and decodes globally from then on.
 *
 * The correctness statement is relative to the packets X the encoder
 * held: every local row of generation g is an equation of the members of
 * generation g, in the order of the generation's packet list.
 */
module DecoderOa {
  import opened GaloisArith
  import opened GaloisPrimitive
  import opened Packets
  import opened Grouping
  import opened Decoding
  import opened SncEncoder
  import opened CompactRows
  import opened DecoderBd
  import opened Reordering
  import opened GlobalMatrix
  import opened Pivoting
  import Linear
  import RunningMatrices
  import PivotRounds

  /** The members of a generation in X: row j is packet ids[j]. */
  function Gathered(X: seq<seq<bv8>>, ids: seq<int>): (Y: seq<seq<bv8>>)
    requires InPackets(ids, |X|)
    ensures |Y| == |ids| && forall j :: 0 <= j < |ids| ==> Y[j] == X[ids[j]]
  {
    seq(|ids|, j requires 0 <= j < |ids| => X[ids[j]])
  }

  /**
   * Byte k of the combination sum over j < m of co[j] * X[ids[j]] is the
   * inner product of the first m coefficients with column k of the first
   * m members.
   */
  lemma {:induction false} GatheredDot(X: seq<seq<bv8>>, ids: seq<int>, co: seq<bv8>, m: nat, w: nat, k: nat)
    requires m <= |ids| && m <= |co| && InPackets(ids, |X|) && Linear.Rect(X, w) && k < w
    ensures Covers(X, ids, k + 1)
    ensures Linear.Dot(co[..m], Linear.Column(Gathered(X, ids[..m]), k)) == Packets.Dot(X, ids, co, m, k)
  {
    if m == 0 {
      assert co[..0] == [] && Linear.Column(Gathered(X, ids[..0]), k) == [];
    } else {
      GatheredDot(X, ids, co, m - 1, w, k);
      var x := X[ids[m - 1]][k];
      assert co[..m] == co[..m - 1] + [co[m - 1]];
      assert Linear.Column(Gathered(X, ids[..m]), k) == Linear.Column(Gathered(X, ids[..m - 1]), k) + [x];
      RunningMatrices.DotSnoc(co[..m - 1], Linear.Column(Gathered(X, ids[..m - 1]), k), co[m - 1], x);
      PowersAreDistinct();
      MulCommutes(co[m - 1], x);
    }
  }

  /**
   * A packet coded from the members ids of X with the coefficients co is
   * an equation of the gathered members: the local form of the equation
   * that process_packet_OA reduces.
   */
  lemma CodedLocally(X: seq<seq<bv8>>, ids: seq<int>, co: seq<bv8>, w: nat)
    requires |co| == |ids| && InPackets(ids, |X|) && Linear.Rect(X, w)
    ensures Covers(X, ids, w)
    ensures Holds(co, Accumulate(Zeros(w), X, ids, co, |ids|), Gathered(X, ids))
  {
    var msg := Accumulate(Zeros(w), X, ids, co, |ids|);
    forall c | 0 <= c < w
      ensures Linear.Dot(co, Linear.Column(Gathered(X, ids), c)) == msg[c]
    {
      GatheredDot(X, ids, co, |ids|, w, c);
      assert co[..|ids|] == co && ids[..|ids|] == ids;
      AccumulateAt(Zeros(w), X, ids, co, |ids|, c);
    }
  }

  /** The local degrees of freedom of the first m generations: the sum of their pivots. */
  function LocalDoF(Cs: seq<Matrix>, m: nat): (d: nat)
    requires m <= |Cs| && forall g :: 0 <= g < |Cs| ==> Square(Cs[g], |Cs[g]|)
    ensures d <= Rows(Cs, m)
  {
    if m == 0 then 0 else LocalDoF(Cs, m - 1) + Pivots(Cs[m - 1], 0)
  }

  /** The number of rows of the first m generations. */
  function Rows(Cs: seq<Matrix>, m: nat): nat
    requires m <= |Cs|
  {
    if m == 0 then 0 else Rows(Cs, m - 1) + |Cs[m - 1]|
  }

  /** Replacing one generation's matrix changes the total by the change in its pivots. */
  lemma {:induction false} LocalDoFSet(Cs: seq<Matrix>, g: nat, C: Matrix, m: nat)
    requires g < |Cs| && m <= |Cs| && Square(C, |C|) && forall h :: 0 <= h < |Cs| ==> Square(Cs[h], |Cs[h]|)
    ensures LocalDoF(Cs[g := C], m) ==
      LocalDoF(Cs, m) + (if g < m then Pivots(C, 0) else 0) - (if g < m then Pivots(Cs[g], 0) else 0)
  {
    if m > 0 {
      LocalDoFSet(Cs, g, C, m - 1);
    }
  }

  /** Generations with no pivot at all hold no degree of freedom. */
  lemma {:induction false} LocalDoFNone(Cs: seq<Matrix>, m: nat)
    requires m <= |Cs| && forall g :: 0 <= g < |Cs| ==> Square(Cs[g], |Cs[g]|) && Pivots(Cs[g], 0) == 0
    ensures LocalDoF(Cs, m) == 0
  {
    if m > 0 {
      LocalDoFNone(Cs, m - 1);
    }
  }

  /** One local matrix per generation, each size_g square and banded over size_g, with size_p-byte messages. */
  predicate Locals(Cs: seq<Matrix>, Ms: seq<Matrix>, gene: seq<Generation>, sizeG: nat, sizeP: nat)
  {
    |Cs| == |gene| && |Ms| == |gene| &&
    forall g :: 0 <= g < |gene| ==>
      |gene[g].pktid| == sizeG && |Cs[g]| == sizeG && Banded(Cs[g], sizeG) && Messages(Ms[g], sizeG, sizeP)
  }

  /** Every row of every local matrix is an equation of its generation's members of X. */
  ghost predicate LocalsHold(Cs: seq<Matrix>, Ms: seq<Matrix>, gene: seq<Generation>, X: seq<seq<bv8>>)
  {
    |Cs| == |gene| && |Ms| == |gene| &&
    forall g :: 0 <= g < |gene| ==> InPackets(gene[g].pktid, |X|) && AllHold(Cs[g], Ms[g], Gathered(X, gene[g].pktid))
  }

  /**
   * Storing a new local matrix of generation g keeps the shape, moves the
   * total of local pivots by the change in g's, and keeps every row an
   * equation when g's new rows are.
   */
  lemma LocalsSet(Cs: seq<Matrix>, Ms: seq<Matrix>, gene: seq<Generation>, sizeG: nat, sizeP: nat, g: nat,
                  C: Matrix, M: Matrix, X: seq<seq<bv8>>)
    requires Locals(Cs, Ms, gene, sizeG, sizeP) && g < |gene| && |C| == sizeG && Banded(C, sizeG) && Messages(M, sizeG, sizeP)
    ensures Locals(Cs[g := C], Ms[g := M], gene, sizeG, sizeP)
    ensures LocalDoF(Cs[g := C], |Cs|) == LocalDoF(Cs, |Cs|) + Pivots(C, 0) - Pivots(Cs[g], 0)
    ensures LocalsHold(Cs, Ms, gene, X) && AllHold(C, M, Gathered(X, gene[g].pktid)) ==> LocalsHold(Cs[g := C], Ms[g := M], gene, X)
  {
    LocalDoFSet(Cs, g, C, |Cs|);
  }

  // ---------------------------------------------------------------------
  // Becoming OA-ready: every local matrix in reduced row-echelon form
  // ---------------------------------------------------------------------

  /** A banded matrix that is partially diagonalised over its whole width is banded over its width. */
  lemma RefBanded(M0: Matrix, message0: Matrix, M: Matrix, message: Matrix, sg: nat, w: nat)
    requires Banded(M0, sg) && sg == |M0| && DiagonalisedFrom(M0, message0, M, message, 0, w)
    ensures Banded(M, sg)
  {
  }

  /**
   * running_matrix_to_REF: every generation's local matrix is partially
   * diagonalised, each column with a nonzero diagonal entry cleared above
   * it.  The shape, the diagonal and so local_DoF, and the rows with a zero
   * diagonal entry are kept, and the rows stay equations of their members.
   */
  method RunningMatrixToRef(Cs0: seq<Matrix>, Ms0: seq<Matrix>, gene: seq<Generation>, sizeG: nat, w: nat,
                            ghost X: seq<seq<bv8>>)
    returns (Cs: seq<Matrix>, Ms: seq<Matrix>)
    requires Locals(Cs0, Ms0, gene, sizeG, w) && sizeG >= 1
    ensures Locals(Cs, Ms, gene, sizeG, w)
    ensures forall g :: 0 <= g < |gene| ==> DiagonalisedFrom(Cs0[g], Ms0[g], Cs[g], Ms[g], 0, w)
    ensures forall g, i, k :: 0 <= g < |gene| && 0 <= i < sizeG && 0 <= k < sizeG && i != k && Cs0[g][k][k] != 0 ==>
      Cs[g][i][k] == 0
    ensures LocalDoF(Cs, |Cs|) == LocalDoF(Cs0, |Cs0|)
    ensures LocalsHold(Cs0, Ms0, gene, X) ==> LocalsHold(Cs, Ms, gene, X)
  {
    Cs, Ms := Cs0, Ms0;
    ghost var ok := LocalsHold(Cs0, Ms0, gene, X);
    var g := 0;
    while g < |gene|
      invariant 0 <= g <= |gene| && Locals(Cs, Ms, gene, sizeG, w)
      invariant forall h :: 0 <= h < g ==> DiagonalisedFrom(Cs0[h], Ms0[h], Cs[h], Ms[h], 0, w)
      invariant forall h, i, k :: 0 <= h < g && 0 <= i < sizeG && 0 <= k < sizeG && i != k && Cs0[h][k][k] != 0 ==>
        Cs[h][i][k] == 0
      invariant forall h :: g <= h < |gene| ==> Cs[h] == Cs0[h] && Ms[h] == Ms0[h]
      invariant LocalDoF(Cs, |Cs|) == LocalDoF(Cs0, |Cs0|)
      invariant ok ==> LocalsHold(Cs, Ms, gene, X)
    {
      ghost var Y := if ok then Gathered(X, gene[g].pktid) else [];
      var C, M, _ := PartiallyDiag(Cs[g], Ms[g], sizeG, w, Y);
      RefBanded(Cs[g], Ms[g], C, M, sizeG, w);
      PivotsSameDiagonal(Cs[g], C, 0);
      LocalsSet(Cs, Ms, gene, sizeG, w, g, C, M, X);
      Cs, Ms := Cs[g := C], Ms[g := M];
      g := g + 1;
    }
  }

  // ---------------------------------------------------------------------
  // construct_GDM: the local rows copied into the global matrix
  // ---------------------------------------------------------------------

  /**
   * The rows construct_GDM takes from the first j rows of one local
   * matrix: each row with a nonzero diagonal entry, its coefficients
   * placed at its members' packet positions in a vector of n, with its
   * message.  They are as many as the pivots among those rows.
   */
  function GenerationRows(C: Matrix, M: Matrix, ids: seq<int>, n: nat, j: nat): (rows: seq<(seq<bv8>, seq<bv8>)>)
    requires j <= |C| && |M| == |C| && Square(C, |C|) && |ids| == |C| && InPackets(ids, n)
    ensures |rows| + Pivots(C, j) == Pivots(C, 0)
    ensures forall k :: 0 <= k < |rows| ==> |rows[k].0| == n
  {
    if j == 0 then []
    else
      GenerationRows(C, M, ids, n, j - 1) +
      (if C[j - 1][j - 1] != 0 then [(Assigned(C[j - 1], ids, n, |ids|), M[j - 1])] else [])
  }

  /** The rows construct_GDM takes from the first g generations, in order: one per local degree of freedom. */
  function CopiedRows(Cs: seq<Matrix>, Ms: seq<Matrix>, gene: seq<Generation>, sizeG: nat, w: nat, n: nat, g: nat)
    : (rows: seq<(seq<bv8>, seq<bv8>)>)
    requires Locals(Cs, Ms, gene, sizeG, w) && g <= |gene| && forall h :: 0 <= h < |gene| ==> InPackets(gene[h].pktid, n)
    ensures |rows| == LocalDoF(Cs, g)
    ensures forall k :: 0 <= k < |rows| ==> |rows[k].0| == n
  {
    if g == 0 then []
    else
      CopiedRows(Cs, Ms, gene, sizeG, w, n, g - 1) +
      GenerationRows(Cs[g - 1], Ms[g - 1], gene[g - 1].pktid, n, sizeG)
  }

  /** The first generations hold no more local degrees of freedom than more of them. */
  lemma {:induction false} LocalDoFMono(Cs: seq<Matrix>, g: nat, m: nat)
    requires g <= m <= |Cs| && forall h :: 0 <= h < |Cs| ==> Square(Cs[h], |Cs[h]|)
    ensures LocalDoF(Cs, g) <= LocalDoF(Cs, m)
    decreases m - g
  {
    if g < m {
      LocalDoFMono(Cs, g, m - 1);
    }
  }

  /**
   * A local equation of a generation's members, its coefficients placed at
   * the members' packet positions, is an equation of all of X, when no
   * member is listed twice.
   */
  lemma ScatteredHolds(row: seq<bv8>, msg: seq<bv8>, ids: seq<int>, X: seq<seq<bv8>>)
    requires |row| == |ids| && InPackets(ids, |X|) && Distinct(ids) && Linear.Rect(X, |msg|)
    requires Holds(row, msg, Gathered(X, ids))
    ensures Holds(Assigned(row, ids, |X|, |ids|), msg, X)
  {
    AssignedIsCombined(row, ids, |X|, |ids|);
    forall c | 0 <= c < |msg|
      ensures Linear.Dot(Assigned(row, ids, |X|, |ids|), Linear.Column(X, c)) == msg[c]
    {
      CombinedDot(row, ids, X, |ids|, |msg|, c);
      GatheredDot(X, ids, row, |ids|, |msg|, c);
      assert row[..|ids|] == row && ids[..|ids|] == ids;
    }
  }

  /** Every row taken from a local matrix whose rows hold is an equation of X. */
  lemma {:induction false} GenerationRowsHold(C: Matrix, M: Matrix, ids: seq<int>, X: seq<seq<bv8>>, w: nat, j: nat)
    requires j <= |C| && Square(C, |C|) && Messages(M, |C|, w) && |ids| == |C| && InPackets(ids, |X|) && Distinct(ids)
    requires Linear.Rect(X, w) && AllHold(C, M, Gathered(X, ids))
    ensures forall k :: 0 <= k < |GenerationRows(C, M, ids, |X|, j)| ==>
      Holds(GenerationRows(C, M, ids, |X|, j)[k].0, GenerationRows(C, M, ids, |X|, j)[k].1, X)
  {
    if j > 0 {
      GenerationRowsHold(C, M, ids, X, w, j - 1);
      var prev := GenerationRows(C, M, ids, |X|, j - 1);
      var rows := GenerationRows(C, M, ids, |X|, j);
      if C[j - 1][j - 1] != 0 {
        assert Holds(C[j - 1], M[j - 1], Gathered(X, ids));
        ScatteredHolds(C[j - 1], M[j - 1], ids, X);
        assert rows == prev + [(Assigned(C[j - 1], ids, |X|, |ids|), M[j - 1])];
        forall k | 0 <= k < |rows|
          ensures Holds(rows[k].0, rows[k].1, X)
        {
          if k < |prev| {
            assert rows[k] == prev[k];
          }
        }
      } else {
        assert rows == prev;
      }
    }
  }

  /** Every row construct_GDM copies is an equation of X when every local row is one of its members. */
  lemma {:induction false} CopiedRowsHold(Cs: seq<Matrix>, Ms: seq<Matrix>, gene: seq<Generation>, sizeG: nat, w: nat,
                                          X: seq<seq<bv8>>, g: nat)
    requires Locals(Cs, Ms, gene, sizeG, w) && g <= |gene| && LocalsHold(Cs, Ms, gene, X) && Linear.Rect(X, w)
    requires forall h :: 0 <= h < |gene| ==> Distinct(gene[h].pktid)
    ensures forall k :: 0 <= k < |CopiedRows(Cs, Ms, gene, sizeG, w, |X|, g)| ==>
      Holds(CopiedRows(Cs, Ms, gene, sizeG, w, |X|, g)[k].0, CopiedRows(Cs, Ms, gene, sizeG, w, |X|, g)[k].1, X)
  {
    if g > 0 {
      CopiedRowsHold(Cs, Ms, gene, sizeG, w, X, g - 1);
      GenerationRowsHold(Cs[g - 1], Ms[g - 1], gene[g - 1].pktid, X, w, sizeG);
      var rows := CopiedRows(Cs, Ms, gene, sizeG, w, |X|, g);
      var prev := CopiedRows(Cs, Ms, gene, sizeG, w, |X|, g - 1);
      var last := GenerationRows(Cs[g - 1], Ms[g - 1], gene[g - 1].pktid, |X|, sizeG);
      assert rows == prev + last;
      forall k | 0 <= k < |rows|
        ensures Holds(rows[k].0, rows[k].1, X)
      {
        if k < |prev| {
          assert rows[k] == prev[k];
          assert Holds(prev[k].0, prev[k].1, X);
        } else {
          assert rows[k] == last[k - |prev|];
          assert Holds(last[k - |prev|].0, last[k - |prev|].1, X);
        }
      }
    }
  }

  /**
   * The inner loop of step 1 of construct_GDM for one generation: its rows
   * with a nonzero diagonal entry, translated to vectors over all n
   * packets, are copied with their messages from row p0 on.
   */
  method CopyGenerationRows(J0: Matrix, B0: Matrix, C: Matrix, M: Matrix, ids: seq<int>, n: nat, w: nat, p0: nat,
                            ghost prev: seq<(seq<bv8>, seq<bv8>)>)
    returns (J: Matrix, B: Matrix, p: nat)
    requires Gdm(J0, B0, n, w) && Square(C, |C|) && Messages(M, |C|, w) && |ids| == |C| && InPackets(ids, n)
    requires p0 == |prev| && p0 + Pivots(C, 0) <= |J0|
    requires forall k :: 0 <= k < p0 ==> J0[k] == prev[k].0 && B0[k] == prev[k].1
    ensures Gdm(J, B, n, w) && |J| == |J0| && p == p0 + Pivots(C, 0)
    ensures var rows := prev + GenerationRows(C, M, ids, n, |C|);
      forall k :: 0 <= k < p ==> J[k] == rows[k].0 && B[k] == rows[k].1
    ensures forall r :: p <= r < |J0| ==> J[r] == J0[r] && B[r] == B0[r]
  {
    J, B, p := J0, B0, p0;
    var j := 0;
    while j < |C|
      invariant 0 <= j <= |C| && Gdm(J, B, n, w) && |J| == |J0|
      invariant p == p0 + |GenerationRows(C, M, ids, n, j)|
      invariant forall k :: 0 <= k < p ==>
        J[k] == (prev + GenerationRows(C, M, ids, n, j))[k].0 && B[k] == (prev + GenerationRows(C, M, ids, n, j))[k].1
      invariant forall r :: p <= r < |J0| ==> J[r] == J0[r] && B[r] == B0[r]
    {
      if C[j][j] != 0 {
        var ces := ScatterCoefficients(ids, C[j], n);
        assert prev + GenerationRows(C, M, ids, n, j + 1) == (prev + GenerationRows(C, M, ids, n, j)) + [(ces, M[j])];
        J, B := J[p := ces], B[p := M[j]];
        p := p + 1;
      } else {
        assert GenerationRows(C, M, ids, n, j + 1) == GenerationRows(C, M, ids, n, j);
      }
      j := j + 1;
    }
  }

  /** The copy of generation g's rows after the rows of the generations before it. */
  method CopyNextGeneration(J0: Matrix, B0: Matrix, Cs: seq<Matrix>, Ms: seq<Matrix>, gene: seq<Generation>,
                            sizeG: nat, n: nat, w: nat, g: nat, p0: nat, ghost prev: seq<(seq<bv8>, seq<bv8>)>)
    returns (J: Matrix, B: Matrix, p: nat)
    requires Gdm(J0, B0, n, w) && Locals(Cs, Ms, gene, sizeG, w) && forall h :: 0 <= h < |gene| ==> InPackets(gene[h].pktid, n)
    requires LocalDoF(Cs, |Cs|) <= |J0| && g < |gene|
    requires prev == CopiedRows(Cs, Ms, gene, sizeG, w, n, g) && p0 == |prev| && p0 <= |J0|
    requires forall k :: 0 <= k < p0 ==> J0[k] == prev[k].0 && B0[k] == prev[k].1
    ensures Gdm(J, B, n, w) && |J| == |J0| && p == |CopiedRows(Cs, Ms, gene, sizeG, w, n, g + 1)| && p0 <= p <= |J0|
    ensures forall k :: 0 <= k < p ==>
      J[k] == CopiedRows(Cs, Ms, gene, sizeG, w, n, g + 1)[k].0 && B[k] == CopiedRows(Cs, Ms, gene, sizeG, w, n, g + 1)[k].1
    ensures forall r :: p <= r < |J0| ==> J[r] == J0[r] && B[r] == B0[r]
  {
    LocalDoFMono(Cs, g + 1, |Cs|);
    assert |Cs[g]| == sizeG && LocalDoF(Cs, g + 1) == p0 + Pivots(Cs[g], 0);
    J, B, p := CopyGenerationRows(J0, B0, Cs[g], Ms[g], gene[g].pktid, n, w, p0, prev);
  }

  /**
   * Step 1 of construct_GDM: the local rows with a nonzero diagonal entry,
   * generation by generation, translated to vectors over all n packets and
   * copied with their messages into the GDM from row 0 on.  The rows past
   * the copies are kept.
   */
  method CopyLocalRows(J0: Matrix, B0: Matrix, Cs: seq<Matrix>, Ms: seq<Matrix>, gene: seq<Generation>, sizeG: nat,
                       n: nat, w: nat)
    returns (J: Matrix, B: Matrix)
    requires Gdm(J0, B0, n, w) && Locals(Cs, Ms, gene, sizeG, w) && forall g :: 0 <= g < |gene| ==> InPackets(gene[g].pktid, n)
    requires LocalDoF(Cs, |Cs|) <= |J0|
    ensures Gdm(J, B, n, w) && |J| == |J0|
    ensures forall k :: 0 <= k < LocalDoF(Cs, |Cs|) ==>
      J[k] == CopiedRows(Cs, Ms, gene, sizeG, w, n, |gene|)[k].0 && B[k] == CopiedRows(Cs, Ms, gene, sizeG, w, n, |gene|)[k].1
    ensures forall r :: LocalDoF(Cs, |Cs|) <= r < |J0| ==> J[r] == J0[r] && B[r] == B0[r]
  {
    J, B := J0, B0;
    var p := 0;
    var g := 0;
    ghost var rows := [];
    while g < |gene|
      invariant 0 <= g <= |gene| && Gdm(J, B, n, w) && |J| == |J0|
      invariant rows == CopiedRows(Cs, Ms, gene, sizeG, w, n, g)
      invariant p == |rows| && p <= |J0|
      invariant forall k :: 0 <= k < p ==> J[k] == rows[k].0 && B[k] == rows[k].1
      invariant forall r :: p <= r < |J0| ==> J[r] == J0[r] && B[r] == B0[r]
    {
      J, B, p := CopyNextGeneration(J, B, Cs, Ms, gene, sizeG, n, w, g, p, rows);
      rows := CopiedRows(Cs, Ms, gene, sizeG, w, n, g + 1);
      g := g + 1;
    }
    assert |Cs| == |gene| && p == LocalDoF(Cs, |Cs|);
    assert rows == CopiedRows(Cs, Ms, gene, sizeG, w, n, |gene|);
  }

  /**
   * Step 1 and the pivoting of construct_GDM on a GDM already allocated:
   * the local rows copied into it from row 0 on, then the whole pivoted.
   * The result is in pivoted form with inverse mappings otoc and ctoo,
   * global_DoF counts its nonzero diagonal entries, and when every row of
   * the allocated GDM was an equation of X and every local row an equation
   * of its members, every GDM row is an equation of X in column order.
   */
  method FillGdm(J0: Matrix, B0: Matrix, Cs: seq<Matrix>, Ms: seq<Matrix>, gene: seq<Generation>, sizeG: nat, n: nat,
                 w: nat, ghost X: seq<seq<bv8>>)
    returns (J: Matrix, B: Matrix, otoc: seq<int>, ctoo: seq<int>, inactives: int, dof: int)
    requires Gdm(J0, B0, n, w) && Locals(Cs, Ms, gene, sizeG, w) && forall g :: 0 <= g < |gene| ==> InPackets(gene[g].pktid, n)
    requires LocalDoF(Cs, |Cs|) <= |J0|
    ensures Gdm(J, B, n, w) && |J| == |J0| && 0 <= inactives <= n && Pivoted(J, n, n - inactives)
    ensures PivotRounds.Inverses(otoc, ctoo) && |ctoo| == n
    ensures dof == Pivots(J[..n], 0)
    ensures |X| == n && Linear.Rect(X, w) && AllHold(J0, B0, X) && LocalsHold(Cs, Ms, gene, X) &&
            (forall g :: 0 <= g < |gene| ==> Distinct(gene[g].pktid)) ==>
      GdmHolds(J, B, n, Reordered(X, ctoo))
  {
    var J1, B1 := CopyLocalRows(J0, B0, Cs, Ms, gene, sizeG, n, w);
    if |X| == n && Linear.Rect(X, w) && AllHold(J0, B0, X) && LocalsHold(Cs, Ms, gene, X) &&
       (forall g :: 0 <= g < |gene| ==> Distinct(gene[g].pktid)) {
      CopiedRowsHold(Cs, Ms, gene, sizeG, w, X, |gene|);
      assert AllHold(J1, B1, X);
    }
    J, B, otoc, ctoo, inactives, dof := PivotGdm(J1, B1, n, w, X);
  }

  /**
   * construct_GDM: a GDM of numpp + aoh rows over numpp = snum + cnum
   * packets whose last cnum rows state the precode's checks, filled from
   * the local rows and pivoted as FillGdm says.  When the checks hold in X
   * and every local row is an equation of its members, every GDM row is an
   * equation of X in column order.
   */
  method ConstructGdm(snum: nat, aoh: nat, checks: seq<seq<nat>>, Cs: seq<Matrix>, Ms: seq<Matrix>, gene: seq<Generation>,
                      sizeG: nat, w: nat, ghost X: seq<seq<bv8>>)
    returns (J: Matrix, B: Matrix, otoc: seq<int>, ctoo: seq<int>, inactives: int, dof: int)
    requires NamesSources(checks, snum) && Locals(Cs, Ms, gene, sizeG, w)
    requires forall g :: 0 <= g < |gene| ==> InPackets(gene[g].pktid, snum + |checks|)
    requires LocalDoF(Cs, |Cs|) <= snum + aoh
    ensures var n := snum + |checks|;
      Gdm(J, B, n, w) && |J| == n + aoh && 0 <= inactives <= n && Pivoted(J, n, n - inactives)
    ensures PivotRounds.Inverses(otoc, ctoo) && |ctoo| == snum + |checks|
    ensures dof == Pivots(J[..snum + |checks|], 0)
    ensures ChecksAreSums(X, snum, checks, w) && Linear.Rect(X, w) && LocalsHold(Cs, Ms, gene, X) &&
            (forall g :: 0 <= g < |gene| ==> Distinct(gene[g].pktid)) ==>
      GdmHolds(J, B, snum + |checks|, Reordered(X, ctoo))
  {
    var n := snum + |checks|;
    var J1, B1 := CheckRows(snum, aoh, checks, w);
    J, B, otoc, ctoo, inactives, dof := FillGdm(J1, B1, Cs, Ms, gene, sizeG, n, w, X);
  }

  // ---------------------------------------------------------------------
  // The OA-ready decoder
  // ---------------------------------------------------------------------

  /**
   * The state of an OA-ready decoder: the GDM has numpp + aoh rows over
   * numpp columns and is in pivoted form with numpp - inactives active
   * columns, otoc and ctoo are inverse permutations, global_DoF counts the
   * nonzero diagonal entries, and pp has a slot per packet.
   */
  ghost predicate ReadyState(J: Matrix, B: Matrix, otoc: seq<int>, ctoo: seq<int>, inactives: int, dof: int,
                             pp: seq<seq<bv8>>, n: nat, aoh: nat, w: nat)
  {
    Gdm(J, B, n, w) && |J| == n + aoh && 0 <= inactives <= n && Pivoted(J, n, n - inactives) &&
    PivotRounds.Inverses(otoc, ctoo) && |ctoo| == n && dof == Pivots(J[..n], 0) && |pp| == n
  }

  /**
   * What an OA-ready decoder knows of the numpp packets X: until it is
   * finished every GDM row is an equation of X in column order, and once
   * finished pp is X.
   */
  ghost predicate ReadyHolds(J: Matrix, B: Matrix, ctoo: seq<int>, pp: seq<seq<bv8>>, n: nat, finished: bool,
                             X: seq<seq<bv8>>)
  {
    if finished then pp == X
    else
      n <= |J| && Linear.Rect(J, n) && n <= |B| && |X| == n && IsPermutation(ctoo, n) &&
      GdmHolds(J, B, n, Reordered(X, ctoo))
  }

  /**
   * The end of a step of an OA-ready decoder: once global_DoF reaches
   * numpp, finish_recovering_inactivation diagonalises the GDM and stores
   * the packets in pp, and decoding is finished; otherwise nothing
   * changes.  pp is then X if the GDM rows were equations of X.
   */
  method FinishWhenFull(J0: Matrix, B0: Matrix, otoc: seq<int>, ctoo: seq<int>, inactives: int, dof: int,
                        pp0: seq<seq<bv8>>, n: nat, aoh: nat, w: nat, ghost X: seq<seq<bv8>>)
    returns (J: Matrix, B: Matrix, pp: seq<seq<bv8>>, finished: bool)
    requires ReadyState(J0, B0, otoc, ctoo, inactives, dof, pp0, n, aoh, w)
    ensures ReadyState(J, B, otoc, ctoo, inactives, dof, pp, n, aoh, w)
    ensures finished <==> dof == n
    ensures !finished ==> J == J0 && B == B0 && pp == pp0
    ensures finished ==>
      (forall r :: 0 <= r < n - inactives ==> J[r] == Unit(n, r)) && (forall j :: 0 <= j < n ==> pp[ctoo[j]] == B[j])
    ensures Linear.Rect(X, w) && ReadyHolds(J0, B0, ctoo, pp0, n, false, X) ==> ReadyHolds(J, B, ctoo, pp, n, finished, X)
  {
    J, B, pp, finished := J0, B0, pp0, false;
    if dof == n {
      J, B, pp := DiagonalizeGdm(J0, B0, n, n - inactives, ctoo, pp0, w, X);
      finished := true;
    }
  }

  /**
   * The OA-ready transition of process_packet_OA: the local matrices are
   * brought to reduced row-echelon form, the GDM is constructed from them
   * and the precode and pivoted, and decoding finishes at once, with
   * diagonalize_GDM, if global_DoF already reaches numpp.  When the checks
   * hold in X and every local row was an equation of its members, the GDM
   * rows are equations of X in column order, or the packets are recovered.
   */
  method OaReady(Cs0: seq<Matrix>, Ms0: seq<Matrix>, gene: seq<Generation>, sizeG: nat, snum: nat, aoh: nat,
                 checks: seq<seq<nat>>, w: nat, ghost X: seq<seq<bv8>>)
    returns (J: Matrix, B: Matrix, otoc: seq<int>, ctoo: seq<int>, inactives: int, dof: int, pp: seq<seq<bv8>>,
             finished: bool)
    requires NamesSources(checks, snum) && Locals(Cs0, Ms0, gene, sizeG, w) && sizeG >= 1
    requires forall g :: 0 <= g < |gene| ==> InPackets(gene[g].pktid, snum + |checks|)
    requires LocalDoF(Cs0, |Cs0|) <= snum + aoh
    ensures ReadyState(J, B, otoc, ctoo, inactives, dof, pp, snum + |checks|, aoh, w)
    ensures finished <==> dof == snum + |checks|
    ensures finished ==>
      (forall r :: 0 <= r < snum + |checks| - inactives ==> J[r] == Unit(snum + |checks|, r)) &&
      (forall j :: 0 <= j < snum + |checks| ==> pp[ctoo[j]] == B[j])
    ensures ChecksAreSums(X, snum, checks, w) && Linear.Rect(X, w) && LocalsHold(Cs0, Ms0, gene, X) &&
            (forall g :: 0 <= g < |gene| ==> Distinct(gene[g].pktid)) ==>
      ReadyHolds(J, B, ctoo, pp, snum + |checks|, finished, X)
  {
    var n := snum + |checks|;
    var Cs, Ms := RunningMatrixToRef(Cs0, Ms0, gene, sizeG, w, X);
    J, B, otoc, ctoo, inactives, dof := ConstructGdm(snum, aoh, checks, Cs, Ms, gene, sizeG, w, X);
    J, B, pp, finished := FinishWhenFull(J, B, otoc, ctoo, inactives, dof, seq(n, _ => []), n, aoh, w, X);
  }

  /**
   * The OA-ready branch of process_packet_OA: the packet's coefficients,
   * placed at their packets' columns, are reduced against the GDM and, if
   * an entry survives at a column without a row, stored there whole with
   * the message, adding one global degree of freedom; the GDM is
   * diagonalised, with diagonalize_GDM, when global_DoF reaches numpp.  A
   * finished decoder finds no pivot and changes nothing.  An equation of
   * the generation's members of X keeps what the decoder knows of X.
   */
  method GlobalStep(J0: Matrix, B0: Matrix, otoc: seq<int>, ctoo: seq<int>, inactives: int, dof0: int,
                    pp0: seq<seq<bv8>>, finished0: bool, n: nat, aoh: nat, ids: seq<int>, coes: seq<bv8>,
                    syms: seq<bv8>, ghost X: seq<seq<bv8>>)
    returns (pivot: int, J: Matrix, B: Matrix, dof: int, pp: seq<seq<bv8>>, finished: bool)
    requires ReadyState(J0, B0, otoc, ctoo, inactives, dof0, pp0, n, aoh, |syms|) && (finished0 <==> dof0 == n)
    requires InPackets(ids, n) && |coes| == |ids|
    ensures ReadyState(J, B, otoc, ctoo, inactives, dof, pp, n, aoh, |syms|) && (finished <==> dof == n)
    ensures pivot == ReduceFrom(View(J0[..n], 1, true), Reordered(Assigned(coes, ids, n, |ids|), ctoo), 0).0
    ensures finished0 ==> pivot == -1
    ensures pivot == -1 ==> J == J0 && B == B0 && dof == dof0 && pp == pp0 && finished == finished0
    ensures pivot >= 0 ==> n - inactives <= pivot && J0[pivot][pivot] == 0 && dof == dof0 + 1
    ensures pivot >= 0 && !finished ==>
      J == J0[pivot := ReduceFrom(View(J0[..n], 1, true), Reordered(Assigned(coes, ids, n, |ids|), ctoo), 0).1] &&
      B == B0[pivot := B[pivot]] && pp == pp0
    ensures pivot >= 0 && finished ==>
      (forall r :: 0 <= r < n - inactives ==> J[r] == Unit(n, r)) &&
      (forall r :: n - inactives <= r < |J0| ==>
        J[r] == J0[pivot := ReduceFrom(View(J0[..n], 1, true), Reordered(Assigned(coes, ids, n, |ids|), ctoo), 0).1][r]) &&
      (forall j :: 0 <= j < n ==> pp[ctoo[j]] == B[j])
    ensures |X| == n && Linear.Rect(X, |syms|) && Distinct(ids) && Holds(coes, syms, Gathered(X, ids)) &&
            ReadyHolds(J0, B0, ctoo, pp0, n, finished0, X) ==>
      ReadyHolds(J, B, ctoo, pp, n, finished, X)
  {
    var w := |syms|;
    var u := GlobalVector(otoc, ctoo, ids, coes);
    ghost var Y := [];
    if |X| == n && Linear.Rect(X, w) && Distinct(ids) && Holds(coes, syms, Gathered(X, ids)) {
      ScatteredHolds(coes, syms, ids, X);
      HoldsReordered(Assigned(coes, ids, n, |ids|), syms, X, ctoo);
      Y := Reordered(X, ctoo);
    }
    pivot, J, B := StoreGlobal(J0, B0, n, n - inactives, u, syms, Y);
    dof, pp, finished := dof0, pp0, finished0;
    if finished0 {
      FullDiagonal(J0, n);
    }
    if pivot >= 0 {
      dof := dof + 1;
      if dof == n {
        J, B, pp := DiagonalizeGdm(J, B, n, n - inactives, ctoo, pp, w, X);
        finished := true;
      }
    }
  }

  /** The state of decoding_context_OA: the local matrices until it is OA-ready, the GDM from then on. */
  class OaDecoder {
    const snum: nat
    const aoh: nat
    const sizeG: nat
    const sizeP: nat
    /** The generations, each a list of size_g packet ids. */
    const gene: seq<Generation>
    /** The precode: check i is the sum of the source packets checks[i]; cnum is |checks|. */
    const checks: seq<seq<nat>>
    /** Per generation, the coefficient and message rows of its local matrix; freed once OA-ready. */
    var coefficient: seq<Matrix>
    var message: seq<Matrix>
    var localDoF: int
    var overhead: int
    var ready: bool
    var finished: bool
    /** The GDM: numpp + aoh coefficient rows over the numpp packets in column order, and their messages. */
    var jmbCoefficient: Matrix
    var jmbMessage: Matrix
    /** otoc maps a packet to its column, ctoo a column to its packet. */
    var otoc: seq<int>
    var ctoo: seq<int>
    var inactives: int
    var globalDoF: int
    /** The recovered packets, in packet order. */
    var pp: seq<seq<bv8>>

    /** numpp: the source packets and the check packets. */
    function Numpp(): nat
    {
      snum + |checks|
    }

    /** The parameters: generations of size_g packet ids among the numpp packets, and checks over the snum sources. */
    ghost predicate Params()
    {
      sizeG >= 1 && snum >= 1 && NamesSources(checks, snum) &&
      forall g :: 0 <= g < |gene| ==> |gene[g].pktid| == sizeG && InPackets(gene[g].pktid, Numpp())
    }

    /** What holds in every state: the parameters, and the local degrees of freedom counted within the packets received. */
    ghost predicate Common()
      reads this`localDoF, this`overhead
    {
      Params() && 0 <= localDoF <= overhead
    }

    /** Every local matrix is size_g square and banded over size_g, and local_DoF counts its pivots. */
    ghost predicate LocalShape()
      reads this`coefficient, this`message, this`localDoF
    {
      sizeG >= 1 && Locals(coefficient, message, gene, sizeG, sizeP) && localDoF == LocalDoF(coefficient, |coefficient|)
    }

    /**
     * Before OA-readiness the local matrices are well formed and the last
     * readiness test failed; afterwards the local matrices are gone, the GDM
     * is well formed, and decoding is finished exactly when global_DoF
     * reaches numpp.
     */
    ghost predicate Shape()
      reads this
    {
      Common() &&
      (!ready ==> LocalShape() && !finished && (localDoF < snum || overhead < snum + aoh)) &&
      (ready ==>
        coefficient == [] && message == [] &&
        ReadyState(jmbCoefficient, jmbMessage, otoc, ctoo, inactives, globalDoF, pp, Numpp(), aoh, sizeP) &&
        (finished <==> globalDoF == Numpp()))
    }

    /**
     * X is the packets of the code: numpp packets of size_p bytes whose
     * checks are the sums of their source neighbours, with every generation
     * listing distinct packets among them.
     */
    ghost predicate Sources(X: seq<seq<bv8>>)
    {
      |X| == Numpp() && Linear.Rect(X, sizeP) && ChecksAreSums(X, snum, checks, sizeP) &&
      forall g :: 0 <= g < |gene| ==> InPackets(gene[g].pktid, |X|) && Distinct(gene[g].pktid)
    }

    /**
     * Every row decoding keeps is an equation of X: a local row of its
     * generation's members, a GDM row of X in column order, and once
     * finished every recovered packet is X's.
     */
    ghost predicate Correct(X: seq<seq<bv8>>)
      reads this
    {
      Sources(X) &&
      (!ready ==> LocalsHold(coefficient, message, gene, X)) &&
      (ready ==> ReadyHolds(jmbCoefficient, jmbMessage, ctoo, pp, Numpp(), finished, X))
    }

    /**
     * create_dec_context_OA: zeroed size_g x size_g coefficient and
     * size_g x size_p message matrices per generation, no degree of
     * freedom, no packet, not OA-ready and not finished.
     */
    constructor (snum: nat, aoh: nat, sizeG: nat, sizeP: nat, gene: seq<Generation>, checks: seq<seq<nat>>)
      requires sizeG >= 1 && snum >= 1 && NamesSources(checks, snum)
      requires forall g :: 0 <= g < |gene| ==> |gene[g].pktid| == sizeG && InPackets(gene[g].pktid, snum + |checks|)
      ensures this.snum == snum && this.aoh == aoh && this.sizeG == sizeG && this.sizeP == sizeP && this.gene == gene
      ensures this.checks == checks
      ensures Shape() && localDoF == 0 && overhead == 0 && !ready && !finished && globalDoF == 0
      ensures forall g :: 0 <= g < |gene| ==> Pivots(coefficient[g], 0) == 0
      ensures forall X :: Sources(X) ==> Correct(X)
    {
      this.snum, this.aoh, this.sizeG, this.sizeP, this.gene, this.checks := snum, aoh, sizeG, sizeP, gene, checks;
      coefficient := seq(|gene|, _ => ZeroMatrix(sizeG, sizeG));
      message := seq(|gene|, _ => ZeroMatrix(sizeG, sizeP));
      localDoF, overhead, ready, finished := 0, 0, false, false;
      jmbCoefficient, jmbMessage, otoc, ctoo, inactives, globalDoF, pp := [], [], [], [], 0, 0, [];
      new;
      ZeroMatrixHolds(sizeG, sizeG, sizeP, []);
      LocalDoFNone(coefficient, |coefficient|);
      forall X | Sources(X)
        ensures Correct(X)
      {
        forall g | 0 <= g < |gene|
          ensures AllHold(coefficient[g], message[g], Gathered(X, gene[g].pktid))
        {
          ZeroMatrixHolds(sizeG, sizeG, sizeP, Gathered(X, gene[g].pktid));
        }
      }
    }

    /**
     * The local stage of process_packet_OA for generation g: the vector is
     * reduced against the rows on the diagonal and, if an entry survives at
     * an empty diagonal, stored there with its message, adding one local
     * degree of freedom.  No other generation changes, and rows that were
     * equations of the generation's members stay so when the packet is one.
     */
    method StoreLocal(g: int, ces: seq<bv8>, syms: seq<bv8>, ghost X: seq<seq<bv8>>) returns (pivot: int)
      requires LocalShape() && 0 <= g < |gene| && |ces| == sizeG && |syms| == sizeP
      modifies this`coefficient, this`message, this`localDoF
      ensures LocalShape() && -1 <= pivot < sizeG
      ensures pivot == -1 ==> coefficient == old(coefficient) && message == old(message) && localDoF == old(localDoF)
      ensures pivot >= 0 ==>
        old(coefficient)[g][pivot][pivot] == 0 && coefficient[g][pivot][pivot] != 0 && localDoF == old(localDoF) + 1 &&
        coefficient == old(coefficient)[g := old(coefficient)[g][pivot := coefficient[g][pivot]]] &&
        message == old(message)[g := old(message)[g][pivot := message[g][pivot]]]
      ensures old(LocalsHold(coefficient, message, gene, X)) && Holds(ces, syms, Gathered(X, gene[g].pktid)) ==>
        LocalsHold(coefficient, message, gene, X)
      ensures pivot == ReduceFrom(View(old(coefficient)[g], sizeG, false), ces, 0).0
      ensures pivot >= 0 ==> coefficient[g][pivot] == ReduceFrom(View(old(coefficient)[g], sizeG, false), ces, 0).1
    {
      ghost var Y := if LocalsHold(coefficient, message, gene, X) then Gathered(X, gene[g].pktid) else [];
      var C, M;
      pivot, C, M := StoreBanded(coefficient[g], message[g], ces, syms, sizeG, 0, Y);
      if pivot >= 0 {
        LocalsSet(coefficient, message, gene, sizeG, sizeP, g, C, M, X);
        coefficient := coefficient[g := C];
        message := message[g := M];
        localDoF := localDoF + 1;
      }
    }

    /**
     * The OA-ready transition of process_packet_OA: the local matrices are
     * replaced by the GDM constructed from them, decoding finishing at once
     * if global_DoF already reaches numpp; what the local rows said of X
     * the GDM says.
     */
    method BecomeReady(ghost X: seq<seq<bv8>>)
      requires Common() && !ready && !finished && LocalShape() && localDoF <= snum + aoh
      modifies this`coefficient, this`message, this`ready, this`finished, this`jmbCoefficient, this`jmbMessage,
               this`otoc, this`ctoo, this`inactives, this`globalDoF, this`pp
      ensures Shape() && ready
      ensures finished ==>
        (forall r :: 0 <= r < Numpp() - inactives ==> jmbCoefficient[r] == Unit(Numpp(), r)) &&
        (forall j :: 0 <= j < Numpp() ==> pp[ctoo[j]] == jmbMessage[j])
      ensures Sources(X) && old(LocalsHold(coefficient, message, gene, X)) ==> Correct(X)
    {
      var J, B, ot, ct, ias, dof, rec, fin := OaReady(coefficient, message, gene, sizeG, snum, aoh, checks, sizeP, X);
      InstallGdm(J, B, ot, ct, ias, dof, rec, fin, X);
    }

    /** The local matrices are freed and a well-formed GDM takes their place. */
    method InstallGdm(J: Matrix, B: Matrix, ot: seq<int>, ct: seq<int>, ias: int, dof: int, rec: seq<seq<bv8>>, fin: bool,
                      ghost X: seq<seq<bv8>>)
      requires Common() && ReadyState(J, B, ot, ct, ias, dof, rec, Numpp(), aoh, sizeP) && (fin <==> dof == Numpp())
      modifies this`coefficient, this`message, this`ready, this`finished, this`jmbCoefficient, this`jmbMessage,
               this`otoc, this`ctoo, this`inactives, this`globalDoF, this`pp
      ensures Shape() && ready && finished == fin
      ensures jmbCoefficient == J && jmbMessage == B && otoc == ot && ctoo == ct && inactives == ias && globalDoF == dof
      ensures pp == rec
      ensures Sources(X) && ReadyHolds(J, B, ct, rec, Numpp(), fin, X) ==> Correct(X)
    {
      EnterReady(ot, ct, ias);
      SetGdm(J, B, dof, rec, fin, X);
    }

    /** The local matrices are freed, the decoder is OA-ready and the GDM's column order is fixed. */
    method EnterReady(ot: seq<int>, ct: seq<int>, ias: int)
      modifies this`coefficient, this`message, this`ready, this`otoc, this`ctoo, this`inactives
      ensures ready && coefficient == [] && message == [] && otoc == ot && ctoo == ct && inactives == ias
    {
      ready, coefficient, message, otoc, ctoo, inactives := true, [], [], ot, ct, ias;
    }

    /** The GDM, global_DoF, pp and finished take new values. */
    method SetGdm(J: Matrix, B: Matrix, dof: int, rec: seq<seq<bv8>>, fin: bool, ghost X: seq<seq<bv8>>)
      requires Common() && ready && coefficient == [] && message == []
      requires ReadyState(J, B, otoc, ctoo, inactives, dof, rec, Numpp(), aoh, sizeP) && (fin <==> dof == Numpp())
      modifies this`jmbCoefficient, this`jmbMessage, this`globalDoF, this`pp, this`finished
      ensures jmbCoefficient == J && jmbMessage == B && globalDoF == dof && pp == rec && finished == fin
      ensures Shape()
      ensures Sources(X) && ReadyHolds(J, B, ctoo, rec, Numpp(), fin, X) ==> Correct(X)
    {
      jmbCoefficient, jmbMessage, globalDoF, pp, finished := J, B, dof, rec, fin;
      GdmShape(J, B, otoc, ctoo, inactives, dof, rec);
      if Sources(X) && ReadyHolds(J, B, ctoo, rec, Numpp(), fin, X) {
        GdmCorrect(J, B, ctoo, rec, X);
      }
    }

    /** An OA-ready decoder holding a well-formed GDM is in shape. */
    lemma GdmShape(J: Matrix, B: Matrix, ot: seq<int>, ct: seq<int>, ias: int, dof: int, rec: seq<seq<bv8>>)
      requires Common() && ready && coefficient == [] && message == []
      requires jmbCoefficient == J && jmbMessage == B && otoc == ot && ctoo == ct && inactives == ias && globalDoF == dof
      requires pp == rec && ReadyState(J, B, ot, ct, ias, dof, rec, Numpp(), aoh, sizeP) && (finished <==> dof == Numpp())
      ensures Shape()
    {
    }

    /** An OA-ready decoder whose GDM knows only equations of X is correct for X. */
    lemma GdmCorrect(J: Matrix, B: Matrix, ct: seq<int>, rec: seq<seq<bv8>>, X: seq<seq<bv8>>)
      requires ready && jmbCoefficient == J && jmbMessage == B && ctoo == ct && pp == rec
      requires Sources(X) && ReadyHolds(J, B, ct, rec, Numpp(), finished, X)
      ensures Correct(X)
    {
    }

    /**
     * The reduction of a packet's coefficients against the GDM: placed at
     * their packets' columns, then reduced left to right; the first
     * component is the pivot, -1 when the vector reduces to zero.
     */
    ghost function GlobalReduction(pkt: Packet): (r: (int, seq<bv8>))
      requires Params() && ReadyState(jmbCoefficient, jmbMessage, otoc, ctoo, inactives, globalDoF, pp, Numpp(), aoh, sizeP)
      requires 0 <= pkt.gid < |gene| && |pkt.coes| >= sizeG
      reads this`jmbCoefficient, this`jmbMessage, this`otoc, this`ctoo, this`inactives, this`globalDoF, this`pp
      ensures -1 <= r.0 < Numpp() && |r.1| == Numpp()
    {
      ReduceFrom(View(jmbCoefficient[..Numpp()], 1, true),
                 Reordered(Assigned(pkt.coes[..sizeG], gene[pkt.gid].pktid, Numpp(), sizeG), ctoo), 0)
    }

    /**
     * The OA-ready branch of process_packet_OA on the decoder's state: the
     * GDM, global_DoF, pp and finished change as GlobalStep says.
     */
    method ProcessGlobal(pkt: Packet, ghost X: seq<seq<bv8>>) returns (pivot: int)
      requires Shape() && ready && 0 <= pkt.gid < |gene| && |pkt.coes| >= sizeG && |pkt.syms| == sizeP
      modifies this`jmbCoefficient, this`jmbMessage, this`globalDoF, this`pp, this`finished
      ensures Shape() && ready
      ensures pivot == old(GlobalReduction(pkt)).0
      ensures old(finished) ==> pivot == -1
      ensures pivot == -1 ==>
        jmbCoefficient == old(jmbCoefficient) && jmbMessage == old(jmbMessage) && globalDoF == old(globalDoF) &&
        pp == old(pp) && finished == old(finished)
      ensures pivot >= 0 ==>
        Numpp() - inactives <= pivot && old(jmbCoefficient)[pivot][pivot] == 0 && globalDoF == old(globalDoF) + 1
      ensures pivot >= 0 && !finished ==>
        jmbCoefficient == old(jmbCoefficient)[pivot := old(GlobalReduction(pkt)).1] &&
        jmbMessage == old(jmbMessage)[pivot := jmbMessage[pivot]] && pp == old(pp)
      ensures pivot >= 0 && finished ==>
        (forall r :: 0 <= r < Numpp() - inactives ==> jmbCoefficient[r] == Unit(Numpp(), r)) &&
        (forall r :: Numpp() - inactives <= r < |jmbCoefficient| ==>
          jmbCoefficient[r] == old(jmbCoefficient)[pivot := old(GlobalReduction(pkt)).1][r]) &&
        (forall j :: 0 <= j < Numpp() ==> pp[ctoo[j]] == jmbMessage[j])
      ensures (Sources(X) && pkt.syms == Accumulate(Zeros(sizeP), X, gene[pkt.gid].pktid, pkt.coes, sizeG) &&
               old(Correct(X))) ==> Correct(X)
    {
      var ids := gene[pkt.gid].pktid;
      if Sources(X) {
        PacketHolds(X, ids, pkt.coes, pkt.syms, sizeP);
      }
      var J, B, dof, rec, fin;
      pivot, J, B, dof, rec, fin := GlobalStep(jmbCoefficient, jmbMessage, otoc, ctoo, inactives, globalDoF, pp, finished,
                                               Numpp(), aoh, ids, pkt.coes[..sizeG], pkt.syms, X);
      SetGdm(J, B, dof, rec, fin, X);
    }

    /**
     * The reduction of a packet's first size_g coefficients against its
     * generation's local matrix, as GaussianEliminate on a banded matrix
     * performs it; the first component is the pivot, -1 when the vector
     * reduces to zero.
     */
    ghost function LocalReduction(pkt: Packet): (r: (int, seq<bv8>))
      requires LocalShape() && 0 <= pkt.gid < |gene| && |pkt.coes| >= sizeG
      reads this`coefficient, this`message, this`localDoF
      ensures -1 <= r.0 < sizeG && |r.1| == sizeG
    {
      ReduceFrom(View(coefficient[pkt.gid], sizeG, false), pkt.coes[..sizeG], 0)
    }

    /**
     * The local stage of process_packet_OA: the packet is counted, reduced
     * and stored in its generation's local matrix as LocalReduction says,
     * and the decoder becomes OA-ready exactly when local_DoF >= snum and
     * overhead >= snum + aoh.
     */
    method ProcessLocal(pkt: Packet, ghost X: seq<seq<bv8>>)
      requires Shape() && !ready && 0 <= pkt.gid < |gene| && |pkt.coes| >= sizeG && |pkt.syms| == sizeP
      modifies this`coefficient, this`message, this`localDoF, this`overhead, this`ready, this`finished,
               this`jmbCoefficient, this`jmbMessage, this`otoc, this`ctoo, this`inactives, this`globalDoF, this`pp
      ensures Shape() && overhead == old(overhead) + 1
      ensures ready <==> localDoF >= snum && overhead >= snum + aoh
      ensures var (pivot, v) := old(LocalReduction(pkt));
        (pivot == -1 ==> localDoF == old(localDoF)) &&
        (pivot >= 0 ==> old(coefficient)[pkt.gid][pivot][pivot] == 0 && localDoF == old(localDoF) + 1) &&
        (!ready && pivot == -1 ==> coefficient == old(coefficient) && message == old(message)) &&
        (!ready && pivot >= 0 ==>
          coefficient == old(coefficient)[pkt.gid := old(coefficient)[pkt.gid][pivot := v]] &&
          message == old(message)[pkt.gid := old(message)[pkt.gid][pivot := message[pkt.gid][pivot]]])
      ensures (Sources(X) && pkt.syms == Accumulate(Zeros(sizeP), X, gene[pkt.gid].pktid, pkt.coes, sizeG) &&
               old(Correct(X))) ==> Correct(X)
    {
      var ces := pkt.coes[..sizeG];
      if Sources(X) {
        PacketHolds(X, gene[pkt.gid].pktid, pkt.coes, pkt.syms, sizeP);
      }
      var pivot := StoreLocal(pkt.gid, ces, pkt.syms, X);
      TestReady(X);
    }

    /**
     * The count and the readiness test of process_packet_OA: overhead grows
     * by one, and the decoder becomes OA-ready exactly when local_DoF >=
     * snum and overhead >= snum + aoh; otherwise nothing else changes.
     */
    method TestReady(ghost X: seq<seq<bv8>>)
      requires Params() && 0 <= localDoF <= overhead + 1 && !ready && !finished && LocalShape()
      requires localDoF <= snum + aoh
      modifies this`coefficient, this`message, this`overhead, this`ready, this`finished, this`jmbCoefficient,
               this`jmbMessage, this`otoc, this`ctoo, this`inactives, this`globalDoF, this`pp
      ensures Shape() && overhead == old(overhead) + 1 && localDoF == old(localDoF)
      ensures ready <==> localDoF >= snum && overhead >= snum + aoh
      ensures !ready ==> coefficient == old(coefficient) && message == old(message)
      ensures Sources(X) && old(LocalsHold(coefficient, message, gene, X)) ==> Correct(X)
    {
      overhead := overhead + 1;
      if localDoF >= snum && overhead >= snum + aoh {
        BecomeReady(X);
      }
    }

    /** An OA-ready decoder counts one more packet; nothing else changes. */
    method Count(ghost X: seq<seq<bv8>>)
      requires Shape() && ready
      modifies this`overhead
      ensures Shape() && ready && overhead == old(overhead) + 1
      ensures old(Correct(X)) ==> Correct(X)
    {
      overhead := overhead + 1;
    }

    /**
     * process_packet_OA: one more packet is counted.  Before OA-readiness
     * it is stored in its generation's local matrix as ProcessLocal says;
     * from then on it is reduced against the GDM instead and the local
     * state stays as it is.  Coded packets of X keep every stored row an
     * equation of X.
     */
    method ProcessPacket(pkt: Packet, ghost X: seq<seq<bv8>>)
      requires Shape() && 0 <= pkt.gid < |gene| && |pkt.coes| >= sizeG && |pkt.syms| == sizeP
      modifies this`coefficient, this`message, this`localDoF, this`overhead, this`ready, this`finished,
               this`jmbCoefficient, this`jmbMessage, this`otoc, this`ctoo, this`inactives, this`globalDoF, this`pp
      ensures Shape() && overhead == old(overhead) + 1
      ensures !old(ready) ==> (ready <==> localDoF >= snum && overhead >= snum + aoh)
      ensures !old(ready) ==>
        var (pivot, v) := old(LocalReduction(pkt));
        (pivot == -1 ==> localDoF == old(localDoF)) &&
        (pivot >= 0 ==> localDoF == old(localDoF) + 1) &&
        (!ready && pivot == -1 ==> coefficient == old(coefficient) && message == old(message)) &&
        (!ready && pivot >= 0 ==>
          coefficient == old(coefficient)[pkt.gid := old(coefficient)[pkt.gid][pivot := v]] &&
          message == old(message)[pkt.gid := old(message)[pkt.gid][pivot := message[pkt.gid][pivot]]])
      ensures old(ready) ==>
        ready && localDoF == old(localDoF) && otoc == old(otoc) && ctoo == old(ctoo) && inactives == old(inactives)
      ensures old(ready) ==>
        var (pivot, v) := old(GlobalReduction(pkt));
        (pivot == -1 ==>
          jmbCoefficient == old(jmbCoefficient) && jmbMessage == old(jmbMessage) && globalDoF == old(globalDoF) &&
          pp == old(pp) && finished == old(finished)) &&
        (pivot >= 0 ==> !old(finished) && globalDoF == old(globalDoF) + 1) &&
        (pivot >= 0 && !finished ==>
          jmbCoefficient == old(jmbCoefficient)[pivot := v] && jmbMessage == old(jmbMessage)[pivot := jmbMessage[pivot]])
      ensures (Sources(X) && pkt.syms == Accumulate(Zeros(sizeP), X, gene[pkt.gid].pktid, pkt.coes, sizeG) &&
               old(Correct(X))) ==> Correct(X)
    {
      if !ready {
        ProcessLocal(pkt, X);
      } else {
        Count(X);
        var pivot := ProcessGlobal(pkt, X);
      }
    }
  }

  /**
   * A packet coded from the members ids of X is an equation of the
   * gathered members with its first |ids| coefficients, whatever bytes
   * follow them.
   */
  lemma PacketHolds(X: seq<seq<bv8>>, ids: seq<int>, coes: seq<bv8>, syms: seq<bv8>, w: nat)
    requires |ids| <= |coes| && InPackets(ids, |X|) && Linear.Rect(X, w)
    ensures Covers(X, ids, w)
    ensures syms == Accumulate(Zeros(w), X, ids, coes, |ids|) ==> Holds(coes[..|ids|], syms, Gathered(X, ids))
  {
    CodedLocally(X, ids, coes[..|ids|], w);
    AccumulatePrefix(X, ids, coes, |ids|, w);
  }

  /** Only the first m coefficients enter a combination of m members. */
  lemma AccumulatePrefix(X: seq<seq<bv8>>, ids: seq<int>, co: seq<bv8>, m: nat, w: nat)
    requires |ids| == m && m <= |co| && InPackets(ids, |X|) && Linear.Rect(X, w)
    ensures Covers(X, ids, w)
    ensures Accumulate(Zeros(w), X, ids, co[..m], m) == Accumulate(Zeros(w), X, ids, co, m)
  {
    forall c | 0 <= c < w
      ensures Accumulate(Zeros(w), X, ids, co[..m], m)[c] == Accumulate(Zeros(w), X, ids, co, m)[c]
    {
      AccumulateAt(Zeros(w), X, ids, co[..m], m, c);
      AccumulateAt(Zeros(w), X, ids, co, m, c);
      DotPrefix(X, ids, co, m, m, c);
    }
  }

  /** Packets.Dot over the first j terms reads only the first m >= j coefficients. */
  lemma {:induction false} DotPrefix(X: seq<seq<bv8>>, ids: seq<int>, co: seq<bv8>, m: nat, j: nat, c: nat)
    requires j <= m <= |co| && m <= |ids| && Covers(X, ids, c + 1)
    ensures Packets.Dot(X, ids, co[..m], j, c) == Packets.Dot(X, ids, co, j, c)
  {
    if j > 0 {
      DotPrefix(X, ids, co, m, j - 1, c);
    }
  }
}
