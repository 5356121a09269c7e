/**
 * The band decoder (src/decoderBD.c), which decodes a band code jointly
 * with its precode.
 *
 * Until snum rows are stored the decoding matrix is upper triangular and
 * banded: a received packet is scattered to a full-length vector, reduced
 * against the rows on the diagonal (each over its band of at most size_g
 * entries) and stored whole at its first nonzero position that has no
 * row.  With snum rows, the matrix is partially diagonalised, every empty
 * row receives the parity-check vector of one check, and the matrix is
 * pivoted into a new column order.  Later packets are reduced in that
 * order against the upper part of the rows; once all snum + cnum rows are
 * present, back-substitution gives the packets.
 *
 * The correctness statement is relative to the packets X the encoder
 * held: before the precode every row is an equation of X; afterwards the
 * upper part of every row with a nonzero diagonal entry is an equation of
 * X in the column order of the pivoting; a finished decoder holds X.
 */
module DecoderBd {
  import opened Wrappers
  import opened GaloisArith
  import opened GaloisPrimitive
  import opened Packets
  import opened Grouping
  import opened Decoding
  import opened SncEncoder
  import opened CompactRows
  import opened Reordering
  import opened Pivoting
  import Linear
  import PivotRounds
  import DecoderCbd

  type Matrix = seq<seq<bv8>>

  /** n rows of n entries. */
  predicate Square(M: Matrix, n: nat)
  {
    |M| == n && Linear.Rect(M, n)
  }

  /** Every message has w bytes. */
  predicate Messages(message: Matrix, n: nat, w: nat)
  {
    |message| == n && Linear.Rect(message, w)
  }

  /**
   * The shape before the precode is applied: every row is zero before its
   * diagonal and from diagonal + size_g on, and a row whose diagonal entry
   * is zero is zero.
   */
  predicate Banded(M: Matrix, sg: int)
  {
    Square(M, |M|) &&
    (forall i, k :: 0 <= i < |M| && 0 <= k < |M| && M[i][k] != 0 ==> i <= k < i + sg) &&
    (forall i, k :: 0 <= i < |M| && 0 <= k < |M| && M[i][i] == 0 ==> M[i][k] == 0)
  }

  /** Every row is an equation of X with its message as payload. */
  ghost predicate AllHold(M: Matrix, message: Matrix, X: seq<seq<bv8>>)
  {
    |message| == |M| && forall i :: 0 <= i < |M| ==> Holds(M[i], message[i], X)
  }

  /** The number of rows from lo on whose diagonal entry is nonzero. */
  function Pivots(M: Matrix, lo: nat): (k: nat)
    requires Square(M, |M|)
    ensures lo <= |M| ==> k <= |M| - lo
    decreases |M| - lo
  {
    if lo >= |M| then 0 else (if M[lo][lo] != 0 then 1 else 0) + Pivots(M, lo + 1)
  }

  /** A row replaced by one that agrees on the diagonal entries counts the same; one that fills an empty diagonal counts one more. */
  lemma {:induction false} PivotsSet(M: Matrix, i: nat, row: seq<bv8>, lo: nat)
    requires Square(M, |M|) && i < |M| && |row| == |M|
    ensures Square(M[i := row], |M|)
    ensures Pivots(M[i := row], lo) ==
      Pivots(M, lo) + (if lo <= i && M[i][i] == 0 && row[i] != 0 then 1 else 0)
                    - (if lo <= i && M[i][i] != 0 && row[i] == 0 then 1 else 0)
    decreases |M| - lo
  {
    if lo < |M| {
      PivotsSet(M, i, row, lo + 1);
    }
  }

  /** Rows with the same diagonal entries count the same. */
  lemma {:induction false} PivotsSameDiagonal(M: Matrix, M': Matrix, lo: nat)
    requires Square(M, |M|) && Square(M', |M|)
    requires forall i :: lo <= i < |M| ==> (M[i][i] == 0 <==> M'[i][i] == 0)
    ensures Pivots(M, lo) == Pivots(M', lo)
    decreases |M| - lo
  {
    if lo < |M| {
      PivotsSameDiagonal(M, M', lo + 1);
    }
  }

  /** Every diagonal entry is nonzero exactly when all n count. */
  lemma {:induction false} PivotsFull(M: Matrix, lo: nat)
    requires Square(M, |M|) && lo <= |M|
    ensures Pivots(M, lo) == |M| - lo <==> forall i :: lo <= i < |M| ==> M[i][i] != 0
    decreases |M| - lo
  {
    if lo < |M| {
      PivotsFull(M, lo + 1);
    }
  }

  // ---------------------------------------------------------------------
  // partially_diag_decoding_matrix
  // ---------------------------------------------------------------------

  /** The zero-pivot list: each column after j with a zero diagonal entry, once. */
  predicate ZeroPivots(M: Matrix, zp: seq<int>, j: int)
    requires Square(M, |M|)
  {
    Distinct(zp) &&
    (forall z :: 0 <= z < |zp| ==> 0 <= zp[z] && j < zp[z] < |M| && M[zp[z]][zp[z]] == 0) &&
    (forall l :: 0 <= l && j < l < |M| && M[l][l] == 0 ==> l in zp)
  }

  /**
   * Row i after the loop over the zero pivots cols: each listed column l
   * gains q times the entry of row j there, when that entry is nonzero.
   */
  function AddAtColumns(ri: seq<bv8>, rj: seq<bv8>, cols: seq<int>, q: bv8): (r: seq<bv8>)
    requires |ri| == |rj| && InPackets(cols, |ri|)
    ensures |r| == |ri|
    decreases |cols|
  {
    if cols == [] then ri
    else
      var r := AddAtColumns(ri, rj, cols[..|cols| - 1], q);
      var l := cols[|cols| - 1];
      if rj[l] != 0 then r[l := Add(r[l], Mul(rj[l], q))] else r
  }

  /** With the columns listed once each, every listed column gains q times row j and the others stay. */
  lemma {:induction false} AddAtColumnsEntries(ri: seq<bv8>, rj: seq<bv8>, cols: seq<int>, q: bv8)
    requires |ri| == |rj| && InPackets(cols, |ri|) && Distinct(cols)
    ensures forall k :: 0 <= k < |ri| ==>
      AddAtColumns(ri, rj, cols, q)[k] == if k in cols then Add(ri[k], Mul(rj[k], q)) else ri[k]
    decreases |cols|
  {
    if cols != [] {
      var init, l := cols[..|cols| - 1], cols[|cols| - 1];
      AddAtColumnsEntries(ri, rj, init, q);
      PowersAreDistinct();
      MulZero(q);
      assert cols == init + [l];
      assert !(l in init);
    }
  }

  /** The loop over the zero pivots of partially_diag_decoding_matrix for row i. */
  method AddAtZeroPivots(ri: seq<bv8>, rj: seq<bv8>, zp: seq<int>, q: bv8) returns (r: seq<bv8>)
    requires |ri| == |rj| && InPackets(zp, |ri|)
    ensures r == AddAtColumns(ri, rj, zp, q)
  {
    r := ri;
    var z := 0;
    while z < |zp|
      invariant 0 <= z <= |zp| && r == AddAtColumns(ri, rj, zp[..z], q)
    {
      var l := zp[z];
      assert zp[..z + 1][..z] == zp[..z];
      if rj[l] != 0 {
        r := r[l := Add(r[l], Mul(rj[l], q))];
      }
      z := z + 1;
    }
    assert zp[..|zp|] == zp;
  }

  /**
   * Clearing entry j of row i with row j, which is nonzero only on its
   * diagonal and in the zero-pivot columns, and then updating only those
   * columns, adds q times row j to row i.
   */
  lemma EliminationAddsRow(ri: seq<bv8>, rj: seq<bv8>, zp: seq<int>, j: nat, q: bv8, r: seq<bv8>)
    requires |ri| == |rj| == |r| && j < |ri| && rj[j] != 0 && q == Div(ri[j], rj[j]) && !(j in zp)
    requires forall k :: 0 <= k < |ri| && k != j && !(k in zp) ==> rj[k] == 0
    requires forall k :: 0 <= k < |r| ==> r[k] == if k == j then 0 else if k in zp then Add(ri[k], Mul(rj[k], q)) else ri[k]
    ensures r == AddScaled(ri, rj, q)
  {
    PowersAreDistinct();
    MulZero(q);
    DivUndoesMul(ri[j], rj[j]);
    MulCommutes(q, rj[j]);
  }

  /**
   * The body of the row loop of partially_diag_decoding_matrix for row i
   * and column j: when entry j of row i is nonzero it is cleared with row
   * j, the zero-pivot columns and the message updated alike; row i then is
   * row i plus q times row j, and nothing else changes.
   */
  method EliminateRow(M0: Matrix, message0: Matrix, i: nat, j: nat, zp: seq<int>, ghost X: seq<seq<bv8>>)
    returns (M: Matrix, message: Matrix)
    requires Square(M0, |M0|) && |message0| == |M0| && i < j < |M0| && M0[j][j] != 0
    requires |message0[i]| == |message0[j]|
    requires Distinct(zp) && forall z :: 0 <= z < |zp| ==> j < zp[z] < |M0|
    requires forall k :: 0 <= k < |M0| && k != j && !(k in zp) ==> M0[j][k] == 0
    ensures Square(M, |M0|) && |message| == |M0| && |message[i]| == |message0[i]|
    ensures M0[i][j] == 0 ==> M == M0 && message == message0
    ensures M == M0[i := M[i]] && message == message0[i := message[i]] && M[i][j] == 0
    ensures forall k :: 0 <= k < |M0| && k != j && !(k in zp) ==> M[i][k] == M0[i][k]
    ensures Holds(M0[i], message0[i], X) && Holds(M0[j], message0[j], X) ==> Holds(M[i], message[i], X)
  {
    M, message := M0, message0;
    if M0[i][j] != 0 {
      var q := Div(M0[i][j], M0[j][j]);
      var ri := M0[i][j := 0];
      ri := AddAtZeroPivots(ri, M0[j], zp, q);
      AddAtColumnsEntries(M0[i][j := 0], M0[j], zp, q);
      EliminationAddsRow(M0[i], M0[j], zp, j, q, ri);
      if Holds(M0[i], message0[i], X) && Holds(M0[j], message0[j], X) {
        HoldsAddScaled(M0[i], message0[i], M0[j], message0[j], q, X);
      }
      M := M[i := ri];
      message := message[i := AddScaled(message0[i], message0[j], q)];
    }
  }

  /** The first row partially_diag_decoding_matrix visits above diagonal j. */
  function StartRow(j: int, sg: int): int
  {
    if j - sg > 0 then j - sg else 0
  }

  /**
   * The row loop for a column j with a nonzero diagonal entry: rows
   * StartRow(j) .. j-1 have entry j cleared with row j.  Only columns j
   * and the zero pivots of those rows change, and every row stays an
   * equation of X.
   */
  method ClearAbove(M0: Matrix, message0: Matrix, j: nat, zp: seq<int>, sg: int, ghost X: seq<seq<bv8>>)
    returns (M: Matrix, message: Matrix)
    requires Square(M0, |M0|) && j < |M0| && M0[j][j] != 0 && sg > 0
    requires |message0| == |M0| && Messages(message0, |M0|, |message0[j]|)
    requires Distinct(zp) && forall z :: 0 <= z < |zp| ==> j < zp[z] < |M0|
    requires forall k :: 0 <= k < |M0| && k != j && !(k in zp) ==> M0[j][k] == 0
    ensures Square(M, |M0|) && Messages(message, |M0|, |message0[j]|)
    ensures forall i :: 0 <= i < |M0| && (i >= j || i < StartRow(j, sg) || M0[i][j] == 0) ==>
      M[i] == M0[i] && message[i] == message0[i]
    ensures forall i :: StartRow(j, sg) <= i < j ==> M[i][j] == 0
    ensures forall i, k :: 0 <= i < |M0| && 0 <= k < |M0| && k != j && !(k in zp) ==> M[i][k] == M0[i][k]
    ensures AllHold(M0, message0, X) ==> AllHold(M, message, X)
  {
    M, message := M0, message0;
    var n := |M0|;
    var i := StartRow(j, sg);
    while i < j
      invariant StartRow(j, sg) <= i <= j
      invariant Square(M, n) && Messages(message, n, |message0[j]|)
      invariant forall r :: 0 <= r < n && (r >= i || r < StartRow(j, sg) || M0[r][j] == 0) ==>
        M[r] == M0[r] && message[r] == message0[r]
      invariant forall r :: StartRow(j, sg) <= r < i ==> M[r][j] == 0
      invariant forall r, k :: 0 <= r < n && 0 <= k < n && k != j && !(k in zp) ==> M[r][k] == M0[r][k]
      invariant AllHold(M0, message0, X) ==> AllHold(M, message, X)
    {
      M, message := EliminateRow(M, message, i, j, zp, X);
      i := i + 1;
    }
  }

  /**
   * What partially_diag_decoding_matrix keeps once the columns from j on
   * are processed: the diagonal and the rows with a zero diagonal entry as
   * they were, zeros below the diagonal, the columns before j untouched,
   * and the processed columns with a nonzero diagonal entry zero above it.
   */
  ghost predicate DiagonalisedFrom(M0: Matrix, message0: Matrix, M: Matrix, message: Matrix, j: int, w: nat)
  {
    var n := |M0|;
    Square(M0, n) && 0 <= j <= n && Square(M, n) && Messages(message, n, w) && |message0| == n &&
    (forall i :: 0 <= i < n ==> M[i][i] == M0[i][i]) &&
    (forall i :: 0 <= i < n && M0[i][i] == 0 ==> M[i] == M0[i] && message[i] == message0[i]) &&
    (forall i, k :: 0 <= k < i < n ==> M[i][k] == 0) &&
    (forall i, k :: 0 <= i < n && 0 <= k < j ==> M[i][k] == M0[i][k]) &&
    (forall i, k :: 0 <= i < k && j <= k < n && M0[k][k] != 0 ==> M[i][k] == 0)
  }

  /**
   * One column of partially_diag_decoding_matrix with a nonzero diagonal
   * entry: the rows above it are cleared, and the state moves from j + 1
   * to j.
   */
  method DiagonaliseColumn(M0: Matrix, message0: Matrix, M1: Matrix, message1: Matrix, j: nat, zp: seq<int>,
                           sg: int, w: nat, ghost X: seq<seq<bv8>>)
    returns (M: Matrix, message: Matrix)
    requires Banded(M0, sg) && sg > 0 && j < |M0| && M0[j][j] != 0
    requires DiagonalisedFrom(M0, message0, M1, message1, j + 1, w) && ZeroPivots(M0, zp, j)
    ensures DiagonalisedFrom(M0, message0, M, message, j, w)
    ensures AllHold(M1, message1, X) ==> AllHold(M, message, X)
  {
    var n := |M0|;
    forall k | 0 <= k < n && k != j && !(k in zp)
      ensures M1[j][k] == 0
    {
      if k > j {
        assert M0[k][k] != 0;
      }
    }
    M, message := ClearAbove(M1, message1, j, zp, sg, X);
    forall i | 0 <= i < j
      ensures M[i][j] == 0
    {
      if i < StartRow(j, sg) {
        assert M[i][j] == M1[i][j] == M0[i][j];
      }
    }
    forall i | 0 <= i < n && M0[i][i] == 0
      ensures M[i] == M0[i] && message[i] == message0[i]
    {
      assert M1[i][j] == M0[i][j] == 0;
    }
    forall i, k | 0 <= i < k && j < k < n && M0[k][k] != 0
      ensures M[i][k] == 0
    {
      assert !(k in zp);
    }
    forall i | 0 <= i < n
      ensures M[i][i] == M0[i][i]
    {
      if i < j {
        assert !(i in zp);
      }
    }
    forall i, k | 0 <= k < i < n
      ensures M[i][k] == 0
    {
      if i < j {
        assert !(k in zp);
      }
    }
    forall i, k | 0 <= i < n && 0 <= k < j
      ensures M[i][k] == M0[i][k]
    {
      assert !(k in zp);
    }
  }

  /** Before any column is processed the state is the input. */
  lemma DiagonalisedNone(M0: Matrix, message0: Matrix, sg: int, w: nat)
    requires Banded(M0, sg) && Messages(message0, |M0|, w)
    ensures DiagonalisedFrom(M0, message0, M0, message0, |M0|, w) && ZeroPivots(M0, [], |M0| - 1)
  {
  }

  /** A column with a zero diagonal entry is passed over: the state moves from j + 1 to j. */
  lemma PassZeroColumn(M0: Matrix, message0: Matrix, M: Matrix, message: Matrix, j: nat, zp: seq<int>, w: nat)
    requires DiagonalisedFrom(M0, message0, M, message, j + 1, w) && ZeroPivots(M0, zp, j) && M0[j][j] == 0
    ensures DiagonalisedFrom(M0, message0, M, message, j, w) && ZeroPivots(M0, zp + [j], j - 1)
  {
    assert forall z :: 0 <= z < |zp| ==> zp[z] != j;
  }

  /** With every column processed, the state is the result of partially_diag_decoding_matrix. */
  lemma DiagonalisedAll(M0: Matrix, message0: Matrix, M: Matrix, message: Matrix, w: nat)
    requires DiagonalisedFrom(M0, message0, M, message, 0, w)
    ensures forall i, k :: 0 <= i < |M0| && 0 <= k < |M0| && i != k && M0[k][k] != 0 ==> M[i][k] == 0
  {
    forall i, k | 0 <= i < |M0| && 0 <= k < |M0| && i != k && M0[k][k] != 0
      ensures M[i][k] == 0
    {
      if k < i {
        assert M[i][k] == 0;
      }
    }
  }

  /** One pass of the column loop of partially_diag_decoding_matrix, at column j. */
  method DiagonaliseStep(M0: Matrix, message0: Matrix, M1: Matrix, message1: Matrix, j: nat, zp1: seq<int>, nonzero1: int,
                         sg: int, w: nat, ghost X: seq<seq<bv8>>)
    returns (M: Matrix, message: Matrix, zp: seq<int>, nonzero: int)
    requires Banded(M0, sg) && sg > 0 && j < |M0|
    requires DiagonalisedFrom(M0, message0, M1, message1, j + 1, w) && ZeroPivots(M0, zp1, j) && nonzero1 == Pivots(M0, j + 1)
    ensures DiagonalisedFrom(M0, message0, M, message, j, w) && ZeroPivots(M0, zp, j - 1) && nonzero == Pivots(M0, j)
    ensures AllHold(M1, message1, X) ==> AllHold(M, message, X)
  {
    M, message, zp, nonzero := M1, message1, zp1, nonzero1;
    if M[j][j] == 0 {
      PassZeroColumn(M0, message0, M, message, j, zp, w);
      zp := zp + [j];
    } else {
      nonzero := nonzero + 1;
      M, message := DiagonaliseColumn(M0, message0, M, message, j, zp, sg, w, X);
      assert forall z :: 0 <= z < |zp| ==> zp[z] != j;
    }
  }

  /**
   * partially_diag_decoding_matrix: for every column j with a nonzero
   * diagonal entry, from the last to the first, the entries above it
   * (within size_g rows, where the band puts them) are cleared with row j,
   * carrying the update into the later zero-pivot columns and the
   * messages.  Afterwards every column with a nonzero diagonal entry is
   * zero off the diagonal, the diagonal and the empty rows are unchanged,
   * the matrix stays upper triangular, and every row is still an equation
   * of X.  allzeros counts the zero diagonal entries.
   */
  method PartiallyDiag(M0: Matrix, message0: Matrix, sg: int, w: nat, ghost X: seq<seq<bv8>>)
    returns (M: Matrix, message: Matrix, allzeros: int)
    requires Banded(M0, sg) && sg > 0 && Messages(message0, |M0|, w)
    ensures DiagonalisedFrom(M0, message0, M, message, 0, w)
    ensures forall i, k :: 0 <= i < |M0| && 0 <= k < |M0| && i != k && M0[k][k] != 0 ==> M[i][k] == 0
    ensures allzeros == |M0| - Pivots(M0, 0)
    ensures AllHold(M0, message0, X) ==> AllHold(M, message, X)
  {
    var n := |M0|;
    M, message := M0, message0;
    var zp: seq<int> := [];
    var nonzero := 0;
    ghost var ok := AllHold(M0, message0, X);
    var j := n;
    DiagonalisedNone(M0, message0, sg, w);
    while j > 0
      invariant DiagonalisedFrom(M0, message0, M, message, j, w)
      invariant ZeroPivots(M0, zp, j - 1)
      invariant nonzero == Pivots(M0, j)
      invariant ok ==> AllHold(M, message, X)
    {
      j := j - 1;
      M, message, zp, nonzero := DiagonaliseStep(M0, message0, M, message, j, zp, nonzero, sg, w, X);
    }
    allzeros := n - nonzero;
    DiagonalisedAll(M0, message0, M, message, w);
  }

  // ---------------------------------------------------------------------
  // apply_parity_check_matrix, first loop
  // ---------------------------------------------------------------------

  /** The number of rows before i whose diagonal entry is zero. */
  function Empty(M: Matrix, i: nat): (k: nat)
    requires Square(M, |M|) && i <= |M|
    ensures k <= i
  {
    if i == 0 then 0 else Empty(M, i - 1) + (if M[i - 1][i - 1] == 0 then 1 else 0)
  }

  /** Every row before i is either empty or counted by Pivots. */
  lemma {:induction false} EmptyPivots(M: Matrix, i: nat)
    requires Square(M, |M|) && i <= |M|
    ensures Empty(M, i) + Pivots(M, 0) == i + Pivots(M, i)
    decreases i
  {
    if i > 0 {
      EmptyPivots(M, i - 1);
      assert Pivots(M, i - 1) == (if M[i - 1][i - 1] != 0 then 1 else 0) + Pivots(M, i);
    }
  }

  /**
   * The first loop of apply_parity_check_matrix once rows 0 .. i-1 are
   * visited: those with a zero diagonal entry hold the parity vector of
   * the check they were given, the p-th such row check p, with an all-zero
   * message, and every other row is unchanged.
   */
  ghost predicate ParityFrom(M0: Matrix, message0: Matrix, M: Matrix, message: Matrix, snum: nat, checks: seq<seq<nat>>,
                             w: nat, i: nat)
  {
    var n := |M0|;
    Square(M0, n) && n == snum + |checks| && NamesSources(checks, snum) && i <= n && Square(M, n) && Messages(message, n, w) &&
    |message0| == n &&
    (forall r :: i <= r < n || (0 <= r < n && M0[r][r] != 0) ==> M[r] == M0[r] && message[r] == message0[r]) &&
    (forall r :: 0 <= r < i && M0[r][r] == 0 ==>
      Empty(M0, r) < |checks| && M[r] == ParityRow(checks[Empty(M0, r)], snum, Empty(M0, r), n) && message[r] == Zeros(w))
  }

  /** One pass of the first loop of apply_parity_check_matrix, at row i. */
  method ParityStep(M0: Matrix, message0: Matrix, M1: Matrix, message1: Matrix, snum: nat, checks: seq<seq<nat>>, w: nat,
                    i: nat, ghost X: seq<seq<bv8>>)
    returns (M: Matrix, message: Matrix)
    requires ParityFrom(M0, message0, M1, message1, snum, checks, w, i) && i < |M0| && Pivots(M0, 0) == snum
    ensures ParityFrom(M0, message0, M, message, snum, checks, w, i + 1)
    ensures |X| == |M0| && Linear.Rect(X, w) && ChecksAreSums(X, snum, checks, w) && AllHold(M1, message1, X) ==>
      AllHold(M, message, X)
  {
    M, message := M1, message1;
    var n := |M0|;
    if M[i][i] == 0 {
      var p := Empty(M0, i);
      EmptyPivots(M0, i + 1);
      assert InPackets(checks[p], snum);
      var ces := ParityVector(checks[p], snum, p, n);
      if |X| == n && Linear.Rect(X, w) && ChecksAreSums(X, snum, checks, w) {
        ParityRowEquation(X, snum, checks, w, p);
      }
      M := M[i := ces];
      message := message[i := Zeros(w)];
      assert Square(M, n) && Messages(message, n, w);
      forall r | i + 1 <= r < n || (0 <= r < n && M0[r][r] != 0)
        ensures M[r] == M0[r] && message[r] == message0[r]
      {
        assert r != i;
      }
      forall r | 0 <= r < i + 1 && M0[r][r] == 0
        ensures Empty(M0, r) < |checks| && M[r] == ParityRow(checks[Empty(M0, r)], snum, Empty(M0, r), n) && message[r] == Zeros(w)
      {
        if r < i {
          assert M[r] == M1[r] && message[r] == message1[r];
        }
      }
    }
  }

  /**
   * The first loop of apply_parity_check_matrix on a matrix with snum
   * nonzero diagonal entries: the p-th row with a zero diagonal entry,
   * which is empty, becomes the parity vector of check p (its source
   * neighbours and 1 at column snum + p) with an all-zero message.  There
   * are exactly cnum such rows, so every check is used once.  Every row
   * with a nonzero diagonal entry is unchanged, and when the checks of X
   * are the sums of their neighbours every row stays an equation of X.
   */
  method ApplyParity(M0: Matrix, message0: Matrix, snum: nat, checks: seq<seq<nat>>, w: nat, ghost X: seq<seq<bv8>>)
    returns (M: Matrix, message: Matrix)
    requires Square(M0, snum + |checks|) && Messages(message0, |M0|, w) && NamesSources(checks, snum)
    requires Pivots(M0, 0) == snum
    requires forall i, k :: 0 <= i < |M0| && 0 <= k < |M0| && M0[i][i] == 0 ==> M0[i][k] == 0
    ensures Square(M, |M0|) && Messages(message, |M0|, w)
    ensures forall i :: 0 <= i < |M0| && M0[i][i] != 0 ==> M[i] == M0[i] && message[i] == message0[i]
    ensures forall i :: 0 <= i < |M0| && M0[i][i] == 0 ==>
      Empty(M0, i) < |checks| && M[i] == ParityRow(checks[Empty(M0, i)], snum, Empty(M0, i), |M0|) && message[i] == Zeros(w)
    ensures |X| == |M0| && Linear.Rect(X, w) && ChecksAreSums(X, snum, checks, w) && AllHold(M0, message0, X) ==>
      AllHold(M, message, X)
  {
    var n := |M0|;
    M, message := M0, message0;
    ghost var ok := |X| == n && Linear.Rect(X, w) && ChecksAreSums(X, snum, checks, w) && AllHold(M0, message0, X);
    var i := 0;
    while i < n
      invariant ParityFrom(M0, message0, M, message, snum, checks, w, i)
      invariant ok ==> AllHold(M, message, X)
    {
      M, message := ParityStep(M0, message0, M, message, snum, checks, w, i, X);
      i := i + 1;
    }
  }

  // ---------------------------------------------------------------------
  // The views the reduction reads
  // ---------------------------------------------------------------------

  /**
   * The rows the reduction of process_packet_BD reads: row i from its
   * diagonal on, size_g entries (fewer at the end) before the precode is
   * applied and the rest of the row afterwards, when its diagonal entry
   * is nonzero.
   */
  function View(M: Matrix, sg: int, full: bool): (row: Rows)
    requires Square(M, |M|) && sg >= 1
    ensures |row| == |M| && Triangular(row) && (!full ==> Narrow(row, sg))
    ensures forall i :: 0 <= i < |M| ==> (row[i].Some? <==> M[i][i] != 0)
    ensures forall i :: 0 <= i < |M| && M[i][i] != 0 ==> row[i].value == M[i][i..i + RowLength(|M|, i, sg, full)]
  {
    seq(|M|, i requires 0 <= i < |M| =>
      if M[i][i] != 0 then Some(M[i][i..i + RowLength(|M|, i, sg, full)]) else None)
  }

  /** Before the precode, the banded rows read over size_g entries are the rows themselves. */
  lemma BandedView(M: Matrix, message: Matrix, sg: int, X: seq<seq<bv8>>)
    requires Banded(M, sg) && sg >= 1 && AllHold(M, message, X)
    ensures RowsHold(View(M, sg, false), message, X)
  {
    var row := View(M, sg, false);
    forall i | 0 <= i < |M| && row[i].Some?
      ensures Holds(Expand(i, row[i].value, |M|), message[i], X)
    {
      ExpandSlice(M[i], i, RowLength(|M|, i, sg, false));
    }
  }

  // ---------------------------------------------------------------------
  // process_packet_BD before the precode is applied
  // ---------------------------------------------------------------------

  /**
   * The rows a vector is reduced against and the vector as it is read:
   * banded rows and the vector itself before the precode is applied, the
   * rows from the diagonal on and the vector in the column order ctoo
   * afterwards.
   */
  function Reading(M: Matrix, ctoo: seq<int>, ces: seq<bv8>, sg: int, dePrecode: bool): (rv: (Rows, seq<bv8>))
    requires Square(M, |M|) && sg >= 1 && |ces| == |M| && IsPermutation(ctoo, |M|)
    ensures |rv.0| == |rv.1| == |M| && Triangular(rv.0)
  {
    (View(M, sg, dePrecode), if dePrecode then Reordered(ces, ctoo) else ces)
  }

  /**
   * The reduction and store of process_packet_BD before the precode is
   * applied: the scattered vector is reduced against the banded rows on
   * the diagonal, each over at most size_g entries, and stored whole with
   * its payload at the first nonzero position without a row, which gains
   * a pivot; a vector that reduces to zero changes nothing.  A vector
   * inside a window of size_g keeps the matrix banded, and when the rows
   * and the vector are equations of X so is every row afterwards.
   */
  method StoreBanded(M0: Matrix, message0: Matrix, ces: seq<bv8>, msg0: seq<bv8>, sg: int, ghost lead: int,
                     ghost X: seq<seq<bv8>>)
    returns (pivot: int, M: Matrix, message: Matrix)
    requires Banded(M0, sg) && sg >= 1 && Messages(message0, |M0|, |msg0|) && |ces| == |M0| && Window(ces, lead, sg)
    ensures Banded(M, sg) && |M| == |M0| && Messages(message, |M0|, |msg0|) && -1 <= pivot < |M0|
    ensures pivot == -1 ==> M == M0 && message == message0
    ensures pivot >= 0 ==>
      M0[pivot][pivot] == 0 && M[pivot][pivot] != 0 &&
      M == M0[pivot := M[pivot]] && message == message0[pivot := message[pivot]]
    ensures Pivots(M, 0) == Pivots(M0, 0) + (if pivot >= 0 then 1 else 0)
    ensures AllHold(M0, message0, X) && Holds(ces, msg0, X) ==> AllHold(M, message, X)
    ensures pivot == ReduceFrom(View(M0, sg, false), ces, 0).0
    ensures pivot >= 0 ==> M[pivot] == ReduceFrom(View(M0, sg, false), ces, 0).1
  {
    M, message := M0, message0;
    var row := View(M0, sg, false);
    if AllHold(M0, message0, X) {
      BandedView(M0, message0, sg, X);
    }
    var v, msg;
    pivot, v, msg := ReduceStored(row, message0, ces, msg0, X, lead, sg);
    if pivot >= 0 {
      PivotsSet(M0, pivot, v, 0);
      M := M0[pivot := v];
      message := message0[pivot := msg];
    }
  }

  // ---------------------------------------------------------------------
  // Pivoting: the rows stay equations of the packets in the new order
  // ---------------------------------------------------------------------

  /** Leading zero coefficients do not contribute to an inner product. */
  lemma {:induction false} DotSkipZeros(a: seq<bv8>, x: seq<bv8>, m: nat)
    requires |a| == |x| && m <= |a| && forall k :: 0 <= k < m ==> a[k] == 0
    ensures Linear.Dot(a, x) == Linear.Dot(a[m..], x[m..])
    decreases m
  {
    if m > 0 {
      PowersAreDistinct();
      MulZero(x[0]);
      DotSkipZeros(a[1..], x[1..], m - 1);
      assert a[1..][m - 1..] == a[m..] && x[1..][m - 1..] == x[m..];
    }
  }

  /**
   * Rows that are equations of X, placed in the row order pos and read in
   * the column order cp, solve the system for X in the order cp.  There
   * may be more rows than unknowns.
   */
  lemma PermutedSolves(M0: Matrix, B0: Matrix, X: seq<seq<bv8>>, pos: seq<int>, cp: seq<int>, w: nat)
    requires |X| <= |M0| && Linear.Rect(M0, |X|) && Messages(B0, |M0|, w) && Linear.Rect(X, w) && AllHold(M0, B0, X)
    requires IsPermutation(pos, |M0|) && IsPermutation(cp, |X|)
    ensures Linear.Solves(PivotRounds.Permuted(M0, pos, cp, |X|), PivotRounds.Permuted(B0, pos, PivotRounds.Identity(w), w),
                          Reordered(X, cp), |X|, w)
  {
    var n := |X|;
    var P, PB, Y := PivotRounds.Permuted(M0, pos, cp, n), PivotRounds.Permuted(B0, pos, PivotRounds.Identity(w), w), Reordered(X, cp);
    forall r, c | 0 <= r < |M0| && 0 <= c < w
      ensures Linear.Dot(P[r], Linear.Column(Y, c)) == PB[r][c]
    {
      assert P[r] == Reordered(M0[pos[r]], cp);
      assert PB[r] == B0[pos[r]];
      HoldsReordered(M0[pos[r]], B0[pos[r]], X, cp);
    }
  }

  /**
   * When the rows from na on are zero in the first na columns, the corner
   * from row and column na on is solved by the unknowns from na on.
   */
  lemma CornerSolves(E: Matrix, EB: Matrix, Y: seq<seq<bv8>>, na: nat, n: nat, w: nat)
    requires Linear.Solves(E, EB, Y, n, w) && na <= n && na <= |E|
    requires forall r, c :: na <= r < |E| && 0 <= c < na ==> E[r][c] == 0
    ensures Linear.Solves(PivotRounds.Corner(E, na, na, n), PivotRounds.Corner(EB, na, 0, w), Y[na..], n - na, w)
  {
    var C, CB := PivotRounds.Corner(E, na, na, n), PivotRounds.Corner(EB, na, 0, w);
    forall r, c | 0 <= r < |C| && 0 <= c < w
      ensures Linear.Dot(C[r], Linear.Column(Y[na..], c)) == CB[r][c]
    {
      assert C[r] == E[na + r][na..];
      assert Linear.Column(Y[na..], c) == Linear.Column(Y, c)[na..];
      DotSkipZeros(E[na + r], Linear.Column(Y, c), na);
    }
  }

  /**
   * The matrices pivot_matrix_oneround leaves, over n columns: the rows
   * above na are the diagonalised E, and the rows from na to n - 1 hold the
   * solved corner S from column na on (what they hold before that column,
   * and any rows from n on, is never read).
   */
  ghost predicate PivotedTo(M: Matrix, message: Matrix, E: Matrix, EB: Matrix, S: Matrix, SB: Matrix, na: nat, n: nat, w: nat)
  {
    n <= |M| && Linear.Rect(M, n) && Messages(message, |M|, w) && na <= n &&
    |E| == |M| && Linear.Rect(E, n) && |EB| == |M| && Linear.Rect(EB, w) &&
    |S| == |M| - na && Linear.Rect(S, n - na) && |SB| == |M| - na && Linear.Rect(SB, w) &&
    (forall r, c :: 0 <= r < n && 0 <= c < n && (r < na || c >= na) ==>
      M[r][c] == if r < na then E[r][c] else S[r - na][c - na]) &&
    (forall r, c :: 0 <= r < n && 0 <= c < w ==> message[r][c] == if r < na then EB[r][c] else SB[r - na][c])
  }

  /** A row above na of the pivoted matrix, read from its diagonal, is an equation of the reordered packets. */
  lemma ActiveRowHolds(M: Matrix, message: Matrix, E: Matrix, EB: Matrix, S: Matrix, SB: Matrix, na: nat, n: nat, w: nat,
                       Y: seq<seq<bv8>>, r: nat)
    requires PivotedTo(M, message, E, EB, S, SB, na, n, w) && Linear.Solves(E, EB, Y, n, w) && PivotRounds.Diagonalised(E, na)
    requires r < na
    ensures Holds(Expand(r, M[r][r..], n), message[r], Y)
  {
    assert M[r] == E[r];
    assert message[r] == EB[r];
    ExpandSlice(M[r], r, n - r);
    assert M[r][r..r + (n - r)] == M[r][r..];
  }

  /** A row from na on of the pivoted matrix, read from its diagonal, is an equation of the reordered packets. */
  lemma InactiveRowHolds(M: Matrix, message: Matrix, E: Matrix, EB: Matrix, S: Matrix, SB: Matrix, na: nat, n: nat, w: nat,
                         Y: seq<seq<bv8>>, r: nat)
    requires PivotedTo(M, message, E, EB, S, SB, na, n, w) && |Y| == n && Linear.Rect(Y, w)
    requires Linear.Solves(S, SB, Y[na..], n - na, w) && Linear.UpperTriangular(S, n - na)
    requires na <= r < n
    ensures Holds(Expand(r, M[r][r..], n), message[r], Y)
  {
    var v := Expand(r, M[r][r..], n);
    var s := S[r - na];
    assert v[na..] == s by {
      forall c | 0 <= c < n - na
        ensures v[na + c] == s[c]
      {
        if na + c < r {
          assert s[c] == 0;
        }
      }
    }
    assert message[r] == SB[r - na];
    forall c | 0 <= c < w
      ensures Linear.Dot(v, Linear.Column(Y, c)) == message[r][c]
    {
      assert Linear.Column(Y[na..], c) == Linear.Column(Y, c)[na..];
      DotSkipZeros(v, Linear.Column(Y, c), na);
    }
  }

  /**
   * The systems pivot_matrix_oneround produces are solved by the packets
   * in the new column order: the diagonalised E with EB, and the solved
   * corner S with SB by the packets from na on.
   */
  lemma PivotedSolves(M0: Matrix, B0: Matrix, X: seq<seq<bv8>>, w: nat,
                      rp: seq<int>, cp: seq<int>, ias: int, na: nat, pos: seq<int>, ops: seq<Linear.RowOp>, ops2: seq<Linear.RowOp>,
                      E: Matrix, EB: Matrix, S: Matrix, SB: Matrix)
    requires |X| <= |M0| && Linear.Rect(M0, |X|) && Messages(B0, |M0|, w) && Linear.Rect(X, w) && AllHold(M0, B0, X)
    requires IsPermutation(cp, |X|) && na == |X| - ias
    requires PivotRounds.Diagonalises(M0, B0, |X|, w, rp, cp, ias, pos, ops, E, EB)
    requires PivotRounds.CornerSolved(PivotRounds.Corner(E, na, na, |X|), PivotRounds.Corner(EB, na, 0, w), ias, w, ops2, S, SB)
    ensures Linear.Solves(E, EB, Reordered(X, cp), |X|, w)
    ensures Linear.Solves(S, SB, Reordered(X, cp)[na..], |X| - na, w)
  {
    var n := |X|;
    var Y := Reordered(X, cp);
    PermutedSolves(M0, B0, X, pos, cp, w);
    Linear.OpsSameSolutions(ops, PivotRounds.Permuted(M0, pos, cp, n), PivotRounds.Permuted(B0, pos, PivotRounds.Identity(w), w), Y, n, w);
    CornerSolves(E, EB, Y, na, n, w);
  }

  /**
   * pivot_matrix_oneround keeps the decoding equations: when every row of
   * the matrix before pivoting was an equation of X (one unknown per
   * column, perhaps more rows than unknowns), every one of the first |X|
   * rows of the pivoted matrix with a nonzero diagonal entry, read from
   * the diagonal on, is an equation of X in the column order cp.
   */
  lemma PivotedRowsHold(M0: Matrix, B0: Matrix, X: seq<seq<bv8>>, M: Matrix, message: Matrix, sg: int, w: nat,
                        rp: seq<int>, cp: seq<int>, ias: int, na: nat, pos: seq<int>, ops: seq<Linear.RowOp>, ops2: seq<Linear.RowOp>,
                        E: Matrix, EB: Matrix, S: Matrix, SB: Matrix)
    requires |X| <= |M0| && Linear.Rect(M0, |X|) && Messages(B0, |M0|, w) && Linear.Rect(X, w) && AllHold(M0, B0, X) && sg >= 1
    requires IsPermutation(cp, |X|) && na == |X| - ias
    requires PivotRounds.Diagonalises(M0, B0, |X|, w, rp, cp, ias, pos, ops, E, EB)
    requires PivotRounds.CornerSolved(PivotRounds.Corner(E, na, na, |X|), PivotRounds.Corner(EB, na, 0, w), ias, w, ops2, S, SB)
    requires PivotedTo(M, message, E, EB, S, SB, na, |X|, w)
    ensures Square(M[..|X|], |X|)
    ensures RowsHold(View(M[..|X|], sg, true), message[..|X|], Reordered(X, cp))
  {
    var n := |X|;
    var Y := Reordered(X, cp);
    PivotedSolves(M0, B0, X, w, rp, cp, ias, na, pos, ops, ops2, E, EB, S, SB);
    var row := View(M[..n], sg, true);
    forall r | 0 <= r < n && row[r].Some?
      ensures Holds(Expand(r, row[r].value, n), message[..n][r], Y)
    {
      assert row[r].value == M[r][r..];
      if r < na {
        ActiveRowHolds(M, message, E, EB, S, SB, na, n, w, Y, r);
      } else {
        InactiveRowHolds(M, message, E, EB, S, SB, na, n, w, Y, r);
      }
    }
  }

  /** The last loop of apply_parity_check_matrix: the number of zero diagonal entries. */
  method MissingDof(M: Matrix) returns (missing: int)
    requires Square(M, |M|)
    ensures missing == |M| - Pivots(M, 0)
  {
    missing := 0;
    var i := |M|;
    while i > 0
      invariant 0 <= i <= |M| && missing == (|M| - i) - Pivots(M, i)
    {
      i := i - 1;
      if M[i][i] == 0 {
        missing := missing + 1;
      }
    }
  }

  /**
   * The column order the decoder keeps: entry i is the packet column i
   * stands for, the inverse of the map otoc the pivoting fills.
   */
  method InvertOrder(otoc: seq<int>, ghost cp: seq<int>) returns (ctoo: seq<int>)
    requires PivotRounds.Inverses(otoc, cp)
    ensures ctoo == cp
  {
    var n := |otoc|;
    var ct := new int[n];
    var j := 0;
    while j < n
      invariant 0 <= j <= n
      invariant forall k :: 0 <= k < j ==> ct[otoc[k]] == k
    {
      ct[otoc[j]] := j;
      j := j + 1;
    }
    ctoo := ct[..];
    forall i | 0 <= i < n
      ensures ctoo[i] == cp[i]
    {
      assert otoc[cp[i]] == i;
    }
  }

  /**
   * The pivoting step of apply_parity_check_matrix with
   * pivot_matrix_oneround, and the count of missing degrees of freedom
   * that follows it.  The decoder keeps the pivoted matrix and messages
   * in the new order, with ctoo the packet each column stands for; missing
   * counts the zero diagonal entries.  When every row was an equation of
   * X before, every row with a nonzero diagonal entry, read from the
   * diagonal on, is an equation of X in the order ctoo.
   */
  method PivotMatrix(M0: Matrix, message0: Matrix, w: nat, sg: int, ghost X: seq<seq<bv8>>)
    returns (M: Matrix, message: Matrix, ctoo: seq<int>, inactivated: int, missing: int)
    requires Square(M0, |M0|) && Messages(message0, |M0|, w) && sg >= 1
    ensures Square(M, |M0|) && Messages(message, |M0|, w) && IsPermutation(ctoo, |M0|)
    ensures missing == |M0| - Pivots(M, 0)
    ensures |X| == |M0| && Linear.Rect(X, w) && AllHold(M0, message0, X) ==>
      RowsHold(View(M, sg, true), message, Reordered(X, ctoo))
  {
    var n := |M0|;
    var A := PivotRounds.ToArray(M0, n, n);
    var B := PivotRounds.ToArray(message0, n, w);
    var otoc := new int[n];
    ghost var na, rp, cp, pos, ops, ops2, E, EB, S, SB;
    inactivated, na, rp, cp, pos, ops, ops2, E, EB, S, SB := PivotRounds.PivotMatrixOneRound(A, B, otoc);
    M, message := PivotRounds.Snapshot(A), PivotRounds.Snapshot(B);
    ctoo := InvertOrder(otoc[..], cp);
    assert PivotedTo(M, message, E, EB, S, SB, na, n, w);
    if |X| == n && Linear.Rect(X, w) && AllHold(M0, message0, X) {
      PivotedRowsHold(M0, message0, X, M, message, sg, w, rp, cp, inactivated, na, pos, ops, ops2, E, EB, S, SB);
      assert M[..n] == M && message[..n] == message;
    }
    missing := MissingDof(M);
  }

  // ---------------------------------------------------------------------
  // process_packet_BD after the precode is applied
  // ---------------------------------------------------------------------

  /** Storing a vector that is zero before its pivot changes the view in that row only. */
  lemma ViewSet(M: Matrix, pivot: nat, v: seq<bv8>, sg: int)
    requires Square(M, |M|) && sg >= 1 && pivot < |M| && |v| == |M| && v[pivot] != 0
    ensures Square(M[pivot := v], |M|)
    ensures View(M[pivot := v], sg, true) == View(M, sg, true)[pivot := Some(v[pivot..])]
  {
    var n := |M|;
    assert Square(M[pivot := v], n);
    var V, W := View(M[pivot := v], sg, true), View(M, sg, true)[pivot := Some(v[pivot..])];
    forall i | 0 <= i < n
      ensures V[i] == W[i]
    {
      if i == pivot {
        assert v[pivot..pivot + (n - pivot)] == v[pivot..];
      } else {
        assert M[pivot := v][i] == M[i];
      }
    }
  }

  /** Storing a vector that is zero before its pivot, cut from the pivot on, keeps the rows equations of X. */
  lemma TailHolds(M: Matrix, message: Matrix, pivot: nat, v: seq<bv8>, msg: seq<bv8>, sg: int, X: seq<seq<bv8>>)
    requires Square(M, |M|) && sg >= 1 && |message| == |M|
    requires RowsHold(View(M, sg, true), message, X) && pivot < |M| == |v| && Holds(v, msg, X)
    requires v[pivot] != 0 && forall k :: 0 <= k < pivot ==> v[k] == 0
    ensures Square(M[pivot := v], |M|)
    ensures RowsHold(View(M[pivot := v], sg, true), message[pivot := msg], X)
  {
    var n := |v|;
    ViewSet(M, pivot, v, sg);
    ExpandSlice(v, pivot, n - pivot);
    assert v[pivot..pivot + (n - pivot)] == v[pivot..];
    RowsHoldSet(View(M, sg, true), message, pivot, v[pivot..], msg, X);
  }

  /**
   * The reduction and store of process_packet_BD once the precode is
   * applied: the scattered vector, read in the column order ctoo, is
   * reduced against each row with a nonzero diagonal entry from the
   * diagonal to the end, and stored with its payload at the first nonzero
   * position without a pivot, which gains one; a vector that reduces to
   * zero changes nothing.  When the rows read from the diagonal are
   * equations of X in the order ctoo and the vector is one of X, so is
   * every row afterwards.
   */
  method StorePivoted(M0: Matrix, message0: Matrix, ctoo: seq<int>, ces: seq<bv8>, msg0: seq<bv8>, sg: int,
                      ghost X: seq<seq<bv8>>)
    returns (pivot: int, M: Matrix, message: Matrix)
    requires Square(M0, |M0|) && Messages(message0, |M0|, |msg0|) && sg >= 1
    requires IsPermutation(ctoo, |M0|) && |ces| == |M0|
    ensures Square(M, |M0|) && Messages(message, |M0|, |msg0|) && -1 <= pivot < |M0|
    ensures pivot == -1 ==> M == M0 && message == message0
    ensures pivot >= 0 ==>
      M0[pivot][pivot] == 0 && M[pivot][pivot] != 0 &&
      M == M0[pivot := M[pivot]] && message == message0[pivot := message[pivot]]
    ensures Pivots(M, 0) == Pivots(M0, 0) + (if pivot >= 0 then 1 else 0)
    ensures |X| == |M0| && RowsHold(View(M0, sg, true), message0, Reordered(X, ctoo)) && Holds(ces, msg0, X) ==>
      RowsHold(View(M, sg, true), message, Reordered(X, ctoo))
    ensures pivot == ReduceFrom(View(M0, sg, true), Reordered(ces, ctoo), 0).0
    ensures pivot >= 0 ==> M[pivot] == ReduceFrom(View(M0, sg, true), Reordered(ces, ctoo), 0).1
  {
    var n := |M0|;
    M, message := M0, message0;
    var u := Reordered(ces, ctoo);
    ghost var Y := if |X| == n then Reordered(X, ctoo) else X;
    ghost var ok := |X| == n && RowsHold(View(M0, sg, true), message0, Y) && Holds(ces, msg0, X);
    if ok {
      HoldsReordered(ces, msg0, X, ctoo);
    }
    var v, msg;
    pivot, v, msg := ReduceStored(View(M0, sg, true), message0, u, msg0, Y, 0, sg);
    if pivot >= 0 {
      PivotsSet(M0, pivot, v, 0);
      if ok {
        TailHolds(M0, message0, pivot, v, msg, sg, Y);
      }
      M := M0[pivot := v];
      message := message0[pivot := msg];
      assert M[pivot] == v;
    }
  }

  // ---------------------------------------------------------------------
  // finish_recovering_BD
  // ---------------------------------------------------------------------

  /** Every stored row is zero after its diagonal entry. */
  predicate DiagonalOnly(row: Rows)
  {
    forall r, t :: 0 <= r < |row| && row[r].Some? && 1 <= t < |row[r].value| ==> row[r].value[t] == 0
  }

  /**
   * The back-substitution loop of finish_recovering_BD, from the last
   * column to the first: the entries above each diagonal are cleared with
   * the row below, which is diagonal by then, and the messages updated
   * alike.  Every row ends diagonal, and the rows stay equations of Y.
   */
  method BackSubstitute(row0: Rows, message0: seq<seq<bv8>>, w: nat, ghost Y: seq<seq<bv8>>)
    returns (row: Rows, message: seq<seq<bv8>>)
    requires Triangular(row0) && Full(row0) && Messages(message0, |row0|, w)
    ensures Triangular(row) && Full(row) && SameShape(row, row0) && Messages(message, |row0|, w) && DiagonalOnly(row)
    ensures RowsHold(row0, message0, Y) ==> RowsHold(row, message, Y)
  {
    row, message := row0, message0;
    var n := |row0|;
    var j := n;
    while j > 0
      invariant 0 <= j <= n && Triangular(row) && Full(row) && SameShape(row, row0) && Messages(message, n, w)
      invariant ClearedFrom(row, j)
      invariant forall r, t :: j <= r < n && 1 <= t < |row[r].value| ==> row[r].value[t] == 0
      invariant RowsHold(row0, message0, Y) ==> RowsHold(row, message, Y)
    {
      j := j - 1;
      ghost var before := row;
      row, message := ClearColumn(row, message, j, Y);
      forall t | 1 <= t < |row[j].value|
        ensures row[j].value[t] == 0
      {
        assert before[j].value[t] == 0;
      }
    }
  }

  /** A diagonal matrix is cleared from every column. */
  lemma DiagonalCleared(row: Rows, i: int)
    requires DiagonalOnly(row)
    ensures ClearedFrom(row, i)
  {
  }

  /**
   * The second loop of finish_recovering_BD: every diagonal entry becomes
   * 1, its message divided by it, and the packet that column stands for
   * is copied out, pp[ctoo[i]] taking message i.  When the rows were
   * equations of Y, the messages are Y.
   */
  method Normalise(row0: Rows, message0: seq<seq<bv8>>, pp0: seq<seq<bv8>>, ctoo: seq<int>, w: nat, ghost Y: seq<seq<bv8>>)
    returns (row: Rows, message: seq<seq<bv8>>, pp: seq<seq<bv8>>)
    requires Triangular(row0) && Full(row0) && Messages(message0, |row0|, w) && DiagonalOnly(row0)
    requires IsPermutation(ctoo, |row0|) && |pp0| == |row0|
    ensures Triangular(row) && Full(row) && SameShape(row, row0) && Messages(message, |row0|, w)
    ensures forall i :: 0 <= i < |row| ==> UnitRow(row[i].value)
    ensures |pp| == |row0| && forall i :: 0 <= i < |row0| ==> pp[ctoo[i]] == message[i]
    ensures RowsHold(row0, message0, Y) && |Y| == |row0| ==> RowsHold(row, message, Y) && message == Y
  {
    row, message, pp := row0, message0, pp0;
    var n := |row0|;
    var i := 0;
    while i < n
      invariant 0 <= i <= n && Triangular(row) && Full(row) && SameShape(row, row0) && Messages(message, n, w)
      invariant DiagonalOnly(row) && |pp| == n
      invariant forall r :: 0 <= r < i ==> UnitRow(row[r].value) && pp[ctoo[r]] == message[r]
      invariant RowsHold(row0, message0, Y) ==> RowsHold(row, message, Y)
    {
      DiagonalCleared(row, i + 1);
      row, message := NormaliseRow(row, message, i, Y);
      assert forall r :: 0 <= r < i ==> ctoo[r] != ctoo[i];
      pp := pp[ctoo[i] := message[i]];
      i := i + 1;
    }
    if RowsHold(row0, message0, Y) && |Y| == n {
      UnitRowsSolve(row, message, Y);
    }
  }

  /** A matrix whose rows read 1 on the diagonal has every pivot. */
  lemma UnitDiagonal(M: Matrix)
    requires Square(M, |M|) && forall i :: 0 <= i < |M| ==> UnitRow(M[i][i..])
    ensures Pivots(M, 0) == |M|
  {
    assert forall i :: 0 <= i < |M| ==> M[i][i] == M[i][i..][0];
    PivotsFull(M, 0);
  }

  /** The matrix with each row from its diagonal on replaced by the stored row. */
  function WithRows(M0: Matrix, row: Rows): (M: Matrix)
    requires Square(M0, |M0|) && |row| == |M0| && Full(row)
    requires forall i :: 0 <= i < |row| ==> |row[i].value| == |M0| - i
    ensures Square(M, |M0|)
    ensures forall i :: 0 <= i < |M0| ==> M[i][..i] == M0[i][..i] && M[i][i..] == row[i].value
  {
    seq(|M0|, i requires 0 <= i < |M0| => M0[i][..i] + row[i].value)
  }

  /** Rows reading 1 on the diagonal and 0 after it, put back into the matrix, are what the view reads; every pivot is present. */
  lemma ViewWithRows(M0: Matrix, row: Rows, sg: int)
    requires Square(M0, |M0|) && |row| == |M0| && Full(row) && sg >= 1
    requires forall i :: 0 <= i < |row| ==> |row[i].value| == |M0| - i && UnitRow(row[i].value)
    ensures View(WithRows(M0, row), sg, true) == row && Pivots(WithRows(M0, row), 0) == |M0|
  {
    var n := |M0|;
    var M := WithRows(M0, row);
    forall i | 0 <= i < n
      ensures View(M, sg, true)[i] == row[i] && UnitRow(M[i][i..])
    {
      assert M[i][i] == row[i].value[0];
      assert M[i][i..i + (n - i)] == M[i][i..];
    }
    UnitDiagonal(M);
  }

  /**
   * finish_recovering_BD on a matrix with every diagonal entry nonzero:
   * back-substitution from the last column, every diagonal entry made 1,
   * and each packet copied out to the position ctoo gives its column.
   * Every row then reads 1 on the diagonal and 0 after it.  When the rows
   * read from the diagonal were equations of X in the order ctoo, the
   * copied packets are X.
   */
  method FinishBd(M0: Matrix, message0: Matrix, pp0: seq<seq<bv8>>, ctoo: seq<int>, sg: int, w: nat, ghost X: seq<seq<bv8>>)
    returns (M: Matrix, message: Matrix, pp: seq<seq<bv8>>)
    requires Square(M0, |M0|) && Messages(message0, |M0|, w) && Pivots(M0, 0) == |M0| && sg >= 1
    requires IsPermutation(ctoo, |M0|) && |pp0| == |M0|
    ensures Square(M, |M0|) && Messages(message, |M0|, w) && |pp| == |M0| && Pivots(M, 0) == |M0|
    ensures forall i :: 0 <= i < |M0| ==> M[i][..i] == M0[i][..i] && UnitRow(M[i][i..])
    ensures forall i :: 0 <= i < |M0| ==> pp[ctoo[i]] == message[i]
    ensures |X| == |M0| && RowsHold(View(M0, sg, true), message0, Reordered(X, ctoo)) ==>
      RowsHold(View(M, sg, true), message, Reordered(X, ctoo)) && pp == X
  {
    var n := |M0|;
    ghost var Y := if |X| == n then Reordered(X, ctoo) else X;
    var row0 := View(M0, sg, true);
    PivotsFull(M0, 0);
    var row;
    row, message := BackSubstitute(row0, message0, w, Y);
    row, message, pp := Normalise(row, message, pp0, ctoo, w, Y);
    M := WithRows(M0, row);
    ViewWithRows(M0, row, sg);
    if |X| == n && RowsHold(row0, message0, Y) {
      Unreordered(X, ctoo, Y, pp);
    }
  }

  /**
   * The precode step of process_packet_BD on a banded matrix with snum
   * nonzero diagonal entries: partially_diag_decoding_matrix, then
   * apply_parity_check_matrix (parity rows into the empty rows, pivoting,
   * counting the zero diagonal entries left).  When every row was an
   * equation of X and the checks of X are the sums of their neighbours,
   * every row with a nonzero diagonal entry, read from the diagonal, is an
   * equation of X in the column order ctoo.
   */
  method Precode(M0: Matrix, message0: Matrix, snum: nat, checks: seq<seq<nat>>, sg: int, w: nat, ghost X: seq<seq<bv8>>)
    returns (M: Matrix, message: Matrix, ctoo: seq<int>, inactivated: int, missing: int)
    requires Banded(M0, sg) && sg >= 1 && Messages(message0, |M0|, w) && |M0| == snum + |checks|
    requires NamesSources(checks, snum) && Pivots(M0, 0) == snum
    ensures Square(M, |M0|) && Messages(message, |M0|, w) && IsPermutation(ctoo, |M0|)
    ensures missing == |M0| - Pivots(M, 0)
    ensures |X| == |M0| && Linear.Rect(X, w) && ChecksAreSums(X, snum, checks, w) && AllHold(M0, message0, X) ==>
      RowsHold(View(M, sg, true), message, Reordered(X, ctoo))
  {
    var n := |M0|;
    var allzeros;
    M, message, allzeros := PartiallyDiag(M0, message0, sg, w, X);
    PivotsSameDiagonal(M0, M, 0);
    forall i, k | 0 <= i < n && 0 <= k < n && M[i][i] == 0
      ensures M[i][k] == 0
    {
      assert M[i] == M0[i];
    }
    M, message := ApplyParity(M, message, snum, checks, w, X);
    M, message, ctoo, inactivated, missing := PivotMatrix(M, message, w, sg, X);
  }

  // ---------------------------------------------------------------------
  // The decoding context
  // ---------------------------------------------------------------------

  /** No diagonal entry from lo on is nonzero: none counts. */
  lemma {:induction false} PivotsNone(M: Matrix, lo: nat)
    requires Square(M, |M|) && forall i :: lo <= i < |M| ==> M[i][i] == 0
    ensures Pivots(M, lo) == 0
    decreases |M| - lo
  {
    if lo < |M| {
      PivotsNone(M, lo + 1);
    }
  }

  /** The matrix create_dec_context_BD allocates: n rows of n zeros, with zero messages. */
  function ZeroMatrix(n: nat, w: nat): (M: Matrix)
    ensures |M| == n && Linear.Rect(M, w) && forall i, k :: 0 <= i < n && 0 <= k < w ==> M[i][k] == 0
  {
    seq(n, _ => Zeros(w))
  }

  /**
   * The zero matrix is banded with no pivot, and each of its rows, with a
   * zero message, is an equation of any X of the right shape.
   */
  lemma ZeroMatrixHolds(n: nat, sg: int, w: nat, X: seq<seq<bv8>>)
    ensures Banded(ZeroMatrix(n, n), sg) && Pivots(ZeroMatrix(n, n), 0) == 0
    ensures |X| == n && Linear.Rect(X, w) ==> AllHold(ZeroMatrix(n, n), ZeroMatrix(n, w), X)
  {
    var M := ZeroMatrix(n, n);
    PivotsNone(M, 0);
    if |X| == n && Linear.Rect(X, w) {
      forall i | 0 <= i < n
        ensures Holds(M[i], ZeroMatrix(n, w)[i], X)
      {
        forall c | 0 <= c < w
          ensures Linear.Dot(M[i], Linear.Column(X, c)) == 0
        {
          Linear.DotZero(M[i], Linear.Column(X, c));
        }
      }
    }
  }

  /**
   * The band decoder's context (struct decoding_context_BD).  Before the
   * precode is applied the matrix is banded and DoF counts its nonzero
   * diagonal entries; afterwards the rows and messages are kept in the
   * order of the pivoting and ctoo gives each position's original column.
   */
  class BdDecoder {
    const meta: Meta
    /** The subgenerations of the code (the context's gene). */
    const gene: seq<Generation>
    /** The left neighbours of each check (the context graph's l_nbrs_of_r). */
    const checks: seq<seq<nat>>
    var finished: bool
    /** DoF: the number of nonzero diagonal entries. */
    var dof: int
    /** Set once the parity-check matrix is applied and the matrix pivoted. */
    var dePrecode: bool
    /** The number of columns the pivoting inactivated. */
    var inactivated: int
    var coefficient: Matrix
    var message: Matrix
    /** After the pivoting: the original column of each position (ctoo_c). */
    var ctoo: seq<int>
    /** The decoded packets (sc->pp), empty until decoding finishes. */
    var pp: seq<seq<bv8>>
    /** The number of packets processed, in all and per subgeneration. */
    var overhead: int
    var overheads: seq<int>

    /** The code being decoded, fixed at creation: a band code, its subgenerations and check lists. */
    ghost predicate Code()
    {
      Accepted(meta) && meta.typ == BandSnc && gene == Groups(meta) &&
      |checks| == meta.cnum && NamesSources(checks, meta.snum)
    }

    /** The structure kept between and inside the steps of decoding. */
    ghost predicate Shape()
      reads this
    {
      Code() && Square(coefficient, meta.snum + meta.cnum) && Messages(message, |coefficient|, meta.sizeP) &&
      |pp| == |coefficient| && IsPermutation(ctoo, |coefficient|) && dof == Pivots(coefficient, 0) &&
      (!dePrecode ==> Banded(coefficient, meta.sizeG)) &&
      overhead >= 0 && |overheads| == meta.gnum
    }

    /**
     * Between packets: before the precode fewer than snum rows are stored,
     * and decoding has finished exactly when every diagonal entry is nonzero.
     */
    ghost predicate Valid()
      reads this
    {
      Shape() && (!dePrecode ==> dof < meta.snum) && (finished <==> dof == |coefficient|)
    }

    /** X could be the encoder's packets: snum + cnum packets of size_p bytes whose checks are the sums of their neighbours. */
    ghost predicate Sources(X: seq<seq<bv8>>)
    {
      |X| == meta.snum + meta.cnum && meta.sizeP >= 0 && Linear.Rect(X, meta.sizeP) &&
      ChecksAreSums(X, meta.snum, checks, meta.sizeP)
    }

    /**
     * Before the precode every row is an equation of X; afterwards every
     * row with a nonzero diagonal entry, read from the diagonal, is an
     * equation of X in the column order ctoo; a finished decoder holds X.
     */
    ghost predicate Consistent(X: seq<seq<bv8>>)
      reads this
    {
      (!dePrecode ==> AllHold(coefficient, message, X)) &&
      (dePrecode ==>
         Square(coefficient, |coefficient|) && meta.sizeG >= 1 && |X| == |coefficient| && IsPermutation(ctoo, |X|) &&
         RowsHold(View(coefficient, meta.sizeG, true), message, Reordered(X, ctoo))) &&
      (finished ==> pp == X)
    }

    constructor (m: Meta, g: seq<Generation>, lists: seq<seq<nat>>, n: nat)
      requires m.sizeP >= 0 && m.gnum >= 0
      ensures meta == m && gene == g && checks == lists
      ensures !finished && dof == 0 && !dePrecode && inactivated == 0 && overhead == 0
      ensures coefficient == ZeroMatrix(n, n) && message == ZeroMatrix(n, m.sizeP)
      ensures ctoo == PivotRounds.Identity(n) && pp == seq(n, _ => []) && overheads == seq(m.gnum, _ => 0)
    {
      meta, gene, checks := m, g, lists;
      finished, dof, dePrecode, inactivated, overhead := false, 0, false, 0, 0;
      coefficient, message := ZeroMatrix(n, n), ZeroMatrix(n, m.sizeP);
      ctoo := PivotRounds.Identity(n);
      pp := seq(n, _ => []);
      overheads := seq(m.gnum, _ => 0);
    }

    /**
     * create_dec_context_BD: null for a code that is not a band code or
     * whose parameters are rejected; otherwise a zero matrix with zero
     * messages and no DoF, consistent with every X of the right shape.
     */
    static method Create(sp: Parameter, cnum: int) returns (d: BdDecoder?)
      requires sp.sizeP > 0 && sp.sizeB > 0 && sp.datasize >= 0 && cnum >= 0
      ensures d == null <==> sp.typ != BandSnc || !ParameterValid(Sizing(sp, cnum))
      ensures d != null ==> fresh(d) && d.Valid() && d.meta == Sizing(sp, cnum)
      ensures d != null ==> d.meta.snum >= 0 && d.meta.cnum >= 0 && d.checks == DecoderCbd.GraphLists(d.meta.snum, d.meta.cnum)
      ensures d != null ==> d.dof == 0 && !d.finished && !d.dePrecode && d.overhead == 0
      ensures d != null ==> d.coefficient == ZeroMatrix(|d.coefficient|, |d.coefficient|) &&
                            d.message == ZeroMatrix(|d.coefficient|, sp.sizeP)
      ensures d != null ==> forall X :: d.Sources(X) ==> d.Consistent(X)
    {
      if sp.typ != BandSnc {
        return null;
      }
      var sc := EncContext.Create(sp, cnum, None);
      if sc == null {
        return null;
      }
      var m := sc.meta;
      AcceptedSizes(m);
      DecoderCbd.ContextLists(sc);
      var lists := sc.CheckLists();
      var n := m.snum + m.cnum;
      d := new BdDecoder(m, sc.gene, lists, n);
      ZeroMatrixHolds(n, m.sizeG, m.sizeP, []);
      forall X | d.Sources(X)
        ensures d.Consistent(X)
      {
        ZeroMatrixHolds(n, m.sizeG, m.sizeP, X);
      }
    }

    /**
     * The precode step of process_packet_BD at snum DoF: partially
     * diagonalise, give every empty row the parity-check vector of one
     * check, pivot, and take DoF as the nonzero diagonal entries.  When
     * every row was an equation of X, every row read from its diagonal is
     * one of X in the column order ctoo afterwards.
     */
    method ApplyPrecode(ghost X: seq<seq<bv8>>)
      requires Shape() && !dePrecode && dof == meta.snum && !finished
      modifies this`coefficient, this`message, this`ctoo, this`inactivated, this`dof, this`dePrecode
      ensures Shape() && dePrecode && !finished
      ensures Sources(X) && old(Consistent(X)) ==> Consistent(X)
    {
      var n := |coefficient|;
      var M, msgs, order, inact, missing := Precode(coefficient, message, meta.snum, checks, meta.sizeG, meta.sizeP, X);
      coefficient, message, ctoo, inactivated := M, msgs, order, inact;
      dof := n - missing;
      dePrecode := true;
    }

    /**
     * finish_recovering_BD: back-substitution, every diagonal entry made
     * 1, each packet copied out to its original position; decoding is
     * finished.  A decoder consistent with X then holds X.
     */
    method FinishRecovering(ghost X: seq<seq<bv8>>)
      requires Shape() && dePrecode && dof == |coefficient|
      modifies this`coefficient, this`message, this`pp, this`finished
      ensures Shape() && finished && dof == |coefficient|
      ensures forall i :: 0 <= i < |coefficient| ==> UnitRow(coefficient[i][i..]) && pp[ctoo[i]] == message[i]
      ensures old(Consistent(X)) ==> Consistent(X) && pp == X
    {
      var n := |coefficient|;
      var M, msgs, out := FinishBd(coefficient, message, pp, ctoo, meta.sizeG, meta.sizeP, X);
      coefficient, message, pp := M, msgs, out;
      finished := true;
    }

    /**
     * The reduction and store of process_packet_BD: banded before the
     * precode, in the pivoted order after it; a stored vector adds one
     * DoF.  A vector that is an equation of X, inside the band of its
     * subgeneration before the precode, keeps the decoder consistent.
     */
    method StoreVector(ces: seq<bv8>, msg0: seq<bv8>, ghost lead: int, ghost X: seq<seq<bv8>>) returns (pivot: int)
      requires Shape() && |ces| == |coefficient| && |msg0| == meta.sizeP && (!dePrecode ==> Window(ces, lead, meta.sizeG))
      modifies this`coefficient, this`message, this`dof
      ensures Shape() && |coefficient| == |old(coefficient)| && -1 <= pivot < |coefficient|
      ensures pivot == -1 ==> coefficient == old(coefficient) && message == old(message) && dof == old(dof)
      ensures pivot >= 0 ==>
        old(coefficient)[pivot][pivot] == 0 && coefficient == old(coefficient)[pivot := coefficient[pivot]] &&
        message == old(message)[pivot := message[pivot]] && dof == old(dof) + 1
      ensures old(Consistent(X)) && Holds(ces, msg0, X) ==> Consistent(X)
      ensures meta.sizeG >= 1
      ensures var (row0, u) := Reading(old(coefficient), ctoo, ces, meta.sizeG, dePrecode);
        pivot == ReduceFrom(row0, u, 0).0 && (pivot >= 0 ==> coefficient[pivot] == ReduceFrom(row0, u, 0).1)
    {
      var M, msgs;
      if !dePrecode {
        pivot, M, msgs := StoreBanded(coefficient, message, ces, msg0, meta.sizeG, lead, X);
      } else {
        pivot, M, msgs := StorePivoted(coefficient, message, ctoo, ces, msg0, meta.sizeG, X);
      }
      coefficient, message := M, msgs;
      if pivot >= 0 {
        dof := dof + 1;
      }
    }

    /**
     * The end of process_packet_BD: at snum DoF before the precode, apply
     * it; at snum + cnum DoF, finish.  Consistency with X is kept.
     */
    method CheckProgress(ghost X: seq<seq<bv8>>)
      requires Shape() && (!dePrecode ==> dof <= meta.snum && !finished) && (finished ==> dof == |coefficient|)
      modifies this`coefficient, this`message, this`ctoo, this`inactivated, this`dof, this`dePrecode, this`pp, this`finished
      ensures Valid() && (old(dePrecode) ==> dePrecode && old(dof) <= dof) && (old(finished) ==> finished)
      ensures Sources(X) && old(Consistent(X)) ==> Consistent(X)
    {
      if !dePrecode && dof == meta.snum {
        ApplyPrecode(X);
      }
      if dof == |coefficient| {
        FinishRecovering(X);
      }
    }

    /**
     * The first part of process_packet_BD: the packet's coefficients
     * scattered over the members of its subgeneration, then reduced and
     * stored.  DoF does not decrease, and a packet coded from X keeps the
     * decoder consistent with X.
     */
    method StorePacket(pkt: Packet, ghost X: seq<seq<bv8>>) returns (pivot: int, ces: seq<bv8>)
      requires Valid()
      requires 0 <= pkt.gid < meta.gnum && |pkt.coes| == CoesLength(meta) && |pkt.syms| == meta.sizeP
      modifies this`coefficient, this`message, this`dof
      ensures Shape() && (!dePrecode ==> dof <= meta.snum && !finished) && (finished ==> dof == |coefficient|)
      ensures old(dof) <= dof && -1 <= pivot < |coefficient| == |old(coefficient)|
      ensures Sources(X) && old(Consistent(X)) && DecoderCbd.Encoded(meta, X, pkt) ==> Consistent(X)
      ensures pivot == -1 ==> coefficient == old(coefficient) && message == old(message) && dof == old(dof)
      ensures pivot >= 0 ==> coefficient == old(coefficient)[pivot := coefficient[pivot]] && dof == old(dof) + 1
      ensures meta.sizeG >= 1 && |gene[pkt.gid].pktid| == meta.sizeG && InPackets(gene[pkt.gid].pktid, |coefficient|)
      ensures ces == Assigned(Coefficients(meta, pkt.coes), gene[pkt.gid].pktid, |coefficient|, meta.sizeG)
      ensures var (row0, u) := Reading(old(coefficient), ctoo, ces, meta.sizeG, dePrecode);
        pivot == ReduceFrom(row0, u, 0).0 && (pivot >= 0 ==> coefficient[pivot] == ReduceFrom(row0, u, 0).1)
    {
      var n := |coefficient|;
      ces := DecoderCbd.FullVector(meta, gene, pkt, X);
      pivot := StoreVector(ces, pkt.syms, BandLead(pkt.gid, meta.sizeB, meta.sizeG, n), X);
    }

    /**
     * process_packet_BD: count the packet, scatter its coefficients,
     * reduce and store the vector; at snum DoF apply the precode, at
     * snum + cnum DoF finish.  A packet coded from the encoder's packets X
     * keeps the decoder consistent with X, so a finished decoder holds X.
     */
    method ProcessPacket(pkt: Packet, ghost X: seq<seq<bv8>>)
      requires Valid()
      requires 0 <= pkt.gid < meta.gnum && |pkt.coes| == CoesLength(meta) && |pkt.syms| == meta.sizeP
      modifies this
      ensures Valid()
      ensures overhead == old(overhead) + 1 && overheads == old(overheads)[pkt.gid := old(overheads)[pkt.gid] + 1]
      ensures (old(dePrecode) ==> dePrecode && old(dof) <= dof) && (old(finished) ==> finished)
      ensures Sources(X) && old(Consistent(X)) && DecoderCbd.Encoded(meta, X, pkt) ==> Consistent(X)
    {
      var pivot, ces := StorePacket(pkt, X);
      CheckProgress(X);
      overhead := overhead + 1;
      overheads := overheads[pkt.gid := overheads[pkt.gid] + 1];
    }
  }
}
