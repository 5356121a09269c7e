/**
 * pivot_matrix_oneround and pivot_matrix_tworound of src/pivoting.c.  Both
 * work on copies of the nrow x ncolA matrix A and the nrow x ncolB matrix
 * B: inactivation pivoting chooses the pivots, reshape_matrix moves them to
 * the diagonal, and the ncolA-ias active columns (lower triangular after
 * the reordering) are diagonalised by row additions that touch only the
 * diagonal entry being cleared, the ias inactive columns and B.  The
 * (nrow-ncolA+ias) x ias corner below and right of the active part is then
 * brought to upper triangular form by forward_substitute (the two-round
 * variant reorders it first), and the result is written back into A and B.
 */
module PivotRounds {
  import opened Linear
  import opened GaloisArith
  import GaloisPrimitive
  import Gaussian
  import Grouping
  import opened Pivoting
  import PivotReshape

  // ---------------------------------------------------------------------
  // Matrices and index maps
  // ---------------------------------------------------------------------

  /** The contents of M as a matrix (the rows of ces_matrix pivoting reads). */
  function Snapshot(M: array2<bv8>): (R: Matrix)
    reads M
    ensures |R| == M.Length0 && Rect(R, M.Length1)
    ensures forall r, c :: 0 <= r < M.Length0 && 0 <= c < M.Length1 ==> R[r][c] == M[r, c]
  {
    seq(M.Length0, r requires 0 <= r < M.Length0 reads M => seq(M.Length1, c requires 0 <= c < M.Length1 reads M => M[r, c]))
  }

  /** The matrix M as a rows x cols array, the form the pivoting routines work on. */
  method ToArray(M: Matrix, rows: nat, cols: nat) returns (A: array2<bv8>)
    requires |M| == rows && Rect(M, cols)
    ensures fresh(A) && A.Length0 == rows && A.Length1 == cols && Snapshot(A) == M
  {
    A := new bv8[rows, cols];
    var r := 0;
    while r < rows
      invariant 0 <= r <= rows
      invariant forall r', c :: 0 <= r' < r && 0 <= c < cols ==> A[r', c] == M[r'][c]
    {
      var c := 0;
      while c < cols
        invariant 0 <= c <= cols
        invariant forall r', c' :: 0 <= r' < r && 0 <= c' < cols ==> A[r', c'] == M[r'][c']
        invariant forall c' :: 0 <= c' < c ==> A[r, c'] == M[r][c']
      {
        A[r, c] := M[r][c];
        c := c + 1;
      }
      r := r + 1;
    }
    assert forall r' :: 0 <= r' < rows ==> Snapshot(A)[r'] == M[r'];
  }

  /** 0, 1, .., n-1. */
  function Identity(n: nat): (p: seq<int>)
    ensures |p| == n && forall i :: 0 <= i < n ==> p[i] == i
  {
    seq(n, i => i)
  }

  /** Row r of the result is row pos[r] of M, restricted to the columns cp in that order. */
  ghost function Permuted(M: Matrix, pos: seq<int>, cp: seq<int>, ncol: nat): (R: Matrix)
    requires Rect(M, ncol)
    requires forall r :: 0 <= r < |pos| ==> 0 <= pos[r] < |M|
    requires forall c :: 0 <= c < |cp| ==> 0 <= cp[c] < ncol
    ensures |R| == |pos| && Rect(R, |cp|)
  {
    seq(|pos|, r requires 0 <= r < |pos| => seq(|cp|, c requires 0 <= c < |cp| => M[pos[r]][cp[c]]))
  }

  /** The block of M from row r0 and column c0 on. */
  ghost function Corner(M: Matrix, r0: nat, c0: nat, ncol: nat): (R: Matrix)
    requires r0 <= |M| && c0 <= ncol && Rect(M, ncol)
    ensures |R| == |M| - r0 && Rect(R, ncol - c0)
  {
    seq(|M| - r0, r requires 0 <= r < |M| - r0 => seq(ncol - c0, c requires 0 <= c < ncol - c0 => M[r0 + r][c0 + c]))
  }

  /** otoc and ctoo are inverse permutations: otoc[ctoo[i]] == i and ctoo[otoc[j]] == j. */
  ghost predicate Inverses(otoc: seq<int>, ctoo: seq<int>)
  {
    |otoc| == |ctoo| && IsPermutation(ctoo, |ctoo|) &&
    (forall i :: 0 <= i < |ctoo| ==> otoc[ctoo[i]] == i) &&
    (forall j :: 0 <= j < |otoc| ==> 0 <= otoc[j] < |ctoo| && ctoo[otoc[j]] == j)
  }

  /** n distinct values have n elements as a set. */
  lemma {:induction false} DistinctValues(p: seq<int>)
    requires Grouping.Distinct(p)
    ensures |set x | x in p| == |p|
  {
    if |p| > 0 {
      var q := p[..|p| - 1];
      assert Grouping.Distinct(q);
      DistinctValues(q);
      assert (set x | x in p) == (set x | x in q) + {p[|p| - 1]};
      assert p[|p| - 1] !in q;
    }
  }

  /** A permutation of 0 .. n-1 names every one of them. */
  lemma PermutationCovers(p: seq<int>, n: nat)
    requires IsPermutation(p, n)
    ensures forall j :: 0 <= j < n ==> j in p
  {
    var s := set x | x in p;
    DistinctValues(p);
    RangeSize(0, n);
    assert s <= Range(0, n);
    SubsetOfSameSize(s, Range(0, n));
    forall j | 0 <= j < n
      ensures j in p
    {
      assert InRange(j, 0, n) && j in Range(0, n);
    }
  }

  /** Writing otoc[ctoo[i]] = i for a permutation ctoo makes otoc its inverse. */
  lemma InverseFromLeft(otoc: seq<int>, ctoo: seq<int>)
    requires |otoc| == |ctoo| && IsPermutation(ctoo, |ctoo|)
    requires forall i :: 0 <= i < |ctoo| ==> otoc[ctoo[i]] == i
    ensures Inverses(otoc, ctoo)
  {
    PermutationCovers(ctoo, |ctoo|);
    forall j | 0 <= j < |otoc|
      ensures 0 <= otoc[j] < |ctoo| && ctoo[otoc[j]] == j
    {
      assert j in ctoo;
      var m :| 0 <= m < |ctoo| && ctoo[m] == j;
    }
  }

  /**
   * The loop of both rounds that walks the column pivot list: otoc[cp[i]]
   * = i and ctoo[i] = cp[i], so the two are inverse permutations.
   */
  method ColumnOrder(cp: seq<int>, otoc: array<int>) returns (ctoo: array<int>)
    requires IsPermutation(cp, otoc.Length)
    modifies otoc
    ensures fresh(ctoo) && ctoo[..] == cp && Inverses(otoc[..], ctoo[..])
  {
    ctoo := new int[otoc.Length];
    var i := 0;
    while i < otoc.Length
      invariant 0 <= i <= otoc.Length
      invariant forall m :: 0 <= m < i ==> ctoo[m] == cp[m] && otoc[cp[m]] == m
    {
      otoc[cp[i]] := i;
      ctoo[i] := cp[i];
      i := i + 1;
    }
    assert ctoo[..] == cp;
    InverseFromLeft(otoc[..], ctoo[..]);
  }

  /** calloc and memcpy of the block of M from row r0 and column c0 on. */
  method CopyCorner(M: array2<bv8>, r0: nat, c0: nat) returns (C: array2<bv8>)
    requires r0 <= M.Length0 && c0 <= M.Length1
    ensures fresh(C) && C.Length0 == M.Length0 - r0 && C.Length1 == M.Length1 - c0
    ensures forall r, c :: 0 <= r < C.Length0 && 0 <= c < C.Length1 ==> C[r, c] == M[r0 + r, c0 + c]
  {
    C := new bv8[M.Length0 - r0, M.Length1 - c0]((r, c) requires 0 <= r < M.Length0 - r0 && 0 <= c < M.Length1 - c0 reads M => M[r0 + r, c0 + c]);
  }

  // ---------------------------------------------------------------------
  // Diagonalising the active part
  // ---------------------------------------------------------------------

  /**
   * The active part while its column i is cleared: nonzero diagonal in
   * the first na columns, zeros above it, and zeros below it in the
   * columns before i.
   */
  ghost predicate Triangle(C: array2<bv8>, na: nat, i: nat)
    reads C
    requires i <= na <= C.Length0 && na <= C.Length1
  {
    (forall d :: 0 <= d < na ==> C[d, d] != 0) &&
    (forall r, c :: 0 <= r < c < na ==> C[r, c] == 0) &&
    (forall r, c :: 0 <= c < i && c < r < C.Length0 ==> C[r, c] == 0)
  }

  /** galois_multiply_add_region on the inactive columns na .. of row j: row j gains q times row i there. */
  method AddInactive(C: array2<bv8>, j: nat, i: nat, q: bv8, na: nat)
    requires i < C.Length0 && j < C.Length0 && i != j && na <= C.Length1
    modifies C
    ensures forall r, c :: 0 <= r < C.Length0 && 0 <= c < C.Length1 && (r != j || c < na) ==> C[r, c] == old(C[r, c])
    ensures forall c :: na <= c < C.Length1 ==> C[j, c] == Add(old(C[j, c]), Mul(old(C[i, c]), q))
  {
    var m := na;
    while m < C.Length1
      invariant na <= m <= C.Length1
      invariant forall r, c :: 0 <= r < C.Length0 && 0 <= c < C.Length1 && r != j ==> C[r, c] == old(C[r, c])
      invariant forall c :: 0 <= c < C.Length1 && (c < na || c >= m) ==> C[j, c] == old(C[j, c])
      invariant forall c :: na <= c < m ==> C[j, c] == Add(old(C[j, c]), Mul(old(C[i, c]), q))
    {
      C[j, m] := C[j, m] ^ Mul(C[i, m], q);
      m := m + 1;
    }
  }

  /**
   * The body of the active-part loop for entry (j, i): when it is nonzero,
   * row j gains (C[j][i] / C[i][i]) times row i in the inactive columns
   * and in B, and C[j][i] is set to 0.  Since row i is zero in the active
   * part apart from its diagonal, this is the whole row addition.
   */
  method EliminateEntry(C: array2<bv8>, Bm: array2<bv8>, i: nat, j: nat, na: nat,
                        ghost R0: Matrix, ghost B0: Matrix, ghost ops0: seq<RowOp>)
    returns (ghost ops: seq<RowOp>)
    requires C != Bm && C.Length0 == Bm.Length0 && na <= C.Length0 && na <= C.Length1 && i < na && i < j < C.Length0
    requires Triangle(C, na, i)
    requires Gaussian.Holds(C, ApplyOps(ops0, R0), C.Length0, C.Length1)
    requires Gaussian.Holds(Bm, ApplyOps(ops0, B0), Bm.Length0, Bm.Length1)
    requires AllProper(ops0, C.Length0)
    modifies C, Bm
    ensures Gaussian.Holds(C, ApplyOps(ops, R0), C.Length0, C.Length1)
    ensures Gaussian.Holds(Bm, ApplyOps(ops, B0), Bm.Length0, Bm.Length1)
    ensures AllProper(ops, C.Length0) && C[j, i] == 0
    ensures forall r, c :: 0 <= r < C.Length0 && 0 <= c < na && (r != j || c != i) ==> C[r, c] == old(C[r, c])
  {
    if C[j, i] == 0 {
      return ops0;
    }
    GaloisPrimitive.PowersAreDistinct();
    var q := Div(C[j, i], C[i, i]);
    ghost var R := ApplyOps(ops0, R0);
    Gaussian.Clears(C[j, i], C[i, i]);
    MulZero(q);
    AddInactive(C, j, i, q, na);
    Gaussian.AddRowTo(Bm, j, i, q, Bm.Length0, Bm.Length1, ApplyOps(ops0, B0));
    C[j, i] := 0;
    forall c | 0 <= c < C.Length1
      ensures C[j, c] == Add(R[j][c], Mul(R[i][c], q))
    {
      if c < na && c != i {
        assert R[i][c] == 0;
      }
    }
    Gaussian.AddRowHolds(C, R, j, i, q, C.Length0, C.Length1);
    ApplyOpsSnoc(ops0, AddRow(j, i, q), R0);
    ApplyOpsSnoc(ops0, AddRow(j, i, q), B0);
    ops := ops0 + [AddRow(j, i, q)];
  }

  /** The inner loop of the active part: column i is cleared below the diagonal. */
  method EliminateColumn(C: array2<bv8>, Bm: array2<bv8>, i: nat, na: nat,
                         ghost R0: Matrix, ghost B0: Matrix, ghost ops0: seq<RowOp>)
    returns (ghost ops: seq<RowOp>)
    requires C != Bm && C.Length0 == Bm.Length0 && na <= C.Length0 && na <= C.Length1 && i < na
    requires Triangle(C, na, i)
    requires Gaussian.Holds(C, ApplyOps(ops0, R0), C.Length0, C.Length1)
    requires Gaussian.Holds(Bm, ApplyOps(ops0, B0), Bm.Length0, Bm.Length1)
    requires AllProper(ops0, C.Length0)
    modifies C, Bm
    ensures Gaussian.Holds(C, ApplyOps(ops, R0), C.Length0, C.Length1)
    ensures Gaussian.Holds(Bm, ApplyOps(ops, B0), Bm.Length0, Bm.Length1)
    ensures AllProper(ops, C.Length0) && Triangle(C, na, i + 1)
  {
    ops := ops0;
    var j := i + 1;
    while j < C.Length0
      invariant i + 1 <= j <= C.Length0
      invariant Triangle(C, na, i) && forall r :: i < r < j ==> C[r, i] == 0
      invariant Gaussian.Holds(C, ApplyOps(ops, R0), C.Length0, C.Length1)
      invariant Gaussian.Holds(Bm, ApplyOps(ops, B0), Bm.Length0, Bm.Length1)
      invariant AllProper(ops, C.Length0)
    {
      ops := EliminateEntry(C, Bm, i, j, na, R0, B0, ops);
      j := j + 1;
    }
  }

  /**
   * The active-part loop of both rounds: row additions, applied to C and
   * B alike, leave the first na columns diagonal with nonzero diagonal.
   */
  method EliminateActive(C: array2<bv8>, Bm: array2<bv8>, na: nat, ghost R0: Matrix, ghost B0: Matrix)
    returns (ghost ops: seq<RowOp>, ghost E: Matrix, ghost EB: Matrix)
    requires C != Bm && C.Length0 == Bm.Length0 && na <= C.Length0 && na <= C.Length1
    requires Triangle(C, na, 0)
    requires R0 == Gaussian.Block(C, C.Length0, C.Length1) && B0 == Gaussian.Block(Bm, Bm.Length0, Bm.Length1)
    modifies C, Bm
    ensures AllProper(ops, C.Length0) && Diagonalised(E, na)
    ensures E == Gaussian.Block(C, C.Length0, C.Length1) && E == ApplyOps(ops, R0)
    ensures EB == Gaussian.Block(Bm, Bm.Length0, Bm.Length1) && EB == ApplyOps(ops, B0)
  {
    Gaussian.BlockHolds(C, C.Length0, C.Length1);
    Gaussian.BlockHolds(Bm, Bm.Length0, Bm.Length1);
    ops := [];
    var i := 0;
    while i < na
      invariant 0 <= i <= na && Triangle(C, na, i)
      invariant Gaussian.Holds(C, ApplyOps(ops, R0), C.Length0, C.Length1)
      invariant Gaussian.Holds(Bm, ApplyOps(ops, B0), Bm.Length0, Bm.Length1)
      invariant AllProper(ops, C.Length0)
    {
      ops := EliminateColumn(C, Bm, i, na, R0, B0, ops);
      i := i + 1;
    }
    Gaussian.HoldsBlock(C, ApplyOps(ops, R0), C.Length0, C.Length1);
    Gaussian.HoldsBlock(Bm, ApplyOps(ops, B0), Bm.Length0, Bm.Length1);
    E, EB := Gaussian.Block(C, C.Length0, C.Length1), Gaussian.Block(Bm, Bm.Length0, Bm.Length1);
    forall r, c | 0 <= r < |E| && 0 <= c < na && c < |E[r]|
      ensures E[r][c] == 0 <==> r != c
    {
      assert E[r][c] == C[r, c];
    }
  }


  // ---------------------------------------------------------------------
  // The rounds
  // ---------------------------------------------------------------------

  /** The first na columns of E are diagonal, with nonzero diagonal entries. */
  ghost predicate Diagonalised(E: Matrix, na: nat)
  {
    forall r, c :: 0 <= r < |E| && 0 <= c < na && c < |E[r]| ==> (E[r][c] == 0 <==> r != c)
  }

  /**
   * What the first round of both drivers makes of the input (A0, B0): for
   * the pivot sequence (rp, cp, ias) and the row placement pos, E and EB
   * are the reordered matrices after the proper row operations ops, and E
   * is diagonal in its ncolA - ias active columns.
   */
  ghost predicate Diagonalises(A0: Matrix, B0: Matrix, ncolA: nat, ncolB: nat, rp: seq<int>, cp: seq<int>, ias: int,
                               pos: seq<int>, ops: seq<RowOp>, E: Matrix, EB: Matrix)
  {
    PivotSequence(A0, |A0|, ncolA, rp, cp, ias) && ncolA <= |A0| && |B0| == |A0| && Rect(B0, ncolB) &&
    IsPermutation(pos, |A0|) && (forall k :: 0 <= k < ncolA ==> pos[k] == rp[k]) && AllProper(ops, |A0|) &&
    |E| == |A0| && Rect(E, ncolA) && |EB| == |A0| && Rect(EB, ncolB) &&
    E == ApplyOps(ops, Permuted(A0, pos, cp, ncolA)) &&
    EB == ApplyOps(ops, Permuted(B0, pos, Identity(ncolB), ncolB)) &&
    Diagonalised(E, ncolA - ias)
  }

  /**
   * What forward substitution makes of the corner (C, CB) in n unknowns:
   * S and SB, reached from it by the proper row operations ops2, are upper
   * triangular and have the same solutions.
   */
  ghost predicate CornerSolved(C: Matrix, CB: Matrix, n: nat, w: nat, ops2: seq<RowOp>, S: Matrix, SB: Matrix)
  {
    AllProper(ops2, |C|) && S == ApplyOps(ops2, C) && SB == ApplyOps(ops2, CB) && UpperTriangular(S, n) &&
    forall X :: Solves(C, CB, X, n, w) <==> Solves(S, SB, X, n, w)
  }

  /**
   * The write-back of both rounds: the rows above na are the working
   * matrix W, rows na .. top-1 take the corner S from column c0 on, and
   * everything else keeps what M0 held.
   */
  ghost predicate WrittenBack(M: array2<bv8>, M0: Matrix, W: Matrix, S: Matrix, na: nat, top: nat, c0: nat)
    reads M
  {
    |M0| == M.Length0 && |W| == M.Length0 && Rect(M0, M.Length1) && Rect(W, M.Length1) &&
    na <= top <= M.Length0 && c0 <= M.Length1 && top - na <= |S| && Rect(S, M.Length1 - c0) &&
    forall r, c :: 0 <= r < M.Length0 && 0 <= c < M.Length1 ==>
      M[r, c] == (if r < na then W[r][c] else if r < top && c >= c0 then S[r - na][c - c0] else M0[r][c])
  }

  /** One memcpy of the write-back: row r of M from column c0 on takes row sr of Src. */
  method CopyRow(M: array2<bv8>, r: nat, c0: nat, Src: array2<bv8>, sr: nat)
    requires M != Src && r < M.Length0 && sr < Src.Length0 && c0 <= M.Length1 && Src.Length1 == M.Length1 - c0
    modifies M
    ensures forall i, c :: 0 <= i < M.Length0 && 0 <= c < M.Length1 ==>
      M[i, c] == (if i == r && c >= c0 then Src[sr, c - c0] else old(M[i, c]))
  {
    var k := c0;
    while k < M.Length1
      invariant c0 <= k <= M.Length1
      invariant forall i, c :: 0 <= i < M.Length0 && 0 <= c < M.Length1 ==>
        M[i, c] == (if i == r && c0 <= c < k then Src[sr, c - c0] else old(M[i, c]))
    {
      M[r, k] := Src[sr, k - c0];
      k := k + 1;
    }
  }

  /**
   * The write-back loops of both rounds: rows i < na of M become the
   * working copy W, rows na <= i < top take row i-na of Sub from column
   * c0 on.
   */
  method WriteBack(M: array2<bv8>, W: array2<bv8>, Sub: array2<bv8>, na: nat, top: nat, c0: nat)
    requires M != W && M != Sub && W.Length0 == M.Length0 && W.Length1 == M.Length1
    requires na <= top <= M.Length0 && c0 <= M.Length1 && Sub.Length0 == M.Length0 - na && Sub.Length1 == M.Length1 - c0
    modifies M
    ensures forall r, c :: 0 <= r < M.Length0 && 0 <= c < M.Length1 ==>
      M[r, c] == (if r < na then W[r, c] else if r < top && c >= c0 then Sub[r - na, c - c0] else old(M[r, c]))
  {
    var i := 0;
    while i < na
      invariant 0 <= i <= na
      invariant forall r, c :: 0 <= r < M.Length0 && 0 <= c < M.Length1 ==>
        M[r, c] == (if r < i then W[r, c] else old(M[r, c]))
    {
      CopyRow(M, i, 0, W, i);
      i := i + 1;
    }
    while i < top
      invariant na <= i <= top
      invariant forall r, c :: 0 <= r < M.Length0 && 0 <= c < M.Length1 ==>
        M[r, c] == (if r < na then W[r, c] else if r < i && c >= c0 then Sub[r - na, c - c0] else old(M[r, c]))
    {
      CopyRow(M, i, c0, Sub, i - na);
      i := i + 1;
    }
  }

  /** After reshape_matrix the active part is lower triangular with nonzero diagonal. */
  lemma ReshapedTriangle(C: array2<bv8>, A0: Matrix, pos: seq<int>, rp: seq<int>, cp: seq<int>, ias: int)
    requires PivotSequence(A0, C.Length0, C.Length1, rp, cp, ias) && C.Length1 <= C.Length0
    requires |pos| == C.Length0 && forall k :: 0 <= k < C.Length1 ==> pos[k] == rp[k]
    requires forall r, c :: 0 <= r < C.Length0 && 0 <= c < C.Length1 ==> 0 <= pos[r] < C.Length0 && C[r, c] == A0[pos[r]][cp[c]]
    ensures Triangle(C, C.Length1 - ias, 0)
  {
  }

  /** A copy has the same contents. */
  lemma SameSnapshot(C: array2<bv8>, M: array2<bv8>)
    requires C.Length0 == M.Length0 && C.Length1 == M.Length1
    requires forall r, c :: 0 <= r < C.Length0 && 0 <= c < C.Length1 ==> C[r, c] == M[0 + r, 0 + c]
    ensures Snapshot(C) == Snapshot(M)
  {
    forall r | 0 <= r < C.Length0
      ensures Snapshot(C)[r] == Snapshot(M)[r]
    {
    }
  }

  /** The reordered array holds the permuted matrix. */
  lemma ReshapedBlock(C: array2<bv8>, M: Matrix, pos: seq<int>, cp: seq<int>, ncol: nat)
    requires Rect(M, ncol) && |pos| == C.Length0 && |cp| == C.Length1
    requires forall r :: 0 <= r < |pos| ==> 0 <= pos[r] < |M|
    requires forall c :: 0 <= c < |cp| ==> 0 <= cp[c] < ncol
    requires forall r, c :: 0 <= r < C.Length0 && 0 <= c < C.Length1 ==> C[r, c] == M[pos[r]][cp[c]]
    ensures Gaussian.Block(C, C.Length0, C.Length1) == Permuted(M, pos, cp, ncol)
  {
    var P := Permuted(M, pos, cp, ncol);
    forall r | 0 <= r < C.Length0
      ensures Gaussian.Block(C, C.Length0, C.Length1)[r] == P[r]
    {
    }
  }

  /**
   * inactivation_pivoting on the working copy C, then the loop over the
   * column pivot list that fills otoc and ctoo.
   */
  method ChoosePivots(C: array2<bv8>, otoc: array<int>)
    returns (rowPivots: SubscriptList, colPivots: SubscriptList, ctoo: array<int>, ias: int)
    requires C.Length1 <= C.Length0 && otoc.Length == C.Length1
    modifies otoc
    ensures fresh(rowPivots) && fresh(colPivots) && fresh(ctoo) && rowPivots != colPivots
    ensures PivotSequence(Snapshot(C), C.Length0, C.Length1, rowPivots.items, colPivots.items, ias)
    ensures |rowPivots.items| == C.Length1 && Grouping.Distinct(rowPivots.items)
    ensures forall k :: 0 <= k < C.Length1 ==> 0 <= rowPivots.items[k] < C.Length0
    ensures IsPermutation(colPivots.items, C.Length1)
    ensures ctoo[..] == colPivots.items && Inverses(otoc[..], ctoo[..])
  {
    rowPivots := new SubscriptList();
    colPivots := new SubscriptList();
    ias := InactivationPivoting(C.Length0, C.Length1, Snapshot(C), rowPivots, colPivots);
    ctoo := ColumnOrder(colPivots.items, otoc);
  }

  /** The working copies ces and msg of A and B, and the pivots chosen on ces. */
  method CopyAndPivot(A: array2<bv8>, B: array2<bv8>, otoc: array<int>, ghost A0: Matrix, ghost B0: Matrix)
    returns (ces: array2<bv8>, msg: array2<bv8>, rowPivots: SubscriptList, colPivots: SubscriptList, ctoo: array<int>, ias: int)
    requires A.Length1 <= A.Length0 && otoc.Length == A.Length1
    requires A0 == Snapshot(A) && B0 == Snapshot(B)
    modifies otoc
    ensures fresh(ces) && fresh(msg) && fresh(rowPivots) && fresh(colPivots) && fresh(ctoo)
    ensures ces != msg && rowPivots != colPivots && Snapshot(ces) == A0 && Snapshot(msg) == B0
    ensures ces.Length0 == A.Length0 && ces.Length1 == A.Length1 && msg.Length0 == B.Length0 && msg.Length1 == B.Length1
    ensures PivotSequence(A0, A.Length0, A.Length1, rowPivots.items, colPivots.items, ias)
    ensures ctoo[..] == colPivots.items && Inverses(otoc[..], ctoo[..])
  {
    ces := CopyCorner(A, 0, 0);
    msg := CopyCorner(B, 0, 0);
    SameSnapshot(ces, A);
    SameSnapshot(msg, B);
    rowPivots, colPivots, ctoo, ias := ChoosePivots(ces, otoc);
  }

  /** reshape_matrix on the working copies, which leaves the active part lower triangular. */
  method ReshapeCopies(ces: array2<bv8>, msg: array2<bv8>, rowPivots: SubscriptList, colPivots: SubscriptList,
                       ghost A0: Matrix, ghost B0: Matrix, ias: int)
    returns (ghost pos: seq<int>, ghost P: Matrix, ghost PB: Matrix)
    requires ces != msg && rowPivots != colPivots && ces.Length0 == msg.Length0 && ces.Length1 <= ces.Length0
    requires Snapshot(ces) == A0 && Snapshot(msg) == B0
    requires PivotSequence(A0, ces.Length0, ces.Length1, rowPivots.items, colPivots.items, ias)
    modifies ces, msg, rowPivots`items, colPivots`items
    ensures IsPermutation(pos, ces.Length0) && forall k :: 0 <= k < ces.Length1 ==> pos[k] == old(rowPivots.items)[k]
    ensures Triangle(ces, ces.Length1 - ias, 0)
    ensures P == Gaussian.Block(ces, ces.Length0, ces.Length1) && P == Permuted(A0, pos, old(colPivots.items), ces.Length1)
    ensures PB == Gaussian.Block(msg, msg.Length0, msg.Length1) && PB == Permuted(B0, pos, Identity(msg.Length1), msg.Length1)
  {
    ghost var rp, cp := rowPivots.items, colPivots.items;
    pos := PivotReshape.ReshapeMatrix(ces, msg, rowPivots, colPivots);
    ReshapedTriangle(ces, A0, pos, rp, cp, ias);
    ReshapedBlock(ces, A0, pos, cp, ces.Length1);
    ReshapedBlock(msg, B0, pos, Identity(msg.Length1), msg.Length1);
    P, PB := Gaussian.Block(ces, ces.Length0, ces.Length1), Gaussian.Block(msg, msg.Length0, msg.Length1);
  }

  /**
   * The part pivot_matrix_oneround and pivot_matrix_tworound share: the
   * copies ces and msg of A and B are pivoted by inactivation, the column
   * order is recorded in otoc and ctoo, the copies are reordered, and the
   * active part is diagonalised by row additions applied to both.
   */
  method FirstRound(A: array2<bv8>, B: array2<bv8>, otoc: array<int>)
    returns (ces: array2<bv8>, msg: array2<bv8>, ctoo: array<int>, ias: int,
             ghost rp: seq<int>, ghost cp: seq<int>, ghost pos: seq<int>, ghost ops: seq<RowOp>, ghost E: Matrix, ghost EB: Matrix)
    requires A != B && A.Length0 == B.Length0 && A.Length1 <= A.Length0 && otoc.Length == A.Length1
    modifies otoc
    ensures fresh(ces) && fresh(msg) && fresh(ctoo) && ces != msg
    ensures ces.Length0 == A.Length0 && ces.Length1 == A.Length1 && msg.Length0 == B.Length0 && msg.Length1 == B.Length1
    ensures ctoo[..] == cp && Inverses(otoc[..], cp)
    ensures E == Gaussian.Block(ces, ces.Length0, ces.Length1) && EB == Gaussian.Block(msg, msg.Length0, msg.Length1)
    ensures Diagonalises(Snapshot(A), Snapshot(B), A.Length1, B.Length1, rp, cp, ias, pos, ops, E, EB)
  {
    ghost var A0, B0 := Snapshot(A), Snapshot(B);
    var rowPivots, colPivots;
    ces, msg, rowPivots, colPivots, ctoo, ias := CopyAndPivot(A, B, otoc, A0, B0);
    rp, cp := rowPivots.items, colPivots.items;
    ghost var P, PB;
    pos, P, PB := ReshapeCopies(ces, msg, rowPivots, colPivots, A0, B0, ias);
    ops, E, EB := EliminateActive(ces, msg, A.Length1 - ias, P, PB);
  }

  /** A fresh copy of a corner of M holds that corner of M's contents. */
  lemma CopiedCorner(C: array2<bv8>, M: array2<bv8>, r0: nat, c0: nat)
    requires r0 <= M.Length0 && c0 <= M.Length1 && C.Length0 == M.Length0 - r0 && C.Length1 == M.Length1 - c0
    requires forall r, c :: 0 <= r < C.Length0 && 0 <= c < C.Length1 ==> C[r, c] == M[r0 + r, c0 + c]
    ensures Gaussian.Block(C, C.Length0, C.Length1) == Corner(Gaussian.Block(M, M.Length0, M.Length1), r0, c0, M.Length1)
  {
    var R, K := Gaussian.Block(C, C.Length0, C.Length1), Corner(Gaussian.Block(M, M.Length0, M.Length1), r0, c0, M.Length1);
    forall r | 0 <= r < |R|
      ensures R[r] == K[r]
    {
    }
  }

  /**
   * forward_substitute on the corner copies, stated on their contents:
   * the corner becomes upper triangular by proper row operations applied
   * to both copies, which keep its solution set.
   */
  method Substitute(sub: array2<bv8>, subMsg: array2<bv8>, ghost S0: Matrix, ghost SB0: Matrix)
    returns (ghost ops2: seq<RowOp>, ghost S: Matrix, ghost SB: Matrix)
    requires sub != subMsg && sub.Length0 == subMsg.Length0 && sub.Length1 <= sub.Length0
    requires S0 == Gaussian.Block(sub, sub.Length0, sub.Length1) && SB0 == Gaussian.Block(subMsg, subMsg.Length0, subMsg.Length1)
    modifies sub, subMsg
    ensures S == Gaussian.Block(sub, sub.Length0, sub.Length1) && SB == Gaussian.Block(subMsg, subMsg.Length0, subMsg.Length1)
    ensures CornerSolved(S0, SB0, sub.Length1, subMsg.Length1, ops2, S, SB)
  {
    ops2 := Gaussian.ForwardSubstitute(sub.Length0, sub.Length1, subMsg.Length1, sub, subMsg);
    S, SB := Gaussian.Block(sub, sub.Length0, sub.Length1), Gaussian.Block(subMsg, subMsg.Length0, subMsg.Length1);
  }

  /**
   * ces_submatrix and msg_submatrix: the rows from na on, restricted in
   * ces to the ias inactive columns, after forward_substitute, which makes
   * them upper triangular and keeps their solution set.  E and EB are the
   * contents of ces and msg.
   */
  method SolveCorner(ces: array2<bv8>, msg: array2<bv8>, na: nat, ias: nat, ghost E: Matrix, ghost EB: Matrix)
    returns (sub: array2<bv8>, subMsg: array2<bv8>, ghost ops2: seq<RowOp>, ghost S: Matrix, ghost SB: Matrix)
    requires ces.Length0 == msg.Length0 && na + ias == ces.Length1 <= ces.Length0
    requires E == Gaussian.Block(ces, ces.Length0, ces.Length1) && EB == Gaussian.Block(msg, msg.Length0, msg.Length1)
    ensures fresh(sub) && fresh(subMsg)
    ensures sub.Length0 == ces.Length0 - na && sub.Length1 == ces.Length1 - na
    ensures subMsg.Length0 == ces.Length0 - na && subMsg.Length1 == msg.Length1
    ensures S == Gaussian.Block(sub, sub.Length0, sub.Length1) && SB == Gaussian.Block(subMsg, subMsg.Length0, subMsg.Length1)
    ensures CornerSolved(Corner(E, na, na, ces.Length1), Corner(EB, na, 0, msg.Length1), ias, msg.Length1, ops2, S, SB)
  {
    sub := CopyCorner(ces, na, na);
    subMsg := CopyCorner(msg, na, 0);
    CopiedCorner(sub, ces, na, na);
    CopiedCorner(subMsg, msg, na, 0);
    ops2, S, SB := Substitute(sub, subMsg, Corner(E, na, na, ces.Length1), Corner(EB, na, 0, msg.Length1));
  }

  /** WriteBack stated on the contents of the matrices involved. */
  method WriteBackContents(M: array2<bv8>, W: array2<bv8>, Sub: array2<bv8>, na: nat, top: nat, c0: nat,
                           ghost M0: Matrix, ghost Wm: Matrix, ghost Sm: Matrix)
    requires M != W && M != Sub && W.Length0 == M.Length0 && W.Length1 == M.Length1
    requires na <= top <= M.Length0 && c0 <= M.Length1 && Sub.Length0 == M.Length0 - na && Sub.Length1 == M.Length1 - c0
    requires M0 == Snapshot(M) && Wm == Gaussian.Block(W, W.Length0, W.Length1) && Sm == Gaussian.Block(Sub, Sub.Length0, Sub.Length1)
    modifies M
    ensures WrittenBack(M, M0, Wm, Sm, na, top, c0)
  {
    WriteBack(M, W, Sub, na, top, c0);
  }

  /** Both write-backs: A from ces and sub, B from msg and subMsg. */
  method WriteBoth(A: array2<bv8>, B: array2<bv8>, ces: array2<bv8>, msg: array2<bv8>, sub: array2<bv8>, subMsg: array2<bv8>,
                   na: nat, ghost E: Matrix, ghost EB: Matrix, ghost S: Matrix, ghost SB: Matrix, ghost A0: Matrix, ghost B0: Matrix)
    requires A != B && A != ces && A != msg && B != ces && B != msg && A != sub && B != subMsg && B != sub && A != subMsg
    requires A.Length0 == B.Length0 == ces.Length0 == msg.Length0 && A.Length1 == ces.Length1 <= A.Length0 && B.Length1 == msg.Length1
    requires na <= A.Length1 && sub.Length0 == subMsg.Length0 == A.Length0 - na
    requires sub.Length1 == A.Length1 - na && subMsg.Length1 == B.Length1
    requires E == Gaussian.Block(ces, ces.Length0, ces.Length1) && EB == Gaussian.Block(msg, msg.Length0, msg.Length1)
    requires S == Gaussian.Block(sub, sub.Length0, sub.Length1) && SB == Gaussian.Block(subMsg, subMsg.Length0, subMsg.Length1)
    requires A0 == Snapshot(A) && B0 == Snapshot(B)
    modifies A, B
    ensures WrittenBack(A, A0, E, S, na, A.Length1, na)
    ensures WrittenBack(B, B0, EB, SB, na, A.Length1, 0)
  {
    WriteBackContents(A, ces, sub, na, A.Length1, na, A0, E, S);
    WriteBackContents(B, msg, subMsg, na, A.Length1, 0, B0, EB, SB);
  }

  /**
   * The corner of the first round's result solved by forward substitution
   * and the write-back into A and B; A0 and B0 are A and B on entry.
   */
  method SolveFirst(A: array2<bv8>, B: array2<bv8>, ces: array2<bv8>, msg: array2<bv8>, na: nat, ias: nat,
                    ghost E: Matrix, ghost EB: Matrix, ghost A0: Matrix, ghost B0: Matrix)
    returns (ghost ops2: seq<RowOp>, ghost S: Matrix, ghost SB: Matrix)
    requires A != B && A != ces && A != msg && B != ces && B != msg && ces != msg
    requires A.Length0 == B.Length0 == ces.Length0 == msg.Length0 && A.Length1 == ces.Length1 <= A.Length0 && B.Length1 == msg.Length1
    requires na + ias == A.Length1
    requires E == Gaussian.Block(ces, ces.Length0, ces.Length1) && EB == Gaussian.Block(msg, msg.Length0, msg.Length1)
    requires A0 == Snapshot(A) && B0 == Snapshot(B)
    modifies A, B
    ensures CornerSolved(Corner(E, na, na, ces.Length1), Corner(EB, na, 0, msg.Length1), ias, msg.Length1, ops2, S, SB)
    ensures WrittenBack(A, A0, E, S, na, A.Length1, na)
    ensures WrittenBack(B, B0, EB, SB, na, A.Length1, 0)
  {
    var sub, subMsg;
    sub, subMsg, ops2, S, SB := SolveCorner(ces, msg, na, ias, E, EB);
    WriteBoth(A, B, ces, msg, sub, subMsg, na, E, EB, S, SB, A0, B0);
  }

  /**
   * pivot_matrix_oneround.  E and EB are ces_matrix and msg_matrix after
   * the reordering and the diagonalisation of the active part, S and SB
   * the corners after forward substitution; A and B receive them as the
   * write-back loops do, and the corner keeps its solution set.
   */
  method PivotMatrixOneRound(A: array2<bv8>, B: array2<bv8>, otoc: array<int>)
    returns (ias: int, ghost na: nat, ghost rp: seq<int>, ghost cp: seq<int>, ghost pos: seq<int>,
             ghost ops: seq<RowOp>, ghost ops2: seq<RowOp>,
             ghost E: Matrix, ghost EB: Matrix, ghost S: Matrix, ghost SB: Matrix)
    requires A != B && A.Length0 == B.Length0 && A.Length1 <= A.Length0 && otoc.Length == A.Length1
    modifies A, B, otoc
    ensures na == A.Length1 - ias && Inverses(otoc[..], cp)
    ensures Diagonalises(old(Snapshot(A)), old(Snapshot(B)), A.Length1, B.Length1, rp, cp, ias, pos, ops, E, EB)
    ensures CornerSolved(Corner(E, na, na, A.Length1), Corner(EB, na, 0, B.Length1), ias, B.Length1, ops2, S, SB)
    ensures WrittenBack(A, old(Snapshot(A)), E, S, na, A.Length1, na)
    ensures WrittenBack(B, old(Snapshot(B)), EB, SB, na, A.Length1, 0)
  {
    ghost var A0, B0 := Snapshot(A), Snapshot(B);
    var ces, msg, ctoo;
    ces, msg, ctoo, ias, rp, cp, pos, ops, E, EB := FirstRound(A, B, otoc);
    var n := A.Length1 - ias;
    na := n;
    ops2, S, SB := SolveFirst(A, B, ces, msg, n, ias, E, EB, A0, B0);
  }
}
