/**
 * gaussian.c: in-place elimination on a pair of matrices A (coefficients)
 * and B (payloads) that stand for the system A * X == B.
 *
 * The C routines take arrays of row pointers and the sizes of the part to
 * work on; here A and B are `array2<bv8>` at least that large, and only the
 * top-left block named by the sizes is read or written.  Every change made
 * to the block is an elementary row operation applied to A and B alike; the
 * methods return those operations as a ghost log, so that the lemmas of
 * module Linear give the preservation of the solution set.
 *
 * The field operations are the reference ones of GaloisArith, which the
 * table-driven galois_multiply and galois_divide are proved to compute
 * (Galois.Field.Multiply, Galois.Field.DivideIsDiv).
 */
module Gaussian {
  import opened GaloisArith
  import opened GaloisPrimitive
  import opened Linear

  // ---------------------------------------------------------------------
  // Blocks of an array2 as matrices
  // ---------------------------------------------------------------------

  /** The top-left rows x cols block of M. */
  ghost function Block(M: array2<bv8>, rows: nat, cols: nat): (R: Matrix)
    reads M
    requires rows <= M.Length0 && cols <= M.Length1
    ensures |R| == rows && Rect(R, cols)
  {
    seq(rows, r requires 0 <= r < rows reads M => seq(cols, c requires 0 <= c < cols reads M => M[r, c]))
  }

  /** The top-left rows x cols block of M holds R. */
  ghost predicate Holds(M: array2<bv8>, R: Matrix, rows: nat, cols: nat)
    reads M
  {
    rows <= M.Length0 && cols <= M.Length1 && |R| == rows && Rect(R, cols) &&
    forall r, c :: 0 <= r < rows && 0 <= c < cols ==> M[r, c] == R[r][c]
  }

  /** Nothing outside the top-left rows x cols block has changed. */
  twostate predicate UnchangedOutside(M: array2<bv8>, rows: nat, cols: nat)
    reads M
  {
    forall r, c :: 0 <= r < M.Length0 && 0 <= c < M.Length1 && !(r < rows && c < cols) ==> M[r, c] == old(M[r, c])
  }

  lemma BlockHolds(M: array2<bv8>, rows: nat, cols: nat)
    requires rows <= M.Length0 && cols <= M.Length1
    ensures Holds(M, Block(M, rows, cols), rows, cols)
  {
  }

  lemma HoldsBlock(M: array2<bv8>, R: Matrix, rows: nat, cols: nat)
    requires Holds(M, R, rows, cols)
    ensures Block(M, rows, cols) == R
  {
    var S := Block(M, rows, cols);
    forall r | 0 <= r < rows
      ensures S[r] == R[r]
    {
    }
  }

  // ---------------------------------------------------------------------
  // The row operations, in place
  // ---------------------------------------------------------------------

  /** The swap loops of forward_substitute: rows i and j exchange their first cols entries. */
  method SwapRows(M: array2<bv8>, i: nat, j: nat, rows: nat, cols: nat, ghost R: Matrix)
    requires i < rows && j < rows && Holds(M, R, rows, cols)
    modifies M
    ensures Holds(M, ApplyOp(Swap(i, j), R), rows, cols)
    ensures UnchangedOutside(M, rows, cols)
  {
    var m := 0;
    while m < cols
      invariant 0 <= m <= cols
      invariant forall r, c :: 0 <= r < M.Length0 && 0 <= c < M.Length1 && ((r != i && r != j) || c >= m) ==> M[r, c] == old(M[r, c])
      invariant forall c :: 0 <= c < m ==> M[i, c] == old(M[j, c]) && M[j, c] == old(M[i, c])
    {
      var t := M[i, m];
      M[i, m] := M[j, m];
      M[j, m] := t;
      m := m + 1;
    }
  }

  /**
   * galois_multiply_add_region(M[dst], M[src], q, cols): row dst gains q
   * times row src over its first cols entries.
   */
  method AddRowTo(M: array2<bv8>, dst: nat, src: nat, q: bv8, rows: nat, cols: nat, ghost R: Matrix)
    requires dst < rows && src < rows && dst != src && Holds(M, R, rows, cols)
    modifies M
    ensures Holds(M, ApplyOp(AddRow(dst, src, q), R), rows, cols)
    ensures UnchangedOutside(M, rows, cols)
    ensures forall r, c :: 0 <= r < M.Length0 && 0 <= c < M.Length1 && r != dst ==> M[r, c] == old(M[r, c])
    ensures forall c :: 0 <= c < cols ==> M[dst, c] == Add(old(M[dst, c]), Mul(old(M[src, c]), q))
  {
    var m := 0;
    while m < cols
      invariant 0 <= m <= cols
      invariant forall r, c :: 0 <= r < M.Length0 && 0 <= c < M.Length1 && (r != dst || c >= m) ==> M[r, c] == old(M[r, c])
      invariant forall c :: 0 <= c < m ==> M[dst, c] == Add(old(M[dst, c]), Mul(old(M[src, c]), q))
    {
      M[dst, m] := M[dst, m] ^ Mul(M[src, m], q);
      m := m + 1;
    }
    AddRowHolds(M, R, dst, src, q, rows, cols);
  }

  /** The block after the add loop holds the matrix after the AddRow operation. */
  lemma AddRowHolds(M: array2<bv8>, R: Matrix, dst: nat, src: nat, q: bv8, rows: nat, cols: nat)
    requires dst < rows && src < rows && dst != src && rows <= M.Length0 && cols <= M.Length1
    requires |R| == rows && Rect(R, cols)
    requires forall r, c :: 0 <= r < rows && 0 <= c < cols && r != dst ==> M[r, c] == R[r][c]
    requires forall c :: 0 <= c < cols ==> M[dst, c] == Add(R[dst][c], Mul(R[src][c], q))
    ensures Holds(M, ApplyOp(AddRow(dst, src, q), R), rows, cols)
  {
  }

  /** B[l][k] = galois_divide(B[l][k], d) for k < cols: row l is scaled by 1 / d. */
  method DivideRow(M: array2<bv8>, l: nat, d: bv8, rows: nat, cols: nat, ghost R: Matrix)
    requires l < rows && d != 0 && Holds(M, R, rows, cols)
    modifies M
    ensures Holds(M, ApplyOp(ScaleRow(l, Div(1, d)), R), rows, cols)
    ensures UnchangedOutside(M, rows, cols)
    ensures forall r, c :: 0 <= r < M.Length0 && 0 <= c < M.Length1 && r != l ==> M[r, c] == old(M[r, c])
  {
    PowersAreDistinct();
    DivIsMulInverse(1, d);
    MulNonZero(Div(1, d), d);
    var k := 0;
    while k < cols
      invariant 0 <= k <= cols
      invariant forall r, c :: 0 <= r < M.Length0 && 0 <= c < M.Length1 && (r != l || c >= k) ==> M[r, c] == old(M[r, c])
      invariant forall c :: 0 <= c < k ==> M[l, c] == Mul(old(M[l, c]), Div(1, d))
    {
      DivIsMulInverse(M[l, k], d);
      M[l, k] := Div(M[l, k], d);
      k := k + 1;
    }
  }

  /** Subtracting q times the pivot row clears the entry a of another row when q == a / pivot. */
  lemma Clears(a: bv8, pivot: bv8)
    requires pivot != 0
    ensures Add(a, Mul(pivot, Div(a, pivot))) == 0
  {
    PowersAreDistinct();
    DivUndoesMul(a, pivot);
    MulCommutes(pivot, Div(a, pivot));
  }

  // ---------------------------------------------------------------------
  // forward_substitute
  // ---------------------------------------------------------------------

  /** The entries below the diagonal of the first `cols` columns of the block are 0. */
  ghost predicate ZeroBelow(A: array2<bv8>, rows: nat, cols: nat)
    reads A
    requires rows <= A.Length0 && cols <= A.Length1
  {
    forall r, c :: 0 <= c < cols && c < r < rows ==> A[r, c] == 0
  }

  /**
   * One step of the elimination loop of forward_substitute: row j gains
   * (A[j][i] / A[i][i]) times row i, in A and in B, which clears A[j][i].
   */
  method ReduceRow(A: array2<bv8>, B: array2<bv8>, i: nat, j: nat, nrow: nat, ncolA: nat, ncolB: nat,
                   ghost A0: Matrix, ghost B0: Matrix, ghost ops0: seq<RowOp>)
    returns (ghost ops: seq<RowOp>)
    requires A != B && i < j < nrow && i < ncolA
    requires Holds(A, ApplyOps(ops0, A0), nrow, ncolA) && Holds(B, ApplyOps(ops0, B0), nrow, ncolB)
    requires AllProper(ops0, nrow) && A[i, i] != 0 && ZeroBelow(A, nrow, i)
    modifies A, B
    ensures Holds(A, ApplyOps(ops, A0), nrow, ncolA) && Holds(B, ApplyOps(ops, B0), nrow, ncolB)
    ensures AllProper(ops, nrow) && ZeroBelow(A, nrow, i) && A[j, i] == 0
    ensures forall r, c :: 0 <= r < A.Length0 && 0 <= c < A.Length1 && r != j ==> A[r, c] == old(A[r, c])
    ensures UnchangedOutside(A, nrow, ncolA) && UnchangedOutside(B, nrow, ncolB)
  {
    var quotient := Div(A[j, i], A[i, i]);
    Clears(A[j, i], A[i, i]);
    ghost var op := AddRow(j, i, quotient);
    AddRowTo(A, j, i, quotient, nrow, ncolA, ApplyOps(ops0, A0));
    AddRowTo(B, j, i, quotient, nrow, ncolB, ApplyOps(ops0, B0));
    ApplyOpsSnoc(ops0, op, A0);
    ApplyOpsSnoc(ops0, op, B0);
    ops := ops0 + [op];
  }

  /**
   * The elimination loop of forward_substitute for pivot column i: every
   * row j > i with A[j][i] != 0 gains (A[j][i] / A[i][i]) times row i, in A
   * and in B.
   */
  method EliminateBelow(A: array2<bv8>, B: array2<bv8>, i: nat, nrow: nat, ncolA: nat, ncolB: nat,
                        ghost A0: Matrix, ghost B0: Matrix, ghost ops0: seq<RowOp>)
    returns (ghost ops: seq<RowOp>)
    requires A != B && i < nrow && i < ncolA
    requires Holds(A, ApplyOps(ops0, A0), nrow, ncolA) && Holds(B, ApplyOps(ops0, B0), nrow, ncolB)
    requires AllProper(ops0, nrow) && A[i, i] != 0 && ZeroBelow(A, nrow, i)
    modifies A, B
    ensures Holds(A, ApplyOps(ops, A0), nrow, ncolA) && Holds(B, ApplyOps(ops, B0), nrow, ncolB)
    ensures AllProper(ops, nrow) && ZeroBelow(A, nrow, i + 1)
    ensures UnchangedOutside(A, nrow, ncolA) && UnchangedOutside(B, nrow, ncolB)
    ensures forall c :: 0 <= c < ncolA ==> A[i, c] == old(A[i, c])
  {
    ops := ops0;
    var j := i + 1;
    while j < nrow
      invariant i + 1 <= j <= nrow
      invariant Holds(A, ApplyOps(ops, A0), nrow, ncolA) && Holds(B, ApplyOps(ops, B0), nrow, ncolB)
      invariant AllProper(ops, nrow) && ZeroBelow(A, nrow, i)
      invariant forall r :: i < r < j ==> A[r, i] == 0
      invariant forall c :: 0 <= c < ncolA ==> A[i, c] == old(A[i, c])
      invariant UnchangedOutside(A, nrow, ncolA) && UnchangedOutside(B, nrow, ncolB)
    {
      if A[j, i] != 0 {
        ops := ReduceRow(A, B, i, j, nrow, ncolA, ncolB, A0, B0, ops);
      }
      j := j + 1;
    }
  }

  /** The row exchange of forward_substitute: rows i and pivot swap places in A and in B. */
  method SwapBoth(A: array2<bv8>, B: array2<bv8>, i: nat, pivot: nat, nrow: nat, ncolA: nat, ncolB: nat,
                  ghost A0: Matrix, ghost B0: Matrix, ghost ops0: seq<RowOp>)
    returns (ghost ops: seq<RowOp>)
    requires A != B && i < pivot < nrow && i < ncolA
    requires Holds(A, ApplyOps(ops0, A0), nrow, ncolA) && Holds(B, ApplyOps(ops0, B0), nrow, ncolB)
    requires AllProper(ops0, nrow) && A[pivot, i] != 0 && ZeroBelow(A, nrow, i)
    modifies A, B
    ensures Holds(A, ApplyOps(ops, A0), nrow, ncolA) && Holds(B, ApplyOps(ops, B0), nrow, ncolB)
    ensures AllProper(ops, nrow) && ZeroBelow(A, nrow, i) && A[i, i] != 0
    ensures UnchangedOutside(A, nrow, ncolA) && UnchangedOutside(B, nrow, ncolB)
  {
    ghost var op := Swap(i, pivot);
    SwapRows(A, i, pivot, nrow, ncolA, ApplyOps(ops0, A0));
    SwapRows(B, i, pivot, nrow, ncolB, ApplyOps(ops0, B0));
    ApplyOpsSnoc(ops0, op, A0);
    ApplyOpsSnoc(ops0, op, B0);
    ops := ops0 + [op];
  }

  /** The search loop of forward_substitute: the first row below i with a nonzero entry in column i, or nrow. */
  method FindPivot(A: array2<bv8>, i: nat, nrow: nat) returns (pivot: nat)
    requires i < nrow <= A.Length0 && i < A.Length1
    ensures i < pivot <= nrow
    ensures forall r :: i < r < pivot ==> A[r, i] == 0
    ensures pivot < nrow ==> A[pivot, i] != 0
  {
    pivot := i + 1;
    while pivot < nrow
      invariant i < pivot <= nrow
      invariant forall r :: i < r < pivot ==> A[r, i] == 0
    {
      if A[pivot, i] != 0 {
        return;
      }
      pivot := pivot + 1;
    }
  }

  /**
   * The body of the column loop of forward_substitute for column i (other
   * than the early exit at a zero pivot on the last row): a zero pivot is
   * first exchanged with the first lower row that has a nonzero entry in
   * column i, if any; then the entries below the pivot are cleared.
   */
  method ProcessColumn(A: array2<bv8>, B: array2<bv8>, i: nat, nrow: nat, ncolA: nat, ncolB: nat,
                       ghost A0: Matrix, ghost B0: Matrix, ghost ops0: seq<RowOp>)
    returns (ghost ops: seq<RowOp>)
    requires A != B && i < nrow && i < ncolA
    requires Holds(A, ApplyOps(ops0, A0), nrow, ncolA) && Holds(B, ApplyOps(ops0, B0), nrow, ncolB)
    requires AllProper(ops0, nrow) && ZeroBelow(A, nrow, i) && (A[i, i] == 0 ==> i < nrow - 1)
    modifies A, B
    ensures Holds(A, ApplyOps(ops, A0), nrow, ncolA) && Holds(B, ApplyOps(ops, B0), nrow, ncolB)
    ensures AllProper(ops, nrow) && ZeroBelow(A, nrow, i + 1)
    ensures UnchangedOutside(A, nrow, ncolA) && UnchangedOutside(B, nrow, ncolB)
  {
    ops := ops0;
    if A[i, i] == 0 {
      var pivot := FindPivot(A, i, nrow);
      if pivot < nrow {
        ops := SwapBoth(A, B, i, pivot, nrow, ncolA, ncolB, A0, B0, ops);
        ops := EliminateBelow(A, B, i, nrow, ncolA, ncolB, A0, B0, ops);
      }
    } else {
      ops := EliminateBelow(A, B, i, nrow, ncolA, ncolB, A0, B0, ops);
    }
  }

  /**
   * forward_substitute: brings the first min(nrow, ncolA) columns of A into
   * upper triangular form by row swaps and row additions applied to A and B
   * alike.  A zero pivot is replaced by the first lower row with a nonzero
   * entry in its column; a column without one is skipped.
   */
  method ForwardSubstitute(nrow: nat, ncolA: nat, ncolB: nat, A: array2<bv8>, B: array2<bv8>)
    returns (ghost ops: seq<RowOp>)
    requires A != B && nrow <= A.Length0 && nrow <= B.Length0 && ncolA <= A.Length1 && ncolB <= B.Length1
    modifies A, B
    ensures AllProper(ops, nrow)
    ensures Block(A, nrow, ncolA) == ApplyOps(ops, old(Block(A, nrow, ncolA)))
    ensures Block(B, nrow, ncolB) == ApplyOps(ops, old(Block(B, nrow, ncolB)))
    ensures ZeroBelow(A, nrow, if nrow < ncolA then nrow else ncolA)
    ensures UnchangedOutside(A, nrow, ncolA) && UnchangedOutside(B, nrow, ncolB)
    ensures forall X :: Solves(old(Block(A, nrow, ncolA)), old(Block(B, nrow, ncolB)), X, ncolA, ncolB) <==>
                        Solves(Block(A, nrow, ncolA), Block(B, nrow, ncolB), X, ncolA, ncolB)
  {
    ghost var A0, B0 := Block(A, nrow, ncolA), Block(B, nrow, ncolB);
    BlockHolds(A, nrow, ncolA);
    BlockHolds(B, nrow, ncolB);
    ops := [];
    var boundary := if nrow >= ncolA then ncolA else nrow;
    var i := 0;
    while i < boundary
      invariant 0 <= i <= boundary
      invariant Holds(A, ApplyOps(ops, A0), nrow, ncolA) && Holds(B, ApplyOps(ops, B0), nrow, ncolB)
      invariant AllProper(ops, nrow) && ZeroBelow(A, nrow, i)
      invariant UnchangedOutside(A, nrow, ncolA) && UnchangedOutside(B, nrow, ncolB)
    {
      if A[i, i] == 0 && i == nrow - 1 {
        break;
      }
      ops := ProcessColumn(A, B, i, nrow, ncolA, ncolB, A0, B0, ops);
      i := i + 1;
    }
    HoldsBlock(A, ApplyOps(ops, A0), nrow, ncolA);
    HoldsBlock(B, ApplyOps(ops, B0), nrow, ncolB);
    OpsKeepSolutionSet(ops, A0, B0, ncolA, ncolB);
  }

  // ---------------------------------------------------------------------
  // back_substitute
  // ---------------------------------------------------------------------

  /** Off the diagonal, the n x n block of A is 0. */
  ghost predicate Diagonal(A: array2<bv8>, n: nat)
    reads A
    requires n <= A.Length0 && n <= A.Length1
  {
    forall r, c :: 0 <= r < n && 0 <= c < n && r != c ==> A[r, c] == 0
  }

  /**
   * One step of the clearing loop of back_substitute: with row i of A zero
   * except at its diagonal, A[j][i] is cleared by writing that one entry,
   * and B[j] gains (A[j][i] / A[i][i]) times B[i].  Both amount to adding
   * that multiple of row i to row j.
   */
  method ClearEntry(A: array2<bv8>, B: array2<bv8>, j: nat, i: nat, n: nat, w: nat,
                    ghost A0: Matrix, ghost B0: Matrix, ghost ops0: seq<RowOp>)
    returns (ghost ops: seq<RowOp>)
    requires A != B && j < i < n
    requires Holds(A, ApplyOps(ops0, A0), n, n) && Holds(B, ApplyOps(ops0, B0), n, w) && AllProper(ops0, n)
    requires A[i, i] != 0 && forall c :: 0 <= c < n && c != i ==> A[i, c] == 0
    modifies A, B
    ensures Holds(A, ApplyOps(ops, A0), n, n) && Holds(B, ApplyOps(ops, B0), n, w) && AllProper(ops, n)
    ensures A[j, i] == 0
    ensures forall r, c :: 0 <= r < A.Length0 && 0 <= c < A.Length1 && (r != j || c != i) ==> A[r, c] == old(A[r, c])
    ensures UnchangedOutside(B, n, w)
  {
    ghost var R := ApplyOps(ops0, A0);
    var quotient := Div(A[j, i], A[i, i]);
    Clears(A[j, i], A[i, i]);
    A[j, i] := Add(A[j, i], Mul(A[i, i], quotient));
    AddRowTo(B, j, i, quotient, n, w, ApplyOps(ops0, B0));
    assert forall c :: 0 <= c < n ==> A[j, c] == Add(R[j][c], Mul(R[i][c], quotient));
    AddRowHolds(A, R, j, i, quotient, n, n);
    ghost var op := AddRow(j, i, quotient);
    ApplyOpsSnoc(ops0, op, A0);
    ApplyOpsSnoc(ops0, op, B0);
    ops := ops0 + [op];
  }

  /** The inner loop of the clearing pass of back_substitute: column i is cleared above the diagonal. */
  method ClearColumn(A: array2<bv8>, B: array2<bv8>, i: nat, n: nat, w: nat,
                     ghost A0: Matrix, ghost B0: Matrix, ghost ops0: seq<RowOp>)
    returns (ghost ops: seq<RowOp>)
    requires A != B && i < n
    requires Holds(A, ApplyOps(ops0, A0), n, n) && Holds(B, ApplyOps(ops0, B0), n, w) && AllProper(ops0, n)
    requires A[i, i] != 0 && forall c :: 0 <= c < n && c != i ==> A[i, c] == 0
    modifies A, B
    ensures Holds(A, ApplyOps(ops, A0), n, n) && Holds(B, ApplyOps(ops, B0), n, w) && AllProper(ops, n)
    ensures forall r :: 0 <= r < i ==> A[r, i] == 0
    ensures forall r, c :: 0 <= r < A.Length0 && 0 <= c < A.Length1 && (c != i || r >= i) ==> A[r, c] == old(A[r, c])
    ensures UnchangedOutside(B, n, w)
  {
    ops := ops0;
    var j := 0;
    while j < i
      invariant 0 <= j <= i
      invariant Holds(A, ApplyOps(ops, A0), n, n) && Holds(B, ApplyOps(ops, B0), n, w) && AllProper(ops, n)
      invariant forall r :: 0 <= r < j ==> A[r, i] == 0
      invariant forall r, c :: 0 <= r < A.Length0 && 0 <= c < A.Length1 && (c != i || r >= j) ==> A[r, c] == old(A[r, c])
      invariant UnchangedOutside(B, n, w)
    {
      if A[j, i] != 0 {
        ops := ClearEntry(A, B, j, i, n, w, A0, B0, ops);
      }
      j := j + 1;
    }
  }

  /**
   * The first pass of back_substitute: from the last column leftwards,
   * every entry above the diagonal is cleared, so an upper triangular
   * block with a nonzero diagonal becomes diagonal.
   */
  method ClearAbove(A: array2<bv8>, B: array2<bv8>, n: nat, w: nat,
                    ghost A0: Matrix, ghost B0: Matrix, ghost ops0: seq<RowOp>)
    returns (ghost ops: seq<RowOp>)
    requires A != B
    requires Holds(A, ApplyOps(ops0, A0), n, n) && Holds(B, ApplyOps(ops0, B0), n, w) && AllProper(ops0, n)
    requires ZeroBelow(A, n, n) && forall d :: 0 <= d < n ==> A[d, d] != 0
    modifies A, B
    ensures Holds(A, ApplyOps(ops, A0), n, n) && Holds(B, ApplyOps(ops, B0), n, w) && AllProper(ops, n)
    ensures Diagonal(A, n) && forall d :: 0 <= d < n ==> A[d, d] == old(A[d, d])
    ensures UnchangedOutside(A, n, n) && UnchangedOutside(B, n, w)
  {
    ops := ops0;
    var k := n;
    while k > 0
      invariant 0 <= k <= n
      invariant Holds(A, ApplyOps(ops, A0), n, n) && Holds(B, ApplyOps(ops, B0), n, w) && AllProper(ops, n)
      invariant ZeroBelow(A, n, n) && forall d :: 0 <= d < n ==> A[d, d] == old(A[d, d])
      invariant forall r, c :: k <= c < n && 0 <= r < c ==> A[r, c] == 0
      invariant UnchangedOutside(A, n, n) && UnchangedOutside(B, n, w)
    {
      var i := k - 1;
      ops := ClearColumn(A, B, i, n, w, A0, B0, ops);
      k := i;
    }
  }

  /** The scaled row holds the matrix after the ScaleRow operation. */
  lemma ScaleRowHolds(M: array2<bv8>, R: Matrix, l: nat, s: bv8, rows: nat, cols: nat)
    requires l < rows && s != 0 && rows <= M.Length0 && cols <= M.Length1
    requires |R| == rows && Rect(R, cols)
    requires forall r, c :: 0 <= r < rows && 0 <= c < cols && r != l ==> M[r, c] == R[r][c]
    requires forall c :: 0 <= c < cols ==> M[l, c] == Mul(R[l][c], s)
    ensures Holds(M, ApplyOp(ScaleRow(l, s), R), rows, cols)
  {
  }

  /**
   * One step of the second pass of back_substitute: with row l of A zero
   * except at its nonzero diagonal d, B[l] is divided by d and A[l][l] set
   * to 1, which is scaling row l by 1 / d.
   */
  method NormalizeRow(A: array2<bv8>, B: array2<bv8>, l: nat, n: nat, w: nat,
                      ghost A0: Matrix, ghost B0: Matrix, ghost ops0: seq<RowOp>)
    returns (ghost ops: seq<RowOp>)
    requires A != B && l < n
    requires Holds(A, ApplyOps(ops0, A0), n, n) && Holds(B, ApplyOps(ops0, B0), n, w) && AllProper(ops0, n)
    requires A[l, l] != 0 && forall c :: 0 <= c < n && c != l ==> A[l, c] == 0
    modifies A, B
    ensures Holds(A, ApplyOps(ops, A0), n, n) && Holds(B, ApplyOps(ops, B0), n, w) && AllProper(ops, n)
    ensures A[l, l] == 1
    ensures forall r, c :: 0 <= r < A.Length0 && 0 <= c < A.Length1 && (r != l || c != l) ==> A[r, c] == old(A[r, c])
    ensures UnchangedOutside(B, n, w)
  {
    ghost var R := ApplyOps(ops0, A0);
    var d := A[l, l];
    PowersAreDistinct();
    DivIsMulInverse(1, d);
    MulCommutes(d, Div(1, d));
    MulNonZero(Div(1, d), d);
    DivideRow(B, l, d, n, w, ApplyOps(ops0, B0));
    A[l, l] := 1;
    assert forall c :: 0 <= c < n ==> A[l, c] == Mul(R[l][c], Div(1, d));
    ScaleRowHolds(A, R, l, Div(1, d), n, n);
    ghost var op := ScaleRow(l, Div(1, d));
    ApplyOpsSnoc(ops0, op, A0);
    ApplyOpsSnoc(ops0, op, B0);
    ops := ops0 + [op];
  }

  /** The second pass of back_substitute: every row with a nonzero diagonal is divided by it. */
  method Normalize(A: array2<bv8>, B: array2<bv8>, n: nat, w: nat,
                   ghost A0: Matrix, ghost B0: Matrix, ghost ops0: seq<RowOp>)
    returns (ghost ops: seq<RowOp>)
    requires A != B
    requires Holds(A, ApplyOps(ops0, A0), n, n) && Holds(B, ApplyOps(ops0, B0), n, w) && AllProper(ops0, n)
    requires Diagonal(A, n)
    modifies A, B
    ensures Holds(A, ApplyOps(ops, A0), n, n) && Holds(B, ApplyOps(ops, B0), n, w) && AllProper(ops, n)
    ensures Diagonal(A, n) && forall d :: 0 <= d < n ==> A[d, d] == if old(A[d, d]) == 0 then 0 else 1
    ensures UnchangedOutside(A, n, n) && UnchangedOutside(B, n, w)
  {
    ops := ops0;
    var l := 0;
    while l < n
      invariant 0 <= l <= n
      invariant Holds(A, ApplyOps(ops, A0), n, n) && Holds(B, ApplyOps(ops, B0), n, w) && AllProper(ops, n)
      invariant Diagonal(A, n)
      invariant forall d :: 0 <= d < l ==> A[d, d] == if old(A[d, d]) == 0 then 0 else 1
      invariant forall d :: l <= d < n ==> A[d, d] == old(A[d, d])
      invariant UnchangedOutside(A, n, n) && UnchangedOutside(B, n, w)
    {
      if A[l, l] != 0 {
        ops := NormalizeRow(A, B, l, n, w, A0, B0, ops);
      }
      l := l + 1;
    }
  }

  /** A diagonal block with ones on the diagonal is the identity. */
  lemma IdentityBlock(A: array2<bv8>, n: nat)
    requires n <= A.Length0 && n <= A.Length1
    requires Diagonal(A, n) && forall d :: 0 <= d < n ==> A[d, d] == 1
    ensures IsIdentity(Block(A, n, n), n)
  {
  }

  /**
   * back_substitute on a full-rank upper triangular n x n block (n ==
   * ncolA): A ends as the identity and the first n rows of B as the one
   * and only solution of the original system.  Rows from ncolA on are not
   * used, nor is nrow.
   */
  method BackSubstitute(nrow: nat, ncolA: nat, ncolB: nat, A: array2<bv8>, B: array2<bv8>)
    returns (ghost ops: seq<RowOp>)
    requires A != B && ncolA <= A.Length0 && ncolA <= A.Length1 && ncolA <= B.Length0 && ncolB <= B.Length1
    requires ZeroBelow(A, ncolA, ncolA) && forall d :: 0 <= d < ncolA ==> A[d, d] != 0
    modifies A, B
    ensures AllProper(ops, ncolA)
    ensures Block(A, ncolA, ncolA) == ApplyOps(ops, old(Block(A, ncolA, ncolA)))
    ensures Block(B, ncolA, ncolB) == ApplyOps(ops, old(Block(B, ncolA, ncolB)))
    ensures IsIdentity(Block(A, ncolA, ncolA), ncolA)
    ensures forall X :: Solves(old(Block(A, ncolA, ncolA)), old(Block(B, ncolA, ncolB)), X, ncolA, ncolB) <==>
                        X == Block(B, ncolA, ncolB)
    ensures UnchangedOutside(A, ncolA, ncolA) && UnchangedOutside(B, ncolA, ncolB)
  {
    ghost var A0, B0 := Block(A, ncolA, ncolA), Block(B, ncolA, ncolB);
    BlockHolds(A, ncolA, ncolA);
    BlockHolds(B, ncolA, ncolB);
    ops := ClearAbove(A, B, ncolA, ncolB, A0, B0, []);
    ops := Normalize(A, B, ncolA, ncolB, A0, B0, ops);
    IdentityBlock(A, ncolA);
    HoldsBlock(A, ApplyOps(ops, A0), ncolA, ncolA);
    HoldsBlock(B, ApplyOps(ops, B0), ncolA, ncolB);
    EliminationSolves(ops, A0, B0, ncolA, ncolB);
  }

  // ---------------------------------------------------------------------
  // matrix_to_REF
  // ---------------------------------------------------------------------

  /** Above every nonzero diagonal entry of the columns from k to n - 1, A is 0. */
  ghost predicate ClearedFrom(A: array2<bv8>, k: nat, n: nat)
    reads A
    requires n <= A.Length0 && n <= A.Length1
  {
    forall r, c :: k <= c < n && 0 <= r < c && A[c, c] != 0 ==> A[r, c] == 0
  }

  /**
   * The innermost loop of matrix_to_REF: row l gains q times row k, but
   * only in the columns m > k whose diagonal entry is 0.
   */
  method AddToZeroDiagonalColumns(A: array2<bv8>, l: nat, k: nat, q: bv8, n: nat)
    requires l < k < n <= A.Length0 && n <= A.Length1
    modifies A
    ensures forall c :: k < c < n ==> A[l, c] == if A[c, c] == 0 then Add(old(A[l, c]), Mul(old(A[k, c]), q)) else old(A[l, c])
    ensures forall r, c :: 0 <= r < A.Length0 && 0 <= c < A.Length1 && (r != l || c <= k || c >= n) ==> A[r, c] == old(A[r, c])
  {
    var m := k + 1;
    while m < n
      invariant k + 1 <= m <= n
      invariant forall c :: k < c < m ==> A[l, c] == if A[c, c] == 0 then Add(old(A[l, c]), Mul(old(A[k, c]), q)) else old(A[l, c])
      invariant forall r, c :: 0 <= r < A.Length0 && 0 <= c < A.Length1 && (r != l || c < k + 1 || c >= m) ==> A[r, c] == old(A[r, c])
    {
      if A[m, m] == 0 {
        A[l, m] := Add(A[l, m], Mul(A[k, m], q));
      }
      m := m + 1;
    }
  }

  /** The writes to A of one step of matrix_to_REF: A[l][k] = 0, then the zero-diagonal columns after k. */
  method ReduceEntryAbove(A: array2<bv8>, l: nat, k: nat, q: bv8, n: nat, ghost R: Matrix)
    requires l < k < n && Holds(A, R, n, n) && Add(A[l, k], Mul(A[k, k], q)) == 0
    requires forall c :: 0 <= c < n && c != k && (c < k || A[c, c] != 0) ==> A[k, c] == 0
    modifies A
    ensures Holds(A, ApplyOp(AddRow(l, k, q), R), n, n)
    ensures A[l, k] == 0
    ensures forall c :: 0 <= c < n && (c < k || A[c, c] != 0) && c != k ==> A[l, c] == old(A[l, c])
    ensures forall r, c :: 0 <= r < A.Length0 && 0 <= c < A.Length1 && (r != l || c < k || c >= n) ==> A[r, c] == old(A[r, c])
  {
    A[l, k] := 0;
    AddToZeroDiagonalColumns(A, l, k, q, n);
    RefRowHolds(A, R, l, k, q, n);
  }

  /**
   * One step of matrix_to_REF: A[l][k] is cleared against the nonzero
   * diagonal A[k][k] and B[l] gains the same multiple of B[k].  Since row k
   * of A is 0 left of its diagonal and in every later column with a nonzero
   * diagonal, the changes to A are those of adding that multiple of row k
   * to row l.
   */
  method ReduceAbove(A: array2<bv8>, B: array2<bv8>, l: nat, k: nat, n: nat, w: nat,
                     ghost A0: Matrix, ghost B0: Matrix, ghost ops0: seq<RowOp>)
    returns (ghost ops: seq<RowOp>)
    requires A != B && l < k < n
    requires Holds(A, ApplyOps(ops0, A0), n, n) && Holds(B, ApplyOps(ops0, B0), n, w) && AllProper(ops0, n)
    requires A[k, k] != 0 && forall c :: 0 <= c < n && c != k && (c < k || A[c, c] != 0) ==> A[k, c] == 0
    modifies A, B
    ensures Holds(A, ApplyOps(ops, A0), n, n) && Holds(B, ApplyOps(ops, B0), n, w) && AllProper(ops, n)
    ensures A[l, k] == 0
    ensures forall c :: 0 <= c < n && (c < k || A[c, c] != 0) && c != k ==> A[l, c] == old(A[l, c])
    ensures forall r, c :: 0 <= r < A.Length0 && 0 <= c < A.Length1 && (r != l || c < k || c >= n) ==> A[r, c] == old(A[r, c])
    ensures UnchangedOutside(A, n, n) && UnchangedOutside(B, n, w)
  {
    var quotient := Div(A[l, k], A[k, k]);
    Clears(A[l, k], A[k, k]);
    ReduceEntryAbove(A, l, k, quotient, n, ApplyOps(ops0, A0));
    AddRowTo(B, l, k, quotient, n, w, ApplyOps(ops0, B0));
    ghost var op := AddRow(l, k, quotient);
    ApplyOpsSnoc(ops0, op, A0);
    ApplyOpsSnoc(ops0, op, B0);
    ops := ops0 + [op];
  }

  /** The row written by one step of matrix_to_REF is row l plus q times row k. */
  lemma RefRowHolds(A: array2<bv8>, R: Matrix, l: nat, k: nat, q: bv8, n: nat)
    requires l < k < n <= A.Length0 && n <= A.Length1 && |R| == n && Rect(R, n)
    requires forall r, c :: 0 <= r < n && 0 <= c < n && r != l ==> A[r, c] == R[r][c]
    requires A[l, k] == 0 && Add(R[l][k], Mul(R[k][k], q)) == 0
    requires forall c :: 0 <= c < k ==> A[l, c] == R[l][c] && R[k][c] == 0
    requires forall c :: k < c < n ==> A[l, c] == if A[c, c] == 0 then Add(R[l][c], Mul(R[k][c], q)) else R[l][c]
    requires forall c :: k < c < n && A[c, c] != 0 ==> R[k][c] == 0
    ensures Holds(A, ApplyOp(AddRow(l, k, q), R), n, n)
  {
    forall c | 0 <= c < n
      ensures A[l, c] == Add(R[l][c], Mul(R[k][c], q))
    {
      if c < k || (c > k && A[c, c] != 0) {
        assert R[k][c] == 0 && Mul(R[k][c], q) == 0;
      }
    }
    AddRowHolds(A, R, l, k, q, n, n);
  }

  /** The loop over l of matrix_to_REF: column k is cleared above its nonzero diagonal. */
  method ReduceColumnAbove(A: array2<bv8>, B: array2<bv8>, k: nat, n: nat, w: nat,
                           ghost A0: Matrix, ghost B0: Matrix, ghost ops0: seq<RowOp>)
    returns (ghost ops: seq<RowOp>)
    requires A != B && k < n
    requires Holds(A, ApplyOps(ops0, A0), n, n) && Holds(B, ApplyOps(ops0, B0), n, w) && AllProper(ops0, n)
    requires A[k, k] != 0 && ZeroBelow(A, n, n) && ClearedFrom(A, k + 1, n)
    modifies A, B
    ensures Holds(A, ApplyOps(ops, A0), n, n) && Holds(B, ApplyOps(ops, B0), n, w) && AllProper(ops, n)
    ensures ZeroBelow(A, n, n) && ClearedFrom(A, k, n)
    ensures forall d :: 0 <= d < n ==> A[d, d] == old(A[d, d])
    ensures UnchangedOutside(A, n, n) && UnchangedOutside(B, n, w)
  {
    ops := ops0;
    var l := 0;
    while l < k
      invariant 0 <= l <= k
      invariant Holds(A, ApplyOps(ops, A0), n, n) && Holds(B, ApplyOps(ops, B0), n, w) && AllProper(ops, n)
      invariant ZeroBelow(A, n, n) && ClearedFrom(A, k + 1, n)
      invariant forall r :: 0 <= r < l ==> A[r, k] == 0
      invariant forall r, c :: 0 <= r < A.Length0 && 0 <= c < A.Length1 && r >= l ==> A[r, c] == old(A[r, c])
      invariant forall d :: 0 <= d < n ==> A[d, d] == old(A[d, d])
      invariant UnchangedOutside(A, n, n) && UnchangedOutside(B, n, w)
    {
      if A[l, k] != 0 {
        ops := ReduceAbove(A, B, l, k, n, w, A0, B0, ops);
      }
      l := l + 1;
    }
  }

  /**
   * matrix_to_REF on an upper triangular ncolA x ncolA block: from the last
   * column leftwards, every column with a nonzero diagonal is cleared above
   * it; later columns with a zero diagonal take part in the row additions.
   * The diagonal is kept, and the solutions of A * X == B are kept.
   */
  method MatrixToREF(ncolA: nat, ncolB: nat, A: array2<bv8>, B: array2<bv8>)
    returns (ghost ops: seq<RowOp>)
    requires A != B && ncolA <= A.Length0 && ncolA <= A.Length1 && ncolA <= B.Length0 && ncolB <= B.Length1
    requires ZeroBelow(A, ncolA, ncolA)
    modifies A, B
    ensures AllProper(ops, ncolA)
    ensures Block(A, ncolA, ncolA) == ApplyOps(ops, old(Block(A, ncolA, ncolA)))
    ensures Block(B, ncolA, ncolB) == ApplyOps(ops, old(Block(B, ncolA, ncolB)))
    ensures ZeroBelow(A, ncolA, ncolA) && ClearedFrom(A, 0, ncolA)
    ensures forall d :: 0 <= d < ncolA ==> A[d, d] == old(A[d, d])
    ensures forall X :: Solves(old(Block(A, ncolA, ncolA)), old(Block(B, ncolA, ncolB)), X, ncolA, ncolB) <==>
                        Solves(Block(A, ncolA, ncolA), Block(B, ncolA, ncolB), X, ncolA, ncolB)
    ensures UnchangedOutside(A, ncolA, ncolA) && UnchangedOutside(B, ncolA, ncolB)
  {
    ghost var A0, B0 := Block(A, ncolA, ncolA), Block(B, ncolA, ncolB);
    BlockHolds(A, ncolA, ncolA);
    BlockHolds(B, ncolA, ncolB);
    ops := [];
    var k := ncolA;
    while k > 0
      invariant 0 <= k <= ncolA
      invariant Holds(A, ApplyOps(ops, A0), ncolA, ncolA) && Holds(B, ApplyOps(ops, B0), ncolA, ncolB)
      invariant AllProper(ops, ncolA) && ZeroBelow(A, ncolA, ncolA) && ClearedFrom(A, k, ncolA)
      invariant forall d :: 0 <= d < ncolA ==> A[d, d] == old(A[d, d])
      invariant UnchangedOutside(A, ncolA, ncolA) && UnchangedOutside(B, ncolA, ncolB)
    {
      k := k - 1;
      if A[k, k] != 0 {
        ops := ReduceColumnAbove(A, B, k, ncolA, ncolB, A0, B0, ops);
      }
    }
    HoldsBlock(A, ApplyOps(ops, A0), ncolA, ncolA);
    HoldsBlock(B, ApplyOps(ops, B0), ncolA, ncolB);
    OpsKeepSolutionSet(ops, A0, B0, ncolA, ncolB);
  }
}
