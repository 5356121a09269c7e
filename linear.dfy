/**
 * Linear systems over GF(2^8) as the decoders see them: a coefficient
 * matrix A (one row per received packet), a message matrix B (the packet
 * payloads) and the unknown source packets X, related by A * X == B.
 *
 * Elimination changes A and B only by elementary row operations applied to
 * both sides at once: swapping two rows, adding a multiple of one row to
 * another, and scaling a row by a nonzero factor.  Each of them can be
 * undone, so each keeps the set of solutions X exactly; that is what makes
 * the elimination routines of gaussian.c and the decoders sound.
 */
module Linear {
  import opened GaloisArith
  import opened GaloisPrimitive

  type Matrix = seq<seq<bv8>>

  /** Every row of M has n entries. */
  predicate Rect(M: Matrix, n: nat)
  {
    forall r :: 0 <= r < |M| ==> |M[r]| == n
  }

  /** The inner product a[0] * x[0] + .. + a[n-1] * x[n-1]. */
  function Dot(a: seq<bv8>, x: seq<bv8>): bv8
    requires |a| == |x|
    decreases |a|
  {
    if |a| == 0 then 0 else Add(Mul(a[0], x[0]), Dot(a[1..], x[1..]))
  }

  /** Column c of M. */
  function Column(M: Matrix, c: nat): (r: seq<bv8>)
    requires forall k :: 0 <= k < |M| ==> c < |M[k]|
    ensures |r| == |M|
    ensures forall k :: 0 <= k < |M| ==> r[k] == M[k][c]
  {
    seq(|M|, k requires 0 <= k < |M| => M[k][c])
  }

  /** X (n source packets of w bytes) solves A * X == B, where A has n columns and B has w. */
  ghost predicate Solves(A: Matrix, B: Matrix, X: Matrix, n: nat, w: nat)
  {
    |A| == |B| && |X| == n && Rect(A, n) && Rect(B, w) && Rect(X, w) &&
    forall r, c :: 0 <= r < |A| && 0 <= c < w ==> Dot(A[r], Column(X, c)) == B[r][c]
  }

  // ---------------------------------------------------------------------
  // Elementary row operations
  // ---------------------------------------------------------------------

  datatype RowOp =
    | Swap(i: nat, j: nat)               // exchange rows i and j
    | AddRow(dst: nat, src: nat, q: bv8) // row dst += q * row src
    | ScaleRow(row: nat, c: bv8)         // row *= c

  /** The operation names rows of a matrix with `rows` rows and can be undone. */
  predicate Proper(op: RowOp, rows: nat)
  {
    match op
    case Swap(i, j) => i < rows && j < rows
    case AddRow(d, s, _) => d < rows && s < rows && d != s
    case ScaleRow(r, c) => r < rows && c != 0
  }

  /** Every operation of ops is proper for `rows` rows. */
  predicate AllProper(ops: seq<RowOp>, rows: nat)
  {
    forall k :: 0 <= k < |ops| ==> Proper(ops[k], rows)
  }

  /** The matrix after the operation; an improper operation changes nothing. */
  function ApplyOp(op: RowOp, M: Matrix): (R: Matrix)
    ensures |R| == |M|
  {
    if !Proper(op, |M|) then M
    else
      match op
      case Swap(i, j) => M[i := M[j]][j := M[i]]
      case AddRow(d, s, q) =>
        if |M[d]| <= |M[s]| then M[d := AddScaled(M[d], M[s], q)] else M
      case ScaleRow(r, c) => M[r := Scaled(M[r], c)]
  }

  /** The matrix after ops, first to last. */
  function ApplyOps(ops: seq<RowOp>, M: Matrix): (R: Matrix)
    ensures |R| == |M|
    decreases |ops|
  {
    if |ops| == 0 then M else ApplyOp(ops[|ops| - 1], ApplyOps(ops[..|ops| - 1], M))
  }

  /** The operation that undoes op. */
  function Inverse(op: RowOp): RowOp
  {
    match op
    case Swap(i, j) => Swap(i, j)
    case AddRow(d, s, q) => AddRow(d, s, q)
    case ScaleRow(r, c) => ScaleRow(r, Div(1, c))
  }

  /** Applying one more operation. */
  lemma ApplyOpsSnoc(ops: seq<RowOp>, op: RowOp, M: Matrix)
    ensures ApplyOps(ops + [op], M) == ApplyOp(op, ApplyOps(ops, M))
  {
    assert (ops + [op])[..|ops|] == ops;
  }

  /** Row operations keep the width of every row. */
  lemma ApplyOpRect(op: RowOp, M: Matrix, n: nat)
    requires Rect(M, n)
    ensures Rect(ApplyOp(op, M), n)
  {
  }

  lemma {:induction false} ApplyOpsRect(ops: seq<RowOp>, M: Matrix, n: nat)
    requires Rect(M, n)
    ensures Rect(ApplyOps(ops, M), n)
    decreases |ops|
  {
    if |ops| > 0 {
      ApplyOpsRect(ops[..|ops| - 1], M, n);
      ApplyOpRect(ops[|ops| - 1], ApplyOps(ops[..|ops| - 1], M), n);
    }
  }

  // ---------------------------------------------------------------------
  // Linearity of the inner product
  // ---------------------------------------------------------------------

  /** (a + b) * c == a * c + b * c. */
  lemma MulDistributesRight(a: bv8, b: bv8, c: bv8)
    ensures Mul(Add(a, b), c) == Add(Mul(a, c), Mul(b, c))
  {
    PowersAreDistinct();
    MulCommutes(Add(a, b), c);
    MulDistributes(c, a, b);
    MulCommutes(a, c);
    MulCommutes(b, c);
  }

  /** (a * q) * x == (a * x) * q. */
  lemma MulSwapFactors(a: bv8, q: bv8, x: bv8)
    ensures Mul(Mul(a, q), x) == Mul(Mul(a, x), q)
  {
    PowersAreDistinct();
    MulAssociates(a, q, x);
    MulCommutes(q, x);
    MulAssociates(a, x, q);
  }

  /** Adding q times b to a adds q times b . x to a . x. */
  lemma {:induction false} DotAddScaled(a: seq<bv8>, b: seq<bv8>, q: bv8, x: seq<bv8>)
    requires |a| == |b| == |x|
    ensures Dot(AddScaled(a, b, q), x) == Add(Dot(a, x), Mul(Dot(b, x), q))
    decreases |a|
  {
    if |a| > 0 {
      var s := AddScaled(a, b, q);
      assert s[1..] == AddScaled(a[1..], b[1..], q);
      DotAddScaled(a[1..], b[1..], q, x[1..]);
      var a0, b0, x0 := a[0], b[0], x[0];
      var da, db := Dot(a[1..], x[1..]), Dot(b[1..], x[1..]);
      MulDistributesRight(a0, Mul(b0, q), x0);
      MulSwapFactors(b0, q, x0);
      MulDistributesRight(Mul(b0, x0), db, q);
      XorShuffle(Mul(a0, x0), Mul(Mul(b0, x0), q), da, Mul(db, q));
    }
  }

  /** Regrouping a sum of four bytes. */
  lemma XorShuffle(p: bv8, q: bv8, r: bv8, s: bv8)
    ensures Add(Add(p, q), Add(r, s)) == Add(Add(p, r), Add(q, s))
  {
    calc {
      Add(Add(p, q), Add(r, s));
      (p ^ q) ^ (r ^ s);
      { XorRegroup(p, q, r, s); }
      (p ^ r) ^ (q ^ s);
      Add(Add(p, r), Add(q, s));
    }
  }

  lemma XorRegroup(p: bv8, q: bv8, r: bv8, s: bv8)
    ensures (p ^ q) ^ (r ^ s) == (p ^ r) ^ (q ^ s)
  {
  }

  /** Scaling a by c scales a . x by c. */
  lemma {:induction false} DotScaled(a: seq<bv8>, c: bv8, x: seq<bv8>)
    requires |a| == |x|
    ensures Dot(Scaled(a, c), x) == Mul(Dot(a, x), c)
    decreases |a|
  {
    if |a| == 0 {
      PowersAreDistinct();
      MulZero(c);
    } else {
      var s := Scaled(a, c);
      assert s[1..] == Scaled(a[1..], c);
      DotScaled(a[1..], c, x[1..]);
      MulSwapFactors(a[0], c, x[0]);
      MulDistributesRight(Mul(a[0], x[0]), Dot(a[1..], x[1..]), c);
    }
  }

  // ---------------------------------------------------------------------
  // Row operations keep the solutions
  // ---------------------------------------------------------------------

  /** A solution of A * X == B is still a solution after the same operation on A and B. */
  lemma OpKeepsSolution(op: RowOp, A: Matrix, B: Matrix, X: Matrix, n: nat, w: nat)
    requires Proper(op, |A|) && Solves(A, B, X, n, w)
    ensures Solves(ApplyOp(op, A), ApplyOp(op, B), X, n, w)
  {
    var A', B' := ApplyOp(op, A), ApplyOp(op, B);
    ApplyOpRect(op, A, n);
    ApplyOpRect(op, B, w);
    forall r, c | 0 <= r < |A'| && 0 <= c < w
      ensures Dot(A'[r], Column(X, c)) == B'[r][c]
    {
      var x := Column(X, c);
      match op
      case Swap(i, j) => {
      }
      case AddRow(d, s, q) => {
        if r == d {
          DotAddScaled(A[d], A[s], q, x);
        }
      }
      case ScaleRow(k, f) => {
        if r == k {
          DotScaled(A[k], f, x);
        }
      }
    }
  }

  /** The inverse operation is proper and undoes the operation. */
  lemma UndoOp(op: RowOp, M: Matrix, n: nat)
    requires Proper(op, |M|) && Rect(M, n)
    ensures Proper(Inverse(op), |M|)
    ensures ApplyOp(Inverse(op), ApplyOp(op, M)) == M
  {
    PowersAreDistinct();
    match op
    case Swap(i, j) => {
    }
    case AddRow(d, s, q) => {
      var row := AddScaled(AddScaled(M[d], M[s], q), M[s], q);
      assert row == M[d];
    }
    case ScaleRow(k, c) => {
      var i := Div(1, c);
      DivIsMulInverse(1, c);
      MulNonZero(i, c);
      var row := Scaled(Scaled(M[k], c), i);
      forall t | 0 <= t < n
        ensures row[t] == M[k][t]
      {
        MulAssociates(M[k][t], c, i);
        MulCommutes(c, i);
        MulOne(M[k][t]);
      }
      assert row == M[k];
    }
  }

  /** An elementary row operation applied to both sides keeps the set of solutions. */
  lemma OpSameSolutions(op: RowOp, A: Matrix, B: Matrix, X: Matrix, n: nat, w: nat)
    requires Proper(op, |A|) && |A| == |B| && Rect(A, n) && Rect(B, w)
    ensures Solves(A, B, X, n, w) <==> Solves(ApplyOp(op, A), ApplyOp(op, B), X, n, w)
  {
    if Solves(A, B, X, n, w) {
      OpKeepsSolution(op, A, B, X, n, w);
    }
    if Solves(ApplyOp(op, A), ApplyOp(op, B), X, n, w) {
      UndoOp(op, A, n);
      UndoOp(op, B, w);
      OpKeepsSolution(Inverse(op), ApplyOp(op, A), ApplyOp(op, B), X, n, w);
    }
  }

  /**
   * Any sequence of proper row operations applied to both sides keeps the
   * set of solutions of A * X == B.
   */
  lemma {:induction false} OpsSameSolutions(ops: seq<RowOp>, A: Matrix, B: Matrix, X: Matrix, n: nat, w: nat)
    requires AllProper(ops, |A|) && |A| == |B| && Rect(A, n) && Rect(B, w)
    ensures Solves(A, B, X, n, w) <==> Solves(ApplyOps(ops, A), ApplyOps(ops, B), X, n, w)
    decreases |ops|
  {
    if |ops| > 0 {
      var init := ops[..|ops| - 1];
      OpsSameSolutions(init, A, B, X, n, w);
      ApplyOpsRect(init, A, n);
      ApplyOpsRect(init, B, w);
      OpSameSolutions(ops[|ops| - 1], ApplyOps(init, A), ApplyOps(init, B), X, n, w);
    }
  }

  // ---------------------------------------------------------------------
  // Triangular and identity matrices
  // ---------------------------------------------------------------------

  /** The n x n identity matrix. */
  predicate IsIdentity(A: Matrix, n: nat)
  {
    |A| == n && Rect(A, n) && forall r, c :: 0 <= r < n && 0 <= c < n ==> A[r][c] == if r == c then 1 else 0
  }

  /** The inner product with the r-th unit vector picks x[r]. */
  lemma {:induction false} DotUnit(a: seq<bv8>, x: seq<bv8>, r: nat)
    requires |a| == |x| && r < |a|
    requires forall k :: 0 <= k < |a| ==> a[k] == if k == r then 1 else 0
    ensures Dot(a, x) == x[r]
    decreases |a|
  {
    PowersAreDistinct();
    if r == 0 {
      MulOne(x[0]);
      DotZero(a[1..], x[1..]);
    } else {
      MulZero(x[0]);
      DotUnit(a[1..], x[1..], r - 1);
    }
  }

  /** The inner product with the zero vector is 0. */
  lemma {:induction false} DotZero(a: seq<bv8>, x: seq<bv8>)
    requires |a| == |x| && forall k :: 0 <= k < |a| ==> a[k] == 0
    ensures Dot(a, x) == 0
    decreases |a|
  {
    if |a| > 0 {
      PowersAreDistinct();
      MulZero(x[0]);
      DotZero(a[1..], x[1..]);
    }
  }

  /** With A the identity, B itself is the one and only solution of A * X == B. */
  lemma IdentitySolution(A: Matrix, B: Matrix, X: Matrix, n: nat, w: nat)
    requires IsIdentity(A, n) && |B| == n && Rect(B, w)
    ensures Solves(A, B, B, n, w)
    ensures Solves(A, B, X, n, w) ==> X == B
  {
    forall r, c | 0 <= r < n && 0 <= c < w
      ensures Dot(A[r], Column(B, c)) == B[r][c]
    {
      DotUnit(A[r], Column(B, c), r);
    }
    if Solves(A, B, X, n, w) {
      forall r | 0 <= r < n
        ensures X[r] == B[r]
      {
        forall c | 0 <= c < w
          ensures X[r][c] == B[r][c]
        {
          DotUnit(A[r], Column(X, c), r);
        }
      }
    }
  }

  /** Entries below the diagonal of the first `cols` columns are 0. */
  predicate UpperTriangular(A: Matrix, cols: nat)
  {
    forall r, c :: 0 <= c < cols && c < r < |A| && c < |A[r]| ==> A[r][c] == 0
  }

  /** A sequence of proper row operations applied to both sides keeps the whole solution set. */
  lemma OpsKeepSolutionSet(ops: seq<RowOp>, A: Matrix, B: Matrix, n: nat, w: nat)
    requires AllProper(ops, |A|) && |A| == |B| && Rect(A, n) && Rect(B, w)
    ensures forall X :: Solves(A, B, X, n, w) <==> Solves(ApplyOps(ops, A), ApplyOps(ops, B), X, n, w)
  {
    forall X
      ensures Solves(A, B, X, n, w) <==> Solves(ApplyOps(ops, A), ApplyOps(ops, B), X, n, w)
    {
      OpsSameSolutions(ops, A, B, X, n, w);
    }
  }

  /**
   * Elimination that ends with the identity on the left solves the system:
   * the right-hand side it ends with is the one and only solution of the
   * original system.
   */
  lemma EliminationSolves(ops: seq<RowOp>, A: Matrix, B: Matrix, n: nat, w: nat)
    requires AllProper(ops, n) && |A| == n && |B| == n && Rect(A, n) && Rect(B, w)
    requires IsIdentity(ApplyOps(ops, A), n)
    ensures forall X :: Solves(A, B, X, n, w) <==> X == ApplyOps(ops, B)
  {
    ApplyOpsRect(ops, B, w);
    forall X
      ensures Solves(A, B, X, n, w) <==> X == ApplyOps(ops, B)
    {
      OpsSameSolutions(ops, A, B, X, n, w);
      IdentitySolution(ApplyOps(ops, A), ApplyOps(ops, B), X, n, w);
    }
  }
}
