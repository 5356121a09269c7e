/**
 * The running matrices of the generation-by-generation decoder
 * (struct running_matrix in src/decoderGG.c).
 *
 * A running matrix belongs to one generation.  Its columns stand for the
 * members of the generation whose content is still unknown, in the order
 * the generation lists them (the positions not erased); an erased
 * position is a member whose content is known and has been taken out of
 * every stored row.  The first remainingRows rows, read on the first
 * remainingCols columns, are equations of the unknown members: that is
 * the property every operation here keeps.
 */
module RunningMatrices {
  import opened Wrappers
  import opened GaloisArith
  import opened GaloisPrimitive
  import opened Linear
  import Packets
  import Gaussian
  import PivotRounds
  import Reordering

  datatype RunningMatrix = RunningMatrix(
    remainingRows: int,
    remainingCols: int,
    erased: seq<bool>,
    coefficient: Matrix,
    message: Matrix)

  /** The positions not erased, in increasing order: the members the columns stand for. */
  function Unerased(e: seq<bool>): (u: seq<nat>)
    ensures |u| <= |e|
    ensures forall i :: 0 <= i < |u| ==> u[i] < |e| && !e[u[i]]
  {
    if |e| == 0 then [] else Unerased(e[..|e| - 1]) + (if e[|e| - 1] then [] else [|e| - 1])
  }

  /** The contents X holds for the unknown members of a generation, in column order. */
  function Unknowns(X: seq<seq<bv8>>, ids: seq<int>, e: seq<bool>): (S: Matrix)
    requires |e| <= |ids| && forall j :: 0 <= j < |e| ==> 0 <= ids[j] < |X|
    ensures |S| == |Unerased(e)| && forall i :: 0 <= i < |S| ==> S[i] == X[ids[Unerased(e)[i]]]
  {
    var u := Unerased(e);
    seq(|u|, i requires 0 <= i < |u| => X[ids[u[i]]])
  }

  /** The top-left rows x cols block of M. */
  function Top(M: Matrix, rows: nat, cols: nat): (T: Matrix)
    requires rows <= |M| && forall r :: 0 <= r < rows ==> cols <= |M[r]|
    ensures |T| == rows && Rect(T, cols)
    ensures forall r, c :: 0 <= r < rows && 0 <= c < cols ==> T[r][c] == M[r][c]
  {
    seq(rows, r requires 0 <= r < rows => M[r][..cols])
  }

  /**
   * The buffers of a matrix of a generation of sizeG members and packets
   * of sizeP bytes, with at most sizeG stored rows and one column per
   * unknown member.
   */
  ghost predicate Dims(M: RunningMatrix, sizeG: nat, sizeP: nat)
  {
    |M.erased| == sizeG && |M.coefficient| == sizeG && Rect(M.coefficient, sizeG) &&
    |M.message| == sizeG && Rect(M.message, sizeP) &&
    M.remainingCols == |Unerased(M.erased)| && 0 <= M.remainingRows <= sizeG
  }

  /** The members of the generation are packets of X, of sizeP bytes each. */
  ghost predicate Members(ids: seq<int>, X: seq<seq<bv8>>, sizeP: nat)
  {
    forall j :: 0 <= j < |ids| ==> 0 <= ids[j] < |X| && |X[ids[j]]| == sizeP
  }

  /** Every stored row is an equation of the unknown members of the generation in X. */
  ghost predicate Equations(M: RunningMatrix, ids: seq<int>, X: seq<seq<bv8>>, sizeP: nat)
  {
    Dims(M, |ids|, sizeP) && Members(ids, X, sizeP) &&
    Solves(Top(M.coefficient, M.remainingRows, M.remainingCols), Top(M.message, M.remainingRows, sizeP),
           Unknowns(X, ids, M.erased), M.remainingCols, sizeP)
  }

  /** The known members hold their contents in X. */
  ghost predicate Known(pp: seq<Option<seq<bv8>>>, ids: seq<int>, e: seq<bool>, X: seq<seq<bv8>>)
  {
    |e| <= |ids| && forall j :: 0 <= j < |e| && e[j] ==> 0 <= ids[j] < |pp| && 0 <= ids[j] < |X| && pp[ids[j]] == Some(X[ids[j]])
  }

  /** The first n columns are upper triangular with no zero on the diagonal. */
  ghost predicate Reduced(A: Matrix, n: nat)
  {
    n <= |A| && (forall r :: 0 <= r < n ==> n <= |A[r]|) &&
    (forall d :: 0 <= d < n ==> A[d][d] != 0) &&
    (forall r, c :: 0 <= c < r < n ==> A[r][c] == 0)
  }

  // ---------------------------------------------------------------------
  // Facts about the column order
  // ---------------------------------------------------------------------

  /** One more position extends the column order by that position when it is not erased. */
  lemma UnerasedStep(e: seq<bool>, j: nat)
    requires j < |e|
    ensures Unerased(e[..j + 1]) == Unerased(e[..j]) + (if e[j] then [] else [j])
  {
    assert e[..j + 1][..j] == e[..j];
  }

  /** One more position extends the unknowns by its member when it is not erased. */
  lemma UnknownsStep(X: seq<seq<bv8>>, ids: seq<int>, e: seq<bool>, j: nat)
    requires j < |e| <= |ids| && forall k :: 0 <= k < |e| ==> 0 <= ids[k] < |X|
    ensures Unknowns(X, ids, e[..j + 1]) == Unknowns(X, ids, e[..j]) + (if e[j] then [] else [X[ids[j]]])
  {
    UnerasedStep(e, j);
  }

  /** The column of a position not erased is the number of positions not erased before it. */
  lemma UnerasedAt(e: seq<bool>, index: nat)
    requires index < |e| && !e[index]
    ensures |Unerased(e[..index])| < |Unerased(e)| && Unerased(e)[|Unerased(e[..index])|] == index
    decreases |e| - index
  {
    UnerasedStep(e, index);
    UnerasedPrefix(e, index + 1);
  }

  /** The columns of the first j positions come first. */
  lemma UnerasedPrefix(e: seq<bool>, j: nat)
    requires j <= |e|
    ensures |Unerased(e[..j])| <= |Unerased(e)| && Unerased(e)[..|Unerased(e[..j])|] == Unerased(e[..j])
    decreases |e| - j
  {
    if j == |e| {
      assert e[..j] == e;
    } else {
      UnerasedPrefix(e, j + 1);
      UnerasedStep(e, j);
    }
  }

  /** Erasing the first unknown position takes out the first column. */
  lemma FirstErased(e: seq<bool>)
    requires |Unerased(e)| > 0
    ensures Unerased(e[Unerased(e)[0] := true]) == Unerased(e)[1..]
  {
    var u0 := Unerased(e)[0];
    UnerasedErase(e, u0);
    UnerasedPrefix(e, u0);
  }

  /**
   * Erasing position index takes out the column of number count (the
   * positions not erased before it); every later column moves one to the
   * left.
   */
  lemma {:induction false} UnerasedErase(e: seq<bool>, index: nat)
    requires index < |e| && !e[index]
    ensures |Unerased(e[..index])| < |Unerased(e)|
    ensures Unerased(e[index := true]) == Reordering.Without(Unerased(e), |Unerased(e[..index])|)
    decreases |e|
  {
    UnerasedAt(e, index);
    var last := |e| - 1;
    var e' := e[index := true];
    if index == last {
      ErasedLast(e);
    } else {
      assert e'[..last] == e[..last][index := true] && e[..last][..index] == e[..index];
      UnerasedAt(e[..last], index);
      UnerasedErase(e[..last], index);
      ErasedEarlier(e, index);
    }
  }

  /** The step of UnerasedErase for the last position. */
  lemma ErasedLast(e: seq<bool>)
    requires |e| > 0 && !e[|e| - 1]
    ensures Unerased(e[|e| - 1 := true]) == Reordering.Without(Unerased(e), |Unerased(e[..|e| - 1])|)
  {
    var last := |e| - 1;
    var e' := e[last := true];
    assert e[..last + 1] == e && e'[..last + 1] == e';
    assert e'[..last] == e[..last];
    assert Unerased(e') == Unerased(e[..last]);
  }

  /** The step of UnerasedErase for a position before the last. */
  lemma ErasedEarlier(e: seq<bool>, index: nat)
    requires index < |e| - 1 && !e[index] && |Unerased(e[..index])| < |Unerased(e[..|e| - 1])|
    requires Unerased(e[..|e| - 1][index := true]) == Reordering.Without(Unerased(e[..|e| - 1]), |Unerased(e[..index])|)
    ensures Unerased(e[index := true]) == Reordering.Without(Unerased(e), |Unerased(e[..index])|)
  {
    var last := |e| - 1;
    var e' := e[index := true];
    var count := |Unerased(e[..index])|;
    assert e[..last + 1] == e && e'[..last + 1] == e';
    var T: seq<nat> := if e[last] then [] else [last];
    var A := Unerased(e[..last]);
    assert Unerased(e) == A + T;
    assert e'[..last] == e[..last][index := true];
    assert Unerased(e') == Reordering.Without(A, count) + T;
    assert Reordering.Without(A + T, count) == Reordering.Without(A, count) + T;
  }

  /** The inner product with one more term. */
  lemma DotSnoc(u: seq<bv8>, v: seq<bv8>, a: bv8, x: bv8)
    requires |u| == |v|
    ensures Dot(u + [a], v + [x]) == Add(Dot(u, v), Mul(a, x))
  {
    Reordering.DotWithout(u + [a], v + [x], |u|);
    assert Reordering.Without(u + [a], |u|) == u && Reordering.Without(v + [x], |v|) == v;
  }

  // ---------------------------------------------------------------------
  // A received packet
  // ---------------------------------------------------------------------

  /**
   * The extraction loop of process_packet_GG: the coefficients of the
   * unknown members in column order, and the payload with every known
   * member taken out (mask_packet adds its coefficient times the known
   * content).  For a packet coded from X whose known members hold their
   * contents in X, the row is an equation of the unknown members with the
   * masked payload.
   */
  method ExtractRow(erased: seq<bool>, ids: seq<int>, co: seq<bv8>, syms: seq<bv8>, pp: seq<Option<seq<bv8>>>,
                    ghost X: seq<seq<bv8>>) returns (row: seq<bv8>, payload: seq<bv8>)
    requires |erased| == |ids| == |co|
    requires forall j :: 0 <= j < |ids| && erased[j] ==> 0 <= ids[j] < |pp| && pp[ids[j]].Some? && |pp[ids[j]].value| == |syms|
    ensures |row| == |Unerased(erased)| && |payload| == |syms|
    ensures forall i :: 0 <= i < |row| ==> row[i] == co[Unerased(erased)[i]]
    ensures Members(ids, X, |syms|) && Known(pp, ids, erased, X) &&
            syms == Packets.Accumulate(Packets.Zeros(|syms|), X, ids, co, |ids|) ==>
      forall c :: 0 <= c < |syms| ==> Dot(row, Column(Unknowns(X, ids, erased), c)) == payload[c]
  {
    ghost var good := Members(ids, X, |syms|) && Known(pp, ids, erased, X);
    row, payload := [], syms;
    var j := 0;
    while j < |ids|
      invariant 0 <= j <= |ids| && |payload| == |syms|
      invariant |row| == |Unerased(erased[..j])| && forall i :: 0 <= i < |row| ==> row[i] == co[Unerased(erased[..j])[i]]
      invariant good ==> forall c :: 0 <= c < |syms| ==>
        Add(payload[c], Dot(row, Column(Unknowns(X, ids, erased[..j]), c))) == Add(syms[c], Packets.Dot(X, ids, co, j, c))
    {
      UnerasedStep(erased, j);
      ghost var row0, payload0 := row, payload;
      if erased[j] {
        payload := AddScaled(payload, pp[ids[j]].value, co[j]);
      } else {
        row := row + [co[j]];
      }
      if good {
        ExtractStep(erased, ids, co, syms, pp, X, j, row0, payload0, row, payload);
      }
      j := j + 1;
    }
    assert erased[..|ids|] == erased;
    if good && syms == Packets.Accumulate(Packets.Zeros(|syms|), X, ids, co, |ids|) {
      forall c | 0 <= c < |syms|
        ensures Dot(row, Column(Unknowns(X, ids, erased), c)) == payload[c]
      {
        Packets.AccumulateAt(Packets.Zeros(|syms|), X, ids, co, |ids|, c);
      }
    }
  }

  /** One step of the extraction loop keeps its invariant. */
  lemma ExtractStep(erased: seq<bool>, ids: seq<int>, co: seq<bv8>, syms: seq<bv8>, pp: seq<Option<seq<bv8>>>,
                    X: seq<seq<bv8>>, j: nat, row0: seq<bv8>, payload0: seq<bv8>, row: seq<bv8>, payload: seq<bv8>)
    requires |erased| == |ids| == |co| && j < |ids| && Members(ids, X, |syms|) && Known(pp, ids, erased, X)
    requires |payload0| == |syms| && |row0| == |Unerased(erased[..j])|
    requires erased[j] ==> row == row0 && payload == AddScaled(payload0, pp[ids[j]].value, co[j])
    requires !erased[j] ==> row == row0 + [co[j]] && payload == payload0
    requires forall c :: 0 <= c < |syms| ==>
      Add(payload0[c], Dot(row0, Column(Unknowns(X, ids, erased[..j]), c))) == Add(syms[c], Packets.Dot(X, ids, co, j, c))
    ensures |row| == |Unerased(erased[..j + 1])| && |payload| == |syms|
    ensures forall c :: 0 <= c < |syms| ==>
      Add(payload[c], Dot(row, Column(Unknowns(X, ids, erased[..j + 1]), c))) == Add(syms[c], Packets.Dot(X, ids, co, j + 1, c))
  {
    PowersAreDistinct();
    UnknownsStep(X, ids, erased, j);
    var S0, S := Unknowns(X, ids, erased[..j]), Unknowns(X, ids, erased[..j + 1]);
    forall c | 0 <= c < |syms|
      ensures Add(payload[c], Dot(row, Column(S, c))) == Add(syms[c], Packets.Dot(X, ids, co, j + 1, c))
    {
      var x := X[ids[j]][c];
      var m := Mul(x, co[j]);
      var D := Dot(row0, Column(S0, c));
      var P := Packets.Dot(X, ids, co, j, c);
      assert Add(payload0[c], D) == Add(syms[c], P);
      assert Packets.Dot(X, ids, co, j + 1, c) == Add(P, m);
      if erased[j] {
        assert S == S0 && pp[ids[j]].value == X[ids[j]];
        assert payload[c] == Add(payload0[c], m);
        assert Dot(row, Column(S, c)) == D;
        XorStep(payload0[c], D, syms[c], P, m);
      } else {
        assert Column(S, c) == Column(S0, c) + [x];
        DotSnoc(row0, Column(S0, c), co[j], x);
        MulCommutes(co[j], x);
        assert Dot(row, Column(S, c)) == Add(D, m);
        XorStep(payload0[c], D, syms[c], P, m);
      }
    }
  }

  /** Adding the same term to both sides of an equation between sums. */
  lemma XorStep(p: bv8, d: bv8, s: bv8, q: bv8, m: bv8)
    requires Add(p, d) == Add(s, q)
    ensures Add(Add(p, m), d) == Add(s, Add(q, m)) && Add(p, Add(d, m)) == Add(s, Add(q, m))
  {
  }

  /** The matrix with a row stored below the others: its first entries replaced, its payload as message. */
  function WithRow(M: RunningMatrix, row: seq<bv8>, payload: seq<bv8>): (R: RunningMatrix)
    requires 0 <= M.remainingRows < |M.coefficient| && M.remainingRows < |M.message|
    requires |row| <= |M.coefficient[M.remainingRows]|
  {
    var r := M.remainingRows;
    M.(remainingRows := r + 1,
       coefficient := M.coefficient[r := row + M.coefficient[r][|row|..]],
       message := M.message[r := payload])
  }

  /** A matrix with no row and no unknown column states nothing, so it holds for any members. */
  lemma Solved(M: RunningMatrix, ids: seq<int>, X: seq<seq<bv8>>, sizeP: nat)
    requires Dims(M, |ids|, sizeP) && Members(ids, X, sizeP) && M.remainingRows == 0 && M.remainingCols == 0
    ensures Equations(M, ids, X, sizeP)
  {
  }

  /** Storing an equation of the unknown members keeps every stored row an equation. */
  lemma StoredRow(M: RunningMatrix, row: seq<bv8>, payload: seq<bv8>, ids: seq<int>, X: seq<seq<bv8>>, sizeP: nat)
    requires Equations(M, ids, X, sizeP) && M.remainingRows < |ids| && |row| == M.remainingCols && |payload| == sizeP
    requires forall c :: 0 <= c < sizeP ==> Dot(row, Column(Unknowns(X, ids, M.erased), c)) == payload[c]
    ensures Equations(WithRow(M, row, payload), ids, X, sizeP)
  {
    var R := WithRow(M, row, payload);
    var r, cols := M.remainingRows, M.remainingCols;
    WithRowDims(M, row, payload, |ids|, sizeP);
    SolvesSnoc(Top(M.coefficient, r, cols), Top(M.message, r, sizeP), Unknowns(X, ids, M.erased), cols, sizeP, row, payload);
  }

  /** The top block of a matrix whose next row is replaced: the old block and the new row. */
  lemma TopSnoc(M: Matrix, N: Matrix, r: nat, cols: nat, row: seq<bv8>)
    requires r < |M| == |N| && (forall k :: 0 <= k < r ==> N[k] == M[k] && cols <= |M[k]|)
    requires |row| == cols && cols <= |N[r]| && N[r][..cols] == row
    ensures Top(N, r + 1, cols) == Top(M, r, cols) + [row]
  {
    var T, T' := Top(M, r, cols), Top(N, r + 1, cols);
    assert forall k :: 0 <= k < r ==> T'[k] == T[k];
  }

  /** One more equation that X meets keeps X a solution. */
  lemma SolvesSnoc(A: Matrix, B: Matrix, S: Matrix, n: nat, w: nat, row: seq<bv8>, payload: seq<bv8>)
    requires Solves(A, B, S, n, w) && |row| == n && |payload| == w
    requires forall c :: 0 <= c < w ==> Dot(row, Column(S, c)) == payload[c]
    ensures Solves(A + [row], B + [payload], S, n, w)
  {
    var A', B' := A + [row], B + [payload];
    forall k, c | 0 <= k < |A'| && 0 <= c < w
      ensures Dot(A'[k], Column(S, c)) == B'[k][c]
    {
      if k < |A| {
        assert A'[k] == A[k] && B'[k] == B[k];
      }
    }
  }

  /** Storing a row keeps the dimensions, the erased members and the number of unknowns. */
  lemma WithRowDims(M: RunningMatrix, row: seq<bv8>, payload: seq<bv8>, n: nat, w: nat)
    requires Dims(M, n, w) && M.remainingRows < n && |row| == M.remainingCols && |payload| == w
    ensures Dims(WithRow(M, row, payload), n, w)
    ensures WithRow(M, row, payload).erased == M.erased && WithRow(M, row, payload).remainingCols == M.remainingCols
    ensures WithRow(M, row, payload).remainingRows == M.remainingRows + 1
    ensures Top(WithRow(M, row, payload).coefficient, M.remainingRows + 1, M.remainingCols) ==
            Top(M.coefficient, M.remainingRows, M.remainingCols) + [row]
    ensures Top(WithRow(M, row, payload).message, M.remainingRows + 1, w) == Top(M.message, M.remainingRows, w) + [payload]
  {
    var R := WithRow(M, row, payload);
    assert |R.coefficient[M.remainingRows]| == n;
    TopSnoc(M.coefficient, R.coefficient, M.remainingRows, M.remainingCols, row);
    TopSnoc(M.message, R.message, M.remainingRows, w, payload);
  }

  /** Keeping only the first rows keeps them equations. */
  lemma FewerRows(M: RunningMatrix, rows: nat, ids: seq<int>, X: seq<seq<bv8>>, sizeP: nat)
    requires Equations(M, ids, X, sizeP) && rows <= M.remainingRows
    ensures Equations(M.(remainingRows := rows), ids, X, sizeP)
  {
    var cols := M.remainingCols;
    var A, A' := Top(M.coefficient, M.remainingRows, cols), Top(M.coefficient, rows, cols);
    assert forall k :: 0 <= k < rows ==> A'[k] == A[k];
  }

  // ---------------------------------------------------------------------
  // Forward and back substitution
  // ---------------------------------------------------------------------

  /** The number of nonzero entries among the first n diagonal places. */
  function Innovative(A: Matrix, n: nat): (k: nat)
    requires n <= |A| && forall d :: 0 <= d < n ==> d < |A[d]|
    ensures k <= n && (k == n <==> forall d :: 0 <= d < n ==> A[d][d] != 0)
  {
    if n == 0 then 0 else Innovative(A, n - 1) + (if A[n - 1][n - 1] != 0 then 1 else 0)
  }

  /** A block of an array is the top block of its contents. */
  lemma BlockIsTop(A: array2<bv8>, rows: nat, cols: nat)
    requires rows <= A.Length0 && cols <= A.Length1
    ensures Gaussian.Block(A, rows, cols) == Top(PivotRounds.Snapshot(A), rows, cols)
  {
    var B, T := Gaussian.Block(A, rows, cols), Top(PivotRounds.Snapshot(A), rows, cols);
    forall r | 0 <= r < rows
      ensures B[r] == T[r]
    {
    }
  }

  /**
   * The flushing step of process_packet_GG and check_for_new_decodables:
   * forward_substitute on the stored rows, then the count of nonzero
   * diagonal entries.  The stored rows have the same solutions as before,
   * zeros lie below the diagonal, and the count reaches the number of
   * columns exactly when no diagonal entry is zero (Innovative).
   */
  method Flush(M: RunningMatrix, sizeG: nat, sizeP: nat, ghost ids: seq<int>, ghost X: seq<seq<bv8>>)
    returns (F: RunningMatrix, innovatives: int)
    requires Dims(M, sizeG, sizeP) && M.remainingCols <= M.remainingRows
    ensures Dims(F, sizeG, sizeP) && F == M.(coefficient := F.coefficient, message := F.message)
    ensures forall r, c :: 0 <= c < M.remainingCols && c < r < M.remainingRows ==> F.coefficient[r][c] == 0
    ensures innovatives == Innovative(F.coefficient, M.remainingCols)
    ensures Equations(M, ids, X, sizeP) ==> Equations(F, ids, X, sizeP)
  {
    var rows, cols := M.remainingRows, M.remainingCols;
    var A := PivotRounds.ToArray(M.coefficient, sizeG, sizeG);
    var B := PivotRounds.ToArray(M.message, sizeG, sizeP);
    BlockIsTop(A, rows, cols);
    BlockIsTop(B, rows, sizeP);
    ghost var ops := Gaussian.ForwardSubstitute(rows, cols, sizeP, A, B);
    BlockIsTop(A, rows, cols);
    BlockIsTop(B, rows, sizeP);
    F := M.(coefficient := PivotRounds.Snapshot(A), message := PivotRounds.Snapshot(B));
    if Equations(M, ids, X, sizeP) {
      assert Solves(Top(F.coefficient, rows, cols), Top(F.message, rows, sizeP), Unknowns(X, ids, M.erased), cols, sizeP);
    }
    innovatives := CountInnovatives(F.coefficient, cols);
  }

  /**
   * forward_substitute over the stored rows, then the count of nonzero
   * diagonal entries (process_packet_GG, check_for_new_decodables).  When
   * every unknown column has one, the rows become as many as the columns
   * and are ready for back substitution; otherwise only the innovative
   * rows are kept, fewer than the columns.  Stored rows stay equations.
   */
  method Refresh(M: RunningMatrix, sizeG: nat, sizeP: nat, ghost ids: seq<int>, ghost X: seq<seq<bv8>>)
    returns (F: RunningMatrix, full: bool)
    requires Dims(M, sizeG, sizeP) && M.remainingCols <= M.remainingRows
    ensures Dims(F, sizeG, sizeP) && F.erased == M.erased && F.remainingCols == M.remainingCols
    ensures F.remainingRows <= M.remainingRows
    ensures full ==> F.remainingRows == F.remainingCols && Reduced(F.coefficient, F.remainingCols)
    ensures !full ==> F.remainingRows < F.remainingCols
    ensures Equations(M, ids, X, sizeP) ==> Equations(F, ids, X, sizeP)
  {
    var innovatives;
    F, innovatives := Flush(M, sizeG, sizeP, ids, X);
    full := innovatives == M.remainingCols;
    ghost var G := F;
    if full {
      F := F.(remainingRows := M.remainingCols);
    } else {
      F := F.(remainingRows := innovatives);
    }
    if Equations(M, ids, X, sizeP) {
      FewerRows(G, F.remainingRows, ids, X, sizeP);
    }
  }

  /** The counting loop after forward_substitute: the nonzero entries among the first n diagonal places. */
  method CountInnovatives(A: Matrix, n: nat) returns (innovatives: int)
    requires n <= |A| && forall d :: 0 <= d < n ==> d < |A[d]|
    ensures innovatives == Innovative(A, n)
  {
    innovatives := 0;
    var j := 0;
    while j < n
      invariant 0 <= j <= n && innovatives == Innovative(A, j)
    {
      if A[j][j] != 0 {
        innovatives := innovatives + 1;
      }
      j := j + 1;
    }
  }

  /**
   * back_substitute in decode_generation: with as many stored rows as
   * columns, upper triangular and with a nonzero diagonal, the messages
   * become the unknown members, in column order.
   */
  method Solve(M: RunningMatrix, sizeG: nat, sizeP: nat, ghost ids: seq<int>, ghost X: seq<seq<bv8>>)
    returns (F: RunningMatrix)
    requires Dims(M, sizeG, sizeP) && M.remainingRows == M.remainingCols && Reduced(M.coefficient, M.remainingCols)
    ensures Dims(F, sizeG, sizeP) && F == M.(coefficient := F.coefficient, message := F.message)
    ensures Equations(M, ids, X, sizeP) ==>
      forall i :: 0 <= i < M.remainingCols ==> F.message[i] == X[ids[Unerased(M.erased)[i]]]
  {
    var cols := M.remainingCols;
    var A := PivotRounds.ToArray(M.coefficient, sizeG, sizeG);
    var B := PivotRounds.ToArray(M.message, sizeG, sizeP);
    BlockIsTop(A, cols, cols);
    BlockIsTop(B, cols, sizeP);
    ghost var ops := Gaussian.BackSubstitute(cols, cols, sizeP, A, B);
    BlockIsTop(B, cols, sizeP);
    F := M.(coefficient := PivotRounds.Snapshot(A), message := PivotRounds.Snapshot(B));
    if Equations(M, ids, X, sizeP) {
      var S := Unknowns(X, ids, M.erased);
      assert S == Top(F.message, cols, sizeP);
      forall i | 0 <= i < cols
        ensures F.message[i] == X[ids[Unerased(M.erased)[i]]]
      {
        assert F.message[i] == Top(F.message, cols, sizeP)[i];
      }
    }
  }

  // ---------------------------------------------------------------------
  // A member becomes known
  // ---------------------------------------------------------------------

  /** The row with entry a moved to place b and the entries between moved one to the left. */
  function Moved(row: seq<bv8>, a: nat, b: nat): (r: seq<bv8>)
    requires a <= b < |row|
    ensures |r| == |row|
  {
    seq(|row|, i requires 0 <= i < |row| => if i < a || b < i then row[i] else if i < b then row[i + 1] else row[a])
  }

  /** Exchanging the moved entry with its right neighbour moves it one further. */
  lemma MovedStep(row: seq<bv8>, a: nat, b: nat)
    requires a <= b && b + 1 < |row|
    ensures Moved(row, a, b)[b := Moved(row, a, b)[b + 1]][b + 1 := Moved(row, a, b)[b]] == Moved(row, a, b + 1)
  {
  }

  /**
   * update_running_matrix: the member at position index has become known.
   * Its column, number count, is carried to the last column by adjacent
   * exchanges in every stored row; every stored row then adds its entry
   * there times the known content to its message; the position is erased
   * and one column fewer remains.  When the known content is that of X,
   * the stored rows stay equations of the unknown members of X.
   */
  method UpdateMatrix(M: RunningMatrix, index: nat, known: seq<bv8>, sizeG: nat, sizeP: nat,
                      ghost ids: seq<int>, ghost X: seq<seq<bv8>>) returns (F: RunningMatrix)
    requires Dims(M, sizeG, sizeP) && index < sizeG && !M.erased[index] && |known| == sizeP
    ensures Dims(F, sizeG, sizeP)
    ensures F.erased == M.erased[index := true] && F.remainingCols == M.remainingCols - 1
    ensures F.remainingRows == M.remainingRows
    ensures Equations(M, ids, X, sizeP) && known == X[ids[index]] ==> Equations(F, ids, X, sizeP)
  {
    var rows, cols := M.remainingRows, M.remainingCols;
    var count := ColumnOf(M.erased, index);
    UnerasedErase(M.erased, index);
    UnerasedAt(M.erased, index);
    var coef := MoveColumn(M.coefficient, rows, count, cols, sizeG);
    var msg := MaskMessages(M.message, coef, rows, cols - 1, known, sizeP);
    F := RunningMatrix(rows, cols - 1, M.erased[index := true], coef, msg);
    if Equations(M, ids, X, sizeP) && known == X[ids[index]] {
      MovedRows(M.coefficient, coef, rows, count, cols, sizeG);
      MaskedRows(M.message, msg, coef, M.coefficient, rows, count, cols - 1, known, sizeP);
      ErasedEquations(M, F, index, count, known, ids, X, sizeP);
    }
  }

  /** The counting loop of update_running_matrix: the number of positions before index not erased. */
  method ColumnOf(erased: seq<bool>, index: nat) returns (count: nat)
    requires index <= |erased|
    ensures count == |Unerased(erased[..index])|
  {
    count := 0;
    var i := 0;
    while i < index
      invariant 0 <= i <= index && count == |Unerased(erased[..i])|
    {
      UnerasedStep(erased, i);
      if !erased[i] {
        count := count + 1;
      }
      i := i + 1;
    }
  }

  /** The exchange loops of update_running_matrix: column count of the stored rows carried to column cols - 1. */
  method MoveColumn(A: Matrix, rows: nat, count: nat, cols: nat, sizeG: nat) returns (coef: Matrix)
    requires |A| == sizeG && Rect(A, sizeG) && rows <= sizeG && count < cols <= sizeG
    ensures |coef| == sizeG && Rect(coef, sizeG)
    ensures forall k :: 0 <= k < rows ==> coef[k] == Moved(A[k], count, cols - 1)
    ensures forall k :: rows <= k < sizeG ==> coef[k] == A[k]
  {
    coef := A;
    forall k | 0 <= k < rows
      ensures coef[k] == Moved(A[k], count, count)
    {
    }
    var j := count + 1;
    while j < cols
      invariant count + 1 <= j <= cols && |coef| == sizeG && Rect(coef, sizeG)
      invariant forall k :: 0 <= k < rows ==> coef[k] == Moved(A[k], count, j - 1)
      invariant forall k :: rows <= k < sizeG ==> coef[k] == A[k]
    {
      var k := 0;
      while k < rows
        invariant 0 <= k <= rows && |coef| == sizeG && Rect(coef, sizeG)
        invariant forall k' :: 0 <= k' < k ==> coef[k'] == Moved(A[k'], count, j)
        invariant forall k' :: k <= k' < rows ==> coef[k'] == Moved(A[k'], count, j - 1)
        invariant forall k' :: rows <= k' < sizeG ==> coef[k'] == A[k']
      {
        var tmp := coef[k][j - 1];
        coef := coef[k := coef[k][j - 1 := coef[k][j]][j := tmp]];
        MovedStep(A[k], count, j - 1);
        k := k + 1;
      }
      j := j + 1;
    }
  }

  /** The message loop of update_running_matrix: each stored row adds its last-column entry times known. */
  method MaskMessages(B: Matrix, coef: Matrix, rows: nat, last: nat, known: seq<bv8>, sizeP: nat) returns (msg: Matrix)
    requires rows <= |B| && rows <= |coef| && Rect(B, sizeP) && |known| == sizeP
    requires forall k :: 0 <= k < rows ==> last < |coef[k]|
    ensures |msg| == |B| && Rect(msg, sizeP)
    ensures forall k :: 0 <= k < rows ==>
      msg[k] == if coef[k][last] == 0 then B[k] else AddScaled(B[k], known, coef[k][last])
    ensures forall k :: rows <= k < |B| ==> msg[k] == B[k]
  {
    msg := B;
    var i := 0;
    while i < rows
      invariant 0 <= i <= rows && |msg| == |B| && Rect(msg, sizeP)
      invariant forall k :: 0 <= k < i ==>
        msg[k] == if coef[k][last] == 0 then B[k] else AddScaled(B[k], known, coef[k][last])
      invariant forall k :: i <= k < |B| ==> msg[k] == B[k]
    {
      var ce := coef[i][last];
      if ce != 0 {
        msg := msg[i := AddScaled(msg[i], known, ce)];
      }
      i := i + 1;
    }
  }

  /** The algebra of update_running_matrix: each stored row loses the known term and its message gains it. */
  lemma ErasedEquations(M: RunningMatrix, F: RunningMatrix, index: nat, count: nat, known: seq<bv8>,
                        ids: seq<int>, X: seq<seq<bv8>>, sizeP: nat)
    requires Equations(M, ids, X, sizeP) && index < |ids| && known == X[ids[index]]
    requires count < M.remainingCols && Unerased(M.erased)[count] == index
    requires Dims(F, |ids|, sizeP) && F.remainingRows == M.remainingRows && F.remainingCols == M.remainingCols - 1
    requires Unerased(F.erased) == Reordering.Without(Unerased(M.erased), count)
    requires forall k :: 0 <= k < M.remainingRows ==>
      Top(F.coefficient, M.remainingRows, F.remainingCols)[k] ==
      Reordering.Without(Top(M.coefficient, M.remainingRows, M.remainingCols)[k], count)
    requires forall k, c :: 0 <= k < M.remainingRows && 0 <= c < sizeP ==>
      F.message[k][c] == Add(M.message[k][c], Mul(known[c], M.coefficient[k][count]))
    ensures Equations(F, ids, X, sizeP)
  {
    var rows, cols := M.remainingRows, M.remainingCols;
    var S, S' := Unknowns(X, ids, M.erased), Unknowns(X, ids, F.erased);
    assert S' == Reordering.Without(S, count);
    var A, B := Top(M.coefficient, rows, cols), Top(M.message, rows, sizeP);
    var A', B' := Top(F.coefficient, rows, cols - 1), Top(F.message, rows, sizeP);
    forall r, c | 0 <= r < rows && 0 <= c < sizeP
      ensures Dot(A'[r], Column(S', c)) == B'[r][c]
    {
      ErasedEntry(A[r], A'[r], S, S', count, sizeP, c, B[r][c], B'[r][c], known[c]);
    }
  }

  /** One entry of ErasedEquations: the row without the erased column meets the message with the known term added. */
  lemma ErasedEntry(a: seq<bv8>, a': seq<bv8>, S: Matrix, S': Matrix, count: nat, w: nat, c: nat, b: bv8, b': bv8, k: bv8)
    requires |a| == |S| && count < |S| && Rect(S, w) && c < w && S' == Reordering.Without(S, count)
    requires a' == Reordering.Without(a, count) && Dot(a, Column(S, c)) == b
    requires S[count][c] == k && b' == Add(b, Mul(k, a[count]))
    ensures Dot(a', Column(S', c)) == b'
  {
    assert Column(S', c) == Reordering.Without(Column(S, c), count);
    ErasedRow(a, Column(S, c), count, b);
  }

  /** The exchanged coefficients, read on one column fewer, are the old ones without column count. */
  lemma MovedRows(A: Matrix, coef: Matrix, rows: nat, count: nat, cols: nat, sizeG: nat)
    requires |A| == sizeG && Rect(A, sizeG) && |coef| == sizeG && Rect(coef, sizeG) && rows <= sizeG && count < cols <= sizeG
    requires forall k :: 0 <= k < rows ==> coef[k] == Moved(A[k], count, cols - 1)
    ensures forall k :: 0 <= k < rows ==> Top(coef, rows, cols - 1)[k] == Reordering.Without(Top(A, rows, cols)[k], count)
  {
    forall k | 0 <= k < rows
      ensures Top(coef, rows, cols - 1)[k] == Reordering.Without(Top(A, rows, cols)[k], count)
    {
    }
  }

  /** The masked messages byte by byte: the known content times the erased column's entry added in. */
  lemma MaskedRows(B: Matrix, msg: Matrix, coef: Matrix, A: Matrix, rows: nat, count: nat, last: nat, known: seq<bv8>, sizeP: nat)
    requires rows <= |B| && rows <= |msg| && rows <= |coef| && rows <= |A| && Rect(B, sizeP) && Rect(msg, sizeP) && |known| == sizeP
    requires forall k :: 0 <= k < rows ==> last < |coef[k]| && count < |A[k]| && coef[k][last] == A[k][count]
    requires forall k :: 0 <= k < rows ==>
      msg[k] == if coef[k][last] == 0 then B[k] else AddScaled(B[k], known, coef[k][last])
    ensures forall k, c :: 0 <= k < rows && 0 <= c < sizeP ==> msg[k][c] == Add(B[k][c], Mul(known[c], A[k][count]))
  {
    PowersAreDistinct();
    forall k, c | 0 <= k < rows && 0 <= c < sizeP
      ensures msg[k][c] == Add(B[k][c], Mul(known[c], A[k][count]))
    {
      MulZero(known[c]);
    }
  }

  /** Taking the known term out of an inner product and adding it to the other side. */
  lemma ErasedRow(row: seq<bv8>, col: seq<bv8>, count: nat, b: bv8)
    requires |row| == |col| && count < |row| && Dot(row, col) == b
    ensures Dot(Reordering.Without(row, count), Reordering.Without(col, count)) == Add(b, Mul(col[count], row[count]))
  {
    PowersAreDistinct();
    Reordering.DotWithout(row, col, count);
    MulCommutes(row[count], col[count]);
  }
}
