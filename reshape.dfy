/**
 * reshape_matrix and permute_matrix_columns of src/pivoting.c: given the
 * pivot lists, the k-th pivot (row rp[k], column cp[k]) is brought to
 * (k, k) by one row swap (applied to A and B alike) and one column swap
 * (applied to A), the later list entries that named k being retargeted to
 * the index k was swapped with.  The result is the input with its rows and
 * columns permuted: row k of the result is input row rp[k], column k is
 * input column cp[k], and the rows that are no pivot row end up below.
 */
module PivotReshape {
  import opened Pivoting
  import Grouping

  /** The swap loops over the first cols entries of rows i and j. */
  method SwapRowEntries(M: array2<bv8>, i: nat, j: nat, cols: nat)
    requires i < M.Length0 && j < M.Length0 && cols == M.Length1
    modifies M
    ensures forall r, c :: 0 <= r < M.Length0 && 0 <= c < cols ==> M[r, c] == old(M[Swapped(r, i, j), c])
  {
    var m := 0;
    while m < cols
      invariant 0 <= m <= cols
      invariant forall r, c :: 0 <= r < M.Length0 && 0 <= c < cols ==>
        M[r, c] == old(M[if c < m then Swapped(r, i, j) else r, c])
    {
      var t := M[i, m];
      M[i, m] := M[j, m];
      M[j, m] := t;
      m := m + 1;
    }
  }

  /** The swap loop over the first rows entries of columns i and j. */
  method SwapColumnEntries(M: array2<bv8>, i: nat, j: nat, rows: nat)
    requires i < M.Length1 && j < M.Length1 && rows == M.Length0
    modifies M
    ensures forall r, c :: 0 <= r < rows && 0 <= c < M.Length1 ==> M[r, c] == old(M[r, Swapped(c, i, j)])
  {
    var m := 0;
    while m < rows
      invariant 0 <= m <= rows
      invariant forall r, c :: 0 <= r < rows && 0 <= c < M.Length1 ==>
        M[r, c] == old(M[r, if r < m then Swapped(c, i, j) else c])
    {
      var t := M[m, i];
      M[m, i] := M[m, j];
      M[m, j] := t;
      m := m + 1;
    }
  }

  /**
   * While the pivots before k are in place: the current list entry m >= k
   * is where the original pivot index p[m] now sits (pos maps a current
   * index to the original one), and the indices below k hold their pivots.
   */
  ghost predicate Tracks(l: seq<int>, pos: seq<int>, p: seq<int>, k: nat, n: nat)
  {
    |l| == |p| && k <= |p| <= n && |pos| == n &&
    (forall m :: k <= m < |p| ==> 0 <= l[m] < n && pos[l[m]] == p[m]) &&
    (forall m :: 0 <= m < k ==> pos[m] == p[m])
  }

  /** The pivot lists start out tracking the identity placement. */
  lemma TracksStart(p: seq<int>, n: nat)
    requires |p| <= n && forall m :: 0 <= m < |p| ==> 0 <= p[m] < n
    ensures Tracks(p, seq(n, i => i), p, 0, n)
    ensures IsPermutation(seq(n, i => i), n)
  {
  }

  /**
   * The k-th pivot never sits above k, since the indices below k hold
   * their own pivots, and no later entry names the same index.
   */
  lemma PivotAhead(l: seq<int>, pos: seq<int>, p: seq<int>, k: nat, n: nat)
    requires Tracks(l, pos, p, k, n) && IsPermutation(pos, n) && Grouping.Distinct(p) && k < |p|
    ensures l[k] >= k
    ensures forall m :: k < m < |p| ==> l[m] != l[k]
  {
    forall m | 0 <= m < k
      ensures pos[m] != p[k]
    {
      assert pos[m] == p[m];
    }
    forall m | k < m < |p|
      ensures l[m] != l[k]
    {
      assert pos[l[m]] == p[m] != p[k] == pos[l[k]];
    }
  }

  /**
   * Swapping index k with t = l[k], where the k-th pivot sits, and
   * retargeting the later entries equal to k: the pivots up to k are in
   * place.
   */
  lemma {:induction false} TracksSwap(l: seq<int>, l': seq<int>, pos: seq<int>, p: seq<int>, k: nat, n: nat)
    requires Tracks(l, pos, p, k, n) && IsPermutation(pos, n) && Grouping.Distinct(p) && k < |p|
    requires |l'| == |l| && forall m :: 0 <= m < |l| ==> l'[m] == (if m > k && l[m] == k then l[k] else l[m])
    ensures Tracks(l', pos[k := pos[l[k]]][l[k] := pos[k]], p, k + 1, n)
  {
    PivotAhead(l, pos, p, k, n);
  }

  /** The retargeting walk of step k: the later entries naming k name t instead. */
  function Retargeted(l: seq<int>, k: nat, t: int): seq<int>
  {
    seq(|l|, m requires 0 <= m < |l| => if m > k && l[m] == k then t else l[m])
  }

  /**
   * The placement the swap steps k .. |l|-1 leave, starting from pos: step
   * m exchanges index m with the index t its (retargeted) entry names.
   */
  ghost function Run(l: seq<int>, pos: seq<int>, k: nat): (R: seq<int>)
    requires k <= |l| <= |pos| && forall m :: k <= m < |l| ==> 0 <= l[m] < |pos|
    ensures |R| == |pos|
    decreases |l| - k
  {
    if k == |l| then pos
    else Run(Retargeted(l, k, l[k]), pos[k := pos[l[k]]][l[k] := pos[k]], k + 1)
  }

  /** A list of pivots the placement tracks is realised by the remaining steps. */
  lemma {:induction false} RunTracks(l: seq<int>, pos: seq<int>, p: seq<int>, k: nat, n: nat)
    requires Tracks(l, pos, p, k, n) && IsPermutation(pos, n) && Grouping.Distinct(p) && |p| == n
    ensures Run(l, pos, k) == p
    decreases n - k
  {
    if k == n {
      assert forall m :: 0 <= m < n ==> pos[m] == p[m];
    } else {
      var l' := Retargeted(l, k, l[k]);
      TracksSwap(l, l', pos, p, k, n);
      SwapPermutation(pos, n, k, l[k]);
      RunTracks(l', pos[k := pos[l[k]]][l[k] := pos[k]], p, k + 1, n);
    }
  }

  /**
   * The placement made by exchanging m with T[m] for m = 0 .. k-1 in
   * turn, starting from the identity.
   */
  ghost function Swaps(T: seq<int>, k: nat, n: nat): (q: seq<int>)
    ensures |q| == n
  {
    if k == 0 then seq(n, i => i)
    else
      var q := Swaps(T, k - 1, n);
      if k - 1 < |T| && k - 1 < n && 0 <= T[k - 1] < n then q[k - 1 := q[T[k - 1]]][T[k - 1] := q[k - 1]] else q
  }

  /** The exchanges up to k depend only on the first k entries. */
  lemma {:induction false} SwapsPrefix(T: seq<int>, U: seq<int>, k: nat, n: nat)
    requires k <= |T| && k <= |U| && T[..k] == U[..k]
    ensures Swaps(T, k, n) == Swaps(U, k, n)
  {
    if k > 0 {
      assert T[..k - 1] == T[..k][..k - 1] && U[..k - 1] == U[..k][..k - 1];
      assert T[k - 1] == T[..k][k - 1] == U[..k][k - 1] == U[k - 1];
      SwapsPrefix(T, U, k - 1, n);
    }
  }

  /**
   * The first k entries of T are the exchanges made so far, each at or
   * after its own position, and they have made the placement cpos.
   */
  ghost predicate Exchanged(T: seq<int>, cpos: seq<int>, k: nat, n: nat)
  {
    k <= |T| && (forall m :: 0 <= m < k ==> m <= T[m] < n) && cpos == Swaps(T, k, n)
  }

  /** One more exchange, by the entry at k of a list agreeing with T before k. */
  lemma SwapsStep(T: seq<int>, U: seq<int>, k: nat, n: nat)
    requires k < |T| && k < |U| && k < n && T[..k] == U[..k] && 0 <= U[k] < n
    ensures var q := Swaps(T, k, n); q[k := q[U[k]]][U[k] := q[k]] == Swaps(U, k + 1, n)
  {
    SwapsPrefix(T, U, k, n);
  }

  /**
   * A list whose every entry m names an index at or after m retargets
   * nothing when it is walked, so its steps are exactly its exchanges.
   */
  lemma {:induction false} ReplayAhead(T: seq<int>, k: nat, n: nat)
    requires |T| == n && k <= n && forall m :: 0 <= m < n ==> m <= T[m] < n
    ensures Run(T, Swaps(T, k, n), k) == Swaps(T, n, n)
    decreases n - k
  {
    if k < n {
      assert Retargeted(T, k, T[k]) == T by {
        forall m | 0 <= m < n
          ensures Retargeted(T, k, T[k])[m] == T[m]
        {
          if m > k {
            assert T[m] >= m;
          }
        }
      }
      ReplayAhead(T, k + 1, n);
    }
  }

  /**
   * permute_matrix_columns given the column list reshape_matrix left
   * behind (every entry at or after its position, its exchanges making
   * the column permutation of the reshape) applies that same permutation.
   */
  lemma ReplayedExchanges(T: seq<int>, n: nat)
    requires |T| == n && forall m :: 0 <= m < n ==> m <= T[m] < n
    ensures Run(T, seq(n, i => i), 0) == Swaps(T, n, n)
  {
    ReplayAhead(T, 0, n);
  }

  /**
   * The row half of one reshape_matrix step: rows k and t (the current
   * row of the k-th row pivot) are exchanged in A and B, unless t == k,
   * and the later row pivot entries naming k are retargeted to t.
   */
  method PlaceRow(A: array2<bv8>, B: array2<bv8>, k: nat, rowPivots: SubscriptList,
                  ghost pos: seq<int>, ghost rp: seq<int>)
    returns (t: nat, ghost pos': seq<int>)
    requires A != B && A.Length0 == B.Length0
    requires IsPermutation(pos, A.Length0) && Tracks(rowPivots.items, pos, rp, k, A.Length0)
    requires Grouping.Distinct(rp) && k < |rp|
    modifies A, B, rowPivots`items
    ensures t < A.Length0 && IsPermutation(pos', A.Length0) && Tracks(rowPivots.items, pos', rp, k + 1, A.Length0)
    ensures forall r :: 0 <= r < A.Length0 ==> pos'[r] == pos[Swapped(r, k, t)]
    ensures forall r, c :: 0 <= r < A.Length0 && 0 <= c < A.Length1 ==> A[r, c] == old(A[Swapped(r, k, t), c])
    ensures forall r, c :: 0 <= r < B.Length0 && 0 <= c < B.Length1 ==> B[r, c] == old(B[Swapped(r, k, t), c])
  {
    t := rowPivots.items[k];
    ghost var l := rowPivots.items;
    pos' := pos[k := pos[t]][t := pos[k]];
    SwapPermutation(pos, A.Length0, k, t);
    if t != k {
      SwapRowEntries(A, k, t, A.Length1);
      SwapRowEntries(B, k, t, B.Length1);
      rowPivots.Retarget(k, k, t);
      TracksSwap(l, rowPivots.items, pos, rp, k, A.Length0);
    } else {
      TracksSwap(l, l, pos, rp, k, A.Length0);
      assert forall r :: Swapped(r, k, t) == r;
    }
  }

  /**
   * The column swap of reshape_matrix and permute_matrix_columns:
   * columns k and t, the index the k-th entry names, are exchanged in M,
   * unless t == k, and the later entries naming k are retargeted to t.
   */
  method PlaceColumn(M: array2<bv8>, k: nat, colPivots: SubscriptList) returns (t: nat)
    requires k < |colPivots.items| && k < M.Length1 && 0 <= colPivots.items[k] < M.Length1
    modifies M, colPivots`items
    ensures t == old(colPivots.items)[k] && colPivots.items == Retargeted(old(colPivots.items), k, t)
    ensures forall r, c :: 0 <= r < M.Length0 && 0 <= c < M.Length1 ==> M[r, c] == old(M[r, Swapped(c, k, t)])
  {
    t := colPivots.items[k];
    if t != k {
      SwapColumnEntries(M, k, t, M.Length0);
      colPivots.Retarget(k, k, t);
    } else {
      assert forall c :: Swapped(c, k, t) == c;
    }
  }

  /**
   * One step of reshape_matrix: the k-th pivot is moved to (k, k), so
   * every entry now holds what the old entry at the swapped position held.
   */
  method PlacePivot(A: array2<bv8>, B: array2<bv8>, k: nat, rowPivots: SubscriptList, colPivots: SubscriptList,
                    ghost pos: seq<int>, ghost cpos: seq<int>, ghost rp: seq<int>, ghost cp: seq<int>,
                    ghost A0: seq<seq<bv8>>, ghost B0: seq<seq<bv8>>)
    returns (t: nat, tc: nat, ghost pos': seq<int>, ghost cpos': seq<int>)
    requires A != B && A.Length0 == B.Length0 && rowPivots != colPivots
    requires |A0| == A.Length0 && (forall r :: 0 <= r < |A0| ==> |A0[r]| == A.Length1)
    requires |B0| == B.Length0 && (forall r :: 0 <= r < |B0| ==> |B0[r]| == B.Length1)
    requires IsPermutation(pos, A.Length0) && Tracks(rowPivots.items, pos, rp, k, A.Length0)
    requires IsPermutation(cpos, A.Length1) && Tracks(colPivots.items, cpos, cp, k, A.Length1)
    requires Grouping.Distinct(rp) && Grouping.Distinct(cp) && k < |rp| && k < |cp|
    requires forall r, c :: 0 <= r < A.Length0 && 0 <= c < A.Length1 ==> A[r, c] == A0[pos[r]][cpos[c]]
    requires forall r, c :: 0 <= r < B.Length0 && 0 <= c < B.Length1 ==> B[r, c] == B0[pos[r]][c]
    requires Exchanged(colPivots.items, cpos, k, A.Length1)
    modifies A, B, rowPivots`items, colPivots`items
    ensures IsPermutation(pos', A.Length0) && Tracks(rowPivots.items, pos', rp, k + 1, A.Length0)
    ensures IsPermutation(cpos', A.Length1) && Tracks(colPivots.items, cpos', cp, k + 1, A.Length1)
    ensures Exchanged(colPivots.items, cpos', k + 1, A.Length1)
    ensures forall r, c :: 0 <= r < A.Length0 && 0 <= c < A.Length1 ==> A[r, c] == A0[pos'[r]][cpos'[c]]
    ensures forall r, c :: 0 <= r < B.Length0 && 0 <= c < B.Length1 ==> B[r, c] == B0[pos'[r]][c]
  {
    t, pos' := PlaceRow(A, B, k, rowPivots, pos, rp);
    label placed:
    ghost var l := colPivots.items;
    PivotAhead(l, cpos, cp, k, A.Length1);
    tc := PlaceColumn(A, k, colPivots);
    cpos' := cpos[k := cpos[tc]][tc := cpos[k]];
    SwapPermutation(cpos, A.Length1, k, tc);
    TracksSwap(l, colPivots.items, cpos, cp, k, A.Length1);
    assert colPivots.items[..k] == l[..k];
    SwapsStep(l, colPivots.items, k, A.Length1);
    forall r, c | 0 <= r < A.Length0 && 0 <= c < A.Length1
      ensures A[r, c] == A0[pos'[r]][cpos'[c]]
    {
      assert A[r, c] == old@placed(A[r, Swapped(c, k, tc)]) == old(A[Swapped(r, k, t), Swapped(c, k, tc)]);
    }
  }

  /**
   * The loop of reshape_matrix: after it every pivot is on the diagonal,
   * so each entry holds the entry of the input (A0, B0) at its tracked
   * row and column.
   */
  method PlacePivots(A: array2<bv8>, B: array2<bv8>, rowPivots: SubscriptList, colPivots: SubscriptList,
                     ghost A0: seq<seq<bv8>>, ghost B0: seq<seq<bv8>>)
    returns (ghost pos: seq<int>, ghost cpos: seq<int>)
    requires A != B && A.Length0 == B.Length0 && A.Length1 <= A.Length0 && rowPivots != colPivots
    requires |rowPivots.items| == A.Length1 && Grouping.Distinct(rowPivots.items)
    requires forall k :: 0 <= k < A.Length1 ==> 0 <= rowPivots.items[k] < A.Length0
    requires IsPermutation(colPivots.items, A.Length1)
    requires |A0| == A.Length0 && (forall r :: 0 <= r < |A0| ==> |A0[r]| == A.Length1)
    requires |B0| == B.Length0 && (forall r :: 0 <= r < |B0| ==> |B0[r]| == B.Length1)
    requires forall r, c :: 0 <= r < A.Length0 && 0 <= c < A.Length1 ==> A[r, c] == A0[r][c]
    requires forall r, c :: 0 <= r < B.Length0 && 0 <= c < B.Length1 ==> B[r, c] == B0[r][c]
    modifies A, B, rowPivots`items, colPivots`items
    ensures IsPermutation(pos, A.Length0) && Tracks(rowPivots.items, pos, old(rowPivots.items), A.Length1, A.Length0)
    ensures Tracks(colPivots.items, cpos, old(colPivots.items), A.Length1, A.Length1)
    ensures forall r, c :: 0 <= r < A.Length0 && 0 <= c < A.Length1 ==> A[r, c] == A0[pos[r]][cpos[c]]
    ensures forall r, c :: 0 <= r < B.Length0 && 0 <= c < B.Length1 ==> B[r, c] == B0[pos[r]][c]
    ensures |colPivots.items| == A.Length1 && Exchanged(colPivots.items, cpos, A.Length1, A.Length1)
  {
    ghost var rp, cp := rowPivots.items, colPivots.items;
    TracksStart(rp, A.Length0);
    TracksStart(cp, A.Length1);
    pos := seq(A.Length0, i => i);
    cpos := seq(A.Length1, i => i);
    var k := 0;
    while k < A.Length1
      invariant 0 <= k <= A.Length1
      invariant IsPermutation(pos, A.Length0) && Tracks(rowPivots.items, pos, rp, k, A.Length0)
      invariant IsPermutation(cpos, A.Length1) && Tracks(colPivots.items, cpos, cp, k, A.Length1)
      invariant forall r, c :: 0 <= r < A.Length0 && 0 <= c < A.Length1 ==> A[r, c] == A0[pos[r]][cpos[c]]
      invariant forall r, c :: 0 <= r < B.Length0 && 0 <= c < B.Length1 ==> B[r, c] == B0[pos[r]][c]
      invariant Exchanged(colPivots.items, cpos, k, A.Length1)
    {
      var t, tc;
      t, tc, pos, cpos := PlacePivot(A, B, k, rowPivots, colPivots, pos, cpos, rp, cp, A0, B0);
      k := k + 1;
    }
  }

  /**
   * reshape_matrix for the nrow x ncolA matrix A and the nrow x ncolB
   * matrix B: row k of the result is input row rp[k] and column k is input
   * column cp[k], B's rows moving with A's; pos tells where every
   * result row came from.  The column list is left holding, at each
   * position m, the column exchanged with m at step m, which is m or a
   * later one; these exchanges make up the column permutation.
   */
  method ReshapeMatrix(A: array2<bv8>, B: array2<bv8>, rowPivots: SubscriptList, colPivots: SubscriptList)
    returns (ghost pos: seq<int>)
    requires A != B && A.Length0 == B.Length0 && A.Length1 <= A.Length0 && rowPivots != colPivots
    requires |rowPivots.items| == A.Length1 && Grouping.Distinct(rowPivots.items)
    requires forall k :: 0 <= k < A.Length1 ==> 0 <= rowPivots.items[k] < A.Length0
    requires IsPermutation(colPivots.items, A.Length1)
    modifies A, B, rowPivots`items, colPivots`items
    ensures IsPermutation(pos, A.Length0) && forall k :: 0 <= k < A.Length1 ==> pos[k] == old(rowPivots.items)[k]
    ensures forall r, c :: 0 <= r < A.Length0 && 0 <= c < A.Length1 ==> A[r, c] == old(A[pos[r], colPivots.items[c]])
    ensures forall r, c :: 0 <= r < B.Length0 && 0 <= c < B.Length1 ==> B[r, c] == old(B[pos[r], c])
    ensures |colPivots.items| == A.Length1 && forall m :: 0 <= m < A.Length1 ==> m <= colPivots.items[m] < A.Length1
    ensures Swaps(colPivots.items, A.Length1, A.Length1) == old(colPivots.items)
  {
    ghost var cp := colPivots.items;
    ghost var A0 := seq(A.Length0, r requires 0 <= r < A.Length0 reads A => seq(A.Length1, c requires 0 <= c < A.Length1 reads A => A[r, c]));
    ghost var B0 := seq(B.Length0, r requires 0 <= r < B.Length0 reads B => seq(B.Length1, c requires 0 <= c < B.Length1 reads B => B[r, c]));
    ghost var cpos;
    pos, cpos := PlacePivots(A, B, rowPivots, colPivots, A0, B0);
    assert forall c :: 0 <= c < A.Length1 ==> cpos[c] == cp[c];
  }

  /**
   * permute_matrix_columns for the nrow x ncolA matrix A: the swap steps
   * driven by the column list, whatever its entries; column c of the
   * result is input column Run(cp, identity, 0)[c], which is cp[c] when cp
   * is a permutation (RunTracks) and, for the list reshape_matrix leaves
   * behind, the permutation reshape_matrix applied (ReplayedExchanges).
   */
  method PermuteMatrixColumns(A: array2<bv8>, colPivots: SubscriptList)
    requires |colPivots.items| == A.Length1 && forall m :: 0 <= m < A.Length1 ==> 0 <= colPivots.items[m] < A.Length1
    modifies A, colPivots`items
    ensures forall r, c :: 0 <= r < A.Length0 && 0 <= c < A.Length1 ==>
      0 <= Run(old(colPivots.items), seq(A.Length1, i => i), 0)[c] < A.Length1 &&
      A[r, c] == old(A[r, Run(colPivots.items, seq(A.Length1, i => i), 0)[c]])
  {
    ghost var cp := colPivots.items;
    ghost var target := Run(cp, seq(A.Length1, i => i), 0);
    ghost var cpos := seq(A.Length1, i => i);
    var k := 0;
    while k < A.Length1
      invariant 0 <= k <= A.Length1 && |colPivots.items| == A.Length1 && |cpos| == A.Length1
      invariant forall m :: k <= m < A.Length1 ==> 0 <= colPivots.items[m] < A.Length1
      invariant forall c :: 0 <= c < A.Length1 ==> 0 <= cpos[c] < A.Length1
      invariant Run(colPivots.items, cpos, k) == target
      invariant forall r, c :: 0 <= r < A.Length0 && 0 <= c < A.Length1 ==> A[r, c] == old(A[r, cpos[c]])
    {
      ghost var l := colPivots.items;
      var tc := PlaceColumn(A, k, colPivots);
      assert Run(colPivots.items, cpos[k := cpos[tc]][tc := cpos[k]], k + 1) == Run(l, cpos, k);
      cpos := cpos[k := cpos[tc]][tc := cpos[k]];
      k := k + 1;
    }
  }
}
