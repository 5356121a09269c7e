/**
 * The second round of pivot_matrix_tworound of src/pivoting.c.  After the
 * first round (shared with pivot_matrix_oneround) has diagonalised the
 * active part of the working copy ces, the (nrow-ncolA+ias) x ias corner
 * of the inactive columns is given a second pivot sequence (by
 * zlatev_pivoting, whose lists are parameters here) and reordered by it
 * before forward substitution.  The column order maps ctoo and otoc and
 * the inactive columns of the rows above the corner follow the same
 * column reordering, and the result is written back into A and B as in
 * the first driver.
 */
module PivotTwoRound {
  import opened Linear
  import Gaussian
  import Grouping
  import opened Pivoting
  import PivotReshape
  import opened PivotRounds

  // ---------------------------------------------------------------------
  // The column order maps
  // ---------------------------------------------------------------------

  /**
   * The column order after the second round: the first na entries stay,
   * and inactive position i now holds what position na + cp2[i] held.
   */
  function RemappedOrder(ctoo: seq<int>, na: nat, cp2: seq<int>): (r: seq<int>)
    requires na + |cp2| == |ctoo| && forall i :: 0 <= i < |cp2| ==> 0 <= cp2[i] < |cp2|
    ensures |r| == |ctoo|
    ensures forall i :: 0 <= i < na ==> r[i] == ctoo[i]
    ensures forall i :: 0 <= i < |cp2| ==> r[na + i] == ctoo[na + cp2[i]]
  {
    ctoo[..na] + seq(|cp2|, i requires 0 <= i < |cp2| => ctoo[na + cp2[i]])
  }

  /** Reordering the inactive tail of a permutation by a permutation keeps it a permutation. */
  lemma RemappedPermutation(ctoo: seq<int>, na: nat, cp2: seq<int>)
    requires IsPermutation(ctoo, |ctoo|) && na + |cp2| == |ctoo| && IsPermutation(cp2, |cp2|)
    ensures IsPermutation(RemappedOrder(ctoo, na, cp2), |ctoo|)
  {
    var r := RemappedOrder(ctoo, na, cp2);
    forall i, j | 0 <= i < j < |r|
      ensures r[i] != r[j]
    {
      var si := if i < na then i else na + cp2[i - na];
      var sj := if j < na then j else na + cp2[j - na];
      assert r[i] == ctoo[si] && r[j] == ctoo[sj];
      if si < sj {
        assert ctoo[si] != ctoo[sj];
      } else {
        assert sj < si;
        assert ctoo[sj] != ctoo[si];
      }
    }
  }

  /** partial_mappings: entry i is ctoo[na + cp2[i]]. */
  method GatherTail(ctoo: array<int>, na: nat, cp2: seq<int>) returns (partial: array<int>)
    requires na + |cp2| == ctoo.Length && forall i :: 0 <= i < |cp2| ==> 0 <= cp2[i] < |cp2|
    ensures fresh(partial) && partial[..] == RemappedOrder(ctoo[..], na, cp2)[na..]
  {
    partial := new int[|cp2|];
    var i := 0;
    while i < |cp2|
      invariant 0 <= i <= |cp2|
      invariant forall m :: 0 <= m < i ==> partial[m] == ctoo[na + cp2[m]]
    {
      partial[i] := ctoo[na + cp2[i]];
      i := i + 1;
    }
  }

  /** The memcpy of partial_mappings over the inactive tail of ctoo. */
  method CopyTail(ctoo: array<int>, na: nat, partial: array<int>)
    requires ctoo != partial && na + partial.Length == ctoo.Length
    modifies ctoo
    ensures ctoo[..] == old(ctoo[..na]) + partial[..]
  {
    var i := 0;
    while i < partial.Length
      invariant 0 <= i <= partial.Length
      invariant forall m :: 0 <= m < ctoo.Length ==> ctoo[m] == (if na <= m < na + i then partial[m - na] else old(ctoo[m]))
    {
      ctoo[na + i] := partial[i];
      i := i + 1;
    }
  }

  /** otoc[ctoo[i]] = i for every i: otoc becomes the inverse of the permutation ctoo. */
  method RebuildInverse(ctoo: array<int>, otoc: array<int>)
    requires ctoo != otoc && ctoo.Length == otoc.Length && IsPermutation(ctoo[..], ctoo.Length)
    modifies otoc
    ensures Inverses(otoc[..], ctoo[..])
  {
    var i := 0;
    while i < ctoo.Length
      invariant 0 <= i <= ctoo.Length
      invariant forall m :: 0 <= m < i ==> otoc[ctoo[m]] == m
    {
      otoc[ctoo[i]] := i;
      i := i + 1;
    }
    InverseFromLeft(otoc[..], ctoo[..]);
  }

  /**
   * The update of the column order maps after the second pivoting: the
   * inactive tail of ctoo is reordered through partial_mappings by the
   * second column pivot list, and otoc is rebuilt as its inverse.
   */
  method RemapColumns(ctoo: array<int>, otoc: array<int>, ias: nat, colPivots2: SubscriptList)
    requires ctoo != otoc && ctoo.Length == otoc.Length && ias <= ctoo.Length
    requires Inverses(otoc[..], ctoo[..]) && IsPermutation(colPivots2.items, ias)
    modifies ctoo, otoc
    ensures ctoo[..] == RemappedOrder(old(ctoo[..]), ctoo.Length - ias, colPivots2.items)
    ensures Inverses(otoc[..], ctoo[..])
  {
    var na := ctoo.Length - ias;
    ghost var order := RemappedOrder(ctoo[..], na, colPivots2.items);
    RemappedPermutation(ctoo[..], na, colPivots2.items);
    var partial := GatherTail(ctoo, na, colPivots2.items);
    CopyTail(ctoo, na, partial);
    assert ctoo[..] == order;
    RebuildInverse(ctoo, otoc);
  }

  // ---------------------------------------------------------------------
  // The reordered corner and the columns above it
  // ---------------------------------------------------------------------

  /**
   * The corner of the first round's result from row and column na on,
   * reordered by the second pivot lists: pos2 is a permutation of its rows
   * that starts with the row pivots rp2, and S0 and SB0 are the corner and
   * the matching rows of EB in that order, the columns in the order cp2.
   */
  ghost predicate CornerReordered(E: Matrix, EB: Matrix, ncolA: nat, ncolB: nat, na: nat, rp2: seq<int>, cp2: seq<int>,
                                  pos2: seq<int>, S0: Matrix, SB0: Matrix)
  {
    na <= ncolA <= |E| && Rect(E, ncolA) && |EB| == |E| && Rect(EB, ncolB) &&
    IsPermutation(cp2, ncolA - na) && IsPermutation(pos2, |E| - na) && |rp2| == ncolA - na &&
    (forall k :: 0 <= k < |rp2| ==> pos2[k] == rp2[k]) &&
    S0 == Permuted(Corner(E, na, na, ncolA), pos2, cp2, ncolA - na) &&
    SB0 == Permuted(Corner(EB, na, 0, ncolB), pos2, Identity(ncolB), ncolB)
  }

  /**
   * The first rows rows of E with the inactive columns (from na on) in the
   * order cp2, and everything else as in E.
   */
  ghost predicate InactiveReordered(E: Matrix, E2: Matrix, ncol: nat, na: nat, rows: nat, cp2: seq<int>)
  {
    na <= ncol && rows <= |E| && |E2| == |E| && Rect(E, ncol) && Rect(E2, ncol) && IsPermutation(cp2, ncol - na) &&
    forall r, c :: 0 <= r < |E| && 0 <= c < ncol ==>
      E2[r][c] == if r < rows && c >= na then E[r][na + cp2[c - na]] else E[r][c]
  }

  /**
   * ces_submatrix and msg_submatrix, copied from the rows na on of ces
   * (its inactive columns) and msg, then reordered by reshape_matrix with
   * the second pivot lists.  The column list is left holding the
   * exchanges that make up its permutation.
   */
  method ReshapeCorner(ces: array2<bv8>, msg: array2<bv8>, na: nat, rowPivots2: SubscriptList, colPivots2: SubscriptList,
                       ghost E: Matrix, ghost EB: Matrix)
    returns (sub: array2<bv8>, subMsg: array2<bv8>, ghost pos2: seq<int>, ghost S0: Matrix, ghost SB0: Matrix)
    requires ces.Length0 == msg.Length0 && na <= ces.Length1 <= ces.Length0 && rowPivots2 != colPivots2
    requires E == Gaussian.Block(ces, ces.Length0, ces.Length1) && EB == Gaussian.Block(msg, msg.Length0, msg.Length1)
    requires |rowPivots2.items| == ces.Length1 - na && Grouping.Distinct(rowPivots2.items)
    requires forall k :: 0 <= k < ces.Length1 - na ==> 0 <= rowPivots2.items[k] < ces.Length0 - na
    requires IsPermutation(colPivots2.items, ces.Length1 - na)
    modifies rowPivots2`items, colPivots2`items
    ensures fresh(sub) && fresh(subMsg) && sub != subMsg
    ensures sub.Length0 == ces.Length0 - na && sub.Length1 == ces.Length1 - na
    ensures subMsg.Length0 == ces.Length0 - na && subMsg.Length1 == msg.Length1
    ensures S0 == Gaussian.Block(sub, sub.Length0, sub.Length1) && SB0 == Gaussian.Block(subMsg, subMsg.Length0, subMsg.Length1)
    ensures CornerReordered(E, EB, ces.Length1, msg.Length1, na, old(rowPivots2.items), old(colPivots2.items), pos2, S0, SB0)
    ensures |colPivots2.items| == sub.Length1 && forall m :: 0 <= m < sub.Length1 ==> m <= colPivots2.items[m] < sub.Length1
    ensures PivotReshape.Swaps(colPivots2.items, sub.Length1, sub.Length1) == old(colPivots2.items)
  {
    sub := CopyCorner(ces, na, na);
    subMsg := CopyCorner(msg, na, 0);
    CopiedCorner(sub, ces, na, na);
    CopiedCorner(subMsg, msg, na, 0);
    ghost var C, CB := Corner(E, na, na, ces.Length1), Corner(EB, na, 0, msg.Length1);
    ghost var cp2 := colPivots2.items;
    pos2 := PivotReshape.ReshapeMatrix(sub, subMsg, rowPivots2, colPivots2);
    ReshapedBlock(sub, C, pos2, cp2, sub.Length1);
    ReshapedBlock(subMsg, CB, pos2, Identity(msg.Length1), msg.Length1);
    S0, SB0 := Gaussian.Block(sub, sub.Length0, sub.Length1), Gaussian.Block(subMsg, subMsg.Length0, subMsg.Length1);
  }

  /** calloc and memcpy of BI_matrix: the first rows rows of M from column c0 on. */
  method CopyTop(M: array2<bv8>, rows: nat, c0: nat) returns (C: array2<bv8>)
    requires rows <= M.Length0 && c0 <= M.Length1
    ensures fresh(C) && C.Length0 == rows && C.Length1 == M.Length1 - c0
    ensures forall r, c :: 0 <= r < C.Length0 && 0 <= c < C.Length1 ==> C[r, c] == M[r, c0 + c]
  {
    C := new bv8[rows, M.Length1 - c0]((r, c) requires 0 <= r < rows && 0 <= c < M.Length1 - c0 reads M => M[r, c0 + c]);
  }

  /**
   * BI_matrix: the inactive columns of the first rows rows of ces are
   * copied out, reordered by permute_matrix_columns with the column list
   * reshape_matrix left behind, and copied back.  Replaying that list
   * applies the second column permutation cp2 (ReplayedExchanges).
   */
  method PermuteInactive(ces: array2<bv8>, na: nat, ias: nat, rows: nat, colPivots2: SubscriptList,
                         ghost cp2: seq<int>, ghost E: Matrix)
    returns (ghost E2: Matrix)
    requires Gaussian.Holds(ces, E, ces.Length0, ces.Length1)
    requires na + ias == ces.Length1 && rows <= ces.Length0 && IsPermutation(cp2, ias)
    requires |colPivots2.items| == ias && forall m :: 0 <= m < ias ==> m <= colPivots2.items[m] < ias
    requires PivotReshape.Swaps(colPivots2.items, ias, ias) == cp2
    modifies ces, colPivots2`items
    ensures E2 == Gaussian.Block(ces, ces.Length0, ces.Length1) && InactiveReordered(E, E2, ces.Length1, na, rows, cp2)
  {
    var BI := CopyTop(ces, rows, na);
    PivotReshape.ReplayedExchanges(colPivots2.items, ias);
    PivotReshape.PermuteMatrixColumns(BI, colPivots2);
    CopyBack(ces, BI, na, rows);
    InactiveBlock(ces, E, na, rows, cp2);
    E2 := Gaussian.Block(ces, ces.Length0, ces.Length1);
  }


  /** The memcpy loop that copies BI_matrix back over the inactive columns of the first rows rows. */
  method CopyBack(ces: array2<bv8>, BI: array2<bv8>, na: nat, rows: nat)
    requires ces != BI && rows <= ces.Length0 && BI.Length0 == rows && na <= ces.Length1 && BI.Length1 == ces.Length1 - na
    modifies ces
    ensures forall r, c :: 0 <= r < ces.Length0 && 0 <= c < ces.Length1 ==>
      ces[r, c] == if r < rows && c >= na then BI[r, c - na] else old(ces[r, c])
  {
    var i := 0;
    while i < rows
      invariant 0 <= i <= rows
      invariant forall r, c :: 0 <= r < ces.Length0 && 0 <= c < ces.Length1 ==>
        ces[r, c] == if r < i && c >= na then BI[r, c - na] else old(ces[r, c])
    {
      CopyRow(ces, i, na, BI, i);
      i := i + 1;
    }
  }

  /** The entries PermuteInactive leaves in ces, as a relation between the matrices before and after. */
  lemma InactiveBlock(ces: array2<bv8>, E: Matrix, na: nat, rows: nat, cp2: seq<int>)
    requires |E| == ces.Length0 && Rect(E, ces.Length1)
    requires na <= ces.Length1 && rows <= ces.Length0 && IsPermutation(cp2, ces.Length1 - na)
    requires forall r, c :: 0 <= r < ces.Length0 && 0 <= c < ces.Length1 ==>
      ces[r, c] == if r < rows && c >= na then E[r][na + cp2[c - na]] else E[r][c]
    ensures InactiveReordered(E, Gaussian.Block(ces, ces.Length0, ces.Length1), ces.Length1, na, rows, cp2)
  {
  }


  // ---------------------------------------------------------------------
  // The second round
  // ---------------------------------------------------------------------

  /**
   * The reordering part of the second round: the column order maps are
   * remapped, the corner is copied out and reordered by the second pivot
   * lists, and the inactive columns of the rows above it follow the column
   * reordering.  E and EB are ces and msg on entry; E2 is ces afterwards.
   */
  method ReorderSecond(ces: array2<bv8>, msg: array2<bv8>, ias: nat,
                       rowPivots2: SubscriptList, colPivots2: SubscriptList, ghost E: Matrix, ghost EB: Matrix)
    returns (sub: array2<bv8>, subMsg: array2<bv8>, ghost na: nat, ghost pos2: seq<int>, ghost S0: Matrix, ghost SB0: Matrix,
             ghost E2: Matrix)
    requires ces != msg && rowPivots2 != colPivots2
    requires ces.Length0 == msg.Length0 && ces.Length1 <= ces.Length0 && ias <= ces.Length1
    requires E == Gaussian.Block(ces, ces.Length0, ces.Length1) && EB == Gaussian.Block(msg, msg.Length0, msg.Length1)
    requires |rowPivots2.items| == ias && Grouping.Distinct(rowPivots2.items)
    requires forall k :: 0 <= k < ias ==> 0 <= rowPivots2.items[k] < ces.Length0 - (ces.Length1 - ias)
    requires IsPermutation(colPivots2.items, ias)
    modifies ces, rowPivots2`items, colPivots2`items
    ensures na == ces.Length1 - ias
    ensures fresh(sub) && fresh(subMsg) && sub != subMsg
    ensures sub.Length0 == ces.Length0 - na && sub.Length1 == ces.Length1 - na
    ensures subMsg.Length0 == ces.Length0 - na && subMsg.Length1 == msg.Length1
    ensures S0 == Gaussian.Block(sub, sub.Length0, sub.Length1) && SB0 == Gaussian.Block(subMsg, subMsg.Length0, subMsg.Length1)
    ensures E2 == Gaussian.Block(ces, ces.Length0, ces.Length1)
    ensures CornerReordered(E, EB, ces.Length1, msg.Length1, na, old(rowPivots2.items), old(colPivots2.items), pos2, S0, SB0)
    ensures InactiveReordered(E, E2, ces.Length1, na, ces.Length0 - ias, old(colPivots2.items))
  {
    var n := ces.Length1 - ias;
    na := n;
    ghost var cp2 := colPivots2.items;
    sub, subMsg, pos2, S0, SB0 := ReshapeCorner(ces, msg, n, rowPivots2, colPivots2, E, EB);
    Gaussian.BlockHolds(ces, ces.Length0, ces.Length1);
    E2 := PermuteInactive(ces, n, ias, ces.Length0 - ias, colPivots2, cp2, E);
  }

  /**
   * Forward substitution on the reordered corner and the write-back of
   * both rounds into A and B.  ces and msg hold E2 and EB, sub and subMsg
   * hold S0 and SB0.
   */
  method SubstituteAndWrite(A: array2<bv8>, B: array2<bv8>, ces: array2<bv8>, msg: array2<bv8>,
                            sub: array2<bv8>, subMsg: array2<bv8>, na: nat,
                            ghost E2: Matrix, ghost EB: Matrix, ghost S0: Matrix, ghost SB0: Matrix)
    returns (ghost ops2: seq<RowOp>, ghost S: Matrix, ghost SB: Matrix)
    requires A != B && A != ces && A != msg && B != ces && B != msg && sub != subMsg
    requires sub != A && sub != B && sub != ces && sub != msg && subMsg != A && subMsg != B && subMsg != ces && subMsg != msg
    requires A.Length0 == B.Length0 == ces.Length0 == msg.Length0 && A.Length1 == ces.Length1 <= A.Length0 && B.Length1 == msg.Length1
    requires na <= A.Length1 && sub.Length0 == subMsg.Length0 == A.Length0 - na && sub.Length1 == A.Length1 - na
    requires subMsg.Length1 == B.Length1
    requires E2 == Gaussian.Block(ces, ces.Length0, ces.Length1) && EB == Gaussian.Block(msg, msg.Length0, msg.Length1)
    requires S0 == Gaussian.Block(sub, sub.Length0, sub.Length1) && SB0 == Gaussian.Block(subMsg, subMsg.Length0, subMsg.Length1)
    modifies A, B, sub, subMsg
    ensures CornerSolved(S0, SB0, sub.Length1, B.Length1, ops2, S, SB)
    ensures WrittenBack(A, old(Snapshot(A)), E2, S, na, A.Length1, na)
    ensures WrittenBack(B, old(Snapshot(B)), EB, SB, na, A.Length1, 0)
  {
    ghost var A0, B0 := Snapshot(A), Snapshot(B);
    ops2, S, SB := Substitute(sub, subMsg, S0, SB0);
    WriteBackContents(A, ces, sub, na, A.Length1, na, A0, E2, S);
    WriteBackContents(B, msg, subMsg, na, A.Length1, 0, B0, EB, SB);
  }

  /**
   * The corner is reordered by the second pivot lists, brought to upper
   * triangular form with the same solutions, and written back into A and
   * B with the inactive columns of the rows above it in the new order.
   */
  method SolveSecond(A: array2<bv8>, B: array2<bv8>, ces: array2<bv8>, msg: array2<bv8>,
                     ias: nat, rowPivots2: SubscriptList, colPivots2: SubscriptList, ghost E: Matrix, ghost EB: Matrix,
                     ghost A0: Matrix, ghost B0: Matrix, ghost rp2: seq<int>, ghost cp2: seq<int>)
    returns (ghost na: nat, ghost pos2: seq<int>, ghost S0: Matrix, ghost SB0: Matrix, ghost E2: Matrix,
             ghost ops2: seq<RowOp>, ghost S: Matrix, ghost SB: Matrix)
    requires A != B && ces != msg && A != ces && A != msg && B != ces && B != msg && rowPivots2 != colPivots2
    requires A.Length0 == B.Length0 == ces.Length0 == msg.Length0 && A.Length1 == ces.Length1 <= A.Length0 && B.Length1 == msg.Length1
    requires ias <= A.Length1 && A0 == Snapshot(A) && B0 == Snapshot(B) && rp2 == rowPivots2.items && cp2 == colPivots2.items
    requires E == Gaussian.Block(ces, ces.Length0, ces.Length1) && EB == Gaussian.Block(msg, msg.Length0, msg.Length1)
    requires |rowPivots2.items| == ias && Grouping.Distinct(rowPivots2.items)
    requires forall k :: 0 <= k < ias ==> 0 <= rowPivots2.items[k] < A.Length0 - (A.Length1 - ias)
    requires IsPermutation(colPivots2.items, ias)
    modifies A, B, ces, rowPivots2`items, colPivots2`items
    ensures na == A.Length1 - ias
    ensures CornerReordered(E, EB, ces.Length1, msg.Length1, na, rp2, cp2, pos2, S0, SB0)
    ensures InactiveReordered(E, E2, ces.Length1, na, ces.Length0 - ias, cp2)
    ensures CornerSolved(S0, SB0, ias, B.Length1, ops2, S, SB)
    ensures WrittenBack(A, A0, E2, S, na, A.Length1, na)
    ensures WrittenBack(B, B0, EB, SB, na, A.Length1, 0)
  {
    var sub, subMsg;
    sub, subMsg, na, pos2, S0, SB0, E2 := ReorderSecond(ces, msg, ias, rowPivots2, colPivots2, E, EB);
    ops2, S, SB := SubstituteAndWrite(A, B, ces, msg, sub, subMsg, A.Length1 - ias, E2, EB, S0, SB0);
  }

  /**
   * pivot_matrix_tworound from the end of the first round on.  ces and
   * msg hold E and EB, the first round's result, and ctoo and otoc its
   * column order; rowPivots2 and colPivots2 are the pivot lists
   * zlatev_pivoting chose for the corner.  The column order maps follow
   * the second column permutation, and the corner is solved and written
   * back as SolveSecond states.
   */
  method SecondRound(A: array2<bv8>, B: array2<bv8>, otoc: array<int>, ces: array2<bv8>, msg: array2<bv8>,
                     ctoo: array<int>, ias: nat, rowPivots2: SubscriptList, colPivots2: SubscriptList,
                     ghost E: Matrix, ghost EB: Matrix)
    returns (ghost na: nat, ghost pos2: seq<int>, ghost S0: Matrix, ghost SB0: Matrix, ghost E2: Matrix,
             ghost ops2: seq<RowOp>, ghost S: Matrix, ghost SB: Matrix)
    requires A != B && ces != msg && A != ces && A != msg && B != ces && B != msg && otoc != ctoo && rowPivots2 != colPivots2
    requires A.Length0 == B.Length0 == ces.Length0 == msg.Length0 && A.Length1 == ces.Length1 <= A.Length0 && B.Length1 == msg.Length1
    requires otoc.Length == ctoo.Length == A.Length1 && ias <= A.Length1
    requires E == Gaussian.Block(ces, ces.Length0, ces.Length1) && EB == Gaussian.Block(msg, msg.Length0, msg.Length1)
    requires Inverses(otoc[..], ctoo[..])
    requires |rowPivots2.items| == ias && Grouping.Distinct(rowPivots2.items)
    requires forall k :: 0 <= k < ias ==> 0 <= rowPivots2.items[k] < A.Length0 - (A.Length1 - ias)
    requires IsPermutation(colPivots2.items, ias)
    modifies A, B, otoc, ctoo, ces, rowPivots2`items, colPivots2`items
    ensures na == A.Length1 - ias
    ensures ctoo[..] == RemappedOrder(old(ctoo[..]), na, old(colPivots2.items)) && Inverses(otoc[..], ctoo[..])
    ensures CornerReordered(E, EB, ces.Length1, msg.Length1, na, old(rowPivots2.items), old(colPivots2.items), pos2, S0, SB0)
    ensures InactiveReordered(E, E2, ces.Length1, na, ces.Length0 - ias, old(colPivots2.items))
    ensures CornerSolved(S0, SB0, ias, B.Length1, ops2, S, SB)
    ensures WrittenBack(A, old(Snapshot(A)), E2, S, na, A.Length1, na)
    ensures WrittenBack(B, old(Snapshot(B)), EB, SB, na, A.Length1, 0)
  {
    ghost var A0, B0, rp2, cp2 := Snapshot(A), Snapshot(B), rowPivots2.items, colPivots2.items;
    RemapColumns(ctoo, otoc, ias, colPivots2);
    na, pos2, S0, SB0, E2, ops2, S, SB := SolveSecond(A, B, ces, msg, ias, rowPivots2, colPivots2, E, EB, A0, B0, rp2, cp2);
  }
}
