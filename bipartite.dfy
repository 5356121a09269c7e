/**
 * src/bipartite.c: the LDPC precode graph of section 5.4.2.3 of RFC 5053.
 * Left nodes are the source packets, right nodes the check packets.  The
 * neighbour lists (`NBR_nodes`) are modelled by the sequence of the IDs
 * they carry, in list order; the edge coefficient `ce` is never set by the
 * source and is taken to be 1 wherever the encoders read it.
 */
module Bipartite {
  import opened Common
  import opened Arith

  // ---------------------------------------------------------------------
  // The neighbours of a left node
  // ---------------------------------------------------------------------

  /** `(x % S == 0) ? S : x % S`: x reduced into [1, S]. */
  function Wrap(x: nat, S: nat): (r: nat)
    requires S > 0
    ensures 1 <= r <= S
  {
    if x % S == 0 then S else x % S
  }

  /**
   * The three right nodes that left node l joins, in the order the edges
   * are made: column j of circulant block i (l == i * S + j) has its 1s in
   * rows j, a - 1 and b - 1.
   */
  function CheckNeighbours(l: nat, S: nat): (r: seq<nat>)
    requires S > 0
    ensures |r| == 3
  {
    var i, j := l / S, l % S;
    [j, Wrap(i + 1 + 1 + j, S) - 1, Wrap(2 * (i + 1) + 1 + j, S) - 1]
  }

  /** Wrap(x, S) - 1 is (x - 1) mod S. */
  lemma WrapLessOne(x: nat, S: nat)
    requires S > 0 && x >= 1
    ensures Wrap(x, S) - 1 == (x - 1) % S
  {
    ModPredecessor(x, S);
  }

  /** The right neighbours of a left node from its block i and offset j. */
  lemma NeighboursOfBlock(l: nat, i: nat, j: nat, S: nat)
    requires S > 0 && l / S == i && l % S == j
    ensures CheckNeighbours(l, S) == [j, (i + 1 + j) % S, (2 * i + 2 + j) % S]
  {
    var r := CheckNeighbours(l, S);
    assert r[0] == j;
    assert r[1] == (i + 1 + j) % S by {
      WrapLessOne(i + 1 + 1 + j, S);
    }
    assert r[2] == (2 * i + 2 + j) % S by {
      WrapLessOne(2 * (i + 1) + 1 + j, S);
    }
  }

  /**
   * Column j of circulant block i (left node l == i * S + j) has its 1s in
   * rows j, (i + 1 + j) mod S and (2i + 2 + j) mod S.
   */
  lemma NeighboursClosedForm(l: nat, i: nat, j: nat, S: nat)
    requires j < S && l == i * S + j
    ensures CheckNeighbours(l, S) == [j, (i + 1 + j) % S, (2 * i + 2 + j) % S]
  {
    DivModUnique(l, i, j, S);
    NeighboursOfBlock(l, i, j, S);
  }

  /** Within a circulant block, column j is the block's first column shifted down cyclically by j. */
  lemma CirculantShift(l: nat, first: nat, i: nat, j: nat, S: nat)
    requires j < S && first == i * S && l == first + j
    ensures forall k :: 0 <= k < 3 ==> CheckNeighbours(l, S)[k] == (CheckNeighbours(first, S)[k] + j) % S
  {
    NeighboursClosedForm(l, i, j, S);
    NeighboursClosedForm(first, i, 0, S);
    var r, r0 := CheckNeighbours(l, S), CheckNeighbours(first, S);
    assert r[0] == (r0[0] + j) % S by {
      DivModUnique(j, 0, j, S);
    }
    assert r[1] == (r0[1] + j) % S by {
      ModAddLeft(i + 1, j, S);
    }
    assert r[2] == (r0[2] + j) % S by {
      ModAddLeft(2 * i + 2, j, S);
    }
  }

  /** The right nodes of any left node lie in [0, S). */
  lemma NeighboursInRange(l: nat, S: nat)
    requires S > 0
    ensures forall k :: 0 <= k < 3 ==> CheckNeighbours(l, S)[k] < S
  {
    NeighboursOfBlock(l, l / S, l % S, S);
  }

  // ---------------------------------------------------------------------
  // The neighbours of a right node
  // ---------------------------------------------------------------------

  /** k copies of x. */
  function Copies(x: nat, k: nat): (r: seq<nat>)
    ensures |r| == k && forall i :: 0 <= i < k ==> r[i] == x
  {
    seq(k, _ => x)
  }

  /**
   * The list of right node r once the left nodes below n have been joined,
   * where left node l has the right neighbours L[l]: each left node once
   * per edge it has to r, in increasing order.
   */
  function LeftsOf(r: nat, n: nat, L: seq<seq<nat>>): seq<nat>
    requires n <= |L|
  {
    if n == 0 then [] else LeftsOf(r, n - 1, L) + Copies(n - 1, multiset(L[n - 1])[r])
  }

  /** Every edge is recorded on both sides: l is a neighbour of r exactly when r is a neighbour of l. */
  lemma {:induction false} EdgesBothWays(r: nat, n: nat, L: seq<seq<nat>>, l: nat)
    requires l < n <= |L|
    ensures l in LeftsOf(r, n, L) <==> r in L[l]
  {
    if l < n - 1 {
      EdgesBothWays(r, n - 1, L, l);
      assert l !in Copies(n - 1, multiset(L[n - 1])[r]);
    } else {
      assert r in L[l] <==> multiset(L[l])[r] > 0;
      LeftsBelow(r, n - 1, L);
      if multiset(L[l])[r] > 0 {
        assert LeftsOf(r, n, L)[|LeftsOf(r, n - 1, L)|] == l;
      }
    }
  }

  /** The list of r after n left nodes holds only nodes below n. */
  lemma {:induction false} LeftsBelow(r: nat, n: nat, L: seq<seq<nat>>)
    requires n <= |L|
    ensures forall x :: x in LeftsOf(r, n, L) ==> x < n
  {
    if n > 0 {
      LeftsBelow(r, n - 1, L);
    }
  }

  /** sum over r < m of the number of times r occurs in s. */
  function CountBelow(s: seq<nat>, m: nat): (c: nat)
    ensures s == [] ==> c == 0
  {
    if m == 0 then 0 else CountBelow(s, m - 1) + multiset(s)[m - 1]
  }

  lemma {:induction false} CountBelowSnoc(s: seq<nat>, x: nat, m: nat)
    ensures CountBelow(s + [x], m) == CountBelow(s, m) + if x < m then 1 else 0
  {
    if m > 0 {
      CountBelowSnoc(s, x, m - 1);
      assert multiset(s + [x]) == multiset(s) + multiset{x};
    }
  }

  /** When every element of s is below S, counting the occurrences of each r < S counts all of s. */
  lemma {:induction false} CountBelowAll(s: seq<nat>, S: nat)
    requires forall k :: 0 <= k < |s| ==> s[k] < S
    ensures CountBelow(s, S) == |s|
    decreases |s|
  {
    if |s| > 0 {
      var t, x := s[..|s| - 1], s[|s| - 1];
      assert s == t + [x];
      CountBelowAll(t, S);
      CountBelowSnoc(t, x, S);
    }
  }

  /** The number of edge records held by the right nodes below m. */
  function RightRecords(n: nat, L: seq<seq<nat>>, m: nat): (k: nat)
    requires n <= |L|
    ensures n == 0 ==> k == 0
  {
    if m == 0 then 0 else RightRecords(n, L, m - 1) + |LeftsOf(m - 1, n, L)|
  }

  lemma {:induction false} RightRecordsStep(n: nat, L: seq<seq<nat>>, m: nat)
    requires 0 < n <= |L|
    ensures RightRecords(n, L, m) == RightRecords(n - 1, L, m) + CountBelow(L[n - 1], m)
  {
    if m > 0 {
      RightRecordsStep(n, L, m - 1);
    }
  }

  /**
   * When the right neighbours of the first n left nodes lie below S, the
   * right side holds as many edge records as the left side.
   */
  lemma {:induction false} TotalRecords(n: nat, L: seq<seq<nat>>, S: nat)
    requires n <= |L| && forall l, k :: 0 <= l < n && 0 <= k < |L[l]| ==> L[l][k] < S
    ensures RightRecords(n, L, S) == LeftRecords(n, L)
  {
    if n > 0 {
      TotalRecords(n - 1, L, S);
      RightRecordsStep(n, L, S);
      var last := L[n - 1];
      assert forall k :: 0 <= k < |last| ==> last[k] < S;
      CountBelowAll(last, S);
      calc {
        RightRecords(n, L, S);
        RightRecords(n - 1, L, S) + CountBelow(last, S);
        LeftRecords(n - 1, L) + |last|;
        LeftRecords(n, L);
      }
    }
  }

  /** The number of edge records held by the left nodes below n. */
  function LeftRecords(n: nat, L: seq<seq<nat>>): nat
    requires n <= |L|
  {
    if n == 0 then 0 else LeftRecords(n - 1, L) + |L[n - 1]|
  }

  /** The neighbour table create_bipartite_graph builds for nleft left and S right nodes. */
  function Precode(nleft: nat, S: nat): (L: seq<seq<nat>>)
    requires S > 0
    ensures |L| == nleft && forall l :: 0 <= l < nleft ==> L[l] == CheckNeighbours(l, S)
  {
    seq(nleft, l requires 0 <= l < nleft => CheckNeighbours(l, S))
  }

  /** Each of the n left nodes has 3 edges, so the right side holds 3 * n edge records. */
  lemma {:induction false} PrecodeRecords(n: nat, S: nat)
    requires S > 0
    ensures RightRecords(n, Precode(n, S), S) == 3 * n
  {
    var L := Precode(n, S);
    forall l | 0 <= l < n
      ensures forall k :: 0 <= k < |L[l]| ==> L[l][k] < S
    {
      NeighboursInRange(l, S);
    }
    TotalRecords(n, L, S);
    ThreeEach(n, L);
  }

  lemma {:induction false} ThreeEach(n: nat, L: seq<seq<nat>>)
    requires n <= |L| && forall l :: 0 <= l < n ==> |L[l]| == 3
    ensures LeftRecords(n, L) == 3 * n
  {
    if n > 0 {
      ThreeEach(n - 1, L);
    }
  }

  /** The right lists R after the edges from left node l to each of nb, in order, were appended. */
  function AddEdges(R: seq<seq<nat>>, l: nat, nb: seq<nat>): (R': seq<seq<nat>>)
    requires forall k :: 0 <= k < |nb| ==> nb[k] < |R|
    ensures |R'| == |R|
  {
    if |nb| == 0 then R
    else
      var R0 := AddEdges(R, l, nb[..|nb| - 1]);
      R0[nb[|nb| - 1] := R0[nb[|nb| - 1]] + [l]]
  }

  /** Appending the edges of l adds l to the list of r once per occurrence of r in nb. */
  lemma {:induction false} AddEdgesAt(R: seq<seq<nat>>, l: nat, nb: seq<nat>, r: nat)
    requires forall k :: 0 <= k < |nb| ==> nb[k] < |R|
    requires r < |R|
    ensures AddEdges(R, l, nb)[r] == R[r] + Copies(l, multiset(nb)[r])
    decreases |nb|
  {
    if |nb| > 0 {
      var t, x := nb[..|nb| - 1], nb[|nb| - 1];
      assert nb == t + [x];
      assert multiset(nb) == multiset(t) + multiset{x};
      AddEdgesAt(R, l, t, r);
    }
  }

  /** The neighbours computed in the loop body, from block i and offset j, are those of l == i * S + j. */
  lemma NeighboursAt(l: nat, i: nat, j: nat, S: nat)
    requires j < S && l == i * S + j
    ensures CheckNeighbours(l, S) == [j, Wrap(i + 1 + 1 + j, S) - 1, Wrap(2 * (i + 1) + 1 + j, S) - 1]
  {
    DivModUnique(l, i, j, S);
  }

  /**
   * The right lists LR and left lists RL of a graph with S right nodes,
   * built from the neighbour table L, once the left nodes below n have
   * been joined.
   */
  ghost predicate Joined(LR: seq<seq<nat>>, RL: seq<seq<nat>>, L: seq<seq<nat>>, S: nat, n: nat)
  {
    |LR| == S && |RL| == |L| && n <= |L| &&
    (forall r :: 0 <= r < S ==> LR[r] == LeftsOf(r, n, L)) &&
    (forall l :: 0 <= l < |L| ==> RL[l] == if l < n then L[l] else [])
  }

  /** Joining left node l to its neighbours extends the lists of the first l left nodes to l + 1. */
  lemma JoinedNext(LR: seq<seq<nat>>, RL: seq<seq<nat>>, L: seq<seq<nat>>, S: nat, l: nat)
    requires l < |L| && Joined(LR, RL, L, S, l)
    requires forall k :: 0 <= k < |L[l]| ==> L[l][k] < S
    ensures Joined(AddEdges(LR, l, L[l]), RL[l := RL[l] + L[l]], L, S, l + 1)
  {
    forall r | 0 <= r < S
      ensures AddEdges(LR, l, L[l])[r] == LeftsOf(r, l + 1, L)
    {
      AddEdgesAt(LR, l, L[l], r);
    }
  }

  /** Once n left nodes are joined, every right list names left nodes below n only. */
  lemma JoinedBelow(LR: seq<seq<nat>>, RL: seq<seq<nat>>, L: seq<seq<nat>>, S: nat, n: nat)
    requires Joined(LR, RL, L, S, n)
    ensures forall r, k :: 0 <= r < S && 0 <= k < |LR[r]| ==> LR[r][k] < n
  {
    forall r, k | 0 <= r < S && 0 <= k < |LR[r]|
      ensures LR[r][k] < n
    {
      LeftsBelow(r, n, L);
      assert LR[r][k] in LeftsOf(r, n, L);
    }
  }

  // ---------------------------------------------------------------------
  // The graph
  // ---------------------------------------------------------------------

  /** `BP_graph`. */
  class Graph {
    var nleft: int
    var nright: int
    /** l_nbrs_of_r: the left neighbours of each right node. */
    var lNbrsOfR: seq<seq<nat>>
    /** r_nbrs_of_l: the right neighbours of each left node. */
    var rNbrsOfL: seq<seq<nat>>
    /** The neighbour table the lists are built from. */
    ghost var table: seq<seq<nat>>
    /** How many left nodes, counted from 0, have been joined so far. */
    ghost var joined: nat

    constructor ()
      ensures nleft == 0 && nright == 0 && lNbrsOfR == [] && rNbrsOfL == [] && table == [] && joined == 0
    {
      nleft, nright := 0, 0;
      lNbrsOfR, rNbrsOfL := [], [];
      table, joined := [], 0;
    }

    /** include_left_node: the edge (l, r) is appended to the lists of both of its ends. */
    method IncludeLeftNode(l: nat, r: nat)
      requires l < |rNbrsOfL| && r < |lNbrsOfR|
      modifies this
      ensures lNbrsOfR == old(lNbrsOfR[r := lNbrsOfR[r] + [l]])
      ensures rNbrsOfL == old(rNbrsOfL[l := rNbrsOfL[l] + [r]])
      ensures nleft == old(nleft) && nright == old(nright) && table == old(table) && joined == old(joined)
    {
      lNbrsOfR := lNbrsOfR[r := lNbrsOfR[r] + [l]];
      rNbrsOfL := rNbrsOfL[l := rNbrsOfL[l] + [r]];
    }

    /** The lists hold the edges of the left nodes below joined in the precode table. */
    ghost predicate Valid()
      reads this
    {
      nright > 0 && nleft >= 0 && table == Precode(nleft, nright) &&
      Joined(lNbrsOfR, rNbrsOfL, table, nright, joined)
    }

    /** The three include_left_node calls for left node l, to the right nodes x, y and z in that order. */
    method IncludeThree(l: nat, x: nat, y: nat, z: nat)
      requires l < |rNbrsOfL| && x < |lNbrsOfR| && y < |lNbrsOfR| && z < |lNbrsOfR|
      modifies this
      ensures lNbrsOfR == AddEdges(old(lNbrsOfR), l, [x, y, z])
      ensures rNbrsOfL == old(rNbrsOfL[l := rNbrsOfL[l] + [x, y, z]])
      ensures nleft == old(nleft) && nright == old(nright) && table == old(table) && joined == old(joined)
    {
      ghost var nb := [x, y, z];
      assert old(rNbrsOfL[l]) + [x] + [y] + [z] == old(rNbrsOfL[l]) + nb;
      IncludeLeftNode(l, x);
      assert lNbrsOfR == AddEdges(old(lNbrsOfR), l, nb[..1]);
      IncludeLeftNode(l, y);
      assert nb[..2][..1] == nb[..1];
      assert lNbrsOfR == AddEdges(old(lNbrsOfR), l, nb[..2]);
      IncludeLeftNode(l, z);
      assert nb[..3][..2] == nb[..2] && nb[..3] == nb;
    }

    /**
     * The body of the column loop of create_bipartite_graph for left node
     * l == i * S + j: its three edges, in the source's order.
     */
    method JoinLeftNode(l: nat, i: nat, j: nat)
      requires Valid() && joined == l && l < nleft && j < nright && l == i * nright + j
      modifies this
      ensures Valid() && joined == l + 1 && nleft == old(nleft) && nright == old(nright)
    {
      var S := nright;
      var a := Wrap(i + 1 + 1 + j, S);
      var b := Wrap(2 * (i + 1) + 1 + j, S);
      ghost var before, beforeL := lNbrsOfR, rNbrsOfL;
      NeighboursAt(l, i, j, S);
      NeighboursInRange(l, S);
      assert table[l] == [j, a - 1, b - 1];
      IncludeThree(l, j, a - 1, b - 1);
      JoinedNext(before, beforeL, table, S, l);
      joined := l + 1;
    }

    /**
     * One pass of the block loop of create_bipartite_graph: the columns of
     * circulant block i are joined in order; touching_edge is raised when
     * left node nleft is reached before the block ends.
     */
    method JoinBlock(i: nat, first: nat) returns (touchingEdge: bool)
      requires Valid() && joined == first && first < nleft && first == i * nright
      modifies this
      ensures Valid() && nleft == old(nleft) && nright == old(nright)
      ensures touchingEdge ==> joined == nleft
      ensures !touchingEdge ==> joined == first + nright <= nleft
    {
      var S := nright;
      JoinLeftNode(first, i, 0);
      touchingEdge := false;
      var j := 1;
      while j < S
        invariant 1 <= j <= S
        invariant Valid() && nleft == old(nleft) && nright == S
        invariant joined == first + j <= nleft
      {
        if first + j >= nleft {
          touchingEdge := true;
          break;
        }
        JoinLeftNode(first + j, i, j);
        j := j + 1;
      }
    }

    /**
     * create_bipartite_graph: with nright == 0 nothing is done.  Otherwise
     * both sides start with empty lists and the left nodes are joined in
     * increasing order, block by block, until node nleft is reached.
     */
    method Create(nleftIn: nat, nrightIn: nat)
      modifies this
      ensures nrightIn == 0 ==> nleft == old(nleft) && nright == old(nright) && lNbrsOfR == old(lNbrsOfR) && rNbrsOfL == old(rNbrsOfL)
      ensures nrightIn == 0 ==> table == old(table) && joined == old(joined)
      ensures nrightIn > 0 ==> Valid() && nleft == nleftIn && nright == nrightIn && joined == nleftIn
    {
      var S := nrightIn;
      if S == 0 {
        return;
      }
      nleft, nright := nleftIn, nrightIn;
      lNbrsOfR := seq(S, _ => []);
      rNbrsOfL := seq(nleftIn, _ => []);
      table, joined := Precode(nleftIn, S), 0;
      var blocks := Align(nleftIn, S);
      AlignIsCeiling(nleftIn, S);
      var i := 0;
      var touchingEdge := false;
      while i < blocks
        invariant 0 <= i <= blocks
        invariant Valid() && nleft == nleftIn && nright == S && joined <= nleftIn
        invariant !touchingEdge ==> joined == i * S
        invariant touchingEdge ==> joined == nleftIn
      {
        if touchingEdge {
          break;
        }
        var first := i * S;
        assert first < nleftIn by {
          MulMonotone(i, blocks - 1, S);
        }
        touchingEdge := JoinBlock(i, first);
        assert (i + 1) * S == first + S;
        i := i + 1;
      }
    }
  }
}
