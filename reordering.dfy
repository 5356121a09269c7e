/**
 * Column reorderings of decoding equations.  Pivoting (src/pivoting.c)
 * leaves the columns of a decoding matrix in a new order p: column j of
 * the result stands for packet p[j].  An equation v * X == msg read in
 * that order is the equation with v and X both reordered by p, because
 * the inner product over GF(2^8) does not depend on the order of its
 * terms.
 */
module Reordering {
  import opened GaloisArith
  import opened Packets
  import opened Grouping
  import opened Decoding
  import Linear
  import opened Pivoting
  import PivotRounds

  /** s in the order p: entry j is s[p[j]]. */
  function Reordered<T>(s: seq<T>, p: seq<int>): (r: seq<T>)
    requires forall j :: 0 <= j < |p| ==> 0 <= p[j] < |s|
    ensures |r| == |p| && forall j :: 0 <= j < |p| ==> r[j] == s[p[j]]
  {
    seq(|p|, j requires 0 <= j < |p| => s[p[j]])
  }

  /** s with entry t taken out. */
  function Without<T>(s: seq<T>, t: nat): (r: seq<T>)
    requires t < |s|
    ensures |r| == |s| - 1
    ensures forall j :: 0 <= j < |r| ==> r[j] == if j < t then s[j] else s[j + 1]
  {
    s[..t] + s[t + 1..]
  }

  /** Taking out an entry after the first keeps the first and takes the entry out of the tail. */
  lemma WithoutTail(u: seq<bv8>, t: nat)
    requires 0 < t < |u|
    ensures |Without(u, t)| > 0 && Without(u, t)[0] == u[0] && Without(u, t)[1..] == Without(u[1..], t - 1)
  {
  }

  /** The inner product is term t plus the inner product of the rest. */
  lemma {:induction false} DotWithout(u: seq<bv8>, v: seq<bv8>, t: nat)
    requires |u| == |v| && t < |u|
    ensures Linear.Dot(u, v) == Add(Mul(u[t], v[t]), Linear.Dot(Without(u, t), Without(v, t)))
    decreases t
  {
    if t == 0 {
      assert Without(u, 0) == u[1..] && Without(v, 0) == v[1..];
    } else {
      DotWithout(u[1..], v[1..], t - 1);
      WithoutTail(u, t);
      WithoutTail(v, t);
      var a, b := Without(u, t), Without(v, t);
      var m0, mt, rest := Mul(u[0], v[0]), Mul(u[t], v[t]), Linear.Dot(a[1..], b[1..]);
      assert Linear.Dot(a, b) == Add(m0, rest);
      assert Linear.Dot(u, v) == Add(m0, Add(mt, rest));
    }
  }

  /** A permutation of 0 .. n-1 with its entry n-1 taken out is a permutation of 0 .. n-2. */
  lemma WithoutLast(p: seq<int>, n: nat, t: nat)
    requires IsPermutation(p, n) && t < n && p[t] == n - 1
    ensures IsPermutation(Without(p, t), n - 1)
  {
    var q := Without(p, t);
    forall a, b | 0 <= a < b < |q|
      ensures q[a] != q[b]
    {
      var a', b' := if a < t then a else a + 1, if b < t then b else b + 1;
      assert q[a] == p[a'] && q[b] == p[b'] && a' < b';
    }
    forall k | 0 <= k < n - 1
      ensures 0 <= q[k] < n - 1
    {
      var k' := if k < t then k else k + 1;
      assert q[k] == p[k'] && k' != t;
    }
  }

  /** Taking out the entry that reads s[n-1] leaves the first n-1 entries of s in the order of the rest of p. */
  lemma WithoutReordered<T>(s: seq<T>, p: seq<int>, t: nat)
    requires IsPermutation(p, |s|) && t < |s| && p[t] == |s| - 1 && IsPermutation(Without(p, t), |s| - 1)
    ensures Without(Reordered(s, p), t) == Reordered(s[..|s| - 1], Without(p, t))
  {
  }

  /** The position where a permutation of 0 .. n-1 holds n - 1. */
  lemma FindLast(p: seq<int>, n: nat) returns (t: nat)
    requires IsPermutation(p, n) && n > 0
    ensures t < n && p[t] == n - 1 && IsPermutation(Without(p, t), n - 1)
  {
    PivotRounds.PermutationCovers(p, n);
    assert n - 1 in p;
    var k :| 0 <= k < n && p[k] == n - 1;
    t := k;
    WithoutLast(p, n, t);
  }

  /** The inner product does not depend on the order of its terms. */
  lemma {:induction false} DotReordered(a: seq<bv8>, x: seq<bv8>, p: seq<int>)
    requires |a| == |x| && IsPermutation(p, |a|)
    ensures Linear.Dot(Reordered(a, p), Reordered(x, p)) == Linear.Dot(a, x)
    decreases |a|
  {
    var n := |a|;
    if n > 0 {
      var t := FindLast(p, n);
      var q := Without(p, t);
      var ra, rx := Reordered(a, p), Reordered(x, p);
      var a', x' := a[..n - 1], x[..n - 1];
      WithoutReordered(a, p, t);
      WithoutReordered(x, p, t);
      DotReordered(a', x', q);
      var rest := Linear.Dot(a', x');
      assert Linear.Dot(Without(ra, t), Without(rx, t)) == rest;
      DotWithout(ra, rx, t);
      DotWithout(a, x, n - 1);
      assert Without(a, n - 1) == a' && Without(x, n - 1) == x';
      assert ra[t] == a[n - 1] && rx[t] == x[n - 1];
    }
  }

  /** An equation of X read in the column order p is an equation of X reordered by p. */
  lemma HoldsReordered(v: seq<bv8>, msg: seq<bv8>, X: seq<seq<bv8>>, p: seq<int>)
    requires IsPermutation(p, |X|) && Holds(v, msg, X)
    ensures Holds(Reordered(v, p), msg, Reordered(X, p))
  {
    forall c | 0 <= c < |msg|
      ensures Linear.Dot(Reordered(v, p), Linear.Column(Reordered(X, p), c)) == msg[c]
    {
      assert Linear.Column(Reordered(X, p), c) == Reordered(Linear.Column(X, c), p);
      DotReordered(v, Linear.Column(X, c), p);
    }
  }

  /** Writing y[j] into position p[j] for every j undoes the reordering: the result is X itself. */
  lemma Unreordered(X: seq<seq<bv8>>, p: seq<int>, Y: seq<seq<bv8>>, pp: seq<seq<bv8>>)
    requires IsPermutation(p, |X|) && Y == Reordered(X, p) && |pp| == |X|
    requires forall j :: 0 <= j < |p| ==> pp[p[j]] == Y[j]
    ensures pp == X
  {
    PivotRounds.PermutationCovers(p, |X|);
    forall i | 0 <= i < |X|
      ensures pp[i] == X[i]
    {
      assert i in p;
      var j :| 0 <= j < |p| && p[j] == i;
    }
  }
}
