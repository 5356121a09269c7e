/**
 * What the band decoders (src/decoderCBD.c, src/gncCBDDecoder.c,
 * src/decoderBD.c) share: a received packet turned into a full-length
 * coefficient vector over the snum + cnum packets, the parity-check vectors
 * of the precode, and the fact that every row they store is an equation
 * v * X == msg satisfied by the packets X the encoder held.
 *
 * X stands for those packets: |X| == snum + cnum rows of size_p bytes,
 * the checks being the sums of their source neighbours.
 */
module Decoding {
  import opened GaloisArith
  import opened GaloisPrimitive
  import opened Packets
  import opened Grouping
  import opened Bipartite
  import Linear
  import SncEncoder

  /** A compact row: elem placed at offset i of a zero vector of length n. */
  function Expand(i: nat, elem: seq<bv8>, n: nat): (r: seq<bv8>)
    ensures |r| == n
    ensures forall k :: 0 <= k < n ==> r[k] == if i <= k < i + |elem| then elem[k - i] else 0
  {
    seq(n, k => if i <= k < i + |elem| then elem[k - i] else 0)
  }

  /** Coefficient vector v and payload msg are an equation of X: v * X == msg, byte by byte. */
  ghost predicate Holds(v: seq<bv8>, msg: seq<bv8>, X: seq<seq<bv8>>)
  {
    |v| == |X| && Linear.Rect(X, |msg|) &&
    forall c :: 0 <= c < |msg| ==> Linear.Dot(v, Linear.Column(X, c)) == msg[c]
  }

  /** Every nonzero entry of v lies in the window lo .. lo + w - 1. */
  predicate Window(v: seq<bv8>, lo: int, w: int)
  {
    forall k :: 0 <= k < |v| && v[k] != 0 ==> lo <= k < lo + w
  }

  // ---------------------------------------------------------------------
  // Full-length coefficient vectors
  // ---------------------------------------------------------------------

  /** The vector sum over t < j of co[t] * e(ids[t]): each coefficient added in at its packet's position. */
  function Combined(co: seq<bv8>, ids: seq<int>, n: nat, j: nat): (r: seq<bv8>)
    requires j <= |ids| && j <= |co| && InPackets(ids, n)
    ensures |r| == n
  {
    if j == 0 then Zeros(n)
    else
      var r := Combined(co, ids, n, j - 1);
      r[ids[j - 1] := Add(r[ids[j - 1]], co[j - 1])]
  }

  /** The vector the decoders build: ces[ids[t]] = co[t] for t < j in turn, a later write replacing an earlier one. */
  function Assigned(co: seq<bv8>, ids: seq<int>, n: nat, j: nat): (r: seq<bv8>)
    requires j <= |ids| && j <= |co| && InPackets(ids, n)
    ensures |r| == n
  {
    if j == 0 then Zeros(n) else Assigned(co, ids, n, j - 1)[ids[j - 1] := co[j - 1]]
  }

  /** A position no listed packet occupies stays zero. */
  lemma {:induction false} CombinedOutside(co: seq<bv8>, ids: seq<int>, n: nat, j: nat, x: int)
    requires j <= |ids| && j <= |co| && InPackets(ids, n) && 0 <= x < n
    requires forall t :: 0 <= t < j ==> ids[t] != x
    ensures Combined(co, ids, n, j)[x] == 0
  {
    if j > 0 {
      CombinedOutside(co, ids, n, j - 1, x);
    }
  }

  /** With distinct packet ids, writing each coefficient in place is the same as adding it in. */
  lemma {:induction false} AssignedIsCombined(co: seq<bv8>, ids: seq<int>, n: nat, j: nat)
    requires j <= |ids| && j <= |co| && InPackets(ids, n) && Distinct(ids)
    ensures Assigned(co, ids, n, j) == Combined(co, ids, n, j)
  {
    if j > 0 {
      AssignedIsCombined(co, ids, n, j - 1);
      CombinedOutside(co, ids, n, j - 1, ids[j - 1]);
    }
  }

  /** A vector built from packets inside a window has its nonzeros inside that window. */
  lemma CombinedWindow(co: seq<bv8>, ids: seq<int>, n: nat, lo: int, w: int)
    requires |co| == |ids| && InPackets(ids, n)
    requires forall t :: 0 <= t < |ids| ==> lo <= ids[t] < lo + w
    ensures Window(Combined(co, ids, n, |ids|), lo, w)
  {
    forall x | 0 <= x < n && !(lo <= x < lo + w)
      ensures Combined(co, ids, n, |ids|)[x] == 0
    {
      CombinedOutside(co, ids, n, |ids|, x);
    }
  }

  /** The coefficient vector of a band subgeneration lies in its band of size_g packets. */
  lemma BandVectorWindow(co: seq<bv8>, i: nat, sb: nat, sg: nat, numP: int)
    requires sg <= numP && |co| == sg
    ensures InPackets(BandGeneration(i, sb, sg, numP), numP) && Distinct(BandGeneration(i, sb, sg, numP))
    ensures Window(Assigned(co, BandGeneration(i, sb, sg, numP), numP, sg), BandLead(i, sb, sg, numP), sg)
  {
    var ids := BandGeneration(i, sb, sg, numP);
    BandInRange(i, sb, sg, numP);
    AssignedIsCombined(co, ids, numP, sg);
    CombinedWindow(co, ids, numP, BandLead(i, sb, sg, numP), sg);
  }

  /** Byte k of the combination is the inner product of the combined vector with column k of X. */
  lemma {:induction false} CombinedDot(co: seq<bv8>, ids: seq<int>, X: seq<seq<bv8>>, j: nat, w: nat, k: nat)
    requires j <= |ids| && j <= |co| && InPackets(ids, |X|) && Linear.Rect(X, w) && k < w
    ensures Covers(X, ids, k + 1)
    ensures Linear.Dot(Combined(co, ids, |X|, j), Linear.Column(X, k)) == Packets.Dot(X, ids, co, j, k)
  {
    var n, x := |X|, Linear.Column(X, k);
    if j == 0 {
      Linear.DotZero(Zeros(n), x);
    } else {
      CombinedDot(co, ids, X, j - 1, w, k);
      var prev := Combined(co, ids, n, j - 1);
      var u := Unit(n, ids[j - 1]);
      PowersAreDistinct();
      MulOne(co[j - 1]);
      MulZero(co[j - 1]);
      assert Combined(co, ids, n, j) == AddScaled(prev, u, co[j - 1]);
      Linear.DotAddScaled(prev, u, co[j - 1], x);
      Linear.DotUnit(u, x, ids[j - 1]);
    }
  }

  /**
   * A coded packet is an equation of the packets it was coded from: the
   * payload sum over t of co[t] * X[ids[t]] against the full-length vector
   * with co[t] at position ids[t].
   */
  lemma CodedEquation(co: seq<bv8>, ids: seq<int>, X: seq<seq<bv8>>, w: nat)
    requires |co| == |ids| && InPackets(ids, |X|) && Linear.Rect(X, w)
    ensures Covers(X, ids, w)
    ensures Holds(Combined(co, ids, |X|, |ids|), Accumulate(Zeros(w), X, ids, co, |ids|), X)
  {
    var v, msg := Combined(co, ids, |X|, |ids|), Accumulate(Zeros(w), X, ids, co, |ids|);
    forall c | 0 <= c < w
      ensures Linear.Dot(v, Linear.Column(X, c)) == msg[c]
    {
      CombinedDot(co, ids, X, |ids|, w, c);
      AccumulateAt(Zeros(w), X, ids, co, |ids|, c);
    }
  }

  // ---------------------------------------------------------------------
  // Parity-check vectors
  // ---------------------------------------------------------------------

  /** The parity vector of check p: its source neighbours with edge coefficient 1 added in, and 1 at snum + p. */
  function ParityRow(list: seq<nat>, snum: nat, p: nat, n: nat): (r: seq<bv8>)
    requires InPackets(list, snum) && snum + p < n
    ensures |r| == n
  {
    Combined(Ones(|list|), list, n, |list|)[snum + p := 1]
  }

  /** The parity vector apply_parity_check_matrix writes: ces[nbr] = 1 per listed neighbour, then 1 at snum + p. */
  function ParityRowAsWritten(list: seq<nat>, snum: nat, p: nat, n: nat): (r: seq<bv8>)
    requires InPackets(list, snum) && snum + p < n
    ensures |r| == n
  {
    Assigned(Ones(|list|), list, n, |list|)[snum + p := 1]
  }

  /** Byte k of a combination over packets below s is the same taken among the first s packets or among all. */
  lemma {:induction false} DotOfPrefix(X: seq<seq<bv8>>, s: nat, ids: seq<int>, co: seq<bv8>, m: nat, k: nat)
    requires s <= |X| && m <= |ids| && m <= |co| && Covers(X[..s], ids, k + 1)
    ensures Covers(X, ids, k + 1)
    ensures Packets.Dot(X[..s], ids, co, m, k) == Packets.Dot(X, ids, co, m, k)
  {
    if m > 0 {
      DotOfPrefix(X, s, ids, co, m - 1, k);
    }
  }

  /**
   * When every check packet is the sum of its neighbours, each parity vector
   * with an all-zero payload is an equation of the packets.
   */
  lemma ParityRowEquation(X: seq<seq<bv8>>, snum: nat, lists: seq<seq<nat>>, w: nat, p: nat)
    requires SncEncoder.ChecksAreSums(X, snum, lists, w) && SncEncoder.NamesSources(lists, snum)
    requires Linear.Rect(X, w) && p < |lists|
    ensures InPackets(lists[p], snum)
    ensures Holds(ParityRow(lists[p], snum, p, |X|), Zeros(w), X)
  {
    var l, n, s := lists[p], |X|, snum + p;
    assert InPackets(l, snum) by {
      forall k | 0 <= k < |l| ensures l[k] < snum { }
    }
    var C := Combined(Ones(|l|), l, n, |l|);
    CombinedOutside(Ones(|l|), l, n, |l|, s);
    var u := Unit(n, s);
    PowersAreDistinct();
    MulOne(1);
    MulZero(1);
    assert ParityRow(l, snum, p, n) == AddScaled(C, u, 1);
    forall c | 0 <= c < w
      ensures Linear.Dot(ParityRow(l, snum, p, n), Linear.Column(X, c)) == 0
    {
      var x := Linear.Column(X, c);
      Linear.DotAddScaled(C, u, 1, x);
      Linear.DotUnit(u, x, s);
      MulOne(x[s]);
      CombinedDot(Ones(|l|), l, X, |l|, w, c);
      AccumulateAt(Zeros(w), X[..snum], l, Ones(|l|), |l|, c);
      DotOfPrefix(X, snum, l, Ones(|l|), |l|, c);
    }
  }

  /** With two checks, the first source is joined to check 0 twice: its neighbours are [0, 1, 0]. */
  lemma DoubledEdge()
    ensures CheckNeighbours(0, 2) == [0, 1, 0]
    ensures LeftsOf(0, 1, Precode(1, 2)) == [0, 0] && LeftsOf(1, 1, Precode(1, 2)) == [0]
  {
    NeighboursClosedForm(0, 0, 0, 2);
    var L := Precode(1, 2);
    assert L[0] == [0, 1, 0];
    assert multiset(L[0])[0] == 2 && multiset(L[0])[1] == 1;
    assert LeftsOf(0, 1, L) == LeftsOf(0, 0, L) + Copies(0, 2);
    assert LeftsOf(1, 1, L) == LeftsOf(1, 0, L) + Copies(0, 1);
  }

  /** The packets of the example: source 1, check 0 == 1 + 1 == 0, check 1 == 1. */
  function ExamplePackets(): seq<seq<bv8>>
  {
    [[1], [0], [1]]
  }

  /** In the example, both checks are the sums of their neighbour lists [0, 0] and [0]. */
  lemma ExampleChecks()
    ensures SncEncoder.ChecksAreSums(ExamplePackets(), 1, [[0, 0], [0]], 1)
  {
    var X, lists: seq<seq<nat>> := ExamplePackets(), [[0, 0], [0]];
    var z := Zeros(1);
    assert z == [0];
    assert Ones(2) == [1, 1] && Ones(1) == [1];
    assert X[..1] == [[1]];
    PowersAreDistinct();
    MulOne(1);
    assert Accumulate(z, X[..1], lists[0], Ones(2), 0) == z;
    var a1 := Accumulate(z, X[..1], lists[0], Ones(2), 1);
    assert a1 == AddScaled(z, X[..1][lists[0][0]], Ones(2)[0]);
    assert a1 == [1];
    assert Accumulate(z, X[..1], lists[0], Ones(2), 2) == AddScaled(a1, [1], 1) == [0];
    assert Accumulate(z, X[..1], lists[1], Ones(1), 0) == z;
    assert Accumulate(z, X[..1], lists[1], Ones(1), 1) == AddScaled(z, [1], 1) == [1];
  }

  /** The parity vector as written for check 0 of the example is [1, 1, 0], and the packets give it 1, not 0. */
  lemma ExampleAsWritten()
    ensures InPackets([0, 0], 1)
    ensures !Holds(ParityRowAsWritten([0, 0], 1, 0, 3), Zeros(1), ExamplePackets())
  {
    var X := ExamplePackets();
    var v := ParityRowAsWritten([0, 0], 1, 0, 3);
    assert Ones(2) == [1, 1];
    assert Assigned(Ones(2), [0, 0], 3, 0) == [0, 0, 0];
    assert Assigned(Ones(2), [0, 0], 3, 1) == [1, 0, 0];
    assert Assigned(Ones(2), [0, 0], 3, 2) == [1, 0, 0];
    assert v == [1, 1, 0];
    var x := Linear.Column(X, 0);
    assert x == [1, 0, 1];
    PowersAreDistinct();
    MulOne(1);
    MulZero(1);
    assert Linear.Dot(v[2..], x[2..]) == Add(Mul(0, 1), Linear.Dot([], [])) == 0;
    assert Linear.Dot(v[1..], x[1..]) == Add(Mul(1, 0), 0) == 0;
    assert Linear.Dot(v, x) == Add(Mul(1, 1), 0) == 1;
  }

  /**
   * With one source and two checks, check 0 lists source 0 twice, so the
   * precoded check 0 is pp[0] + pp[0] == 0; the parity vector as written
   * still carries a 1 for source 0, and the packets the encoder produced do
   * not satisfy it, while they satisfy ParityRow.
   */
  lemma ParityRowAsWrittenFails()
    ensures var lists: seq<seq<nat>> := [LeftsOf(0, 1, Precode(1, 2)), LeftsOf(1, 1, Precode(1, 2))];
      InPackets(lists[0], 1) &&
      SncEncoder.ChecksAreSums(ExamplePackets(), 1, lists, 1) &&
      !Holds(ParityRowAsWritten(lists[0], 1, 0, 3), Zeros(1), ExamplePackets()) &&
      Holds(ParityRow(lists[0], 1, 0, 3), Zeros(1), ExamplePackets())
  {
    DoubledEdge();
    var lists: seq<seq<nat>> := [[0, 0], [0]];
    ExampleChecks();
    ExampleAsWritten();
    assert SncEncoder.NamesSources(lists, 1);
    assert Linear.Rect(ExamplePackets(), 1);
    ParityRowEquation(ExamplePackets(), 1, lists, 1, 0);
  }

  // ---------------------------------------------------------------------
  // Elimination steps on equations
  // ---------------------------------------------------------------------

  /** galois_multiply_add_region(&v[i], elem, q, |elem|): q * elem added into v from position i on. */
  function AddScaledAt(v: seq<bv8>, i: nat, elem: seq<bv8>, q: bv8): (r: seq<bv8>)
    requires i + |elem| <= |v|
    ensures |r| == |v|
  {
    seq(|v|, k requires 0 <= k < |v| => if i <= k < i + |elem| then Add(v[k], Mul(elem[k - i], q)) else v[k])
  }

  /** Adding a compact row at its offset is adding the full-length row it stands for. */
  lemma AddScaledAtExpand(v: seq<bv8>, i: nat, elem: seq<bv8>, q: bv8)
    requires i + |elem| <= |v|
    ensures AddScaledAt(v, i, elem, q) == AddScaled(v, Expand(i, elem, |v|), q)
  {
    PowersAreDistinct();
    MulZero(q);
    assert AddScaledAt(v, i, elem, q) == AddScaled(v, Expand(i, elem, |v|), q);
  }

  /** Adding q times one equation of X to another gives an equation of X. */
  lemma HoldsAddScaled(v: seq<bv8>, msg: seq<bv8>, u: seq<bv8>, m: seq<bv8>, q: bv8, X: seq<seq<bv8>>)
    requires Holds(v, msg, X) && Holds(u, m, X) && |m| == |msg|
    ensures Holds(AddScaled(v, u, q), AddScaled(msg, m, q), X)
  {
    forall c | 0 <= c < |msg|
      ensures Linear.Dot(AddScaled(v, u, q), Linear.Column(X, c)) == AddScaled(msg, m, q)[c]
    {
      Linear.DotAddScaled(v, u, q, Linear.Column(X, c));
    }
  }

  /** Scaling both sides of an equation of X gives an equation of X. */
  lemma HoldsScaled(v: seq<bv8>, msg: seq<bv8>, c: bv8, X: seq<seq<bv8>>)
    requires Holds(v, msg, X)
    ensures Holds(Scaled(v, c), Scaled(msg, c), X)
  {
    forall k | 0 <= k < |msg|
      ensures Linear.Dot(Scaled(v, c), Linear.Column(X, k)) == Scaled(msg, c)[k]
    {
      Linear.DotScaled(v, c, Linear.Column(X, k));
    }
  }

  /** The equation whose vector is the unit vector at i determines packet i: its payload is X[i]. */
  lemma HoldsUnit(i: nat, msg: seq<bv8>, X: seq<seq<bv8>>)
    requires i < |X| && Holds(Unit(|X|, i), msg, X)
    ensures msg == X[i]
  {
    forall c | 0 <= c < |msg|
      ensures msg[c] == X[i][c]
    {
      Linear.DotUnit(Unit(|X|, i), Linear.Column(X, c), i);
    }
  }
  /** Adding v[i] / elem[0] times a row that starts at i with elem[0] != 0 clears position i. */
  lemma ClearsPivot(v: seq<bv8>, i: nat, elem: seq<bv8>)
    requires i + |elem| <= |v| && |elem| >= 1 && elem[0] != 0
    ensures AddScaledAt(v, i, elem, Div(v[i], elem[0]))[i] == 0
  {
    PowersAreDistinct();
    DivUndoesMul(v[i], elem[0]);
    MulCommutes(Div(v[i], elem[0]), elem[0]);
  }

  /** A reduction step against a stored compact row keeps the vector an equation of X. */
  lemma ReduceHolds(v: seq<bv8>, msg: seq<bv8>, i: nat, elem: seq<bv8>, m: seq<bv8>, q: bv8, X: seq<seq<bv8>>)
    requires i + |elem| <= |v| && |m| == |msg|
    requires Holds(v, msg, X) && Holds(Expand(i, elem, |v|), m, X)
    ensures Holds(AddScaledAt(v, i, elem, q), AddScaled(msg, m, q), X)
  {
    AddScaledAtExpand(v, i, elem, q);
    HoldsAddScaled(v, msg, Expand(i, elem, |v|), m, q, X);
  }

  /**
   * Reducing a vector that is zero before i and nonzero at i against a row
   * of at most w entries starting at i moves its window of w to start at i.
   */
  lemma WindowStep(v: seq<bv8>, i: nat, elem: seq<bv8>, q: bv8, start: int, w: int)
    requires i + |elem| <= |v| && |elem| <= w && Window(v, start, w) && i < |v| && v[i] != 0
    requires forall k :: 0 <= k < i ==> v[k] == 0
    ensures Window(AddScaledAt(v, i, elem, q), i, w)
  {
  }

  /** A vector that is zero outside pos .. pos + len - 1 is its own slice placed back at pos. */
  lemma ExpandSlice(v: seq<bv8>, pos: nat, len: nat)
    requires pos + len <= |v|
    requires forall k :: 0 <= k < pos ==> v[k] == 0
    requires forall k :: pos + len <= k < |v| ==> v[k] == 0
    ensures Expand(pos, v[pos..pos + len], |v|) == v
  {
  }

  /**
   * Clearing entry i of row j (a compact row from column j) with the row
   * from column i, which is e0 followed by zeros: adding
   * ej[i - j] / e0 times equation i to equation j zeroes that entry and
   * keeps an equation of X.
   */
  lemma ClearEntryHolds(n: nat, j: nat, ej: seq<bv8>, i: nat, ei: seq<bv8>, mj: seq<bv8>, mi: seq<bv8>, X: seq<seq<bv8>>)
    requires j < i && i - j < |ej| && j + |ej| <= n && i + |ei| <= n && |mi| == |mj|
    requires |ei| >= 1 && ei[0] != 0 && forall t :: 1 <= t < |ei| ==> ei[t] == 0
    requires Holds(Expand(j, ej, n), mj, X) && Holds(Expand(i, ei, n), mi, X)
    ensures Holds(Expand(j, ej[i - j := 0], n), AddScaled(mj, mi, Div(ej[i - j], ei[0])), X)
  {
    var q := Div(ej[i - j], ei[0]);
    PowersAreDistinct();
    MulZero(q);
    DivUndoesMul(ej[i - j], ei[0]);
    MulCommutes(q, ei[0]);
    var a, b, c := Expand(j, ej[i - j := 0], n), Expand(j, ej, n), Expand(i, ei, n);
    forall k | 0 <= k < n
      ensures a[k] == AddScaled(b, c, q)[k]
    {
      if k != i {
        assert c[k] == 0;
      }
    }
    assert a == AddScaled(b, c, q);
    HoldsAddScaled(b, mj, c, mi, q, X);
  }

  /** Scaling a row e0, 0, .., 0 and its payload by 1 / e0 gives the row 1, 0, .., 0 and keeps an equation of X. */
  lemma NormaliseHolds(n: nat, i: nat, ei: seq<bv8>, mi: seq<bv8>, X: seq<seq<bv8>>)
    requires i + |ei| <= n && |ei| >= 1 && ei[0] != 0 && forall t :: 1 <= t < |ei| ==> ei[t] == 0
    requires Holds(Expand(i, ei, n), mi, X)
    ensures Holds(Expand(i, ei[0 := 1], n), Scaled(mi, Div(1, ei[0])), X)
  {
    var c := Div(1, ei[0]);
    PowersAreDistinct();
    MulZero(c);
    DivIsMulInverse(1, ei[0]);
    MulCommutes(c, ei[0]);
    var a, b := Expand(i, ei[0 := 1], n), Expand(i, ei, n);
    forall k | 0 <= k < n
      ensures a[k] == Scaled(b, c)[k]
    {
    }
    assert a == Scaled(b, c);
    HoldsScaled(b, mi, c, X);
  }

  /** A compact row 1, 0, .., 0 from column i stands for the unit vector at i, whose equation gives packet i. */
  lemma UnitRowSolves(n: nat, i: nat, ei: seq<bv8>, mi: seq<bv8>, X: seq<seq<bv8>>)
    requires i + |ei| <= n && |ei| >= 1 && ei[0] == 1 && forall t :: 1 <= t < |ei| ==> ei[t] == 0
    requires Holds(Expand(i, ei, n), mi, X)
    ensures mi == X[i]
  {
    assert Expand(i, ei, n) == Unit(n, i);
    HoldsUnit(i, mi, X);
  }
}
