/**
 * Grouping of packet indices into generations (subgenerations), as
 * group_packets_rand, group_packets_band and group_packets_windwrap of
 * src/sncEncoder.c do it, and group_packets_rand / group_packets_band of
 * src/gncEncoder.c (group_packets of the older gncEncoder.c is the same
 * loop as the latter's group_packets_rand).
 *
 * Every grouping is deterministic: a decoder recomputes it from num_p,
 * size_b and size_g alone.
 */
module Grouping {
  import opened Common
  import opened Arith

  // ---------------------------------------------------------------------
  // The has_item bump loops
  // ---------------------------------------------------------------------

  /** The largest element of s, or d when that is larger. */
  function MaxOr(s: seq<int>, d: int): (r: int)
    ensures r >= d && forall k :: 0 <= k < |s| ==> s[k] <= r
  {
    if |s| == 0 then d
    else var m := MaxOr(s[..|s| - 1], d); if s[|s| - 1] > m then s[|s| - 1] else m
  }

  /**
   * The first value at or above cand that is not in prefix: where
   * `while (has_item(pktid, index, j) != -1) index++;` stops.
   */
  function FreeUp(prefix: seq<int>, cand: int): (r: int)
    decreases MaxOr(prefix, 0) + 1 - cand
  {
    if cand in prefix then FreeUp(prefix, cand + 1) else cand
  }

  lemma {:induction false} FreeUpIsFree(prefix: seq<int>, cand: int)
    ensures FreeUp(prefix, cand) >= cand && FreeUp(prefix, cand) !in prefix
    ensures forall v :: cand <= v < FreeUp(prefix, cand) ==> v in prefix
    decreases MaxOr(prefix, 0) + 1 - cand
  {
    if cand in prefix {
      FreeUpIsFree(prefix, cand + 1);
    }
  }

  /** Step t of the cyclic scan from cand over 0 .. n-1. */
  function Cyc(cand: int, t: int, n: int): int
    requires n > 0
  {
    (cand + t) % n
  }

  /**
   * The first value not in prefix met by the cyclic scan from cand, where
   * `while (has_item(...) != -1) { index++; index = index % num_p; }`
   * stops; fuel bounds the scan (num_p steps always suffice, see
   * FreeWrapIsFree).
   */
  function FreeWrap(prefix: seq<int>, cand: int, n: int, fuel: nat): int
    requires n > 0
    decreases fuel
  {
    if fuel == 0 || cand !in prefix then cand else FreeWrap(prefix, (cand + 1) % n, n, fuel - 1)
  }

  /** The sequence with every occurrence of x dropped. */
  function Drop(s: seq<int>, x: int): (r: seq<int>)
    ensures |r| <= |s| && (x in s ==> |r| < |s|)
    ensures forall v :: v in s && v != x ==> v in r
  {
    if |s| == 0 then []
    else if s[|s| - 1] == x then Drop(s[..|s| - 1], x)
    else Drop(s[..|s| - 1], x) + [s[|s| - 1]]
  }

  /** Fewer than n values leave a value of 0 .. n-1 out. */
  lemma {:induction false} Pigeonhole(s: seq<int>, n: nat)
    requires |s| < n
    ensures exists v :: 0 <= v < n && v !in s
    decreases n
  {
    if n - 1 in s {
      var s' := Drop(s, n - 1);
      Pigeonhole(s', n - 1);
      var v :| 0 <= v < n - 1 && v !in s';
      assert v !in s;
    } else {
      assert n - 1 !in s;
    }
  }

  /** The number of steps of the cyclic scan from a to b. */
  function Steps(a: int, b: int, n: int): int
    requires n > 0
  {
    (b - a) % n
  }

  lemma StepsReach(a: int, b: int, n: int)
    requires n > 0 && 0 <= a < n && 0 <= b < n
    ensures 0 <= Steps(a, b, n) < n && Cyc(a, Steps(a, b, n), n) == b
  {
    if b >= a {
      DivModUnique(b - a, 0, b - a, n);
      DivModUnique(b, 0, b, n);
    } else {
      DivModUnique(b - a, -1, b - a + n, n);
      DivModUnique(a + (b - a + n), 1, b, n);
    }
  }

  lemma StepsNext(a: int, b: int, n: int)
    requires n > 0 && 0 <= a < n && 0 <= b < n && a != b
    ensures Steps((a + 1) % n, b, n) == Steps(a, b, n) - 1
  {
    if a + 1 < n {
      DivModUnique(a + 1, 0, a + 1, n);
      if b >= a {
        DivModUnique(b - a, 0, b - a, n);
        DivModUnique(b - a - 1, 0, b - a - 1, n);
      } else {
        DivModUnique(b - a, -1, b - a + n, n);
        DivModUnique(b - a - 1, -1, b - a - 1 + n, n);
      }
    } else {
      DivModUnique(a + 1, 1, 0, n);
      DivModUnique(b - a, -1, b - a + n, n);
      DivModUnique(b, 0, b, n);
    }
  }

  /**
   * Started inside 0 .. n-1 with a free value f reachable within the fuel,
   * the cyclic scan ends on a free value of 0 .. n-1.
   */
  lemma {:induction false} FreeWrapReaches(prefix: seq<int>, cand: int, n: int, fuel: nat, f: int)
    requires n > 0 && 0 <= cand < n && 0 <= f < n && f !in prefix && Steps(cand, f, n) < fuel
    ensures var r := FreeWrap(prefix, cand, n, fuel); 0 <= r < n && r !in prefix
    decreases fuel
  {
    if cand in prefix {
      StepsReach(cand, f, n);
      assert cand != f;
      StepsNext(cand, f, n);
      FreeWrapReaches(prefix, (cand + 1) % n, n, fuel - 1, f);
    }
  }

  /** With fewer than n values taken, n steps of the cyclic scan find a free one. */
  lemma FreeWrapIsFree(prefix: seq<int>, cand: int, n: int)
    requires 0 <= cand < n && |prefix| < n
    ensures var r := FreeWrap(prefix, cand, n, n); 0 <= r < n && r !in prefix
  {
    Pigeonhole(prefix, n);
    var f :| 0 <= f < n && f !in prefix;
    StepsReach(cand, f, n);
    FreeWrapReaches(prefix, cand, n, n, f);
  }

  /** The non-wrapping bump loop over the first j entries of pktid. */
  method BumpUp(pktid: array<int>, j: int, start: int) returns (index: int)
    requires 0 <= j <= pktid.Length
    ensures index == FreeUp(pktid[..j], start)
  {
    index := start;
    var found := HasItem(pktid, index, j);
    while found != -1
      invariant FreeUp(pktid[..j], index) == FreeUp(pktid[..j], start)
      invariant found == -1 <==> index !in pktid[..j]
      decreases MaxOr(pktid[..j], 0) + 1 - index
    {
      assert index in pktid[..j];
      index := index + 1;
      found := HasItem(pktid, index, j);
    }
  }

  /** The wrapping bump loop: index steps through 0 .. n-1 cyclically. */
  method BumpWrap(pktid: array<int>, j: int, start: int, n: int) returns (index: int)
    requires 0 <= j <= pktid.Length && j < n && 0 <= start < n
    ensures index == FreeWrap(pktid[..j], start, n, n)
  {
    ghost var prefix := pktid[..j];
    Pigeonhole(prefix, n);
    ghost var f :| 0 <= f < n && f !in prefix;
    StepsReach(start, f, n);
    index := start;
    ghost var fuel: nat := n;
    var found := HasItem(pktid, index, j);
    while found != -1
      invariant 0 <= index < n && Steps(index, f, n) < fuel
      invariant FreeWrap(prefix, index, n, fuel) == FreeWrap(prefix, start, n, n)
      invariant found == -1 <==> index !in prefix
      decreases fuel
    {
      assert index != f;
      StepsReach(index, f, n);
      StepsNext(index, f, n);
      index := index + 1;
      index := index % n;
      fuel := fuel - 1;
      found := HasItem(pktid, index, j);
    }
  }

  // ---------------------------------------------------------------------
  // Generations
  // ---------------------------------------------------------------------

  /** A generation: its id and the indices of its size_g packets. */
  datatype Generation = Generation(gid: int, pktid: seq<int>)

  /** No index occurs twice. */
  predicate Distinct(ids: seq<int>)
  {
    forall a, b :: 0 <= a < b < |ids| ==> ids[a] != ids[b]
  }

  /** Every index lies in 0 .. numP-1. */
  predicate InPackets(ids: seq<int>, numP: int)
  {
    forall k :: 0 <= k < |ids| ==> 0 <= ids[k] < numP
  }

  /** Consecutive residues modulo n are distinct: a window of fewer than n steps does not repeat. */
  lemma ModDistinct(x: nat, a: nat, b: nat, n: nat)
    requires a < b < a + n && n > 0
    ensures (x + a) % n != (x + b) % n
  {
    var qa, qb := (x + a) / n, (x + b) / n;
    if (x + a) % n == (x + b) % n {
      assert (qb - qa) * n == b - a;
      if qb - qa >= 1 {
        MulAtLeast(qb - qa, n);
      } else {
        MulMonotone(qb - qa, 0, n);
      }
      assert false;
    }
  }

  // ---------------------------------------------------------------------
  // Random grouping (src/sncEncoder.c)
  // ---------------------------------------------------------------------

  /** rotate when generation i is filled: 0, then 7 more modulo size_g each time. */
  function Rotation(i: nat, sg: int): int
    requires sg > 0
  {
    if i == 0 then 0 else (Rotation(i - 1, sg) + 7) % sg
  }

  lemma RotationNext(i: nat, sg: int)
    requires sg > 0
    ensures Rotation(i + 1, sg) == (Rotation(i, sg) + 7) % sg
  {
  }

  lemma {:induction false} RotationClosedForm(i: nat, sg: int)
    requires sg > 0
    ensures Rotation(i, sg) == (7 * i) % sg
  {
    if i > 0 {
      RotationClosedForm(i - 1, sg);
      var x := 7 * (i - 1);
      ModAddLeft(x, 7, sg);
      assert x + 7 == 7 * i;
      assert Rotation(i, sg) == (x % sg + 7) % sg;
    }
  }

  /**
   * The generation whose base packets entry j of generation i borrows from:
   * magicX is min(7, size_b + num_g - size_g), the lag is j - size_b +
   * magicX behind i, wrapping below 0 by num_g, and never i itself.
   */
  function SncStart(i: int, j: int, sb: int, sg: int, numG: int): int
  {
    var magicX := if 7 <= sb + numG - sg then 7 else sb + numG - sg;
    var tmp := i - (j - sb + magicX);
    var start := if tmp >= 0 then tmp else tmp + numG;
    if start == i then start + 1 else start
  }

  /** What magicX is for: the start is never negative. */
  lemma SncStartNonNegative(i: int, j: int, sb: int, sg: int, numG: int)
    requires 0 <= i && j < sg
    ensures SncStart(i, j, sb, sg, numG) >= 0
  {
  }

  /** The first candidate index for fill entry j of generation i. */
  function SncCandidate(i: int, j: int, rotate: int, sb: int, sg: int, numG: int, numP: int): int
    requires sg > 0 && numP > 0
  {
    CMod(SncStart(i, j, sb, sg, numG) * sb + CMod(j - sb + rotate, sg), numP)
  }

  /** The fill candidate is a packet index. */
  lemma SncCandidateInRange(i: int, j: int, rotate: int, sb: int, sg: int, numG: int, numP: int)
    requires 0 <= i && 0 <= sb <= j < sg && 0 <= rotate && numP > 0
    ensures 0 <= SncCandidate(i, j, rotate, sb, sg, numG, numP) < numP
  {
    var start := SncStart(i, j, sb, sg, numG);
    SncStartNonNegative(i, j, sb, sg, numG);
    assert start * sb >= 0;
    var x := start * sb + CMod(j - sb + rotate, sg);
    assert x >= 0;
    assert SncCandidate(i, j, rotate, sb, sg, numG, numP) == x % numP;
  }

  /** Entry j of generation i, given the entries before it. */
  function SncPick(prefix: seq<int>, i: int, j: int, rotate: int, sb: int, sg: int, numG: int, numP: int): int
    requires sg > 0 && numP > 0
  {
    if j < sb then FreeUp(prefix, CMod(i * sb + j, numP))
    else FreeWrap(prefix, SncCandidate(i, j, rotate, sb, sg, numG, numP), numP, numP)
  }

  /** The first n entries of generation i under random grouping. */
  function SncRandGeneration(n: nat, i: int, rotate: int, sb: int, sg: int, numG: int, numP: int): (r: seq<int>)
    requires sg > 0 && numP > 0
    ensures |r| == n
  {
    if n == 0 then []
    else
      var p := SncRandGeneration(n - 1, i, rotate, sb, sg, numG, numP);
      p + [SncPick(p, i, n - 1, rotate, sb, sg, numG, numP)]
  }

  /** A base index is not among the base indices before it. */
  lemma BaseNotTaken(p: seq<int>, i: nat, j: nat, sb: int, numP: int)
    requires j < sb <= numP && |p| == j
    requires forall k :: 0 <= k < j ==> p[k] == (i * sb + k) % numP
    ensures (i * sb + j) % numP !in p
  {
    forall k | 0 <= k < j
      ensures p[k] != (i * sb + j) % numP
    {
      ModDistinct(i * sb, k, j, numP);
    }
  }

  /**
   * Random grouping never repeats an index inside a generation and stays
   * inside 0 .. num_p-1; its first size_b entries are the base indices
   * (i * size_b + j) % num_p, which never need a bump.
   */
  lemma {:induction false} SncRandGenerationValid(n: nat, i: nat, rotate: nat, sb: int, sg: int, numG: int, numP: int)
    requires 0 < sb <= sg <= numP && n <= sg
    ensures var r := SncRandGeneration(n, i, rotate, sb, sg, numG, numP);
      Distinct(r) && InPackets(r, numP) &&
      forall k :: 0 <= k < n && k < sb ==> r[k] == (i * sb + k) % numP
  {
    if n > 0 {
      var p := SncRandGeneration(n - 1, i, rotate, sb, sg, numG, numP);
      SncRandGenerationValid(n - 1, i, rotate, sb, sg, numG, numP);
      var j := n - 1;
      var v := SncPick(p, i, j, rotate, sb, sg, numG, numP);
      if j < sb {
        BaseNotTaken(p, i, j, sb, numP);
        assert v == (i * sb + j) % numP;
      } else {
        SncCandidateInRange(i, j, rotate, sb, sg, numG, numP);
        FreeWrapIsFree(p, SncCandidate(i, j, rotate, sb, sg, numG, numP), numP);
      }
      assert v !in p;
    }
  }

  /** The first inner loop of group_packets_rand: the size_b base entries. */
  method FillRandBase(pktid: array<int>, i: nat, rotate: nat, sb: int, sg: int, numG: int, numP: int)
    requires 0 < sb <= sg <= numP && pktid.Length == sg
    modifies pktid
    ensures pktid[..sb] == SncRandGeneration(sb, i, rotate, sb, sg, numG, numP)
  {
    var j := 0;
    while j < sb
      invariant 0 <= j <= sb && pktid[..j] == SncRandGeneration(j, i, rotate, sb, sg, numG, numP)
    {
      var index := CMod(i * sb + j, numP);
      index := BumpUp(pktid, j, index);
      pktid[j] := index;
      assert pktid[..j + 1] == pktid[..j] + [index];
      j := j + 1;
    }
  }

  /** The second inner loop: entries size_b .. size_g-1 borrowed from other generations. */
  method FillRandRest(pktid: array<int>, i: nat, rotate: nat, sb: int, sg: int, numG: int, numP: int)
    requires 0 < sb <= sg <= numP && pktid.Length == sg
    requires pktid[..sb] == SncRandGeneration(sb, i, rotate, sb, sg, numG, numP)
    modifies pktid
    ensures pktid[..] == SncRandGeneration(sg, i, rotate, sb, sg, numG, numP)
  {
    var j := sb;
    while j < sg
      invariant sb <= j <= sg && pktid[..j] == SncRandGeneration(j, i, rotate, sb, sg, numG, numP)
    {
      SncCandidateInRange(i, j, rotate, sb, sg, numG, numP);
      var magicX := sb + numG - sg;
      magicX := if 7 <= magicX then 7 else magicX;
      var tmp := i - (j - sb + magicX);
      var start := if tmp >= 0 then tmp else tmp + numG;
      if start == i {
        start := start + 1;
      }
      var index := CMod(start * sb + CMod(j - sb + rotate, sg), numP);
      assert index == SncCandidate(i, j, rotate, sb, sg, numG, numP);
      index := BumpWrap(pktid, j, index, numP);
      pktid[j] := index;
      assert pktid[..j + 1] == pktid[..j] + [index];
      j := j + 1;
    }
    assert pktid[..] == pktid[..sg];
  }

  /** One generation of group_packets_rand: pktid starts as -1 everywhere. */
  method FillRand(i: nat, rotate: nat, sb: int, sg: int, numG: int, numP: int) returns (ids: seq<int>)
    requires 0 < sb <= sg <= numP
    ensures ids == SncRandGeneration(sg, i, rotate, sb, sg, numG, numP)
  {
    var pktid := new int[sg](_ => -1);
    FillRandBase(pktid, i, rotate, sb, sg, numG, numP);
    FillRandRest(pktid, i, rotate, sb, sg, numG, numP);
    ids := pktid[..];
  }

  /** The first n generations of the grouping, generation k with rotate == Rotation(k). */
  function SncRandGroups(n: nat, sb: int, sg: int, numG: int, numP: int): (r: seq<Generation>)
    requires sg > 0 && numP > 0
    ensures |r| == n
  {
    if n == 0 then []
    else SncRandGroups(n - 1, sb, sg, numG, numP) + [Generation(n - 1, SncRandGeneration(sg, n - 1, Rotation(n - 1, sg), sb, sg, numG, numP))]
  }

  lemma {:induction false} SncRandGroupsAt(n: nat, k: nat, sb: int, sg: int, numG: int, numP: int)
    requires sg > 0 && numP > 0 && k < n
    ensures SncRandGroups(n, sb, sg, numG, numP)[k] == Generation(k, SncRandGeneration(sg, k, Rotation(k, sg), sb, sg, numG, numP))
  {
    if k < n - 1 {
      SncRandGroupsAt(n - 1, k, sb, sg, numG, numP);
    }
  }

  /** group_packets_rand: generation i gets id i and the random-looking grouping with rotate == Rotation(i). */
  method GroupRand(sb: int, sg: int, numG: int, numP: int) returns (gene: seq<Generation>)
    requires 0 < sb <= sg <= numP && numG >= 0
    ensures gene == SncRandGroups(numG, sb, sg, numG, numP)
    ensures forall i :: 0 <= i < numG ==>
      gene[i] == Generation(i, SncRandGeneration(sg, i, Rotation(i, sg), sb, sg, numG, numP))
  {
    gene := [];
    var rotate := 0;
    var i := 0;
    while i < numG
      invariant 0 <= i <= numG && rotate == Rotation(i, sg)
      invariant gene == SncRandGroups(i, sb, sg, numG, numP)
    {
      var ids := FillRand(i, rotate, sb, sg, numG, numP);
      gene := gene + [Generation(i, ids)];
      RotationNext(i, sg);
      rotate := (rotate + 7) % sg;
      i := i + 1;
    }
    forall i | 0 <= i < numG
      ensures gene[i] == Generation(i, SncRandGeneration(sg, i, Rotation(i, sg), sb, sg, numG, numP))
    {
      SncRandGroupsAt(numG, i, sb, sg, numG, numP);
    }
  }


  // ---------------------------------------------------------------------
  // Random grouping as src/gncEncoder.c and gncEncoder.c write it
  // ---------------------------------------------------------------------

  /** The borrowed generation without magicX: the lag is j - size_b + 7. */
  function GncStart(i: int, j: int, sb: int, numG: int): int
  {
    var tmp := i - (j - sb + 7);
    var start := if tmp >= 0 then tmp else tmp + numG;
    if start == i then start + 1 else start
  }

  function GncCandidate(i: int, j: int, rotate: int, sb: int, sg: int, numG: int, numP: int): int
    requires sg > 0 && numP > 0
  {
    CMod(GncStart(i, j, sb, numG) * sb + CMod(j - sb + rotate, sg), numP)
  }

  /** Entry j of generation i: both bumps count upwards without wrapping. */
  function GncPick(prefix: seq<int>, i: int, j: int, rotate: int, sb: int, sg: int, numG: int, numP: int): int
    requires sg > 0 && numP > 0
  {
    if j < sb then FreeUp(prefix, CMod(i * sb + j, numP))
    else FreeUp(prefix, GncCandidate(i, j, rotate, sb, sg, numG, numP))
  }

  function GncRandGeneration(n: nat, i: int, rotate: int, sb: int, sg: int, numG: int, numP: int): (r: seq<int>)
    requires sg > 0 && numP > 0
    ensures |r| == n
  {
    if n == 0 then []
    else
      var p := GncRandGeneration(n - 1, i, rotate, sb, sg, numG, numP);
      p + [GncPick(p, i, n - 1, rotate, sb, sg, numG, numP)]
  }

  /** The has_item bumps still keep the indices of a generation distinct. */
  lemma {:induction false} GncRandGenerationDistinct(n: nat, i: int, rotate: int, sb: int, sg: int, numG: int, numP: int)
    requires sg > 0 && numP > 0
    ensures Distinct(GncRandGeneration(n, i, rotate, sb, sg, numG, numP))
  {
    if n > 0 {
      var p := GncRandGeneration(n - 1, i, rotate, sb, sg, numG, numP);
      GncRandGenerationDistinct(n - 1, i, rotate, sb, sg, numG, numP);
      if n - 1 < sb {
        FreeUpIsFree(p, CMod(i * sb + n - 1, numP));
      } else {
        FreeUpIsFree(p, GncCandidate(i, n - 1, rotate, sb, sg, numG, numP));
      }
    }
  }

  /** The base entries are never bumped: entry k < size_b of generation i is (i * size_b + k) % num_p. */
  lemma {:induction false} GncRandBase(n: nat, i: nat, rotate: int, sb: int, sg: int, numG: int, numP: int)
    requires 0 < sb <= numP && sg > 0
    ensures forall k :: 0 <= k < n && k < sb ==>
      GncRandGeneration(n, i, rotate, sb, sg, numG, numP)[k] == (i * sb + k) % numP
  {
    if n > 0 {
      var p := GncRandGeneration(n - 1, i, rotate, sb, sg, numG, numP);
      GncRandBase(n - 1, i, rotate, sb, sg, numG, numP);
      if n - 1 < sb {
        BaseNotTaken(p, i, n - 1, sb, numP);
      }
    }
  }

  /**
   * Without magicX the start can be negative and C's % keeps the sign: with
   * num_p = num_g = 5, size_b = 1 and size_g = 2, entry 1 of generation 0
   * is packet -2.
   */
  lemma GncRandNegativeIndex()
    ensures GncRandGeneration(2, 0, 0, 1, 2, 5, 5) == [0, -2]
  {
    assert GncRandGeneration(1, 0, 0, 1, 2, 5, 5) == [0];
    assert GncCandidate(0, 1, 0, 1, 2, 5, 5) == -2;
  }

  method FillRandGncBase(pktid: array<int>, i: nat, rotate: nat, sb: int, sg: int, numG: int, numP: int)
    requires 0 < sb <= sg && numP > 0 && pktid.Length == sg
    modifies pktid
    ensures pktid[..sb] == GncRandGeneration(sb, i, rotate, sb, sg, numG, numP)
  {
    var j := 0;
    while j < sb
      invariant 0 <= j <= sb && pktid[..j] == GncRandGeneration(j, i, rotate, sb, sg, numG, numP)
    {
      var index := CMod(i * sb + j, numP);
      index := BumpUp(pktid, j, index);
      pktid[j] := index;
      assert pktid[..j + 1] == pktid[..j] + [index];
      j := j + 1;
    }
  }

  method FillRandGncRest(pktid: array<int>, i: nat, rotate: nat, sb: int, sg: int, numG: int, numP: int)
    requires 0 < sb <= sg && numP > 0 && pktid.Length == sg
    requires pktid[..sb] == GncRandGeneration(sb, i, rotate, sb, sg, numG, numP)
    modifies pktid
    ensures pktid[..] == GncRandGeneration(sg, i, rotate, sb, sg, numG, numP)
  {
    var j := sb;
    while j < sg
      invariant sb <= j <= sg && pktid[..j] == GncRandGeneration(j, i, rotate, sb, sg, numG, numP)
    {
      var tmp := i - (j - sb + 7);
      var start := if tmp >= 0 then tmp else tmp + numG;
      if start == i {
        start := start + 1;
      }
      var index := CMod(start * sb + CMod(j - sb + rotate, sg), numP);
      assert index == GncCandidate(i, j, rotate, sb, sg, numG, numP);
      index := BumpUp(pktid, j, index);
      pktid[j] := index;
      assert pktid[..j + 1] == pktid[..j] + [index];
      j := j + 1;
    }
    assert pktid[..] == pktid[..sg];
  }

  /** One generation of the gnc group_packets_rand. */
  method FillRandGnc(i: nat, rotate: nat, sb: int, sg: int, numG: int, numP: int) returns (ids: seq<int>)
    requires 0 < sb <= sg && numP > 0
    ensures ids == GncRandGeneration(sg, i, rotate, sb, sg, numG, numP)
  {
    var pktid := new int[sg](_ => -1);
    FillRandGncBase(pktid, i, rotate, sb, sg, numG, numP);
    FillRandGncRest(pktid, i, rotate, sb, sg, numG, numP);
    ids := pktid[..];
  }

  /** The first n generations of the grouping, generation k with rotate == Rotation(k). */
  function GncRandGroups(n: nat, sb: int, sg: int, numG: int, numP: int): (r: seq<Generation>)
    requires sg > 0 && numP > 0
    ensures |r| == n
  {
    if n == 0 then []
    else GncRandGroups(n - 1, sb, sg, numG, numP) + [Generation(n - 1, GncRandGeneration(sg, n - 1, Rotation(n - 1, sg), sb, sg, numG, numP))]
  }

  lemma {:induction false} GncRandGroupsAt(n: nat, k: nat, sb: int, sg: int, numG: int, numP: int)
    requires sg > 0 && numP > 0 && k < n
    ensures GncRandGroups(n, sb, sg, numG, numP)[k] == Generation(k, GncRandGeneration(sg, k, Rotation(k, sg), sb, sg, numG, numP))
  {
    if k < n - 1 {
      GncRandGroupsAt(n - 1, k, sb, sg, numG, numP);
    }
  }

  /** group_packets_rand of src/gncEncoder.c, and group_packets of gncEncoder.c. */
  method GroupRandGnc(sb: int, sg: int, numG: int, numP: int) returns (gene: seq<Generation>)
    requires 0 < sb <= sg && numP > 0 && numG >= 0
    ensures gene == GncRandGroups(numG, sb, sg, numG, numP)
    ensures forall i :: 0 <= i < numG ==>
      gene[i] == Generation(i, GncRandGeneration(sg, i, Rotation(i, sg), sb, sg, numG, numP))
  {
    gene := [];
    var rotate := 0;
    var i := 0;
    while i < numG
      invariant 0 <= i <= numG && rotate == Rotation(i, sg)
      invariant gene == GncRandGroups(i, sb, sg, numG, numP)
    {
      var ids := FillRandGnc(i, rotate, sb, sg, numG, numP);
      gene := gene + [Generation(i, ids)];
      RotationNext(i, sg);
      rotate := (rotate + 7) % sg;
      i := i + 1;
    }
    forall i | 0 <= i < numG
      ensures gene[i] == Generation(i, GncRandGeneration(sg, i, Rotation(i, sg), sb, sg, numG, numP))
    {
      GncRandGroupsAt(numG, i, sb, sg, numG, numP);
    }
  }


  // ---------------------------------------------------------------------
  // Band grouping
  // ---------------------------------------------------------------------

  /** The leading index of band generation i: i * size_b, clipped to num_p - size_g. */
  function BandLead(i: int, sb: int, sg: int, numP: int): int
  {
    if i * sb > numP - sg then numP - sg else i * sb
  }

  /** Band generation i: size_g consecutive indices from its leading index. */
  function BandGeneration(i: int, sb: int, sg: nat, numP: int): (r: seq<int>)
  {
    seq(sg, j => BandLead(i, sb, sg, numP) + j)
  }

  /** With size_g <= num_p every band lies inside 0 .. num_p-1 and repeats nothing. */
  lemma BandInRange(i: nat, sb: nat, sg: nat, numP: int)
    requires sg <= numP
    ensures InPackets(BandGeneration(i, sb, sg, numP), numP)
    ensures Distinct(BandGeneration(i, sb, sg, numP))
  {
    assert i * sb >= 0;
  }

  /**
   * With size_b <= size_g <= num_p and at least ALIGN(num_p - size_g,
   * size_b) + 1 generations, the bands overlap or abut and the last one ends
   * at num_p: every packet belongs to some generation.
   */
  lemma BandCovers(p: int, sb: int, sg: int, numG: int, numP: int)
    requires 0 < sb <= sg <= numP && 0 <= p < numP && numG >= Align(numP - sg, sb) + 1
    ensures exists i :: 0 <= i < numG && p in BandGeneration(i, sb, sg, numP)
  {
    var last := Align(numP - sg, sb);
    AlignIsCeiling(numP - sg, sb);
    if p >= numP - sg {
      BandCoversTail(p, last, sb, sg, numP);
    } else {
      var i := p / sb;
      if i >= last {
        MulMonotone(last, i, sb);
        assert false;
      }
      BandCoversHead(p, sb, sg, numP);
    }
  }

  /** The last packets lie in any generation whose lead was clipped. */
  lemma BandCoversTail(p: int, i: int, sb: int, sg: int, numP: int)
    requires 0 < sb <= sg <= numP && numP - sg <= p < numP && i * sb >= numP - sg
    ensures p in BandGeneration(i, sb, sg, numP)
  {
    assert BandLead(i, sb, sg, numP) == numP - sg;
    assert BandGeneration(i, sb, sg, numP)[p - (numP - sg)] == p;
  }

  /** A packet below num_p - size_g lies in generation p / size_b. */
  lemma BandCoversHead(p: int, sb: int, sg: int, numP: int)
    requires 0 < sb <= sg <= numP && 0 <= p < numP - sg
    ensures p in BandGeneration(p / sb, sb, sg, numP)
  {
    var i := p / sb;
    assert i * sb <= p < i * sb + sb;
    assert BandLead(i, sb, sg, numP) == i * sb;
    assert BandGeneration(i, sb, sg, numP)[p - i * sb] == p;
  }

  /** The generation count src/gncEncoder.c uses for band codes is at least the one BandCovers asks for. */
  lemma GncBandCount(sb: int, sg: int, numP: int)
    requires 0 < sb <= sg <= numP
    ensures Align(numP, sb) >= Align(numP - sg, sb) + 1
  {
    var a := Align(numP - sg, sb);
    AlignIsCeiling(numP - sg, sb);
    AlignIsCeiling(numP, sb);
    if Align(numP, sb) <= a {
      MulMonotone(Align(numP, sb), a, sb);
      assert false;
    }
  }

  /** One band generation: pktid[j] = leading_pivot + j. */
  method FillBand(i: nat, sb: int, sg: nat, numP: int) returns (ids: seq<int>)
    ensures ids == BandGeneration(i, sb, sg, numP)
  {
    var pktid := new int[sg](_ => -1);
    var lead := i * sb;
    if lead > numP - sg {
      lead := numP - sg;
    }
    var j := 0;
    while j < sg
      invariant 0 <= j <= sg && forall k :: 0 <= k < j ==> pktid[k] == lead + k
    {
      pktid[j] := lead + j;
      j := j + 1;
    }
    ids := pktid[..];
  }

  /** group_packets_band. */
  method GroupBand(sb: int, sg: nat, numG: int, numP: int) returns (gene: seq<Generation>)
    requires numG >= 0
    ensures |gene| == numG
    ensures forall i :: 0 <= i < numG ==> gene[i] == Generation(i, BandGeneration(i, sb, sg, numP))
  {
    gene := [];
    var i := 0;
    while i < numG
      invariant 0 <= i <= numG && |gene| == i
      invariant forall k :: 0 <= k < i ==> gene[k] == Generation(k, BandGeneration(k, sb, sg, numP))
    {
      var ids := FillBand(i, sb, sg, numP);
      gene := gene + [Generation(i, ids)];
      i := i + 1;
    }
  }

  // ---------------------------------------------------------------------
  // Window-wrap grouping (src/sncEncoder.c)
  // ---------------------------------------------------------------------

  /** Window-wrap generation i: the size_g indices after i * size_b, wrapping modulo num_p. */
  function WindWrapGeneration(i: int, sb: int, sg: nat, numP: int): (r: seq<int>)
    requires numP > 0
  {
    seq(sg, j => (i * sb + j) % numP)
  }

  /** A window shorter than num_p stays in range and does not repeat. */
  lemma WindWrapInRange(i: nat, sb: nat, sg: nat, numP: int)
    requires 0 < numP && sg <= numP
    ensures InPackets(WindWrapGeneration(i, sb, sg, numP), numP)
    ensures Distinct(WindWrapGeneration(i, sb, sg, numP))
  {
    var r := WindWrapGeneration(i, sb, sg, numP);
    forall a, b | 0 <= a < b < sg
      ensures r[a] != r[b]
    {
      ModDistinct(i * sb, a, b, numP);
    }
  }

  /** With size_b <= size_g and ALIGN(num_p, size_b) generations every packet is covered. */
  lemma WindWrapCovers(p: int, sb: int, sg: nat, numP: int)
    requires 0 < sb <= sg && 0 <= p < numP
    ensures var i := p / sb; 0 <= i < Align(numP, sb) && p in WindWrapGeneration(i, sb, sg, numP)
  {
    var i := p / sb;
    AlignIsCeiling(numP, sb);
    if i >= Align(numP, sb) {
      MulMonotone(Align(numP, sb), i, sb);
      assert false;
    }
    var j := p - i * sb;
    assert 0 <= j < sb;
    DivModUnique(p, 0, p, numP);
    assert WindWrapGeneration(i, sb, sg, numP)[j] == p;
  }

  method FillWindWrap(i: nat, sb: int, sg: nat, numP: int) returns (ids: seq<int>)
    requires numP > 0
    ensures ids == WindWrapGeneration(i, sb, sg, numP)
  {
    var pktid := new int[sg](_ => -1);
    var lead := i * sb;
    var j := 0;
    while j < sg
      invariant 0 <= j <= sg && forall k :: 0 <= k < j ==> pktid[k] == (lead + k) % numP
    {
      pktid[j] := (lead + j) % numP;
      j := j + 1;
    }
    ids := pktid[..];
  }

  /** group_packets_windwrap. */
  method GroupWindWrap(sb: int, sg: nat, numG: int, numP: int) returns (gene: seq<Generation>)
    requires numG >= 0 && numP > 0
    ensures |gene| == numG
    ensures forall i :: 0 <= i < numG ==> gene[i] == Generation(i, WindWrapGeneration(i, sb, sg, numP))
  {
    gene := [];
    var i := 0;
    while i < numG
      invariant 0 <= i <= numG && |gene| == i
      invariant forall k :: 0 <= k < i ==> gene[k] == Generation(k, WindWrapGeneration(k, sb, sg, numP))
    {
      var ids := FillWindWrap(i, sb, sg, numP);
      gene := gene + [Generation(i, ids)];
      i := i + 1;
    }
  }
}
