/**
 * The generation-by-generation decoder (src/decoderGG.c).
 *
 * Each subgeneration keeps a running matrix (RunningMatrices) of the
 * packets received for it, with the columns of already decoded members
 * erased.  A subgeneration whose matrix reaches full rank is solved; the
 * packets it yields are propagated through the precode: a decoded source
 * packet is added to the evolving copy of each of its checks and removed
 * from the check's neighbour list, a decoded check packet is added to its
 * own evolving copy, a decoded check left with one unknown neighbour
 * recovers that neighbour, and a check whose neighbours are all decoded is
 * recovered itself.  The recently decoded packets are then erased from the
 * other running matrices, which may make another subgeneration decodable.
 *
 * The correctness statement is relative to the packets X the encoder held:
 * a decoder consistent with X (its decoded packets are those of X, its
 * stored rows are equations of X, every evolving check is the sum of the
 * check's undecoded neighbours, plus the check itself while that is
 * undecoded) stays consistent with X after a packet coded from X, and once
 * it reports the decoding finished it holds every source packet of X.
 */
module DecoderGg {
  import opened Wrappers
  import opened GaloisArith
  import opened GaloisPrimitive
  import opened Packets
  import opened Grouping
  import opened Bipartite
  import opened SncEncoder
  import opened RunningMatrices
  import Linear
  import Common
  import DecoderCbd

  /** FB_THOLD: how many recently decoded subgenerations are remembered. */
  const FbThold := 1

  // ---------------------------------------------------------------------
  // Packet buffers and sums of packets
  // ---------------------------------------------------------------------

  /** A buffer that may still be NULL; an absent one reads as zeros. */
  function Value(b: Option<seq<bv8>>, sizeP: nat): seq<bv8>
  {
    if b.Some? then b.value else Zeros(sizeP)
  }

  /** Every listed index names a packet of P with at least sizeP bytes. */
  predicate Lists(P: seq<seq<bv8>>, l: seq<nat>, sizeP: nat)
  {
    forall k :: 0 <= k < |l| ==> l[k] < |P| && sizeP <= |P[l[k]]|
  }

  /** The sum (byte-wise XOR) of the listed packets, one term per occurrence. */
  function Sum(P: seq<seq<bv8>>, l: seq<nat>, sizeP: nat): (v: seq<bv8>)
    requires Lists(P, l, sizeP)
    ensures |v| == sizeP
  {
    if |l| == 0 then Zeros(sizeP) else AddScaled(Sum(P, l[..|l| - 1], sizeP), P[l[|l| - 1]], 1)
  }

  /** Sum is the accumulation the precode performs with all coefficients 1. */
  lemma {:induction false} SumIsAccumulate(P: seq<seq<bv8>>, l: seq<nat>, sizeP: nat, m: nat)
    requires Lists(P, l, sizeP) && m <= |l|
    ensures Lists(P, l[..m], sizeP) && Covers(P, l, sizeP)
    ensures Sum(P, l[..m], sizeP) == Accumulate(Zeros(sizeP), P, l, Ones(|l|), m)
  {
    if m > 0 {
      SumIsAccumulate(P, l, sizeP, m - 1);
      assert l[..m][..m - 1] == l[..m - 1];
    }
  }

  /** Adding a packet twice cancels. */
  lemma AddTwice(v: seq<bv8>, x: seq<bv8>)
    requires |v| <= |x|
    ensures AddScaled(AddScaled(v, x, 1), x, 1) == v
  {
  }

  /** Additions commute. */
  lemma AddSwap(v: seq<bv8>, x: seq<bv8>, y: seq<bv8>)
    requires |v| <= |x| && |v| <= |y|
    ensures AddScaled(AddScaled(v, x, 1), y, 1) == AddScaled(AddScaled(v, y, 1), x, 1)
  {
  }

  /** Adding a packet of sizeP bytes to zeros copies it; adding it to itself gives zeros. */
  lemma AddToZeros(x: seq<bv8>, sizeP: nat)
    requires |x| == sizeP
    ensures AddScaled(Zeros(sizeP), x, 1) == x && AddScaled(x, x, 1) == Zeros(sizeP)
  {
    PowersAreDistinct();
    forall k | 0 <= k < sizeP
      ensures Mul(x[k], 1) == x[k]
    {
      MulOne(x[k]);
    }
  }

  /** A term in the middle of the list can be added last. */
  lemma {:induction false} SumMiddle(P: seq<seq<bv8>>, a: seq<nat>, s: nat, b: seq<nat>, sizeP: nat)
    requires Lists(P, a + [s] + b, sizeP) && s < |P| && sizeP <= |P[s]|
    ensures Lists(P, a + b, sizeP)
    ensures Sum(P, a + [s] + b, sizeP) == AddScaled(Sum(P, a + b, sizeP), P[s], 1)
    decreases |b|
  {
    assert forall k :: 0 <= k < |a + b| ==> (a + b)[k] in a + [s] + b;
    var l := a + [s] + b;
    if |b| == 0 {
      assert l[..|l| - 1] == a && a + b == a;
    } else {
      var b' := b[..|b| - 1];
      var y := b[|b| - 1];
      assert l[..|l| - 1] == a + [s] + b' && l[|l| - 1] == y && y < |P| && sizeP <= |P[y]|;
      assert (a + b)[..|a + b| - 1] == a + b' && (a + b)[|a + b| - 1] == y;
      SumMiddle(P, a, s, b', sizeP);
      AddSwap(Sum(P, a + b', sizeP), P[s], P[y]);
    }
  }

  // ---------------------------------------------------------------------
  // Neighbour lists
  // ---------------------------------------------------------------------

  /**
   * remove_from_list on a neighbour list: the first occurrence of s
   * unlinked, the list unchanged when s does not occur.
   */
  function Unlinked(l: seq<nat>, s: nat): (r: seq<nat>)
    ensures multiset(r) == multiset(l) - multiset{s}
    ensures forall x :: x in r ==> x in l
    ensures |r| == if s in l then |l| - 1 else |l|
  {
    if |l| == 0 then []
    else if l[0] == s then (assert l == [l[0]] + l[1..]; l[1..])
    else (assert l == [l[0]] + l[1..]; [l[0]] + Unlinked(l[1..], s))
  }

  /** Where the occurrence Unlinked removes sits. */
  lemma {:induction false} UnlinkedAt(l: seq<nat>, s: nat) returns (k: nat)
    requires s in l
    ensures k < |l| && l[k] == s && Unlinked(l, s) == l[..k] + l[k + 1..]
  {
    if l[0] == s {
      k := 0;
    } else {
      var k' := UnlinkedAt(l[1..], s);
      k := k' + 1;
      assert l[1..][..k'] == l[1..k] && l[1..][k' + 1..] == l[k + 1..];
      assert [l[0]] + l[1..k] == l[..k];
    }
  }

  /** Unlinking a listed packet takes it out of the sum. */
  lemma SumUnlinked(P: seq<seq<bv8>>, l: seq<nat>, s: nat, sizeP: nat)
    requires Lists(P, l, sizeP) && s in l
    ensures Lists(P, Unlinked(l, s), sizeP)
    ensures Sum(P, l, sizeP) == AddScaled(Sum(P, Unlinked(l, s), sizeP), P[s], 1)
  {
    var k := UnlinkedAt(l, s);
    assert l == l[..k] + [s] + l[k + 1..] && s < |P|;
    SumMiddle(P, l[..k], s, l[k + 1..], sizeP);
  }

  /** k copies of x hold x k times and nothing else. */
  lemma {:induction false} CopiesCount(x: nat, k: nat, y: nat)
    ensures multiset(Copies(x, k))[y] == if y == x then k else 0
  {
    if k > 0 {
      assert Copies(x, k) == Copies(x, k - 1) + [x];
      CopiesCount(x, k - 1, y);
    }
  }

  /** Left node s appears in the list of right node r as often as r appears among the neighbours of s. */
  lemma {:induction false} LeftsCount(r: nat, n: nat, L: seq<seq<nat>>, s: nat)
    requires n <= |L|
    ensures multiset(LeftsOf(r, n, L))[s] == if s < n then multiset(L[s])[r] else 0
  {
    if n > 0 {
      LeftsCount(r, n - 1, L, s);
      CopiesCount(n - 1, multiset(L[n - 1])[r], s);
    }
  }

  // ---------------------------------------------------------------------
  // Counting
  // ---------------------------------------------------------------------

  /** How many buffers are still NULL. */
  function NoneCount(pp: seq<Option<seq<bv8>>>): nat
  {
    if |pp| == 0 then 0 else NoneCount(pp[..|pp| - 1]) + (if pp[|pp| - 1].None? then 1 else 0)
  }

  /** Filling a NULL buffer leaves one NULL buffer fewer. */
  lemma {:induction false} NoneCountFill(pp: seq<Option<seq<bv8>>>, k: nat, v: seq<bv8>)
    requires k < |pp| && pp[k].None?
    ensures NoneCount(pp[k := Some(v)]) + 1 == NoneCount(pp)
  {
    var q := pp[k := Some(v)];
    if k < |pp| - 1 {
      assert q[..|q| - 1] == pp[..|pp| - 1][k := Some(v)];
      NoneCountFill(pp[..|pp| - 1], k, v);
    } else {
      assert q[..|q| - 1] == pp[..|pp| - 1];
    }
  }

  /** The source packets not yet decoded. */
  ghost function Missing(done: set<int>, snum: int): set<int>
  {
    set s | 0 <= s < snum && s !in done
  }

  /** Before anything is decoded all snum sources are missing. */
  lemma {:induction false} MissingAll(snum: nat)
    ensures |Missing({}, snum)| == snum
  {
    if snum > 0 {
      MissingAll(snum - 1);
      assert Missing({}, snum) == Missing({}, snum - 1) + {snum - 1};
    }
  }

  /** The unknown columns left in all running matrices. */
  function Remaining(ms: seq<RunningMatrix>): nat
  {
    if |ms| == 0 then 0
    else Remaining(ms[..|ms| - 1]) + (if ms[|ms| - 1].remainingCols > 0 then ms[|ms| - 1].remainingCols else 0)
  }

  /** No matrix has more unknown columns than before. */
  predicate NoMore(a: seq<RunningMatrix>, b: seq<RunningMatrix>)
  {
    |a| == |b| && forall g :: 0 <= g < |a| ==> b[g].remainingCols <= a[g].remainingCols
  }

  /** Fewer unknown columns anywhere, strictly fewer in one open matrix, means fewer in all. */
  lemma {:induction false} RemainingDrops(a: seq<RunningMatrix>, b: seq<RunningMatrix>, g: nat)
    requires NoMore(a, b) && g < |a| && a[g].remainingCols > 0 && b[g].remainingCols < a[g].remainingCols
    ensures Remaining(b) < Remaining(a)
  {
    var n := |a|;
    if g < n - 1 {
      RemainingDrops(a[..n - 1], b[..n - 1], g);
    } else {
      RemainingNoMore(a[..n - 1], b[..n - 1]);
    }
  }

  lemma {:induction false} RemainingNoMore(a: seq<RunningMatrix>, b: seq<RunningMatrix>)
    requires NoMore(a, b)
    ensures Remaining(b) <= Remaining(a)
  {
    if |a| > 0 {
      RemainingNoMore(a[..|a| - 1], b[..|b| - 1]);
    }
  }

  /** Marking more columns erased leaves no more unknown columns, and strictly fewer when a column is newly marked. */
  lemma {:induction false} UnerasedFewer(a: seq<bool>, b: seq<bool>)
    requires |a| == |b| && forall k :: 0 <= k < |a| && a[k] ==> b[k]
    ensures |Unerased(b)| <= |Unerased(a)|
    ensures (exists k :: 0 <= k < |a| && !a[k] && b[k]) ==> |Unerased(b)| < |Unerased(a)|
  {
    if |a| > 0 {
      var n := |a| - 1;
      UnerasedFewer(a[..n], b[..n]);
      if exists k :: 0 <= k < |a| && !a[k] && b[k] {
        var k :| 0 <= k < |a| && !a[k] && b[k];
        if k < n {
          assert !a[..n][k] && b[..n][k];
        }
      }
    }
  }

  /** A matrix with no unknown column has every column erased. */
  lemma AllErased(e: seq<bool>)
    requires |Unerased(e)| == 0
    ensures forall j :: 0 <= j < |e| ==> e[j]
  {
    forall j | 0 <= j < |e|
      ensures e[j]
    {
      if !e[j] {
        UnerasedAt(e, j);
      }
    }
  }

  /** With no column erased, every column is unknown. */
  lemma {:induction false} NoneErased(k: nat)
    ensures |Unerased(seq(k, _ => false))| == k
  {
    if k > 0 {
      assert seq(k, _ => false)[..k - 1] == seq(k - 1, _ => false);
      NoneErased(k - 1);
    }
  }

  // ---------------------------------------------------------------------
  // The decoder's state
  // ---------------------------------------------------------------------

  /**
   * The code being decoded: at least one check packet, subgenerations of
   * size_g distinct packets of the code (gnum of them) and the right
   * neighbours of each source packet in the precode graph.
   */
  ghost predicate Code(meta: Meta, gene: seq<Generation>, rnbrs: seq<seq<nat>>)
  {
    meta.snum >= 0 && meta.cnum > 0 && 0 < meta.sizeG <= meta.snum && meta.sizeP > 0 &&
    |gene| == meta.gnum && rnbrs == Precode(meta.snum, meta.cnum) &&
    forall g :: 0 <= g < meta.gnum ==>
      |gene[g].pktid| == meta.sizeG && Distinct(gene[g].pktid) && InPackets(gene[g].pktid, meta.snum + meta.cnum)
  }

  /** n packet buffers, each NULL or of sizeP bytes. */
  ghost predicate Buffers(pp: seq<Option<seq<bv8>>>, n: int, sizeP: int)
  {
    |pp| == n && forall k :: 0 <= k < n && pp[k].Some? ==> |pp[k].value| == sizeP
  }

  /** One running matrix per subgeneration, of the code's dimensions, whose erased columns name decoded packets. */
  ghost predicate Running(ms: seq<RunningMatrix>, gene: seq<Generation>, pp: seq<Option<seq<bv8>>>, sizeG: nat, sizeP: nat)
  {
    |ms| == |gene| &&
    forall g :: 0 <= g < |ms| ==>
      Dims(ms[g], sizeG, sizeP) && |gene[g].pktid| == sizeG &&
      forall j :: 0 <= j < sizeG && ms[g].erased[j] ==> 0 <= gene[g].pktid[j] < |pp| && pp[gene[g].pktid[j]].Some?
  }

  /** One neighbour list, evolving buffer and degree per check; the lists name source packets and bound the degrees. */
  ghost predicate Evolution(lnbrs: seq<seq<nat>>, evolving: seq<Option<seq<bv8>>>, degrees: seq<int>, snum: int, cnum: int, sizeP: int)
  {
    |lnbrs| == cnum && |evolving| == cnum && |degrees| == cnum &&
    forall c :: 0 <= c < cnum ==>
      (forall k :: 0 <= k < |lnbrs[c]| ==> lnbrs[c][k] < snum) && degrees[c] <= |lnbrs[c]| &&
      (evolving[c].Some? ==> |evolving[c].value| == sizeP)
  }

  /** Every running matrix has a free row for the next packet of its subgeneration. */
  ghost predicate Room(ms: seq<RunningMatrix>, sizeG: nat)
  {
    forall g :: 0 <= g < |ms| ==> ms[g].remainingRows < sizeG
  }

  /** No subgeneration is decodable: each is solved or has fewer rows than unknown columns. */
  ghost predicate Settled(ms: seq<RunningMatrix>)
  {
    forall g :: 0 <= g < |ms| ==> ms[g].remainingCols == 0 || ms[g].remainingRows < ms[g].remainingCols
  }

  /** b is a followed by more entries. */
  predicate Extends(a: seq<int>, b: seq<int>)
  {
    |a| <= |b| && b[..|a|] == a
  }

  /** The recently decoded packets: distinct packets of the code, all decoded. */
  ghost predicate Recents(recent: seq<int>, pp: seq<Option<seq<bv8>>>)
  {
    Distinct(recent) && forall i :: 0 <= i < |recent| ==> 0 <= recent[i] < |pp| && pp[recent[i]].Some?
  }

  /** No decoded packet is lost or overwritten. */
  predicate Kept(a: seq<Option<seq<bv8>>>, b: seq<Option<seq<bv8>>>)
  {
    |a| == |b| && forall k :: 0 <= k < |a| && a[k].Some? ==> b[k] == a[k]
  }

  /** X could be the encoder's packets: snum + cnum packets of size_p bytes whose checks are the sums of their neighbours. */
  ghost predicate CodePackets(meta: Meta, X: seq<seq<bv8>>)
  {
    meta.snum >= 0 && meta.cnum >= 0 && meta.sizeP >= 0 &&
    |X| == meta.snum + meta.cnum && Linear.Rect(X, meta.sizeP) &&
    ChecksAreSums(X, meta.snum, DecoderCbd.GraphLists(meta.snum, meta.cnum), meta.sizeP)
  }

  /** Every decoded packet is the packet of X. */
  ghost predicate Decoded(pp: seq<Option<seq<bv8>>>, X: seq<seq<bv8>>)
  {
    |pp| == |X| && forall k :: 0 <= k < |pp| && pp[k].Some? ==> pp[k].value == X[k]
  }

  /** Every source packet is decoded, as the packet of X. */
  ghost predicate Recovered(pp: seq<Option<seq<bv8>>>, X: seq<seq<bv8>>, snum: int)
  {
    snum <= |pp| && snum <= |X| && forall s :: 0 <= s < snum ==> pp[s] == Some(X[s])
  }

  /** Every stored row of every running matrix is an equation of X. */
  ghost predicate Hold(ms: seq<RunningMatrix>, gene: seq<Generation>, X: seq<seq<bv8>>, sizeP: nat)
  {
    |ms| <= |gene| && forall g {:trigger Equations(ms[g], gene[g].pktid, X, sizeP)} :: 0 <= g < |ms| ==> Equations(ms[g], gene[g].pktid, X, sizeP)
  }

  /**
   * The packets whose effect on the precode has been applied (done): the
   * recent list holds those first and the others after position pending;
   * a decoded packet not yet applied is in the recent list.
   */
  ghost predicate Pending(recent: seq<int>, pending: int, done: set<int>, pp: seq<Option<seq<bv8>>>)
  {
    0 <= pending <= |recent| &&
    (forall i :: 0 <= i < pending ==> recent[i] in done) &&
    (forall i :: pending <= i < |recent| ==> recent[i] !in done) &&
    (forall k :: k in done ==> 0 <= k < |pp| && pp[k].Some?) &&
    (forall k :: 0 <= k < |pp| && pp[k].Some? && k !in done ==> k in recent)
  }

  /** A decoded packet whose column is still unknown in some running matrix is a recent one. */
  ghost predicate Masked(ms: seq<RunningMatrix>, gene: seq<Generation>, pp: seq<Option<seq<bv8>>>, recent: seq<int>)
  {
    forall g, j :: 0 <= g < |ms| && g < |gene| && 0 <= j < |ms[g].erased| && j < |gene[g].pktid| &&
                   !ms[g].erased[j] && 0 <= gene[g].pktid[j] < |pp| && pp[gene[g].pktid[j]].Some? ==>
      gene[g].pktid[j] in recent
  }

  /** The evolving buffer of a check: the sum S of its remaining neighbours, plus the check x itself until it is decoded. */
  function Evolved(S: seq<bv8>, x: seq<bv8>, decoded: bool): seq<bv8>
    requires |S| <= |x|
  {
    if decoded then S else AddScaled(S, x, 1)
  }

  /**
   * Check c's evolving buffer is Evolved from X; its degree is the length
   * of its neighbour list, or one less once a decoded check has recovered
   * its last neighbour.
   */
  ghost predicate EvolvingAt(X: seq<seq<bv8>>, snum: nat, lnbrs: seq<seq<nat>>, evolving: seq<Option<seq<bv8>>>,
                             degrees: seq<int>, done: set<int>, pp: seq<Option<seq<bv8>>>, sizeP: nat, c: int)
  {
    0 <= c < |lnbrs| && c < |evolving| && c < |degrees| && snum + c < |X| && snum + c < |pp| &&
    Lists(X[..snum], lnbrs[c], sizeP) && |X[snum + c]| == sizeP &&
    Value(evolving[c], sizeP) == Evolved(Sum(X[..snum], lnbrs[c], sizeP), X[snum + c], snum + c in done) &&
    (degrees[c] == |lnbrs[c]| || (degrees[c] == |lnbrs[c]| - 1 && degrees[c] <= 0 && pp[snum + c].Some?))
  }

  /** Every check's evolving buffer and degree agree with X. */
  ghost predicate Evolving(X: seq<seq<bv8>>, snum: nat, lnbrs: seq<seq<nat>>, evolving: seq<Option<seq<bv8>>>,
                           degrees: seq<int>, done: set<int>, pp: seq<Option<seq<bv8>>>, sizeP: nat)
  {
    |evolving| == |lnbrs| && |degrees| == |lnbrs| && |pp| == |X| == snum + |lnbrs| &&
    forall c :: 0 <= c < |lnbrs| ==> EvolvingAt(X, snum, lnbrs, evolving, degrees, done, pp, sizeP, c)
  }

  /** Each check lists each undecoded source as often as the graph joins them, and no source whose effect is applied. */
  ghost predicate Counts(lnbrs: seq<seq<nat>>, rnbrs: seq<seq<nat>>, done: set<int>)
  {
    forall c, s {:trigger multiset(lnbrs[c])[s]} :: 0 <= c < |lnbrs| && 0 <= s < |rnbrs| ==>
      multiset(lnbrs[c])[s] == if s in done then 0 else multiset(rnbrs[s])[c]
  }

  /** Counts while source s is being unlinked, with its checks still to visit in rest. */
  ghost predicate CountsDuring(lnbrs: seq<seq<nat>>, rnbrs: seq<seq<nat>>, done: set<int>, s: int, rest: seq<nat>)
  {
    forall c, t {:trigger multiset(lnbrs[c])[t]} :: 0 <= c < |lnbrs| && 0 <= t < |rnbrs| ==>
      multiset(lnbrs[c])[t] == if t == s then multiset(rest)[c] else if t in done then 0 else multiset(rnbrs[t])[c]
  }

  /** originals counts the sources whose effect is applied. */
  ghost predicate Counted(originals: int, done: set<int>, snum: int)
  {
    originals + |Missing(done, snum)| == snum
  }

  /**
   * Decoding agrees with X, the effect of the recent packets before
   * position pending being applied to the precode: decoded packets and
   * stored rows are those of X, evolving buffers are the sums of the
   * remaining neighbours, neighbour lists and originals count what is left.
   */
  ghost predicate Agrees(meta: Meta, gene: seq<Generation>, rnbrs: seq<seq<nat>>, X: seq<seq<bv8>>,
                         lnbrs: seq<seq<nat>>, evolving: seq<Option<seq<bv8>>>, degrees: seq<int>, originals: int,
                         matrices: seq<RunningMatrix>, recent: seq<int>, pp: seq<Option<seq<bv8>>>, done: set<int>, pending: int)
  {
    CodePackets(meta, X) &&
    Decoded(pp, X) && Hold(matrices, gene, X, meta.sizeP) && Pending(recent, pending, done, pp) &&
    Masked(matrices, gene, pp, recent) &&
    Evolving(X, meta.snum, lnbrs, evolving, degrees, done, pp, meta.sizeP) &&
    Counts(lnbrs, rnbrs, done) && Counted(originals, done, meta.snum)
  }

  /** A decoded packet added to an evolving buffer, which is a copy of the packet while NULL. */
  function Absorb(v: Option<seq<bv8>>, x: seq<bv8>): (r: seq<bv8>)
    requires v.Some? ==> |v.value| == |x|
    ensures |r| == |x|
  {
    if v.None? then x else AddScaled(v.value, x, 1)
  }

  /** A decoded check added to its evolving buffer (copied when the buffer is NULL) leaves the sum of its neighbours. */
  lemma CheckDecodedStep(v: Option<seq<bv8>>, S: seq<bv8>, x: seq<bv8>, sizeP: nat)
    requires |S| == sizeP && |x| == sizeP && (v.Some? ==> |v.value| == sizeP)
    requires Value(v, sizeP) == AddScaled(S, x, 1)
    ensures Absorb(v, x) == S
  {
    AddTwice(S, x);
    AddToZeros(x, sizeP);
  }

  /** A decoded source added to the evolving buffer of a check it neighbours takes it out of the buffer's sum. */
  lemma SourceDecodedStep(v: seq<bv8>, S: seq<bv8>, xs: seq<bv8>, xc: seq<bv8>, decoded: bool)
    requires |S| == |xs| == |xc|
    requires v == Evolved(AddScaled(S, xs, 1), xc, decoded)
    ensures AddScaled(v, xs, 1) == Evolved(S, xc, decoded)
  {
    AddTwice(S, xs);
    if !decoded {
      AddSwap(S, xs, xc);
      AddTwice(AddScaled(S, xc, 1), xs);
    }
  }

  /** A decoded check whose one remaining neighbour is undecoded holds exactly that neighbour. */
  lemma LastNeighbour(P: seq<seq<bv8>>, l: seq<nat>, sizeP: nat)
    requires Lists(P, l, sizeP) && |l| == 1 && |P[l[0]]| == sizeP
    ensures Sum(P, l, sizeP) == P[l[0]]
  {
    assert l[..0] == [];
    AddToZeros(P[l[0]], sizeP);
  }

  /** Before position j either no column is unknown, or the first unknown column's packet is decoded. */
  ghost predicate FirstSeen(erased: seq<bool>, ids: seq<int>, pp: seq<Option<seq<bv8>>>, j: nat)
    requires j <= |erased| == |ids| && forall k :: 0 <= k < |ids| ==> 0 <= ids[k] < |pp|
  {
    |Unerased(erased[..j])| == 0 || (|Unerased(erased)| > 0 && pp[ids[Unerased(erased)[0]]].Some?)
  }

  /** Passing over an erased column, or an unknown one whose packet is decoded, keeps FirstSeen. */
  lemma ScanSkip(erased: seq<bool>, ids: seq<int>, pp: seq<Option<seq<bv8>>>, j: nat)
    requires j < |erased| == |ids| && forall k :: 0 <= k < |ids| ==> 0 <= ids[k] < |pp|
    requires FirstSeen(erased, ids, pp, j) && (erased[j] || pp[ids[j]].Some?)
    ensures FirstSeen(erased, ids, pp, j + 1)
  {
    UnerasedStep(erased, j);
    if !erased[j] && |Unerased(erased[..j])| == 0 {
      UnerasedAt(erased, j);
    }
  }

  /**
   * The scan stops at column j, unknown with an undecoded packet, having
   * erased every column up to j: fewer columns are unknown, and when the
   * first unknown column's packet was undecoded, j is that column and the
   * only one erased.
   */
  lemma ScanStop(erased: seq<bool>, e: seq<bool>, ids: seq<int>, pp: seq<Option<seq<bv8>>>, j: nat)
    requires j < |erased| == |ids| == |e| && forall k :: 0 <= k < |ids| ==> 0 <= ids[k] < |pp|
    requires forall k :: 0 <= k < |e| ==> e[k] == (erased[k] || k <= j)
    requires FirstSeen(erased, ids, pp, j) && !erased[j] && pp[ids[j]].None?
    ensures |Unerased(e)| < |Unerased(erased)|
    ensures pp[ids[Unerased(erased)[0]]].None? ==> Unerased(erased)[0] == j && e == erased[j := true]
  {
    UnerasedFewer(erased, e);
    UnerasedAt(erased, j);
    if pp[ids[Unerased(erased)[0]]].None? {
      assert |Unerased(erased[..j])| == 0;
      forall k | 0 <= k < j
        ensures erased[k]
      {
        if !erased[k] {
          UnerasedAt(erased[..j], k);
        }
      }
    }
  }

  /** The scan ran to the end: every column is erased, and the first unknown column's packet, if any, was decoded. */
  lemma ScanThrough(erased: seq<bool>, e: seq<bool>, ids: seq<int>, pp: seq<Option<seq<bv8>>>)
    requires |erased| == |ids| == |e| && forall k :: 0 <= k < |ids| ==> 0 <= ids[k] < |pp|
    requires forall k :: 0 <= k < |e| ==> e[k]
    requires FirstSeen(erased, ids, pp, |erased|)
    ensures |Unerased(e)| == 0
    ensures |Unerased(erased)| > 0 ==> pp[ids[Unerased(erased)[0]]].Some?
  {
    assert erased[..|erased|] == erased;
  }

  /**
   * The scan of decode_generation for one solved row: the first column not
   * yet erased is erased; when its packet is already decoded the scan goes
   * on to the next such column, otherwise the packet becomes the row's
   * payload and is recorded as added, and the scan stops.  When the first
   * unknown column's packet is undecoded, exactly that column is erased and
   * exactly that packet is added.
   */
  method ScanRow(erased: seq<bool>, ids: seq<int>, pp: seq<Option<seq<bv8>>>, payload: seq<bv8>)
    returns (e: seq<bool>, q: seq<Option<seq<bv8>>>, added: seq<int>)
    requires |erased| == |ids| && forall j :: 0 <= j < |ids| ==> 0 <= ids[j] < |pp|
    ensures |e| == |erased| && Kept(pp, q)
    ensures forall j :: 0 <= j < |e| && erased[j] ==> e[j]
    ensures forall j :: 0 <= j < |e| && e[j] && !erased[j] ==> q[ids[j]].Some?
    ensures (added == [] && q == pp) ||
            (|added| == 1 && 0 <= added[0] < |pp| && pp[added[0]].None? && q == pp[added[0] := Some(payload)])
    ensures |Unerased(e)| <= |Unerased(erased)| && (|Unerased(erased)| > 0 ==> |Unerased(e)| < |Unerased(erased)|)
    ensures |Unerased(erased)| > 0 && pp[ids[Unerased(erased)[0]]].None? ==>
      e == erased[Unerased(erased)[0] := true] && added == [ids[Unerased(erased)[0]]]
  {
    e, q, added := erased, pp, [];
    var j := 0;
    while j < |ids|
      invariant 0 <= j <= |ids| && |e| == |erased| && q == pp && added == []
      invariant forall k :: 0 <= k < |e| ==> e[k] == (erased[k] || k < j)
      invariant forall k :: 0 <= k < j && !erased[k] ==> pp[ids[k]].Some?
      invariant FirstSeen(erased, ids, pp, j)
    {
      if !erased[j] {
        e := e[j := true];
        var src := ids[j];
        if pp[src].None? {
          q := pp[src := Some(payload)];
          added := [src];
          ScanStop(erased, e, ids, pp, j);
          return;
        }
      }
      ScanSkip(erased, ids, pp, j);
      j := j + 1;
    }
    ScanThrough(erased, e, ids, pp);
  }

  // ---------------------------------------------------------------------
  // The decoder
  // ---------------------------------------------------------------------

  /**
   * The loop of new_decoded_source_packet over the checks nbrs that source
   * s neighbours, one visit per edge: packet is added to the check's
   * evolving buffer, its degree drops and s leaves its neighbour list.
   * When the buffers agree with X, packet is the source of X and each
   * check lists s once per edge still to visit, s leaves every list and
   * buffer.
   */
  method VisitChecks(nbrs: seq<nat>, s: nat, packet: seq<bv8>, lnbrs: seq<seq<nat>>, evolving: seq<Option<seq<bv8>>>,
                     degrees: seq<int>, snum: nat, cnum: nat, sizeP: nat, ghost X: seq<seq<bv8>>, ghost rnbrs: seq<seq<nat>>,
                     ghost done: set<int>, ghost pp: seq<Option<seq<bv8>>>)
    returns (ln: seq<seq<nat>>, ev: seq<Option<seq<bv8>>>, dg: seq<int>)
    requires Evolution(lnbrs, evolving, degrees, snum, cnum, sizeP) && |packet| == sizeP
    requires s < snum == |rnbrs| && forall k :: 0 <= k < |nbrs| ==> nbrs[k] < cnum
    ensures Evolution(ln, ev, dg, snum, cnum, sizeP)
    ensures Evolving(X, snum, lnbrs, evolving, degrees, done, pp, sizeP) && Counts(lnbrs, rnbrs, done) && s !in done &&
            nbrs == rnbrs[s] && packet == X[s] ==>
      Evolving(X, snum, ln, ev, dg, done, pp, sizeP) && CountsDuring(ln, rnbrs, done, s, [])
  {
    ghost var good := Evolving(X, snum, lnbrs, evolving, degrees, done, pp, sizeP) && Counts(lnbrs, rnbrs, done) &&
                      s !in done && nbrs == rnbrs[s] && packet == X[s];
    if good {
      SourceStart(lnbrs, rnbrs, done, s);
    }
    assert nbrs[0..] == nbrs;
    ln, ev, dg := lnbrs, evolving, degrees;
    var t := 0;
    while t < |nbrs|
      invariant 0 <= t <= |nbrs|
      invariant Evolution(ln, ev, dg, snum, cnum, sizeP)
      invariant good ==> Evolving(X, snum, ln, ev, dg, done, pp, sizeP) && CountsDuring(ln, rnbrs, done, s, nbrs[t..])
    {
      var c := nbrs[t];
      VisitEvolution(ln, ev, dg, snum, cnum, sizeP, s, c, packet);
      if good {
        VisitCounts(ln, rnbrs, done, s, nbrs, t);
        VisitEvolving(X, snum, ln, ev, dg, done, pp, sizeP, s, c);
      }
      ev := ev[c := Some(AddScaled(Value(ev[c], sizeP), packet, 1))];
      dg := dg[c := dg[c] - 1];
      ln := ln[c := Unlinked(ln[c], s)];
      t := t + 1;
    }
    assert nbrs[t..] == [];
  }

  /**
   * The loop of check_for_new_recoverables over the checks.  A decoded
   * check, not recent, with degree one recovers its last neighbour from its
   * evolving buffer (unless that neighbour is decoded already) and drops to
   * degree zero; an undecoded check of degree zero is recovered from its
   * evolving buffer.  Each recovered packet joins the recent list.
   * Afterwards no check is left in either situation, and a decoding that
   * agreed with X still does.
   */
  method Recoverables(meta: Meta, lnbrs: seq<seq<nat>>, evolving: seq<Option<seq<bv8>>>, degrees: seq<int>,
                 pp: seq<Option<seq<bv8>>>, recent: seq<int>,
                 ghost gene: seq<Generation>, ghost rnbrs: seq<seq<nat>>, ghost X: seq<seq<bv8>>, ghost originals: int,
                 ghost matrices: seq<RunningMatrix>, ghost done: set<int>, ghost pending: int)
    returns (dg: seq<int>, q: seq<Option<seq<bv8>>>, rc: seq<int>)
    requires meta.snum >= 0 && meta.cnum >= 0 && meta.sizeP >= 0
    requires Evolution(lnbrs, evolving, degrees, meta.snum, meta.cnum, meta.sizeP)
    requires Buffers(pp, meta.snum + meta.cnum, meta.sizeP) && Recents(recent, pp)
    ensures Evolution(lnbrs, evolving, dg, meta.snum, meta.cnum, meta.sizeP)
    ensures Buffers(q, meta.snum + meta.cnum, meta.sizeP) && Recents(rc, q)
    ensures Kept(pp, q) && Extends(recent, rc) && NoneCount(q) + |rc| == NoneCount(pp) + |recent|
    ensures forall c :: 0 <= c < meta.cnum ==> Stalled(dg, q, rc, meta.snum, c)
    ensures Agrees(meta, gene, rnbrs, X, lnbrs, evolving, degrees, originals, matrices, recent, pp, done, pending) ==>
      Agrees(meta, gene, rnbrs, X, lnbrs, evolving, dg, originals, matrices, rc, q, done, pending)
  {
    ghost var good := Agrees(meta, gene, rnbrs, X, lnbrs, evolving, degrees, originals, matrices, recent, pp, done, pending);
    var snum := meta.snum;
    dg, q, rc := degrees, pp, recent;
    for c := 0 to meta.cnum
      invariant Evolution(lnbrs, evolving, dg, snum, meta.cnum, meta.sizeP)
      invariant Buffers(q, snum + meta.cnum, meta.sizeP) && Recents(rc, q)
      invariant Kept(pp, q) && Extends(recent, rc) && NoneCount(q) + |rc| == NoneCount(pp) + |recent|
      invariant forall d :: 0 <= d < c ==> Stalled(dg, q, rc, snum, d)
      invariant good ==> Agrees(meta, gene, rnbrs, X, lnbrs, evolving, dg, originals, matrices, rc, q, done, pending)
    {
      ghost var dg0, q0, rc0 := dg, q, rc;
      dg, q, rc := RecoverableAt(meta, lnbrs, evolving, dg, q, rc, c, gene, rnbrs, X, originals, matrices, done, pending);
      StalledStep(dg0, q0, rc0, dg, q, rc, snum, c);
      assert Extends(recent, rc) by { assert rc[..|rc0|] == rc0; }
    }
  }

  /** One check visited by check_for_new_recoverables. */
  method RecoverableAt(meta: Meta, lnbrs: seq<seq<nat>>, evolving: seq<Option<seq<bv8>>>, degrees: seq<int>,
                   pp: seq<Option<seq<bv8>>>, recent: seq<int>, c: int,
                   ghost gene: seq<Generation>, ghost rnbrs: seq<seq<nat>>, ghost X: seq<seq<bv8>>, ghost originals: int,
                   ghost matrices: seq<RunningMatrix>, ghost done: set<int>, ghost pending: int)
    returns (dg: seq<int>, q: seq<Option<seq<bv8>>>, rc: seq<int>)
    requires meta.snum >= 0 && meta.cnum >= 0 && meta.sizeP >= 0 && 0 <= c < meta.cnum
    requires Evolution(lnbrs, evolving, degrees, meta.snum, meta.cnum, meta.sizeP)
    requires Buffers(pp, meta.snum + meta.cnum, meta.sizeP) && Recents(recent, pp)
    ensures Evolution(lnbrs, evolving, dg, meta.snum, meta.cnum, meta.sizeP)
    ensures Buffers(q, meta.snum + meta.cnum, meta.sizeP) && Recents(rc, q)
    ensures Kept(pp, q) && Extends(recent, rc) && NoneCount(q) + |rc| == NoneCount(pp) + |recent|
    ensures Stalled(dg, q, rc, meta.snum, c)
    ensures forall d :: 0 <= d < |dg| && d != c ==> dg[d] == degrees[d]
    ensures forall k :: meta.snum <= k < |q| && k != meta.snum + c ==> q[k] == pp[k]
    ensures Agrees(meta, gene, rnbrs, X, lnbrs, evolving, degrees, originals, matrices, recent, pp, done, pending) ==>
      Agrees(meta, gene, rnbrs, X, lnbrs, evolving, dg, originals, matrices, rc, q, done, pending)
  {
    ghost var good := Agrees(meta, gene, rnbrs, X, lnbrs, evolving, degrees, originals, matrices, recent, pp, done, pending);
    var snum, sizeP := meta.snum, meta.sizeP;
    dg, q, rc := degrees, pp, recent;
    if dg[c] == 1 && q[snum + c].Some? && snum + c !in rc {
      // the check's last neighbour
      var src := lnbrs[c][0];
      assert src < snum;
      if good {
        RetireCheck(meta, gene, rnbrs, X, lnbrs, evolving, dg, originals, matrices, rc, q, done, pending, c);
      }
      if q[src].None? {
        // a NULL evolving buffer would be read as zeros
        var v := Value(evolving[c], sizeP);
        if good {
          Learn(meta, gene, rnbrs, X, lnbrs, evolving, dg[c := 0], originals, matrices, rc, q, done, pending, src);
        }
        NoneCountFill(q, src, v);
        q := q[src := Some(v)];
        rc := rc + [src];
      }
      dg := dg[c := 0];
    } else if q[snum + c].None? && dg[c] == 0 {
      var v := Value(evolving[c], sizeP);
      if good {
        RecoverCheck(meta, gene, rnbrs, X, lnbrs, evolving, dg, originals, matrices, rc, q, done, pending, c);
        Learn(meta, gene, rnbrs, X, lnbrs, evolving, dg, originals, matrices, rc, q, done, pending, snum + c);
      }
      NoneCountFill(q, snum + c, v);
      q := q[snum + c := Some(v)];
      rc := rc + [snum + c];
    }
  }

  /** Visiting check c leaves the checks visited before it with nothing to do. */
  lemma StalledStep(dg0: seq<int>, q0: seq<Option<seq<bv8>>>, rc0: seq<int>,
                    dg: seq<int>, q: seq<Option<seq<bv8>>>, rc: seq<int>, snum: nat, c: int)
    requires forall d :: 0 <= d < c ==> Stalled(dg0, q0, rc0, snum, d)
    requires Stalled(dg, q, rc, snum, c) && |dg| == |dg0| && |q| == |q0| && Extends(rc0, rc)
    requires forall d :: 0 <= d < |dg| && d != c ==> dg[d] == dg0[d]
    requires forall k :: snum <= k < |q| && k != snum + c ==> q[k] == q0[k]
    ensures forall d :: 0 <= d <= c ==> Stalled(dg, q, rc, snum, d)
  {
    forall d | 0 <= d < c
      ensures Stalled(dg, q, rc, snum, d)
    {
      assert Stalled(dg0, q0, rc0, snum, d);
      assert snum + d in rc0 ==> snum + d in rc by {
        if snum + d in rc0 {
          var i :| 0 <= i < |rc0| && rc0[i] == snum + d;
          assert rc[i] == rc0[i];
        }
      }
    }
  }

  /** Decoding more packets keeps the erased members of every running matrix decoded. */
  lemma RunningKept(ms: seq<RunningMatrix>, gene: seq<Generation>, pp: seq<Option<seq<bv8>>>, q: seq<Option<seq<bv8>>>,
                    sizeG: nat, sizeP: nat)
    requires Running(ms, gene, pp, sizeG, sizeP) && Kept(pp, q)
    ensures Running(ms, gene, q, sizeG, sizeP)
  {
  }

  /** Keeping decoded packets is transitive. */
  lemma KeptTrans(a: seq<Option<seq<bv8>>>, b: seq<Option<seq<bv8>>>, c: seq<Option<seq<bv8>>>)
    requires Kept(a, b) && Kept(b, c)
    ensures Kept(a, c)
  {
    forall k | 0 <= k < |a| && a[k].Some?
      ensures c[k] == a[k]
    {
      assert b[k] == a[k];
    }
  }

  /** Appending a packet that was NULL and is now decoded keeps the recent list distinct and decoded. */
  lemma RecentsGrow(rc: seq<int>, pp: seq<Option<seq<bv8>>>, q: seq<Option<seq<bv8>>>, k: int)
    requires Recents(rc, pp) && Kept(pp, q) && 0 <= k < |pp| && pp[k].None? && q[k].Some?
    ensures Recents(rc + [k], q)
  {
    var r := rc + [k];
    forall i | 0 <= i < |r|
      ensures 0 <= r[i] < |q| && q[r[i]].Some?
    {
      if i < |rc| {
        assert r[i] == rc[i] && pp[rc[i]].Some?;
      }
    }
    forall a, b | 0 <= a < b < |r|
      ensures r[a] != r[b]
    {
      if b < |rc| {
        assert r[a] == rc[a] && r[b] == rc[b];
      } else {
        assert r[a] == rc[a] && pp[rc[a]].Some?;
      }
    }
  }

  /** What one row of Unpack keeps, whatever the packets: buffers, recent list, decoded packets and erased members. */
  lemma UnpackKeeps(pp: seq<Option<seq<bv8>>>, recent: seq<int>, erased: seq<bool>, ids: seq<int>,
                    e0: seq<bool>, q0: seq<Option<seq<bv8>>>, rc0: seq<int>,
                    e: seq<bool>, q: seq<Option<seq<bv8>>>, added: seq<int>, payload: seq<bv8>, sizeP: int)
    requires |erased| == |e0| == |e| == |ids| && |payload| == sizeP && |q0| == |q| == |pp|
    requires forall j :: 0 <= j < |ids| ==> 0 <= ids[j] < |pp|
    requires (forall j :: 0 <= j < |e0| && erased[j] ==> e0[j]) &&
             (forall j :: 0 <= j < |ids| && e0[j] && !erased[j] ==> q0[ids[j]].Some?)
    requires Buffers(q0, |pp|, sizeP) && Recents(rc0, q0) && Kept(pp, q0) && Extends(recent, rc0)
    requires Kept(q0, q) && (forall j :: 0 <= j < |e| && e0[j] ==> e[j]) &&
             (forall j :: 0 <= j < |e| && e[j] && !e0[j] ==> q[ids[j]].Some?)
    requires (added == [] && q == q0) ||
             (|added| == 1 && 0 <= added[0] < |q0| && q0[added[0]].None? && q == q0[added[0] := Some(payload)])
    ensures Buffers(q, |pp|, sizeP) && Recents(rc0 + added, q) && Kept(pp, q) && Extends(recent, rc0 + added)
    ensures forall j :: 0 <= j < |e| && erased[j] ==> e[j]
    ensures forall j :: 0 <= j < |ids| && e[j] && !erased[j] ==> q[ids[j]].Some?
  {
    KeptTrans(pp, q0, q);
    if added == [] {
      assert rc0 + added == rc0;
    } else {
      RecentsGrow(rc0, q0, q, added[0]);
    }
    assert (rc0 + added)[..|rc0|] == rc0;
    forall j | 0 <= j < |ids| && e[j] && !erased[j]
      ensures q[ids[j]].Some?
    {
      if e0[j] {
        assert q0[ids[j]].Some?;
      }
    }
  }

  /** A solved matrix whose members are all decoded may replace subgeneration g's. */
  lemma RunningSolved(ms: seq<RunningMatrix>, gene: seq<Generation>, q: seq<Option<seq<bv8>>>, sizeG: nat, sizeP: nat,
                      g: int, D: RunningMatrix)
    requires Running(ms, gene, q, sizeG, sizeP) && 0 <= g < |ms| && Dims(D, sizeG, sizeP)
    requires forall j :: 0 <= j < sizeG ==> 0 <= gene[g].pktid[j] < |q| && q[gene[g].pktid[j]].Some?
    ensures Running(ms[g := D], gene, q, sizeG, sizeP)
  {
    var ns := ms[g := D];
    forall h | 0 <= h < |ns|
      ensures Dims(ns[h], sizeG, sizeP) && |gene[h].pktid| == sizeG &&
              forall j :: 0 <= j < sizeG && ns[h].erased[j] ==> 0 <= gene[h].pktid[j] < |q| && q[gene[h].pktid[j]].Some?
    {
      if h != g {
        assert ns[h] == ms[h];
      }
    }
  }

  /** With every recent packet applied, every decoded packet is applied and nothing is pending. */
  lemma AllApplied(recent: seq<int>, pending: int, done: set<int>, pp: seq<Option<seq<bv8>>>)
    requires Pending(recent, pending, done, pp) && pending == |recent|
    ensures Pending([], 0, done, pp)
  {
  }

  /**
   * The body of update_generations for one matrix: unless it is solved,
   * has_item looks for the packet id among its members, and a member found
   * and not yet erased becomes known (update_running_matrix).  Afterwards
   * the erased members are those erased before and id; stored rows stay
   * equations when the known content is that of X.
   */
  method EraseAt(M: RunningMatrix, ids: seq<int>, id: int, known: seq<bv8>, sizeG: nat, sizeP: nat, ghost X: seq<seq<bv8>>)
    returns (F: RunningMatrix)
    requires Dims(M, sizeG, sizeP) && |ids| == sizeG && Distinct(ids) && |known| == sizeP
    ensures Dims(F, sizeG, sizeP) && F.remainingRows == M.remainingRows && F.remainingCols <= M.remainingCols
    ensures forall j :: 0 <= j < sizeG ==> (F.erased[j] <==> M.erased[j] || ids[j] == id)
    ensures Equations(M, ids, X, sizeP) && 0 <= id < |X| && known == X[id] ==> Equations(F, ids, X, sizeP)
  {
    F := M;
    if M.remainingCols == 0 {
      AllErased(M.erased);
      return;
    }
    // has_item searches the members as an array
    var a := new int[sizeG](j requires 0 <= j < sizeG => ids[j]);
    var pos := Common.HasItem(a, id, sizeG);
    assert forall j :: 0 <= j < sizeG ==> a[j] == ids[j];
    if pos != -1 {
      // a member of a subgeneration appears once
      assert forall j :: 0 <= j < sizeG && ids[j] == id ==> j == pos;
      if !M.erased[pos] {
        F := UpdateMatrix(M, pos, known, sizeG, sizeP, ids, X);
      }
    }
  }

  /** The loop of update_generations over the matrices for one recent packet id. */
  method EraseFrom(ms: seq<RunningMatrix>, gene: seq<Generation>, pp: seq<Option<seq<bv8>>>, id: int,
                   sizeG: nat, sizeP: nat, ghost X: seq<seq<bv8>>) returns (out: seq<RunningMatrix>)
    requires Running(ms, gene, pp, sizeG, sizeP) && 0 <= id < |pp| && pp[id].Some? && |pp[id].value| == sizeP
    requires forall g :: 0 <= g < |gene| ==> Distinct(gene[g].pktid)
    ensures Running(out, gene, pp, sizeG, sizeP) && NoMore(ms, out)
    ensures forall g :: 0 <= g < |ms| ==> out[g].remainingRows == ms[g].remainingRows
    ensures forall g, j :: 0 <= g < |ms| && 0 <= j < sizeG ==> (out[g].erased[j] <==> ms[g].erased[j] || gene[g].pktid[j] == id)
    ensures Hold(ms, gene, X, sizeP) && 0 <= id < |X| && pp[id].value == X[id] ==> Hold(out, gene, X, sizeP)
  {
    ghost var good := Hold(ms, gene, X, sizeP) && 0 <= id < |X| && pp[id].value == X[id];
    out := ms;
    for g := 0 to |ms|
      invariant |out| == |ms|
      invariant forall h :: g <= h < |ms| ==> out[h] == ms[h]
      invariant Running(out, gene, pp, sizeG, sizeP) && NoMore(ms, out)
      invariant forall h :: 0 <= h < |ms| ==> out[h].remainingRows == ms[h].remainingRows
      invariant forall h, j :: 0 <= h < g && 0 <= j < sizeG ==> (out[h].erased[j] <==> ms[h].erased[j] || gene[h].pktid[j] == id)
      invariant good ==> Hold(out, gene, X, sizeP)
    {
      var F := EraseAt(out[g], gene[g].pktid, id, pp[id].value, sizeG, sizeP, X);
      out := out[g := F];
    }
  }

  /**
   * The loops of update_generations: each recent packet in turn becomes
   * known in every matrix holding it.  Afterwards the erased members are
   * those erased before and the recent ones, so a decoded member still
   * unknown before was recent only if none is unknown now.
   */
  method EraseRecent(ms: seq<RunningMatrix>, gene: seq<Generation>, pp: seq<Option<seq<bv8>>>, recent: seq<int>,
                     sizeG: nat, sizeP: nat, ghost X: seq<seq<bv8>>) returns (out: seq<RunningMatrix>)
    requires Running(ms, gene, pp, sizeG, sizeP) && Recents(recent, pp) && Buffers(pp, |pp|, sizeP)
    requires forall g :: 0 <= g < |gene| ==> Distinct(gene[g].pktid)
    ensures Running(out, gene, pp, sizeG, sizeP) && NoMore(ms, out)
    ensures forall g :: 0 <= g < |ms| ==> out[g].remainingRows == ms[g].remainingRows
    ensures forall g, j :: 0 <= g < |ms| && 0 <= j < sizeG ==> (out[g].erased[j] <==> ms[g].erased[j] || gene[g].pktid[j] in recent)
    ensures Masked(ms, gene, pp, recent) ==> Masked(out, gene, pp, [])
    ensures Decoded(pp, X) && Hold(ms, gene, X, sizeP) ==> Hold(out, gene, X, sizeP)
  {
    ghost var good := Decoded(pp, X) && Hold(ms, gene, X, sizeP);
    out := ms;
    for r := 0 to |recent|
      invariant Running(out, gene, pp, sizeG, sizeP) && NoMore(ms, out)
      invariant forall g :: 0 <= g < |ms| ==> out[g].remainingRows == ms[g].remainingRows
      invariant forall g, j :: 0 <= g < |ms| && 0 <= j < sizeG ==>
        (out[g].erased[j] <==> ms[g].erased[j] || gene[g].pktid[j] in recent[..r])
      invariant good ==> Hold(out, gene, X, sizeP)
    {
      ghost var mid := out;
      out := EraseFrom(out, gene, pp, recent[r], sizeG, sizeP, X);
      assert recent[..r + 1] == recent[..r] + [recent[r]];
    }
    assert recent[..|recent|] == recent;
  }

  /**
   * The loop of check_for_new_decodables: each unsolved matrix with at
   * least as many rows as unknown columns is refreshed, and the first that
   * becomes full is returned, ready for back substitution.  When none is,
   * the result is -1 and every matrix is solved or short of rows.  Rows
   * never grow, columns and erased members stay, and stored rows stay
   * equations.
   */
  method FindDecodable(ms: seq<RunningMatrix>, gene: seq<Generation>, sizeG: nat, sizeP: nat,
                       ghost pp: seq<Option<seq<bv8>>>, ghost X: seq<seq<bv8>>) returns (out: seq<RunningMatrix>, g: int)
    requires Running(ms, gene, pp, sizeG, sizeP)
    ensures Running(out, gene, pp, sizeG, sizeP)
    ensures forall h :: 0 <= h < |ms| ==>
      out[h].erased == ms[h].erased && out[h].remainingCols == ms[h].remainingCols && out[h].remainingRows <= ms[h].remainingRows
    ensures -1 <= g < |ms|
    ensures g == -1 ==> Settled(out)
    ensures g != -1 ==> out[g].remainingCols > 0 && out[g].remainingRows == out[g].remainingCols &&
                        Reduced(out[g].coefficient, out[g].remainingCols)
    ensures Hold(ms, gene, X, sizeP) ==> Hold(out, gene, X, sizeP)
  {
    ghost var good := Hold(ms, gene, X, sizeP);
    out, g := ms, -1;
    var h := 0;
    while h < |ms|
      invariant 0 <= h <= |ms| && Running(out, gene, pp, sizeG, sizeP)
      invariant forall k :: 0 <= k < |ms| ==>
        out[k].erased == ms[k].erased && out[k].remainingCols == ms[k].remainingCols && out[k].remainingRows <= ms[k].remainingRows
      invariant forall k :: 0 <= k < h ==> out[k].remainingCols == 0 || out[k].remainingRows < out[k].remainingCols
      invariant forall k :: h <= k < |ms| ==> out[k] == ms[k]
      invariant good ==> Hold(out, gene, X, sizeP)
    {
      var full;
      out, full := RefreshIfDue(out, gene, h, sizeG, sizeP, pp, X);
      if full {
        g := h;
        return;
      }
      h := h + 1;
    }
  }

  /** One step of check_for_new_decodables: subgeneration h, unsolved with enough rows, is refreshed; full says it is ready. */
  method RefreshIfDue(ms: seq<RunningMatrix>, gene: seq<Generation>, h: int, sizeG: nat, sizeP: nat,
                      ghost pp: seq<Option<seq<bv8>>>, ghost X: seq<seq<bv8>>) returns (out: seq<RunningMatrix>, full: bool)
    requires Running(ms, gene, pp, sizeG, sizeP) && 0 <= h < |ms|
    ensures Running(out, gene, pp, sizeG, sizeP) && |out| == |ms|
    ensures forall k :: 0 <= k < |ms| && k != h ==> out[k] == ms[k]
    ensures out[h].erased == ms[h].erased && out[h].remainingCols == ms[h].remainingCols &&
            out[h].remainingRows <= ms[h].remainingRows
    ensures full ==> out[h].remainingCols > 0 && out[h].remainingRows == out[h].remainingCols &&
                     Reduced(out[h].coefficient, out[h].remainingCols)
    ensures !full ==> out[h].remainingCols == 0 || out[h].remainingRows < out[h].remainingCols
    ensures Hold(ms, gene, X, sizeP) ==> Hold(out, gene, X, sizeP)
  {
    out, full := ms, false;
    if ms[h].remainingCols != 0 && ms[h].remainingRows >= ms[h].remainingCols {
      var F;
      F, full := Refresh(ms[h], sizeG, sizeP, gene[h].pktid, X);
      out := ms[h := F];
      if Hold(ms, gene, X, sizeP) {
        assert Equations(ms[h], gene[h].pktid, X, sizeP);
        forall k | 0 <= k < |out|
          ensures Equations(out[k], gene[k].pktid, X, sizeP)
        {
          if k != h {
            assert Equations(ms[k], gene[k].pktid, X, sizeP);
          }
        }
      }
    }
  }

  /**
   * The loop of decode_generation over the solved rows: row i scans for
   * the next unknown member (ScanRow) and fills its packet.  Afterwards no
   * member is unknown and every member unknown before is decoded.  When no
   * unknown member was decoded before and row i holds the i-th unknown
   * member of X, each is decoded as in X and listed as recent, keeping
   * decoding in agreement with X.
   */
  method Unpack(meta: Meta, ids: seq<int>, erased: seq<bool>, message: Linear.Matrix, rows: int,
                pp: seq<Option<seq<bv8>>>, recent: seq<int>,
                ghost gene: seq<Generation>, ghost rnbrs: seq<seq<nat>>, ghost X: seq<seq<bv8>>,
                ghost lnbrs: seq<seq<nat>>, ghost evolving: seq<Option<seq<bv8>>>, ghost degrees: seq<int>, ghost originals: int,
                ghost matrices: seq<RunningMatrix>, ghost done: set<int>, ghost pending: int)
    returns (e: seq<bool>, q: seq<Option<seq<bv8>>>, rc: seq<int>)
    requires |erased| == |ids| && (forall j :: 0 <= j < |ids| ==> 0 <= ids[j] < |pp|)
    requires meta.sizeP >= 0 && rows == |Unerased(erased)| <= |message| && Linear.Rect(message, meta.sizeP)
    requires Buffers(pp, |pp|, meta.sizeP) && Recents(recent, pp)
    ensures |e| == |erased| && |Unerased(e)| == 0
    ensures Buffers(q, |pp|, meta.sizeP) && Recents(rc, q) && Kept(pp, q) && Extends(recent, rc)
    ensures forall j :: 0 <= j < |ids| && !erased[j] ==> q[ids[j]].Some?
    ensures Agrees(meta, gene, rnbrs, X, lnbrs, evolving, degrees, originals, matrices, recent, pp, done, pending) &&
            Distinct(ids) && (forall j :: 0 <= j < |ids| && !erased[j] ==> pp[ids[j]].None?) &&
            (forall i :: 0 <= i < rows ==> message[i] == X[ids[Unerased(erased)[i]]]) ==>
      Agrees(meta, gene, rnbrs, X, lnbrs, evolving, degrees, originals, matrices, rc, q, done, pending)
  {
    ghost var U := Unerased(erased);
    ghost var good := Agrees(meta, gene, rnbrs, X, lnbrs, evolving, degrees, originals, matrices, recent, pp, done, pending) &&
            Distinct(ids) && (forall j :: 0 <= j < |ids| && !erased[j] ==> pp[ids[j]].None?) &&
            (forall i :: 0 <= i < rows ==> message[i] == X[ids[U[i]]]);
    e, q, rc := erased, pp, recent;
    for i := 0 to rows
      invariant |e| == |erased| && |Unerased(e)| <= rows - i
      invariant forall j :: 0 <= j < |e| && erased[j] ==> e[j]
      invariant Buffers(q, |pp|, meta.sizeP) && Recents(rc, q) && Kept(pp, q) && Extends(recent, rc)
      invariant forall j :: 0 <= j < |ids| && e[j] && !erased[j] ==> q[ids[j]].Some?
      invariant good ==> Unerased(e) == U[i..] && (forall j :: 0 <= j < |ids| && !e[j] ==> q[ids[j]].None?)
      invariant good ==> Agrees(meta, gene, rnbrs, X, lnbrs, evolving, degrees, originals, matrices, rc, q, done, pending)
    {
      ghost var e0, q0, rc0 := e, q, rc;
      var added;
      e, q, added := ScanRow(e, ids, q, message[i]);
      UnpackKeeps(pp, recent, erased, ids, e0, q0, rc0, e, q, added, message[i], meta.sizeP);
      if good {
        UnpackStep(meta, ids, e0, q0, rc0, e, q, added, message[i], U, i,
                   gene, rnbrs, X, lnbrs, evolving, degrees, originals, matrices, done, pending);
      }
      rc := rc + added;
    }
    AllErased(e);
  }

  /**
   * The matrix work of decode_generation for subgeneration g: back
   * substitution, then one solved row per unknown member (Unpack); the
   * matrix is left with every member erased, no row and no column.  Every
   * member is then decoded; with nothing recent before, decoding that
   * agreed with X still does.
   */
  method DecodeMatrix(meta: Meta, gene: seq<Generation>, ms: seq<RunningMatrix>, g: int,
                      pp: seq<Option<seq<bv8>>>, recent: seq<int>,
                      ghost rnbrs: seq<seq<nat>>, ghost X: seq<seq<bv8>>, ghost lnbrs: seq<seq<nat>>,
                      ghost evolving: seq<Option<seq<bv8>>>, ghost degrees: seq<int>, ghost originals: int, ghost done: set<int>)
    returns (D: RunningMatrix, q: seq<Option<seq<bv8>>>, rc: seq<int>)
    requires Code(meta, gene, rnbrs) && Running(ms, gene, pp, meta.sizeG, meta.sizeP)
    requires Buffers(pp, meta.snum + meta.cnum, meta.sizeP) && Recents(recent, pp)
    requires 0 <= g < |ms| && ms[g].remainingRows == ms[g].remainingCols && Reduced(ms[g].coefficient, ms[g].remainingCols)
    ensures Running(ms[g := D], gene, q, meta.sizeG, meta.sizeP) && D.remainingRows == 0 && D.remainingCols == 0
    ensures Buffers(q, meta.snum + meta.cnum, meta.sizeP) && Recents(rc, q) && Kept(pp, q) && Extends(recent, rc)
    ensures forall j :: 0 <= j < meta.sizeG ==> q[gene[g].pktid[j]].Some?
    ensures Agrees(meta, gene, rnbrs, X, lnbrs, evolving, degrees, originals, ms, recent, pp, done, 0) && recent == [] ==>
      Agrees(meta, gene, rnbrs, X, lnbrs, evolving, degrees, originals, ms[g := D], rc, q, done, 0)
  {
    ghost var good := Agrees(meta, gene, rnbrs, X, lnbrs, evolving, degrees, originals, ms, recent, pp, done, 0) && recent == [];
    var M := ms[g];
    var ids := gene[g].pktid;
    var F := Solve(M, meta.sizeG, meta.sizeP, ids, X);
    if good {
      MaskedHere(ms, gene, pp, g);
      assert Equations(M, ids, X, meta.sizeP);
    }
    var e;
    e, q, rc := Unpack(meta, ids, M.erased, F.message, M.remainingRows, pp, recent,
                       gene, rnbrs, X, lnbrs, evolving, degrees, originals, ms, done, 0);
    RunningKept(ms, gene, pp, q, meta.sizeG, meta.sizeP);
    D := F.(remainingRows := 0, remainingCols := 0, erased := e);
    AllErased(e);
    RunningSolved(ms, gene, q, meta.sizeG, meta.sizeP, g, D);
    if good {
      ReplaceSolved(meta, gene, rnbrs, X, lnbrs, evolving, degrees, originals, ms, rc, q, done, 0, g, D);
    }
  }

  /**
   * Steps 2 to 4 of process_packet_GG for an unsolved matrix with a free
   * row: the packet's row, masked against the decoded members, is stored
   * below the others; once the rows reach one less than the columns they
   * are refreshed (forward substitution and the count of innovative rows).
   * The result is full, ready for back substitution, or has fewer rows than
   * columns.  For a packet coded from X whose decoded members hold their
   * contents in X, stored rows stay equations.
   */
  method Receive(M: RunningMatrix, ids: seq<int>, co: seq<bv8>, syms: seq<bv8>, pp: seq<Option<seq<bv8>>>,
                 sizeG: nat, sizeP: nat, ghost X: seq<seq<bv8>>) returns (F: RunningMatrix, full: bool)
    requires Dims(M, sizeG, sizeP) && M.remainingCols > 0 && M.remainingRows < sizeG
    requires |ids| == |co| == sizeG && |syms| == sizeP
    requires forall j :: 0 <= j < sizeG && M.erased[j] ==> 0 <= ids[j] < |pp| && pp[ids[j]].Some? && |pp[ids[j]].value| == sizeP
    ensures Dims(F, sizeG, sizeP) && F.erased == M.erased && F.remainingCols == M.remainingCols
    ensures full ==> F.remainingRows == F.remainingCols && Reduced(F.coefficient, F.remainingCols)
    ensures !full ==> F.remainingRows < F.remainingCols
    ensures Equations(M, ids, X, sizeP) && Known(pp, ids, M.erased, X) && syms == Accumulate(Zeros(sizeP), X, ids, co, sizeG) ==>
      Equations(F, ids, X, sizeP)
  {
    ghost var good := Equations(M, ids, X, sizeP) && Known(pp, ids, M.erased, X) &&
                      syms == Accumulate(Zeros(sizeP), X, ids, co, sizeG);
    var row, payload := ExtractRow(M.erased, ids, co, syms, pp, X);
    F := WithRow(M, row, payload);
    if good {
      StoredRow(M, row, payload, ids, X, sizeP);
    }
    full := false;
    if M.remainingRows >= M.remainingCols - 1 {
      F, full := Refresh(F, sizeG, sizeP, ids, X);
    }
  }

  /** An empty running matrix: no rows, every one of the sizeG columns unknown, zero coefficients and messages. */
  function EmptyMatrix(sizeG: nat, sizeP: nat): (M: RunningMatrix)
    ensures Dims(M, sizeG, sizeP) && M.remainingRows == 0 && M.remainingCols == sizeG
    ensures forall j :: 0 <= j < sizeG ==> !M.erased[j]
  {
    NoneErased(sizeG);
    RunningMatrix(0, sizeG, seq(sizeG, _ => false), seq(sizeG, _ => Zeros(sizeG)), seq(sizeG, _ => Zeros(sizeP)))
  }

  class GgDecoder {
    const meta: Meta
    /** The subgenerations of the code (the context's gene). */
    const gene: seq<Generation>
    /** The right neighbours of each source packet (the graph's r_nbrs_of_l). */
    const rnbrs: seq<seq<nat>>
    /** The left neighbours of each check not yet decoded (the graph's l_nbrs_of_r, unlinked as sources are decoded). */
    var lnbrs: seq<seq<nat>>
    /** evolving_checks: per check, NULL or the buffer its decoded neighbours are added to. */
    var evolving: seq<Option<seq<bv8>>>
    /** check_degrees: per check, the number of neighbours not yet decoded. */
    var degrees: seq<int>
    var finished: bool
    /** The number of decoded packets, and of decoded source packets. */
    var decoded: int
    var originals: int
    /** One running matrix per subgeneration. */
    var matrices: seq<RunningMatrix>
    /** The recently decoded packets, oldest first. */
    var recent: seq<int>
    /** The FB_THOLD most recently decoded subgenerations, the next position to write and how many were decoded. */
    var grecent: seq<int>
    var newgpos: int
    var grcount: int
    /** The number of packets processed. */
    var overhead: int
    /** The decoded packets (sc->pp): None while NULL. */
    var pp: seq<Option<seq<bv8>>>
    /** The packets whose effect on the precode has been applied. */
    ghost var done: set<int>

    /** The structure kept between and inside the steps of decoding. */
    ghost predicate Shape()
      reads this
    {
      Code(meta, gene, rnbrs) &&
      Buffers(pp, meta.snum + meta.cnum, meta.sizeP) &&
      Running(matrices, gene, pp, meta.sizeG, meta.sizeP) &&
      Evolution(lnbrs, evolving, degrees, meta.snum, meta.cnum, meta.sizeP) &&
      Recents(recent, pp) &&
      |grecent| == FbThold && 0 <= newgpos <= FbThold && grcount >= 0 &&
      overhead >= 0 && decoded >= 0 && originals >= 0
    }

    /** X could be the encoder's packets. */
    ghost predicate Sources(X: seq<seq<bv8>>)
    {
      CodePackets(meta, X)
    }

    /**
     * Decoding is under way and agrees with X, the effect of the recent
     * packets before position pending being applied to the precode.
     */
    ghost predicate Consistent(X: seq<seq<bv8>>, pending: int)
      reads this`finished, this`lnbrs, this`evolving, this`degrees, this`originals, this`matrices, this`recent, this`pp, this`done
    {
      !finished && Agrees(meta, gene, rnbrs, X, lnbrs, evolving, degrees, originals, matrices, recent, pp, done, pending)
    }

    /**
     * Between packets: a finished decoder holds every source packet of X,
     * and an unfinished one agrees with X with no recent packet left.
     */
    ghost predicate Correct(X: seq<seq<bv8>>)
      reads this`finished, this`lnbrs, this`evolving, this`degrees, this`originals, this`matrices, this`recent, this`pp, this`done
    {
      (finished ==> Recovered(pp, X, meta.snum)) &&
      (!finished ==> recent == [] && Consistent(X, 0))
    }

    /** The state create_dec_context_GG leaves: nothing decoded, empty matrices, each degree the length of its list. */
    ghost predicate Initial()
      reads this
    {
      meta.snum >= 0 && meta.cnum >= 0 && meta.sizeG >= 0 && meta.sizeP >= 0 && meta.gnum >= 0 &&
      |lnbrs| == |evolving| == |degrees| == meta.cnum &&
      (forall c :: 0 <= c < meta.cnum ==> evolving[c].None? && degrees[c] == |lnbrs[c]|) &&
      !finished && decoded == 0 && originals == 0 && recent == [] && done == {} &&
      |matrices| == meta.gnum && (forall g :: 0 <= g < meta.gnum ==> matrices[g] == EmptyMatrix(meta.sizeG, meta.sizeP)) &&
      |grecent| == FbThold && grecent[0] == -1 && newgpos == 0 && grcount == 0 && overhead == 0 &&
      |pp| == meta.snum + meta.cnum && forall k :: 0 <= k < |pp| ==> pp[k].None?
    }

    constructor (m: Meta, g: seq<Generation>, rn: seq<seq<nat>>, ln: seq<seq<nat>>)
      requires m.snum >= 0 && m.cnum >= 0 && m.sizeG >= 0 && m.sizeP >= 0 && m.gnum >= 0 && |ln| == m.cnum
      ensures meta == m && gene == g && rnbrs == rn && lnbrs == ln
      ensures Initial()
    {
      meta, gene, rnbrs, lnbrs := m, g, rn, ln;
      evolving := seq(m.cnum, _ => None);
      // check_degrees: the number of nodes in each check's neighbour list
      degrees := seq(m.cnum, c requires 0 <= c < m.cnum => |ln[c]|);
      finished, decoded, originals := false, 0, 0;
      matrices := seq(m.gnum, _ => EmptyMatrix(m.sizeG, m.sizeP));
      recent := [];
      grecent := seq(FbThold, _ => -1);
      newgpos, grcount, overhead := 0, 0, 0;
      pp := seq(m.snum + m.cnum, _ => None);
      done := {};
    }

    /**
     * create_dec_context_GG: null when the code parameters are rejected;
     * otherwise nothing decoded, every running matrix empty, each check's
     * degree the length of its neighbour list.  The new decoder agrees with
     * every X that could be the encoder's packets.
     */
    static method Create(sp: Parameter, cnum: int) returns (d: GgDecoder?)
      requires sp.sizeP > 0 && sp.sizeB > 0 && sp.datasize >= 0 && cnum > 0 && KnownType(sp.typ)
      ensures d == null <==> !ParameterValid(Sizing(sp, cnum))
      ensures d != null ==> fresh(d) && d.Shape() && Room(d.matrices, d.meta.sizeG)
      ensures d != null ==> d.meta == Sizing(sp, cnum) && Accepted(d.meta) && d.gene == Groups(d.meta)
      ensures d != null ==> d.Initial() && d.lnbrs == DecoderCbd.GraphLists(d.meta.snum, d.meta.cnum)
      ensures d != null ==> forall X :: d.Sources(X) ==> d.Correct(X)
    {
      var sc := EncContext.Create(sp, cnum, None);
      if sc == null {
        return null;
      }
      var m := sc.meta;
      AcceptedSizes(m);
      DecoderCbd.ContextLists(sc);
      var graph := sc.graph;
      assert graph.rNbrsOfL == Precode(m.snum, m.cnum);
      forall g | 0 <= g < m.gnum
        ensures |sc.gene[g].pktid| == m.sizeG && Distinct(sc.gene[g].pktid) && InPackets(sc.gene[g].pktid, m.snum + m.cnum)
      {
        GroupsValid(m, g);
      }
      d := new GgDecoder(m, sc.gene, graph.rNbrsOfL, graph.lNbrsOfR);
      d.Started();
    }

    /**
     * new_decoded_check_packet: count the packet and add it to its check's
     * evolving buffer, which starts as a copy of it while NULL.  Applied to
     * the next pending recent packet, it keeps the decoder in agreement with X.
     */
    method NewDecodedCheckPacket(id: int, ghost X: seq<seq<bv8>>, ghost pending: int)
      requires Shape() && meta.snum <= id < meta.snum + meta.cnum && pp[id].Some?
      modifies this`decoded, this`evolving, this`done
      ensures Shape() && decoded == old(decoded) + 1
      ensures evolving == old(evolving)[id - meta.snum := Some(Absorb(old(evolving)[id - meta.snum], pp[id].value))]
      ensures old(Consistent(X, pending)) && pending < |recent| && recent[pending] == id ==> Consistent(X, pending + 1)
    {
      AbsorbCheck(id, X, pending);
      decoded := decoded + 1;
    }

    /** The buffer part of new_decoded_check_packet: the check's own value joins its evolving buffer. */
    method AbsorbCheck(id: int, ghost X: seq<seq<bv8>>, ghost pending: int)
      requires Shape() && meta.snum <= id < meta.snum + meta.cnum && pp[id].Some?
      modifies this`evolving, this`done
      ensures Shape()
      ensures evolving == old(evolving)[id - meta.snum := Some(Absorb(old(evolving)[id - meta.snum], pp[id].value))]
      ensures old(Agrees(meta, gene, rnbrs, X, lnbrs, evolving, degrees, originals, matrices, recent, pp, done, pending)) &&
              pending < |recent| && recent[pending] == id ==>
        Agrees(meta, gene, rnbrs, X, lnbrs, evolving, degrees, originals, matrices, recent, pp, done, pending + 1)
    {
      ghost var good := Agrees(meta, gene, rnbrs, X, lnbrs, evolving, degrees, originals, matrices, recent, pp, done, pending) &&
                        pending < |recent| && recent[pending] == id;
      ghost var evolving0, done0 := evolving, done;
      var c := id - meta.snum;
      AbsorbEvolution(lnbrs, evolving, degrees, meta.snum, meta.cnum, meta.sizeP, c, pp[id].value);
      evolving := evolving[c := Some(Absorb(evolving[c], pp[id].value))];
      done := done + {id};
      if good {
        CheckConsistent(meta, gene, rnbrs, X, lnbrs, evolving0, degrees, originals, matrices, recent, pp, done0, pending, id);
      }
    }

    /**
     * new_decoded_source_packet: count the packet; the last source finishes
     * decoding at once; otherwise the packet is added to the evolving buffer
     * of every check it neighbours (a NULL buffer starting from zeros), whose
     * degree drops by one and whose neighbour list loses it.  Applied to the
     * next pending recent packet, it keeps the decoder in agreement with X,
     * or, when it finishes decoding, leaves every source packet of X decoded.
     */
    method NewDecodedSourcePacket(s: int, ghost X: seq<seq<bv8>>, ghost pending: int)
      requires Shape() && 0 <= s < meta.snum && pp[s].Some?
      modifies this`decoded, this`originals, this`finished, this`evolving, this`degrees, this`lnbrs, this`done
      ensures Shape() && decoded == old(decoded) + 1 && originals == old(originals) + 1
      ensures finished == (old(finished) || originals == meta.snum)
      ensures old(Consistent(X, pending)) && pending < |recent| && recent[pending] == s ==>
        if finished then Recovered(pp, X, meta.snum) else Consistent(X, pending + 1)
    {
      ghost var good := Consistent(X, pending) && pending < |recent| && recent[pending] == s;
      decoded := decoded + 1;
      originals := originals + 1;
      if originals == meta.snum {
        finished := true;
        if good {
          FinishedRecovered(meta, gene, rnbrs, X, lnbrs, evolving, degrees, originals - 1, matrices, recent, pp, done, pending, s);
        }
        return;
      }
      UnlinkSource(s, X, pending);
    }

    /**
     * The rest of new_decoded_source_packet when decoding goes on: the
     * source leaves the neighbour list and the evolving buffer of every
     * check it neighbours, and counts as applied.
     */
    method UnlinkSource(s: int, ghost X: seq<seq<bv8>>, ghost pending: int)
      requires Shape() && 0 <= s < meta.snum && pp[s].Some?
      modifies this`evolving, this`degrees, this`lnbrs, this`done
      ensures Shape()
      ensures old(Agrees(meta, gene, rnbrs, X, lnbrs, evolving, degrees, originals - 1, matrices, recent, pp, done, pending)) &&
              pending < |recent| && recent[pending] == s ==>
        Agrees(meta, gene, rnbrs, X, lnbrs, evolving, degrees, originals, matrices, recent, pp, done, pending + 1)
    {
      ghost var good := Agrees(meta, gene, rnbrs, X, lnbrs, evolving, degrees, originals - 1, matrices, recent, pp, done, pending) &&
                        pending < |recent| && recent[pending] == s;
      ghost var lnbrs0, evolving0, degrees0, done0 := lnbrs, evolving, degrees, done;
      NeighboursInRange(s, meta.cnum);
      if good {
        SourceReady(meta, gene, rnbrs, X, lnbrs0, evolving0, degrees0, originals - 1, matrices, recent, pp, done0, pending, s);
      }
      lnbrs, evolving, degrees := VisitChecks(rnbrs[s], s, pp[s].value, lnbrs, evolving, degrees, meta.snum, meta.cnum, meta.sizeP,
                                              X, rnbrs, done, pp);
      done := done + {s};
      if good {
        SourceApplied(meta, gene, rnbrs, X, lnbrs0, evolving0, degrees0, originals - 1, matrices, recent, pp, done0, pending, s,
                      lnbrs, evolving, degrees);
      }
    }

    /**
     * check_for_new_recoverables: every decoded check of degree one that is
     * not recent recovers its last neighbour and drops to degree zero, every
     * undecoded check of degree zero is recovered, and the recovered packets
     * join the recent list; the result is always -1.  Afterwards no check is
     * left in either situation, and a decoder in agreement with X stays so.
     */
    method CheckForNewRecoverables(ghost X: seq<seq<bv8>>, ghost pending: int) returns (r: int)
      requires Shape()
      modifies this`degrees, this`pp, this`recent
      ensures Shape() && r == -1
      ensures Kept(old(pp), pp) && Extends(old(recent), recent) && NoneCount(pp) + |recent| == old(NoneCount(pp) + |recent|)
      ensures forall c :: 0 <= c < meta.cnum ==> Stalled(degrees, pp, recent, meta.snum, c)
      ensures old(Consistent(X, pending)) ==> Consistent(X, pending)
    {
      ghost var pp0 := pp;
      degrees, pp, recent := Recoverables(meta, lnbrs, evolving, degrees, pp, recent, gene, rnbrs, X, originals, matrices, done, pending);
      RunningKept(matrices, gene, pp0, pp, meta.sizeG, meta.sizeP);
      r := -1;
    }

    /**
     * update_generations: every recent packet becomes known in every
     * unsolved running matrix holding it as an unknown member, and the
     * recent list is cleared.  Rows stay, no matrix gains a column, and the
     * erased members are those erased before and the recent ones.  Once
     * every recent packet is applied to the precode, a decoder in agreement
     * with X stays so with nothing recent.
     */
    method UpdateGenerations(ghost X: seq<seq<bv8>>, ghost pending: int)
      requires Shape()
      modifies this`matrices, this`recent
      ensures Shape() && recent == [] && NoMore(old(matrices), matrices)
      ensures forall g :: 0 <= g < |matrices| ==> matrices[g].remainingRows == old(matrices)[g].remainingRows
      ensures forall g, j :: 0 <= g < |matrices| && 0 <= j < meta.sizeG ==>
        (matrices[g].erased[j] <==> old(matrices)[g].erased[j] || gene[g].pktid[j] in old(recent))
      ensures old(Consistent(X, pending)) && pending == |old(recent)| ==> Consistent(X, 0)
    {
      ghost var good := Consistent(X, pending) && pending == |recent|;
      ghost var recent0 := recent;
      matrices := EraseRecent(matrices, gene, pp, recent, meta.sizeG, meta.sizeP, X);
      recent := [];
      if good {
        AllApplied(recent0, pending, done, pp);
      }
    }

    /**
     * check_for_new_decodables: the first subgeneration that becomes full
     * once its rows are refreshed, ready for back substitution, or -1 when
     * none does, every matrix then being solved or short of rows.  Rows
     * never grow, and a decoder in agreement with X stays so.
     */
    method CheckForNewDecodables(ghost X: seq<seq<bv8>>, ghost pending: int) returns (g: int)
      requires Shape()
      modifies this`matrices
      ensures Shape() && -1 <= g < |matrices| && |matrices| == |old(matrices)|
      ensures forall h :: 0 <= h < |matrices| ==>
        matrices[h].erased == old(matrices)[h].erased && matrices[h].remainingCols == old(matrices)[h].remainingCols &&
        matrices[h].remainingRows <= old(matrices)[h].remainingRows
      ensures g == -1 ==> Settled(matrices)
      ensures g != -1 ==> matrices[g].remainingCols > 0 && matrices[g].remainingRows == matrices[g].remainingCols &&
                          Reduced(matrices[g].coefficient, matrices[g].remainingCols)
      ensures old(Consistent(X, pending)) ==> Consistent(X, pending)
    {
      matrices, g := FindDecodable(matrices, gene, meta.sizeG, meta.sizeP, pp, X);
    }

    /**
     * decode_generation: back substitution solves the full subgeneration g,
     * each solved row fills the packet of the next unknown member and lists
     * it as recent, and the matrix is left with no row and no column.  The
     * subgeneration is recorded in grecent at newgpos modulo FB_THOLD.
     * Afterwards every member of g is decoded; with nothing recent before,
     * a decoder in agreement with X stays so.
     */
    method DecodeGeneration(g: int, ghost X: seq<seq<bv8>>)
      requires Shape() && 0 <= g < |matrices| && matrices[g].remainingRows == matrices[g].remainingCols
      requires Reduced(matrices[g].coefficient, matrices[g].remainingCols)
      modifies this`matrices, this`pp, this`recent, this`grecent, this`newgpos, this`grcount
      ensures Shape() && |matrices| == |old(matrices)|
      ensures forall h :: 0 <= h < |matrices| && h != g ==> matrices[h] == old(matrices)[h]
      ensures matrices[g].remainingRows == 0 && matrices[g].remainingCols == 0
      ensures Kept(old(pp), pp) && Extends(old(recent), recent)
      ensures forall j :: 0 <= j < meta.sizeG ==> pp[gene[g].pktid[j]].Some?
      ensures grecent == old(grecent)[old(newgpos) % FbThold := g] && newgpos == old(newgpos) % FbThold + 1
      ensures grcount == old(grcount) + 1
      ensures old(Consistent(X, 0)) && old(recent) == [] ==> Consistent(X, 0)
    {
      SolveGeneration(g, X);
      RecordGeneration(g);
    }

    /** The matrix and packet part of decode_generation. */
    method SolveGeneration(g: int, ghost X: seq<seq<bv8>>)
      requires Shape() && 0 <= g < |matrices| && matrices[g].remainingRows == matrices[g].remainingCols
      requires Reduced(matrices[g].coefficient, matrices[g].remainingCols)
      modifies this`matrices, this`pp, this`recent
      ensures Shape() && |matrices| == |old(matrices)|
      ensures forall h :: 0 <= h < |matrices| && h != g ==> matrices[h] == old(matrices)[h]
      ensures matrices[g].remainingRows == 0 && matrices[g].remainingCols == 0
      ensures Kept(old(pp), pp) && Extends(old(recent), recent)
      ensures forall j :: 0 <= j < meta.sizeG ==> pp[gene[g].pktid[j]].Some?
      ensures old(Agrees(meta, gene, rnbrs, X, lnbrs, evolving, degrees, originals, matrices, recent, pp, done, 0)) && old(recent) == [] ==>
        Agrees(meta, gene, rnbrs, X, lnbrs, evolving, degrees, originals, matrices, recent, pp, done, 0)
    {
      var D;
      D, pp, recent := DecodeMatrix(meta, gene, matrices, g, pp, recent, rnbrs, X, lnbrs, evolving, degrees, originals, done);
      matrices := matrices[g := D];
    }

    /** The end of decode_generation: subgeneration g is recorded in grecent at newgpos modulo FB_THOLD. */
    method RecordGeneration(g: int)
      requires Shape()
      modifies this`grecent, this`newgpos, this`grcount
      ensures Shape()
      ensures grecent == old(grecent)[old(newgpos) % FbThold := g] && newgpos == old(newgpos) % FbThold + 1
      ensures grcount == old(grcount) + 1
    {
      newgpos := newgpos % FbThold;
      grecent := grecent[newgpos := g];
      newgpos := newgpos + 1;
      grcount := grcount + 1;
    }

    /**
     * perform_iterative_decoding: the recent packets are applied to the
     * precode (ApplyRecent), stopping as soon as decoding finishes; then
     * the running matrices learn them (update_generations), and when a
     * subgeneration has become decodable it is decoded and the whole
     * repeats.  Each repetition solves one more matrix, so it ends.  A
     * decoder in agreement with X with nothing recent ends correct: either
     * finished with every source packet of X, or with nothing recent and
     * no subgeneration decodable.
     */
    method PerformIterativeDecoding(ghost X: seq<seq<bv8>>)
      requires Shape() && Room(matrices, meta.sizeG)
      modifies this`decoded, this`originals, this`finished, this`evolving, this`degrees, this`lnbrs, this`done,
               this`pp, this`recent, this`matrices, this`grecent, this`newgpos, this`grcount
      ensures Shape() && Room(matrices, meta.sizeG)
      ensures Kept(old(pp), pp) && (old(finished) ==> finished)
      ensures !finished ==> recent == [] && Settled(matrices)
      ensures old(Consistent(X, 0)) ==> Correct(X)
      decreases Remaining(matrices), 3
    {
      var stopped := ApplyRecent(X);
      if stopped {
        return;
      }
      Regenerate(X);
    }

    /**
     * The rest of perform_iterative_decoding once every recent packet is
     * applied: update_generations, check_for_new_decodables and, for a
     * decodable subgeneration, decode_generation and another round.
     */
    method Regenerate(ghost X: seq<seq<bv8>>)
      requires Shape() && Room(matrices, meta.sizeG)
      modifies this`decoded, this`originals, this`finished, this`evolving, this`degrees, this`lnbrs, this`done,
               this`pp, this`recent, this`matrices, this`grecent, this`newgpos, this`grcount
      ensures Shape() && Room(matrices, meta.sizeG)
      ensures Kept(old(pp), pp) && (old(finished) ==> finished)
      ensures !finished ==> recent == [] && Settled(matrices)
      ensures old(Consistent(X, |recent|)) ==> Correct(X)
      decreases Remaining(matrices), 2
    {
      ghost var ms0 := matrices;
      UpdateGenerations(X, |recent|);
      RemainingNoMore(ms0, matrices);
      DecodeNext(X);
    }

    /** check_for_new_decodables and, for a decodable subgeneration, decode_generation and another round. */
    method DecodeNext(ghost X: seq<seq<bv8>>)
      requires Shape() && Room(matrices, meta.sizeG) && recent == []
      modifies this`decoded, this`originals, this`finished, this`evolving, this`degrees, this`lnbrs, this`done,
               this`pp, this`recent, this`matrices, this`grecent, this`newgpos, this`grcount
      ensures Shape() && Room(matrices, meta.sizeG)
      ensures Kept(old(pp), pp) && (old(finished) ==> finished)
      ensures !finished ==> recent == [] && Settled(matrices)
      ensures old(Consistent(X, 0)) ==> Correct(X)
      decreases Remaining(matrices), 1
    {
      ghost var ms0 := matrices;
      var g := CheckForNewDecodables(X, 0);
      RemainingNoMore(ms0, matrices);
      if g != -1 {
        DecodeAndRepeat(g, X);
      }
    }

    /** decode_generation for the decodable subgeneration g, then another round of perform_iterative_decoding. */
    method DecodeAndRepeat(g: int, ghost X: seq<seq<bv8>>)
      requires Shape() && 0 <= g < |matrices|
      requires forall h :: 0 <= h < |matrices| && h != g ==> matrices[h].remainingRows < meta.sizeG
      requires matrices[g].remainingCols > 0 && matrices[g].remainingRows == matrices[g].remainingCols
      requires Reduced(matrices[g].coefficient, matrices[g].remainingCols)
      modifies this`decoded, this`originals, this`finished, this`evolving, this`degrees, this`lnbrs, this`done,
               this`pp, this`recent, this`matrices, this`grecent, this`newgpos, this`grcount
      ensures Shape() && Room(matrices, meta.sizeG)
      ensures Kept(old(pp), pp) && (old(finished) ==> finished)
      ensures !finished ==> recent == [] && Settled(matrices)
      ensures old(Consistent(X, 0)) && old(recent) == [] ==> Correct(X)
      decreases Remaining(matrices), 0
    {
      ghost var ms0 := matrices;
      DecodeGeneration(g, X);
      RemainingDrops(ms0, matrices, g);
      PerformIterativeDecoding(X);
    }

    /**
     * The loop of perform_iterative_decoding over the recent list, which
     * grows while it runs: each packet is applied to the precode as a check
     * or a source, then check_for_new_recoverables runs.  It stops early
     * when decoding is finished after a source packet.  For a decoder in
     * agreement with X with nothing applied yet, it ends finished with every
     * source packet of X, or with every recent packet applied.
     */
    method ApplyRecent(ghost X: seq<seq<bv8>>) returns (stopped: bool)
      requires Shape()
      modifies this`decoded, this`originals, this`finished, this`evolving, this`degrees, this`lnbrs, this`done,
               this`pp, this`recent
      ensures Shape() && Kept(old(pp), pp) && (old(finished) ==> finished) && (stopped ==> finished)
      ensures old(Consistent(X, 0)) ==> if stopped then Recovered(pp, X, meta.snum) else Consistent(X, |recent|)
    {
      ghost var good := Consistent(X, 0);
      ghost var pp0 := pp;
      var pos := 0;
      while pos < |recent|
        invariant Shape() && 0 <= pos <= |recent|
        invariant Kept(pp0, pp) && (old(finished) ==> finished)
        invariant good ==> Consistent(X, pos)
        decreases NoneCount(pp) + |recent| - pos
      {
        var stop := ApplyOne(pos, X);
        if stop {
          return true;
        }
        pos := pos + 1;
      }
      return false;
    }

    /**
     * One turn of the loop of perform_iterative_decoding: the recent packet
     * at pos is applied to the precode, and unless decoding is then
     * finished, check_for_new_recoverables runs.
     */
    method ApplyOne(pos: int, ghost X: seq<seq<bv8>>) returns (stop: bool)
      requires Shape() && 0 <= pos < |recent|
      modifies this`decoded, this`originals, this`finished, this`evolving, this`degrees, this`lnbrs, this`done,
               this`pp, this`recent
      ensures Shape() && Kept(old(pp), pp) && (old(finished) ==> finished) && (stop ==> finished)
      ensures Extends(old(recent), recent) && NoneCount(pp) + |recent| == old(NoneCount(pp) + |recent|)
      ensures old(Consistent(X, pos)) ==> if stop then Recovered(pp, X, meta.snum) else Consistent(X, pos + 1)
    {
      var id := recent[pos];
      if id >= meta.snum {
        NewDecodedCheckPacket(id, X, pos);
      } else {
        NewDecodedSourcePacket(id, X, pos);
        if finished {
          return true;
        }
      }
      var _ := CheckForNewRecoverables(X, pos + 1);
      return false;
    }

    /** The decoder decodes the code its parameters define: accepted parameters and their subgenerations. */
    ghost predicate Built()
      reads this
    {
      Accepted(meta) && gene == Groups(meta)
    }

    /**
     * process_packet_GG: the packet is counted; unless its subgeneration
     * is solved, its row is stored and, when the subgeneration becomes
     * full, it is decoded and iterative decoding follows.  A decoder that
     * was correct for X stays so after a packet the encoder built from X.
     */
    method ProcessPacket(pkt: Packet, ghost X: seq<seq<bv8>>)
      requires Shape() && Room(matrices, meta.sizeG)
      requires 0 <= pkt.gid < meta.gnum && |pkt.coes| == CoesLength(meta) && |pkt.syms| == meta.sizeP
      modifies this`overhead, this`decoded, this`originals, this`finished, this`evolving, this`degrees, this`lnbrs, this`done,
               this`pp, this`recent, this`matrices, this`grecent, this`newgpos, this`grcount
      ensures Shape() && Room(matrices, meta.sizeG) && overhead == old(overhead) + 1
      ensures Kept(old(pp), pp) && (old(finished) ==> finished)
      ensures Built() && DecoderCbd.Encoded(meta, X, pkt) && old(Correct(X)) ==> Correct(X)
    {
      Count(X);
      if matrices[pkt.gid].remainingCols == 0 {
        return;
      }
      StoreAndDecode(pkt, X);
    }

    /** The overhead counter of process_packet_GG, which no decoding state depends on. */
    method Count(ghost X: seq<seq<bv8>>)
      requires overhead >= 0
      modifies this`overhead
      ensures overhead == old(overhead) + 1
      ensures Correct(X) == old(Correct(X))
    {
      overhead := overhead + 1;
    }

    /** process_packet_GG past its counter, for a subgeneration not yet solved: store the row, decode when full. */
    method StoreAndDecode(pkt: Packet, ghost X: seq<seq<bv8>>)
      requires Shape() && Room(matrices, meta.sizeG)
      requires 0 <= pkt.gid < meta.gnum && |pkt.coes| == CoesLength(meta) && |pkt.syms| == meta.sizeP
      requires matrices[pkt.gid].remainingCols > 0
      modifies this`decoded, this`originals, this`finished, this`evolving, this`degrees, this`lnbrs, this`done,
               this`pp, this`recent, this`matrices, this`grecent, this`newgpos, this`grcount
      ensures Shape() && Room(matrices, meta.sizeG)
      ensures Kept(old(pp), pp) && (old(finished) ==> finished)
      ensures Built() && DecoderCbd.Encoded(meta, X, pkt) && old(Correct(X)) ==> Correct(X)
    {
      ghost var pp0 := pp;
      ghost var recovered := finished && Recovered(pp, X, meta.snum);
      var gid := pkt.gid;
      var full := StoreRow(pkt, X);
      if full {
        DecodeAndRepeat(gid, X);
      }
      if recovered {
        RecoveredKept(pp0, pp, X, meta.snum);
      }
    }

    /** The row of process_packet_GG stored into its subgeneration's matrix, refreshed when due (Receive). */
    method StoreRow(pkt: Packet, ghost X: seq<seq<bv8>>) returns (full: bool)
      requires Shape() && Room(matrices, meta.sizeG)
      requires 0 <= pkt.gid < meta.gnum && |pkt.coes| == CoesLength(meta) && |pkt.syms| == meta.sizeP
      requires matrices[pkt.gid].remainingCols > 0
      modifies this`matrices
      ensures Shape() && |matrices| == |old(matrices)|
      ensures forall h :: 0 <= h < |matrices| && h != pkt.gid ==> matrices[h] == old(matrices)[h]
      ensures matrices[pkt.gid].remainingCols == old(matrices)[pkt.gid].remainingCols
      ensures full ==> matrices[pkt.gid].remainingRows == matrices[pkt.gid].remainingCols &&
                       Reduced(matrices[pkt.gid].coefficient, matrices[pkt.gid].remainingCols)
      ensures !full ==> Room(matrices, meta.sizeG)
      ensures Built() && DecoderCbd.Encoded(meta, X, pkt) && old(Consistent(X, 0)) ==> Consistent(X, 0)
    {
      ghost var good := Built() && DecoderCbd.Encoded(meta, X, pkt) && Consistent(X, 0);
      var gid := pkt.gid;
      var ids := gene[gid].pktid;
      var co := Coefficients(meta, pkt.coes);
      if good {
        StoreKnown(meta, gene, rnbrs, X, lnbrs, evolving, degrees, originals, matrices, recent, pp, done, gid);
      }
      var F, f := Receive(matrices[gid], ids, co, pkt.syms, pp, meta.sizeG, meta.sizeP, X);
      ghost var ms := matrices;
      matrices := matrices[gid := F];
      full := f;
      if good {
        StoreAgrees(meta, gene, rnbrs, X, lnbrs, evolving, degrees, originals, ms, recent, pp, done, gid, F, matrices);
      }
    }

    /** The state the constructor leaves is in shape and agrees with every X that could be the encoder's packets. */
    lemma Started()
      requires Code(meta, gene, rnbrs) && lnbrs == DecoderCbd.GraphLists(meta.snum, meta.cnum) && Initial()
      ensures Shape() && Room(matrices, meta.sizeG) && forall X :: Sources(X) ==> Correct(X)
    {
      var snum, cnum := meta.snum, meta.cnum;
      StartLists(snum, cnum, lnbrs, evolving, degrees, meta.sizeP);
      StartRunning(matrices, gene, pp, meta.sizeG, meta.sizeP);
      StartCounts(snum, cnum, rnbrs, lnbrs);
      MissingAll(snum);
      forall X | Sources(X)
        ensures Correct(X)
      {
        StartEvolving(X, snum, cnum, lnbrs, evolving, degrees, pp, meta.sizeP);
        StartHold(matrices, gene, X, meta.sizeG, meta.sizeP);
      }
    }
  }

  /** The lists, evolving buffers and degrees create_dec_context_GG sets up are in shape. */
  lemma StartLists(snum: nat, cnum: nat, lnbrs: seq<seq<nat>>, evolving: seq<Option<seq<bv8>>>, degrees: seq<int>, sizeP: nat)
    requires cnum > 0 && lnbrs == DecoderCbd.GraphLists(snum, cnum)
    requires |evolving| == |degrees| == cnum && forall c :: 0 <= c < cnum ==> evolving[c].None? && degrees[c] == |lnbrs[c]|
    ensures Evolution(lnbrs, evolving, degrees, snum, cnum, sizeP)
  {
    forall c, k | 0 <= c < cnum && 0 <= k < |lnbrs[c]|
      ensures lnbrs[c][k] < snum
    {
      LeftsCount(c, snum, Precode(snum, cnum), lnbrs[c][k]);
      assert lnbrs[c][k] in multiset(lnbrs[c]);
    }
  }

  /** Empty running matrices are in shape and erase nothing. */
  lemma StartRunning(ms: seq<RunningMatrix>, gene: seq<Generation>, pp: seq<Option<seq<bv8>>>, sizeG: nat, sizeP: nat)
    requires sizeG > 0 && |ms| == |gene| && forall g :: 0 <= g < |ms| ==> ms[g] == EmptyMatrix(sizeG, sizeP) && |gene[g].pktid| == sizeG
    ensures Running(ms, gene, pp, sizeG, sizeP)
  {
  }

  /** Initially each check lists each source as often as the graph joins them. */
  lemma StartCounts(snum: nat, cnum: nat, rnbrs: seq<seq<nat>>, lnbrs: seq<seq<nat>>)
    requires cnum > 0 && rnbrs == Precode(snum, cnum) && lnbrs == DecoderCbd.GraphLists(snum, cnum)
    ensures Counts(lnbrs, rnbrs, {})
  {
    forall c, s | 0 <= c < cnum && 0 <= s < snum
      ensures multiset(lnbrs[c])[s] == multiset(rnbrs[s])[c]
    {
      LeftsCount(c, snum, rnbrs, s);
    }
  }

  /** Initially every evolving buffer is NULL, which reads as the sum of all neighbours plus the check: zero. */
  lemma StartEvolving(X: seq<seq<bv8>>, snum: nat, cnum: nat, lnbrs: seq<seq<nat>>, evolving: seq<Option<seq<bv8>>>,
                      degrees: seq<int>, pp: seq<Option<seq<bv8>>>, sizeP: nat)
    requires |X| == snum + cnum && Linear.Rect(X, sizeP) && lnbrs == DecoderCbd.GraphLists(snum, cnum)
    requires ChecksAreSums(X, snum, lnbrs, sizeP) && |pp| == |X|
    requires |evolving| == |degrees| == cnum && forall c :: 0 <= c < cnum ==> evolving[c].None? && degrees[c] == |lnbrs[c]|
    ensures Evolving(X, snum, lnbrs, evolving, degrees, {}, pp, sizeP)
  {
    forall c | 0 <= c < cnum
      ensures Lists(X[..snum], lnbrs[c], sizeP) &&
              Value(evolving[c], sizeP) == Evolved(Sum(X[..snum], lnbrs[c], sizeP), X[snum + c], false)
    {
      assert Covers(X[..snum], lnbrs[c], sizeP);
      SumIsAccumulate(X[..snum], lnbrs[c], sizeP, |lnbrs[c]|);
      assert lnbrs[c][..|lnbrs[c]|] == lnbrs[c];
      AddToZeros(X[snum + c], sizeP);
    }
  }

  /** Empty running matrices hold no equation, so every one holds. */
  lemma StartHold(ms: seq<RunningMatrix>, gene: seq<Generation>, X: seq<seq<bv8>>, sizeG: nat, sizeP: nat)
    requires |ms| == |gene| && forall g :: 0 <= g < |ms| ==> ms[g] == EmptyMatrix(sizeG, sizeP) && |gene[g].pktid| == sizeG
    requires forall g, j :: 0 <= g < |gene| && 0 <= j < sizeG ==> 0 <= gene[g].pktid[j] < |X| && |X[gene[g].pktid[j]]| == sizeP
    ensures Hold(ms, gene, X, sizeP)
  {
  }

  /** A buffer absorbing a packet of sizeP bytes keeps the lists, buffers and degrees in shape. */
  lemma AbsorbEvolution(lnbrs: seq<seq<nat>>, evolving: seq<Option<seq<bv8>>>, degrees: seq<int>,
                        snum: int, cnum: int, sizeP: nat, c: int, x: seq<bv8>)
    requires Evolution(lnbrs, evolving, degrees, snum, cnum, sizeP) && 0 <= c < cnum && |x| == sizeP
    ensures Evolution(lnbrs, evolving[c := Some(Absorb(evolving[c], x))], degrees, snum, cnum, sizeP)
  {
  }

  /** Applying a decoded check to its own evolving buffer keeps the decoding in agreement with X. */
  lemma CheckConsistent(meta: Meta, gene: seq<Generation>, rnbrs: seq<seq<nat>>, X: seq<seq<bv8>>,
                        lnbrs: seq<seq<nat>>, evolving: seq<Option<seq<bv8>>>, degrees: seq<int>, originals: int,
                        matrices: seq<RunningMatrix>, recent: seq<int>, pp: seq<Option<seq<bv8>>>, done: set<int>,
                        pending: int, id: int)
    requires Agrees(meta, gene, rnbrs, X, lnbrs, evolving, degrees, originals, matrices, recent, pp, done, pending)
    requires Code(meta, gene, rnbrs) && Evolution(lnbrs, evolving, degrees, meta.snum, meta.cnum, meta.sizeP) && Recents(recent, pp)
    requires pending < |recent| && recent[pending] == id && meta.snum <= id < meta.snum + meta.cnum
    ensures pp[id].Some?
    ensures Agrees(meta, gene, rnbrs, X, lnbrs, evolving[id - meta.snum := Some(Absorb(evolving[id - meta.snum], pp[id].value))],
                   degrees, originals, matrices, recent, pp, done + {id}, pending + 1)
  {
    var snum, sizeP, c := meta.snum, meta.sizeP, id - meta.snum;
    assert id !in done && pp[id].Some?;
    assert EvolvingAt(X, snum, lnbrs, evolving, degrees, done, pp, sizeP, c);
    CheckEvolving(X, snum, lnbrs, evolving, degrees, done, pp, sizeP, c);
    PendingStep(recent, pending, done, pp, id);
    CheckCounts(lnbrs, rnbrs, done, originals, snum, id);
  }

  /** A decoded check added to its own evolving buffer keeps every evolving buffer in agreement with X. */
  lemma CheckEvolving(X: seq<seq<bv8>>, snum: nat, lnbrs: seq<seq<nat>>, evolving: seq<Option<seq<bv8>>>,
                      degrees: seq<int>, done: set<int>, pp: seq<Option<seq<bv8>>>, sizeP: nat, c: nat)
    requires Evolving(X, snum, lnbrs, evolving, degrees, done, pp, sizeP) && snum + c !in done
    requires EvolvingAt(X, snum, lnbrs, evolving, degrees, done, pp, sizeP, c)
    requires evolving[c].Some? ==> |evolving[c].value| == sizeP
    ensures Evolving(X, snum, lnbrs, evolving[c := Some(Absorb(evolving[c], X[snum + c]))], degrees, done + {snum + c}, pp, sizeP)
  {
    var evolving', done' := evolving[c := Some(Absorb(evolving[c], X[snum + c]))], done + {snum + c};
    forall e | 0 <= e < |lnbrs|
      ensures EvolvingAt(X, snum, lnbrs, evolving', degrees, done', pp, sizeP, e)
    {
      assert EvolvingAt(X, snum, lnbrs, evolving, degrees, done, pp, sizeP, e);
      if e == c {
        CheckAppliedAt(X, snum, lnbrs, evolving, degrees, done, pp, sizeP, c);
      } else {
        assert (snum + e in done') == (snum + e in done);
      }
    }
  }

  /** A decoded check added to its own evolving buffer leaves the sum of its remaining neighbours there. */
  lemma CheckAppliedAt(X: seq<seq<bv8>>, snum: nat, lnbrs: seq<seq<nat>>, evolving: seq<Option<seq<bv8>>>,
                       degrees: seq<int>, done: set<int>, pp: seq<Option<seq<bv8>>>, sizeP: nat, c: nat)
    requires EvolvingAt(X, snum, lnbrs, evolving, degrees, done, pp, sizeP, c) && snum + c !in done
    requires evolving[c].Some? ==> |evolving[c].value| == sizeP
    ensures EvolvingAt(X, snum, lnbrs, evolving[c := Some(Absorb(evolving[c], X[snum + c]))], degrees,
                       done + {snum + c}, pp, sizeP, c)
  {
    CheckDecodedStep(evolving[c], Sum(X[..snum], lnbrs[c], sizeP), X[snum + c], sizeP);
  }

  /** Applying a check changes neither the neighbour counts of sources nor the sources still missing. */
  lemma CheckCounts(lnbrs: seq<seq<nat>>, rnbrs: seq<seq<nat>>, done: set<int>, originals: int, snum: nat, id: int)
    requires Counts(lnbrs, rnbrs, done) && Counted(originals, done, snum) && |rnbrs| == snum <= id
    ensures Counts(lnbrs, rnbrs, done + {id}) && Counted(originals, done + {id}, snum)
  {
    assert Missing(done + {id}, snum) == Missing(done, snum);
  }

  /** Applying the effect of the next pending recent packet moves the pending position past it. */
  lemma PendingStep(recent: seq<int>, pending: int, done: set<int>, pp: seq<Option<seq<bv8>>>, id: int)
    requires Pending(recent, pending, done, pp) && Distinct(recent) && pending < |recent| && recent[pending] == id
    requires 0 <= id < |pp| && pp[id].Some?
    ensures Pending(recent, pending + 1, done + {id}, pp)
  {
  }

  /** When the last missing source is the one being applied, every source packet is decoded. */
  lemma FinishedRecovered(meta: Meta, gene: seq<Generation>, rnbrs: seq<seq<nat>>, X: seq<seq<bv8>>,
                          lnbrs: seq<seq<nat>>, evolving: seq<Option<seq<bv8>>>, degrees: seq<int>, originals: int,
                          matrices: seq<RunningMatrix>, recent: seq<int>, pp: seq<Option<seq<bv8>>>, done: set<int>,
                          pending: int, s: int)
    requires Agrees(meta, gene, rnbrs, X, lnbrs, evolving, degrees, originals, matrices, recent, pp, done, pending)
    requires pending < |recent| && recent[pending] == s && 0 <= s < meta.snum && pp[s].Some? && originals + 1 == meta.snum
    ensures Recovered(pp, X, meta.snum)
  {
    var M := Missing(done, meta.snum);
    assert s in M;
    assert M * {s} == {s} && {s} - M == {};
    assert |M - {s}| == 0;
    forall t | 0 <= t < meta.snum
      ensures pp[t] == Some(X[t])
    {
      if t != s {
        assert t !in M - {s};
      }
    }
  }

  /** Before the neighbours of an undecoded source are visited, each check lists it once per edge. */
  lemma SourceStart(lnbrs: seq<seq<nat>>, rnbrs: seq<seq<nat>>, done: set<int>, s: nat)
    requires Counts(lnbrs, rnbrs, done) && s < |rnbrs| && s !in done
    ensures CountsDuring(lnbrs, rnbrs, done, s, rnbrs[s])
  {
  }

  /** Visiting a check keeps the lists, buffers and degrees in shape. */
  lemma VisitEvolution(lnbrs: seq<seq<nat>>, evolving: seq<Option<seq<bv8>>>, degrees: seq<int>,
                       snum: int, cnum: int, sizeP: nat, s: nat, c: int, x: seq<bv8>)
    requires Evolution(lnbrs, evolving, degrees, snum, cnum, sizeP) && 0 <= c < cnum && |x| == sizeP
    ensures Evolution(lnbrs[c := Unlinked(lnbrs[c], s)],
                      evolving[c := Some(AddScaled(Value(evolving[c], sizeP), x, 1))],
                      degrees[c := degrees[c] - 1], snum, cnum, sizeP)
  {
    var l := Unlinked(lnbrs[c], s);
    forall k | 0 <= k < |l|
      ensures l[k] < snum
    {
      assert l[k] in lnbrs[c];
    }
  }

  /** Visiting check nbrs[t] unlinks one of the copies of s it still lists. */
  lemma VisitCounts(lnbrs: seq<seq<nat>>, rnbrs: seq<seq<nat>>, done: set<int>, s: nat, nbrs: seq<nat>, t: nat)
    requires t < |nbrs| && CountsDuring(lnbrs, rnbrs, done, s, nbrs[t..]) && nbrs[t] < |lnbrs| && s < |rnbrs|
    ensures s in lnbrs[nbrs[t]]
    ensures CountsDuring(lnbrs[nbrs[t] := Unlinked(lnbrs[nbrs[t]], s)], rnbrs, done, s, nbrs[t + 1..])
  {
    var c := nbrs[t];
    var lnbrs' := lnbrs[c := Unlinked(lnbrs[c], s)];
    forall d, u {:trigger multiset(lnbrs'[d])[u]} | 0 <= d < |lnbrs| && 0 <= u < |rnbrs|
      ensures multiset(lnbrs'[d])[u] == if u == s then multiset(nbrs[t + 1..])[d] else if u in done then 0 else multiset(rnbrs[u])[d]
    {
      VisitCountAt(lnbrs, rnbrs, done, s, nbrs, t, d, u);
    }
    SuffixCount(nbrs, t);
    assert multiset(lnbrs[c])[s] == multiset(nbrs[t..])[c] > 0;
  }

  /** A suffix counts its head once more than the suffix after it. */
  lemma SuffixCount(l: seq<nat>, t: nat)
    requires t < |l|
    ensures multiset(l[t..]) == multiset{l[t]} + multiset(l[t + 1..])
  {
    assert l[t..] == [l[t]] + l[t + 1..];
  }

  /** VisitCounts for check d and source u. */
  lemma VisitCountAt(lnbrs: seq<seq<nat>>, rnbrs: seq<seq<nat>>, done: set<int>, s: nat, nbrs: seq<nat>, t: nat, d: int, u: int)
    requires t < |nbrs| && nbrs[t] < |lnbrs| && 0 <= d < |lnbrs| && 0 <= u < |rnbrs|
    requires multiset(lnbrs[d])[u] == if u == s then multiset(nbrs[t..])[d] else if u in done then 0 else multiset(rnbrs[u])[d]
    ensures multiset(lnbrs[nbrs[t] := Unlinked(lnbrs[nbrs[t]], s)][d])[u] ==
            if u == s then multiset(nbrs[t + 1..])[d] else if u in done then 0 else multiset(rnbrs[u])[d]
  {
    var c := nbrs[t];
    var lnbrs' := lnbrs[c := Unlinked(lnbrs[c], s)];
    SuffixCount(nbrs, t);
    if d == c {
      assert multiset(lnbrs'[d]) == multiset(lnbrs[c]) - multiset{s};
      if u == s {
        assert multiset(nbrs[t..])[d] == multiset(nbrs[t + 1..])[d] + 1;
      }
    } else {
      assert lnbrs'[d] == lnbrs[d];
      if u == s {
        assert multiset(nbrs[t..])[d] == multiset(nbrs[t + 1..])[d];
      }
    }
  }

  /** Visiting check c takes the decoded source s out of its list and its evolving buffer together. */
  lemma VisitEvolving(X: seq<seq<bv8>>, snum: nat, lnbrs: seq<seq<nat>>, evolving: seq<Option<seq<bv8>>>,
                      degrees: seq<int>, done: set<int>, pp: seq<Option<seq<bv8>>>, sizeP: nat, s: nat, c: nat)
    requires Evolving(X, snum, lnbrs, evolving, degrees, done, pp, sizeP) && c < |lnbrs| && s in lnbrs[c]
    requires s < snum && |X[s]| == sizeP && (evolving[c].Some? ==> |evolving[c].value| == sizeP)
    ensures Evolving(X, snum, lnbrs[c := Unlinked(lnbrs[c], s)],
                     evolving[c := Some(AddScaled(Value(evolving[c], sizeP), X[s], 1))],
                     degrees[c := degrees[c] - 1], done, pp, sizeP)
  {
    var lnbrs', evolving', degrees' := lnbrs[c := Unlinked(lnbrs[c], s)],
      evolving[c := Some(AddScaled(Value(evolving[c], sizeP), X[s], 1))], degrees[c := degrees[c] - 1];
    forall e | 0 <= e < |lnbrs|
      ensures EvolvingAt(X, snum, lnbrs', evolving', degrees', done, pp, sizeP, e)
    {
      assert EvolvingAt(X, snum, lnbrs, evolving, degrees, done, pp, sizeP, e);
      if e == c {
        VisitAt(X, snum, lnbrs, evolving, degrees, done, pp, sizeP, s, c);
      }
    }
  }

  /** The step of VisitEvolving at check c itself. */
  lemma VisitAt(X: seq<seq<bv8>>, snum: nat, lnbrs: seq<seq<nat>>, evolving: seq<Option<seq<bv8>>>,
                degrees: seq<int>, done: set<int>, pp: seq<Option<seq<bv8>>>, sizeP: nat, s: nat, c: nat)
    requires EvolvingAt(X, snum, lnbrs, evolving, degrees, done, pp, sizeP, c) && s in lnbrs[c]
    requires s < snum && |X[s]| == sizeP && (evolving[c].Some? ==> |evolving[c].value| == sizeP)
    ensures EvolvingAt(X, snum, lnbrs[c := Unlinked(lnbrs[c], s)],
                       evolving[c := Some(AddScaled(Value(evolving[c], sizeP), X[s], 1))],
                       degrees[c := degrees[c] - 1], done, pp, sizeP, c)
  {
    var P := X[..snum];
    SumUnlinked(P, lnbrs[c], s, sizeP);
    assert P[s] == X[s];
    SourceDecodedStep(Value(evolving[c], sizeP), Sum(P, Unlinked(lnbrs[c], s), sizeP), X[s], X[snum + c], snum + c in done);
  }

  /** The next pending packet, a source, is decoded as in X and not yet applied. */
  lemma SourceReady(meta: Meta, gene: seq<Generation>, rnbrs: seq<seq<nat>>, X: seq<seq<bv8>>,
                    lnbrs: seq<seq<nat>>, evolving: seq<Option<seq<bv8>>>, degrees: seq<int>, originals: int,
                    matrices: seq<RunningMatrix>, recent: seq<int>, pp: seq<Option<seq<bv8>>>, done: set<int>,
                    pending: int, s: int)
    requires Agrees(meta, gene, rnbrs, X, lnbrs, evolving, degrees, originals, matrices, recent, pp, done, pending)
    requires pending < |recent| && recent[pending] == s && 0 <= s < meta.snum && pp[s].Some?
    ensures s !in done && pp[s].value == X[s]
    ensures Evolving(X, meta.snum, lnbrs, evolving, degrees, done, pp, meta.sizeP) && Counts(lnbrs, rnbrs, done)
  {
  }

  /** After all its checks are visited, source s counts as applied. */
  lemma SourceApplied(meta: Meta, gene: seq<Generation>, rnbrs: seq<seq<nat>>, X: seq<seq<bv8>>,
                      lnbrs: seq<seq<nat>>, evolving: seq<Option<seq<bv8>>>, degrees: seq<int>, originals: int,
                      matrices: seq<RunningMatrix>, recent: seq<int>, pp: seq<Option<seq<bv8>>>, done: set<int>,
                      pending: int, s: int,
                      lnbrs': seq<seq<nat>>, evolving': seq<Option<seq<bv8>>>, degrees': seq<int>)
    requires Agrees(meta, gene, rnbrs, X, lnbrs, evolving, degrees, originals, matrices, recent, pp, done, pending)
    requires Recents(recent, pp) && pending < |recent| && recent[pending] == s && 0 <= s < meta.snum
    requires Evolving(X, meta.snum, lnbrs', evolving', degrees', done, pp, meta.sizeP) && CountsDuring(lnbrs', rnbrs, done, s, [])
    ensures Agrees(meta, gene, rnbrs, X, lnbrs', evolving', degrees', originals + 1, matrices, recent, pp, done + {s}, pending + 1)
  {
    var snum, done' := meta.snum, done + {s};
    forall e | 0 <= e < |lnbrs'|
      ensures EvolvingAt(X, snum, lnbrs', evolving', degrees', done', pp, meta.sizeP, e)
    {
      assert EvolvingAt(X, snum, lnbrs', evolving', degrees', done, pp, meta.sizeP, e);
      assert (snum + e in done') == (snum + e in done);
    }
    PendingStep(recent, pending, done, pp, s);
    assert Missing(done', snum) == Missing(done, snum) - {s};
  }

  /**
   * Check c leaves nothing for check_for_new_recoverables to do: it is not
   * a decoded, non-recent check of degree one, nor an undecoded one of
   * degree zero.
   */
  ghost predicate Stalled(degrees: seq<int>, pp: seq<Option<seq<bv8>>>, recent: seq<int>, snum: int, c: int)
  {
    0 <= c < |degrees| && 0 <= snum + c < |pp| &&
    !(degrees[c] == 1 && pp[snum + c].Some? && snum + c !in recent) &&
    !(pp[snum + c].None? && degrees[c] == 0)
  }

  /** Decoding one more packet as in X, and listing it as recent, keeps decoding in agreement with X. */
  lemma Learn(meta: Meta, gene: seq<Generation>, rnbrs: seq<seq<nat>>, X: seq<seq<bv8>>,
              lnbrs: seq<seq<nat>>, evolving: seq<Option<seq<bv8>>>, degrees: seq<int>, originals: int,
              matrices: seq<RunningMatrix>, recent: seq<int>, pp: seq<Option<seq<bv8>>>, done: set<int>,
              pending: int, k: int)
    requires Agrees(meta, gene, rnbrs, X, lnbrs, evolving, degrees, originals, matrices, recent, pp, done, pending)
    requires 0 <= k < |pp| && pp[k].None?
    ensures Agrees(meta, gene, rnbrs, X, lnbrs, evolving, degrees, originals, matrices, recent + [k], pp[k := Some(X[k])], done, pending)
  {
    var pp' := pp[k := Some(X[k])];
    forall e | 0 <= e < |lnbrs|
      ensures EvolvingAt(X, meta.snum, lnbrs, evolving, degrees, done, pp', meta.sizeP, e)
    {
      assert EvolvingAt(X, meta.snum, lnbrs, evolving, degrees, done, pp, meta.sizeP, e);
    }
  }

  /**
   * A decoded check of degree one that is not recent has been applied, and
   * its evolving buffer is its one remaining neighbour; its degree may then
   * drop to zero.
   */
  lemma RetireCheck(meta: Meta, gene: seq<Generation>, rnbrs: seq<seq<nat>>, X: seq<seq<bv8>>,
                    lnbrs: seq<seq<nat>>, evolving: seq<Option<seq<bv8>>>, degrees: seq<int>, originals: int,
                    matrices: seq<RunningMatrix>, recent: seq<int>, pp: seq<Option<seq<bv8>>>, done: set<int>,
                    pending: int, c: int)
    requires Agrees(meta, gene, rnbrs, X, lnbrs, evolving, degrees, originals, matrices, recent, pp, done, pending)
    requires 0 <= c < |degrees| && degrees[c] == 1 && pp[meta.snum + c].Some? && meta.snum + c !in recent
    ensures |lnbrs[c]| == 1 && lnbrs[c][0] < meta.snum && Value(evolving[c], meta.sizeP) == X[lnbrs[c][0]]
    ensures Agrees(meta, gene, rnbrs, X, lnbrs, evolving, degrees[c := 0], originals, matrices, recent, pp, done, pending)
  {
    var snum := meta.snum;
    assert EvolvingAt(X, snum, lnbrs, evolving, degrees, done, pp, meta.sizeP, c);
    assert snum + c in done;
    LastNeighbour(X[..snum], lnbrs[c], meta.sizeP);
    var degrees' := degrees[c := 0];
    forall e | 0 <= e < |lnbrs|
      ensures EvolvingAt(X, snum, lnbrs, evolving, degrees', done, pp, meta.sizeP, e)
    {
      assert EvolvingAt(X, snum, lnbrs, evolving, degrees, done, pp, meta.sizeP, e);
    }
  }

  /** An undecoded check of degree zero has no neighbour left: its evolving buffer is the check itself. */
  lemma RecoverCheck(meta: Meta, gene: seq<Generation>, rnbrs: seq<seq<nat>>, X: seq<seq<bv8>>,
                     lnbrs: seq<seq<nat>>, evolving: seq<Option<seq<bv8>>>, degrees: seq<int>, originals: int,
                     matrices: seq<RunningMatrix>, recent: seq<int>, pp: seq<Option<seq<bv8>>>, done: set<int>,
                     pending: int, c: int)
    requires Agrees(meta, gene, rnbrs, X, lnbrs, evolving, degrees, originals, matrices, recent, pp, done, pending)
    requires 0 <= c < |degrees| && degrees[c] == 0 && pp[meta.snum + c].None?
    ensures Value(evolving[c], meta.sizeP) == X[meta.snum + c]
  {
    var snum := meta.snum;
    assert EvolvingAt(X, snum, lnbrs, evolving, degrees, done, pp, meta.sizeP, c);
    assert snum + c !in done;
    AddToZeros(X[snum + c], meta.sizeP);
  }

  /**
   * One row of decode_generation when decoding agrees with X: the first
   * unknown member is undecoded, so exactly it is erased and decoded as
   * the row's payload, its packet of X.
   */
  lemma UnpackStep(meta: Meta, ids: seq<int>, e0: seq<bool>, q0: seq<Option<seq<bv8>>>, rc0: seq<int>,
                   e: seq<bool>, q: seq<Option<seq<bv8>>>, added: seq<int>, payload: seq<bv8>, U: seq<nat>, i: nat,
                   gene: seq<Generation>, rnbrs: seq<seq<nat>>, X: seq<seq<bv8>>,
                   lnbrs: seq<seq<nat>>, evolving: seq<Option<seq<bv8>>>, degrees: seq<int>, originals: int,
                   matrices: seq<RunningMatrix>, done: set<int>, pending: int)
    requires |e0| == |ids| && (forall j :: 0 <= j < |ids| ==> 0 <= ids[j] < |q0|) && Distinct(ids)
    requires i < |U| && Unerased(e0) == U[i..] && (forall j :: 0 <= j < |ids| && !e0[j] ==> q0[ids[j]].None?)
    requires Agrees(meta, gene, rnbrs, X, lnbrs, evolving, degrees, originals, matrices, rc0, q0, done, pending)
    requires U[i] < |ids| && payload == X[ids[U[i]]]
    requires |Unerased(e0)| > 0 && q0[ids[Unerased(e0)[0]]].None? ==>
      e == e0[Unerased(e0)[0] := true] && added == [ids[Unerased(e0)[0]]]
    requires (added == [] && q == q0) || (|added| == 1 && 0 <= added[0] < |q0| && q0[added[0]].None? && q == q0[added[0] := Some(payload)])
    ensures Unerased(e) == U[i + 1..] && (forall j :: 0 <= j < |ids| && !e[j] ==> q[ids[j]].None?)
    ensures Agrees(meta, gene, rnbrs, X, lnbrs, evolving, degrees, originals, matrices, rc0 + added, q, done, pending)
  {
    var u := U[i];
    assert Unerased(e0)[0] == u && !e0[u];
    FirstErased(e0);
    assert U[i..][1..] == U[i + 1..];
    Learn(meta, gene, rnbrs, X, lnbrs, evolving, degrees, originals, matrices, rc0, q0, done, pending, ids[u]);
  }

  /** A generation decoded as in X: its matrix replaced by a solved one with every member erased keeps the agreement. */
  lemma ReplaceSolved(meta: Meta, gene: seq<Generation>, rnbrs: seq<seq<nat>>, X: seq<seq<bv8>>,
                      lnbrs: seq<seq<nat>>, evolving: seq<Option<seq<bv8>>>, degrees: seq<int>, originals: int,
                      matrices: seq<RunningMatrix>, recent: seq<int>, pp: seq<Option<seq<bv8>>>, done: set<int>,
                      pending: int, g: int, F: RunningMatrix)
    requires Agrees(meta, gene, rnbrs, X, lnbrs, evolving, degrees, originals, matrices, recent, pp, done, pending)
    requires 0 <= g < |matrices| && |gene[g].pktid| == meta.sizeG && InPackets(gene[g].pktid, meta.snum + meta.cnum)
    requires Dims(F, meta.sizeG, meta.sizeP) && F.remainingRows == 0 && F.remainingCols == 0
    ensures Agrees(meta, gene, rnbrs, X, lnbrs, evolving, degrees, originals, matrices[g := F], recent, pp, done, pending)
  {
    AllErased(F.erased);
    Solved(F, gene[g].pktid, X, meta.sizeP);
    var ms := matrices[g := F];
    forall h | 0 <= h < |ms|
      ensures Equations(ms[h], gene[h].pktid, X, meta.sizeP)
    {
      if h != g {
        assert Equations(matrices[h], gene[h].pktid, X, meta.sizeP);
      }
    }
  }

  /** With nothing recent, no unknown member of a running matrix is decoded. */
  lemma MaskedHere(ms: seq<RunningMatrix>, gene: seq<Generation>, pp: seq<Option<seq<bv8>>>, g: int)
    requires Masked(ms, gene, pp, []) && 0 <= g < |ms| && g < |gene| && |ms[g].erased| == |gene[g].pktid|
    requires forall j :: 0 <= j < |gene[g].pktid| ==> 0 <= gene[g].pktid[j] < |pp|
    ensures forall j :: 0 <= j < |gene[g].pktid| && !ms[g].erased[j] ==> pp[gene[g].pktid[j]].None?
  {
  }

  /** Decoding more packets keeps every source packet of X decoded. */
  lemma RecoveredKept(pp: seq<Option<seq<bv8>>>, q: seq<Option<seq<bv8>>>, X: seq<seq<bv8>>, snum: int)
    requires Recovered(pp, X, snum) && Kept(pp, q)
    ensures Recovered(q, X, snum)
  {
    forall s | 0 <= s < snum
      ensures q[s] == Some(X[s])
    {
      assert pp[s].Some?;
    }
  }

  /** In agreement with X, the erased members of subgeneration g hold their contents in X and its rows are equations. */
  lemma StoreKnown(meta: Meta, gene: seq<Generation>, rnbrs: seq<seq<nat>>, X: seq<seq<bv8>>,
                   lnbrs: seq<seq<nat>>, evolving: seq<Option<seq<bv8>>>, degrees: seq<int>, originals: int,
                   matrices: seq<RunningMatrix>, recent: seq<int>, pp: seq<Option<seq<bv8>>>, done: set<int>, g: int)
    requires Agrees(meta, gene, rnbrs, X, lnbrs, evolving, degrees, originals, matrices, recent, pp, done, 0)
    requires meta.sizeG >= 0 && Running(matrices, gene, pp, meta.sizeG, meta.sizeP) && 0 <= g < |matrices|
    ensures Equations(matrices[g], gene[g].pktid, X, meta.sizeP) && Known(pp, gene[g].pktid, matrices[g].erased, X)
  {
  }

  /** Replacing the matrix of subgeneration g by one with the same erased members whose rows are equations keeps the agreement. */
  lemma StoreAgrees(meta: Meta, gene: seq<Generation>, rnbrs: seq<seq<nat>>, X: seq<seq<bv8>>,
                    lnbrs: seq<seq<nat>>, evolving: seq<Option<seq<bv8>>>, degrees: seq<int>, originals: int,
                    matrices: seq<RunningMatrix>, recent: seq<int>, pp: seq<Option<seq<bv8>>>, done: set<int>, g: int,
                    F: RunningMatrix, ms: seq<RunningMatrix>)
    requires Agrees(meta, gene, rnbrs, X, lnbrs, evolving, degrees, originals, matrices, recent, pp, done, 0)
    requires 0 <= g < |matrices| && F.erased == matrices[g].erased && Equations(F, gene[g].pktid, X, meta.sizeP)
    requires ms == matrices[g := F]
    ensures Agrees(meta, gene, rnbrs, X, lnbrs, evolving, degrees, originals, ms, recent, pp, done, 0)
  {
    forall h | 0 <= h < |ms|
      ensures Equations(ms[h], gene[h].pktid, X, meta.sizeP)
    {
      if h != g {
        assert Equations(matrices[h], gene[h].pktid, X, meta.sizeP);
      }
    }
  }
}
