/**
 * The perpetual-code decoder (src/decoderPP.c), for window-wrap codes
 * without precode.
 *
 * While rows are missing (stage Forward) a stored row may wrap round the
 * end of the matrix: row p with entries e stands for the vector with e[d]
 * at column (p + d) mod numpp.  A packet's coefficients are reduced
 * against the rows one pivot at a time and stored at the first empty
 * pivot.  Once every row is present, the bottom size_g rows are unwrapped
 * to full length and processed again against the rows above
 * (FinalForward), with the full-length rows of CompactRows; a complete
 * matrix is made diagonal (FinalBackward).
 *
 * Correctness is stated relative to packets X as in CompactRows, with
 * CyclicHold in place of RowsHold while rows may wrap.
 */
module DecoderPp {
  import opened Wrappers
  import opened GaloisArith
  import opened GaloisPrimitive
  import opened Packets
  import opened Grouping
  import opened Decoding
  import opened SncEncoder
  import opened CompactRows
  import DecoderCbd
  import Linear
  import Arith

  // ---------------------------------------------------------------------
  // Rows that wrap round
  // ---------------------------------------------------------------------

  /** How far column k lies after column p going round n columns. */
  function Offset(k: int, p: int, n: int): int
  {
    if k >= p then k - p else k + n - p
  }

  /** (p + s) mod n for p below n and s at most n, without a division. */
  function Advance(p: int, s: int, n: int): int
  {
    if p + s < n then p + s else p + s - n
  }

  lemma AdvanceIsMod(p: int, s: int, n: int)
    requires 0 <= p < n && 0 <= s <= n
    ensures 0 <= Advance(p, s, n) < n && Advance(p, s, n) == (p + s) % n
  {
    if p + s < n {
      Arith.DivModUnique(p + s, 0, p + s, n);
    } else {
      Arith.DivModUnique(p + s, 1, p + s - n, n);
    }
  }

  /** Row p with entries e at full length: e[d] at column (p + d) mod n, zero elsewhere. */
  function Cyclic(p: int, e: seq<bv8>, n: int): (v: seq<bv8>)
    requires 0 <= p < n && |e| <= n
    ensures |v| == n
  {
    seq(n, k requires 0 <= k < n => if Offset(k, p, n) < |e| then e[Offset(k, p, n)] else 0)
  }

  /** A row that does not reach the end of the matrix is a compact row of CompactRows. */
  lemma CyclicFlat(p: int, e: seq<bv8>, n: int)
    requires 0 <= p < n && p + |e| <= n
    ensures Cyclic(p, e, n) == Expand(p, e, n)
  {
  }

  /** Adding a multiple of a row that starts at the same column, entry by entry, adds the vectors it stands for. */
  lemma CyclicAddScaled(p: int, v: seq<bv8>, e: seq<bv8>, q: bv8, n: int)
    requires 0 <= p < n && |e| <= |v| <= n
    ensures Cyclic(p, AddScaledAt(v, 0, e, q), n) == AddScaled(Cyclic(p, v, n), Cyclic(p, e, n), q)
  {
    PowersAreDistinct();
    MulZero(q);
  }

  /** Dropping s leading zero entries moves the row s columns on. */
  lemma CyclicShift(p: int, e: seq<bv8>, s: int, n: int)
    requires 0 <= p < n && 0 <= s <= |e| <= n
    requires forall d :: 0 <= d < s ==> e[d] == 0
    ensures 0 <= Advance(p, s, n) < n
    ensures Cyclic(p, e, n) == Cyclic(Advance(p, s, n), e[s..] + Zeros(s), n)
  {
    var p' := Advance(p, s, n);
    var e' := e[s..] + Zeros(s);
    forall k | 0 <= k < n
      ensures Cyclic(p, e, n)[k] == Cyclic(p', e', n)[k]
    {
      var d := Offset(k, p, n);
      if d >= s {
        assert Offset(k, p', n) == d - s;
      } else if s < n {
        assert Offset(k, p', n) == d - s + n;
      }
    }
  }

  /** Trailing zero entries can be left off. */
  lemma CyclicTrim(p: int, e: seq<bv8>, len: int, n: int)
    requires 0 <= p < n && 0 <= len <= |e| <= n
    requires forall d :: len <= d < |e| ==> e[d] == 0
    ensures Cyclic(p, e[..len], n) == Cyclic(p, e, n)
  {
  }

  /** Entry t of a row lies at column (p + t) mod n. */
  lemma CyclicAt(p: int, e: seq<bv8>, t: int, n: int)
    requires 0 <= p < n && |e| <= n && 0 <= t < |e|
    ensures Advance(p, t, n) == (p + t) % n && Cyclic(p, e, n)[Advance(p, t, n)] == e[t]
  {
    AdvanceIsMod(p, t, n);
  }

  /** Coefficients added at distinct positions can be read back. */
  lemma {:induction false} CombinedAt(co: seq<bv8>, ids: seq<int>, n: nat, j: nat, t: nat)
    requires j <= |ids| && j <= |co| && InPackets(ids, n) && Distinct(ids) && t < j
    ensures Combined(co, ids, n, j)[ids[t]] == co[t]
  {
    if t == j - 1 {
      CombinedOutside(co, ids, n, j - 1, ids[t]);
    } else {
      CombinedAt(co, ids, n, j - 1, t);
    }
  }

  /** Member t of a window-wrap subgeneration is packet (p + t) mod n, p being its first. */
  lemma WindWrapMember(i: nat, sb: nat, g: nat, n: int, t: int)
    requires 0 < g <= n && 0 <= t < g
    ensures 0 <= (i * sb) % n < n
    ensures WindWrapGeneration(i, sb, g, n)[t] == Advance((i * sb) % n, t, n)
  {
    AdvanceIsMod((i * sb) % n, t, n);
    Arith.ModAddLeft(i * sb, t, n);
  }

  /**
   * The full-length vector of a window-wrap packet is the wrapping row
   * that starts at the subgeneration's first packet with the packet's
   * coefficients as entries.
   */
  lemma WindWrapVector(co: seq<bv8>, i: nat, sb: nat, n: int)
    requires 0 < |co| <= n
    ensures InPackets(WindWrapGeneration(i, sb, |co|, n), n) && |WindWrapGeneration(i, sb, |co|, n)| == |co|
    ensures 0 <= (i * sb) % n < n
    ensures Assigned(co, WindWrapGeneration(i, sb, |co|, n), n, |co|) == Cyclic((i * sb) % n, co, n)
  {
    var g := |co|;
    var ids := WindWrapGeneration(i, sb, g, n);
    var p := (i * sb) % n;
    WindWrapInRange(i, sb, g, n);
    AssignedIsCombined(co, ids, n, g);
    forall k | 0 <= k < n
      ensures Combined(co, ids, n, g)[k] == Cyclic(p, co, n)[k]
    {
      var d := Offset(k, p, n);
      if d < g {
        WindWrapMember(i, sb, g, n, d);
        assert ids[d] == k;
        CombinedAt(co, ids, n, g, d);
      } else {
        forall t | 0 <= t < g
          ensures ids[t] != k
        {
          WindWrapMember(i, sb, g, n, t);
          assert Offset(Advance(p, t, n), p, n) == t;
        }
        CombinedOutside(co, ids, n, g, k);
      }
    }
  }

  /** Every stored row of the wrapping matrix has 1 to size_g entries and a nonzero first entry. */
  predicate Circular(row: Rows, g: int)
  {
    forall i :: 0 <= i < |row| && row[i].Some? ==> 1 <= |row[i].value| <= g && row[i].value[0] != 0
  }

  /** Every stored row, wrapped round at full length, is an equation of X with its message as payload. */
  ghost predicate CyclicHold(row: Rows, message: seq<seq<bv8>>, X: seq<seq<bv8>>)
  {
    |message| == |row| &&
    forall i :: 0 <= i < |row| && row[i].Some? ==>
      |row[i].value| <= |row| && Holds(Cyclic(i, row[i].value, |row|), message[i], X)
  }

  // ---------------------------------------------------------------------
  // Reduction in the Forward stage
  // ---------------------------------------------------------------------

  /**
   * The vector being reduced in the Forward stage: its pivot candidate,
   * the size_g entries of ces_tmp from that column on, of which the first
   * rowlen may be nonzero, and its payload.
   */
  datatype Reduction = Reduction(pivot: int, cur: seq<bv8>, rowlen: int, msg: seq<bv8>)

  /** The outcome of one reduction step: a new pivot candidate, or a vector reduced to zero. */
  datatype Outcome = Continue(next: Reduction) | Dropped

  /** A reduction state of a matrix of n rows with size_g-entry buffers. */
  predicate Reducing(r: Reduction, n: int, g: int)
  {
    0 <= r.pivot < n && g <= n && |r.cur| == g && 1 <= r.rowlen <= g && r.cur[0] != 0 &&
    forall k :: r.rowlen <= k < g ==> r.cur[k] == 0
  }

  /** The first nonzero position of s from `from` on below len, or len when there is none. */
  function FirstNonzero(s: seq<bv8>, len: int, from: int): (k: int)
    requires 0 <= from <= len <= |s|
    ensures from <= k <= len && (k < len ==> s[k] != 0)
    ensures forall t :: from <= t < k ==> s[t] == 0
    decreases len - from
  {
    if from == len then len else if s[from] != 0 then from else FirstNonzero(s, len, from + 1)
  }

  /**
   * The start of the Forward branch: the pivot candidate is the
   * subgeneration's first packet moved on past the leading zero
   * coefficients; an all-zero coefficient vector is useless.
   */
  function Start(co: seq<bv8>, first: int, n: int, syms: seq<bv8>): (r: Option<Reduction>)
    requires 1 <= |co| <= n && 0 <= first < n
    ensures r.None? <==> forall t :: 0 <= t < |co| ==> co[t] == 0
    ensures r.Some? ==> Reducing(r.value, n, |co|) && r.value.msg == syms
  {
    var g := |co|;
    var shift := FirstNonzero(co, g, 0);
    if shift == g then None
    else Some(Reduction((first + shift) % n, co[shift..] + Zeros(shift), g - shift, syms))
  }

  /** The wrapping row of a packet's coefficients is the one the start of its reduction stands for. */
  lemma StartHolds(co: seq<bv8>, first: int, n: int, syms: seq<bv8>)
    requires 1 <= |co| <= n && 0 <= first < n && Start(co, first, n, syms).Some?
    ensures var r := Start(co, first, n, syms).value; Cyclic(r.pivot, r.cur, n) == Cyclic(first, co, n)
  {
    var shift := FirstNonzero(co, |co|, 0);
    CyclicShift(first, co, shift, n);
    AdvanceIsMod(first, shift, n);
  }

  /**
   * The end of a reduction pass: the vector t at pivot p has a zero first
   * entry and no nonzero entry from newlen on; drop the first column and
   * move the candidate past the zeros that follow, or drop a vector with
   * nothing left.
   */
  function Shifted(p: int, t: seq<bv8>, newlen: int, msg: seq<bv8>, n: int): (o: Outcome)
    requires 0 <= p < n && 1 <= newlen <= |t| <= n
    ensures o.Continue? ==> Reducing(o.next, n, |t|) && o.next.msg == msg
  {
    var g := |t|;
    var c0 := t[1..newlen] + Zeros(g - (newlen - 1));
    var shift := FirstNonzero(c0, newlen, 0);
    if shift == newlen then Dropped
    else
      assert c0[newlen - 1] == 0;
      Continue(Reduction((p + 1 + shift) % n, c0[shift..newlen - 1] + Zeros(g - (newlen - 1 - shift)),
                         newlen - 1 - shift, msg))
  }

  /** Dropping a zero first entry moves the row one column on. */
  lemma DropFirst(p: int, t: seq<bv8>, newlen: int, n: int)
    requires 0 <= p < n && 1 <= newlen <= |t| <= n && t[0] == 0
    requires forall k :: newlen <= k < |t| ==> t[k] == 0
    ensures 0 <= Advance(p, 1, n) < n
    ensures Cyclic(p, t, n) == Cyclic(Advance(p, 1, n), t[1..newlen] + Zeros(|t| - (newlen - 1)), n)
  {
    CyclicShift(p, t, 1, n);
    assert t[1..] + Zeros(1) == t[1..newlen] + Zeros(|t| - (newlen - 1));
  }

  /** Dropping the zeros before the first nonzero entry moves the row past them. */
  lemma SkipZeros(p: int, c: seq<bv8>, shift: int, len: int, n: int)
    requires 0 <= p < n && 0 <= shift < len <= |c| <= n
    requires forall k :: 0 <= k < shift ==> c[k] == 0
    requires forall k :: len <= k < |c| ==> c[k] == 0
    ensures Cyclic(p, c, n) == Cyclic((p + shift) % n, c[shift..len] + Zeros(|c| - (len - shift)), n)
  {
    CyclicShift(p, c, shift, n);
    AdvanceIsMod(p, shift, n);
    assert c[shift..] + Zeros(shift) == c[shift..len] + Zeros(|c| - (len - shift));
  }

  /** A shift that finds no nonzero entry drops a zero vector, and only then. */
  lemma ShiftedDrops(p: int, t: seq<bv8>, newlen: int, msg: seq<bv8>, n: int)
    requires 0 <= p < n && 1 <= newlen <= |t| <= n && t[0] == 0
    requires forall k :: newlen <= k < |t| ==> t[k] == 0
    ensures Shifted(p, t, newlen, msg, n).Dropped? <==> t == Zeros(|t|)
  {
    var g := |t|;
    var c0 := t[1..newlen] + Zeros(g - (newlen - 1));
    var shift := FirstNonzero(c0, newlen, 0);
    assert forall k :: 1 <= k < newlen ==> t[k] == c0[k - 1];
    if shift == newlen {
      assert t == Zeros(g);
    } else {
      assert t[shift + 1] != 0;
    }
  }

  /** Shifting keeps the vector the row stands for. */
  lemma ShiftedHolds(p: int, t: seq<bv8>, newlen: int, msg: seq<bv8>, n: int)
    requires 0 <= p < n && 1 <= newlen <= |t| <= n && t[0] == 0
    requires forall k :: newlen <= k < |t| ==> t[k] == 0
    requires Shifted(p, t, newlen, msg, n).Continue?
    ensures var s := Shifted(p, t, newlen, msg, n).next; Cyclic(s.pivot, s.cur, n) == Cyclic(p, t, n)
  {
    var g := |t|;
    var c0 := t[1..newlen] + Zeros(g - (newlen - 1));
    var shift := FirstNonzero(c0, newlen, 0);
    var p1 := Advance(p, 1, n);
    var p2 := (p + 1 + shift) % n;
    var cur := c0[shift..newlen - 1] + Zeros(g - (newlen - 1 - shift));
    assert Shifted(p, t, newlen, msg, n).next == Reduction(p2, cur, newlen - 1 - shift, msg);
    assert |c0| == g;
    DropFirst(p, t, newlen, n);
    AdvanceIsMod(p, 1, n);
    Arith.ModAddLeft(p + 1, shift, n);
    SkipZeros(p1, c0, shift, newlen - 1, n);
    calc {
      Cyclic(p, t, n);
      Cyclic(p1, c0, n);
      { assert (p1 + shift) % n == p2; }
      Cyclic(p2, cur, n);
    }
  }

  /**
   * One pass of the reduction loop of process_packet_PP as written: take
   * away the multiple of the row at the pivot candidate that clears its
   * column, then shift; the vector is as long as the longer of itself and
   * the row.
   */
  function Step(row: Rows, message: seq<seq<bv8>>, r: Reduction, g: int): (o: Outcome)
    requires Circular(row, g) && Reducing(r, |row|, g) && |message| == |row| && row[r.pivot].Some?
    requires |message[r.pivot]| == |r.msg|
    ensures o.Continue? ==> Reducing(o.next, |row|, g) && |o.next.msg| == |r.msg|
  {
    var e := row[r.pivot].value;
    var q := Div(r.cur[0], e[0]);
    var newlen := if r.rowlen > |e| then r.rowlen else |e|;
    Shifted(r.pivot, AddScaledAt(r.cur, 0, e, q), newlen, AddScaled(r.msg, message[r.pivot], q), |row|)
  }

  /**
   * A step keeps the vector an equation of X when the rows are: the new
   * candidate stands for the old vector less a multiple of a row, and a
   * dropped vector was such a multiple.
   */
  lemma StepHolds(row: Rows, message: seq<seq<bv8>>, r: Reduction, g: int, X: seq<seq<bv8>>)
    requires Circular(row, g) && Reducing(r, |row|, g) && |message| == |row| && row[r.pivot].Some?
    requires |message[r.pivot]| == |r.msg|
    requires CyclicHold(row, message, X) && Holds(Cyclic(r.pivot, r.cur, |row|), r.msg, X)
    ensures Step(row, message, r, g).Continue? ==>
      var s := Step(row, message, r, g).next; Holds(Cyclic(s.pivot, s.cur, |row|), s.msg, X)
    ensures Step(row, message, r, g).Dropped? ==>
      var e := row[r.pivot].value;
      AddScaledAt(r.cur, 0, e, Div(r.cur[0], e[0])) == Zeros(g)
  {
    var n := |row|;
    var e := row[r.pivot].value;
    var q := Div(r.cur[0], e[0]);
    var t := AddScaledAt(r.cur, 0, e, q);
    var newlen := if r.rowlen > |e| then r.rowlen else |e|;
    ClearsPivot(r.cur, 0, e);
    ShiftedDrops(r.pivot, t, newlen, AddScaled(r.msg, message[r.pivot], q), n);
    if Shifted(r.pivot, t, newlen, AddScaled(r.msg, message[r.pivot], q), n).Continue? {
      ShiftedHolds(r.pivot, t, newlen, AddScaled(r.msg, message[r.pivot], q), n);
    }
    CyclicAddScaled(r.pivot, r.cur, e, q, n);
    HoldsAddScaled(Cyclic(r.pivot, r.cur, n), r.msg, Cyclic(r.pivot, e, n), message[r.pivot], q, X);
  }

  /**
   * The reduction loop of process_packet_PP, bounded: the packet's
   * coefficients are reduced against the rows until the pivot candidate
   * has no row, which gives the pivot and the row to store there, or the
   * vector reduces to zero, or numpp passes have gone by, which give -1.
   * A packet that is an equation of X gives a row that is one.
   */
  method ReduceForward(row: Rows, message: seq<seq<bv8>>, co: seq<bv8>, first: int, syms: seq<bv8>,
                       ghost X: seq<seq<bv8>>)
    returns (pivot: int, elem: seq<bv8>, msg: seq<bv8>)
    requires Circular(row, |co|) && |message| == |row| && 1 <= |co| <= |row| && 0 <= first < |row|
    requires forall i :: 0 <= i < |row| ==> |message[i]| == |syms|
    ensures -1 <= pivot < |row| && |msg| == |syms|
    ensures (forall t :: 0 <= t < |co| ==> co[t] == 0) ==> pivot == -1
    ensures pivot >= 0 ==> row[pivot].None? && 1 <= |elem| <= |co| && elem[0] != 0
    ensures pivot >= 0 && CyclicHold(row, message, X) && Holds(Cyclic(first, co, |row|), syms, X) ==>
      Holds(Cyclic(pivot, elem, |row|), msg, X)
  {
    var n, g := |row|, |co|;
    var start := Start(co, first, n, syms);
    if start.None? {
      return -1, [], syms;
    }
    ghost var ok := CyclicHold(row, message, X) && Holds(Cyclic(first, co, n), syms, X);
    if ok {
      StartHolds(co, first, n, syms);
    }
    var r := start.value;
    var steps := 0;
    while row[r.pivot].Some? && steps < n
      invariant Reducing(r, n, g) && |r.msg| == |syms| && 0 <= steps <= n
      invariant ok ==> Holds(Cyclic(r.pivot, r.cur, n), r.msg, X)
      decreases n - steps
    {
      if ok {
        StepHolds(row, message, r, g, X);
      }
      var o := Step(row, message, r, g);
      if o.Dropped? {
        return -1, [], r.msg;
      }
      r := o.next;
      steps := steps + 1;
    }
    if row[r.pivot].Some? {
      return -1, [], r.msg;
    }
    pivot, elem, msg := r.pivot, r.cur[..r.rowlen], r.msg;
    CyclicTrim(r.pivot, r.cur, r.rowlen, n);
  }

  /** Storing a row that is an equation of X keeps every stored row one. */
  lemma CyclicHoldSet(row: Rows, message: seq<seq<bv8>>, p: int, e: seq<bv8>, m: seq<bv8>, X: seq<seq<bv8>>)
    requires CyclicHold(row, message, X) && 0 <= p < |row| && |e| <= |row| && Holds(Cyclic(p, e, |row|), m, X)
    ensures CyclicHold(row[p := Some(e)], message[p := m], X)
  {
  }

  // ---------------------------------------------------------------------
  // The move to FinalForward
  // ---------------------------------------------------------------------

  /** Writing entry j of a row at its column extends the full-length vector by that entry. */
  lemma CyclicExtend(p: int, e: seq<bv8>, j: int, n: int)
    requires 0 <= p < n && 0 <= j < |e| <= n
    ensures 0 <= (p + j) % n < n
    ensures Cyclic(p, e[..j + 1], n) == Cyclic(p, e[..j], n)[(p + j) % n := e[j]]
  {
    AdvanceIsMod(p, j, n);
    var c := Advance(p, j, n);
    var longer, shorter := Cyclic(p, e[..j + 1], n), Cyclic(p, e[..j], n)[c := e[j]];
    forall k | 0 <= k < n
      ensures longer[k] == shorter[k]
    {
      if k == c {
        assert Offset(k, p, n) == j;
      } else {
        assert Offset(k, p, n) != j;
      }
    }
  }

  /** The loop that writes row p's entries into a zeroed full-length vector, wrapping at numpp. */
  method UnwrapRow(p: int, e: seq<bv8>, n: int) returns (v: seq<bv8>)
    requires 0 <= p < n && |e| <= n
    ensures v == Cyclic(p, e, n)
  {
    v := Zeros(n);
    assert v == Cyclic(p, e[..0], n);
    var j := 0;
    while j < |e|
      invariant 0 <= j <= |e| && v == Cyclic(p, e[..j], n)
    {
      CyclicExtend(p, e, j, n);
      v := v[(p + j) % n := e[j]];
      j := j + 1;
    }
    assert e[..|e|] == e;
  }

  /** The rows with those in [lo, hi) removed. */
  function Removed(row0: Rows, lo: int, hi: int): Rows
  {
    seq(|row0|, k requires 0 <= k < |row0| => if lo <= k < hi then None else row0[k])
  }

  /** The messages with those in [lo, hi) set to zero. */
  function Zeroed(message0: seq<seq<bv8>>, lo: int, hi: int, sizeP: nat): seq<seq<bv8>>
  {
    seq(|message0|, k requires 0 <= k < |message0| => if lo <= k < hi then Zeros(sizeP) else message0[k])
  }

  /** Row p written out at full length, wrapping at numpp; nothing for a row that is not stored. */
  function Unwrapped(row0: Rows, p: int): seq<bv8>
  {
    if 0 <= p < |row0| && row0[p].Some? && |row0[p].value| <= |row0| then Cyclic(p, row0[p].value, |row0|) else []
  }

  /** Removing one more row extends the range by one. */
  lemma RemoveNext(row0: Rows, lo: int, hi: int)
    requires 0 <= lo <= hi < |row0|
    ensures Removed(row0, lo, hi)[hi := None] == Removed(row0, lo, hi + 1)
  {
    var r0, r1 := Removed(row0, lo, hi)[hi := None], Removed(row0, lo, hi + 1);
    forall k | 0 <= k < |row0|
      ensures r0[k] == r1[k]
    {
    }
  }

  /** Zeroing one more message extends the range by one. */
  lemma ZeroNext(message0: seq<seq<bv8>>, lo: int, hi: int, sizeP: nat)
    requires 0 <= lo <= hi < |message0|
    ensures Zeroed(message0, lo, hi, sizeP)[hi := Zeros(sizeP)] == Zeroed(message0, lo, hi + 1, sizeP)
  {
    var m0, m1 := Zeroed(message0, lo, hi, sizeP)[hi := Zeros(sizeP)], Zeroed(message0, lo, hi + 1, sizeP);
    forall k | 0 <= k < |message0|
      ensures m0[k] == m1[k]
    {
    }
  }

  /** Removing hi - lo rows of a full matrix leaves the others stored. */
  lemma {:induction false} StoredRemoved(row0: Rows, lo: int, hi: int)
    requires Full(row0) && 0 <= lo <= hi <= |row0|
    ensures Stored(Removed(row0, lo, hi)) == |row0| - (hi - lo)
    decreases hi - lo
  {
    if hi == lo {
      assert Removed(row0, lo, hi) == row0;
      StoredFull(row0);
    } else {
      StoredRemoved(row0, lo, hi - 1);
      RemoveNext(row0, lo, hi - 1);
      StoredSet(Removed(row0, lo, hi - 1), hi - 1, None);
    }
  }

  /** Rows above the bottom size_g do not wrap: they are compact rows, and equations of X as such. */
  lemma UnwrappedMatrix(row0: Rows, message0: seq<seq<bv8>>, g: int, sizeP: nat, X: seq<seq<bv8>>)
    requires Circular(row0, g) && 1 <= g <= |row0| && |message0| == |row0|
    requires forall k :: 0 <= k < |row0| ==> |message0[k]| == sizeP
    ensures Matrix(|row0|, g, sizeP, Removed(row0, |row0| - g, |row0|), Zeroed(message0, |row0| - g, |row0|, sizeP), false)
    ensures CyclicHold(row0, message0, X) ==>
      RowsHold(Removed(row0, |row0| - g, |row0|), Zeroed(message0, |row0| - g, |row0|, sizeP), X)
  {
    var n := |row0|;
    var row, message := Removed(row0, n - g, n), Zeroed(message0, n - g, n, sizeP);
    forall i | 0 <= i < n
      ensures |message[i]| == sizeP && (row[i].Some? ==> 1 <= |row[i].value| <= n - i && row[i].value[0] != 0)
    {
      assert row[i] == (if n - g <= i then None else row0[i]);
      assert message[i] == (if n - g <= i then Zeros(sizeP) else message0[i]);
    }
    if CyclicHold(row0, message0, X) {
      forall i | 0 <= i < n && row[i].Some?
        ensures Holds(Expand(i, row[i].value, n), message[i], X)
      {
        assert row[i] == row0[i] && message[i] == message0[i];
        CyclicFlat(i, row0[i].value, n);
      }
      assert RowsHold(row, message, X);
    }
  }

  /** A vector unwrapped from a row that is an equation of X is one, with the row's message. */
  lemma UnwrappedHold(row0: Rows, message0: seq<seq<bv8>>, g: int, ces: seq<seq<bv8>>, msgs: seq<seq<bv8>>,
                      X: seq<seq<bv8>>)
    requires Circular(row0, g) && Full(row0) && 1 <= g <= |row0| && |message0| == |row0| && |ces| == g && |msgs| == g
    requires forall i :: 0 <= i < g ==> ces[i] == Unwrapped(row0, |row0| - g + i)
    requires msgs == message0[|row0| - g..]
    ensures CyclicHold(row0, message0, X) ==> forall i :: 0 <= i < g ==> Holds(ces[i], msgs[i], X)
  {
    var n := |row0|;
    if CyclicHold(row0, message0, X) {
      forall i | 0 <= i < g
        ensures Holds(ces[i], msgs[i], X)
      {
        assert row0[n - g + i].Some? && msgs[i] == message0[n - g + i];
      }
    }
  }

  /**
   * The first loop of the move to FinalForward: each of the bottom size_g
   * rows is written out at full length, wrapping at numpp, its message
   * copied, and the row removed with its message zeroed.  The rows above
   * stay.
   */
  method Unwrap(row0: Rows, message0: seq<seq<bv8>>, g: int, sizeP: nat)
    returns (row: Rows, message: seq<seq<bv8>>, ces: seq<seq<bv8>>, msgs: seq<seq<bv8>>)
    requires Circular(row0, g) && Full(row0) && 1 <= g <= |row0| && |message0| == |row0|
    ensures row == Removed(row0, |row0| - g, |row0|) && message == Zeroed(message0, |row0| - g, |row0|, sizeP)
    ensures |ces| == g && msgs == message0[|row0| - g..]
    ensures forall i :: 0 <= i < g ==> ces[i] == Unwrapped(row0, |row0| - g + i)
  {
    var n := |row0|;
    row, message, ces, msgs := row0, message0, [], [];
    assert row == Removed(row0, n - g, n - g) && message == Zeroed(message0, n - g, n - g, sizeP);
    var i := 0;
    while i < g
      invariant 0 <= i <= g && |ces| == i
      invariant row == Removed(row0, n - g, n - g + i) && message == Zeroed(message0, n - g, n - g + i, sizeP)
      invariant msgs == message0[n - g..n - g + i]
      invariant forall k :: 0 <= k < i ==> ces[k] == Unwrapped(row0, n - g + k)
    {
      var p := n - g + i;
      var v := UnwrapRow(p, row0[p].value, n);
      ces := ces + [v];
      assert message0[n - g..p + 1] == msgs + [message0[p]];
      msgs := msgs + [message0[p]];
      RemoveNext(row0, n - g, p);
      ZeroNext(message0, n - g, p, sizeP);
      row := row[p := None];
      message := message[p := Zeros(sizeP)];
      i := i + 1;
    }
  }

  /**
   * The second loop of the move to FinalForward: each unwrapped vector
   * is processed at full length against the rows, as in FinalForward,
   * and stored where it finds an empty pivot; added counts the vectors
   * stored.  Stored rows stay, and every row stays an equation of X when
   * the rows and the vectors were.
   */
  method Reinsert(row0: Rows, message0: seq<seq<bv8>>, ces: seq<seq<bv8>>, msgs: seq<seq<bv8>>, g: int, sizeP: int,
                  ghost X: seq<seq<bv8>>)
    returns (row: Rows, message: seq<seq<bv8>>, added: nat)
    requires Matrix(|row0|, g, sizeP, row0, message0, false) && g >= 1 && |ces| == |msgs|
    requires forall i :: 0 <= i < |ces| ==> |ces[i]| == |row0| && |msgs[i]| == sizeP
    ensures Matrix(|row0|, g, sizeP, row, message, false) && Stored(row) == Stored(row0) + added
    ensures forall i :: 0 <= i < |row| && row0[i].Some? ==> row[i] == row0[i]
    ensures RowsHold(row0, message0, X) && (forall i :: 0 <= i < |ces| ==> Holds(ces[i], msgs[i], X)) ==>
      RowsHold(row, message, X)
  {
    row, message, added := row0, message0, 0;
    ghost var ok := RowsHold(row0, message0, X) && forall i :: 0 <= i < |ces| ==> Holds(ces[i], msgs[i], X);
    var n := |row|;
    var i := 0;
    while i < |ces|
      invariant 0 <= i <= |ces| && Matrix(n, g, sizeP, row, message, false) && Stored(row) == Stored(row0) + added
      invariant forall k :: 0 <= k < n && row0[k].Some? ==> row[k] == row0[k]
      invariant ok ==> RowsHold(row, message, X)
    {
      var pivot;
      pivot, row, message := StoreVector(row, message, ces[i], msgs[i], g, sizeP, true, X, 0);
      if pivot >= 0 {
        added := added + 1;
      }
      i := i + 1;
    }
  }

  /**
   * The move to FinalForward on the matrix, once every row is stored:
   * unwrap and remove the bottom size_g rows, count numpp - size_g pivots,
   * and process the unwrapped vectors at full length against the rows
   * above.  The result is a triangular matrix that keeps the rows above,
   * with at least numpp - size_g pivots; when the wrapping rows were
   * equations of X, every row is.
   */
  method MoveToFinal(row0: Rows, message0: seq<seq<bv8>>, g: int, sizeP: nat, ghost X: seq<seq<bv8>>)
    returns (row: Rows, message: seq<seq<bv8>>, pivots: int)
    requires Circular(row0, g) && Full(row0) && 1 <= g <= |row0| && |message0| == |row0|
    requires forall i :: 0 <= i < |row0| ==> |message0[i]| == sizeP
    ensures Matrix(|row0|, g, sizeP, row, message, false) && pivots == Stored(row) && pivots >= |row0| - g
    ensures forall i :: 0 <= i < |row0| - g ==> row[i] == row0[i]
    ensures CyclicHold(row0, message0, X) ==> RowsHold(row, message, X)
  {
    var n := |row0|;
    var r1, m1, ces, msgs := Unwrap(row0, message0, g, sizeP);
    UnwrappedMatrix(row0, message0, g, sizeP, X);
    UnwrappedHold(row0, message0, g, ces, msgs, X);
    StoredRemoved(row0, n - g, n);
    pivots := n - g;
    var added;
    row, message, added := Reinsert(r1, m1, ces, msgs, g, sizeP, X);
    pivots := pivots + added;
  }

  // ---------------------------------------------------------------------
  // Packets of a window-wrap code
  // ---------------------------------------------------------------------

  /**
   * A packet of a window-wrap code stands for the wrapping row that starts
   * at its subgeneration's first packet; for a packet coded from X that row
   * is an equation of X with the packet's payload.
   */
  lemma PacketRow(m: Meta, pkt: Packet, X: seq<seq<bv8>>)
    requires Accepted(m) && m.typ == WindWrapSnc && 0 <= pkt.gid < m.gnum && |pkt.coes| == CoesLength(m)
    ensures 1 <= m.sizeG <= m.snum + m.cnum && |Groups(m)[pkt.gid].pktid| == m.sizeG
    ensures 0 <= Groups(m)[pkt.gid].pktid[0] < m.snum + m.cnum
    ensures DecoderCbd.Encoded(m, X, pkt) && |X| == m.snum + m.cnum && Linear.Rect(X, m.sizeP) ==>
      Holds(Cyclic(Groups(m)[pkt.gid].pktid[0], Coefficients(m, pkt.coes), m.snum + m.cnum), pkt.syms, X)
  {
    AcceptedSizes(m);
    var n := m.snum + m.cnum;
    var co := Coefficients(m, pkt.coes);
    assert Groups(m)[pkt.gid].pktid == WindWrapGeneration(pkt.gid, m.sizeB, m.sizeG, n);
    WindWrapVector(co, pkt.gid, m.sizeB, n);
    DecoderCbd.PacketVector(m, pkt, X);
  }

  /**
   * The Forward branch of process_packet_PP on the matrix: the packet's
   * coefficients, placed from its subgeneration's first packet, are
   * reduced against the wrapping rows and stored at their pivot, or -1
   * is reported and nothing changes.  Stored rows stay, and a packet
   * coded from X keeps every row an equation of X.
   */
  method StoreForward(m: Meta, gene: seq<Generation>, pkt: Packet, row0: Rows, message0: seq<seq<bv8>>,
                      ghost X: seq<seq<bv8>>)
    returns (pivot: int, row: Rows, message: seq<seq<bv8>>)
    requires Accepted(m) && m.typ == WindWrapSnc && gene == Groups(m)
    requires 0 <= pkt.gid < m.gnum && |pkt.coes| == CoesLength(m) && |pkt.syms| == m.sizeP
    requires Circular(row0, m.sizeG) && |row0| == m.snum + m.cnum && |message0| == |row0|
    requires forall i :: 0 <= i < |row0| ==> |message0[i]| == m.sizeP
    ensures Circular(row, m.sizeG) && |row| == |row0| && |message| == |row| && -1 <= pivot < |row|
    ensures forall i :: 0 <= i < |row| ==> |message[i]| == m.sizeP
    ensures Stored(row) == Stored(row0) + (if pivot >= 0 then 1 else 0)
    ensures pivot == -1 ==> row == row0 && message == message0
    ensures pivot >= 0 ==> row0[pivot].None? && row == row0[pivot := row[pivot]] && message == message0[pivot := message[pivot]]
    ensures CyclicHold(row0, message0, X) && DecoderCbd.Encoded(m, X, pkt) && |X| == |row0| && Linear.Rect(X, m.sizeP) ==>
      CyclicHold(row, message, X)
  {
    PacketRow(m, pkt, X);
    var co := Coefficients(m, pkt.coes);
    var first := gene[pkt.gid].pktid[0];
    row, message := row0, message0;
    var elem, msg;
    pivot, elem, msg := ReduceForward(row, message, co, first, pkt.syms, X);
    if pivot >= 0 {
      if CyclicHold(row, message, X) && Holds(Cyclic(first, co, |row|), pkt.syms, X) {
        CyclicHoldSet(row, message, pivot, elem, msg, X);
      }
      StoredSet(row, pivot, Some(elem));
      row := row[pivot := Some(elem)];
      message := message[pivot := msg];
    }
  }

  /**
   * The FinalForward branch of process_packet_PP on the matrix: the
   * packet's full-length vector is processed against the rows and stored
   * at its pivot, numpp - pivot entries long, or -1 is reported and
   * nothing changes.  Stored rows stay, and a packet coded from X keeps
   * every row an equation of X.
   */
  method StoreFinal(m: Meta, gene: seq<Generation>, pkt: Packet, row0: Rows, message0: seq<seq<bv8>>,
                    ghost X: seq<seq<bv8>>)
    returns (pivot: int, row: Rows, message: seq<seq<bv8>>)
    requires Accepted(m) && m.typ == WindWrapSnc && gene == Groups(m)
    requires 0 <= pkt.gid < m.gnum && |pkt.coes| == CoesLength(m) && |pkt.syms| == m.sizeP
    requires Matrix(m.snum + m.cnum, m.sizeG, m.sizeP, row0, message0, false)
    ensures Matrix(|row0|, m.sizeG, m.sizeP, row, message, false) && -1 <= pivot < |row|
    ensures Stored(row) == Stored(row0) + (if pivot >= 0 then 1 else 0)
    ensures pivot == -1 ==> row == row0 && message == message0
    ensures pivot >= 0 ==> row0[pivot].None? && row == row0[pivot := row[pivot]] && message == message0[pivot := message[pivot]]
    ensures RowsHold(row0, message0, X) && DecoderCbd.Encoded(m, X, pkt) && |X| == |row0| && Linear.Rect(X, m.sizeP) ==>
      RowsHold(row, message, X)
    ensures |gene[pkt.gid].pktid| == m.sizeG && InPackets(gene[pkt.gid].pktid, |row0|)
    ensures var ces := Assigned(Coefficients(m, pkt.coes), gene[pkt.gid].pktid, |row0|, m.sizeG);
      pivot == ReduceFrom(row0, ces, 0).0 && (pivot == -1 <==> InSpan(row0, ces)) &&
      (pivot >= 0 ==> RowVector(row, pivot) == ReduceFrom(row0, ces, 0).1)
  {
    AcceptedSizes(m);
    var ces := DecoderCbd.FullVector(m, gene, pkt, X);
    pivot, row, message := StoreVector(row0, message0, ces, pkt.syms, m.sizeG, m.sizeP, true, X, 0);
  }

  // ---------------------------------------------------------------------
  // The decoder
  // ---------------------------------------------------------------------

  /** The stages of the decoder, in the order they are passed. */
  datatype Stage = Forward | FinalForward | FinalBackward

  /** Stages only move forward. */
  function StageRank(s: Stage): (k: nat)
    ensures k <= 2
  {
    match s
    case Forward => 0
    case FinalForward => 1
    case FinalBackward => 2
  }

  class PpDecoder {
    const meta: Meta
    /** The subgenerations of the code (the context's gene). */
    const gene: seq<Generation>
    var stage: Stage
    /** The number of stored rows. */
    var pivots: int
    var finished: bool
    var row: Rows
    var message: seq<seq<bv8>>
    /** The decoded packets (sc->pp), empty until decoding finishes. */
    var pp: seq<seq<bv8>>
    /** The number of packets processed. */
    var overhead: int

    /** The code being decoded: an accepted window-wrap code without precode, and its subgenerations. */
    ghost predicate Code()
    {
      Accepted(meta) && meta.typ == WindWrapSnc && meta.cnum == 0 && gene == Groups(meta)
    }

    /**
     * The structure kept between and inside the steps of decoding: numpp
     * rows and messages of size_p bytes, rows that wrap in Forward and a
     * triangular matrix afterwards, pivots counting the stored rows.
     */
    ghost predicate Shape()
      reads this
    {
      Code() && |row| == meta.snum && |message| == |row| && |pp| == |row| &&
      (forall i :: 0 <= i < |message| ==> |message[i]| == meta.sizeP) &&
      pivots == Stored(row) && overhead >= 0 &&
      (stage == Forward ==> Circular(row, meta.sizeG)) &&
      (stage != Forward ==> Matrix(|row|, meta.sizeG, meta.sizeP, row, message, false)) &&
      (finished <==> stage == FinalBackward)
    }

    /** Between packets: decoding has finished exactly when every row is stored. */
    ghost predicate Valid()
      reads this
    {
      Shape() && (finished <==> pivots == |row|)
    }

    /** X could be the encoder's packets: snum packets of size_p bytes. */
    ghost predicate Sources(X: seq<seq<bv8>>)
    {
      |X| == meta.snum && meta.sizeP >= 0 && Linear.Rect(X, meta.sizeP)
    }

    /** Every stored row is an equation of X, wrapping while in Forward, and a finished decoder holds X. */
    ghost predicate Consistent(X: seq<seq<bv8>>)
      reads this
    {
      (stage == Forward ==> CyclicHold(row, message, X)) &&
      (stage != Forward ==> RowsHold(row, message, X)) &&
      (finished ==> pp == X)
    }

    constructor (m: Meta, g: seq<Generation>, n: nat)
      requires m.sizeP >= 0
      ensures meta == m && gene == g && stage == Forward && pivots == 0 && !finished && overhead == 0
      ensures row == seq(n, _ => None) && message == seq(n, _ => Zeros(m.sizeP)) && pp == seq(n, _ => [])
    {
      meta, gene := m, g;
      stage, pivots, finished, overhead := Forward, 0, false, 0;
      row := seq(n, _ => None);
      message := seq(n, _ => Zeros(m.sizeP));
      pp := seq(n, _ => []);
    }

    /**
     * create_dec_context_PP: nothing for a code that is not window-wrap or
     * has checks (the source exits the program there) or whose parameters
     * are rejected; otherwise the Forward stage with no rows and zero
     * messages, consistent with every X.
     */
    static method Create(sp: Parameter, cnum: int) returns (d: PpDecoder?)
      requires sp.sizeP > 0 && sp.sizeB > 0 && sp.datasize >= 0 && cnum >= 0
      ensures d == null <==> sp.typ != WindWrapSnc || cnum != 0 || !ParameterValid(Sizing(sp, cnum))
      ensures d != null ==> fresh(d) && d.Valid() && d.meta == Sizing(sp, 0)
      ensures d != null ==> d.stage == Forward && d.pivots == 0 && !d.finished && d.overhead == 0
      ensures d != null ==> d.row == seq(|d.row|, _ => None) && d.message == seq(|d.row|, _ => Zeros(sp.sizeP))
      ensures d != null ==> forall X :: d.Consistent(X)
    {
      if sp.typ != WindWrapSnc || cnum != 0 {
        return null;
      }
      var sc := EncContext.Create(sp, 0, None);
      if sc == null {
        return null;
      }
      var m := sc.meta;
      AcceptedSizes(m);
      d := new PpDecoder(m, sc.gene, m.snum);
      StoredNone(m.snum);
    }

    /**
     * The Forward branch of process_packet_PP: reduce the packet against
     * the wrapping rows and store it at the first empty pivot, one more
     * pivot; a useless packet changes nothing.
     */
    method ForwardPacket(pkt: Packet, ghost X: seq<seq<bv8>>)
      requires Shape() && stage == Forward
      requires 0 <= pkt.gid < meta.gnum && |pkt.coes| == CoesLength(meta) && |pkt.syms| == meta.sizeP
      modifies this`row, this`message, this`pivots
      ensures Shape() && |row| == |old(row)| && old(pivots) <= pivots
      ensures forall i :: 0 <= i < |row| && old(row)[i].Some? ==> row[i] == old(row)[i]
      ensures Sources(X) && old(CyclicHold(row, message, X)) && DecoderCbd.Encoded(meta, X, pkt) ==>
        CyclicHold(row, message, X)
    {
      var pivot, r, msgs := StoreForward(meta, gene, pkt, row, message, X);
      row, message := r, msgs;
      if pivot >= 0 {
        pivots := pivots + 1;
      }
    }

    /**
     * The move to FinalForward once every row is stored: unwrap and remove
     * the bottom size_g rows, reset pivots to numpp - size_g, and process
     * the unwrapped vectors at full length against the rows above.
     */
    method StartFinalForward(ghost X: seq<seq<bv8>>)
      requires Shape() && stage == Forward && pivots == |row|
      modifies this`stage, this`pivots, this`row, this`message
      ensures Shape() && stage == FinalForward && |row| == |old(row)| && pivots >= |row| - meta.sizeG
      ensures forall i :: 0 <= i < |row| - meta.sizeG ==> row[i] == old(row)[i]
      ensures old(CyclicHold(row, message, X)) ==> RowsHold(row, message, X)
    {
      AcceptedSizes(meta);
      StoredFull(row);
      stage := FinalForward;
      row, message, pivots := MoveToFinal(row, message, meta.sizeG, meta.sizeP, X);
    }

    /**
     * The FinalForward branch of process_packet_PP: the packet's
     * full-length vector processed against the rows and stored at the
     * first empty pivot, one more pivot.
     */
    method FinalForwardPacket(pkt: Packet, ghost X: seq<seq<bv8>>)
      requires Shape() && stage == FinalForward
      requires 0 <= pkt.gid < meta.gnum && |pkt.coes| == CoesLength(meta) && |pkt.syms| == meta.sizeP
      modifies this`row, this`message, this`pivots
      ensures Shape() && |row| == |old(row)| && old(pivots) <= pivots
      ensures forall i :: 0 <= i < |row| && old(row)[i].Some? ==> row[i] == old(row)[i]
      ensures Sources(X) && old(RowsHold(row, message, X)) && DecoderCbd.Encoded(meta, X, pkt) ==>
        RowsHold(row, message, X)
      ensures |gene[pkt.gid].pktid| == meta.sizeG && InPackets(gene[pkt.gid].pktid, |row|)
      ensures var ces := Assigned(Coefficients(meta, pkt.coes), gene[pkt.gid].pktid, |row|, meta.sizeG);
        var (p, v) := ReduceFrom(old(row), ces, 0);
        pivots == old(pivots) + (if p >= 0 then 1 else 0) && (p == -1 <==> InSpan(old(row), ces)) &&
        (p == -1 ==> row == old(row) && message == old(message)) &&
        (p >= 0 ==> row == old(row)[p := row[p]] && RowVector(row, p) == v)
    {
      ghost var row0 := row;
      var pivot, r, msgs := StoreFinal(meta, gene, pkt, row, message, X);
      ghost var ces := Assigned(Coefficients(meta, pkt.coes), gene[pkt.gid].pktid, |row0|, meta.sizeG);
      assert pivot == ReduceFrom(row0, ces, 0).0;
      row, message := r, msgs;
      if pivot >= 0 {
        pivots := pivots + 1;
      }
    }

    /** finish_recovering_PP: diagonalise, copy out every packet, and mark decoding finished. */
    method FinishRecovering(ghost X: seq<seq<bv8>>)
      requires Shape() && stage != Forward && pivots == |row|
      modifies this`row, this`message, this`pp, this`stage, this`finished
      ensures Shape() && stage == FinalBackward && finished && |row| == |old(row)| && pp == message
      ensures Full(row) && forall i :: 0 <= i < |row| ==> UnitRow(row[i].value)
      ensures |X| == |row| && RowsHold(old(row), old(message), X) ==> RowsHold(row, message, X) && pp == X
    {
      AcceptedSizes(meta);
      var r, msgs, out := Finish(row, message, pp, meta.sizeG, meta.sizeP, false, X);
      row, message, pp := r, msgs, out;
      stage := FinalBackward;
      finished := true;
    }

    /**
     * process_packet_PP: count the packet and process it by stage; once
     * every row is stored in Forward move to FinalForward, and once every
     * row is stored after that finish (again, for a packet that arrives
     * after decoding finished).  Stages only advance, and a packet coded
     * from the encoder's packets X keeps the decoder consistent with X,
     * so a finished decoder holds X.
     */
    method ProcessPacket(pkt: Packet, ghost X: seq<seq<bv8>>)
      requires Valid()
      requires 0 <= pkt.gid < meta.gnum && |pkt.coes| == CoesLength(meta) && |pkt.syms| == meta.sizeP
      modifies this
      ensures Valid() && |row| == |old(row)| && overhead == old(overhead) + 1
      ensures StageRank(old(stage)) <= StageRank(stage) && (old(finished) ==> finished)
      ensures old(stage) == stage ==> forall i :: 0 <= i < |row| && old(row)[i].Some? ==> row[i].Some?
      ensures Sources(X) && old(Consistent(X)) && DecoderCbd.Encoded(meta, X, pkt) ==> Consistent(X)
    {
      overhead := overhead + 1;
      var n := |row|;
      if stage == Forward {
        ForwardPacket(pkt, X);
        if pivots == n {
          StartFinalForward(X);
        }
        if pivots == n {
          FinishRecovering(X);
        }
      } else if stage == FinalForward {
        FinalForwardPacket(pkt, X);
        if pivots == n {
          FinishRecovering(X);
        }
      } else {
        FinishRecovering(X);
      }
    }
  }

  // ---------------------------------------------------------------------
  // The reduction loop as written does not always end
  // ---------------------------------------------------------------------

  /**
   * Rows of a window-wrap code with numpp 4 and size_g 3 (size_b 1):
   * packets of subgenerations 0, 1 and 3 with coefficients 1 0 0, 1 0 1
   * and 1 0 1 were stored at 0, 1 and 3; row 2 is missing.
   */
  function LoopRows(): Rows
  {
    [Some([1, 0, 0]), Some([1, 0, 1]), None, Some([1, 0, 1])]
  }

  /** Their payloads for source packets X0 = 1, X1 = 0 and X3 = 1. */
  function LoopMessages(): seq<seq<bv8>>
  {
    [[1], [1], [0], [1]]
  }

  /** Every row of the example is a wrapping row of at most size_g entries. */
  lemma LoopRowsCircular()
    ensures Circular(LoopRows(), 3) && |LoopMessages()| == 4
  {
    var rows := LoopRows();
    forall i | 0 <= i < 4 && rows[i].Some?
      ensures 1 <= |rows[i].value| <= 3 && rows[i].value[0] != 0
    {
      assert i == 0 || i == 1 || i == 3;
    }
  }

  /** The field facts the example needs. */
  lemma LoopField()
    ensures Div(1, 1) == 1 && Mul(0, 1) == 0 && Mul(1, 1) == 1
  {
  }

  /** Taking the row 1 0 1 from 1 0 0 leaves 0 0 1. */
  lemma LoopClear()
    ensures var t := AddScaledAt([1, 0, 0], 0, [1, 0, 1], 1); |t| == 3 && t[0] == 0 && t[1] == 0 && t[2] == 1
  {
    LoopField();
    var t := AddScaledAt([1, 0, 0], 0, [1, 0, 1], 1);
    assert t[0] == Add(1, Mul(1, 1));
    assert t[1] == Add(0, Mul(0, 1));
    assert t[2] == Add(0, Mul(1, 1));
  }

  /** 0 0 1 at pivot p moves on two columns as 1 0 0 with one entry. */
  lemma LoopShift(p: int, next: int, t: seq<bv8>, msg: seq<bv8>)
    requires (p == 1 && next == 3) || (p == 3 && next == 1)
    requires |t| == 3 && t[0] == 0 && t[1] == 0 && t[2] == 1
    ensures Shifted(p, t, 3, msg, 4) == Continue(Reduction(next, [1, 0, 0], 1, msg))
  {
    var c0 := t[1..3] + Zeros(1);
    assert c0[0] == 0 && c0[1] == 1 && c0[2] == 0;
    assert FirstNonzero(c0, 3, 0) == 1;
    assert c0[1..2] + Zeros(2) == [1, 0, 0];
  }

  /** The vector 1 0 0 at pivot 1 or 3 is a reduction state of the example. */
  lemma LoopReducing(r: Reduction)
    requires (r.pivot == 1 || r.pivot == 3) && r.cur == [1, 0, 0] && 1 <= r.rowlen <= 3
    ensures Reducing(r, 4, 3)
  {
  }

  /** At pivots 1 and 3 the vector 1 0 0 meets the row 1 0 1 and comes out two columns on. */
  lemma LoopStep(r: Reduction, next: int)
    requires Circular(LoopRows(), 3) && |LoopMessages()| == 4 && Reducing(r, 4, 3)
    requires (r.pivot == 1 && next == 3) || (r.pivot == 3 && next == 1)
    requires r.cur == [1, 0, 0] && |r.msg| == 1
    ensures Step(LoopRows(), LoopMessages(), r, 3) == Continue(Reduction(next, [1, 0, 0], 1, AddScaled(r.msg, [1], 1)))
  {
    LoopField();
    LoopClear();
    assert LoopRows()[r.pivot] == Some([1, 0, 1]) && LoopMessages()[r.pivot] == [1];
    var t := AddScaledAt([1, 0, 0], 0, [1, 0, 1], Div(1, 1));
    var msg := AddScaled(r.msg, [1], 1);
    assert Step(LoopRows(), LoopMessages(), r, 3) == Shifted(r.pivot, t, 3, msg, 4);
    LoopShift(r.pivot, next, t, msg);
  }

  /** The stored rows are what Start gives for their packets, and so is the start of the new packet. */
  lemma LoopStarts()
    ensures Start([1, 0, 0], 0, 4, [1]) == Some(Reduction(0, [1, 0, 0], 3, [1]))
    ensures Start([1, 0, 1], 1, 4, [1]) == Some(Reduction(1, [1, 0, 1], 3, [1]))
    ensures Start([1, 0, 1], 3, 4, [1]) == Some(Reduction(3, [1, 0, 1], 3, [1]))
    ensures Start([1, 0, 0], 1, 4, [0]) == Some(Reduction(1, [1, 0, 0], 3, [0]))
  {
    var e1: seq<bv8> := [1, 0, 0];
    var e2: seq<bv8> := [1, 0, 1];
    assert e1[0..] + Zeros(0) == e1;
    assert e2[0..] + Zeros(0) == e2;
    assert FirstNonzero(e1, 3, 0) == 0 && FirstNonzero(e2, 3, 0) == 0;
  }

  /** Adding the payload 1 of the rows flips a payload between 0 and 1. */
  lemma LoopPayloads()
    ensures AddScaled([0], [1], 1) == [1] && AddScaled([1], [1], 1) == [0]
  {
    LoopField();
  }

  /**
   * With the rows above (see LoopStarts), a packet of subgeneration 1
   * with coefficients 1 0 0 (payload X1 = 0) starts at s, steps to a, and
   * then moves between a and b for ever: pivots 3 and 1 both hold rows and
   * the vector is never zero, so the while loop of process_packet_PP
   * never ends.
   */
  lemma ForwardCycles(s: Reduction, a: Reduction, b: Reduction)
    requires s == Reduction(1, [1, 0, 0], 3, [0])
    requires a == Reduction(3, [1, 0, 0], 1, [1]) && b == Reduction(1, [1, 0, 0], 1, [0])
    ensures Circular(LoopRows(), 3) && |LoopMessages()| == 4
    ensures LoopRows()[a.pivot].Some? && LoopRows()[b.pivot].Some?
    ensures Start([1, 0, 0], 1, 4, [0]) == Some(s)
    ensures Step(LoopRows(), LoopMessages(), s, 3) == Continue(a)
    ensures Step(LoopRows(), LoopMessages(), a, 3) == Continue(b)
    ensures Step(LoopRows(), LoopMessages(), b, 3) == Continue(a)
  {
    LoopStarts();
    LoopPayloads();
    LoopRowsCircular();
    LoopReducing(s);
    LoopReducing(a);
    LoopReducing(b);
    LoopStep(s, 3);
    LoopStep(a, 1);
    LoopStep(b, 3);
  }
}
