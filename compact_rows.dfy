/**
 * The decoding matrix of the compact band decoders (src/decoderCBD.c,
 * src/gncCBDDecoder.c), on values.
 *
 * The matrix is kept upper triangular as vectors arrive: row i, when
 * present, is a compact row whose entries stand for columns i, i + 1, ..,
 * i + len - 1, with a nonzero first entry.  A full-length vector is
 * reduced left to right against the stored rows and stored at the first
 * nonzero position that has no row.  Once every row is present the
 * matrix is made diagonal and the packets are read off.
 *
 * Correctness is stated relative to packets X: RowsHold says every
 * stored row, placed at full length, is an equation of X with its message
 * as payload; each operation keeps it, and a diagonal complete matrix
 * whose rows are equations of X holds X in its messages.
 */
module CompactRows {
  import opened Wrappers
  import opened GaloisArith
  import opened GaloisPrimitive
  import opened Packets
  import opened Grouping
  import opened Decoding
  import opened SncEncoder
  import Linear

  /** row[i]: the compact row whose first entry sits on the diagonal at column i, if one was stored. */
  type Rows = seq<Option<seq<bv8>>>

  /** Every stored row fits in the matrix from its diagonal on and has a nonzero diagonal entry. */
  predicate Triangular(row: Rows)
  {
    forall i :: 0 <= i < |row| && row[i].Some? ==> 1 <= |row[i].value| <= |row| - i && row[i].value[0] != 0
  }

  /** No stored row is longer than w. */
  predicate Narrow(row: Rows, w: int)
  {
    forall i :: 0 <= i < |row| && row[i].Some? ==> |row[i].value| <= w
  }

  /** Every row is stored. */
  predicate Full(row: Rows)
  {
    forall i :: 0 <= i < |row| ==> row[i].Some?
  }

  /** A diagonal row: 1 followed by zeros. */
  predicate UnitRow(e: seq<bv8>)
  {
    |e| >= 1 && e[0] == 1 && forall t :: 1 <= t < |e| ==> e[t] == 0
  }

  /** The rows above row i have only zeros in columns i and beyond. */
  predicate ClearedFrom(row: Rows, i: int)
  {
    forall r, t :: 0 <= r < i && r < |row| && row[r].Some? && 0 <= t < |row[r].value| && i <= r + t ==>
      row[r].value[t] == 0
  }

  /** The same rows are stored, with the same lengths. */
  predicate SameShape(row: Rows, row0: Rows)
  {
    |row| == |row0| &&
    forall i :: 0 <= i < |row| ==>
      row[i].Some? == row0[i].Some? && (row[i].Some? ==> |row[i].value| == |row0[i].value|)
  }

  /** Every stored row, placed at full length, is an equation of X with its message as payload. */
  ghost predicate RowsHold(row: Rows, message: seq<seq<bv8>>, X: seq<seq<bv8>>)
  {
    |message| == |row| &&
    forall i :: 0 <= i < |row| && row[i].Some? ==> Holds(Expand(i, row[i].value, |row|), message[i], X)
  }

  /** The number of stored rows. */
  function Stored(row: Rows): (k: nat)
    ensures k <= |row|
  {
    if row == [] then 0 else Stored(row[..|row| - 1]) + if row[|row| - 1].Some? then 1 else 0
  }

  /** Replacing one entry changes the count by what leaves and what arrives. */
  lemma {:induction false} StoredSet(row: Rows, i: nat, x: Option<seq<bv8>>)
    requires i < |row|
    ensures Stored(row[i := x]) == Stored(row) - (if row[i].Some? then 1 else 0) + (if x.Some? then 1 else 0)
  {
    var n := |row|;
    if i == n - 1 {
      assert row[i := x][..n - 1] == row[..n - 1];
    } else {
      assert row[i := x][..n - 1] == row[..n - 1][i := x];
      StoredSet(row[..n - 1], i, x);
    }
  }

  /** All snum + cnum rows are stored exactly when the count reaches the row count. */
  lemma {:induction false} StoredFull(row: Rows)
    ensures Stored(row) == |row| <==> Full(row)
  {
    if row != [] {
      var n := |row|;
      var init := row[..n - 1];
      StoredFull(init);
      if Full(row) {
        assert Full(init) by {
          forall i | 0 <= i < n - 1 ensures init[i].Some? {
            assert init[i] == row[i];
          }
        }
      } else if Full(init) {
        assert row[n - 1].None? by {
          forall i | 0 <= i < n - 1 ensures row[i].Some? {
            assert init[i] == row[i];
          }
        }
      } else {
        var i :| 0 <= i < n - 1 && init[i].None?;
        assert row[i].None?;
      }
    }
  }

  /** Storing an equation of X at row j keeps every stored row an equation of X. */
  lemma RowsHoldSet(row: Rows, message: seq<seq<bv8>>, j: nat, e: seq<bv8>, m: seq<bv8>, X: seq<seq<bv8>>)
    requires RowsHold(row, message, X) && j < |row| && Holds(Expand(j, e, |row|), m, X)
    ensures RowsHold(row[j := Some(e)], message[j := m], X)
  {
  }

  // ---------------------------------------------------------------------
  // Building full-length vectors
  // ---------------------------------------------------------------------

  /** The scatter loop of process_packet_CBD: ces[ids[i]] = co[i] into a zeroed vector of length n. */
  method ScatterCoefficients(ids: seq<int>, co: seq<bv8>, n: nat) returns (ces: seq<bv8>)
    requires |co| == |ids| && InPackets(ids, n)
    ensures ces == Assigned(co, ids, n, |ids|)
  {
    ces := Zeros(n);
    var i := 0;
    while i < |ids|
      invariant 0 <= i <= |ids| && ces == Assigned(co, ids, n, i)
    {
      ces := ces[ids[i] := co[i]];
      i := i + 1;
    }
  }

  /** The parity vector of check p, each listed neighbour adding its edge coefficient 1, then 1 at snum + p. */
  method ParityVector(list: seq<nat>, snum: nat, p: nat, n: nat) returns (ces: seq<bv8>)
    requires InPackets(list, snum) && snum + p < n
    ensures ces == ParityRow(list, snum, p, n)
  {
    ces := Zeros(n);
    var t := 0;
    while t < |list|
      invariant 0 <= t <= |list| && |ces| == n && ces == Combined(Ones(|list|), list, n, t)
    {
      ces := ces[list[t] := Add(ces[list[t]], 1)];
      t := t + 1;
    }
    ces := ces[snum + p := 1];
  }

  /** The parity vector as apply_parity_check_matrix writes it: ces[nbr] = 1 per listed neighbour, then 1 at snum + p. */
  method ParityVectorAsWritten(list: seq<nat>, snum: nat, p: nat, n: nat) returns (ces: seq<bv8>)
    requires InPackets(list, snum) && snum + p < n
    ensures ces == ParityRowAsWritten(list, snum, p, n)
  {
    ces := Zeros(n);
    var t := 0;
    while t < |list|
      invariant 0 <= t <= |list| && ces == Assigned(Ones(|list|), list, n, t)
    {
      ces := ces[list[t] := 1];
      t := t + 1;
    }
    ces := ces[snum + p := 1];
  }

  // ---------------------------------------------------------------------
  // Combinations of the stored rows
  // ---------------------------------------------------------------------

  /** Two vectors added entry by entry. */
  function Plus(a: seq<bv8>, b: seq<bv8>): (r: seq<bv8>)
    requires |a| == |b|
    ensures |r| == |a|
  {
    if |a| == 0 then [] else [Add(a[0], b[0])] + Plus(a[1..], b[1..])
  }

  /** Plus adds entry by entry. */
  lemma {:induction false} PlusAt(a: seq<bv8>, b: seq<bv8>)
    requires |a| == |b|
    ensures forall k :: 0 <= k < |a| ==> Plus(a, b)[k] == Add(a[k], b[k])
  {
    if |a| > 0 {
      PlusAt(a[1..], b[1..]);
    }
  }

  /** Row i at full length, or zeros when nothing is stored there. */
  function RowVector(row: Rows, i: nat): (r: seq<bv8>)
    requires i < |row|
    ensures |r| == |row|
  {
    if row[i].Some? then Expand(i, row[i].value, |row|) else Zeros(|row|)
  }

  /** s + c * e, entry by entry, built up front to back. */
  function Combine(s: seq<bv8>, e: seq<bv8>, c: bv8): (r: seq<bv8>)
    requires |s| <= |e|
    ensures |r| == |s|
  {
    if |s| == 0 then [] else [Add(s[0], Mul(e[0], c))] + Combine(s[1..], e[1..], c)
  }

  lemma {:induction false} CombineIsAddScaled(s: seq<bv8>, e: seq<bv8>, c: bv8)
    requires |s| <= |e|
    ensures Combine(s, e, c) == AddScaled(s, e, c)
  {
    if |s| > 0 {
      CombineIsAddScaled(s[1..], e[1..], c);
      assert AddScaled(s[1..], e[1..], c) == AddScaled(s, e, c)[1..];
    }
  }

  /** coef[0] * row 0 + .. + coef[k - 1] * row k - 1, each stored row at full length. */
  function Span(row: Rows, coef: seq<bv8>, k: nat): (r: seq<bv8>)
    requires k <= |row| && |coef| == |row|
    ensures |r| == |row|
  {
    if k == 0 then Zeros(|row|) else Combine(Span(row, coef, k - 1), RowVector(row, k - 1), coef[k - 1])
  }

  /** The combination with every coefficient zero. */
  lemma {:induction false} SpanZeros(row: Rows, k: nat)
    requires k <= |row|
    ensures Span(row, Zeros(|row|), k) == Zeros(|row|)
  {
    if k > 0 {
      var z, e := Zeros(|row|), RowVector(row, k - 1);
      SpanZeros(row, k - 1);
      assert z[k - 1] == 0;
      assert Span(row, z, k) == Combine(z, e, 0);
      CombineIsAddScaled(z, e, 0);
      ScaledZero(z, e);
    }
  }

  /** v is a combination of the stored rows. */
  ghost predicate InSpan(row: Rows, v: seq<bv8>)
  {
    exists coef {:trigger Span(row, coef, |row|)} :: |coef| == |row| && Span(row, coef, |row|) == v
  }

  /** A combination witnesses membership. */
  lemma Witness(row: Rows, coef: seq<bv8>, v: seq<bv8>)
    requires |coef| == |row| && Span(row, coef, |row|) == v
    ensures InSpan(row, v)
  {
  }

  /** No stored row below m takes part in the combination. */
  predicate Leading(row: Rows, coef: seq<bv8>, m: nat)
  {
    forall i :: 0 <= i < m && i < |row| && i < |coef| ==> coef[i] == 0 || row[i].None?
  }

  /**
   * When no stored row before m takes part, a combination of triangular
   * rows is zero before m and, at m, is the diagonal entry of row m times
   * its coefficient.
   */
  lemma {:induction false} SpanLead(row: Rows, coef: seq<bv8>, m: nat, k: nat)
    requires Triangular(row) && |coef| == |row| && m < |row| && k <= |row| && Leading(row, coef, m)
    ensures forall j :: 0 <= j < m ==> Span(row, coef, k)[j] == 0
    ensures Span(row, coef, k)[m] == if m < k && row[m].Some? then Mul(row[m].value[0], coef[m]) else 0
  {
    PowersAreDistinct();
    if k > 0 {
      SpanLead(row, coef, m, k - 1);
      CombineIsAddScaled(Span(row, coef, k - 1), RowVector(row, k - 1), coef[k - 1]);
      var i := k - 1;
      var e := RowVector(row, i);
      forall j | 0 <= j <= m
        ensures Mul(e[j], coef[i]) == if j == m == i && row[m].Some? then Mul(row[m].value[0], coef[m]) else 0
      {
        MulZero(e[j]);
        MulZero(coef[i]);
      }
    }
  }

  /** The first stored row taking part in a combination. */
  lemma {:induction false} LeadingRow(row: Rows, coef: seq<bv8>, m: nat) returns (l: nat)
    requires |coef| == |row| && m < |row| && coef[m] != 0 && row[m].Some?
    ensures l <= m && coef[l] != 0 && row[l].Some? && Leading(row, coef, l)
    decreases m
  {
    if exists i :: 0 <= i < m && coef[i] != 0 && row[i].Some? {
      var i :| 0 <= i < m && coef[i] != 0 && row[i].Some?;
      l := LeadingRow(row, coef, i);
    } else {
      l := m;
    }
  }

  /** The first stored row taking part leaves a nonzero entry on its diagonal. */
  lemma LeadNonzero(row: Rows, coef: seq<bv8>, l: nat)
    requires Triangular(row) && |coef| == |row| && l < |row| && coef[l] != 0 && row[l].Some? && Leading(row, coef, l)
    ensures Span(row, coef, |row|)[l] != 0
  {
    SpanLead(row, coef, l, |row|);
    MulNonZero(row[l].value[0], coef[l]);
  }

  /**
   * The first nonzero entry of a combination of triangular rows lies on
   * the diagonal of a stored row: at a position without a row, a
   * combination that is zero before it is zero there too.
   */
  lemma FirstNonzeroStored(row: Rows, coef: seq<bv8>, p: nat)
    requires Triangular(row) && |coef| == |row| && p < |row|
    requires forall k :: 0 <= k < p ==> Span(row, coef, |row|)[k] == 0
    requires Span(row, coef, |row|)[p] != 0
    ensures row[p].Some?
  {
    if row[p].None? {
      if exists m :: 0 <= m < p && coef[m] != 0 && row[m].Some? {
        var m :| 0 <= m < p && coef[m] != 0 && row[m].Some?;
        var l := LeadingRow(row, coef, m);
        LeadNonzero(row, coef, l);
        assert false;
      } else {
        SpanLead(row, coef, p, |row|);
        assert false;
      }
    }
  }

  /** Scaling distributes over the sum of two vectors and two factors. */
  lemma PlusScaled(s1: seq<bv8>, s2: seq<bv8>, e: seq<bv8>, a: bv8, b: bv8)
    requires |s1| == |s2| <= |e|
    ensures AddScaled(Plus(s1, s2), e, Add(a, b)) == Plus(AddScaled(s1, e, a), AddScaled(s2, e, b))
  {
    PlusAt(s1, s2);
    PlusAt(AddScaled(s1, e, a), AddScaled(s2, e, b));
    forall j | 0 <= j < |s1|
      ensures Add(Add(s1[j], s2[j]), Mul(e[j], Add(a, b))) == Add(Add(s1[j], Mul(e[j], a)), Add(s2[j], Mul(e[j], b)))
    {
      MulDistributes(e[j], a, b);
      Linear.XorShuffle(s1[j], s2[j], Mul(e[j], a), Mul(e[j], b));
    }
  }

  /** Combinations add coefficient by coefficient. */
  lemma {:induction false} SpanPlus(row: Rows, c1: seq<bv8>, c2: seq<bv8>, k: nat)
    requires |c1| == |row| && |c2| == |row| && k <= |row|
    ensures Span(row, Plus(c1, c2), k) == Plus(Span(row, c1, k), Span(row, c2, k))
  {
    var n := |row|;
    if k == 0 {
      PlusAt(Zeros(n), Zeros(n));
      assert Plus(Zeros(n), Zeros(n)) == Zeros(n);
    } else {
      var e := RowVector(row, k - 1);
      var c := Plus(c1, c2);
      var s, s1, s2 := Span(row, c, k - 1), Span(row, c1, k - 1), Span(row, c2, k - 1);
      SpanPlus(row, c1, c2, k - 1);
      assert s == Plus(s1, s2);
      PlusAt(c1, c2);
      assert c[k - 1] == Add(c1[k - 1], c2[k - 1]);
      PlusScaled(s1, s2, e, c1[k - 1], c2[k - 1]);
      CombineIsAddScaled(s, e, c[k - 1]);
      CombineIsAddScaled(s1, e, c1[k - 1]);
      CombineIsAddScaled(s2, e, c2[k - 1]);
    }
  }

  lemma ScaledZero(x: seq<bv8>, e: seq<bv8>)
    requires |x| <= |e|
    ensures AddScaled(x, e, 0) == x
  {
    PowersAreDistinct();
    forall j | 0 <= j < |x|
      ensures Mul(e[j], 0) == 0
    {
      MulZero(e[j]);
    }
  }

  lemma ScaledSwap(x: seq<bv8>, e1: seq<bv8>, c1: bv8, e2: seq<bv8>, c2: bv8)
    requires |x| <= |e1| && |x| <= |e2|
    ensures AddScaled(AddScaled(x, e1, c1), e2, c2) == AddScaled(AddScaled(x, e2, c2), e1, c1)
  {
    forall j | 0 <= j < |x|
      ensures Add(Add(x[j], Mul(e1[j], c1)), Mul(e2[j], c2)) == Add(Add(x[j], Mul(e2[j], c2)), Mul(e1[j], c1))
    {
      XorSwap(x[j], Mul(e1[j], c1), Mul(e2[j], c2));
    }
  }

  lemma XorSwap(p: bv8, q: bv8, r: bv8)
    ensures Add(Add(p, q), r) == Add(Add(p, r), q)
  {
  }

  /** Changing the coefficient of row i leaves the combination of the rows before it alone. */
  lemma {:induction false} SpanAddBelow(row: Rows, coef: seq<bv8>, i: nat, q: bv8, k: nat)
    requires |coef| == |row| && k <= i < |row|
    ensures Span(row, coef[i := Add(coef[i], q)], k) == Span(row, coef, k)
  {
    if k > 0 {
      SpanAddBelow(row, coef, i, q, k - 1);
      SpanAddBefore(row, coef, i, q, k);
    }
  }

  /** Adding q to the coefficient of row i adds q times that row. */
  lemma {:induction false} SpanAdd(row: Rows, coef: seq<bv8>, i: nat, q: bv8, k: nat)
    requires |coef| == |row| && i < k <= |row|
    ensures Span(row, coef[i := Add(coef[i], q)], k) == Combine(Span(row, coef, k), RowVector(row, i), q)
    decreases k, 1
  {
    if k - 1 == i {
      SpanAddBelow(row, coef, i, q, i);
      SpanAddAt(row, coef, i, q);
    } else {
      SpanAddAfter(row, coef, i, q, k);
    }
  }

  lemma SpanAddAt(row: Rows, coef: seq<bv8>, i: nat, q: bv8)
    requires |coef| == |row| && i < |row|
    requires Span(row, coef[i := Add(coef[i], q)], i) == Span(row, coef, i)
    ensures Span(row, coef[i := Add(coef[i], q)], i + 1) == Combine(Span(row, coef, i + 1), RowVector(row, i), q)
  {
    CombineTwice(Span(row, coef, i), RowVector(row, i), coef[i], q);
  }

  lemma {:induction false} SpanAddAfter(row: Rows, coef: seq<bv8>, i: nat, q: bv8, k: nat)
    requires |coef| == |row| && i + 1 < k <= |row|
    ensures Span(row, coef[i := Add(coef[i], q)], k) == Combine(Span(row, coef, k), RowVector(row, i), q)
    decreases k, 0
  {
    var c' := coef[i := Add(coef[i], q)];
    var S, e, ei := Span(row, coef, k - 1), RowVector(row, k - 1), RowVector(row, i);
    calc {
      Span(row, c', k);
      Combine(Span(row, c', k - 1), e, c'[k - 1]);
      { SpanAdd(row, coef, i, q, k - 1); }
      Combine(Combine(S, ei, q), e, coef[k - 1]);
      { CombineSwap(S, ei, q, e, coef[k - 1]); }
      Combine(Combine(S, e, coef[k - 1]), ei, q);
    }
  }

  lemma SpanAddBefore(row: Rows, coef: seq<bv8>, i: nat, q: bv8, k: nat)
    requires |coef| == |row| && 0 < k <= i < |row|
    requires Span(row, coef[i := Add(coef[i], q)], k - 1) == Span(row, coef, k - 1)
    ensures Span(row, coef[i := Add(coef[i], q)], k) == Span(row, coef, k)
  {
    assert coef[i := Add(coef[i], q)][k - 1] == coef[k - 1];
  }

  lemma CombineTwice(x: seq<bv8>, e: seq<bv8>, c: bv8, q: bv8)
    requires |x| <= |e|
    ensures Combine(x, e, Add(c, q)) == Combine(Combine(x, e, c), e, q)
  {
    CombineIsAddScaled(x, e, Add(c, q));
    CombineIsAddScaled(x, e, c);
    CombineIsAddScaled(AddScaled(x, e, c), e, q);
    ScaledTwice(x, e, c, q);
  }

  lemma CombineSwap(x: seq<bv8>, e1: seq<bv8>, c1: bv8, e2: seq<bv8>, c2: bv8)
    requires |x| <= |e1| && |x| <= |e2|
    ensures Combine(Combine(x, e1, c1), e2, c2) == Combine(Combine(x, e2, c2), e1, c1)
  {
    CombineIsAddScaled(x, e1, c1);
    CombineIsAddScaled(x, e2, c2);
    CombineIsAddScaled(AddScaled(x, e1, c1), e2, c2);
    CombineIsAddScaled(AddScaled(x, e2, c2), e1, c1);
    ScaledSwap(x, e1, c1, e2, c2);
  }

  /** Adding c then q times e is adding c + q times e. */
  lemma ScaledTwice(x: seq<bv8>, e: seq<bv8>, c: bv8, q: bv8)
    requires |x| <= |e|
    ensures AddScaled(x, e, Add(c, q)) == AddScaled(AddScaled(x, e, c), e, q)
  {
    forall j | 0 <= j < |x|
      ensures Add(x[j], Mul(e[j], Add(c, q))) == Add(Add(x[j], Mul(e[j], c)), Mul(e[j], q))
    {
      MulDistributes(e[j], c, q);
      XorAssoc(x[j], Mul(e[j], c), Mul(e[j], q));
    }
  }

  lemma XorAssoc(p: bv8, q: bv8, r: bv8)
    ensures Add(Add(p, q), r) == Add(p, Add(q, r))
  {
  }

  /** A vector plus a combination that is zero everywhere: the vector is the combination. */
  lemma PlusZero(a: seq<bv8>, b: seq<bv8>)
    requires |a| == |b| && forall k :: 0 <= k < |a| ==> Plus(a, b)[k] == 0
    ensures a == b
  {
    PlusAt(a, b);
    forall k | 0 <= k < |a|
      ensures a[k] == b[k]
    {
      assert Plus(a, b)[k] == Add(a[k], b[k]) == 0;
      XorZero(a[k], b[k]);
    }
  }

  lemma XorZero(p: bv8, q: bv8)
    requires Add(p, q) == 0
    ensures p == q
  {
  }

  /** Adding a vector to itself and then another gives the other. */
  lemma PlusCancel(a: seq<bv8>, b: seq<bv8>)
    requires |a| == |b|
    ensures Plus(Plus(a, b), a) == b
  {
    PlusAt(a, b);
    PlusAt(Plus(a, b), a);
    forall k | 0 <= k < |a|
      ensures Add(Add(a[k], b[k]), a[k]) == b[k]
    {
      XorCancel(a[k], b[k]);
    }
  }

  lemma XorCancel(p: bv8, q: bv8)
    ensures Add(Add(p, q), p) == q
  {
  }

  /**
   * A reduced vector v that differs from v0 by a combination of triangular
   * rows and is nonzero first at a position without a row shows that v0
   * is no combination of those rows.
   */
  lemma NotInSpan(row: Rows, v0: seq<bv8>, v: seq<bv8>, p: nat)
    requires Triangular(row) && |v0| == |row| && |v| == |row| && p < |row| && row[p].None?
    requires InSpan(row, Plus(v0, v))
    requires forall k :: 0 <= k < p ==> v[k] == 0
    requires v[p] != 0
    ensures !InSpan(row, v0)
  {
    var n := |row|;
    if InSpan(row, v0) {
      var c :| |c| == n && Span(row, c, n) == Plus(v0, v);
      var d :| |d| == n && Span(row, d, n) == v0;
      SpanPlus(row, c, d, n);
      PlusCancel(v0, v);
      FirstNonzeroStored(row, Plus(c, d), p);
    }
  }

  // ---------------------------------------------------------------------
  // Reduction, storage, counting
  // ---------------------------------------------------------------------

  lemma PlusAddScaled(a: seq<bv8>, b: seq<bv8>, e: seq<bv8>, q: bv8)
    requires |a| == |b| <= |e|
    ensures AddScaled(Plus(a, b), e, q) == Plus(a, AddScaled(b, e, q))
  {
    PlusAt(a, b);
    PlusAt(a, AddScaled(b, e, q));
    forall j | 0 <= j < |a|
      ensures Add(Add(a[j], b[j]), Mul(e[j], q)) == Add(a[j], Add(b[j], Mul(e[j], q)))
    {
      XorAssoc(a[j], b[j], Mul(e[j], q));
    }
  }

  /** Before any step the reduced vector is v0 itself. */
  lemma InSpanStart(row: Rows, v0: seq<bv8>)
    requires |v0| == |row|
    ensures InSpan(row, Plus(v0, v0))
  {
    var n := |row|;
    PlusAt(v0, v0);
    assert Plus(v0, v0) == Zeros(n) by {
      forall k | 0 <= k < n
        ensures Add(v0[k], v0[k]) == 0
      {
        XorSelf(v0[k]);
      }
    }
    SpanZeros(row, n);
    assert Span(row, Zeros(n), n) == Plus(v0, v0);
  }

  lemma XorSelf(p: bv8)
    ensures Add(p, p) == 0
  {
  }

  /** One elimination step of reduce_vector adds q times row i, so v stays v0 plus a combination. */
  lemma InSpanStep(row: Rows, v0: seq<bv8>, v: seq<bv8>, i: nat, q: bv8)
    requires Triangular(row) && |v0| == |row| && |v| == |row| && i < |row| && row[i].Some?
    requires InSpan(row, Plus(v0, v))
    ensures InSpan(row, Plus(v0, AddScaledAt(v, i, row[i].value, q)))
  {
    var c :| |c| == |row| && Span(row, c, |row|) == Plus(v0, v);
    var c' := SpanStep(row, c, v0, v, i, q);
    Witness(row, c', Plus(v0, AddScaledAt(v, i, row[i].value, q)));
  }

  lemma SpanStep(row: Rows, c: seq<bv8>, v0: seq<bv8>, v: seq<bv8>, i: nat, q: bv8) returns (c': seq<bv8>)
    requires Triangular(row) && |v0| == |row| && |v| == |row| && i < |row| && row[i].Some?
    requires |c| == |row| && Span(row, c, |row|) == Plus(v0, v)
    ensures |c'| == |row| && Span(row, c', |row|) == Plus(v0, AddScaledAt(v, i, row[i].value, q))
  {
    c' := c[i := Add(c[i], q)];
    var e := RowVector(row, i);
    SpanAdd(row, c, i, q, |row|);
    CombineIsAddScaled(Plus(v0, v), e, q);
    PlusAddScaled(v0, v, e, q);
    AddScaledAtExpand(v, i, row[i].value, q);
  }

  /** A vector that reduces to zero is a combination of the stored rows. */
  lemma ZeroInSpan(row: Rows, v0: seq<bv8>, v: seq<bv8>)
    requires |v0| == |row| && |v| == |row| && InSpan(row, Plus(v0, v))
    requires forall k :: 0 <= k < |row| ==> v[k] == 0
    ensures InSpan(row, v0)
  {
    PlusAt(v0, v);
    assert Plus(v0, v) == v0;
  }

  /** A reduction step at i clears entry i and keeps the entries before it zero. */
  lemma ClearsPrefix(v: seq<bv8>, i: nat, elem: seq<bv8>)
    requires i + |elem| <= |v| && |elem| >= 1 && elem[0] != 0
    requires forall k :: 0 <= k < i ==> v[k] == 0
    ensures forall k :: 0 <= k <= i ==> AddScaledAt(v, i, elem, Div(v[i], elem[0]))[k] == 0
  {
    ClearsPivot(v, i, elem);
  }

  /**
   * The reduction of process_vector_CBD from position i on, as a value:
   * the pivot (-1 when there is none) and the reduced vector.
   */
  ghost function ReduceFrom(row: Rows, v: seq<bv8>, i: nat): (r: (int, seq<bv8>))
    requires Triangular(row) && |v| == |row| && i <= |row|
    ensures |r.1| == |row| && -1 <= r.0 < |row|
    decreases |row| - i
  {
    if i == |row| then (-1, v)
    else if v[i] == 0 then ReduceFrom(row, v, i + 1)
    else if row[i].None? then (i, v)
    else ReduceFrom(row, AddScaledAt(v, i, row[i].value, Div(v[i], row[i].value[0])), i + 1)
  }

  /**
   * The reduced vector differs from v0 by a combination of the stored
   * rows, and the reduction finds no pivot exactly when v0 is such a
   * combination.
   */
  lemma {:induction false} ReduceFromSpan(row: Rows, v0: seq<bv8>, v: seq<bv8>, i: nat)
    requires Triangular(row) && |v0| == |row| && |v| == |row| && i <= |row|
    requires InSpan(row, Plus(v0, v)) && forall k :: 0 <= k < i ==> v[k] == 0
    ensures InSpan(row, Plus(v0, ReduceFrom(row, v, i).1))
    ensures ReduceFrom(row, v, i).0 == -1 <==> InSpan(row, v0)
    decreases |row| - i
  {
    if i == |row| {
      ZeroInSpan(row, v0, v);
    } else if v[i] == 0 {
      ReduceFromSpan(row, v0, v, i + 1);
    } else if row[i].None? {
      NotInSpan(row, v0, v, i);
    } else {
      var elem := row[i].value;
      var q := Div(v[i], elem[0]);
      InSpanStep(row, v0, v, i, q);
      ClearsPrefix(v, i, elem);
      ReduceFromSpan(row, v0, AddScaledAt(v, i, elem, q), i + 1);
    }
  }

  /**
   * What the reduction means: the reduced vector is v0 plus a combination
   * of the stored rows, and no pivot is found exactly when v0 itself is
   * such a combination.
   */
  lemma ReducedSpan(row: Rows, v0: seq<bv8>)
    requires Triangular(row) && |v0| == |row|
    ensures InSpan(row, Plus(v0, ReduceFrom(row, v0, 0).1))
    ensures ReduceFrom(row, v0, 0).0 == -1 <==> InSpan(row, v0)
  {
    InSpanStart(row, v0);
    ReduceFromSpan(row, v0, v0, 0);
  }

  /**
   * The loop of process_vector_CBD: at each nonzero position i in
   * increasing order, either reduce against the stored row i (vector and
   * message alike) or stop there as the pivot.  The result is zero before
   * the pivot (everywhere when there is none), nonzero at it, and still an
   * equation of X when the stored rows and the input were; a vector inside
   * a window of w reduced against rows of at most w entries stays within w
   * of its pivot.  The result differs from the input by a combination of
   * the stored rows, so no pivot is found exactly when the input is such a
   * combination.
   */
  method ReduceVector(row: Rows, message: seq<seq<bv8>>, v0: seq<bv8>, msg0: seq<bv8>,
                      ghost X: seq<seq<bv8>>, ghost lo: int, ghost w: int)
    returns (pivot: int, v: seq<bv8>, msg: seq<bv8>)
    requires Triangular(row) && |v0| == |row| && |message| == |row|
    requires forall i :: 0 <= i < |row| ==> |message[i]| == |msg0|
    ensures |v| == |row| && |msg| == |msg0| && -1 <= pivot < |row|
    ensures forall k :: 0 <= k < |row| && (pivot == -1 || k < pivot) ==> v[k] == 0
    ensures pivot >= 0 ==> row[pivot].None? && v[pivot] != 0
    ensures RowsHold(row, message, X) && Holds(v0, msg0, X) ==> Holds(v, msg, X)
    ensures pivot >= 0 && Window(v0, lo, w) && Narrow(row, w) ==> forall k :: 0 <= k < |row| && pivot + w <= k ==> v[k] == 0
    ensures (pivot, v) == ReduceFrom(row, v0, 0)
    ensures InSpan(row, Plus(v0, v))
    ensures pivot == -1 <==> InSpan(row, v0)
  {
    pivot, v, msg := ReduceStored(row, message, v0, msg0, X, lo, w);
    ReducedSpan(row, v0);
  }

  /** ReduceVector short of what the reduction means for the span: what the stores need. */
  method ReduceStored(row: Rows, message: seq<seq<bv8>>, v0: seq<bv8>, msg0: seq<bv8>,
                      ghost X: seq<seq<bv8>>, ghost lo: int, ghost w: int)
    returns (pivot: int, v: seq<bv8>, msg: seq<bv8>)
    requires Triangular(row) && |v0| == |row| && |message| == |row|
    requires forall i :: 0 <= i < |row| ==> |message[i]| == |msg0|
    ensures |v| == |row| && |msg| == |msg0| && -1 <= pivot < |row|
    ensures forall k :: 0 <= k < |row| && (pivot == -1 || k < pivot) ==> v[k] == 0
    ensures pivot >= 0 ==> row[pivot].None? && v[pivot] != 0
    ensures RowsHold(row, message, X) && Holds(v0, msg0, X) ==> Holds(v, msg, X)
    ensures pivot >= 0 && Window(v0, lo, w) && Narrow(row, w) ==> forall k :: 0 <= k < |row| && pivot + w <= k ==> v[k] == 0
    ensures (pivot, v) == ReduceFrom(row, v0, 0)
  {
    var n := |row|;
    v, msg, pivot := v0, msg0, -1;
    ghost var ok := RowsHold(row, message, X) && Holds(v0, msg0, X);
    ghost var banded := Window(v0, lo, w) && Narrow(row, w);
    ghost var start := lo;
    var i := 0;
    while i < n
      invariant 0 <= i <= n && |v| == n && |msg| == |msg0| && pivot == -1
      invariant ReduceFrom(row, v, i) == ReduceFrom(row, v0, 0)
      invariant forall k :: 0 <= k < i ==> v[k] == 0
      invariant ok ==> Holds(v, msg, X)
      invariant banded ==> Window(v, start, w)
    {
      if v[i] != 0 {
        if row[i].Some? {
          var elem := row[i].value;
          var q := Div(v[i], elem[0]);
          ghost var v1, m1 := v, msg;
          v := AddScaledAt(v, i, elem, q);
          msg := AddScaled(msg, message[i], q);
          ClearsPrefix(v1, i, elem);
          if ok {
            ReduceHolds(v1, m1, i, elem, message[i], q, X);
          }
          if banded {
            WindowStep(v1, i, elem, q, start, w);
            start := i;
          }
        } else {
          pivot := i;
          break;
        }
      }
      i := i + 1;
    }
  }

  /**
   * The length process_vector_CBD gives a row stored at pivot: at most
   * size_g while the code is a band code and the precode is not applied,
   * the rest of the row otherwise.
   */
  function RowLength(n: int, pivot: int, sizeG: int, full: bool): (len: int)
    ensures len <= n - pivot && (!full ==> len <= sizeG)
    ensures sizeG >= 1 && pivot < n ==> len >= 1
    ensures len == n - pivot || (!full && len == sizeG)
  {
    if !full && n - pivot > sizeG then sizeG else n - pivot
  }

  /** A reduced vector stored at its pivot keeps every stored row an equation of X. */
  lemma StoreHolds(row: Rows, message: seq<seq<bv8>>, v: seq<bv8>, msg: seq<bv8>, pivot: nat, len: nat, X: seq<seq<bv8>>)
    requires RowsHold(row, message, X) && Holds(v, msg, X) && |v| == |row| && pivot < |v| && pivot + len <= |v|
    requires forall k :: 0 <= k < pivot ==> v[k] == 0
    requires forall k :: pivot + len <= k < |v| ==> v[k] == 0
    ensures RowsHold(row[pivot := Some(v[pivot..pivot + len])], message[pivot := msg], X)
  {
    ExpandSlice(v, pivot, len);
    RowsHoldSet(row, message, pivot, v[pivot..pivot + len], msg, X);
  }

  /** The counting loop of apply_parity_check_matrix: the rows with nothing stored. */
  method CountMissing(row: Rows) returns (missing: int)
    ensures missing == |row| - Stored(row)
  {
    missing := 0;
    var i := 0;
    while i < |row|
      invariant 0 <= i <= |row| && missing == i - Stored(row[..i])
    {
      assert row[..i + 1][..i] == row[..i];
      if row[i].None? {
        missing := missing + 1;
      }
      i := i + 1;
    }
    assert row[..|row|] == row;
  }

  // ---------------------------------------------------------------------
  // Back-substitution
  // ---------------------------------------------------------------------

  /**
   * One step of that loop: row j, when its stored part reaches column i
   * with a nonzero entry, has the entry cleared with the diagonal row i
   * and its message changed alike; nothing else changes.
   */
  method ClearEntry(row0: Rows, message0: seq<seq<bv8>>, i: nat, j: nat, ghost X: seq<seq<bv8>>)
    returns (row: Rows, message: seq<seq<bv8>>)
    requires Triangular(row0) && Full(row0) && j < i < |row0| && |message0| == |row0|
    requires |message0[j]| == |message0[i]| && ClearedFrom(row0, i + 1)
    ensures Triangular(row) && Full(row) && SameShape(row, row0) && |message| == |row| && ClearedFrom(row, i + 1)
    ensures forall r :: 0 <= r < |row| && r != j ==> row[r] == row0[r] && message[r] == message0[r]
    ensures |message[j]| == |message0[j]|
    ensures i - j < |row[j].value| ==> row[j].value[i - j] == 0
    ensures RowsHold(row0, message0, X) ==> RowsHold(row, message, X)
  {
    row, message := row0, message0;
    var n := |row|;
    var ei := row[i].value;
    var ej := row[j].value;
    if j + |ej| > i && ej[i - j] != 0 {
      var q := Div(ej[i - j], ei[0]);
      if RowsHold(row0, message0, X) {
        ClearEntryHolds(n, j, ej, i, ei, message[j], message[i], X);
        RowsHoldSet(row, message, j, ej[i - j := 0], AddScaled(message[j], message[i], q), X);
      }
      message := message[j := AddScaled(message[j], message[i], q)];
      row := row[j := Some(ej[i - j := 0])];
    }
  }

  /**
   * The inner loop of finish_recovering_CBD for column i: every row j < i
   * whose stored part reaches column i with a nonzero entry there gets
   * that entry cleared with the diagonal row i (which is e0 followed by
   * zeros), its message changed alike.
   */
  method ClearColumn(row0: Rows, message0: seq<seq<bv8>>, i: nat, ghost X: seq<seq<bv8>>)
    returns (row: Rows, message: seq<seq<bv8>>)
    requires Triangular(row0) && Full(row0) && i < |row0| && |message0| == |row0|
    requires forall r :: 0 <= r < |row0| ==> |message0[r]| == |message0[i]|
    requires ClearedFrom(row0, i + 1)
    ensures Triangular(row) && Full(row) && SameShape(row, row0) && |message| == |row|
    ensures ClearedFrom(row, i)
    ensures forall r :: i <= r < |row| ==> row[r] == row0[r] && message[r] == message0[r]
    ensures forall r :: 0 <= r < |row| ==> |message[r]| == |message0[r]|
    ensures RowsHold(row0, message0, X) ==> RowsHold(row, message, X)
  {
    row, message := row0, message0;
    var n := |row|;
    var j := 0;
    while j < i
      invariant 0 <= j <= i
      invariant Triangular(row) && Full(row) && SameShape(row, row0) && |message| == n
      invariant forall r :: 0 <= r < n ==> |message[r]| == |message0[r]|
      invariant forall r :: i <= r < n ==> row[r] == row0[r] && message[r] == message0[r]
      invariant ClearedFrom(row, i + 1)
      invariant forall r :: 0 <= r < j && i - r < |row[r].value| ==> row[r].value[i - r] == 0
      invariant RowsHold(row0, message0, X) ==> RowsHold(row, message, X)
    {
      row, message := ClearEntry(row, message, i, j, X);
      j := j + 1;
    }
  }

  /**
   * The scaling step of finish_recovering_CBD: row i, already 1 entry
   * followed by zeros, is divided by its diagonal entry, and so is its
   * message; nothing else changes.
   */
  method NormaliseRow(row0: Rows, message0: seq<seq<bv8>>, i: nat, ghost X: seq<seq<bv8>>)
    returns (row: Rows, message: seq<seq<bv8>>)
    requires Triangular(row0) && Full(row0) && i < |row0| && |message0| == |row0| && ClearedFrom(row0, i + 1)
    ensures Triangular(row) && Full(row) && SameShape(row, row0) && |message| == |row| && ClearedFrom(row, i + 1)
    ensures forall r :: 0 <= r < |row| && r != i ==> row[r] == row0[r] && message[r] == message0[r]
    ensures |message[i]| == |message0[i]| && UnitRow(row[i].value)
    ensures RowsHold(row0, message0, X) ==> RowsHold(row, message, X)
  {
    row, message := row0, message0;
    var ei := row[i].value;
    assert forall t :: 1 <= t < |ei| ==> ei[t] == 0;
    if ei[0] != 1 {
      var c := Div(1, ei[0]);
      if RowsHold(row0, message0, X) {
        NormaliseHolds(|row|, i, ei, message[i], X);
        RowsHoldSet(row, message, i, ei[0 := 1], Scaled(message[i], c), X);
      }
      message := message[i := Scaled(message[i], c)];
      row := row[i := Some(ei[0 := 1])];
    }
  }

  /** Every row diagonal and every message the packet it stands for. */
  lemma UnitRowsSolve(row: Rows, message: seq<seq<bv8>>, X: seq<seq<bv8>>)
    requires Triangular(row) && Full(row) && RowsHold(row, message, X) && |X| == |row|
    requires forall r :: 0 <= r < |row| ==> UnitRow(row[r].value)
    ensures message == X
  {
    forall r | 0 <= r < |row|
      ensures message[r] == X[r]
    {
      UnitRowSolves(|row|, r, row[r].value, message[r], X);
    }
  }

  /**
   * finish_recovering_CBD on the rows: from the last column to the first,
   * clear the column above the diagonal, scale the row to diagonal 1 and
   * copy its message out.  Every row ends as 1 followed by zeros, and the
   * copied packets are the messages; when the rows were equations of X
   * they are X.
   */
  method Diagonalise(row0: Rows, message0: seq<seq<bv8>>, pp0: seq<seq<bv8>>, w: nat, ghost X: seq<seq<bv8>>)
    returns (row: Rows, message: seq<seq<bv8>>, pp: seq<seq<bv8>>)
    requires Triangular(row0) && Full(row0) && |message0| == |row0| && |pp0| == |row0|
    requires forall r :: 0 <= r < |row0| ==> |message0[r]| == w
    ensures Triangular(row) && Full(row) && SameShape(row, row0) && |message| == |row|
    ensures forall r :: 0 <= r < |row| ==> UnitRow(row[r].value) && |message[r]| == w
    ensures pp == message
    ensures RowsHold(row0, message0, X) && |X| == |row0| ==> RowsHold(row, message, X) && pp == X
  {
    row, message, pp := row0, message0, pp0;
    ghost var ok := RowsHold(row0, message0, X) && |X| == |row0|;
    var n := |row|;
    var i := n;
    while i > 0
      invariant 0 <= i <= n
      invariant Triangular(row) && Full(row) && SameShape(row, row0) && |message| == n && |pp| == n
      invariant forall r :: 0 <= r < n ==> |message[r]| == w
      invariant ClearedFrom(row, i)
      invariant forall r :: i <= r < n ==> UnitRow(row[r].value) && pp[r] == message[r]
      invariant ok ==> RowsHold(row, message, X)
    {
      i := i - 1;
      row, message := ClearColumn(row, message, i, X);
      row, message := NormaliseRow(row, message, i, X);
      pp := pp[i := message[i]];
    }
    assert pp == message;
    if ok {
      UnitRowsSolve(row, message, X);
    }
  }

  /**
   * A decoding matrix of n rows: triangular, with messages of size_p
   * bytes, and no row longer than size_g when narrow.
   */
  predicate Matrix(n: int, sizeG: int, sizeP: int, row: Rows, message: seq<seq<bv8>>, narrow: bool)
  {
    |row| == n && |message| == |row| && Triangular(row) &&
    (forall i :: 0 <= i < |message| ==> |message[i]| == sizeP) &&
    (narrow ==> Narrow(row, sizeG))
  }

  /** The reduced vector, zero before its pivot and past the stored length, is the stored row at full length. */
  lemma StoredIsReduced(v: seq<bv8>, pivot: nat, len: nat)
    requires pivot + len <= |v|
    requires forall k :: 0 <= k < pivot ==> v[k] == 0
    requires forall k :: pivot + len <= k < |v| ==> v[k] == 0
    ensures Expand(pivot, v[pivot..pivot + len], |v|) == v
  {
  }

  /**
   * process_vector_CBD on the matrix: reduce the vector, then store it at
   * its pivot, RowLength entries long, with its message; a vector that
   * reduces to zero gives -1 and changes nothing.  A stored vector fills a
   * row that was empty, and leaves every stored row an equation of X when
   * they and the vector were.  The pivot is -1 exactly when the vector is
   * a combination of the stored rows; otherwise the stored row, read at
   * full length, is the whole reduced vector (the vector plus such a
   * combination) whenever the vector lies in the band the rows allow.
   */
  method StoreVector(row0: Rows, message0: seq<seq<bv8>>, v0: seq<bv8>, msg0: seq<bv8>, sizeG: int, sizeP: int, full: bool,
                     ghost X: seq<seq<bv8>>, ghost lo: int)
    returns (pivot: int, row: Rows, message: seq<seq<bv8>>)
    requires Matrix(|row0|, sizeG, sizeP, row0, message0, !full) && sizeG >= 1 && |v0| == |row0| && |msg0| == sizeP
    ensures Matrix(|row0|, sizeG, sizeP, row, message, !full) && -1 <= pivot < |row|
    ensures Stored(row) == Stored(row0) + (if pivot >= 0 then 1 else 0)
    ensures pivot == -1 ==> row == row0 && message == message0
    ensures pivot >= 0 ==>
      row0[pivot].None? && row == row0[pivot := row[pivot]] && message == message0[pivot := message[pivot]] &&
      row[pivot].Some? && |row[pivot].value| == RowLength(|row|, pivot, sizeG, full)
    ensures (RowsHold(row0, message0, X) && Holds(v0, msg0, X) && (!full ==> Window(v0, lo, sizeG))) ==>
      RowsHold(row, message, X)
    ensures pivot == -1 <==> InSpan(row0, v0)
    ensures pivot == ReduceFrom(row0, v0, 0).0
    ensures pivot >= 0 && (full || Window(v0, lo, sizeG)) ==>
      RowVector(row, pivot) == ReduceFrom(row0, v0, 0).1 && InSpan(row0, Plus(v0, RowVector(row, pivot)))
  {
    pivot, row, message := StoreRow(row0, message0, v0, msg0, sizeG, sizeP, full, X, lo);
    ReducedSpan(row0, v0);
  }

  /** StoreVector short of what the reduction means for the span: what the decoders' own steps need. */
  method StoreRow(row0: Rows, message0: seq<seq<bv8>>, v0: seq<bv8>, msg0: seq<bv8>, sizeG: int, sizeP: int, full: bool,
                  ghost X: seq<seq<bv8>>, ghost lo: int)
    returns (pivot: int, row: Rows, message: seq<seq<bv8>>)
    requires Matrix(|row0|, sizeG, sizeP, row0, message0, !full) && sizeG >= 1 && |v0| == |row0| && |msg0| == sizeP
    ensures Matrix(|row0|, sizeG, sizeP, row, message, !full) && -1 <= pivot < |row|
    ensures Stored(row) == Stored(row0) + (if pivot >= 0 then 1 else 0)
    ensures pivot == -1 ==> row == row0 && message == message0
    ensures pivot >= 0 ==>
      row0[pivot].None? && row == row0[pivot := row[pivot]] && message == message0[pivot := message[pivot]] &&
      row[pivot].Some? && |row[pivot].value| == RowLength(|row|, pivot, sizeG, full)
    ensures (RowsHold(row0, message0, X) && Holds(v0, msg0, X) && (!full ==> Window(v0, lo, sizeG))) ==>
      RowsHold(row, message, X)
    ensures pivot == ReduceFrom(row0, v0, 0).0
    ensures pivot >= 0 && (full || Window(v0, lo, sizeG)) ==>
      RowVector(row, pivot) == ReduceFrom(row0, v0, 0).1
  {
    row, message := row0, message0;
    var n := |row|;
    var v, msg;
    pivot, v, msg := ReduceStored(row, message, v0, msg0, X, lo, sizeG);
    if pivot >= 0 {
      var len := RowLength(n, pivot, sizeG, full);
      if full || Window(v0, lo, sizeG) {
        StoredIsReduced(v, pivot, len);
      }
      if RowsHold(row, message, X) && Holds(v0, msg0, X) && (!full ==> Window(v0, lo, sizeG)) {
        StoreHolds(row, message, v, msg, pivot, len, X);
      }
      StoredSet(row, pivot, Some(v[pivot..pivot + len]));
      row := row[pivot := Some(v[pivot..pivot + len])];
      message := message[pivot := msg];
    }
  }

  /**
   * The first loop of apply_parity_check_matrix: the parity vector of
   * every check, with an all-zero message, processed into the matrix at
   * full row length; added counts the vectors stored.  No stored row is
   * touched, and since each parity vector is an equation of X when the
   * checks of X are the sums of their neighbours, every stored row stays
   * one.
   */
  method ApplyChecks(snum: nat, checks: seq<seq<nat>>, sizeG: int, sizeP: nat, row0: Rows, message0: seq<seq<bv8>>,
                     ghost X: seq<seq<bv8>>)
    returns (row: Rows, message: seq<seq<bv8>>, added: nat)
    requires Matrix(snum + |checks|, sizeG, sizeP, row0, message0, false) && sizeG >= 1 && NamesSources(checks, snum)
    ensures Matrix(snum + |checks|, sizeG, sizeP, row, message, false) && Stored(row) == Stored(row0) + added
    ensures forall i :: 0 <= i < |row| && row0[i].Some? ==> row[i] == row0[i]
    ensures (|X| == |row| && Linear.Rect(X, sizeP) && ChecksAreSums(X, snum, checks, sizeP) &&
             RowsHold(row0, message0, X)) ==> RowsHold(row, message, X)
  {
    row, message, added := row0, message0, 0;
    ghost var ok := |X| == |row| && Linear.Rect(X, sizeP) && ChecksAreSums(X, snum, checks, sizeP) &&
      RowsHold(row0, message0, X);
    var n := |row|;
    var p := 0;
    while p < |checks|
      invariant 0 <= p <= |checks| && Matrix(n, sizeG, sizeP, row, message, false) && Stored(row) == Stored(row0) + added
      invariant forall i :: 0 <= i < n && row0[i].Some? ==> row[i] == row0[i]
      invariant ok ==> RowsHold(row, message, X)
    {
      assert InPackets(checks[p], snum);
      var ces := ParityVector(checks[p], snum, p, n);
      var msg := Zeros(sizeP);
      if ok {
        ParityRowEquation(X, snum, checks, sizeP, p);
      }
      var pivot;
      pivot, row, message := StoreVector(row, message, ces, msg, sizeG, sizeP, true, X, 0);
      if pivot >= 0 {
        added := added + 1;
      }
      p := p + 1;
    }
  }

  /** Back-substitution keeps the matrix: the same rows, the same lengths. */
  lemma ReshapedMatrix(sizeG: int, sizeP: int, row0: Rows, message0: seq<seq<bv8>>, row: Rows, message: seq<seq<bv8>>, narrow: bool)
    requires Matrix(|row0|, sizeG, sizeP, row0, message0, narrow) && SameShape(row, row0) && Triangular(row) && |message| == |row|
    requires forall r :: 0 <= r < |row| ==> |message[r]| == sizeP
    ensures Matrix(|row0|, sizeG, sizeP, row, message, narrow)
  {
    if narrow {
      forall i | 0 <= i < |row| && row[i].Some?
        ensures |row[i].value| <= sizeG
      {
        assert row0[i].Some?;
      }
    }
  }

  /**
   * finish_recovering_CBD on a complete matrix: back-substitution keeps it
   * complete and of the same shape, makes every row diagonal, and copies
   * the messages out; when every row was an equation of X the copies are X.
   */
  method Finish(row0: Rows, message0: seq<seq<bv8>>, pp0: seq<seq<bv8>>, sizeG: int, sizeP: nat, narrow: bool,
                ghost X: seq<seq<bv8>>)
    returns (row: Rows, message: seq<seq<bv8>>, pp: seq<seq<bv8>>)
    requires Matrix(|row0|, sizeG, sizeP, row0, message0, narrow) && Stored(row0) == |row0| && |pp0| == |row0|
    ensures Matrix(|row0|, sizeG, sizeP, row, message, narrow) && Stored(row) == |row| && pp == message
    ensures Full(row) && forall i :: 0 <= i < |row| ==> UnitRow(row[i].value)
    ensures |X| == |row| && RowsHold(row0, message0, X) ==> RowsHold(row, message, X) && pp == X
  {
    StoredFull(row0);
    row, message, pp := Diagonalise(row0, message0, pp0, sizeP, X);
    ReshapedMatrix(sizeG, sizeP, row0, message0, row, message, narrow);
    StoredFull(row);
  }

  /** No rows stored counts zero. */
  lemma {:induction false} StoredNone(n: nat)
    ensures Stored(seq<Option<seq<bv8>>>(n, _ => None)) == 0
  {
    if n > 0 {
      var none: Rows := seq(n, _ => None);
      assert none[..n - 1] == seq(n - 1, _ => None);
      StoredNone(n - 1);
    }
  }
}
