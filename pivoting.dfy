/**
 * The first half of src/pivoting.c: the doubly-linked subscript lists
 * (ssList) and inactivation pivoting, which chooses for a matrix A with
 * nrow >= ncolA rows a sequence of ncolA pivots (row, column) such that,
 * once rows and columns are reordered by it, the first ncolA - ias
 * columns ("active") form a lower-triangular block with a nonzero
 * diagonal and the last ias columns ("inactivated") hold the rest.
 *
 * An ssList is modelled by the sequence of the indices its nodes carry,
 * first to last; the `nonzeros` field of a node is never read back by the
 * algorithms modelled here and is left out.
 */
module Pivoting {
  import opened Wrappers
  import opened Linear
  import Grouping

  // ---------------------------------------------------------------------
  // Subscript lists
  // ---------------------------------------------------------------------

  /** The sequence without its entry at position k. */
  function RemoveAt(s: seq<int>, k: nat): (r: seq<int>)
    requires k < |s|
    ensures |r| == |s| - 1
  {
    s[..k] + s[k + 1..]
  }

  /** Removing an entry keeps every other entry, in order, and drops exactly one copy of it. */
  lemma RemoveAtEntries(s: seq<int>, k: nat)
    requires k < |s|
    ensures forall i :: 0 <= i < k ==> RemoveAt(s, k)[i] == s[i]
    ensures forall i :: k <= i < |s| - 1 ==> RemoveAt(s, k)[i] == s[i + 1]
    ensures multiset(RemoveAt(s, k)) == multiset(s) - multiset{s[k]}
  {
    assert s == s[..k] + [s[k]] + s[k + 1..];
  }

  /** Strictly decreasing: the order insertSubAtBeginning gives indices inserted in increasing order. */
  predicate Descending(s: seq<int>)
  {
    forall a, b :: 0 <= a < b < |s| ==> s[a] > s[b]
  }

  /** Removing from a descending list keeps it descending and leaves exactly the other indices. */
  lemma RemoveDescending(s: seq<int>, k: nat)
    requires k < |s| && Descending(s)
    ensures Descending(RemoveAt(s, k))
    ensures s[k] !in RemoveAt(s, k)
    ensures forall x :: x in s && x != s[k] ==> x in RemoveAt(s, k)
  {
    RemoveAtEntries(s, k);
    var r := RemoveAt(s, k);
    forall x | x in s && x != s[k]
      ensures x in r
    {
      var i :| 0 <= i < |s| && s[i] == x;
      if i < k {
        assert r[i] == x;
      } else {
        assert r[i - 1] == x;
      }
    }
  }

  /** A prepended or appended node is what removing the first or last node takes away again. */
  lemma InsertThenRemove(s: seq<int>, x: int)
    ensures RemoveAt([x] + s, 0) == s
    ensures RemoveAt(s + [x], |s|) == s
  {
    assert ([x] + s)[1..] == s;
    assert (s + [x])[..|s|] == s;
  }

  /** ssList: the subscripts of its nodes from ssFirst to ssLast. */
  class SubscriptList {
    var items: seq<int>

    /** A list with ssFirst == ssLast == NULL. */
    constructor ()
      ensures items == []
    {
      items := [];
    }

    /** The index of ssFirst, None for NULL. */
    function First(): (r: Option<int>)
      reads this`items
      ensures r.None? <==> items == []
      ensures r.Some? ==> r.value == items[0]
    {
      if items == [] then None else Some(items[0])
    }

    /** The index of ssLast, None for NULL. */
    function Last(): (r: Option<int>)
      reads this`items
      ensures r.None? <==> items == []
      ensures r.Some? ==> r.value == items[|items| - 1]
    {
      if items == [] then None else Some(items[|items| - 1])
    }

    /** insertSubAtBeginning: the node becomes ssFirst; on an empty list also ssLast. */
    method InsertAtBeginning(x: int)
      modifies this`items
      ensures items == [x] + old(items)
      ensures First() == Some(x) && (old(items) == [] ==> Last() == Some(x))
      ensures old(items) != [] ==> Last() == old(Last())
    {
      if items == [] {
        items := [x];
      } else {
        items := [x] + items;
      }
    }

    /** insertSubAtEnd: the node becomes ssLast; on an empty list also ssFirst. */
    method InsertAtEnd(x: int)
      modifies this`items
      ensures items == old(items) + [x]
      ensures Last() == Some(x) && (old(items) == [] ==> First() == Some(x))
      ensures old(items) != [] ==> First() == old(First())
    {
      if items == [] {
        items := [x];
      } else {
        items := items + [x];
      }
    }

    /**
     * removeSubscript of the node at position k: the only node, the head,
     * the tail and a middle node are unlinked by their own cases.
     */
    method Remove(k: nat)
      requires k < |items|
      modifies this`items
      ensures items == RemoveAt(old(items), k)
    {
      if |items| == 1 {
        items := [];
      } else if k == 0 {
        items := items[1..];
      } else if k == |items| - 1 {
        items := items[..k];
      } else {
        items := items[..k] + items[k + 1..];
      }
    }

    /**
     * The retargeting walk of reshape_matrix: every node after position k
     * whose index is `from` gets the index `to`.
     */
    method Retarget(k: nat, from: int, to: int)
      modifies this`items
      ensures |items| == |old(items)|
      ensures forall m :: 0 <= m < |items| ==> items[m] == (if m > k && old(items)[m] == from then to else old(items)[m])
    {
      var m := k + 1;
      while m < |items|
        invariant |items| == |old(items)| && k + 1 <= m
        invariant forall i :: 0 <= i < |items| ==>
          items[i] == (if k < i < m && old(items)[i] == from then to else old(items)[i])
      {
        if items[m] == from {
          items := items[m := to];
        }
        m := m + 1;
      }
    }
  }

  /** p lists each of 0 .. n-1 once: n distinct indices below n. */
  predicate IsPermutation(p: seq<int>, n: nat)
  {
    |p| == n && Grouping.Distinct(p) && forall k :: 0 <= k < n ==> 0 <= p[k] < n
  }

  /** r after exchanging i and j. */
  function Swapped(r: int, i: int, j: int): int
  {
    if r == i then j else if r == j then i else r
  }

  /** Exchanging two entries of a permutation gives a permutation. */
  lemma SwapPermutation(p: seq<int>, n: nat, i: nat, j: nat)
    requires IsPermutation(p, n) && i < n && j < n
    ensures IsPermutation(p[i := p[j]][j := p[i]], n)
    ensures forall r :: 0 <= r < n ==> p[i := p[j]][j := p[i]][r] == p[Swapped(r, i, j)]
  {
    var q := p[i := p[j]][j := p[i]];
    forall a, b | 0 <= a < b < n
      ensures q[a] != q[b]
    {
      assert q[a] == p[Swapped(a, i, j)] && q[b] == p[Swapped(b, i, j)];
    }
  }

  // ---------------------------------------------------------------------
  // Counting
  // ---------------------------------------------------------------------

  /** How many of s[0..n) equal v. */
  function Occurrences(s: seq<int>, v: int, n: nat): (r: nat)
    requires n <= |s|
    ensures r <= n
  {
    if n == 0 then 0 else Occurrences(s, v, n - 1) + (if s[n - 1] == v then 1 else 0)
  }

  lemma {:induction false} OccurrencesUpdate(s: seq<int>, v: int, i: nat, x: int, n: nat)
    requires i < |s| && n <= |s|
    ensures Occurrences(s[i := x], v, n)
         == Occurrences(s, v, n) - (if i < n && s[i] == v then 1 else 0) + (if i < n && x == v then 1 else 0)
  {
    if n > 0 {
      OccurrencesUpdate(s, v, i, x, n - 1);
    }
  }

  /** Sequences that agree on which entries equal v have as many of them. */
  lemma {:induction false} OccurrencesSameMask(s: seq<int>, t: seq<int>, v: int, n: nat)
    requires n <= |s| && n <= |t|
    requires forall k :: 0 <= k < n ==> (s[k] == v <==> t[k] == v)
    ensures Occurrences(s, v, n) == Occurrences(t, v, n)
  {
    if n > 0 {
      OccurrencesSameMask(s, t, v, n - 1);
    }
  }

  /** A positive count has a witness. */
  lemma {:induction false} FindOccurrence(s: seq<int>, v: int, n: nat) returns (k: nat)
    requires n <= |s| && Occurrences(s, v, n) > 0
    ensures k < n && s[k] == v
  {
    if s[n - 1] == v {
      k := n - 1;
    } else {
      k := FindOccurrence(s, v, n - 1);
    }
  }

  /** A count below n has an entry that differs. */
  lemma {:induction false} FindOther(s: seq<int>, v: int, n: nat) returns (k: nat)
    requires n <= |s| && Occurrences(s, v, n) < n
    ensures k < n && s[k] != v
  {
    if s[n - 1] != v {
      k := n - 1;
    } else {
      k := FindOther(s, v, n - 1);
    }
  }

  /** Column states of inactivation_pivoting. */
  const Active: int := 0
  const Inactivated: int := 1
  const Removed: int := 2

  /** Every column active: the state array after its memset. */
  function Idle(n: nat): (r: seq<int>)
    ensures |r| == n && forall j :: 0 <= j < n ==> r[j] == Active
  {
    seq(n, _ => Active)
  }

  /** The nonzero entries of row[0..n) in active columns. */
  function NzActive(row: seq<bv8>, state: seq<int>, n: nat): (r: nat)
    requires n <= |row| && n <= |state|
    ensures r <= n
  {
    if n == 0 then 0 else NzActive(row, state, n - 1) + (if state[n - 1] == Active && row[n - 1] != 0 then 1 else 0)
  }

  /** Taking column c out of the active set removes its entry from the count. */
  lemma {:induction false} NzActiveUpdate(row: seq<bv8>, state: seq<int>, c: nat, x: int, n: nat)
    requires n <= |row| && n <= |state| && c < |state| && state[c] == Active && x != Active
    ensures NzActive(row, state[c := x], n) == NzActive(row, state, n) - (if c < n && row[c] != 0 then 1 else 0)
  {
    if n > 0 {
      NzActiveUpdate(row, state, c, x, n - 1);
    }
  }

  /** A count of one is the one active nonzero entry. */
  lemma {:induction false} NzActiveSingle(row: seq<bv8>, state: seq<int>, c: nat, n: nat)
    requires n <= |row| && n <= |state| && c < n
    requires NzActive(row, state, n) == 1 && state[c] == Active && row[c] != 0
    ensures forall j :: 0 <= j < n && j != c && state[j] == Active ==> row[j] == 0
  {
    if c < n - 1 {
      if state[n - 1] == Active && row[n - 1] != 0 {
        NzActiveNone(row, state, n - 1);
      } else {
        NzActiveSingle(row, state, c, n - 1);
      }
    } else {
      NzActiveNone(row, state, n - 1);
    }
  }

  /** Only zeros in active columns count to zero. */
  lemma {:induction false} NzActiveNone(row: seq<bv8>, state: seq<int>, n: nat)
    requires n <= |row| && n <= |state|
    ensures (forall j :: 0 <= j < n && state[j] == Active ==> row[j] == 0) <==> NzActive(row, state, n) == 0
  {
    if n > 0 {
      NzActiveNone(row, state, n - 1);
    }
  }

  /** The nonzero entries of column c in rows 0 .. n-1. */
  function NzColumn(A: Matrix, c: nat, n: nat): (r: nat)
    requires n <= |A| && forall i :: 0 <= i < n ==> c < |A[i]|
    ensures r <= n
  {
    if n == 0 then 0 else NzColumn(A, c, n - 1) + (if A[n - 1][c] != 0 then 1 else 0)
  }

  // ---------------------------------------------------------------------
  // The scans of inactivation_pivoting
  // ---------------------------------------------------------------------

  /**
   * The counting loops at the start of inactivation_pivoting: row_counts
   * and col_counts hold the nonzero entries of each row and column, and
   * max_col1s the largest column count.
   */
  method InitialCounts(A: Matrix, nrow: nat, ncolA: nat) returns (rowCounts: seq<int>, colCounts: seq<int>, maxCol: int)
    requires |A| == nrow && Rect(A, ncolA)
    ensures |rowCounts| == nrow && |colCounts| == ncolA && maxCol >= 0
    ensures forall r :: 0 <= r < nrow ==> rowCounts[r] == NzActive(A[r], Idle(ncolA), ncolA)
    ensures forall c :: 0 <= c < ncolA ==> colCounts[c] == NzColumn(A, c, nrow) && colCounts[c] <= maxCol
  {
    var idle := Idle(ncolA);
    rowCounts := seq(nrow, _ => 0);
    colCounts := seq(ncolA, _ => 0);
    maxCol := 0;
    var i := 0;
    while i < nrow
      invariant 0 <= i <= nrow && |rowCounts| == nrow && |colCounts| == ncolA && maxCol >= 0
      invariant forall r :: 0 <= r < i ==> rowCounts[r] == NzActive(A[r], idle, ncolA)
      invariant forall r :: i <= r < nrow ==> rowCounts[r] == 0
      invariant forall c :: 0 <= c < ncolA ==> colCounts[c] == NzColumn(A, c, i) && colCounts[c] <= maxCol
    {
      var j := 0;
      while j < ncolA
        invariant 0 <= j <= ncolA && |rowCounts| == nrow && |colCounts| == ncolA && maxCol >= 0
        invariant forall r :: 0 <= r < i ==> rowCounts[r] == NzActive(A[r], idle, ncolA)
        invariant rowCounts[i] == NzActive(A[i], idle, j)
        invariant forall r :: i < r < nrow ==> rowCounts[r] == 0
        invariant forall c :: 0 <= c < j ==> colCounts[c] == NzColumn(A, c, i + 1) && colCounts[c] <= maxCol
        invariant forall c :: j <= c < ncolA ==> colCounts[c] == NzColumn(A, c, i) && colCounts[c] <= maxCol
      {
        if A[i][j] != 0 {
          rowCounts := rowCounts[i := rowCounts[i] + 1];
          colCounts := colCounts[j := colCounts[j] + 1];
          if colCounts[j] > maxCol {
            maxCol := colCounts[j];
          }
        }
        j := j + 1;
      }
      i := i + 1;
    }
  }

  /** The bucket lists ColID_lists[b]: bucket b holds, in descending order, the active columns whose initial count is b. */
  predicate BucketsOk(buckets: seq<seq<int>>, colCounts: seq<int>, maxCol: int, state: seq<int>, ncolA: nat)
  {
    |buckets| == maxCol + 1 && |colCounts| == ncolA && |state| == ncolA &&
    (forall c :: 0 <= c < ncolA ==> 0 <= colCounts[c] <= maxCol) &&
    (forall b :: 0 <= b < |buckets| ==> Descending(buckets[b])) &&
    (forall b, k :: 0 <= b < |buckets| && 0 <= k < |buckets[b]| ==>
       0 <= buckets[b][k] < ncolA && colCounts[buckets[b][k]] == b && state[buckets[b][k]] == Active) &&
    (forall j :: 0 <= j < ncolA && state[j] == Active ==> j in buckets[colCounts[j]])
  }

  /** The loop that inserts every column at the beginning of its bucket, in increasing order. */
  method FillBuckets(colCounts: seq<int>, maxCol: int, ncolA: nat) returns (buckets: seq<seq<int>>)
    requires |colCounts| == ncolA && maxCol >= 0 && forall c :: 0 <= c < ncolA ==> 0 <= colCounts[c] <= maxCol
    ensures BucketsOk(buckets, colCounts, maxCol, Idle(ncolA), ncolA)
  {
    buckets := seq(maxCol + 1, _ => []);
    var i := 0;
    while i < ncolA
      invariant 0 <= i <= ncolA && |buckets| == maxCol + 1
      invariant forall b :: 0 <= b < |buckets| ==> Descending(buckets[b])
      invariant forall b, k :: 0 <= b < |buckets| && 0 <= k < |buckets[b]| ==>
                  0 <= buckets[b][k] < i && colCounts[buckets[b][k]] == b
      invariant forall j :: 0 <= j < i ==> j in buckets[colCounts[j]]
    {
      var b := colCounts[i];
      buckets := buckets[b := [i] + buckets[b]];
      i := i + 1;
    }
  }

  /** The first row with row_counts[i] == 1, or -1. */
  method FirstSingletonRow(rowCounts: seq<int>) returns (r: int)
    ensures -1 <= r < |rowCounts|
    ensures r == -1 <==> forall i :: 0 <= i < |rowCounts| ==> rowCounts[i] != 1
    ensures r >= 0 ==> rowCounts[r] == 1 && forall i :: 0 <= i < r ==> rowCounts[i] != 1
  {
    r := -1;
    var i := 0;
    while i < |rowCounts|
      invariant 0 <= i <= |rowCounts| && forall k :: 0 <= k < i ==> rowCounts[k] != 1
    {
      if rowCounts[i] == 1 {
        r := i;
        return;
      }
      i := i + 1;
    }
  }

  /** The lowest active column j with row[j] != 0, or -1 (the loop before the exit(1) error). */
  method FirstActiveNonzero(row: seq<bv8>, state: seq<int>, n: nat) returns (c: int)
    requires n <= |row| && n <= |state|
    ensures -1 <= c < n
    ensures c == -1 ==> NzActive(row, state, n) == 0
    ensures c >= 0 ==> state[c] == Active && row[c] != 0
    ensures c >= 0 ==> forall j :: 0 <= j < c ==> !(state[j] == Active && row[j] != 0)
  {
    c := -1;
    var j := 0;
    while j < n
      invariant 0 <= j <= n && forall k :: 0 <= k < j ==> !(state[k] == Active && row[k] != 0)
    {
      if state[j] == Active && row[j] != 0 {
        c := j;
        return;
      }
      j := j + 1;
    }
    NzActiveNone(row, state, n);
  }

  /** The search of a bucket for column c: its position, or |s| when absent. */
  method Position(s: seq<int>, c: int) returns (k: nat)
    ensures k <= |s|
    ensures k < |s| ==> s[k] == c
    ensures forall i :: 0 <= i < k ==> s[i] != c
  {
    k := 0;
    while k < |s| && s[k] != c
      invariant k <= |s| && forall i :: 0 <= i < k ==> s[i] != c
    {
      k := k + 1;
    }
  }

  /** The scan from ColID_lists[max_col1s] down: the highest non-empty bucket, or -1. */
  method HighestBucket(buckets: seq<seq<int>>) returns (b: int)
    ensures -1 <= b < |buckets|
    ensures b >= 0 ==> buckets[b] != []
    ensures forall i :: b < i < |buckets| ==> buckets[i] == []
  {
    b := |buckets| - 1;
    while b >= 0 && buckets[b] == []
      invariant -1 <= b < |buckets| && forall i :: b < i < |buckets| ==> buckets[i] == []
    {
      b := b - 1;
    }
  }

  /** The row_counts update when column c leaves the active set: unselected rows with a nonzero in c lose one. */
  method DropColumn(A: Matrix, rowCounts: seq<int>, c: nat, ncolA: nat) returns (r: seq<int>)
    requires |rowCounts| == |A| && Rect(A, ncolA) && c < ncolA
    ensures |r| == |rowCounts|
    ensures forall i :: 0 <= i < |r| ==>
      r[i] == (if rowCounts[i] != -1 && A[i][c] != 0 then rowCounts[i] - 1 else rowCounts[i])
  {
    r := rowCounts;
    var i := 0;
    while i < |A|
      invariant 0 <= i <= |A| && |r| == |rowCounts|
      invariant forall k :: 0 <= k < i ==>
        r[k] == (if rowCounts[k] != -1 && A[k][c] != 0 then rowCounts[k] - 1 else rowCounts[k])
      invariant forall k :: i <= k < |A| ==> r[k] == rowCounts[k]
    {
      if r[i] != -1 && A[i][c] != 0 {
        r := r[i := r[i] - 1];
      }
      i := i + 1;
    }
  }

  // ---------------------------------------------------------------------
  // inactivation_pivoting
  // ---------------------------------------------------------------------

  /** No entry equals v: none counted. */
  lemma {:induction false} OccurrencesNone(s: seq<int>, v: int, n: nat)
    requires n <= |s| && forall k :: 0 <= k < n ==> s[k] != v
    ensures Occurrences(s, v, n) == 0
  {
    if n > 0 {
      OccurrencesNone(s, v, n - 1);
    }
  }

  /** Every entry equals v: all counted. */
  lemma {:induction false} OccurrencesAll(s: seq<int>, v: int, n: nat)
    requires n <= |s| && forall k :: 0 <= k < n ==> s[k] == v
    ensures Occurrences(s, v, n) == n
  {
    if n > 0 {
      OccurrencesAll(s, v, n - 1);
    }
  }

  /**
   * row_counts during the search: a selected row holds -1 and is exactly a
   * row of the row pivot list; any other row holds the nonzero entries it
   * has left in active columns.
   */
  ghost predicate RowsOk(A: Matrix, nrow: nat, ncolA: nat, state: seq<int>, rowCounts: seq<int>, rp: seq<int>)
  {
    |A| == nrow && Rect(A, ncolA) && |state| == ncolA && |rowCounts| == nrow &&
    (forall r :: 0 <= r < nrow ==> rowCounts[r] == -1 || rowCounts[r] == NzActive(A[r], state, ncolA)) &&
    (forall r :: 0 <= r < nrow ==> (rowCounts[r] == -1 <==> r in rp)) &&
    Occurrences(rowCounts, -1, nrow) == |rp| &&
    Grouping.Distinct(rp) && (forall k :: 0 <= k < |rp| ==> 0 <= rp[k] < nrow)
  }

  /**
   * The column states: `active` and `inact` count the active and the
   * inactivated columns, and the removed ones are exactly the columns of
   * the column pivot list.
   */
  ghost predicate ColumnsOk(state: seq<int>, ncolA: nat, active: int, inact: int, cp: seq<int>)
  {
    |state| == ncolA &&
    (forall j :: 0 <= j < ncolA ==> Active <= state[j] <= Removed) &&
    active == Occurrences(state, Active, ncolA) && inact == Occurrences(state, Inactivated, ncolA) &&
    |cp| + inact + active == ncolA &&
    Grouping.Distinct(cp) && (forall k :: 0 <= k < |cp| ==> 0 <= cp[k] < ncolA) &&
    (forall j :: 0 <= j < ncolA ==> (state[j] == Removed <==> j in cp))
  }

  /**
   * The singleton pivots chosen so far: each pivot entry is nonzero, an
   * earlier pivot row is zero in every later pivot column, and a pivot row
   * is zero in every column still active.
   */
  ghost predicate PivotsOk(A: Matrix, nrow: nat, ncolA: nat, state: seq<int>, rp: seq<int>, cp: seq<int>)
  {
    |A| == nrow && Rect(A, ncolA) && |state| == ncolA && |rp| == |cp| &&
    (forall k :: 0 <= k < |rp| ==> 0 <= rp[k] < nrow && 0 <= cp[k] < ncolA) &&
    (forall k :: 0 <= k < |rp| ==> A[rp[k]][cp[k]] != 0) &&
    (forall l, k :: 0 <= l < k < |rp| ==> A[rp[l]][cp[k]] == 0) &&
    (forall l, j :: 0 <= l < |rp| && 0 <= j < ncolA && state[j] == Active ==> A[rp[l]][j] == 0)
  }

  /** The loop invariant of the `while (active != 0)` search. */
  ghost predicate Searching(A: Matrix, nrow: nat, ncolA: nat, colCounts: seq<int>, maxCol: int, state: seq<int>,
                            rowCounts: seq<int>, buckets: seq<seq<int>>, active: int, inact: int, rp: seq<int>, cp: seq<int>)
  {
    RowsOk(A, nrow, ncolA, state, rowCounts, rp) && ColumnsOk(state, ncolA, active, inact, cp) &&
    BucketsOk(buckets, colCounts, maxCol, state, ncolA) && PivotsOk(A, nrow, ncolA, state, rp, cp)
  }

  /** Marking row pr selected and appending it to the row pivot list. */
  lemma RowsSelect(A: Matrix, nrow: nat, ncolA: nat, state: seq<int>, rowCounts: seq<int>, rp: seq<int>, pr: nat)
    requires RowsOk(A, nrow, ncolA, state, rowCounts, rp) && pr < nrow && rowCounts[pr] != -1
    ensures RowsOk(A, nrow, ncolA, state, rowCounts[pr := -1], rp + [pr])
  {
    OccurrencesUpdate(rowCounts, -1, pr, -1, nrow);
    var rp' := rp + [pr];
    assert pr !in rp;
    forall a, b | 0 <= a < b < |rp'|
      ensures rp'[a] != rp'[b]
    {
      if b < |rp| {
        assert rp'[a] == rp[a] && rp'[b] == rp[b];
      }
    }
  }

  /** Column c leaving the active set, with row_counts updated as DropColumn does. */
  lemma RowsDrop(A: Matrix, nrow: nat, ncolA: nat, state: seq<int>, rowCounts: seq<int>, rp: seq<int>,
                 c: nat, x: int, dropped: seq<int>)
    requires RowsOk(A, nrow, ncolA, state, rowCounts, rp) && c < ncolA && state[c] == Active && x != Active
    requires |dropped| == nrow
    requires forall i :: 0 <= i < nrow ==>
      dropped[i] == (if rowCounts[i] != -1 && A[i][c] != 0 then rowCounts[i] - 1 else rowCounts[i])
    ensures RowsOk(A, nrow, ncolA, state[c := x], dropped, rp)
  {
    forall r | 0 <= r < nrow
      ensures dropped[r] == -1 || dropped[r] == NzActive(A[r], state[c := x], ncolA)
      ensures dropped[r] == -1 <==> rowCounts[r] == -1
    {
      if rowCounts[r] != -1 {
        NzActiveUpdate(A[r], state, c, x, ncolA);
      }
    }
    OccurrencesSameMask(rowCounts, dropped, -1, nrow);
  }

  /** The column states after column c moves from active to x. */
  lemma ColumnsLeave(state: seq<int>, ncolA: nat, active: int, inact: int, cp: seq<int>, c: nat, x: int)
    requires ColumnsOk(state, ncolA, active, inact, cp) && c < ncolA && state[c] == Active
    requires x == Inactivated || x == Removed
    ensures ColumnsOk(state[c := x], ncolA, active - 1, if x == Inactivated then inact + 1 else inact,
                      if x == Removed then cp + [c] else cp)
  {
    OccurrencesUpdate(state, Active, c, x, ncolA);
    OccurrencesUpdate(state, Inactivated, c, x, ncolA);
    if x == Removed {
      var cp' := cp + [c];
      assert c !in cp;
      forall a, b | 0 <= a < b < |cp'|
        ensures cp'[a] != cp'[b]
      {
        if b < |cp| {
          assert cp'[a] == cp[a] && cp'[b] == cp[b];
        }
      }
    }
  }

  /** The buckets after column c, at position k of its bucket, is unlinked and leaves the active set. */
  lemma BucketsLeave(buckets: seq<seq<int>>, colCounts: seq<int>, maxCol: int, state: seq<int>, ncolA: nat,
                     c: nat, k: nat, x: int)
    requires BucketsOk(buckets, colCounts, maxCol, state, ncolA) && c < ncolA && x != Active
    requires k < |buckets[colCounts[c]]| && buckets[colCounts[c]][k] == c
    ensures BucketsOk(buckets[colCounts[c] := RemoveAt(buckets[colCounts[c]], k)], colCounts, maxCol, state[c := x], ncolA)
  {
    var b := colCounts[c];
    RemoveDescending(buckets[b], k);
    RemoveAtEntries(buckets[b], k);
  }

  /**
   * The singleton branch: the first row with one active nonzero entry and
   * the lowest active column where it is nonzero become the next pivot;
   * the row is marked -1, the rows sharing the column lose one, and the
   * column leaves its bucket and the active set.
   */
  method SingletonPivot(A: Matrix, nrow: nat, ncolA: nat, colCounts: seq<int>, maxCol: int, state: seq<int>,
                        rowCounts: seq<int>, buckets: seq<seq<int>>, active: int, inact: int,
                        ghost rp: seq<int>, ghost cp: seq<int>, pr: nat)
    returns (pc: nat, state': seq<int>, rowCounts': seq<int>, buckets': seq<seq<int>>)
    requires Searching(A, nrow, ncolA, colCounts, maxCol, state, rowCounts, buckets, active, inact, rp, cp)
    requires pr < nrow && rowCounts[pr] == 1
    ensures pc < ncolA && state[pc] == Active && A[pr][pc] != 0
    ensures Searching(A, nrow, ncolA, colCounts, maxCol, state', rowCounts', buckets', active - 1, inact, rp + [pr], cp + [pc])
  {
    var c := FirstActiveNonzero(A[pr], state, ncolA);
    if c == -1 {
      // exit(1) in the source: a row counting one active nonzero entry always has it
      assert false;
    }
    pc := c;
    NzActiveSingle(A[pr], state, pc, ncolA);
    RowsSelect(A, nrow, ncolA, state, rowCounts, rp, pr);
    var selected := rowCounts[pr := -1];
    rowCounts' := DropColumn(A, selected, pc, ncolA);
    RowsDrop(A, nrow, ncolA, state, selected, rp + [pr], pc, Removed, rowCounts');
    var b := colCounts[pc];
    var k := Position(buckets[b], pc);
    buckets' := buckets[b := RemoveAt(buckets[b], k)];
    BucketsLeave(buckets, colCounts, maxCol, state, ncolA, pc, k, Removed);
    ColumnsLeave(state, ncolA, active, inact, cp, pc, Removed);
    state' := state[pc := Removed];
    PivotsGrow(A, nrow, ncolA, state, rp, cp, pr, pc);
  }

  /** The singleton pivot (pr, pc) extends the pivot structure. */
  lemma PivotsGrow(A: Matrix, nrow: nat, ncolA: nat, state: seq<int>, rp: seq<int>, cp: seq<int>, pr: nat, pc: nat)
    requires PivotsOk(A, nrow, ncolA, state, rp, cp) && pr < nrow && pc < ncolA
    requires state[pc] == Active && A[pr][pc] != 0
    requires forall j :: 0 <= j < ncolA && j != pc && state[j] == Active ==> A[pr][j] == 0
    ensures PivotsOk(A, nrow, ncolA, state[pc := Removed], rp + [pr], cp + [pc])
  {
  }

  /**
   * The branch without a singleton row: the head of the highest non-empty
   * bucket, an active column with the most nonzero entries, is
   * inactivated and the rows with a nonzero entry there lose one.
   */
  method InactivateColumn(A: Matrix, nrow: nat, ncolA: nat, colCounts: seq<int>, maxCol: int, state: seq<int>,
                          rowCounts: seq<int>, buckets: seq<seq<int>>, active: int, inact: int,
                          ghost rp: seq<int>, ghost cp: seq<int>)
    returns (c: nat, state': seq<int>, rowCounts': seq<int>, buckets': seq<seq<int>>)
    requires Searching(A, nrow, ncolA, colCounts, maxCol, state, rowCounts, buckets, active, inact, rp, cp)
    requires active != 0
    ensures c < ncolA && state[c] == Active && state' == state[c := Inactivated]
    ensures forall j :: 0 <= j < ncolA && state[j] == Active ==> colCounts[j] <= colCounts[c]
    ensures Searching(A, nrow, ncolA, colCounts, maxCol, state', rowCounts', buckets', active - 1, inact + 1, rp, cp)
  {
    ghost var w := FindOccurrence(state, Active, ncolA);
    assert w in buckets[colCounts[w]];
    var b := HighestBucket(buckets);
    if b == -1 {
      // the scan always finds a column: the buckets hold every active column
      assert false;
    }
    c := buckets[b][0];
    forall j | 0 <= j < ncolA && state[j] == Active
      ensures colCounts[j] <= colCounts[c]
    {
      assert j in buckets[colCounts[j]];
    }
    rowCounts' := DropColumn(A, rowCounts, c, ncolA);
    RowsDrop(A, nrow, ncolA, state, rowCounts, rp, c, Inactivated, rowCounts');
    buckets' := buckets[b := RemoveAt(buckets[b], 0)];
    BucketsLeave(buckets, colCounts, maxCol, state, ncolA, c, 0, Inactivated);
    ColumnsLeave(state, ncolA, active, inact, cp, c, Inactivated);
    state' := state[c := Inactivated];
  }

  /** Counting a longer prefix never counts fewer. */
  lemma {:induction false} OccurrencesMono(s: seq<int>, v: int, m: nat, n: nat)
    requires m <= n <= |s|
    ensures Occurrences(s, v, m) <= Occurrences(s, v, n)
    decreases n - m
  {
    if m < n {
      OccurrencesMono(s, v, m, n - 1);
    }
  }

  /**
   * The row chosen for a dense pivot in column col: the first unselected
   * row with a nonzero entry there, or else the last unselected row.
   */
  method DenseRow(A: Matrix, rowCounts: seq<int>, col: nat, ncolA: nat) returns (j: nat)
    requires |rowCounts| == |A| && Rect(A, ncolA) && col < ncolA
    requires exists r :: 0 <= r < |rowCounts| && rowCounts[r] != -1
    ensures j < |A| && rowCounts[j] != -1
    ensures A[j][col] != 0 ==> forall k :: 0 <= k < j && rowCounts[k] != -1 ==> A[k][col] == 0
    ensures A[j][col] == 0 ==> forall k :: 0 <= k < |A| && rowCounts[k] != -1 ==> A[k][col] == 0
    ensures A[j][col] == 0 ==> forall k :: j < k < |A| ==> rowCounts[k] == -1
  {
    var candidate := -1;
    var i := 0;
    while i < |A|
      invariant 0 <= i <= |A| && -1 <= candidate < i
      invariant candidate == -1 ==> forall k :: 0 <= k < i ==> rowCounts[k] == -1
      invariant candidate >= 0 ==> rowCounts[candidate] != -1 && forall k :: candidate < k < i ==> rowCounts[k] == -1
      invariant forall k :: 0 <= k < i && rowCounts[k] != -1 ==> A[k][col] == 0
    {
      if rowCounts[i] != -1 {
        candidate := i;
        if A[i][col] != 0 {
          break;
        }
      }
      i := i + 1;
    }
    j := candidate;
  }

  /**
   * The pivots inactivation_pivoting returns: ncolA distinct rows and all
   * ncolA columns, the last ias columns (the inactivated ones) in
   * increasing order, and the first ncolA - ias pivots lower triangular:
   * nonzero at their own entry and zero in every later pivot column.
   */
  ghost predicate PivotSequence(A: Matrix, nrow: nat, ncolA: nat, rp: seq<int>, cp: seq<int>, ias: int)
  {
    |A| == nrow && Rect(A, ncolA) && 0 <= ias <= ncolA && |rp| == ncolA && |cp| == ncolA &&
    Grouping.Distinct(rp) && (forall k :: 0 <= k < ncolA ==> 0 <= rp[k] < nrow) &&
    Grouping.Distinct(cp) && (forall k :: 0 <= k < ncolA ==> 0 <= cp[k] < ncolA) &&
    (forall k :: ncolA - ias <= k < ncolA - 1 ==> cp[k] < cp[k + 1]) &&
    (forall k :: 0 <= k < ncolA - ias ==> A[rp[k]][cp[k]] != 0) &&
    (forall l, k :: 0 <= l < k < ncolA - ias ==> A[rp[l]][cp[k]] == 0)
  }

  /** row_counts in the dense-pivot loop: -1 marks exactly the rows of the row pivot list. */
  ghost predicate RowsTaken(nrow: nat, rc: seq<int>, rp: seq<int>)
  {
    |rc| == nrow && (forall r :: 0 <= r < nrow ==> (rc[r] == -1 <==> r in rp)) &&
    Occurrences(rc, -1, nrow) == |rp| &&
    Grouping.Distinct(rp) && (forall k :: 0 <= k < |rp| ==> 0 <= rp[k] < nrow)
  }

  /**
   * The columns in the dense-pivot loop before column i: those below i
   * that were inactivated are now removed and appended, in increasing
   * order, after the s singleton pivots.
   */
  ghost predicate ColumnsTaken(ncolA: nat, mid: seq<int>, s: nat, cp0: seq<int>, i: nat, st: seq<int>, cp: seq<int>)
  {
    i <= ncolA && |mid| == ncolA && |st| == ncolA && |cp0| == s &&
    (forall j :: 0 <= j < ncolA ==> st[j] == (if j < i && mid[j] == Inactivated then Removed else mid[j])) &&
    Grouping.Distinct(cp) && (forall k :: 0 <= k < |cp| ==> 0 <= cp[k] < ncolA) &&
    (forall j :: 0 <= j < ncolA ==> (st[j] == Removed <==> j in cp)) &&
    s <= |cp| && cp[..s] == cp0 &&
    (forall k :: s <= k < |cp| ==> cp[k] < i) &&
    (forall k :: s <= k < |cp| - 1 ==> cp[k] < cp[k + 1]) &&
    |cp| == s + Occurrences(mid, Inactivated, i)
  }

  /** The state of the dense-pivot loop before column i. */
  ghost predicate Dense(nrow: nat, ncolA: nat, mid: seq<int>, s: nat, rp0: seq<int>, cp0: seq<int>,
                        i: nat, st: seq<int>, rc: seq<int>, rp: seq<int>, cp: seq<int>)
  {
    RowsTaken(nrow, rc, rp) && ColumnsTaken(ncolA, mid, s, cp0, i, st, cp) &&
    |rp| == |cp| && |rp0| == s && rp[..s] == rp0
  }

  /** Column i was not inactivated: nothing to pair. */
  lemma DenseSkip(nrow: nat, ncolA: nat, mid: seq<int>, s: nat, rp0: seq<int>, cp0: seq<int>,
                  i: nat, st: seq<int>, rc: seq<int>, rp: seq<int>, cp: seq<int>)
    requires Dense(nrow, ncolA, mid, s, rp0, cp0, i, st, rc, rp, cp) && i < ncolA && st[i] != Inactivated
    ensures Dense(nrow, ncolA, mid, s, rp0, cp0, i + 1, st, rc, rp, cp)
  {
  }

  /** Selecting the unselected row j. */
  lemma RowsTake(nrow: nat, rc: seq<int>, rp: seq<int>, j: nat)
    requires RowsTaken(nrow, rc, rp) && j < nrow && rc[j] != -1
    ensures RowsTaken(nrow, rc[j := -1], rp + [j])
  {
    AppendFresh(rp, j);
    OccurrencesUpdate(rc, -1, j, -1, nrow);
  }

  /** Removing the inactivated column i and appending it. */
  lemma ColumnsTake(ncolA: nat, mid: seq<int>, s: nat, cp0: seq<int>, i: nat, st: seq<int>, cp: seq<int>)
    requires ColumnsTaken(ncolA, mid, s, cp0, i, st, cp) && i < ncolA && st[i] == Inactivated
    ensures ColumnsTaken(ncolA, mid, s, cp0, i + 1, st[i := Removed], cp + [i])
  {
    AppendFresh(cp, i);
    assert (cp + [i])[..s] == cp[..s];
  }

  /** One inactivated column i paired with the row DenseRow chooses. */
  method DenseStep(A: Matrix, nrow: nat, ncolA: nat, ghost mid: seq<int>, s: nat, ghost rp0: seq<int>, ghost cp0: seq<int>,
                   i: nat, st: seq<int>, rc: seq<int>, ghost rp: seq<int>, ghost cp: seq<int>)
    returns (j: nat, st': seq<int>, rc': seq<int>)
    requires |A| == nrow && Rect(A, ncolA) && ncolA <= nrow
    requires Dense(nrow, ncolA, mid, s, rp0, cp0, i, st, rc, rp, cp) && i < ncolA && st[i] == Inactivated
    requires s + Occurrences(mid, Inactivated, ncolA) == ncolA
    ensures Dense(nrow, ncolA, mid, s, rp0, cp0, i + 1, st', rc', rp + [j], cp + [i])
  {
    OccurrencesMono(mid, Inactivated, i + 1, ncolA);
    ghost var free := FindOther(rc, -1, nrow);
    j := DenseRow(A, rc, i, ncolA);
    RowsTake(nrow, rc, rp, j);
    ColumnsTake(ncolA, mid, s, cp0, i, st, cp);
    rc' := rc[j := -1];
    st' := st[i := Removed];
    assert (rp + [j])[..s] == rp[..s];
  }

  /**
   * The loop after the search: every inactivated column, in increasing
   * order, is paired with an unselected row (DenseRow) and appended to
   * the pivot lists.
   */
  method DensePivots(A: Matrix, nrow: nat, ncolA: nat, state: seq<int>, rowCounts: seq<int>, ias: int,
                     rowPivots: SubscriptList, colPivots: SubscriptList)
    requires ncolA <= nrow && rowPivots != colPivots
    requires RowsOk(A, nrow, ncolA, state, rowCounts, rowPivots.items)
    requires ColumnsOk(state, ncolA, 0, ias, colPivots.items)
    requires PivotsOk(A, nrow, ncolA, state, rowPivots.items, colPivots.items)
    modifies rowPivots`items, colPivots`items
    ensures PivotSequence(A, nrow, ncolA, rowPivots.items, colPivots.items, ias)
  {
    ghost var rp0, cp0, mid := rowPivots.items, colPivots.items, state;
    var s := |colPivots.items|;
    var st, rc := state, rowCounts;
    DenseStart(A, nrow, ncolA, state, rowCounts, ias, rp0, cp0);
    var i := 0;
    while i < ncolA
      invariant Dense(nrow, ncolA, mid, s, rp0, cp0, i, st, rc, rowPivots.items, colPivots.items)
    {
      if st[i] == Inactivated {
        var j;
        j, st, rc := DenseStep(A, nrow, ncolA, mid, s, rp0, cp0, i, st, rc, rowPivots.items, colPivots.items);
        rowPivots.InsertAtEnd(j);
        colPivots.InsertAtEnd(i);
      } else {
        DenseSkip(nrow, ncolA, mid, s, rp0, cp0, i, st, rc, rowPivots.items, colPivots.items);
      }
      i := i + 1;
    }
    DenseEnd(A, nrow, ncolA, mid, ias, rp0, cp0, st, rc, rowPivots.items, colPivots.items);
  }

  /** The dense loop starts from the state the search ends in. */
  lemma DenseStart(A: Matrix, nrow: nat, ncolA: nat, state: seq<int>, rowCounts: seq<int>, ias: int, rp: seq<int>, cp: seq<int>)
    requires RowsOk(A, nrow, ncolA, state, rowCounts, rp) && ColumnsOk(state, ncolA, 0, ias, cp)
    requires PivotsOk(A, nrow, ncolA, state, rp, cp)
    ensures Dense(nrow, ncolA, state, |cp|, rp, cp, 0, state, rowCounts, rp, cp)
    ensures |cp| + Occurrences(state, Inactivated, ncolA) == ncolA
  {
    assert rp[..|cp|] == rp && cp[..|cp|] == cp;
  }

  /** After the dense loop, the lists form the pivot sequence. */
  lemma DenseEnd(A: Matrix, nrow: nat, ncolA: nat, mid: seq<int>, ias: int, rp0: seq<int>, cp0: seq<int>,
                 st: seq<int>, rc: seq<int>, rp: seq<int>, cp: seq<int>)
    requires PivotsOk(A, nrow, ncolA, mid, rp0, cp0) && ColumnsOk(mid, ncolA, 0, ias, cp0)
    requires Dense(nrow, ncolA, mid, |cp0|, rp0, cp0, ncolA, st, rc, rp, cp)
    ensures PivotSequence(A, nrow, ncolA, rp, cp, ias)
  {
    PivotsPrefix(A, nrow, ncolA, mid, rp0, cp0, rp, cp);
  }

  /** Appending an index not yet in a list of distinct indices keeps it distinct. */
  lemma AppendFresh(s: seq<int>, x: int)
    requires Grouping.Distinct(s) && x !in s
    ensures Grouping.Distinct(s + [x])
  {
    var t := s + [x];
    forall a, b | 0 <= a < b < |t|
      ensures t[a] != t[b]
    {
      if b < |s| {
        assert t[a] == s[a] && t[b] == s[b];
      }
    }
  }

  /** The singleton pivots keep their structure as a prefix of the final lists. */
  lemma PivotsPrefix(A: Matrix, nrow: nat, ncolA: nat, state: seq<int>, rp0: seq<int>, cp0: seq<int>, rp: seq<int>, cp: seq<int>)
    requires PivotsOk(A, nrow, ncolA, state, rp0, cp0)
    requires |cp0| <= |rp| && |cp0| <= |cp| && rp[..|cp0|] == rp0 && cp[..|cp0|] == cp0
    ensures forall k :: 0 <= k < |cp0| ==> A[rp[k]][cp[k]] != 0
    ensures forall l, k :: 0 <= l < k < |cp0| ==> A[rp[l]][cp[k]] == 0
  {
    assert forall k :: 0 <= k < |cp0| ==> rp[k] == rp0[k] && cp[k] == cp0[k];
  }

  /** The search starts with every column active and no pivot. */
  lemma SearchStart(A: Matrix, nrow: nat, ncolA: nat, colCounts: seq<int>, maxCol: int, rowCounts: seq<int>, buckets: seq<seq<int>>)
    requires |A| == nrow && Rect(A, ncolA) && |rowCounts| == nrow
    requires forall r :: 0 <= r < nrow ==> rowCounts[r] == NzActive(A[r], Idle(ncolA), ncolA)
    requires BucketsOk(buckets, colCounts, maxCol, Idle(ncolA), ncolA)
    ensures Searching(A, nrow, ncolA, colCounts, maxCol, Idle(ncolA), rowCounts, buckets, ncolA, 0, [], [])
  {
    OccurrencesNone(rowCounts, -1, nrow);
    OccurrencesAll(Idle(ncolA), Active, ncolA);
    OccurrencesNone(Idle(ncolA), Inactivated, ncolA);
  }

  /**
   * inactivation_pivoting: count the nonzero entries, bucket the columns
   * by count, then until no column is active either take the pivot of the
   * first singleton row or inactivate a column with the most nonzero
   * entries, and finally pair the inactivated columns with unselected
   * rows.  Returns the number of inactivated columns.
   */
  method InactivationPivoting(nrow: nat, ncolA: nat, A: Matrix, rowPivots: SubscriptList, colPivots: SubscriptList)
    returns (ias: int)
    requires |A| == nrow && Rect(A, ncolA) && ncolA <= nrow
    requires rowPivots != colPivots && rowPivots.items == [] && colPivots.items == []
    modifies rowPivots`items, colPivots`items
    ensures PivotSequence(A, nrow, ncolA, rowPivots.items, colPivots.items, ias)
  {
    var rowCounts, colCounts, maxCol := InitialCounts(A, nrow, ncolA);
    var buckets := FillBuckets(colCounts, maxCol, ncolA);
    SearchStart(A, nrow, ncolA, colCounts, maxCol, rowCounts, buckets);
    var state, inactivated;
    state, rowCounts, inactivated := Search(A, nrow, ncolA, colCounts, maxCol, rowCounts, buckets, rowPivots, colPivots);
    DensePivots(A, nrow, ncolA, state, rowCounts, inactivated, rowPivots, colPivots);
    ias := inactivated;
  }

  /** The `while (active != 0)` loop of inactivation_pivoting; it ends with no active column. */
  method Search(A: Matrix, nrow: nat, ncolA: nat, colCounts: seq<int>, maxCol: int, rowCounts0: seq<int>,
                buckets0: seq<seq<int>>, rowPivots: SubscriptList, colPivots: SubscriptList)
    returns (state: seq<int>, rowCounts: seq<int>, inactivated: int)
    requires rowPivots != colPivots && rowPivots.items == [] && colPivots.items == []
    requires Searching(A, nrow, ncolA, colCounts, maxCol, Idle(ncolA), rowCounts0, buckets0, ncolA, 0, [], [])
    modifies rowPivots`items, colPivots`items
    ensures RowsOk(A, nrow, ncolA, state, rowCounts, rowPivots.items)
    ensures ColumnsOk(state, ncolA, 0, inactivated, colPivots.items)
    ensures PivotsOk(A, nrow, ncolA, state, rowPivots.items, colPivots.items)
  {
    var buckets := buckets0;
    state, rowCounts := Idle(ncolA), rowCounts0;
    inactivated := 0;
    var active := ncolA;
    while active != 0
      invariant Searching(A, nrow, ncolA, colCounts, maxCol, state, rowCounts, buckets, active, inactivated,
                          rowPivots.items, colPivots.items)
      decreases active
    {
      var pr := FirstSingletonRow(rowCounts);
      if pr >= 0 {
        var pc;
        pc, state, rowCounts, buckets := SingletonPivot(A, nrow, ncolA, colCounts, maxCol, state, rowCounts, buckets,
                                                        active, inactivated, rowPivots.items, colPivots.items, pr);
        rowPivots.InsertAtEnd(pr);
        colPivots.InsertAtEnd(pc);
      } else {
        var c;
        c, state, rowCounts, buckets := InactivateColumn(A, nrow, ncolA, colCounts, maxCol, state, rowCounts, buckets,
                                                         active, inactivated, rowPivots.items, colPivots.items);
        inactivated := inactivated + 1;
      }
      active := active - 1;
    }
  }
}
