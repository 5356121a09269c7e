/**
 * The global decoding matrix (GDM) of the overlap-aware decoder once it is
 * OA-ready (src/decoderOA.c, gncOADecoder.c).
 *
 * The GDM has numpp + aoh rows over the numpp = snum + cnum packets.  Its
 * columns are in the order the pivoting chose: otoc maps a packet to its
 * column and ctoo a column to its packet.  Pivoting leaves the first numpp
 * rows in a fixed form, which every later step keeps: the na active
 * columns are diagonal with nonzero diagonal entries, and the inactive
 * corner, rows and columns na .. numpp - 1, is upper triangular.
 *
 * The correctness statements are relative to packets Y in column order:
 * every row of the first numpp with a nonzero diagonal entry, read from
 * its diagonal on, is an equation of Y with its message as payload.
 */
module GlobalMatrix {
  import opened GaloisArith
  import opened GaloisPrimitive
  import opened Packets
  import opened Grouping
  import opened Decoding
  import opened SncEncoder
  import opened CompactRows
  import opened DecoderBd
  import opened Reordering
  import opened Pivoting
  import Linear
  import PivotRounds
  import Gaussian

  /** At least n coefficient rows of n entries, and as many messages of w bytes. */
  predicate Gdm(J: Matrix, B: Matrix, n: nat, w: nat)
  {
    n <= |J| && Linear.Rect(J, n) && Messages(B, |J|, w)
  }

  /**
   * The form of the first n rows after pivoting with na active columns:
   * the active block is diagonal with nonzero diagonal entries, and below
   * the diagonal the inactive corner is zero.
   */
  predicate Pivoted(J: Matrix, n: nat, na: nat)
  {
    na <= n <= |J| && Linear.Rect(J, n) &&
    (forall r, c :: 0 <= r < na && 0 <= c < na ==> (J[r][c] == 0 <==> r != c)) &&
    (forall r, c :: na <= c < r < n ==> J[r][c] == 0)
  }

  /**
   * Every row of the first n with a nonzero diagonal entry, read from its
   * diagonal on, is an equation of Y with its message as payload.
   */
  ghost predicate GdmHolds(J: Matrix, B: Matrix, n: nat, Y: seq<seq<bv8>>)
    requires n <= |J| && Linear.Rect(J, n) && n <= |B|
  {
    RowsHold(View(J[..n], 1, true), B[..n], Y)
  }

  /** The zero row with a zero payload is an equation of any packets. */
  lemma ZeroRowHolds(w: nat, X: seq<seq<bv8>>)
    requires Linear.Rect(X, w)
    ensures Holds(Zeros(|X|), Zeros(w), X)
  {
    forall c | 0 <= c < w
      ensures Linear.Dot(Zeros(|X|), Linear.Column(X, c)) == Zeros(w)[c]
    {
      Linear.DotZero(Zeros(|X|), Linear.Column(X, c));
    }
  }

  // ---------------------------------------------------------------------
  // Building and pivoting the GDM
  // ---------------------------------------------------------------------

  /**
   * The GDM as it is allocated, with the precoding applied: numpp + aoh
   * zero rows with zero messages, except row snum + aoh + i, which is the
   * parity vector of check i.  When every check packet is the sum of its
   * neighbours, every row is an equation of the packets.
   */
  method CheckRows(snum: nat, aoh: nat, checks: seq<seq<nat>>, w: nat) returns (J: Matrix, B: Matrix)
    requires NamesSources(checks, snum)
    ensures Gdm(J, B, snum + |checks|, w) && |J| == snum + |checks| + aoh
    ensures forall r :: 0 <= r < snum + aoh ==> J[r] == Zeros(snum + |checks|)
    ensures forall i :: 0 <= i < |checks| ==>
      InPackets(checks[i], snum) && J[snum + aoh + i] == ParityRow(checks[i], snum, i, snum + |checks|)
    ensures forall r :: 0 <= r < |B| ==> B[r] == Zeros(w)
    ensures forall X :: ChecksAreSums(X, snum, checks, w) && Linear.Rect(X, w) ==> AllHold(J, B, X)
  {
    var n := snum + |checks|;
    J := seq(n + aoh, _ => Zeros(n));
    B := seq(n + aoh, _ => Zeros(w));
    var i := 0;
    while i < |checks|
      invariant 0 <= i <= |checks| && |J| == n + aoh && Linear.Rect(J, n)
      invariant forall r :: 0 <= r < snum + aoh ==> J[r] == Zeros(n)
      invariant forall r :: snum + aoh + i <= r < n + aoh ==> J[r] == Zeros(n)
      invariant forall k :: 0 <= k < i ==> InPackets(checks[k], snum) && J[snum + aoh + k] == ParityRow(checks[k], snum, k, n)
    {
      assert InPackets(checks[i], snum) by {
        forall k | 0 <= k < |checks[i]|
          ensures checks[i][k] < snum
        {
        }
      }
      var ces := ParityVector(checks[i], snum, i, n);
      J := J[snum + aoh + i := ces];
      i := i + 1;
    }
    forall X | ChecksAreSums(X, snum, checks, w) && Linear.Rect(X, w)
      ensures AllHold(J, B, X)
    {
      CheckRowsHold(J, B, snum, aoh, checks, w, X);
    }
  }

  /** Zero rows and the parity rows of checks that are the sums of their neighbours are equations of X. */
  lemma CheckRowsHold(J: Matrix, B: Matrix, snum: nat, aoh: nat, checks: seq<seq<nat>>, w: nat, X: seq<seq<bv8>>)
    requires NamesSources(checks, snum) && ChecksAreSums(X, snum, checks, w) && Linear.Rect(X, w)
    requires |J| == snum + |checks| + aoh && |B| == |J|
    requires forall r :: 0 <= r < snum + aoh ==> J[r] == Zeros(snum + |checks|)
    requires forall i :: 0 <= i < |checks| ==> J[snum + aoh + i] == ParityRow(checks[i], snum, i, snum + |checks|)
    requires forall r :: 0 <= r < |B| ==> B[r] == Zeros(w)
    ensures AllHold(J, B, X)
  {
    forall r | 0 <= r < |J|
      ensures Holds(J[r], B[r], X)
    {
      if r < snum + aoh {
        ZeroRowHolds(w, X);
      } else {
        ParityRowEquation(X, snum, checks, w, r - snum - aoh);
      }
    }
  }

  /** The rows the pivoting leaves are in pivoted form. */
  lemma PivotedShape(J: Matrix, B: Matrix, E: Matrix, EB: Matrix, S: Matrix, SB: Matrix, na: nat, n: nat, w: nat)
    requires PivotedTo(J, B, E, EB, S, SB, na, n, w)
    requires PivotRounds.Diagonalised(E, na) && Linear.UpperTriangular(S, n - na)
    ensures Pivoted(J, n, na)
  {
    forall r, c | 0 <= r < na && 0 <= c < na
      ensures J[r][c] == 0 <==> r != c
    {
      assert J[r][c] == E[r][c];
    }
    forall r, c | na <= c < r < n
      ensures J[r][c] == 0
    {
      assert J[r][c] == S[r - na][c - na];
    }
  }

  /**
   * The pivoting step of construct_GDM and the count after it: the GDM is
   * pivoted in place with one round of inactivation pivoting, otoc
   * filled, ctoo set to its inverse, and global_DoF set to the number of
   * nonzero diagonal entries of the first numpp rows.  The first numpp
   * rows end in pivoted form with the returned number of inactive
   * columns, and when every row was an equation of X, the rows read from
   * their diagonals are equations of X in column order.
   */
  method PivotGdm(J0: Matrix, B0: Matrix, n: nat, w: nat, ghost X: seq<seq<bv8>>)
    returns (J: Matrix, B: Matrix, otoc: seq<int>, ctoo: seq<int>, inactives: int, dof: int)
    requires Gdm(J0, B0, n, w)
    ensures Gdm(J, B, n, w) && |J| == |J0| && 0 <= inactives <= n && Pivoted(J, n, n - inactives)
    ensures PivotRounds.Inverses(otoc, ctoo) && |ctoo| == n
    ensures dof == Pivots(J[..n], 0)
    ensures |X| == n && Linear.Rect(X, w) && AllHold(J0, B0, X) ==> GdmHolds(J, B, n, Reordered(X, ctoo))
  {
    ghost var cp;
    J, B, otoc, cp, inactives := PivotRows(J0, B0, n, w, X);
    ctoo := InvertOrder(otoc, cp);
    var missing := MissingDof(J[..n]);
    dof := n - missing;
  }

  /**
   * The in-place pivoting of PivotGdm on the GDM copied into arrays: the
   * rows end in pivoted form, otoc is the inverse of the column order cp,
   * and rows that were equations of X become equations of X in order cp.
   */
  method PivotRows(J0: Matrix, B0: Matrix, n: nat, w: nat, ghost X: seq<seq<bv8>>)
    returns (J: Matrix, B: Matrix, otoc: seq<int>, ghost cp: seq<int>, inactives: int)
    requires Gdm(J0, B0, n, w)
    ensures Gdm(J, B, n, w) && |J| == |J0| && 0 <= inactives <= n && Pivoted(J, n, n - inactives)
    ensures PivotRounds.Inverses(otoc, cp) && |cp| == n
    ensures |X| == n && Linear.Rect(X, w) && AllHold(J0, B0, X) ==> GdmHolds(J, B, n, Reordered(X, cp))
  {
    var A := PivotRounds.ToArray(J0, |J0|, n);
    var M := PivotRounds.ToArray(B0, |J0|, w);
    var oc := new int[n](i => i);
    ghost var na, rp, pos, ops, ops2, E, EB, S, SB;
    inactives, na, rp, cp, pos, ops, ops2, E, EB, S, SB := PivotRounds.PivotMatrixOneRound(A, M, oc);
    J, B := PivotRounds.Snapshot(A), PivotRounds.Snapshot(M);
    otoc := oc[..];
    assert PivotedTo(J, B, E, EB, S, SB, na, n, w);
    PivotedShape(J, B, E, EB, S, SB, na, n, w);
    if |X| == n && Linear.Rect(X, w) && AllHold(J0, B0, X) {
      PivotedRowsHold(J0, B0, X, J, B, 1, w, rp, cp, inactives, na, pos, ops, ops2, E, EB, S, SB);
    }
  }

  // ---------------------------------------------------------------------
  // Processing a packet against the GDM
  // ---------------------------------------------------------------------

  /**
   * The translation at the start of the OA-ready branch: a zeroed vector of
   * numpp entries with re_ordered[otoc[ids[i]]] = co[i] in turn.  It is the
   * vector of the same assignments in packet order, read in column order.
   */
  method GlobalVector(otoc: seq<int>, ghost ctoo: seq<int>, ids: seq<int>, co: seq<bv8>) returns (u: seq<bv8>)
    requires PivotRounds.Inverses(otoc, ctoo) && InPackets(ids, |otoc|) && |co| == |ids|
    ensures u == Reordered(Assigned(co, ids, |otoc|, |ids|), ctoo)
  {
    var n := |otoc|;
    u := Zeros(n);
    var i := 0;
    while i < |ids|
      invariant 0 <= i <= |ids| && |u| == n
      invariant forall k :: 0 <= k < n ==> u[k] == Assigned(co, ids, n, i)[ctoo[k]]
    {
      ghost var a := Assigned(co, ids, n, i);
      assert Assigned(co, ids, n, i + 1) == a[ids[i] := co[i]];
      var p := otoc[ids[i]];
      u := u[p := co[i]];
      forall k | 0 <= k < n
        ensures u[k] == a[ids[i] := co[i]][ctoo[k]]
      {
        assert ctoo[k] == ids[i] <==> k == p;
      }
      i := i + 1;
    }
    assert u == Reordered(Assigned(co, ids, n, |ids|), ctoo);
  }

  /**
   * A packet coded from distinct members ids of X, with its vector
   * assigned at the members' positions and read in column order, is an
   * equation of X in column order.
   */
  lemma CodedInColumnOrder(X: seq<seq<bv8>>, ids: seq<int>, co: seq<bv8>, w: nat, ctoo: seq<int>)
    requires |co| == |ids| && InPackets(ids, |X|) && Distinct(ids) && Linear.Rect(X, w) && IsPermutation(ctoo, |X|)
    ensures Covers(X, ids, w)
    ensures Holds(Reordered(Assigned(co, ids, |X|, |ids|), ctoo), Accumulate(Zeros(w), X, ids, co, |ids|), Reordered(X, ctoo))
  {
    CodedEquation(co, ids, X, w);
    AssignedIsCombined(co, ids, |X|, |ids|);
    HoldsReordered(Assigned(co, ids, |X|, |ids|), Accumulate(Zeros(w), X, ids, co, |ids|), X, ctoo);
  }

  /**
   * Reducing with an active row only touches its diagonal and the
   * inactive columns: adding q times its part from column na on and
   * clearing entry m is adding q times the whole row from its diagonal on.
   */
  lemma ActiveStep(J: Matrix, n: nat, na: nat, m: nat, v: seq<bv8>)
    requires Pivoted(J, n, na) && m < na && |v| == n
    ensures J[m][m] != 0
    ensures AddScaledAt(v, na, J[m][na..], Div(v[m], J[m][m]))[m := 0] == AddScaledAt(v, m, J[m][m..], Div(v[m], J[m][m]))
  {
    var q := Div(v[m], J[m][m]);
    PowersAreDistinct();
    MulZero(q);
    ClearsPivot(v, m, J[m][m..]);
    var lhs, rhs := AddScaledAt(v, na, J[m][na..], q)[m := 0], AddScaledAt(v, m, J[m][m..], q);
    forall k | 0 <= k < n
      ensures lhs[k] == rhs[k]
    {
      if m < k < na {
        assert J[m][k] == 0;
      }
    }
  }

  /**
   * One step of the reduction loop of the OA-ready branch, at a nonzero
   * entry m whose row has a nonzero diagonal entry: v[m] / J[m][m] times
   * row m is added, and the same multiple of its message.  An active row
   * is added from column na on only, with entry m set to zero.  Either way
   * the reduction from m is the reduction of the result from m + 1, the
   * entries up to m are zero when those before m were, and an equation of
   * Y stays one when the rows are.
   */
  method ReduceAt(J: Matrix, B: Matrix, n: nat, na: nat, m: nat, v0: seq<bv8>, msg0: seq<bv8>, ghost Y: seq<seq<bv8>>)
    returns (v: seq<bv8>, msg: seq<bv8>)
    requires Gdm(J, B, n, |msg0|) && Pivoted(J, n, na) && m < n && |v0| == n && v0[m] != 0 && J[m][m] != 0
    ensures |v| == n && |msg| == |msg0|
    ensures ReduceFrom(View(J[..n], 1, true), v0, m) == ReduceFrom(View(J[..n], 1, true), v, m + 1)
    ensures v[m] == 0 && forall k :: 0 <= k < m ==> v[k] == v0[k]
    ensures GdmHolds(J, B, n, Y) && Holds(v0, msg0, Y) ==> Holds(v, msg, Y)
  {
    var q := Div(v0[m], J[m][m]);
    if m < na {
      ActiveStep(J, n, na, m, v0);
      v := AddScaledAt(v0, na, J[m][na..], q)[m := 0];
    } else {
      v := AddScaledAt(v0, m, J[m][m..], q);
    }
    msg := AddScaled(msg0, B[m], q);
    assert v == AddScaledAt(v0, m, J[m][m..], q);
    var row := View(J[..n], 1, true);
    assert J[..n][m] == J[m];
    assert J[m][m..m + (n - m)] == J[m][m..];
    assert row[m].value == J[m][m..];
    ClearsPivot(v0, m, J[m][m..]);
    if GdmHolds(J, B, n, Y) && Holds(v0, msg0, Y) {
      assert B[..n][m] == B[m];
      ReduceHolds(v0, msg0, m, J[m][m..], B[m], q, Y);
    }
  }

  /**
   * The reduction loop of the OA-ready branch: at each nonzero entry m in
   * turn the vector is reduced against row m of the GDM when its diagonal
   * entry is nonzero, and otherwise m is the pivot.  The result is the
   * reduction against the rows read from their diagonals; a pivot lies
   * where the GDM has no row, at or after na, with the vector zero before
   * it; and an equation of Y stays one when the rows are.
   */
  method ReduceGlobal(J: Matrix, B: Matrix, n: nat, na: nat, u0: seq<bv8>, msg0: seq<bv8>, ghost Y: seq<seq<bv8>>)
    returns (pivot: int, v: seq<bv8>, msg: seq<bv8>)
    requires Gdm(J, B, n, |msg0|) && Pivoted(J, n, na) && |u0| == n
    ensures (pivot, v) == ReduceFrom(View(J[..n], 1, true), u0, 0) && |msg| == |msg0|
    ensures pivot >= 0 ==> na <= pivot && J[pivot][pivot] == 0 && v[pivot] != 0
    ensures forall k :: 0 <= k < n && (pivot < 0 || k < pivot) ==> v[k] == 0
    ensures GdmHolds(J, B, n, Y) && Holds(u0, msg0, Y) ==> Holds(v, msg, Y)
  {
    ghost var row := View(J[..n], 1, true);
    ghost var ok := GdmHolds(J, B, n, Y) && Holds(u0, msg0, Y);
    pivot, v, msg := -1, u0, msg0;
    var m := 0;
    while m < n
      invariant 0 <= m <= n && |v| == n && |msg| == |msg0|
      invariant ReduceFrom(row, v, m) == ReduceFrom(row, u0, 0)
      invariant forall k :: 0 <= k < m ==> v[k] == 0
      invariant ok ==> Holds(v, msg, Y)
    {
      if v[m] != 0 {
        if J[m][m] != 0 {
          v, msg := ReduceAt(J, B, n, na, m, v, msg, Y);
        } else {
          assert J[..n][m] == J[m];
          pivot := m;
          break;
        }
      }
      m := m + 1;
    }
  }

  /**
   * The OA-ready branch of process_packet_OA on the GDM: the vector, in
   * column order, is reduced and, when a pivot is found, stored whole with
   * its payload in the pivot's row, which gains a nonzero diagonal entry;
   * a vector that reduces to zero changes nothing.  The GDM keeps its
   * pivoted form, and its rows stay equations of Y when the packet is one.
   */
  method StoreGlobal(J0: Matrix, B0: Matrix, n: nat, na: nat, u0: seq<bv8>, msg0: seq<bv8>, ghost Y: seq<seq<bv8>>)
    returns (pivot: int, J: Matrix, B: Matrix)
    requires Gdm(J0, B0, n, |msg0|) && Pivoted(J0, n, na) && |u0| == n
    ensures Gdm(J, B, n, |msg0|) && |J| == |J0| && Pivoted(J, n, na)
    ensures pivot == ReduceFrom(View(J0[..n], 1, true), u0, 0).0
    ensures pivot == -1 ==> J == J0 && B == B0
    ensures pivot >= 0 ==>
      na <= pivot && J0[pivot][pivot] == 0 && J[pivot][pivot] != 0 &&
      J == J0[pivot := ReduceFrom(View(J0[..n], 1, true), u0, 0).1] && B == B0[pivot := B[pivot]]
    ensures Pivots(J[..n], 0) == Pivots(J0[..n], 0) + (if pivot >= 0 then 1 else 0)
    ensures GdmHolds(J0, B0, n, Y) && Holds(u0, msg0, Y) ==> GdmHolds(J, B, n, Y)
  {
    var v, msg;
    pivot, v, msg := ReduceGlobal(J0, B0, n, na, u0, msg0, Y);
    J, B := J0, B0;
    if pivot >= 0 {
      PivotsSet(J0[..n], pivot, v, 0);
      if GdmHolds(J0, B0, n, Y) && Holds(u0, msg0, Y) {
        TailHolds(J0[..n], B0[..n], pivot, v, msg, 1, Y);
      }
      J, B := J0[pivot := v], B0[pivot := msg];
      assert J[..n] == J0[..n][pivot := v] && B[..n] == B0[..n][pivot := msg];
    }
  }

  // ---------------------------------------------------------------------
  // Recovering the packets
  // ---------------------------------------------------------------------

  /** The inactive corner: rows and columns na .. n - 1. */
  function InactiveCorner(J: Matrix, n: nat, na: nat): (C: Matrix)
    requires na <= n <= |J| && Linear.Rect(J, n)
    ensures |C| == n - na && Linear.Rect(C, n - na)
    ensures forall r, c :: 0 <= r < n - na && 0 <= c < n - na ==> C[r][c] == J[na + r][na + c]
  {
    seq(n - na, r requires 0 <= r < n - na => J[na + r][na..n])
  }

  /**
   * When the rows of a pivoted GDM with a full diagonal are equations of
   * Y, the inactive corner and its messages form a system that the
   * inactive packets solve: a corner row is zero before its diagonal, so
   * it is the whole row read from column na.
   */
  lemma CornerHolds(J: Matrix, B: Matrix, n: nat, na: nat, w: nat, Y: seq<seq<bv8>>)
    requires Gdm(J, B, n, w) && Pivoted(J, n, na) && forall d :: na <= d < n ==> J[d][d] != 0
    requires |Y| == n && Linear.Rect(Y, w) && GdmHolds(J, B, n, Y)
    ensures Linear.Solves(InactiveCorner(J, n, na), B[na..n], Y[na..], n - na, w)
  {
    forall r, c | 0 <= r < n - na && 0 <= c < w
      ensures Linear.Dot(InactiveCorner(J, n, na)[r], Linear.Column(Y[na..], c)) == B[na..n][r][c]
    {
      CornerRowHolds(J, B, n, na, w, Y, r, c);
    }
  }

  /** A row of the first n with a nonzero diagonal entry, read from its diagonal on, is an equation of Y. */
  lemma DiagonalRowHolds(J: Matrix, B: Matrix, n: nat, Y: seq<seq<bv8>>, i: nat)
    requires n <= |J| && Linear.Rect(J, n) && n <= |B| && GdmHolds(J, B, n, Y) && i < n && J[i][i] != 0
    ensures Holds(Expand(i, J[i][i..n], n), B[i], Y)
  {
    var row := View(J[..n], 1, true);
    assert row[i].Some? && row[i].value == J[i][i..n] by {
      assert J[..n][i] == J[i];
      assert J[i][i..i + (n - i)] == J[i][i..n];
    }
    assert B[..n][i] == B[i];
  }

  /** One entry of CornerHolds: corner row r against column c of the inactive packets. */
  lemma CornerRowHolds(J: Matrix, B: Matrix, n: nat, na: nat, w: nat, Y: seq<seq<bv8>>, r: nat, c: nat)
    requires Gdm(J, B, n, w) && Pivoted(J, n, na) && forall d :: na <= d < n ==> J[d][d] != 0
    requires |Y| == n && Linear.Rect(Y, w) && GdmHolds(J, B, n, Y) && r < n - na && c < w
    ensures Linear.Dot(InactiveCorner(J, n, na)[r], Linear.Column(Y[na..], c)) == B[na..n][r][c]
  {
    var C := InactiveCorner(J, n, na);
    var i := na + r;
    var e := Expand(i, J[i][i..n], n);
    DiagonalRowHolds(J, B, n, Y, i);
    var col := Linear.Column(Y, c);
    DotSkipZeros(e, col, na);
    CornerRowExpanded(J, n, na, r);
    assert col[na..] == Linear.Column(Y[na..], c);
  }

  /** A corner row is zero before its diagonal, so read from column na it is the corner's row. */
  lemma CornerRowExpanded(J: Matrix, n: nat, na: nat, r: nat)
    requires Pivoted(J, n, na) && r < n - na
    ensures Expand(na + r, J[na + r][na + r..n], n)[na..] == InactiveCorner(J, n, na)[r]
  {
  }

  /**
   * The first step of diagonalize_GDM: back_substitute on the inactive
   * corner, in place on its messages.  Only the messages of rows na .. n - 1
   * change, and when the rows are equations of Y those messages become the
   * inactive packets of Y.
   */
  method SolveInactive(J: Matrix, B0: Matrix, n: nat, na: nat, w: nat, ghost Y: seq<seq<bv8>>) returns (B: Matrix)
    requires Gdm(J, B0, n, w) && Pivoted(J, n, na) && forall d :: na <= d < n ==> J[d][d] != 0
    ensures Messages(B, |J|, w)
    ensures forall r :: 0 <= r < |J| && !(na <= r < n) ==> B[r] == B0[r]
    ensures |Y| == n && Linear.Rect(Y, w) && GdmHolds(J, B0, n, Y) ==> B[na..n] == Y[na..]
  {
    var ias := n - na;
    var C := InactiveCorner(J, n, na);
    var S := BackSolve(C, B0[na..n], ias, w);
    B := B0[..na] + S + B0[n..];
    if |Y| == n && Linear.Rect(Y, w) && GdmHolds(J, B0, n, Y) {
      CornerHolds(J, B0, n, na, w, Y);
      assert B[na..n] == S;
    }
  }

  /**
   * back_substitute on copies of an upper triangular system with a nonzero
   * diagonal: the result is the system's one solution.
   */
  method BackSolve(C: Matrix, CB: Matrix, ias: nat, w: nat) returns (S: Matrix)
    requires |C| == ias && Linear.Rect(C, ias) && |CB| == ias && Linear.Rect(CB, w)
    requires forall r, c :: 0 <= c < r < ias ==> C[r][c] == 0
    requires forall d :: 0 <= d < ias ==> C[d][d] != 0
    ensures |S| == ias && Linear.Rect(S, w)
    ensures forall Z :: Linear.Solves(C, CB, Z, ias, w) <==> Z == S
  {
    var A := PivotRounds.ToArray(C, ias, ias);
    var M := PivotRounds.ToArray(CB, ias, w);
    ghost var blockA, blockB := Gaussian.Block(A, ias, ias), Gaussian.Block(M, ias, w);
    assert blockA == C && blockB == CB;
    ghost var ops := Gaussian.BackSubstitute(ias, ias, w, A, M);
    S := PivotRounds.Snapshot(M);
    assert S == Gaussian.Block(M, ias, w);
  }

  /** Clearing entry j of an equation of Y against the known packet Y[j]: the payload gains v[j] times Y[j]. */
  lemma ClearKnown(v: seq<bv8>, msg: seq<bv8>, j: nat, Y: seq<seq<bv8>>)
    requires Holds(v, msg, Y) && j < |v|
    ensures Holds(v[j := 0], AddScaled(msg, Y[j], v[j]), Y)
  {
    var n, q := |v|, v[j];
    var u := Unit(n, j);
    forall c | 0 <= c < |msg|
      ensures Linear.Dot(u, Linear.Column(Y, c)) == Y[j][c]
    {
      Linear.DotUnit(u, Linear.Column(Y, c), j);
    }
    PowersAreDistinct();
    MulZero(q);
    MulOne(q);
    assert v[j := 0] == AddScaled(v, u, q);
    HoldsAddScaled(v, msg, u, Y[j], q, Y);
  }

  /** Scaling a row that is zero but for a nonzero entry i by its inverse gives the unit vector at i. */
  lemma ScaledToUnit(row: seq<bv8>, i: nat)
    requires i < |row| && row[i] != 0 && forall c :: 0 <= c < |row| && c != i ==> row[c] == 0
    ensures Scaled(row, Div(1, row[i])) == Unit(|row|, i)
  {
    PowersAreDistinct();
    MulZero(Div(1, row[i]));
    DivIsMulInverse(1, row[i]);
    MulCommutes(Div(1, row[i]), row[i]);
    assert Scaled(row, Div(1, row[i])) == Unit(|row|, i);
  }

  /**
   * One active row of diagonalize_GDM: each nonzero entry from column na on
   * is cleared against the packet already recovered for that column,
   * pp[ctoo[j]], with the message following; then the row is scaled to 1
   * on its diagonal.  The row ends as the unit vector at i, and an
   * equation of Y whose inactive packets are the recovered ones ends with
   * Y[i] as its message.
   */
  method ClearActiveRow(row0: seq<bv8>, msg0: seq<bv8>, i: nat, na: nat, pp: seq<seq<bv8>>, ctoo: seq<int>,
                        ghost Y: seq<seq<bv8>>)
    returns (row: seq<bv8>, msg: seq<bv8>)
    requires i < na <= |row0| && row0[i] != 0 && forall c :: 0 <= c < na && c != i ==> row0[c] == 0
    requires |ctoo| == |row0| && forall j :: na <= j < |row0| ==> 0 <= ctoo[j] < |pp| && |pp[ctoo[j]]| == |msg0|
    ensures row == Unit(|row0|, i) && |msg| == |msg0|
    ensures Holds(row0, msg0, Y) && (forall j :: na <= j < |row0| ==> pp[ctoo[j]] == Y[j]) ==> msg == Y[i]
  {
    var n := |row0|;
    ghost var ok := Holds(row0, msg0, Y) && forall j :: na <= j < n ==> pp[ctoo[j]] == Y[j];
    row, msg := row0, msg0;
    var j := na;
    while j < n
      invariant na <= j <= n && |row| == n && |msg| == |msg0| && row[i] == row0[i]
      invariant forall c :: 0 <= c < j && c != i ==> row[c] == 0
      invariant forall c :: j <= c < n ==> row[c] == row0[c]
      invariant ok ==> Holds(row, msg, Y)
    {
      if row[j] != 0 {
        var q := row[j];
        if ok {
          ClearKnown(row, msg, j, Y);
        }
        msg := AddScaled(msg, pp[ctoo[j]], q);
        row := row[j := 0];
      }
      j := j + 1;
    }
    if row[i] != 1 {
      var q := Div(1, row[i]);
      ScaledToUnit(row, i);
      if ok {
        HoldsScaled(row, msg, q, Y);
      }
      msg := Scaled(msg, q);
      row := row[i := 1];
    }
    assert row == Unit(n, i);
    if ok {
      HoldsUnit(i, msg, Y);
    }
  }

  /** The active rows of a GDM whose rows are equations of Y are themselves, in full, equations of Y. */
  lemma ActiveRowsHold(J: Matrix, B: Matrix, n: nat, na: nat, Y: seq<seq<bv8>>)
    requires n <= |J| && Linear.Rect(J, n) && n <= |B| && Pivoted(J, n, na) && GdmHolds(J, B, n, Y)
    ensures forall r :: 0 <= r < na ==> Holds(J[r], B[r], Y)
  {
    forall r | 0 <= r < na
      ensures Holds(J[r], B[r], Y)
    {
      assert View(J[..n], 1, true)[r].value == J[r][r..n] by {
        assert J[..n][r] == J[r];
        assert J[r][r..r + (n - r)] == J[r][r..n];
      }
      ExpandSlice(J[r], r, n - r);
      assert B[..n][r] == B[r];
    }
  }

  /** The loop of diagonalize_GDM that saves each solved inactive message as the packet of its column. */
  method SaveInactive(B: Matrix, n: nat, na: nat, ctoo: seq<int>, pp0: seq<seq<bv8>>) returns (pp: seq<seq<bv8>>)
    requires na <= n <= |B| && IsPermutation(ctoo, n) && |pp0| == n
    ensures |pp| == n && forall j :: na <= j < n ==> pp[ctoo[j]] == B[j]
  {
    pp := pp0;
    var i := na;
    while i < n
      invariant na <= i <= n && |pp| == n
      invariant forall j :: na <= j < i ==> pp[ctoo[j]] == B[j]
    {
      pp := pp[ctoo[i] := B[i]];
      i := i + 1;
    }
  }

  /**
   * The active loop of diagonalize_GDM: each active row in turn is cleared
   * against the saved inactive packets and scaled to a unit row, and its
   * message saved as the packet of its column.  When the active rows are
   * equations of Y and the saved inactive packets are Y's, every message
   * of the first numpp rows ends as the packet of Y of its column.
   */
  method RecoverActive(J0: Matrix, B0: Matrix, n: nat, na: nat, ctoo: seq<int>, pp0: seq<seq<bv8>>, w: nat,
                       ghost Y: seq<seq<bv8>>)
    returns (J: Matrix, B: Matrix, pp: seq<seq<bv8>>)
    requires Gdm(J0, B0, n, w) && Pivoted(J0, n, na) && IsPermutation(ctoo, n) && |pp0| == n
    requires forall j :: na <= j < n ==> pp0[ctoo[j]] == B0[j]
    ensures Gdm(J, B, n, w) && |J| == |J0| && |pp| == n
    ensures forall r :: 0 <= r < na ==> J[r] == Unit(n, r)
    ensures forall r :: na <= r < |J0| ==> J[r] == J0[r] && B[r] == B0[r]
    ensures forall j :: 0 <= j < n ==> pp[ctoo[j]] == B[j]
    ensures |Y| == n && (forall r :: 0 <= r < na ==> Holds(J0[r], B0[r], Y)) && (forall j :: na <= j < n ==> B0[j] == Y[j]) ==>
      forall j :: 0 <= j < n ==> B[j] == Y[j]
  {
    ghost var ok := |Y| == n && (forall r :: 0 <= r < na ==> Holds(J0[r], B0[r], Y)) &&
                    (forall j :: na <= j < n ==> B0[j] == Y[j]);
    J, B, pp := J0, B0, pp0;
    var i := 0;
    while i < na
      invariant 0 <= i <= na && Gdm(J, B, n, w) && |J| == |J0| && |pp| == n
      invariant forall r :: 0 <= r < i ==> J[r] == Unit(n, r)
      invariant forall r :: i <= r < |J0| ==> J[r] == J0[r] && B[r] == B0[r]
      invariant forall j :: (0 <= j < i || na <= j < n) ==> pp[ctoo[j]] == B[j]
      invariant ok ==> |Y| == n && forall j :: 0 <= j < i ==> B[j] == Y[j]
    {
      var row, msg := ClearActiveRow(J[i], B[i], i, na, pp, ctoo, Y);
      J, B := J[i := row], B[i := msg];
      pp := pp[ctoo[i] := msg];
      i := i + 1;
    }
  }

  /**
   * diagonalize_GDM, once every diagonal entry of the first numpp rows is
   * nonzero: the inactive corner is solved by back substitution and each
   * of its messages saved as the packet of its column, pp[ctoo[j]]; each
   * active row is then cleared against those packets and scaled to 1 on
   * its diagonal, and its message saved as the packet of its column.  The
   * active rows become unit rows, nothing else of the coefficients
   * changes, and when the rows are equations of X in column order, pp is
   * X.
   */
  method DiagonalizeGdm(J0: Matrix, B0: Matrix, n: nat, na: nat, ctoo: seq<int>, pp0: seq<seq<bv8>>, w: nat,
                        ghost X: seq<seq<bv8>>)
    returns (J: Matrix, B: Matrix, pp: seq<seq<bv8>>)
    requires Gdm(J0, B0, n, w) && Pivoted(J0, n, na) && Pivots(J0[..n], 0) == n
    requires IsPermutation(ctoo, n) && |pp0| == n
    ensures Gdm(J, B, n, w) && |J| == |J0| && Pivoted(J, n, na) && Pivots(J[..n], 0) == n
    ensures forall r :: 0 <= r < na ==> J[r] == Unit(n, r)
    ensures forall r :: na <= r < |J0| ==> J[r] == J0[r]
    ensures forall r :: n <= r < |J0| ==> B[r] == B0[r]
    ensures |pp| == n && forall j :: 0 <= j < n ==> pp[ctoo[j]] == B[j]
    ensures |X| == n && Linear.Rect(X, w) && GdmHolds(J0, B0, n, Reordered(X, ctoo)) ==> pp == X
  {
    FullDiagonal(J0, n);
    ghost var Y := if |X| == n then Reordered(X, ctoo) else [];
    ghost var ok := |X| == n && Linear.Rect(X, w) && GdmHolds(J0, B0, n, Y);
    var B1 := SolveInactive(J0, B0, n, na, w, Y);
    var pp1 := SaveInactive(B1, n, na, ctoo, pp0);
    if ok {
      InactiveSolved(J0, B0, B1, n, na, w, Y);
    }
    J, B, pp := RecoverActive(J0, B1, n, na, ctoo, pp1, w, Y);
    UnitsKeepForm(J0, J, n, na);
    if ok {
      UnreorderedVia(X, ctoo, Y, B, pp);
    }
  }

  /**
   * Once the inactive packets of Y are solved into rows na .. n - 1 of the
   * messages, the active rows, whose messages did not change, are still
   * equations of Y.
   */
  lemma InactiveSolved(J: Matrix, B0: Matrix, B: Matrix, n: nat, na: nat, w: nat, Y: seq<seq<bv8>>)
    requires Gdm(J, B0, n, w) && Pivoted(J, n, na) && GdmHolds(J, B0, n, Y) && |Y| == n && |B| == |J|
    requires forall r :: 0 <= r < |J| && !(na <= r < n) ==> B[r] == B0[r]
    requires B[na..n] == Y[na..]
    ensures forall r :: 0 <= r < na ==> Holds(J[r], B[r], Y)
    ensures forall j :: na <= j < n ==> B[j] == Y[j]
  {
    ActiveRowsHold(J, B0, n, na, Y);
    assert forall j :: na <= j < n ==> B[j] == B[na..n][j - na];
  }

  /** All n pivots of the first n rows are their diagonal entries, so none of them is zero. */
  lemma FullDiagonal(J: Matrix, n: nat)
    requires n <= |J| && Linear.Rect(J, n) && Pivots(J[..n], 0) == n
    ensures forall d :: 0 <= d < n ==> J[d][d] != 0
  {
    PivotsFull(J[..n], 0);
    forall d | 0 <= d < n
      ensures J[d][d] != 0
    {
      assert J[..n][d] == J[d];
    }
  }

  /**
   * Replacing the active rows of a pivoted GDM with a full diagonal by
   * unit rows keeps it pivoted with a full diagonal.
   */
  lemma UnitsKeepForm(J0: Matrix, J: Matrix, n: nat, na: nat)
    requires Pivoted(J0, n, na) && Pivots(J0[..n], 0) == n && |J| == |J0| && Linear.Rect(J, n)
    requires forall r :: 0 <= r < na ==> J[r] == Unit(n, r)
    requires forall r :: na <= r < |J0| ==> J[r] == J0[r]
    ensures Pivoted(J, n, na) && Pivots(J[..n], 0) == n
  {
    FullDiagonal(J0, n);
    PivotsSameDiagonal(J0[..n], J[..n], 0);
  }

  /** Packets recovered in column order and written back through ctoo are the packets themselves. */
  lemma UnreorderedVia(X: seq<seq<bv8>>, ctoo: seq<int>, Y: seq<seq<bv8>>, B: Matrix, pp: seq<seq<bv8>>)
    requires IsPermutation(ctoo, |X|) && Y == Reordered(X, ctoo) && |pp| == |X| && |X| <= |B|
    requires forall j :: 0 <= j < |X| ==> pp[ctoo[j]] == B[j]
    requires forall j :: 0 <= j < |X| ==> B[j] == Y[j]
    ensures pp == X
  {
    Unreordered(X, ctoo, Y, pp);
  }

  // ---------------------------------------------------------------------
  // gncOADecoder.c: the second pivoting round and the count after it
  // ---------------------------------------------------------------------

  /**
   * The remap after the second pivoting round of
   * construct_GDM_inactivation: the inactive tail of ctoo is put in the
   * order cols of the second round's column pivots, and otoc is rebuilt as
   * its inverse.  The active prefix stays, and ctoo stays a permutation
   * with otoc its inverse.
   */
  method RemapInactive(otoc0: seq<int>, ctoo0: seq<int>, na: nat, cols: seq<int>) returns (otoc: seq<int>, ctoo: seq<int>)
    requires PivotRounds.Inverses(otoc0, ctoo0) && na <= |ctoo0| && IsPermutation(cols, |ctoo0| - na)
    ensures |ctoo| == |ctoo0| && ctoo[..na] == ctoo0[..na]
    ensures forall i :: 0 <= i < |cols| ==> ctoo[na + i] == ctoo0[na + cols[i]]
    ensures PivotRounds.Inverses(otoc, ctoo)
  {
    var n, ias := |ctoo0|, |ctoo0| - na;
    var partial := seq(ias, _ => 0);
    var i := 0;
    while i < ias
      invariant 0 <= i <= ias && |partial| == ias
      invariant forall k :: 0 <= k < i ==> partial[k] == ctoo0[na + cols[k]]
    {
      partial := partial[i := ctoo0[na + cols[i]]];
      i := i + 1;
    }
    ctoo := ctoo0[..na] + partial;
    RemappedPermutation(ctoo0, na, cols, ctoo);
    otoc := InverseOver(otoc0, ctoo);
  }

  /** The remapped ctoo is still a permutation: its tail is the old tail in another order. */
  lemma RemappedPermutation(ctoo0: seq<int>, na: nat, cols: seq<int>, ctoo: seq<int>)
    requires IsPermutation(ctoo0, |ctoo0|) && na <= |ctoo0| && IsPermutation(cols, |ctoo0| - na)
    requires |ctoo| == |ctoo0| && ctoo[..na] == ctoo0[..na]
    requires forall i :: 0 <= i < |cols| ==> ctoo[na + i] == ctoo0[na + cols[i]]
    ensures IsPermutation(ctoo, |ctoo|)
  {
    var n := |ctoo0|;
    forall k | 0 <= k < n
      ensures 0 <= ctoo[k] < n
    {
      if k < na {
        assert ctoo[k] == ctoo[..na][k];
      } else {
        assert ctoo[k] == ctoo0[na + cols[k - na]];
      }
    }
    forall a, b | 0 <= a < b < n
      ensures ctoo[a] != ctoo[b]
    {
      var a0 := if a < na then a else na + cols[a - na];
      var b0 := if b < na then b else na + cols[b - na];
      assert ctoo[a] == ctoo0[a0] by {
        if a < na {
          assert ctoo[a] == ctoo[..na][a];
        }
      }
      assert ctoo[b] == ctoo0[b0] by {
        if b < na {
          assert ctoo[b] == ctoo[..na][b];
        }
      }
      if na <= a {
        assert cols[a - na] != cols[b - na];
      }
      if a0 < b0 {
        assert ctoo0[a0] != ctoo0[b0];
      } else {
        assert ctoo0[b0] != ctoo0[a0];
      }
    }
  }

  /** otoc rebuilt over its old contents by otoc[ctoo[i]] = i for every i: the inverse of ctoo. */
  method InverseOver(otoc0: seq<int>, ctoo: seq<int>) returns (otoc: seq<int>)
    requires IsPermutation(ctoo, |ctoo|) && |otoc0| == |ctoo|
    ensures PivotRounds.Inverses(otoc, ctoo)
  {
    var oc := otoc0;
    var i := 0;
    while i < |ctoo|
      invariant 0 <= i <= |ctoo| && |oc| == |ctoo|
      invariant forall k :: 0 <= k < i ==> oc[ctoo[k]] == k
    {
      oc := oc[ctoo[i] := i];
      i := i + 1;
    }
    otoc := oc;
    PivotRounds.InverseFromLeft(otoc, ctoo);
  }

  /** Rows lo .. na - 1 of the active block each hold one pivot. */
  lemma {:induction false} PivotsActive(J: Matrix, n: nat, na: nat, lo: nat)
    requires Pivoted(J, n, na) && lo <= na
    ensures Pivots(J[..n], lo) == (na - lo) + Pivots(J[..n], na)
    decreases na - lo
  {
    if lo < na {
      assert J[..n][lo] == J[lo];
      PivotsActive(J, n, na, lo + 1);
    }
  }

  /**
   * The count at the end of construct_GDM_inactivation: global_DoF is
   * numpp less the zero diagonal entries of the inactive corner.  For a
   * pivoted GDM it is the number of nonzero diagonal entries of the first
   * numpp rows, the count construct_GDM makes.
   */
  method CornerDoF(J: Matrix, n: nat, na: nat) returns (dof: int)
    requires Pivoted(J, n, na)
    ensures dof == Pivots(J[..n], 0)
  {
    var ias := n - na;
    var missing := 0;
    var i := 0;
    while i < ias
      invariant 0 <= i <= ias
      invariant missing + Pivots(J[..n], na) - Pivots(J[..n], na + i) == i
    {
      assert J[..n][na + i] == J[na + i];
      if J[na + i][na + i] == 0 {
        missing := missing + 1;
      }
      i := i + 1;
    }
    PivotsActive(J, n, na, 0);
    dof := n - missing;
  }
}
