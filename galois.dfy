/**
 * Table-driven GF(2^8) arithmetic (src/galois.c).
 *
 * The library keeps four static tables: a logarithm table and its inverse
 * (built by iterating multiplication by x from 1), and full 256 x 256
 * multiplication and division tables derived from them.  The tables are the
 * fields of class Field; their builders are methods that return the new
 * tables.  Once the builder for order 8 has run without reaching its
 * exit(1) check, the lookups are proved to be the arithmetic of GF(2^8) with
 * generator x (GaloisArith).
 */
module Galois {
  import opened Wrappers
  import opened GaloisArith
  import opened GaloisPrimitive
  import opened Bytes

  /** GF_POWER: the library always works in GF(2^8). */
  const Power: int := 8
  /** Number of field elements, 1 << GF_POWER. */
  const Size: int := 256
  /** Order of the multiplicative group, (1 << GF_POWER) - 1. */
  const Order: int := 255
  /** Entries of the multiplication and division tables, (1 << GF_POWER) * (1 << GF_POWER). */
  const TableSize: int := 65536

  /** Size parameters and primitive polynomial create_log_table uses for an order m. */
  datatype LogParams = LogParams(nw: bv16, nwml: bv16, poly: bv16)

  /** The supported orders 1, 2, 4 and 8 with polynomials 1, 07, 023 and 0435; others are refused. */
  function ParamsFor(m: int): (r: Option<LogParams>)
    ensures r.Some? <==> m in {1, 2, 4, 8}
    ensures r.Some? ==> r.value.nwml == r.value.nw - 1 && r.value.nw as int <= Size
  {
    if m == 1 then Some(LogParams(2, 1, 1))
    else if m == 2 then Some(LogParams(4, 3, 7))
    else if m == 4 then Some(LogParams(16, 15, 0x13))
    else if m == 8 then Some(LogParams(256, 255, 0x11D))
    else None
  }

  /** One step of the log-table walk: b <<= 1, and reduce by the polynomial if bit nw is set. */
  function NextPower(b: bv16, p: LogParams): bv16
  {
    var s := b << 1;
    if s & p.nw != 0 then (s ^ p.poly) & p.nwml else s
  }

  /** The walk stays inside the field. */
  lemma NextPowerBound(b: bv16, p: LogParams)
    requires p in {LogParams(2, 1, 1), LogParams(4, 3, 7), LogParams(16, 15, 0x13), LogParams(256, 255, 0x11D)}
    requires b < p.nw
    ensures NextPower(b, p) < p.nw
  {
  }

  /** For order 8 one step of the walk is multiplication by x. */
  lemma NextPowerIsXTime(x: bv8)
    ensures NextPower(x as bv16, LogParams(256, 255, 0x11D)) == XTime(x) as bv16
  {
  }

  /** What a successful order-8 run of create_log_table leaves: ilog[k] == x^k and log[x^k] == k. */
  ghost predicate LogTablesValid(log: seq<bv8>, ilog: seq<bv8>)
  {
    Numbered(log, ilog, Order)
  }

  /** The order-8 parameters. */
  const Params8 := LogParams(256, 255, 0x11D)

  /** ilog and log number the first j powers of x. */
  ghost predicate Numbered(log: seq<bv8>, ilog: seq<bv8>, j: nat)
  {
    |log| == Size && |ilog| == Size && j <= Order &&
    forall k: nat :: k < j ==> ilog[k] == Pow(k) && log[Pow(k) as int] == k as bv8
  }

  /** Every byte other than x^0 .. x^(j-1) is still marked 255 in log. */
  ghost predicate OnlyPowers(log: seq<bv8>, j: nat)
  {
    |log| == Size &&
    forall x :: 0 <= x < Size && x !in PowerSet(j) ==> log[x] == 255
  }

  /**
   * The state of the order-8 walk after j steps: b == x^j, the first j powers
   * are numbered in both tables, and every other byte is still unnumbered.
   */
  ghost predicate Walked(log: seq<bv8>, ilog: seq<bv8>, j: nat, b: bv16)
  {
    j <= Order && b == Pow(j) as bv16 && Numbered(log, ilog, j) && OnlyPowers(log, j)
  }

  lemma WalkStart(log: seq<bv8>, ilog: seq<bv8>)
    requires |log| == Size && |ilog| == Size && forall x :: 0 <= x < Size ==> log[x] == 255
    ensures Walked(log, ilog, 0, 1)
  {
  }

  lemma NumberedStep(log: seq<bv8>, ilog: seq<bv8>, j: nat, p: bv8)
    requires PowersDistinct() && Numbered(log, ilog, j) && j < Order && p == Pow(j)
    ensures Numbered(log[p as int := j as bv8], ilog[j := p], j + 1)
  {
    var log', ilog' := log[p as int := j as bv8], ilog[j := p];
    NumberedKeep(log, ilog, j, p);
    assert ilog'[j] == Pow(j) && log'[Pow(j) as int] == j as bv8;
  }

  /** Numbering x^j leaves the numbers of x^0 .. x^(j-1) alone. */
  lemma NumberedKeep(log: seq<bv8>, ilog: seq<bv8>, j: nat, p: bv8)
    requires PowersDistinct() && Numbered(log, ilog, j) && j < Order && p == Pow(j)
    ensures forall k: nat :: k < j ==> ilog[j := p][k] == Pow(k) && log[p as int := j as bv8][Pow(k) as int] == k as bv8
  {
    forall k: nat | k < j
      ensures ilog[j := p][k] == Pow(k) && log[p as int := j as bv8][Pow(k) as int] == k as bv8
    {
      NumberedKeepOne(log, j, p, k);
    }
  }

  /** One earlier power x^k differs from x^j, so its log entry survives. */
  lemma NumberedKeepOne(log: seq<bv8>, j: nat, p: bv8, k: nat)
    requires PowersDistinct() && |log| == Size && k < j < Order && p == Pow(j)
    ensures log[p as int := j as bv8][Pow(k) as int] == log[Pow(k) as int]
  {
    PowersDiffer(k, j);
    var q := Pow(k);
    assert q as int != p as int;
  }

  lemma PowersDiffer(k: nat, j: nat)
    requires PowersDistinct() && k < j < Order
    ensures Pow(k) != Pow(j)
  {
  }

  /** PowerSet(j + 1) adds x^j to PowerSet(j). */
  lemma PowerSetGrows(j: nat)
    ensures PowerSet(j) <= PowerSet(j + 1) && Pow(j) as int in PowerSet(j + 1)
  {
    forall x | x in PowerSet(j)
      ensures x in PowerSet(j + 1)
    {
      var k: nat :| k < j && Pow(k) as int == x;
    }
  }

  lemma OnlyPowersStep(log: seq<bv8>, j: nat, p: bv8)
    requires OnlyPowers(log, j) && j < Order && p == Pow(j)
    ensures OnlyPowers(log[p as int := j as bv8], j + 1)
  {
    PowerSetGrows(j);
  }

  /** The walk never meets a byte it has numbered: x^j is not among x^0 .. x^(j-1). */
  lemma WalkFresh(log: seq<bv8>, ilog: seq<bv8>, j: nat, b: bv16)
    requires PowersDistinct() && Walked(log, ilog, j, b) && j < Order
    ensures log[b as int] == 255
  {
    forall k: nat | k < j
      ensures Pow(k) as int != Pow(j) as int
    {
      assert Pow(k) != Pow(j);
    }
    assert Pow(j) as int !in PowerSet(j);
  }

  /** One step of the walk. */
  lemma WalkStep(log: seq<bv8>, ilog: seq<bv8>, j: nat, b: bv16)
    requires PowersDistinct() && Walked(log, ilog, j, b) && j < Order
    ensures b < 256
    ensures Walked(log[b as int := j as bv8], ilog[j := b as bv8], j + 1, NextPower(b, Params8))
  {
    var p := Pow(j);
    assert b as int == p as int;
    NumberedStep(log, ilog, j, p);
    OnlyPowersStep(log, j, p);
    NextPowerIsXTime(p);
  }

  lemma WalkDone(log: seq<bv8>, ilog: seq<bv8>, b: bv16)
    requires Walked(log, ilog, Order, b)
    ensures LogTablesValid(log, ilog)
  {
  }

  /** The first loop of create_log_table: log[j] = nwml, ilog[j] = 0 for every j below nw. */
  method ClearLogTables(p: LogParams, log0: seq<bv8>, ilog0: seq<bv8>) returns (log: seq<bv8>, ilog: seq<bv8>)
    requires |log0| == Size && |ilog0| == Size && p.nw as int <= Size && p.nwml < p.nw
    ensures |log| == Size && |ilog| == Size
    ensures forall x :: 0 <= x < p.nw as int ==> log[x] == p.nwml as bv8 && ilog[x] == 0
    ensures forall x :: p.nw as int <= x < Size ==> log[x] == log0[x] && ilog[x] == ilog0[x]
  {
    log, ilog := log0, ilog0;
    var j := 0;
    while j < p.nw as int
      invariant 0 <= j <= p.nw as int
      invariant |log| == Size && |ilog| == Size
      invariant forall x :: 0 <= x < j ==> log[x] == p.nwml as bv8 && ilog[x] == 0
      invariant forall x :: j <= x < Size ==> log[x] == log0[x] && ilog[x] == ilog0[x]
    {
      log := log[j := p.nwml as bv8];
      ilog := ilog[j := 0];
      j := j + 1;
    }
  }

  /**
   * create_log_table.  Returns ok == false where the source calls exit(1):
   * the walk from 1 reaches a byte it has already numbered.  For an order
   * the source does not support the tables are returned untouched.
   */
  method CreateLogTable(m: int, log0: seq<bv8>, ilog0: seq<bv8>) returns (ok: bool, log: seq<bv8>, ilog: seq<bv8>)
    requires |log0| == Size && |ilog0| == Size
    ensures |log| == Size && |ilog| == Size
    ensures ParamsFor(m).None? ==> ok && log == log0 && ilog == ilog0
    ensures m == 8 ==> ok && LogTablesValid(log, ilog)
    ensures ParamsFor(m).Some? ==>
      forall x :: ParamsFor(m).value.nw as int <= x < Size ==> log[x] == log0[x] && ilog[x] == ilog0[x]
  {
    PowersAreDistinct();
    var params := ParamsFor(m);
    if params.None? {
      return true, log0, ilog0;
    }
    var p := params.value;
    log, ilog := ClearLogTables(p, log0, ilog0);
    if m == 8 {
      WalkStart(log, ilog);
    }
    ok, log, ilog := WalkPowers(m, p, log, ilog);
  }

  /**
   * The second loop of create_log_table: number b = 1, x, x^2, .. in turn,
   * stopping with ok == false if b was numbered already.
   */
  method WalkPowers(m: int, p: LogParams, log0: seq<bv8>, ilog0: seq<bv8>) returns (ok: bool, log: seq<bv8>, ilog: seq<bv8>)
    requires ParamsFor(m) == Some(p) && |log0| == Size && |ilog0| == Size
    requires m == 8 ==> PowersDistinct() && Walked(log0, ilog0, 0, 1)
    ensures |log| == Size && |ilog| == Size
    ensures m == 8 ==> ok && LogTablesValid(log, ilog)
    ensures forall x :: p.nw as int <= x < Size ==> log[x] == log0[x] && ilog[x] == ilog0[x]
  {
    log, ilog := log0, ilog0;
    var nwml := p.nwml as bv8;
    var b: bv16 := 1;
    var j := 0;
    while j < p.nwml as int
      invariant 0 <= j <= p.nwml as int
      invariant |log| == Size && |ilog| == Size
      invariant b < p.nw
      invariant forall x :: p.nw as int <= x < Size ==> log[x] == log0[x] && ilog[x] == ilog0[x]
      invariant m == 8 ==> p == Params8 && Walked(log, ilog, j, b)
    {
      if log[b as int] != nwml {
        if m == 8 {
          WalkFresh(log, ilog, j, b);
          assert false;
        }
        return false, log, ilog;
      }
      if m == 8 {
        WalkStep(log, ilog, j, b);
      }
      log := log[b as int := j as bv8];
      ilog := ilog[j := b as bv8];
      NextPowerBound(b, p);
      b := NextPower(b, p);
      j := j + 1;
    }
    if m == 8 {
      WalkDone(log, ilog, b);
    }
    ok := true;
  }

  /** Reduces a sum of two logarithms below 255, as the multiplication table builder does. */
  function WrapSum(t: int): int
  {
    if t >= Order then t - Order else t
  }

  /** For two logarithms below 255 the wrapped sum is the sum modulo 255. */
  lemma WrapSumMod(t: int)
    requires 0 <= t < 2 * Order
    ensures WrapSum(t) == t % Order
  {
  }

  /** The result of the builder's `while (tmp < 0) tmp += 255` for a difference of two logarithms. */
  function WrapDifference(t: int): int
  {
    if t < 0 then t + Order else t
  }

  /** Entry (x, y) of galois_mult_table as the builder computes it from the log tables. */
  function MultEntry(log: seq<bv8>, ilog: seq<bv8>, x: int, y: int): bv8
    requires |log| == Size && |ilog| == Size && 0 <= x < Size && 0 <= y < Size
  {
    if x == 0 || y == 0 then 0 else ilog[WrapSum(log[x] as int + log[y] as int)]
  }

  /** Entry (x, y) of galois_divi_table: 255 (the C -1) when y is zero. */
  function DiviEntry(log: seq<bv8>, ilog: seq<bv8>, x: int, y: int): bv8
    requires |log| == Size && |ilog| == Size && 0 <= x < Size && 0 <= y < Size
  {
    if y == 0 then 255 else if x == 0 then 0 else ilog[WrapDifference(log[x] as int - log[y] as int)]
  }

  /** Rows 0 .. x-1 of both tables hold MultEntry and DiviEntry at index (x << 8) | y. */
  ghost predicate RowsBuilt(log: seq<bv8>, ilog: seq<bv8>, mult: seq<bv8>, divi: seq<bv8>, x: int)
  {
    |log| == Size && |ilog| == Size && |mult| == TableSize && |divi| == TableSize && 0 <= x <= Size &&
    forall x', y :: 0 <= x' < x && 0 <= y < Size ==>
      mult[x' * 256 + y] == MultEntry(log, ilog, x', y) && divi[x' * 256 + y] == DiviEntry(log, ilog, x', y)
  }

  /** The multiplication and division tables are complete. */
  ghost predicate ProductTablesBuilt(log: seq<bv8>, ilog: seq<bv8>, mult: seq<bv8>, divi: seq<bv8>)
  {
    RowsBuilt(log, ilog, mult, divi, Size)
  }

  /** Reading one entry of complete product tables. */
  lemma TableAt(log: seq<bv8>, ilog: seq<bv8>, mult: seq<bv8>, divi: seq<bv8>, x: int, y: int)
    requires ProductTablesBuilt(log, ilog, mult, divi) && 0 <= x < Size && 0 <= y < Size
    ensures mult[x * 256 + y] == MultEntry(log, ilog, x, y) && divi[x * 256 + y] == DiviEntry(log, ilog, x, y)
  {
  }

  /** Index (x << 8) | y of a 256 x 256 table. */
  lemma IndexBound(x: int, y: int)
    requires 0 <= x < Size && 0 <= y < Size
    ensures 0 <= x * 256 + y < TableSize
  {
  }

  /**
   * The body of the builder's inner loop for one (x, y): the product entry
   * from the wrapped sum of logarithms and the quotient entry from the
   * difference, lifted by the `while (tmp < 0)` loop.
   */
  method ComputeEntries(log: seq<bv8>, ilog: seq<bv8>, x: int, y: int) returns (me: bv8, de: bv8)
    requires |log| == Size && |ilog| == Size && 0 <= x < Size && 0 <= y < Size
    ensures me == MultEntry(log, ilog, x, y) && de == DiviEntry(log, ilog, x, y)
  {
    if x == 0 {
      me, de := 0, if y == 0 then 255 else 0;
    } else if y == 0 {
      me, de := 0, 255;
    } else {
      var logx := log[x] as int;
      var tmp := logx + log[y] as int;
      if tmp >= Order {
        tmp := tmp - Order;
      }
      me := ilog[tmp];
      tmp := logx - log[y] as int;
      while tmp < 0
        invariant -Order <= tmp
        invariant tmp < 0 ==> tmp == logx - log[y] as int
        invariant tmp >= 0 ==> tmp == WrapDifference(logx - log[y] as int)
        decreases -tmp
      {
        tmp := tmp + Order;
      }
      de := ilog[tmp];
    }
  }

  /** Fills row x of both tables, entry by entry, as the builder's inner loop does. */
  method FillRow(log: seq<bv8>, ilog: seq<bv8>, mult0: seq<bv8>, divi0: seq<bv8>, x: int)
    returns (mult: seq<bv8>, divi: seq<bv8>)
    requires RowsBuilt(log, ilog, mult0, divi0, x) && x < Size
    ensures RowsBuilt(log, ilog, mult, divi, x + 1)
  {
    mult, divi := mult0, divi0;
    var y := 0;
    while y < Size
      invariant 0 <= y <= Size
      invariant |mult| == TableSize && |divi| == TableSize
      invariant forall j :: 0 <= j < x * 256 ==> mult[j] == mult0[j] && divi[j] == divi0[j]
      invariant forall y' :: 0 <= y' < y ==>
        mult[x * 256 + y'] == MultEntry(log, ilog, x, y') && divi[x * 256 + y'] == DiviEntry(log, ilog, x, y')
    {
      IndexBound(x, y);
      var me, de := ComputeEntries(log, ilog, x, y);
      mult := mult[x * 256 + y := me];
      divi := divi[x * 256 + y := de];
      y := y + 1;
    }
    RowAdded(log, ilog, mult0, divi0, mult, divi, x);
  }

  /** Rows below x kept, row x filled: rows below x + 1 are built. */
  lemma RowAdded(log: seq<bv8>, ilog: seq<bv8>, mult0: seq<bv8>, divi0: seq<bv8>, mult: seq<bv8>, divi: seq<bv8>, x: int)
    requires RowsBuilt(log, ilog, mult0, divi0, x) && x < Size
    requires |mult| == TableSize && |divi| == TableSize
    requires forall j :: 0 <= j < x * 256 ==> mult[j] == mult0[j] && divi[j] == divi0[j]
    requires forall y :: 0 <= y < Size ==>
      mult[x * 256 + y] == MultEntry(log, ilog, x, y) && divi[x * 256 + y] == DiviEntry(log, ilog, x, y)
    ensures RowsBuilt(log, ilog, mult, divi, x + 1)
  {
    forall x', y | 0 <= x' < x && 0 <= y < Size
      ensures mult[x' * 256 + y] == MultEntry(log, ilog, x', y) && divi[x' * 256 + y] == DiviEntry(log, ilog, x', y)
    {
      assert x' * 256 + y < x * 256;
    }
  }

  /**
   * create_mult_table: builds the log tables, then fills the multiplication
   * and division tables row by row.  ok == false is the log builder's exit(1).
   */
  method CreateMultTable(m: int, log0: seq<bv8>, ilog0: seq<bv8>, mult0: seq<bv8>, divi0: seq<bv8>)
    returns (ok: bool, log: seq<bv8>, ilog: seq<bv8>, mult: seq<bv8>, divi: seq<bv8>)
    requires |log0| == Size && |ilog0| == Size && |mult0| == TableSize && |divi0| == TableSize
    ensures |log| == Size && |ilog| == Size && |mult| == TableSize && |divi| == TableSize
    ensures m == 8 ==> ok && LogTablesValid(log, ilog)
    ensures ok ==> ProductTablesBuilt(log, ilog, mult, divi)
  {
    ok, log, ilog := CreateLogTable(m, log0, ilog0);
    mult, divi := mult0, divi0;
    if !ok {
      return;
    }
    var x := 0;
    while x < Size
      invariant RowsBuilt(log, ilog, mult, divi, x)
    {
      mult, divi := FillRow(log, ilog, mult, divi, x);
      x := x + 1;
    }
  }

  /** A complete order-8 log table holds the discrete logarithm of every nonzero byte. */
  lemma LogIsDLog(log: seq<bv8>, ilog: seq<bv8>, a: bv8)
    requires PowersDistinct() && LogTablesValid(log, ilog) && a != 0
    ensures DLog(a) < Order && Pow(DLog(a)) == a
    ensures log[a as int] as int == DLog(a) && ilog[DLog(a)] == a
  {
    DLogOf(a);
    var k := DLog(a);
    assert log[Pow(k) as int] == k as bv8;
    ByteValue(k);
  }

  /** A multiplication-table entry of nonzero bytes is their field product. */
  lemma MultEntryIsMul(log: seq<bv8>, ilog: seq<bv8>, a: bv8, b: bv8)
    requires PowersDistinct() && LogTablesValid(log, ilog) && a != 0 && b != 0
    ensures MultEntry(log, ilog, a as int, b as int) == Mul(a, b)
  {
    LogIsDLog(log, ilog, a);
    LogIsDLog(log, ilog, b);
    var k := (DLog(a) + DLog(b)) % Order;
    assert ilog[k] == Pow(k);
    MultEntryValue(log, ilog, a, b, DLog(a), DLog(b));
    MulLogs(a, b);
  }

  /** The builder's multiplication entry for logarithms la and lb is ilog[(la + lb) mod 255]. */
  lemma MultEntryValue(log: seq<bv8>, ilog: seq<bv8>, a: bv8, b: bv8, la: nat, lb: nat)
    requires |log| == Size && |ilog| == Size && a != 0 && b != 0
    requires log[a as int] as int == la < Order && log[b as int] as int == lb < Order
    ensures MultEntry(log, ilog, a as int, b as int) == ilog[(la + lb) % Order]
  {
    WrapSumMod(la + lb);
  }

  /** A division-table entry of nonzero bytes, times the divisor, is the dividend. */
  lemma DiviEntryIsQuotient(log: seq<bv8>, ilog: seq<bv8>, a: bv8, b: bv8)
    requires PowersDistinct() && LogTablesValid(log, ilog) && a != 0 && b != 0
    ensures Mul(DiviEntry(log, ilog, a as int, b as int), b) == a
  {
    LogIsDLog(log, ilog, a);
    LogIsDLog(log, ilog, b);
    var la, lb := DLog(a), DLog(b);
    var d: nat := WrapDifference(la as int - lb);
    assert ilog[d] == Pow(d);
    DiviEntryValue(log, ilog, a, b, la, lb);
    QuotientLog(la, lb);
  }

  /** The builder's division entry for logarithms la and lb is ilog at the wrapped difference. */
  lemma DiviEntryValue(log: seq<bv8>, ilog: seq<bv8>, a: bv8, b: bv8, la: nat, lb: nat)
    requires |log| == Size && |ilog| == Size && a != 0 && b != 0
    requires log[a as int] as int == la < Order && log[b as int] as int == lb < Order
    ensures DiviEntry(log, ilog, a as int, b as int) == ilog[WrapDifference(la - lb)]
  {
  }

  /** x^((la - lb) wrapped) times x^lb is x^la. */
  lemma QuotientLog(la: nat, lb: nat)
    requires PowersDistinct() && la < Order && lb < Order
    ensures Mul(Pow(WrapDifference(la - lb)), Pow(lb)) == Pow(la)
  {
    var d: nat := WrapDifference(la - lb);
    MulPowPow(d, lb);
    XTimesMod(1, d + lb);
    assert (d + lb) % Order == la;
  }

  /** Complete order-8 tables multiply nonzero bytes as the field does. */
  lemma TableProduct(log: seq<bv8>, ilog: seq<bv8>, mult: seq<bv8>, divi: seq<bv8>, a: bv8, b: bv8)
    requires PowersDistinct() && LogTablesValid(log, ilog) && ProductTablesBuilt(log, ilog, mult, divi)
    ensures mult[a as int * 256 + b as int] == Mul(a, b)
  {
    TableAt(log, ilog, mult, divi, a as int, b as int);
    if a == 0 || b == 0 {
      MulZero(a);
      MulZero(b);
    } else {
      MultEntryIsMul(log, ilog, a, b);
    }
  }

  /** Complete order-8 tables divide nonzero bytes: the quotient times the divisor is the dividend. */
  lemma TableQuotient(log: seq<bv8>, ilog: seq<bv8>, mult: seq<bv8>, divi: seq<bv8>, a: bv8, b: bv8)
    requires PowersDistinct() && LogTablesValid(log, ilog) && ProductTablesBuilt(log, ilog, mult, divi)
    requires a != 0 && b != 0
    ensures Mul(divi[a as int * 256 + b as int], b) == a
  {
    TableAt(log, ilog, mult, divi, a as int, b as int);
    DiviEntryIsQuotient(log, ilog, a, b);
  }

  /** galois_sub: in characteristic 2 subtracting b is adding b. */
  function Sub(a: bv8, b: bv8): (r: bv8)
    ensures Add(r, b) == a && Add(a, b) == r
  {
    a ^ b
  }

  // ---------------------------------------------------------------------
  // The field object
  // ---------------------------------------------------------------------

  /** The static state of src/galois.c: the construction flag and the four tables. */
  class Field {
    var constructed: bool
    var log: seq<bv8>
    var ilog: seq<bv8>
    var mult: seq<bv8>
    var divi: seq<bv8>

    /** The tables have their declared sizes. */
    ghost predicate Sized()
      reads this
    {
      |log| == Size && |ilog| == Size && |mult| == TableSize && |divi| == TableSize
    }

    /** The tables describe GF(2^8) with generator x: the state after constructField(GF_POWER). */
    ghost predicate Valid()
      reads this
    {
      Sized() && PowersDistinct() && LogTablesValid(log, ilog) && ProductTablesBuilt(log, ilog, mult, divi)
    }

    /** Static storage starts zeroed and the flag cleared. */
    constructor ()
      ensures Sized() && !constructed
    {
      constructed := false;
      log := seq(Size, _ => 0);
      ilog := seq(Size, _ => 0);
      mult := seq(TableSize, _ => 0);
      divi := seq(TableSize, _ => 0);
    }

    /** GFConstructed: 1 once constructField has built the tables, else 0. */
    function GFConstructed(): (r: int)
      reads this
      ensures r == 1 <==> constructed
      ensures r == 0 <==> !constructed
    {
      if constructed then 1 else 0
    }

    /**
     * constructField: builds the tables once; later calls return at once.
     * ok == false stands for the exit(1) of the log-table builder.
     */
    method ConstructField(npower: int) returns (ok: bool)
      requires Sized()
      modifies this
      ensures Sized()
      ensures old(constructed) ==> ok && unchanged(this)
      ensures !old(constructed) && ok ==> constructed && ProductTablesBuilt(log, ilog, mult, divi)
      ensures !old(constructed) && npower == Power ==> ok && Valid()
    {
      if constructed {
        return true;
      }
      PowersAreDistinct();
      var l, il, mt, dt;
      ok, l, il, mt, dt := CreateMultTable(npower, log, ilog, mult, divi);
      log, ilog, mult, divi := l, il, mt, dt;
      if ok {
        constructed := true;
      }
    }

    /** galois_multiply: zero and one short-cuts, otherwise the table entry at (a << 8) | b. */
    function Multiply(a: bv8, b: bv8): (r: bv8)
      reads this
      requires Sized()
      ensures Valid() ==> r == Mul(a, b)
    {
      if a == 0 || b == 0 then ShortCuts(a); ShortCuts(b); 0
      else if a == 1 then ShortCuts(b); b
      else if b == 1 then ShortCuts(a); a
      else
        IndexBound(a as int, b as int);
        MultiplyTable(a, b);
        mult[a as int * 256 + b as int]
    }

    /** galois_divide: dividing by zero yields 255 (the C -1); otherwise r * b == a. */
    function Divide(a: bv8, b: bv8): (r: bv8)
      reads this
      requires Sized()
      ensures b == 0 ==> r == 255
      ensures Valid() && b != 0 ==> Mul(r, b) == a
    {
      if b == 0 then 255
      else if a == 0 then ShortCuts(b); 0
      else if b == 1 then ShortCuts(a); a
      else
        IndexBound(a as int, b as int);
        DivideTable(a, b);
        divi[a as int * 256 + b as int]
    }

    /** galois_divide computes the field quotient, 255 for a zero divisor included. */
    lemma DivideIsDiv(a: bv8, b: bv8)
      requires Sized()
      ensures Valid() ==> Divide(a, b) == Div(a, b)
    {
      if Valid() && b != 0 {
        DivUnique(a, b, Divide(a, b));
      }
    }

    /** The short-cuts of galois_multiply and galois_divide agree with the field. */
    lemma ShortCuts(a: bv8)
      ensures Valid() ==> Mul(1, a) == a && Mul(a, 1) == a && Mul(0, a) == 0 && Mul(a, 0) == 0
    {
      if Valid() {
        MulOne(a);
        MulZero(a);
      }
    }

    /** A multiplication-table entry is the field product. */
    lemma MultiplyTable(a: bv8, b: bv8)
      requires Sized()
      ensures Valid() ==> mult[a as int * 256 + b as int] == Mul(a, b)
    {
      if Valid() {
        TableProduct(log, ilog, mult, divi, a, b);
      }
    }

    /** A table quotient of nonzero bytes times the divisor gives back the dividend. */
    lemma DivideTable(a: bv8, b: bv8)
      requires Sized() && a != 0 && b != 0
      ensures Valid() ==> Mul(divi[a as int * 256 + b as int], b) == a
    {
      if Valid() {
        TableQuotient(log, ilog, mult, divi, a, b);
      }
    }

    /** ilog[log[a]] == a for every nonzero byte once the tables are built. */
    lemma LogRoundTrip(a: bv8)
      requires Valid() && a != 0
      ensures log[a as int] as int < Order && ilog[log[a as int] as int] == a
    {
      LogIsDLog(log, ilog, a);
    }

    /** Multiplying a quotient by its divisor gives back the dividend. */
    lemma MultiplyUndoesDivide(a: bv8, b: bv8)
      requires Valid() && b != 0
      ensures Multiply(Divide(a, b), b) == a
    {
    }

    /** The product table is symmetric, and so is galois_multiply. */
    lemma MultiplyCommutes(a: bv8, b: bv8)
      requires Valid()
      ensures mult[a as int * 256 + b as int] == mult[b as int * 256 + a as int]
      ensures Multiply(a, b) == Multiply(b, a)
    {
      TableProduct(log, ilog, mult, divi, a, b);
      TableProduct(log, ilog, mult, divi, b, a);
      MulCommutes(a, b);
    }

    /** Dividing a product by a nonzero factor gives back the other factor. */
    lemma DivideUndoesMultiply(a: bv8, b: bv8)
      requires Valid() && b != 0
      ensures Divide(Multiply(a, b), b) == a
    {
      var q := Divide(Multiply(a, b), b);
      MulCommutes(q, b);
      MulCommutes(a, b);
      MulCancel(b, q, a);
    }

    // -------------------------------------------------------------------
    // Region operations
    // -------------------------------------------------------------------

    /**
     * galois_multiply_add_region on dst[off .. off + bytes] (the C passes
     * dst + off): adds multiplier * src to it, leaving the rest of dst alone.
     */
    method MultiplyAddRegion(dst: array<bv8>, off: nat, src: seq<bv8>, multiplier: bv8, bytes: nat)
      requires Valid() && off + bytes <= dst.Length && bytes <= |src|
      modifies dst
      ensures dst[..off] == old(dst[..off]) && dst[off + bytes..] == old(dst[off + bytes..])
      ensures dst[off..off + bytes] == AddScaled(old(dst[off..off + bytes]), src, multiplier)
    {
      if multiplier == 0 {
        forall k | 0 <= k < bytes {
          MulZero(src[k]);
        }
        return;
      }
      var i := 0;
      while i < bytes
        invariant 0 <= i <= bytes
        invariant forall k :: 0 <= k < dst.Length && !(off <= k < off + i) ==> dst[k] == old(dst[k])
        invariant forall k :: off <= k < off + i ==> dst[k] == Add(old(dst[k]), Mul(src[k - off], multiplier))
      {
        if multiplier == 1 {
          MulOne(src[i]);
          dst[off + i] := dst[off + i] ^ src[i];
        } else {
          var s := src[i];
          MultiplyTable(s, multiplier);
          IndexBound(s as int, multiplier as int);
          dst[off + i] := dst[off + i] ^ mult[s as int * 256 + multiplier as int];
        }
        i := i + 1;
      }
    }

    /** galois_multiply_region on buf[off .. off + bytes]: scales it in place by multiplier. */
    method MultiplyRegion(buf: array<bv8>, off: nat, multiplier: bv8, bytes: nat)
      requires Valid() && off + bytes <= buf.Length
      modifies buf
      ensures buf[..off] == old(buf[..off]) && buf[off + bytes..] == old(buf[off + bytes..])
      ensures buf[off..off + bytes] == Scaled(old(buf[off..off + bytes]), multiplier)
    {
      if multiplier == 1 {
        forall k | off <= k < off + bytes {
          MulOne(buf[k]);
        }
        return;
      }
      var i := 0;
      while i < bytes
        invariant 0 <= i <= bytes
        invariant forall k :: 0 <= k < buf.Length && !(off <= k < off + i) ==> buf[k] == old(buf[k])
        invariant forall k :: off <= k < off + i ==> buf[k] == Mul(old(buf[k]), multiplier)
      {
        var s := buf[off + i];
        if multiplier == 0 {
          MulZero(s);
          buf[off + i] := 0;
        } else {
          MultiplyTable(s, multiplier);
          IndexBound(s as int, multiplier as int);
          buf[off + i] := mult[s as int * 256 + multiplier as int];
        }
        i := i + 1;
      }
    }
  }
}
