/**
 * Reference arithmetic of GF(2^8) with the reduction polynomial
 * x^8 + x^4 + x^3 + x^2 + 1 (octal 0435, hexadecimal 0x11D), the field the
 * library's lookup tables are built for.  Elements are bytes; addition is XOR.
 * Multiplication by the generator x is XTime (shift left, reduce by the
 * polynomial); multiplying by x^k is applying XTime k times.  The table-driven
 * operations of the library are proved against these definitions.
 */
module GaloisArith {

  /** Multiplication by the generator x: shift left, and reduce by 0x11D when bit 7 falls out. */
  function XTime(a: bv8): bv8
  {
    (a << 1) ^ (0x1D & (0 - (a >> 7)))
  }

  /** x^k * y: k applications of XTime to y. */
  function XTimes(y: bv8, k: nat): bv8
    decreases k
  {
    if k == 0 then y else XTime(XTimes(y, k - 1))
  }

  /** The k-th power of the generator x (the byte 2). */
  function Pow(k: nat): bv8
  {
    XTimes(1, k)
  }

  /** The powers x^0 .. x^254 are pairwise distinct, i.e. x generates all 255 nonzero bytes. */
  ghost predicate PowersDistinct()
  {
    forall i: nat, j: nat :: i < j < 255 ==> Pow(i) != Pow(j)
  }

  // ---------------------------------------------------------------------
  // Properties of XTime
  // ---------------------------------------------------------------------

  lemma XTimeInjective(a: bv8, b: bv8)
    ensures XTime(a) == XTime(b) <==> a == b
  {
  }

  lemma XTimeZero(a: bv8)
    ensures XTime(a) == 0 <==> a == 0
  {
  }

  lemma XTimeLinear(a: bv8, c: bv8)
    ensures XTime(a ^ c) == XTime(a) ^ XTime(c)
  {
  }

  /** Applying XTime k times is linear: x^k (y + z) == x^k y + x^k z. */
  lemma {:induction false} XTimesLinear(y: bv8, z: bv8, k: nat)
    decreases k
    ensures XTimes(y ^ z, k) == XTimes(y, k) ^ XTimes(z, k)
  {
    if k > 0 {
      var m: nat := k - 1;
      XTimesLinear(y, z, m);
      XTimeLinear(XTimes(y, m), XTimes(z, m));
    }
  }

  /** x^k y is zero exactly when y is. */
  lemma {:induction false} XTimesZero(y: bv8, k: nat)
    decreases k
    ensures XTimes(y, k) == 0 <==> y == 0
  {
    if k > 0 {
      XTimesZero(y, k - 1);
      XTimeZero(XTimes(y, k - 1));
    }
  }

  /** Multiplying by x^k is injective. */
  lemma {:induction false} XTimesInjective(y: bv8, z: bv8, k: nat)
    decreases k
    ensures XTimes(y, k) == XTimes(z, k) ==> y == z
  {
    if k > 0 {
      XTimeInjective(XTimes(y, k - 1), XTimes(z, k - 1));
      XTimesInjective(y, z, k - 1);
    }
  }

  /** x^i (x^j y) == x^(i+j) y. */
  lemma {:induction false} XTimesAdd(y: bv8, i: nat, j: nat)
    decreases i
    ensures XTimes(XTimes(y, j), i) == XTimes(y, i + j)
  {
    if i > 0 {
      XTimesAdd(y, i - 1, j);
    }
  }

  /** Every power of the generator is a nonzero byte. */
  lemma PowNonZero(k: nat)
    ensures Pow(k) != 0
  {
    XTimesZero(1, k);
  }

  // ---------------------------------------------------------------------
  // The multiplicative group generated by x
  // ---------------------------------------------------------------------

  /** Every nonzero byte is one of x^0 .. x^254 (pigeonhole over the 255 nonzero bytes). */
  lemma PowersCover(a: bv8)
    requires PowersDistinct() && a != 0
    ensures exists k: nat :: k < 255 && Pow(k) == a
  {
    var powers := PowerSet(255);
    PowerSetSize(255);
    var nonzero := Range(1, 256);
    RangeSize(1, 256);
    forall k: nat | k < 255
      ensures InRange(Pow(k) as int, 1, 256)
    {
      PowNonZero(k);
    }
    SubsetOfSameSize(powers, nonzero);
    assert a as int in powers;
  }

  /** The set { x^k as an integer | k < n }. */
  ghost function PowerSet(n: nat): set<int>
  {
    set k: nat | k < n :: Pow(k) as int
  }

  lemma {:induction false} PowerSetSize(n: nat)
    requires PowersDistinct() && n <= 255
    ensures |PowerSet(n)| == n
  {
    if n > 0 {
      PowerSetSize(n - 1);
      assert PowerSet(n) == PowerSet(n - 1) + {Pow(n - 1) as int};
      forall k: nat | k < n - 1
        ensures Pow(k) as int != Pow(n - 1) as int
      {
        assert Pow(k) != Pow(n - 1);
      }
      assert Pow(n - 1) as int !in PowerSet(n - 1);
    }
  }

  predicate InRange(i: int, lo: int, hi: int)
  {
    lo <= i < hi
  }

  /** The integers lo .. hi-1. */
  ghost function Range(lo: int, hi: int): set<int>
  {
    set i: int | lo <= i < hi && InRange(i, lo, hi)
  }

  lemma {:induction false} RangeSize(lo: int, hi: int)
    requires lo <= hi
    decreases hi - lo
    ensures |Range(lo, hi)| == hi - lo
  {
    if lo < hi {
      RangeSize(lo + 1, hi);
      assert Range(lo, hi) == Range(lo + 1, hi) + {lo};
    }
  }

  lemma SubsetOfSameSize(s: set<int>, t: set<int>)
    requires s <= t && |s| == |t|
    ensures s == t
  {
    var rest := t - s;
    assert t == s + rest && s !! rest;
    assert |rest| == 0;
  }

  /** If x^0 .. x^254 are distinct, x^255 == 1: x^255 is nonzero, so some x^k; k > 0 would repeat x^(k-1) as x^254. */
  lemma PowPeriod()
    requires PowersDistinct()
    ensures Pow(255) == 1
  {
    PowNonZero(255);
    PowersCover(Pow(255));
    var k: nat :| k < 255 && Pow(k) == Pow(255);
    if k > 0 {
      XTimeInjective(Pow(254), Pow(k - 1));
      assert false;
    }
  }

  /** x^255 y == y for every byte y. */
  lemma XTimesFullCycle(y: bv8)
    requires PowersDistinct()
    ensures XTimes(y, 255) == y
  {
    if y == 0 {
      XTimesZero(y, 255);
    } else {
      PowPeriod();
      PowersCover(y);
      var e: nat :| e < 255 && Pow(e) == y;
      XTimesAdd(1, 255, e);
      XTimesAdd(1, e, 255);
    }
  }

  /** Multiplying by x^k depends on k modulo 255 only. */
  lemma XTimesMod(y: bv8, k: nat)
    requires PowersDistinct()
    ensures XTimes(y, k) == XTimes(y, k % 255)
  {
    var q := k / 255;
    XTimesCycles(y, q, k % 255);
  }

  lemma {:induction false} XTimesCycles(y: bv8, q: nat, r: nat)
    requires PowersDistinct()
    decreases q
    ensures XTimes(y, 255 * q + r) == XTimes(y, r)
  {
    if q > 0 {
      XTimesCycles(y, q - 1, r);
      XTimesAdd(y, 255 * (q - 1) + r, 255);
      XTimesFullCycle(y);
      XTimesAdd(XTimes(y, 255), 255 * (q - 1) + r, 0);
    }
  }

  // ---------------------------------------------------------------------
  // Discrete logarithm and the field product
  // ---------------------------------------------------------------------

  /** Search for the exponent of a among x^k, x^(k+1), .., x^254, where p == x^k. */
  function DLogFrom(a: bv8, k: nat, p: bv8): (r: nat)
    decreases 255 - k
    ensures r <= 255
  {
    if k >= 255 then 255 else if p == a then k else DLogFrom(a, k + 1, XTime(p))
  }

  /** Discrete logarithm to base x: the least k < 255 with x^k == a, or 255 if there is none. */
  function DLog(a: bv8): (r: nat)
    ensures r <= 255
  {
    DLogFrom(a, 0, 1)
  }

  /** Field product: 0 if a is 0, otherwise x^(log a) * b. */
  function Mul(a: bv8, b: bv8): bv8
  {
    if a == 0 then 0 else XTimes(b, DLog(a))
  }

  /** Field addition (and subtraction): XOR. */
  function Add(a: bv8, b: bv8): bv8
  {
    a ^ b
  }

  lemma {:induction false} DLogFromFinds(a: bv8, k: nat, j: nat)
    requires PowersDistinct() && k <= j < 255 && Pow(j) == a
    decreases j - k
    ensures DLogFrom(a, k, Pow(k)) == j
  {
    if Pow(k) != a {
      DLogFromFinds(a, k + 1, j);
    }
  }

  /** The logarithm of x^k is k modulo 255. */
  lemma DLogPow(k: nat)
    requires PowersDistinct()
    ensures DLog(Pow(k)) == k % 255
  {
    XTimesMod(1, k);
    DLogFromFinds(Pow(k), 0, k % 255);
  }

  /** Every nonzero byte is x^(log a), with log a below 255. */
  lemma DLogOf(a: bv8)
    requires PowersDistinct() && a != 0
    ensures DLog(a) < 255 && Pow(DLog(a)) == a
  {
    PowersCover(a);
    var k: nat :| k < 255 && Pow(k) == a;
    DLogPow(k);
  }

  /** Multiplying by x^k is applying XTime k times. */
  lemma MulPow(k: nat, b: bv8)
    requires PowersDistinct()
    ensures Mul(Pow(k), b) == XTimes(b, k)
  {
    PowNonZero(k);
    DLogPow(k);
    XTimesMod(b, k);
  }

  /** The product of two powers of x adds the exponents. */
  lemma MulPowPow(i: nat, j: nat)
    requires PowersDistinct()
    ensures Mul(Pow(i), Pow(j)) == Pow(i + j)
  {
    MulPow(i, Pow(j));
    XTimesAdd(1, i, j);
  }

  lemma MulZero(a: bv8)
    requires PowersDistinct()
    ensures Mul(a, 0) == 0 && Mul(0, a) == 0
  {
    XTimesZero(0, DLog(a));
  }

  /** No zero divisors. */
  lemma MulNonZero(a: bv8, b: bv8)
    ensures Mul(a, b) == 0 <==> a == 0 || b == 0
  {
    if a != 0 {
      XTimesZero(b, DLog(a));
    }
  }

  lemma MulOne(a: bv8)
    requires PowersDistinct()
    ensures Mul(1, a) == a && Mul(a, 1) == a
  {
    MulPow(0, a);
    if a != 0 {
      DLogOf(a);
      MulPow(DLog(a), 1);
    }
  }

  lemma MulCommutes(a: bv8, b: bv8)
    requires PowersDistinct()
    ensures Mul(a, b) == Mul(b, a)
  {
    if a != 0 && b != 0 {
      DLogOf(a);
      DLogOf(b);
      MulPowPow(DLog(a), DLog(b));
      MulPowPow(DLog(b), DLog(a));
    } else {
      MulZero(a);
      MulZero(b);
    }
  }

  lemma MulAssociates(a: bv8, b: bv8, c: bv8)
    requires PowersDistinct()
    ensures Mul(Mul(a, b), c) == Mul(a, Mul(b, c))
  {
    if a != 0 && b != 0 {
      DLogOf(a);
      DLogOf(b);
      var i, j := DLog(a), DLog(b);
      MulPowPow(i, j);
      MulPow(i + j, c);
      MulPow(j, c);
      MulPow(i, XTimes(c, j));
      XTimesAdd(c, i, j);
    } else {
      MulZero(c);
      MulZero(Mul(b, c));
      MulZero(a);
    }
  }

  lemma MulDistributes(a: bv8, b: bv8, c: bv8)
    ensures Mul(a, Add(b, c)) == Add(Mul(a, b), Mul(a, c))
  {
    if a != 0 {
      XTimesLinear(b, c, DLog(a));
    }
  }

  /** Multiplication by a nonzero byte is injective. */
  lemma MulCancel(a: bv8, p: bv8, q: bv8)
    requires a != 0 && Mul(a, p) == Mul(a, q)
    ensures p == q
  {
    XTimesInjective(p, q, DLog(a));
  }

  /** Every nonzero byte has an inverse. */
  lemma MulInverse(b: bv8)
    requires PowersDistinct() && b != 0
    ensures Mul(Pow(255 - DLog(b)), b) == 1
  {
    DLogOf(b);
    var lb := DLog(b);
    MulPowPow(255 - lb, lb);
    PowPeriod();
  }

  /** The product of two nonzero bytes is x^((log a + log b) mod 255): the log-table rule. */
  lemma MulLogs(a: bv8, b: bv8)
    requires PowersDistinct() && a != 0 && b != 0
    ensures Mul(a, b) == Pow((DLog(a) + DLog(b)) % 255)
  {
    DLogOf(a);
    DLogOf(b);
    MulPowPow(DLog(a), DLog(b));
    XTimesMod(1, DLog(a) + DLog(b));
  }

  /**
   * Field quotient, following the conventions of galois_divide: 255 (the C
   * `(uint8_t)-1`) for a zero divisor, 0 for a zero dividend, otherwise
   * x^((log a - log b) mod 255).
   */
  function Div(a: bv8, b: bv8): bv8
  {
    if b == 0 then 255
    else if a == 0 then 0
    else Pow((DLog(a) + 255 - DLog(b)) % 255)
  }

  /** Division undoes multiplication: (a / b) * b == a for every nonzero b. */
  lemma DivUndoesMul(a: bv8, b: bv8)
    requires PowersDistinct() && b != 0
    ensures Mul(Div(a, b), b) == a
  {
    if a == 0 {
      MulZero(b);
    } else {
      DLogOf(a);
      DLogOf(b);
      QuotientPow(DLog(a), DLog(b));
    }
  }

  /** x^((i - j) mod 255) * x^j == x^i for exponents below 255. */
  lemma QuotientPow(i: nat, j: nat)
    requires PowersDistinct() && i < 255 && j < 255
    ensures Mul(Pow((i + 255 - j) % 255), Pow(j)) == Pow(i)
  {
    var e: nat := (i + 255 - j) % 255;
    MulPowPow(e, j);
    if i < j {
      assert e + j == i + 255;
      PowWraps(i);
    } else {
      assert e + j == i;
    }
  }

  /** x^(k + 255) == x^k. */
  lemma PowWraps(k: nat)
    requires PowersDistinct()
    ensures Pow(k + 255) == Pow(k)
  {
    XTimesCycles(1, 1, k);
  }

  /** The quotient is the only r with r * b == a. */
  lemma DivUnique(a: bv8, b: bv8, r: bv8)
    requires PowersDistinct() && b != 0 && Mul(r, b) == a
    ensures r == Div(a, b)
  {
    DivUndoesMul(a, b);
    MulCommutes(r, b);
    MulCommutes(Div(a, b), b);
    MulCancel(b, r, Div(a, b));
  }

  /** Dividing by b is multiplying by the inverse 1 / b. */
  lemma DivIsMulInverse(a: bv8, b: bv8)
    requires PowersDistinct() && b != 0
    ensures Mul(Div(1, b), b) == 1
    ensures Div(a, b) == Mul(a, Div(1, b))
  {
    DivUndoesMul(1, b);
    var i := Div(1, b);
    MulAssociates(a, i, b);
    MulOne(a);
    DivUnique(a, b, Mul(a, i));
  }

  // ---------------------------------------------------------------------
  // Vectors of field elements
  // ---------------------------------------------------------------------

  /** dst + c * src, element by element over dst (src at least as long). */
  function AddScaled(dst: seq<bv8>, src: seq<bv8>, c: bv8): (r: seq<bv8>)
    requires |dst| <= |src|
    ensures |r| == |dst|
    ensures forall i :: 0 <= i < |dst| ==> r[i] == Add(dst[i], Mul(src[i], c))
  {
    seq(|dst|, i requires 0 <= i < |dst| => Add(dst[i], Mul(src[i], c)))
  }

  /** c * src, element by element. */
  function Scaled(src: seq<bv8>, c: bv8): (r: seq<bv8>)
    ensures |r| == |src|
    ensures forall i :: 0 <= i < |src| ==> r[i] == Mul(src[i], c)
  {
    seq(|src|, i requires 0 <= i < |src| => Mul(src[i], c))
  }
}
