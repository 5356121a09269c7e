/**
 * The number of LDPC check packets: is_prime and number_of_checks of
 * src/gncEncoder.c (gncEncoder.c at the repository root repeats both).
 * They follow the S computation of section 5.4.2.3 of RFC 5053: X is the
 * smallest positive integer with X * (X - 1) >= 2 * K, and S the smallest
 * prime with S >= ceil(0.01 * K) + X.
 *
 * The floating-point floor(sqrt(2 * snum)) and ceil(0.01 * snum) are
 * restated in integers (FloorSqrt and ALIGN(snum, 100)).
 */
module Primes {
  import opened Common
  import opened Arith

  /** d divides n. */
  predicate Divides(d: int, n: int)
    requires d > 0
  {
    n % d == 0
  }

  /** n is prime: at least 2 and no divisor strictly between 1 and n. */
  predicate Prime(n: int)
  {
    n >= 2 && forall d :: 2 <= d < n ==> !Divides(d, n)
  }

  /** What is_prime answers 1 for: every n below 2, and the primes. */
  predicate CountsPrime(n: int)
  {
    n < 2 || Prime(n)
  }

  /**
   * No divisor below i with i * i > n makes n prime: a divisor d and its
   * cofactor n / d cannot both reach i.
   */
  lemma NoSmallDivisorPrime(n: int, i: int)
    requires n >= 2 && i >= 2 && i * i > n
    requires forall k :: 2 <= k < i ==> !Divides(k, n)
    ensures Prime(n)
  {
    forall d | 2 <= d < n
      ensures !Divides(d, n)
    {
      if Divides(d, n) {
        var e := n / d;
        assert n == d * e;
        if e < 2 {
          MulMonotone(e, 1, d);
        } else if d < i {
        } else if e < i {
          DivModUnique(n, d, 0, e);
          assert Divides(e, n);
        } else {
          MulMonotone(i, d, i);
          MulMonotone(i, e, d);
        }
      }
    }
  }

  /** is_prime: trial division by every i with i * i <= number. */
  method IsPrime(number: int) returns (r: int)
    ensures r == 1 <==> CountsPrime(number)
    ensures r == 0 <==> !CountsPrime(number)
  {
    var i := 2;
    while i * i <= number
      invariant i >= 2
      invariant forall k :: 2 <= k < i ==> !Divides(k, number)
      decreases number - i
    {
      assert i <= i * i;
      if number % i == 0 {
        assert i < i * i;
        assert Divides(i, number);
        return 0;
      }
      i := i + 1;
    }
    if number >= 2 {
      NoSmallDivisorPrime(number, i);
    }
    return 1;
  }

  // ---------------------------------------------------------------------
  // A prime at or above any bound (Euclid)
  // ---------------------------------------------------------------------

  function Fact(m: nat): (r: nat)
    ensures r >= 1
  {
    if m == 0 then 1 else m * Fact(m - 1)
  }

  lemma {:induction false} FactDivisible(m: nat, k: int)
    requires 1 <= k <= m
    ensures Divides(k, Fact(m))
  {
    if k == m {
      DivModUnique(Fact(m), Fact(m - 1), 0, k);
    } else {
      FactDivisible(m - 1, k);
      var q := Fact(m - 1) / k;
      assert Fact(m - 1) == q * k;
      assert Fact(m) == (m * q) * k;
      DivModUnique(Fact(m), m * q, 0, k);
    }
  }

  /** A divisor of a divisor divides. */
  lemma DividesTransitive(k: int, d: int, n: int)
    requires k > 0 && d > 0 && Divides(k, d) && Divides(d, n)
    ensures Divides(k, n)
  {
    var a, b := d / k, n / d;
    assert d == a * k && n == b * d;
    assert n == (b * a) * k;
    DivModUnique(n, b * a, 0, k);
  }

  /** The least divisor from d upwards of n is a prime. */
  lemma {:induction false} LeastDivisorPrime(n: int, d: int) returns (p: int)
    requires 2 <= d <= n && forall k :: 2 <= k < d ==> !Divides(k, n)
    ensures d <= p <= n && Prime(p) && Divides(p, n)
    decreases n - d
  {
    if Divides(d, n) {
      forall k | 2 <= k < d
        ensures !Divides(k, d)
      {
        if Divides(k, d) {
          DividesTransitive(k, d, n);
        }
      }
      p := d;
    } else {
      assert d < n;
      p := LeastDivisorPrime(n, d + 1);
    }
  }

  /** There is a prime at or above every c. */
  lemma PrimeAtLeast(c: int) returns (p: int)
    ensures p >= c && Prime(p)
  {
    var m: nat := if c < 2 then 2 else c;
    var n := Fact(m) + 1;
    forall k | 2 <= k < m + 1
      ensures !Divides(k, n)
    {
      FactDivisible(m, k);
      DivModUnique(n, Fact(m) / k, 1, k);
    }
    assert n >= m + 1 by {
      FactAtLeast(m);
    }
    p := LeastDivisorPrime(n, m + 1);
  }

  lemma {:induction false} FactAtLeast(m: nat)
    ensures Fact(m) >= m
  {
    if m > 0 {
      FactAtLeast(m - 1);
      MulMonotone(1, Fact(m - 1), m);
    }
  }

  // ---------------------------------------------------------------------
  // number_of_checks
  // ---------------------------------------------------------------------

  /** floor(sqrt(m)) for m >= 0. */
  function FloorSqrt(m: nat): (r: nat)
    ensures r * r <= m < (r + 1) * (r + 1)
  {
    if m == 0 then 0
    else
      var r := FloorSqrt(m - 1);
      if (r + 1) * (r + 1) <= m then r + 1 else r
  }

  /** x * (x - 1), the quantity X is chosen by. */
  function Tri(x: int): int
  {
    x * (x - 1)
  }

  lemma TriGrows(x: int, m: int)
    requires m >= 0 && x > m
    ensures Tri(x) >= m
  {
    MulMonotone(1, x, x - 1);
  }

  /** The first x from x0 upwards with x * (x - 1) >= m. */
  function XFrom(x: int, m: int): int
    requires x >= 0 && m >= 0
    decreases m + 1 - x
  {
    if Tri(x) >= m || x > m then x else XFrom(x + 1, m)
  }

  /** The X of number_of_checks: the first x from floor(sqrt(2 * snum)) with x * (x - 1) >= 2 * snum. */
  function XOf(snum: nat): int
  {
    XFrom(FloorSqrt(2 * snum), 2 * snum)
  }

  lemma {:induction false} XFromIsFirst(x: int, m: int)
    requires x >= 0 && m >= 0
    ensures XFrom(x, m) >= x && Tri(XFrom(x, m)) >= m
    ensures forall y :: x <= y < XFrom(x, m) ==> Tri(y) < m
    decreases m + 1 - x
  {
    if x > m {
      TriGrows(x, m);
    } else if Tri(x) < m {
      XFromIsFirst(x + 1, m);
    }
  }

  /**
   * For snum >= 1 the x of number_of_checks is the X of section 5.4.2.3 of
   * RFC 5053: the smallest positive integer with X * (X - 1) >= 2 * snum.
   * Starting the search at floor(sqrt(2 * snum)) skips no candidate.
   */
  lemma XOfIsSmallest(snum: nat)
    requires snum >= 1
    ensures XOf(snum) >= 1 && Tri(XOf(snum)) >= 2 * snum
    ensures forall y :: 1 <= y < XOf(snum) ==> Tri(y) < 2 * snum
  {
    var m := 2 * snum;
    var s := FloorSqrt(m);
    XFromIsFirst(s, m);
    forall y | 1 <= y < s
      ensures Tri(y) < m
    {
      TriBelowSquare(y, s);
    }
  }

  /** Below s, x * (x - 1) stays under s * s. */
  lemma TriBelowSquare(y: int, s: int)
    requires 1 <= y < s
    ensures Tri(y) < s * s
  {
    MulMonotone(y - 1, y, y);
    MulMonotone(y, s, y);
    MulMonotone(y, s, s);
  }

  /** The first while loop of number_of_checks. */
  method SmallestX(snum: nat) returns (x: int)
    ensures x == XOf(snum)
  {
    x := FloorSqrt(2 * snum);
    while x * (x - 1) < 2 * snum
      invariant x >= 0 && XFrom(x, 2 * snum) == XOf(snum)
      decreases 2 * snum + 1 - x
    {
      assert Tri(x) < 2 * snum;
      if x > 2 * snum {
        TriGrows(x, 2 * snum);
      }
      x := x + 1;
    }
    assert Tri(x) >= 2 * snum;
  }

  /** The lower end of the prime search: ceil(0.01 * snum) + X. */
  function ChecksFloor(snum: nat): int
  {
    Align(snum, 100) + XOf(snum)
  }

  /**
   * What number_of_checks returns: c with c - 1 the first value at or above
   * ChecksFloor(snum) that is_prime accepts (the post-increment in
   * `while (!is_prime(c++))` runs once more on the accepted value).
   */
  predicate ChecksAsWritten(snum: nat, c: int)
  {
    var c0 := ChecksFloor(snum);
    c - 1 >= c0 && CountsPrime(c - 1) && forall v :: c0 <= v < c - 1 ==> !CountsPrime(v)
  }

  /** `while (!is_prime(c++)) ;` from c: one past the first value is_prime accepts. */
  method SearchPrimeAsWritten(c0: int) returns (c: int)
    ensures c - 1 >= c0 && CountsPrime(c - 1) && forall v :: c0 <= v < c - 1 ==> !CountsPrime(v)
  {
    c := c0;
    ghost var bound := PrimeAtLeast(c0);
    var p := IsPrime(c);
    c := c + 1;
    while p == 0
      invariant c0 + 1 <= c <= bound + 1
      invariant p == 0 <==> !CountsPrime(c - 1)
      invariant forall v :: c0 <= v < c - 1 ==> !CountsPrime(v)
      decreases bound + 1 - c
    {
      p := IsPrime(c);
      c := c + 1;
    }
  }

  /** number_of_checks as the source writes it. */
  method NumberOfChecks(snum: nat) returns (c: int)
    ensures ChecksAsWritten(snum, c)
  {
    var x := SmallestX(snum);
    c := Align(snum, 100) + x;
    c := SearchPrimeAsWritten(c);
  }

  /**
   * The post-increment makes the result one past the prime: for one source
   * packet X is 2, the search starts at 3, 3 is prime and 4 is returned,
   * which is not prime.
   */
  lemma ChecksAsWrittenOffByOne(c: int)
    requires ChecksAsWritten(1, c)
    ensures c == 4 && !Prime(c)
  {
    assert FloorSqrt(2) == 1;
    assert XOf(1) == 2;
    assert Align(1, 100) == 1;
    assert CountsPrime(3);
    assert Divides(2, 4);
  }

  /** What number_of_checks as written returns is at least 1, so the packet count is positive. */
  lemma ChecksPositive(snum: nat, c: int)
    requires ChecksAsWritten(snum, c)
    ensures c >= 1
  {
    assert XOf(snum) >= FloorSqrt(2 * snum) by {
      XFromIsFirst(FloorSqrt(2 * snum), 2 * snum);
    }
    AlignIsCeiling(snum, 100);
  }

  /**
   * The evidently intended result: the smallest S >= ceil(0.01 * snum) + X
   * that is prime (for snum >= 1 the search starts at 2 or above, so
   * is_prime's answer for 0 and 1 never matters).
   */
  predicate ChecksIntended(snum: nat, s: int)
  {
    var c0 := ChecksFloor(snum);
    s >= c0 && Prime(s) && forall v :: c0 <= v < s ==> !Prime(v)
  }

  /** The search without the extra increment: the first prime from c0 (c0 >= 2). */
  method SearchPrime(c0: int) returns (s: int)
    requires c0 >= 2
    ensures s >= c0 && Prime(s) && forall v :: c0 <= v < s ==> !Prime(v)
  {
    s := c0;
    ghost var bound := PrimeAtLeast(c0);
    var p := IsPrime(s);
    while p == 0
      invariant c0 <= s <= bound
      invariant p == 0 <==> !CountsPrime(s)
      invariant forall v :: c0 <= v < s ==> !Prime(v)
      decreases bound - s
    {
      s := s + 1;
      p := IsPrime(s);
    }
  }

  /** number_of_checks without the extra increment: it returns the prime it found. */
  method NumberOfChecksFixed(snum: nat) returns (s: int)
    requires snum >= 1
    ensures ChecksIntended(snum, s)
  {
    var x := SmallestX(snum);
    XOfIsSmallest(snum);
    AlignIsCeiling(snum, 100);
    s := Align(snum, 100) + x;
    s := SearchPrime(s);
  }
}
