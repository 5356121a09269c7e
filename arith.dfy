/** Facts about products, quotients and remainders of natural numbers, proved once. */
module Arith {
  /** A positive multiple of S is at least S. */
  lemma MulAtLeast(a: int, S: int)
    requires a >= 1 && S > 0
    ensures a * S >= S
  {
  }

  /** Products grow with the left factor. */
  lemma MulMonotone(a: int, b: int, S: int)
    requires a <= b && S >= 0
    ensures a * S <= b * S
  {
    assert b * S - a * S == (b - a) * S;
  }

  /** Quotient and remainder are unique: y == q * S + r with 0 <= r < S fixes both. */
  lemma DivModUnique(y: int, q: int, r: int, S: int)
    requires S > 0 && 0 <= r < S && y == q * S + r
    ensures y / S == q && y % S == r
  {
    var q0, r0 := y / S, y % S;
    assert (q0 - q) * S == r - r0;
    if q0 > q {
      MulAtLeast(q0 - q, S);
    } else if q0 < q {
      MulAtLeast(q - q0, S);
    }
  }

  /** Adding a multiple of S does not change the remainder. */
  lemma ModAddMultiple(q: nat, y: nat, S: nat)
    requires S > 0
    ensures (q * S + y) % S == y % S
  {
    var k := y / S;
    assert (q + k) * S == q * S + k * S;
    DivModUnique(q * S + y, q + k, y % S, S);
  }

  /** Reducing the left summand first does not change the remainder of a sum. */
  lemma ModAddLeft(x: nat, j: nat, S: nat)
    requires S > 0
    ensures (x % S + j) % S == (x + j) % S
  {
    ModAddMultiple(x / S, x % S + j, S);
  }

  /** The remainder of x - 1 from that of x. */
  lemma ModPredecessor(x: nat, S: nat)
    requires S > 0 && x >= 1
    ensures (x - 1) % S == if x % S == 0 then S - 1 else x % S - 1
  {
    var q, m := x / S, x % S;
    if m == 0 {
      assert q >= 1;
      assert (q - 1) * S == q * S - S;
      DivModUnique(x - 1, q - 1, S - 1, S);
    } else {
      DivModUnique(x - 1, q, m - 1, S);
    }
  }
}
