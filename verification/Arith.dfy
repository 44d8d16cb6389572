/** Division of natural numbers, for the few places that need more than the solver knows. */
module Arith {

  lemma QuotientBounds(x: nat, d: nat)
    requires d > 0
    ensures (x / d) * d <= x < (x / d) * d + d
    ensures x % d == x - (x / d) * d
  {
  }

  lemma TimesMonotone(a: nat, b: nat, d: nat)
    requires a <= b
    ensures a * d <= b * d
  {
  }

  lemma TimesNext(a: nat, d: nat)
    ensures (a + 1) * d == a * d + d
  {
  }

  /** A quotient and a remainder below the divisor are the quotient and the remainder. */
  lemma DivisionUnique(x: nat, d: nat, q: nat, r: nat)
    requires r < d && x == q * d + r
    ensures x / d == q && x % d == r
  {
    var k := x / d;
    QuotientBounds(x, d);
    if k < q {
      TimesMonotone(k + 1, q, d);
      TimesNext(k, d);
    } else if q < k {
      TimesMonotone(q + 1, k, d);
      TimesNext(q, d);
    }
  }

  /** Moving by the divisor keeps the remainder. */
  lemma ModuloNext(x: nat, d: nat)
    requires d > 0
    ensures (x + d) % d == x % d && (x + d) / d == x / d + 1
  {
    var q, r := x / d, x % d;
    QuotientBounds(x, d);
    ShiftByDivisor(x, d, q, r);
  }

  lemma ShiftByDivisor(x: nat, d: nat, q: nat, r: nat)
    requires r < d && x == q * d + r
    ensures (x + d) / d == q + 1 && (x + d) % d == r
  {
    TimesNext(q, d);
    DivisionUnique(x + d, d, q + 1, r);
  }

  lemma ModuloAtMost(x: nat, d: nat)
    requires d > 0
    ensures x % d <= x
  {
    QuotientBounds(x, d);
    TimesMonotone(0, x / d, d);
  }
}
