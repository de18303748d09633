/** The few facts about quotients and multiples that the solver does not find by itself. */
module Division {
  lemma MulMonotone(a: nat, b: nat, d: nat)
    requires a <= b
    ensures a * d <= b * d
  {
  }

  lemma MulSmaller(a: nat, b: nat, d: nat)
    requires a < b
    ensures a * d + d <= b * d
  {
    MulMonotone(a + 1, b, d);
  }

  lemma QuotientUnique(x: nat, d: nat, q: nat, r: nat)
    requires r < d && x == q * d + r
    ensures x / d == q && x % d == r
  {
    var k, s := x / d, x % d;
    assert x == k * d + s;
    if k < q {
      MulSmaller(k, q, d);
    } else if q < k {
      MulSmaller(q, k, d);
    }
  }

  lemma DivMod(x: nat, d: nat)
    requires d > 0
    ensures x == x / d * d + x % d && x % d < d
  {
  }

  lemma Distribute(a: nat, b: nat, d: nat)
    ensures (a + b) * d == a * d + b * d
  {
  }

  lemma Commute(a: nat, b: nat)
    ensures a * b == b * a
  {
  }

  lemma MulAssociates(a: nat, b: nat, c: nat)
    ensures a * (b * c) == (a * b) * c
  {
  }

  lemma TwoDigits(a: nat, b: nat, k: nat, s: nat, r: nat)
    requires s < b && r < a
    ensures (k * b + s) * a + r == k * (a * b) + (s * a + r) && 0 <= s * a + r < a * b
  {
    MulSmaller(s, b, a);
    Distribute(k * b, s, a);
    MulAssociates(k, b, a);
    Commute(a, b);
  }

  lemma DivideTwiceBy(x: nat, a: nat, b: nat, k: nat, s: nat, r: nat)
    requires s < b && r < a && x == (k * b + s) * a + r
    ensures a * b > 0 && x / (a * b) == k && x % (a * b) == s * a + r
  {
    TwoDigits(a, b, k, s, r);
    QuotientUnique(x, a * b, k, s * a + r);
  }

  /** Dividing by `a` and then by `b` divides by `a * b`. */
  lemma DivideTwice(x: nat, a: nat, b: nat)
    requires a > 0 && b > 0
    ensures a * b > 0 && x / (a * b) == x / a / b && x % (a * b) == x / a % b * a + x % a
  {
    DivMod(x, a);
    DivMod(x / a, b);
    DivideTwiceBy(x, a, b, x / a / b, x / a % b, x % a);
  }

  lemma MultipleHasNoRemainder(q: nat, d: nat)
    requires d > 0
    ensures q * d / d == q && q * d % d == 0
  {
    QuotientUnique(q * d, d, q, 0);
  }

  lemma DivisorOfDivisor(x: nat, a: nat, b: nat)
    requires a > 0 && b > 0 && a * b > 0 && x % (a * b) == 0
    ensures x % a == 0
  {
    var k := x / (a * b);
    assert x == k * (a * b);
    Commute(a, b);
    MulAssociates(k, b, a);
    MultipleHasNoRemainder(k * b, a);
  }

  lemma SumOfMultiples(a: nat, b: nat, d: nat)
    requires d > 0
    ensures (a * d + b * d) % d == 0
  {
    assert a * d + b * d == (a + b) * d;
    MultipleHasNoRemainder(a + b, d);
  }

  lemma AddingMultiple(a: nat, b: nat, d: nat)
    requires d > 0 && a % d == 0
    ensures (a + b) % d == b % d
  {
    DivMod(a, d);
    DivMod(b, d);
    Distribute(a / d, b / d, d);
    QuotientUnique(a + b, d, a / d + b / d, b % d);
  }

  lemma MultipleOfMultiple(k: nat, a: nat, d: nat)
    requires d > 0 && a % d == 0
    ensures k * a % d == 0
  {
    DivMod(a, d);
    MulAssociates(k, a / d, d);
    MultipleHasNoRemainder(k * (a / d), d);
  }
}
