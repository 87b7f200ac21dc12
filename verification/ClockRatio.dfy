/** The ratio that turns clock ticks into nanoseconds, in lowest terms. */
module ClockRatio {
  import opened LittleEndian

  predicate Times(k: nat, d: nat, n: nat) {
    n == k * d
  }

  ghost predicate Divides(d: nat, n: nat) {
    exists k: nat :: Times(k, d, n)
  }

  ghost predicate Common(d: nat, a: nat, b: nat) {
    Divides(d, a) && Divides(d, b)
  }

  /** `g` is the greatest common divisor: every common divisor divides it. */
  ghost predicate IsGcd(g: nat, a: nat, b: nat) {
    Common(g, a, b) && forall d: nat :: Common(d, a, b) ==> Divides(d, g)
  }

  lemma DividesSum(d: nat, a: nat, b: nat, q: nat)
    requires Divides(d, a) && Divides(d, b)
    ensures Divides(d, a + q * b)
    ensures a >= q * b ==> Divides(d, a - q * b)
  {
    var k: nat :| Times(k, d, a);
    var l: nat :| Times(l, d, b);
    assert q * b == (q * l) * d;
    assert Times(k + q * l, d, a + q * b);
    if a >= q * b && d > 0 {
      assert k * d >= (q * l) * d;
      LeftFactor(k, q * l, d);
      assert Times(k - q * l, d, a - q * b);
    } else if d == 0 {
      assert a == 0 && b == 0;
      assert Times(0, d, a - q * b);
    }
  }

  lemma {:induction false} NextMultiple(x: nat, y: nat, d: nat)
    requires x < y
    ensures x * d + d <= y * d
    decreases y
  {
    assert y * d == (y - 1) * d + d;
    if x < y - 1 {
      NextMultiple(x, y - 1, d);
    }
  }

  lemma LeftFactor(x: nat, y: nat, d: nat)
    requires d > 0 && x * d >= y * d
    ensures x >= y
  {
    if x < y {
      NextMultiple(x, y, d);
    }
  }

  /** One turn of Euclid's loop keeps the common divisors. */
  lemma EuclidStep(d: nat, a: nat, b: nat)
    requires b > 0
    ensures Common(d, a, b) <==> Common(d, b, a % b)
  {
    var q := a / b;
    assert a == a % b + q * b;
    if Common(d, a, b) {
      DividesSum(d, a, b, q);
    }
    if Common(d, b, a % b) {
      DividesSum(d, a % b, b, q);
    }
  }

  lemma DividesSelf(n: nat)
    ensures Divides(n, n) && Divides(n, 0)
  {
    assert Times(1, n, n);
    assert Times(0, n, 0);
  }

  method Gcd(lhs: nat, rhs: nat) returns (g: nat)
    ensures IsGcd(g, lhs, rhs)
  {
    var a, b := lhs, rhs;
    while b != 0
      invariant forall d: nat :: Common(d, lhs, rhs) <==> Common(d, a, b)
      decreases b
    {
      forall d: nat
        ensures Common(d, a, b) <==> Common(d, b, a % b)
      {
        EuclidStep(d, a, b);
      }
      a, b := b, a % b;
    }
    g := a;
    DividesSelf(g);
    assert Common(g, a, b);
  }

  // ----- consequences

  lemma DivisorBound(d: nat, n: nat)
    requires Divides(d, n) && n > 0
    ensures 0 < d <= n
  {
    var k: nat :| Times(k, d, n);
    if k >= 1 {
      assert k * d >= d;
    }
  }

  lemma ExactQuotient(g: nat, n: nat)
    requires g > 0 && Divides(g, n)
    ensures n == n / g * g
  {
    var k: nat :| Times(k, g, n);
    QuotientUnique(n, g, k);
  }

  lemma QuotientUnique(n: nat, g: nat, k: nat)
    requires g > 0 && n == k * g
    ensures n / g == k
  {
    var q := n / g;
    assert n == q * g + n % g;
    if q < k {
      NextMultiple(q, k, g);
    } else if q > k {
      NextMultiple(k, q, g);
    }
  }

  /** Dividing both numbers by their greatest common divisor leaves coprime numbers. */
  lemma QuotientsCoprime(g: nat, a: nat, b: nat, d: nat)
    requires IsGcd(g, a, b) && g > 0
    requires Common(d, a / g, b / g)
    ensures d == 1 || (a == 0 && b == 0)
  {
    ExactQuotient(g, a);
    ExactQuotient(g, b);
    var k: nat :| Times(k, d, a / g);
    var l: nat :| Times(l, d, b / g);
    assert Times(k, d * g, a) by { assert k * d * g == k * (d * g); }
    assert Times(l, d * g, b) by { assert l * d * g == l * (d * g); }
    assert Common(d * g, a, b);
    DivisorBound(d * g, g);
    if d >= 2 {
      NextMultiple(1, d, g);
    }
  }

  const NANOS := 1_000_000_000

  /** The published pair is the two numbers over their greatest common divisor, cut to 32 bits. */
  ghost predicate Published(numerator: nat, denominator: nat, ticksPerSecond: nat, g: nat) {
    && g > 0 && IsGcd(g, NANOS, ticksPerSecond)
    && numerator == NANOS / g % U32_LIMIT
    && denominator == ticksPerSecond / g % U32_LIMIT
  }

  /** The published ratio is exact and in lowest terms just when the reduced denominator fits
      in 32 bits; the numerator always does. */
  lemma RatioExact(g: nat, ticksPerSecond: nat)
    requires IsGcd(g, NANOS, ticksPerSecond) && g > 0
    ensures NANOS / g < U32_LIMIT
    ensures ticksPerSecond / g % U32_LIMIT == ticksPerSecond / g <==> ticksPerSecond / g < U32_LIMIT
    ensures NANOS / g * ticksPerSecond == ticksPerSecond / g * NANOS
    ensures Coprime(NANOS / g, ticksPerSecond / g)
  {
    ExactQuotient(g, NANOS);
    ExactQuotient(g, ticksPerSecond);
    CrossMultiply(NANOS, ticksPerSecond, g);
    forall d: nat | Common(d, NANOS / g, ticksPerSecond / g)
      ensures d == 1
    {
      QuotientsCoprime(g, NANOS, ticksPerSecond, d);
    }
  }

  lemma CrossMultiply(a: nat, b: nat, g: nat)
    requires g > 0 && a == a / g * g && b == b / g * g
    ensures a / g * b == b / g * a
  {
    var x, y := a / g, b / g;
    assert x * (y * g) == y * (x * g);
  }

  /** For every 16-bit frequency in megahertz the cut loses nothing. */
  lemma MegahertzFit(g: nat, mhz: nat)
    requires 0 < mhz < 0x1_0000
    requires IsGcd(g, NANOS, mhz * 1_000_000) && g > 0
    ensures mhz * 1_000_000 / g <= mhz < U32_LIMIT
  {
    assert Times(1000, 1_000_000, NANOS);
    assert Times(mhz, 1_000_000, mhz * 1_000_000);
    assert Common(1_000_000, NANOS, mhz * 1_000_000);
    DivisorBound(1_000_000, g);
    ExactQuotient(g, mhz * 1_000_000);
    var q := mhz * 1_000_000 / g;
    assert mhz * g >= mhz * 1_000_000;
    if q > mhz {
      NextMultiple(mhz, q, g);
    }
  }

  ghost predicate Coprime(a: nat, b: nat) {
    forall d: nat :: Common(d, a, b) ==> d == 1
  }

  /** A whole number of megahertz that fits in 16 bits. */
  predicate Megahertz(ticksPerSecond: nat) {
    ticksPerSecond % 1_000_000 == 0 && 0 < ticksPerSecond / 1_000_000 < 0x1_0000
  }

  /** The pair is in lowest terms and in the exact proportion. */
  ghost predicate LowestTerms(numerator: nat, denominator: nat, ticksPerSecond: nat) {
    Coprime(numerator, denominator) && numerator * ticksPerSecond == denominator * NANOS
  }

  lemma PublishedExact(numerator: nat, denominator: nat, ticksPerSecond: nat, g: nat)
    requires Published(numerator, denominator, ticksPerSecond, g) && Megahertz(ticksPerSecond)
    ensures LowestTerms(numerator, denominator, ticksPerSecond)
  {
    hide IsGcd, Coprime;
    RatioExact(g, ticksPerSecond);
    var mhz := ticksPerSecond / 1_000_000;
    assert ticksPerSecond == mhz * 1_000_000;
    MegahertzFit(g, mhz);
    SmallRemainder(NANOS / g, U32_LIMIT);
    SmallRemainder(ticksPerSecond / g, U32_LIMIT);
    assert numerator == NANOS / g && denominator == ticksPerSecond / g;
  }

  lemma GcdPositive(g: nat, n: nat)
    requires IsGcd(g, NANOS, n)
    ensures g > 0
  {
    DivisorBound(g, NANOS);
  }

  method Ratio(ticksPerSecond: nat) returns (numerator: nat, denominator: nat)
    ensures exists g: nat :: Published(numerator, denominator, ticksPerSecond, g)
    ensures numerator < U32_LIMIT && denominator < U32_LIMIT
    ensures Megahertz(ticksPerSecond) ==> LowestTerms(numerator, denominator, ticksPerSecond)
  {
    hide IsGcd, Megahertz, LowestTerms;
    var divisor := Gcd(NANOS, ticksPerSecond);
    GcdPositive(divisor, ticksPerSecond);
    numerator := NANOS / divisor % U32_LIMIT;
    denominator := ticksPerSecond / divisor % U32_LIMIT;
    assert Published(numerator, denominator, ticksPerSecond, divisor);
    if Megahertz(ticksPerSecond) {
      PublishedExact(numerator, denominator, ticksPerSecond, divisor);
    }
  }
}
