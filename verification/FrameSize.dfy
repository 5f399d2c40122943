/**
  `gcd` and `minimum_frame_size` (ACE/ace/ACE.cpp), on unsigned integers of any width: `modulus` is the
  number of values of the type, and products wrap around at it.
 */
module FrameSize {

  predicate Divides(d: nat, n: nat) {
    if d == 0 then n == 0 else n % d == 0
  }

  lemma Monotone(d: nat, a: int, b: int)
    ensures a <= b ==> d * a <= d * b
  {}

  lemma Quotient(n: nat, d: nat, q: nat, r: nat)
    requires n == d * q + r && r < d
    ensures n / d == q && n % d == r
  {
    var q', r' := n / d, n % d;
    assert n == d * q' + r';
    Monotone(d, q + 1, q');
    Monotone(d, q' + 1, q);
  }

  lemma Multiple(d: nat, k: nat)
    ensures Divides(d, d * k)
  {
    if d > 0 {
      Quotient(d * k, d, k, 0);
    }
  }

  /** A divisor of two numbers divides what is left when one is divided by the other, and back. */
  lemma DividesRemainder(d: nat, x: nat, y: nat)
    requires y > 0
    ensures Divides(d, x) && Divides(d, y) <==> Divides(d, y) && Divides(d, x % y)
  {
    if d > 0 && Divides(d, y) {
      var q, k := x / y, y / d;
      assert x == y * q + x % y && y == d * k;
      Associative(d, k, q);
      assert y * q == d * (k * q);
      var r := x % y;
      var (rq, rr) := (r / d, r % d);
      assert x == d * (k * q + rq) + rr;
      Quotient(x, d, k * q + rq, rr);
    }
  }

  ghost predicate IsGcd(g: nat, x: nat, y: nat) {
    Divides(g, x) && Divides(g, y) && forall d: nat :: Divides(d, x) && Divides(d, y) ==> Divides(d, g)
  }

  lemma DividesSelfAndZero(d: nat)
    ensures Divides(d, d) && Divides(d, 0)
  {
    Multiple(d, 1);
    Multiple(d, 0);
  }

  lemma GcdStep(g: nat, x: nat, y: nat)
    requires y > 0
    ensures IsGcd(g, x, y) <==> IsGcd(g, y, x % y)
  {
    forall d: nat ensures Divides(d, x) && Divides(d, y) <==> Divides(d, y) && Divides(d, x % y) {
      DividesRemainder(d, x, y);
    }
  }

  /** Euclid's algorithm: the result is a common divisor that every common divisor divides. */
  method Gcd(x: nat, y: nat) returns (g: nat)
    ensures IsGcd(g, x, y)
  {
    var x', y' := x, y;
    while y' != 0
      invariant forall d: nat :: IsGcd(d, x, y) <==> IsGcd(d, x', y')
      decreases y'
    {
      forall d: nat ensures IsGcd(d, x', y') <==> IsGcd(d, y', x' % y') {
        GcdStep(d, x', y');
      }
      var r := x' % y';
      x' := y';
      y' := r;
    }
    DividesSelfAndZero(x');
    return x';
  }

  // ----- Least common multiples

  ghost predicate IsLcm(m: nat, x: nat, y: nat) {
    m > 0 && Divides(x, m) && Divides(y, m) && forall n: nat :: n > 0 && Divides(x, n) && Divides(y, n) ==> m <= n
  }

  lemma {:induction false} Bezout(x: nat, y: nat, g: nat) returns (u: int, v: int)
    requires IsGcd(g, x, y)
    ensures g == x * u + y * v
    decreases y
  {
    if y == 0 {
      DividesSelfAndZero(x);
      DividesEachOther(g, x);
      return 1, 0;
    }
    GcdStep(g, x, y);
    var u', v' := Bezout(y, x % y, g);
    u, v := v', u' - (x / y) * v';
    assert x == y * (x / y) + x % y;
    assert x * v' == y * (x / y) * v' + (x % y) * v';
    assert y * (u' - (x / y) * v') == y * u' - y * (x / y) * v';
  }

  lemma DividesEachOther(a: nat, b: nat)
    requires Divides(a, b) && Divides(b, a)
    ensures a == b
  {}

  lemma ProductFactors(x: nat, y: nat, g: nat)
    requires x > 0 && y > 0 && g > 0 && Divides(g, x) && Divides(g, y)
    ensures x * y / g == (x / g) * y == x * (y / g) && x * y == g * (x * y / g) > 0
  {
    var a, b := x / g, y / g;
    assert x == g * a && y == g * b;
    assert x * y == g * (a * y) by {
      Associative(g, a, y);
    }
    assert x * y == g * (x * b) by {
      Associative(x, g, b);
      Associative(g, x, b);
    }
    Quotient(x * y, g, a * y, 0);
    Quotient(x * y, g, x * b, 0);
  }

  lemma Associative(a: nat, b: nat, c: nat)
    ensures (a * b) * c == a * (b * c) == b * (a * c)
  {}

  /** The product over the gcd is the least common multiple. */
  lemma ProductOverGcd(x: nat, y: nat, g: nat)
    requires x > 0 && y > 0 && IsGcd(g, x, y)
    ensures g > 0 && IsLcm(x * y / g, x, y)
  {
    var m := x * y / g;
    ProductFactors(x, y, g);
    Multiple(x, y / g);
    Multiple(y, x / g);
    assert (x / g) * y == y * (x / g);
    forall n: nat | n > 0 && Divides(x, n) && Divides(y, n) ensures m <= n {
      LeastMultiple(x, y, g, n);
      hide IsGcd, Divides;
      Monotone(g, n + 1, m);
    }
    hide IsGcd, Divides;
  }

  lemma LeastMultiple(x: nat, y: nat, g: nat, n: nat)
    requires x > 0 && y > 0 && IsGcd(g, x, y) && g > 0
    requires n > 0 && Divides(x, n) && Divides(y, n)
    ensures n * g >= x * y
  {
    var u, v := Bezout(x, y, g);
    var k, l := n / x, n / y;
    assert n == x * k && n == y * l;
    assert n * g == n * (x * u) + n * (y * v);
    assert n * (x * u) == (x * y) * (l * u);
    assert n * (y * v) == (x * y) * (k * v);
    var t := l * u + k * v;
    assert n * g == (x * y) * t;
    assert n * g > 0;
    Monotone(x * y, t, 0);
    Monotone(x * y, 1, t);
  }

  lemma LcmIs(m: nat, x: nat, y: nat, g: nat)
    requires x > 0 && y > 0 && IsGcd(g, x, y)
    ensures g > 0 && (IsLcm(m, x, y) <==> m == x * y / g)
  {
    ProductOverGcd(x, y, g);
  }

  /** The gcd is one of the two numbers exactly if that one divides the other. */
  lemma GcdIsOne(x: nat, y: nat, g: nat)
    requires x > 0 && y > 0 && IsGcd(g, x, y)
    ensures 0 < g <= x
    ensures g == x <==> Divides(x, y)
    ensures g == y <==> Divides(y, x)
    ensures g == x ==> x * y / g == y
    ensures g == y ==> x * y / g == x
  {
    DividesSelfAndZero(x);
    DividesSelfAndZero(y);
    if g > x {
      Quotient(x, g, 0, x);
    }
    Quotient(x * y, x, y, 0);
    Quotient(x * y, y, x, 0);
    if Divides(x, y) {
      DividesEachOther(g, x);
    }
    if Divides(y, x) {
      DividesEachOther(g, y);
    }
  }

  /** A wrapped product over g is the true one over g only if it did not wrap. */
  lemma Wrapped(product: nat, g: nat, modulus: nat)
    requires 0 < g < modulus
    ensures product % modulus / g == product / g <==> product < modulus
  {
    var wrapped := product % modulus;
    if product < modulus {
      Quotient(product, modulus, 0, product);
    } else {
      assert product == modulus * (product / modulus) + wrapped;
      Monotone(modulus, 1, product / modulus);
      assert wrapped + g <= product;
      assert g * (wrapped / g) + wrapped % g == wrapped && g * (product / g) + product % g == product;
      Monotone(g, product / g, wrapped / g);
    }
  }

  /** What the four branches for positive periods compute. */
  function FrameSize(period1: nat, period2: nat, g: nat, modulus: nat): nat
    requires g > 0 && modulus > 0
  {
    if g == 1 then period1 * period2 % modulus
    else if g == period1 then period2
    else if g == period2 then period1
    else (period1 * period2 % modulus) / g
  }

  /** They compute the least common multiple if and only if the product fits or one period divides the
      other. */
  lemma FrameSizeIsLcm(period1: nat, period2: nat, g: nat, modulus: nat)
    requires 0 < period1 < modulus && 0 < period2 < modulus && IsGcd(g, period1, period2)
    ensures g > 0 && FrameSize(period1, period2, g, modulus) < modulus
    ensures IsLcm(FrameSize(period1, period2, g, modulus), period1, period2) <==>
      period1 * period2 < modulus || Divides(period1, period2) || Divides(period2, period1)
  {
    GcdIsOne(period1, period2, g);
    var size := FrameSize(period1, period2, g, modulus);
    LcmIs(size, period1, period2, g);
    Wrapped(period1 * period2, g, modulus);
    hide IsGcd, IsLcm, Divides;
    var product := period1 * period2;
    if g != 1 && g != period1 && g != period2 {
      assert size == product % modulus / g;
      Shrinks(product % modulus, g);
    } else if g == 1 {
      assert product % modulus / 1 == product % modulus && product / 1 == product;
    }
  }

  lemma Shrinks(n: nat, g: nat)
    requires g > 0
    ensures n / g <= n
  {
    assert n == g * (n / g) + n % g;
    Monotone(n / g, 1, g);
  }

  /** `minimum_frame_size`: with a zero period the other one, else the least common multiple under the
      condition above, and something else when it fails. */
  method MinimumFrameSize(period1: nat, period2: nat, modulus: nat) returns (size: nat)
    requires period1 < modulus && period2 < modulus
    ensures size < modulus
    ensures period1 == 0 ==> size == period2
    ensures period2 == 0 ==> size == period1
    ensures period1 > 0 && period2 > 0 ==>
      (IsLcm(size, period1, period2) <==>
        period1 * period2 < modulus || Divides(period1, period2) || Divides(period2, period1))
  {
    if 0 == period1 {
      return period2;
    }
    if 0 == period2 {
      return period1;
    }
    var greatestCommonDivisor := Gcd(period1, period2);
    FrameSizeIsLcm(period1, period2, greatestCommonDivisor, modulus);
    hide IsGcd, IsLcm, Divides;
    if greatestCommonDivisor == 1 {
      return period1 * period2 % modulus;
    } else if greatestCommonDivisor == period1 {
      return period2;
    } else if greatestCommonDivisor == period2 {
      return period1;
    } else {
      return (period1 * period2 % modulus) / greatestCommonDivisor;
    }
  }

  /** With 32 bits, periods 0x10000 and 0x18000 have the least common multiple 0x30000, which fits, and
      the frame size 0x10000. */
  lemma OverflowHappens()
    ensures IsGcd(0x8000, 0x10000, 0x18000) && IsLcm(0x30000, 0x10000, 0x18000)
    ensures FrameSize(0x10000, 0x18000, 0x8000, 0x1_0000_0000) == 0x10000
    ensures !IsLcm(0x10000, 0x10000, 0x18000)
  {
    GcdStep(0x8000, 0x10000, 0x18000);
    GcdStep(0x8000, 0x18000, 0x10000);
    GcdStep(0x8000, 0x10000, 0x8000);
    DividesSelfAndZero(0x8000);
    LcmIs(0x30000, 0x10000, 0x18000, 0x8000);
  }
}
