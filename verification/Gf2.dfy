/**
  Polynomials over GF(2), written as finite sets of exponents, and long division by a generator
  one message bit at a time. This is the arithmetic a CRC is defined by (ISO/IEC 8802-3 section
  3.2.9); it knows nothing about registers, reflection or tables.
 */
module Gf2 {
  type Poly = set<nat>

  function Add(a: Poly, b: Poly): Poly {
    (a - b) + (b - a)
  }

  /** Multiplication by x. */
  function TimesX(a: Poly): Poly {
    set e | e in a :: e + 1
  }

  function When(b: bool, a: Poly): Poly {
    if b then a else {}
  }

  /** A generator of degree `width` with a constant term. */
  datatype Generator = Generator(width: nat, taps: Poly) {
    ghost predicate Valid() {
      0 < width && 0 in taps && width in taps && forall e | e in taps :: e <= width
    }

    /** The product of this generator and the polynomial with coefficients `q`, highest first. */
    function Multiple(q: seq<bool>): Poly {
      if q == [] then {} else Add(TimesX(Multiple(q[..|q| - 1])), When(q[|q| - 1], taps))
    }

    /** The coefficient a division step subtracts the generator for. */
    predicate Quotient(r: Poly, bit: bool) {
      (width - 1 in r) != bit
    }

    /** One step of long division: bring down `bit` at the top, shift, and reduce. */
    function Step(r: Poly, bit: bool): Poly
      requires 0 < width
    {
      Add(TimesX(Add(r, When(bit, {width - 1}))), When(Quotient(r, bit), taps))
    }

    function Divide(r: Poly, bits: seq<bool>): Poly
      requires 0 < width
      decreases |bits|
    {
      if bits == [] then r else Step(Divide(r, bits[..|bits| - 1]), bits[|bits| - 1])
    }
  }

  ghost predicate Below(a: Poly, n: nat) {
    forall e | e in a :: e < n
  }

  ghost predicate AtLeast(a: Poly, n: int) {
    forall e | e in a :: n <= e
  }

  /** What is divided: r * x^|bits| + message(bits) * x^width. */
  function Dividend(g: Generator, r: Poly, bits: seq<bool>): Poly
    decreases |bits|
  {
    if bits == [] then r
    else Add(TimesX(Dividend(g, r, bits[..|bits| - 1])), When(bits[|bits| - 1], {g.width}))
  }

  lemma InTimesX(a: Poly, e: nat)
    ensures e in TimesX(a) <==> e > 0 && e - 1 in a
  {
    if e > 0 && e - 1 in a {
      assert e == (e - 1) + 1;
    }
  }

  lemma TimesXAdd(a: Poly, b: Poly)
    ensures TimesX(Add(a, b)) == Add(TimesX(a), TimesX(b))
  {
    forall e: nat
      ensures e in TimesX(Add(a, b)) <==> e in Add(TimesX(a), TimesX(b))
    {
      InTimesX(Add(a, b), e);
      InTimesX(a, e);
      InTimesX(b, e);
    }
  }

  lemma StepShape(g: Generator, r: Poly, bit: bool)
    requires g.Valid()
    ensures g.Step(r, bit) == Add(Add(TimesX(r), When(bit, {g.width})), When(g.Quotient(r, bit), g.taps))
  {
    TimesXAdd(r, When(bit, {g.width - 1}));
    var top := {g.width - 1};
    forall e: nat ensures e in TimesX(top) <==> e > 0 && e - 1 in top { InTimesX(top, e); }
    assert TimesX(top) == {g.width};
    assert TimesX({}) == {};
  }

  /** A step on registers that hold no term of the generator's degree. */
  lemma StepReduced(g: Generator, r: Poly)
    requires g.Valid() && Below(r, g.width)
    ensures g.Step(r, false) == Add(TimesX(r) - {g.width}, When(g.width - 1 in r, g.taps - {g.width}))
  {
    StepShape(g, r, false);
    InTimesX(r, g.width);
  }

  /** A step keeps the register below the width. */
  lemma StepBelow(g: Generator, r: Poly, bit: bool)
    requires g.Valid() && Below(r, g.width)
    ensures Below(g.Step(r, bit), g.width)
  {
    var s := Add(r, When(bit, {g.width - 1}));
    forall e | e in g.Step(r, bit) ensures e < g.width {
      InTimesX(s, e);
    }
  }

  lemma AddCancel(a: Poly, b: Poly, c: Poly, d: Poly)
    ensures Add(Add(a, d), Add(Add(b, c), d)) == Add(Add(a, b), c)
  {}

  /** The long division is a division: dividend = quotient * generator + register, deg register < width. */
  lemma {:induction false} DivideIsRemainder(g: Generator, r: Poly, bits: seq<bool>) returns (q: seq<bool>)
    requires g.Valid() && Below(r, g.width)
    ensures |q| == |bits|
    ensures Dividend(g, r, bits) == Add(g.Multiple(q), g.Divide(r, bits))
    ensures Below(g.Divide(r, bits), g.width)
    decreases |bits|
  {
    if bits == [] {
      q := [];
    } else {
      var bit, front := bits[|bits| - 1], bits[..|bits| - 1];
      var p := DivideIsRemainder(g, r, front);
      var reg := g.Divide(r, front);
      q := p + [g.Quotient(reg, bit)];
      assert q[..|q| - 1] == p;
      StepBelow(g, reg, bit);
      StepShape(g, reg, bit);
      TimesXAdd(g.Multiple(p), reg);
      AddCancel(TimesX(g.Multiple(p)), TimesX(reg), When(bit, {g.width}), When(g.Quotient(reg, bit), g.taps));
      hide Add, TimesX, When;
    }
  }

  ghost predicate Top(g: Generator, q: seq<bool>, e: nat) {
    g.width <= e < g.width + |q| && forall f | f in g.Multiple(q) :: f <= e
  }

  /** A multiple of the generator that is not zero has an exponent of at least the width. */
  lemma {:induction false} MultipleIsHigh(g: Generator, q: seq<bool>)
    requires g.Valid()
    ensures true in q ==> exists e :: e in g.Multiple(q) && Top(g, q, e)
    ensures true !in q ==> g.Multiple(q) == {}
    decreases |q|
  {
    if q != [] {
      var bit, front := q[|q| - 1], q[..|q| - 1];
      assert q == front + [bit];
      MultipleIsHigh(g, front);
      var m := g.Multiple(front);
      forall e: nat ensures e in TimesX(m) <==> e > 0 && e - 1 in m { InTimesX(m, e); }
      if true in front {
        var e :| e in m && Top(g, front, e);
        assert e + 1 in g.Multiple(q) && Top(g, q, e + 1);
      } else if bit {
        assert g.Multiple(q) == g.taps;
        assert g.width in g.Multiple(q) && Top(g, q, g.width);
      }
    }
  }

  lemma {:induction false} AddMultiples(g: Generator, p: seq<bool>, q: seq<bool>) returns (s: seq<bool>)
    requires |p| == |q|
    ensures |s| == |p| && forall i | 0 <= i < |p| :: s[i] == (p[i] != q[i])
    ensures g.Multiple(s) == Add(g.Multiple(p), g.Multiple(q))
    decreases |p|
  {
    if p == [] {
      s := [];
    } else {
      var n := |p| - 1;
      var t := AddMultiples(g, p[..n], q[..n]);
      s := t + [p[n] != q[n]];
      assert s[..n] == t;
      TimesXAdd(g.Multiple(p[..n]), g.Multiple(q[..n]));
      AddSwap(TimesX(g.Multiple(p[..n])), When(p[n], g.taps), TimesX(g.Multiple(q[..n])), When(q[n], g.taps));
      AddWhen(p[n], q[n], g.taps);
      hide Add, TimesX, When;
    }
  }

  /** The remainder of a division by the generator is unique, and so is the quotient. */
  lemma RemainderUnique(g: Generator, p: seq<bool>, r: Poly, q: seq<bool>, s: Poly)
    requires g.Valid() && |p| == |q| && Below(r, g.width) && Below(s, g.width)
    requires Add(g.Multiple(p), r) == Add(g.Multiple(q), s)
    ensures r == s && p == q
  {
    var t := AddMultiples(g, p, q);
    var m, n := g.Multiple(p), g.Multiple(q);
    assert Add(m, n) == Add(r, s) by {
      assert forall e: nat :: e in Add(m, r) <==> e in Add(n, s);
    }
    MultipleIsHigh(g, t);
    assert true !in t;
    forall i | 0 <= i < |p| ensures p[i] == q[i] {
      assert t[i] in t;
    }
    assert forall e: nat :: e in r <==> e in s by {
      assert forall e: nat :: e !in Add(r, s);
    }
  }

  lemma StepInjective(g: Generator, r: Poly, s: Poly, bit: bool)
    requires g.Valid() && Below(r, g.width) && Below(s, g.width)
    requires g.Step(r, bit) == g.Step(s, bit)
    ensures r == s
  {
    var t := When(bit, {g.width - 1});
    var a, b := Add(r, t), Add(s, t);
    forall e: nat
      ensures (e in TimesX(a) <==> e > 0 && e - 1 in a) && (e in TimesX(b) <==> e > 0 && e - 1 in b)
    {
      InTimesX(a, e);
      InTimesX(b, e);
    }
    assert 0 in g.Step(r, bit) <==> g.Quotient(r, bit);
    assert 0 in g.Step(s, bit) <==> g.Quotient(s, bit);
    forall e: nat ensures e in r <==> e in s {
      assert e + 1 in g.Step(r, bit) <==> e + 1 in g.Step(s, bit);
    }
  }

  /** Running one division step backwards: a result with no exponent below n came from a register
      with none below n - 1, whatever bit was brought down. */
  lemma StepBackwards(g: Generator, d: Poly, bit: bool, n: nat)
    requires g.Valid() && Below(d, g.width) && 0 < n <= g.width
    requires AtLeast(g.Step(d, bit), n)
    ensures AtLeast(d, n - 1)
  {
    var a := Add(d, When(bit, {g.width - 1}));
    forall e: nat ensures e in TimesX(a) <==> e > 0 && e - 1 in a { InTimesX(a, e); }
    assert 0 !in g.Step(d, bit);
    assert !g.Quotient(d, bit);
    forall e | e in d ensures n - 1 <= e {
      if e in a {
        assert e + 1 in g.Step(d, bit);
      }
    }
  }

  lemma AddSwap(a: Poly, b: Poly, c: Poly, d: Poly)
    ensures Add(Add(a, b), Add(c, d)) == Add(Add(a, c), Add(b, d))
  {}

  lemma AddWhen(x: bool, y: bool, a: Poly)
    ensures Add(When(x, a), When(y, a)) == When(x != y, a)
  {}

  /** A step is linear in the register and the bit together. */
  lemma StepAdd(g: Generator, r: Poly, s: Poly, x: bool, y: bool)
    requires g.Valid()
    ensures Add(g.Step(r, x), g.Step(s, y)) == g.Step(Add(r, s), x != y)
  {
    StepShape(g, r, x);
    StepShape(g, s, y);
    StepShape(g, Add(r, s), x != y);
    TimesXAdd(r, s);
    var p, q := g.Quotient(r, x), g.Quotient(s, y);
    assert g.Quotient(Add(r, s), x != y) == (p != q);
    hide *;
    AddSwap(Add(TimesX(r), When(x, {g.width})), When(p, g.taps), Add(TimesX(s), When(y, {g.width})), When(q, g.taps));
    AddSwap(TimesX(r), When(x, {g.width}), TimesX(s), When(y, {g.width}));
    AddWhen(x, y, {g.width});
    AddWhen(p, q, g.taps);
  }

  function Xor(x: seq<bool>, y: seq<bool>): (z: seq<bool>)
    requires |x| == |y|
    ensures |z| == |x|
  {
    seq(|x|, i requires 0 <= i < |x| => x[i] != y[i])
  }

  lemma {:induction false} DivideAdd(g: Generator, r: Poly, s: Poly, x: seq<bool>, y: seq<bool>)
    requires g.Valid() && |x| == |y|
    ensures Add(g.Divide(r, x), g.Divide(s, y)) == g.Divide(Add(r, s), Xor(x, y))
    decreases |x|
  {
    if x != [] {
      var n := |x| - 1;
      DivideAdd(g, r, s, x[..n], y[..n]);
      assert Xor(x, y)[..n] == Xor(x[..n], y[..n]);
      StepAdd(g, g.Divide(r, x[..n]), g.Divide(s, y[..n]), x[n], y[n]);
    }
  }

  lemma {:induction false} DivideBelow(g: Generator, r: Poly, bits: seq<bool>)
    requires g.Valid() && Below(r, g.width)
    ensures Below(g.Divide(r, bits), g.width)
    decreases |bits|
  {
    if bits != [] {
      DivideBelow(g, r, bits[..|bits| - 1]);
      StepBelow(g, g.Divide(r, bits[..|bits| - 1]), bits[|bits| - 1]);
    }
  }

  ghost predicate Zeros(bits: seq<bool>, lo: nat, hi: nat)
    requires hi <= |bits|
  {
    forall i | lo <= i < hi :: !bits[i]
  }

  lemma {:induction false} ZerosFromZero(g: Generator, bits: seq<bool>)
    requires g.Valid() && Zeros(bits, 0, |bits|)
    ensures g.Divide({}, bits) == {}
    decreases |bits|
  {
    if bits != [] {
      ZerosFromZero(g, bits[..|bits| - 1]);
      StepShape(g, {}, false);
      assert TimesX({}) == {};
    }
  }

  /** Dividing an error pattern: if it starts with a one and the remainder after k more bits has no
      exponent below n, then so had the registers before it, one exponent lower each bit back. */
  lemma {:induction false} DivideBackwards(g: Generator, r: Poly, bits: seq<bool>, n: nat)
    requires g.Valid() && Below(r, g.width) && |bits| <= n <= g.width
    requires AtLeast(g.Divide(r, bits), n)
    ensures AtLeast(r, n - |bits|)
    decreases |bits|
  {
    if bits != [] {
      var front := bits[..|bits| - 1];
      DivideBelow(g, r, front);
      StepBackwards(g, g.Divide(r, front), bits[|bits| - 1], n);
      DivideBackwards(g, r, front, n - 1);
    }
  }

  lemma {:induction false} DivideSplit(g: Generator, r: Poly, x: seq<bool>, y: seq<bool>)
    requires g.Valid()
    ensures g.Divide(r, x + y) == g.Divide(g.Divide(r, x), y)
    decreases |y|
  {
    if y == [] {
      assert x + y == x;
    } else {
      assert (x + y)[..|x + y| - 1] == x + y[..|y| - 1];
      DivideSplit(g, r, x, y[..|y| - 1]);
    }
  }

  /** No error burst of at most `width` bits, at any bit position, leaves remainder zero. */
  lemma BurstLeavesRemainder(g: Generator, error: seq<bool>, lo: nat, hi: nat)
    requires g.Valid() && lo < hi <= |error| && hi - lo <= g.width
    requires Zeros(error, 0, lo) && Zeros(error, hi, |error|) && error[lo]
    ensures g.Divide({}, error) != {}
  {
    var head, burst, tail := error[..lo], error[lo..hi], error[hi..];
    assert error == (head + burst) + tail;
    DivideSplit(g, {}, head + burst, tail);
    DivideSplit(g, {}, head, burst);
    ZerosFromZero(g, head);
    var d := g.Divide({}, burst);
    DivideBelow(g, {}, burst);
    if d == {} {
      // The register right after the first one bit is the generator below its leading term.
      var first := g.Step({}, true);
      StepShape(g, {}, true);
      assert TimesX({}) == {};
      assert 0 in first;
      assert burst == [true] + burst[1..];
      DivideSplit(g, {}, [true], burst[1..]);
      assert [true][..0] == [];
      assert g.Divide({}, [true]) == first;
      StepBelow(g, {}, true);
      DivideBackwards(g, first, burst[1..], g.width);
      assert false;
    }
    if g.Divide(d, tail) == {} {
      ZerosFromZero(g, tail);
      DivideInjective(g, d, {}, tail);
    }
  }

  lemma {:induction false} DivideInjective(g: Generator, r: Poly, s: Poly, bits: seq<bool>)
    requires g.Valid() && Below(r, g.width) && Below(s, g.width)
    requires g.Divide(r, bits) == g.Divide(s, bits)
    ensures r == s
    decreases |bits|
  {
    if bits != [] {
      var front := bits[..|bits| - 1];
      DivideBelow(g, r, front);
      DivideBelow(g, s, front);
      StepInjective(g, g.Divide(r, front), g.Divide(s, front), bits[|bits| - 1]);
      DivideInjective(g, r, s, front);
    }
  }

  /** Two messages of one length that differ, and differ only inside some `width` consecutive bits,
      leave different remainders from the same register. */
  lemma BurstDetected(g: Generator, r: Poly, x: seq<bool>, y: seq<bool>, lo: nat, hi: nat)
    requires g.Valid() && |x| == |y| && lo <= hi <= |x| && hi - lo <= g.width
    requires forall i | 0 <= i < |x| && !(lo <= i < hi) :: x[i] == y[i]
    requires x != y
    ensures g.Divide(r, x) != g.Divide(r, y)
  {
    var e := Xor(x, y);
    var first := FirstDifference(x, y);
    DivideAdd(g, r, r, x, y);
    assert Add(r, r) == {};
    BurstLeavesRemainder(g, e, first, hi);
  }

  lemma FirstDifference(x: seq<bool>, y: seq<bool>) returns (k: nat)
    requires |x| == |y| && x != y
    ensures k < |x| && x[k] != y[k] && x[..k] == y[..k]
  {
    k := 0;
    while x[k] == y[k]
      invariant k < |x| && x[..k] == y[..k]
      decreases |x| - k
    {
      assert x[..k + 1] == x[..k] + [x[k]];
      assert y[..k + 1] == y[..k] + [y[k]];
      assert x[..|x|] == x && y[..|y|] == y;
      k := k + 1;
    }
  }

  function ZeroBits(n: nat): seq<bool> {
    seq(n, i => false)
  }

  lemma XorZeros(n: nat)
    ensures Xor(ZeroBits(n), ZeroBits(n)) == ZeroBits(n)
  {}

  function Up(a: Poly, n: nat): Poly {
    set e | e in a :: e + n
  }

  lemma {:induction false} DivideZeros(g: Generator, r: Poly, n: nat)
    requires g.Valid() && n <= g.width && Below(r, g.width - n)
    ensures g.Divide(r, ZeroBits(n)) == Up(r, n)
    decreases n
  {
    if n > 0 {
      DivideZeros(g, r, n - 1);
      assert ZeroBits(n)[..n - 1] == ZeroBits(n - 1);
      StepShape(g, Up(r, n - 1), false);
      forall e: nat ensures e in TimesX(Up(r, n - 1)) <==> e in Up(r, n) {
        InTimesX(Up(r, n - 1), e);
        if e in Up(r, n) {
          assert (e - n) + (n - 1) in Up(r, n - 1);
        }
      }
    }
  }

  /** The polynomial whose leading coefficients, from x^(width-1) down, are `bits`. */
  function Leading(width: nat, bits: seq<bool>): Poly
    requires |bits| <= width
  {
    set i | 0 <= i < |bits| && bits[i] :: width - 1 - i
  }

  lemma LeadingSnoc(width: nat, front: seq<bool>, bit: bool)
    requires |front| < width
    ensures Leading(width, front + [bit]) == Add(Leading(width, front), When(bit, {width - 1 - |front|}))
  {
    var n, bits := |front|, front + [bit];
    forall e: nat
      ensures e in Leading(width, bits) <==> e in Add(Leading(width, front), When(bit, {width - 1 - n}))
    {
      if e in Leading(width, front) {
        var i :| 0 <= i < n && front[i] && e == width - 1 - i;
        assert bits[i];
      }
      if bit && e == width - 1 - n {
        assert bits[n];
      }
    }
  }

  lemma AddAssociative(a: Poly, b: Poly, c: Poly)
    ensures Add(Add(a, b), c) == Add(a, Add(b, c))
    ensures Add(a, {}) == a && Add({}, a) == a
  {}

  lemma StepAbsorbs(g: Generator, r: Poly, bit: bool)
    requires g.Valid()
    ensures g.Step(r, bit) == g.Step(Add(r, When(bit, {g.width - 1})), false)
  {
    AddAssociative(Add(r, When(bit, {g.width - 1})), {}, {});
  }

  lemma DivideZeroMore(g: Generator, r: Poly, n: nat)
    requires g.Valid()
    ensures g.Divide(r, ZeroBits(n + 1)) == g.Step(g.Divide(r, ZeroBits(n)), false)
  {
    assert ZeroBits(n + 1)[..n] == ZeroBits(n);
  }

  lemma UpWhen(bit: bool, e: nat, n: nat)
    ensures Up(When(bit, {e}), n) == When(bit, {e + n})
  {}

  /** A term added in advance has reached the top when its turn comes. */
  lemma Advance(g: Generator, s: Poly, bit: bool, n: nat)
    requires g.Valid() && n < g.width
    ensures g.Step(g.Divide(s, ZeroBits(n)), bit)
         == g.Divide(Add(s, When(bit, {g.width - 1 - n})), ZeroBits(n + 1))
  {
    hide *;
    var last := When(bit, {g.width - 1 - n});
    DivideAdd(g, s, last, ZeroBits(n), ZeroBits(n));
    XorZeros(n);
    WhenBelow(bit, g.width - 1 - n, g.width - n);
    DivideZeros(g, last, n);
    UpWhen(bit, g.width - 1 - n, n);
    StepAbsorbs(g, g.Divide(s, ZeroBits(n)), bit);
    DivideZeroMore(g, Add(s, last), n);
  }

  lemma WhenBelow(bit: bool, e: nat, n: nat)
    requires e < n
    ensures Below(When(bit, {e}), n)
  {}

  /** Bits brought down one at a time may as well all be added to the register first. */
  lemma {:induction false} AbsorbBits(g: Generator, r: Poly, bits: seq<bool>)
    requires g.Valid() && |bits| <= g.width
    ensures g.Divide(r, bits) == g.Divide(Add(r, Leading(g.width, bits)), ZeroBits(|bits|))
    decreases |bits|
  {
    if bits == [] {
      AddAssociative(r, {}, {});
    } else {
      var n := |bits| - 1;
      var front := bits[..n];
      AbsorbBits(g, r, front);
      assert bits == front + [bits[n]];
      LeadingSnoc(g.width, front, bits[n]);
      AddAssociative(r, Leading(g.width, front), When(bits[n], {g.width - 1 - n}));
      Advance(g, Add(r, Leading(g.width, front)), bits[n], n);
      hide Leading, Add;
    }
  }

  // ----- Odd numbers of errors

  function Odd(n: nat): bool {
    n % 2 == 1
  }

  /** Whether the number of ones is odd. */
  predicate OddOnes(bits: seq<bool>) {
    bits != [] && OddOnes(bits[..|bits| - 1]) != bits[|bits| - 1]
  }

  /** The number of terms of a sum is odd if that of exactly one of the two is. */
  lemma AddOdd(a: Poly, b: Poly)
    ensures Odd(|Add(a, b)|) <==> Odd(|a|) != Odd(|b|)
  {
    assert |a| == |a - b| + |a * b| by {
      assert (a - b) + (a * b) == a;
    }
    assert |b| == |b - a| + |a * b| by {
      assert (b - a) + (a * b) == b;
    }
    assert |Add(a, b)| == |a - b| + |b - a|;
  }

  lemma {:induction false} TimesXSize(a: Poly)
    ensures |TimesX(a)| == |a|
    decreases |a|
  {
    if a != {} {
      var e :| e in a;
      var rest := a - {e};
      TimesXSize(rest);
      forall f: nat ensures f in TimesX(a) <==> f in TimesX(rest) + {e + 1} {
        InTimesX(a, f);
        InTimesX(rest, f);
      }
      assert e + 1 !in TimesX(rest) by {
        InTimesX(rest, e + 1);
      }
      assert TimesX(a) == TimesX(rest) + {e + 1};
    }
  }

  lemma {:induction false} MultipleEven(g: Generator, q: seq<bool>)
    requires !Odd(|g.taps|)
    ensures !Odd(|g.Multiple(q)|)
    decreases |q|
  {
    if q != [] {
      var m := g.Multiple(q[..|q| - 1]);
      MultipleEven(g, q[..|q| - 1]);
      TimesXSize(m);
      AddOdd(TimesX(m), When(q[|q| - 1], g.taps));
    }
  }

  lemma WhenOdd(b: bool, e: nat)
    ensures Odd(|When(b, {e})|) <==> b
  {}

  lemma {:induction false} DividendOdd(g: Generator, bits: seq<bool>)
    ensures Odd(|Dividend(g, {}, bits)|) <==> OddOnes(bits)
    decreases |bits|
  {
    if bits != [] {
      var d, last := Dividend(g, {}, bits[..|bits| - 1]), bits[|bits| - 1];
      DividendOdd(g, bits[..|bits| - 1]);
      TimesXSize(d);
      AddOdd(TimesX(d), When(last, {g.width}));
      WhenOdd(last, g.width);
      hide TimesX, Add, When, Odd;
    }
  }

  /** A generator with an even number of terms has the factor x + 1: messages of one length that differ in
      an odd number of bits leave different remainders. */
  lemma {:induction false} OddErrorsDetected(g: Generator, r: Poly, x: seq<bool>, y: seq<bool>)
    requires g.Valid() && !Odd(|g.taps|) && |x| == |y| && OddOnes(Xor(x, y))
    ensures g.Divide(r, x) != g.Divide(r, y)
  {
    var e := Xor(x, y);
    DivideAdd(g, r, r, x, y);
    assert Add(r, r) == {};
    var q := DivideIsRemainder(g, {}, e);
    MultipleEven(g, q);
    DividendOdd(g, e);
    AddAssociative(g.Multiple(q), {}, {});
    assert g.Divide({}, e) != {};
    assert forall a: Poly :: Add(a, a) == {};
  }
}
