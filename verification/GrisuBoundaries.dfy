/** The boundaries of a floating-point number and the digits made between them: the
    intervals are wide enough for `max_digits10` digits. */
module GrisuBoundaries {
  import opened Arithmetic
  import opened Grisu

  const HALF := 0x8000_0000_0000_0000

  /** An IEEE format: precision with the hidden bit, `kBias`, the exponent field of
      infinities, and `max_digits10`. */
  datatype Format = Format(precision: nat, bias: int, limit: nat, digits: nat)

  const DOUBLE := Format(53, 1075, 2047, 17)
  const SINGLE := Format(24, 150, 255, 9)

  predicate Known(fmt: Format) {
    fmt == DOUBLE || fmt == SINGLE
  }

  /** Exponent field `E` and fraction field `F` of a finite number above zero. */
  predicate Positive(fmt: Format, E: nat, F: nat) {
    E < fmt.limit && 1 <= fmt.precision && F < Pow2(fmt.precision - 1) && (E > 0 || F > 0)
  }

  function Significand(fmt: Format, E: nat, F: nat): nat
    requires Positive(fmt, E, F)
  {
    if E == 0 then F else F + Pow2(fmt.precision - 1)
  }

  function Exponent(fmt: Format, E: nat): int {
    if E == 0 then 1 - fmt.bias else E - fmt.bias
  }

  /** The fields of 1.0 and of the smallest number above zero. */
  lemma KnownNumbers()
    ensures Significand(DOUBLE, 1023, 0) == Pow2(52) && Exponent(DOUBLE, 1023) == -52
    ensures Significand(SINGLE, 127, 0) == Pow2(23) && Exponent(SINGLE, 127) == -23
    ensures Significand(DOUBLE, 0, 1) == 1 && Exponent(DOUBLE, 0) == -1074
    ensures Significand(SINGLE, 0, 1) == 1 && Exponent(SINGLE, 0) == -149
  {
  }

  /** The bits of `E'` and `F'` are those of `E` and `F` counted up by one. */
  predicate Follows(fmt: Format, E: nat, F: nat, E': nat, F': nat)
    requires fmt.precision >= 1
  {
    E' * Pow2(fmt.precision - 1) + F' == E * Pow2(fmt.precision - 1) + F + 1
  }

  /** Counting the bits up adds one unit of the lower exponent to the number. */
  lemma NextNumber(fmt: Format, E: nat, F: nat, E': nat, F': nat)
    requires Positive(fmt, E, F) && Positive(fmt, E', F') && Follows(fmt, E, F, E', F')
    ensures Exponent(fmt, E) <= Exponent(fmt, E')
    ensures Significand(fmt, E', F') * Pow2(Exponent(fmt, E') - Exponent(fmt, E)) == Significand(fmt, E, F) + 1
  {
    var p := Pow2(fmt.precision - 1);
    NextFields(p, E, F, E', F');
    assert Pow2(0) == 1 && Pow2(1) == 2;
  }

  lemma NextFields(p: nat, E: nat, F: nat, E': nat, F': nat)
    requires F < p && F' < p && E' * p + F' == E * p + F + 1
    ensures (E' == E && F' == F + 1) || (E' == E + 1 && F' == 0 && F == p - 1)
  {
    Distribute(E', E, p);
    MulLeIf(1, E - E', p);
    MulLeIf(2, E' - E, p);
    if F + 1 < p {
      MulLeIf(1, E' - E, p);
    }
  }

  // -------- Normalizing --------

  method Normalize(x: Diyfp) returns (r: Diyfp, ghost s: nat)
    requires x.f != 0
    ensures r.f == x.f * Pow2(s) && r.e == x.e - s && HALF <= r.f
  {
    r, s := x, 0;
    while r.f < HALF
      invariant r.f > 0 && r.f == x.f * Pow2(s) && r.e == x.e - s
      decreases U64 - r.f
    {
      TwiceOf(x.f, Pow2(s));
      r := Diyfp(2 * r.f, r.e - 1);
      s := s + 1;
    }
  }

  /** No bit of `x` may be lost. */
  method NormalizeTo(x: Diyfp, target: int) returns (r: Diyfp)
    requires target <= x.e && x.f * Pow2(x.e - target) < U64
    ensures r.f == x.f * Pow2(x.e - target) && r.e == target
  {
    MulLe(0, x.f, Pow2(x.e - target));
    r := Diyfp(x.f * Pow2(x.e - target), target);
  }

  lemma Pow2At()
    ensures Pow2(10) == 1024 && Pow2(24) == 0x100_0000 && Pow2(53) == 0x20_0000_0000_0000
    ensures Pow2(63) == HALF && Pow2(64) == U64
  {
    Pow2Values();
    assert Pow2(2) == 4 && Pow2(4) == 16 && Pow2(6) == 64 && Pow2(8) == 256 && Pow2(10) == 1024;
    Pow2Add(10, 10);
    Pow2Add(20, 4);
    Pow2Add(32, 20);
    assert Pow2(53) == 2 * Pow2(52);
    assert Pow2(61) == 2 * Pow2(60) && Pow2(62) == 2 * Pow2(61) && Pow2(63) == 2 * Pow2(62);
    assert Pow2(64) == 2 * Pow2(63);
  }

  /** Only one shift brings a number into the upper half of 64 bits. */
  lemma UniqueShift(f: nat, a: nat, b: nat)
    requires HALF <= f * Pow2(a) < U64 && HALF <= f * Pow2(b) < U64
    ensures a == b
  {
    if a < b {
      ShiftMore(f, a, b);
    } else if b < a {
      ShiftMore(f, b, a);
    }
  }

  lemma ShiftMore(f: nat, a: nat, b: nat)
    requires a < b
    ensures 2 * (f * Pow2(a)) <= f * Pow2(b)
  {
    Pow2Mono(a + 1, b);
    MulLe(2 * Pow2(a), Pow2(b), f);
    TwiceOf(f, Pow2(a));
  }

  /** The shift that normalizes the upper boundary normalizes the number itself one bit further. */
  lemma UpperShift(f: nat, s: nat)
    requires 0 < f < Pow2(53) && HALF <= (2 * f + 1) * Pow2(s) < U64
    ensures 10 <= s <= 62 && 1024 <= Pow2(s) && HALF <= f * Pow2(s + 1) < U64
  {
    Pow2At();
    var t := Pow2(s);
    Distribute(2 * f, 1, t);
    assert (2 * f) * t == f * Pow2(s + 1) by {
      TwiceOf(f, t);
      MulAssoc(2, f, t);
    }
    if s >= 63 {
      Pow2Mono(63, s);
      MulLe(3, 2 * f + 1, t);
    } else {
      NotJustAbove(f, s);
    }
    ShiftsEnough(2 * f + 1, s);
    Pow2Mono(10, s);
  }

  /** A number of at most 54 bits is shifted at least ten times. */
  lemma ShiftsEnough(x: nat, s: nat)
    requires x < 2 * Pow2(53) && HALF <= x * Pow2(s)
    ensures s >= 10
  {
    Pow2At();
    if s < 10 {
      Pow2Mono(s, 9);
      assert Pow2(10) == 2 * Pow2(9);
      MulLe(x, 2 * Pow2(53) - 1, Pow2(s));
      MulLe(Pow2(s), 512, 2 * Pow2(53) - 1);
    }
  }

  /** 2^63 is an even number of units of 2^s, so the odd number of them is above it, not at it. */
  lemma NotJustAbove(f: nat, s: nat)
    requires s < 63 && HALF <= (2 * f + 1) * Pow2(s)
    ensures HALF <= (2 * f) * Pow2(s)
  {
    Pow2At();
    Pow2Add(62 - s, s);
    EvenUnits(f, Pow2(62 - s), Pow2(s), HALF);
  }

  lemma EvenUnits(f: nat, r: nat, t: nat, h: nat)
    requires t > 0 && h == 2 * (r * t) <= (2 * f + 1) * t
    ensures h <= (2 * f) * t
  {
    MulAssoc(2, r, t);
    if 2 * f < 2 * r {
      MulLe(2 * f + 1, 2 * r - 1, t);
      Distribute(2 * r, 1, t);
    } else {
      MulLe(2 * r, 2 * f, t);
    }
  }

  // -------- Boundaries --------

  /** The number and its boundaries with one exponent: the number is 2 * f units of
      2^s, the upper boundary one unit more, the lower one unit or half a unit less. */
  ghost predicate Bounds(fmt: Format, E: nat, F: nat, w: Diyfp, minus: Diyfp, plus: Diyfp, s: nat)
    requires Positive(fmt, E, F)
  {
    var f := Significand(fmt, E, F);
    && w.e == minus.e == plus.e == Exponent(fmt, E) - 1 - s
    && HALF <= plus.f == (2 * f + 1) * Pow2(s)
    && w.f == (2 * f) * Pow2(s)
    && 2 * minus.f == 2 * w.f - (if F == 0 && E > 1 then 1 else 2) * Pow2(s)
  }

  /** The upper boundary is half way to the next number, and the lower one half way to the one before. */
  lemma BoundsAreMidpoints(fmt: Format, E: nat, F: nat, w: Diyfp, minus: Diyfp, plus: Diyfp, s: nat, E': nat, F': nat)
    requires Positive(fmt, E, F) && Positive(fmt, E', F') && Bounds(fmt, E, F, w, minus, plus, s)
    ensures Follows(fmt, E, F, E', F') ==>
              plus.e <= Exponent(fmt, E') &&
              2 * plus.f == w.f + Significand(fmt, E', F') * Pow2(Exponent(fmt, E') - plus.e)
    ensures Follows(fmt, E', F', E, F) ==>
              minus.e <= Exponent(fmt, E') &&
              2 * minus.f == w.f + Significand(fmt, E', F') * Pow2(Exponent(fmt, E') - minus.e)
  {
    var p, f, g, e := Pow2(fmt.precision - 1), Significand(fmt, E, F), Significand(fmt, E', F'), Exponent(fmt, E);
    if Follows(fmt, E, F, E', F') {
      var k := Exponent(fmt, E') - e;
      NextNumber(fmt, E, F, E', F');
      Pow2Add(k, s + 1);
      MulAssoc(g, Pow2(k), Pow2(s + 1));
      assert Exponent(fmt, E') - plus.e == k + (s + 1);
      MidAbove(f, Pow2(s));
    }
    if Follows(fmt, E', F', E, F) {
      var k := e - Exponent(fmt, E');
      NextNumber(fmt, E', F', E, F);
      NextFields(p, E', F', E, F);
      assert Pow2(0) == 1 && Pow2(1) == 2 && Pow2(s + 1) == 2 * Pow2(s);
      assert k == if F == 0 && E > 1 then 1 else 0;
      MidBelow(f, g, Pow2(s), k);
    }
  }

  lemma MidAbove(f: nat, t: nat)
    ensures 2 * ((2 * f + 1) * t) == (2 * f) * t + (f + 1) * (2 * t)
  {
    Distribute(2 * f, 1, t);
    MulAssoc(f + 1, 2, t);
    Distribute(2 * f, 2, t);
  }

  lemma MidBelow(f: nat, g: nat, t: nat, k: nat)
    requires k <= 1 && f * Pow2(k) == g + 1
    ensures k == 0 ==> 2 * ((2 * f) * t) - 2 * t == (2 * f) * t + g * (2 * t)
    ensures k == 1 ==> 2 * ((2 * f) * t) - t == (2 * f) * t + g * t
  {
    assert Pow2(0) == 1 && Pow2(1) == 2;
    if k == 0 {
      MulAssoc(f - 1, 2, t);
      Distribute(2 * f, 2, t);
    } else {
      Distribute(2 * f, 1, t);
    }
  }

  /** `compute_boundaries`: all three numbers fit, so no bit is shifted out, and they share the exponent. */
  method ComputeBoundaries(fmt: Format, E: nat, F: nat) returns (w: Diyfp, minus: Diyfp, plus: Diyfp, ghost s: nat)
    requires Known(fmt) && Positive(fmt, E, F)
    ensures Bounds(fmt, E, F, w, minus, plus, s) && 1024 <= Pow2(s)
    ensures -1500 <= plus.e <= 1500
  {
    SignificandSmall(fmt, E, F);
    var v := Diyfp(Significand(fmt, E, F), Exponent(fmt, E));
    var closer := F == 0 && E > 1;
    var mPlus := Diyfp(2 * v.f + 1, v.e - 1);
    var mMinus := if closer then Diyfp(4 * v.f - 1, v.e - 2) else Diyfp(2 * v.f - 1, v.e - 1);
    plus, s := Normalize(mPlus);
    ShiftsInRange(v.f, s);
    ExponentFits(fmt, E, F, s);
    assert mMinus.e - plus.e == if closer then s - 1 else s;
    minus := NormalizeTo(mMinus, plus.e);
    ghost var s';
    w, s' := Normalize(v);
    UniqueShift(v.f, s', s + 1);
    BoundsFrom(fmt, E, F, w, minus, plus, s);
  }

  lemma BoundsFrom(fmt: Format, E: nat, F: nat, w: Diyfp, minus: Diyfp, plus: Diyfp, s: nat)
    requires Known(fmt) && Positive(fmt, E, F)
    requires w.e == minus.e == plus.e == Exponent(fmt, E) - 1 - s && s > 0
    requires var f := Significand(fmt, E, F);
             && HALF <= plus.f == (2 * f + 1) * Pow2(s) < U64 && w.f == f * Pow2(s + 1)
             && minus.f == if F == 0 && E > 1 then (4 * f - 1) * Pow2(s - 1) else (2 * f - 1) * Pow2(s)
    ensures Bounds(fmt, E, F, w, minus, plus, s)
  {
    SignificandFits(fmt, E, F);
    ShiftsFit(Significand(fmt, E, F), s);
  }

  lemma ExponentFits(fmt: Format, E: nat, F: nat, s: nat)
    requires Known(fmt) && Positive(fmt, E, F) && s <= 62
    ensures -1500 <= Exponent(fmt, E) - 1 - s <= 1500
  {
  }

  lemma SignificandSmall(fmt: Format, E: nat, F: nat)
    requires Known(fmt) && Positive(fmt, E, F)
    ensures 0 < Significand(fmt, E, F) < 0x20_0000_0000_0000
  {
    SignificandFits(fmt, E, F);
  }

  lemma ShiftsInRange(f: nat, s: nat)
    requires 0 < f < 0x20_0000_0000_0000 && HALF <= (2 * f + 1) * Pow2(s) < U64
    ensures 10 <= s <= 62 && 1024 <= Pow2(s) && HALF <= f * Pow2(s + 1) < U64
    ensures (2 * f - 1) * Pow2(s) < U64 && (4 * f - 1) * Pow2(s - 1) < U64
  {
    Pow2At();
    ShiftsFit(f, s);
  }

  /** All that the shifts of `compute_boundaries` need. */
  lemma ShiftsFit(f: nat, s: nat)
    requires 0 < f < Pow2(53) && HALF <= (2 * f + 1) * Pow2(s) < U64
    ensures 10 <= s <= 62 && 1024 <= Pow2(s)
    ensures HALF <= f * Pow2(s + 1) == (2 * f) * Pow2(s) < U64
    ensures (2 * f - 1) * Pow2(s) == (2 * f) * Pow2(s) - Pow2(s) < U64
    ensures 2 * ((4 * f - 1) * Pow2(s - 1)) == 2 * ((2 * f) * Pow2(s)) - Pow2(s)
    ensures (4 * f - 1) * Pow2(s - 1) < U64
  {
    UpperShift(f, s);
    LowerFits(f, s);
  }

  lemma SignificandFits(fmt: Format, E: nat, F: nat)
    requires Known(fmt) && Positive(fmt, E, F)
    ensures 0 < Significand(fmt, E, F) < Pow2(fmt.precision) <= Pow2(53) == 0x20_0000_0000_0000
  {
    Pow2At();
    Pow2Mono(fmt.precision, 53);
    assert Pow2(fmt.precision) == 2 * Pow2(fmt.precision - 1);
  }

  lemma LowerFits(f: nat, s: nat)
    requires 0 < f && s > 0 && (2 * f + 1) * Pow2(s) < U64
    ensures (2 * f - 1) * Pow2(s) == (2 * f) * Pow2(s) - Pow2(s) < U64
    ensures 2 * ((4 * f - 1) * Pow2(s - 1)) == 2 * ((2 * f) * Pow2(s)) - Pow2(s)
    ensures (4 * f - 1) * Pow2(s - 1) < U64 && f * Pow2(s + 1) == (2 * f) * Pow2(s)
  {
    var h := Pow2(s - 1);
    assert Pow2(s) == 2 * h && Pow2(s + 1) == 4 * h;
    Distribute(2 * f, 1, 2 * h);
    Distribute(4 * f, 1, h);
    MulAssoc(2 * f, 2, h);
    MulAssoc(f, 4, h);
    assert (2 * f) * (2 * h) == (4 * f) * h == f * (4 * h);
  }

  // -------- Scaling and digits --------

  /** How far the normalized boundaries are apart, and how high the upper one is in these terms. */
  predicate Apart(fmt: Format, minus: nat, w: nat, plus: nat) {
    && HALF <= plus && minus + 512 <= w && w + 1024 <= plus
    && plus <= (plus - minus) * Pow2(fmt.precision)
  }

  lemma BoundsApart(fmt: Format, E: nat, F: nat, w: Diyfp, minus: Diyfp, plus: Diyfp, s: nat)
    requires Known(fmt) && Positive(fmt, E, F) && Bounds(fmt, E, F, w, minus, plus, s) && 1024 <= Pow2(s)
    ensures Apart(fmt, minus.f, w.f, plus.f)
  {
    SignificandFits(fmt, E, F);
    UnitsApart(Significand(fmt, E, F), Pow2(s), Pow2(fmt.precision), F == 0 && E > 1, minus.f, w.f, plus.f);
  }

  lemma UnitsApart(f: nat, t: nat, p: nat, closer: bool, minus: nat, w: nat, plus: nat)
    requires plus == (2 * f + 1) * t && w == (2 * f) * t && 2 * minus == 2 * w - (if closer then 1 else 2) * t
    requires 1024 <= t && 2 * f + 1 <= 2 * p && (closer ==> 2 * f == p)
    ensures minus + 512 <= w && w + 1024 <= plus && plus <= (plus - minus) * p
  {
    Distribute(2 * f, 1, t);
    if closer {
      CloserRatio(f, t, p, plus - minus);
    } else {
      UsualRatio(f, t, p, plus - minus);
    }
  }

  lemma UsualRatio(f: nat, t: nat, p: nat, d: nat)
    requires 2 * f + 1 <= 2 * p && d == 2 * t
    ensures (2 * f + 1) * t <= d * p
  {
    MulLe(2 * f + 1, 2 * p, t);
    MulAssoc(2, p, t);
    MulAssoc(2, t, p);
  }

  lemma CloserRatio(f: nat, t: nat, p: nat, d: nat)
    requires 2 * f == p >= 2 && 2 * d == 3 * t
    ensures (2 * f + 1) * t <= d * p
  {
    MulLe(2 * (p + 1), 3 * p, t);
    MulAssoc(2, p + 1, t);
    MulAssoc(3, p, t);
    MulAssoc(2, d, p);
    MulAssoc(3, t, p);
  }

  /** The exact products with the cached power, which the rounded ones stand for. */
  lemma ProductsApart(fmt: Format, minus: nat, w: nat, plus: nat, c: nat)
    requires Apart(fmt, minus, w, plus) && HALF <= c
    ensures HALF * HALF <= plus * c && minus * c + 512 * HALF <= w * c && w * c + 1024 * HALF <= plus * c
    ensures plus * c <= (plus * c - minus * c) * Pow2(fmt.precision)
  {
    var p := Pow2(fmt.precision);
    MulLe(HALF, plus, c);
    MulLe(HALF, c, HALF);
    MulLe(minus + 512, w, c);
    MulLe(w + 1024, plus, c);
    Distribute(minus, 512, c);
    Distribute(w, 1024, c);
    MulLe(plus, (plus - minus) * p, c);
    Distribute(plus, minus, c);
    assert ((plus - minus) * p) * c == ((plus - minus) * c) * p by {
      MulAssoc(plus - minus, p, c);
      MulAssoc(plus - minus, c, p);
      assert p * c == c * p;
    }
  }

  /** One unit less at the top and one more at the bottom: an interval around the
      number that lies inside the exact one and is wide enough for `digits` digits. */
  lemma Narrowed(fmt: Format, a: nat, b: nat, c: nat, plus: nat, w: nat, minus: nat)
    requires Known(fmt)
    requires HALF * HALF <= a && b + 512 * HALF <= c && c + 1024 * HALF <= a
    requires a <= (a - b) * Pow2(fmt.precision)
    requires plus == (a + U64 / 2) / U64 && w == (c + U64 / 2) / U64 && minus == (b + U64 / 2) / U64
    ensures minus + 1 <= w <= plus - 1 && Pow2(60) <= plus - 1
    ensures b < (minus + 1) * U64 && (plus - 1) * U64 < a
    ensures plus - 1 <= Pow10(fmt.digits - 1) * (plus - minus - 2)
  {
    Pow2At();
    Pow2Values();
    Pow10At();
  }

  lemma Pow10At()
    ensures Pow10(8) == 1_0000_0000 && Pow10(16) == 1_0000_0000_0000_0000
  {
    assert Pow10(1) == 10 && Pow10(2) == 100 && Pow10(3) == 1000 && Pow10(4) == 1_0000;
    assert Pow10(5) == 10 * Pow10(4) && Pow10(6) == 10 * Pow10(5) && Pow10(7) == 10 * Pow10(6);
    assert Pow10(8) == 10 * Pow10(7) && Pow10(9) == 10 * Pow10(8) && Pow10(10) == 10 * Pow10(9);
    assert Pow10(11) == 10 * Pow10(10) && Pow10(12) == 10 * Pow10(11) && Pow10(13) == 10 * Pow10(12);
    assert Pow10(14) == 10 * Pow10(13) && Pow10(15) == 10 * Pow10(14) && Pow10(16) == 10 * Pow10(15);
  }

  /** `low`, `mid` and `high` stand for the scaled boundaries and the scaled number:
      the number is the rounded product, and from `low` to `high` everything is strictly
      between the exact products of the boundaries. */
  ghost predicate Enclosed(mMinus: nat, v: nat, mPlus: nat, c: nat, low: nat, mid: nat, high: nat) {
    && 0 < low <= mid <= high && mid == (v * c + U64 / 2) / U64
    && mMinus * c < low * U64 && high * U64 < mPlus * c
  }

  /** The interval that `grisu2` makes digits for. */
  method Interval(fmt: Format, mMinus: Diyfp, v: Diyfp, mPlus: Diyfp, c: Diyfp)
    returns (low: Diyfp, mid: Diyfp, high: Diyfp)
    requires Known(fmt) && mMinus.e == v.e == mPlus.e && Apart(fmt, mMinus.f, v.f, mPlus.f) && HALF <= c.f
    ensures low.e == mid.e == high.e == mPlus.e + c.e + 64
    ensures Enclosed(mMinus.f, v.f, mPlus.f, c.f, low.f, mid.f, high.f)
    ensures Pow2(60) <= high.f && Enough(fmt.digits, high.f, high.f - low.f)
  {
    var w := Scale(v, c);
    var wMinus := Scale(mMinus, c);
    var wPlus := Scale(mPlus, c);
    Between(fmt, mMinus.f, v.f, mPlus.f, c.f, wMinus.f, w.f, wPlus.f);
    low, mid, high := Diyfp(wMinus.f + 1, wMinus.e), w, Diyfp(wPlus.f - 1, wPlus.e);
  }

  method Scale(x: Diyfp, c: Diyfp) returns (r: Diyfp)
    ensures r.f == (x.f * c.f + U64 / 2) / U64 && r.e == x.e + c.e + 64
  {
    r := Mul(x, c);
  }

  lemma Between(fmt: Format, mMinus: nat, v: nat, mPlus: nat, c: nat, wMinus: nat, w: nat, wPlus: nat)
    requires Known(fmt) && Apart(fmt, mMinus, v, mPlus) && HALF <= c
    requires wPlus == (mPlus * c + U64 / 2) / U64 && w == (v * c + U64 / 2) / U64
    requires wMinus == (mMinus * c + U64 / 2) / U64
    ensures Enclosed(mMinus, v, mPlus, c, wMinus + 1, w, wPlus - 1)
    ensures Pow2(60) <= wPlus - 1 && Enough(fmt.digits, wPlus - 1, wPlus - wMinus - 2)
  {
    MulLe(0, mMinus, c);
    MulLe(0, v, c);
    MulLe(0, mPlus, c);
    ProductsApart(fmt, mMinus, v, mPlus, c);
    Narrowed(fmt, mPlus * c, mMinus * c, v * c, wPlus, w, wMinus);
  }

  /** A cached power as the table promises it for an exponent: normalized, and such
      that the product's exponent is in range. */
  predicate Suits(c: Diyfp, e: int) {
    HALF <= c.f && ALPHA <= c.e + e + 64 <= GAMMA
  }

  /** The digits `s` with exponent `exponent` stand for a number strictly between the
      boundaries scaled by the cached power `c`, which has the decimal exponent `k`:
      between the bounds `low` and `high`, of which digit generation gives its best. */
  ghost predicate Printed(s: string, exponent: int, k: int, c: Diyfp, mMinus: Diyfp, v: Diyfp, mPlus: Diyfp,
                          low: Diyfp, mid: Diyfp, high: Diyfp) {
    && low.e == mid.e == high.e == mPlus.e + c.e + 64 <= 0
    && Enclosed(mMinus.f, v.f, mPlus.f, c.f, low.f, mid.f, high.f)
    && var d := exponent + k;
    && Good(s, Scaled(high.f, d), Scaled(high.f - low.f, d), Scaled(high.f - mid.f, d), Ulp(d, -high.e))
  }

  /** `grisu2` for a number with boundaries.  The buffer has to hold `max_digits10`
      characters, and the digits are no more. */
  method Grisu2(fmt: Format, buf: array<char>, mMinus: Diyfp, v: Diyfp, mPlus: Diyfp, c: Diyfp, k: int)
    returns (length: nat, exponent: int, ghost low: Diyfp, ghost mid: Diyfp, ghost high: Diyfp)
    requires Known(fmt) && buf.Length >= fmt.digits
    requires mMinus.e == v.e == mPlus.e && Suits(c, mPlus.e) && Apart(fmt, mMinus.f, v.f, mPlus.f)
    modifies buf
    ensures 1 <= length <= fmt.digits
    ensures Printed(buf[..length], exponent, k, c, mMinus, v, mPlus, low, mid, high)
  {
    var lower, w, upper := Interval(fmt, mMinus, v, mPlus, c);
    low, mid, high := lower, w, upper;
    Pow2Mono(-upper.e, 60);
    EnoughMore(fmt.digits, buf.Length, upper.f, upper.f - lower.f);
    length, exponent := DigitGen(buf, -k, lower, w, upper);
  }

  /** With `n` the digits and `d` the decimal exponents together, n * 10^d lies strictly
      between the exact products of the boundaries with the cached power, all in
      units of the exponent of the products. */
  lemma PrintedIsBetween(s: string, exponent: int, k: int, c: Diyfp, mMinus: Diyfp, v: Diyfp, mPlus: Diyfp,
                         low: Diyfp, mid: Diyfp, high: Diyfp)
    requires Printed(s, exponent, k, c, mMinus, v, mPlus, low, mid, high) && Digits(s)
    ensures mPlus.e + c.e + 64 <= 0
    ensures var d, unit := exponent + k, Pow2(-(mPlus.e + c.e + 64)) * U64;
            && (d >= 0 ==> mMinus.f * c.f < (Value(s) * Pow10(d)) * unit < mPlus.f * c.f)
            && (d < 0 ==> (mMinus.f * c.f) * Pow10(-d) < Value(s) * unit < (mPlus.f * c.f) * Pow10(-d))
  {
    var d, bits := exponent + k, -high.e;
    GoodIsBetween(s, low.f, mid.f, high.f, d, bits);
    if d >= 0 {
      Unscaled(mMinus.f * c.f, Value(s) * Pow10(d), Pow2(bits), mPlus.f * c.f, low.f, high.f, 1);
    } else {
      Unscaled(mMinus.f * c.f, Value(s), Pow2(bits), mPlus.f * c.f, low.f, high.f, Pow10(-d));
    }
  }

  lemma Unscaled(a: int, n: nat, p: nat, b: int, low: nat, high: nat, t: nat)
    requires t > 0 && a < low * U64 && high * U64 < b && low * t <= n * p <= high * t
    ensures a * t < n * (p * U64) < b * t
  {
    MulAssoc(n, p, U64);
    MulLe(a + 1, low * U64, t);
    MulLe(high * U64 + 1, b, t);
    assert (low * U64) * t == (low * t) * U64 && (high * U64) * t == (high * t) * U64;
    assert (a + 1) * t == a * t + t && (high * U64 + 1) * t == (high * U64) * t + t;
  }

  lemma EnoughMore(n: nat, m: nat, hi: nat, delta: nat)
    requires Enough(n, hi, delta) && n <= m
    ensures Enough(m, hi, delta)
  {
    Pow10Mono(n - 1, m - 1);
    MulLe(Pow10(n - 1), Pow10(m - 1), delta);
  }

  /** `grisu2` for a number of a known format, with any table of cached powers that
      suits all exponents it may be asked for: what is printed is strictly between the
      scaled boundaries of the number given, and takes no more than `max_digits10`
      characters, which `to_chars` asserts.  The ghosts are the normalized number, its
      boundaries and their unit, and the interval. */
  method Grisu2Of(fmt: Format, E: nat, F: nat, buf: array<char>, cached: int -> Diyfp, dec: int -> int)
    returns (length: nat, exponent: int, ghost v: Diyfp, ghost mMinus: Diyfp, ghost mPlus: Diyfp, ghost s: nat,
             ghost low: Diyfp, ghost mid: Diyfp, ghost high: Diyfp)
    requires Known(fmt) && Positive(fmt, E, F) && buf.Length >= fmt.digits
    requires forall e :: -1500 <= e <= 1500 ==> Suits(cached(e), e)
    modifies buf
    ensures 1 <= length <= fmt.digits && Digits(buf[..length]) && buf[0] != '0' && buf[length - 1] != '0'
    ensures Bounds(fmt, E, F, v, mMinus, mPlus, s)
    ensures Printed(buf[..length], exponent, dec(mPlus.e), cached(mPlus.e), mMinus, v, mPlus, low, mid, high)
  {
    var w, minus, plus;
    w, minus, plus, s := ComputeBoundaries(fmt, E, F);
    v, mMinus, mPlus := w, minus, plus;
    BoundsApart(fmt, E, F, w, minus, plus, s);
    length, exponent, low, mid, high := Grisu2(fmt, buf, minus, w, plus, cached(plus.e), dec(plus.e));
    ScaledLess(high.f, low.f, exponent + dec(plus.e));
  }

  lemma ScaledLess(hi: nat, low: nat, k: int)
    requires 0 < low <= hi
    ensures Scaled(hi - low, k) < Scaled(hi, k)
  {
    if k < 0 {
      Times10IsPower(hi, -k);
      Times10IsPower(hi - low, -k);
      Distribute(hi, low, Pow10(-k));
      MulLe(1, low, Pow10(-k));
    }
  }
}
