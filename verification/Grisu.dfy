/** Grisu2: `diyfp::mul`, digit generation and rounding.

    Shifts and masks by `-e` are written as division and remainder by a power of
    two.  Every value that the program keeps in an unsigned 64-bit or 32-bit word
    has that type here, so nothing overflows. */
module Grisu {
  import opened Arithmetic
  import JsonText

  datatype Diyfp = Diyfp(f: u64, e: int)

  const ALPHA := -60
  const GAMMA := -32

  function Sub(x: Diyfp, y: Diyfp): (r: Diyfp)
    requires x.e == y.e && x.f >= y.f
    ensures r.f + y.f == x.f && r.e == x.e
  {
    Diyfp(x.f - y.f, x.e)
  }

  /** The rounded upper half of the 128-bit product, put together from four 32-bit products. */
  function Mul(x: Diyfp, y: Diyfp): (r: Diyfp)
    ensures r.f == (x.f * y.f + U64 / 2) / U64
    ensures r.e == x.e + y.e + 64
  {
    var uLo, uHi := x.f % U32, x.f / U32;
    var vLo, vHi := y.f % U32, y.f / U32;
    WordProduct(uLo, vLo);
    WordProduct(uLo, vHi);
    WordProduct(uHi, vLo);
    WordProduct(uHi, vHi);
    var p0: u64 := uLo * vLo;
    var p1: u64 := uLo * vHi;
    var p2: u64 := uHi * vLo;
    var p3: u64 := uHi * vHi;
    var q: u64 := p0 / U32 + p1 % U32 + p2 % U32 + U32 / 2;
    MulExact(x.f, y.f, p0, p1, p2, p3, q);
    Diyfp(p3 + p2 / U32 + p1 / U32 + q / U32, x.e + y.e + 64)
  }

  lemma WordProduct(a: nat, b: nat)
    requires a < U32 && b < U32
    ensures 0 <= a * b <= (U32 - 1) * (U32 - 1)
  {
    MulLe(0, a, b);
    MulLe(a, U32 - 1, b);
    assert a * b <= (U32 - 1) * b <= (U32 - 1) * (U32 - 1);
  }

  lemma MulExact(u: nat, v: nat, p0: nat, p1: nat, p2: nat, p3: nat, q: nat)
    requires p0 == (u % U32) * (v % U32) && p1 == (u % U32) * (v / U32)
    requires p2 == (u / U32) * (v % U32) && p3 == (u / U32) * (v / U32)
    requires q == p0 / U32 + p1 % U32 + p2 % U32 + U32 / 2
    ensures p3 + p2 / U32 + p1 / U32 + q / U32 == (u * v + U64 / 2) / U64
    ensures u < U64 && v < U64 ==> p3 + p2 / U32 + p1 / U32 + q / U32 < U64
  {
    ProductInParts(u, v);
    var h := p3 + p2 / U32 + p1 / U32 + q / U32;
    var low := q % U32 * U32 + p0 % U32;
    assert u * v + U64 / 2 == h * U64 + low;
    if u < U64 && v < U64 {
      MulLe(u, U64 - 1, v);
      MulLe(v, U64 - 1, U64 - 1);
    }
  }

  lemma ProductInParts(u: nat, v: nat)
    ensures u * v == (u % U32) * (v % U32) + U32 * ((u % U32) * (v / U32)) + U32 * ((u / U32) * (v % U32)) +
            U64 * ((u / U32) * (v / U32))
  {
    var a, b, c, d := u % U32, u / U32, v % U32, v / U32;
    assert u == a + U32 * b && v == c + U32 * d;
    assert u * v == a * v + (U32 * b) * v;
    assert a * v == a * c + a * (U32 * d);
    assert (U32 * b) * v == (U32 * b) * c + (U32 * b) * (U32 * d);
    assert a * (U32 * d) == U32 * (a * d);
    assert (U32 * b) * c == U32 * (b * c);
    assert (U32 * b) * (U32 * d) == U64 * (b * d);
  }

  /** Rounding keeps the order, and the result is within half a unit of the product. */
  lemma MulMonotone(x: Diyfp, x': Diyfp, y: Diyfp)
    requires x.f <= x'.f
    ensures Mul(x, y).f <= Mul(x', y).f
    ensures -(U64 / 2) <= x.f * y.f - Mul(x, y).f * U64 <= U64 / 2
  {
    MulLe(x.f, x'.f, y.f);
  }

  // -------- Digits --------

  predicate Digits(s: string) {
    forall i :: 0 <= i < |s| ==> JsonText.Digit(s[i])
  }

  function Value(s: string): nat
    requires Digits(s)
  {
    JsonText.Value(s)
  }

  function LastDigit(s: string): nat
    requires s != "" && Digits(s)
  {
    s[|s| - 1] as int - '0' as int
  }

  function DigitChar(d: nat): (c: char)
    requires d <= 9
    ensures JsonText.Digit(c) && c as int - '0' as int == d
  {
    '0' + d as char
  }

  lemma AppendDigit(s: string, d: nat)
    requires Digits(s) && d <= 9
    ensures Digits(s + [DigitChar(d)]) && Value(s + [DigitChar(d)]) == 10 * Value(s) + d
    ensures LastDigit(s + [DigitChar(d)]) == d
  {
    var s' := s + [DigitChar(d)];
    assert s'[..|s'| - 1] == s;
  }

  /** Digits without a leading zero. */
  predicate Leading(s: string) {
    s != "" ==> s[0] != '0'
  }

  /** They make at least the power of ten of their first digit. */
  lemma {:induction false} LeadingValue(s: string)
    requires s != "" && Digits(s) && Leading(s)
    ensures Pow10(|s| - 1) <= Value(s)
  {
    var init := s[..|s| - 1];
    assert JsonText.Digit(s[|s| - 1]);
    if init != "" {
      LeadingValue(init);
    } else {
      assert Pow10(0) == 1;
    }
  }

  lemma ValueLast(s: string)
    requires s != "" && Digits(s)
    ensures Value(s) % 10 == LastDigit(s) <= 9
  {
    assert JsonText.Digit(s[|s| - 1]);
  }

  /** Finds the number of digits and the power of ten of the leading one; 0 has one digit. */
  method FindLargestPow10(n: u32) returns (k: nat, pow10: u32)
    ensures 1 <= k <= 10 && pow10 == Pow10(k - 1) && n < Pow10(k) == 10 * pow10
    ensures if n == 0 then pow10 == 1 else pow10 <= n
  {
    assert Pow10(1) == 10 && Pow10(2) == 100 && Pow10(3) == 1000;
    assert Pow10(4) == 10 * Pow10(3) && Pow10(5) == 10 * Pow10(4) && Pow10(6) == 10 * Pow10(5);
    assert Pow10(7) == 10 * Pow10(6) && Pow10(8) == 10 * Pow10(7) && Pow10(9) == 10 * Pow10(8);
    assert Pow10(10) == 10 * Pow10(9);
    if n >= 1000000000 {
      return 10, 1000000000;
    }
    if n >= 100000000 {
      return 9, 100000000;
    }
    if n >= 10000000 {
      return 8, 10000000;
    }
    if n >= 1000000 {
      return 7, 1000000;
    }
    if n >= 100000 {
      return 6, 100000;
    }
    if n >= 10000 {
      return 5, 10000;
    }
    if n >= 1000 {
      return 4, 1000;
    }
    if n >= 100 {
      return 3, 100;
    }
    if n >= 10 {
      return 2, 10;
    }
    return 1, 1;
  }

  // -------- What the digits have to satisfy --------

  /** The interval is [hi - delta, hi] and the number looked for is hi - dist; `n`
      units of size `u` are in the interval. */
  ghost predicate Within(hi: int, delta: int, n: int, u: nat) {
    hi - delta <= n * u <= hi
  }

  function Distance(a: int, b: int): nat {
    if a <= b then b - a else a - b
  }

  /** No other number of units in the interval is closer to hi - dist. */
  ghost predicate Closest(hi: int, delta: int, dist: int, n: int, u: nat) {
    forall q: int {:trigger Within(hi, delta, q, u)} ::
      Within(hi, delta, q, u) ==> Distance(n * u, hi - dist) <= Distance(q * u, hi - dist)
  }

  /** No number of units ten times as large is in the interval. */
  ghost predicate NoShorter(hi: int, delta: int, u: nat) {
    forall q: int {:trigger Within(hi, delta, q, 10 * u)} :: !Within(hi, delta, q, 10 * u)
  }

  // -------- Rounding --------

  /** Where the loop stands after `j` steps: it has only gone closer. */
  ghost predicate Rounded(dist: int, delta: int, rest0: int, rest: int, u: nat, j: nat) {
    && rest == rest0 + j * u && rest <= delta
    && (j > 0 ==> rest - u < dist && (rest < dist || dist - (rest - u) > rest - dist))
  }

  /** `grisu2_round`: lowers the last digit while that brings the number closer to
      the target.  The digit is never lowered below zero. */
  method Round(buf: array<char>, len: nat, dist: u64, delta: u64, rest0: u64, tenK: u64) returns (ghost j: nat)
    requires 1 <= len <= buf.Length && JsonText.Digit(buf[len - 1])
    requires dist <= delta && rest0 <= delta && tenK > 0
    requires delta - rest0 < (LastDigit(buf[len - 1..len]) + 1) * tenK
    modifies buf
    ensures forall i :: 0 <= i < buf.Length && i != len - 1 ==> buf[i] == old(buf[i])
    ensures JsonText.Digit(buf[len - 1]) && buf[len - 1] as int == old(buf[len - 1]) as int - j
    ensures Rounded(dist, delta, rest0, rest0 + j * tenK, tenK, j)
    ensures var rest := rest0 + j * tenK;
            !(rest < dist && delta - rest >= tenK && (rest + tenK < dist || dist - rest > rest + tenK - dist))
  {
    var rest := rest0;
    j := 0;
    ghost var digit := buf[len - 1] as int - '0' as int;
    while rest < dist && delta - rest >= tenK && (rest + tenK < dist || dist - rest > rest + tenK - dist)
      invariant forall i :: 0 <= i < buf.Length && i != len - 1 ==> buf[i] == old(buf[i])
      invariant j <= digit && buf[len - 1] as int == '0' as int + digit - j
      invariant Rounded(dist, delta, rest0, rest, tenK, j)
      decreases delta - rest
    {
      Distribute(j, 1, tenK);
      MulLeIf(digit + 1, j + 1, tenK);
      assert buf[len - 1] != '0';
      buf[len - 1] := (buf[len - 1] as int - 1) as char;
      rest := rest + tenK;
      j := j + 1;
    }
  }

  /** Where the loop stops nothing in the interval is closer. */
  lemma RoundedIsClosest(hi: int, delta: int, dist: int, n0: int, u: nat, rest0: int, j: nat)
    requires u > 0 && 0 <= dist <= delta && hi == n0 * u + rest0 && 0 <= rest0 < u
    requires Rounded(dist, delta, rest0, rest0 + j * u, u, j)
    requires var rest := rest0 + j * u;
             !(rest < dist && delta - rest >= u && (rest + u < dist || dist - rest > rest + u - dist))
    ensures (n0 - j) * u == hi - (rest0 + j * u) && Within(hi, delta, n0 - j, u)
    ensures Closest(hi, delta, dist, n0 - j, u)
  {
    var n, rest := n0 - j, rest0 + j * u;
    Distribute(n0, j, u);
    MulLe(0, j, u);
    forall q: int | Within(hi, delta, q, u)
      ensures Distance(n * u, hi - dist) <= Distance(q * u, hi - dist)
    {
      CloserThan(hi, delta, dist, n, u, rest, j, q);
    }
  }

  lemma CloserThan(hi: int, delta: int, dist: int, n: int, u: nat, rest: int, j: nat, q: int)
    requires u > 0 && 0 <= dist <= delta && hi == n * u + rest && (j == 0 ==> rest < u)
    requires j > 0 ==> rest - u < dist && (rest < dist || dist - (rest - u) > rest - dist)
    requires !(rest < dist && delta - rest >= u && (rest + u < dist || dist - rest > rest + u - dist))
    requires Within(hi, delta, q, u)
    ensures Distance(n * u, hi - dist) <= Distance(q * u, hi - dist)
  {
    if q < n {
      MulLe(q, n - 1, u);
      Distribute(n, 1, u);
    } else if q > n {
      MulLe(n + 1, q, u);
      Distribute(n, 1, u);
    }
  }

  // -------- Digit generation --------

  /** The digits in `buf` make `n` units of size `u`, `rest` below `hi`; no shorter
      number was in the interval, unless the interval reaches down to zero. */
  ghost predicate Reached(buf: string, hi: int, delta: int, u: nat, rest: nat) {
    && buf != "" && Digits(buf) && Leading(buf) && hi == Value(buf) * u + rest && rest < u
    && (delta < hi ==> NoShorter(hi, delta, u))
    && (delta == hi ==> Value(buf) <= 9)
  }

  /** One more digit `d`: from units of `10 * u` to units of `u`. */
  lemma NextDigit(buf: string, hi: int, delta: int, u: nat, rest0: nat, d: nat, rest: nat)
    requires Digits(buf) && Leading(buf) && (buf == "" ==> d > 0)
    requires hi == Value(buf) * (10 * u) + rest0 && rest0 < 10 * u
    requires delta < hi ==> delta < rest0
    requires delta == hi ==> Value(buf) == 0
    requires rest0 == d * u + rest && rest < u && d <= 9
    ensures Reached(buf + [DigitChar(d)], hi, delta, u, rest)
  {
    AppendDigit(buf, d);
    var n := Value(buf);
    assert n * (10 * u) == (10 * n) * u;
    Distribute(10 * n, d, u);
    if delta < hi {
      NotYet(hi, delta, n, u, rest0);
    }
  }

  /** With more than `delta` left nothing in units of `10 * u` is in the interval. */
  lemma NotYet(hi: int, delta: int, n: nat, u: nat, rest0: nat)
    requires hi == n * (10 * u) + rest0 && delta < rest0 < 10 * u
    ensures NoShorter(hi, delta, u)
  {
    forall q: int
      ensures !Within(hi, delta, q, 10 * u)
    {
      NoMultiple(hi, delta, n, 10 * u, rest0, q);
    }
  }

  /** The last digit allows all the steps that rounding can make, and if the
      interval does not reach zero one more. */
  lemma LastDigitSuffices(buf: string, hi: int, delta: nat, u: nat, rest: nat)
    requires Reached(buf, hi, delta, u, rest) && rest <= delta <= hi
    ensures delta - rest < (LastDigit(buf) + 1) * u
    ensures delta < hi ==> delta - rest < LastDigit(buf) * u
  {
    var n, c := Value(buf), LastDigit(buf);
    ValueLast(buf);
    Distribute(c, 1, u);
    if delta < hi {
      var q := n / 10;
      assert n == 10 * q + c;
      Distribute(10 * q, c, u);
      assert (10 * q) * u == q * (10 * u);
      assert !Within(hi, delta, q, 10 * u);
      MulLe(0, c, u);
    } else {
      assert n == c;
    }
  }

  /** What digit generation promises, in the scale in which the upper bound is
      `hi`: digits of a number in the interval that is the closest to the target
      among all numbers with as many decimals, while no number with fewer decimals
      is in the interval; neither the first nor the last digit is zero. */
  ghost predicate Good(buf: string, hi: int, delta: int, dist: int, u: nat) {
    && buf != "" && Digits(buf)
    && Within(hi, delta, Value(buf), u)
    && Closest(hi, delta, dist, Value(buf), u)
    && (delta < hi ==> NoShorter(hi, delta, u) && Leading(buf) && buf[|buf| - 1] != '0')
  }

  /** Rounds the digits that were reached. */
  method RoundDigits(buf: array<char>, len: nat, ghost hi: int, dist: u64, delta: u64, rest: u64, ulp: u64)
    requires 1 <= len <= buf.Length && dist <= delta && rest <= delta <= hi
    requires Reached(buf[..len], hi, delta, ulp, rest)
    modifies buf
    ensures Good(buf[..len], hi, delta, dist, ulp)
    ensures forall i :: len <= i < buf.Length ==> buf[i] == old(buf[i])
  {
    ghost var before := buf[..len];
    LastDigitSuffices(before, hi, delta, ulp, rest);
    assert JsonText.Digit(before[len - 1]);
    assert LastDigit(buf[len - 1..len]) == LastDigit(before);
    ghost var j := Round(buf, len, dist, delta, rest, ulp);
    ghost var after := buf[..len];
    assert after[..len - 1] == before[..len - 1];
    assert Digits(after) by {
      forall i | 0 <= i < len
        ensures JsonText.Digit(after[i])
      {
        assert i < len - 1 ==> after[i] == before[i] && JsonText.Digit(before[i]);
      }
    }
    assert Value(after) == Value(before) - j;
    RoundedIsClosest(hi, delta, dist, Value(before), ulp, rest, j);
    if delta < hi {
      MulLeIf(LastDigit(before), j, ulp);
      assert after[len - 1] != '0';
    }
  }

  /** The digits so far do not reach the interval. */
  ghost predicate Short(buf: string, hi: int, delta: int, u: nat, rest: nat) {
    && Digits(buf) && Leading(buf) && hi == Value(buf) * u + rest && rest < u
    && (delta < hi ==> delta < rest)
    && (delta == hi ==> Value(buf) == 0)
  }

  /** `n` digits are enough to get into the interval. */
  predicate Enough(n: nat, hi: int, delta: int) {
    n >= 1 && hi <= Pow10(n - 1) * delta
  }

  /** As long as the digits do not reach the interval there is room for one more. */
  lemma ShortHasRoom(buf: string, hi: int, delta: int, u: nat, rest: nat, n: nat)
    requires Short(buf, hi, delta, u, rest) && 0 <= delta <= hi && Enough(n, hi, delta)
    ensures |buf| < n
  {
    if buf != "" {
      LeadingValue(buf);
      var p := Pow10(n - 1);
      MulLe(delta + 1, u, p);
      Distribute(delta, 1, p);
      MulLeIf(p, Value(buf), u);
      if |buf| >= n {
        Pow10Mono(n - 1, |buf| - 1);
      }
    }
  }

  lemma {:induction false} EnoughScaled(n: nat, hi: nat, delta: nat, m: nat)
    requires Enough(n, hi, delta)
    ensures Enough(n, Times10(hi, m), Times10(delta, m))
  {
    if m > 0 {
      EnoughScaled(n, hi, delta, m - 1);
    }
  }

  /** The buffer has a place for every digit there may be, or for as many as are enough. */
  predicate Holds(length: nat, most: nat, hi: int, delta: int) {
    length >= most || Enough(length, hi, delta)
  }

  /** No number of digits that is enough is exceeded. */
  ghost predicate Sufficed(length: nat, hi: int, delta: int) {
    forall n: nat {:trigger Enough(n, hi, delta)} :: Enough(n, hi, delta) ==> length <= n
  }

  /** Appending to digits that do not reach the interval exceeds no number of digits that is enough. */
  lemma RoomForNext(buf: string, hi: nat, delta: nat, m: nat, u: nat, rest: nat, size: nat, most: nat)
    requires Short(buf, Times10(hi, m), Times10(delta, m), u, rest) && delta <= hi
    requires |buf| < most && Holds(size, most, hi, delta)
    ensures |buf| < size && Sufficed(|buf| + 1, hi, delta)
  {
    Times10Mono(delta, hi, m);
    forall n: nat | Enough(n, hi, delta)
      ensures |buf| < n
    {
      EnoughScaled(n, hi, delta, m);
      ShortHasRoom(buf, Times10(hi, m), Times10(delta, m), u, rest, n);
    }
  }

  lemma StillShort(buf: string, hi: int, delta: int, u: nat, rest: nat)
    requires Reached(buf, hi, delta, u, rest) && delta < rest
    ensures Short(buf, hi, delta, u, rest) && delta < hi
  {
    MulLe(0, Value(buf), u);
  }

  lemma ShortBelow(buf: string, hi: int, delta: int, u: nat, rest: nat)
    requires Short(buf, hi, delta, u, rest) && delta <= rest
    ensures delta <= hi
  {
    MulLe(0, Value(buf), u);
  }

  lemma IntegralStep(p1: nat, pow10: nat, one: nat, p2: nat, d: nat, r: nat)
    requires p1 == d * pow10 + r && r < pow10 && p1 < 10 * pow10 && p2 < one
    ensures p1 * one + p2 == d * (pow10 * one) + (r * one + p2)
    ensures r * one + p2 < pow10 * one && p1 * one + p2 < 10 * (pow10 * one) && d <= 9
  {
    MulLeIf(10, d, pow10);
    Distribute(d * pow10, r, one);
    MulAssoc(d, pow10, one);
    MulLe(r, pow10 - 1, one);
    Distribute(pow10, 1, one);
    MulLe(d, 9, pow10 * one);
  }

  /** What is left of the integral part and the fraction. */
  function Rest(p1: nat, one: nat, p2: nat): nat {
    MulLe(0, p1, one);
    p1 * one + p2
  }

  /** One turn of the first loop. */
  lemma IntegralNext(buf: string, hi: int, delta: int, p1: nat, pow10: nat, one: nat, p2: nat, d: nat, r: nat)
    requires p1 == d * pow10 + r && r < pow10 && p1 < 10 * pow10 && p2 < one && (buf == "" ==> pow10 <= p1)
    requires 0 < pow10 * one && Short(buf, hi, delta, 10 * (pow10 * one), Rest(p1, one, p2))
    ensures d <= 9 && Reached(buf + [DigitChar(d)], hi, delta, pow10 * one, Rest(r, one, p2))
  {
    IntegralStep(p1, pow10, one, p2, d, r);
    assert d == 0 ==> d * pow10 == 0;
    NextDigit(buf, hi, delta, pow10 * one, Rest(p1, one, p2), d, Rest(r, one, p2));
  }

  /** Appends the next digit of the integral part, and rounds if that is enough. */
  method IntegralTurn(buf: array<char>, length: nat, hi: u64, delta: u64, dist: u64, one: u64, p1: u32, pow10: u32,
      p2: u64)
    returns (found: bool, r: u32)
    requires length < buf.Length && p1 < 10 * pow10 && p2 < one && dist <= delta <= hi
    requires length == 0 ==> pow10 <= p1
    requires 0 < pow10 * one <= hi && Short(buf[..length], hi, delta, 10 * (pow10 * one), Rest(p1, one, p2))
    modifies buf
    ensures r < pow10
    ensures found ==> Good(buf[..length + 1], hi, delta, dist, pow10 * one)
    ensures !found ==> Short(buf[..length + 1], hi, delta, pow10 * one, Rest(r, one, p2)) && delta < hi
  {
    r := IntegralDigit(buf, length, hi, delta, one, p1, pow10, p2);
    IntegralFits(hi, Value(buf[..length + 1]), r, pow10, one, p2);
    var rest: u64 := r * one + p2;
    found := rest <= delta;
    if found {
      var tenN: u64 := pow10 * one;
      RoundDigits(buf, length + 1, hi, dist, delta, rest, tenN);
    } else {
      StillShort(buf[..length + 1], hi, delta, pow10 * one, rest);
    }
  }

  lemma IntegralFits(hi: int, n: nat, r: nat, pow10: nat, one: nat, p2: nat)
    requires hi == n * (pow10 * one) + (r * one + p2)
    ensures 0 <= r * one + p2 <= hi
  {
    MulLe(0, pow10, one);
    MulLe(0, n, pow10 * one);
    MulLe(0, r, one);
  }

  /** Appends the next digit of the integral part. */
  method IntegralDigit(buf: array<char>, length: nat, ghost hi: int, ghost delta: int, one: u64, p1: u32, pow10: u32,
      p2: u64)
    returns (r: u32)
    requires length < buf.Length && p1 < 10 * pow10 && p2 < one && (length == 0 ==> pow10 <= p1)
    requires 0 < pow10 * one && Short(buf[..length], hi, delta, 10 * (pow10 * one), Rest(p1, one, p2))
    modifies buf
    ensures r < pow10 && Reached(buf[..length + 1], hi, delta, pow10 * one, Rest(r, one, p2))
  {
    var d;
    d, r := DivMod(p1, pow10);
    ghost var before := buf[..length];
    IntegralNext(before, hi, delta, p1, pow10, one, p2, d, r);
    buf[length] := DigitChar(d);
    assert buf[..length + 1] == before + [DigitChar(d)];
  }

  /** The first loop: digits of the integral part, from units of 10^k down.  It
      ends early once the digits so far are in the interval. */
  method IntegralDigits(buf: array<char>, hi: u64, delta: u64, dist: u64, one: u64, p10: u32, p2: u64)
    returns (found: bool, length: nat, n: nat)
    requires Holds(buf.Length, 10, hi, delta) && dist <= delta <= hi && p10 > 0
    requires hi == p10 * one + p2 && p2 < one
    modifies buf
    ensures 1 <= length <= 10 && length <= buf.Length && Sufficed(length, hi, delta) && (!found ==> n == 0)
    ensures found ==> Good(buf[..length], hi, delta, dist, Pow10(n) * one)
    ensures !found ==> Short(buf[..length], hi, delta, one, p2) && delta < hi
  {
    var k, pow10 := FindLargestPow10(p10);
    var p1: u32 := p10;
    n, length, found := k, 0, false;
    FirstTurn(hi, delta, one, p1, pow10, p2);
    assert buf[..0] == [];
    while n > 0
      invariant 0 <= n <= k && length == k - n && length <= buf.Length && (length > 0 ==> Sufficed(length, hi, delta))
      invariant Ready(buf[..length], hi, delta, one, p1, pow10, p2, n)
    {
      ReadyHasRoom(buf[..length], hi, delta, one, p1, pow10, p2, n, buf.Length);
      found, p1 := IntegralTurn(buf, length, hi, delta, dist, one, p1, pow10, p2);
      length := length + 1;
      n := n - 1;
      if found {
        return;
      }
      ReadyNext(buf[..length], hi, delta, one, p1, pow10, p2, n);
      pow10 := pow10 / 10;
    }
  }

  /** Before the turn for the digit of 10^(n-1), or after the last turn. */
  ghost predicate Ready(buf: string, hi: int, delta: int, one: nat, p1: nat, pow10: nat, p2: nat, n: nat) {
    if n == 0 then Short(buf, hi, delta, one, p2) && delta < hi
    else
      && pow10 == Pow10(n - 1) && p1 < 10 * pow10 && 0 < pow10 * one <= hi && (buf == "" ==> pow10 <= p1)
      && Short(buf, hi, delta, 10 * (pow10 * one), Rest(p1, one, p2))
  }

  lemma ReadyHasRoom(buf: string, hi: nat, delta: nat, one: nat, p1: nat, pow10: nat, p2: nat, n: nat, size: nat)
    requires Ready(buf, hi, delta, one, p1, pow10, p2, n) && n > 0
    requires delta <= hi && |buf| < 10 && Holds(size, 10, hi, delta)
    ensures |buf| < size && Sufficed(|buf| + 1, hi, delta)
  {
    var u: nat := pow10 * one;
    RoomForNext(buf, hi, delta, 0, 10 * u, Rest(p1, one, p2), size, 10);
  }

  lemma ReadyNext(buf: string, hi: int, delta: int, one: nat, p1: nat, pow10: nat, p2: nat, n: nat)
    requires pow10 == Pow10(n) && p1 < pow10 && 0 < pow10 * one <= hi && one > 0
    requires Short(buf, hi, delta, pow10 * one, Rest(p1, one, p2)) && delta < hi && buf != ""
    ensures Ready(buf, hi, delta, one, p1, pow10 / 10, p2, n)
  {
    TenthOf(pow10, one, n);
  }

  lemma FirstTurn(hi: int, delta: int, one: nat, p1: nat, pow10: nat, p2: nat)
    requires 0 < pow10 <= p1 < 10 * pow10 && p2 < one && hi == p1 * one + p2 && delta <= hi
    ensures 0 < pow10 * one <= hi
    ensures Short("", hi, delta, 10 * (pow10 * one), Rest(p1, one, p2))
  {
    MulLe(1, pow10, one);
    MulLe(pow10, p1, one);
    MulLe(p1, 10 * pow10 - 1, one);
    Distribute(10 * pow10, 1, one);
    MulAssoc(10, pow10, one);
  }

  lemma TenthOf(pow10: nat, one: nat, n: nat)
    requires pow10 == Pow10(n)
    ensures n > 0 ==> pow10 / 10 == Pow10(n - 1) && pow10 == 10 * (pow10 / 10)
    ensures n > 0 ==> pow10 * one == 10 * (pow10 / 10 * one) && (one > 0 ==> 0 < pow10 / 10 * one <= pow10 * one)
    ensures n == 0 ==> pow10 == 1 && pow10 * one == one
  {
    if n > 0 {
      MulAssoc(10, pow10 / 10, one);
      MulLe(1, pow10 / 10, one);
    }
  }

  /** One turn of the second loop. */
  lemma FractionNext(buf: string, hi: int, delta: int, one: nat, p2: nat, d: nat, r: nat)
    requires buf != "" && Digits(buf) && Leading(buf) && hi == Value(buf) * one + p2 && delta < p2 < one
    requires 10 * p2 == d * one + r && r < one
    ensures d <= 9 && Reached(buf + [DigitChar(d)], 10 * hi, 10 * delta, one, r)
  {
    MulLeIf(10, d, one);
    MulAssoc(Value(buf), 10, one);
    MulAssoc(10, Value(buf), one);
    NextDigit(buf, 10 * hi, 10 * delta, one, 10 * p2, d, r);
  }

  /** The second loop: digits of the fraction, with the interval scaled by ten for
      each.  After as many digits as the fraction has bits nothing is left of it. */
  method FractionDigits(buf: array<char>, length0: nat, hi: u64, delta0: u64, dist0: u64, bits: nat, p20: u64)
    returns (length: nat, m: nat)
    requires 32 <= bits <= 60 && 1 <= length0 <= buf.Length && Holds(buf.Length, length0 + bits, hi, delta0)
    requires dist0 <= delta0 < p20 && delta0 <= hi && Short(buf[..length0], hi, delta0, Pow2(bits), p20)
    modifies buf
    ensures 1 <= m <= bits && length == length0 + m && length <= buf.Length && Sufficed(length, hi, delta0)
    ensures Good(buf[..length], Times10(hi, m), Times10(delta0, m), Times10(dist0, m), Pow2(bits))
  {
    var p2, delta, dist := p20, delta0, dist0;
    length, m := length0, 0;
    var found := false;
    while !found
      invariant 0 <= m <= bits && length == length0 + m && length <= buf.Length
      invariant found ==> m >= 1 && Sufficed(length, hi, delta0)
      invariant !found ==> delta == Times10(delta0, m) && dist == Times10(dist0, m) && dist <= delta < p2
      invariant !found ==> Halvable(p2, m) && (m == bits ==> p2 == 0)
      invariant !found ==> Short(buf[..length], Times10(hi, m), delta, Pow2(bits), p2)
      invariant found ==> Good(buf[..length], Times10(hi, m), Times10(delta0, m), Times10(dist0, m), Pow2(bits))
      decreases !found, bits - m
    {
      RoomForNext(buf[..length], hi, delta0, m, Pow2(bits), p2, buf.Length, length0 + bits);
      found, p2, delta, dist := FractionTurn(buf, length, Times10(hi, m), delta, dist, bits, p2, m);
      length, m := length + 1, m + 1;
    }
  }

  /** Appends the next digit of the fraction, and rounds if that is enough. */
  method FractionTurn(buf: array<char>, length: nat, ghost top: nat, delta: u64, dist: u64, bits: nat, p2: u64,
      ghost m: nat)
    returns (found: bool, r: u64, delta': u64, dist': u64)
    requires 1 <= length < buf.Length && 32 <= bits <= 60 && m < bits
    requires dist <= delta < p2 && Halvable(p2, m) && Short(buf[..length], top, delta, Pow2(bits), p2)
    modifies buf
    ensures delta' == 10 * delta && dist' == 10 * dist
    ensures found ==> Good(buf[..length + 1], 10 * top, 10 * delta, 10 * dist, Pow2(bits))
    ensures !found ==> delta' < r && Short(buf[..length + 1], 10 * top, 10 * delta, Pow2(bits), r)
    ensures Halvable(r, m + 1) && (m + 1 == bits ==> r == 0)
  {
    ShortBelow(buf[..length], top, delta, Pow2(bits), p2);
    var one;
    one, r, delta', dist' := FractionDigit(buf, length, top, delta, dist, bits, p2, m);
    found := r <= delta';
    if found {
      RoundDigits(buf, length + 1, 10 * top, dist', delta', r, one);
    } else {
      StillShort(buf[..length + 1], 10 * top, delta', Pow2(bits), r);
    }
  }

  /** Appends the next digit of the fraction. */
  method FractionDigit(buf: array<char>, length: nat, ghost top: int, delta: u64, dist: u64, bits: nat, p2: u64,
      ghost m: nat)
    returns (one: u64, r: u64, delta': u64, dist': u64)
    requires 1 <= length < buf.Length && bits <= 60 && m < bits
    requires dist <= delta < p2 && Halvable(p2, m) && Short(buf[..length], top, delta, Pow2(bits), p2)
    modifies buf
    ensures forall i :: 0 <= i < length ==> buf[i] == old(buf[i])
    ensures Reached(buf[..length + 1], 10 * top, 10 * delta, Pow2(bits), r)
    ensures Halvable(r, m + 1) && (m + 1 == bits ==> r == 0)
    ensures one == Pow2(bits) && delta' == 10 * delta && dist' == 10 * dist
  {
    Pow2Mono(bits, 60);
    Pow2Values();
    one := Pow2(bits);
    var tens: u64 := p2 * 10;
    var d;
    d, r := DivMod(tens, one);
    ghost var before := buf[..length];
    HalvableNext(p2, m, bits, d, r);
    FractionNext(before, top, delta, one, p2, d, r);
    buf[length] := DigitChar(d);
    assert buf[..length + 1] == before + [DigitChar(d)];
    delta', dist' := delta * 10, dist * 10;
  }

  /** `x` in the scale that makes numbers with exponent `k` whole. */
  function Scaled(x: nat, k: int): nat {
    if k < 0 then Times10(x, -k) else x
  }

  /** One unit in the last place of a number with exponent `k` in that scale. */
  function Ulp(k: int, bits: nat): nat {
    (if k < 0 then 1 else Pow10(k)) * Pow2(bits)
  }

  /** `grisu2_digit_gen`: decimal digits and an exponent for a number between the
      bounds, which share the exponent `-bits`.  A buffer of `n` characters will do if
      the upper bound is at most 10^(n-1) times the interval, and then so many digits
      are the most there are. */
  method DigitGen(buffer: array<char>, exponent0: int, mMinus: Diyfp, w: Diyfp, mPlus: Diyfp)
    returns (length: nat, exponent: int)
    requires mMinus.e == w.e == mPlus.e && ALPHA <= mPlus.e <= GAMMA
    requires mMinus.f <= w.f <= mPlus.f && Pow2(-mPlus.e) <= mPlus.f
    requires Holds(buffer.Length, 10 - mPlus.e, mPlus.f, mPlus.f - mMinus.f)
    modifies buffer
    ensures 1 <= length <= 10 - mPlus.e && length <= buffer.Length && Sufficed(length, mPlus.f, mPlus.f - mMinus.f)
    ensures var k := exponent - exponent0;
            Good(buffer[..length], Scaled(mPlus.f, k), Scaled(mPlus.f - mMinus.f, k), Scaled(mPlus.f - w.f, k),
                Ulp(k, -mPlus.e))
  {
    var delta, dist := Sub(mPlus, mMinus).f, Sub(mPlus, w).f;
    var bits := -mPlus.e;
    var one, p1, p2 := Split(mPlus.f, bits);
    exponent := exponent0;
    var found, n;
    found, length, n := IntegralDigits(buffer, mPlus.f, delta, dist, one, p1, p2);
    if found {
      exponent := exponent + n;
    } else {
      var m;
      length, m := FractionDigits(buffer, length, mPlus.f, delta, dist, bits, p2);
      exponent := exponent - m;
    }
  }

  /** Integral part and fraction of f * 2^-bits. */
  method Split(f: u64, bits: nat) returns (one: u64, p1: u32, p2: u64)
    requires 32 <= bits <= 60 && Pow2(bits) <= f
    ensures one == Pow2(bits) && f == p1 * one + p2 && p2 < one && p1 > 0
  {
    Pow2Mono(bits, 60);
    Pow2Mono(32, bits);
    Pow2Values();
    one := Pow2(bits);
    SplitFits(f, one);
    p1, p2 := f / one, f % one;
  }

  lemma SplitFits(f: nat, one: nat)
    requires f < U64 && U32 <= one <= f
    ensures 0 < f / one < U32 && f == f / one * one + f % one
  {
    MulLeIf(U32, f / one, one);
    MulLeIf(f / one, 0, one);
  }

  /** In other words: with `n` the digits and `k` the exponent, n * 10^k lies between
      mMinus * 2^-bits and mPlus * 2^-bits. */
  lemma GoodIsBetween(buf: string, mMinus: nat, w: nat, mPlus: nat, k: int, bits: nat)
    requires mMinus <= w <= mPlus
    requires Good(buf, Scaled(mPlus, k), Scaled(mPlus - mMinus, k), Scaled(mPlus - w, k), Ulp(k, bits))
    ensures k >= 0 ==> mMinus <= Value(buf) * Pow10(k) * Pow2(bits) <= mPlus
    ensures k < 0 ==> mMinus * Pow10(-k) <= Value(buf) * Pow2(bits) <= mPlus * Pow10(-k)
  {
    if k >= 0 {
      MulAssoc(Value(buf), Pow10(k), Pow2(bits));
    } else {
      Times10IsPower(mPlus, -k);
      Times10IsPower(mPlus - mMinus, -k);
      Distribute(mPlus, mMinus, Pow10(-k));
    }
  }
}
