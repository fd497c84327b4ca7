/** Powers, products, quotients and repeated halving. */
module Arithmetic {

  const U64 := 0x1_0000_0000_0000_0000
  const U32 := 0x1_0000_0000

  type u64 = x: int | 0 <= x < U64
  type u32 = x: int | 0 <= x < U32

  function Pow10(n: nat): (r: nat)
    ensures r > 0
  {
    if n == 0 then 1 else 10 * Pow10(n - 1)
  }

  function Pow2(n: nat): (r: nat)
    ensures r > 0
  {
    if n == 0 then 1 else 2 * Pow2(n - 1)
  }

  lemma {:induction false} Pow2Mono(a: nat, b: nat)
    requires a <= b
    ensures Pow2(a) <= Pow2(b)
  {
    if a < b {
      Pow2Mono(a, b - 1);
    }
  }

  lemma {:induction false} Pow10Mono(a: nat, b: nat)
    requires a <= b
    ensures Pow10(a) <= Pow10(b)
  {
    if a < b {
      Pow10Mono(a, b - 1);
    }
  }

  lemma Pow2Values()
    ensures Pow2(32) == U32 && Pow2(60) == 0x1000_0000_0000_0000
  {
    assert Pow2(8) == 256 && Pow2(16) == 0x1_0000 by {
      assert Pow2(4) == 16;
      assert Pow2(8) == 16 * Pow2(4);
      assert Pow2(12) == 16 * Pow2(8);
      assert Pow2(16) == 16 * Pow2(12);
    }
    assert Pow2(20) == 16 * Pow2(16);
    assert Pow2(24) == 16 * Pow2(20);
    assert Pow2(28) == 16 * Pow2(24);
    assert Pow2(32) == 16 * Pow2(28);
    assert Pow2(36) == 16 * Pow2(32);
    assert Pow2(40) == 16 * Pow2(36);
    assert Pow2(44) == 16 * Pow2(40);
    assert Pow2(48) == 16 * Pow2(44);
    assert Pow2(52) == 16 * Pow2(48);
    assert Pow2(56) == 16 * Pow2(52);
    assert Pow2(60) == 16 * Pow2(56);
  }

  lemma MulLe(a: int, b: int, c: nat)
    requires a <= b
    ensures a * c <= b * c
  {
    assert (b - a) * c >= 0;
  }

  lemma MulLeIf(a: int, b: int, c: nat)
    ensures a <= b ==> a * c <= b * c
  {
    if a <= b {
      MulLe(a, b, c);
    }
  }

  lemma Distribute(a: int, b: int, c: int)
    ensures (a + b) * c == a * c + b * c && (a - b) * c == a * c - b * c
  {
  }

  /** Below `hi` lies a number `n` of units `u`, `rest` away: with `rest` above `delta`
      no multiple of the unit is within `delta` below `hi`. */
  lemma NoMultiple(hi: int, delta: int, n: int, u: nat, rest: int, q: int)
    requires hi == n * u + rest && delta < rest < u
    ensures !(hi - delta <= q * u <= hi)
  {
    if q <= n {
      MulLe(q, n, u);
    } else {
      MulLe(n + 1, q, u);
      Distribute(n, 1, u);
    }
  }

  lemma MulAssoc(a: int, b: int, c: int)
    ensures (a * b) * c == a * (b * c)
  {
  }

  /** Quotient and remainder, as a shift and a mask give them for a power of two. */
  method DivMod(x: u64, d: u64) returns (q: u64, r: u64)
    requires d > 0
    ensures x == q * d + r && r < d && q <= x
  {
    q, r := x / d, x % d;
    MulLe(0, x / d, d - 1);
    Distribute(d, 1, x / d);
  }

  /** `x`, ten times as large `m` times. */
  function Times10(x: nat, m: nat): nat {
    if m == 0 then x else 10 * Times10(x, m - 1)
  }

  lemma {:induction false} Times10IsPower(x: nat, m: nat)
    ensures Times10(x, m) == x * Pow10(m)
  {
    if m > 0 {
      Times10IsPower(x, m - 1);
      MulAssoc(x, 10, Pow10(m - 1));
      MulAssoc(10, x, Pow10(m - 1));
    }
  }

  lemma {:induction false} Times10Mono(x: nat, y: nat, m: nat)
    requires x <= y
    ensures Times10(x, m) <= Times10(y, m)
  {
    if m > 0 {
      Times10Mono(x, y, m - 1);
    }
  }

  /** `x` can be halved `m` times. */
  predicate Halvable(x: nat, m: nat) {
    m == 0 || (x % 2 == 0 && Halvable(x / 2, m - 1))
  }

  lemma {:induction false} HalvableIs(x: nat, m: nat) returns (c: nat)
    requires Halvable(x, m)
    ensures x == c * Pow2(m)
  {
    if m == 0 {
      c := x;
    } else {
      c := HalvableIs(x / 2, m - 1);
      MulAssoc(c, 2, Pow2(m - 1));
      MulAssoc(2, c, Pow2(m - 1));
    }
  }

  lemma {:induction false} IsHalvable(x: nat, c: nat, m: nat)
    requires x == c * Pow2(m)
    ensures Halvable(x, m)
    decreases m
  {
    if m > 0 {
      var p := Pow2(m - 1);
      TwiceOf(c, p);
      MulLe(0, c, p);
      IsHalvable(c * p, c, m - 1);
    }
  }

  lemma TwiceOf(c: int, p: int)
    ensures c * (2 * p) == 2 * (c * p)
  {
  }

  lemma {:induction false} Pow2Add(a: nat, b: nat)
    ensures Pow2(a + b) == Pow2(a) * Pow2(b)
  {
    if b > 0 {
      Pow2Add(a, b - 1);
      assert Pow2(a) * (2 * Pow2(b - 1)) == 2 * (Pow2(a) * Pow2(b - 1));
    }
  }

  /** Ten times a multiple of 2^m, modulo a higher power of two, is a multiple of
      2^(m+1); modulo 2^(m+1) itself it is zero. */
  lemma HalvableNext(p: nat, m: nat, bits: nat, d: nat, r: nat)
    requires m < bits && Halvable(p, m) && 10 * p == d * Pow2(bits) + r && r < Pow2(bits)
    ensures Halvable(r, m + 1)
    ensures m + 1 == bits ==> r == 0
  {
    var c := HalvableIs(p, m);
    var h, o := Pow2(m + 1), Pow2(bits - m - 1);
    Pow2Add(m + 1, bits - m - 1);
    HalvesOf(c, Pow2(m), d, o);
    var q := 5 * c - d * o;
    assert r == q * h;
    MulLeIf(q, -1, h);
    IsHalvable(r, q, m + 1);
    MulLeIf(1, q, h);
  }

  lemma HalvesOf(c: int, k: int, d: int, o: int)
    ensures 10 * (c * k) - d * ((2 * k) * o) == (5 * c - d * o) * (2 * k)
  {
    MulAssoc(d, o, 2 * k);
    Distribute(5 * c, d * o, 2 * k);
    assert d * ((2 * k) * o) == d * (o * (2 * k));
    assert (5 * c) * (2 * k) == 10 * (c * k);
  }

  lemma DivModUnique(x: nat, d: nat, q: nat, r: nat)
    requires x == q * d + r && r < d
    ensures x / d == q && x % d == r
  {
    var p := x / d;
    assert x == p * d + x % d;
    Distribute(p, q, d);
    MulLeIf(p - q, -1, d);
    MulLeIf(1, p - q, d);
  }

  lemma ModSmall(x: nat, d: nat)
    requires d > 0 && x < 2 * d
    ensures x % d == if x < d then x else x - d
  {
    DivModUnique(x, d, if x < d then 0 else 1, if x < d then x else x - d);
  }
}
