/** MurmurHash3, 32 bits: every step can be undone, so keys of the same length that
    differ in one aligned block only, or in the tail only, never collide.

    Words are numbers below 2^32.  A left shift loses what leaves the word; where
    the parts of an `or` or `xor` share no bit it is written as a sum. */
module Murmur {
  import opened Bytes
  import opened Messages
  import Arithmetic

  const M := 0x1_0000_0000

  // -------- Bits --------

  /** Bitwise xor of the lowest `n` bits. */
  function XorBits(n: nat, a: nat, b: nat): nat {
    if n == 0 then 0 else (if a % 2 == b % 2 then 0 else 1) + 2 * XorBits(n - 1, a / 2, b / 2)
  }

  lemma {:induction false} XorBound(n: nat, a: nat, b: nat)
    ensures XorBits(n, a, b) < Arithmetic.Pow2(n)
  {
    if n > 0 {
      XorBound(n - 1, a / 2, b / 2);
    }
  }

  /** `x` shifted right by `s`. */
  function Shr(x: nat, s: nat): (r: nat)
    ensures r <= x
  {
    if s == 0 then x else Shr(x / 2, s - 1)
  }

  function Xor(a: word, b: word): word {
    XorBound(32, a, b);
    Arithmetic.Pow2Values();
    XorBits(32, a, b)
  }

  function Mul(a: word, c: word): word { a * c % M }
  function RotL15(x: word): word { x % 0x2_0000 * 0x8000 + x / 0x2_0000 }
  function RotL13(x: word): word { x % 0x8_0000 * 0x2000 + x / 0x8_0000 }

  // -------- The hash --------

  function MixKey(k: word): word {
    Mul(RotL15(Mul(k, 0xcc9e2d51)), 0x1b873593)
  }

  function MixHash(h: word, k: word): word {
    (RotL13(Xor(h, MixKey(k))) * 5 + 0xe6546b64) % M
  }

  function Final(h: word): word {
    var a := Mul(Xor(h, Shr(h, 16)), 0x85ebca6b);
    var b := Mul(Xor(a, Shr(a, 13)), 0xc2b2ae35);
    Xor(b, Shr(b, 16))
  }

  /** Up to four bytes as one word. */
  function Load(bytes: seq<byte>): word
    requires |bytes| <= 4
  {
    assert LeValue(bytes) < Pow256(|bytes|) <= Pow256(4) by {
      PowMono(|bytes|, 4);
    }
    PowValues();
    LeValue(bytes)
  }

  /** The hash after the first `n` blocks of four bytes. */
  function Body(key: seq<byte>, seed: word, n: nat): word
    requires 4 * n <= |key|
  {
    if n == 0 then seed else MixHash(Body(key, seed, n - 1), Load(key[4 * n - 4..4 * n]))
  }

  function MixTail(h: word, tail: seq<byte>): word
    requires |tail| < 4
  {
    if tail == [] then h else Xor(h, MixKey(Load(tail)))
  }

  /** The length is a C `int`. */
  function Hash(key: seq<byte>, seed: word): word
    requires |key| < 0x8000_0000
  {
    var n := |key| / 4;
    Final(Xor(MixTail(Body(key, seed, n), key[4 * n..]), |key|))
  }

  /** `__murmur_hash3`. */
  method ComputeHash(key: seq<byte>, seed: word) returns (h1: word)
    requires |key| < 0x8000_0000
    ensures h1 == Hash(key, seed)
  {
    var nblocks := |key| / 4;
    h1 := seed;
    for i := 0 to nblocks
      invariant h1 == Body(key, seed, i)
    {
      h1 := MixBlock(h1, Load(key[4 * i..4 * i + 4]));
    }
    var tail := key[4 * nblocks..];
    if |tail| > 0 {
      var k1 := MixOneKey(Load(tail));
      h1 := Xor(h1, k1);
    }
    h1 := Xor(h1, |key|);
    h1 := Finish(h1);
  }

  method MixOneKey(k: word) returns (k1: word)
    ensures k1 == MixKey(k)
  {
    k1 := Mul(k, 0xcc9e2d51);
    k1 := RotL15(k1);
    k1 := Mul(k1, 0x1b873593);
  }

  method MixBlock(h: word, k: word) returns (h1: word)
    ensures h1 == MixHash(h, k)
  {
    var k1 := MixOneKey(k);
    h1 := Xor(h, k1);
    h1 := RotL13(h1);
    h1 := (h1 * 5 + 0xe6546b64) % M;
  }

  method Finish(h: word) returns (h1: word)
    ensures h1 == Final(h)
  {
    h1 := Xor(h, Shr(h, 16));
    h1 := Mul(h1, 0x85ebca6b);
    h1 := Xor(h1, Shr(h1, 13));
    h1 := Mul(h1, 0xc2b2ae35);
    h1 := Xor(h1, Shr(h1, 16));
  }

  // -------- Undoing the steps --------

  lemma {:induction false} XorBitsInjective(n: nat, a: nat, b: nat, k: nat)
    requires a < Arithmetic.Pow2(n) && b < Arithmetic.Pow2(n)
    requires XorBits(n, a, k) == XorBits(n, b, k) || XorBits(n, k, a) == XorBits(n, k, b)
    ensures a == b
  {
    if n > 0 {
      XorBitsInjective(n - 1, a / 2, b / 2, k / 2);
    }
  }

  lemma XorInjective(a: word, b: word, k: word)
    requires Xor(a, k) == Xor(b, k) || Xor(k, a) == Xor(k, b)
    ensures a == b
  {
    Arithmetic.Pow2Values();
    XorBitsInjective(32, a, b, k);
  }

  lemma {:induction false} ShrHalves(x: nat, s: nat)
    ensures Shr(x, s) / 2 == Shr(x / 2, s)
  {
    if s > 0 {
      ShrHalves(x / 2, s - 1);
    }
  }

  /** A word xor itself shifted right gives the word away, from its highest bit down. */
  lemma {:induction false} XorShiftBits(n: nat, s: nat, x: nat, y: nat)
    requires s > 0 && x < Arithmetic.Pow2(n) && y < Arithmetic.Pow2(n)
    requires XorBits(n, x, Shr(x, s)) == XorBits(n, y, Shr(y, s))
    ensures x == y
  {
    if n > 0 {
      ShrHalves(x, s);
      ShrHalves(y, s);
      XorShiftBits(n - 1, s, x / 2, y / 2);
    }
  }

  lemma XorShiftInjective(s: nat, x: word, y: word)
    requires s > 0 && Xor(x, Shr(x, s)) == Xor(y, Shr(y, s))
    ensures x == y
  {
    Arithmetic.Pow2Values();
    XorShiftBits(32, s, x, y);
  }

  /** With `c * inv` one more than a multiple of 2^32, products with `c` that agree
      modulo 2^32 have the same factor. */
  lemma SameFactor(x: word, y: word, c: int, inv: int, d: int, q: int)
    requires c * inv == q * M + 1 && x * c - y * c == d * M
    ensures x == y
  {
    var t := x - y;
    Arithmetic.Distribute(x, y, c);
    Arithmetic.MulAssoc(t, c, inv);
    Arithmetic.MulAssoc(d, M, inv);
    Arithmetic.MulAssoc(d, inv, M);
    Rearrange(t, c * inv, q, d * inv);
  }

  lemma Rearrange(t: int, p: int, q: int, e: int)
    requires p == q * M + 1 && t * p == e * M && -M < t < M
    ensures t == 0
  {
    assert t * p == (t * q) * M + t;
    assert t == (e - t * q) * M;
  }

  lemma MulKey1Injective(x: word, y: word)
    requires Mul(x, 0xcc9e2d51) == Mul(y, 0xcc9e2d51)
    ensures x == y
  {
    SameFactor(x, y, 0xcc9e2d51, 0xdee13bb1, x * 0xcc9e2d51 / M - y * 0xcc9e2d51 / M, 0xcc9e2d51 * 0xdee13bb1 / M);
  }

  lemma MulKey2Injective(x: word, y: word)
    requires Mul(x, 0x1b873593) == Mul(y, 0x1b873593)
    ensures x == y
  {
    SameFactor(x, y, 0x1b873593, 0x56ed309b, x * 0x1b873593 / M - y * 0x1b873593 / M, 0x1b873593 * 0x56ed309b / M);
  }

  lemma MulFinal1Injective(x: word, y: word)
    requires Mul(x, 0x85ebca6b) == Mul(y, 0x85ebca6b)
    ensures x == y
  {
    SameFactor(x, y, 0x85ebca6b, 0xa5cb9243, x * 0x85ebca6b / M - y * 0x85ebca6b / M, 0x85ebca6b * 0xa5cb9243 / M);
  }

  lemma MulFinal2Injective(x: word, y: word)
    requires Mul(x, 0xc2b2ae35) == Mul(y, 0xc2b2ae35)
    ensures x == y
  {
    SameFactor(x, y, 0xc2b2ae35, 0x7ed1b41d, x * 0xc2b2ae35 / M - y * 0xc2b2ae35 / M, 0xc2b2ae35 * 0x7ed1b41d / M);
  }

  lemma MixKeyInjective(k: word, l: word)
    requires MixKey(k) == MixKey(l)
    ensures k == l
  {
    var a, b := Mul(k, 0xcc9e2d51), Mul(l, 0xcc9e2d51);
    MulKey2Injective(RotL15(a), RotL15(b));
    assert a == b;
    MulKey1Injective(k, l);
  }

  lemma MixHashInjective(h: word, k: word, h': word, k': word)
    requires MixHash(h, k) == MixHash(h', k')
    ensures h == h' <==> k == k'
  {
    var m, m' := MixKey(k), MixKey(k');
    RotateAdd(Xor(h, m), Xor(h', m'));
    if k == k' {
      XorInjective(h, h', m);
    }
    if h == h' {
      XorInjective(m, m', h);
      MixKeyInjective(k, k');
    }
  }

  lemma RotateAdd(x: word, y: word)
    requires (RotL13(x) * 5 + 0xe6546b64) % M == (RotL13(y) * 5 + 0xe6546b64) % M
    ensures x == y
  {
    var u, v := RotL13(x), RotL13(y);
    AddInjective(u * 5, v * 5);
    SameFactor(u, v, 5, 0xcccccccd, u * 5 / M - v * 5 / M, 5 * 0xcccccccd / M);
  }

  lemma AddInjective(x: nat, y: nat)
    requires (x + 0xe6546b64) % M == (y + 0xe6546b64) % M
    ensures x % M == y % M
  {
  }

  lemma FinalInjective(h: word, h': word)
    requires Final(h) == Final(h')
    ensures h == h'
  {
    var x, x' := Xor(h, Shr(h, 16)), Xor(h', Shr(h', 16));
    var a, a' := Mul(x, 0x85ebca6b), Mul(x', 0x85ebca6b);
    var y, y' := Xor(a, Shr(a, 13)), Xor(a', Shr(a', 13));
    var b, b' := Mul(y, 0xc2b2ae35), Mul(y', 0xc2b2ae35);
    XorShiftInjective(16, b, b');
    MulFinal2Injective(y, y');
    XorShiftInjective(13, a, a');
    MulFinal1Injective(x, x');
    XorShiftInjective(16, h, h');
  }

  // -------- Keys that do not collide --------

  /** `a` and `b` differ in block `i` at most. */
  ghost predicate SameButBlock(a: seq<byte>, b: seq<byte>, i: nat) {
    |a| == |b| && 4 * i + 4 <= |a| && forall j :: 0 <= j < |a| && !(4 * i <= j < 4 * i + 4) ==> a[j] == b[j]
  }

  lemma {:induction false} BodySame(a: seq<byte>, b: seq<byte>, seed: word, n: nat)
    requires 4 * n <= |a| && 4 * n <= |b| && forall j :: 0 <= j < 4 * n ==> a[j] == b[j]
    ensures Body(a, seed, n) == Body(b, seed, n)
    decreases n
  {
    if n > 0 {
      BodySame(a, b, seed, n - 1);
      assert a[4 * n - 4..4 * n] == b[4 * n - 4..4 * n];
    }
  }

  lemma {:induction false} BodyDiffers(a: seq<byte>, b: seq<byte>, seed: word, i: nat, n: nat)
    requires SameButBlock(a, b, i) && a != b && i < n && 4 * n <= |a|
    ensures Body(a, seed, n) != Body(b, seed, n)
    decreases n
  {
    var s, t := a[4 * n - 4..4 * n], b[4 * n - 4..4 * n];
    if i == n - 1 {
      BodySame(a, b, seed, n - 1);
      BlocksDiffer(a, b, i);
      if Load(s) == Load(t) {
        LeInjective(s, t);
      }
    } else {
      BodyDiffers(a, b, seed, i, n - 1);
      assert s == t;
    }
    if Body(a, seed, n) == Body(b, seed, n) {
      MixHashInjective(Body(a, seed, n - 1), Load(s), Body(b, seed, n - 1), Load(t));
    }
  }

  lemma BlocksDiffer(a: seq<byte>, b: seq<byte>, i: nat)
    requires SameButBlock(a, b, i) && a != b
    ensures a[4 * i..4 * i + 4] != b[4 * i..4 * i + 4]
  {
    var s, t := a[4 * i..4 * i + 4], b[4 * i..4 * i + 4];
    var j :| 0 <= j < |a| && a[j] != b[j];
    assert s[j - 4 * i] == a[j] && t[j - 4 * i] == b[j];
  }

  lemma {:induction false} SeedDiffers(key: seq<byte>, seed: word, seed': word, n: nat)
    requires seed != seed' && 4 * n <= |key|
    ensures Body(key, seed, n) != Body(key, seed', n)
    decreases n
  {
    if n > 0 {
      SeedDiffers(key, seed, seed', n - 1);
      var k := Load(key[4 * n - 4..4 * n]);
      if Body(key, seed, n) == Body(key, seed', n) {
        MixHashInjective(Body(key, seed, n - 1), k, Body(key, seed', n - 1), k);
      }
    }
  }

  /** The steps after the blocks lose nothing of the hash so far. */
  lemma EndInjective(h: word, h': word, tail: seq<byte>, len: word)
    requires |tail| < 4 && Final(Xor(MixTail(h, tail), len)) == Final(Xor(MixTail(h', tail), len))
    ensures h == h'
  {
    FinalInjective(Xor(MixTail(h, tail), len), Xor(MixTail(h', tail), len));
    XorInjective(MixTail(h, tail), MixTail(h', tail), len);
    if tail != [] {
      XorInjective(h, h', MixKey(Load(tail)));
    }
  }

  /** Two keys of one length that differ inside one aligned block of four bytes and nowhere else. */
  lemma NoCollisionInBlock(a: seq<byte>, b: seq<byte>, seed: word, i: nat)
    requires SameButBlock(a, b, i) && a != b && |a| < 0x8000_0000
    ensures Hash(a, seed) != Hash(b, seed)
  {
    var n := |a| / 4;
    BodyDiffers(a, b, seed, i, n);
    assert a[4 * n..] == b[4 * n..];
    if Hash(a, seed) == Hash(b, seed) {
      EndInjective(Body(a, seed, n), Body(b, seed, n), a[4 * n..], |a|);
    }
  }

  /** Two keys of one length that differ behind the last full block only. */
  lemma NoCollisionInTail(a: seq<byte>, b: seq<byte>, seed: word)
    requires |a| == |b| < 0x8000_0000 && a != b
    requires forall j :: 0 <= j < |a| / 4 * 4 ==> a[j] == b[j]
    ensures Hash(a, seed) != Hash(b, seed)
  {
    var n := |a| / 4;
    BodySame(a, b, seed, n);
    var s, t := a[4 * n..], b[4 * n..];
    assert s != t by {
      assert a == a[..4 * n] + s && b == b[..4 * n] + t && a[..4 * n] == b[..4 * n];
    }
    if Hash(a, seed) == Hash(b, seed) {
      TailInjective(Body(a, seed, n), s, t, |a|);
    }
  }

  lemma TailInjective(h: word, s: seq<byte>, t: seq<byte>, len: word)
    requires |s| == |t| < 4 && Final(Xor(MixTail(h, s), len)) == Final(Xor(MixTail(h, t), len))
    ensures s == t
  {
    FinalInjective(Xor(MixTail(h, s), len), Xor(MixTail(h, t), len));
    XorInjective(MixTail(h, s), MixTail(h, t), len);
    if s != [] {
      XorInjective(MixKey(Load(s)), MixKey(Load(t)), h);
      MixKeyInjective(Load(s), Load(t));
      LeInjective(s, t);
    }
  }

  /** One key, two seeds. */
  lemma NoCollisionOfSeeds(key: seq<byte>, seed: word, seed': word)
    requires |key| < 0x8000_0000 && seed != seed'
    ensures Hash(key, seed) != Hash(key, seed')
  {
    var n := |key| / 4;
    SeedDiffers(key, seed, seed', n);
    if Hash(key, seed) == Hash(key, seed') {
      EndInjective(Body(key, seed, n), Body(key, seed', n), key[4 * n..], |key|);
    }
  }
}
