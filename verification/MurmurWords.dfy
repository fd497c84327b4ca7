/** MurmurHash3 once more, on 32-bit machine words as the program computes it: the
    functions on numbers stand for it step by step. */
module MurmurWords {
  import opened Arithmetic
  import opened Bytes
  import opened MachineWords
  import opened Messages
  import opened Murmur

  /** The word `p` with `bit` pushed in at its lower end. */
  function Twice(p: bv32, bit: nat): bv32 {
    (p << 1) | if bit == 0 then 0 else 1
  }

  /** `f` gives each number the machine word of its lowest 32 bits. */
  ghost predicate IsWord(f: nat -> bv32) {
    f(0) == 0 && forall x, bit {:trigger Doubles(f, x, bit)} :: Doubles(f, x, bit)
  }

  ghost predicate Doubles(f: nat -> bv32, x: nat, bit: nat) {
    bit < 2 ==> f(2 * x + bit) == Twice(f(x), bit)
  }

  /** The function that does. */
  function Word(x: nat): bv32 {
    if x == 0 then 0 else Twice(Word(x / 2), x % 2)
  }

  lemma WordDoubles(x: nat, bit: nat)
    requires bit < 2
    ensures Word(2 * x + bit) == Twice(Word(x), bit)
  {
    var y := 2 * x + bit;
    assert y / 2 == x && y % 2 == bit;
    if y == 0 {
      assert x == 0 && bit == 0;
    }
  }

  lemma WordIsWord()
    ensures IsWord(Word)
  {
    forall x, bit
      ensures Doubles(Word, x, bit)
    {
      if bit < 2 {
        WordDoubles(x, bit);
      }
    }
  }

  // -------- The program --------

  function Times1(k: bv32): bv32 { k * 0xcc9e2d51 }
  function Times2(k: bv32): bv32 { k * 0x1b873593 }
  function Times3(h: bv32): bv32 { h * 0x85ebca6b }
  function Times4(h: bv32): bv32 { h * 0xc2b2ae35 }
  function Spread(h: bv32): bv32 { h * 5 + 0xe6546b64 }
  function Fold16(h: bv32): bv32 { h ^ (h >> 16) }
  function Fold13(h: bv32): bv32 { h ^ (h >> 13) }

  function KeyWord(k: bv32): bv32 {
    Times2(RotateLeft15(Times1(k)))
  }

  function XorKey(h: bv32, k: bv32): bv32 {
    h ^ KeyWord(k)
  }

  function MixWord(h: bv32, k: bv32): bv32 {
    Spread(RotateLeft13(XorKey(h, k)))
  }

  function FinalWord(h: bv32): bv32 {
    Fold16(Times4(Fold13(Times3(Fold16(h)))))
  }

  /** Byte `i`, or 0 behind the end. */
  function ByteAt(b: seq<bv8>, i: nat): bv32 {
    if i < |b| then b[i] as bv32 else 0
  }

  /** Four bytes read as one word by a little-endian machine. */
  function Block(b: seq<bv8>): bv32
    requires |b| == 4
  {
    Join(ByteAt(b, 0), ByteAt(b, 1), ByteAt(b, 2), ByteAt(b, 3))
  }

  function BodyWord(key: seq<bv8>, seed: bv32, n: nat): bv32
    requires 4 * n <= |key|
  {
    if n == 0 then seed else MixWord(BodyWord(key, seed, n - 1), Block(key[4 * n - 4..4 * n]))
  }

  /** The bytes behind the last block, each shifted to its place. */
  function TailWord(b: seq<bv8>): bv32
    requires |b| < 4
  {
    ((ByteAt(b, 2) << 16) ^ (ByteAt(b, 1) << 8)) ^ ByteAt(b, 0)
  }

  function MixTailWord(h: bv32, tail: seq<bv8>): bv32
    requires |tail| < 4
  {
    if tail == [] then h else XorKey(h, TailWord(tail))
  }

  /** `len` is the length of the key. */
  function HashWord(key: seq<bv8>, len: bv32, seed: bv32): bv32 {
    var n := |key| / 4;
    FinalWord(MixTailWord(BodyWord(key, seed, n), key[4 * n..]) ^ len)
  }

  // -------- Sums and products --------

  ghost predicate Next(p: bv32, q: bv32) {
    q == p + 1
  }

  ghost predicate Sum(r: bv32, p: bv32, q: bv32) {
    r == p + q
  }

  ghost predicate Product(r: bv32, p: bv32, q: bv32) {
    r == p * q
  }

  lemma WordTwice(f: nat -> bv32, x: nat, bit: nat, y: nat)
    requires IsWord(f) && bit < 2 && y == 2 * x + bit
    ensures f(y) == Twice(f(x), bit)
  {
    assert Doubles(f, x, bit);
  }

  lemma TwiceEven(p: bv32, u: bv32, v: bv32)
    requires u == Twice(p, 0) && v == Twice(p, 1)
    ensures Next(u, v)
  {
  }

  lemma TwiceOdd(p: bv32, q: bv32, u: bv32, v: bv32)
    requires Next(p, q) && u == Twice(p, 1) && v == Twice(q, 0)
    ensures Next(u, v)
  {
  }

  lemma {:induction false} WordNext(f: nat -> bv32, x: nat)
    requires IsWord(f)
    ensures Next(f(x), f(x + 1))
  {
    var y := x / 2;
    if x % 2 == 0 {
      WordTwice(f, y, 0, x);
      WordTwice(f, y, 1, x + 1);
      TwiceEven(f(y), f(x), f(x + 1));
    } else {
      WordNext(f, y);
      WordTwice(f, y, 1, x);
      WordTwice(f, y + 1, 0, x + 1);
      TwiceOdd(f(y), f(y + 1), f(x), f(x + 1));
    }
  }

  lemma SumNext(r: bv32, p: bv32, q: bv32, r': bv32, q': bv32)
    requires Sum(r, p, q) && Next(r, r') && Next(q, q')
    ensures Sum(r', p, q')
  {
  }

  lemma ProductNext(r: bv32, p: bv32, q: bv32, r': bv32, p': bv32)
    requires Product(r, p, q) && Sum(r', r, q) && Next(p, p')
    ensures Product(r', p', q)
  {
    assert (p + 1) * q == p * q + q;
  }

  lemma {:induction false} WordSum(f: nat -> bv32, x: nat, y: nat)
    requires IsWord(f)
    ensures Sum(f(x + y), f(x), f(y))
  {
    if y == 0 {
      assert x + y == x;
    } else {
      WordSum(f, x, y - 1);
      WordSumNext(f, x, y - 1);
      assert x + ((y - 1) + 1) == x + y;
    }
  }

  lemma SumIs(f: nat -> bv32, z: nat, x: nat, y: nat)
    requires IsWord(f)
    requires z == x + y
    ensures Sum(f(z), f(x), f(y))
  {
    WordSum(f, x, y);
  }

  lemma WordSumNext(f: nat -> bv32, x: nat, y: nat)
    requires IsWord(f)
    requires Sum(f(x + y), f(x), f(y))
    ensures Sum(f(x + (y + 1)), f(x), f(y + 1))
  {
    WordNext(f, x + y);
    WordNext(f, y);
    assert (x + y) + 1 == x + (y + 1);
    SumNext(f(x + y), f(x), f(y), f(x + (y + 1)), f(y + 1));
  }

  lemma {:induction false} WordProduct(f: nat -> bv32, x: nat, y: nat)
    requires IsWord(f)
    ensures 0 <= x * y && Product(f(x * y), f(x), f(y))
  {
    MulLe(0, x, y);
    if x == 0 {
      assert x * y == 0;
    } else {
      WordProduct(f, x - 1, y);
      WordProductNext(f, x - 1, y, (x - 1) * y);
      Distribute(x - 1, 1, y);
    }
  }

  lemma WordProductNext(f: nat -> bv32, x: nat, y: nat, xy: nat)
    requires IsWord(f)
    requires Product(f(xy), f(x), f(y))
    ensures Product(f(xy + y), f(x + 1), f(y))
  {
    WordNext(f, x);
    WordSum(f, xy, y);
    ProductNext(f(xy), f(x), f(y), f(xy + y), f(x + 1));
  }

  // -------- Bytes --------

  lemma ByteDown(p: bv8)
    requires p != 0
    ensures p as int == (p - 1) as int + 1 && p as bv32 == ((p - 1) as bv32) + 1
  {
  }

  lemma {:induction false} ByteWord(f: nat -> bv32, p: bv8)
    requires IsWord(f)
    ensures f(p as int) == p as bv32
    decreases p as int
  {
    if p != 0 {
      ByteDown(p);
      ByteWord(f, p - 1);
      WordNext(f, (p - 1) as int);
    }
  }

  lemma ByteUp(p: bv8)
    requires p != 0xff
    ensures (p + 1) as int == p as int + 1
  {
  }

  lemma {:induction false} ByteOf(x: byte) returns (p: bv8)
    ensures p as int == x
    decreases x
  {
    if x == 0 {
      p := 0;
    } else {
      p := ByteOf(x - 1);
      ByteUp(p);
      p := p + 1;
    }
  }

  lemma ByteBack(x: byte)
    ensures (x as bv8) as int == x
  {
    var p := ByteOf(x);
    assert (p as int) as bv8 == p;
  }

  lemma Word256(f: nat -> bv32)
    requires IsWord(f)
    ensures f(256) == 256
  {
    ByteWord(f, 255);
    WordNext(f, 255);
  }

  lemma WordOfByte(f: nat -> bv32, b: byte)
    requires IsWord(f)
    ensures f(b) == (b as bv8) as bv32 <= 0xff
  {
    ByteBack(b);
    ByteWord(f, b as bv8);
  }

  lemma ByteBelow(f: nat -> bv32, b: byte)
    requires IsWord(f)
    ensures f(b) <= 0xff
  {
    WordOfByte(f, b);
  }

  ghost predicate Above(r: bv32, p: bv32, q: bv32) {
    r == p + q * 256
  }

  lemma WordAbove(f: nat -> bv32, b: byte, x: nat, y: nat)
    requires IsWord(f)
    requires y == b + 256 * x
    ensures Above(f(y), f(b), f(x))
  {
    var m := x * 256;
    Word256(f);
    WordProduct(f, x, 256);
    SumIs(f, y, b, m);
    AboveIs(f(y), f(b), f(x), f(m), f(256));
  }

  lemma AboveIs(r: bv32, p: bv32, q: bv32, m: bv32, c: bv32)
    requires Sum(r, p, m) && Product(m, q, c) && c == 256
    ensures Above(r, p, q)
  {
  }

  /** A number of four bytes is the word of these bytes. */
  lemma WordOfFour(f: nat -> bv32, b0: byte, b1: byte, b2: byte, b3: byte)
    requires IsWord(f)
    ensures AreBytes(f(b0), f(b1), f(b2), f(b3))
    ensures f(Four(b0, b1, b2, b3)) == Join(f(b0), f(b1), f(b2), f(b3))
  {
    var x2 := b2 + 256 * b3;
    var x1 := b1 + 256 * x2;
    var x0 := Four(b0, b1, b2, b3);
    WordAbove(f, b2, b3, x2);
    WordAbove(f, b1, x2, x1);
    WordAbove(f, b0, x1, x0);
    FourBelow(f, b0, b1, b2, b3);
    JoinAbove(f(b0), f(b1), f(b2), f(b3), f(x2), f(x1), f(x0));
  }

  lemma FourBelow(f: nat -> bv32, b0: byte, b1: byte, b2: byte, b3: byte)
    requires IsWord(f)
    ensures AreBytes(f(b0), f(b1), f(b2), f(b3))
  {
    ByteBelow(f, b0);
    ByteBelow(f, b1);
    ByteBelow(f, b2);
    ByteBelow(f, b3);
  }

  lemma JoinAbove(p: bv32, q: bv32, r: bv32, s: bv32, w2: bv32, w1: bv32, w0: bv32)
    requires AreBytes(p, q, r, s) && Above(w2, r, s) && Above(w1, q, w2) && Above(w0, p, w1)
    ensures w0 == Join(p, q, r, s)
  {
    JoinSum(p, q, r, s);
  }

  lemma FourOf(x: word) returns (b0: byte, b1: byte, b2: byte, b3: byte)
    ensures x == Four(b0, b1, b2, b3)
  {
    b0, b1, b2, b3 := x % 256, x / 256 % 256, x / 256 / 256 % 256, x / 256 / 256 / 256;
  }

  /** Different numbers below 2^32 are different words. */
  lemma WordInjective(f: nat -> bv32, x: word, y: word)
    requires IsWord(f)
    requires f(x) == f(y)
    ensures x == y
  {
    var b0, b1, b2, b3 := FourOf(x);
    var c0, c1, c2, c3 := FourOf(y);
    BytesOfWord(f, x, b0, b1, b2, b3);
    BytesOfWord(f, y, c0, c1, c2, c3);
    ByteInjective(f, b0, c0);
    ByteInjective(f, b1, c1);
    ByteInjective(f, b2, c2);
    ByteInjective(f, b3, c3);
  }

  lemma BytesOfWord(f: nat -> bv32, x: word, b0: byte, b1: byte, b2: byte, b3: byte)
    requires IsWord(f)
    requires x == Four(b0, b1, b2, b3)
    ensures f(b0) == f(x) & 0xff && f(b1) == (f(x) >> 8) & 0xff
    ensures f(b2) == (f(x) >> 16) & 0xff && f(b3) == f(x) >> 24
  {
    WordOfFour(f, b0, b1, b2, b3);
    JoinParts(f(b0), f(b1), f(b2), f(b3));
  }

  lemma ByteInjective(f: nat -> bv32, b: byte, c: byte)
    requires IsWord(f)
    requires f(b) == f(c)
    ensures b == c
  {
    WordOfByte(f, b);
    WordOfByte(f, c);
    ByteBack(b);
    ByteBack(c);
    assert b as bv8 == c as bv8;
  }

  lemma Literal(f: nat -> bv32, p0: bv8, p1: bv8, p2: bv8, p3: bv8)
    requires IsWord(f)
    ensures f(Four(p0 as int, p1 as int, p2 as int, p3 as int)) ==
            Join(p0 as bv32, p1 as bv32, p2 as bv32, p3 as bv32)
  {
    ByteWord(f, p0);
    ByteWord(f, p1);
    ByteWord(f, p2);
    ByteWord(f, p3);
    WordOfFour(f, p0 as int, p1 as int, p2 as int, p3 as int);
  }

  lemma Factors(f: nat -> bv32)
    requires IsWord(f)
    ensures f(0xcc9e2d51) == 0xcc9e2d51 && f(0x1b873593) == 0x1b873593
    ensures f(0x85ebca6b) == 0x85ebca6b && f(0xc2b2ae35) == 0xc2b2ae35
  {
    Literal(f, 0x51, 0x2d, 0x9e, 0xcc);
    Literal(f, 0x93, 0x35, 0x87, 0x1b);
    Literal(f, 0x6b, 0xca, 0xeb, 0x85);
    Literal(f, 0x35, 0xae, 0xb2, 0xc2);
  }

  lemma Addends(f: nat -> bv32)
    requires IsWord(f)
    ensures f(0xe6546b64) == 0xe6546b64 && f(5) == 5
  {
    Literal(f, 0x64, 0x6b, 0x54, 0xe6);
    ByteWord(f, 5);
  }

  // -------- The lowest 32 bits --------

  lemma WordModulus(f: nat -> bv32)
    requires IsWord(f)
    ensures f(M) == 0
  {
    Literal(f, 0x00, 0x00, 0x01, 0x00);
    WordProduct(f, 0x1_0000, 0x1_0000);
    Squared(f(M), f(0x1_0000));
  }

  lemma Squared(r: bv32, p: bv32)
    requires Product(r, p, p) && p == 0x1_0000
    ensures r == 0
  {
  }

  /** Arithmetic modulo 2^32 is that of words. */
  lemma WordMod(f: nat -> bv32, x: nat)
    requires IsWord(f)
    ensures f(x % M) == f(x)
  {
    var q, r := x / M, x % M;
    assert x == q * M + r;
    WordModulus(f);
    WordProduct(f, q, M);
    WordSum(f, q * M, r);
    Overflow(f(q), f(q * M), f(r), f(x));
  }

  lemma Overflow(q: bv32, high: bv32, r: bv32, x: bv32)
    requires Product(high, q, 0) && Sum(x, high, r)
    ensures x == r
  {
  }

  lemma WordMul(f: nat -> bv32, x: word, c: word)
    requires IsWord(f)
    ensures Product(f(Mul(x, c)), f(x), f(c))
  {
    WordProduct(f, x, c);
    WordMod(f, x * c);
  }

  // -------- Xor --------

  ghost predicate IsXor(r: bv32, p: bv32, q: bv32) {
    r == p ^ q
  }

  lemma XorNext(r: bv32, p: bv32, q: bv32, c: bv32, d: bv32)
    requires IsXor(r, p, q) && c <= 1 && d <= 1
    ensures IsXor((r << 1) | (c ^ d), (p << 1) | c, (q << 1) | d)
  {
  }

  function Bit(a: nat): bv32 {
    if a == 0 then 0 else 1
  }

  lemma TwiceShift(p: bv32, a: nat)
    ensures Twice(p, a) == (p << 1) | Bit(a)
  {
  }

  lemma BitXor(a: nat, b: nat)
    requires a < 2 && b < 2
    ensures Bit(if a == b then 0 else 1) == Bit(a) ^ Bit(b) && Bit(a) <= 1 && Bit(b) <= 1
  {
    if a == 0 {
      assert Bit(a) == 0;
    } else {
      assert Bit(a) == 1;
    }
  }

  lemma TwiceXor(r: bv32, p: bv32, q: bv32, a: nat, b: nat)
    requires IsXor(r, p, q) && a < 2 && b < 2
    ensures IsXor(Twice(r, if a == b then 0 else 1), Twice(p, a), Twice(q, b))
  {
    var x := if a == b then 0 else 1;
    TwiceShift(r, x);
    TwiceShift(p, a);
    TwiceShift(q, b);
    BitXor(a, b);
    XorNext(r, p, q, Bit(a), Bit(b));
  }

  lemma {:induction false} WordXorBits(f: nat -> bv32, n: nat, a: nat, b: nat)
    requires IsWord(f)
    requires a < Pow2(n) && b < Pow2(n)
    ensures IsXor(f(XorBits(n, a, b)), f(a), f(b))
  {
    if n > 0 {
      var a', b' := a / 2, b / 2;
      var x := XorBits(n - 1, a', b');
      WordXorBits(f, n - 1, a', b');
      WordTwice(f, a', a % 2, a);
      WordTwice(f, b', b % 2, b);
      WordTwice(f, x, if a % 2 == b % 2 then 0 else 1, XorBits(n, a, b));
      TwiceXor(f(x), f(a'), f(b'), a % 2, b % 2);
    }
  }

  lemma WordXor(f: nat -> bv32, a: word, b: word)
    requires IsWord(f)
    ensures IsXor(f(Xor(a, b)), f(a), f(b))
  {
    Pow2Values();
    WordXorBits(f, 32, a, b);
  }

  // -------- Shifts and rotations --------

  /** The upper bits of `p` below the lowest bit of `q`. */
  lemma Across1(p: bv8, q: bv8)
    ensures ((p >> 1) | (q << 7)) as int == (p as int) / 2 + (q as int) % 2 * 128
  {
    Upper1(p);
    Lower1(q);
    Joined1(p >> 1, q << 7);
  }

  lemma Upper1(p: bv8)
    ensures (p >> 1) as int == (p as int) / 2
  {
  }

  lemma Lower1(q: bv8)
    ensures (q << 7) as int == (q as int) % 2 * 128
  {
  }

  lemma Joined1(a: bv8, b: bv8)
    requires a & 0x80 == 0 && b & 0x7f == 0
    ensures (a | b) as int == a as int + b as int
  {
  }

  /** The upper bits of `p` below the three lowest bits of `q`. */
  lemma Across3(p: bv8, q: bv8)
    ensures ((p >> 3) | (q << 5)) as int == (p as int) / 8 + (q as int) % 8 * 32
  {
    Upper3(p);
    Lower3(q);
    Joined3(p >> 3, q << 5);
  }

  lemma Upper3(p: bv8)
    ensures (p >> 3) as int == (p as int) / 8
  {
  }

  lemma Lower3(q: bv8)
    ensures (q << 5) as int == (q as int) % 8 * 32
  {
  }

  lemma Joined3(a: bv8, b: bv8)
    requires a & 0xe0 == 0 && b & 0x1f == 0
    ensures (a | b) as int == a as int + b as int
  {
  }

  /** The upper bits of `p` below the five lowest bits of `q`. */
  lemma Across5(p: bv8, q: bv8)
    ensures ((p >> 5) | (q << 3)) as int == (p as int) / 32 + (q as int) % 32 * 8
  {
    Upper5(p);
    Lower5(q);
    Joined5(p >> 5, q << 3);
  }

  lemma Upper5(p: bv8)
    ensures (p >> 5) as int == (p as int) / 32
  {
  }

  lemma Lower5(q: bv8)
    ensures (q << 3) as int == (q as int) % 32 * 8
  {
  }

  lemma Joined5(a: bv8, b: bv8)
    requires a & 0xf8 == 0 && b & 0x7 == 0
    ensures (a | b) as int == a as int + b as int
  {
  }

  lemma AcrossWord1(f: nat -> bv32, p: bv8, q: bv8)
    requires IsWord(f)
    ensures f((p as int) / 2 + (q as int) % 2 * 128) == ((p as bv32) >> 1) | (((q as bv32) << 7) & 0xff)
  {
    Across1(p, q);
    ByteWord(f, (p >> 1) | (q << 7));
    JoinAcross1(p, q);
  }

  lemma WordAcross1(f: nat -> bv32, b: byte, c: byte)
    requires IsWord(f)
    ensures f(b / 2 + c % 2 * 128) == (f(b) >> 1) | ((f(c) << 7) & 0xff)
  {
    var p := ByteOf(b);
    var q := ByteOf(c);
    AcrossWord1(f, p, q);
    ByteWord(f, p);
    ByteWord(f, q);
  }

  lemma AcrossWord3(f: nat -> bv32, p: bv8, q: bv8)
    requires IsWord(f)
    ensures f((p as int) / 8 + (q as int) % 8 * 32) == ((p as bv32) >> 3) | (((q as bv32) << 5) & 0xff)
  {
    Across3(p, q);
    ByteWord(f, (p >> 3) | (q << 5));
    JoinAcross3(p, q);
  }

  lemma WordAcross3(f: nat -> bv32, b: byte, c: byte)
    requires IsWord(f)
    ensures f(b / 8 + c % 8 * 32) == (f(b) >> 3) | ((f(c) << 5) & 0xff)
  {
    var p := ByteOf(b);
    var q := ByteOf(c);
    AcrossWord3(f, p, q);
    ByteWord(f, p);
    ByteWord(f, q);
  }

  lemma AcrossWord5(f: nat -> bv32, p: bv8, q: bv8)
    requires IsWord(f)
    ensures f((p as int) / 32 + (q as int) % 32 * 8) == ((p as bv32) >> 5) | (((q as bv32) << 3) & 0xff)
  {
    Across5(p, q);
    ByteWord(f, (p >> 5) | (q << 3));
    JoinAcross5(p, q);
  }

  lemma WordAcross5(f: nat -> bv32, b: byte, c: byte)
    requires IsWord(f)
    ensures f(b / 32 + c % 32 * 8) == (f(b) >> 5) | ((f(c) << 3) & 0xff)
  {
    var p := ByteOf(b);
    var q := ByteOf(c);
    AcrossWord5(f, p, q);
    ByteWord(f, p);
    ByteWord(f, q);
  }

  lemma RotL15Value(x: word, b0: byte, b1: byte, b2: byte, b3: byte)
    requires x == Four(b0, b1, b2, b3)
    ensures RotL15(x) == Four(b2 / 2 + b3 % 2 * 128, b3 / 2 + b0 % 2 * 128,
                              b0 / 2 + b1 % 2 * 128, b1 / 2 + b2 % 2 * 128)
  {
    assert x / 0x2_0000 == b3 * 128 + b2 / 2;
    assert x % 0x2_0000 == b2 % 2 * 0x1_0000 + b1 * 0x100 + b0;
  }

  lemma WordUpper5(f: nat -> bv32, b: byte)
    requires IsWord(f)
    ensures f(b / 32) == f(b) >> 5 && f(0) == 0
  {
    WordAcross5(f, b, 0);
    assert 0 % 32 == 0 && b / 32 + 0 == b / 32;
  }

  lemma WordRotL15(f: nat -> bv32, x: word)
    requires IsWord(f)
    ensures f(RotL15(x)) == RotateLeft15(f(x))
  {
    var b0, b1, b2, b3 := FourOf(x);
    RotL15Value(x, b0, b1, b2, b3);
    WordOfFour(f, b0, b1, b2, b3);
    RotL15Bytes(f, b0, b1, b2, b3);
    JoinRotated15(f(b0), f(b1), f(b2), f(b3));
  }

  lemma RotL15Bytes(f: nat -> bv32, b0: byte, b1: byte, b2: byte, b3: byte)
    requires IsWord(f)
    ensures f(Four(b2 / 2 + b3 % 2 * 128, b3 / 2 + b0 % 2 * 128, b0 / 2 + b1 % 2 * 128, b1 / 2 + b2 % 2 * 128)) ==
            Join((f(b2) >> 1) | ((f(b3) << 7) & 0xff), (f(b3) >> 1) | ((f(b0) << 7) & 0xff),
                 (f(b0) >> 1) | ((f(b1) << 7) & 0xff), (f(b1) >> 1) | ((f(b2) << 7) & 0xff))
  {
    WordOfFour(f, b2 / 2 + b3 % 2 * 128, b3 / 2 + b0 % 2 * 128, b0 / 2 + b1 % 2 * 128, b1 / 2 + b2 % 2 * 128);
    WordAcross1(f, b2, b3);
    WordAcross1(f, b3, b0);
    WordAcross1(f, b0, b1);
    WordAcross1(f, b1, b2);
  }
  lemma RotL13Value(x: word, b0: byte, b1: byte, b2: byte, b3: byte)
    requires x == Four(b0, b1, b2, b3)
    ensures RotL13(x) == Four(b2 / 8 + b3 % 8 * 32, b3 / 8 + b0 % 8 * 32, b0 / 8 + b1 % 8 * 32, b1 / 8 + b2 % 8 * 32)
  {
    assert x / 0x8_0000 == b3 * 32 + b2 / 8;
    assert x % 0x8_0000 == b2 % 8 * 0x1_0000 + b1 * 0x100 + b0;
  }

  lemma WordRotL13(f: nat -> bv32, x: word)
    requires IsWord(f)
    ensures f(RotL13(x)) == RotateLeft13(f(x))
  {
    var b0, b1, b2, b3 := FourOf(x);
    RotL13Value(x, b0, b1, b2, b3);
    WordOfFour(f, b0, b1, b2, b3);
    RotL13Bytes(f, b0, b1, b2, b3);
    JoinRotated13(f(b0), f(b1), f(b2), f(b3));
  }

  lemma RotL13Bytes(f: nat -> bv32, b0: byte, b1: byte, b2: byte, b3: byte)
    requires IsWord(f)
    ensures f(Four(b2 / 8 + b3 % 8 * 32, b3 / 8 + b0 % 8 * 32, b0 / 8 + b1 % 8 * 32, b1 / 8 + b2 % 8 * 32)) ==
            Join((f(b2) >> 3) | ((f(b3) << 5) & 0xff), (f(b3) >> 3) | ((f(b0) << 5) & 0xff),
                 (f(b0) >> 3) | ((f(b1) << 5) & 0xff), (f(b1) >> 3) | ((f(b2) << 5) & 0xff))
  {
    WordOfFour(f, b2 / 8 + b3 % 8 * 32, b3 / 8 + b0 % 8 * 32, b0 / 8 + b1 % 8 * 32, b1 / 8 + b2 % 8 * 32);
    WordAcross3(f, b2, b3);
    WordAcross3(f, b3, b0);
    WordAcross3(f, b0, b1);
    WordAcross3(f, b1, b2);
  }
  /** Shifting right divides by a power of two. */
  lemma {:induction false} ShrDivides(x: nat, s: nat)
    ensures Shr(x, s) == x / Pow2(s)
    decreases s
  {
    if s > 0 {
      ShrDivides(x / 2, s - 1);
      HalfDivides(x, Pow2(s - 1));
    }
  }

  lemma HalfDivides(x: nat, p: nat)
    requires p > 0
    ensures x / 2 / p == x / (2 * p)
  {
    var q, r := x / 2 / p, x / 2 % p;
    TwiceOf(q, p);
    DivModUnique(x, 2 * p, q, 2 * r + x % 2);
  }

  lemma ShrValues(x: nat)
    ensures Shr(x, 13) == x / 0x2000 && Shr(x, 16) == x / 0x1_0000
  {
    ShrDivides(x, 13);
    ShrDivides(x, 16);
    assert Pow2(4) == 16 && Pow2(8) == 256 && Pow2(12) == 4096 && Pow2(16) == 65536;
  }

  lemma Shr13Value(x: word, b0: byte, b1: byte, b2: byte, b3: byte)
    requires x == Four(b0, b1, b2, b3)
    ensures x / 0x2000 == Four(b1 / 32 + b2 % 32 * 8, b2 / 32 + b3 % 32 * 8, b3 / 32, 0)
  {
  }

  lemma WordShr13(f: nat -> bv32, x: word)
    requires IsWord(f)
    ensures f(Shr(x, 13)) == f(x) >> 13
  {
    ShrValues(x);
    WordOver13(f, x);
  }

  lemma WordOver13(f: nat -> bv32, x: word)
    requires IsWord(f)
    ensures f(x / 0x2000) == f(x) >> 13
  {
    var b0, b1, b2, b3 := FourOf(x);
    Shr13Value(x, b0, b1, b2, b3);
    WordOfFour(f, b0, b1, b2, b3);
    Shr13Bytes(f, b1, b2, b3);
    JoinShifted13(f(b0), f(b1), f(b2), f(b3));
  }

  lemma Shr13Bytes(f: nat -> bv32, b1: byte, b2: byte, b3: byte)
    requires IsWord(f)
    ensures f(Four(b1 / 32 + b2 % 32 * 8, b2 / 32 + b3 % 32 * 8, b3 / 32, 0)) ==
            Join((f(b1) >> 5) | ((f(b2) << 3) & 0xff), (f(b2) >> 5) | ((f(b3) << 3) & 0xff), f(b3) >> 5, 0)
  {
    WordOfFour(f, b1 / 32 + b2 % 32 * 8, b2 / 32 + b3 % 32 * 8, b3 / 32, 0);
    WordAcross5(f, b1, b2);
    WordAcross5(f, b2, b3);
    WordUpper5(f, b3);
  }

  lemma WordShr16(f: nat -> bv32, x: word)
    requires IsWord(f)
    ensures f(Shr(x, 16)) == f(x) >> 16
  {
    var b0, b1, b2, b3 := FourOf(x);
    ShrValues(x);
    assert x / 0x1_0000 == Four(b2, b3, 0, 0);
    WordOfFour(f, b0, b1, b2, b3);
    WordOfFour(f, b2, b3, 0, 0);
    JoinShifted16(f(b0), f(b1), f(b2), f(b3));
  }

  // -------- The hash --------

  lemma WordTimes(f: nat -> bv32, x: word, c: word, k: bv32)
    requires IsWord(f) && f(c) == k
    ensures Product(f(Mul(x, c)), f(x), k)
  {
    WordMul(f, x, c);
  }

  lemma WordTimes1(f: nat -> bv32, x: word)
    requires IsWord(f)
    ensures f(Mul(x, 0xcc9e2d51)) == Times1(f(x))
  {
    Factors(f);
    WordTimes(f, x, 0xcc9e2d51, 0xcc9e2d51);
    Times1Is(f(Mul(x, 0xcc9e2d51)), f(x));
  }

  lemma Times1Is(r: bv32, p: bv32)
    requires Product(r, p, 0xcc9e2d51)
    ensures r == Times1(p)
  {
  }

  lemma WordTimes2(f: nat -> bv32, x: word)
    requires IsWord(f)
    ensures f(Mul(x, 0x1b873593)) == Times2(f(x))
  {
    Factors(f);
    WordTimes(f, x, 0x1b873593, 0x1b873593);
    Times2Is(f(Mul(x, 0x1b873593)), f(x));
  }

  lemma Times2Is(r: bv32, p: bv32)
    requires Product(r, p, 0x1b873593)
    ensures r == Times2(p)
  {
  }

  lemma WordTimes3(f: nat -> bv32, x: word)
    requires IsWord(f)
    ensures f(Mul(x, 0x85ebca6b)) == Times3(f(x))
  {
    Factors(f);
    WordTimes(f, x, 0x85ebca6b, 0x85ebca6b);
    Times3Is(f(Mul(x, 0x85ebca6b)), f(x));
  }

  lemma Times3Is(r: bv32, p: bv32)
    requires Product(r, p, 0x85ebca6b)
    ensures r == Times3(p)
  {
  }

  lemma WordTimes4(f: nat -> bv32, x: word)
    requires IsWord(f)
    ensures f(Mul(x, 0xc2b2ae35)) == Times4(f(x))
  {
    Factors(f);
    WordTimes(f, x, 0xc2b2ae35, 0xc2b2ae35);
    Times4Is(f(Mul(x, 0xc2b2ae35)), f(x));
  }

  lemma Times4Is(r: bv32, p: bv32)
    requires Product(r, p, 0xc2b2ae35)
    ensures r == Times4(p)
  {
  }

  lemma WordSpread(f: nat -> bv32, r: word)
    requires IsWord(f)
    ensures f((r * 5 + 0xe6546b64) % M) == Spread(f(r))
  {
    var p: nat := r * 5;
    var s: nat := p + 0xe6546b64;
    Addends(f);
    WordProduct(f, r, 5);
    SumIs(f, s, p, 0xe6546b64);
    WordMod(f, s);
    assert Product(f(p), f(r), 5) && Sum(f(s), f(p), 0xe6546b64);
  }

  lemma WordFold16(f: nat -> bv32, h: word)
    requires IsWord(f)
    ensures f(Xor(h, Shr(h, 16))) == Fold16(f(h))
  {
    WordShr16(f, h);
    WordXor(f, h, Shr(h, 16));
    assert IsXor(f(Xor(h, Shr(h, 16))), f(h), f(h) >> 16);
  }

  lemma WordFold13(f: nat -> bv32, h: word)
    requires IsWord(f)
    ensures f(Xor(h, Shr(h, 13))) == Fold13(f(h))
  {
    WordShr13(f, h);
    WordXor(f, h, Shr(h, 13));
    assert IsXor(f(Xor(h, Shr(h, 13))), f(h), f(h) >> 13);
  }

  lemma WordMixKey(f: nat -> bv32, k: word)
    requires IsWord(f)
    ensures f(MixKey(k)) == KeyWord(f(k))
  {
    var a := Mul(k, 0xcc9e2d51);
    WordTimes1(f, k);
    WordRotL15(f, a);
    WordTimes2(f, RotL15(a));
  }

  lemma WordXorKey(f: nat -> bv32, h: word, k: word)
    requires IsWord(f)
    ensures f(Xor(h, MixKey(k))) == XorKey(f(h), f(k))
  {
    WordMixKey(f, k);
    WordXor(f, h, MixKey(k));
    XorKeyIs(f(Xor(h, MixKey(k))), f(h), f(MixKey(k)), f(k));
  }

  lemma XorKeyIs(r: bv32, h: bv32, m: bv32, k: bv32)
    requires IsXor(r, h, m) && m == KeyWord(k)
    ensures r == XorKey(h, k)
  {
  }

  lemma WordMixHash(f: nat -> bv32, h: word, k: word)
    requires IsWord(f)
    ensures f(MixHash(h, k)) == MixWord(f(h), f(k))
  {
    var x := Xor(h, MixKey(k));
    WordXorKey(f, h, k);
    WordRotL13(f, x);
    WordSpread(f, RotL13(x));
  }

  lemma WordFinal(f: nat -> bv32, h: word)
    requires IsWord(f)
    ensures f(Final(h)) == FinalWord(f(h))
  {
    var x := Xor(h, Shr(h, 16));
    var a := Mul(x, 0x85ebca6b);
    var y := Xor(a, Shr(a, 13));
    var b := Mul(y, 0xc2b2ae35);
    WordFold16(f, h);
    WordTimes3(f, x);
    WordFold13(f, a);
    WordTimes4(f, y);
    WordFold16(f, b);
  }

  /** The bytes of a key as the machine has them. */
  function Memory(key: seq<byte>): seq<bv8> {
    seq(|key|, i requires 0 <= i < |key| => key[i] as bv8)
  }

  /** Bytes that are missing count as zero. */
  function At(b: seq<byte>, i: nat): byte {
    if i < |b| then b[i] else 0
  }

  lemma WordAt(f: nat -> bv32, b: seq<byte>, i: nat)
    requires IsWord(f)
    ensures f(At(b, i)) == ByteAt(Memory(b), i)
  {
    if i < |b| {
      WordOfByte(f, b[i]);
    }
  }

  lemma WordBlock(f: nat -> bv32, b: seq<byte>)
    requires IsWord(f) && |b| == 4
    ensures f(Load(b)) == Block(Memory(b))
  {
    LeFour(b);
    WordOfFour(f, At(b, 0), At(b, 1), At(b, 2), At(b, 3));
    WordAt(f, b, 0);
    WordAt(f, b, 1);
    WordAt(f, b, 2);
    WordAt(f, b, 3);
  }

  lemma LoadTail(b: seq<byte>)
    requires |b| < 4
    ensures Load(b) == Four(At(b, 0), At(b, 1), At(b, 2), 0)
  {
    if |b| > 0 {
      assert LeValue(b) == b[0] + 256 * LeValue(b[1..]);
      if |b| > 1 {
        assert LeValue(b[1..]) == b[1] + 256 * LeValue(b[1..][1..]);
        if |b| > 2 {
          assert LeValue(b[1..][1..]) == b[2] + 256 * LeValue(b[1..][1..][1..]);
        }
      }
    }
  }

  lemma WordTail(f: nat -> bv32, b: seq<byte>)
    requires IsWord(f) && |b| < 4
    ensures f(Load(b)) == TailWord(Memory(b))
  {
    LoadTail(b);
    WordOfFour(f, At(b, 0), At(b, 1), At(b, 2), 0);
    WordAt(f, b, 0);
    WordAt(f, b, 1);
    WordAt(f, b, 2);
    JoinTail(f(At(b, 0)), f(At(b, 1)), f(At(b, 2)));
  }

  ghost predicate Stands(f: nat -> bv32, key: seq<byte>, seed: word, n: nat)
    requires 4 * n <= |key|
  {
    f(Body(key, seed, n)) == BodyWord(Memory(key), f(seed), n)
  }

  lemma {:induction false} WordBody(f: nat -> bv32, key: seq<byte>, seed: word, n: nat)
    requires IsWord(f) && 4 * n <= |key|
    ensures Stands(f, key, seed, n)
    decreases n
  {
    if n == 0 {
      WordNoBody(f, key, seed);
    } else {
      WordBody(f, key, seed, n - 1);
      WordBodyNext(f, key, seed, n);
    }
  }

  lemma WordNoBody(f: nat -> bv32, key: seq<byte>, seed: word)
    ensures Stands(f, key, seed, 0)
  {
  }

  lemma WordBodyNext(f: nat -> bv32, key: seq<byte>, seed: word, n: nat)
    requires IsWord(f) && 0 < 4 * n <= |key| && Stands(f, key, seed, n - 1)
    ensures Stands(f, key, seed, n)
  {
    WordMixBlock(f, Body(key, seed, n - 1), key, 4 * n - 4, 4 * n);
  }

  lemma WordMixBlock(f: nat -> bv32, h: word, key: seq<byte>, i: nat, j: nat)
    requires IsWord(f) && i + 4 == j <= |key|
    ensures f(MixHash(h, Load(key[i..j]))) == MixWord(f(h), Block(Memory(key)[i..j]))
  {
    var b := key[i..j];
    assert Memory(b) == Memory(key)[i..j];
    WordBlock(f, b);
    WordMixHash(f, h, Load(b));
  }

  lemma WordMixTail(f: nat -> bv32, h: word, tail: seq<byte>)
    requires IsWord(f) && |tail| < 4
    ensures f(MixTail(h, tail)) == MixTailWord(f(h), Memory(tail))
  {
    if tail != [] {
      assert Memory(tail) != [];
      WordTail(f, tail);
      WordXorKey(f, h, Load(tail));
    }
  }

  /** The hash on numbers is the program's hash on machine words. */
  lemma WordHash(f: nat -> bv32, key: seq<byte>, seed: word)
    requires IsWord(f) && |key| < 0x8000_0000
    ensures f(Hash(key, seed)) == HashWord(Memory(key), f(|key|), f(seed))
  {
    var n := |key| / 4;
    var h, tail := Body(key, seed, n), key[4 * n..];
    var m := MixTail(h, tail);
    assert Memory(tail) == Memory(key)[4 * n..];
    WordBody(f, key, seed, n);
    WordMixTail(f, h, tail);
    WordXor(f, m, |key|);
    WordFinal(f, Xor(m, |key|));
    assert IsXor(f(Xor(m, |key|)), f(m), f(|key|));
  }

  /** So the program's hash gives the number away, and is given by it. */
  lemma HashIs(key: seq<byte>, seed: word, r: word)
    requires |key| < 0x8000_0000
    ensures Hash(key, seed) == r <==> HashWord(Memory(key), Word(|key|), Word(seed)) == Word(r)
  {
    WordIsWord();
    WordHash(Word, key, seed);
    if Word(Hash(key, seed)) == Word(r) {
      WordInjective(Word, Hash(key, seed), r);
    }
  }

  // -------- Values --------

  lemma BlockValues()
    ensures MixWord(0, 0x64636261) == 0x86a7049e && MixWord(0, 0x6c6c6568) == 0xef13efcd
  {
    assert KeyWord(0x64636261) == 0x5b9433b7 && KeyWord(0x6c6c6568) == 0xa0ae7465;
  }

  lemma EndValues()
    ensures FinalWord(0x86a7049a) == 0x43ed676a && FinalWord(0x9caf3fb6) == 0x248bfa47
    ensures XorKey(0xef13efcd, 0x6f) == 0x9caf3fb3
  {
    assert KeyWord(0x6f) == 0x73bcd07e;
  }

  lemma OneBlock(mem: seq<bv8>)
    requires mem == [0x61, 0x62, 0x63, 0x64]
    ensures HashWord(mem, 4, 0) == 0x43ed676a
  {
    assert mem[0..4] == mem && mem[4..] == [];
    assert Block(mem) == 0x64636261;
    BlockValues();
    assert BodyWord(mem, 0, 1) == MixWord(BodyWord(mem, 0, 0), Block(mem[0..4]));
    EndValues();
  }

  lemma BlockAndTail(mem: seq<bv8>)
    requires mem == [0x68, 0x65, 0x6c, 0x6c, 0x6f]
    ensures HashWord(mem, 5, 0) == 0x248bfa47
  {
    assert mem[0..4] == [0x68, 0x65, 0x6c, 0x6c] && mem[4..] == [0x6f];
    assert Block(mem[0..4]) == 0x6c6c6568 && TailWord(mem[4..]) == 0x6f;
    BlockValues();
    assert BodyWord(mem, 0, 1) == MixWord(BodyWord(mem, 0, 0), Block(mem[0..4]));
    EndValues();
  }

  /** The hash of a key from the value of the program. */
  lemma HashFrom(key: seq<byte>, mem: seq<bv8>, len: bv8, p0: bv8, p1: bv8, p2: bv8, p3: bv8)
    requires |key| == len as int && Memory(key) == mem
    requires HashWord(mem, len as bv32, 0) == Join(p0 as bv32, p1 as bv32, p2 as bv32, p3 as bv32)
    ensures Hash(key, 0) == Four(p0 as int, p1 as int, p2 as int, p3 as int)
  {
    WordIsWord();
    ByteWord(Word, len);
    Literal(Word, p0, p1, p2, p3);
    HashIs(key, 0, Four(p0 as int, p1 as int, p2 as int, p3 as int));
  }

  /** The hashes of "abcd" and "hello" with the seed that the table uses. */
  lemma HashOfAbcd(key: seq<byte>)
    requires key == [0x61, 0x62, 0x63, 0x64]
    ensures Hash(key, 0) == 0x43ed676a
  {
    var mem: seq<bv8> := [0x61, 0x62, 0x63, 0x64];
    assert Memory(key) == mem;
    OneBlock(mem);
    HashFrom(key, mem, 4, 0x6a, 0x67, 0xed, 0x43);
  }

  lemma HashOfHello(key: seq<byte>)
    requires key == [0x68, 0x65, 0x6c, 0x6c, 0x6f]
    ensures Hash(key, 0) == 0x248bfa47
  {
    var mem: seq<bv8> := [0x68, 0x65, 0x6c, 0x6c, 0x6f];
    assert Memory(key) == mem;
    BlockAndTail(mem);
    HashFrom(key, mem, 5, 0x47, 0xfa, 0x8b, 0x24);
  }
}
