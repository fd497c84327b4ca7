/** Numbers as bytes, the lowest byte first. */
module Bytes {
  import opened Messages

  function Pow256(n: nat): nat {
    if n == 0 then 1 else 256 * Pow256(n - 1)
  }

  lemma PowValues()
    ensures Pow256(2) == 0x1_0000 && Pow256(4) == 0x1_0000_0000
  {
    assert Pow256(2) == 256 * Pow256(1) && Pow256(4) == 256 * Pow256(3);
  }

  lemma {:induction false} PowMono(a: nat, b: nat)
    requires a <= b
    ensures Pow256(a) <= Pow256(b)
  {
    if a < b {
      PowMono(a, b - 1);
    }
  }

  /** `w` in `n` bytes, the lowest first. */
  function LeBytes(w: nat, n: nat): (r: seq<byte>)
    ensures |r| == n
  {
    if n == 0 then [] else [w % 256] + LeBytes(w / 256, n - 1)
  }

  function LeValue(b: seq<byte>): (w: nat)
    ensures w < Pow256(|b|)
  {
    if b == [] then 0 else b[0] as int + 256 * LeValue(b[1..])
  }

  lemma {:induction false} LeRoundTrip(w: nat, n: nat)
    requires w < Pow256(n)
    ensures LeValue(LeBytes(w, n)) == w
  {
    if n > 0 {
      LeRoundTrip(w / 256, n - 1);
      assert LeBytes(w, n)[1..] == LeBytes(w / 256, n - 1);
    }
  }

  /** Byte strings of one length that stand for the same number are the same. */
  lemma {:induction false} LeInjective(a: seq<byte>, b: seq<byte>)
    requires |a| == |b| && LeValue(a) == LeValue(b)
    ensures a == b
  {
    if a != [] {
      LeInjective(a[1..], b[1..]);
      assert a == [a[0]] + a[1..] && b == [b[0]] + b[1..];
    }
  }

  // -------- Two and four bytes --------

  function Two(b0: byte, b1: byte): word {
    b0 + 256 * b1
  }

  function Four(b0: byte, b1: byte, b2: byte, b3: byte): word {
    b0 + 256 * (b1 + 256 * (b2 + 256 * b3))
  }

  lemma LeTwo(b: seq<byte>)
    requires |b| == 2
    ensures LeValue(b) == Two(b[0], b[1])
  {
    assert LeValue(b) == b[0] as int + 256 * LeValue(b[1..]);
    assert LeValue(b[1..]) == b[1] as int + 256 * LeValue(b[1..][1..]);
  }

  lemma LeFour(b: seq<byte>)
    requires |b| == 4
    ensures LeValue(b) == Four(b[0], b[1], b[2], b[3])
  {
    LeTwo(b[2..]);
    assert LeValue(b) == b[0] as int + 256 * LeValue(b[1..]);
    assert LeValue(b[1..]) == b[1] as int + 256 * LeValue(b[1..][1..]);
    assert b[1..][1..] == b[2..];
  }

  lemma BytesOfTwo(w: nat)
    ensures LeBytes(w, 2) == [w % 256, w / 256 % 256]
  {
    assert LeBytes(w, 2) == [w % 256] + LeBytes(w / 256, 1);
  }

  lemma BytesOfFour(w: nat)
    ensures LeBytes(w, 4) == [w % 256, w / 0x100 % 256, w / 0x1_0000 % 256, w / 0x100_0000 % 256]
  {
    BytesOfTwo(w / 256 / 256);
    assert LeBytes(w, 4) == [w % 256] + LeBytes(w / 256, 3);
    assert LeBytes(w / 256, 3) == [w / 256 % 256] + LeBytes(w / 256 / 256, 2);
  }
}
