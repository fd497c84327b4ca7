/** Facts about machine words that need no numbers: bytes in a word, shifts, rotations. */
module MachineWords {

  function RotateLeft15(x: bv32): bv32 { (x << 15) | (x >> 17) }
  function RotateLeft13(x: bv32): bv32 { (x << 13) | (x >> 19) }

  /** Four bytes as one word, the lowest first. */
  function Join(p: bv32, q: bv32, r: bv32, s: bv32): bv32 {
    p | (q << 8) | (r << 16) | (s << 24)
  }

  predicate AreBytes(p: bv32, q: bv32, r: bv32, s: bv32) {
    p <= 0xff && q <= 0xff && r <= 0xff && s <= 0xff
  }

  lemma JoinParts(p: bv32, q: bv32, r: bv32, s: bv32)
    requires AreBytes(p, q, r, s)
    ensures p == Join(p, q, r, s) & 0xff && q == (Join(p, q, r, s) >> 8) & 0xff
    ensures r == (Join(p, q, r, s) >> 16) & 0xff && s == Join(p, q, r, s) >> 24
  {
  }

  lemma JoinTail(p: bv32, q: bv32, r: bv32)
    requires AreBytes(p, q, r, 0)
    ensures Join(p, q, r, 0) == ((r << 16) ^ (q << 8)) ^ p
  {
  }

  lemma JoinRotated15(p: bv32, q: bv32, r: bv32, s: bv32)
    requires AreBytes(p, q, r, s)
    ensures Join((r >> 1) | ((s << 7) & 0xff), (s >> 1) | ((p << 7) & 0xff),
                 (p >> 1) | ((q << 7) & 0xff), (q >> 1) | ((r << 7) & 0xff)) == RotateLeft15(Join(p, q, r, s))
  {
  }

  lemma JoinRotated13(p: bv32, q: bv32, r: bv32, s: bv32)
    requires AreBytes(p, q, r, s)
    ensures Join((r >> 3) | ((s << 5) & 0xff), (s >> 3) | ((p << 5) & 0xff),
                 (p >> 3) | ((q << 5) & 0xff), (q >> 3) | ((r << 5) & 0xff)) == RotateLeft13(Join(p, q, r, s))
  {
  }

  lemma JoinShifted13(p: bv32, q: bv32, r: bv32, s: bv32)
    requires AreBytes(p, q, r, s)
    ensures Join((q >> 5) | ((r << 3) & 0xff), (r >> 5) | ((s << 3) & 0xff), s >> 5, 0) == Join(p, q, r, s) >> 13
  {
  }

  lemma JoinShifted16(p: bv32, q: bv32, r: bv32, s: bv32)
    requires AreBytes(p, q, r, s)
    ensures Join(r, s, 0, 0) == Join(p, q, r, s) >> 16
  {
  }

  lemma JoinSum(p: bv32, q: bv32, r: bv32, s: bv32)
    requires AreBytes(p, q, r, s)
    ensures Join(p, q, r, s) == p + (q + (r + s * 256) * 256) * 256
  {
  }

  lemma JoinAcross1(p: bv8, q: bv8)
    ensures ((p >> 1) | (q << 7)) as bv32 == ((p as bv32) >> 1) | (((q as bv32) << 7) & 0xff)
  {
  }

  lemma JoinAcross3(p: bv8, q: bv8)
    ensures ((p >> 3) | (q << 5)) as bv32 == ((p as bv32) >> 3) | (((q as bv32) << 5) & 0xff)
  {
  }

  lemma JoinAcross5(p: bv8, q: bv8)
    ensures ((p >> 5) | (q << 3)) as bv32 == ((p as bv32) >> 5) | (((q as bv32) << 3) & 0xff)
  {
  }
}
