/** Where log entries lie in the registered buffer and how they are encoded.
    Writer and reader share these functions.  The number of aligned words is a
    parameter; `SCOT_ALIGN_COUNTS` and `SCOT_BUFFER_SZ` are the values compiled in. */
module LogLayout {
  import opened Bytes
  import opened Messages

  const SCOT_BUFFER_SZ := 2147483647
  const SCOT_LOGHEADER_RESERVED := 4
  const SCOT_ALIGN_COUNTS := SCOT_BUFFER_SZ / 32 - SCOT_LOGHEADER_RESERVED
  const SCOT_LOGENTRY_CANARY: byte := 36

  const WORD_SZ := 4
  const HEADER_SZ := 8

  type uint16 = x: int | 0 <= x < 0x1_0000

  /** One log entry.  `size` is the header's `buf_sz`. */
  datatype Record = Record(hashv: word, size: uint16, inst: byte, msg: byte, payload: seq<byte>)

  /** A buffer of `len` bytes takes `counts` aligned words behind the reserved
      ones, and the longest entry even if it starts at the last of them. */
  predicate Layout(counts: nat, len: nat) {
    && counts >= 1 && counts + 0x1_0000 < 0x1_0000_0000
    && Offset(counts - 1) + HEADER_SZ + 0x1_0000 <= len
  }

  lemma CompiledLayout()
    ensures Layout(SCOT_ALIGN_COUNTS, SCOT_BUFFER_SZ)
    ensures SCOT_ALIGN_COUNTS == 67108859 && Offset(0) == 16
  {
  }

  /** The byte position of aligned word `idx`. */
  function Offset(idx: nat): nat {
    WORD_SZ * (SCOT_LOGHEADER_RESERVED + idx)
  }

  // -------- Sizes --------

  /** How many words `bufSz` bytes take; the argument and the rounding are 16 bits wide. */
  function Take(bufSz: nat): nat {
    var sz := bufSz % 0x1_0000;
    var rounded := if sz % WORD_SZ != 0 then (sz + WORD_SZ) % 0x1_0000 else sz;
    rounded / WORD_SZ
  }

  function NextAlignedIdx(cur: nat, bufSz: nat, counts: nat): nat {
    var next := (cur + Take(bufSz)) % 0x1_0000_0000;
    if next > counts - 1 then 0 else next
  }

  /** The word after an entry that starts at `idx` and has a payload of `size` bytes. */
  function After(idx: nat, size: nat, counts: nat): nat {
    NextAlignedIdx(idx + HEADER_SZ / WORD_SZ, size + 1, counts)
  }

  /** Payload and canary of an entry get just as many words as they need if and
      only if the payload has at most 65531 bytes. */
  lemma TakeIsCeiling(size: uint16)
    ensures WORD_SZ * (Take(size + 1) - 1) < size + 1 <= WORD_SZ * Take(size + 1) <==> size <= 65531
  {
  }

  /** The log goes on behind the entry, and wraps exactly if no aligned word is left
      there.  Of a payload above 65531 bytes only the header is counted. */
  lemma AfterValue(idx: nat, size: uint16, counts: nat)
    requires counts + 0x1_0000 < 0x1_0000_0000 && idx < counts
    ensures var next := idx + 2 + if size <= 65531 then (size + 4) / 4 else 0;
            After(idx, size, counts) == if next < counts then next else 0
  {
    TakeIsCeiling(size);
  }

  lemma AfterExact(idx: nat, size: nat, counts: nat)
    requires counts + 0x1_0000 < 0x1_0000_0000 && idx < counts && size <= 65531
    ensures After(idx, size, counts) < counts
    ensures After(idx, size, counts) != 0 ==> idx + 2 < After(idx, size, counts)
    ensures After(idx, size, counts) != 0 ==>
              var end := Offset(idx) + HEADER_SZ + size + 1;
              end <= Offset(After(idx, size, counts)) < end + WORD_SZ
  {
    TakeIsCeiling(size);
  }

  /** The index of entry `k` of a log whose entries have the payload sizes `sizes`. */
  function IdxOf(sizes: seq<uint16>, counts: nat, k: nat): nat
    requires k <= |sizes|
  {
    if k == 0 then 0 else After(IdxOf(sizes, counts, k - 1), sizes[k - 1], counts)
  }

  lemma {:induction false} IdxInArray(sizes: seq<uint16>, counts: nat, k: nat)
    requires counts >= 1 && k <= |sizes|
    ensures IdxOf(sizes, counts, k) < counts
  {
  }

  /** Every byte of every entry stays inside the buffer, also when the entry runs past the aligned words. */
  lemma EntryInBuffer(sizes: seq<uint16>, counts: nat, len: nat, k: nat)
    requires Layout(counts, len) && k < |sizes|
    ensures SCOT_LOGHEADER_RESERVED * WORD_SZ <= Offset(IdxOf(sizes, counts, k))
    ensures Offset(IdxOf(sizes, counts, k)) + HEADER_SZ + sizes[k] + 1 <= len
  {
    IdxInArray(sizes, counts, k);
  }

  /** The log does not wrap between entries `i` and `j`. */
  predicate SameLap(sizes: seq<uint16>, counts: nat, i: nat, j: nat)
    requires j <= |sizes|
  {
    forall m :: i < m <= j ==> IdxOf(sizes, counts, m) != 0
  }

  /** Within one lap the entries follow each other without overlap. */
  lemma {:induction false} LapDisjoint(sizes: seq<uint16>, counts: nat, i: nat, j: nat)
    requires 1 <= counts && counts + 0x1_0000 < 0x1_0000_0000
    requires i < j <= |sizes| && SameLap(sizes, counts, i, j)
    requires forall m :: i <= m < j ==> sizes[m] <= 65531
    ensures Offset(IdxOf(sizes, counts, i)) + HEADER_SZ + sizes[i] + 1 <= Offset(IdxOf(sizes, counts, j))
    decreases j
  {
    IdxInArray(sizes, counts, j - 1);
    AfterExact(IdxOf(sizes, counts, j - 1), sizes[j - 1], counts);
    if i < j - 1 {
      LapDisjoint(sizes, counts, i, j - 1);
    }
  }

  /** A longer payload makes the next entry overwrite the end of this one, unless the log wraps. */
  lemma LongPayloadOverlaps(idx: nat, size: uint16, counts: nat)
    requires counts + 0x1_0000 < 0x1_0000_0000 && idx < counts && size > 65531
    requires After(idx, size, counts) != 0
    ensures Offset(After(idx, size, counts)) < Offset(idx) + HEADER_SZ + size + 1
  {
  }

  // -------- Encoding --------

  function HashAt(mem: seq<byte>, off: nat): word
    requires off + HEADER_SZ <= |mem|
  {
    PowValues();
    LeValue(mem[off..off + 4])
  }

  function SizeAt(mem: seq<byte>, off: nat): uint16
    requires off + HEADER_SZ <= |mem|
  {
    PowValues();
    LeValue(mem[off + 4..off + 6])
  }

  function HeaderBytes(hashv: word, size: uint16, inst: byte, msg: byte): (h: seq<byte>)
    ensures |h| == HEADER_SZ
  {
    LeBytes(hashv, 4) + LeBytes(size, 2) + [inst, msg]
  }

  /** The header byte by byte, as the structure in C lies in memory. */
  lemma HeaderBytesAre(hashv: word, size: uint16, inst: byte, msg: byte)
    ensures HeaderBytes(hashv, size, inst, msg) ==
            [hashv % 256, hashv / 0x100 % 256, hashv / 0x1_0000 % 256, hashv / 0x100_0000,
             size % 256, size / 256, inst, msg]
  {
    BytesOfFour(hashv);
    BytesOfTwo(size);
  }

  /** All an entry is made of: header, payload, canary. */
  function Encode(r: Record): (e: seq<byte>)
    ensures |e| == HEADER_SZ + |r.payload| + 1
  {
    HeaderBytes(r.hashv, r.size, r.inst, r.msg) + r.payload + [SCOT_LOGENTRY_CANARY]
  }

  /** Eight bytes of header, the payload, and the canary right behind it. */
  lemma EncodeAt(r: Record)
    ensures Encode(r)[..8] == HeaderBytes(r.hashv, r.size, r.inst, r.msg)
    ensures forall i :: 0 <= i < |r.payload| ==> Encode(r)[8 + i] == r.payload[i]
    ensures Encode(r)[8 + |r.payload|] == 36
  {
  }

  /** The bitwise and of `a` and `b` is not 0. */
  predicate ShareBit(a: nat, b: nat) {
    a != 0 && b != 0 && ((a % 2 == 1 && b % 2 == 1) || ShareBit(a / 2, b / 2))
  }

  /** The replayer's mask hears a byte with one of the two lowest bits, the receiver's
      one with one of the two next: of the message types PURE and ACK, and WAIT and HDRONLY. */
  lemma MasksHear(msg: byte)
    ensures MSG_NONE == 0 && MSG_ACK == 1 && MSG_PURE == 2 && MSG_WAIT == 4 && MSG_HDRONLY == 8
    ensures ShareBit(msg, MSG_PURE + MSG_ACK) <==> msg % 4 != 0
    ensures ShareBit(msg, MSG_WAIT + MSG_HDRONLY) <==> msg / 4 % 4 != 0
    ensures ShareBit(MSG_ACK, MSG_PURE + MSG_ACK) && ShareBit(MSG_PURE, MSG_PURE + MSG_ACK)
    ensures !ShareBit(MSG_WAIT, MSG_PURE + MSG_ACK) && !ShareBit(MSG_HDRONLY, MSG_PURE + MSG_ACK)
    ensures ShareBit(MSG_WAIT, MSG_WAIT + MSG_HDRONLY) && ShareBit(MSG_HDRONLY, MSG_WAIT + MSG_HDRONLY)
    ensures !ShareBit(MSG_ACK, MSG_WAIT + MSG_HDRONLY) && !ShareBit(MSG_PURE, MSG_WAIT + MSG_HDRONLY)
  {
    var half, quarter := msg / 2, msg / 4;
    assert ShareBit(msg, 3) <==> msg != 0 && (msg % 2 == 1 || ShareBit(half, 1));
    assert ShareBit(half, 1) <==> half % 2 == 1;
    assert ShareBit(msg, 12) <==> msg != 0 && ShareBit(half, 6);
    assert ShareBit(half, 6) <==> half != 0 && ShareBit(quarter, 3);
    assert ShareBit(quarter, 3) <==> quarter != 0 && (quarter % 2 == 1 || ShareBit(quarter / 2, 1));
    assert ShareBit(quarter / 2, 1) <==> quarter / 2 % 2 == 1;
  }

  /** What one look of the reader at an entry gives. */
  datatype Look = Spin | Got(rec: Record)

  /** One pass over the two conditions the reader waits for: a message byte it
      listens to, then, unless only a header is sent, the canary. */
  function LookAt(mem: seq<byte>, off: nat, mask: byte): (l: Look)
    requires off + HEADER_SZ + 0x1_0000 <= |mem|
  {
    var msg := mem[off + 7];
    var size := SizeAt(mem, off);
    if !ShareBit(msg, mask) then Spin
    else if msg == MSG_HDRONLY then Got(Record(HashAt(mem, off), size, mem[off + 6], msg, []))
    else if mem[off + HEADER_SZ + size] != SCOT_LOGENTRY_CANARY then Spin
    else Got(Record(HashAt(mem, off), size, mem[off + 6], msg, mem[off + HEADER_SZ..off + HEADER_SZ + size]))
  }

  /** The reader takes an entry exactly if its message byte is heard and it is a bare
      header or has a canary right behind the payload, and takes it byte for byte. */
  lemma LookIs(mem: seq<byte>, off: nat, mask: byte)
    requires off + HEADER_SZ + 0x1_0000 <= |mem|
    ensures var size, msg := Two(mem[off + 4], mem[off + 5]), mem[off + 7];
            && (LookAt(mem, off, mask).Got? <==> ShareBit(msg, mask) && (msg == MSG_HDRONLY || Ended(mem, off, size)))
            && (LookAt(mem, off, mask).Got? ==>
                  var rec := LookAt(mem, off, mask).rec;
                  && rec.hashv == Four(mem[off], mem[off + 1], mem[off + 2], mem[off + 3])
                  && rec.size == size && rec.inst == mem[off + 6] && rec.msg == msg
                  && rec.payload == if msg == MSG_HDRONLY then [] else mem[off + 8..off + 8 + size])
  {
    LeFour(mem[off..off + 4]);
    LeTwo(mem[off + 4..off + 6]);
  }

  /** The byte behind a payload of `size` bytes is 36. */
  predicate Ended(mem: seq<byte>, off: nat, size: nat) {
    off + 8 + size < |mem| && mem[off + 8 + size] == 36
  }

  /** `mem` after `data` has been copied to `off`, byte by byte. */
  function Overlay(mem: seq<byte>, off: nat, data: seq<byte>): (m: seq<byte>)
    requires off + |data| <= |mem|
    ensures |m| == |mem|
  {
    if data == [] then mem
    else Overlay(mem, off, data[..|data| - 1])[off + |data| - 1 := data[|data| - 1]]
  }

  lemma {:induction false} OverlayAt(mem: seq<byte>, off: nat, data: seq<byte>)
    requires off + |data| <= |mem|
    ensures forall i :: 0 <= i < |mem| ==>
                          Overlay(mem, off, data)[i] == if off <= i < off + |data| then data[i - off] else mem[i]
  {
    if data != [] {
      OverlayAt(mem, off, data[..|data| - 1]);
    }
  }

  /** Writing header, payload and canary one after the other writes the entry. */
  lemma EncodeInParts(mem: seq<byte>, off: nat, r: Record)
    requires off + HEADER_SZ + |r.payload| + 1 <= |mem|
    ensures var m1 := Overlay(mem, off, HeaderBytes(r.hashv, r.size, r.inst, r.msg));
            var m2 := Overlay(m1, off + HEADER_SZ, r.payload);
            Overlay(m2, off + HEADER_SZ + |r.payload|, [SCOT_LOGENTRY_CANARY]) == Overlay(mem, off, Encode(r))
  {
    OverlayTwice(mem, off, HeaderBytes(r.hashv, r.size, r.inst, r.msg), r.payload);
    OverlayTwice(mem, off, HeaderBytes(r.hashv, r.size, r.inst, r.msg) + r.payload, [SCOT_LOGENTRY_CANARY]);
  }

  lemma {:induction false} OverlayTwice(mem: seq<byte>, off: nat, a: seq<byte>, b: seq<byte>)
    requires off + |a| + |b| <= |mem|
    ensures Overlay(Overlay(mem, off, a), off + |a|, b) == Overlay(mem, off, a + b)
  {
    if b == [] {
      assert a + b == a;
    } else {
      OverlayTwice(mem, off, a, b[..|b| - 1]);
      assert (a + b)[..|a + b| - 1] == a + b[..|b| - 1];
    }
  }

  /** The memory after the reader took an entry: the canary, if there is one, is reset. */
  function Taken(mem: seq<byte>, off: nat, r: Record): (m: seq<byte>)
    requires off + HEADER_SZ + 0x1_0000 <= |mem|
    ensures |m| == |mem|
  {
    if r.msg == MSG_HDRONLY then mem else mem[off + HEADER_SZ + r.size := 0]
  }

  /** Taking an entry sets its canary to 0 and no other byte. */
  lemma TakenAt(mem: seq<byte>, off: nat, r: Record)
    requires off + HEADER_SZ + 0x1_0000 <= |mem|
    ensures var m := Taken(mem, off, r);
            forall i :: 0 <= i < |mem| ==>
                          m[i] == if i == off + HEADER_SZ + r.size && r.msg != MSG_HDRONLY then 0 else mem[i]
  {
  }

  /** So the entry is not taken a second time, unless it came without a canary. */
  lemma TakenOnce(mem: seq<byte>, off: nat, mask: byte)
    requires off + HEADER_SZ + 0x1_0000 <= |mem| && LookAt(mem, off, mask).Got?
    ensures var r := LookAt(mem, off, mask).rec;
            LookAt(Taken(mem, off, r), off, mask) == if r.msg == MSG_HDRONLY then Got(r) else Spin
  {
    var r := LookAt(mem, off, mask).rec;
    var m := Taken(mem, off, r);
    assert m[off..off + 4] == mem[off..off + 4] && m[off + 4..off + 6] == mem[off + 4..off + 6];
  }

  function RecordOf(req: Request, inst: byte): Record
    requires |req.payload| < 0x1_0000
  {
    Record(req.hashv, |req.payload|, inst, req.msg, req.payload)
  }

  /** `mem'` is `mem` with the entry for `req` written to `off`. */
  ghost predicate Appended(mem: seq<byte>, mem': seq<byte>, off: nat, req: Request, inst: byte) {
    && |req.payload| < 0x1_0000
    && off + |Encode(RecordOf(req, inst))| <= |mem| && mem' == Overlay(mem, off, Encode(RecordOf(req, inst)))
  }

  lemma OverlaySlice(mem: seq<byte>, off: nat, data: seq<byte>)
    requires off + |data| <= |mem|
    ensures Overlay(mem, off, data)[off..off + |data|] == data
  {
    OverlayAt(mem, off, data);
  }

  /** A remote write: `data` to position `offset` of the log that node `nid` keeps for the sender. */
  datatype RemoteWrite = RemoteWrite(nid: nat, offset: nat, data: seq<byte>)

  /** One write of `data` to each node of `quorum`, in this order. */
  ghost predicate SentToAll(posts: seq<RemoteWrite>, quorum: seq<nat>, offset: nat, data: seq<byte>) {
    && |posts| == |quorum|
    && forall q :: 0 <= q < |quorum| ==> posts[q] == RemoteWrite(quorum[q], offset, data)
  }

  /** A complete entry is read back as it was written, whatever its payload holds. */
  lemma EncodeLook(mem: seq<byte>, off: nat, mask: byte, r: Record)
    requires off + HEADER_SZ + 0x1_0000 <= |mem| && |r.payload| == r.size
    requires ShareBit(r.msg, mask) && r.msg != MSG_HDRONLY
    ensures LookAt(Overlay(mem, off, Encode(r)), off, mask) == Got(r)
  {
    var m := Overlay(mem, off, Encode(r));
    OverlayAt(mem, off, Encode(r));
    assert m[off..off + HEADER_SZ] == HeaderBytes(r.hashv, r.size, r.inst, r.msg);
    HeaderLook(m, off, r);
    assert m[off + HEADER_SZ..off + HEADER_SZ + r.size] == r.payload;
  }

  lemma HeaderLook(mem: seq<byte>, off: nat, r: Record)
    requires off + HEADER_SZ <= |mem| && mem[off..off + HEADER_SZ] == HeaderBytes(r.hashv, r.size, r.inst, r.msg)
    ensures HashAt(mem, off) == r.hashv && SizeAt(mem, off) == r.size
    ensures mem[off + 6] == r.inst && mem[off + 7] == r.msg
  {
    var h := mem[off..off + HEADER_SZ];
    assert mem[off..off + 4] == h[..4] == LeBytes(r.hashv, 4);
    assert h[4] == mem[off + 4] && h[5] == mem[off + 5];
    assert mem[off + 4..off + 6] == [h[4], h[5]] == LeBytes(r.size, 2);
    assert h[6] == mem[off + 6] && h[7] == mem[off + 7];
    PowValues();
    LeRoundTrip(r.hashv, 4);
    LeRoundTrip(r.size, 2);
  }
}
