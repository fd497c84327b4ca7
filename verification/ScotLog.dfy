/** The log in a registered buffer: the writer's appending and one pass of the reader's poll. */
module MessageLog {
  import opened Messages
  import opened LogLayout

  class ScotLog {
    const counts: nat
    const log: array<byte>
    var next_free: nat
    var instn: byte

    ghost predicate Valid()
      reads this
    {
      Layout(counts, log.Length) && next_free < counts
    }

    /** Clears the aligned log; the rest of the buffer is left as it is. */
    constructor (addr: array<byte>, counts: nat)
      requires Layout(counts, addr.Length)
      modifies addr
      ensures Valid() && log == addr && this.counts == counts && next_free == 0 && instn == 0
      ensures forall i :: 0 <= i < Offset(counts) ==> addr[i] == 0
      ensures forall i :: Offset(counts) <= i < addr.Length ==> addr[i] == old(addr[i])
    {
      this.counts := counts;
      log := addr;
      next_free, instn := 0, 0;
      new;
      for i := 0 to Offset(counts)
        invariant Valid() && next_free == 0 && instn == 0
        invariant forall k :: 0 <= k < i ==> addr[k] == 0
        invariant forall k :: i <= k < addr.Length ==> addr[k] == old(addr[k])
      {
        addr[i] := 0;
      }
    }

    /** Copies `data` to position `pos`. */
    method CopyTo(pos: nat, data: seq<byte>)
      requires pos + |data| <= log.Length
      modifies log
      ensures log[..] == Overlay(old(log[..]), pos, data)
    {
      for i := 0 to |data|
        invariant log[..] == Overlay(old(log[..]), pos, data[..i])
      {
        log[pos + i] := data[i];
        assert data[..i + 1][..i] == data[..i];
      }
      assert data[..|data|] == data;
    }

    /** `write_local_log`: appends one entry, whatever its payload, and moves on. */
    method WriteLocalLog(request: Request) returns (header: nat)
      requires Valid() && |request.payload| < 0x1_0000
      modifies this`next_free, this`instn, log
      ensures Valid()
      ensures header == Offset(old(next_free))
      ensures Appended(old(log[..]), log[..], header, request, old(instn))
      ensures next_free == LogLayout.After(old(next_free), |request.payload|, counts)
      ensures instn == (old(instn) + 1) % 256
    {
      header := Offset(next_free);
      WriteEntry(header, request);
      instn := (instn + 1) % 256;
      next_free := NextAlignedIdx(next_free + HEADER_SZ / WORD_SZ, |request.payload| + 1, counts);
    }

    /** Header, payload and canary, in this order. */
    method WriteEntry(header: nat, request: Request)
      requires |request.payload| < 0x1_0000 && header + HEADER_SZ + |request.payload| + 1 <= log.Length
      modifies log
      ensures Appended(old(log[..]), log[..], header, request, instn)
    {
      CopyTo(header, HeaderBytes(request.hashv, |request.payload|, instn, request.msg));
      CopyTo(header + HEADER_SZ, request.payload);
      CopyTo(header + HEADER_SZ + |request.payload|, [SCOT_LOGENTRY_CANARY]);
      EncodeInParts(old(log[..]), header, RecordOf(request, instn));
    }

    /** `poll_next_local_log` with one look at each of its two conditions: an entry is
        taken, its canary reset and the reader moved on; otherwise nothing happens. */
    method PollOnce(msgDetect: byte) returns (found: bool, header: nat)
      requires Valid()
      modifies this`next_free, this`instn, log
      ensures Valid() && header == Offset(old(next_free))
      ensures found <==> LookAt(old(log[..]), header, msgDetect).Got?
      ensures !found ==> log[..] == old(log[..]) && next_free == old(next_free) && instn == old(instn)
      ensures found ==> var rec := LookAt(old(log[..]), header, msgDetect).rec;
                        && log[..] == Taken(old(log[..]), header, rec)
                        && next_free == LogLayout.After(old(next_free), rec.size, counts)
                        && instn == (old(instn) + 1) % 256
    {
      var idx := next_free;
      header := Offset(idx);
      found := false;
      if !ShareBit(log[header + 7], msgDetect) {
        return;
      }
      idx := idx + HEADER_SZ / WORD_SZ;
      var size := SizeAt(log[..], header);
      if log[header + 7] != MSG_HDRONLY {
        if log[header + HEADER_SZ + size] != SCOT_LOGENTRY_CANARY {
          return;
        }
        log[header + HEADER_SZ + size] := 0;
      }
      next_free := NextAlignedIdx(idx, size as int + 1, counts);
      instn := (instn + 1) % 256;
      found := true;
    }

    /** What the owner of the reader does to an entry it has handled. */
    method ClearMessage(header: nat)
      requires header + 7 < log.Length
      modifies log
      ensures log[..] == old(log[..])[header + 7 := MSG_NONE]
    {
      log[header + 7] := MSG_NONE;
    }
  }
}
