/** The checker, the receiver, the replayer and the dispatch of proposals, each
    run alone on the logs it works with.  A receiver or replayer method is one turn
    of the worker's endless loop. */
module Workers {
  import opened Messages
  import opened LogLayout
  import opened MessageLog
  import opened SequentialReplicator
  import Channel = LogChannel
  import Channels = ClusterChannels

  /** What the checker sends to node `nid` when `owner` owns the hash. */
  function CheckerMessage(rec: Record, nid: nat, owner: nat): Record {
    rec.(msg := if nid == owner then MSG_WAIT else MSG_HDRONLY)
  }

  /** To each node of `quorum` what the checker sends it of `rec`, in this order. */
  ghost predicate Forwarded(posts: seq<RemoteWrite>, quorum: seq<nat>, owner: nat, offset: nat, rec: Record) {
    && |posts| == |quorum|
    && forall q :: 0 <= q < |quorum| ==>
         posts[q] == RemoteWrite(quorum[q], offset, Channel.WireBytes(CheckerMessage(rec, quorum[q], owner)))
  }

  /** The owner of the hash gets all of the message as WAIT, everybody else eight bytes of header as HDRONLY. */
  lemma ForwardedBytes(posts: seq<RemoteWrite>, quorum: seq<nat>, owner: nat, offset: nat, rec: Record, q: nat)
    requires Forwarded(posts, quorum, owner, offset, rec) && q < |quorum|
    ensures posts[q].nid == quorum[q] && posts[q].offset == offset
    ensures posts[q].data == if quorum[q] == owner then Encode(rec.(msg := MSG_WAIT))
                             else HeaderBytes(rec.hashv, rec.size, rec.inst, MSG_HDRONLY)
  {
  }

  /** These are the bytes of the message that the cluster machine addresses to the node. */
  lemma ForwardedIsAddressed(posts: seq<RemoteWrite>, quorum: seq<nat>, rule: nat -> nat, offset: nat, req: Request,
                             inst: byte, q: nat)
    requires |req.payload| < 0x1_0000 && q < |quorum|
    requires Forwarded(posts, quorum, rule(req.hashv), offset, RecordOf(req, inst))
    ensures posts[q].data == Channel.WireBytes(RecordOf(Channels.Addressed(rule, quorum[q], req), inst))
  {
  }

  class ScotChecker {
    const slot: ScotSlot
    const log: ScotLog
    var wait_hashv: word
    var wait_lock: bool
    ghost var written: nat                // how many requests were written

    ghost predicate Valid()
      reads this, slot, log
    {
      slot.Valid() && log.Valid() && slot.next_free == slot.processed == Turn(written, slot.counts)
    }

    constructor (addr: array<byte>, aligns: nat, slots: nat)
      requires Layout(aligns, addr.Length) && slots > 0
      modifies addr
      ensures Valid() && written == 0 && log.log == addr && slot.counts == slots && wait_hashv == 0 && !wait_lock
    {
      slot := new ScotSlot(slots);
      log := new ScotLog(addr, aligns);
      wait_hashv, wait_lock, written := 0, false, 0;
    }

    /** Takes a slot, logs a message once and posts it to every other node: all of it
        as WAIT to the owner, and just the header as HDRONLY to the others.  The
        message byte in the own log is rewritten before each post.  Waiting is one
        test-and-set, so nothing blocks here.  Write number `i` gets slot `Turn(i)`;
        completing a round wipes the slots. */
    method WriteRequest(req: Request, owner: nat, quorum: seq<nat>) returns (index: nat, posts: seq<RemoteWrite>)
      requires Valid() && |req.payload| < 0x1_0000 && req.msg == MSG_WAIT
      modifies this, slot, slot.slot, slot.args, slot.ready, log, log.log
      ensures Valid() && written == old(written) + 1 && wait_hashv == 0 && wait_lock
      ensures index == Turn(old(written), slot.counts)
      ensures log.next_free == LogLayout.After(old(log.next_free), |req.payload|, log.counts)
      ensures log.instn == (old(log.instn) + 1) % 256
      ensures Forwarded(posts, quorum, owner, Offset(old(log.next_free)), RecordOf(req, old(log.instn)))
    {
      var granted;
      granted, index := slot.RegisterEntry(req);
      posts := LogAndSend(slot.args[index], owner, quorum);
      wait_lock := true;
      wait_hashv := 0;
      var reset := slot.MarkEntryFinished(index, index, null);
      written := written + 1;
    }

    method LogAndSend(req: Request, owner: nat, quorum: seq<nat>) returns (posts: seq<RemoteWrite>)
      requires log.Valid() && |req.payload| < 0x1_0000 && req.msg == MSG_WAIT
      modifies this`wait_hashv, log, log.log
      ensures log.Valid() && wait_hashv == req.hashv
      ensures log.next_free == LogLayout.After(old(log.next_free), |req.payload|, log.counts)
      ensures log.instn == (old(log.instn) + 1) % 256
      ensures Forwarded(posts, quorum, owner, Offset(old(log.next_free)), RecordOf(req, old(log.instn)))
    {
      ghost var rec := RecordOf(req, log.instn);
      ghost var mem := log.log[..];
      var header := log.WriteLocalLog(req);
      OverlaySlice(mem, header, Encode(rec));
      wait_hashv := req.hashv;
      posts := PostAll(header, |req.payload|, rec, owner, quorum);
    }

    method PostAll(header: nat, size: uint16, ghost rec: Record, owner: nat, quorum: seq<nat>)
      returns (posts: seq<RemoteWrite>)
      requires |rec.payload| == size && header + HEADER_SZ + size + 1 <= log.log.Length
      requires log.log[header..header + HEADER_SZ + size + 1] == Encode(rec)
      modifies log.log
      ensures Forwarded(posts, quorum, owner, header, rec)
    {
      posts := [];
      ghost var now := rec;
      for n := 0 to |quorum|
        invariant |posts| == n && now == rec.(msg := now.msg)
        invariant log.log[header..header + HEADER_SZ + size + 1] == Encode(now)
        invariant forall q :: 0 <= q < n ==>
                    posts[q] == RemoteWrite(quorum[q], header, Channel.WireBytes(CheckerMessage(rec, quorum[q], owner)))
      {
        var post := PostOne(header, size, now, owner, quorum[n]);
        posts := posts + [post];
        now := CheckerMessage(now, quorum[n], owner);
      }
    }

    /** Sets the message byte for the destination and posts all bytes or just the header. */
    method PostOne(header: nat, size: uint16, ghost rec: Record, owner: nat, nid: nat) returns (post: RemoteWrite)
      requires |rec.payload| == size && header + HEADER_SZ + size + 1 <= log.log.Length
      requires log.log[header..header + HEADER_SZ + size + 1] == Encode(rec)
      modifies log.log
      ensures log.log[header..header + HEADER_SZ + size + 1] == Encode(CheckerMessage(rec, nid, owner))
      ensures post == RemoteWrite(nid, header, Channel.WireBytes(CheckerMessage(rec, nid, owner)))
    {
      var msg := if nid == owner then MSG_WAIT else MSG_HDRONLY;
      log.log[header + 7] := msg;
      ghost var all := log.log[header..header + HEADER_SZ + size + 1];
      assert all == Encode(rec)[7 := msg] == Encode(rec.(msg := msg));
      if nid == owner {
        post := RemoteWrite(nid, header, log.log[header..header + HEADER_SZ + size + 1]);
      } else {
        assert log.log[header..header + HEADER_SZ] == all[..HEADER_SZ];
        post := RemoteWrite(nid, header, log.log[header..header + HEADER_SZ]);
      }
    }

    method ReleaseWait(hashv: word)
      modifies this`wait_lock
      ensures wait_lock == (old(wait_lock) && hashv != wait_hashv)
    {
      if wait_hashv == hashv {
        wait_lock := false;
      }
    }
  }

  class ScotReplayer {
    const log: ScotLog
    const chkr: ScotChecker

    constructor (addr: array<byte>, aligns: nat, chkr: ScotChecker)
      requires Layout(aligns, addr.Length)
      modifies addr
      ensures log.Valid() && log.log == addr && this.chkr == chkr
    {
      log := new ScotLog(addr, aligns);
      this.chkr := chkr;
    }

    /** Takes a PURE or ACK record if one is complete, releases the checker for an
        ACK of the hash it waits for, and clears the message byte. */
    method Turn() returns (found: bool, header: nat)
      requires log.Valid() && log != chkr.log
      modifies log`next_free, log`instn, log.log, chkr`wait_lock
      ensures log.Valid() && header == Offset(old(log.next_free))
      ensures found <==> LookAt(old(log.log[..]), header, MSG_PURE + MSG_ACK).Got?
      ensures !found ==> log.log[..] == old(log.log[..]) && log.next_free == old(log.next_free)
      ensures !found ==> chkr.wait_lock == old(chkr.wait_lock)
      ensures found ==> var rec := LookAt(old(log.log[..]), header, MSG_PURE + MSG_ACK).rec;
                        && log.log[..] == Taken(old(log.log[..]), header, rec)[header + 7 := MSG_NONE]
                        && log.next_free == LogLayout.After(old(log.next_free), rec.size, log.counts)
                        && chkr.wait_lock ==
                           (old(chkr.wait_lock) && !(rec.msg == MSG_ACK && rec.hashv == chkr.wait_hashv))
    {
      found, header := log.PollOnce(MSG_PURE + MSG_ACK);
      if found {
        TakenKeepsHeader(old(log.log[..]), header, LookAt(old(log.log[..]), header, MSG_PURE + MSG_ACK).rec);
        if log.log[header + 7] == MSG_ACK {
          chkr.ReleaseWait(HashAt(log.log[..], header));
        }
        log.ClearMessage(header);
      }
    }
  }

  class ScotReceiver {
    const log: ScotLog
    const rpli: ScotReplicator

    constructor (addr: array<byte>, aligns: nat, rpli: ScotReplicator)
      requires Layout(aligns, addr.Length)
      modifies addr
      ensures log.Valid() && log.log == addr && this.rpli == rpli
    {
      log := new ScotLog(addr, aligns);
      this.rpli := rpli;
    }

    /** Takes a WAIT message or a bare header.  A WAIT is written to the replicator
        as ACK, with the payload that was sent, and so sent to all other nodes, and its
        message byte is cleared; a bare header is only passed over.  `id` is history. */
    method Turn(id: nat, quorum: seq<nat>) returns (found: bool, header: nat, posts: seq<RemoteWrite>)
      requires log.Valid() && rpli.Valid() && log != rpli.log && log.log != rpli.log.log
      modifies log`next_free, log`instn, log.log
      modifies rpli`written, rpli.slot, rpli.slot.slot, rpli.slot.args, rpli.slot.ready
      modifies rpli.hasht, rpli.hasht.bucket, rpli.log, rpli.log.log
      ensures log.Valid() && rpli.Valid() && header == Offset(old(log.next_free))
      ensures found <==> LookAt(old(log.log[..]), header, MSG_WAIT + MSG_HDRONLY).Got?
      ensures !found ==> log.log[..] == old(log.log[..]) && log.next_free == old(log.next_free)
      ensures found ==> var size := LookAt(old(log.log[..]), header, MSG_WAIT + MSG_HDRONLY).rec.size;
                        log.next_free == LogLayout.After(old(log.next_free), size, log.counts)
      ensures var look := LookAt(old(log.log[..]), header, MSG_WAIT + MSG_HDRONLY);
              if found && look.rec.msg == MSG_WAIT then
                var req := Request(look.rec.hashv, look.rec.payload, MSG_ACK, id);
                && log.log[..] == Taken(old(log.log[..]), header, look.rec)[header + 7 := MSG_NONE]
                && rpli.written == old(rpli.written) + 1
                && Appended(old(rpli.log.log[..]), rpli.log.log[..], Offset(old(rpli.log.next_free)), req,
                   old(rpli.log.instn))
                && SentToAll(posts, quorum, Offset(old(rpli.log.next_free)), Encode(RecordOf(req, old(rpli.log.instn))))
              else
                && (found ==> log.log[..] == Taken(old(log.log[..]), header, look.rec))
                && rpli.written == old(rpli.written) && rpli.log.log[..] == old(rpli.log.log[..]) && posts == []
    {
      found, header := log.PollOnce(MSG_WAIT + MSG_HDRONLY);
      posts := [];
      if found {
        ghost var rec := LookAt(old(log.log[..]), header, MSG_WAIT + MSG_HDRONLY).rec;
        TakenKeepsHeader(old(log.log[..]), header, rec);
        if log.log[header + 7] == MSG_WAIT {
          posts := Answer(header, rec, id, quorum);
        }
      }
    }

    /** Writes the WAIT message at `header` to the replicator as ACK and clears it. */
    method Answer(header: nat, ghost rec: Record, id: nat, quorum: seq<nat>) returns (posts: seq<RemoteWrite>)
      requires rpli.Valid() && log != rpli.log && log.log != rpli.log.log
      requires header + HEADER_SZ + rec.size <= log.log.Length
      requires rec.hashv == HashAt(log.log[..], header) && rec.size == SizeAt(log.log[..], header)
      requires rec.payload == log.log[header + HEADER_SZ..header + HEADER_SZ + rec.size]
      modifies log.log
      modifies rpli`written, rpli.slot, rpli.slot.slot, rpli.slot.args, rpli.slot.ready
      modifies rpli.hasht, rpli.hasht.bucket, rpli.log, rpli.log.log
      ensures rpli.Valid() && log.log[..] == old(log.log[..])[header + 7 := MSG_NONE]
      ensures rpli.written == old(rpli.written) + 1
      ensures var req := Request(rec.hashv, rec.payload, MSG_ACK, id);
              && Appended(old(rpli.log.log[..]), rpli.log.log[..], Offset(old(rpli.log.next_free)), req,
                          old(rpli.log.instn))
              && SentToAll(posts, quorum, Offset(old(rpli.log.next_free)), Encode(RecordOf(req, old(rpli.log.instn))))
    {
      var size := SizeAt(log.log[..], header);
      var payload := log.log[header + HEADER_SZ..header + HEADER_SZ + size];
      var req := Request(HashAt(log.log[..], header), payload, MSG_ACK, id);
      var index, head, reset;
      index, head, posts, reset := rpli.WriteRequest(req, quorum);
      log.ClearMessage(header);
    }
  }

  /** Resetting the canary leaves header and payload of the entry in place. */
  lemma TakenKeepsHeader(mem: seq<byte>, off: nat, r: Record)
    requires off + HEADER_SZ + 0x1_0000 <= |mem|
    ensures var m := Taken(mem, off, r);
            && HashAt(m, off) == HashAt(mem, off) && SizeAt(m, off) == SizeAt(mem, off) && m[off + 7] == mem[off + 7]
            && m[off + HEADER_SZ..off + HEADER_SZ + r.size] == mem[off + HEADER_SZ..off + HEADER_SZ + r.size]
  {
    var m := Taken(mem, off, r);
    assert m[off..off + 4] == mem[off..off + 4] && m[off + 4..off + 6] == mem[off + 4..off + 6];
  }

  class ScotCore {
    const nid: nat
    const rpli: ScotReplicator
    const chkr: ScotChecker
    const quorum: seq<nat>                // the other nodes

    /** The two writers share nothing. */
    ghost predicate Apart()
      reads this, rpli, rpli.slot, rpli.log, chkr, chkr.slot, chkr.log
    {
      && rpli.log != chkr.log && rpli.log.log != chkr.log.log && rpli.slot != chkr.slot
      && rpli.slot.slot != chkr.slot.slot && rpli.slot.args != chkr.slot.args && rpli.slot.ready != chkr.slot.ready
    }

    constructor (nid: nat, rpli: ScotReplicator, chkr: ScotChecker, quorum: seq<nat>)
      ensures this.nid == nid && this.rpli == rpli && this.chkr == chkr && this.quorum == quorum
    {
      this.nid, this.rpli, this.chkr, this.quorum := nid, rpli, chkr, quorum;
    }

    /** Exactly one of the two writers takes the proposal, by its owner. */
    method Propose(rule: word -> nat, hashv: word, payload: seq<byte>, id: nat) returns (posts: seq<RemoteWrite>)
      requires rpli.Valid() && chkr.Valid() && Apart() && |payload| < 0x1_0000
      modifies rpli`written, rpli.slot, rpli.slot.slot, rpli.slot.args, rpli.slot.ready
      modifies rpli.hasht, rpli.hasht.bucket, rpli.log, rpli.log.log
      modifies chkr, chkr.slot, chkr.slot.slot, chkr.slot.args, chkr.slot.ready, chkr.log, chkr.log.log
      ensures rpli.Valid() && chkr.Valid()
      ensures var req := Request(hashv, payload, MSG_PURE, id);
              rule(hashv) == nid ==>
                && chkr.log.log[..] == old(chkr.log.log[..]) && chkr.written == old(chkr.written)
                && rpli.written == old(rpli.written) + 1
                && Appended(old(rpli.log.log[..]), rpli.log.log[..], Offset(old(rpli.log.next_free)), req,
                   old(rpli.log.instn))
                && SentToAll(posts, quorum, Offset(old(rpli.log.next_free)), Encode(RecordOf(req, old(rpli.log.instn))))
      ensures var req := Request(hashv, payload, MSG_WAIT, id);
              rule(hashv) != nid ==>
                && rpli.log.log[..] == old(rpli.log.log[..]) && rpli.written == old(rpli.written)
                && chkr.written == old(chkr.written) + 1
                && Forwarded(posts, quorum, rule(hashv), Offset(old(chkr.log.next_free)),
                   RecordOf(req, old(chkr.log.instn)))
    {
      var owner := rule(hashv);
      if owner == nid {
        var index, header, reset;
        index, header, posts, reset := rpli.WriteRequest(Request(hashv, payload, MSG_PURE, id), quorum);
      } else {
        var index;
        index, posts := chkr.WriteRequest(Request(hashv, payload, MSG_WAIT, id), owner, quorum);
      }
    }
  }
}
