/** The slot allocator and the replicator, run by one caller at a time. */
module SequentialReplicator {
  import opened EntryHeap
  import opened TableSpec
  import opened Chains
  import opened LockfreeTable
  import opened Messages
  import opened LogLayout
  import opened MessageLog
  import Arithmetic

  class ScotSlot {
    const counts: nat
    const slot: array<Entry>              // `next` and `hashv` of the entries
    const args: array<Request>            // the other arguments of the entries
    const ready: array<bool>
    var next_free: nat
    var processed: nat

    ghost predicate Valid()
      reads this
    {
      && counts > 0 && slot.Length == args.Length == ready.Length == counts
      && processed <= next_free
    }

    constructor (counts: nat)
      requires counts > 0
      ensures Valid() && this.counts == counts && next_free == 0 && processed == 0
      ensures fresh(slot) && fresh(args) && fresh(ready)
    {
      this.counts := counts;
      slot := new Entry[counts](_ => NO_ENTRY);
      args := new Request[counts](_ => NO_REQUEST);
      ready := new bool[counts](_ => false);
      next_free, processed := 0, 0;
    }

    /** The first turn of the wait for a slot: the counter moves on in any case, and
        a caller that gets no slot waits for the next epoch. */
    method RegisterEntry(sa: Request) returns (granted: bool, index: nat)
      requires Valid()
      modifies this`next_free, slot, args, ready
      ensures Valid() && index == old(next_free) && next_free == index + 1
      ensures granted <==> index < counts
      ensures granted ==> slot[..] == old(slot[..])[index := old(slot[index]).(hashv := sa.hashv)]
      ensures granted ==> args[..] == old(args[..])[index := sa] && ready[..] == old(ready[..])[index := true]
      ensures !granted ==> slot[..] == old(slot[..]) && args[..] == old(args[..]) && ready[..] == old(ready[..])
    {
      index := next_free;
      next_free := next_free + 1;
      granted := index < counts;
      if granted {
        slot[index] := slot[index].(hashv := sa.hashv);
        args[index] := sa;
        ready[index] := true;
      }
    }

    /** Counts an entry, with the first turn of the last holder's wait: if all slots
        are counted, the holder of the last one resets the table, if there is one, wipes
        the slots and opens a new epoch; otherwise it waits on. */
    method MarkEntryFinished(index: nat, procd: nat, ht: LockfreeMap?) returns (reset: bool)
      requires Valid() && index < counts && index < next_free && procd < counts && processed < next_free
      requires ht != null ==> ht.nelem == ht.bucket.Length > 0 && ht.slot == slot
      modifies this`next_free, this`processed, slot, args, ready, if ht == null then {} else {ht, ht.bucket}
      ensures Valid() && reset == (index == counts - 1 && old(processed) == counts - 1)
      ensures reset ==> next_free == 0 && processed == 0
      ensures reset ==> forall i :: 0 <= i < counts ==> slot[i] == NO_ENTRY && args[i] == NO_REQUEST && !ready[i]
      ensures reset && ht != null ==> ht.NothingRemoved() && ht.Contents() == map[] && ht.rank == map[]
      ensures !reset ==> next_free == old(next_free) && processed == old(processed) + 1
                         && ready[..] == old(ready[..])[procd := false] && args[..] == old(args[..])
                         && slot[..] == old(slot[..])
      ensures !reset && ht != null ==>
                && ht.Memory() == old(ht.Memory())
                && ht.rank == old(ht.rank) && ht.lists == old(ht.lists) && ht.published == old(ht.published)
    {
      processed := processed + 1;
      ready[procd] := false;
      reset := false;
      if index == counts - 1 && processed == counts {
        if ht != null {
          ht.Reset();
        }
        label Wiping:
        for i := 0 to counts
          modifies slot, args, ready
          invariant forall k :: 0 <= k < i ==> slot[k] == NO_ENTRY && args[k] == NO_REQUEST && !ready[k]
        {
          slot[i], args[i], ready[i] := NO_ENTRY, NO_REQUEST, false;
        }
        if ht != null {
          PrivateKept(old@Wiping(ht.Memory()), ht.Memory(), ht.rank, ht.lists);
          PrivateWf(old@Wiping(ht.Memory()), ht.Memory(), ht.rank.Keys, ht.lists);
        }
        next_free, processed := 0, 0;
        reset := true;
      }
    }
  }

  class ScotReplicator {
    const slot: ScotSlot
    const hasht: LockfreeMap
    const log: ScotLog
    ghost var written: nat                // how many requests were written

    ghost predicate Valid()
      reads this, slot, slot.slot, slot.args, hasht, hasht.bucket, hasht.slot, log
    {
      && slot.Valid() && log.Valid() && hasht.slot == slot.slot
      && hasht.NothingRemoved()
      && slot.next_free == slot.processed == Turn(written, slot.counts)
      && (forall n :: n in hasht.rank <==> 0 <= n < slot.next_free)
      && PayloadsFit()
    }

    ghost predicate PayloadsFit()
      requires hasht.slot == slot.slot && slot.Valid() && forall n :: n in hasht.rank ==> n < slot.counts
      reads slot, slot.args, hasht
    {
      forall n :: n in hasht.rank ==> |slot.args[n].payload| < 0x1_0000
    }

    constructor (addr: array<byte>, aligns: nat, slots: nat, buckets: nat)
      requires Layout(aligns, addr.Length) && slots > 0 && buckets > 0
      modifies addr
      ensures Valid() && written == 0 && hasht.Contents() == map[]
      ensures log.log == addr && slot.counts == slots
    {
      var entries := new ScotSlot(slots);
      slot := entries;
      log := new ScotLog(addr, aligns);
      hasht := new LockfreeMap(buckets, entries.slot);
      written := 0;
    }

    /** `__ht_get_latest_entry`: ends on the live entry of the hash, and clears
        `ready` of just those entries of that hash that were published from `curr` on but before it. */
    method GetLatestEntry(curr: nat) returns (latest: nat)
      requires slot.Valid() && hasht.slot == slot.slot && hasht.NothingRemoved() && curr in hasht.rank
      modifies slot.ready
      ensures hasht.slot[curr].hashv in hasht.Contents() && latest == hasht.Contents()[hasht.slot[curr].hashv]
      ensures forall n :: 0 <= n < slot.counts ==>
                slot.ready[n] == (old(slot.ready[n]) && !Passed(hasht.Memory(), hasht.rank, curr, latest, n))
    {
      ghost var h, rank, lists := hasht.Memory(), hasht.rank, hasht.lists;
      var hashv := slot.slot[curr].hashv;
      latest := curr;
      while slot.slot[latest].next.deleted && slot.slot[latest].hashv == hashv
        modifies slot.ready
        invariant latest in rank && latest < slot.counts && h.slots[latest].hashv == hashv
        invariant rank[curr] <= rank[latest]
        invariant forall n :: 0 <= n < slot.counts ==>
                    slot.ready[n] == (old(slot.ready[n]) && !Passed(h, rank, curr, latest, n))
        decreases hasht.published - rank[latest]
      {
        slot.ready[latest] := false;
        PassedStep(h, rank, lists, curr, latest);
        latest := slot.slot[latest].next.base.i;
      }
      assert slot.slot[latest].hashv == hashv;
      AbsMapHolds(h, rank.Keys, lists);
      assert Holds(h, rank.Keys, hashv, latest);
    }

    /** One write, start to end.  Write number `i` gets slot `Turn(i)`, logs its own
        request, sends all bytes of that record to every other node, and resets slots
        and table exactly if it completes a round. */
    method WriteRequest(req: Request, quorum: seq<nat>)
      returns (index: nat, header: nat, posts: seq<RemoteWrite>, reset: bool)
      requires Valid() && |req.payload| < 0x1_0000
      modifies this`written, slot, slot.slot, slot.args, slot.ready, hasht, hasht.bucket, log, log.log
      ensures Valid() && written == old(written) + 1
      ensures index == Turn(old(written), slot.counts)
      ensures reset <==> Turn(written, slot.counts) == 0
      ensures hasht.Contents() == if reset then map[] else old(hasht.Contents())[req.hashv := index]
      ensures reset || slot.args[index] == req
      ensures header == Offset(old(log.next_free))
      ensures Appended(old(log.log[..]), log.log[..], header, req, old(log.instn))
      ensures SentToAll(posts, quorum, header, Encode(RecordOf(req, old(log.instn))))
      ensures log.next_free == LogLayout.After(old(log.next_free), |req.payload|, log.counts)
      ensures log.instn == (old(log.instn) + 1) % 256
    {
      index := Publish(req);
      var latest;
      latest, header, posts := LogLatest(index, quorum);
      reset := Finish(index, latest);
    }

    /** Counts the write, and resets slots and table if it completes a round. */
    method Finish(index: nat, latest: nat) returns (reset: bool)
      requires slot.Valid() && log.Valid() && hasht.slot == slot.slot && hasht.NothingRemoved()
      requires index == slot.processed == Turn(written, slot.counts) && slot.next_free == index + 1
      requires latest < slot.counts
      requires (forall n :: n in hasht.rank <==> 0 <= n < slot.next_free) && PayloadsFit()
      modifies this`written, slot, slot.slot, slot.args, slot.ready, hasht, hasht.bucket
      ensures Valid() && written == old(written) + 1
      ensures reset <==> Turn(written, slot.counts) == 0
      ensures hasht.Contents() == if reset then map[] else old(hasht.Contents())
      ensures reset || slot.args[index] == old(slot.args[index])
    {
      reset := slot.MarkEntryFinished(index, latest, hasht);
      written := written + 1;
    }

    /** What is done under the writer lock: the newest entry of the hash goes to the log and to the other nodes. */
    method LogLatest(curr: nat, quorum: seq<nat>) returns (latest: nat, header: nat, posts: seq<RemoteWrite>)
      requires slot.Valid() && hasht.slot == slot.slot && hasht.NothingRemoved() && curr in hasht.rank && log.Valid()
      requires (forall n :: n in hasht.rank ==> n < slot.counts) && PayloadsFit()
      modifies slot.ready, log`next_free, log`instn, log.log
      ensures hasht.slot[curr].hashv in hasht.Contents() && latest == hasht.Contents()[hasht.slot[curr].hashv]
      ensures latest < slot.counts && log.Valid() && header == Offset(old(log.next_free))
      ensures Appended(old(log.log[..]), log.log[..], header, slot.args[latest], old(log.instn))
      ensures SentToAll(posts, quorum, header, Encode(RecordOf(slot.args[latest], old(log.instn))))
      ensures log.next_free == LogLayout.After(old(log.next_free), |slot.args[latest].payload|, log.counts)
      ensures log.instn == (old(log.instn) + 1) % 256
    {
      latest := GetLatestEntry(curr);
      AbsMapHolds(hasht.Memory(), hasht.rank.Keys, hasht.lists);
      header, posts := LogAndSend(slot.args[latest], quorum);
    }

    method LogAndSend(req: Request, quorum: seq<nat>) returns (header: nat, posts: seq<RemoteWrite>)
      requires log.Valid() && |req.payload| < 0x1_0000
      modifies log`next_free, log`instn, log.log
      ensures log.Valid() && header == Offset(old(log.next_free))
      ensures Appended(old(log.log[..]), log.log[..], header, req, old(log.instn))
      ensures SentToAll(posts, quorum, header, Encode(RecordOf(req, old(log.instn))))
      ensures log.next_free == LogLayout.After(old(log.next_free), |req.payload|, log.counts)
      ensures log.instn == (old(log.instn) + 1) % 256
    {
      ghost var mem, inst := log.log[..], log.instn;
      header := log.WriteLocalLog(req);
      OverlaySlice(mem, header, Encode(RecordOf(req, inst)));
      posts := PostAll(header, HEADER_SZ + |req.payload| + 1, quorum);
    }

    /** Posts `len` bytes of the log from `header` on to every other node. */
    method PostAll(header: nat, len: nat, quorum: seq<nat>) returns (posts: seq<RemoteWrite>)
      requires header + len <= log.log.Length
      ensures SentToAll(posts, quorum, header, log.log[header..header + len])
    {
      posts := [];
      for n := 0 to |quorum|
        invariant SentToAll(posts, quorum[..n], header, log.log[header..header + len])
      {
        posts := posts + [RemoteWrite(quorum[n], header, log.log[header..header + len])];
      }
      assert quorum[..|quorum|] == quorum;
    }

    /** Takes a slot for the request and makes it the live entry of its hash. */
    method Publish(req: Request) returns (index: nat)
      requires Valid() && |req.payload| < 0x1_0000
      modifies slot`next_free, slot.slot, slot.args, slot.ready, hasht`rank, hasht`lists, hasht`published, hasht.bucket
      ensures slot.Valid() && hasht.NothingRemoved()
      ensures index == old(slot.next_free) && slot.next_free == index + 1
      ensures (forall n :: n in hasht.rank <==> 0 <= n < slot.next_free) && PayloadsFit()
      ensures slot.slot[index].hashv == req.hashv && slot.args[index] == req
      ensures hasht.Contents() == old(hasht.Contents())[req.hashv := index]
    {
      ghost var h := hasht.Memory();
      var granted;
      granted, index := slot.RegisterEntry(req);
      PrivateKept(h, hasht.Memory(), hasht.rank, hasht.lists);
      PrivateWf(h, hasht.Memory(), hasht.rank.Keys, hasht.lists);
      hasht.TryInsert(index);
    }
  }

  /** Entry `n` was published for the hash of `from`, from `from` on but before `to`. */
  ghost predicate Passed(h: Heap, rank: map<nat, nat>, from: nat, to: nat, n: nat)
    requires from in rank && to in rank && from < |h.slots|
  {
    n in rank && n < |h.slots| && h.slots[n].hashv == h.slots[from].hashv && rank[from] <= rank[n] < rank[to]
  }

  lemma PassedStep(h: Heap, rank: map<nat, nat>, cs: seq<seq<nat>>, from: nat, n: nat)
    requires Kept(h, rank, cs) && from in rank && n in rank && Dead(h, n)
    requires h.slots[n].hashv == h.slots[from].hashv && rank[from] <= rank[n]
    ensures var p := h.slots[n].next.base;
            && p.Node? && p.i in rank && p.i < |h.slots|
            && h.slots[p.i].hashv == h.slots[n].hashv && rank[n] < rank[p.i]
            && forall m: nat :: Passed(h, rank, from, p.i, m) <==> m == n || Passed(h, rank, from, n, m)
  {
    ChaseStep(h, rank, cs, n);
    var p := h.slots[n].next.base.i;
    forall m: nat
      ensures Passed(h, rank, from, p, m) <==> m == n || Passed(h, rank, from, n, m)
    {
      if m in rank && h.slots[m].hashv == h.slots[n].hashv && m != n && rank[n] <= rank[m] < rank[p] {
        RankInjective(h, rank, cs, n, m);
        if rank[n] < rank[m] {
          ChaseSkipsNone(h, rank, cs, n, m);
        }
      }
    }
  }

  /** Counting `i` entries off in rounds of `counts`. */
  ghost function Turn(i: nat, counts: nat): (r: nat)
    requires counts > 0
    ensures r < counts
  {
    if i == 0 || Turn(i - 1, counts) == counts - 1 then 0 else Turn(i - 1, counts) + 1
  }

  lemma {:induction false} TurnIsMod(i: nat, counts: nat)
    requires counts > 0
    ensures Turn(i, counts) == i % counts
  {
    if i > 0 {
      TurnIsMod(i - 1, counts);
      var q, r := (i - 1) / counts, (i - 1) % counts;
      assert i == q * counts + (r + 1);
      if r + 1 < counts {
        Arithmetic.DivModUnique(i, counts, q, r + 1);
      } else {
        assert i == (q + 1) * counts + 0;
        Arithmetic.DivModUnique(i, counts, q + 1, 0);
      }
    } else {
      Arithmetic.DivModUnique(i, counts, 0, 0);
    }
  }
}
