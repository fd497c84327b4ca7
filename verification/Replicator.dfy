/** The replicator's write path under any interleaving of its callers.

    The machine joins the slot allocator, the lock-free table over the slots, the
    writer lock and the local log.  Every fetch-and-add, load, store and
    compare-and-swap on shared words is a step; a search, with its protecting
    write, is one step, and so is the filling of a slot nobody else can see. */
module Replicator {
  import opened EntryHeap
  import opened TableSpec
  import opened TableSteps
  import opened Messages
  import Slots = SlotAllocator

  datatype Pc =
    | Resting                               // no call, or inside a reset
    | Registering(req: Request)             // asking for a slot, then filling it
    | Searching
    | Inserting(left: Ptr, exp: Ref)
    | Replacing(left: Ptr, right: Ptr)
    | Locking
    | Chasing(cur: nat)
    | Writing(latest: nat)
    | Unlocking(latest: nat)
    | Finishing(latest: nat)                // about to count itself
    | Clearing(latest: nat)                 // counted; about to store `ready`
    | Resetting(b: nat)                     // reinitialising the buckets from `b` on
    | Failed                                // the same-hash assertion has failed

  /** History: `calls` are the requests accepted so far, `hist` the requests
      published in the table so far, in order, `base` how many of these belong to
      earlier epochs, `rank` where in `hist` each slot published in this epoch is,
      and `stamps` where in `hist` each log record comes from. */
  datatype State = State(
    alloc: Slots.State, heap: Heap, reqs: seq<Request>, ready: seq<bool>, locked: bool, log: seq<Request>,
    pcs: map<nat, Pc>,
    calls: seq<Request>, hist: seq<Request>, base: nat, rank: map<nat, nat>, stamps: seq<nat>)

  ghost predicate Init(s: State) {
    && Slots.Init(s.alloc)
    && |s.heap.heads| > 0 && s.heap.heads == ClearHeads(|s.heap.heads|)
    && |s.heap.slots| == |s.reqs| == |s.ready| == s.alloc.n
    && !s.locked && s.log == [] && s.calls == [] && s.hist == [] && s.base == 0 && s.rank == map[] && s.stamps == []
    && s.pcs.Keys == s.alloc.pcs.Keys
    && (forall t :: t in s.pcs ==> s.pcs[t] == Resting)
  }

  predicate Owns(s: State, t: nat, idx: nat) {
    Slots.At(s.alloc, t, Slots.Holding(idx))
  }

  predicate Has(s: State, t: nat, pc: Pc) {
    t in s.pcs && s.pcs[t] == pc
  }

  /** The slot of thread `t`, when it holds one. */
  function SlotOf(s: State, t: nat): nat
    requires t in s.alloc.pcs && s.alloc.pcs[t].Holding?
  {
    s.alloc.pcs[t].idx
  }

  predicate Held(s: State, t: nat) {
    t in s.pcs && t in s.alloc.pcs && s.alloc.pcs[t].Holding? && SlotOf(s, t) < |s.heap.slots|
    && |s.heap.slots| == |s.reqs| == |s.ready|
  }

  // -------- Steps of thread t --------

  ghost predicate Call(s: State, s': State, t: nat, req: Request) {
    && Has(s, t, Resting) && Slots.Begin(s.alloc, s'.alloc, t)
    && s' == s.(alloc := s'.alloc, pcs := s.pcs[t := Registering(req)], calls := s.calls + [req])
  }

  ghost predicate Acquire(s: State, s': State, t: nat) {
    && t in s.pcs && s.pcs[t].Registering?
    && (Slots.FetchFree(s.alloc, s'.alloc, t) || Slots.SeeFree(s.alloc, s'.alloc, t))
    && s' == s.(alloc := s'.alloc)
  }

  ghost predicate Fill(s: State, s': State, t: nat) {
    && Held(s, t) && s.pcs[t].Registering?
    && var idx, req := SlotOf(s, t), s.pcs[t].req;
    && s' == s.(heap := s.heap.(slots := s.heap.slots[idx := s.heap.slots[idx].(hashv := req.hashv)]),
                reqs := s.reqs[idx := req], ready := s.ready[idx := true], pcs := s.pcs[t := Searching])
  }

  ghost predicate Search(s: State, s': State, t: nat, r: SearchResult) {
    && Held(s, t) && s.pcs[t] == Searching
    && SearchStep(s.heap, s.heap.slots[SlotOf(s, t)].hashv, r, s'.heap)
    && s' == s.(heap := s'.heap,
                pcs := s.pcs[t := if r.found then Replacing(r.left, r.right) else Inserting(r.left, Plain(r.right))])
  }

  /** The history of a successful publishing write. */
  function Publish(s: State, idx: nat): State
    requires idx < |s.reqs|
  {
    s.(hist := s.hist + [s.reqs[idx]], rank := s.rank[idx := |s.hist|])
  }

  ghost predicate InsertCas(s: State, s': State, t: nat) {
    && Held(s, t) && s.pcs[t].Inserting?
    && var idx, Inserting(left, exp) := SlotOf(s, t), s.pcs[t];
    && InHeap(s.heap, left)
    && var (h', r) := InsertTry(s.heap, idx, left, exp);
    && s' == (if r.Done? then Publish(s, idx) else s).(heap := h',
                pcs := s.pcs[t := match r
                                  case Done => Locking
                                  case Again(x) => Inserting(left, x)
                                  case Fail => Searching])
  }

  ghost predicate ReplaceCas(s: State, s': State, t: nat) {
    && Held(s, t) && s.pcs[t].Replacing?
    && var idx, Replacing(left, right) := SlotOf(s, t), s.pcs[t];
    && InHeap(s.heap, left)
    && var (h', r) := SwitchTry(s.heap, idx, left, right);
    && s' == (if r.Done? then Publish(s, idx) else s).(heap := h',
                pcs := s.pcs[t := match r
                                  case Done => Locking
                                  case Again(x) => Replacing(left, x.base)
                                  case Fail => Searching])
  }

  ghost predicate Lock(s: State, s': State, t: nat) {
    && Held(s, t) && s.pcs[t] == Locking && !s.locked
    && s' == s.(locked := true, pcs := s.pcs[t := Chasing(SlotOf(s, t))])
  }

  /** One test of the chase loop, with its assertion when the loop ends. */
  ghost predicate ChaseOnce(s: State, s': State, t: nat) {
    && Held(s, t) && s.pcs[t].Chasing? && s.pcs[t].cur < |s.heap.slots|
    && var cur := s.pcs[t].cur;
    && var same := s.heap.slots[cur].hashv == s.heap.slots[SlotOf(s, t)].hashv;
    && var next := s.heap.slots[cur].next;
    && s' == if next.deleted && same then
               s.(ready := s.ready[cur := false],
                  pcs := s.pcs[t := if next.base.Node? then Chasing(next.base.i) else Failed])
             else s.(pcs := s.pcs[t := if same then Writing(cur) else Failed])
  }

  ghost predicate Write(s: State, s': State, t: nat) {
    && Held(s, t) && s.pcs[t].Writing?
    && var latest := s.pcs[t].latest;
    && latest < |s.reqs| && latest in s.rank
    && s' == s.(log := s.log + [s.reqs[latest]], stamps := s.stamps + [s.rank[latest]],
                pcs := s.pcs[t := Unlocking(latest)])
  }

  ghost predicate Unlock(s: State, s': State, t: nat) {
    && Held(s, t) && s.pcs[t].Unlocking?
    && s' == s.(locked := false, pcs := s.pcs[t := Finishing(s.pcs[t].latest)])
  }

  ghost predicate Count(s: State, s': State, t: nat) {
    && t in s.pcs && s.pcs[t].Finishing? && Slots.Count(s.alloc, s'.alloc, t)
    && s' == s.(alloc := s'.alloc, pcs := s.pcs[t := Clearing(s.pcs[t].latest)])
  }

  /** The store to `ready` comes after the count, so it can hit a slot of a later epoch (see ReadyFlags). */
  ghost predicate Clear(s: State, s': State, t: nat) {
    && t in s.pcs && s.pcs[t].Clearing? && s.pcs[t].latest < |s.ready| && Slots.Leave(s.alloc, s'.alloc, t)
    && s' == s.(alloc := s'.alloc, ready := s.ready[s.pcs[t].latest := false], pcs := s.pcs[t := Resting])
  }

  ghost predicate StartReset(s: State, s': State, t: nat) {
    && Has(s, t, Resting) && Slots.SeeAllProcessed(s.alloc, s'.alloc, t)
    && s' == s.(alloc := s'.alloc, pcs := s.pcs[t := Resetting(0)], rank := map[], base := |s.hist|)
  }

  ghost predicate ResetBucket(s: State, s': State, t: nat) {
    && t in s.pcs && s.pcs[t].Resetting? && s.pcs[t].b < |s.heap.heads|
    && var b := s.pcs[t].b;
    && s' == s.(heap := s.heap.(heads := s.heap.heads[b := Plain(Head(b))]), pcs := s.pcs[t := Resetting(b + 1)])
  }

  ghost predicate WipeSlots(s: State, s': State, t: nat) {
    && t in s.pcs && s.pcs[t] == Resetting(|s.heap.heads|) && Slots.Wipe(s.alloc, s'.alloc, t)
    && s' == s.(alloc := s'.alloc, pcs := s.pcs[t := Resting],
                heap := s.heap.(slots := seq(|s.heap.slots|, i => NO_ENTRY)),
                reqs := seq(|s.reqs|, i => NO_REQUEST), ready := seq(|s.ready|, i => false))
  }

  ghost predicate StoreCounter(s: State, s': State, t: nat) {
    && Has(s, t, Resting)
    && (Slots.StoreFree(s.alloc, s'.alloc, t) || Slots.StoreProcessed(s.alloc, s'.alloc, t))
    && s' == s.(alloc := s'.alloc)
  }

  ghost predicate StepOf(s: State, s': State, t: nat) {
    || (exists req :: Call(s, s', t, req)) || Acquire(s, s', t) || Fill(s, s', t)
    || (exists r :: Search(s, s', t, r)) || InsertCas(s, s', t) || ReplaceCas(s, s', t)
    || Lock(s, s', t) || ChaseOnce(s, s', t) || Write(s, s', t) || Unlock(s, s', t)
    || Count(s, s', t) || Clear(s, s', t)
    || StartReset(s, s', t) || ResetBucket(s, s', t) || WipeSlots(s, s', t) || StoreCounter(s, s', t)
  }

  ghost predicate Step(s: State, s': State) {
    exists t :: StepOf(s, s', t)
  }
}
