/** What every reachable state of the replicator satisfies. */
module ReplicatorInv {
  import opened EntryHeap
  import opened Chains
  import opened Messages
  import opened Replicator
  import Slots = SlotAllocator

  // -------- Which program points go together --------

  predicate PcFits(pc: Pc, a: Slots.Pc, heads: nat) {
    match pc
    case Resting => a == Slots.Idle || a == Slots.Draining || a == Slots.StoringFree || a == Slots.StoringProcessed
    case Registering(_) => a == Slots.Trying || a == Slots.Waiting || a.Holding?
    case Clearing(_) => a.Counted?
    case Resetting(b) => a == Slots.Wiping && b <= heads
    case Failed => false
    case _ => a.Holding?
  }

  ghost predicate Shape(s: State) {
    && Slots.Reachable(s.alloc)
    && |s.heap.heads| > 0
    && |s.heap.slots| == |s.reqs| == |s.ready| == s.alloc.n
    && s.pcs.Keys == s.alloc.pcs.Keys
    && (forall t {:trigger Fits(s, t)} :: t in s.pcs ==> Fits(s, t))
  }

  predicate Fits(s: State, t: nat)
    requires t in s.pcs && s.pcs.Keys == s.alloc.pcs.Keys
  {
    PcFits(s.pcs[t], s.alloc.pcs[t], |s.heap.heads|)
  }

  // -------- The table --------

  predicate Resets(s: State, t: nat) {
    t in s.pcs && s.pcs[t].Resetting?
  }

  ghost predicate TableOk(s: State) {
    exists cs :: Kept(s.heap, s.rank, cs)
  }

  ghost predicate Table(s: State) {
    && ((forall t :: !Resets(s, t)) ==> TableOk(s))
    && (forall t :: Slots.Exclusive(s.alloc, t) ==> s.rank == map[])
    && (forall t, b: nat :: Resets(s, t) && b < s.pcs[t].b && b < |s.heap.heads| ==> s.heap.heads[b] == Plain(Head(b)))
  }

  // -------- History --------

  ghost predicate Published(s: State, p: nat) {
    exists n :: n in s.rank && s.rank[n] == p
  }

  ghost predicate SlotOk(s: State, n: nat) {
    && n in s.rank && n < |s.heap.slots| && n < |s.reqs|
    && s.base <= s.rank[n] < |s.hist|
    && s.hist[s.rank[n]] == s.reqs[n]
    && s.heap.slots[n].hashv == s.reqs[n].hashv
    && Slots.Granted(s.alloc, n)
  }

  ghost predicate History(s: State) {
    && s.base <= |s.hist|
    && (forall n {:trigger SlotOk(s, n)} :: n in s.rank ==> SlotOk(s, n))
    && (forall p: nat {:trigger Published(s, p)} :: s.base <= p < |s.hist| ==> Published(s, p))
  }

  // -------- The log --------

  ghost predicate LogOk(s: State) {
    && |s.stamps| == |s.log|
    && (forall i {:trigger Stamped(s, i)} :: 0 <= i < |s.log| ==> Stamped(s, i))
    && (forall i, j {:trigger NoOlder(s, i, j)} :: 0 <= i < j < |s.log| ==> NoOlder(s, i, j))
  }

  /** Log record `i` is the publication it is stamped with. */
  ghost predicate Stamped(s: State, i: int)
    requires 0 <= i < |s.log| == |s.stamps|
  {
    s.stamps[i] < |s.hist| && s.log[i] == s.hist[s.stamps[i]]
  }

  /** Of two log records of one hash the later one is not of an older publication. */
  ghost predicate NoOlder(s: State, i: int, j: int)
    requires 0 <= i < j < |s.log| == |s.stamps|
  {
    s.log[i].hashv == s.log[j].hashv ==> s.stamps[i] <= s.stamps[j]
  }

  /** Publication `p` is in the log, or something published later for its hash is. */
  ghost predicate Covered(s: State, p: nat)
    requires p < |s.hist| && |s.stamps| == |s.log|
  {
    exists i :: 0 <= i < |s.log| && s.log[i].hashv == s.hist[p].hashv && s.stamps[i] >= p
  }

  /** Thread `t` has published its entry and has still to log. */
  predicate Pending(s: State, t: nat) {
    Held(s, t) && (s.pcs[t].Locking? || s.pcs[t].Chasing? || s.pcs[t].Writing?)
  }

  ghost predicate Awaited(s: State, p: nat) {
    exists t :: Pending(s, t) && SlotOf(s, t) in s.rank && s.rank[SlotOf(s, t)] == p
  }

  ghost predicate Safe(s: State, p: nat)
    requires p < |s.hist| && |s.stamps| == |s.log|
  {
    Covered(s, p) || Awaited(s, p)
  }

  ghost predicate Coverage(s: State)
    requires |s.stamps| == |s.log|
  {
    forall p: nat {:trigger Safe(s, p)} :: p < |s.hist| ==> Safe(s, p)
  }

  // -------- The writer lock --------

  predicate Inside(s: State, t: nat) {
    t in s.pcs && (s.pcs[t].Chasing? || s.pcs[t].Writing? || s.pcs[t].Unlocking?)
  }

  ghost predicate Mutex(s: State) {
    && (forall t :: Inside(s, t) ==> s.locked)
    && (forall t, u :: Inside(s, t) && Inside(s, u) ==> t == u)
  }

  // -------- What each thread knows --------

  ghost predicate Behind(s: State, idx: nat, n: nat) {
    && idx in s.rank && n in s.rank && idx < |s.heap.slots| && n < |s.heap.slots|
    && s.heap.slots[n].hashv == s.heap.slots[idx].hashv
    && s.rank[idx] <= s.rank[n]
  }

  /** No log record of the hash of slot `n` is later than that slot's publication. */
  ghost predicate Newest(s: State, n: nat)
    requires |s.stamps| == |s.log|
  {
    n in s.rank && n < |s.heap.slots| &&
    forall i {:trigger NotAfter(s, i, n)} :: 0 <= i < |s.log| ==> NotAfter(s, i, n)
  }

  ghost predicate NotAfter(s: State, i: int, n: nat)
    requires 0 <= i < |s.log| == |s.stamps| && n in s.rank && n < |s.heap.slots|
  {
    s.log[i].hashv == s.heap.slots[n].hashv ==> s.stamps[i] <= s.rank[n]
  }

  ghost predicate Fresh(s: State, idx: nat) {
    && idx !in s.rank && idx < |s.heap.slots| && idx < |s.reqs|
    && s.heap.slots[idx].hashv == s.reqs[idx].hashv
  }

  ghost predicate Knows(s: State, t: nat)
    requires Held(s, t) && |s.heap.heads| > 0 && |s.stamps| == |s.log|
  {
    var idx := SlotOf(s, t);
    match s.pcs[t]
    case Registering(_) => idx !in s.rank
    case Searching => Fresh(s, idx)
    case Inserting(left, exp) =>
      && Fresh(s, idx) && !exp.deleted
      && Before(s.heap, s.rank.Keys, left, s.heap.slots[idx].hashv)
      && After(s.heap, s.rank.Keys, exp.base, s.heap.slots[idx].hashv)
    case Replacing(left, right) =>
      && Fresh(s, idx)
      && left.Node? && left.i in s.rank && left.i < |s.heap.slots|
      && s.heap.slots[left.i].hashv == s.heap.slots[idx].hashv
    case Locking => idx in s.rank
    case Chasing(cur) => Behind(s, idx, cur)
    case Writing(latest) => Behind(s, idx, latest) && Newest(s, latest)
    case Unlocking(_) => idx in s.rank
    case Finishing(_) => idx in s.rank
    case _ => true
  }

  ghost predicate Threads(s: State)
    requires |s.heap.heads| > 0 && |s.stamps| == |s.log|
  {
    && (forall t {:trigger Knows(s, t)} :: Held(s, t) ==> Knows(s, t))
    && (forall t {:trigger LatestOk(s, t)} :: t in s.pcs ==> LatestOk(s, t))
  }

  predicate LatestOk(s: State, t: nat)
    requires t in s.pcs
  {
    match s.pcs[t]
    case Unlocking(n) => n < |s.ready|
    case Finishing(n) => n < |s.ready|
    case Clearing(n) => n < |s.ready|
    case _ => true
  }

  ghost predicate Inv(s: State) {
    Shape(s) && Table(s) && History(s) && LogOk(s) && Coverage(s) && Mutex(s) && Threads(s)
  }

  lemma InitInv(s: State)
    requires Init(s)
    ensures Inv(s)
  {
    Slots.ReachableInit(s.alloc);
    EmptyTable(s);
  }

  /** With all heads pointing at themselves and nothing published the table is well formed. */
  lemma EmptyTable(s: State)
    requires |s.heap.heads| > 0 && s.rank == map[]
    requires forall b :: 0 <= b < |s.heap.heads| ==> s.heap.heads[b] == Plain(Head(b))
    ensures TableOk(s)
  {
    ClearKept(s.heap);
  }

  // -------- Frames --------

  /** Two threads never hold the same slot, and a slot that is held was granted. */
  lemma HeldApart(s: State, t: nat, u: nat)
    requires Shape(s) && Held(s, t) && Held(s, u)
    ensures SlotOf(s, t) == SlotOf(s, u) ==> t == u
    ensures Slots.Granted(s.alloc, SlotOf(s, t))
  {
    Slots.ReachableInv(s.alloc);
    Slots.HeldOnce(s.alloc, t, t, SlotOf(s, t));
    if SlotOf(s, t) == SlotOf(s, u) {
      Slots.HeldOnce(s.alloc, t, u, SlotOf(s, t));
    }
  }

  /** A step of `t`: nobody else moves. */
  ghost predicate Alone(s: State, s': State, t: nat) {
    && t in s.pcs && t in s'.pcs && t in s.alloc.pcs && t in s'.alloc.pcs
    && s'.pcs == s.pcs[t := s'.pcs[t]]
    && s'.alloc.pcs == s.alloc.pcs[t := s'.alloc.pcs[t]]
    && |s'.heap.heads| == |s.heap.heads| && |s'.heap.slots| == |s.heap.slots|
    && |s'.reqs| == |s.reqs| && |s'.ready| == |s.ready|
  }

  /** Slot `n` as far as others rely on it. */
  ghost predicate SlotSame(s: State, s': State, n: nat) {
    && n < |s.heap.slots| == |s'.heap.slots| && n < |s.reqs| == |s'.reqs|
    && s'.heap.slots[n].hashv == s.heap.slots[n].hashv
    && s'.reqs[n] == s.reqs[n]
    && (n in s.rank <==> n in s'.rank)
    && (n in s.rank ==> s'.rank[n] == s.rank[n])
  }

  /** Outside a reset only the still private slot of `t` changes or is published. */
  ghost predicate Frame(s: State, s': State, t: nat) {
    && Alone(s, s', t)
    && (forall n: nat {:trigger SlotSame(s, s', n)} :: n < |s.heap.slots| && !Owns(s, t, n) ==> SlotSame(s, s', n))
    && (forall n: nat {:trigger SlotSame(s, s', n)} :: n < |s.heap.slots| && n in s.rank ==> SlotSame(s, s', n))
    && |s.stamps| == |s.log| && |s'.stamps| == |s'.log|
    && ((s'.log == s.log && s'.stamps == s.stamps) || Inside(s, t))
  }

  lemma RankGrows(s: State, s': State, t: nat)
    requires History(s) && Frame(s, s', t)
    ensures forall n :: n in s.rank ==> n in s'.rank && s'.rank[n] == s.rank[n]
    ensures forall n :: n in s.rank ==> n < |s.heap.slots| && s'.heap.slots[n].hashv == s.heap.slots[n].hashv
  {
    forall n | n in s.rank
      ensures n in s'.rank && s'.rank[n] == s.rank[n]
      ensures n < |s.heap.slots| && s'.heap.slots[n].hashv == s.heap.slots[n].hashv
    {
      assert SlotOk(s, n);
      assert SlotSame(s, s', n);
    }
  }

  lemma KnowsStable(s: State, s': State, t: nat, u: nat)
    requires Shape(s) && History(s) && Mutex(s) && |s.stamps| == |s.log|
    requires Frame(s, s', t) && u != t && Held(s, u) && Knows(s, u)
    ensures Held(s', u) && Knows(s', u)
  {
    var idx := SlotOf(s, u);
    if Held(s, t) {
      HeldApart(s, t, u);
    }
    assert SlotSame(s, s', idx);
    RankGrows(s, s', t);
    if s.pcs[u].Writing? {
      assert Inside(s, u);
      var n := s.pcs[u].latest;
      forall i | 0 <= i < |s'.log|
        ensures NotAfter(s', i, n)
      {
        assert NotAfter(s, i, n);
      }
    }
  }

  lemma ThreadsStable(s: State, s': State, t: nat)
    requires Shape(s) && History(s) && Mutex(s) && |s.stamps| == |s.log| && Threads(s)
    requires Frame(s, s', t)
    requires Held(s', t) ==> Knows(s', t)
    requires LatestOk(s', t)
    ensures Threads(s')
  {
    forall u | Held(s', u)
      ensures Knows(s', u)
    {
      if u != t {
        assert Knows(s, u);
        KnowsStable(s, s', t, u);
      }
    }
    forall u | u in s'.pcs
      ensures LatestOk(s', u)
    {
      assert u != t ==> LatestOk(s, u);
    }
  }

  lemma ShapeStable(s: State, s': State, t: nat)
    requires Shape(s) && Alone(s, s', t)
    requires s'.alloc == s.alloc || Slots.StepOf(s.alloc, s'.alloc, t)
    requires PcFits(s'.pcs[t], s'.alloc.pcs[t], |s'.heap.heads|)
    ensures Shape(s')
  {
    if s'.alloc != s.alloc {
      Slots.ReachableStep(s.alloc, s'.alloc, t);
    }
    forall u | u in s'.pcs
      ensures Fits(s', u)
    {
      assert u != t ==> Fits(s, u);
    }
  }

  lemma MutexStable(s: State, s': State, t: nat)
    requires Mutex(s) && Alone(s, s', t)
    requires Inside(s', t) <==> Inside(s, t)
    requires s'.locked == s.locked
    ensures Mutex(s')
  {
    assert forall u :: Inside(s', u) <==> Inside(s, u);
  }

  lemma CoverageStable(s: State, s': State, t: nat)
    requires |s.stamps| == |s.log| && Coverage(s) && Alone(s, s', t)
    requires s'.rank == s.rank && s'.hist == s.hist && s'.log == s.log && s'.stamps == s.stamps
    requires Pending(s, t) ==> Pending(s', t) && SlotOf(s', t) == SlotOf(s, t)
    ensures Coverage(s')
  {
    forall p: nat | p < |s'.hist|
      ensures Safe(s', p)
    {
      assert Safe(s, p);
      if Covered(s, p) {
        var i :| 0 <= i < |s.log| && s.log[i].hashv == s.hist[p].hashv && s.stamps[i] >= p;
        assert s'.log[i].hashv == s'.hist[p].hashv;
      } else {
        var u :| Pending(s, u) && SlotOf(s, u) in s.rank && s.rank[SlotOf(s, u)] == p;
        assert Pending(s', u) && SlotOf(s', u) == SlotOf(s, u);
      }
    }
  }

  lemma HistoryStable(s: State, s': State, t: nat)
    requires History(s) && Frame(s, s', t)
    requires s'.rank == s.rank && s'.base == s.base && s'.hist == s.hist
    requires forall n :: n in s.rank ==> Slots.Granted(s'.alloc, n)
    ensures History(s')
  {
    forall n | n in s'.rank
      ensures SlotOk(s', n)
    {
      assert SlotOk(s, n) && SlotSame(s, s', n);
    }
    forall p: nat | s'.base <= p < |s'.hist|
      ensures Published(s', p)
    {
      assert Published(s, p);
    }
  }

  lemma LogStable(s: State, s': State)
    requires LogOk(s) && s'.log == s.log && s'.stamps == s.stamps
    requires |s'.hist| >= |s.hist| && forall p :: 0 <= p < |s.hist| ==> s'.hist[p] == s.hist[p]
    ensures LogOk(s')
  {
    forall i | 0 <= i < |s'.log|
      ensures Stamped(s', i)
    {
      assert Stamped(s, i);
    }
    forall i, j | 0 <= i < j < |s'.log|
      ensures NoOlder(s', i, j)
    {
      assert NoOlder(s, i, j);
    }
  }

  // -------- Steps that leave the data alone --------

  /** A step that changes no table word, no log record and no history. */
  ghost predicate SameData(s: State, s': State) {
    && s'.heap == s.heap && s'.reqs == s.reqs && s'.rank == s.rank && s'.base == s.base && s'.hist == s.hist
    && s'.log == s.log && s'.stamps == s.stamps
  }

  lemma SameDataFrame(s: State, s': State, t: nat)
    requires SameData(s, s') && Alone(s, s', t) && |s.stamps| == |s.log| && |s.reqs| == |s.heap.slots|
    ensures Frame(s, s', t)
  {
  }

  lemma TableStable(s: State, s': State, t: nat)
    requires Table(s) && Alone(s, s', t) && s'.heap == s.heap && s'.rank == s.rank
    requires !Resets(s, t) && !Resets(s', t)
    requires Slots.Exclusive(s'.alloc, t) ==> Slots.Exclusive(s.alloc, t)
    ensures Table(s')
  {
    assert forall u :: Resets(s', u) <==> Resets(s, u);
    assert forall u :: Slots.Exclusive(s'.alloc, u) ==> Slots.Exclusive(s.alloc, u);
    if TableOk(s) {
      var cs :| Kept(s.heap, s.rank, cs);
      assert Kept(s'.heap, s'.rank, cs);
    }
  }

  lemma GrantedStable(s: State, s': State)
    requires History(s) && s'.alloc.n == s.alloc.n && s'.alloc.nextFree >= s.alloc.nextFree
    ensures forall n :: n in s.rank ==> Slots.Granted(s'.alloc, n)
  {
    forall n | n in s.rank
      ensures Slots.Granted(s'.alloc, n)
    {
      assert SlotOk(s, n);
    }
  }

  lemma SameDataInv(s: State, s': State, t: nat)
    requires Inv(s) && Alone(s, s', t) && SameData(s, s') && Shape(s') && Mutex(s')
    requires Held(s', t) ==> Knows(s', t)
    requires LatestOk(s', t)
    requires Pending(s, t) ==> Pending(s', t) && SlotOf(s', t) == SlotOf(s, t)
    requires !Resets(s, t) && !Resets(s', t)
    requires forall n :: n in s.rank ==> Slots.Granted(s'.alloc, n)
    requires Slots.Exclusive(s'.alloc, t) ==> Slots.Exclusive(s.alloc, t)
    ensures Inv(s')
  {
    SameDataFrame(s, s', t);
    ThreadsStable(s, s', t);
    CoverageStable(s, s', t);
    HistoryStable(s, s', t);
    TableStable(s, s', t);
    LogStable(s, s');
  }

  lemma CallInv(s: State, s': State, t: nat, req: Request)
    requires Inv(s) && Call(s, s', t, req)
    ensures Inv(s')
  {
    ShapeStable(s, s', t);
    MutexStable(s, s', t);
    GrantedStable(s, s');
    SameDataInv(s, s', t);
  }

  /** The slot a thread is granted has not been published in this epoch. */
  lemma AcquireInv(s: State, s': State, t: nat)
    requires Inv(s) && Acquire(s, s', t)
    ensures Inv(s')
  {
    assert Fits(s, t);
    ShapeStable(s, s', t);
    MutexStable(s, s', t);
    GrantedStable(s, s');
    assert s.alloc.nextFree in s.rank ==> SlotOk(s, s.alloc.nextFree);
    SameDataInv(s, s', t);
  }

  lemma StoreCounterInv(s: State, s': State, t: nat)
    requires Inv(s) && StoreCounter(s, s', t)
    ensures Inv(s')
  {
    ShapeStable(s, s', t);
    MutexStable(s, s', t);
    if Slots.StoreFree(s.alloc, s'.alloc, t) {
      assert Slots.Exclusive(s.alloc, t);
    } else {
      GrantedStable(s, s');
    }
    SameDataInv(s, s', t);
  }

  lemma LockInv(s: State, s': State, t: nat)
    requires Inv(s) && Lock(s, s', t)
    ensures Inv(s')
  {
    ShapeStable(s, s', t);
    assert Knows(s, t) && SlotOk(s, SlotOf(s, t));
    GrantedStable(s, s');
    assert forall u :: u != t ==> (Inside(s', u) <==> Inside(s, u));
    SameDataInv(s, s', t);
  }

  lemma UnlockInv(s: State, s': State, t: nat)
    requires Inv(s) && Unlock(s, s', t)
    ensures Inv(s')
  {
    ShapeStable(s, s', t);
    GrantedStable(s, s');
    assert LatestOk(s, t) && Inside(s, t) && Knows(s, t);
    assert forall u :: u != t ==> (Inside(s', u) <==> Inside(s, u));
    SameDataInv(s, s', t);
  }

  lemma CountInv(s: State, s': State, t: nat)
    requires Inv(s) && Count(s, s', t)
    ensures Inv(s')
  {
    ShapeStable(s, s', t);
    MutexStable(s, s', t);
    GrantedStable(s, s');
    assert LatestOk(s, t);
    SameDataInv(s, s', t);
  }

  lemma ClearInv(s: State, s': State, t: nat)
    requires Inv(s) && Clear(s, s', t)
    ensures Inv(s')
  {
    ShapeStable(s, s', t);
    MutexStable(s, s', t);
    GrantedStable(s, s');
    SameDataInv(s, s', t);
  }
}
