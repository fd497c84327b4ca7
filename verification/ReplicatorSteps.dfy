/** The steps that touch the table, the log or the history keep the invariant. */
module ReplicatorSteps {
  import opened EntryHeap
  import opened TableSpec
  import opened Chains
  import opened Replicator
  import opened ReplicatorInv
  import Slots = SlotAllocator

  /** A thread that holds a slot is at a point of the write path, so no reset is going on. */
  lemma HeldMeansNoReset(s: State, t: nat)
    requires Shape(s) && Held(s, t)
    ensures forall u :: !Resets(s, u)
    ensures forall u :: !Slots.Exclusive(s.alloc, u)
  {
    Slots.ReachableInv(s.alloc);
    forall u
      ensures !Slots.Exclusive(s.alloc, u)
    {
      Slots.NotExclusiveWhileHeld(s.alloc, u, t, SlotOf(s, t));
    }
    forall u
      ensures !Resets(s, u)
    {
      if u in s.pcs {
        assert Fits(s, u);
        assert s.pcs[u].Resetting? ==> Slots.Exclusive(s.alloc, u);
      }
    }
  }

  lemma TableWhileHeld(s: State, t: nat) returns (cs: seq<seq<nat>>)
    requires Shape(s) && Table(s) && Held(s, t)
    ensures Kept(s.heap, s.rank, cs)
  {
    HeldMeansNoReset(s, t);
    cs :| Kept(s.heap, s.rank, cs);
  }

  /** Outside a reset a well-formed table is all there is to show. */
  lemma TableShown(s: State, s': State, t: nat)
    requires Shape(s) && Held(s, t) && Alone(s, s', t) && s'.alloc == s.alloc
    requires !Resets(s', t) && TableOk(s')
    ensures Table(s')
  {
    HeldMeansNoReset(s, t);
    assert forall u :: u != t ==> (Resets(s', u) <==> Resets(s, u));
  }

  /** A step before publication: it may change the private slot and search marks. */
  lemma PrivateStep(s: State, s': State, t: nat)
    requires Inv(s) && Held(s, t) && Frame(s, s', t) && TableOk(s')
    requires !Pending(s, t) && !Inside(s, t) && !Inside(s', t) && !Resets(s', t)
    requires s' == s.(heap := s'.heap, reqs := s'.reqs, ready := s'.ready, pcs := s'.pcs)
    requires PcFits(s'.pcs[t], s'.alloc.pcs[t], |s'.heap.heads|)
    requires Held(s', t) && Knows(s', t) && LatestOk(s', t)
    ensures Inv(s')
  {
    TableShown(s, s', t);
    ShapeStable(s, s', t);
    MutexStable(s, s', t);
    GrantedStable(s, s');
    HistoryStable(s, s', t);
    LogStable(s, s');
    CoverageStable(s, s', t);
    ThreadsStable(s, s', t);
  }

  lemma FillInv(s: State, s': State, t: nat)
    requires Inv(s) && Fill(s, s', t)
    ensures Inv(s')
  {
    assert Knows(s, t);
    var cs := TableWhileHeld(s, t);
    PrivateKept(s.heap, s'.heap, s.rank, cs);
    PrivateStep(s, s', t);
  }

  lemma SearchFacts(s: State, s': State, t: nat, r: SearchResult)
    requires Shape(s) && Table(s) && |s.stamps| == |s.log|
    requires Search(s, s', t, r) && Knows(s, t)
    ensures TableOk(s') && Frame(s, s', t) && Held(s', t) && Knows(s', t)
  {
    var cs := TableWhileHeld(s, t);
    SearchKept(s.heap, s.rank, cs, s.heap.slots[SlotOf(s, t)].hashv, r, s'.heap);
  }

  lemma SearchInv(s: State, s': State, t: nat, r: SearchResult)
    requires Inv(s) && Search(s, s', t, r)
    ensures Inv(s')
  {
    assert Knows(s, t);
    SearchFacts(s, s', t, r);
    PrivateStep(s, s', t);
  }

  // -------- Publishing --------

  /** What a successful publishing write does outside the table. */
  ghost predicate Publishes(s: State, s': State, t: nat) {
    && Held(s, t) && Alone(s, s', t) && s'.alloc == s.alloc
    && var idx := SlotOf(s, t);
    && Fresh(s, idx)
    && s'.hist == s.hist + [s.reqs[idx]] && s'.rank == s.rank[idx := |s.hist|] && s'.base == s.base
    && s'.reqs == s.reqs && s'.log == s.log && s'.stamps == s.stamps && s'.locked == s.locked
    && (forall n :: 0 <= n < |s.heap.slots| ==> s'.heap.slots[n].hashv == s.heap.slots[n].hashv)
    && !Inside(s, t) && s'.pcs[t] == Locking
  }

  lemma PublishHistory(s: State, s': State, t: nat)
    requires Shape(s) && History(s) && Publishes(s, s', t)
    ensures History(s')
  {
    var idx := SlotOf(s, t);
    HeldApart(s, t, t);
    forall n | n in s'.rank
      ensures SlotOk(s', n)
    {
      assert n != idx ==> SlotOk(s, n);
    }
    forall p: nat | s'.base <= p < |s'.hist|
      ensures Published(s', p)
    {
      if p == |s.hist| {
        assert idx in s'.rank && s'.rank[idx] == p;
      } else {
        assert Published(s, p);
        var n :| n in s.rank && s.rank[n] == p;
        assert n in s'.rank && s'.rank[n] == p;
      }
    }
  }

  lemma PublishCoverage(s: State, s': State, t: nat)
    requires |s.stamps| == |s.log| && Coverage(s) && LogOk(s) && Publishes(s, s', t)
    requires !Pending(s, t)
    ensures Coverage(s')
  {
    var idx := SlotOf(s, t);
    forall p: nat | p < |s'.hist|
      ensures Safe(s', p)
    {
      if p == |s.hist| {
        assert Pending(s', t) && s'.rank[SlotOf(s', t)] == p;
      } else {
        assert Safe(s, p);
        if Covered(s, p) {
          var i :| 0 <= i < |s.log| && s.log[i].hashv == s.hist[p].hashv && s.stamps[i] >= p;
          assert s'.log[i].hashv == s'.hist[p].hashv;
        } else {
          var u :| Pending(s, u) && SlotOf(s, u) in s.rank && s.rank[SlotOf(s, u)] == p;
          assert Pending(s', u) && SlotOf(s', u) == SlotOf(s, u);
        }
      }
    }
  }

  lemma PublishInv(s: State, s': State, t: nat)
    requires Inv(s) && Publishes(s, s', t) && !Pending(s, t)
    requires TableOk(s')
    ensures Inv(s')
  {
    var idx := SlotOf(s, t);
    assert Owns(s, t, idx);
    TableShown(s, s', t);
    assert Frame(s, s', t);
    ShapeStable(s, s', t);
    MutexStable(s, s', t);
    PublishHistory(s, s', t);
    LogStable(s, s');
    PublishCoverage(s, s', t);
    ThreadsStable(s, s', t);
  }

  lemma RanksBelow(s: State)
    requires History(s)
    ensures forall n :: n in s.rank ==> s.rank[n] < |s.hist|
  {
    forall n | n in s.rank
      ensures s.rank[n] < |s.hist|
    {
      assert SlotOk(s, n);
    }
  }

  /** An attempt that did not publish wrote only to the private entry. */
  lemma RetryInv(s: State, s': State, t: nat, next: Ref)
    requires Inv(s) && Held(s, t) && Fresh(s, SlotOf(s, t))
    requires s' == s.(heap := SetNext(s.heap, Node(SlotOf(s, t)), next), pcs := s'.pcs) && Alone(s, s', t)
    requires !Pending(s, t) && !Inside(s, t) && !Inside(s', t) && !Resets(s', t)
    requires PcFits(s'.pcs[t], s'.alloc.pcs[t], |s'.heap.heads|)
    requires Knows(s', t) && LatestOk(s', t)
    ensures Inv(s')
  {
    var cs := TableWhileHeld(s, t);
    PrivateKept(s.heap, s'.heap, s.rank, cs);
    PrivateStep(s, s', t);
  }

  /** The table after a successful insertion, and its history. */
  lemma InsertDone(s: State, t: nat, left: Ptr, exp: Ref) returns (h': Heap, cs': seq<seq<nat>>)
    requires Shape(s) && Table(s) && History(s) && |s.stamps| == |s.log| && Held(s, t)
    requires s.pcs[t] == Inserting(left, exp) && Knows(s, t)
    requires InHeap(s.heap, left) && Next(s.heap, left) == exp
    ensures h' == Place(s.heap, SlotOf(s, t), exp, left, Plain(Node(SlotOf(s, t))))
    ensures Kept(h', s.rank[SlotOf(s, t) := |s.hist|], cs')
    ensures forall n :: 0 <= n < |s.heap.slots| ==> h'.slots[n].hashv == s.heap.slots[n].hashv
  {
    var idx := SlotOf(s, t);
    var cs := TableWhileHeld(s, t);
    RanksBelow(s);
    h' := Place(s.heap, idx, exp, left, Plain(Node(idx)));
    cs' := InsertKept(s.heap, s.rank, cs, idx, left, exp, |s.hist|);
    PlaceDead(s.heap, idx, exp, left, Plain(Node(idx)));
  }

  lemma InsertPublishes(s: State, s': State, t: nat)
    requires Inv(s) && InsertCas(s, s', t) && Next(s.heap, s.pcs[t].left) == s.pcs[t].exp
    ensures Inv(s')
  {
    assert Knows(s, t);
    var h', cs' := InsertDone(s, t, s.pcs[t].left, s.pcs[t].exp);
    assert s'.heap == h' && Kept(s'.heap, s'.rank, cs');
    PublishInv(s, s', t);
  }

  lemma InsertInv(s: State, s': State, t: nat)
    requires Inv(s) && InsertCas(s, s', t)
    ensures Inv(s')
  {
    if Next(s.heap, s.pcs[t].left) == s.pcs[t].exp {
      InsertPublishes(s, s', t);
    } else {
      assert Knows(s, t);
      RetryInv(s, s', t, s.pcs[t].exp);
    }
  }

  lemma ReplaceDone(s: State, t: nat, left: Ptr, right: Ptr) returns (h': Heap, cs': seq<seq<nat>>)
    requires Shape(s) && Table(s) && History(s) && |s.stamps| == |s.log| && Held(s, t)
    requires s.pcs[t] == Replacing(left, right) && Knows(s, t)
    requires InHeap(s.heap, left) && Next(s.heap, left) == AsProtected(right)
    ensures h' == Place(s.heap, SlotOf(s, t), Plain(right), left, AsDeleted(Node(SlotOf(s, t))))
    ensures Kept(h', s.rank[SlotOf(s, t) := |s.hist|], cs')
    ensures forall n :: 0 <= n < |s.heap.slots| ==> h'.slots[n].hashv == s.heap.slots[n].hashv
  {
    var idx := SlotOf(s, t);
    var cs := TableWhileHeld(s, t);
    RanksBelow(s);
    h' := Place(s.heap, idx, Plain(right), left, AsDeleted(Node(idx)));
    cs' := SwitchKept(s.heap, s.rank, cs, idx, left.i, right, |s.hist|);
    PlaceDead(s.heap, idx, Plain(right), left, AsDeleted(Node(idx)));
  }

  lemma ReplacePublishes(s: State, s': State, t: nat)
    requires Inv(s) && ReplaceCas(s, s', t) && Next(s.heap, s.pcs[t].left) == AsProtected(s.pcs[t].right)
    ensures Inv(s')
  {
    assert Knows(s, t);
    var h', cs' := ReplaceDone(s, t, s.pcs[t].left, s.pcs[t].right);
    assert s'.heap == h' && Kept(s'.heap, s'.rank, cs');
    PublishInv(s, s', t);
  }

  lemma ReplaceInv(s: State, s': State, t: nat)
    requires Inv(s) && ReplaceCas(s, s', t)
    ensures Inv(s')
  {
    if Next(s.heap, s.pcs[t].left) == AsProtected(s.pcs[t].right) {
      ReplacePublishes(s, s', t);
    } else {
      assert Knows(s, t);
      RetryInv(s, s', t, Plain(s.pcs[t].right));
    }
  }

  // -------- Chasing and logging --------

  /** A live entry is the last publication of its hash, so no log record of that hash is later. */
  lemma LiveIsNewest(s: State, cs: seq<seq<nat>>, cur: nat)
    requires Kept(s.heap, s.rank, cs) && History(s) && LogOk(s)
    requires cur in s.rank && cur < |s.heap.slots| && !Dead(s.heap, cur)
    ensures Newest(s, cur)
  {
    assert SlotOk(s, cur);
    forall i | 0 <= i < |s.log|
      ensures NotAfter(s, i, cur)
    {
      assert Stamped(s, i);
      var p := s.stamps[i];
      if s.log[i].hashv == s.heap.slots[cur].hashv && p >= s.base {
        assert Published(s, p);
        var n :| n in s.rank && s.rank[n] == p;
        assert SlotOk(s, n);
        LiveIsLast(s.heap, s.rank, cs, cur, n);
      }
    }
  }

  lemma ChaseInv(s: State, s': State, t: nat)
    requires Inv(s) && ChaseOnce(s, s', t)
    ensures Inv(s')
  {
    var idx, cur := SlotOf(s, t), s.pcs[t].cur;
    assert Knows(s, t);
    var cs := TableWhileHeld(s, t);
    if Dead(s.heap, cur) {
      ChaseStep(s.heap, s.rank, cs, cur);
    } else {
      LiveIsNewest(s, cs, cur);
      forall i | 0 <= i < |s'.log|
        ensures NotAfter(s', i, cur)
      {
        assert NotAfter(s, i, cur);
      }
    }
    ShapeStable(s, s', t);
    MutexStable(s, s', t);
    GrantedStable(s, s');
    SameDataInv(s, s', t);
  }

  lemma WriteLog(s: State, s': State, t: nat)
    requires Inv(s) && Write(s, s', t)
    ensures LogOk(s')
  {
    var latest := s.pcs[t].latest;
    assert Knows(s, t);
    assert SlotOk(s, latest);
    forall i | 0 <= i < |s'.log|
      ensures Stamped(s', i)
    {
      assert i < |s.log| ==> Stamped(s, i);
    }
    forall i, j | 0 <= i < j < |s'.log|
      ensures NoOlder(s', i, j)
    {
      if j < |s.log| {
        assert NoOlder(s, i, j);
      } else {
        assert NotAfter(s, i, latest);
      }
    }
  }

  lemma WriteCoverage(s: State, s': State, t: nat)
    requires Inv(s) && Write(s, s', t)
    ensures Coverage(s')
  {
    var idx, latest := SlotOf(s, t), s.pcs[t].latest;
    assert Knows(s, t);
    assert SlotOk(s, latest) && SlotOk(s, idx);
    forall p: nat | p < |s'.hist|
      ensures Safe(s', p)
    {
      assert Safe(s, p);
      if Covered(s, p) {
        var i :| 0 <= i < |s.log| && s.log[i].hashv == s.hist[p].hashv && s.stamps[i] >= p;
        assert s'.log[i].hashv == s'.hist[p].hashv && s'.stamps[i] >= p;
      } else {
        var u :| Pending(s, u) && SlotOf(s, u) in s.rank && s.rank[SlotOf(s, u)] == p;
        if u == t {
          assert s'.log[|s.log|].hashv == s'.hist[p].hashv && s'.stamps[|s.log|] >= p;
        } else {
          assert Pending(s', u) && SlotOf(s', u) == SlotOf(s, u);
        }
      }
    }
  }

  lemma WriteInv(s: State, s': State, t: nat)
    requires Inv(s) && Write(s, s', t)
    ensures Inv(s')
  {
    assert Knows(s, t);
    assert SlotOk(s, s.pcs[t].latest);
    assert Inside(s, t);
    assert Frame(s, s', t);
    ShapeStable(s, s', t);
    MutexStable(s, s', t);
    GrantedStable(s, s');
    HistoryStable(s, s', t);
    WriteLog(s, s', t);
    WriteCoverage(s, s', t);
    ThreadsStable(s, s', t);
    TableStable(s, s', t);
  }

  // -------- The reset --------

  /** When the last holder sees all slots processed, nobody holds a slot. */
  lemma NobodyHeld(s: State, s': State, t: nat)
    requires Shape(s) && Slots.SeeAllProcessed(s.alloc, s'.alloc, t)
    ensures Slots.Reachable(s'.alloc)
    ensures forall u :: !Held(s, u)
    ensures forall u :: !Slots.Exclusive(s.alloc, u)
  {
    assert Slots.StepOf(s.alloc, s'.alloc, t);
    Slots.ReachableStep(s.alloc, s'.alloc, t);
    Slots.ReachableInv(s'.alloc);
    assert Slots.Exclusive(s'.alloc, t);
    Slots.NobodyHolds(s'.alloc, t);
    Slots.Others(s.alloc, s'.alloc, t);
    forall u
      ensures !Held(s, u)
    {
      var i := if u in s.alloc.pcs && s.alloc.pcs[u].Holding? then s.alloc.pcs[u].idx else 0;
      assert !Slots.At(s'.alloc, u, Slots.Holding(i));
    }
    forall u
      ensures !Slots.Exclusive(s.alloc, u)
    {
      assert Slots.Resetting(s'.alloc, u) ==> u == t;
    }
  }

  lemma StartResetInv(s: State, s': State, t: nat)
    requires Inv(s) && StartReset(s, s', t)
    ensures Inv(s')
  {
    NobodyHeld(s, s', t);
    ShapeStable(s, s', t);
    MutexStable(s, s', t);
    LogStable(s, s');
    assert Resets(s', t);
    forall u
      ensures !Held(s', u)
    {
      assert !Held(s, u);
    }
    forall p: nat | p < |s'.hist|
      ensures Safe(s', p)
    {
      assert Safe(s, p);
      var i :| 0 <= i < |s.log| && s.log[i].hashv == s.hist[p].hashv && s.stamps[i] >= p;
      assert s'.log[i].hashv == s'.hist[p].hashv;
    }
    forall u | u in s'.pcs
      ensures LatestOk(s', u)
    {
      assert u != t ==> LatestOk(s, u);
    }
    forall u
      ensures u != t ==> !Resets(s', u)
    {
      if u != t && u in s.pcs {
        assert Fits(s, u);
        assert s.pcs[u].Resetting? ==> Slots.Exclusive(s.alloc, u);
      }
    }
  }

  /** While one thread resets, no other thread does, and nobody holds a slot. */
  lemma ResetAlone(s: State, t: nat)
    requires Inv(s) && Resets(s, t)
    ensures s.alloc.pcs[t] == Slots.Wiping && s.rank == map[]
    ensures forall u :: !Held(s, u)
    ensures forall u :: Resets(s, u) ==> u == t
  {
    assert Fits(s, t);
    Slots.ReachableInv(s.alloc);
    assert Slots.Exclusive(s.alloc, t);
    Slots.NobodyHolds(s.alloc, t);
    forall u
      ensures !Held(s, u)
    {
      var i := if u in s.alloc.pcs && s.alloc.pcs[u].Holding? then s.alloc.pcs[u].idx else 0;
      assert !Slots.At(s.alloc, u, Slots.Holding(i));
    }
    forall u | Resets(s, u)
      ensures u == t
    {
      assert Fits(s, u);
      assert Slots.At(s.alloc, u, Slots.Wiping);
    }
  }

  /** Steps of a reset: no thread is anywhere on the write path. */
  lemma ResetStep(s: State, s': State, t: nat)
    requires Inv(s) && Resets(s, t) && Alone(s, s', t) && Shape(s') && Table(s')
    requires s'.rank == s.rank && s'.base == s.base && s'.hist == s.hist && s'.log == s.log && s'.stamps == s.stamps
    requires s'.locked == s.locked && !Inside(s', t) && !Held(s', t) && LatestOk(s', t)
    ensures Inv(s')
  {
    ResetAlone(s, t);
    MutexStable(s, s', t);
    LogStable(s, s');
    CoverageStable(s, s', t);
    forall u
      ensures !Held(s', u)
    {
      assert !Held(s, u);
    }
    assert s.base < |s.hist| ==> Published(s, s.base);
    forall u | u in s'.pcs
      ensures LatestOk(s', u)
    {
      assert u != t ==> LatestOk(s, u);
    }
  }

  lemma ResetBucketInv(s: State, s': State, t: nat)
    requires Inv(s) && ResetBucket(s, s', t)
    ensures Inv(s')
  {
    ResetAlone(s, t);
    ShapeStable(s, s', t);
    assert forall u :: Resets(s', u) <==> Resets(s, u);
    assert Resets(s', t);
    ResetStep(s, s', t);
  }

  lemma WipeInv(s: State, s': State, t: nat)
    requires Inv(s) && WipeSlots(s, s', t)
    ensures Inv(s')
  {
    ResetAlone(s, t);
    ShapeStable(s, s', t);
    assert forall b: nat :: b < |s.heap.heads| ==> s.heap.heads[b] == Plain(Head(b));
    EmptyTable(s');
    assert forall u :: Resets(s', u) ==> Resets(s, u);
    ResetStep(s, s', t);
  }

  // -------- All steps --------

  lemma StepInv(s: State, s': State)
    requires Inv(s) && Step(s, s')
    ensures Inv(s')
  {
    var t :| StepOf(s, s', t);
    if req :| Call(s, s', t, req) {
      CallInv(s, s', t, req);
    } else if r :| Search(s, s', t, r) {
      SearchInv(s, s', t, r);
    } else if Acquire(s, s', t) {
      AcquireInv(s, s', t);
    } else if Fill(s, s', t) {
      FillInv(s, s', t);
    } else if InsertCas(s, s', t) {
      InsertInv(s, s', t);
    } else if ReplaceCas(s, s', t) {
      ReplaceInv(s, s', t);
    } else if Lock(s, s', t) {
      LockInv(s, s', t);
    } else if ChaseOnce(s, s', t) {
      ChaseInv(s, s', t);
    } else if Write(s, s', t) {
      WriteInv(s, s', t);
    } else if Unlock(s, s', t) {
      UnlockInv(s, s', t);
    } else if Count(s, s', t) {
      CountInv(s, s', t);
    } else if Clear(s, s', t) {
      ClearInv(s, s', t);
    } else if StartReset(s, s', t) {
      StartResetInv(s, s', t);
    } else if ResetBucket(s, s', t) {
      ResetBucketInv(s, s', t);
    } else if WipeSlots(s, s', t) {
      WipeInv(s, s', t);
    } else {
      StoreCounterInv(s, s', t);
    }
  }
}
