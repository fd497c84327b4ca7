/** The store `ready = 0` comes after the count, when the slot may already belong to
    the next epoch.  Exactly the holder of the last slot cannot be that late; and
    since nothing reads the flag, being late changes nothing else. */
module ReadyFlags {
  import opened EntryHeap
  import opened Messages
  import opened Replicator
  import opened ReplicatorInv
  import opened ReplicatorRuns
  import opened ReplicatorAlone
  import Slots = SlotAllocator

  /** Thread `t` counts slot `idx` in step `i` and stores to `ready` in step `m`, in a later epoch. */
  ghost predicate LateClear(ss: seq<State>, n: nat, idx: nat, t: nat, i: nat, m: nat) {
    && i < m && m + 1 < |ss| && ss[i].alloc.n == n
    && Slots.At(ss[i].alloc, t, Slots.Holding(idx)) && Count(ss[i], ss[i + 1], t)
    && (forall k :: i < k <= m ==> Slots.At(ss[k].alloc, t, Slots.Counted(idx)))
    && Clear(ss[m], ss[m + 1], t)
    && ss[i].alloc.epoch < ss[m].alloc.epoch
  }

  // -------- The last slot --------

  lemma EpochKept(s: State, s': State, t: nat)
    requires StepOf(s, s', t) && !StoreCounter(s, s', t)
    ensures s'.alloc.n == s.alloc.n && s'.alloc.epoch == s.alloc.epoch
  {
  }

  /** A new epoch starts only by the reset's first store. */
  lemma EpochStep(s: State, s': State)
    requires Step(s, s')
    ensures s'.alloc.n == s.alloc.n
    ensures s'.alloc.epoch == s.alloc.epoch || exists u :: Slots.StoreFree(s.alloc, s'.alloc, u)
  {
    var t :| StepOf(s, s', t);
    if StoreCounter(s, s', t) {
      assert Slots.StoreFree(s.alloc, s'.alloc, t) || s'.alloc.epoch == s.alloc.epoch;
    } else {
      EpochKept(s, s', t);
    }
  }

  /** While the holder of the last slot has not stored yet, nobody else resets. */
  lemma EpochWaits(s: State, s': State, t: nat)
    requires Slots.Inv(s.alloc) && Step(s, s') && Slots.At(s.alloc, t, Slots.Counted(s.alloc.n - 1))
    ensures s'.alloc.epoch == s.alloc.epoch && s'.alloc.n == s.alloc.n
  {
    EpochStep(s, s');
    assert Slots.Resetting(s.alloc, t);
    forall u | Slots.StoreFree(s.alloc, s'.alloc, u)
      ensures false
    {
      assert Slots.Resetting(s.alloc, u);
    }
  }

  lemma {:induction false} EpochLasts(ss: seq<State>, n: nat, t: nat, a: nat, b: nat)
    requires Run(ss) && a <= b < |ss| && n > 0 && ss[a].alloc.n == n
    requires forall k :: a <= k <= b ==> Slots.At(ss[k].alloc, t, Slots.Counted(n - 1))
    ensures ss[b].alloc.epoch == ss[a].alloc.epoch && ss[b].alloc.n == n
  {
    if a < b {
      EpochLasts(ss, n, t, a, b - 1);
      AllocInv(ss, b - 1);
      assert StepAt(ss, b - 1);
      EpochWaits(ss[b - 1], ss[b], t);
    }
  }

  lemma AllocInv(ss: seq<State>, k: nat)
    requires Run(ss) && k < |ss|
    ensures Slots.Inv(ss[k].alloc)
  {
    RunInv(ss, k);
    Slots.ReachableInv(ss[k].alloc);
  }

  lemma LastSlotIsNotLate(ss: seq<State>, n: nat, idx: nat, t: nat, i: nat, m: nat)
    requires Run(ss) && LateClear(ss, n, idx, t, i, m) && n > 0
    ensures idx != n - 1
  {
    if idx == n - 1 {
      assert ss[i + 1].alloc.n == n && ss[i + 1].alloc.epoch == ss[i].alloc.epoch;
      EpochLasts(ss, n, t, i + 1, m);
    }
  }

  // -------- Any other slot --------

  /** Thread `t` clears the buckets from `b` on. */
  lemma {:induction false} BucketsAlone(ss: seq<State>, t: nat, b: nat) returns (ss': seq<State>)
    requires Run(ss) && Has(End(ss), t, Resetting(b)) && b <= |End(ss).heap.heads|
    ensures GoesOn(ss, ss', t)
    ensures var s, s' := End(ss), End(ss');
            s' == s.(heap := s'.heap, pcs := s.pcs[t := Resetting(|s.heap.heads|)]) && |s'.heap.slots| == |s.heap.slots|
    decreases |End(ss).heap.heads| - b
  {
    var s := End(ss);
    EndFitting(ss, t);
    if b == |s.heap.heads| {
      ss' := ss;
    } else {
      var s' := s.(heap := s.heap.(heads := s.heap.heads[b := Plain(Head(b))]), pcs := s.pcs[t := Resetting(b + 1)]);
      assert ResetBucket(s, s', t);
      var now := GoOn(ss, ss, s', t);
      ss' := BucketsAlone(now, t, b + 1);
      GoesOnFrom(ss, now, ss', t);
    }
  }

  lemma WipeAlone(ss: seq<State>, t: nat) returns (ss': seq<State>)
    requires Run(ss) && Has(End(ss), t, Resetting(|End(ss).heap.heads|))
    ensures GoesOn(ss, ss', t)
    ensures var s, s' := End(ss), End(ss');
            && Has(s', t, Resting) && s'.alloc == Slots.Move(s.alloc, t, Slots.StoringFree) && s'.locked == s.locked
  {
    var s := End(ss);
    EndFitting(ss, t);
    var s' := s.(alloc := Slots.Move(s.alloc, t, Slots.StoringFree), pcs := s.pcs[t := Resting],
                 heap := s.heap.(slots := seq(|s.heap.slots|, i => NO_ENTRY)),
                 reqs := seq(|s.reqs|, i => NO_REQUEST), ready := seq(|s.ready|, i => false));
    assert WipeSlots(s, s', t);
    ss' := GoOn(ss, ss, s', t);
  }

  /** The two stores that open the new epoch. */
  lemma StoresAlone(ss: seq<State>, t: nat) returns (ss': seq<State>)
    requires Run(ss) && Has(End(ss), t, Resting) && Slots.At(End(ss).alloc, t, Slots.StoringFree) && !End(ss).locked
    ensures GoesOn(ss, ss', t) && Free(End(ss'), t)
    ensures var a, a' := End(ss).alloc, End(ss').alloc;
            a'.nextFree == a'.processed == 0 && a'.n == a.n && a'.epoch == a.epoch + 1
  {
    var s := End(ss);
    EndFitting(ss, t);
    var s1 := s.(alloc := Slots.Move(s.alloc, t, Slots.StoringProcessed)
                          .(nextFree := 0, finished := {}, lost := 0, epoch := s.alloc.epoch + 1));
    assert StoreCounter(s, s1, t);
    ss' := GoOn(ss, ss, s1, t);
    var s2 := s1.(alloc := Slots.Move(s1.alloc, t, Slots.Idle).(processed := 0, lost := |s1.alloc.finished|));
    assert StoreCounter(s1, s2, t);
    ss' := GoOn(ss, ss', s2, t);
  }

  lemma ResetsAlone(ss: seq<State>, t: nat) returns (ss': seq<State>)
    requires Run(ss) && Has(End(ss), t, Resting) && Slots.At(End(ss).alloc, t, Slots.Draining) && !End(ss).locked
    requires End(ss).alloc.processed == End(ss).alloc.n
    ensures GoesOn(ss, ss', t) && Free(End(ss'), t)
    ensures var a, a' := End(ss).alloc, End(ss').alloc;
            a'.nextFree == a'.processed == 0 && a'.n == a.n && a'.epoch == a.epoch + 1
  {
    var s := End(ss);
    EndFitting(ss, t);
    var s' := s.(alloc := Slots.Move(s.alloc, t, Slots.Wiping), pcs := s.pcs[t := Resetting(0)], rank := map[],
        base := |s.hist|);
    assert StartReset(s, s', t);
    var now := GoOn(ss, ss, s', t);
    var next := BucketsAlone(now, t, 0);
    GoesOnFrom(ss, now, next, t);
    now := WipeAlone(next, t);
    GoesOnFrom(ss, next, now, t);
    ss' := StoresAlone(now, t);
    GoesOnFrom(ss, now, ss', t);
  }

  /** Thread 1 uses the slots before `idx`, then thread 0 writes on slot `idx`, up to its count. */
  lemma CountedRun(n: nat, idx: nat) returns (ss: seq<State>)
    requires idx < n
    ensures Run(ss) && |ss| > 1 && Count(ss[|ss| - 2], End(ss), 0)
    ensures Slots.At(ss[|ss| - 2].alloc, 0, Slots.Holding(idx)) && Slots.At(End(ss).alloc, 0, Slots.Counted(idx))
    ensures Has(End(ss), 0, Clearing(idx)) && Free(End(ss), 1)
    ensures var a := End(ss).alloc; a.n == n && a.nextFree == a.processed == idx + 1
  {
    var s0 := State(Slots.State(n, 0, 0, map[0 := Slots.Idle, 1 := Slots.Idle], {}, 0, 0),
                    Heap(ClearHeads(1), seq(n, i => NO_ENTRY)), seq(n, i => NO_REQUEST), seq(n, i => false), false, [],
                    map[0 := Resting, 1 := Resting], [], [], 0, map[], []);
    assert Init(s0);
    var now := CallsAlone([s0], 1, idx);
    assert Alone(s0, End(now), 1);
    EndFitting(now, 0);
    ss := WriteAlone(now, 0, NO_REQUEST);
    assert Alone(End(now), End(ss), 0);
  }

  /** Thread 1 finishes the epoch, resets, and comes to hold slot `idx` in the next one. */
  lemma NextEpochAlone(ss: seq<State>, idx: nat) returns (ss': seq<State>)
    requires Run(ss) && Free(End(ss), 1) && idx + 1 < End(ss).alloc.n
    requires End(ss).alloc.nextFree == End(ss).alloc.processed == idx + 1
    ensures GoesOn(ss, ss', 1) && End(ss').alloc.epoch == End(ss).alloc.epoch + 1
    ensures Owns(End(ss'), 1, idx) && Has(End(ss'), 1, Searching)
    ensures idx < |End(ss').ready| && End(ss').ready[idx]
  {
    var n := End(ss).alloc.n;
    var now := CallsAlone(ss, 1, n - 1);
    var next := CallAlone(now, 1);
    GoesOnFrom(ss, now, next, 1);
    now := ResetsAlone(next, 1);
    GoesOnFrom(ss, next, now, 1);
    next := CallsAlone(now, 1, idx);
    GoesOnFrom(ss, now, next, 1);
    EndFitting(next, 1);
    ss' := RegisterAlone(next, 1, NO_REQUEST);
    GoesOnFrom(ss, next, ss', 1);
  }

  /** A run in which thread 0 clears the flag of a slot that thread 1 has just filled in the next epoch. */
  lemma LateClearRun(n: nat, idx: nat) returns (ss: seq<State>, i: nat, m: nat)
    requires idx + 1 < n
    ensures Run(ss) && LateClear(ss, n, idx, 0, i, m)
    ensures Owns(ss[m], 1, idx) && Has(ss[m], 1, Searching)
    ensures idx < |ss[m].ready| == |ss[m + 1].ready| && ss[m].ready[idx] && !ss[m + 1].ready[idx]
  {
    var first := CountedRun(n, idx);
    i := |first| - 2;
    var now := NextEpochAlone(first, idx);
    m := |now| - 1;
    assert Alone(End(first), End(now), 1);
    var s' := ClearOnce(End(now), 0);
    assert Alone(End(now), s', 0);
    ss := GoOn(now, now, s', 0);
    forall k | i < k <= m
      ensures Slots.At(ss[k].alloc, 0, Slots.Counted(idx))
    {
      assert ss[k] == now[k] && Alone(End(first), now[k], 1);
    }
  }

  /** The store can come late for every slot but the last one of an epoch. */
  lemma LateClearIff(n: nat, idx: nat)
    requires idx < n
    ensures (exists ss, t, i, m :: Run(ss) && LateClear(ss, n, idx, t, i, m)) <==> idx != n - 1
  {
    if idx == n - 1 {
      forall ss, t, i, m | Run(ss) && LateClear(ss, n, idx, t, i, m)
        ensures false
      {
        LastSlotIsNotLate(ss, n, idx, t, i, m);
      }
    } else {
      var ss, i, m := LateClearRun(n, idx);
    }
  }

  // -------- Nothing reads the flag --------

  /** With other flags every step is possible all the same and does the same to all the rest. */
  lemma ReadyUnread(s: State, s': State, t: nat, ready: seq<bool>) returns (ready': seq<bool>)
    requires StepOf(s, s', t) && |ready| == |s.ready|
    ensures |ready'| == |s'.ready| && StepOf(s.(ready := ready), s'.(ready := ready'), t)
  {
    var r := s.(ready := ready);
    if Fill(s, s', t) {
      ready' := ready[SlotOf(s, t) := true];
      assert Fill(r, s'.(ready := ready'), t);
    } else if ChaseOnce(s, s', t) {
      ready' := ChaseUnread(s, s', t, ready);
    } else if Clear(s, s', t) {
      ready' := ready[s.pcs[t].latest := false];
      assert Clear(r, s'.(ready := ready'), t);
    } else if WipeSlots(s, s', t) {
      ready' := seq(|ready|, i => false);
      assert WipeSlots(r, s'.(ready := ready'), t);
    } else {
      ready' := ready;
      UntouchedUnread(s, s', t, ready);
    }
  }

  lemma ChaseUnread(s: State, s': State, t: nat, ready: seq<bool>) returns (ready': seq<bool>)
    requires ChaseOnce(s, s', t) && |ready| == |s.ready|
    ensures |ready'| == |s'.ready| && ChaseOnce(s.(ready := ready), s'.(ready := ready'), t)
  {
    var cur := s.pcs[t].cur;
    var same := s.heap.slots[cur].hashv == s.heap.slots[SlotOf(s, t)].hashv;
    ready' := if s.heap.slots[cur].next.deleted && same then ready[cur := false] else ready;
  }

  lemma UntouchedUnread(s: State, s': State, t: nat, ready: seq<bool>)
    requires StepOf(s, s', t) && |ready| == |s.ready|
    requires !Fill(s, s', t) && !ChaseOnce(s, s', t) && !Clear(s, s', t) && !WipeSlots(s, s', t)
    ensures s'.ready == s.ready && StepOf(s.(ready := ready), s'.(ready := ready), t)
  {
    if InsertCas(s, s', t) || ReplaceCas(s, s', t) {
      CasUnread(s, s', t, ready);
    } else if req :| Call(s, s', t, req) {
      assert Call(s.(ready := ready), s'.(ready := ready), t, req);
    } else if x :| Search(s, s', t, x) {
      assert Search(s.(ready := ready), s'.(ready := ready), t, x);
    } else {
      OthersUnread(s, s', t, ready);
    }
  }

  ghost predicate Others(s: State, s': State, t: nat) {
    || Acquire(s, s', t) || Lock(s, s', t) || Write(s, s', t) || Unlock(s, s', t) || Count(s, s', t)
    || StartReset(s, s', t) || ResetBucket(s, s', t) || StoreCounter(s, s', t)
  }

  lemma OthersUnread(s: State, s': State, t: nat, ready: seq<bool>)
    requires Others(s, s', t) && |ready| == |s.ready|
    ensures s'.ready == s.ready && Others(s.(ready := ready), s'.(ready := ready), t)
  {
  }

  lemma CasUnread(s: State, s': State, t: nat, ready: seq<bool>)
    requires (InsertCas(s, s', t) || ReplaceCas(s, s', t)) && |ready| == |s.ready|
    ensures var r, r' := s.(ready := ready), s'.(ready := ready); InsertCas(r, r', t) || ReplaceCas(r, r', t)
  {
  }
}
