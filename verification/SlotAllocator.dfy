/** The slot allocator as a machine over its two atomic counters.

    Each fetch-and-add, each load that ends a spin loop and each of the two
    stores of a reset is a step of its own.  The number of slots is `s.n`. */
module SlotAllocator {

  datatype Pc =
    | Idle
    | Trying                    // about to fetch-and-add `next_free`
    | Waiting                   // spinning until `next_free` is below the slot count
    | Holding(idx: nat)         // owns slot `idx`
    | Counted(idx: nat)         // has added itself to `processed`
    | Draining                  // held the last slot; spinning until all are processed
    | Wiping                    // resets the table and zeroes the slots
    | StoringFree               // about to store 0 to `next_free`
    | StoringProcessed          // about to store 0 to `processed`

  /** `finished` and `epoch` are history: the slots counted since `next_free` was
      last stored, and how often that happened.  `lost` is how many of those counts
      the late store to `processed` has wiped out. */
  datatype State = State(n: nat, nextFree: nat, processed: nat, pcs: map<nat, Pc>,
                         finished: set<nat>, lost: nat, epoch: nat)

  ghost predicate Init(s: State) {
    && s.n > 0 && s.nextFree == 0 && s.processed == 0
    && s.finished == {} && s.lost == 0 && s.epoch == 0
    && (forall t :: t in s.pcs ==> s.pcs[t] == Idle)
  }

  // -------- Steps of thread t --------

  function Move(s: State, t: nat, pc: Pc): State {
    s.(pcs := s.pcs[t := pc])
  }

  predicate At(s: State, t: nat, pc: Pc) {
    t in s.pcs && s.pcs[t] == pc
  }

  ghost predicate Begin(s: State, s': State, t: nat) {
    At(s, t, Idle) && s' == Move(s, t, Trying)
  }

  ghost predicate FetchFree(s: State, s': State, t: nat) {
    && At(s, t, Trying)
    && s' == Move(s, t, if s.nextFree < s.n then Holding(s.nextFree) else Waiting).(nextFree := s.nextFree + 1)
  }

  ghost predicate SeeFree(s: State, s': State, t: nat) {
    At(s, t, Waiting) && s.nextFree < s.n && s' == Move(s, t, Trying)
  }

  ghost predicate Count(s: State, s': State, t: nat) {
    && t in s.pcs && s.pcs[t].Holding?
    && s' == Move(s, t, Counted(s.pcs[t].idx)).(processed := s.processed + 1, finished := s.finished + {s.pcs[t].idx})
  }

  /** After the count only the holder of the last slot has more to do. */
  ghost predicate Leave(s: State, s': State, t: nat) {
    && t in s.pcs && s.pcs[t].Counted?
    && s' == Move(s, t, if s.pcs[t].idx == s.n - 1 then Draining else Idle)
  }

  ghost predicate SeeAllProcessed(s: State, s': State, t: nat) {
    At(s, t, Draining) && s.processed == s.n && s' == Move(s, t, Wiping)
  }

  ghost predicate Wipe(s: State, s': State, t: nat) {
    At(s, t, Wiping) && s' == Move(s, t, StoringFree)
  }

  ghost predicate StoreFree(s: State, s': State, t: nat) {
    && At(s, t, StoringFree)
    && s' == Move(s, t, StoringProcessed).(nextFree := 0, finished := {}, lost := 0, epoch := s.epoch + 1)
  }

  ghost predicate StoreProcessed(s: State, s': State, t: nat) {
    && At(s, t, StoringProcessed)
    && s' == Move(s, t, Idle).(processed := 0, lost := |s.finished|)
  }

  ghost predicate StepOf(s: State, s': State, t: nat) {
    || Begin(s, s', t) || FetchFree(s, s', t) || SeeFree(s, s', t)
    || Count(s, s', t) || Leave(s, s', t) || SeeAllProcessed(s, s', t)
    || Wipe(s, s', t) || StoreFree(s, s', t) || StoreProcessed(s, s', t)
  }

  ghost predicate Step(s: State, s': State) {
    exists t :: StepOf(s, s', t)
  }

  // -------- The invariant --------

  predicate Granted(s: State, i: nat) {
    i < s.nextFree && i < s.n
  }

  ghost predicate Held(s: State, i: nat) {
    exists t :: At(s, t, Holding(i))
  }

  /** The thread that will reset this epoch, from its count of the last slot on. */
  predicate Resetting(s: State, t: nat) {
    t in s.pcs && match s.pcs[t]
                  case Counted(i) => i == s.n - 1
                  case Draining => true
                  case Wiping => true
                  case StoringFree => true
                  case _ => false
  }

  predicate Exclusive(s: State, t: nat) {
    At(s, t, Wiping) || At(s, t, StoringFree)
  }

  /** A granted slot is finished or held by one thread, and nothing else is. */
  ghost predicate SlotsOk(s: State) {
    && s.n > 0
    && (forall i :: i in s.finished ==> Granted(s, i))
    && (forall t, i :: At(s, t, Holding(i)) ==> Granted(s, i) && i !in s.finished)
    && (forall t, u, i :: At(s, t, Holding(i)) && At(s, u, Holding(i)) ==> t == u)
    && (forall i: nat :: Granted(s, i) ==> i in s.finished || Held(s, i))
  }

  ghost predicate ResetOk(s: State) {
    && (forall t, u :: Resetting(s, t) && Resetting(s, u) ==> t == u)
    && (forall t :: Resetting(s, t) ==> s.n - 1 in s.finished)
    && (forall t :: Exclusive(s, t) ==> |s.finished| == s.n && s.lost == 0 && s.processed == s.n)
    && (forall t, u :: At(s, t, StoringProcessed) ==> !Exclusive(s, u))
    && (forall t, u :: At(s, t, StoringProcessed) && At(s, u, StoringProcessed) ==> t == u)
  }

  /** Between the two stores of a reset `processed` still carries the old epoch. */
  ghost predicate CountOk(s: State) {
    if exists t :: At(s, t, StoringProcessed)
    then s.processed == s.n + |s.finished| && s.lost == 0
    else s.processed + s.lost == |s.finished|
  }

  ghost predicate Inv(s: State) {
    SlotsOk(s) && ResetOk(s) && CountOk(s)
  }

  lemma InitInv(s: State)
    requires Init(s)
    ensures Inv(s)
  {
  }

  function Below(k: nat): (r: set<nat>)
    ensures |r| == k && forall i :: i in r <==> 0 <= i < k
  {
    if k == 0 then {} else Below(k - 1) + {k - 1}
  }

  lemma FinishedBound(s: State)
    requires SlotsOk(s)
    ensures |s.finished| <= s.n
    ensures |s.finished| == s.n ==> forall i :: i in s.finished <==> 0 <= i < s.n
  {
    assert s.finished <= Below(s.n);
    SubsetSize(s.finished, Below(s.n));
  }

  lemma {:induction false} SubsetSize(a: set<nat>, b: set<nat>)
    requires a <= b
    ensures |a| <= |b| && (|a| == |b| ==> a == b)
  {
    if a != {} {
      var x :| x in a;
      SubsetSize(a - {x}, b - {x});
      assert a == (a - {x}) + {x} && b == (b - {x}) + {x};
    }
  }

  // -------- Every step keeps it --------

  ghost predicate OnlyMoves(s: State, s': State, t: nat) {
    t in s.pcs && t in s'.pcs && s'.pcs == s.pcs[t := s'.pcs[t]] && s'.n == s.n
  }

  /** A step of `t` is no step of anybody else. */
  lemma Others(s: State, s': State, t: nat)
    requires OnlyMoves(s, s', t)
    ensures forall u, pc :: At(s', u, pc) <==> if u == t then pc == s'.pcs[t] else At(s, u, pc)
    ensures forall u :: u != t ==> (Resetting(s', u) <==> Resetting(s, u))
    ensures forall u :: u != t ==> (Exclusive(s', u) <==> Exclusive(s, u))
  {
  }

  lemma FetchFreeInv(s: State, s': State, t: nat)
    requires Inv(s) && FetchFree(s, s', t)
    ensures Inv(s')
  {
    Others(s, s', t);
    forall i: nat | Granted(s', i)
      ensures i in s'.finished || Held(s', i)
    {
      if i == s.nextFree {
        assert At(s', t, Holding(i));
      } else if i !in s.finished {
        assert Granted(s, i);
        var u :| At(s, u, Holding(i));
        assert At(s', u, Holding(i));
      }
    }
    KeepWindow(s, s', t);
    assert !Resetting(s', t) && !Exclusive(s', t);
  }

  /** Steps that neither enter nor leave the window between the two stores. */
  lemma KeepWindow(s: State, s': State, t: nat)
    requires OnlyMoves(s, s', t)
    requires s.pcs[t] != StoringProcessed && s'.pcs[t] != StoringProcessed
    ensures forall u :: At(s', u, StoringProcessed) <==> At(s, u, StoringProcessed)
    ensures (exists u :: At(s', u, StoringProcessed)) <==> (exists u :: At(s, u, StoringProcessed))
  {
    Others(s, s', t);
  }

  lemma KeepHeld(s: State, s': State, t: nat)
    requires SlotsOk(s) && OnlyMoves(s, s', t)
    requires !s.pcs[t].Holding? && !s'.pcs[t].Holding?
    requires s'.nextFree == s.nextFree && s'.finished == s.finished
    ensures SlotsOk(s')
  {
    Others(s, s', t);
    forall i: nat | Granted(s', i)
      ensures i in s'.finished || Held(s', i)
    {
      assert Granted(s, i);
      if i !in s.finished {
        var u :| At(s, u, Holding(i));
        assert At(s', u, Holding(i));
      }
    }
  }

  lemma QuietInv(s: State, s': State, t: nat)
    requires Inv(s) && (Begin(s, s', t) || SeeFree(s, s', t) || Leave(s, s', t) || Wipe(s, s', t))
    ensures Inv(s')
  {
    QuietKeeps(s, s', t);
  }

  /** A step that neither touches a counter nor gives anybody a part in the reset. */
  lemma QuietKeeps(s: State, s': State, t: nat)
    requires Inv(s) && OnlyMoves(s, s', t) && s' == s.(pcs := s'.pcs)
    requires !s.pcs[t].Holding? && !s'.pcs[t].Holding?
    requires s.pcs[t] != StoringProcessed && s'.pcs[t] != StoringProcessed
    requires (Resetting(s', t) ==> Resetting(s, t)) && (Exclusive(s', t) ==> Exclusive(s, t))
    ensures Inv(s')
  {
    Others(s, s', t);
    KeepHeld(s, s', t);
    KeepWindow(s, s', t);
  }

  lemma CountInv(s: State, s': State, t: nat)
    requires Inv(s) && Count(s, s', t)
    ensures Inv(s')
  {
    Others(s, s', t);
    var idx := s.pcs[t].idx;
    assert At(s, t, Holding(idx));
    forall i: nat | Granted(s', i)
      ensures i in s'.finished || Held(s', i)
    {
      assert Granted(s, i);
      if i !in s'.finished {
        var u :| At(s, u, Holding(i));
        assert At(s', u, Holding(i));
      }
    }
    KeepWindow(s, s', t);
    FinishedBound(s);
    assert !Exclusive(s', t);
    assert Resetting(s', t) <==> idx == s.n - 1;
    forall u
      ensures !Exclusive(s, u)
    {
      NotExclusiveWhileHeld(s, u, t, idx);
    }
  }

  lemma NotExclusiveWhileHeld(s: State, u: nat, t: nat, idx: nat)
    requires Inv(s) && At(s, t, Holding(idx))
    ensures !Exclusive(s, u)
  {
    if Exclusive(s, u) {
      NobodyHolds(s, u);
    }
  }

  /** The spin on `processed` ends only when the whole epoch is finished and nothing was lost. */
  lemma SeeAllProcessedInv(s: State, s': State, t: nat)
    requires Inv(s) && SeeAllProcessed(s, s', t)
    ensures Inv(s') && |s.finished| == s.n && s.lost == 0
  {
    Others(s, s', t);
    assert Resetting(s, t) && Exclusive(s', t);
    FinishedBound(s);
    KeepHeld(s, s', t);
    KeepWindow(s, s', t);
    assert s.n - 1 in s.finished;
    assert |s.finished| > 0;
    forall u
      ensures Exclusive(s, u) ==> u == t
    {
      assert Exclusive(s, u) ==> Resetting(s, u);
    }
  }

  lemma StoreFreeInv(s: State, s': State, t: nat)
    requires Inv(s) && StoreFree(s, s', t)
    ensures Inv(s')
  {
    Others(s, s', t);
    assert Exclusive(s, t) && Resetting(s, t);
    NobodyHolds(s, t);
    assert At(s', t, StoringProcessed);
    assert !Resetting(s', t) && !Exclusive(s', t);
    forall u
      ensures !Exclusive(s', u)
    {
      assert Exclusive(s', u) ==> Resetting(s', u);
    }
  }

  /** While a thread resets, all slots are finished and nobody holds one. */
  lemma NobodyHolds(s: State, t: nat)
    requires Inv(s) && Exclusive(s, t)
    ensures forall i :: i in s.finished <==> 0 <= i < s.n
    ensures forall u, i :: !At(s, u, Holding(i))
    ensures forall u :: !At(s, u, StoringProcessed)
    ensures forall u :: Resetting(s, u) ==> u == t
    ensures forall u :: At(s, u, Wiping) || At(s, u, StoringFree) ==> u == t
  {
    FinishedBound(s);
    assert Resetting(s, t);
    assert forall u, i :: At(s, u, Holding(i)) ==> Granted(s, i);
    forall u | At(s, u, Wiping) || At(s, u, StoringFree)
      ensures u == t
    {
      assert Resetting(s, u);
    }
  }

  lemma StoreProcessedInv(s: State, s': State, t: nat)
    requires Inv(s) && StoreProcessed(s, s', t)
    ensures Inv(s')
  {
    Others(s, s', t);
    KeepHeld(s, s', t);
    assert At(s, t, StoringProcessed);
    assert !Resetting(s', t) && !Exclusive(s', t);
  }

  lemma StepInv(s: State, s': State)
    requires Inv(s) && Step(s, s')
    ensures Inv(s')
  {
    var t :| StepOf(s, s', t);
    if FetchFree(s, s', t) {
      FetchFreeInv(s, s', t);
    } else if Count(s, s', t) {
      CountInv(s, s', t);
    } else if SeeAllProcessed(s, s', t) {
      SeeAllProcessedInv(s, s', t);
    } else if StoreFree(s, s', t) {
      StoreFreeInv(s, s', t);
    } else if StoreProcessed(s, s', t) {
      StoreProcessedInv(s, s', t);
    } else {
      QuietInv(s, s', t);
    }
  }

  // -------- Whole runs --------

  ghost predicate StepAt(ss: seq<State>, i: nat)
    requires i + 1 < |ss|
  {
    Step(ss[i], ss[i + 1])
  }

  /** A run from any first state. */
  ghost predicate RunFrom(ss: seq<State>) {
    |ss| > 0 && forall i :: 0 <= i < |ss| - 1 ==> StepAt(ss, i)
  }

  lemma {:induction false} RunInv(ss: seq<State>, i: nat)
    requires RunFrom(ss) && Inv(ss[0]) && i < |ss|
    ensures Inv(ss[i])
  {
    if i > 0 {
      RunInv(ss, i - 1);
      assert StepAt(ss, i - 1);
      StepInv(ss[i - 1], ss[i]);
    }
  }

  lemma Extend(ss: seq<State>, s': State, t: nat) returns (ss': seq<State>)
    requires RunFrom(ss) && StepOf(ss[|ss| - 1], s', t)
    ensures RunFrom(ss') && ss'[0] == ss[0] && |ss'| == |ss| + 1 && ss'[|ss|] == s'
  {
    ss' := ss + [s'];
    forall i | 0 <= i < |ss'| - 1
      ensures StepAt(ss', i)
    {
      if i < |ss| - 1 {
        assert StepAt(ss, i);
      }
    }
  }

  ghost predicate Reachable(s: State) {
    exists ss :: RunFrom(ss) && Init(ss[0]) && ss[|ss| - 1] == s
  }

  lemma ReachableInit(s: State)
    requires Init(s)
    ensures Reachable(s)
  {
    assert RunFrom([s]);
  }

  lemma ReachableStep(s: State, s': State, t: nat)
    requires Reachable(s) && StepOf(s, s', t)
    ensures Reachable(s')
  {
    var ss :| RunFrom(ss) && Init(ss[0]) && ss[|ss| - 1] == s;
    var ss' := Extend(ss, s', t);
  }

  lemma ReachableInv(s: State)
    requires Reachable(s)
    ensures Inv(s)
  {
    var ss :| RunFrom(ss) && Init(ss[0]) && ss[|ss| - 1] == s;
    InitInv(ss[0]);
    RunInv(ss, |ss| - 1);
  }

  lemma HeldOnce(s: State, t: nat, u: nat, idx: nat)
    requires SlotsOk(s) && At(s, t, Holding(idx)) && At(s, u, Holding(idx))
    ensures t == u && Granted(s, idx)
  {
  }

  /** No slot is ever held by two threads. */
  lemma SlotsExclusive(ss: seq<State>, i: nat, t: nat, u: nat, idx: nat)
    requires RunFrom(ss) && Init(ss[0]) && i < |ss|
    requires At(ss[i], t, Holding(idx)) && At(ss[i], u, Holding(idx))
    ensures t == u && idx < ss[i].n
  {
    InitInv(ss[0]);
    RunInv(ss, i);
    var s := ss[i];
    HeldOnce(s, t, u, idx);
  }

  /** The table is reset and the slots are wiped by one thread, at a time when
      every slot of the epoch has been counted and none is held. */
  lemma WipeOnlyWhenAllFinished(ss: seq<State>, i: nat, t: nat)
    requires RunFrom(ss) && Init(ss[0]) && i < |ss|
    requires At(ss[i], t, Wiping)
    ensures forall idx :: idx in ss[i].finished <==> 0 <= idx < ss[i].n
    ensures forall u, idx :: !At(ss[i], u, Holding(idx))
    ensures forall u :: At(ss[i], u, Wiping) || At(ss[i], u, StoringFree) ==> u == t
  {
    InitInv(ss[0]);
    RunInv(ss, i);
    assert Exclusive(ss[i], t);
    NobodyHolds(ss[i], t);
  }

  // -------- When the reset can happen --------

  /** A full epoch: the last holder spins on `processed`, every slot is counted,
      and no store of an earlier reset is outstanding. */
  ghost predicate FullEpoch(s: State, t: nat) {
    && At(s, t, Draining)
    && |s.finished| == s.n
    && forall u :: !At(s, u, StoringProcessed)
  }

  /** The spin of a full epoch ends exactly when nothing was lost. */
  lemma ResetIffNothingLost(s: State, t: nat)
    requires Inv(s) && FullEpoch(s, t)
    ensures (exists s' :: SeeAllProcessed(s, s', t)) <==> s.lost == 0
  {
    if s.lost == 0 {
      assert SeeAllProcessed(s, Move(s, t, Wiping), t);
    }
  }

  /** What the late store loses: all counts made since the store before it. */
  lemma LateStoreLosesCounts(s: State, s': State, t: nat)
    requires Inv(s) && StoreProcessed(s, s', t)
    ensures s'.lost == |s.finished| == s.processed - s.n
  {
    assert At(s, t, StoringProcessed);
  }

  lemma LostMeansNoReset(s: State)
    requires Inv(s) && s.lost > 0
    ensures forall t :: !Exclusive(s, t) && !At(s, t, StoringProcessed) && !At(s, t, Wiping) && !At(s, t, StoringFree)
  {
    assert forall t :: !Exclusive(s, t);
  }

  lemma LostStays(s: State, s': State)
    requires Inv(s) && Step(s, s') && s.lost > 0
    ensures s'.lost == s.lost && s'.epoch == s.epoch
  {
    LostMeansNoReset(s);
  }

  /** Once a count is lost there is never another reset, whatever the threads do. */
  lemma {:induction false} LostMeansNoMoreResets(ss: seq<State>, i: nat)
    requires RunFrom(ss) && Inv(ss[0]) && ss[0].lost > 0 && i < |ss|
    ensures ss[i].epoch == ss[0].epoch && ss[i].lost == ss[0].lost
    ensures forall t :: !At(ss[i], t, Wiping)
  {
    RunInv(ss, i);
    if i > 0 {
      LostMeansNoMoreResets(ss, i - 1);
      RunInv(ss, i - 1);
      assert StepAt(ss, i - 1);
      LostStays(ss[i - 1], ss[i]);
    }
    LostMeansNoReset(ss[i]);
  }

  /** Step `m` of the run is the late store of a reset. */
  ghost predicate LateStore(ss: seq<State>, m: nat, t: nat) {
    m + 1 < |ss| && StoreProcessed(ss[m], ss[m + 1], t)
  }

  /** Every late store before state `i` found no count made since the store to `next_free`. */
  ghost predicate NoCountInGap(ss: seq<State>, i: nat) {
    forall m: nat, t: nat {:trigger LateStore(ss, m, t)} :: m < i && LateStore(ss, m, t) ==> ss[m].processed == ss[m].n
  }

  lemma OtherStepsLoseNothing(ss: seq<State>, m: nat)
    requires m + 1 < |ss| && StepAt(ss, m) && Inv(ss[m]) && forall t: nat :: !LateStore(ss, m, t)
    ensures ss[m + 1].lost == ss[m].lost
  {
    var s, s' := ss[m], ss[m + 1];
    var t :| StepOf(s, s', t);
    assert !LateStore(ss, m, t);
    assert At(s, t, StoringFree) ==> Exclusive(s, t);
  }

  lemma LostByStep(ss: seq<State>, m: nat)
    requires m + 1 < |ss| && StepAt(ss, m) && Inv(ss[m])
    ensures ss[m + 1].lost == 0 <==>
            && ss[m].lost == 0
            && forall t: nat {:trigger LateStore(ss, m, t)} :: LateStore(ss, m, t) ==> ss[m].processed == ss[m].n
  {
    if t: nat :| LateStore(ss, m, t) {
      LateStoreLosesCounts(ss[m], ss[m + 1], t);
      assert At(ss[m], t, StoringProcessed);
    } else {
      OtherStepsLoseNothing(ss, m);
    }
  }

  lemma {:induction false} NothingLostIff(ss: seq<State>, i: nat)
    requires RunFrom(ss) && Init(ss[0]) && i < |ss|
    ensures ss[i].lost == 0 <==> NoCountInGap(ss, i)
  {
    if i > 0 {
      NothingLostIff(ss, i - 1);
      InitInv(ss[0]);
      RunInv(ss, i - 1);
      assert StepAt(ss, i - 1);
      LostByStep(ss, i - 1);
    }
  }

  /** Over whole runs: the spin of a full epoch can end exactly if no count was
      ever made between the two stores of a reset. */
  lemma ResetIffNoCountInGap(ss: seq<State>, i: nat, t: nat)
    requires RunFrom(ss) && Init(ss[0]) && i < |ss| && FullEpoch(ss[i], t)
    ensures (exists s' :: SeeAllProcessed(ss[i], s', t)) <==> NoCountInGap(ss, i)
  {
    InitInv(ss[0]);
    RunInv(ss, i);
    NothingLostIff(ss, i);
    ResetIffNothingLost(ss[i], t);
  }

  // -------- Counts do get lost --------

  lemma TakeNext(ss: seq<State>, t: nat) returns (ss': seq<State>)
    requires RunFrom(ss)
    requires var s := ss[|ss| - 1]; At(s, t, Idle) && s.nextFree < s.n
    ensures RunFrom(ss') && ss'[0] == ss[0]
    ensures var s := ss[|ss| - 1]; ss'[|ss'| - 1] == Move(s, t, Holding(s.nextFree)).(nextFree := s.nextFree + 1)
  {
    var s := ss[|ss| - 1];
    ss' := Extend(ss, Move(s, t, Trying), t);
    ss' := Extend(ss', Move(s, t, Holding(s.nextFree)).(nextFree := s.nextFree + 1), t);
  }

  /** Thread `t` takes the next slot, writes and counts. */
  lemma CountNext(ss: seq<State>, t: nat) returns (ss': seq<State>)
    requires RunFrom(ss)
    requires var s := ss[|ss| - 1]; At(s, t, Idle) && s.nextFree < s.n && s.finished == Below(s.nextFree)
    ensures RunFrom(ss') && ss'[0] == ss[0]
    ensures var s, k := ss[|ss| - 1], ss[|ss| - 1].nextFree;
            ss'[|ss'| - 1] == s.(nextFree := k + 1, processed := s.processed + 1, finished := Below(k + 1),
                                 pcs := s.pcs[t := Counted(k)])
  {
    var s, k := ss[|ss| - 1], ss[|ss| - 1].nextFree;
    ss' := TakeNext(ss, t);
    assert Below(k + 1) == Below(k) + {k};
    var s' := Move(s, t, Counted(k)).(nextFree := k + 1, processed := s.processed + 1, finished := Below(k + 1));
    assert Count(ss'[|ss'| - 1], s', t);
    ss' := Extend(ss', s', t);
  }

  /** Thread `t` alone fills the rest of the epoch and is left with the last slot. */
  lemma {:induction false} CountRest(ss: seq<State>, t: nat) returns (ss': seq<State>)
    requires RunFrom(ss)
    requires var s := ss[|ss| - 1]; At(s, t, Idle) && s.nextFree < s.n && s.finished == Below(s.nextFree)
    ensures RunFrom(ss') && ss'[0] == ss[0]
    ensures var s := ss[|ss| - 1]; ss'[|ss'| - 1] == Filled(s, t, s.processed + s.n - s.nextFree)
    decreases ss[|ss| - 1].n - ss[|ss| - 1].nextFree, 0
  {
    ss' := CountNext(ss, t);
    ss' := FillUp(ss', t, ss[|ss| - 1].nextFree);
  }

  /** The same from where `t` has just counted slot `k`. */
  lemma {:induction false} FillUp(ss: seq<State>, t: nat, k: nat) returns (ss': seq<State>)
    requires RunFrom(ss)
    requires var s := ss[|ss| - 1]; At(s, t, Counted(k)) && s.nextFree == k + 1 <= s.n && s.finished == Below(k + 1)
    ensures RunFrom(ss') && ss'[0] == ss[0]
    ensures var s := ss[|ss| - 1]; ss'[|ss'| - 1] == Filled(s, t, s.processed + s.n - s.nextFree)
    decreases ss[|ss| - 1].n - ss[|ss| - 1].nextFree, 1
  {
    var s := ss[|ss| - 1];
    ss' := Extend(ss, Move(s, t, if k == s.n - 1 then Draining else Idle), t);
    if k < s.n - 1 {
      ss' := CountRest(ss', t);
    }
  }

  function Filled(s: State, t: nat, processed: nat): State {
    Move(s, t, Draining).(nextFree := s.n, processed := processed, finished := Below(s.n))
  }

  /** The last holder resets up to the gap between the two stores. */
  lemma ResetToGap(ss: seq<State>, t: nat) returns (ss': seq<State>)
    requires RunFrom(ss)
    requires var s := ss[|ss| - 1]; At(s, t, Draining) && s.processed == s.n
    ensures RunFrom(ss') && ss'[0] == ss[0]
    ensures var s := ss[|ss| - 1];
            ss'[|ss'| - 1] == Move(s, t, StoringProcessed).(nextFree := 0, finished := {}, lost := 0,
                                                                  epoch := s.epoch + 1)
  {
    var s := ss[|ss| - 1];
    ss' := Extend(ss, Move(s, t, Wiping), t);
    ss' := Extend(ss', Move(s, t, StoringFree), t);
    ss' := Extend(ss', Move(s, t, StoringProcessed).(nextFree := 0, finished := {}, lost := 0,
                                                       epoch := s.epoch + 1), t);
  }

  /** Thread 0 goes through an epoch of `n` slots up to the gap between the two stores. */
  lemma FirstEpochRun(n: nat) returns (ss: seq<State>)
    requires n > 0
    ensures RunFrom(ss) && Init(ss[0]) && ss[0].n == n
    ensures ss[|ss| - 1] == State(n, 0, n, map[0 := StoringProcessed, 1 := Idle], {}, 0, 1)
  {
    ss := [State(n, 0, 0, map[0 := Idle, 1 := Idle], {}, 0, 0)];
    assert Below(0) == {};
    ss := CountRest(ss, 0);
    ss := ResetToGap(ss, 0);
  }

  /** Thread 1 registers, writes and counts in the gap; the late store takes its count away. */
  lemma CountInGapRun(n: nat) returns (ss: seq<State>)
    requires n > 0
    ensures RunFrom(ss) && Init(ss[0]) && ss[0].n == n
    ensures ss[|ss| - 1] == State(n, 1, 0, map[0 := Idle, 1 := Counted(0)], {0}, 1, 1)
  {
    ss := FirstEpochRun(n);
    assert Below(0) == {} && Below(1) == {0};
    ss := CountNext(ss, 1);
    ss := Extend(ss, State(n, 1, 0, map[0 := Idle, 1 := Counted(0)], {0}, 1, 1), 0);
  }

  /** For every number of slots counts do get lost, by two threads: after a count in
      the gap thread 1 fills the epoch up and spins for ever. */
  lemma LostCountRun(n: nat) returns (ss: seq<State>)
    requires n > 0
    ensures RunFrom(ss) && Init(ss[0]) && ss[0].n == n
    ensures ss[|ss| - 1].lost > 0 && FullEpoch(ss[|ss| - 1], 1)
  {
    ss := CountInGapRun(n);
    assert Below(0) == {} && Below(1) == {0};
    ss := FillUp(ss, 1, 0);
    assert ss[|ss| - 1].pcs[0] == Idle;
  }

  // -------- The two stores taken as one --------

  ghost predicate ResetAtOnce(s: State, s': State, t: nat) {
    exists mid :: StoreFree(s, mid, t) && StoreProcessed(mid, s', t)
  }

  ghost predicate FusedStepOf(s: State, s': State, t: nat) {
    || Begin(s, s', t) || FetchFree(s, s', t) || SeeFree(s, s', t)
    || Count(s, s', t) || Leave(s, s', t) || SeeAllProcessed(s, s', t) || Wipe(s, s', t)
    || ResetAtOnce(s, s', t)
  }

  /** The same machine with the reset's two stores made at once. */
  ghost predicate FusedStep(s: State, s': State) {
    exists t :: FusedStepOf(s, s', t)
  }

  ghost predicate FusedStepAt(ss: seq<State>, i: nat)
    requires i + 1 < |ss|
  {
    FusedStep(ss[i], ss[i + 1])
  }

  ghost predicate FusedRun(ss: seq<State>) {
    |ss| > 0 && Init(ss[0]) && forall i :: 0 <= i < |ss| - 1 ==> FusedStepAt(ss, i)
  }

  lemma FusedStepExact(s: State, s': State, t: nat)
    requires Inv(s) && s.lost == 0 && (forall u :: !At(s, u, StoringProcessed))
    requires FusedStepOf(s, s', t)
    ensures Inv(s') && s'.lost == 0 && forall u :: !At(s', u, StoringProcessed)
  {
    if ResetAtOnce(s, s', t) {
      var mid :| StoreFree(s, mid, t) && StoreProcessed(mid, s', t);
      StoreFreeInv(s, mid, t);
      StoreProcessedInv(mid, s', t);
    } else {
      assert StepOf(s, s', t);
      StepInv(s, s');
    }
    Others(s, s', t);
  }

  /** Then `processed` is exact in every reachable state, so a full epoch can always be reset. */
  lemma {:induction false} FusedIsExact(ss: seq<State>, i: nat)
    requires FusedRun(ss) && i < |ss|
    ensures Inv(ss[i]) && ss[i].lost == 0 && forall u :: !At(ss[i], u, StoringProcessed)
    ensures ss[i].processed == |ss[i].finished|
    ensures forall t :: FullEpoch(ss[i], t) ==> exists s' :: SeeAllProcessed(ss[i], s', t)
  {
    if i == 0 {
      InitInv(ss[0]);
    } else {
      FusedIsExact(ss, i - 1);
      assert FusedStepAt(ss, i - 1);
      var t :| FusedStepOf(ss[i - 1], ss[i], t);
      FusedStepExact(ss[i - 1], ss[i], t);
    }
    forall t | FullEpoch(ss[i], t)
      ensures exists s' :: SeeAllProcessed(ss[i], s', t)
    {
      ResetIffNothingLost(ss[i], t);
    }
  }

  // -------- How far the counters run --------

  ghost function WaitingThreads(s: State): set<nat> {
    set t | t in s.pcs && s.pcs[t] == Waiting
  }

  lemma WaitingStep(s: State, s': State)
    requires Step(s, s') && s.nextFree <= s.n + |WaitingThreads(s)|
    ensures s'.nextFree <= s'.n + |WaitingThreads(s')|
  {
    var t :| StepOf(s, s', t);
    if FetchFree(s, s', t) && s.nextFree >= s.n {
      assert WaitingThreads(s') == WaitingThreads(s) + {t};
    } else if s'.nextFree > s'.n {
      StillWaiting(s, s', t);
    }
  }

  lemma StillWaiting(s: State, s': State, t: nat)
    requires StepOf(s, s', t) && s'.nextFree > s'.n && !(FetchFree(s, s', t) && s.nextFree >= s.n)
    ensures s'.nextFree == s.nextFree && s'.n == s.n && WaitingThreads(s') == WaitingThreads(s)
  {
  }

  /** `next_free` runs past the slot count by at most one per spinning thread, and
      `processed` to at most twice the slot count: neither wraps around 32 bits
      while threads and slots together are fewer. */
  lemma {:induction false} CountersBounded(ss: seq<State>, i: nat)
    requires RunFrom(ss) && Init(ss[0]) && i < |ss|
    ensures ss[i].nextFree <= ss[i].n + |WaitingThreads(ss[i])|
    ensures ss[i].processed <= 2 * ss[i].n
  {
    InitInv(ss[0]);
    RunInv(ss, i);
    FinishedBound(ss[i]);
    if i > 0 {
      CountersBounded(ss, i - 1);
      assert StepAt(ss, i - 1);
      WaitingStep(ss[i - 1], ss[i]);
    }
  }
}
