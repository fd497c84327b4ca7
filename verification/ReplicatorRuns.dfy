/** What holds over whole runs of the replicator. */
module ReplicatorRuns {
  import opened EntryHeap
  import opened TableSpec
  import opened TableSteps
  import opened Chains
  import opened Messages
  import opened Replicator
  import opened ReplicatorInv
  import opened ReplicatorSteps
  import Slots = SlotAllocator

  // -------- Every call is published exactly once --------

  predicate Underway(pc: Pc) {
    pc.Registering? || pc.Searching? || pc.Inserting? || pc.Replacing?
  }

  /** The request that thread `t`, being underway, is to publish. */
  function Carried(s: State, t: nat): Request
    requires t in s.pcs
  {
    if s.pcs[t].Registering? then s.pcs[t].req
    else if Held(s, t) then s.reqs[SlotOf(s, t)]
    else NO_REQUEST
  }

  ghost function InFlight(s: State): map<nat, Request> {
    map t | t in s.pcs && Underway(s.pcs[t]) :: Carried(s, t)
  }

  ghost function Some(m: map<nat, Request>): (t: nat)
    requires m != map[]
    ensures t in m
  {
    var t :| t in m;
    t
  }

  /** The requests in flight, each as often as it is carried. */
  ghost function Bag(m: map<nat, Request>): multiset<Request>
    decreases |m|
  {
    if m == map[] then multiset{} else multiset{m[Some(m)]} + Bag(m - {Some(m)})
  }

  lemma {:induction false} BagWithout(m: map<nat, Request>, t: nat)
    requires t in m
    ensures Bag(m) == multiset{m[t]} + Bag(m - {t})
    decreases |m|
  {
    var u: nat := Some(m);
    if u != t {
      BothRemoved(m, t, u);
      BagWithout(m - {u}, t);
      BagWithout(m - {t}, u);
    }
  }

  lemma BothRemoved(m: map<nat, Request>, t: nat, u: nat)
    requires t in m && u in m && t != u
    ensures |m - {u}| < |m| && |m - {t}| < |m| && m - {u} - {t} == m - {t} - {u}
    ensures t in m - {u} && (m - {u})[t] == m[t] && u in m - {t} && (m - {t})[u] == m[u]
  {
    assert (m - {u}).Keys == m.Keys - {u} && (m - {t}).Keys == m.Keys - {t};
  }

  /** Requests published and requests in flight together are the requests called, each as often. */
  ghost predicate CallsOk(s: State) {
    multiset(s.hist) + Bag(InFlight(s)) == multiset(s.calls)
  }

  /** A step that takes no request up and publishes none. */
  lemma CallsStable(s: State, s': State)
    requires CallsOk(s) && s'.calls == s.calls && s'.hist == s.hist
    requires InFlight(s') == InFlight(s)
    ensures CallsOk(s')
  {
  }

  lemma CallsCall(s: State, s': State, t: nat, req: Request)
    requires CallsOk(s) && Call(s, s', t, req)
    ensures CallsOk(s')
  {
    assert t !in InFlight(s) && InFlight(s') - {t} == InFlight(s);
    BagWithout(InFlight(s'), t);
  }

  lemma CallsPublish(s: State, s': State, t: nat)
    requires CallsOk(s) && Held(s, t) && Alone(s, s', t)
    requires s.pcs[t].Inserting? || s.pcs[t].Replacing?
    requires s'.pcs[t] == Locking && s'.alloc == s.alloc && s'.reqs == s.reqs
    requires s'.calls == s.calls && s'.hist == s.hist + [s.reqs[SlotOf(s, t)]]
    ensures CallsOk(s')
  {
    var m := InFlight(s);
    assert t in m && m[t] == s.reqs[SlotOf(s, t)];
    assert InFlight(s') == m - {t};
    BagWithout(m, t);
  }

  /** Filling the slot of `t` does not touch what others carry. */
  lemma FillCarried(s: State, s': State, t: nat)
    requires Shape(s) && Fill(s, s', t)
    ensures s'.pcs.Keys == s.pcs.Keys && Carried(s', t) == Carried(s, t)
    ensures forall u :: u in s.pcs ==> Carried(s', u) == Carried(s, u)
  {
    forall u | u in s.pcs && u != t
      ensures Carried(s', u) == Carried(s, u)
    {
      if Held(s, u) {
        HeldApart(s, t, u);
      }
    }
  }

  lemma CallsFill(s: State, s': State, t: nat)
    requires CallsOk(s) && Shape(s) && Fill(s, s', t)
    ensures CallsOk(s')
  {
    FillCarried(s, s', t);
    assert InFlight(s') == InFlight(s);
  }

  /** Before publication the slot of `t` keeps its request. */
  lemma CallsBefore(s: State, s': State, t: nat)
    requires CallsOk(s) && Alone(s, s', t) && s'.reqs == s.reqs
    requires s'.calls == s.calls && s'.hist == s.hist
    requires s'.alloc == s.alloc && Held(s, t)
    requires Underway(s.pcs[t]) && !s.pcs[t].Registering? && Underway(s'.pcs[t]) && !s'.pcs[t].Registering?
    ensures CallsOk(s')
  {
    CallsStable(s, s');
  }

  /** After publication, and outside the write path, `t` carries nothing. */
  lemma CallsAfter(s: State, s': State, t: nat)
    requires CallsOk(s) && Alone(s, s', t) && s'.reqs == s.reqs
    requires s'.calls == s.calls && s'.hist == s.hist
    requires !Underway(s.pcs[t]) && !Underway(s'.pcs[t])
    ensures CallsOk(s')
  {
    CallsStable(s, s');
  }

  lemma CallsAcquire(s: State, s': State, t: nat)
    requires CallsOk(s) && Inv(s) && Acquire(s, s', t)
    ensures CallsOk(s')
  {
    CallsStable(s, s');
  }

  /** While a thread wipes the slots nobody holds one. */
  lemma CallsWipe(s: State, s': State, t: nat)
    requires CallsOk(s) && Inv(s) && WipeSlots(s, s', t)
    ensures CallsOk(s')
  {
    ResetAlone(s, t);
    assert forall u :: Held(s', u) ==> Held(s, u);
    CallsStable(s, s');
  }

  lemma CallsSearch(s: State, s': State, t: nat, r: SearchResult)
    requires CallsOk(s) && s.pcs.Keys == s.alloc.pcs.Keys && Search(s, s', t, r)
    ensures CallsOk(s')
  {
    CallsBefore(s, s', t);
  }

  lemma CallsCas(s: State, s': State, t: nat)
    requires CallsOk(s) && s.pcs.Keys == s.alloc.pcs.Keys && (InsertCas(s, s', t) || ReplaceCas(s, s', t))
    ensures CallsOk(s')
  {
    if s'.pcs[t] == Locking {
      CallsPublish(s, s', t);
    } else {
      CallsBefore(s, s', t);
    }
  }

  lemma CallsLocked(s: State, s': State, t: nat)
    requires CallsOk(s) && s.pcs.Keys == s.alloc.pcs.Keys
    requires Lock(s, s', t) || ChaseOnce(s, s', t) || Write(s, s', t) || Unlock(s, s', t)
    ensures CallsOk(s')
  {
    CallsAfter(s, s', t);
  }

  lemma CallsDone(s: State, s': State, t: nat)
    requires CallsOk(s) && s.pcs.Keys == s.alloc.pcs.Keys
    requires || Count(s, s', t) || Clear(s, s', t)
             || StartReset(s, s', t) || ResetBucket(s, s', t) || StoreCounter(s, s', t)
    ensures CallsOk(s')
  {
    CallsAfter(s, s', t);
  }

  /** Steps up to the publication. */
  ghost predicate Early(s: State, s': State, t: nat) {
    || (exists req :: Call(s, s', t, req)) || Acquire(s, s', t) || Fill(s, s', t)
    || (exists r :: Search(s, s', t, r)) || InsertCas(s, s', t) || ReplaceCas(s, s', t)
  }

  lemma CallsEarly(s: State, s': State, t: nat)
    requires CallsOk(s) && Inv(s) && Early(s, s', t)
    ensures CallsOk(s')
  {
    if req :| Call(s, s', t, req) {
      CallsCall(s, s', t, req);
    } else if r :| Search(s, s', t, r) {
      CallsSearch(s, s', t, r);
    } else if Acquire(s, s', t) {
      CallsAcquire(s, s', t);
    } else if Fill(s, s', t) {
      CallsFill(s, s', t);
    } else {
      CallsCas(s, s', t);
    }
  }

  lemma CallsStep(s: State, s': State)
    requires CallsOk(s) && Inv(s) && Step(s, s')
    ensures CallsOk(s')
  {
    var t :| StepOf(s, s', t);
    if Early(s, s', t) {
      CallsEarly(s, s', t);
    } else if WipeSlots(s, s', t) {
      CallsWipe(s, s', t);
    } else if Lock(s, s', t) || ChaseOnce(s, s', t) || Write(s, s', t) || Unlock(s, s', t) {
      CallsLocked(s, s', t);
    } else {
      CallsDone(s, s', t);
    }
  }

  // -------- Runs --------

  ghost predicate StepAt(ss: seq<State>, i: nat)
    requires i + 1 < |ss|
  {
    Step(ss[i], ss[i + 1])
  }

  ghost predicate Run(ss: seq<State>) {
    |ss| > 0 && Init(ss[0]) && forall i :: 0 <= i < |ss| - 1 ==> StepAt(ss, i)
  }

  lemma InitOk(s: State)
    requires Init(s)
    ensures Inv(s) && CallsOk(s)
  {
    InitInv(s);
    assert InFlight(s) == map[];
  }

  lemma StepOk(ss: seq<State>, i: nat)
    requires Run(ss) && i + 1 < |ss| && Inv(ss[i]) && CallsOk(ss[i])
    ensures Inv(ss[i + 1]) && CallsOk(ss[i + 1])
  {
    assert StepAt(ss, i);
    StepInv(ss[i], ss[i + 1]);
    CallsStep(ss[i], ss[i + 1]);
  }

  lemma StartOk(ss: seq<State>)
    requires Run(ss)
    ensures Inv(ss[0]) && CallsOk(ss[0])
  {
    InitOk(ss[0]);
  }

  lemma {:induction false} RunInv(ss: seq<State>, i: nat)
    requires Run(ss) && i < |ss|
    ensures Inv(ss[i]) && CallsOk(ss[i])
    decreases i
  {
    if i == 0 {
      StartOk(ss);
    } else {
      RunInv(ss, i - 1);
      StepOk(ss, i - 1);
    }
  }

  lemma StepAtGrows(ss: seq<State>, i: nat)
    requires i + 1 < |ss| && StepAt(ss, i)
    ensures Grows(ss[i], ss[i + 1])
  {
    StepGrows(ss[i], ss[i + 1]);
  }

  /** The log and the history only ever grow at their ends. */
  lemma {:induction false} RunGrows(ss: seq<State>, i: nat, j: nat)
    requires Run(ss) && i <= j < |ss|
    ensures ss[i].log <= ss[j].log && ss[i].stamps <= ss[j].stamps && ss[i].hist <= ss[j].hist
    decreases j
  {
    if i < j {
      RunGrows(ss, i, j - 1);
      StepAtGrows(ss, j - 1);
    }
  }

  /** States a replicator can be in. */
  ghost predicate Reachable(s: State) {
    exists ss :: Run(ss) && ss[|ss| - 1] == s
  }

  lemma ReachableInit(s: State)
    requires Init(s)
    ensures Reachable(s)
  {
    assert Run([s]);
  }

  lemma StepsAgree(ss: seq<State>, ss': seq<State>, i: nat)
    requires i + 1 < |ss| && i + 1 < |ss'| && ss[i] == ss'[i] && ss[i + 1] == ss'[i + 1] && StepAt(ss, i)
    ensures StepAt(ss', i)
  {
  }

  lemma RunExtends(ss: seq<State>, s': State)
    requires Run(ss) && StepAt([ss[|ss| - 1], s'], 0)
    ensures Run(ss + [s'])
  {
    var ss' := ss + [s'];
    forall i | 0 <= i < |ss'| - 1
      ensures StepAt(ss', i)
    {
      if i < |ss| - 1 {
        StepsAgree(ss, ss', i);
      } else {
        LastStep(ss, s');
      }
    }
  }

  lemma LastStep(ss: seq<State>, s': State)
    requires ss != [] && StepAt([ss[|ss| - 1], s'], 0)
    ensures StepAt(ss + [s'], |ss| - 1)
  {
  }

  lemma ReachableStep(s: State, s': State)
    requires Reachable(s) && Step(s, s')
    ensures Reachable(s')
  {
    var ss :| Run(ss) && ss[|ss| - 1] == s;
    assert StepAt([s, s'], 0);
    RunExtends(ss, s');
    assert (ss + [s'])[|ss|] == s';
  }

  lemma ReachableInv(s: State)
    requires Reachable(s)
    ensures Inv(s) && CallsOk(s)
  {
    var ss :| Run(ss) && ss[|ss| - 1] == s;
    RunInv(ss, |ss| - 1);
  }

  ghost predicate Grows(s: State, s': State) {
    s.log <= s'.log && s.stamps <= s'.stamps && s.hist <= s'.hist
  }

  lemma WriteGrows(s: State, s': State, t: nat)
    requires InsertCas(s, s', t) || ReplaceCas(s, s', t) || Write(s, s', t)
    ensures Grows(s, s')
  {
  }

  lemma OtherStepsKeepLogs(s: State, s': State, t: nat)
    requires StepOf(s, s', t) && !InsertCas(s, s', t) && !ReplaceCas(s, s', t) && !Write(s, s', t)
    ensures s'.log == s.log && s'.stamps == s.stamps && s'.hist == s.hist
  {
  }

  lemma StepGrows(s: State, s': State)
    requires Step(s, s')
    ensures Grows(s, s')
  {
    var t :| StepOf(s, s', t);
    if InsertCas(s, s', t) || ReplaceCas(s, s', t) || Write(s, s', t) {
      WriteGrows(s, s', t);
    } else {
      OtherStepsKeepLogs(s, s', t);
    }
  }

  /** The log never goes back: every record is the publication it is stamped with,
      and of two records for one hash the later is of the same or a later publication.
      This spans all epochs. */
  lemma LogNeverGoesBack(ss: seq<State>, n: nat, i: nat, j: nat)
    requires Run(ss) && n < |ss| && i < j < |ss[n].log|
    requires ss[n].log[i].hashv == ss[n].log[j].hashv
    ensures |ss[n].stamps| == |ss[n].log| && ss[n].stamps[i] <= ss[n].stamps[j] < |ss[n].hist|
    ensures ss[n].log[i] == ss[n].hist[ss[n].stamps[i]] && ss[n].log[j] == ss[n].hist[ss[n].stamps[j]]
  {
    RunInv(ss, n);
    var s := ss[n];
    assert Stamped(s, i) && Stamped(s, j) && NoOlder(s, i, j);
  }

  predicate LastOf(rs: seq<Request>, i: nat) {
    i < |rs| && forall j :: i < j < |rs| ==> rs[j].hashv != rs[i].hashv
  }

  lemma LastRecord(s: State, p: nat) returns (i: nat)
    requires Inv(s) && (forall t :: !Pending(s, t)) && LastOf(s.hist, p)
    ensures LastOf(s.log, i) && s.log[i] == s.hist[p]
  {
    assert Safe(s, p);
    var c :| 0 <= c < |s.log| && s.log[c].hashv == s.hist[p].hashv && s.stamps[c] >= p;
    i := LastIndex(s.log, c);
    assert Stamped(s, i);
    assert c < i ==> NoOlder(s, c, i);
  }

  /** Once no writer is between its publication and its log record, the last
      record of every published hash is the request published last for it. */
  lemma LastRecordIsLastPublished(ss: seq<State>, n: nat, p: nat) returns (i: nat)
    requires Run(ss) && n < |ss|
    requires forall t :: !Pending(ss[n], t)
    requires LastOf(ss[n].hist, p)
    ensures LastOf(ss[n].log, i) && ss[n].log[i] == ss[n].hist[p]
  {
    RunInv(ss, n);
    i := LastRecord(ss[n], p);
  }

  lemma LastIndex(rs: seq<Request>, c: nat) returns (i: nat)
    requires c < |rs|
    ensures c <= i && LastOf(rs, i) && rs[i].hashv == rs[c].hashv
    decreases |rs| - c
  {
    if LastOf(rs, c) {
      i := c;
    } else {
      var d: nat :| c < d < |rs| && rs[d].hashv == rs[c].hashv;
      i := LastIndex(rs, d);
    }
  }

  /** The same-hash assertion of the chase never fails, and chasing moves to later publications only. */
  lemma AssertionHolds(ss: seq<State>, n: nat, t: nat)
    requires Run(ss) && n < |ss| && t in ss[n].pcs
    ensures ss[n].pcs[t] != Failed
  {
    RunInv(ss, n);
    assert Fits(ss[n], t);
  }

  lemma ChaseMovesOn(ss: seq<State>, n: nat, t: nat)
    requires Run(ss) && n + 1 < |ss| && ChaseOnce(ss[n], ss[n + 1], t) && ss[n + 1].pcs[t].Chasing?
    ensures var s, cur, cur' := ss[n], ss[n].pcs[t].cur, ss[n + 1].pcs[t].cur;
            cur in s.rank && cur' in s.rank && s.rank[cur] < s.rank[cur'] < |s.hist|
  {
    RunInv(ss, n);
    var s := ss[n];
    assert Knows(s, t);
    var cs := TableWhileHeld(s, t);
    if Dead(s.heap, s.pcs[t].cur) {
      ChaseStep(s.heap, s.rank, cs, s.pcs[t].cur);
      assert SlotOk(s, ss[n + 1].pcs[t].cur);
    }
  }

  lemma AllPublished(s: State)
    requires Inv(s) && CallsOk(s) && forall t :: t in s.pcs ==> s.pcs[t] == Resting
    ensures multiset(s.hist) == multiset(s.calls) && (forall c :: c in s.hist <==> c in s.calls)
    ensures forall c :: c in s.log ==> c in s.calls
  {
    assert InFlight(s) == map[];
    forall c
      ensures c in s.hist <==> c in s.calls
    {
      assert c in multiset(s.hist) <==> c in multiset(s.calls);
    }
    LoggedWasCalled(s);
  }

  lemma LoggedWasCalled(s: State)
    requires Inv(s) && CallsOk(s)
    ensures forall c :: c in s.log ==> c in s.calls
  {
    forall i | 0 <= i < |s.log|
      ensures s.log[i] in s.calls
    {
      assert Stamped(s, i);
      assert s.log[i] in multiset(s.hist) && s.log[i] in multiset(s.calls);
    }
  }

  /** In every reachable state each call has been published once or is in flight
      on one thread; when all threads rest the publications are the calls in some
      order, each as often as it was called.  Whatever was logged was called. */
  lemma EveryCallPublished(ss: seq<State>, n: nat)
    requires Run(ss) && n < |ss|
    ensures multiset(ss[n].hist) + Bag(InFlight(ss[n])) == multiset(ss[n].calls)
    ensures (forall t :: t in ss[n].pcs ==> ss[n].pcs[t] == Resting) ==> multiset(ss[n].hist) == multiset(ss[n].calls)
    ensures forall c :: c in ss[n].log ==> c in ss[n].calls
  {
    RunInv(ss, n);
    LoggedWasCalled(ss[n]);
    if forall t :: t in ss[n].pcs ==> ss[n].pcs[t] == Resting {
      AllPublished(ss[n]);
    }
  }

  // -------- What one caller can rely on --------

  /** Between its filling and its counting nobody else writes to the arguments in the slot of `t`. */
  lemma ArgumentsKept(s: State, s': State, t: nat, idx: nat)
    requires Inv(s) && Step(s, s') && Owns(s, t, idx) && t in s.pcs && !s.pcs[t].Registering?
    ensures idx < |s.reqs| == |s'.reqs| && s'.reqs[idx] == s.reqs[idx]
  {
    var u :| StepOf(s, s', u);
    Slots.ReachableInv(s.alloc);
    Slots.HeldOnce(s.alloc, t, t, idx);
    assert Held(s, t);
    if WipeSlots(s, s', u) {
      ResetAlone(s, u);
    } else if Fill(s, s', u) {
      HeldApart(s, t, u);
    } else {
      OtherStepsKeepArguments(s, s', u);
    }
  }

  lemma OtherStepsKeepArguments(s: State, s': State, t: nat)
    requires StepOf(s, s', t) && !Fill(s, s', t) && !WipeSlots(s, s', t)
    ensures s'.reqs == s.reqs
  {
  }

  /** Thread `t` fills slot `idx` with `req` in step `i` and still holds it in state `n`. */
  ghost predicate CallOf(ss: seq<State>, i: nat, n: nat, t: nat, idx: nat, req: Request) {
    && i < n < |ss|
    && t in ss[i].pcs && ss[i].pcs[t] == Registering(req) && Fill(ss[i], ss[i + 1], t)
    && forall k :: i < k <= n ==> Owns(ss[k], t, idx) && t in ss[k].pcs && !ss[k].pcs[t].Registering?
  }

  lemma {:induction false} CallKeepsArguments(ss: seq<State>, i: nat, n: nat, t: nat, idx: nat, req: Request)
    requires Run(ss) && CallOf(ss, i, n, t, idx, req)
    ensures idx < |ss[n].reqs| && ss[n].reqs[idx] == req
    decreases n
  {
    if n == i + 1 {
      assert Owns(ss[n], t, idx);
      FillSets(ss[i], ss[i + 1], t, idx, req);
    } else {
      CallKeepsArguments(ss, i, n - 1, t, idx, req);
      ArgumentsStay(ss, n - 1, t, idx);
    }
  }

  lemma FillSets(s: State, s': State, t: nat, idx: nat, req: Request)
    requires Fill(s, s', t) && s.pcs[t] == Registering(req) && Owns(s', t, idx)
    ensures idx < |s'.reqs| && s'.reqs[idx] == req
  {
  }

  lemma ArgumentsStay(ss: seq<State>, k: nat, t: nat, idx: nat)
    requires Run(ss) && k + 1 < |ss| && Owns(ss[k], t, idx) && t in ss[k].pcs && !ss[k].pcs[t].Registering?
    ensures idx < |ss[k].reqs| == |ss[k + 1].reqs| && ss[k + 1].reqs[idx] == ss[k].reqs[idx]
  {
    RunInv(ss, k);
    assert StepAt(ss, k);
    ArgumentsKept(ss[k], ss[k + 1], t, idx);
  }

  /** After the writer lock the publication of the thread's own slot is in the log, or a later one for its hash is. */
  lemma OwnIsCovered(s: State, t: nat, idx: nat) returns (p: nat)
    requires Inv(s) && Held(s, t) && idx == SlotOf(s, t) && (s.pcs[t].Unlocking? || s.pcs[t].Finishing?)
    ensures idx < |s.reqs| && p < |s.hist| && s.hist[p] == s.reqs[idx] && |s.stamps| == |s.log| && Covered(s, p)
  {
    assert Knows(s, t) && SlotOk(s, idx);
    p := s.rank[idx];
    assert Safe(s, p);
    if u :| Pending(s, u) && SlotOf(s, u) in s.rank && s.rank[SlotOf(s, u)] == p {
      var cs := TableWhileHeld(s, t);
      assert SlotOk(s, SlotOf(s, u));
      if SlotOf(s, u) != idx {
        RankInjective(s.heap, s.rank, cs, idx, SlotOf(s, u));
      } else {
        HeldApart(s, t, u);
      }
    }
  }

  /** What a caller relies on, whatever the others do: once its thread has logged and
      released the writer lock, the log holds its own request or one published later
      for the same hash, and goes on holding it. */
  lemma CallerIsLogged(ss: seq<State>, i: nat, n: nat, m: nat, t: nat, idx: nat, req: Request) returns (p: nat, c: nat)
    requires Run(ss) && CallOf(ss, i, n, t, idx, req) && n <= m < |ss|
    requires ss[n].pcs[t].Unlocking? || ss[n].pcs[t].Finishing?
    ensures p < |ss[m].hist| && ss[m].hist[p] == req
    ensures c < |ss[m].log| == |ss[m].stamps| && p <= ss[m].stamps[c] < |ss[m].hist|
    ensures ss[m].log[c].hashv == req.hashv && ss[m].log[c] == ss[m].hist[ss[m].stamps[c]]
  {
    RunInv(ss, n);
    RunInv(ss, m);
    CallKeepsArguments(ss, i, n, t, idx, req);
    assert Owns(ss[n], t, idx);
    p := OwnIsCovered(ss[n], t, idx);
    c :| 0 <= c < |ss[n].log| && ss[n].log[c].hashv == ss[n].hist[p].hashv && ss[n].stamps[c] >= p;
    RunGrows(ss, n, m);
    assert Stamped(ss[m], c);
  }

  // -------- No step is missing --------

  /** Thread `t` is in a spin loop whose condition does not hold yet. */
  predicate Spins(s: State, t: nat) {
    && t in s.pcs && t in s.alloc.pcs
    && (|| (s.alloc.pcs[t] == Slots.Waiting && s.alloc.nextFree >= s.alloc.n)
        || (s.alloc.pcs[t] == Slots.Draining && s.alloc.processed != s.alloc.n)
        || (s.pcs[t] == Locking && s.locked))
  }

  lemma SearchExists(s: State, t: nat)
    requires Inv(s) && Held(s, t) && s.pcs[t] == Searching
    ensures exists s' :: StepOf(s, s', t)
  {
    assert Knows(s, t);
    var cs := TableWhileHeld(s, t);
    var r, h' := SearchTotal(s.heap, s.rank.Keys, cs, s.heap.slots[SlotOf(s, t)].hashv);
    var pc := if r.found then Replacing(r.left, r.right) else Inserting(r.left, Plain(r.right));
    var s' := s.(heap := h', pcs := s.pcs[t := pc]);
    assert Search(s, s', t, r);
    assert StepOf(s, s', t);
  }

  lemma CasExists(s: State, t: nat)
    requires Inv(s) && Held(s, t) && (s.pcs[t].Inserting? || s.pcs[t].Replacing?)
    ensures exists s' :: StepOf(s, s', t)
  {
    assert Knows(s, t);
    var cs := TableWhileHeld(s, t);
    var idx := SlotOf(s, t);
    if s.pcs[t].Inserting? {
      var left, exp := s.pcs[t].left, s.pcs[t].exp;
      var h', r := InsertTry(s.heap, idx, left, exp).0, InsertTry(s.heap, idx, left, exp).1;
      var s' := (if r.Done? then Publish(s, idx) else s).(heap := h',
                  pcs := s.pcs[t := match r
                                    case Done => Locking
                                    case Again(x) => Inserting(left, x)
                                    case Fail => Searching]);
      assert InsertCas(s, s', t);
      assert StepOf(s, s', t);
    } else {
      var left, right := s.pcs[t].left, s.pcs[t].right;
      var h', r := SwitchTry(s.heap, idx, left, right).0, SwitchTry(s.heap, idx, left, right).1;
      var s' := (if r.Done? then Publish(s, idx) else s).(heap := h',
                  pcs := s.pcs[t := match r
                                    case Done => Locking
                                    case Again(x) => Replacing(left, x.base)
                                    case Fail => Searching]);
      assert ReplaceCas(s, s', t);
      assert StepOf(s, s', t);
    }
  }

  lemma AllocatorMoves(s: State, t: nat)
    requires t in s.pcs && s.pcs.Keys == s.alloc.pcs.Keys && Fits(s, t) && !Spins(s, t)
    requires s.pcs[t] == Resting || (s.pcs[t].Registering? && !s.alloc.pcs[t].Holding?)
    ensures exists s' :: StepOf(s, s', t)
  {
    var pc := s.alloc.pcs[t];
    match pc
    case Idle =>
      var a' := Slots.Move(s.alloc, t, Slots.Trying);
      var s' := s.(alloc := a', pcs := s.pcs[t := Registering(NO_REQUEST)], calls := s.calls + [NO_REQUEST]);
      assert Call(s, s', t, NO_REQUEST);
      assert StepOf(s, s', t);
    case Trying =>
      var a' := Slots.Move(s.alloc, t, if s.alloc.nextFree < s.alloc.n
                                       then Slots.Holding(s.alloc.nextFree) else Slots.Waiting)
                .(nextFree := s.alloc.nextFree + 1);
      assert Acquire(s, s.(alloc := a'), t);
      assert StepOf(s, s.(alloc := a'), t);
    case Waiting =>
      var a' := Slots.Move(s.alloc, t, Slots.Trying);
      assert Acquire(s, s.(alloc := a'), t);
      assert StepOf(s, s.(alloc := a'), t);
    case Draining =>
      var a' := Slots.Move(s.alloc, t, Slots.Wiping);
      var s' := s.(alloc := a', pcs := s.pcs[t := Resetting(0)], rank := map[], base := |s.hist|);
      assert StartReset(s, s', t);
      assert StepOf(s, s', t);
    case StoringFree =>
      var a' := Slots.Move(s.alloc, t, Slots.StoringProcessed)
                .(nextFree := 0, finished := {}, lost := 0, epoch := s.alloc.epoch + 1);
      assert StoreCounter(s, s.(alloc := a'), t);
      assert StepOf(s, s.(alloc := a'), t);
    case StoringProcessed =>
      var a' := Slots.Move(s.alloc, t, Slots.Idle).(processed := 0, lost := |s.alloc.finished|);
      assert StoreCounter(s, s.(alloc := a'), t);
      assert StepOf(s, s.(alloc := a'), t);
    case _ =>
  }

  lemma WriterMoves(s: State, t: nat)
    requires Inv(s) && Held(s, t) && !Spins(s, t)
    requires s.pcs[t] == Locking || s.pcs[t].Chasing? || s.pcs[t].Writing? || s.pcs[t].Unlocking?
    ensures exists s' :: StepOf(s, s', t)
  {
    assert Knows(s, t);
    match s.pcs[t]
    case Locking =>
      var s' := s.(locked := true, pcs := s.pcs[t := Chasing(SlotOf(s, t))]);
      assert Lock(s, s', t);
      assert StepOf(s, s', t);
    case Chasing(cur) =>
      var same := s.heap.slots[cur].hashv == s.heap.slots[SlotOf(s, t)].hashv;
      var next := s.heap.slots[cur].next;
      var s' := if next.deleted && same then
                  s.(ready := s.ready[cur := false],
                     pcs := s.pcs[t := if next.base.Node? then Chasing(next.base.i) else Failed])
                else s.(pcs := s.pcs[t := if same then Writing(cur) else Failed]);
      assert ChaseOnce(s, s', t);
      assert StepOf(s, s', t);
    case Writing(latest) =>
      var s' := s.(log := s.log + [s.reqs[latest]], stamps := s.stamps + [s.rank[latest]],
                   pcs := s.pcs[t := Unlocking(latest)]);
      assert Write(s, s', t);
      assert StepOf(s, s', t);
    case Unlocking(latest) =>
      var s' := s.(locked := false, pcs := s.pcs[t := Finishing(latest)]);
      assert Unlock(s, s', t);
      assert StepOf(s, s', t);
    case _ =>
  }

  lemma FinisherMoves(s: State, t: nat)
    requires Inv(s) && t in s.pcs
    requires s.pcs[t].Finishing? || s.pcs[t].Clearing? || s.pcs[t].Resetting?
    ensures exists s' :: StepOf(s, s', t)
  {
    assert Fits(s, t) && LatestOk(s, t);
    match s.pcs[t]
    case Finishing(latest) =>
      var idx := s.alloc.pcs[t].idx;
      var a' := Slots.Move(s.alloc, t, Slots.Counted(idx))
                .(processed := s.alloc.processed + 1, finished := s.alloc.finished + {idx});
      var s' := s.(alloc := a', pcs := s.pcs[t := Clearing(latest)]);
      assert Count(s, s', t);
      assert StepOf(s, s', t);
    case Clearing(latest) =>
      var a' := Slots.Move(s.alloc, t, if s.alloc.pcs[t].idx == s.alloc.n - 1 then Slots.Draining else Slots.Idle);
      var s' := s.(alloc := a', ready := s.ready[latest := false], pcs := s.pcs[t := Resting]);
      assert Clear(s, s', t);
      assert StepOf(s, s', t);
    case Resetting(b) =>
      if b < |s.heap.heads| {
        var s' := s.(heap := s.heap.(heads := s.heap.heads[b := Plain(Head(b))]), pcs := s.pcs[t := Resetting(b + 1)]);
        assert ResetBucket(s, s', t);
        assert StepOf(s, s', t);
      } else {
        var a' := Slots.Move(s.alloc, t, Slots.StoringFree);
        var s' := s.(alloc := a', pcs := s.pcs[t := Resting],
                     heap := s.heap.(slots := seq(|s.heap.slots|, i => NO_ENTRY)),
                     reqs := seq(|s.reqs|, i => NO_REQUEST), ready := seq(|s.ready|, i => false));
        assert WipeSlots(s, s', t);
        assert StepOf(s, s', t);
      }
    case _ =>
  }

  /** In every reachable state every thread has a step, but for the three spin
      loops: none is ever stopped by a bad index, a missing link or a failed assertion. */
  lemma NeverStuck(ss: seq<State>, n: nat, t: nat)
    requires Run(ss) && n < |ss| && t in ss[n].pcs && !Spins(ss[n], t)
    ensures exists s' :: StepOf(ss[n], s', t)
  {
    RunInv(ss, n);
    var s := ss[n];
    assert Fits(s, t);
    if s.pcs[t] == Resting || (s.pcs[t].Registering? && !s.alloc.pcs[t].Holding?) {
      AllocatorMoves(s, t);
    } else if s.pcs[t].Finishing? || s.pcs[t].Clearing? || s.pcs[t].Resetting? {
      FinisherMoves(s, t);
    } else {
      HolderMoves(s, t);
    }
  }

  lemma HolderMoves(s: State, t: nat)
    requires Inv(s) && t in s.pcs && !Spins(s, t) && t in s.alloc.pcs && s.alloc.pcs[t].Holding?
    requires s.pcs[t] != Resting && s.pcs[t] != Failed
    requires !s.pcs[t].Finishing? && !s.pcs[t].Clearing? && !s.pcs[t].Resetting?
    ensures exists s' :: StepOf(s, s', t)
  {
    Slots.ReachableInv(s.alloc);
    assert Slots.At(s.alloc, t, s.alloc.pcs[t]);
    if s.pcs[t].Registering? {
      var idx, req := SlotOf(s, t), s.pcs[t].req;
      var s' := s.(heap := s.heap.(slots := s.heap.slots[idx := s.heap.slots[idx].(hashv := req.hashv)]),
                   reqs := s.reqs[idx := req], ready := s.ready[idx := true], pcs := s.pcs[t := Searching]);
      assert Fill(s, s', t);
      assert StepOf(s, s', t);
    } else if s.pcs[t] == Searching {
      SearchExists(s, t);
    } else if s.pcs[t].Inserting? || s.pcs[t].Replacing? {
      CasExists(s, t);
    } else {
      WriterMoves(s, t);
    }
  }
}
