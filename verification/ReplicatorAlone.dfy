/** What one thread does while the others stand still: it finishes its write.  From
    this come runs in which a thread that stands still clears `ready` of a slot that
    has long been given to another. */
module ReplicatorAlone {
  import opened EntryHeap
  import opened TableSteps
  import opened TableSpec
  import opened Chains
  import opened Messages
  import opened Replicator
  import opened ReplicatorInv
  import opened ReplicatorSteps
  import opened ReplicatorRuns
  import Slots = SlotAllocator
  import LockfreeTable

  function End(ss: seq<State>): State
    requires ss != []
  {
    ss[|ss| - 1]
  }

  /** `ss'` continues the run `ss` by steps of thread `t`. */
  ghost predicate GoesOn(ss: seq<State>, ss': seq<State>, t: nat) {
    && ss != [] && ss <= ss' && Run(ss')
    && forall k :: |ss| - 1 <= k < |ss'| ==> Alone(End(ss), ss'[k], t)
  }

  lemma GoOn(ss: seq<State>, now: seq<State>, s': State, t: nat) returns (ss': seq<State>)
    requires GoesOn(ss, now, t) && StepOf(End(now), s', t) && Alone(End(now), s', t)
    ensures GoesOn(ss, ss', t) && ss' == now + [s']
  {
    ss' := now + [s'];
    assert StepAt([End(now), s'], 0);
    RunExtends(now, s');
    forall k | |ss| - 1 <= k < |ss'|
      ensures Alone(End(ss), ss'[k], t)
    {
      if k == |now| {
        assert Alone(End(ss), End(now), t);
      }
    }
  }

  lemma GoesOnFrom(ss: seq<State>, now: seq<State>, ss': seq<State>, t: nat)
    requires GoesOn(ss, now, t) && GoesOn(now, ss', t)
    ensures GoesOn(ss, ss', t)
  {
    forall k | |ss| - 1 <= k < |ss'|
      ensures Alone(End(ss), ss'[k], t)
    {
      if k < |now| {
        assert ss'[k] == now[k];
      } else {
        assert Alone(End(ss), End(now), t);
      }
    }
  }

  lemma EndInv(ss: seq<State>)
    requires Run(ss)
    ensures Inv(End(ss))
  {
    RunInv(ss, |ss| - 1);
  }

  /** What the invariant says of sizes and of the two program points of thread `t`. */
  predicate Fitting(s: State, t: nat) {
    && s.pcs.Keys == s.alloc.pcs.Keys && |s.heap.heads| > 0
    && |s.heap.slots| == |s.reqs| == |s.ready| == s.alloc.n
    && (t in s.pcs ==> PcFits(s.pcs[t], s.alloc.pcs[t], |s.heap.heads|))
  }

  lemma EndFitting(ss: seq<State>, t: nat)
    requires Run(ss)
    ensures Fitting(End(ss), t)
  {
    EndInv(ss);
    assert t in End(ss).pcs ==> Fits(End(ss), t);
  }

  // -------- Registering --------

  predicate MayWrite(s: State, t: nat) {
    && Has(s, t, Resting) && Slots.At(s.alloc, t, Slots.Idle)
    && s.alloc.nextFree < s.alloc.n == |s.heap.slots| == |s.reqs| == |s.ready|
  }

  /** The state in which `t` has got the next slot and filled it. */
  function Registered(s: State, t: nat, req: Request): State
    requires MayWrite(s, t)
  {
    var k := s.alloc.nextFree;
    s.(alloc := Slots.Move(s.alloc, t, Slots.Holding(k)).(nextFree := k + 1),
       heap := s.heap.(slots := s.heap.slots[k := s.heap.slots[k].(hashv := req.hashv)]),
       reqs := s.reqs[k := req], ready := s.ready[k := true], pcs := s.pcs[t := Searching],
       calls := s.calls + [req])
  }

  lemma RegisterAlone(ss: seq<State>, t: nat, req: Request) returns (ss': seq<State>)
    requires Run(ss) && MayWrite(End(ss), t)
    ensures GoesOn(ss, ss', t) && End(ss') == Registered(End(ss), t, req)
  {
    var s, k := End(ss), End(ss).alloc.nextFree;
    var a1 := Slots.Move(s.alloc, t, Slots.Trying);
    var s1 := s.(alloc := a1, pcs := s.pcs[t := Registering(req)], calls := s.calls + [req]);
    assert Call(s, s1, t, req);
    ss' := GoOn(ss, ss, s1, t);
    var a2 := Slots.Move(s.alloc, t, Slots.Holding(k)).(nextFree := k + 1);
    var s2 := s1.(alloc := a2);
    assert Acquire(s1, s2, t);
    ss' := GoOn(ss, ss', s2, t);
    assert Fill(s2, Registered(s, t, req), t);
    ss' := GoOn(ss, ss', Registered(s, t, req), t);
  }

  // -------- Publishing --------

  /** `s'` is `s` after `t` has published the entry in its slot, which is live then. */
  ghost predicate PublishedBy(s: State, s': State, t: nat) {
    && Held(s, t) && |s'.heap.heads| == |s.heap.heads| && |s'.heap.slots| == |s.heap.slots|
    && var k := SlotOf(s, t);
    && s' == Publish(s, k).(heap := s'.heap, pcs := s.pcs[t := Locking])
    && s'.heap.slots[k].hashv == s.heap.slots[k].hashv && !Dead(s'.heap, k)
  }

  /** Nobody has written to the left neighbour since the search of `t`. */
  ghost predicate Unchanged(s: State, t: nat) {
    && Held(s, t) && t in s.alloc.pcs
    && match s.pcs[t]
       case Inserting(left, exp) =>
         && InHeap(s.heap, left) && left != Node(SlotOf(s, t)) && !exp.deleted
         && (Next(s.heap, left) == exp || Next(s.heap, left) == AsProtected(exp.base))
       case Replacing(left, right) =>
         && InHeap(s.heap, left) && left != Node(SlotOf(s, t)) && Next(s.heap, left) == AsProtected(right)
       case _ => false
  }

  lemma SearchFinds(ss: seq<State>, s: State, t: nat) returns (r: SearchResult, h': Heap)
    requires Run(ss) && s == End(ss) && Held(s, t) && s.pcs[t] == Searching
    ensures SearchStep(s.heap, s.heap.slots[SlotOf(s, t)].hashv, r, h') && SameLife(s.heap, h')
    ensures InHeap(h', r.left) && r.left != Node(SlotOf(s, t))
    ensures if r.found then Next(h', r.left) == AsProtected(r.right)
            else Next(h', r.left).base == r.right && !Next(h', r.left).deleted
  {
    EndInv(ss);
    assert Knows(s, t);
    var cs := TableWhileHeld(s, t);
    var k := s.heap.slots[SlotOf(s, t)].hashv;
    r, h' := SearchTotal(s.heap, s.rank.Keys, cs, k);
    var cs' := LockfreeTable.SearchLists(s.heap, s.rank, cs, k, r, h');
    SearchKept(s.heap, s.rank, cs, k, r, h');
  }

  lemma SearchAlone(ss: seq<State>, t: nat) returns (ss': seq<State>)
    requires Run(ss) && Held(End(ss), t) && End(ss).pcs[t] == Searching && t in End(ss).alloc.pcs
    ensures GoesOn(ss, ss', t) && SearchedBy(End(ss), End(ss'), t)
  {
    var s := End(ss);
    var r, h' := SearchFinds(ss, s, t);
    var pc := if r.found then Replacing(r.left, r.right) else Inserting(r.left, Plain(r.right));
    var s' := s.(heap := h', pcs := s.pcs[t := pc]);
    SearchOnce(s, s', t, r);
    ss' := GoOn(ss, ss, s', t);
  }

  ghost predicate SearchedBy(s: State, s': State, t: nat) {
    && Unchanged(s', t) && t in s.pcs && t in s'.pcs
    && s' == s.(heap := s'.heap, pcs := s.pcs[t := s'.pcs[t]]) && SameLife(s.heap, s'.heap)
  }

  lemma SearchOnce(s: State, s': State, t: nat, r: SearchResult)
    requires Held(s, t) && s.pcs[t] == Searching
    requires SearchStep(s.heap, s.heap.slots[SlotOf(s, t)].hashv, r, s'.heap) && SameLife(s.heap, s'.heap)
    requires InHeap(s'.heap, r.left) && r.left != Node(SlotOf(s, t))
    requires if r.found then Next(s'.heap, r.left) == AsProtected(r.right)
             else Next(s'.heap, r.left).base == r.right && !Next(s'.heap, r.left).deleted
    requires var pc := if r.found then Replacing(r.left, r.right) else Inserting(r.left, Plain(r.right));
             s' == s.(heap := s'.heap, pcs := s.pcs[t := pc])
    ensures StepOf(s, s', t) && SearchedBy(s, s', t)
  {
    assert Search(s, s', t, r);
    if !r.found {
      var w := Next(s'.heap, r.left);
      assert w == Plain(r.right) || w == AsProtected(r.right);
    }
  }

  /** An insertion expecting exactly what is there succeeds at once. */
  lemma InsertAtOnce(s: State, t: nat) returns (s': State)
    requires Unchanged(s, t) && s.pcs[t].Inserting? && Next(s.heap, s.pcs[t].left) == s.pcs[t].exp
    ensures StepOf(s, s', t) && PublishedBy(s, s', t)
  {
    var k, left, exp := SlotOf(s, t), s.pcs[t].left, s.pcs[t].exp;
    var h', r := InsertTry(s.heap, k, left, exp).0, InsertTry(s.heap, k, left, exp).1;
    s' := Publish(s, k).(heap := h', pcs := s.pcs[t := Locking]);
    assert Next(h', Node(k)) == exp;
    assert InsertCas(s, s', t);
  }

  lemma ReplaceAtOnce(s: State, t: nat) returns (s': State)
    requires Unchanged(s, t) && s.pcs[t].Replacing?
    ensures StepOf(s, s', t) && PublishedBy(s, s', t)
  {
    var k, left, right := SlotOf(s, t), s.pcs[t].left, s.pcs[t].right;
    var h', r := SwitchTry(s.heap, k, left, right).0, SwitchTry(s.heap, k, left, right).1;
    s' := Publish(s, k).(heap := h', pcs := s.pcs[t := Locking]);
    assert Next(h', Node(k)) == Plain(right);
    assert ReplaceCas(s, s', t);
  }

  /** A left neighbour protected meanwhile costs one more turn. */
  lemma InsertAgain(s: State, t: nat) returns (s': State)
    requires Unchanged(s, t) && s.pcs[t].Inserting? && Next(s.heap, s.pcs[t].left) != s.pcs[t].exp
    ensures StepOf(s, s', t) && Unchanged(s', t)
    ensures s'.pcs[t].Inserting? && Next(s'.heap, s'.pcs[t].left) == s'.pcs[t].exp
    ensures s' == s.(heap := s'.heap, pcs := s.pcs[t := s'.pcs[t]])
    ensures |s'.heap.heads| == |s.heap.heads| && |s'.heap.slots| == |s.heap.slots|
    ensures s'.heap.slots[SlotOf(s, t)].hashv == s.heap.slots[SlotOf(s, t)].hashv
  {
    var k, left, exp := SlotOf(s, t), s.pcs[t].left, s.pcs[t].exp;
    var h' := SetNext(s.heap, Node(k), exp);
    s' := s.(heap := h', pcs := s.pcs[t := Inserting(left, Next(s.heap, left))]);
    assert InsertTry(s.heap, k, left, exp) == (h', Again(Next(s.heap, left)));
    assert InsertCas(s, s', t);
  }

  lemma PublishAlone(ss: seq<State>, t: nat) returns (ss': seq<State>)
    requires Run(ss) && Held(End(ss), t) && End(ss).pcs[t] == Searching
    ensures GoesOn(ss, ss', t) && PublishedBy(End(ss), End(ss'), t)
  {
    ss' := SearchAlone(ss, t);
    var s := End(ss');
    if s.pcs[t].Replacing? {
      var s' := ReplaceAtOnce(s, t);
      ss' := GoOn(ss, ss', s', t);
    } else {
      if Next(s.heap, s.pcs[t].left) != s.pcs[t].exp {
        s := InsertAgain(s, t);
        ss' := GoOn(ss, ss', s, t);
      }
      var s' := InsertAtOnce(s, t);
      ss' := GoOn(ss, ss', s', t);
    }
  }

  // -------- Logging --------

  /** The state in which `t` has logged the entry of its own slot `k` and counted it. */
  function Logged(s: State, t: nat, k: nat): State
    requires k < |s.reqs| && k in s.rank
  {
    s.(alloc := Slots.Move(s.alloc, t, Slots.Counted(k))
                .(processed := s.alloc.processed + 1, finished := s.alloc.finished + {k}),
       log := s.log + [s.reqs[k]], stamps := s.stamps + [s.rank[k]], locked := false, pcs := s.pcs[t := Clearing(k)])
  }

  lemma LogAlone(ss: seq<State>, t: nat) returns (ss': seq<State>)
    requires Run(ss) && Held(End(ss), t) && t in End(ss).alloc.pcs
    requires End(ss).pcs[t] == Locking && !End(ss).locked
    requires SlotOf(End(ss), t) in End(ss).rank && !Dead(End(ss).heap, SlotOf(End(ss), t))
    ensures GoesOn(ss, ss', t) && End(ss') == Logged(End(ss), t, SlotOf(End(ss), t))
    ensures |ss'| > |ss| && Count(ss'[|ss'| - 2], End(ss'), t)
  {
    var s, k := End(ss), SlotOf(End(ss), t);
    var s1 := s.(locked := true, pcs := s.pcs[t := Chasing(k)]);
    assert Lock(s, s1, t);
    ss' := GoOn(ss, ss, s1, t);
    var s2 := s1.(pcs := s.pcs[t := Writing(k)]);
    assert ChaseOnce(s1, s2, t);
    ss' := GoOn(ss, ss', s2, t);
    var s3 := s2.(log := s.log + [s.reqs[k]], stamps := s.stamps + [s.rank[k]], pcs := s.pcs[t := Unlocking(k)]);
    assert Write(s2, s3, t);
    ss' := GoOn(ss, ss', s3, t);
    var s4 := s3.(locked := false, pcs := s.pcs[t := Finishing(k)]);
    assert Unlock(s3, s4, t);
    ss' := GoOn(ss, ss', s4, t);
    assert Count(s4, Logged(s, t, k), t);
    ss' := GoOn(ss, ss', Logged(s, t, k), t);
  }

  // -------- A whole write --------

  /** `s'` is `s` after `t` has written `req` on the next slot, up to its count. */
  ghost predicate WroteAlone(s: State, s': State, t: nat, req: Request) {
    && MayWrite(s, t)
    && var k := s.alloc.nextFree;
    && s'.alloc == Slots.Move(s.alloc, t, Slots.Counted(k))
                   .(nextFree := k + 1, processed := s.alloc.processed + 1, finished := s.alloc.finished + {k})
    && s'.pcs == s.pcs[t := Clearing(k)] && !s'.locked
    && s'.calls == s.calls + [req] && s'.hist == s.hist + [req] && s'.log == s.log + [req]
    && s'.reqs == s.reqs[k := req] && s'.ready == s.ready[k := true]
  }

  /** A thread that is alone, whatever the others were doing when they stopped
      outside the writer lock, publishes and logs its own request. */
  lemma WriteAlone(ss: seq<State>, t: nat, req: Request) returns (ss': seq<State>)
    requires Run(ss) && MayWrite(End(ss), t) && !End(ss).locked
    ensures GoesOn(ss, ss', t) && WroteAlone(End(ss), End(ss'), t, req)
    ensures |ss'| > |ss| && Count(ss'[|ss'| - 2], End(ss'), t)
  {
    var now := RegisterAlone(ss, t, req);
    var next := PublishAlone(now, t);
    GoesOnFrom(ss, now, next, t);
    ss' := LogAlone(next, t);
    GoesOnFrom(ss, next, ss', t);
  }

  // -------- Epochs --------

  /** Thread `t` is between two calls, and nobody is inside the writer lock. */
  predicate Free(s: State, t: nat) {
    Has(s, t, Resting) && Slots.At(s.alloc, t, Slots.Idle) && !s.locked
  }

  lemma ClearOnce(s: State, t: nat) returns (s': State)
    requires t in s.pcs && s.pcs[t].Clearing? && s.pcs[t].latest < |s.ready|
    requires t in s.alloc.pcs && s.alloc.pcs[t].Counted?
    ensures Clear(s, s', t) && StepOf(s, s', t)
  {
    var a' := Slots.Move(s.alloc, t, if s.alloc.pcs[t].idx == s.alloc.n - 1 then Slots.Draining else Slots.Idle);
    s' := s.(alloc := a', ready := s.ready[s.pcs[t].latest := false], pcs := s.pcs[t := Resting]);
  }

  /** One whole call; the holder of the last slot is then about to reset. */
  lemma CallAlone(ss: seq<State>, t: nat) returns (ss': seq<State>)
    requires Run(ss) && Free(End(ss), t) && End(ss).alloc.nextFree < End(ss).alloc.n
    ensures GoesOn(ss, ss', t)
    ensures var s, s' := End(ss), End(ss');
            && Has(s', t, Resting) && !s'.locked
            && s'.alloc == Slots.Move(s.alloc, t,
                                      if s.alloc.nextFree == s.alloc.n - 1 then Slots.Draining else Slots.Idle)
                           .(nextFree := s.alloc.nextFree + 1, processed := s.alloc.processed + 1,
                             finished := s.alloc.finished + {s.alloc.nextFree})
  {
    EndFitting(ss, t);
    ss' := WriteAlone(ss, t, NO_REQUEST);
    var s' := ClearOnce(End(ss'), t);
    ss' := GoOn(ss, ss', s', t);
  }

  /** Thread `t` uses the slots up to `upTo`. */
  lemma {:induction false} CallsAlone(ss: seq<State>, t: nat, upTo: nat) returns (ss': seq<State>)
    requires Run(ss) && Free(End(ss), t) && End(ss).alloc.nextFree <= upTo < End(ss).alloc.n
    ensures GoesOn(ss, ss', t) && Free(End(ss'), t)
    ensures var a, a' := End(ss).alloc, End(ss').alloc;
            a'.nextFree == upTo && a'.processed == a.processed + upTo - a.nextFree && a'.n == a.n && a'.epoch == a.epoch
    decreases upTo - End(ss).alloc.nextFree
  {
    if End(ss).alloc.nextFree == upTo {
      EndFitting(ss, t);
      ss' := ss;
    } else {
      var now := CallAlone(ss, t);
      ss' := CallsAlone(now, t, upTo);
      GoesOnFrom(ss, now, ss', t);
    }
  }
}
