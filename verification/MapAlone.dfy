/** What the table's machine can always do: no thread is ever stuck, and one that runs
    alone, whatever the others were doing when they stopped, completes its operation. */
module MapAlone {
  import opened EntryHeap
  import opened TableSpec
  import opened TableSteps
  import opened MapMachine

  ghost predicate Moves(s: State, s': State, t: nat, e: Event) {
    StepOf(s, s', t, e) && Step(s, s', e)
  }

  lemma MovesInv(s: State, s': State, t: nat, e: Event)
    requires Inv(s) && Moves(s, s', t, e)
    ensures Inv(s') && Effect(e, AbsOf(s), AbsOf(s'))
  {
    StepGood(s, s', e);
  }

  // -------- Single steps --------

  /** An idle thread can take any unused entry for any hash. */
  lemma BeginOnce(s: State, t: nat, new_: nat, k: nat) returns (s': State)
    requires t in s.pcs && s.pcs[t] == Idle && new_ < |s.heap.slots| && new_ !in s.pub
    requires forall u :: u in s.pcs ==> !Owns(s.pcs[u], new_)
    ensures Begin(s, s', t, new_, k) && Moves(s, s', t, Silent)
  {
    s' := State(s.heap.(slots := s.heap.slots[new_ := s.heap.slots[new_].(hashv := k)]), s.pub,
                s.pcs[t := Searching(new_)]);
    assert Begin(s, s', t, new_, k);
  }

  lemma SearchOnce(s: State, t: nat) returns (s': State, r: SearchResult)
    requires Inv(s) && t in s.pcs && s.pcs[t].Searching?
    ensures Search(s, s', t, r) && Moves(s, s', t, Silent)
    ensures Found(s, s', t)
  {
    var new_ := s.pcs[t].new_;
    var k := HashOf(s.heap, new_);
    var cs :| Wf(s.heap, s.pub, cs);
    var h';
    r, h' := SearchTotal(s.heap, s.pub, cs, k);
    s' := s.(heap := h', pcs := s.pcs[t := if r.found then Replacing(new_, r.left, r.right)
                                          else Inserting(new_, r.left, Plain(r.right))]);
    assert Search(s, s', t, r);
    Searched(s, s', t, cs, k, r);
  }

  /** What a search has just found is still there. */
  ghost predicate Found(s: State, s': State, t: nat) {
    && t in s.pcs && s.pcs[t].Searching? && t in s'.pcs
    && s.pcs[t].new_ < |s.heap.slots| && s.pcs[t].new_ < |s'.heap.slots|
    && HashOf(s'.heap, s.pcs[t].new_) == HashOf(s.heap, s.pcs[t].new_)
    && AbsOf(s') == AbsOf(s)
    && match s'.pcs[t]
       case Inserting(new_, left, exp) =>
         && new_ == s.pcs[t].new_ && HashOf(s.heap, new_) !in AbsOf(s) && InHeap(s'.heap, left) && left != Node(new_)
         && !exp.deleted && (Next(s'.heap, left) == exp || Next(s'.heap, left) == AsProtected(exp.base))
       case Replacing(new_, left, right) =>
         && new_ == s.pcs[t].new_ && HashOf(s.heap, new_) in AbsOf(s) && InHeap(s'.heap, left) && left != Node(new_)
         && Next(s'.heap, left) == AsProtected(right)
       case _ => false
  }

  lemma Searched(s: State, s': State, t: nat, cs: seq<seq<nat>>, k: nat, r: SearchResult)
    requires Inv(s) && t in s.pcs && s.pcs[t].Searching? && Wf(s.heap, s.pub, cs)
    requires k == HashOf(s.heap, s.pcs[t].new_) && SearchStep(s.heap, k, r, s'.heap) && s'.pub == s.pub
    requires s'.pcs == s.pcs[t := if r.found then Replacing(s.pcs[t].new_, r.left, r.right)
                                  else Inserting(s.pcs[t].new_, r.left, Plain(r.right))]
    ensures Found(s, s', t)
  {
    var b := BucketOf(s.heap, k);
    var c :| Linked(s.heap, b, c) && SearchSpec(s.heap, b, c, k, r, s'.heap);
    assert WfBucket(s.heap, s.pub, b, cs[b]);
    LinkedUnique(s.heap, b, c, cs[b]);
    var cs' := SearchKeeps(s.heap, s.pub, cs, k, r, s'.heap);
    AbsMapHolds(s.heap, s.pub, cs);
    if !r.found {
      var w := Next(s'.heap, r.left);
      assert w == Plain(r.right) || w == AsProtected(r.right);
    }
  }

  /** Every compare-and-swap that a thread is about to make can be made. */
  lemma CasOnce(s: State, t: nat) returns (s': State, e: Event)
    requires Inv(s) && t in s.pcs && (s.pcs[t].Inserting? || s.pcs[t].Replacing? || s.pcs[t].Deleting?)
    ensures Moves(s, s', t, e)
    ensures s.pcs[t].Inserting? ==> InsertCas(s, s', t, e)
    ensures s.pcs[t].Replacing? ==> ReplaceCas(s, s', t, e)
    ensures s.pcs[t].Deleting? ==> DeleteCas(s, s', t, e)
  {
    match s.pcs[t] {
      case Inserting(new_, left, exp) =>
        var (h', r) := InsertTry(s.heap, new_, left, exp);
        var pc := match r case Done => Idle case Again(x) => Inserting(new_, left, x) case Fail => Searching(new_);
        s' := State(h', if r.Done? then s.pub + {new_} else s.pub, s.pcs[t := pc]);
        e := if r.Done? then Insert(HashOf(s.heap, new_), new_) else Silent;
      case Replacing(new_, left, right) =>
        var (h', r) := SwitchTry(s.heap, new_, left, right);
        var pc := match r case Done => Idle case Again(x) => Replacing(new_, left, x.base) case Fail => Searching(new_);
        s' := State(h', if r.Done? then s.pub + {new_} else s.pub, s.pcs[t := pc]);
        e := if r.Done? then Replace(HashOf(s.heap, new_), new_) else Silent;
      case Deleting(target, next) =>
        var (h', r) := DeleteTry(s.heap, target, next);
        s' := State(h', s.pub, s.pcs[t := if r.Again? then Deleting(target, r.exp) else Idle]);
        e := if r.Done? then Remove(HashOf(s.heap, target)) else Silent;
    }
  }

  /** In every reachable state every thread inside an operation has a step. */
  lemma NeverStuck(ss: seq<State>, es: seq<Event>, i: nat, t: nat) returns (s': State, e: Event)
    requires Run(ss, es) && i < |ss| && t in ss[i].pcs && ss[i].pcs[t] != Idle
    ensures Moves(ss[i], s', t, e)
  {
    RunInv(ss, es, i);
    if ss[i].pcs[t].Searching? {
      var r;
      s', r := SearchOnce(ss[i], t);
      e := Silent;
    } else {
      s', e := CasOnce(ss[i], t);
    }
  }

  // -------- Whole operations --------

  /** Some steps of thread `t`, of which only the last changes the abstract map. */
  ghost predicate Solo(ss: seq<State>, t: nat, e: Event) {
    |ss| >= 2 && forall i: nat {:trigger SoloAt(ss, t, e, i)} :: i + 1 < |ss| ==> SoloAt(ss, t, e, i)
  }

  ghost predicate SoloAt(ss: seq<State>, t: nat, e: Event, i: nat)
    requires i + 1 < |ss|
  {
    Moves(ss[i], ss[i + 1], t, if i + 2 == |ss| then e else Silent)
  }

  lemma SoloOne(s: State, s': State, t: nat, e: Event)
    requires Moves(s, s', t, e)
    ensures Solo([s, s'], t, e)
  {
  }

  lemma SoloFirst(s: State, ss: seq<State>, t: nat, e: Event)
    requires Solo(ss, t, e) && Moves(s, ss[0], t, Silent)
    ensures Solo([s] + ss, t, e)
  {
    forall i: nat | i + 1 < |[s] + ss|
      ensures SoloAt([s] + ss, t, e, i)
    {
      assert i > 0 ==> SoloAt(ss, t, e, i - 1);
    }
  }

  /** Steps of `t` that put `new_` in the map under hash `k` and leave the thread idle. */
  ghost predicate Puts(ss: seq<State>, t: nat, new_: nat, k: nat, e: Event) {
    && Solo(ss, t, e) && e == (if k in AbsOf(ss[0]) then Replace(k, new_) else Insert(k, new_))
    && t in ss[|ss| - 1].pcs && ss[|ss| - 1].pcs[t] == Idle
  }

  lemma PutsFirst(s: State, ss: seq<State>, t: nat, new_: nat, k: nat, e: Event)
    requires Puts(ss, t, new_, k, e) && Moves(s, ss[0], t, Silent) && AbsOf(ss[0]) == AbsOf(s)
    ensures Puts([s] + ss, t, new_, k, e)
  {
    SoloFirst(s, ss, t, e);
  }

  /** The publishing write of a thread whose search is still true. */
  lemma PublishAlone(s: State, s1: State, t: nat) returns (ss: seq<State>, e: Event)
    requires Inv(s) && Inv(s1) && Found(s, s1, t)
    ensures |ss| > 0 && ss[0] == s1 && Puts(ss, t, s.pcs[t].new_, HashOf(s.heap, s.pcs[t].new_), e)
  {
    var s2;
    s2, e := CasOnce(s1, t);
    if s1.pcs[t].Inserting? && Next(s1.heap, s1.pcs[t].left) != s1.pcs[t].exp {
      assert s2.pcs[t].Inserting?;
      MovesInv(s1, s2, t, e);
      var s3, e3 := CasOnce(s2, t);
      SoloOne(s2, s3, t, e3);
      SoloFirst(s1, [s2, s3], t, e3);
      ss, e := [s1] + [s2, s3], e3;
    } else {
      SoloOne(s1, s2, t, e);
      ss := [s1, s2];
    }
  }

  /** The same from the search on. */
  lemma FindAlone(s: State, t: nat) returns (ss: seq<State>, e: Event)
    requires Inv(s) && t in s.pcs && s.pcs[t].Searching? && s.pcs[t].new_ < |s.heap.slots|
    ensures |ss| > 0 && ss[0] == s && Puts(ss, t, s.pcs[t].new_, HashOf(s.heap, s.pcs[t].new_), e)
  {
    var s1, r := SearchOnce(s, t);
    MovesInv(s, s1, t, Silent);
    ss, e := PublishAlone(s, s1, t);
    PutsFirst(s, ss, t, s.pcs[t].new_, HashOf(s.heap, s.pcs[t].new_), e);
    ss := [s] + ss;
  }

  /** What the map is after such steps. */
  lemma {:induction false} SoloMap(ss: seq<State>, t: nat, e: Event)
    requires Solo(ss, t, e) && Inv(ss[0])
    ensures Inv(ss[|ss| - 1]) && Effect(e, AbsOf(ss[0]), AbsOf(ss[|ss| - 1]))
    decreases |ss|
  {
    assert SoloAt(ss, t, e, 0);
    MovesInv(ss[0], ss[1], t, if |ss| == 2 then e else Silent);
    if |ss| > 2 {
      forall i: nat | i + 1 < |ss[1..]|
        ensures SoloAt(ss[1..], t, e, i)
      {
        assert SoloAt(ss, t, e, i + 1);
      }
      SoloMap(ss[1..], t, e);
    }
  }

  /** From every reachable state an idle thread that runs alone can put an unused entry
      in the map under any hash, whether the hash is there or not, and changes nothing else. */
  lemma PutAlone(s: State, t: nat, new_: nat, k: nat) returns (ss: seq<State>, e: Event)
    requires Inv(s) && t in s.pcs && s.pcs[t] == Idle && new_ < |s.heap.slots| && new_ !in s.pub
    requires forall u :: u in s.pcs ==> !Owns(s.pcs[u], new_)
    ensures |ss| > 0 && ss[0] == s && Puts(ss, t, new_, k, e)
    ensures AbsOf(ss[|ss| - 1]) == AbsOf(s)[k := new_]
  {
    var s1 := BeginOnce(s, t, new_, k);
    MovesInv(s, s1, t, Silent);
    ss, e := FindAlone(s1, t);
    PutsFirst(s, ss, t, new_, k, e);
    ss := [s] + ss;
    SoloMap(ss, t, e);
  }

  lemma DeleteReadOnce(s: State, t: nat, target: nat) returns (s': State)
    requires t in s.pcs && s.pcs[t] == Idle && target in s.pub && target < |s.heap.slots|
    ensures DeleteRead(s, s', t, target) && Moves(s, s', t, Silent)
  {
    var next := s.heap.slots[target].next;
    s' := if next.deleted || next.prot then s else s.(pcs := s.pcs[t := Deleting(target, next)]);
    assert DeleteRead(s, s', t, target);
    assert StepOf(s, s', t, Silent);
  }

  /** And it can remove any published entry that carries no mark. */
  lemma RemoveAlone(s: State, t: nat, target: nat) returns (ss: seq<State>)
    requires Inv(s) && t in s.pcs && s.pcs[t] == Idle && target in s.pub && target < |s.heap.slots|
    requires !Marked(s.heap, target)
    ensures Solo(ss, t, Remove(HashOf(s.heap, target))) && ss[0] == s
    ensures t in ss[|ss| - 1].pcs && ss[|ss| - 1].pcs[t] == Idle
    ensures AbsOf(ss[|ss| - 1]) == AbsOf(s) - {HashOf(s.heap, target)}
  {
    var s1 := DeleteReadOnce(s, t, target);
    MovesInv(s, s1, t, Silent);
    var s2, e := CasOnce(s1, t);
    SoloOne(s1, s2, t, e);
    SoloFirst(s, [s1, s2], t, e);
    ss := [s] + [s1, s2];
    SoloMap(ss, t, e);
  }
}
