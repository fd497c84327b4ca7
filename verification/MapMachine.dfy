/** Any number of threads working on one lock-free table.

    A search, with its protecting or unlinking write, is one step; every
    compare-and-swap of insert, replace and remove is a step of its own, and what
    a thread remembers between two steps may be out of date. */
module MapMachine {
  import opened EntryHeap
  import opened TableSpec
  import opened TableSteps

  datatype Pc =
    | Idle
    | Searching(new_: nat)
    | Inserting(new_: nat, left: Ptr, exp: Ref)
    | Replacing(new_: nat, left: Ptr, right: Ptr)
    | Deleting(target: nat, next: Ref)

  datatype State = State(heap: Heap, pub: set<nat>, pcs: map<nat, Pc>)

  /** What a step does to the abstract map. */
  datatype Event = Silent | Insert(k: nat, n: nat) | Replace(k: nat, n: nat) | Remove(k: nat)

  /** When the map operation behind an event makes sense, and what it does. */
  ghost predicate Allowed(e: Event, m: map<nat, nat>) {
    match e
    case Silent => true
    case Insert(k, _) => k !in m
    case Replace(k, _) => k in m
    case Remove(k) => k in m
  }

  ghost function Apply(e: Event, m: map<nat, nat>): map<nat, nat> {
    match e
    case Silent => m
    case Insert(k, n) => m[k := n]
    case Replace(k, n) => m[k := n]
    case Remove(k) => m - {k}
  }

  ghost predicate Effect(e: Event, m: map<nat, nat>, m': map<nat, nat>) {
    Allowed(e, m) && m' == Apply(e, m)
  }

  /** The events taken one after the other, and whether each is allowed when its turn comes. */
  ghost function ApplyAll(es: seq<Event>, m: map<nat, nat>): map<nat, nat> {
    if |es| == 0 then m else Apply(es[|es| - 1], ApplyAll(es[..|es| - 1], m))
  }

  ghost predicate AllAllowed(es: seq<Event>, m: map<nat, nat>) {
    |es| > 0 ==> AllAllowed(es[..|es| - 1], m) && Allowed(es[|es| - 1], ApplyAll(es[..|es| - 1], m))
  }

  predicate Owns(pc: Pc, n: nat) {
    match pc
    case Searching(m) => m == n
    case Inserting(m, _, _) => m == n
    case Replacing(m, _, _) => m == n
    case _ => false
  }

  function HashOf(h: Heap, n: nat): nat
    requires n < |h.slots|
  {
    h.slots[n].hashv
  }

  ghost predicate Init(s: State) {
    && |s.heap.heads| > 0
    && (forall b :: 0 <= b < |s.heap.heads| ==> s.heap.heads[b] == Plain(Head(b)))
    && s.pub == {}
    && (forall t :: t in s.pcs ==> s.pcs[t] == Idle)
  }

  // -------- Steps of thread t --------

  /** A thread takes an unused entry and fills in its hash. */
  ghost predicate Begin(s: State, s': State, t: nat, new_: nat, k: nat) {
    && t in s.pcs && s.pcs[t] == Idle
    && new_ < |s.heap.slots| && new_ !in s.pub
    && (forall u :: u in s.pcs ==> !Owns(s.pcs[u], new_))
    && s' == State(s.heap.(slots := s.heap.slots[new_ := s.heap.slots[new_].(hashv := k)]), s.pub,
                   s.pcs[t := Searching(new_)])
  }

  ghost predicate Search(s: State, s': State, t: nat, r: SearchResult) {
    && t in s.pcs && s.pcs[t].Searching?
    && var new_ := s.pcs[t].new_;
    && new_ < |s.heap.slots|
    && SearchStep(s.heap, HashOf(s.heap, new_), r, s'.heap)
    && s'.pub == s.pub
    && s'.pcs == s.pcs[t := if r.found then Replacing(new_, r.left, r.right)
                            else Inserting(new_, r.left, Plain(r.right))]
  }

  ghost predicate InsertCas(s: State, s': State, t: nat, e: Event) {
    && t in s.pcs && s.pcs[t].Inserting?
    && var Inserting(new_, left, exp) := s.pcs[t];
    && InHeap(s.heap, Node(new_)) && InHeap(s.heap, left)
    && var (h', r) := InsertTry(s.heap, new_, left, exp);
    && s'.heap == h'
    && s'.pub == (if r.Done? then s.pub + {new_} else s.pub)
    && s'.pcs == s.pcs[t := match r
                            case Done => Idle
                            case Again(x) => Inserting(new_, left, x)
                            case Fail => Searching(new_)]
    && e == if r.Done? then Insert(HashOf(s.heap, new_), new_) else Silent
  }

  ghost predicate ReplaceCas(s: State, s': State, t: nat, e: Event) {
    && t in s.pcs && s.pcs[t].Replacing?
    && var Replacing(new_, left, right) := s.pcs[t];
    && InHeap(s.heap, Node(new_)) && InHeap(s.heap, left)
    && var (h', r) := SwitchTry(s.heap, new_, left, right);
    && s'.heap == h'
    && s'.pub == (if r.Done? then s.pub + {new_} else s.pub)
    && s'.pcs == s.pcs[t := match r
                            case Done => Idle
                            case Again(x) => Replacing(new_, left, x.base)
                            case Fail => Searching(new_)]
    && e == if r.Done? then Replace(HashOf(s.heap, new_), new_) else Silent
  }

  /** A thread reads `next` of a published entry it wants removed; a marked word ends the call. */
  ghost predicate DeleteRead(s: State, s': State, t: nat, target: nat) {
    && t in s.pcs && s.pcs[t] == Idle
    && target in s.pub && target < |s.heap.slots|
    && var next := s.heap.slots[target].next;
    && s' == (if next.deleted || next.prot then s else s.(pcs := s.pcs[t := Deleting(target, next)]))
  }

  ghost predicate DeleteCas(s: State, s': State, t: nat, e: Event) {
    && t in s.pcs && s.pcs[t].Deleting?
    && var Deleting(target, next) := s.pcs[t];
    && InHeap(s.heap, Node(target))
    && var (h', r) := DeleteTry(s.heap, target, next);
    && s' == State(h', s.pub, s.pcs[t := if r.Again? then Deleting(target, r.exp) else Idle])
    && e == if r.Done? then Remove(HashOf(s.heap, target)) else Silent
  }

  ghost predicate StepOf(s: State, s': State, t: nat, e: Event) {
    || (e == Silent && exists n, k :: Begin(s, s', t, n, k))
    || (e == Silent && exists r :: Search(s, s', t, r))
    || InsertCas(s, s', t, e)
    || ReplaceCas(s, s', t, e)
    || (e == Silent && exists n :: DeleteRead(s, s', t, n))
    || DeleteCas(s, s', t, e)
  }

  ghost predicate Step(s: State, s': State, e: Event) {
    exists t :: StepOf(s, s', t, e)
  }

  // -------- What every reachable state satisfies --------

  /** What a thread remembers is about immutable facts only, so it cannot go stale. */
  ghost predicate PcOk(h: Heap, pub: set<nat>, pc: Pc)
    requires |h.heads| > 0
  {
    match pc
    case Idle => true
    case Searching(new_) => new_ < |h.slots| && new_ !in pub
    case Inserting(new_, left, exp) =>
      && new_ < |h.slots| && new_ !in pub && !exp.deleted
      && Before(h, pub, left, HashOf(h, new_)) && After(h, pub, exp.base, HashOf(h, new_))
    case Replacing(new_, left, right) =>
      && new_ < |h.slots| && new_ !in pub
      && left.Node? && left.i in pub && left.i < |h.slots| && HashOf(h, left.i) == HashOf(h, new_)
    case Deleting(target, next) => target in pub && target < |h.slots| && !next.deleted && !next.prot
  }

  ghost predicate TableOk(s: State) {
    exists cs :: Wf(s.heap, s.pub, cs)
  }

  ghost predicate Inv(s: State) {
    && TableOk(s)
    && |s.heap.heads| > 0
    && (forall t :: t in s.pcs ==> PcOk(s.heap, s.pub, s.pcs[t]))
    && (forall t, u, n :: t in s.pcs && u in s.pcs && Owns(s.pcs[t], n) && Owns(s.pcs[u], n) ==> t == u)
  }

  lemma InitInv(s: State)
    requires Init(s)
    ensures Inv(s) && AbsMap(s.heap, s.pub) == map[]
  {
    var cs := seq(|s.heap.heads|, b requires 0 <= b < |s.heap.heads| => []);
    forall b | 0 <= b < |cs|
      ensures WfBucket(s.heap, s.pub, b, cs[b])
    {
      assert Link(s.heap, b, cs[b], -1);
    }
    assert Wf(s.heap, s.pub, cs);
  }

  /** Published entries keep their hash, and the dead ones keep their whole word, for ever. */
  ghost predicate Frozen(s: State, s': State) {
    && |s'.heap.heads| == |s.heap.heads| && |s'.heap.slots| == |s.heap.slots|
    && s.pub <= s'.pub
    && (forall n :: n in s.pub && n < |s.heap.slots| ==> HashOf(s'.heap, n) == HashOf(s.heap, n))
    && (forall n :: n in s.pub && n < |s.heap.slots| && Dead(s.heap, n) ==> s'.heap.slots[n] == s.heap.slots[n])
  }

  /** A thread that did not move is still in order. */
  lemma PcStable(h: Heap, pub: set<nat>, h': Heap, pub': set<nat>, pc: Pc)
    requires |h.heads| > 0 && PcOk(h, pub, pc)
    requires |h'.heads| == |h.heads| && |h'.slots| == |h.slots| && pub <= pub'
    requires forall n :: n in pub && n < |h.slots| ==> HashOf(h', n) == HashOf(h, n)
    requires forall n: nat :: Owns(pc, n) && n < |h.slots| ==> n !in pub' && HashOf(h', n) == HashOf(h, n)
    ensures PcOk(h', pub', pc)
  {
  }

  /** The claim for one step. */
  ghost predicate Good(s: State, s': State, e: Event) {
    Inv(s') && Effect(e, AbsMap(s.heap, s.pub), AbsMap(s'.heap, s'.pub)) && Frozen(s, s')
  }

  /** All a step of thread `t` has to establish by itself. */
  lemma Conclude(s: State, s': State, t: nat, e: Event)
    requires Inv(s) && TableOk(s') && Frozen(s, s')
    requires Effect(e, AbsMap(s.heap, s.pub), AbsMap(s'.heap, s'.pub))
    requires t in s.pcs && t in s'.pcs && s'.pcs == s.pcs[t := s'.pcs[t]] && PcOk(s'.heap, s'.pub, s'.pcs[t])
    requires forall n, u :: Owns(s'.pcs[t], n) && u in s.pcs && u != t ==> !Owns(s.pcs[u], n)
    requires forall n: nat, u :: u in s.pcs && u != t && Owns(s.pcs[u], n) && n < |s.heap.slots| ==>
                              (n in s'.pub <==> n in s.pub) && HashOf(s'.heap, n) == HashOf(s.heap, n)
    ensures Good(s, s', e)
  {
    forall u | u in s'.pcs
      ensures PcOk(s'.heap, s'.pub, s'.pcs[u])
    {
      if u != t {
        PcStable(s.heap, s.pub, s'.heap, s'.pub, s.pcs[u]);
      }
    }
  }

  lemma BeginGood(s: State, s': State, t: nat, new_: nat, k: nat)
    requires Inv(s) && Begin(s, s', t, new_, k)
    ensures Good(s, s', Silent)
  {
    var cs :| Wf(s.heap, s.pub, cs);
    PrivateWf(s.heap, s'.heap, s.pub, cs);
    Conclude(s, s', t, Silent);
  }

  lemma SearchGood(s: State, s': State, t: nat, r: SearchResult)
    requires Inv(s) && Search(s, s', t, r)
    ensures Good(s, s', Silent)
  {
    var cs :| Wf(s.heap, s.pub, cs);
    var k := HashOf(s.heap, s.pcs[t].new_);
    var b := BucketOf(s.heap, k);
    var c :| Linked(s.heap, b, c) && SearchSpec(s.heap, b, c, k, r, s'.heap);
    assert WfBucket(s.heap, s.pub, b, cs[b]);
    LinkedUnique(s.heap, b, c, cs[b]);
    var cs' := SearchKeeps(s.heap, s.pub, cs, k, r, s'.heap);
    Conclude(s, s', t, Silent);
  }

  lemma InsertGood(s: State, s': State, t: nat, e: Event)
    requires Inv(s) && InsertCas(s, s', t, e)
    ensures Good(s, s', e)
  {
    var cs :| Wf(s.heap, s.pub, cs);
    var Inserting(new_, left, exp) := s.pcs[t];
    assert Owns(s.pcs[t], new_);
    if Next(s.heap, left) == exp {
      var b, i := InsertSetsMap(s.heap, s.pub, cs, new_, left, exp);
      PlaceFrozen(s, s', new_, exp, left, Plain(Node(new_)));
    } else {
      PrivateWf(s.heap, s'.heap, s.pub, cs);
    }
    Conclude(s, s', t, e);
  }

  /** A placing write changes the words of `new_` and of the live `prev` only. */
  lemma PlaceFrozen(s: State, s': State, new_: nat, next: Ref, prev: Ptr, r: Ref)
    requires new_ < |s.heap.slots| && new_ !in s.pub && InHeap(s.heap, prev)
    requires prev.Node? ==> !Dead(s.heap, prev.i)
    requires s'.heap == Place(s.heap, new_, next, prev, r) && s'.pub == s.pub + {new_}
    ensures Frozen(s, s')
    ensures forall n :: 0 <= n < |s.heap.slots| ==> HashOf(s'.heap, n) == HashOf(s.heap, n)
  {
  }

  lemma ReplaceGood(s: State, s': State, t: nat, e: Event)
    requires Inv(s) && ReplaceCas(s, s', t, e)
    ensures Good(s, s', e)
  {
    var cs :| Wf(s.heap, s.pub, cs);
    var Replacing(new_, left, right) := s.pcs[t];
    assert Owns(s.pcs[t], new_);
    if Next(s.heap, left) == AsProtected(right) {
      var b, i := SwitchSetsMap(s.heap, s.pub, cs, new_, left.i, right);
      PlaceFrozen(s, s', new_, Plain(right), left, AsDeleted(Node(new_)));
    } else {
      PrivateWf(s.heap, s'.heap, s.pub, cs);
    }
    Conclude(s, s', t, e);
  }

  lemma DeleteReadGood(s: State, s': State, t: nat, n: nat)
    requires Inv(s) && DeleteRead(s, s', t, n)
    ensures Good(s, s', Silent)
  {
    Conclude(s, s', t, Silent);
  }

  lemma DeleteGood(s: State, s': State, t: nat, e: Event)
    requires Inv(s) && DeleteCas(s, s', t, e)
    ensures Good(s, s', e)
  {
    var cs :| Wf(s.heap, s.pub, cs);
    var Deleting(target, next) := s.pcs[t];
    if Next(s.heap, Node(target)) == next {
      assert next == Plain(next.base);
      DeleteErasesMap(s.heap, s.pub, cs, target, next.base);
    }
    Conclude(s, s', t, e);
  }

  lemma StepGood(s: State, s': State, e: Event)
    requires Inv(s) && Step(s, s', e)
    ensures Good(s, s', e)
  {
    var t :| StepOf(s, s', t, e);
    if InsertCas(s, s', t, e) {
      InsertGood(s, s', t, e);
    } else if ReplaceCas(s, s', t, e) {
      ReplaceGood(s, s', t, e);
    } else if DeleteCas(s, s', t, e) {
      DeleteGood(s, s', t, e);
    } else if n, k :| Begin(s, s', t, n, k) {
      BeginGood(s, s', t, n, k);
    } else if r :| Search(s, s', t, r) {
      SearchGood(s, s', t, r);
    } else {
      var n :| DeleteRead(s, s', t, n);
      DeleteReadGood(s, s', t, n);
    }
  }

  // -------- How the calls end --------

  /** The word of entry `n` carries a mark. */
  predicate Marked(h: Heap, n: nat)
    requires n < |h.slots|
  {
    h.slots[n].next.deleted || h.slots[n].next.prot
  }

  /** A removal ends only when its target is marked, by itself or by somebody else, and
      goes on from the word it has found otherwise: an insertion behind the target does not stop it. */
  lemma DeleteEnds(s: State, s': State, t: nat, e: Event)
    requires Inv(s) && DeleteCas(s, s', t, e)
    ensures var Deleting(target, next) := s.pcs[t];
            && target < |s'.heap.slots| && target < |s.heap.slots|
            && (s'.pcs[t] == Idle <==> Marked(s'.heap, target))
            && (s'.pcs[t] != Idle ==> s'.heap == s.heap && s'.pcs[t] == Deleting(target, s.heap.slots[target].next))
            && (e.Remove? <==> s.heap.slots[target].next == next)
            && (e.Remove? ==> !Marked(s.heap, target) && s'.heap.slots[target].next.deleted)
  {
    var Deleting(target, next) := s.pcs[t];
    assert Next(s.heap, Node(target)) == s.heap.slots[target].next;
  }

  /** So does one that has just read its target. */
  lemma DeleteReadEnds(s: State, s': State, t: nat, target: nat)
    requires Inv(s) && DeleteRead(s, s', t, target)
    ensures s'.heap == s.heap && (s'.pcs[t] == Idle <==> Marked(s'.heap, target))
    ensures s'.pcs[t] != Idle ==> s'.pcs[t] == Deleting(target, s.heap.slots[target].next)
  {
  }

  /** An insertion ends only with its entry in the map.  It searches again only if the
      left neighbour has another successor now, and tries again expecting the very word it has found. */
  lemma InsertEnds(s: State, s': State, t: nat, e: Event)
    requires Inv(s) && InsertCas(s, s', t, e)
    ensures var Inserting(new_, left, exp) := s.pcs[t];
            var word := Next(s.heap, left);
            && (s'.pcs[t] == Idle <==> e.Insert?) && (s'.pcs[t] == Idle <==> word == exp)
            && (s'.pcs[t] == Idle ==> InMap(s', HashOf(s.heap, new_), new_))
            && (s'.pcs[t] == Searching(new_) <==> word != exp && word != AsProtected(exp.base))
            && (s'.pcs[t] != Idle && s'.pcs[t] != Searching(new_) ==> s'.pcs[t] == Inserting(new_, left, word))
            && (s'.pcs[t] != Idle ==> AbsMap(s'.heap, s'.pub) == AbsMap(s.heap, s.pub))
  {
    var cs :| Wf(s.heap, s.pub, cs);
    var Inserting(new_, left, exp) := s.pcs[t];
    assert left != Node(new_);
    InsertGood(s, s', t, e);
  }

  /** A replacement ends only with its entry in the map.  It searches again only if the
      entry found is not protected any more, and tries again behind the successor it has found. */
  lemma ReplaceEnds(s: State, s': State, t: nat, e: Event)
    requires Inv(s) && ReplaceCas(s, s', t, e)
    ensures var Replacing(new_, left, right) := s.pcs[t];
            var word := Next(s.heap, left);
            && (s'.pcs[t] == Idle <==> e.Replace?) && (s'.pcs[t] == Idle <==> word == AsProtected(right))
            && (s'.pcs[t] == Idle ==> InMap(s', HashOf(s.heap, new_), new_))
            && (s'.pcs[t] == Searching(new_) <==> !word.prot)
            && (s'.pcs[t] != Idle && word.prot ==> s'.pcs[t] == Replacing(new_, left, word.base))
            && (s'.pcs[t] != Idle ==> AbsMap(s'.heap, s'.pub) == AbsMap(s.heap, s.pub))
  {
    ReplaceGood(s, s', t, e);
  }

  ghost predicate InMap(s: State, k: nat, n: nat) {
    k in AbsMap(s.heap, s.pub) && AbsMap(s.heap, s.pub)[k] == n
  }

  // -------- Whole runs --------

  ghost predicate StepAt(ss: seq<State>, es: seq<Event>, i: nat)
    requires i < |es| && i + 1 < |ss|
  {
    Step(ss[i], ss[i + 1], es[i])
  }

  ghost predicate Run(ss: seq<State>, es: seq<Event>) {
    && |ss| == |es| + 1
    && Init(ss[0])
    && (forall i :: 0 <= i < |es| ==> StepAt(ss, es, i))
  }

  ghost function AbsOf(s: State): map<nat, nat> {
    AbsMap(s.heap, s.pub)
  }

  lemma RunPrefix(ss: seq<State>, es: seq<Event>, n: nat)
    requires Run(ss, es) && n <= |es|
    ensures Run(ss[..n + 1], es[..n])
  {
    var ss', es' := ss[..n + 1], es[..n];
    forall i | 0 <= i < n
      ensures StepAt(ss', es', i)
    {
      assert StepAt(ss, es, i);
    }
  }

  /** In every run the table is well formed throughout, and its abstract value is
      what the successful compare-and-swaps, read as map operations, make of the empty map. */
  lemma {:induction false} RunRefinesMap(ss: seq<State>, es: seq<Event>)
    requires Run(ss, es)
    ensures Inv(ss[|es|])
    ensures AllAllowed(es, map[]) && AbsOf(ss[|es|]) == ApplyAll(es, map[])
    decreases |es|
  {
    if |es| == 0 {
      InitInv(ss[0]);
    } else {
      var n := |es| - 1;
      RunPrefix(ss, es, n);
      RunRefinesMap(ss[..n + 1], es[..n]);
      assert StepAt(ss, es, n);
      StepGood(ss[n], ss[n + 1], es[n]);
    }
  }

  lemma FrozenTransitive(s: State, s': State, s'': State)
    requires Inv(s) && Frozen(s, s') && Frozen(s', s'')
    ensures Frozen(s, s'')
  {
    var cs :| Wf(s.heap, s.pub, cs);
    forall n | n in s.pub && n < |s.heap.slots|
      ensures HashOf(s''.heap, n) == HashOf(s.heap, n)
      ensures Dead(s.heap, n) ==> s''.heap.slots[n] == s.heap.slots[n]
    {
      assert n in s'.pub;
    }
  }

  /** From any point of a run on, no word of an entry already dead changes again. */
  lemma {:induction false} RunFreezesDead(ss: seq<State>, es: seq<Event>, i: nat, j: nat)
    requires Run(ss, es) && i <= j < |ss|
    ensures Frozen(ss[i], ss[j])
    decreases j
  {
    if i < j {
      RunFreezesDead(ss, es, i, j - 1);
      StepFreezesDead(ss, es, j - 1);
      RunInv(ss, es, i);
      FrozenTransitive(ss[i], ss[j - 1], ss[j]);
    }
  }

  lemma StepFreezesDead(ss: seq<State>, es: seq<Event>, i: nat)
    requires Run(ss, es) && i + 1 < |ss|
    ensures Frozen(ss[i], ss[i + 1])
  {
    RunInv(ss, es, i);
    assert StepAt(ss, es, i);
    StepGood(ss[i], ss[i + 1], es[i]);
  }

  lemma RunInv(ss: seq<State>, es: seq<Event>, i: nat)
    requires Run(ss, es) && i < |ss|
    ensures Inv(ss[i])
  {
    RunPrefix(ss, es, i);
    RunRefinesMap(ss[..i + 1], es[..i]);
  }

  /** In every reachable state each bucket is a circular list in hash order that
      holds every live entry of its hashes, at most one for each hash. */
  lemma RunListsSorted(ss: seq<State>, es: seq<Event>, i: nat) returns (cs: seq<seq<nat>>)
    requires Run(ss, es) && i < |ss|
    ensures |cs| == |ss[i].heap.heads| > 0
    ensures forall b :: 0 <= b < |cs| ==> Linked(ss[i].heap, b, cs[b]) && Sorted(ss[i].heap, cs[b])
    ensures forall k, n :: Holds(ss[i].heap, ss[i].pub, k, n) ==> n in cs[BucketOf(ss[i].heap, k)]
    ensures forall k, n, m :: Holds(ss[i].heap, ss[i].pub, k, n) && Holds(ss[i].heap, ss[i].pub, k, m) ==> n == m
  {
    RunInv(ss, es, i);
    var s := ss[i];
    cs :| Wf(s.heap, s.pub, cs);
    forall b | 0 <= b < |cs|
      ensures Linked(s.heap, b, cs[b]) && Sorted(s.heap, cs[b])
    {
      assert WfBucket(s.heap, s.pub, b, cs[b]);
    }
    forall k, n | Holds(s.heap, s.pub, k, n)
      ensures n in cs[BucketOf(s.heap, k)]
    {
      assert Listed(s.heap, cs, n);
    }
    AbsMapHolds(s.heap, s.pub, cs);
  }
}
