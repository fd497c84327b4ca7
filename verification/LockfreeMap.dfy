/** The table itself, run by one caller at a time: its methods load, store and
    compare-and-swap the words of the bucket heads and of the slot entries. */
module LockfreeTable {
  import opened EntryHeap
  import opened TableSpec
  import opened TableSteps
  import opened Chains

  // -------- A search on its way along a list --------

  /** A search for `k` has passed the entries before position `m`; the last live one, or the head, is at `i`. */
  ghost predicate Scan(h: Heap, b: nat, c: seq<nat>, k: nat, i: int, m: int) {
    && |h.heads| > 0 && b == BucketOf(h, k) && Linked(h, b, c)
    && -1 <= i < m <= |c|
    && (forall l :: 0 <= l < m ==> h.slots[c[l]].hashv <= k)
    && (forall l :: i < l < m ==> Dead(h, c[l]))
    && (i >= 0 ==> !Dead(h, c[i]) && h.slots[c[i]].hashv < k)
  }

  lemma PtrInHeap(h: Heap, b: nat, c: seq<nat>, i: int)
    requires Linked(h, b, c)
    ensures InHeap(h, PtrAt(b, c, i))
  {
  }

  lemma ScanStart(h: Heap, b: nat, c: seq<nat>, k: nat)
    requires |h.heads| > 0 && b == BucketOf(h, k) && Linked(h, b, c)
    ensures Scan(h, b, c, k, -1, 0)
    ensures InHeap(h, Head(b)) && Next(h, Head(b)).base == PtrAt(b, c, 0) && InHeap(h, PtrAt(b, c, 0))
  {
    assert Link(h, b, c, -1);
    PtrInHeap(h, b, c, 0);
  }

  lemma ScanNext(h: Heap, b: nat, c: seq<nat>, k: nat, i: int, m: int)
    requires Scan(h, b, c, k, i, m) && PtrAt(b, c, m) != Head(b) && h.slots[c[m]].hashv <= k
    ensures m < |c| && c[m] < |h.slots|
    ensures h.slots[c[m]].next.base == PtrAt(b, c, m + 1) && InHeap(h, PtrAt(b, c, m + 1))
    ensures Dead(h, c[m]) ==> Scan(h, b, c, k, i, m + 1)
    ensures !Dead(h, c[m]) && h.slots[c[m]].hashv < k ==> Scan(h, b, c, k, m, m + 1)
  {
    assert Link(h, b, c, m);
    PtrInHeap(h, b, c, m + 1);
  }

  lemma ScanHit(h: Heap, b: nat, c: seq<nat>, k: nat, i: int, m: int, r: SearchResult, h': Heap)
    requires Scan(h, b, c, k, i, m) && m < |c|
    requires !Dead(h, c[m]) && h.slots[c[m]].hashv == k
    requires r == SearchResult(true, Node(c[m]), h.slots[c[m]].next.base)
    requires h' == SetNext(h, Node(c[m]), AsProtected(r.right))
    ensures SearchStep(h, k, r, h')
  {
    assert Link(h, b, c, m);
    assert SearchHit(h, b, c, k, m, r, h');
  }

  lemma ScanMiss(h: Heap, b: nat, c: seq<nat>, k: nat, i: int, m: int, r: SearchResult, h': Heap)
    requires Scan(h, b, c, k, i, m)
    requires m < |c| ==> h.slots[c[m]].hashv > k
    requires r == SearchResult(false, PtrAt(b, c, i), PtrAt(b, c, m))
    requires InHeap(h, r.left)
    requires h' == if Next(h, r.left).base != r.right then Unlink(h, r.left, r.right) else h
    ensures SearchStep(h, k, r, h')
  {
    assert Link(h, b, c, i);
    assert i + 1 < m ==> PtrAt(b, c, i + 1) != PtrAt(b, c, m);
    assert Gap(h, c, k, i, m) && SearchMiss(h, b, c, i, m, r, h');
  }

  /** The lists after a search; without removals they are the lists before it. */
  lemma SearchLists(h: Heap, rank: map<nat, nat>, cs: seq<seq<nat>>, k: nat, r: SearchResult, h': Heap)
    returns (cs': seq<seq<nat>>)
    requires Wf(h, rank.Keys, cs) && SearchStep(h, k, r, h')
    ensures Wf(h', rank.Keys, cs') && (Kept(h, rank, cs) ==> Kept(h', rank, cs'))
    ensures SameLife(h, h') && AbsMap(h', rank.Keys) == AbsMap(h, rank.Keys)
    ensures r.found <==> k in AbsMap(h', rank.Keys)
    ensures r.found ==> r.left == Node(AbsMap(h, rank.Keys)[k])
    ensures r.found ==> InHeap(h', r.left) && Next(h', r.left) == AsProtected(r.right)
    ensures !r.found ==> Before(h', rank.Keys, r.left, k) && After(h', rank.Keys, r.right, k)
    ensures !r.found ==> InHeap(h', r.left) && Next(h', r.left).base == r.right && !Next(h', r.left).deleted
  {
    var b := BucketOf(h, k);
    assert WfBucket(h, rank.Keys, b, cs[b]);
    var c :| Linked(h, b, c) && SearchSpec(h, b, c, k, r, h');
    LinkedUnique(h, b, c, cs[b]);
    cs' := SearchKeeps(h, rank.Keys, cs, k, r, h');
    if Kept(h, rank, cs) {
      SearchKept(h, rank, cs, k, r, h');
      cs' := cs;
    }
  }

  lemma InsertLists(h: Heap, rank: map<nat, nat>, cs: seq<seq<nat>>, new_: nat, prev: Ptr, exp: Ref, top: nat)
    returns (cs': seq<seq<nat>>)
    requires Wf(h, rank.Keys, cs) && new_ < |h.slots| && new_ !in rank
    requires Before(h, rank.Keys, prev, h.slots[new_].hashv)
    requires After(h, rank.Keys, exp.base, h.slots[new_].hashv)
    requires InHeap(h, prev) && Next(h, prev) == exp && !exp.deleted
    requires forall n :: n in rank ==> rank[n] < top
    ensures var h', rank' := Place(h, new_, exp, prev, Plain(Node(new_))), rank[new_ := top];
            && Wf(h', rank'.Keys, cs') && (Kept(h, rank, cs) ==> Kept(h', rank', cs'))
            && AbsMap(h', rank'.Keys) == AbsMap(h, rank.Keys)[h.slots[new_].hashv := new_]
  {
    assert rank[new_ := top].Keys == rank.Keys + {new_};
    if Kept(h, rank, cs) {
      cs' := InsertKept(h, rank, cs, new_, prev, exp, top);
    } else {
      var b, i := InsertSetsMap(h, rank.Keys, cs, new_, prev, exp);
      cs' := cs[b := Spliced(cs[b], i, new_)];
    }
  }

  lemma SwitchLists(h: Heap, rank: map<nat, nat>, cs: seq<seq<nat>>, new_: nat, left: nat, right: Ptr, top: nat)
    returns (cs': seq<seq<nat>>)
    requires Wf(h, rank.Keys, cs) && new_ < |h.slots| && new_ !in rank
    requires left in rank && left < |h.slots| && h.slots[left].hashv == h.slots[new_].hashv
    requires Next(h, Node(left)) == AsProtected(right)
    requires forall n :: n in rank ==> rank[n] < top
    ensures var h', rank' := Place(h, new_, Plain(right), Node(left), AsDeleted(Node(new_))), rank[new_ := top];
            && Wf(h', rank'.Keys, cs') && (Kept(h, rank, cs) ==> Kept(h', rank', cs'))
            && AbsMap(h', rank'.Keys) == AbsMap(h, rank.Keys)[h.slots[new_].hashv := new_]
  {
    assert rank[new_ := top].Keys == rank.Keys + {new_};
    if Kept(h, rank, cs) {
      cs' := SwitchKept(h, rank, cs, new_, left, right, top);
    } else {
      var b, i := SwitchSetsMap(h, rank.Keys, cs, new_, left, right);
      cs' := cs[b := Spliced(cs[b], i, new_)];
    }
  }

  /** The memory after the write that publishes `new_` where a search has pointed. */
  function Published(h: Heap, new_: nat, r: SearchResult): Heap
    requires new_ < |h.slots| && InHeap(h, r.left)
  {
    if r.found then Place(h, new_, Plain(r.right), r.left, AsDeleted(Node(new_)))
    else Place(h, new_, Next(h, r.left), r.left, Plain(Node(new_)))
  }

  lemma PublishLists(h: Heap, rank: map<nat, nat>, cs: seq<seq<nat>>, new_: nat, r: SearchResult, top: nat)
    returns (cs': seq<seq<nat>>)
    requires Wf(h, rank.Keys, cs) && new_ < |h.slots| && new_ !in rank
    requires forall n :: n in rank ==> rank[n] < top
    requires var k := h.slots[new_].hashv;
             if r.found then k in AbsMap(h, rank.Keys) && r.left == Node(AbsMap(h, rank.Keys)[k])
                             && InHeap(h, r.left) && Next(h, r.left) == AsProtected(r.right)
             else Before(h, rank.Keys, r.left, k) && After(h, rank.Keys, r.right, k)
                  && InHeap(h, r.left) && Next(h, r.left).base == r.right && !Next(h, r.left).deleted
    ensures var h', rank' := Published(h, new_, r), rank[new_ := top];
            && Wf(h', rank'.Keys, cs') && (Kept(h, rank, cs) ==> Kept(h', rank', cs'))
            && AbsMap(h', rank'.Keys) == AbsMap(h, rank.Keys)[h.slots[new_].hashv := new_]
            && SameHashes(h, h') && h'.slots[new_].hashv == h.slots[new_].hashv
  {
    var k := h.slots[new_].hashv;
    if r.found {
      AbsMapHolds(h, rank.Keys, cs);
      assert Holds(h, rank.Keys, k, r.left.i);
      PlaceDead(h, new_, Plain(r.right), r.left, AsDeleted(Node(new_)));
      cs' := SwitchLists(h, rank, cs, new_, r.left.i, r.right, top);
    } else {
      PlaceDead(h, new_, Next(h, r.left), r.left, Plain(Node(new_)));
      cs' := InsertLists(h, rank, cs, new_, r.left, Next(h, r.left), top);
    }
  }

  lemma HashesStay(h0: Heap, h: Heap, h': Heap)
    requires SameLife(h0, h)
    ensures SameHashes(h, h') ==> SameHashes(h0, h')
  {
  }

  ghost predicate SameHashes(h: Heap, h': Heap) {
    |h'.heads| == |h.heads| && |h'.slots| == |h.slots|
    && forall n :: 0 <= n < |h.slots| ==> h'.slots[n].hashv == h.slots[n].hashv
  }

  class LockfreeMap {
    const nelem: nat
    const bucket: array<Ref>          // the `next` words of the list heads
    const slot: array<Entry>          // the entries, owned by the slot allocator

    /** The entries published since the last reset with the order of their
        publication, how many there were, and the lists of the buckets. */
    ghost var rank: map<nat, nat>
    ghost var published: nat
    ghost var lists: seq<seq<nat>>

    ghost function Memory(): Heap
      reads bucket, slot
    {
      Heap(bucket[..], slot[..])
    }

    ghost predicate Valid()
      reads this, bucket, slot
    {
      && nelem == bucket.Length
      && Wf(Memory(), rank.Keys, lists)
      && forall n :: n in rank ==> rank[n] < published
    }

    /** Nothing was removed since the last reset. */
    ghost predicate NothingRemoved()
      reads this, bucket, slot
    {
      Valid() && Kept(Memory(), rank, lists)
    }

    /** The abstract value: each hash with its live entry. */
    ghost function Contents(): map<nat, nat>
      reads this, bucket, slot
    {
      AbsMap(Memory(), rank.Keys)
    }

    constructor (nelem: nat, slot: array<Entry>)
      requires nelem > 0
      ensures NothingRemoved() && Contents() == map[] && rank == map[] && published == 0
      ensures this.nelem == nelem && this.slot == slot && fresh(bucket)
    {
      this.nelem, this.slot := nelem, slot;
      bucket := new Ref[nelem](b => Plain(Head(b)));
      rank, published, lists := map[], 0, seq(nelem, b => []);
      new;
      ClearKept(Memory());
    }

    // -------- Words --------

    function Load(p: Ptr): (r: Ref)
      requires InHeap(Memory(), p)
      reads bucket, slot
      ensures r == Next(Memory(), p)
    {
      match p
      case Head(b) => bucket[b]
      case Node(i) => slot[i].next
    }

    method Store(p: Ptr, r: Ref)
      requires InHeap(Memory(), p)
      modifies bucket, slot
      ensures Memory() == SetNext(old(Memory()), p, r)
    {
      match p {
        case Head(b) => bucket[b] := r;
        case Node(i) => slot[i] := slot[i].(next := r);
      }
    }

    /** Compare-and-swap: returns what the word held before. */
    method Casv(p: Ptr, exp: Ref, new_: Ref) returns (orig: Ref)
      requires InHeap(Memory(), p)
      modifies bucket, slot
      ensures orig == Next(old(Memory()), p)
      ensures Memory() == if orig == exp then SetNext(old(Memory()), p, new_) else old(Memory())
    {
      orig := Load(p);
      if orig == exp {
        Store(p, new_);
      }
    }

    method GetBucket(idx: nat) returns (b: nat)
      requires nelem > 0
      ensures b == idx % nelem
    {
      b := idx;
      if b >= nelem {
        b := b % nelem;
      }
    }

    // -------- Searching --------

    /** Sets the PROTECTED mark of an entry last seen pointing at `next`; gives up when it is found dead. */
    method Protect(curr: nat, next: Ref) returns (done: bool, seen: Ref)
      requires curr < slot.Length && !next.deleted
      modifies bucket, slot
      ensures !old(Dead(Memory(), curr)) ==> done
      ensures done ==> seen.base == old(Memory()).slots[curr].next.base
                       && Memory() == SetNext(old(Memory()), Node(curr), AsProtected(seen.base))
      ensures !done ==> seen == old(Memory()).slots[curr].next && Memory() == old(Memory())
    {
      ghost var h := Memory();
      done, seen := false, next;
      while !done && !seen.deleted
        invariant done ==> seen.base == h.slots[curr].next.base
                           && Memory() == SetNext(h, Node(curr), AsProtected(seen.base))
        invariant !done ==> Memory() == h && (seen == next || seen == h.slots[curr].next)
        decreases if done then 0 else if seen == h.slots[curr].next then 1 else 2
      {
        var orig := Casv(Node(curr), seen, AsProtected(seen.base));
        if orig == seen || orig == AsProtected(seen.base) {
          assert Memory() == SetNext(h, Node(curr), AsProtected(seen.base));
          done := true;
        } else {
          seen := orig;
        }
      }
    }

    /** `__elemSearch`; the key's hash also picks the bucket. */
    method Search(hashv: nat) returns (r: SearchResult)
      requires Valid()
      modifies this`lists, bucket, slot
      ensures Valid() && Contents() == old(Contents())
      ensures old(NothingRemoved()) ==> NothingRemoved()
      ensures SameLife(old(Memory()), Memory())
      ensures r.found <==> hashv in Contents()
      ensures r.found ==> r.left == Node(Contents()[hashv]) && Load(r.left) == AsProtected(r.right)
      ensures !r.found ==> Before(Memory(), rank.Keys, r.left, hashv) && After(Memory(), rank.Keys, r.right, hashv)
      ensures !r.found ==> InHeap(Memory(), r.left) && Load(r.left).base == r.right && !Load(r.left).deleted
    {
      r := Traverse(hashv);
      lists := SearchLists(old(Memory()), rank, lists, hashv, r, Memory());
    }

    /** The traversal and its one write. */
    method Traverse(hashv: nat) returns (r: SearchResult)
      requires Valid()
      modifies bucket, slot
      ensures SearchStep(old(Memory()), hashv, r, Memory())
    {
      ghost var h := Memory();
      var b := GetBucket(hashv);
      ghost var c := lists[b];
      assert WfBucket(h, rank.Keys, b, c);
      ScanStart(h, b, c, hashv);
      var prev := Head(b);
      var prevNext := Load(prev);
      var curr := prevNext.base;
      var currNext := Load(curr);
      ghost var i, m := -1, 0;
      while curr != Head(b) && slot[curr.i].hashv <= hashv
        invariant Memory() == h && Scan(h, b, c, hashv, i, m)
        invariant prev == PtrAt(b, c, i) && InHeap(h, prev) && prevNext == Next(h, prev)
        invariant curr == PtrAt(b, c, m) && InHeap(h, curr) && currNext == Next(h, curr)
        decreases |c| - m
      {
        ScanNext(h, b, c, hashv, i, m);
        if !currNext.deleted {
          if slot[curr.i].hashv == hashv {
            var done, seen := Protect(curr.i, currNext);
            if done {
              r := SearchResult(true, curr, seen.base);
              ScanHit(h, b, c, hashv, i, m, r, Memory());
              return;
            }
            currNext := seen;
          }
          prev := curr;
          prevNext := Load(prev);
          i := m;
        }
        curr := currNext.base;
        currNext := Load(curr);
        m := m + 1;
      }
      if prevNext.base != curr {
        var _ := Casv(prev, prevNext, prevNext.(base := curr));
      }
      r := SearchResult(false, prev, curr);
      ScanMiss(h, b, c, hashv, i, m, r, Memory());
    }

    // -------- Inserting, replacing, removing --------

    /** One turn of each of the three loops, which is one step of the concurrent machines. */
    method InsertTurn(new_: nat, prev: Ptr, exp: Ref) returns (r: Try)
      requires new_ < slot.Length && InHeap(Memory(), prev)
      modifies bucket, slot
      ensures (Memory(), r) == InsertTry(old(Memory()), new_, prev, exp)
    {
      Store(Node(new_), exp);
      var orig := Casv(prev, exp, Plain(Node(new_)));
      r := if orig == exp then Done else if orig != AsProtected(exp.base) then Fail else Again(orig);
    }

    method SwitchTurn(new_: nat, left: Ptr, next: Ptr) returns (r: Try)
      requires new_ < slot.Length && InHeap(Memory(), left)
      modifies bucket, slot
      ensures (Memory(), r) == SwitchTry(old(Memory()), new_, left, next)
    {
      Store(Node(new_), Plain(next));
      var orig := Casv(left, AsProtected(next), AsDeleted(Node(new_)));
      r := if orig == AsProtected(next) then Done else if !orig.prot then Fail else Again(Plain(orig.base));
    }

    /** A target found marked on the next turn ends the loop as well. */
    method DeleteTurn(target: nat, next: Ref) returns (r: Try)
      requires target < slot.Length
      modifies bucket, slot
      ensures (Memory(), r) == DeleteTry(old(Memory()), target, next)
    {
      var orig := Casv(Node(target), next, AsDeleted(next.base));
      if orig == next {
        r := Done;
      } else if orig.base == next.base || orig.deleted || orig.prot {
        r := Fail;
      } else {
        r := Again(orig);
      }
    }

    /** Succeeds exactly when the left neighbour still points at `next`, protected or not. */
    method Insert(new_: nat, prev: Ptr, next: Ptr) returns (ok: bool)
      requires new_ < slot.Length && InHeap(Memory(), prev) && prev != Node(new_)
      modifies bucket, slot
      ensures ok <==> old(Load(prev)) == Plain(next) || old(Load(prev)) == AsProtected(next)
      ensures ok ==> Memory() == Place(old(Memory()), new_, old(Load(prev)), prev, Plain(Node(new_)))
      ensures !ok ==> Memory() == SetNext(old(Memory()), Node(new_), Plain(next))
    {
      ghost var h := Memory();
      var exp, trying := Plain(next), true;
      ok := false;
      while trying
        invariant trying ==> !ok && (exp == Plain(next) || (exp == AsProtected(next) == Next(h, prev)))
        invariant trying ==> Memory() == if exp == Plain(next) then h else SetNext(h, Node(new_), Plain(next))
        invariant ok ==> Next(h, prev) == Plain(next) || Next(h, prev) == AsProtected(next)
        invariant ok ==> Memory() == Place(h, new_, Next(h, prev), prev, Plain(Node(new_)))
        invariant !trying && !ok ==> Next(h, prev) != Plain(next) && Next(h, prev) != AsProtected(next)
                                     && Memory() == SetNext(h, Node(new_), Plain(next))
        decreases if trying then if exp == Plain(next) then 2 else 1 else 0
      {
        var r := InsertTurn(new_, prev, exp);
        match r {
          case Done => ok, trying := true, false;
          case Fail => trying := false;
          case Again(orig) => exp := orig;
        }
      }
    }

    /** Succeeds exactly when `left` is protected; its successor then need not be `right` any more.
        The two marks never stand together, or this loop would not end. */
    method Replace(new_: nat, left: Ptr, right: Ptr) returns (ok: bool)
      requires new_ < slot.Length && InHeap(Memory(), left) && left != Node(new_)
      requires !(Load(left).prot && Load(left).deleted)
      modifies bucket, slot
      ensures ok == old(Load(left)).prot
      ensures ok ==> Memory() == Place(old(Memory()), new_, Plain(old(Load(left)).base), left, AsDeleted(Node(new_)))
      ensures !ok ==> Memory() == SetNext(old(Memory()), Node(new_), Plain(right))
    {
      ghost var h := Memory();
      var next, trying := right, true;
      ok := false;
      while trying
        invariant trying ==> !ok && (next == right || (Next(h, left).prot && next == Next(h, left).base))
        invariant trying ==> Memory() == if next == right then h else SetNext(h, Node(new_), Plain(right))
        invariant ok ==> Next(h, left).prot
        invariant ok ==> Memory() == Place(h, new_, Plain(Next(h, left).base), left, AsDeleted(Node(new_)))
        invariant !trying && !ok ==> !Next(h, left).prot && Memory() == SetNext(h, Node(new_), Plain(right))
        decreases if trying then if next == right then 2 else 1 else 0
      {
        var r := SwitchTurn(new_, left, next);
        match r {
          case Done => ok, trying := true, false;
          case Fail => trying := false;
          case Again(orig) => next := orig.base;
        }
      }
    }

    /** Marks an unmarked target; a target with either mark is left alone. */
    method Remove(target: nat)
      requires Valid() && target in rank
      modifies bucket, slot
      ensures Valid()
      ensures var was := old(slot[target]);
              Contents() == if was.next == Plain(was.next.base) then old(Contents()) - {was.hashv} else old(Contents())
      ensures || Memory() == old(Memory())
              || Memory() == SetNext(old(Memory()), Node(target), AsDeleted(old(slot[target]).next.base))
    {
      ghost var h := Memory();
      var next, trying := Load(Node(target)), true;
      while trying
        invariant trying ==> Memory() == h && next == h.slots[target].next
        invariant !trying ==> Memory() == if h.slots[target].next == Plain(h.slots[target].next.base)
                                          then SetNext(h, Node(target), AsDeleted(h.slots[target].next.base)) else h
        decreases trying
      {
        if next.deleted || next.prot {
          trying := false;
        } else {
          var r := DeleteTurn(target, next);
          match r {
            case Done => trying := false;
            case Fail => trying := false;
            case Again(orig) => next := orig;
          }
        }
      }
      if h.slots[target].next == Plain(h.slots[target].next.base) {
        DeleteErasesMap(h, rank.Keys, lists, target, h.slots[target].next.base);
      }
    }

    // -------- Reset --------

    method Reset()
      requires nelem == bucket.Length > 0
      modifies this`rank, this`lists, this`published, bucket
      ensures NothingRemoved() && Contents() == map[] && rank == map[] && published == 0
      ensures Memory() == old(Memory()).(heads := ClearHeads(nelem))
    {
      for idx := 0 to nelem
        invariant forall b :: 0 <= b < idx ==> bucket[b] == Plain(Head(b))
        invariant slot[..] == old(slot[..])
      {
        bucket[idx] := Plain(Head(idx));
      }
      rank, published, lists := map[], 0, seq(nelem, b => []);
      ClearKept(Memory());
      assert Memory().heads == ClearHeads(nelem);
    }

    // -------- What the replicator does with it --------

    /** Searches, then inserts or replaces, until one of them succeeds. */
    method TryInsert(entry: nat)
      requires Valid() && entry < slot.Length && entry !in rank
      modifies this`rank, this`lists, this`published, bucket, slot
      ensures Valid() && (old(NothingRemoved()) ==> NothingRemoved())
      ensures Contents() == old(Contents())[slot[entry].hashv := entry]
      ensures rank == old(rank)[entry := old(published)] && published == old(published) + 1
      ensures SameHashes(old(Memory()), Memory())
    {
      var done := false;
      while !done
        invariant Valid() && (old(NothingRemoved()) ==> NothingRemoved())
        invariant SameHashes(old(Memory()), Memory())
        invariant !done ==> rank == old(rank) && published == old(published) && Contents() == old(Contents())
        invariant done ==> rank == old(rank)[entry := old(published)] && published == old(published) + 1
        invariant done ==> Contents() == old(Contents())[slot[entry].hashv := entry]
        decreases !done
      {
        done := TryOnce(entry);
      }
    }

    method TryOnce(entry: nat) returns (done: bool)
      requires Valid() && entry < slot.Length && entry !in rank
      modifies this`rank, this`lists, this`published, bucket, slot
      ensures done && Valid() && (old(NothingRemoved()) ==> NothingRemoved())
      ensures Contents() == old(Contents())[slot[entry].hashv := entry]
      ensures rank == old(rank)[entry := old(published)] && published == old(published) + 1
      ensures SameHashes(old(Memory()), Memory())
    {
      ghost var h0 := Memory();
      var r := Search(slot[entry].hashv);
      ghost var h := Memory();
      done := PublishAt(entry, r);
      HashesStay(h0, h, Memory());
    }

    /** `r` is where a search for the hash of `entry` points. */
    ghost predicate Points(entry: nat, r: SearchResult)
      requires entry < slot.Length && bucket.Length > 0
      reads this, bucket, slot
    {
      var k := slot[entry].hashv;
      if r.found then k in Contents() && r.left == Node(Contents()[k])
                      && InHeap(Memory(), r.left) && Load(r.left) == AsProtected(r.right)
      else Before(Memory(), rank.Keys, r.left, k) && After(Memory(), rank.Keys, r.right, k)
           && InHeap(Memory(), r.left) && Load(r.left).base == r.right && !Load(r.left).deleted
    }

    method PublishAt(entry: nat, r: SearchResult) returns (done: bool)
      requires Valid() && entry < slot.Length && entry !in rank && Points(entry, r)
      modifies this`rank, this`lists, this`published, bucket, slot
      ensures done && Valid() && (old(NothingRemoved()) ==> NothingRemoved())
      ensures Contents() == old(Contents())[slot[entry].hashv := entry]
      ensures rank == old(rank)[entry := old(published)] && published == old(published) + 1
      ensures SameHashes(old(Memory()), Memory())
    {
      ghost var h := Memory();
      ghost var lists' := PublishLists(h, rank, lists, entry, r, published);
      LeftIsPublished(entry, r);
      done := Attempt(entry, r);
      lists := lists';
      rank, published := rank[entry := published], published + 1;
    }

    lemma LeftIsPublished(entry: nat, r: SearchResult)
      requires Valid() && entry < slot.Length && entry !in rank && Points(entry, r)
      ensures r.left != Node(entry)
    {
      AbsMapHolds(Memory(), rank.Keys, lists);
    }

    method Attempt(entry: nat, r: SearchResult) returns (ok: bool)
      requires entry < slot.Length && InHeap(Memory(), r.left) && r.left != Node(entry)
      requires if r.found then Load(r.left) == AsProtected(r.right)
               else Load(r.left).base == r.right && !Load(r.left).deleted
      modifies bucket, slot
      ensures ok && Memory() == Published(old(Memory()), entry, r)
    {
      if r.found {
        ok := Replace(entry, r.left, r.right);
      } else {
        ok := Insert(entry, r.left, r.right);
      }
    }
  }
}
