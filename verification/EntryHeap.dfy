/** The memory the lock-free table works on: the bucket heads and the slot
    entries, whose `next` words carry two mark bits beside the pointer.

    A bucket is a circular list: head -> entry -> ... -> entry -> head.  An
    entry whose own `next` word carries the DELETED mark is dead; it may stay
    linked for as long as nobody unlinks it. */
module EntryHeap {

  datatype Ptr = Null | Head(b: nat) | Node(i: nat)

  /** A `next` word: a pointer and the two mark bits. */
  datatype Ref = Ref(base: Ptr, deleted: bool, prot: bool)

  function Plain(p: Ptr): Ref { Ref(p, false, false) }
  function AsDeleted(p: Ptr): Ref { Ref(p, true, false) }
  function AsProtected(p: Ptr): Ref { Ref(p, false, true) }

  datatype Entry = Entry(next: Ref, hashv: nat)

  /** A wiped slot. */
  const NO_ENTRY := Entry(Plain(Null), 0)

  datatype Heap = Heap(heads: seq<Ref>, slots: seq<Entry>)

  predicate InHeap(h: Heap, p: Ptr) {
    match p
    case Null => false
    case Head(b) => b < |h.heads|
    case Node(i) => i < |h.slots|
  }

  function Next(h: Heap, p: Ptr): Ref
    requires InHeap(h, p)
  {
    match p
    case Head(b) => h.heads[b]
    case Node(i) => h.slots[i].next
  }

  function SetNext(h: Heap, p: Ptr, r: Ref): (h': Heap)
    requires InHeap(h, p)
    ensures |h'.heads| == |h.heads| && |h'.slots| == |h.slots|
    ensures forall q :: InHeap(h, q) ==> Next(h', q) == if q == p then r else Next(h, q)
    ensures forall n :: 0 <= n < |h.slots| ==> h'.slots[n].hashv == h.slots[n].hashv
  {
    match p
    case Head(b) => h.(heads := h.heads[b := r])
    case Node(i) => h.(slots := h.slots[i := h.slots[i].(next := r)])
  }

  /** Writes `next` of the still private entry `new` and then the word that publishes it. */
  function Place(h: Heap, new_: nat, next: Ref, prev: Ptr, r: Ref): (h': Heap)
    requires InHeap(h, Node(new_)) && InHeap(h, prev)
  {
    SetNext(SetNext(h, Node(new_), next), prev, r)
  }

  function Dead(h: Heap, n: nat): bool
    requires n < |h.slots|
  {
    h.slots[n].next.deleted
  }

  function BucketOf(h: Heap, hashv: nat): nat
    requires |h.heads| > 0
  {
    hashv % |h.heads|
  }

  /** All buckets empty: every head points at itself. */
  function ClearHeads(n: nat): seq<Ref> {
    seq(n, b requires 0 <= b < n => Plain(Head(b)))
  }

  /** Position `i` of the circular list of bucket `b` holding the entries `c`:
      the head is both before the first and after the last entry. */
  function PtrAt(b: nat, c: seq<nat>, i: int): Ptr
  {
    if 0 <= i < |c| then Node(c[i]) else Head(b)
  }

  ghost predicate Link(h: Heap, b: nat, c: seq<nat>, i: int) {
    InHeap(h, PtrAt(b, c, i)) && Next(h, PtrAt(b, c, i)).base == PtrAt(b, c, i + 1)
  }

  /** Following `next` from the head of `b` visits exactly `c`, in order, and returns to the head. */
  ghost predicate Linked(h: Heap, b: nat, c: seq<nat>) {
    && b < |h.heads|
    && (forall i :: 0 <= i < |c| ==> c[i] < |h.slots|)
    && (forall i, j :: 0 <= i < j < |c| ==> c[i] != c[j])
    && (forall i :: -1 <= i < |c| ==> Link(h, b, c, i))
  }

  /** Hashes never decrease along the list, and strictly increase after a live entry. */
  ghost predicate Sorted(h: Heap, c: seq<nat>)
    requires forall i :: 0 <= i < |c| ==> c[i] < |h.slots|
  {
    forall i, j {:trigger InOrder(h, c, i, j)} :: 0 <= i < j < |c| ==> InOrder(h, c, i, j)
  }

  ghost predicate InOrder(h: Heap, c: seq<nat>, i: int, j: int)
    requires 0 <= i < j < |c| && c[i] < |h.slots| && c[j] < |h.slots|
  {
    && h.slots[c[i]].hashv <= h.slots[c[j]].hashv
    && (Dead(h, c[i]) || h.slots[c[i]].hashv < h.slots[c[j]].hashv)
  }

  ghost predicate WfBucket(h: Heap, pub: set<nat>, b: nat, c: seq<nat>)
    requires |h.heads| > 0
  {
    && Linked(h, b, c)
    && Sorted(h, c)
    && !h.heads[b].deleted && !h.heads[b].prot
    && (forall i :: 0 <= i < |c| ==> c[i] in pub && BucketOf(h, h.slots[c[i]].hashv) == b)
  }

  /** `pub` are the entries ever published, `cs` the lists of the buckets. */
  ghost predicate Wf(h: Heap, pub: set<nat>, cs: seq<seq<nat>>) {
    && |h.heads| > 0
    && |cs| == |h.heads|
    && (forall n :: n in pub ==> n < |h.slots|)
    && (forall b {:trigger WfBucket(h, pub, b, cs[b])} :: 0 <= b < |cs| ==> WfBucket(h, pub, b, cs[b]))
    && (forall n {:trigger Listed(h, cs, n)} :: n in pub && !Dead(h, n) ==> Listed(h, cs, n))
  }

  /** The list of its bucket holds entry `n`. */
  ghost predicate Listed(h: Heap, cs: seq<seq<nat>>, n: nat)
    requires |cs| == |h.heads| > 0 && n < |h.slots|
  {
    n in cs[BucketOf(h, h.slots[n].hashv)]
  }

  /** No entry is in two buckets. */
  lemma BucketsShareNothing(h: Heap, pub: set<nat>, cs: seq<seq<nat>>, a: nat, b: nat)
    requires Wf(h, pub, cs) && a < |cs| && b < |cs| && a != b
    ensures forall n :: n in cs[a] ==> n !in cs[b]
  {
    assert WfBucket(h, pub, a, cs[a]) && WfBucket(h, pub, b, cs[b]);
  }

  // -------- Which entries a thread may hold as left and right neighbour --------

  /** `p` is the head of the bucket of `k`, or a published entry of that bucket hashing below `k`. */
  ghost predicate Before(h: Heap, pub: set<nat>, p: Ptr, k: nat)
    requires |h.heads| > 0
  {
    match p
    case Null => false
    case Head(b) => b == BucketOf(h, k)
    case Node(n) => n in pub && n < |h.slots| && h.slots[n].hashv < k && BucketOf(h, h.slots[n].hashv) == BucketOf(h, k)
  }

  ghost predicate After(h: Heap, pub: set<nat>, p: Ptr, k: nat)
    requires |h.heads| > 0
  {
    match p
    case Null => false
    case Head(b) => b == BucketOf(h, k)
    case Node(n) => n in pub && n < |h.slots| && h.slots[n].hashv > k && BucketOf(h, h.slots[n].hashv) == BucketOf(h, k)
  }

  // -------- Splicing --------

  /** `c` with `new_` right after position `i`. */
  function Spliced(c: seq<nat>, i: int, new_: nat): seq<nat>
    requires -1 <= i < |c|
  {
    seq(|c| + 1, m requires 0 <= m < |c| + 1 => if m <= i then c[m] else if m == i + 1 then new_ else c[m - 1])
  }

  /** `c` without the positions strictly between `i` and `j`. */
  function Cut(c: seq<nat>, i: int, j: int): seq<nat>
    requires -1 <= i < j <= |c|
  {
    seq(i + 1 + |c| - j, m requires 0 <= m < i + 1 + |c| - j => if m <= i then c[m] else c[m - (i + 1) + j])
  }

  lemma SpliceLinked(h: Heap, b: nat, c: seq<nat>, i: int, new_: nat, next: Ref, r: Ref)
    requires Linked(h, b, c) && -1 <= i < |c|
    requires new_ < |h.slots| && new_ !in c
    requires next.base == PtrAt(b, c, i + 1) && r.base == Node(new_)
    ensures Linked(Place(h, new_, next, PtrAt(b, c, i), r), b, Spliced(c, i, new_))
  {
    var c' := Spliced(c, i, new_);
    var h' := Place(h, new_, next, PtrAt(b, c, i), r);
    assert Link(h, b, c, i);
    forall k | -1 <= k < |c'|
      ensures Link(h', b, c', k)
    {
      if k < i {
        assert Link(h, b, c, k);
        assert PtrAt(b, c', k) == PtrAt(b, c, k) != PtrAt(b, c, i);
        assert PtrAt(b, c', k + 1) == PtrAt(b, c, k + 1);
      } else if k == i {
        assert PtrAt(b, c', k) == PtrAt(b, c, i);
      } else if k == i + 1 {
        assert PtrAt(b, c', k) == Node(new_);
        assert PtrAt(b, c', k + 1) == PtrAt(b, c, i + 1);
      } else {
        assert Link(h, b, c, k - 1);
        assert PtrAt(b, c', k) == PtrAt(b, c, k - 1);
        assert PtrAt(b, c', k + 1) == PtrAt(b, c, k);
      }
    }
  }

  lemma SortedAt(h: Heap, b: nat, c: seq<nat>, i: int, j: int)
    requires Linked(h, b, c) && Sorted(h, c) && 0 <= i < j < |c|
    ensures h.slots[c[i]].hashv <= h.slots[c[j]].hashv
    ensures Dead(h, c[i]) || h.slots[c[i]].hashv < h.slots[c[j]].hashv
  {
    assert InOrder(h, c, i, j);
  }

  /** Killing entries keeps a list sorted. */
  lemma SortedFrame(h: Heap, h': Heap, c: seq<nat>)
    requires |h'.slots| == |h.slots| && forall m :: 0 <= m < |c| ==> c[m] < |h.slots|
    requires Sorted(h, c)
    requires forall m :: 0 <= m < |c| ==> h'.slots[c[m]].hashv == h.slots[c[m]].hashv
    requires forall m :: 0 <= m < |c| && Dead(h, c[m]) ==> Dead(h', c[m])
    ensures Sorted(h', c)
  {
    forall i, j | 0 <= i < j < |c|
      ensures InOrder(h', c, i, j)
    {
      assert InOrder(h, c, i, j);
    }
  }

  /** Writes to entries outside a list leave the list as it was. */
  lemma BucketUntouched(h: Heap, h': Heap, pub: set<nat>, pub': set<nat>, b: nat, c: seq<nat>)
    requires |h.heads| > 0 && WfBucket(h, pub, b, c) && pub <= pub'
    requires |h'.heads| == |h.heads| && |h'.slots| == |h.slots| && h'.heads[b] == h.heads[b]
    requires forall m :: 0 <= m < |c| ==> h'.slots[c[m]] == h.slots[c[m]]
    ensures WfBucket(h', pub', b, c)
  {
    forall k | -1 <= k < |c|
      ensures Link(h', b, c, k)
    {
      assert Link(h, b, c, k);
    }
    SortedFrame(h, h', c);
  }

  /** The place of a live or head pointer in its bucket's list. */
  lemma FindIndex(h: Heap, pub: set<nat>, cs: seq<seq<nat>>, p: Ptr, b: nat) returns (i: int)
    requires Wf(h, pub, cs) && b < |cs|
    requires p == Head(b) || (p.Node? && p.i in pub && !Dead(h, p.i) && BucketOf(h, h.slots[p.i].hashv) == b)
    ensures -1 <= i < |cs[b]| && PtrAt(b, cs[b], i) == p
  {
    if p.Head? {
      i := -1;
    } else {
      assert Listed(h, cs, p.i);
      i :| 0 <= i < |cs[b]| && cs[b][i] == p.i;
    }
  }

  /** Placing an entry behind `prev` of bucket `b` does not touch any other bucket. */
  lemma OtherBuckets(h: Heap, pub: set<nat>, cs: seq<seq<nat>>, b: nat, new_: nat, next: Ref, prev: Ptr, r: Ref)
    requires Wf(h, pub, cs) && b < |cs|
    requires new_ < |h.slots| && new_ !in pub
    requires prev == Head(b) || (prev.Node? && prev.i in pub && BucketOf(h, h.slots[prev.i].hashv) == b)
    ensures forall x :: 0 <= x < |cs| && x != b ==> WfBucket(Place(h, new_, next, prev, r), pub + {new_}, x, cs[x])
  {
    forall x | 0 <= x < |cs| && x != b
      ensures WfBucket(Place(h, new_, next, prev, r), pub + {new_}, x, cs[x])
    {
      assert WfBucket(h, pub, x, cs[x]);
      BucketUntouched(h, Place(h, new_, next, prev, r), pub, pub + {new_}, x, cs[x]);
    }
  }

  /** Where in `Spliced(c, i, new_)` the entry at position `m` of `c` went, and back. */
  lemma SpliceSorted(h: Heap, h': Heap, c: seq<nat>, i: int, new_: nat)
    requires forall m :: 0 <= m < |c| ==> c[m] < |h.slots|
    requires -1 <= i < |c| && new_ < |h.slots| == |h'.slots|
    requires Sorted(h, c)
    requires forall m :: 0 <= m < |h.slots| ==> h'.slots[m].hashv == h.slots[m].hashv
    requires forall m :: 0 <= m < |c| && Dead(h, c[m]) ==> Dead(h', c[m])
    requires forall m :: 0 <= m <= i ==>
                           && h.slots[c[m]].hashv <= h.slots[new_].hashv
                           && (Dead(h', c[m]) || h.slots[c[m]].hashv < h.slots[new_].hashv)
    requires forall m :: i < m < |c| ==> h.slots[new_].hashv < h.slots[c[m]].hashv
    ensures Sorted(h', Spliced(c, i, new_))
  {
    var c' := Spliced(c, i, new_);
    forall k, l | 0 <= k < l < |c'|
      ensures InOrder(h', c', k, l)
    {
      if k != i + 1 && l != i + 1 {
        assert InOrder(h, c, if k <= i then k else k - 1, if l <= i then l else l - 1);
      }
    }
  }

  lemma SpliceMembers(c: seq<nat>, i: int, new_: nat)
    requires -1 <= i < |c|
    ensures forall n :: n in Spliced(c, i, new_) <==> n == new_ || n in c
  {
    var c' := Spliced(c, i, new_);
    assert c'[i + 1] == new_;
    forall m | 0 <= m < |c|
      ensures c[m] in c'
    {
      assert c'[if m <= i then m else m + 1] == c[m];
    }
  }

  lemma PlaceSorted(h: Heap, b: nat, c: seq<nat>, i: int, new_: nat, next: Ref, r: Ref)
    requires Linked(h, b, c) && Sorted(h, c) && -1 <= i < |c|
    requires new_ < |h.slots| && new_ !in c
    requires i >= 0 ==> !Dead(h, c[i]) && h.slots[c[i]].hashv <= h.slots[new_].hashv
    requires i >= 0 ==> r.deleted || h.slots[c[i]].hashv < h.slots[new_].hashv
    requires i + 1 < |c| ==> h.slots[new_].hashv < h.slots[c[i + 1]].hashv
    ensures Sorted(Place(h, new_, next, PtrAt(b, c, i), r), Spliced(c, i, new_))
  {
    var prev := PtrAt(b, c, i);
    var h' := Place(h, new_, next, prev, r);
    forall m | 0 <= m < |c|
      ensures h'.slots[c[m]].hashv == h.slots[c[m]].hashv
      ensures Dead(h', c[m]) == if m == i then r.deleted else Dead(h, c[m])
    {
      assert Next(h', Node(c[m])) == if m == i then r else Next(h, Node(c[m]));
    }
    forall m | 0 <= m < |c|
      ensures m <= i ==> h.slots[c[m]].hashv <= h.slots[new_].hashv
      ensures m <= i ==> Dead(h', c[m]) || h.slots[c[m]].hashv < h.slots[new_].hashv
      ensures i < m ==> h.slots[new_].hashv < h.slots[c[m]].hashv
    {
      if m < i {
        SortedAt(h, b, c, m, i);
      } else if i + 1 < m {
        SortedAt(h, b, c, i + 1, m);
      }
    }
    SpliceSorted(h, h', c, i, new_);
  }

  lemma PlaceBucket(h: Heap, pub: set<nat>, b: nat, c: seq<nat>, i: int, new_: nat, next: Ref, r: Ref)
    requires |h.heads| > 0 && WfBucket(h, pub, b, c) && -1 <= i < |c|
    requires new_ < |h.slots| && new_ !in pub && BucketOf(h, h.slots[new_].hashv) == b
    requires next.base == PtrAt(b, c, i + 1)
    requires r.base == Node(new_) && !r.prot && (r.deleted ==> i >= 0)
    requires i >= 0 ==> !Dead(h, c[i]) && h.slots[c[i]].hashv <= h.slots[new_].hashv
    requires i >= 0 ==> r.deleted || h.slots[c[i]].hashv < h.slots[new_].hashv
    requires i + 1 < |c| ==> h.slots[new_].hashv < h.slots[c[i + 1]].hashv
    ensures InHeap(h, PtrAt(b, c, i))
    ensures WfBucket(Place(h, new_, next, PtrAt(b, c, i), r), pub + {new_}, b, Spliced(c, i, new_))
  {
    var h' := Place(h, new_, next, PtrAt(b, c, i), r);
    SpliceLinked(h, b, c, i, new_, next, r);
    PlaceSorted(h, b, c, i, new_, next, r);
    assert Next(h', Head(b)) == if i == -1 then r else Next(h, Head(b));
  }

  /** Publishing `new_` right after position `i` of the list of its bucket. */
  lemma PlaceWf(h: Heap, pub: set<nat>, cs: seq<seq<nat>>, b: nat, i: int, new_: nat, next: Ref, r: Ref)
    requires Wf(h, pub, cs) && b < |cs| && WfBucket(h, pub, b, cs[b]) && -1 <= i < |cs[b]|
    requires new_ < |h.slots| && new_ !in pub && BucketOf(h, h.slots[new_].hashv) == b
    requires next.base == PtrAt(b, cs[b], i + 1)
    requires r.base == Node(new_) && !r.prot && (r.deleted ==> i >= 0)
    requires i >= 0 ==> !Dead(h, cs[b][i]) && h.slots[cs[b][i]].hashv <= h.slots[new_].hashv
    requires i >= 0 ==> r.deleted || h.slots[cs[b][i]].hashv < h.slots[new_].hashv
    requires i + 1 < |cs[b]| ==> h.slots[new_].hashv < h.slots[cs[b][i + 1]].hashv
    ensures InHeap(h, PtrAt(b, cs[b], i))
    ensures Wf(Place(h, new_, next, PtrAt(b, cs[b], i), r), pub + {new_}, cs[b := Spliced(cs[b], i, new_)])
  {
    var c := cs[b];
    assert WfBucket(h, pub, b, c);
    var prev := PtrAt(b, c, i);
    var c' := Spliced(c, i, new_);
    var h' := Place(h, new_, next, prev, r);
    PlaceBucket(h, pub, b, c, i, new_, next, r);
    OtherBuckets(h, pub, cs, b, new_, next, prev, r);
    SpliceMembers(c, i, new_);
    forall n | n in pub + {new_} && !Dead(h', n)
      ensures Listed(h', cs[b := c'], n)
    {
      assert n != new_ && Node(n) != prev ==> Next(h', Node(n)) == Next(h, Node(n));
      assert n != new_ ==> Listed(h, cs, n);
    }
  }

  lemma InsertWf(h: Heap, pub: set<nat>, cs: seq<seq<nat>>, new_: nat, prev: Ptr, exp: Ref)
    returns (b: nat, i: int)
    requires Wf(h, pub, cs)
    requires new_ < |h.slots| && new_ !in pub
    requires Before(h, pub, prev, h.slots[new_].hashv)
    requires After(h, pub, exp.base, h.slots[new_].hashv)
    requires InHeap(h, prev) && Next(h, prev) == exp && !exp.deleted
    ensures b == BucketOf(h, h.slots[new_].hashv)
    ensures WfBucket(h, pub, b, cs[b])
    ensures -1 <= i < |cs[b]| && PtrAt(b, cs[b], i) == prev
    ensures i >= 0 ==> h.slots[cs[b][i]].hashv < h.slots[new_].hashv
    ensures i + 1 < |cs[b]| ==> h.slots[new_].hashv < h.slots[cs[b][i + 1]].hashv
    ensures Wf(Place(h, new_, exp, prev, Plain(Node(new_))), pub + {new_}, cs[b := Spliced(cs[b], i, new_)])
  {
    b := BucketOf(h, h.slots[new_].hashv);
    i := FindIndex(h, pub, cs, prev, b);
    assert WfBucket(h, pub, b, cs[b]);
    assert Link(h, b, cs[b], i);
    PlaceWf(h, pub, cs, b, i, new_, exp, Plain(Node(new_)));
  }

  /** The replacing write: `left` dies and points at its successor entry. */
  lemma SwitchWf(h: Heap, pub: set<nat>, cs: seq<seq<nat>>, new_: nat, left: nat, right: Ptr)
    returns (b: nat, i: int)
    requires Wf(h, pub, cs)
    requires new_ < |h.slots| && new_ !in pub
    requires left in pub && h.slots[left].hashv == h.slots[new_].hashv
    requires Next(h, Node(left)) == AsProtected(right)
    ensures b == BucketOf(h, h.slots[new_].hashv)
    ensures WfBucket(h, pub, b, cs[b])
    ensures 0 <= i < |cs[b]| && cs[b][i] == left
    ensures i + 1 < |cs[b]| ==> h.slots[new_].hashv < h.slots[cs[b][i + 1]].hashv
    ensures Wf(Place(h, new_, Plain(right), Node(left), AsDeleted(Node(new_))), pub + {new_},
               cs[b := Spliced(cs[b], i, new_)])
  {
    b := BucketOf(h, h.slots[new_].hashv);
    i := FindIndex(h, pub, cs, Node(left), b);
    assert WfBucket(h, pub, b, cs[b]);
    assert Link(h, b, cs[b], i);
    if i + 1 < |cs[b]| {
      SortedAt(h, b, cs[b], i, i + 1);
    }
    PlaceWf(h, pub, cs, b, i, new_, Plain(right), AsDeleted(Node(new_)));
  }

  /** Changing only the marks of one entry, without bringing a dead entry back to life. */
  lemma MarkWf(h: Heap, pub: set<nat>, cs: seq<seq<nat>>, n: nat, r: Ref)
    requires Wf(h, pub, cs) && n in pub
    requires r.base == h.slots[n].next.base && (Dead(h, n) ==> r.deleted)
    ensures Wf(SetNext(h, Node(n), r), pub, cs)
  {
    var h' := SetNext(h, Node(n), r);
    assert forall m :: 0 <= m < |h.slots| && m != n ==> Next(h', Node(m)) == Next(h, Node(m));
    assert Next(h', Node(n)) == r;
    forall b | 0 <= b < |cs|
      ensures WfBucket(h', pub, b, cs[b])
    {
      assert WfBucket(h, pub, b, cs[b]);
      assert Next(h', Head(b)) == Next(h, Head(b));
      forall k | -1 <= k < |cs[b]|
        ensures Link(h', b, cs[b], k)
      {
        assert Link(h, b, cs[b], k);
      }
      SortedFrame(h, h', cs[b]);
    }
    forall m | m in pub && !Dead(h', m)
      ensures Listed(h', cs, m)
    {
      assert Listed(h, cs, m);
    }
  }

  lemma UnlinkLinked(h: Heap, b: nat, c: seq<nat>, i: int, j: int)
    requires Linked(h, b, c) && -1 <= i < j <= |c|
    ensures InHeap(h, PtrAt(b, c, i))
    ensures Linked(Unlink(h, PtrAt(b, c, i), PtrAt(b, c, j)), b, Cut(c, i, j))
  {
    assert Link(h, b, c, i);
    var p := PtrAt(b, c, i);
    var h' := Unlink(h, p, PtrAt(b, c, j));
    var c' := Cut(c, i, j);
    forall k | -1 <= k < |c'|
      ensures Link(h', b, c', k)
    {
      if k < i {
        assert Link(h, b, c, k);
        assert PtrAt(b, c', k) == PtrAt(b, c, k) != p;
        assert PtrAt(b, c', k + 1) == PtrAt(b, c, k + 1);
      } else if k == i {
        assert PtrAt(b, c', k) == p;
        assert PtrAt(b, c', k + 1) == PtrAt(b, c, j);
      } else {
        assert Link(h, b, c, k - (i + 1) + j);
        assert PtrAt(b, c', k) == PtrAt(b, c, k - (i + 1) + j) != p;
        assert PtrAt(b, c', k + 1) == PtrAt(b, c, k - (i + 1) + j + 1);
      }
    }
  }

  /** The trailing write of a search: `p` now points at `q`, keeping its marks. */
  function Unlink(h: Heap, p: Ptr, q: Ptr): (h': Heap)
    requires InHeap(h, p)
    ensures |h'.heads| == |h.heads| && |h'.slots| == |h.slots|
    ensures forall n :: 0 <= n < |h.slots| ==> Dead(h', n) == Dead(h, n) && h'.slots[n].hashv == h.slots[n].hashv
  {
    SetNext(h, p, Next(h, p).(base := q))
  }

  lemma UnlinkBucket(h: Heap, pub: set<nat>, b: nat, c: seq<nat>, i: int, j: int)
    requires |h.heads| > 0 && WfBucket(h, pub, b, c)
    requires -1 <= i < j <= |c|
    ensures InHeap(h, PtrAt(b, c, i))
    ensures WfBucket(Unlink(h, PtrAt(b, c, i), PtrAt(b, c, j)), pub, b, Cut(c, i, j))
  {
    UnlinkLinked(h, b, c, i, j);
    var h' := Unlink(h, PtrAt(b, c, i), PtrAt(b, c, j));
    var c' := Cut(c, i, j);
    forall k, l | 0 <= k < l < |c'|
      ensures InOrder(h', c', k, l)
    {
      assert InOrder(h, c, if k <= i then k else k - (i + 1) + j, if l <= i then l else l - (i + 1) + j);
    }
    assert Next(h', Head(b)).deleted == Next(h, Head(b)).deleted && Next(h', Head(b)).prot == Next(h, Head(b)).prot;
  }

  /** Unlinking the dead entries strictly between positions `i` and `j`. */
  lemma UnlinkWf(h: Heap, pub: set<nat>, cs: seq<seq<nat>>, b: nat, i: int, j: int)
    requires Wf(h, pub, cs) && b < |cs| && WfBucket(h, pub, b, cs[b])
    requires -1 <= i < j <= |cs[b]|
    requires forall m :: i < m < j ==> Dead(h, cs[b][m])
    ensures InHeap(h, PtrAt(b, cs[b], i))
    ensures Wf(Unlink(h, PtrAt(b, cs[b], i), PtrAt(b, cs[b], j)), pub, cs[b := Cut(cs[b], i, j)])
  {
    var c := cs[b];
    UnlinkBucket(h, pub, b, c, i, j);
    var p, q := PtrAt(b, c, i), PtrAt(b, c, j);
    var h' := Unlink(h, p, q);
    var c' := Cut(c, i, j);
    forall x | 0 <= x < |cs| && x != b
      ensures WfBucket(h', pub, x, cs[x])
    {
      assert WfBucket(h, pub, x, cs[x]);
      BucketUntouched(h, h', pub, pub, x, cs[x]);
    }
    forall n | n in pub && !Dead(h', n)
      ensures Listed(h', cs[b := c'], n)
    {
      assert Listed(h, cs, n);
      if BucketOf(h, h.slots[n].hashv) == b {
        var m :| 0 <= m < |c| && c[m] == n;
        assert c'[if m <= i then m else m - j + i + 1] == n;
      }
    }
  }
}
