/** What the bucket lists mean: the map they hold and what a search of them returns. */
module TableSpec {
  import opened EntryHeap

  datatype SearchResult = SearchResult(found: bool, left: Ptr, right: Ptr)

  ghost predicate Holds(h: Heap, pub: set<nat>, k: nat, n: nat) {
    n in pub && n < |h.slots| && h.slots[n].hashv == k && !Dead(h, n)
  }

  ghost function LiveHashes(h: Heap, pub: set<nat>): set<nat> {
    set n | n in pub && n < |h.slots| && !Dead(h, n) :: h.slots[n].hashv
  }

  /** The abstract value of the table: each hash with its one live entry. */
  ghost function AbsMap(h: Heap, pub: set<nat>): map<nat, nat> {
    map k | k in LiveHashes(h, pub) :: LiveEntry(h, pub, k)
  }

  ghost function LiveEntry(h: Heap, pub: set<nat>, k: nat): (n: nat)
    requires k in LiveHashes(h, pub)
    ensures Holds(h, pub, k, n)
  {
    var m :| m in pub && m < |h.slots| && !Dead(h, m) && h.slots[m].hashv == k;
    assert Holds(h, pub, k, m);
    var n :| Holds(h, pub, k, n);
    n
  }

  ghost predicate Represents(h: Heap, pub: set<nat>, m: map<nat, nat>) {
    && (forall k, n :: Holds(h, pub, k, n) ==> k in m && m[k] == n)
    && (forall k :: k in m ==> Holds(h, pub, k, m[k]))
  }

  lemma LiveUnique(h: Heap, pub: set<nat>, cs: seq<seq<nat>>, k: nat, n: nat, m: nat)
    requires Wf(h, pub, cs) && Holds(h, pub, k, n) && Holds(h, pub, k, m)
    ensures n == m
  {
    var b := BucketOf(h, k);
    assert WfBucket(h, pub, b, cs[b]);
    assert Listed(h, cs, n) && Listed(h, cs, m);
    var i :| 0 <= i < |cs[b]| && cs[b][i] == n;
    var j :| 0 <= j < |cs[b]| && cs[b][j] == m;
    if i < j {
      SortedAt(h, b, cs[b], i, j);
    } else if j < i {
      SortedAt(h, b, cs[b], j, i);
    }
  }

  lemma AbsMapHolds(h: Heap, pub: set<nat>, cs: seq<seq<nat>>)
    requires Wf(h, pub, cs)
    ensures Represents(h, pub, AbsMap(h, pub))
  {
    var abs := AbsMap(h, pub);
    forall k, n | Holds(h, pub, k, n)
      ensures k in abs && abs[k] == n
    {
      assert k in LiveHashes(h, pub);
      LiveUnique(h, pub, cs, k, n, abs[k]);
    }
  }

  /** Two tables with the same live entries hold the same map. */
  lemma RepresentsSame(h: Heap, pub: set<nat>, m: map<nat, nat>, h': Heap, m': map<nat, nat>)
    requires Represents(h, pub, m) && Represents(h', pub, m')
    requires forall k, n :: Holds(h, pub, k, n) <==> Holds(h', pub, k, n)
    ensures m' == m
  {
    forall k
      ensures k in m <==> k in m'
      ensures k in m ==> m[k] == m'[k]
    {
    }
  }

  /** Publishing `new_` as the only live entry of `k` sets `k` and nothing else. */
  lemma RepresentsPut(h: Heap, pub: set<nat>, m: map<nat, nat>, h': Heap, m': map<nat, nat>, k: nat, new_: nat)
    requires Represents(h, pub, m) && Represents(h', pub + {new_}, m')
    requires Holds(h', pub + {new_}, k, new_)
    requires forall l, n :: l != k ==> (Holds(h, pub, l, n) <==> Holds(h', pub + {new_}, l, n))
    ensures m' == m[k := new_]
  {
    forall l
      ensures l in m' <==> l in m || l == k
      ensures l in m' ==> m'[l] == if l == k then new_ else m[l]
    {
    }
  }

  lemma RepresentsErase(h: Heap, pub: set<nat>, m: map<nat, nat>, h': Heap, m': map<nat, nat>, k: nat)
    requires Represents(h, pub, m) && Represents(h', pub, m')
    requires forall n :: !Holds(h', pub, k, n)
    requires forall l, n :: l != k ==> (Holds(h, pub, l, n) <==> Holds(h', pub, l, n))
    ensures m' == m - {k}
  {
    forall l
      ensures l in m' <==> l in m && l != k
      ensures l in m' ==> m'[l] == m[l]
    {
    }
  }

  // -------- Search --------

  /** Position `i` is the last live position before `j` (or the head), and `j` the first with a hash above `k`. */
  ghost predicate Gap(h: Heap, c: seq<nat>, k: nat, i: int, j: int)
    requires forall m :: 0 <= m < |c| ==> c[m] < |h.slots|
  {
    && -1 <= i < j <= |c|
    && (forall m :: 0 <= m < j ==> h.slots[c[m]].hashv <= k)
    && (j < |c| ==> h.slots[c[j]].hashv > k)
    && (forall m :: i < m < j ==> Dead(h, c[m]))
    && (i >= 0 ==> !Dead(h, c[i]) && h.slots[c[i]].hashv < k)
  }

  /** A search of the list `c` of bucket `b` for `k`.  A hit protects the live
      entry of `k`; a miss returns the two neighbours of `k` and unlinks the dead
      entries between them. */
  ghost predicate SearchSpec(h: Heap, b: nat, c: seq<nat>, k: nat, r: SearchResult, h': Heap)
    requires Linked(h, b, c)
  {
    if r.found then
      exists i :: 0 <= i < |c| && SearchHit(h, b, c, k, i, r, h')
    else
      exists i, j :: Gap(h, c, k, i, j) && SearchMiss(h, b, c, i, j, r, h')
  }

  ghost predicate SearchHit(h: Heap, b: nat, c: seq<nat>, k: nat, i: int, r: SearchResult, h': Heap)
    requires Linked(h, b, c) && 0 <= i < |c|
  {
    && h.slots[c[i]].hashv == k && !Dead(h, c[i])
    && r.left == Node(c[i]) && r.right == PtrAt(b, c, i + 1)
    && h' == SetNext(h, Node(c[i]), AsProtected(r.right))
  }

  ghost predicate SearchMiss(h: Heap, b: nat, c: seq<nat>, i: int, j: int, r: SearchResult, h': Heap)
    requires Linked(h, b, c) && -1 <= i < j <= |c|
  {
    && r.left == PtrAt(b, c, i) && r.right == PtrAt(b, c, j)
    && InHeap(h, r.left)
    && h' == if j == i + 1 then h else Unlink(h, r.left, r.right)
  }

  ghost predicate SearchStep(h: Heap, k: nat, r: SearchResult, h': Heap) {
    |h.heads| > 0 && exists c :: Linked(h, BucketOf(h, k), c) && SearchSpec(h, BucketOf(h, k), c, k, r, h')
  }

  /** The list of a bucket is determined by the memory. */
  lemma {:induction false} LinkedAgree(h: Heap, b: nat, c: seq<nat>, d: seq<nat>, n: nat)
    requires Linked(h, b, c) && Linked(h, b, d) && n <= |c|
    ensures n <= |d| && c[..n] == d[..n]
  {
    if n > 0 {
      LinkedAgree(h, b, c, d, n - 1);
      assert Link(h, b, c, n - 2) && Link(h, b, d, n - 2);
      assert n >= 2 ==> c[n - 2] == c[..n - 1][n - 2] == d[..n - 1][n - 2] == d[n - 2];
      assert PtrAt(b, c, n - 1) == PtrAt(b, d, n - 1);
      assert c[..n] == c[..n - 1] + [c[n - 1]];
      assert d[..n] == d[..n - 1] + [d[n - 1]];
    }
  }

  lemma LinkedUnique(h: Heap, b: nat, c: seq<nat>, d: seq<nat>)
    requires Linked(h, b, c) && Linked(h, b, d)
    ensures c == d
  {
    LinkedAgree(h, b, c, d, |c|);
    LinkedAgree(h, b, d, c, |d|);
    assert c == c[..|c|] && d == d[..|d|];
  }

  /** Between the neighbours a miss returns there is no live entry of the list. */
  lemma GapHasNoLive(h: Heap, pub: set<nat>, b: nat, c: seq<nat>, k: nat, i: int, j: int, n: nat)
    requires |h.heads| > 0 && WfBucket(h, pub, b, c) && Gap(h, c, k, i, j)
    requires n in c && h.slots[n].hashv == k
    ensures Dead(h, n)
  {
    var m :| 0 <= m < |c| && c[m] == n;
    if j < |c| && j < m {
      SortedAt(h, b, c, j, m);
    } else if i >= 0 && m < i {
      SortedAt(h, b, c, m, i);
    }
  }

  ghost predicate SameLife(h: Heap, h': Heap) {
    && |h'.heads| == |h.heads| && |h'.slots| == |h.slots|
    && (forall n :: 0 <= n < |h.slots| ==> h'.slots[n].hashv == h.slots[n].hashv && Dead(h', n) == Dead(h, n))
    && (forall n :: 0 <= n < |h.slots| && Dead(h, n) ==> h'.slots[n] == h.slots[n])
  }

  lemma SameLifeSameMap(h: Heap, pub: set<nat>, cs: seq<seq<nat>>, h': Heap, cs': seq<seq<nat>>)
    requires Wf(h, pub, cs) && Wf(h', pub, cs') && SameLife(h, h')
    ensures AbsMap(h', pub) == AbsMap(h, pub)
  {
    AbsMapHolds(h, pub, cs);
    AbsMapHolds(h', pub, cs');
    RepresentsSame(h, pub, AbsMap(h, pub), h', AbsMap(h', pub));
  }

  lemma HitKeeps(h: Heap, pub: set<nat>, cs: seq<seq<nat>>, k: nat, r: SearchResult, h': Heap, i: int)
    requires Wf(h, pub, cs) && WfBucket(h, pub, BucketOf(h, k), cs[BucketOf(h, k)])
    requires 0 <= i < |cs[BucketOf(h, k)]|
    requires SearchHit(h, BucketOf(h, k), cs[BucketOf(h, k)], k, i, r, h')
    ensures SameLife(h, h') && Wf(h', pub, cs)
    ensures Holds(h, pub, k, cs[BucketOf(h, k)][i])
    ensures Next(h', r.left) == AsProtected(r.right)
  {
    var b := BucketOf(h, k);
    assert WfBucket(h, pub, b, cs[b]);
    assert Link(h, b, cs[b], i);
    MarkWf(h, pub, cs, cs[b][i], AsProtected(r.right));
  }

  lemma MissKeeps(h: Heap, pub: set<nat>, cs: seq<seq<nat>>, k: nat, r: SearchResult, h': Heap, i: int, j: int)
    returns (cs': seq<seq<nat>>)
    requires Wf(h, pub, cs) && WfBucket(h, pub, BucketOf(h, k), cs[BucketOf(h, k)])
    requires Gap(h, cs[BucketOf(h, k)], k, i, j)
    requires SearchMiss(h, BucketOf(h, k), cs[BucketOf(h, k)], i, j, r, h')
    ensures SameLife(h, h') && Wf(h', pub, cs')
    ensures j == i + 1 ==> cs' == cs
    ensures forall n :: !Holds(h, pub, k, n)
    ensures Before(h', pub, r.left, k) && After(h', pub, r.right, k)
    ensures InHeap(h', r.left) && Next(h', r.left).base == r.right && !Next(h', r.left).deleted
  {
    var b := BucketOf(h, k);
    var c := cs[b];
    assert WfBucket(h, pub, b, c);
    assert Link(h, b, c, i);
    forall n | Holds(h, pub, k, n)
      ensures false
    {
      assert Listed(h, cs, n);
      GapHasNoLive(h, pub, b, c, k, i, j, n);
    }
    cs' := cs;
    if j > i + 1 {
      UnlinkWf(h, pub, cs, b, i, j);
      cs' := cs[b := Cut(c, i, j)];
      assert forall n :: 0 <= n < |h.slots| && Node(n) != r.left ==> Next(h', Node(n)) == Next(h, Node(n));
    }
  }

  /** A search keeps the lists well formed and the map unchanged; what it returns fits. */
  lemma SearchKeeps(h: Heap, pub: set<nat>, cs: seq<seq<nat>>, k: nat, r: SearchResult, h': Heap)
    returns (cs': seq<seq<nat>>)
    requires Wf(h, pub, cs) && Linked(h, BucketOf(h, k), cs[BucketOf(h, k)])
    requires SearchSpec(h, BucketOf(h, k), cs[BucketOf(h, k)], k, r, h')
    ensures SameLife(h, h') && Wf(h', pub, cs')
    ensures AbsMap(h', pub) == AbsMap(h, pub)
    ensures r.found <==> k in AbsMap(h, pub)
    ensures r.found ==> r.left == Node(AbsMap(h, pub)[k])
    ensures r.found ==> Holds(h, pub, k, AbsMap(h, pub)[k]) && Next(h', r.left) == AsProtected(r.right)
    ensures !r.found ==> Before(h', pub, r.left, k) && After(h', pub, r.right, k)
    ensures !r.found ==> InHeap(h', r.left) && Next(h', r.left).base == r.right && !Next(h', r.left).deleted
  {
    var c := cs[BucketOf(h, k)];
    AbsMapHolds(h, pub, cs);
    if r.found {
      var i :| 0 <= i < |c| && SearchHit(h, BucketOf(h, k), c, k, i, r, h');
      HitKeeps(h, pub, cs, k, r, h', i);
      cs' := cs;
    } else {
      var i, j :| Gap(h, c, k, i, j) && SearchMiss(h, BucketOf(h, k), c, i, j, r, h');
      cs' := MissKeeps(h, pub, cs, k, r, h', i, j);
    }
    SameLifeSameMap(h, pub, cs, h', cs');
  }

  /** The first position of a list whose hash is above `k`. */
  lemma {:induction false} FirstAbove(h: Heap, c: seq<nat>, k: nat, from: nat) returns (j: nat)
    requires from <= |c| && forall m :: 0 <= m < |c| ==> c[m] < |h.slots|
    requires forall m :: 0 <= m < from ==> h.slots[c[m]].hashv <= k
    ensures j <= |c| && forall m :: 0 <= m < j ==> h.slots[c[m]].hashv <= k
    ensures j < |c| ==> h.slots[c[j]].hashv > k
    decreases |c| - from
  {
    if from == |c| || h.slots[c[from]].hashv > k {
      j := from;
    } else {
      j := FirstAbove(h, c, k, from + 1);
    }
  }

  /** The last live position before `j`, or the head. */
  lemma {:induction false} LastLive(h: Heap, c: seq<nat>, j: nat) returns (i: int)
    requires j <= |c| && forall m :: 0 <= m < |c| ==> c[m] < |h.slots|
    ensures -1 <= i < j && forall m :: i < m < j ==> Dead(h, c[m])
    ensures i >= 0 ==> !Dead(h, c[i])
  {
    if j == 0 || !Dead(h, c[j - 1]) {
      i := j - 1;
    } else {
      i := LastLive(h, c, j - 1);
    }
  }

  /** A search of a well-formed table has a result. */
  lemma SearchTotal(h: Heap, pub: set<nat>, cs: seq<seq<nat>>, k: nat) returns (r: SearchResult, h': Heap)
    requires Wf(h, pub, cs)
    ensures SearchStep(h, k, r, h')
  {
    var b := BucketOf(h, k);
    var c := cs[b];
    assert WfBucket(h, pub, b, c);
    var j := FirstAbove(h, c, k, 0);
    var i := LastLive(h, c, j);
    assert Link(h, b, c, i);
    if i >= 0 && h.slots[c[i]].hashv == k {
      r := SearchResult(true, Node(c[i]), PtrAt(b, c, i + 1));
      h' := SetNext(h, Node(c[i]), AsProtected(r.right));
      assert SearchHit(h, b, c, k, i, r, h');
    } else {
      r := SearchResult(false, PtrAt(b, c, i), PtrAt(b, c, j));
      h' := if j == i + 1 then h else Unlink(h, r.left, r.right);
      assert Gap(h, c, k, i, j) && SearchMiss(h, b, c, i, j, r, h');
    }
  }

  // -------- Writes to memory nobody else can reach --------

  /** `h'` may differ from `h` only in entries outside `pub`. */
  ghost predicate AgreeOn(h: Heap, h': Heap, pub: set<nat>) {
    && h'.heads == h.heads && |h'.slots| == |h.slots|
    && (forall n :: n in pub && n < |h.slots| ==> h'.slots[n] == h.slots[n])
  }

  lemma PrivateWf(h: Heap, h': Heap, pub: set<nat>, cs: seq<seq<nat>>)
    requires Wf(h, pub, cs) && AgreeOn(h, h', pub)
    ensures Wf(h', pub, cs)
    ensures AbsMap(h', pub) == AbsMap(h, pub)
  {
    forall b | 0 <= b < |cs|
      ensures WfBucket(h', pub, b, cs[b])
    {
      assert WfBucket(h, pub, b, cs[b]);
      BucketUntouched(h, h', pub, pub, b, cs[b]);
    }
    forall m | m in pub && !Dead(h', m)
      ensures Listed(h', cs, m)
    {
      assert Listed(h, cs, m);
    }
    AbsMapHolds(h, pub, cs);
    AbsMapHolds(h', pub, cs);
    RepresentsSame(h, pub, AbsMap(h, pub), h', AbsMap(h', pub));
  }

  // -------- The three successful writes and the map --------

  /** Where the hashes around the insertion point lie. */
  lemma FreshHash(h: Heap, pub: set<nat>, b: nat, c: seq<nat>, i: int, k: nat)
    requires |h.heads| > 0 && WfBucket(h, pub, b, c) && -1 <= i < |c|
    requires i >= 0 ==> h.slots[c[i]].hashv < k
    requires i + 1 < |c| ==> k < h.slots[c[i + 1]].hashv
    ensures forall m :: 0 <= m < |c| ==> h.slots[c[m]].hashv != k
  {
    forall m | 0 <= m < |c|
      ensures h.slots[c[m]].hashv != k
    {
      if m < i {
        SortedAt(h, b, c, m, i);
      } else if i + 1 < m {
        SortedAt(h, b, c, i + 1, m);
      }
    }
  }

  lemma InsertFresh(h: Heap, pub: set<nat>, cs: seq<seq<nat>>, b: nat, i: int, k: nat)
    requires Wf(h, pub, cs) && b == BucketOf(h, k) && WfBucket(h, pub, b, cs[b]) && -1 <= i < |cs[b]|
    requires i >= 0 ==> h.slots[cs[b][i]].hashv < k
    requires i + 1 < |cs[b]| ==> k < h.slots[cs[b][i + 1]].hashv
    ensures k !in AbsMap(h, pub)
  {
    FreshHash(h, pub, b, cs[b], i, k);
    assert forall n :: n in pub && !Dead(h, n) && Listed(h, cs, n) ==> h.slots[n].hashv != k;
  }

  lemma InsertSetsMap(h: Heap, pub: set<nat>, cs: seq<seq<nat>>, new_: nat, prev: Ptr, exp: Ref)
    returns (b: nat, i: int)
    requires Wf(h, pub, cs)
    requires new_ < |h.slots| && new_ !in pub
    requires Before(h, pub, prev, h.slots[new_].hashv)
    requires After(h, pub, exp.base, h.slots[new_].hashv)
    requires InHeap(h, prev) && Next(h, prev) == exp && !exp.deleted
    ensures b == BucketOf(h, h.slots[new_].hashv) && WfBucket(h, pub, b, cs[b])
    ensures -1 <= i < |cs[b]| && PtrAt(b, cs[b], i) == prev
    ensures i >= 0 ==> h.slots[cs[b][i]].hashv < h.slots[new_].hashv
    ensures i + 1 < |cs[b]| ==> h.slots[new_].hashv < h.slots[cs[b][i + 1]].hashv
    ensures Wf(Place(h, new_, exp, prev, Plain(Node(new_))), pub + {new_}, cs[b := Spliced(cs[b], i, new_)])
    ensures h.slots[new_].hashv !in AbsMap(h, pub)
    ensures AbsMap(Place(h, new_, exp, prev, Plain(Node(new_))), pub + {new_})
         == AbsMap(h, pub)[h.slots[new_].hashv := new_]
  {
    b, i := InsertWf(h, pub, cs, new_, prev, exp);
    InsertFresh(h, pub, cs, b, i, h.slots[new_].hashv);
    PlaceSetsMap(h, pub, cs, cs[b := Spliced(cs[b], i, new_)], new_, exp, prev, Plain(Node(new_)));
  }

  /** What one placing write does to the live entries: `new_` becomes live, and
      `prev` dies if the write marks it. */
  lemma PlaceHolds(h: Heap, pub: set<nat>, new_: nat, next: Ref, prev: Ptr, r: Ref)
    requires new_ < |h.slots| && new_ !in pub && InHeap(h, prev) && prev != Node(new_)
    requires !next.deleted && !Next(h, prev).deleted
    requires r.deleted ==> prev.Node? && h.slots[prev.i].hashv == h.slots[new_].hashv
    ensures Holds(Place(h, new_, next, prev, r), pub + {new_}, h.slots[new_].hashv, new_)
    ensures forall k, n :: k != h.slots[new_].hashv ==>
                             (Holds(h, pub, k, n) <==> Holds(Place(h, new_, next, prev, r), pub + {new_}, k, n))
  {
    var h' := Place(h, new_, next, prev, r);
    forall n | 0 <= n < |h.slots| && n != new_
      ensures h'.slots[n].hashv == h.slots[n].hashv
      ensures Dead(h', n) == if Node(n) == prev then r.deleted else Dead(h, n)
    {
      assert Next(h', Node(n)) == if Node(n) == prev then r else Next(h, Node(n));
    }
    assert Next(h', Node(new_)) == next;
  }

  lemma PlaceSetsMap(h: Heap, pub: set<nat>, cs: seq<seq<nat>>, cs': seq<seq<nat>>,
                     new_: nat, next: Ref, prev: Ptr, r: Ref)
    requires new_ < |h.slots| && new_ !in pub && InHeap(h, prev) && prev != Node(new_)
    requires !next.deleted && !Next(h, prev).deleted
    requires r.deleted ==> prev.Node? && h.slots[prev.i].hashv == h.slots[new_].hashv
    requires Wf(h, pub, cs) && Wf(Place(h, new_, next, prev, r), pub + {new_}, cs')
    ensures AbsMap(Place(h, new_, next, prev, r), pub + {new_}) == AbsMap(h, pub)[h.slots[new_].hashv := new_]
  {
    var h' := Place(h, new_, next, prev, r);
    AbsMapHolds(h, pub, cs);
    AbsMapHolds(h', pub + {new_}, cs');
    PlaceHolds(h, pub, new_, next, prev, r);
    RepresentsPut(h, pub, AbsMap(h, pub), h', AbsMap(h', pub + {new_}), h.slots[new_].hashv, new_);
  }

  lemma SwitchSetsMap(h: Heap, pub: set<nat>, cs: seq<seq<nat>>, new_: nat, left: nat, right: Ptr)
    returns (b: nat, i: int)
    requires Wf(h, pub, cs)
    requires new_ < |h.slots| && new_ !in pub
    requires left in pub && h.slots[left].hashv == h.slots[new_].hashv
    requires Next(h, Node(left)) == AsProtected(right)
    ensures b == BucketOf(h, h.slots[new_].hashv) && WfBucket(h, pub, b, cs[b])
    ensures 0 <= i < |cs[b]| && cs[b][i] == left
    ensures Wf(Place(h, new_, Plain(right), Node(left), AsDeleted(Node(new_))), pub + {new_},
               cs[b := Spliced(cs[b], i, new_)])
    ensures h.slots[new_].hashv in AbsMap(h, pub) && AbsMap(h, pub)[h.slots[new_].hashv] == left
    ensures AbsMap(Place(h, new_, Plain(right), Node(left), AsDeleted(Node(new_))), pub + {new_})
         == AbsMap(h, pub)[h.slots[new_].hashv := new_]
  {
    b, i := SwitchWf(h, pub, cs, new_, left, right);
    AbsMapHolds(h, pub, cs);
    assert Holds(h, pub, h.slots[new_].hashv, left);
    PlaceSetsMap(h, pub, cs, cs[b := Spliced(cs[b], i, new_)], new_, Plain(right), Node(left), AsDeleted(Node(new_)));
  }

  lemma DeleteErasesMap(h: Heap, pub: set<nat>, cs: seq<seq<nat>>, n: nat, p: Ptr)
    requires Wf(h, pub, cs)
    requires n in pub && Next(h, Node(n)) == Plain(p)
    ensures Wf(SetNext(h, Node(n), AsDeleted(p)), pub, cs)
    ensures h.slots[n].hashv in AbsMap(h, pub) && AbsMap(h, pub)[h.slots[n].hashv] == n
    ensures AbsMap(SetNext(h, Node(n), AsDeleted(p)), pub) == AbsMap(h, pub) - {h.slots[n].hashv}
  {
    var k := h.slots[n].hashv;
    var h' := SetNext(h, Node(n), AsDeleted(p));
    MarkWf(h, pub, cs, n, AsDeleted(p));
    AbsMapHolds(h, pub, cs);
    AbsMapHolds(h', pub, cs);
    assert Holds(h, pub, k, n);
    assert Next(h', Node(n)) == AsDeleted(p);
    assert forall m :: m in pub && m != n ==> Next(h', Node(m)) == Next(h, Node(m));
    forall m | Holds(h', pub, k, m)
      ensures false
    {
      LiveUnique(h, pub, cs, k, n, m);
    }
    RepresentsErase(h, pub, AbsMap(h, pub), h', AbsMap(h', pub), k);
  }
}
