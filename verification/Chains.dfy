/** When nothing is ever removed: the dead entries of a hash stand in a row, in
    the order they were published, and the row ends in the live entry. */
module Chains {
  import opened EntryHeap
  import opened TableSpec

  /** Position `i` is live, or its successor has the same hash. */
  ghost predicate Succeeded(h: Heap, c: seq<nat>, i: int)
    requires 0 <= i < |c| && forall m :: 0 <= m < |c| ==> c[m] < |h.slots|
  {
    Dead(h, c[i]) ==> i + 1 < |c| && h.slots[c[i + 1]].hashv == h.slots[c[i]].hashv
  }

  /** Entries of one hash were published in list order. */
  ghost predicate Ranked(h: Heap, rank: map<nat, nat>, c: seq<nat>, i: int, j: int)
    requires 0 <= i < j < |c| && forall m :: 0 <= m < |c| ==> c[m] < |h.slots| && c[m] in rank
  {
    h.slots[c[i]].hashv == h.slots[c[j]].hashv ==> rank[c[i]] < rank[c[j]]
  }

  ghost predicate KeptBucket(h: Heap, rank: map<nat, nat>, c: seq<nat>) {
    && (forall m :: 0 <= m < |c| ==> c[m] < |h.slots| && c[m] in rank)
    && (forall i {:trigger Succeeded(h, c, i)} :: 0 <= i < |c| ==> Succeeded(h, c, i))
    && (forall i, j {:trigger Ranked(h, rank, c, i, j)} :: 0 <= i < j < |c| ==> Ranked(h, rank, c, i, j))
  }

  /** `rank` numbers the published entries; all of them are still listed. */
  ghost predicate Kept(h: Heap, rank: map<nat, nat>, cs: seq<seq<nat>>) {
    && Wf(h, rank.Keys, cs)
    && (forall b {:trigger KeptBucket(h, rank, cs[b])} :: 0 <= b < |cs| ==> KeptBucket(h, rank, cs[b]))
    && (forall n {:trigger Listed(h, cs, n)} :: n in rank ==> Listed(h, cs, n))
  }

  lemma SucceededAt(h: Heap, rank: map<nat, nat>, c: seq<nat>, i: int)
    requires KeptBucket(h, rank, c) && 0 <= i < |c| && Dead(h, c[i])
    ensures i + 1 < |c| && h.slots[c[i + 1]].hashv == h.slots[c[i]].hashv
  {
    assert Succeeded(h, c, i);
  }

  /** Of two entries of one hash the earlier in the list was published earlier. */
  lemma RanksApart(h: Heap, rank: map<nat, nat>, c: seq<nat>, i: int, j: int)
    requires KeptBucket(h, rank, c) && 0 <= i < |c| && 0 <= j < |c|
    ensures h.slots[c[i]].hashv == h.slots[c[j]].hashv && i < j ==> rank[c[i]] < rank[c[j]]
    ensures h.slots[c[i]].hashv == h.slots[c[j]].hashv && j < i ==> rank[c[j]] < rank[c[i]]
  {
    assert i < j ==> Ranked(h, rank, c, i, j);
    assert j < i ==> Ranked(h, rank, c, j, i);
  }

  lemma KeptAgree(h: Heap, h': Heap, rank: map<nat, nat>, c: seq<nat>)
    requires KeptBucket(h, rank, c) && |h'.slots| == |h.slots|
    requires forall m :: 0 <= m < |c| ==> h'.slots[c[m]].hashv == h.slots[c[m]].hashv && Dead(h', c[m]) == Dead(h, c[m])
    ensures KeptBucket(h', rank, c)
  {
    forall i | 0 <= i < |c|
      ensures Succeeded(h', c, i)
    {
      assert Succeeded(h, c, i);
    }
    forall i, j | 0 <= i < j < |c|
      ensures Ranked(h', rank, c, i, j)
    {
      assert Ranked(h, rank, c, i, j);
    }
  }

  /** Private writes keep everything. */
  lemma PrivateKept(h: Heap, h': Heap, rank: map<nat, nat>, cs: seq<seq<nat>>)
    requires Kept(h, rank, cs) && AgreeOn(h, h', rank.Keys)
    ensures Kept(h', rank, cs)
  {
    PrivateWf(h, h', rank.Keys, cs);
    forall b | 0 <= b < |cs|
      ensures KeptBucket(h', rank, cs[b])
    {
      assert KeptBucket(h, rank, cs[b]);
      KeptAgree(h, h', rank, cs[b]);
    }
    forall n | n in rank
      ensures Listed(h', cs, n)
    {
      assert Listed(h, cs, n);
    }
  }

  /** A search finds nothing to unlink. */
  lemma SearchKeepsLists(h: Heap, rank: map<nat, nat>, cs: seq<seq<nat>>, k: nat, r: SearchResult, h': Heap)
    requires Kept(h, rank, cs) && SearchStep(h, k, r, h')
    ensures Linked(h, BucketOf(h, k), cs[BucketOf(h, k)])
    ensures SearchSpec(h, BucketOf(h, k), cs[BucketOf(h, k)], k, r, h')
    ensures SameLife(h, h') && Wf(h', rank.Keys, cs)
    ensures r.found ==> r.left.Node? && r.left.i in rank && r.left.i < |h.slots| && h.slots[r.left.i].hashv == k
  {
    var b := BucketOf(h, k);
    var c := cs[b];
    assert WfBucket(h, rank.Keys, b, c) && KeptBucket(h, rank, c);
    var d :| Linked(h, b, d) && SearchSpec(h, b, d, k, r, h');
    LinkedUnique(h, b, c, d);
    if r.found {
      var i :| 0 <= i < |c| && SearchHit(h, b, c, k, i, r, h');
      HitKeeps(h, rank.Keys, cs, k, r, h', i);
    } else {
      var i, j :| Gap(h, c, k, i, j) && SearchMiss(h, b, c, i, j, r, h');
      NothingBetween(h, rank, c, k, i, j);
    }
  }

  lemma NothingBetween(h: Heap, rank: map<nat, nat>, c: seq<nat>, k: nat, i: int, j: int)
    requires (forall m :: 0 <= m < |c| ==> c[m] < |h.slots|) && KeptBucket(h, rank, c) && Gap(h, c, k, i, j)
    ensures j == i + 1
  {
    if i + 1 < j {
      SucceededAt(h, rank, c, j - 1);
    }
  }

  lemma SearchKept(h: Heap, rank: map<nat, nat>, cs: seq<seq<nat>>, k: nat, r: SearchResult, h': Heap)
    requires Kept(h, rank, cs) && SearchStep(h, k, r, h')
    ensures SameLife(h, h') && Kept(h', rank, cs)
    ensures r.found <==> k in AbsMap(h, rank.Keys)
    ensures r.found ==> r.left.Node? && r.left.i in rank && r.left.i < |h.slots| && h.slots[r.left.i].hashv == k
    ensures !r.found ==> Before(h', rank.Keys, r.left, k) && After(h', rank.Keys, r.right, k)
  {
    SearchKeepsLists(h, rank, cs, k, r, h');
    var cs' := SearchKeeps(h, rank.Keys, cs, k, r, h');
    AllKept(h, h', rank, cs);
  }

  lemma AllKept(h: Heap, h': Heap, rank: map<nat, nat>, cs: seq<seq<nat>>)
    requires Kept(h, rank, cs) && SameLife(h, h') && Wf(h', rank.Keys, cs)
    ensures Kept(h', rank, cs)
  {
    forall b | 0 <= b < |cs|
      ensures KeptBucket(h', rank, cs[b])
    {
      assert KeptBucket(h, rank, cs[b]);
      KeptAgree(h, h', rank, cs[b]);
    }
    forall n | n in rank
      ensures Listed(h', cs, n)
    {
      assert Listed(h, cs, n);
    }
  }

  /** Empty buckets are well formed and hold the empty map. */
  lemma ClearKept(h: Heap)
    requires |h.heads| > 0 && forall b :: 0 <= b < |h.heads| ==> h.heads[b] == Plain(Head(b))
    ensures Kept(h, map[], seq(|h.heads|, b => [])) && AbsMap(h, {}) == map[]
  {
    var cs := seq(|h.heads|, b => []);
    forall b | 0 <= b < |cs|
      ensures WfBucket(h, {}, b, cs[b]) && KeptBucket(h, map[], cs[b])
    {
      assert Link(h, b, cs[b], -1);
    }
  }

  // -------- Publishing --------

  /** `new_` published behind position `i` with a rank above all others: the rows stay rows. */
  lemma PlaceKeptBucket(h: Heap, h': Heap, rank: map<nat, nat>, c: seq<nat>, i: int, new_: nat, top: nat)
    requires KeptBucket(h, rank, c) && -1 <= i < |c|
    requires |h'.slots| == |h.slots| && new_ < |h.slots| && new_ !in rank && !Dead(h', new_)
    requires forall m :: 0 <= m < |h.slots| ==> h'.slots[m].hashv == h.slots[m].hashv
    requires forall m :: 0 <= m < |c| && m != i ==> Dead(h', c[m]) == Dead(h, c[m])
    requires i >= 0 ==> !Dead(h, c[i]) && (Dead(h', c[i]) ==> h.slots[c[i]].hashv == h.slots[new_].hashv)
    requires forall m :: i < m < |c| ==> h.slots[c[m]].hashv != h.slots[new_].hashv
    requires forall n :: n in rank ==> rank[n] < top
    ensures KeptBucket(h', rank[new_ := top], Spliced(c, i, new_))
  {
    var c' := Spliced(c, i, new_);
    var rank' := rank[new_ := top];
    forall m | 0 <= m < |c'|
      ensures Succeeded(h', c', m)
    {
      if m != i && m != i + 1 {
        assert Succeeded(h, c, if m < i then m else m - 1);
      }
    }
    forall k, l | 0 <= k < l < |c'|
      ensures Ranked(h', rank', c', k, l)
    {
      if k != i + 1 && l != i + 1 {
        assert Ranked(h, rank, c, if k <= i then k else k - 1, if l <= i then l else l - 1);
      }
    }
  }

  lemma PlaceKept(h: Heap, h': Heap, rank: map<nat, nat>, cs: seq<seq<nat>>, b: nat, i: int, new_: nat, top: nat)
    requires Kept(h, rank, cs)
    requires |h'.heads| == |h.heads| && |h'.slots| == |h.slots|
    requires new_ < |h.slots| && new_ !in rank && b == BucketOf(h, h.slots[new_].hashv) && -1 <= i < |cs[b]|
    requires Wf(h', rank.Keys + {new_}, cs[b := Spliced(cs[b], i, new_)])
    requires forall m :: 0 <= m < |h.slots| ==> h'.slots[m].hashv == h.slots[m].hashv
    requires forall m :: m in rank && (i == -1 || m != cs[b][i]) ==> Dead(h', m) == Dead(h, m)
    requires !Dead(h', new_)
    requires i >= 0 && cs[b][i] < |h.slots| ==>
               !Dead(h, cs[b][i]) && (Dead(h', cs[b][i]) ==> h.slots[cs[b][i]].hashv == h.slots[new_].hashv)
    requires forall m :: i < m < |cs[b]| && cs[b][m] < |h.slots| ==> h.slots[cs[b][m]].hashv != h.slots[new_].hashv
    requires forall n :: n in rank ==> rank[n] < top
    ensures Kept(h', rank[new_ := top], cs[b := Spliced(cs[b], i, new_)])
  {
    var rank' := rank[new_ := top];
    var cs' := cs[b := Spliced(cs[b], i, new_)];
    assert rank'.Keys == rank.Keys + {new_};
    assert WfBucket(h, rank.Keys, b, cs[b]) && KeptBucket(h, rank, cs[b]);
    PlaceKeptBucket(h, h', rank, cs[b], i, new_, top);
    forall x | 0 <= x < |cs| && x != b
      ensures KeptBucket(h', rank', cs[x])
    {
      assert WfBucket(h, rank.Keys, x, cs[x]) && KeptBucket(h, rank, cs[x]);
      KeptAgree(h, h', rank, cs[x]);
      KeptLarger(h', rank, cs[x], new_, top);
    }
    SpliceMembers(cs[b], i, new_);
    forall n | n in rank'
      ensures Listed(h', cs', n)
    {
      assert n != new_ ==> Listed(h, cs, n);
    }
  }

  lemma KeptLarger(h: Heap, rank: map<nat, nat>, c: seq<nat>, new_: nat, top: nat)
    requires KeptBucket(h, rank, c) && new_ !in rank
    ensures KeptBucket(h, rank[new_ := top], c)
  {
    forall i | 0 <= i < |c|
      ensures Succeeded(h, c, i)
    {
    }
    var rank' := rank[new_ := top];
    forall i, j | 0 <= i < j < |c|
      ensures Ranked(h, rank', c, i, j)
    {
      assert Ranked(h, rank, c, i, j);
    }
  }

  lemma InsertKept(h: Heap, rank: map<nat, nat>, cs: seq<seq<nat>>, new_: nat, prev: Ptr, exp: Ref, top: nat)
    returns (cs': seq<seq<nat>>)
    requires Kept(h, rank, cs)
    requires new_ < |h.slots| && new_ !in rank
    requires Before(h, rank.Keys, prev, h.slots[new_].hashv)
    requires After(h, rank.Keys, exp.base, h.slots[new_].hashv)
    requires InHeap(h, prev) && Next(h, prev) == exp && !exp.deleted
    requires forall n :: n in rank ==> rank[n] < top
    ensures Kept(Place(h, new_, exp, prev, Plain(Node(new_))), rank[new_ := top], cs')
    ensures h.slots[new_].hashv !in AbsMap(h, rank.Keys)
    ensures AbsMap(Place(h, new_, exp, prev, Plain(Node(new_))), rank[new_ := top].Keys)
         == AbsMap(h, rank.Keys)[h.slots[new_].hashv := new_]
  {
    var b, i := InsertSetsMap(h, rank.Keys, cs, new_, prev, exp);
    FreshHash(h, rank.Keys, b, cs[b], i, h.slots[new_].hashv);
    cs' := cs[b := Spliced(cs[b], i, new_)];
    var h' := Place(h, new_, exp, prev, Plain(Node(new_)));
    PlaceDead(h, new_, exp, prev, Plain(Node(new_)));
    PlaceKept(h, h', rank, cs, b, i, new_, top);
    assert rank[new_ := top].Keys == rank.Keys + {new_};
  }

  lemma PlaceDead(h: Heap, new_: nat, next: Ref, prev: Ptr, r: Ref)
    requires new_ < |h.slots| && InHeap(h, prev) && prev != Node(new_)
    ensures forall n :: 0 <= n < |h.slots| ==>
                          && Place(h, new_, next, prev, r).slots[n].hashv == h.slots[n].hashv
                          && (Dead(Place(h, new_, next, prev, r), n) <==>
                              if Node(n) == prev then r.deleted else if n == new_ then next.deleted else Dead(h, n))
  {
  }

  lemma SwitchKept(h: Heap, rank: map<nat, nat>, cs: seq<seq<nat>>, new_: nat, left: nat, right: Ptr, top: nat)
    returns (cs': seq<seq<nat>>)
    requires Kept(h, rank, cs)
    requires new_ < |h.slots| && new_ !in rank
    requires left in rank && left < |h.slots| && h.slots[left].hashv == h.slots[new_].hashv
    requires Next(h, Node(left)) == AsProtected(right)
    requires forall n :: n in rank ==> rank[n] < top
    ensures Kept(Place(h, new_, Plain(right), Node(left), AsDeleted(Node(new_))), rank[new_ := top], cs')
    ensures h.slots[new_].hashv in AbsMap(h, rank.Keys)
    ensures AbsMap(Place(h, new_, Plain(right), Node(left), AsDeleted(Node(new_))), rank[new_ := top].Keys)
         == AbsMap(h, rank.Keys)[h.slots[new_].hashv := new_]
  {
    var b, i := SwitchSetsMap(h, rank.Keys, cs, new_, left, right);
    cs' := cs[b := Spliced(cs[b], i, new_)];
    var h' := Place(h, new_, Plain(right), Node(left), AsDeleted(Node(new_)));
    PlaceDead(h, new_, Plain(right), Node(left), AsDeleted(Node(new_)));
    forall m | i < m < |cs[b]|
      ensures h.slots[cs[b][m]].hashv != h.slots[new_].hashv
    {
      SortedAt(h, b, cs[b], i, m);
    }
    PlaceKept(h, h', rank, cs, b, i, new_, top);
    assert rank[new_ := top].Keys == rank.Keys + {new_};
  }

  // -------- Chasing --------

  /** Following `next` from a dead entry leads to an entry of the same hash published later. */
  lemma ChaseStep(h: Heap, rank: map<nat, nat>, cs: seq<seq<nat>>, n: nat)
    requires Kept(h, rank, cs) && n in rank && Dead(h, n)
    ensures var p := h.slots[n].next.base;
            && p.Node? && p.i in rank && p.i < |h.slots|
            && h.slots[p.i].hashv == h.slots[n].hashv
            && rank[n] < rank[p.i]
  {
    var b := BucketOf(h, h.slots[n].hashv);
    assert Listed(h, cs, n) && WfBucket(h, rank.Keys, b, cs[b]) && KeptBucket(h, rank, cs[b]);
    var i :| 0 <= i < |cs[b]| && cs[b][i] == n;
    SucceededAt(h, rank, cs[b], i);
    assert Link(h, b, cs[b], i);
    assert Ranked(h, rank, cs[b], i, i + 1);
  }

  /** That entry is the very next one published for the hash. */
  lemma ChaseSkipsNone(h: Heap, rank: map<nat, nat>, cs: seq<seq<nat>>, n: nat, m: nat)
    requires Kept(h, rank, cs) && n in rank && Dead(h, n)
    requires m in rank && h.slots[m].hashv == h.slots[n].hashv && rank[n] < rank[m]
    ensures h.slots[n].next.base.Node? && h.slots[n].next.base.i in rank
    ensures rank[h.slots[n].next.base.i] <= rank[m]
  {
    var b := BucketOf(h, h.slots[n].hashv);
    var c := cs[b];
    assert Listed(h, cs, n) && Listed(h, cs, m) && WfBucket(h, rank.Keys, b, c) && KeptBucket(h, rank, c);
    var i :| 0 <= i < |c| && c[i] == n;
    var l :| 0 <= l < |c| && c[l] == m;
    SucceededAt(h, rank, c, i);
    assert Link(h, b, c, i);
    if l != i + 1 {
      RanksApart(h, rank, c, l, i + 1);
      RanksApart(h, rank, c, l, i);
    }
  }

  lemma RankInjective(h: Heap, rank: map<nat, nat>, cs: seq<seq<nat>>, n: nat, m: nat)
    requires Kept(h, rank, cs) && n in rank && m in rank && n != m && h.slots[m].hashv == h.slots[n].hashv
    ensures rank[n] != rank[m]
  {
    var b := BucketOf(h, h.slots[n].hashv);
    var c := cs[b];
    assert Listed(h, cs, n) && Listed(h, cs, m) && WfBucket(h, rank.Keys, b, c) && KeptBucket(h, rank, c);
    var i :| 0 <= i < |c| && c[i] == n;
    var l :| 0 <= l < |c| && c[l] == m;
    RanksApart(h, rank, c, i, l);
  }

  /** The live entry of a hash was published last of all entries with that hash. */
  lemma LiveIsLast(h: Heap, rank: map<nat, nat>, cs: seq<seq<nat>>, n: nat, m: nat)
    requires Kept(h, rank, cs) && n in rank && m in rank && !Dead(h, n)
    requires h.slots[m].hashv == h.slots[n].hashv
    ensures rank[m] <= rank[n]
  {
    var b := BucketOf(h, h.slots[n].hashv);
    assert Listed(h, cs, n) && Listed(h, cs, m) && WfBucket(h, rank.Keys, b, cs[b]) && KeptBucket(h, rank, cs[b]);
    var i :| 0 <= i < |cs[b]| && cs[b][i] == n;
    var j :| 0 <= j < |cs[b]| && cs[b][j] == m;
    if i < j {
      SortedAt(h, b, cs[b], i, j);
    } else if j < i {
      assert Ranked(h, rank, cs[b], j, i);
    }
  }

  /** Where chasing from `n` ends: each step goes to a later publication, so there are at most `top` of them. */
  ghost function Chase(h: Heap, rank: map<nat, nat>, cs: seq<seq<nat>>, n: nat, top: nat): (last: nat)
    requires Kept(h, rank, cs) && n in rank
    requires forall m :: m in rank ==> rank[m] < top
    ensures Holds(h, rank.Keys, h.slots[n].hashv, last)
    decreases top - rank[n]
  {
    if Dead(h, n) then
      ChaseStep(h, rank, cs, n);
      Chase(h, rank, cs, h.slots[n].next.base.i, top)
    else n
  }
}
