/** The bounded ring that overwrites its oldest item, and the blocking queue built on it. */
module CircularQueue {
  import Arithmetic

  function LastN<T>(s: seq<T>, n: nat): seq<T> {
    if |s| <= n then s else s[|s| - n..]
  }

  /** Position `i` behind `head` in a ring of `m` places. */
  function Place(head: nat, i: nat, m: nat): int {
    if head + i < m then head + i else head + i - m
  }

  /** `(p + i) % m` for a position in the ring. */
  method Step(p: nat, i: nat, m: nat) returns (q: nat)
    requires p < m && i <= m
    ensures q == Place(p, i, m)
  {
    Arithmetic.ModSmall(p + i, m);
    q := (p + i) % m;
  }

  /** The items `c` stand in the ring from `head` on. */
  ghost predicate Holds<T>(v: seq<T>, head: nat, c: seq<T>) {
    && |c| <= |v| && (c != [] ==> head < |v|)
    && forall i: nat {:trigger c[i]} :: i < |c| ==> 0 <= Place(head, i, |v|) < |v| && v[Place(head, i, |v|)] == c[i]
  }

  lemma HoldsMore<T>(v: seq<T>, head: nat, c: seq<T>, x: T)
    requires Holds(v, head, c) && |c| < |v| && head < |v|
    ensures 0 <= Place(head, |c|, |v|) < |v| && Holds(v[Place(head, |c|, |v|) := x], head, c + [x])
  {
    var v' := v[Place(head, |c|, |v|) := x];
    forall i: nat | i < |c + [x]|
      ensures 0 <= Place(head, i, |v|) < |v| && v'[Place(head, i, |v|)] == (c + [x])[i]
    {
      assert i < |c| ==> v[Place(head, i, |v|)] == c[i];
    }
  }

  lemma HoldsRest<T>(v: seq<T>, head: nat, c: seq<T>)
    requires Holds(v, head, c) && c != []
    ensures Place(head, 1, |v|) >= 0 && Holds(v, Place(head, 1, |v|), c[1..])
  {
    forall i | 0 <= i < |c[1..]|
      ensures v[Place(Place(head, 1, |v|), i, |v|)] == c[1..][i]
    {
      assert v[Place(head, i + 1, |v|)] == c[i + 1];
    }
  }

  class CircularQ<T(0)> {
    const maxItems: nat               // one more than the capacity, or 0 if the queue is disabled
    const v: array<T>
    var head: nat
    var tail: nat
    var overrunCounter: nat

    /** History: all items ever stored, and how many were popped. */
    ghost var pushed: seq<T>
    ghost var popped: nat

    ghost function Capacity(): nat {
      if maxItems == 0 then 0 else maxItems - 1
    }

    ghost function Size(): nat
      reads this
    {
      if tail >= head then tail - head else if maxItems >= head - tail then maxItems - (head - tail) else 0
    }

    /** The items neither popped nor overrun. */
    ghost function Contents(): seq<T>
      reads this
    {
      if popped + overrunCounter <= |pushed| then pushed[popped + overrunCounter..] else []
    }

    /** The ring holds the latest of the items stored, and every item stored was
        popped, overrun or is still held.  A disabled queue never holds any. */
    ghost predicate Valid()
      reads this, v
    {
      && v.Length == maxItems
      && (if maxItems == 0 then head == tail == 0 && pushed == [] else head < maxItems && tail < maxItems)
      && |pushed| == popped + Size() + overrunCounter
      && Holds(v[..], head, Contents())
    }

    constructor (capacity: nat)
      ensures Valid() && maxItems == capacity + 1 && head == tail == 0
      ensures pushed == [] && popped == 0 && overrunCounter == 0 && Contents() == []
      ensures fresh(v)
    {
      maxItems := capacity + 1;
      v := new T[capacity + 1];
      head, tail, overrunCounter, pushed, popped := 0, 0, 0, [], 0;
    }

    constructor Disabled()
      ensures Valid() && maxItems == 0 && Contents() == []
      ensures fresh(v)
    {
      maxItems := 0;
      v := new T[0];
      head, tail, overrunCounter, pushed, popped := 0, 0, 0, [], 0;
    }

    /** Keeps the last `Capacity()` items; one that is pushed out is counted.  A
        disabled queue drops the item without counting it. */
    method PushBack(item: T)
      requires Valid()
      modifies this, v
      ensures Valid() && popped == old(popped)
      ensures pushed == if maxItems == 0 then old(pushed) else old(pushed) + [item]
      ensures Contents() == LastN(old(Contents()) + [item], Capacity())
      ensures overrunCounter == old(overrunCounter) + if maxItems > 0 && old(Size()) == Capacity() then 1 else 0
    {
      if maxItems > 0 {
        Put(item);
      }
    }

    method Put(item: T)
      requires Valid() && maxItems > 0
      modifies this, v
      ensures Valid() && popped == old(popped) && pushed == old(pushed) + [item]
      ensures Contents() == LastN(old(Contents()) + [item], Capacity())
      ensures overrunCounter == old(overrunCounter) + if old(Size()) == Capacity() then 1 else 0
    {
      ghost var c := Contents();
      HoldsMore(v[..], head, c, item);
      v[tail] := item;
      tail := Step(tail, 1, maxItems);
      pushed := pushed + [item];
      assert Contents() == c + [item];
      if tail == head {
        DropOldest();
      }
    }

    /** All places are taken, and `tail` has caught up with `head`. */
    method DropOldest()
      requires tail == head < maxItems == v.Length == |Contents()|
      requires |pushed| == popped + maxItems + overrunCounter && Holds(v[..], head, Contents())
      modifies this`head, this`overrunCounter
      ensures Valid() && Contents() == old(Contents())[1..] && overrunCounter == old(overrunCounter) + 1
    {
      HoldsRest(v[..], head, Contents());
      assert Contents()[1..] == pushed[popped + overrunCounter + 1..];
      head := Step(head, 1, maxItems);
      overrunCounter := overrunCounter + 1;
    }

    method Front() returns (item: T)
      requires Valid() && Size() > 0
      ensures item == Contents()[0]
    {
      item := v[head];
      assert v[..][Place(head, 0, maxItems)] == Contents()[0];
    }

    method At(i: nat) returns (item: T)
      requires Valid() && i < Size()
      ensures item == Contents()[i]
    {
      var p := Step(head, i, maxItems);
      item := v[p];
      assert v[..][Place(head, i, maxItems)] == Contents()[i];
    }

    method PopFront()
      requires Valid() && Size() > 0
      modifies this
      ensures Valid() && pushed == old(pushed) && popped == old(popped) + 1 && overrunCounter == old(overrunCounter)
      ensures Contents() == old(Contents())[1..]
    {
      HoldsRest(v[..], head, Contents());
      assert Contents()[1..] == pushed[popped + 1 + overrunCounter..];
      head := Step(head, 1, maxItems);
      popped := popped + 1;
    }

    method Empty() returns (r: bool)
      requires Valid()
      ensures r <==> Size() == 0
    {
      r := tail == head;
    }

    /** A disabled queue is never full. */
    method Full() returns (r: bool)
      requires Valid()
      ensures r <==> maxItems > 0 && Size() == Capacity()
    {
      r := false;
      if maxItems > 0 {
        var next := Step(tail, 1, maxItems);
        r := next == head;
      }
    }
  }

  /** The queue under its mutex.  A method is one turn of a caller's wait: it tests
      the condition while it holds the lock, and does its work if the wait is over.
      With blocking enqueues only, nothing is ever lost. */
  class BlockingQueue<T(0)> {
    const q: CircularQ<T>
    ghost var dequeued: seq<T>

    /** What came out is the beginning of what went in, and nothing was overrun. */
    ghost predicate Valid()
      reads this, q, q.v
    {
      q.Valid() && q.maxItems > 0 && q.overrunCounter == 0 && q.popped == |dequeued| && dequeued <= q.pushed
    }

    constructor (maxItems: nat)
      ensures Valid() && fresh(q) && fresh(q.v) && q.Capacity() == maxItems && q.pushed == [] && dequeued == []
    {
      q := new CircularQ<T>(maxItems);
      dequeued := [];
    }

    /** Waits on exactly if the queue is full. */
    method Enqueue(item: T) returns (done: bool)
      requires Valid()
      modifies q, q.v
      ensures Valid() && q.Size() <= q.Capacity()
      ensures done <==> old(q.Size()) < q.Capacity()
      ensures q.pushed == if done then old(q.pushed) + [item] else old(q.pushed)
      ensures q.Contents() == if done then old(q.Contents()) + [item] else old(q.Contents())
    {
      var full := q.Full();
      done := !full;
      if done {
        q.PushBack(item);
      }
    }

    /** Waits on exactly if the queue is empty; otherwise the oldest item takes the
        place of what the caller's variable held before. */
    method Dequeue(before: T) returns (done: bool, item: T)
      requires Valid()
      modifies this, q
      ensures Valid() && q.pushed == old(q.pushed)
      ensures done <==> old(q.Size()) > 0
      ensures dequeued == if done then old(dequeued) + [item] else old(dequeued)
      ensures q.Contents() == if done then old(q.Contents())[1..] else old(q.Contents())
      ensures !done ==> item == before
    {
      var empty := q.Empty();
      done, item := !empty, before;
      if done {
        item := q.Front();
        q.PopFront();
        dequeued := dequeued + [item];
      }
    }
  }
}
