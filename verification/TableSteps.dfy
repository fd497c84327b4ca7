/** One attempt of each compare-and-swap loop of the table, as an atomic step.

    `new_` is still private to the calling thread, so its plain store is part of
    the attempt that publishes it. */
module TableSteps {
  import opened EntryHeap

  /** How an attempt ended: it wrote, it must try again expecting `exp`, or it gives up. */
  datatype Try = Done | Again(exp: Ref) | Fail

  function InsertTry(h: Heap, new_: nat, left: Ptr, exp: Ref): (r: (Heap, Try))
    requires InHeap(h, Node(new_)) && InHeap(h, left)
  {
    var h1 := SetNext(h, Node(new_), exp);
    var orig := Next(h1, left);
    if orig == exp then (SetNext(h1, left, Plain(Node(new_))), Done)
    else if orig != AsProtected(exp.base) then (h1, Fail)
    else (h1, Again(orig))
  }

  function SwitchTry(h: Heap, new_: nat, left: Ptr, right: Ptr): (r: (Heap, Try))
    requires InHeap(h, Node(new_)) && InHeap(h, left)
  {
    var h1 := SetNext(h, Node(new_), Plain(right));
    var orig := Next(h1, left);
    if orig == AsProtected(right) then (SetNext(h1, left, AsDeleted(Node(new_))), Done)
    else if !orig.prot then (h1, Fail)
    else (h1, Again(Plain(orig.base)))
  }

  /** `Fail` here means that the target was marked by somebody else meanwhile: the call ends without effect. */
  function DeleteTry(h: Heap, target: nat, next: Ref): (r: (Heap, Try))
    requires InHeap(h, Node(target))
  {
    var orig := Next(h, Node(target));
    if orig == next then (SetNext(h, Node(target), AsDeleted(next.base)), Done)
    else if orig.base == next.base then (h, Fail)
    else if orig.deleted || orig.prot then (h, Fail)
    else (h, Again(orig))
  }
}
