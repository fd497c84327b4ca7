/** What the single patch operations promise (RFC 6902, section 4). */
module JsonOperations {
  import opened JsonText
  import opened JsonPatch

  /** The parent of the place `tokens` points to. */
  function Parent(j: Json, tokens: seq<string>): Result<Json>
    requires tokens != []
  {
    Get(j, tokens[..|tokens| - 1])
  }

  function Last(tokens: seq<string>): string
    requires tokens != []
  {
    tokens[|tokens| - 1]
  }

  /** `tokens` ends in the sign for the place behind the last item of an array. */
  predicate Appends(j: Json, tokens: seq<string>) {
    tokens != [] && Last(tokens) == "-" && Parent(j, tokens).Ok? && Parent(j, tokens).value.Array?
  }

  lemma GetLast(j: Json, tokens: seq<string>)
    requires tokens != [] && Parent(j, tokens).Ok?
    ensures Get(j, tokens) == Child(Parent(j, tokens).value, Last(tokens))
  {
    var parent, last := tokens[..|tokens| - 1], [Last(tokens)];
    assert tokens == parent + last && last[1..] == [];
    GetAppend(j, parent, last);
  }

  /** After assigning a new parent the place is the child of the new parent. */
  lemma GetLastOfWith(j: Json, tokens: seq<string>, p: Json)
    requires tokens != [] && Parent(j, tokens).Ok?
    ensures var parent := tokens[..|tokens| - 1];
            && Parent(With(j, parent, p), tokens) == Ok(p)
            && Get(With(j, parent, p), tokens) == Child(p, Last(tokens))
            && forall q :: With(With(j, parent, p), parent, q) == With(j, parent, q)
  {
    var parent := tokens[..|tokens| - 1];
    GetOfWith(j, parent, p);
    GetLast(With(j, parent, p), tokens);
  }

  lemma {:induction false} GetOfWith(j: Json, ts: seq<string>, v: Json)
    requires Get(j, ts).Ok?
    ensures Get(With(j, ts, v), ts) == Ok(v)
    ensures forall w :: With(With(j, ts, v), ts, w) == With(j, ts, w)
    decreases |ts|
  {
    if ts != [] {
      var c := Child(j, ts[0]).value;
      GetOfWith(c, ts[1..], v);
      ChildOfSet(j, ts[0], With(c, ts[1..], v));
    }
  }

  lemma {:induction false} WithOld(j: Json, ts: seq<string>)
    requires Get(j, ts).Ok?
    ensures With(j, ts, Get(j, ts).value) == j
    decreases |ts|
  {
    if ts != [] {
      WithOld(Child(j, ts[0]).value, ts[1..]);
    }
  }

  lemma AddChildIsThere(p: Json, last: string, v: Json)
    requires AddChild(p, last, v).Done? && !(last == "-" && p.Array?)
    ensures Child(AddChild(p, last, v).doc, last) == Ok(v)
  {
  }

  /** An added value is found where it was added, unless it was appended under the name "-". */
  lemma AddIsThere(j: Json, tokens: seq<string>, v: Json)
    requires AddOp(j, tokens, v).Done? && !Appends(j, tokens)
    ensures Get(AddOp(j, tokens, v).doc, tokens) == Ok(v)
  {
    if tokens != [] {
      var p := Parent(j, tokens).value;
      AddChildIsThere(p, Last(tokens), v);
      GetLastOfWith(j, tokens, AddChild(p, Last(tokens), v).doc);
    }
  }

  lemma RemoveAddedChild(p: Json, last: string, v: Json)
    requires AddChild(p, last, v).Done?
    ensures RemoveChild(AddChild(p, last, v).doc, last) == Done(p) <==>
            (p.Object? && last !in p.m) || (p.Array? && last != "-")
  {
    match p
    case Array(a) =>
      if last != "-" {
        var i := ArrayIndex(last).value;
        var b := a[..i] + [v] + a[i..];
        assert b[..i] == a[..i] && b[i + 1..] == a[i..] && a[..i] + a[i..] == a;
      }
    case Object(m) =>
      assert last !in m ==> m[last := v] - {last} == m;
    case _ =>
  }

  /** Removing what was added gives the document back exactly if a new member was
      added to an object or an item was inserted in an array by its index. */
  lemma RemoveUndoesAdd(j: Json, tokens: seq<string>, v: Json)
    requires tokens != [] && AddOp(j, tokens, v).Done?
    ensures RemoveOp(AddOp(j, tokens, v).doc, tokens) == Done(j) <==>
            var p := Parent(j, tokens).value;
            (p.Object? && Last(tokens) !in p.m) || (p.Array? && Last(tokens) != "-")
  {
    var parent, last := tokens[..|tokens| - 1], Last(tokens);
    var p := Parent(j, tokens).value;
    var p' := AddChild(p, last, v).doc;
    GetLastOfWith(j, tokens, p');
    RemoveAddedChild(p, last, v);
    WithOld(j, parent);
    var o := RemoveChild(p', last);
    if o.Done? && With(j, parent, o.doc) == j {
      GetOfWith(j, parent, o.doc);
    }
  }

  /** A replaced value is found in its place. */
  lemma ReplaceIsThere(j: Json, tokens: seq<string>, v: Json)
    ensures ReplaceOp(j, tokens, v).Done? <==> Get(j, tokens).Ok?
    ensures ReplaceOp(j, tokens, v).Done? ==> Get(ReplaceOp(j, tokens, v).doc, tokens) == Ok(v)
    ensures ReplaceOp(j, tokens, v).Done? ==>
              ReplaceOp(ReplaceOp(j, tokens, v).doc, tokens, Get(j, tokens).value) == Done(j)
  {
    if Get(j, tokens).Ok? {
      GetOfWith(j, tokens, v);
      WithOld(j, tokens);
    }
  }

  /** A copied value is found at the new place. */
  lemma CopyIsThere(j: Json, from: seq<string>, tokens: seq<string>)
    requires CopyOp(j, from, tokens).Done? && !Appends(j, tokens)
    ensures Get(j, from).Ok? && Get(CopyOp(j, from, tokens).doc, tokens) == Get(j, from)
  {
    AddIsThere(j, tokens, Get(j, from).value);
  }

  /** A test changes nothing and succeeds exactly if the value is there; an index
      that is no number is reported as such, everything else as a failed test. */
  lemma TestIff(j: Json, tokens: seq<string>, v: Json)
    ensures TestOp(j, tokens, v).doc == j
    ensures TestOp(j, tokens, v).Done? <==> Get(j, tokens) == Ok(v)
    ensures TestOp(j, tokens, v).Failed? ==>
              TestOp(j, tokens, v).code == if Get(j, tokens) in {Err(106), Err(109)} then Get(j, tokens).code else 501
  {
    ReadCodes(j, tokens);
  }

  lemma {:induction false} ReadCodes(j: Json, tokens: seq<string>)
    ensures Get(j, tokens).Err? ==> Get(j, tokens).code in {106, 109, 401, 402, 403, 404, 410}
    decreases |tokens|
  {
    if tokens != [] && Child(j, tokens[0]).Ok? {
      ReadCodes(Child(j, tokens[0]).value, tokens[1..]);
    }
  }

  /** Adding to a parent that is neither empty, an object nor an array is not
      reported as an error: it runs into an assertion. */
  lemma AddToPrimitive(j: Json, tokens: seq<string>, val: Json)
    requires tokens != []
    ensures AddOp(j, tokens, val) == Failed(j, ASSERTION) <==>
            var p := Parent(j, tokens);
            p.Ok? && !p.value.Null? && !p.value.Object? && !p.value.Array?
  {
    var parent := tokens[..|tokens| - 1];
    ReadCodes(j, parent);
    if |tokens| > 1 {
      ReadCodes(j, tokens[..1]);
      assert parent[..1] == tokens[..1];
      if Get(j, parent).Ok? {
        FirstThere(j, parent);
      }
    }
  }

  lemma AddToNumber(v: Json)
    ensures AddOp(Integer(1), ["a"], v) == Failed(Integer(1), ASSERTION)
  {
    AddToPrimitive(Integer(1), ["a"], v);
  }

  /** Removing something that is not there succeeds, and changes nothing, exactly
      if the parent is there and neither an object nor an array. */
  lemma RemoveAccepts(j: Json, tokens: seq<string>)
    requires tokens != []
    ensures RemoveOp(j, tokens).Done? && Get(j, tokens).Err? <==>
            Parent(j, tokens).Ok? && !Parent(j, tokens).value.Object? && !Parent(j, tokens).value.Array?
    ensures RemoveOp(j, tokens).Done? && Get(j, tokens).Err? ==> RemoveOp(j, tokens).doc == j
  {
    if Parent(j, tokens).Ok? {
      GetLast(j, tokens);
      WithOld(j, tokens[..|tokens| - 1]);
    }
  }

  lemma RemoveFromNumber()
    ensures RemoveOp(Integer(1), ["a"]) == Done(Integer(1)) && RemoveOp(Null, ["a"]) == Done(Null)
    ensures Get(Integer(1), ["a"]).Err? && Get(Null, ["a"]).Err?
  {
    RemoveAccepts(Integer(1), ["a"]);
    RemoveAccepts(Null, ["a"]);
  }

  /** All operations but a failing move leave the document as it was when they fail. */
  lemma FailuresKeep(j: Json, tokens: seq<string>, from: seq<string>, v: Json)
    ensures AddOp(j, tokens, v).Failed? ==> AddOp(j, tokens, v).doc == j
    ensures RemoveOp(j, tokens).Failed? ==> RemoveOp(j, tokens).doc == j
    ensures ReplaceOp(j, tokens, v).Failed? ==> ReplaceOp(j, tokens, v).doc == j
    ensures CopyOp(j, from, tokens).Failed? ==> CopyOp(j, from, tokens).doc == j
  {
  }

  lemma ParentThere(j: Json, tokens: seq<string>)
    requires tokens != [] && Get(j, tokens).Ok?
    ensures Parent(j, tokens).Ok?
  {
    var parent, last := tokens[..|tokens| - 1], [Last(tokens)];
    assert tokens == parent + last;
    GetAppend(j, parent, last);
  }

  /** A removed value leaves a hole: the document is another one. */
  lemma RemoveChanges(j: Json, tokens: seq<string>)
    requires tokens != [] && Get(j, tokens).Ok?
    ensures RemoveOp(j, tokens).Done? && RemoveOp(j, tokens).doc != j
  {
    ParentThere(j, tokens);
    GetLast(j, tokens);
    var p, last := Parent(j, tokens).value, Last(tokens);
    GetLastOfWith(j, tokens, RemoveChild(p, last).doc);
    RemovedChild(p, last);
  }

  lemma RemovedChild(p: Json, last: string)
    requires Child(p, last).Ok?
    ensures RemoveChild(p, last).Done? && RemoveChild(p, last).doc != p
  {
    var o := RemoveChild(p, last);
    assert p.Object? ==> last in p.m && last !in o.doc.m;
    assert p.Array? ==> |o.doc.a| < |p.a|;
  }

  /** A failing move leaves the document as it was exactly if there was nothing
      to move or it was to move the whole document. */
  lemma MoveLoses(j: Json, from: seq<string>, tokens: seq<string>)
    requires MoveOp(j, from, tokens).Failed?
    ensures MoveOp(j, from, tokens).doc == j <==> Get(j, from).Err? || from == []
    ensures MoveOp(j, from, tokens).doc != j ==> RemoveOp(j, from) == Done(MoveOp(j, from, tokens).doc)
  {
    if Get(j, from).Ok? && from != [] {
      RemoveChanges(j, from);
      FailuresKeep(RemoveOp(j, from).doc, tokens, from, Get(j, from).value);
    }
  }

  /** A moved value is found at the new place; a failing move has lost the value
      unless there was nothing to move or it was to move the whole document. */
  lemma MoveIsThere(j: Json, from: seq<string>, tokens: seq<string>)
    ensures var o := MoveOp(j, from, tokens);
            && (o.Done? ==> Get(j, from).Ok? && RemoveOp(j, from).Done?)
            && (o.Done? && !Appends(RemoveOp(j, from).doc, tokens) ==> Get(o.doc, tokens) == Get(j, from))
            && (o.Failed? ==> (o.doc == j <==> Get(j, from).Err? || from == []))
            && (o.Failed? ==> o.doc == j || RemoveOp(j, from) == Done(o.doc))
  {
    var o := MoveOp(j, from, tokens);
    if o.Done? && !Appends(RemoveOp(j, from).doc, tokens) {
      AddIsThere(RemoveOp(j, from).doc, tokens, Get(j, from).value);
    } else if o.Failed? {
      MoveLoses(j, from, tokens);
    }
  }

  /** {"a":1} moved from /a to /b/c fails and leaves {}. */
  lemma MoveLosesMember()
    ensures MoveOp(Object(map["a" := Integer(1)]), ["a"], ["b", "c"]) == Failed(Object(map[]), 403)
  {
    var j := Object(map["a" := Integer(1)]);
    assert ["a"][..0] == [] && ["a"][1..] == [] && ["b", "c"][..1] == ["b"];
    assert Get(j, ["a"]) == Ok(Integer(1));
    assert map["a" := Integer(1)] - {"a"} == map[];
    assert RemoveOp(j, ["a"]) == Done(Object(map[]));
    assert Get(Object(map[]), ["b"]) == Err(403);
  }
}
