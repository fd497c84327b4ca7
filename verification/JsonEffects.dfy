/** What the operations of a patch do, told by what is where afterwards, for every
    operation as it stands in a patch (RFC 6902, section 4). */
module JsonEffects {
  import opened JsonText
  import opened JsonPointer
  import opened JsonPatch
  import opened JsonOperations

  // -------- Array indices --------

  lemma {:induction false} LeadingDigit(s: string)
    requires s != "" && s[0] != '0' && forall i :: 0 <= i < |s| ==> Digit(s[i])
    ensures Value(s) >= 1
  {
    if |s| > 1 {
      LeadingDigit(s[..|s| - 1]);
    }
  }

  /** A decimal number without leading zeros is the only one of its value. */
  lemma {:induction false} ToStringValue(s: string)
    requires s != "" && (|s| > 1 ==> s[0] != '0') && forall i :: 0 <= i < |s| ==> Digit(s[i])
    ensures ToString(Value(s)) == s
  {
    var init, last := s[..|s| - 1], s[|s| - 1];
    assert Digit(last) && s == init + [last];
    if |s| == 1 {
      assert Value(init) == 0;
    } else {
      LeadingDigit(init);
      ToStringValue(init);
      AppendedDigit(Value(init), last);
    }
  }

  lemma AppendedDigit(n: nat, c: char)
    requires n > 0 && Digit(c)
    ensures ToString(10 * n + (c as int - '0' as int)) == ToString(n) + [c]
  {
    var d := c as int - '0' as int;
    assert (10 * n + d) / 10 == n && (10 * n + d) % 10 == d && '0' + d as char == c;
  }

  /** The decimal digits of a number, the lowest last. */
  lemma DecimalDigits(n: nat, d: nat)
    requires d <= 9
    ensures ToString(d) == ["0123456789"[d]]
    ensures n > 0 ==> ToString(10 * n + d) == ToString(n) + ["0123456789"[d]]
  {
    assert "0123456789"[d] == '0' + d as char;
    assert (10 * n + d) / 10 == n && (10 * n + d) % 10 == d;
  }

  /** The tokens that are indices, each of one item only. */
  lemma IndexIff(s: string, i: nat)
    ensures ArrayIndex(s) == Ok(i) <==> s == ToString(i) && i < SIZE_MAX
  {
    IndexToString(i);
    if ArrayIndex(s) == Ok(i) {
      ToStringValue(s);
    }
  }

  /** Why a token is no index. */
  lemma IndexCodes(s: string)
    ensures |s| > 1 && s[0] == '0' ==> ArrayIndex(s) == Err(106)
    ensures |s| > 1 && !Digit(s[0]) ==> ArrayIndex(s) == Err(109)
    ensures |s| <= 1 && (s == "" || !Digit(s[0])) ==> ArrayIndex(s) == Err(404)
    ensures |s| > 1 && '1' <= s[0] <= '9' && (exists i :: 0 <= i < |s| && !Digit(s[i])) ==> ArrayIndex(s) == Err(404)
  {
  }

  ghost predicate IndexOf(s: string, i: nat) {
    s == ToString(i) && i < SIZE_MAX
  }

  /** What one more token leads to. */
  lemma GetNext(j: Json, ts: seq<string>, t: string)
    ensures var r := Get(j, ts + [t]);
            match Get(j, ts) {
              case Err(code) => r == Err(code)
              case Ok(Object(m)) => r == if t in m then Ok(m[t]) else Err(403)
              case Ok(Array(a)) =>
                && (t == "-" ==> r == Err(402))
                && (forall i: nat :: IndexOf(t, i) ==> r == if i < |a| then Ok(a[i]) else Err(401))
              case Ok(_) => r == Err(404) }
  {
    GetAppend(j, ts, [t]);
    assert [t][1..] == [];
    forall i: nat | IndexOf(t, i)
      ensures ArrayIndex(t) == Ok(i)
    {
      IndexIff(t, i);
    }
  }

  // -------- Places that have nothing to do with each other --------

  /** Neither place is inside the other. */
  predicate Apart(ts: seq<string>, us: seq<string>) {
    ts != [] && us != [] && (ts[0] != us[0] || Apart(ts[1..], us[1..]))
  }

  /** The documents agree about every place apart from `ts`. */
  ghost predicate SameApart(j: Json, j': Json, ts: seq<string>) {
    forall us :: Apart(ts, us) ==> Get(j', us) == Get(j, us)
  }

  lemma OtherChild(j: Json, t: string, w: Json, u: string)
    requires Child(j, t).Ok? && u != t
    ensures Child(SetChild(j, t, w), u) == Child(j, u)
  {
    if j.Array? && ArrayIndex(u).Ok? {
      IndexIff(t, ArrayIndex(t).value);
      IndexIff(u, ArrayIndex(u).value);
    }
  }

  lemma {:induction false} WithApart(j: Json, ts: seq<string>, v: Json, us: seq<string>)
    requires Get(j, ts).Ok? && Apart(ts, us)
    ensures Get(With(j, ts, v), us) == Get(j, us)
    decreases |ts|
  {
    var c := Child(j, ts[0]).value;
    var w := With(c, ts[1..], v);
    if ts[0] == us[0] {
      WithApart(c, ts[1..], v, us[1..]);
      ChildOfSet(j, ts[0], w);
    } else {
      OtherChild(j, ts[0], w, us[0]);
    }
  }

  lemma WithSame(j: Json, ts: seq<string>, v: Json)
    requires Get(j, ts).Ok?
    ensures SameApart(j, With(j, ts, v), ts)
  {
    forall us | Apart(ts, us)
      ensures Get(With(j, ts, v), us) == Get(j, us)
    {
      WithApart(j, ts, v, us);
    }
  }

  // -------- Adding, removing, replacing --------

  /** `q` is `p` with `v` added as member `last`, or inserted before item `last`. */
  ghost predicate ChildAdded(p: Json, q: Json, last: string, v: Json) {
    match p
    case Null => q == Object(map[last := v])
    case Object(m) => q == Object(m[last := v])
    case Array(a) => exists i: nat :: ItemAdded(a, q, last, v, i)
    case _ => false
  }

  ghost predicate ItemAdded(a: seq<Json>, q: Json, last: string, v: Json, i: nat) {
    i <= |a| && (last == ToString(i) || (last == "-" && i == |a|)) && q == Array(a[..i] + [v] + a[i..])
  }

  /** `q` is `p` without member `last`, or without item `last`; other values stay as they are. */
  ghost predicate ChildRemoved(p: Json, q: Json, last: string) {
    match p
    case Object(m) => last in m && q == Object(m - {last})
    case Array(a) => exists i: nat :: ItemRemoved(a, q, last, i)
    case _ => q == p
  }

  ghost predicate ItemRemoved(a: seq<Json>, q: Json, last: string, i: nat) {
    i < |a| && last == ToString(i) && q == Array(a[..i] + a[i + 1..])
  }

  /** `j'` is `j` with `v` added at `ts` and nothing else changed. */
  ghost predicate Added(j: Json, j': Json, ts: seq<string>, v: Json) {
    if ts == [] then j' == v
    else
      && Parent(j, ts).Ok? && Parent(j', ts).Ok?
      && ChildAdded(Parent(j, ts).value, Parent(j', ts).value, Last(ts), v)
      && SameApart(j, j', ts[..|ts| - 1])
  }

  ghost predicate Removed(j: Json, j': Json, ts: seq<string>) {
    && ts != [] && Parent(j, ts).Ok? && Parent(j', ts).Ok?
    && ChildRemoved(Parent(j, ts).value, Parent(j', ts).value, Last(ts))
    && SameApart(j, j', ts[..|ts| - 1])
  }

  ghost predicate Replaced(j: Json, j': Json, ts: seq<string>, v: Json) {
    Get(j, ts).Ok? && Get(j', ts) == Ok(v) && SameApart(j, j', ts)
  }

  lemma AddChildDoes(p: Json, last: string, v: Json)
    requires AddChild(p, last, v).Done?
    ensures ChildAdded(p, AddChild(p, last, v).doc, last, v)
  {
    if p.Array? {
      var i := if last == "-" then |p.a| else ArrayIndex(last).value;
      IndexIff(last, i);
      assert p.a[..|p.a|] == p.a && p.a + [v] + [] == p.a + [v];
      assert ItemAdded(p.a, AddChild(p, last, v).doc, last, v, i);
    }
  }

  lemma RemoveChildDoes(p: Json, last: string)
    requires RemoveChild(p, last).Done?
    ensures ChildRemoved(p, RemoveChild(p, last).doc, last)
  {
    if p.Array? {
      var i := ArrayIndex(last).value;
      IndexIff(last, i);
      assert ItemRemoved(p.a, RemoveChild(p, last).doc, last, i);
    }
  }

  lemma AddDoes(j: Json, ts: seq<string>, v: Json)
    requires AddOp(j, ts, v).Done?
    ensures Added(j, AddOp(j, ts, v).doc, ts, v)
  {
    if ts != [] {
      var p := Parent(j, ts).value;
      var q := AddChild(p, Last(ts), v).doc;
      AddChildDoes(p, Last(ts), v);
      GetLastOfWith(j, ts, q);
      WithSame(j, ts[..|ts| - 1], q);
    }
  }

  lemma RemoveDoes(j: Json, ts: seq<string>)
    requires RemoveOp(j, ts).Done?
    ensures Removed(j, RemoveOp(j, ts).doc, ts)
  {
    var p := Parent(j, ts).value;
    var q := RemoveChild(p, Last(ts)).doc;
    RemoveChildDoes(p, Last(ts));
    GetLastOfWith(j, ts, q);
    WithSame(j, ts[..|ts| - 1], q);
  }

  lemma ReplaceDoes(j: Json, ts: seq<string>, v: Json)
    requires ReplaceOp(j, ts, v).Done?
    ensures Replaced(j, ReplaceOp(j, ts, v).doc, ts, v)
  {
    ReplaceIsThere(j, ts, v);
    WithSame(j, ts, v);
  }

  /** A value can be added to null, to an object, and in an array before an item or
      behind the last one; the index has to be below the largest 64-bit number. */
  ghost predicate HasPlace(p: Json, last: string) {
    match p
    case Array(a) => last == "-" || exists i: nat :: IndexOf(last, i) && i <= |a|
    case _ => p.Null? || p.Object?
  }

  /** Adding succeeds for the whole document and where the parent is there and has such a place. */
  lemma AddAccepts(j: Json, ts: seq<string>, v: Json)
    ensures AddOp(j, ts, v).Done? <==> ts == [] || (Parent(j, ts).Ok? && HasPlace(Parent(j, ts).value, Last(ts)))
  {
    if ts != [] && Parent(j, ts).Ok? {
      if |ts| > 1 {
        FirstThere(j, ts[..|ts| - 1]);
        assert ts[..|ts| - 1][..1] == ts[..1];
      }
      PlaceIff(Parent(j, ts).value, Last(ts), v);
    }
  }

  lemma PlaceIff(p: Json, last: string, v: Json)
    ensures AddChild(p, last, v).Done? <==> HasPlace(p, last)
  {
    if p.Array? {
      if ArrayIndex(last).Ok? {
        IndexIff(last, ArrayIndex(last).value);
        assert IndexOf(last, ArrayIndex(last).value);
      }
      if i: nat :| IndexOf(last, i) && i <= |p.a| {
        IndexIff(last, i);
      }
      DashIsNoIndex();
    }
  }

  lemma DashIsNoIndex()
    ensures ArrayIndex("-") == Err(404)
  {
    assert !Digit("-"[0]);
  }

  /** Why adding below a parent fails: a bad index, an index behind the end, or no parent for children. */
  function AddCode(p: Json, last: string): int {
    if p.Array? then (match ArrayIndex(last) case Err(code) => code case Ok(_) => 401) else ASSERTION
  }

  function RemoveCode(p: Json, last: string): int {
    if p.Array? then (match ArrayIndex(last) case Err(code) => code case Ok(_) => 401) else 403
  }

  /** The first thing missing on the way gives the number; the separate look at the topmost token changes nothing. */
  lemma AddFails(j: Json, ts: seq<string>, v: Json)
    requires AddOp(j, ts, v).Failed?
    ensures ts != []
    ensures AddOp(j, ts, v).code == match Parent(j, ts) case Err(code) => code case Ok(p) => AddCode(p, Last(ts))
  {
    if |ts| > 1 && Get(j, ts[..1]).Err? {
      var parent := ts[..|ts| - 1];
      assert parent == ts[..1] + parent[1..];
      GetAppend(j, ts[..1], parent[1..]);
    }
  }

  lemma RemoveFails(j: Json, ts: seq<string>)
    requires RemoveOp(j, ts).Failed?
    ensures RemoveOp(j, ts).code ==
            if ts == [] then 405
            else match Parent(j, ts) case Err(code) => code case Ok(p) => RemoveCode(p, Last(ts))
  {
  }

  // -------- An element of a patch --------

  /** `op` asks for the operation `name` at `ts`; it may have other members besides. */
  predicate Says(op: Json, name: string, ts: seq<string>) {
    && op.Object?
    && "op" in op.m && op.m["op"] == String(name)
    && "path" in op.m && op.m["path"].String? && Split(op.m["path"].s) == Ok(ts)
  }

  predicate Gives(op: Json, v: Json) {
    op.Object? && "value" in op.m && op.m["value"] == v
  }

  predicate TakesFrom(op: Json, from: seq<string>) {
    op.Object? && "from" in op.m && op.m["from"].String? && Split(op.m["from"].s) == Ok(from)
  }

  lemma ApplyMoves(j: Json, op: Json, from: seq<string>, ts: seq<string>)
    requires Says(op, "move", ts) && TakesFrom(op, from)
    ensures Apply(j, op) == MoveOp(j, from, ts)
  {
  }

  lemma ApplyCopies(j: Json, op: Json, from: seq<string>, ts: seq<string>)
    requires Says(op, "copy", ts) && TakesFrom(op, from)
    ensures Apply(j, op) == CopyOp(j, from, ts)
  {
  }

  lemma OnePatch(j: Json, op: Json)
    ensures Patch(j, Array([op])) == Apply(j, op)
  {
    assert [op][0] == op && [op][1..] == [];
    assert forall doc :: ApplyAll(doc, []) == Done(doc);
    assert Array([op]).a == [op];
  }

  /** Elements are taken one after the other, until one fails. */
  lemma {:induction false} PatchAppend(j: Json, a: seq<Json>, b: seq<Json>)
    ensures Patch(j, Array(a + b)) == match Patch(j, Array(a)) {
              case Done(doc) => Patch(doc, Array(b))
              case Failed(doc, code) => Failed(doc, code) }
    decreases |a|
  {
    if a == [] {
      assert a + b == b;
    } else {
      assert (a + b)[1..] == a[1..] + b;
      var o := Apply(j, a[0]);
      if o.Done? {
        PatchAppend(o.doc, a[1..], b);
      }
    }
  }

  lemma PatchAdds(j: Json, op: Json, ts: seq<string>, v: Json)
    requires Says(op, "add", ts) && Gives(op, v)
    ensures var o := Patch(j, Array([op]));
            if o.Done? then Added(j, o.doc, ts, v) else o.doc == j
  {
    OnePatch(j, op);
    if AddOp(j, ts, v).Done? {
      AddDoes(j, ts, v);
    }
  }

  lemma PatchRemoves(j: Json, op: Json, ts: seq<string>)
    requires Says(op, "remove", ts)
    ensures var o := Patch(j, Array([op]));
            if o.Done? then Removed(j, o.doc, ts) else o.doc == j
  {
    OnePatch(j, op);
    if RemoveOp(j, ts).Done? {
      RemoveDoes(j, ts);
    }
  }

  lemma PatchReplaces(j: Json, op: Json, ts: seq<string>, v: Json)
    requires Says(op, "replace", ts) && Gives(op, v)
    ensures var o := Patch(j, Array([op]));
            && (o.Done? <==> Get(j, ts).Ok?)
            && (if o.Done? then Replaced(j, o.doc, ts, v) else o == Failed(j, Get(j, ts).code))
  {
    OnePatch(j, op);
    if Get(j, ts).Ok? {
      ReplaceDoes(j, ts, v);
    }
  }

  /** A move takes the value away from one place and adds it at the other; one that
      fails has done nothing or just taken it away. */
  lemma PatchMoves(j: Json, op: Json, from: seq<string>, ts: seq<string>) returns (rest: Json)
    requires Says(op, "move", ts) && TakesFrom(op, from)
    ensures var o := Patch(j, Array([op]));
            if o.Done? then
              Get(j, from).Ok? && Removed(j, rest, from) && Added(rest, o.doc, ts, Get(j, from).value)
            else if Get(j, from).Err? then
              o == Failed(j, Get(j, from).code)
            else
              o == Failed(j, 405) || (Removed(j, o.doc, from) && o == AddOp(o.doc, ts, Get(j, from).value))
  {
    rest := RemoveOp(j, from).doc;
    OnePatch(j, op);
    ApplyMoves(j, op, from, ts);
    MoveIsThere(j, from, ts);
    if RemoveOp(j, from).Done? && Get(j, from).Ok? {
      RemoveDoes(j, from);
      if AddOp(rest, ts, Get(j, from).value).Done? {
        AddDoes(rest, ts, Get(j, from).value);
      }
    }
  }

  /** A copy adds the value found at one place at the other and takes nothing away. */
  lemma PatchCopies(j: Json, op: Json, from: seq<string>, ts: seq<string>)
    requires Says(op, "copy", ts) && TakesFrom(op, from)
    ensures var o := Patch(j, Array([op]));
            if o.Done? then
              Get(j, from).Ok? && Added(j, o.doc, ts, Get(j, from).value)
            else if Get(j, from).Err? then
              o == Failed(j, Get(j, from).code)
            else
              o.doc == j && o == AddOp(j, ts, Get(j, from).value)
  {
    OnePatch(j, op);
    ApplyCopies(j, op, from, ts);
    if CopyOp(j, from, ts).Done? {
      AddDoes(j, ts, Get(j, from).value);
    }
  }

  lemma PatchTests(j: Json, op: Json, ts: seq<string>, v: Json)
    requires Says(op, "test", ts) && Gives(op, v)
    ensures var o := Patch(j, Array([op]));
            && o.doc == j && (o.Done? <==> Get(j, ts) == Ok(v))
            && (o.Failed? ==> o.code == if Get(j, ts) in {Err(106), Err(109)} then Get(j, ts).code else 501)
  {
    OnePatch(j, op);
    TestIff(j, ts, v);
  }

  /** What is no operation fails and changes nothing. */
  lemma PatchRejects(j: Json, op: Json)
    ensures var o := Patch(j, Array([op]));
            && (!op.Object? ==> o == Failed(j, 104))
            && (op.Object? && !(HasText(op, "op") && HasText(op, "path")) ==> o == Failed(j, 105))
  {
    OnePatch(j, op);
  }

  lemma PatchNoArray(j: Json, patch: Json)
    requires !patch.Array?
    ensures Patch(j, patch) == Failed(j, 104)
  {
  }

  /** Neither does an operation of another name, or one without the member it needs. */
  lemma PatchLacks(j: Json, op: Json, name: string, ts: seq<string>)
    requires Says(op, name, ts)
    ensures var o := Patch(j, Array([op]));
            && (name !in ["add", "remove", "replace", "move", "copy", "test"] ==> o == Failed(j, 105))
            && (name in ["add", "replace", "test"] && "value" !in op.m ==> o == Failed(j, 105))
            && (name in ["move", "copy"] && !HasText(op, "from") ==> o == Failed(j, 105))
  {
    OnePatch(j, op);
  }

  predicate HasText(op: Json, name: string)
    requires op.Object?
  {
    name in op.m && op.m[name].String?
  }

  /** A bad pointer fails with the number that reading it gives. */
  lemma PatchBadPointer(j: Json, op: Json)
    requires op.Object? && HasText(op, "op") && HasText(op, "path")
    ensures var path: string, o := op.m["path"].s, Patch(j, Array([op]));
            Split(path).Err? ==> o == Failed(j, Split(path).code)
  {
    OnePatch(j, op);
  }

  lemma PatchBadSource(j: Json, op: Json, name: string, ts: seq<string>)
    requires Says(op, name, ts) && name in ["move", "copy"] && HasText(op, "from")
    ensures var from: string, o := op.m["from"].s, Patch(j, Array([op]));
            Split(from).Err? ==> o == Failed(j, Split(from).code)
  {
    OnePatch(j, op);
  }
}
