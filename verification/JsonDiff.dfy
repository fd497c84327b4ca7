/** `diff`, and that applying its result to the source gives the target. */
module JsonDiff {
  import opened JsonText
  import opened JsonPointer
  import opened JsonPatch
  import opened JsonKeys

  // -------- The operations a diff is made of --------

  function Replacing(path: string, v: Json): Json {
    Object(map["op" := String("replace"), "path" := String(path), "value" := v])
  }

  function Removing(path: string): Json {
    Object(map["op" := String("remove"), "path" := String(path)])
  }

  function Adding(path: string, v: Json): Json {
    Object(map["op" := String("add"), "path" := String(path), "value" := v])
  }

  function Under(path: string, token: string): string {
    path + "/" + token
  }

  // -------- The diff as a function --------

  ghost function Diff(source: Json, target: Json, path: string): seq<Json>
    decreases source, 1, 0
  {
    if source == target then []
    else if source.Array? && target.Array? then
      var common := if |source.a| < |target.a| then |source.a| else |target.a|;
      DiffItems(source, target, path, common)
      + Removes(path, |source.a|, common)
      + Appends(path, target.a[common..])
    else if source.Object? && target.Object? then
      SortedOk(source.m.Keys);
      SortedOk(target.m.Keys);
      DiffKeys(source, target, path, Sorted(source.m.Keys)) + AddKeys(source, target, path, Sorted(target.m.Keys))
    else [Replacing(path, target)]
  }

  /** The first `n` items, compared one by one. */
  ghost function DiffItems(source: Json, target: Json, path: string, n: nat): seq<Json>
    requires source.Array? && target.Array? && n <= |source.a| && n <= |target.a|
    decreases source, 0, n
  {
    if n == 0 then []
    else DiffItems(source, target, path, n - 1) + Diff(source.a[n - 1], target.a[n - 1], Under(path, ToString(n - 1)))
  }

  /** Removes the items from `n - 1` down to `m`. */
  function Removes(path: string, n: nat, m: nat): seq<Json>
    requires m <= n
  {
    if n == m then [] else [Removing(Under(path, ToString(n - 1)))] + Removes(path, n - 1, m)
  }

  function Appends(path: string, vs: seq<Json>): seq<Json> {
    if vs == [] then [] else Appends(path, vs[..|vs| - 1]) + [Adding(Under(path, "-"), vs[|vs| - 1])]
  }

  /** What happens to the key `k` of the source. */
  ghost function DiffKey(source: Json, target: Json, path: string, k: string): seq<Json>
    requires source.Object? && target.Object? && k in source.m
    decreases source, 0, 0
  {
    if k in target.m then Diff(source.m[k], target.m[k], Under(path, Escape(k))) else [Removing(Under(path, Escape(k)))]
  }

  ghost function DiffKeys(source: Json, target: Json, path: string, keys: seq<string>): seq<Json>
    requires source.Object? && target.Object? && forall k :: k in keys ==> k in source.m
    decreases source, 0, |keys|
  {
    if keys == [] then []
    else DiffKeys(source, target, path, keys[..|keys| - 1]) + DiffKey(source, target, path, keys[|keys| - 1])
  }

  /** What happens for the key `k` of the target. */
  function AddKey(source: Json, target: Json, path: string, k: string): seq<Json>
    requires source.Object? && target.Object? && k in target.m
  {
    if k in source.m then [] else [Adding(Under(path, Escape(k)), target.m[k])]
  }

  function AddKeys(source: Json, target: Json, path: string, keys: seq<string>): seq<Json>
    requires source.Object? && target.Object? && forall k :: k in keys ==> k in target.m
  {
    if keys == [] then []
    else AddKeys(source, target, path, keys[..|keys| - 1]) + AddKey(source, target, path, keys[|keys| - 1])
  }

  // -------- Documents that fit in memory --------

  /** No array has as many items as a 64-bit size cannot count. */
  predicate Fits(j: Json) {
    match j
    case Array(a) => |a| <= SIZE_MAX && forall i :: 0 <= i < |a| ==> Fits(a[i])
    case Object(m) => forall k :: k in m ==> Fits(m[k])
    case _ => true
  }

  // -------- Places --------

  /** The documents `c(v)` have `v` at `path`, and assigning there changes nothing else. */
  ghost predicate Place(c: Json -> Json, path: string) {
    forall v {:trigger At(c, path, v)} :: At(c, path, v)
  }

  ghost predicate At(c: Json -> Json, path: string, v: Json) {
    && Split(path).Ok? && Get(c(v), Split(path).value) == Ok(v)
    && forall w :: With(c(v), Split(path).value, w) == c(w)
  }

  lemma PathUnder(path: string, token: string)
    requires Split(path).Ok?
    ensures Split(Under(path, Escape(token))) == Ok(Split(path).value + [token])
  {
    var ts := Split(path).value;
    PrintSplit(path);
    PrintAppend(ts, token);
    SplitPrint(ts + [token]);
  }

  lemma Below(c: Json -> Json, c': Json -> Json, path: string, now: Json, token: string)
    requires Place(c, path) && Child(now, token).Ok?
    requires forall x :: c'(x) == c(SetChild(now, token, x))
    ensures Place(c', Under(path, Escape(token)))
  {
    forall v
      ensures At(c', Under(path, Escape(token)), v)
    {
      var inner := SetChild(now, token, v);
      ChildOfSet(now, token, v);
      assert At(c, path, inner);
      PathUnder(path, token);
      var ts := Split(path).value;
      GetAppend(c(inner), ts, [token]);
      assert [token][1..] == [];
      forall w
        ensures With(c'(v), ts + [token], w) == c'(w)
      {
        WithAppend(c(inner), ts, [token], w);
      }
    }
  }

  // -------- Single operations --------

  lemma TakesReplacing(c: Json -> Json, path: string, u: Json, v: Json)
    requires Place(c, path)
    ensures Takes(c(u), [Replacing(path, v)], c(v))
  {
    assert At(c, path, u);
    TakesOne(c(u), Replacing(path, v), c(v));
  }

  lemma TakesRemoving(c: Json -> Json, path: string, v: Json, token: string)
    requires Place(c, path) && RemoveChild(v, token).Done?
    ensures Takes(c(v), [Removing(Under(path, Escape(token)))], c(RemoveChild(v, token).doc))
  {
    assert At(c, path, v);
    PathUnder(path, token);
    var ts, v' := Split(path).value, RemoveChild(v, token).doc;
    assert (ts + [token])[..|ts|] == ts;
    assert RemoveOp(c(v), ts + [token]) == Done(c(v'));
    TakesOne(c(v), Removing(Under(path, Escape(token))), c(v'));
  }

  lemma TakesAdding(c: Json -> Json, path: string, v: Json, token: string, w: Json)
    requires Place(c, path) && AddChild(v, token, w).Done?
    ensures Takes(c(v), [Adding(Under(path, Escape(token)), w)], c(AddChild(v, token, w).doc))
  {
    assert At(c, path, v);
    PathUnder(path, token);
    AddsThere(c, path, v, token, w);
    AddingAdds(c(v), Under(path, Escape(token)), w, Split(path).value + [token]);
    TakesOne(c(v), Adding(Under(path, Escape(token)), w), c(AddChild(v, token, w).doc));
  }

  lemma AddingAdds(j: Json, path: string, w: Json, tokens: seq<string>)
    requires Split(path) == Ok(tokens)
    ensures Apply(j, Adding(path, w)) == AddOp(j, tokens, w)
  {
  }

  lemma AddsThere(c: Json -> Json, path: string, v: Json, token: string, w: Json)
    requires At(c, path, v) && AddChild(v, token, w).Done?
    ensures AddOp(c(v), Split(path).value + [token], w) == Done(c(AddChild(v, token, w).doc))
  {
    var ts := Split(path).value;
    var at := ts + [token];
    assert at[..|ts|] == ts;
    if ts != [] {
      assert at[..1] == ts[..1];
      FirstThere(c(v), ts);
    }
  }

  // -------- The theorem, place by place --------

  /** At any place, the diff of `source` and `target` turns the one into the other. */
  lemma {:induction false} DiffAt(c: Json -> Json, path: string, source: Json, target: Json)
    requires Place(c, path) && Fits(source)
    ensures Takes(c(source), Diff(source, target, path), c(target))
    decreases source, 1, 0
  {
    if source == target {
      TakesNone(c(source));
    } else if source.Array? && target.Array? {
      DiffArrays(c, path, source, target);
    } else if source.Object? && target.Object? {
      DiffObjects(c, path, source, target);
    } else {
      TakesReplacing(c, path, source, target);
    }
  }

  lemma {:induction false} DiffArrays(c: Json -> Json, path: string, source: Json, target: Json)
    requires Place(c, path) && Fits(source) && source.Array? && target.Array? && source != target
    ensures Takes(c(source), Diff(source, target, path), c(target))
    decreases source, 0, SIZE_MAX + 1
  {
    var s, t := source.a, target.a;
    var common := if |s| < |t| then |s| else |t|;
    var mixed := t[..common] + s[common..];
    assert mixed[..|s|] == mixed && mixed[..common] == t[..common] && t[..common] + t[common..] == t;
    ItemsAt(c, path, source, target, common);
    RemovesAt(c, path, mixed, |s|, common);
    AppendsAt(c, path, t[..common], t[common..]);
    var items, removes, appends := DiffItems(source, target, path, common), Removes(path, |s|, common),
        Appends(path, t[common..]);
    TakesAppend(c(source), items, c(Array(mixed)), removes, c(Array(t[..common])));
    TakesAppend(c(source), items + removes, c(Array(t[..common])), appends, c(target));
  }

  /** The first `n` items taken over from `t`, one after the other. */
  lemma TakenOver(s: seq<Json>, t: seq<Json>, n: nat)
    requires 0 < n <= |s| && n <= |t|
    ensures var now := t[..n - 1] + s[n - 1..];
            now[n - 1 := s[n - 1]] == now && now[n - 1 := t[n - 1]] == t[..n] + s[n..]
  {
  }

  lemma {:induction false} ItemsAt(c: Json -> Json, path: string, source: Json, target: Json, n: nat)
    requires Place(c, path) && Fits(source) && source.Array? && target.Array?
    requires n <= |source.a| && n <= |target.a|
    ensures Takes(c(source), DiffItems(source, target, path, n), c(Array(target.a[..n] + source.a[n..])))
    decreases source, 0, n
  {
    if n == 0 {
      assert target.a[..0] + source.a[0..] == source.a;
      TakesNone(c(source));
    } else {
      var i := n - 1;
      var now := target.a[..i] + source.a[i..];
      ItemsAt(c, path, source, target, i);
      var c' := (x: Json) => c(Array(now[i := x]));
      ItemPlace(c, c', path, now, i);
      DiffAt(c', Under(path, ToString(i)), source.a[i], target.a[i]);
      TakenOver(source.a, target.a, n);
      TakesAppend(c(source), DiffItems(source, target, path, i), c(Array(now)),
                  Diff(source.a[i], target.a[i], Under(path, ToString(i))), c'(target.a[i]));
    }
  }

  lemma ItemPlace(c: Json -> Json, c': Json -> Json, path: string, now: seq<Json>, i: nat)
    requires Place(c, path) && i < |now| <= SIZE_MAX
    requires forall x :: c'(x) == c(Array(now[i := x]))
    ensures Place(c', Under(path, ToString(i)))
  {
    IndexToString(i);
    EscapePlain(ToString(i));
    Below(c, c', path, Array(now), ToString(i));
  }

  lemma {:induction false} RemovesAt(c: Json -> Json, path: string, items: seq<Json>, n: nat, m: nat)
    requires Place(c, path) && m <= n <= |items| <= SIZE_MAX
    ensures Takes(c(Array(items[..n])), Removes(path, n, m), c(Array(items[..m])))
    decreases n
  {
    if m < n {
      var i := n - 1;
      RemovesAt(c, path, items, i, m);
      RemoveLast(c, path, items, i);
      TakesAppend(c(Array(items[..n])), [Removing(Under(path, ToString(i)))], c(Array(items[..i])),
                  Removes(path, i, m), c(Array(items[..m])));
    } else {
      TakesNone(c(Array(items[..n])));
    }
  }

  lemma RemoveLast(c: Json -> Json, path: string, items: seq<Json>, i: nat)
    requires Place(c, path) && i < |items| <= SIZE_MAX
    ensures Takes(c(Array(items[..i + 1])), [Removing(Under(path, ToString(i)))], c(Array(items[..i])))
  {
    IndexToString(i);
    EscapePlain(ToString(i));
    assert items[..i + 1][..i] + items[..i + 1][i + 1..] == items[..i];
    TakesRemoving(c, path, Array(items[..i + 1]), ToString(i));
  }

  lemma {:induction false} AppendsAt(c: Json -> Json, path: string, items: seq<Json>, vs: seq<Json>)
    requires Place(c, path)
    ensures Takes(c(Array(items)), Appends(path, vs), c(Array(items + vs)))
    decreases |vs|
  {
    if vs == [] {
      assert items + vs == items;
      TakesNone(c(Array(items)));
    } else {
      var init, last := vs[..|vs| - 1], vs[|vs| - 1];
      AppendsAt(c, path, items, init);
      EscapePlain("-");
      TakesAdding(c, path, Array(items + init), "-", last);
      assert (items + init) + [last] == items + vs;
      TakesAppend(c(Array(items)), Appends(path, init), c(Array(items + init)),
                  [Adding(Under(path, "-"), last)], c(Array(items + vs)));
    }
  }

  /** The object after the keys `done` of the source have been dealt with. */
  ghost function Midway(source: map<string, Json>, target: map<string, Json>, done: set<string>): map<string, Json> {
    map k | k in source && !(k in done && k !in target) :: if k in done then target[k] else source[k]
  }

  /** The object after the keys `done` of the target have been dealt with as well. */
  ghost function Nearly(source: map<string, Json>, target: map<string, Json>, done: set<string>): map<string, Json> {
    map k | k in target && (k in source || k in done) :: target[k]
  }

  lemma MidwayEnds(source: map<string, Json>, target: map<string, Json>)
    ensures Midway(source, target, {}) == source
    ensures Midway(source, target, source.Keys) == Nearly(source, target, {})
    ensures Nearly(source, target, target.Keys) == target
  {
  }

  lemma MidwayStep(source: map<string, Json>, target: map<string, Json>, done: set<string>, k: string)
    requires k in source && k !in done
    ensures var now := Midway(source, target, done);
            && k in now && now[k] == source[k]
            && Midway(source, target, done + {k}) == if k in target then now[k := target[k]] else now - {k}
  {
  }

  lemma NearlyStep(source: map<string, Json>, target: map<string, Json>, done: set<string>, k: string)
    requires k in target
    ensures Nearly(source, target, done + {k}) ==
            if k in source then Nearly(source, target, done) else Nearly(source, target, done)[k := target[k]]
  {
  }

  lemma {:induction false} DiffObjects(c: Json -> Json, path: string, source: Json, target: Json)
    requires Place(c, path) && Fits(source) && source.Object? && target.Object? && source != target
    ensures Takes(c(source), Diff(source, target, path), c(target))
    decreases source, 0, |source.m.Keys| + 1
  {
    var sk, tk := Sorted(source.m.Keys), Sorted(target.m.Keys);
    SortedOk(source.m.Keys);
    SortedOk(target.m.Keys);
    SortedSize(source.m.Keys);
    assert Elements(sk) == source.m.Keys && Elements(tk) == target.m.Keys;
    MidwayEnds(source.m, target.m);
    KeysAt(c, path, source, target, sk);
    AddsAt(c, path, source, target, tk);
    TakesAppend(c(source), DiffKeys(source, target, path, sk), c(Object(Nearly(source.m, target.m, {}))),
                AddKeys(source, target, path, tk), c(target));
  }

  lemma {:induction false} KeysAt(c: Json -> Json, path: string, source: Json, target: Json, keys: seq<string>)
    requires Place(c, path) && Fits(source) && source.Object? && target.Object?
    requires forall k :: k in keys ==> k in source.m
    requires forall i, j :: 0 <= i < j < |keys| ==> keys[i] != keys[j]
    ensures Takes(c(source), DiffKeys(source, target, path, keys),
            c(Object(Midway(source.m, target.m, Elements(keys)))))
    decreases source, 0, |keys|
  {
    if keys == [] {
      assert Elements(keys) == {};
      MidwayEnds(source.m, target.m);
      TakesNone(c(source));
    } else {
      var init, k := keys[..|keys| - 1], keys[|keys| - 1];
      KeysAt(c, path, source, target, init);
      assert Elements(keys) == Elements(init) + {k} && k !in Elements(init);
      KeyAt(c, path, source, target, Elements(init), k);
      TakesAppend(c(source), DiffKeys(source, target, path, init),
                  c(Object(Midway(source.m, target.m, Elements(init)))),
                  DiffKey(source, target, path, k), c(Object(Midway(source.m, target.m, Elements(keys)))));
    }
  }

  lemma {:induction false} KeyAt(c: Json -> Json, path: string, source: Json, target: Json, done: set<string>,
      k: string)
    requires Place(c, path) && Fits(source) && source.Object? && target.Object?
    requires k in source.m && k !in done
    ensures Takes(c(Object(Midway(source.m, target.m, done))), DiffKey(source, target, path, k),
                  c(Object(Midway(source.m, target.m, done + {k}))))
    decreases source, 0, 0
  {
    var now := Midway(source.m, target.m, done);
    MidwayStep(source.m, target.m, done, k);
    if k in target.m {
      var c' := (x: Json) => c(Object(now[k := x]));
      Below(c, c', path, Object(now), k);
      DiffAt(c', Under(path, Escape(k)), source.m[k], target.m[k]);
      assert now[k := source.m[k]] == now;
    } else {
      TakesRemoving(c, path, Object(now), k);
    }
  }

  lemma {:induction false} AddsAt(c: Json -> Json, path: string, source: Json, target: Json, keys: seq<string>)
    requires Place(c, path) && source.Object? && target.Object?
    requires forall k :: k in keys ==> k in target.m
    ensures Takes(c(Object(Nearly(source.m, target.m, {}))), AddKeys(source, target, path, keys),
                  c(Object(Nearly(source.m, target.m, Elements(keys)))))
    decreases |keys|
  {
    var from := c(Object(Nearly(source.m, target.m, {})));
    if keys == [] {
      assert Elements(keys) == {};
      TakesNone(from);
    } else {
      var init, k := keys[..|keys| - 1], keys[|keys| - 1];
      AddsAt(c, path, source, target, init);
      assert Elements(keys) == Elements(init) + {k};
      AddAt(c, path, source, target, Elements(init), k);
      TakesAppend(from, AddKeys(source, target, path, init), c(Object(Nearly(source.m, target.m, Elements(init)))),
                  AddKey(source, target, path, k), c(Object(Nearly(source.m, target.m, Elements(keys)))));
    }
  }

  lemma AddAt(c: Json -> Json, path: string, source: Json, target: Json, done: set<string>, k: string)
    requires Place(c, path) && source.Object? && target.Object? && k in target.m
    ensures Takes(c(Object(Nearly(source.m, target.m, done))), AddKey(source, target, path, k),
                  c(Object(Nearly(source.m, target.m, done + {k}))))
  {
    NearlyStep(source.m, target.m, done, k);
    if k in source.m {
      TakesNone(c(Object(Nearly(source.m, target.m, done))));
    } else {
      TakesAdding(c, path, Object(Nearly(source.m, target.m, done)), k, target.m[k]);
    }
  }

  /** Patching the source with the diff gives the target, and no operation fails. */
  lemma PatchDiff(source: Json, target: Json)
    requires Fits(source)
    ensures Patch(source, Array(Diff(source, target, ""))) == Done(target)
  {
    var c := (x: Json) => x;
    forall v
      ensures At(c, "", v)
    {
      assert Split("").value == [];
    }
    DiffAt(c, "", source, target);
    TakesRuns(source, Diff(source, target, ""), target);
  }

  // -------- The diff as the program computes it --------

  /** `diff`: accumulates the operations in one array. */
  method ComputeDiff(source: Json, target: Json, path: string) returns (result: seq<Json>)
    ensures result == Diff(source, target, path)
    decreases source, 1
  {
    if source == target {
      return [];
    }
    if source.Array? && target.Array? {
      result := DiffTwoArrays(source, target, path);
    } else if source.Object? && target.Object? {
      result := DiffTwoObjects(source, target, path);
    } else {
      result := [Replacing(path, target)];
    }
  }

  method DiffTwoArrays(source: Json, target: Json, path: string) returns (result: seq<Json>)
    requires source.Array? && target.Array? && source != target
    ensures result == Diff(source, target, path)
    decreases source, 0, 1
  {
    result := [];
    var i := 0;
    while i < |source.a| && i < |target.a|
      invariant i <= |source.a| && i <= |target.a|
      invariant result == DiffItems(source, target, path, i)
    {
      var part := ComputeDiff(source.a[i], target.a[i], path + "/" + ToString(i));
      result := result + part;
      i := i + 1;
    }
    assert i == if |source.a| < |target.a| then |source.a| else |target.a|;
    result := RemoveRest(result, path, i, |source.a|);
    result := AppendRest(result, path, target.a, i);
  }

  /** Each removal goes in front of those before it. */
  method RemoveRest(items: seq<Json>, path: string, from: nat, size: nat) returns (result: seq<Json>)
    requires from <= size
    ensures result == items + Removes(path, size, from)
  {
    result := items;
    var endIndex := |result|;
    for i := from to size
      invariant result == items + Removes(path, i, from)
    {
      InsertAt(items, Removes(path, i, from), Removing(path + "/" + ToString(i)));
      result := result[..endIndex] + [Removing(path + "/" + ToString(i))] + result[endIndex..];
    }
  }

  lemma InsertAt(a: seq<Json>, b: seq<Json>, x: Json)
    ensures (a + b)[..|a|] + [x] + (a + b)[|a|..] == a + ([x] + b)
  {
  }

  lemma DashUnder(path: string)
    ensures path + "/-" == Under(path, "-")
  {
    assert "/-" == "/" + "-";
    Assoc(path, "/", "-");
  }

  method AppendRest(items: seq<Json>, path: string, vs: seq<Json>, from: nat) returns (result: seq<Json>)
    requires from <= |vs|
    ensures result == items + Appends(path, vs[from..])
  {
    result := items;
    for i := from to |vs|
      invariant result == items + Appends(path, vs[from..i])
    {
      ghost var next := vs[from..i + 1];
      assert next[..|next| - 1] == vs[from..i] && next[|next| - 1] == vs[i];
      DashUnder(path);
      result := result + [Adding(path + "/-", vs[i])];
    }
    assert vs[from..|vs|] == vs[from..];
  }

  method DiffTwoObjects(source: Json, target: Json, path: string) returns (result: seq<Json>)
    requires source.Object? && target.Object? && source != target
    ensures result == Diff(source, target, path)
    decreases source, 0, 1
  {
    SortedOk(source.m.Keys);
    SortedOk(target.m.Keys);
    var keys := SortedKeys(source.m.Keys);
    result := [];
    for n := 0 to |keys|
      invariant result == DiffKeys(source, target, path, keys[..n])
    {
      var part := DiffOneKey(source, target, path, keys[n]);
      result := result + part;
      assert keys[..n + 1][..n] == keys[..n];
    }
    assert keys[..|keys|] == keys;
    var added := AddNewKeys(source, target, path);
    result := result + added;
  }

  method DiffOneKey(source: Json, target: Json, path: string, key: string) returns (part: seq<Json>)
    requires source.Object? && target.Object? && key in source.m
    ensures part == DiffKey(source, target, path, key)
    decreases source, 0, 0
  {
    var escaped := EscapeInPlace(key);
    var pathKey := path + "/" + escaped;
    if key in target.m {
      part := ComputeDiff(source.m[key], target.m[key], pathKey);
    } else {
      part := [Removing(pathKey)];
    }
  }

  method AddNewKeys(source: Json, target: Json, path: string) returns (result: seq<Json>)
    requires source.Object? && target.Object?
    ensures forall k :: k in Sorted(target.m.Keys) ==> k in target.m
    ensures result == AddKeys(source, target, path, Sorted(target.m.Keys))
  {
    SortedOk(target.m.Keys);
    var keys := SortedKeys(target.m.Keys);
    result := [];
    for n := 0 to |keys|
      invariant result == AddKeys(source, target, path, keys[..n])
    {
      var part := AddOneKey(source, target, path, keys[n]);
      result := result + part;
      assert keys[..n + 1][..n] == keys[..n];
    }
    assert keys[..|keys|] == keys;
  }

  method AddOneKey(source: Json, target: Json, path: string, key: string) returns (part: seq<Json>)
    requires source.Object? && target.Object? && key in target.m
    ensures part == AddKey(source, target, path, key)
  {
    part := [];
    if key !in source.m {
      var escaped := EscapeInPlace(key);
      part := [Adding(path + "/" + escaped, target.m[key])];
    }
  }
}
