/** Where a diff makes its changes: only where the two documents differ, and as deep down as they do. */
module JsonDiffPlaces {
  import opened JsonText
  import opened JsonPointer
  import opened JsonPatch
  import opened JsonKeys
  import opened JsonDiff

  /** Values that have to be replaced as a whole. */
  predicate Clash(v: Json, w: Json) {
    v != w && !(v.Array? && w.Array?) && !(v.Object? && w.Object?)
  }

  /** The operation is made at `ts` below `path`: it replaces a value by one it clashes
      with, removes a value where the target has none, or adds one where the source has none. */
  ghost predicate Fit(op: Json, source: Json, target: Json, path: string, ts: seq<string>) {
    var place := path + Print(ts);
    var was, now := Get(source, ts), Get(target, ts);
    || (was.Ok? && now.Ok? && Clash(was.value, now.value) && op == Replacing(place, now.value))
    || (was.Ok? && now.Err? && op == Removing(place))
    || (was.Err? && (exists v :: op == Adding(place, v)) && (now.Ok? ==> op == Adding(place, now.value)))
  }

  ghost predicate Needed(op: Json, source: Json, target: Json, path: string) {
    exists ts :: Fit(op, source, target, path, ts)
  }

  ghost predicate AllNeeded(ops: seq<Json>, source: Json, target: Json, path: string) {
    forall op :: op in ops ==> Needed(op, source, target, path)
  }

  lemma PrintFirst(token: string, ts: seq<string>)
    ensures Print([token] + ts) == "/" + Escape(token) + Print(ts)
  {
    assert EscapeAll([token] + ts) == [Escape(token)] + EscapeAll(ts);
    JoinHead(Escape(token), EscapeAll(ts));
  }

  lemma PlaceBelow(path: string, token: string, ts: seq<string>)
    ensures Under(path, Escape(token)) + Print(ts) == path + Print([token] + ts)
  {
    PrintFirst(token, ts);
    assert (path + "/" + Escape(token)) + Print(ts) == path + ("/" + Escape(token) + Print(ts));
  }

  /** What fits a child fits the whole. */
  lemma FitBelow(op: Json, source: Json, target: Json, path: string, token: string, ts: seq<string>)
    requires Child(source, token).Ok? && Child(target, token).Ok?
    requires Fit(op, Child(source, token).value, Child(target, token).value, Under(path, Escape(token)), ts)
    ensures Needed(op, source, target, path)
  {
    PlaceBelow(path, token, ts);
    assert ([token] + ts)[1..] == ts && ([token] + ts)[0] == token;
    assert Fit(op, source, target, path, [token] + ts);
  }

  lemma NeededBelow(ops: seq<Json>, source: Json, target: Json, path: string, token: string)
    requires Child(source, token).Ok? && Child(target, token).Ok?
    requires AllNeeded(ops, Child(source, token).value, Child(target, token).value, Under(path, Escape(token)))
    ensures AllNeeded(ops, source, target, path)
  {
    forall op | op in ops
      ensures Needed(op, source, target, path)
    {
      assert Needed(op, Child(source, token).value, Child(target, token).value, Under(path, Escape(token)));
      var ts :| Fit(op, Child(source, token).value, Child(target, token).value, Under(path, Escape(token)), ts);
      FitBelow(op, source, target, path, token, ts);
    }
  }

  lemma GetOne(j: Json, token: string)
    ensures Get(j, [token]) == Child(j, token)
  {
    assert [token][0] == token && [token][1..] == [];
    if Child(j, token).Ok? {
      assert Get(Child(j, token).value, []) == Child(j, token);
    }
  }

  /** An operation at the child `token`, which only one of the documents has. */
  lemma NeededAt(op: Json, source: Json, target: Json, path: string, token: string)
    requires var place, was, now := Under(path, Escape(token)), Child(source, token), Child(target, token);
             || (was.Ok? && now.Err? && op == Removing(place))
             || (was.Err? && (exists v :: op == Adding(place, v)) && (now.Ok? ==> op == Adding(place, now.value)))
    ensures AllNeeded([op], source, target, path)
  {
    PlaceBelow(path, token, []);
    assert [token] + [] == [token];
    assert Print([]) == "" && Under(path, Escape(token)) + "" == Under(path, Escape(token));
    GetOne(source, token);
    GetOne(target, token);
    assert Fit(op, source, target, path, [token]);
  }

  /** Every operation of a diff is needed. */
  lemma {:induction false} DiffNeeded(source: Json, target: Json, path: string)
    requires Fits(source) && Fits(target)
    ensures AllNeeded(Diff(source, target, path), source, target, path)
    decreases source, 1, 0
  {
    if source == target {
    } else if source.Array? && target.Array? {
      var common := if |source.a| < |target.a| then |source.a| else |target.a|;
      ItemsNeeded(source, target, path, common);
      RemovesNeeded(source, target, path, |source.a|, common);
      AppendsNeeded(source, target, path, target.a[common..]);
    } else if source.Object? && target.Object? {
      SortedOk(source.m.Keys);
      SortedOk(target.m.Keys);
      KeysNeeded(source, target, path, Sorted(source.m.Keys));
      AddsNeeded(source, target, path, Sorted(target.m.Keys));
    } else {
      assert path + Print([]) == path;
      assert Fit(Replacing(path, target), source, target, path, []);
    }
  }

  lemma {:induction false} ItemsNeeded(source: Json, target: Json, path: string, n: nat)
    requires Fits(source) && Fits(target) && source.Array? && target.Array? && n <= |source.a| && n <= |target.a|
    ensures AllNeeded(DiffItems(source, target, path, n), source, target, path)
    decreases source, 0, n
  {
    if n > 0 {
      var i := n - 1;
      ItemsNeeded(source, target, path, i);
      IndexToString(i);
      EscapePlain(ToString(i));
      DiffNeeded(source.a[i], target.a[i], Under(path, ToString(i)));
      NeededBelow(Diff(source.a[i], target.a[i], Under(path, ToString(i))), source, target, path, ToString(i));
    }
  }

  lemma {:induction false} RemovesNeeded(source: Json, target: Json, path: string, n: nat, m: nat)
    requires Fits(source) && source.Array? && target.Array? && m <= n <= |source.a| && (n == m || |target.a| <= m)
    ensures AllNeeded(Removes(path, n, m), source, target, path)
    decreases n
  {
    if m < n {
      var i := n - 1;
      RemovesNeeded(source, target, path, i, m);
      IndexToString(i);
      EscapePlain(ToString(i));
      NeededAt(Removing(Under(path, ToString(i))), source, target, path, ToString(i));
    }
  }

  lemma {:induction false} AppendsNeeded(source: Json, target: Json, path: string, vs: seq<Json>)
    requires source.Array? && target.Array?
    ensures AllNeeded(Appends(path, vs), source, target, path)
    decreases |vs|
  {
    if vs != [] {
      AppendsNeeded(source, target, path, vs[..|vs| - 1]);
      EscapePlain("-");
      NeededAt(Adding(Under(path, "-"), vs[|vs| - 1]), source, target, path, "-");
    }
  }

  lemma {:induction false} KeysNeeded(source: Json, target: Json, path: string, keys: seq<string>)
    requires Fits(source) && Fits(target) && source.Object? && target.Object? && forall k :: k in keys ==> k in source.m
    ensures AllNeeded(DiffKeys(source, target, path, keys), source, target, path)
    decreases source, 0, |keys|
  {
    if keys != [] {
      var k := keys[|keys| - 1];
      KeysNeeded(source, target, path, keys[..|keys| - 1]);
      if k in target.m {
        DiffNeeded(source.m[k], target.m[k], Under(path, Escape(k)));
        NeededBelow(Diff(source.m[k], target.m[k], Under(path, Escape(k))), source, target, path, k);
      } else {
        NeededAt(Removing(Under(path, Escape(k))), source, target, path, k);
      }
    }
  }

  lemma {:induction false} AddsNeeded(source: Json, target: Json, path: string, keys: seq<string>)
    requires source.Object? && target.Object? && forall k :: k in keys ==> k in target.m
    ensures AllNeeded(AddKeys(source, target, path, keys), source, target, path)
    decreases |keys|
  {
    if keys != [] {
      var k := keys[|keys| - 1];
      AddsNeeded(source, target, path, keys[..|keys| - 1]);
      if k !in source.m {
        NeededAt(Adding(Under(path, Escape(k)), target.m[k]), source, target, path, k);
      }
    }
  }
}
