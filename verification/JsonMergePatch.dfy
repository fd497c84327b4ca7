/** JSON merge patch (RFC 7396). */
module JsonMergePatch {
  import opened JsonText
  import opened JsonPatch
  import opened JsonKeys

  /** MergePatch of section 2 of RFC 7396: a member null removes, any other
      member merges into the member of that name, where a missing one counts as null. */
  function MergePatch(target: Json, patch: Json): Json
    decreases patch
  {
    if patch.Object? then
      var t := if target.Object? then target.m else map[];
      Object(map k | k in t.Keys + patch.m.Keys && !(k in patch.m && patch.m[k] == Null) ::
               if k in patch.m then MergePatch(if k in t then t[k] else Null, patch.m[k]) else t[k])
    else patch
  }

  /** The members a value has; all values but objects count as an empty object. */
  function Members(j: Json): map<string, Json> {
    if j.Object? then j.m else map[]
  }

  /** Key by key: a member the patch does not name is kept, a null removes the
      member, and any other member merges, where a missing one counts as null. */
  lemma MergedMember(target: Json, patch: Json, k: string)
    requires patch.Object?
    ensures MergePatch(target, patch).Object?
    ensures var t, m := Members(target), MergePatch(target, patch).m;
            && (k !in patch.m ==> (k in m <==> k in t) && (k in t ==> m[k] == t[k]))
            && (k in patch.m && patch.m[k] == Null ==> k !in m)
            && (k in patch.m && patch.m[k] != Null ==>
                  k in m && m[k] == MergePatch(if k in t then t[k] else Null, patch.m[k]))
  {
  }

  /** `ts` leads through objects of the patch only, to a value that is no object. */
  predicate Sets(patch: Json, ts: seq<string>) {
    if ts == [] then !patch.Object? else patch.Object? && ts[0] in patch.m && Sets(patch.m[ts[0]], ts[1..])
  }

  /** `ts` leads through objects of the patch only, and then to a member it does not name. */
  predicate Leaves(patch: Json, ts: seq<string>) {
    ts != [] && patch.Object? && (ts[0] in patch.m ==> Leaves(patch.m[ts[0]], ts[1..]))
  }

  /** The member `ts` leads to through objects only. */
  function Find(j: Json, ts: seq<string>): Result<Json>
    decreases |ts|
  {
    if ts == [] then Ok(j) else if ts[0] in Members(j) then Find(Members(j)[ts[0]], ts[1..]) else Err(403)
  }

  lemma FindNone(ts: seq<string>)
    requires ts != []
    ensures Find(Null, ts) == Err(403)
  {
    assert ts[0] !in Members(Null);
  }

  /** Place by place, at any depth: what the patch sets is there afterwards, a null
      takes a member away, and what the patch does not name is as it was. */
  lemma {:induction false} MergedPlace(target: Json, patch: Json, ts: seq<string>)
    ensures Sets(patch, ts) && Find(patch, ts) != Ok(Null) ==>
              Find(MergePatch(target, patch), ts) == Find(patch, ts)
    ensures Sets(patch, ts) && ts != [] && Find(patch, ts) == Ok(Null) ==>
              Find(MergePatch(target, patch), ts) == Err(403)
    ensures Leaves(patch, ts) ==> Find(MergePatch(target, patch), ts) == Find(target, ts)
    decreases |ts|
  {
    if ts != [] && patch.Object? {
      var k, t := ts[0], Members(target);
      MergedMember(target, patch, k);
      if k in patch.m {
        MergedPlace(if k in t then t[k] else Null, patch.m[k], ts[1..]);
        if Leaves(patch.m[k], ts[1..]) {
          FindNone(ts[1..]);
        }
      }
    }
  }

  /** The members after those named in `done` have been merged. */
  ghost function Merged(t: map<string, Json>, patch: map<string, Json>, done: set<string>): map<string, Json> {
    map k | k in t.Keys + (patch.Keys * done) && !(k in done && k in patch && patch[k] == Null) ::
      if k in done && k in patch then MergePatch(if k in t then t[k] else Null, patch[k]) else t[k]
  }

  /** `merge_patch`: changes the value member by member. */
  method MergeInPlace(value: Json, patch: Json) returns (r: Json)
    ensures r == MergePatch(value, patch)
    decreases patch, 1
  {
    if !patch.Object? {
      return patch;
    }
    r := MergeMembers(if value.Object? then value else Object(map[]), patch);
  }

  method MergeMembers(value: Json, patch: Json) returns (r: Json)
    requires value.Object? && patch.Object?
    ensures r == MergePatch(value, patch)
    decreases patch, 0
  {
    r := value;
    SortedOk(patch.m.Keys);
    var keys := SortedKeys(patch.m.Keys);
    assert Merged(value.m, patch.m, Elements(keys[..0])) == value.m;
    for n := 0 to |keys|
      invariant r == Object(Merged(value.m, patch.m, Elements(keys[..n])))
    {
      var key := keys[n];
      assert key !in Elements(keys[..n]) && Elements(keys[..n + 1]) == Elements(keys[..n]) + {key};
      MergedStep(value.m, patch.m, Elements(keys[..n]), key);
      if patch.m[key] == Null {
        r := Object(r.m - {key});
      } else {
        var member := MergeInPlace(if key in r.m then r.m[key] else Null, patch.m[key]);
        r := Object(r.m[key := member]);
      }
    }
    assert Elements(keys[..|keys|]) == patch.m.Keys;
    MergedAll(value.m, patch.m);
  }

  lemma MergedAll(t: map<string, Json>, patch: map<string, Json>)
    ensures Object(Merged(t, patch, patch.Keys)) == MergePatch(Object(t), Object(patch))
  {
  }

  lemma MergedStep(t: map<string, Json>, patch: map<string, Json>, done: set<string>, key: string)
    requires key in patch && key !in done
    ensures var now := Merged(t, patch, done);
            (key in now <==> key in t) && (key in t ==> now[key] == t[key])
    ensures Merged(t, patch, done + {key}) ==
            if patch[key] == Null then Merged(t, patch, done) - {key}
            else Merged(t, patch, done)[key := MergePatch(if key in t then t[key] else Null, patch[key])]
  {
  }

  /** Merging the same patch again changes nothing. */
  lemma {:induction false} MergeTwice(target: Json, patch: Json)
    ensures MergePatch(MergePatch(target, patch), patch) == MergePatch(target, patch)
    decreases patch
  {
    if patch.Object? {
      var once := MergePatch(target, patch);
      var twice := MergePatch(once, patch);
      var t := if target.Object? then target.m else map[];
      forall k | k in patch.m && patch.m[k] != Null
        ensures k in once.m && k in twice.m && twice.m[k] == once.m[k]
      {
        MergeTwice(if k in t then t[k] else Null, patch.m[k]);
      }
      assert twice.m.Keys == once.m.Keys;
    }
  }
}
