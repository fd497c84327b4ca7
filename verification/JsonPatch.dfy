/** JSON documents and the operations of a JSON patch (RFC 6902).

    Numbers are exact: an integer and a floating-point number are never equal here. */
module JsonPatch {
  import opened JsonText
  import opened JsonPointer

  datatype Json =
    | Null
    | Bool(b: bool)
    | Integer(i: int)
    | Float(r: real)
    | String(s: string)
    | Array(a: seq<Json>)
    | Object(m: map<string, Json>)

  /** How an operation ends: `Failed` holds the document as the exception leaves it. */
  datatype Outcome = Done(doc: Json) | Failed(doc: Json, code: int)

  /** Stands for a failing JSON_ASSERT, which throws nothing. */
  const ASSERTION := 0

  // -------- Following a pointer --------

  function Child(j: Json, token: string): Result<Json> {
    match j
    case Object(m) => if token in m then Ok(m[token]) else Err(403)
    case Array(a) =>
      if token == "-" then Err(402)
      else (match ArrayIndex(token)
            case Err(code) => Err(code)
            case Ok(i) => if i < |a| then Ok(a[i]) else Err(401))
    case _ => Err(404)
  }

  /** The value at `tokens`. */
  function Get(j: Json, tokens: seq<string>): Result<Json>
    decreases |tokens|
  {
    if tokens == [] then Ok(j)
    else match Child(j, tokens[0])
         case Err(code) => Err(code)
         case Ok(c) => Get(c, tokens[1..])
  }

  method GetChecked(j: Json, tokens: seq<string>) returns (r: Result<Json>)
    ensures r == Get(j, tokens)
  {
    var at := j;
    for i := 0 to |tokens|
      invariant Get(j, tokens) == Get(at, tokens[i..])
    {
      match Child(at, tokens[i]) {
        case Err(code) => return Err(code);
        case Ok(c) => at := c;
      }
      assert tokens[i..][1..] == tokens[i + 1..];
    }
    return Ok(at);
  }

  function SetChild(j: Json, token: string, v: Json): Json
    requires Child(j, token).Ok?
  {
    match j
    case Object(m) => Object(m[token := v])
    case Array(a) => Array(a[ArrayIndex(token).value := v])
  }

  /** The document with `v` assigned at `tokens`. */
  function With(j: Json, tokens: seq<string>, v: Json): Json
    requires Get(j, tokens).Ok?
    decreases |tokens|
  {
    if tokens == [] then v
    else SetChild(j, tokens[0], With(Child(j, tokens[0]).value, tokens[1..], v))
  }

  lemma ChildOfSet(j: Json, token: string, v: Json)
    requires Child(j, token).Ok?
    ensures Child(SetChild(j, token, v), token) == Ok(v)
    ensures forall w :: SetChild(SetChild(j, token, v), token, w) == SetChild(j, token, w)
  {
  }

  lemma {:induction false} GetAppend(j: Json, ts: seq<string>, us: seq<string>)
    ensures Get(j, ts + us) == match Get(j, ts) case Err(code) => Err(code) case Ok(c) => Get(c, us)
    decreases |ts|
  {
    if ts == [] {
      assert ts + us == us;
    } else {
      assert (ts + us)[1..] == ts[1..] + us;
      var c := Child(j, ts[0]);
      if c.Ok? {
        GetAppend(c.value, ts[1..], us);
      }
    }
  }

  /** With the place itself its topmost ancestor is there. */
  lemma FirstThere(j: Json, ts: seq<string>)
    requires ts != [] && Get(j, ts).Ok?
    ensures Get(j, ts[..1]).Ok?
  {
    assert ts == ts[..1] + ts[1..];
    GetAppend(j, ts[..1], ts[1..]);
  }

  lemma {:induction false} WithAppend(j: Json, ts: seq<string>, us: seq<string>, w: Json)
    requires Get(j, ts).Ok? && Get(Get(j, ts).value, us).Ok?
    ensures Get(j, ts + us).Ok?
    ensures With(j, ts + us, w) == With(j, ts, With(Get(j, ts).value, us, w))
    decreases |ts|
  {
    GetAppend(j, ts, us);
    if ts == [] {
      assert ts + us == us;
    } else {
      assert (ts + us)[1..] == ts[1..] + us;
      WithAppend(Child(j, ts[0]).value, ts[1..], us, w);
    }
  }

  // -------- Operations --------

  function AddChild(parent: Json, last: string, val: Json): Outcome {
    match parent
    case Null => Done(Object(map[last := val]))
    case Object(m) => Done(Object(m[last := val]))
    case Array(a) =>
      if last == "-" then Done(Array(a + [val]))
      else (match ArrayIndex(last)
            case Err(code) => Failed(parent, code)
            case Ok(i) => if i <= |a| then Done(Array(a[..i] + [val] + a[i..])) else Failed(parent, 401))
    case _ => Failed(parent, ASSERTION)
  }

  function RemoveChild(parent: Json, last: string): Outcome {
    match parent
    case Object(m) => if last in m then Done(Object(m - {last})) else Failed(parent, 403)
    case Array(a) =>
      (match ArrayIndex(last)
       case Err(code) => Failed(parent, code)
       case Ok(i) => if i < |a| then Done(Array(a[..i] + a[i + 1..])) else Failed(parent, 401))
    case _ => Done(parent)
  }

  /** Puts the outcome for the parent at `tokens` back into the document. */
  function Inside(j: Json, tokens: seq<string>, o: Outcome): Outcome
    requires Get(j, tokens).Ok?
  {
    match o
    case Done(p) => Done(With(j, tokens, p))
    case Failed(_, code) => Failed(j, code)
  }

  function AddOp(j: Json, tokens: seq<string>, val: Json): Outcome {
    if tokens == [] then Done(val)
    else if |tokens| > 1 && Get(j, tokens[..1]).Err? then Failed(j, Get(j, tokens[..1]).code)
    else
      var parent := tokens[..|tokens| - 1];
      match Get(j, parent)
      case Err(code) => Failed(j, code)
      case Ok(p) => Inside(j, parent, AddChild(p, tokens[|tokens| - 1], val))
  }

  function RemoveOp(j: Json, tokens: seq<string>): Outcome {
    if tokens == [] then Failed(j, 405)
    else
      var parent := tokens[..|tokens| - 1];
      match Get(j, parent)
      case Err(code) => Failed(j, code)
      case Ok(p) => Inside(j, parent, RemoveChild(p, tokens[|tokens| - 1]))
  }

  function ReplaceOp(j: Json, tokens: seq<string>, val: Json): Outcome {
    match Get(j, tokens)
    case Err(code) => Failed(j, code)
    case Ok(_) => Done(With(j, tokens, val))
  }

  function CopyOp(j: Json, from: seq<string>, tokens: seq<string>): Outcome {
    match Get(j, from)
    case Err(code) => Failed(j, code)
    case Ok(v) => AddOp(j, tokens, v)
  }

  /** Removes first; if adding fails then, the value is gone. */
  function MoveOp(j: Json, from: seq<string>, tokens: seq<string>): Outcome {
    match Get(j, from)
    case Err(code) => Failed(j, code)
    case Ok(v) =>
      match RemoveOp(j, from)
      case Failed(doc, code) => Failed(doc, code)
      case Done(doc) => AddOp(doc, tokens, v)
  }

  /** Only exceptions of the range 4xx are taken for a failed comparison. */
  function TestOp(j: Json, tokens: seq<string>, val: Json): Outcome {
    match Get(j, tokens)
    case Err(code) => if 400 < code < 500 then Failed(j, 501) else Failed(j, code)
    case Ok(v) => if v == val then Done(j) else Failed(j, 501)
  }

  // -------- Patches --------

  function Member(op: Json, name: string): Result<Json>
    requires op.Object?
  {
    if name in op.m then Ok(op.m[name]) else Err(105)
  }

  function Text(op: Json, name: string): Result<string>
    requires op.Object?
  {
    match Member(op, name)
    case Ok(String(s)) => Ok(s)
    case _ => Err(105)
  }

  function Pointer(op: Json, name: string): Result<seq<string>>
    requires op.Object?
  {
    match Text(op, name)
    case Err(code) => Err(code)
    case Ok(s) => Split(s)
  }

  /** One element of a patch.  A missing value is noticed before the pointer is followed. */
  function Apply(j: Json, op: Json): Outcome {
    if !op.Object? then Failed(j, 104)
    else match (Text(op, "op"), Pointer(op, "path"))
         case (Err(code), _) => Failed(j, code)
         case (_, Err(code)) => Failed(j, code)
         case (Ok(name), Ok(ptr)) =>
           if name == "remove" then RemoveOp(j, ptr)
           else if name == "add" || name == "replace" || name == "test" then
             (match Member(op, "value")
              case Err(code) => Failed(j, code)
              case Ok(v) => if name == "add" then AddOp(j, ptr, v)
                            else if name == "replace" then ReplaceOp(j, ptr, v)
                            else TestOp(j, ptr, v))
           else if name == "move" || name == "copy" then
             (match Pointer(op, "from")
              case Err(code) => Failed(j, code)
              case Ok(from) => if name == "move" then MoveOp(j, from, ptr) else CopyOp(j, from, ptr))
           else Failed(j, 105)
  }

  function ApplyAll(j: Json, ops: seq<Json>): Outcome
    decreases |ops|
  {
    if ops == [] then Done(j)
    else match Apply(j, ops[0])
         case Failed(doc, code) => Failed(doc, code)
         case Done(doc) => ApplyAll(doc, ops[1..])
  }

  function Patch(j: Json, patch: Json): Outcome {
    if patch.Array? then ApplyAll(j, patch.a) else Failed(j, 104)
  }

  class Document {
    var json: Json

    constructor (json: Json)
      ensures this.json == json
    {
      this.json := json;
    }

    /** `patch_inplace`: `code` is the number of the exception that ended it, if any. */
    method PatchInplace(patch: Json) returns (ok: bool, code: int)
      modifies this
      ensures json == Patch(old(json), patch).doc
      ensures ok == Patch(old(json), patch).Done?
      ensures !ok ==> code == Patch(old(json), patch).code
    {
      if !patch.Array? {
        return false, 104;
      }
      for i := 0 to |patch.a|
        invariant Patch(old(json), patch) == ApplyAll(json, patch.a[i..])
      {
        match Apply(json, patch.a[i]) {
          case Failed(doc, c) =>
            json := doc;
            return false, c;
          case Done(doc) =>
            json := doc;
        }
        assert patch.a[i..][1..] == patch.a[i + 1..];
      }
      return true, 0;
    }
  }

  // -------- Successful runs --------

  ghost predicate StepOk(docs: seq<Json>, ops: seq<Json>, i: nat)
    requires i < |ops| < |docs|
  {
    Apply(docs[i], ops[i]) == Done(docs[i + 1])
  }

  ghost predicate Trace(docs: seq<Json>, ops: seq<Json>) {
    |docs| == |ops| + 1 && forall i: nat :: i < |ops| ==> StepOk(docs, ops, i)
  }

  /** All operations succeed, one after the other, and lead from `j` to `j'`. */
  ghost predicate Takes(j: Json, ops: seq<Json>, j': Json) {
    exists docs :: Trace(docs, ops) && docs[0] == j && docs[|ops|] == j'
  }

  lemma TakesNone(j: Json)
    ensures Takes(j, [], j)
  {
    assert Trace([j], []);
  }

  lemma TakesOne(j: Json, op: Json, j': Json)
    requires Apply(j, op) == Done(j')
    ensures Takes(j, [op], j')
  {
    assert StepOk([j, j'], [op], 0);
    assert Trace([j, j'], [op]);
  }

  lemma TakesAppend(j: Json, a: seq<Json>, k: Json, b: seq<Json>, l: Json)
    requires Takes(j, a, k) && Takes(k, b, l)
    ensures Takes(j, a + b, l)
  {
    var d :| Trace(d, a) && d[0] == j && d[|a|] == k;
    var e :| Trace(e, b) && e[0] == k && e[|b|] == l;
    TraceAppend(d, a, e, b);
    assert (d + e[1..])[|a + b|] == l;
  }

  lemma TraceAppend(d: seq<Json>, a: seq<Json>, e: seq<Json>, b: seq<Json>)
    requires Trace(d, a) && Trace(e, b) && d[|a|] == e[0]
    ensures Trace(d + e[1..], a + b)
  {
    forall i: nat | i < |a + b|
      ensures StepOk(d + e[1..], a + b, i)
    {
      if i < |a| {
        assert StepOk(d, a, i);
      } else {
        assert StepOk(e, b, i - |a|);
      }
    }
  }

  lemma {:induction false} TraceRuns(docs: seq<Json>, ops: seq<Json>)
    requires Trace(docs, ops)
    ensures ApplyAll(docs[0], ops) == Done(docs[|ops|])
    decreases |ops|
  {
    if ops != [] {
      assert StepOk(docs, ops, 0);
      forall i: nat | i < |ops| - 1
        ensures StepOk(docs[1..], ops[1..], i)
      {
        assert StepOk(docs, ops, i + 1);
      }
      TraceRuns(docs[1..], ops[1..]);
    }
  }

  lemma TakesRuns(j: Json, ops: seq<Json>, j': Json)
    requires Takes(j, ops, j')
    ensures Patch(j, Array(ops)) == Done(j')
  {
    var docs :| Trace(docs, ops) && docs[0] == j && docs[|ops|] == j';
    TraceRuns(docs, ops);
  }
}
