/** JSON pointers: reading and printing the list of reference tokens. */
module JsonPointer {
  import opened JsonText

  // -------- Parts between slashes --------

  /** Each part with a slash in front. */
  function Join(parts: seq<string>): string {
    if parts == [] then "" else Join(parts[..|parts| - 1]) + "/" + parts[|parts| - 1]
  }

  /** The first position of a slash in `s`, or `|s|`. */
  function SlashIn(s: string): (p: nat)
    ensures p <= |s| && (p < |s| ==> s[p] == '/')
  {
    if s == "" || s[0] == '/' then 0 else 1 + SlashIn(s[1..])
  }

  predicate NoSlash(s: string) {
    forall i :: 0 <= i < |s| ==> s[i] != '/'
  }

  lemma {:induction false} SlashIsFirst(s: string)
    ensures NoSlash(s[..SlashIn(s)])
  {
    if s != "" && s[0] != '/' {
      SlashIsFirst(s[1..]);
      assert s[..SlashIn(s)] == [s[0]] + s[1..][..SlashIn(s[1..])];
    }
  }

  /** The parts of the text `s` behind a slash. */
  function Parts(s: string): (parts: seq<string>)
    ensures parts != []
  {
    var slash := SlashIn(s);
    if slash == |s| then [s] else [s[..slash]] + Parts(s[slash + 1..])
  }

  lemma {:induction false} PartsHaveNoSlash(s: string)
    ensures forall i :: 0 <= i < |Parts(s)| ==> NoSlash(Parts(s)[i])
    decreases |s|
  {
    var slash := SlashIn(s);
    SlashIsFirst(s);
    if slash < |s| {
      PartsHaveNoSlash(s[slash + 1..]);
    } else {
      assert s[..slash] == s;
    }
  }

  lemma {:induction false} JoinAppend(a: seq<string>, b: seq<string>)
    ensures Join(a + b) == Join(a) + Join(b)
    decreases |b|
  {
    if b == [] {
      assert a + b == a;
    } else {
      var init, last := b[..|b| - 1], b[|b| - 1];
      JoinAppend(a, init);
      assert (a + b)[..|a + b| - 1] == a + init;
      assert (Join(a) + Join(init)) + "/" + last == Join(a) + (Join(init) + "/" + last);
    }
  }

  lemma JoinFirst(parts: seq<string>)
    requires parts != []
    ensures Join(parts) == "/" + parts[0] + Join(parts[1..])
  {
    assert parts == [parts[0]] + parts[1..];
    JoinAppend([parts[0]], parts[1..]);
    assert [parts[0]][..0] == [];
  }

  lemma JoinHead(p: string, parts: seq<string>)
    ensures Join([p] + parts) == "/" + p + Join(parts)
  {
    JoinFirst([p] + parts);
    assert ([p] + parts)[1..] == parts;
  }

  lemma AroundSlash(s: string, p: nat)
    requires p < |s| && s[p] == '/'
    ensures s == s[..p] + ("/" + s[p + 1..])
  {
  }

  lemma {:induction false} JoinParts(s: string)
    ensures Join(Parts(s)) == "/" + s
    decreases |s|
  {
    var slash := SlashIn(s);
    if slash < |s| {
      var first, rest := s[..slash], s[slash + 1..];
      JoinParts(rest);
      JoinHead(first, Parts(rest));
      AroundSlash(s, slash);
      Assoc("/", first, "/" + rest);
    } else {
      assert [s][..0] == [];
    }
  }

  /** The first slash of a text that has none in `a`. */
  lemma {:induction false} SlashFound(a: string, b: string)
    requires NoSlash(a) && (b != "" ==> b[0] == '/')
    ensures SlashIn(a + b) == |a|
  {
    if a == "" {
      assert a + b == b;
    } else {
      SlashFound(a[1..], b);
      assert (a + b)[1..] == a[1..] + b;
    }
  }

  lemma {:induction false} PartsJoin(parts: seq<string>)
    requires parts != [] && forall i :: 0 <= i < |parts| ==> NoSlash(parts[i])
    ensures Join(parts) != "" && Join(parts)[0] == '/' && Parts(Join(parts)[1..]) == parts
    decreases |parts|
  {
    JoinFirst(parts);
    var p, rest := parts[0], Join(parts[1..]);
    assert Join(parts)[1..] == p + rest;
    if |parts| == 1 {
      assert p + rest == p + "" == p;
      SlashFound(p, "");
    } else {
      PartsJoin(parts[1..]);
      SlashFound(p, rest);
      assert (p + rest)[..|p|] == p && (p + rest)[|p| + 1..] == rest[1..];
      assert [p] + parts[1..] == parts;
    }
  }

  // -------- Printing and splitting --------

  function EscapeAll(tokens: seq<string>): (r: seq<string>)
    ensures |r| == |tokens|
  {
    seq(|tokens|, i requires 0 <= i < |tokens| => Escape(tokens[i]))
  }

  function UnescapeAll(parts: seq<string>): (r: seq<string>)
    ensures |r| == |parts|
  {
    seq(|parts|, i requires 0 <= i < |parts| => Unescape(parts[i]))
  }

  function Print(tokens: seq<string>): string {
    Join(EscapeAll(tokens))
  }

  predicate AllTildesOk(parts: seq<string>) {
    forall i :: 0 <= i < |parts| ==> TildesOk(parts[i])
  }

  function Split(s: string): Result<seq<string>> {
    if s == "" then Ok([])
    else if s[0] != '/' then Err(107)
    else if AllTildesOk(Parts(s[1..])) then Ok(UnescapeAll(Parts(s[1..])))
    else Err(108)
  }

  method ToText(tokens: seq<string>) returns (s: string)
    ensures s == Print(tokens)
  {
    s := "";
    ghost var parts := EscapeAll(tokens);
    for i := 0 to |tokens|
      invariant s == Join(parts[..i])
    {
      var e := EscapeInPlace(tokens[i]);
      s := s + "/" + e;
      assert parts[..i + 1][..i] == parts[..i];
    }
    assert parts[..|tokens|] == parts;
  }

  /** Looks for a tilde without 0 or 1 behind it. */
  method CheckTildes(token: string) returns (ok: bool)
    ensures ok <==> TildesOk(token)
  {
    for pos := 0 to |token|
      invariant forall i :: 0 <= i < pos && token[i] == '~' ==>
                              i + 1 < |token| && (token[i + 1] == '0' || token[i + 1] == '1')
    {
      if token[pos] == '~' && (pos == |token| - 1 || (token[pos + 1] != '0' && token[pos + 1] != '1')) {
        return false;
      }
    }
    return true;
  }

  lemma CutAt(s: string, start: nat, p: nat)
    requires start + p <= |s|
    ensures s[start..][..p] == s[start..start + p]
    ensures start + p < |s| ==> s[start..][p + 1..] == s[start + p + 1..]
  {
    DropDrop(s, start, p);
    if start + p < |s| {
      DropDrop(s, start, p + 1);
    }
  }

  lemma PartsUnfold(s: string)
    ensures Parts(s)[0] == s[..SlashIn(s)]
    ensures Parts(s)[1..] == if SlashIn(s) == |s| then [] else Parts(s[SlashIn(s) + 1..])
  {
    assert s[..|s|] == s;
  }

  lemma DropDrop(s: string, i: nat, j: nat)
    requires i + j <= |s|
    ensures s[i..][..j] == s[i..i + j] && s[i..][j..] == s[i + j..]
  {
  }

  /** The text of the part that starts at `start`; `next` is where the one after it starts, or 0. */
  method CutPart(s: string, start: nat) returns (part: string, next: nat)
    requires start <= |s|
    ensures part == Parts(s[start..])[0]
    ensures next == 0 || start < next <= |s|
    ensures Parts(s[start..])[1..] == if next == 0 then [] else Parts(s[next..])
  {
    var rest := s[start..];
    var p := SlashIn(rest);
    PartsUnfold(rest);
    CutAt(s, start, p);
    part := s[start..start + p];
    next := if p == |rest| then 0 else start + p + 1;
  }

  method DecodePart(part: string) returns (token: Result<string>)
    ensures token == if TildesOk(part) then Ok(Unescape(part)) else Err(108)
  {
    var ok := CheckTildes(part);
    if !ok {
      return Err(108);
    }
    var text := UnescapeInPlace(part);
    token := Ok(text);
  }

  /** Goes from slash to slash, and stops at the first part with a bad tilde. */
  method SplitText(s: string) returns (r: Result<seq<string>>)
    ensures r == Split(s)
  {
    if s == "" {
      return Ok([]);
    }
    if s[0] != '/' {
      return Err(107);
    }
    ghost var parts := Parts(s[1..]);
    var tokens: seq<string> := [];
    var start := 1;
    while start != 0
      invariant start <= |s| && DecodedTo(parts, tokens)
      invariant if start == 0 then |tokens| == |parts| else parts[|tokens|..] == Parts(s[start..])
      decreases if start == 0 then 0 else |s| - start + 1
    {
      var part, next := CutPart(s, start);
      NextPart(parts, |tokens|, Parts(s[start..]));
      var token := DecodePart(part);
      if token.Err? {
        return Err(token.code);
      }
      DecodedNext(parts, tokens, token.value);
      tokens := tokens + [token.value];
      start := next;
    }
    assert parts[..|parts|] == parts;
    return Ok(tokens);
  }

  /** The first parts have been decoded. */
  ghost predicate DecodedTo(parts: seq<string>, tokens: seq<string>) {
    |tokens| <= |parts| && AllTildesOk(parts[..|tokens|]) && tokens == UnescapeAll(parts[..|tokens|])
  }

  lemma DecodedNext(parts: seq<string>, tokens: seq<string>, token: string)
    requires DecodedTo(parts, tokens) && |tokens| < |parts|
    requires TildesOk(parts[|tokens|]) && token == Unescape(parts[|tokens|])
    ensures DecodedTo(parts, tokens + [token])
  {
    var n := |tokens|;
    assert parts[..n + 1] == parts[..n] + [parts[n]];
  }

  lemma NextPart(parts: seq<string>, n: nat, rest: seq<string>)
    requires n <= |parts| && parts[n..] == rest != []
    ensures n < |parts| && parts[n] == rest[0] && parts[n + 1..] == rest[1..]
  {
    assert parts[n..][0] == parts[n] && parts[n..][1..] == parts[n + 1..];
  }

  // -------- Round trips --------

  lemma PrintAppend(tokens: seq<string>, token: string)
    ensures Print(tokens + [token]) == Print(tokens) + "/" + Escape(token)
  {
    var parts := EscapeAll(tokens + [token]);
    assert parts[..|tokens|] == EscapeAll(tokens);
  }

  /** Splitting the printed form of any token list gives the list back. */
  lemma SplitPrint(tokens: seq<string>)
    ensures Split(Print(tokens)) == Ok(tokens)
  {
    var parts := EscapeAll(tokens);
    forall i | 0 <= i < |tokens|
      ensures TildesOk(parts[i]) && Unescape(parts[i]) == tokens[i]
      ensures NoSlash(parts[i])
    {
      EscapeIsEscaped(tokens[i]);
      UnescapeEscape(tokens[i]);
    }
    if tokens != [] {
      PartsJoin(parts);
      assert UnescapeAll(parts) == tokens;
    }
  }

  /** Printing the tokens of any valid pointer gives the pointer back. */
  lemma PrintSplit(s: string)
    requires Split(s).Ok?
    ensures Print(Split(s).value) == s
  {
    if s != "" {
      var parts := Parts(s[1..]);
      PartsHaveNoSlash(s[1..]);
      forall i | 0 <= i < |parts|
        ensures Escape(Unescape(parts[i])) == parts[i]
      {
        assert NoSlash(parts[i]) && TildesOk(parts[i]);
        EscapeUnescape(parts[i]);
      }
      assert EscapeAll(UnescapeAll(parts)) == parts;
      JoinParts(s[1..]);
      assert s == "/" + s[1..];
    }
  }

  /** Which texts are pointers: the empty one, and those that start with a slash
      and have every tilde followed by 0 or 1. */
  lemma SplitIff(s: string)
    ensures Split(s).Ok? <==> s == "" || (s[0] == '/' && TildesOk(s))
  {
    if s != "" && s[0] == '/' {
      PartsTildes(s[1..]);
      assert s == "" + "/" + s[1..];
      TildesApart("", s[1..]);
    }
  }

  /** How reading any other text fails. */
  lemma SplitCodes(s: string)
    ensures s != "" && s[0] != '/' ==> Split(s) == Err(107)
    ensures s != "" && s[0] == '/' && !TildesOk(s) ==> Split(s) == Err(108)
  {
    if s != "" {
      SplitIff(s);
    }
  }

  /** Tildes on both sides of a slash are judged apart. */
  lemma TildesApart(a: string, b: string)
    ensures TildesOk(a + "/" + b) <==> TildesOk(a) && TildesOk(b)
  {
    var s := a + "/" + b;
    assert forall i :: 0 <= i < |a| ==> s[i] == a[i];
    assert s[|a|] == '/';
    assert forall i :: |a| < i < |s| ==> s[i] == b[i - |a| - 1];
    if TildesOk(s) {
      forall i | 0 <= i < |a| && a[i] == '~'
        ensures i + 1 < |a| && (a[i + 1] == '0' || a[i + 1] == '1')
      {
        assert s[i] == '~';
      }
      forall i | 0 <= i < |b| && b[i] == '~'
        ensures i + 1 < |b| && (b[i + 1] == '0' || b[i + 1] == '1')
      {
        assert s[|a| + 1 + i] == '~';
        assert s[|a| + 1 + (i + 1)] == b[i + 1];
      }
    }
  }

  lemma {:induction false} PartsTildes(s: string)
    ensures AllTildesOk(Parts(s)) <==> TildesOk(s)
    decreases |s|
  {
    var slash := SlashIn(s);
    if slash < |s| {
      var first, rest := s[..slash], Parts(s[slash + 1..]);
      PartsTildes(s[slash + 1..]);
      assert s == first + "/" + s[slash + 1..];
      TildesApart(first, s[slash + 1..]);
      assert ([first] + rest)[0] == first && forall i :: 0 <= i < |rest| ==> ([first] + rest)[i + 1] == rest[i];
    } else {
      assert Parts(s)[0] == s;
    }
  }
}
