/** The text side of JSON pointers: replacing substrings, escaping, array indices. */
module JsonText {

  /** `Err` carries the number of the exception thrown. */
  datatype Result<T> = Ok(value: T) | Err(code: int)

  // -------- Replacing --------

  /** `s` with every occurrence of `f`, found from left to right, replaced by `t`. */
  function Replace(s: string, f: string, t: string): string
    requires f != ""
  {
    if |s| < |f| then s
    else if s[..|f|] == f then t + Replace(s[|f|..], f, t)
    else [s[0]] + Replace(s[1..], f, t)
  }

  predicate OccursAt(s: string, f: string, q: int) {
    0 <= q && q + |f| <= |s| && s[q..q + |f|] == f
  }

  /** The first position from `pos` on where `f` occurs in `s`, or `|s|`. */
  method Find(s: string, f: string, pos: nat) returns (p: nat)
    requires pos <= |s| && f != ""
    ensures pos <= p <= |s| && (p < |s| ==> OccursAt(s, f, p))
    ensures forall q :: pos <= q < p ==> !OccursAt(s, f, q)
  {
    p := pos;
    while p + |f| <= |s| && s[p..p + |f|] != f
      invariant pos <= p <= |s|
      invariant forall q :: pos <= q < p ==> !OccursAt(s, f, q)
    {
      p := p + 1;
    }
    if p + |f| > |s| {
      p := |s|;
    }
  }

  lemma Assoc(a: string, b: string, c: string)
    ensures (a + b) + c == a + (b + c)
  {
  }

  lemma Pieces(s: string, i: nat, j: nat)
    requires i <= j <= |s|
    ensures s[i..] == s[i..j] + s[j..] && s[..j] == s[..i] + s[i..j]
  {
  }

  lemma OccursShift(a: string, b: string, f: string, q: nat)
    requires |a| <= q
    ensures OccursAt(a + b, f, q) <==> OccursAt(b, f, q - |a|)
  {
    if q + |f| <= |a + b| {
      assert (a + b)[q..q + |f|] == b[q - |a|..q - |a| + |f|];
    }
  }

  lemma ReplaceHere(f: string, rest: string, t: string)
    requires f != ""
    ensures Replace(f + rest, f, t) == t + Replace(rest, f, t)
  {
    assert (f + rest)[..|f|] == f && (f + rest)[|f|..] == rest;
  }

  lemma ReplaceNotHere(c: char, rest: string, f: string, t: string)
    requires f != "" && !OccursAt([c] + rest, f, 0)
    ensures Replace([c] + rest, f, t) == [c] + Replace(rest, f, t)
  {
    var s := [c] + rest;
    assert s[1..] == rest && s[0] == c;
    if |s| >= |f| {
      assert s[..|f|] == s[0..0 + |f|];
    }
  }

  /** Skipping text in which no occurrence starts. */
  lemma {:induction false} ReplaceSkips(a: string, b: string, f: string, t: string)
    requires f != "" && forall q :: 0 <= q < |a| ==> !OccursAt(a + b, f, q)
    ensures Replace(a + b, f, t) == a + Replace(b, f, t)
    decreases |a|
  {
    if a == "" {
      assert a + b == b;
    } else {
      var c, rest := a[0], a[1..];
      assert a == [c] + rest;
      Assoc([c], rest, b);
      assert !OccursAt(a + b, f, 0);
      ReplaceNotHere(c, rest + b, f, t);
      forall q | 0 <= q < |rest|
        ensures !OccursAt(rest + b, f, q)
      {
        assert !OccursAt(a + b, f, q + 1);
        OccursShift([c], rest + b, f, q + 1);
      }
      ReplaceSkips(rest, b, f, t);
      Assoc([c], rest, Replace(b, f, t));
    }
  }

  /** The same for a search that starts at `from`. */
  lemma ReplaceSkipsFrom(s: string, f: string, t: string, from: nat, p: nat)
    requires f != "" && from <= p <= |s|
    requires forall q :: from <= q < p ==> !OccursAt(s, f, q)
    ensures s[..from] + Replace(s[from..], f, t) == s[..p] + Replace(s[p..], f, t)
  {
    Pieces(s, 0, from);
    Pieces(s, from, p);
    forall q | 0 <= q < p - from
      ensures !OccursAt(s[from..p] + s[p..], f, q)
    {
      assert !OccursAt(s, f, from + q);
      OccursShift(s[..from], s[from..], f, from + q);
    }
    ReplaceSkips(s[from..p], s[p..], f, t);
    Assoc(s[..from], s[from..p], Replace(s[p..], f, t));
  }

  lemma ReplaceAt(s: string, f: string, t: string, p: nat)
    requires f != "" && OccursAt(s, f, p)
    ensures var s' := s[..p] + t + s[p + |f|..];
            s[..p] + Replace(s[p..], f, t) == s'[..p + |t|] + Replace(s'[p + |t|..], f, t)
  {
    var a, b := s[..p], s[p + |f|..];
    assert s[p..] == f + b by {
      Pieces(s, p, p + |f|);
    }
    ReplaceBetween(a, f, b, t);
  }

  lemma ReplaceBetween(a: string, f: string, b: string, t: string)
    requires f != ""
    ensures var s' := a + t + b;
            a + Replace(f + b, f, t) == s'[..|a| + |t|] + Replace(s'[|a| + |t|..], f, t)
  {
    var r, s' := Replace(b, f, t), a + t + b;
    assert Replace(f + b, f, t) == t + r by {
      ReplaceHere(f, b, t);
    }
    ReplacedMiddle(a, t, b, r);
  }

  lemma ReplacedMiddle(a: string, t: string, b: string, r: string)
    ensures (a + t + b)[|a| + |t|..] == b && a + (t + r) == (a + t + b)[..|a| + |t|] + r
  {
    Middle(a + t, b);
    Assoc(a, t, r);
  }

  lemma Middle(a: string, b: string)
    ensures (a + b)[..|a|] == a && (a + b)[|a|..] == b
  {
  }

  /** `replace_substring`: edits the string and goes on searching behind the inserted text. */
  method ReplaceSubstring(s0: string, f: string, t: string) returns (s: string)
    requires f != ""
    ensures s == Replace(s0, f, t)
  {
    s := s0;
    var pos := Find(s, f, 0);
    ReplaceSkipsFrom(s, f, t, 0, pos);
    assert s[0..] == s;
    while pos < |s|
      invariant pos <= |s| && (pos < |s| ==> OccursAt(s, f, pos))
      invariant Replace(s0, f, t) == s[..pos] + Replace(s[pos..], f, t)
      decreases |s| - pos
    {
      ReplaceAt(s, f, t, pos);
      s := s[..pos] + t + s[pos + |f|..];
      var next := Find(s, f, pos + |t|);
      ReplaceSkipsFrom(s, f, t, pos + |t|, next);
      pos := next;
    }
    assert s[pos..] == "" && s[..pos] == s;
  }

  // -------- Escaping --------

  function Escape(s: string): string {
    Replace(Replace(s, "~", "~0"), "/", "~1")
  }

  function Unescape(s: string): string {
    Replace(Replace(s, "~1", "/"), "~0", "~")
  }

  method EscapeInPlace(s0: string) returns (s: string)
    ensures s == Escape(s0)
  {
    s := ReplaceSubstring(s0, "~", "~0");
    s := ReplaceSubstring(s, "/", "~1");
  }

  method UnescapeInPlace(s0: string) returns (s: string)
    ensures s == Unescape(s0)
  {
    s := ReplaceSubstring(s0, "~1", "/");
    s := ReplaceSubstring(s, "~0", "~");
  }

  /** Every tilde is followed by 0 or 1. */
  predicate TildesOk(s: string) {
    forall i :: 0 <= i < |s| && s[i] == '~' ==> i + 1 < |s| && (s[i + 1] == '0' || s[i + 1] == '1')
  }

  /** Text that may stand between two slashes. */
  predicate Escaped(s: string) {
    (forall i :: 0 <= i < |s| ==> s[i] != '/') && TildesOk(s)
  }

  /** The two passes together, one character at a time. */
  function EscapeChar(c: char): string {
    if c == '~' then "~0" else if c == '/' then "~1" else [c]
  }

  /** A character that does not start an occurrence is kept. */
  lemma ReplaceKeeps(c: char, s: string, f: string, t: string)
    requires f != "" && c != f[0]
    ensures Replace([c] + s, f, t) == [c] + Replace(s, f, t)
  {
    var x := [c] + s;
    assert x[1..] == s;
    if |x| < |f| {
      assert Replace(s, f, t) == s;
    } else {
      assert x[..|f|][0] == c;
    }
  }

  lemma EscapeStep(s: string)
    requires s != ""
    ensures Escape(s) == EscapeChar(s[0]) + Escape(s[1..])
  {
    var rest := Replace(s[1..], "~", "~0");
    assert s == [s[0]] + s[1..] && s[..1] == [s[0]];
    if s[0] == '~' {
      assert Replace(s, "~", "~0") == ['~'] + (['0'] + rest);
      ReplaceKeeps('~', ['0'] + rest, "/", "~1");
      ReplaceKeeps('0', rest, "/", "~1");
    } else {
      ReplaceKeeps(s[0], s[1..], "~", "~0");
      var x := [s[0]] + rest;
      assert x[..1] == [s[0]] && x[1..] == rest;
      if s[0] != '/' {
        ReplaceKeeps(s[0], rest, "/", "~1");
      }
    }
  }

  /** Character by character: "~0" stands for a tilde, "~1" for a slash, and every other character for itself. */
  lemma EscapeSigns(c: char, s: string)
    ensures Escape("") == "" && Unescape("") == ""
    ensures Escape(['~'] + s) == "~0" + Escape(s) && Escape(['/'] + s) == "~1" + Escape(s)
    ensures c != '~' && c != '/' ==> Escape([c] + s) == [c] + Escape(s)
    ensures Escape("~") == "~0" && Escape("/") == "~1"
  {
    assert (['~'] + s)[1..] == s && (['/'] + s)[1..] == s && ([c] + s)[1..] == s;
    EscapeStep(['~'] + s);
    EscapeStep(['/'] + s);
    EscapeStep([c] + s);
    EscapeStep("~");
    EscapeStep("/");
    assert "~"[1..] == "" && "/"[1..] == "";
  }

  lemma UnescapeSigns(s: string)
    requires Escaped(s)
    ensures Unescape("~0" + s) == "~" + Unescape(s) && Unescape("~1" + s) == "/" + Unescape(s)
    ensures s != "" && s[0] != '~' ==> Unescape(s) == [s[0]] + Unescape(s[1..])
  {
    assert ("~0" + s)[2..] == s && ("~1" + s)[2..] == s;
    UnescapeStep("~0" + s);
    UnescapeStep("~1" + s);
    if s != "" {
      UnescapeStep(s);
    }
  }

  /** One step of decoding: the first character or escape and the rest. */
  function FirstChar(s: string): char
    requires s != "" && Escaped(s)
  {
    if s[0] != '~' then s[0] else if s[1] == '1' then '/' else '~'
  }

  function FirstLen(s: string): nat
    requires s != "" && Escaped(s)
  {
    if s[0] == '~' then 2 else 1
  }

  lemma EscapedRest(s: string)
    requires s != "" && Escaped(s)
    ensures FirstLen(s) <= |s| && Escaped(s[FirstLen(s)..])
    ensures s[..FirstLen(s)] == EscapeChar(FirstChar(s))
  {
  }

  lemma UnescapeStep(s: string)
    requires s != "" && Escaped(s)
    ensures FirstLen(s) <= |s|
    ensures Unescape(s) == [FirstChar(s)] + Unescape(s[FirstLen(s)..])
  {
    EscapedRest(s);
    var n := FirstLen(s);
    var once := Replace(s[n..], "~1", "/");
    if s[0] != '~' {
      assert s == [s[0]] + s[n..];
      ReplaceKeeps(s[0], s[n..], "~1", "/");
      ReplaceKeeps(s[0], once, "~0", "~");
    } else if s[1] == '1' {
      assert s[..2] == "~1";
      assert Replace(s, "~1", "/") == ['/'] + once;
      ReplaceKeeps('/', once, "~0", "~");
    } else {
      assert s[..2] == "~0" && s[1..] == ['0'] + s[n..];
      ReplaceKeeps('0', s[n..], "~1", "/");
      assert Replace(s, "~1", "/") == ['~'] + (['0'] + once);
      var x := ['~'] + (['0'] + once);
      assert x[..2] == "~0" && x[2..] == once;
    }
  }

  lemma {:induction false} EscapeIsEscaped(s: string)
    ensures Escaped(Escape(s))
  {
    if s != "" {
      EscapeStep(s);
      EscapeIsEscaped(s[1..]);
    }
  }

  /** Unescaping undoes escaping, for every text. */
  lemma {:induction false} UnescapeEscape(s: string)
    ensures Unescape(Escape(s)) == s
  {
    if s != "" {
      EscapeStep(s);
      EscapeIsEscaped(s);
      UnescapeStep(Escape(s));
      var e := Escape(s);
      assert FirstLen(e) == |EscapeChar(s[0])| && FirstChar(e) == s[0];
      assert e[FirstLen(e)..] == Escape(s[1..]);
      UnescapeEscape(s[1..]);
    }
  }

  /** Escaping undoes unescaping, for every properly escaped text. */
  lemma {:induction false} EscapeUnescape(s: string)
    requires Escaped(s)
    ensures Escape(Unescape(s)) == s
    decreases |s|
  {
    if s != "" {
      EscapedRest(s);
      var n := FirstLen(s);
      UnescapeStep(s);
      EscapeUnescape(s[n..]);
      var u := Unescape(s);
      EscapeStep(u);
      assert u[1..] == Unescape(s[n..]);
      assert s == s[..n] + s[n..];
    }
  }

  // -------- Array indices --------

  predicate Digit(c: char) {
    '0' <= c <= '9'
  }

  function ToString(n: nat): (s: string)
    ensures s != "" && forall i :: 0 <= i < |s| ==> Digit(s[i])
    ensures |s| > 1 ==> s[0] != '0'
  {
    var d := '0' + (n % 10) as char;
    if n < 10 then [d] else ToString(n / 10) + [d]
  }

  function Value(s: string): nat
    requires forall i :: 0 <= i < |s| ==> Digit(s[i])
  {
    if s == "" then 0
    else
      assert Digit(s[|s| - 1]);
      10 * Value(s[..|s| - 1]) + (s[|s| - 1] as int - '0' as int)
  }

  const SIZE_MAX := 0xFFFF_FFFF_FFFF_FFFF

  /** `array_index`: a decimal number without leading zeros below the largest 64-bit value. */
  function ArrayIndex(s: string): Result<nat> {
    if |s| > 1 && s[0] == '0' then Err(106)
    else if |s| > 1 && !('1' <= s[0] <= '9') then Err(109)
    else if s == "" || !(forall i :: 0 <= i < |s| ==> Digit(s[i])) || Value(s) > SIZE_MAX then Err(404)
    else if Value(s) == SIZE_MAX then Err(410)
    else Ok(Value(s))
  }

  lemma {:induction false} ValueToString(n: nat)
    ensures Value(ToString(n)) == n
  {
    var s := ToString(n);
    if n >= 10 {
      ValueToString(n / 10);
      assert s[..|s| - 1] == ToString(n / 10);
    }
  }

  lemma IndexToString(n: nat)
    ensures ArrayIndex(ToString(n)) == if n < SIZE_MAX then Ok(n) else if n == SIZE_MAX then Err(410) else Err(404)
  {
    ValueToString(n);
  }

  lemma {:induction false} EscapePlain(s: string)
    requires forall i :: 0 <= i < |s| ==> s[i] != '~' && s[i] != '/'
    ensures Escape(s) == s
  {
    if s != "" {
      EscapeStep(s);
      EscapePlain(s[1..]);
    }
  }
}
