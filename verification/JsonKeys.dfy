/** The order in which the keys of an object are visited: that of `std::map`, lexicographic. */
module JsonKeys {

  predicate Less(a: string, b: string) {
    b != "" && (a == "" || a[0] < b[0] || (a[0] == b[0] && Less(a[1..], b[1..])))
  }

  /** `a` and `b` agree before position `n`; there `a` ends or has the smaller character. */
  predicate LessAt(a: string, b: string, n: nat) {
    n <= |a| && n < |b| && a[..n] == b[..n] && (n == |a| || a[n] < b[n])
  }

  /** The first position where two keys differ decides. */
  lemma {:induction false} LessIff(a: string, b: string)
    ensures Less(a, b) <==> exists n :: LessAt(a, b, n)
    decreases |a|
  {
    if b != "" && (a == "" || a[0] < b[0]) {
      assert LessAt(a, b, 0);
    } else if b != "" && a[0] == b[0] {
      LessIff(a[1..], b[1..]);
      if n: nat :| LessAt(a[1..], b[1..], n) {
        assert a[..n + 1] == [a[0]] + a[1..][..n] && b[..n + 1] == [b[0]] + b[1..][..n];
        assert LessAt(a, b, n + 1);
      }
      if n: nat :| LessAt(a, b, n) {
        LessAtTail(a, b, n);
      }
    }
  }

  lemma LessAtTail(a: string, b: string, n: nat)
    requires LessAt(a, b, n) && a != "" && a[0] == b[0]
    ensures n > 0 && LessAt(a[1..], b[1..], n - 1)
  {
    assert a[1..][..n - 1] == a[..n][1..] && b[1..][..n - 1] == b[..n][1..];
  }

  lemma {:induction false} LessTotal(a: string, b: string)
    ensures a == b || Less(a, b) || Less(b, a)
    ensures !(Less(a, b) && Less(b, a)) && !Less(a, a)
    decreases |a|
  {
    if a != "" && b != "" {
      LessTotal(a[1..], b[1..]);
      assert a == [a[0]] + a[1..] && b == [b[0]] + b[1..];
    }
    if a != "" {
      LessTotal(a[1..], a[1..]);
    }
  }

  lemma {:induction false} LessTrans(a: string, b: string, c: string)
    requires Less(a, b) && Less(b, c)
    ensures Less(a, c)
    decreases |a|
  {
    if a != "" && a[0] == b[0] == c[0] {
      LessTrans(a[1..], b[1..], c[1..]);
    }
  }

  ghost predicate IsFirst(s: set<string>, k: string) {
    k in s && forall x :: x in s && x != k ==> Less(k, x)
  }

  lemma {:induction false} FirstExists(s: set<string>) returns (k: string)
    requires s != {}
    ensures IsFirst(s, k)
    decreases |s|
  {
    var x :| x in s;
    var rest := s - {x};
    if rest == {} {
      assert s == {x};
      k := x;
    } else {
      var y := FirstExists(rest);
      LessTotal(x, y);
      if Less(x, y) {
        k := x;
        forall z | z in s && z != x
          ensures Less(x, z)
        {
          if z != y {
            LessTrans(x, y, z);
          }
        }
      } else {
        k := y;
        forall z | z in s && z != y
          ensures Less(y, z)
        {
          assert z == x || z in rest;
        }
      }
    }
  }

  lemma FirstUnique(s: set<string>, k: string, l: string)
    requires IsFirst(s, k) && IsFirst(s, l)
    ensures k == l
  {
    LessTotal(k, l);
  }

  ghost function FirstKey(s: set<string>): (k: string)
    requires s != {}
    ensures IsFirst(s, k)
  {
    assert exists k :: IsFirst(s, k) by {
      var k := FirstExists(s);
    }
    var k :| IsFirst(s, k);
    k
  }

  ghost function Elements(keys: seq<string>): set<string> {
    set k | k in keys
  }

  /** The keys in visiting order. */
  ghost function Sorted(s: set<string>): seq<string>
    decreases |s|
  {
    if s == {} then [] else [FirstKey(s)] + Sorted(s - {FirstKey(s)})
  }

  lemma {:induction false} SortedMembers(s: set<string>, k: string)
    ensures k in Sorted(s) <==> k in s
    decreases |s|
  {
    if s != {} {
      SortedMembers(s - {FirstKey(s)}, k);
    }
  }

  lemma {:induction false} SortedAscends(s: set<string>, i: nat, j: nat)
    requires i < j < |Sorted(s)|
    ensures Less(Sorted(s)[i], Sorted(s)[j])
    decreases |s|
  {
    var first := FirstKey(s);
    if i > 0 {
      SortedAscends(s - {first}, i - 1, j - 1);
    } else {
      var k := Sorted(s - {first})[j - 1];
      SortedMembers(s - {first}, k);
      assert k in s - {first};
    }
  }

  /** It has each key once, and in ascending order. */
  lemma SortedOk(s: set<string>)
    ensures forall k :: k in Sorted(s) <==> k in s
    ensures forall i, j :: 0 <= i < j < |Sorted(s)| ==> Sorted(s)[i] != Sorted(s)[j]
  {
    forall k
      ensures k in Sorted(s) <==> k in s
    {
      SortedMembers(s, k);
    }
    forall i, j | 0 <= i < j < |Sorted(s)|
      ensures Sorted(s)[i] != Sorted(s)[j]
    {
      SortedAscends(s, i, j);
      LessTotal(Sorted(s)[i], Sorted(s)[j]);
    }
  }

  lemma {:induction false} SortedSize(s: set<string>)
    ensures |Sorted(s)| == |s|
    decreases |s|
  {
    if s != {} {
      SortedSize(s - {FirstKey(s)});
    }
  }

  method SortedKeys(s: set<string>) returns (r: seq<string>)
    ensures r == Sorted(s)
  {
    r := [];
    var rest := s;
    while rest != {}
      invariant r + Sorted(rest) == Sorted(s)
      decreases |rest|
    {
      var k := FirstOf(rest);
      assert (r + [k]) + Sorted(rest - {k}) == r + ([k] + Sorted(rest - {k}));
      r := r + [k];
      rest := rest - {k};
    }
  }

  method FirstOf(s: set<string>) returns (k: string)
    requires s != {}
    ensures k == FirstKey(s)
  {
    assert IsFirst(s, FirstKey(s));
    k :| k in s && forall x :: x in s && x != k ==> Less(k, x);
    FirstUnique(s, k, FirstKey(s));
  }
}
