/** What a channel can always do: take a message, land it, and let the reader have it. */
module LogDelivery {
  import opened Messages
  import opened LogLayout
  import opened LogChannel

  /** Steps of the network and the reader. */
  ghost predicate Takes(s: State, s': State) {
    || (exists k, upTo :: Arrive(s, s', k, upTo))
    || Read(s, s')
    || (exists clear :: Finish(s, s', clear))
  }

  lemma TakesInv(s: State, s': State)
    requires Inv(s) && Takes(s, s')
    ensures Step(s, s') && Inv(s')
  {
    StepInv(s, s');
  }

  ghost predicate TakesAt(ss: seq<State>, i: nat)
    requires i + 1 < |ss|
  {
    Takes(ss[i], ss[i + 1])
  }

  ghost predicate Path(ss: seq<State>) {
    |ss| > 0 && forall i: nat {:trigger TakesAt(ss, i)} :: i + 1 < |ss| ==> TakesAt(ss, i)
  }

  lemma PathFirst(s: State, ss: seq<State>)
    requires Path(ss) && Takes(s, ss[0])
    ensures Path([s] + ss)
  {
    forall i: nat | i + 1 < |[s] + ss|
      ensures TakesAt([s] + ss, i)
    {
      assert i > 0 ==> TakesAt(ss, i - 1);
    }
  }

  lemma {:induction false} GotGrows(ss: seq<State>, n: nat)
    requires Path(ss) && n < |ss|
    ensures |ss[0].got| <= |ss[n].got|
  {
    if n > 0 {
      GotGrows(ss, n - 1);
      assert TakesAt(ss, n - 1);
    }
  }

  /** Before the first wrap any message of a type the reader listens to can be sent. */
  lemma CanSend(s: State, req: Request) returns (s': State)
    requires |req.payload| <= 65531 && ShareBit(req.msg, s.mask) && !Wrapped(|s.sent|, s.next)
    ensures Send(s, s', req) && Step(s, s')
  {
    var rec := Record(req.hashv, |req.payload|, s.inst, req.msg, req.payload);
    s' := s.(sent := s.sent + [rec], posts := s.posts + [Post(s.next, WireBytes(rec), 0)],
             next := s.after(s.next, rec.size), inst := (s.inst + 1) % 256);
    assert Send(s, s', req);
  }

  lemma CanFinish(s: State) returns (s': State)
    requires Inv(s) && s.holding
    ensures Takes(s, s') && s'.sent == s.sent && s'.got == s.got && s'.posts == s.posts && !s'.holding
  {
    var k := |s.got| - 1;
    assert PostOk(s, k);
    InBuffer(s, s.posts[k].idx);
    s' := s.(holding := false);
    assert Finish(s, s', false);
  }

  lemma CanLand(s: State, k: nat) returns (s': State)
    requires Inv(s) && k < |s.posts| && s.posts[k].arrived < |s.posts[k].data|
    ensures Takes(s, s') && s'.sent == s.sent && s'.got == s.got && s'.holding == s.holding
    ensures |s'.posts| == |s.posts| && s'.posts[k] == s.posts[k].(arrived := |s.posts[k].data|)
  {
    assert PostOk(s, k);
    InBuffer(s, s.posts[k].idx);
    var p := s.posts[k];
    s' := s.(posts := s.posts[k := p.(arrived := |p.data|)],
             mem := Overlay(s.mem, Pos(p) + p.arrived, p.data[p.arrived..|p.data|]));
    assert Arrive(s, s', k, |p.data|);
  }

  lemma CanRead(s: State) returns (s': State)
    requires Inv(s) && !s.holding && |s.got| < |s.sent|
    requires s.posts[|s.got|].arrived == |s.posts[|s.got|].data|
    ensures Read(s, s') && Takes(s, s') && s'.sent == s.sent && |s'.got| == |s.got| + 1
  {
    var k := |s.got|;
    assert PostOk(s, k);
    LookIff(s, k);
    var off := Offset(s.rnext);
    var rec := LookAt(s.mem, off, s.mask).rec;
    s' := s.(mem := Taken(s.mem, off, rec), got := s.got + [rec],
             rnext := s.after(s.rnext, rec.size), rinst := (s.rinst + 1) % 256, holding := true);
  }

  /** The reader done with what it took last, and the next entry landed: steps to there. */
  lemma CanPrepare(s: State) returns (ss: seq<State>)
    requires Inv(s) && |s.got| < |s.sent|
    ensures Path(ss) && ss[0] == s
    ensures var e := ss[|ss| - 1];
            && Inv(e) && e.sent == s.sent && e.got == s.got && !e.holding
            && e.posts[|e.got|].arrived == |e.posts[|e.got|].data|
  {
    ss := [s];
    var e := s;
    if s.holding {
      e := CanFinish(s);
      TakesInv(s, e);
      PathFirst(s, [e]);
      ss := [s] + [e];
    }
    var k := |e.got|;
    assert PostOk(e, k);
    if e.posts[k].arrived < |e.posts[k].data| {
      var e' := CanLand(e, k);
      TakesInv(e, e');
      ss := PathLast(ss, e');
    }
  }

  lemma PathLast(ss: seq<State>, e: State) returns (ss': seq<State>)
    requires Path(ss) && Takes(ss[|ss| - 1], e)
    ensures ss' == ss + [e] && Path(ss')
  {
    ss' := ss + [e];
    forall i: nat | i + 1 < |ss'|
      ensures TakesAt(ss', i)
    {
      assert i + 1 < |ss| ==> TakesAt(ss, i);
    }
  }

  lemma PathJoin(ss: seq<State>, tt: seq<State>)
    requires Path(ss) && Path(tt) && ss[|ss| - 1] == tt[0]
    ensures Path(ss + tt[1..])
  {
    var uu := ss + tt[1..];
    forall i: nat | i + 1 < |uu|
      ensures TakesAt(uu, i)
    {
      if i + 1 < |ss| {
        assert TakesAt(ss, i);
      } else {
        assert TakesAt(tt, i + 1 - |ss|);
      }
    }
  }

  /** One more entry read. */
  lemma CanTake(s: State) returns (ss: seq<State>)
    requires Inv(s) && |s.got| < |s.sent|
    ensures Path(ss) && ss[0] == s
    ensures var e := ss[|ss| - 1]; Inv(e) && e.sent == s.sent && |e.got| == |s.got| + 1
  {
    ss := CanPrepare(s);
    var e := CanRead(ss[|ss| - 1]);
    TakesInv(ss[|ss| - 1], e);
    ss := PathLast(ss, e);
  }

  /** From every reachable state the network and the reader alone can bring over all
      that was sent, and what is read is what was sent. */
  lemma {:induction false} CanDeliver(s: State) returns (ss: seq<State>)
    requires Inv(s)
    ensures Path(ss) && ss[0] == s
    ensures var e := ss[|ss| - 1];
            && e.sent == s.sent && |e.got| == |s.sent|
            && forall k :: 0 <= k < |s.sent| ==> e.got[k] == Received(s.sent[k])
    decreases |s.sent| - |s.got|
  {
    if |s.got| == |s.sent| {
      ss := [s];
      forall k | 0 <= k < |s.sent|
        ensures s.got[k] == Received(s.sent[k])
      {
        assert Handled(s, k);
      }
    } else {
      var first := CanTake(s);
      var rest := CanDeliver(first[|first| - 1]);
      PathJoin(first, rest);
      ss := first + rest[1..];
    }
  }
}
