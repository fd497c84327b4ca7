/** What replayers get to see, and that no proposal is lost or made twice. */
module ClusterReplay {
  import opened Messages
  import opened Cluster
  import R = Replicator
  import Runs = ReplicatorRuns

  /** The records of hash `k`, in order. */
  function Of(rs: seq<Request>, k: nat): (r: seq<Request>)
  {
    if rs == [] then []
    else Of(rs[..|rs| - 1], k) + if rs[|rs| - 1].hashv == k then [rs[|rs| - 1]] else []
  }

  lemma {:induction false} OfPrefix(a: seq<Request>, b: seq<Request>, k: nat)
    requires a <= b
    ensures Of(a, k) <= Of(b, k)
  {
    if a != b {
      OfPrefix(a, b[..|b| - 1], k);
    }
  }

  lemma OfAppend(rs: seq<Request>, r: Request, k: nat)
    ensures Of(rs + [r], k) == Of(rs, k) + if r.hashv == k then [r] else []
  {
    assert (rs + [r])[..|rs|] == rs;
  }

  lemma OfTake(rs: seq<Request>, p: nat, k: nat)
    requires p < |rs|
    ensures Of(rs[..p + 1], k) == Of(rs[..p], k) + if rs[p].hashv == k then [rs[p]] else []
  {
    assert rs[..p + 1] == rs[..p] + [rs[p]];
    OfAppend(rs[..p], rs[p], k);
  }

  lemma {:induction false} OfLast(rs: seq<Request>, i: nat)
    requires Runs.LastOf(rs, i)
    ensures var f := Of(rs, rs[i].hashv); |f| > 0 && f[|f| - 1] == rs[i]
  {
    if i < |rs| - 1 {
      assert rs[..|rs| - 1][i] == rs[i];
      OfLast(rs[..|rs| - 1], i);
    }
  }

  /** Where two records of one hash stand. */
  lemma {:induction false} OfIndices(rs: seq<Request>, k: nat, a: nat, b: nat) returns (x: nat, y: nat)
    requires a <= b < |Of(rs, k)|
    ensures x <= y < |rs| && (a < b ==> x < y)
    ensures rs[x] == Of(rs, k)[a] && rs[y] == Of(rs, k)[b] && rs[x].hashv == rs[y].hashv == k
    decreases |rs|
  {
    var init := rs[..|rs| - 1];
    if b < |Of(init, k)| {
      x, y := OfIndices(init, k, a, b);
    } else {
      y := |rs| - 1;
      if a < b {
        var _, x' := OfIndices(init, k, a, a);
        x := x';
      } else {
        x := y;
      }
    }
  }

  // -------- Replaying --------

  /** What node `j` has replayed for hash `k`: a beginning of the owner's log, and nothing else. */
  ghost predicate SeenOk(s: State, j: nat, k: nat)
    requires Shape(s) && j < |s.nodes|
  {
    var o := s.rule(k);
    Of(s.seen[j], k) == if o < |s.nodes| && o != j && s.replayed[j][o] <= |s.nodes[o].log|
                        then Of(s.nodes[o].log[..s.replayed[j][o]], k) else []
  }

  ghost predicate ReplayInv(s: State) {
    && Shape(s)
    && (forall j, i :: 0 <= j < |s.nodes| && 0 <= i < |s.nodes| ==> s.replayed[j][i] <= |s.nodes[i].log|)
    && (forall j, k: nat {:trigger SeenOk(s, j, k)} :: 0 <= j < |s.nodes| ==> SeenOk(s, j, k))
  }

  lemma InitReplay(s: State)
    requires Init(s)
    ensures ReplayInv(s)
  {
  }

  /** Growing logs do not change what was replayed from them. */
  lemma GrowReplay(s: State, s': State)
    requires ReplayInv(s) && Shape(s') && |s'.nodes| == |s.nodes|
    requires s'.rule == s.rule && s'.replayed == s.replayed && s'.seen == s.seen
    requires forall i :: 0 <= i < |s.nodes| ==> s.nodes[i].log <= s'.nodes[i].log
    ensures ReplayInv(s')
  {
    forall j, k: nat | 0 <= j < |s'.nodes|
      ensures SeenOk(s', j, k)
    {
      assert SeenOk(s, j, k);
      var o := s.rule(k);
      if o < |s.nodes| && o != j {
        assert s'.nodes[o].log[..s.replayed[j][o]] == s.nodes[o].log[..s.replayed[j][o]];
      }
    }
  }

  /** Every record in the log of node `i` is a request fit for it. */
  lemma LogFits(s: State, i: nat, m: nat)
    requires SourceInv(s) && i < |s.nodes| && m < |s.nodes[i].log|
    ensures Fit(s, i, s.nodes[i].log[m])
  {
    assert NodeOk(s, i);
    Runs.ReachableInv(s.nodes[i]);
    Runs.LoggedWasCalled(s.nodes[i]);
  }

  lemma ReplayReplay(s: State, s': State, j: nat, i: nat)
    requires SourceInv(s) && ReplayInv(s) && Replay(s, s', j, i)
    ensures ReplayInv(s')
  {
    var p := s.replayed[j][i];
    var rec := s.nodes[i].log[p];
    LogFits(s, i, p);
    forall a, k: nat | 0 <= a < |s'.nodes|
      ensures SeenOk(s', a, k)
    {
      assert SeenOk(s, a, k);
      if a == j {
        OfAppend(s.seen[j], rec, k);
        OfTake(s.nodes[i].log, p, k);
      }
    }
  }

  lemma WorkReplay(s: State, s': State, i: nat, node: R.State)
    requires ReplayInv(s) && Work(s, s', i, node)
    ensures ReplayInv(s')
  {
    Runs.StepGrows(s.nodes[i], node);
    GrowReplay(s, s');
  }

  lemma CallReplay(s: State, s': State)
    requires ReplayInv(s)
    requires || (exists i, t, hashv, payload :: Propose(s, s', i, t, hashv, payload))
             || (exists i, req :: Forward(s, s', i, req)) || (exists j, i :: Hear(s, s', j, i))
    ensures ReplayInv(s')
  {
    GrowReplay(s, s');
  }

  lemma StepReplay(s: State, s': State)
    requires SourceInv(s) && ReplayInv(s) && Step(s, s')
    ensures ReplayInv(s')
  {
    if j, i :| Replay(s, s', j, i) {
      ReplayReplay(s, s', j, i);
    } else if i, node :| Work(s, s', i, node) {
      WorkReplay(s, s', i, node);
    } else {
      CallReplay(s, s');
    }
  }

  // -------- No proposal is lost or made twice --------

  ghost predicate Called(s: State, o: nat, id: nat)
    requires o < |s.nodes|
  {
    exists r :: r in s.nodes[o].calls && r.id == id
  }

  ghost predicate OnTheWay(s: State, i: nat, o: nat, id: nat)
    requires Shape(s) && o < |s.nodes| && i < |s.nodes|
  {
    exists k: nat :: s.heard[o][i] <= k < |s.forwards[i]| && s.forwards[i][k].id == id
  }

  ghost predicate InCheck(s: State, i: nat, id: nat)
    requires Shape(s) && i < |s.nodes|
  {
    exists r :: r in s.checking[i] && r.id == id
  }

  /** Where proposal `id` is, provided that its hash has an owner. */
  ghost predicate Placed(s: State, id: nat)
    requires Shape(s) && id < |s.proposals|
  {
    var i, o := s.proposals[id].origin, s.rule(s.proposals[id].hashv);
    i < |s.nodes| && (o < |s.nodes| ==> Called(s, o, id) || OnTheWay(s, i, o, id) || InCheck(s, i, id))
  }

  ghost predicate IdsDiffer(rs: seq<Request>) {
    forall a, b :: 0 <= a < b < |rs| ==> rs[a].id != rs[b].id
  }

  /** A call for somebody else's proposal has been heard from there. */
  ghost predicate WasHeard(s: State, o: nat, r: Request)
    requires Shape(s) && o < |s.nodes|
  {
    r.id < |s.proposals| &&
    var i := s.proposals[r.id].origin;
    i != o ==> i < |s.nodes| && exists k: nat :: k < s.heard[o][i] && k < |s.forwards[i]| && s.forwards[i][k].id == r.id
  }

  ghost predicate NotSent(s: State, i: nat, r: Request)
    requires Shape(s) && i < |s.nodes|
  {
    forall k :: 0 <= k < |s.forwards[i]| ==> s.forwards[i][k].id != r.id
  }

  ghost predicate Single(s: State, i: nat)
    requires Shape(s) && i < |s.nodes|
  {
    && IdsDiffer(s.nodes[i].calls) && IdsDiffer(s.forwards[i])
    && (forall r {:trigger NotSent(s, i, r)} :: r in s.checking[i] ==> NotSent(s, i, r))
    && (forall r {:trigger WasHeard(s, i, r)} :: r in s.nodes[i].calls ==> WasHeard(s, i, r))
    && (forall j :: 0 <= j < |s.nodes| ==> s.heard[j][i] <= |s.forwards[i]|)
  }

  ghost predicate AccountInv(s: State) {
    && Shape(s)
    && (forall id: nat {:trigger Placed(s, id)} :: id < |s.proposals| ==> Placed(s, id))
    && (forall i {:trigger Single(s, i)} :: 0 <= i < |s.nodes| ==> Single(s, i))
  }

  lemma InitAccount(s: State)
    requires Init(s)
    ensures AccountInv(s)
  {
    forall i | 0 <= i < |s.nodes|
      ensures Single(s, i)
    {
      assert R.Init(s.nodes[i]);
    }
  }

  /** Nothing that accounts for proposals changes. */
  lemma SameAccount(s: State, s': State)
    requires AccountInv(s) && Shape(s') && |s'.nodes| == |s.nodes|
    requires s'.rule == s.rule && s'.proposals == s.proposals && s'.checking == s.checking
    requires s'.forwards == s.forwards && s'.heard == s.heard
    requires forall i :: 0 <= i < |s.nodes| ==> s'.nodes[i].calls == s.nodes[i].calls
    ensures AccountInv(s')
  {
    forall id: nat | id < |s.proposals|
      ensures Placed(s', id)
    {
      assert Placed(s, id);
      var i, o := s.proposals[id].origin, s.rule(s.proposals[id].hashv);
      if o < |s.nodes| {
        assert Called(s, o, id) ==> Called(s', o, id);
        assert OnTheWay(s, i, o, id) ==> OnTheWay(s', i, o, id);
        assert InCheck(s, i, id) ==> InCheck(s', i, id);
      }
    }
    forall i | 0 <= i < |s.nodes|
      ensures Single(s', i)
    {
      assert Single(s, i);
      forall r | r in s'.checking[i]
        ensures NotSent(s', i, r)
      {
        assert NotSent(s, i, r);
      }
      forall r | r in s'.nodes[i].calls
        ensures WasHeard(s', i, r)
      {
        assert WasHeard(s, i, r);
      }
    }
  }

  /** `Placed` and `WasHeard` of all proposals but `except` carry over when calls and
      forwards only grow and nothing but `except` is heard or leaves a checker. */
  ghost predicate Moves(s: State, s': State, except: nat) {
    && Shape(s) && Shape(s') && |s'.nodes| == |s.nodes| && s'.rule == s.rule && s.proposals <= s'.proposals
    && (forall i :: 0 <= i < |s.nodes| ==> s.nodes[i].calls <= s'.nodes[i].calls && s.forwards[i] <= s'.forwards[i])
    && (forall i, r :: 0 <= i < |s.nodes| && r in s.checking[i] && r.id != except ==> r in s'.checking[i])
    && (forall j, i :: 0 <= j < |s.nodes| && 0 <= i < |s.nodes| ==> s.heard[j][i] <= s'.heard[j][i])
    && (forall j, i, k: nat ::
          0 <= j < |s.nodes| && 0 <= i < |s.nodes| && s.heard[j][i] <= k < s'.heard[j][i] && k < |s.forwards[i]| ==>
          s.forwards[i][k].id == except)
  }

  lemma PlacedKept(s: State, s': State, except: nat, id: nat)
    requires Moves(s, s', except) && id < |s.proposals| && Placed(s, id) && id != except
    ensures Placed(s', id)
  {
    var i, o := s.proposals[id].origin, s.rule(s.proposals[id].hashv);
    if o < |s.nodes| {
      if Called(s, o, id) {
        assert Called(s', o, id);
      } else if OnTheWay(s, i, o, id) {
        var k: nat :| s.heard[o][i] <= k < |s.forwards[i]| && s.forwards[i][k].id == id;
        assert s'.forwards[i][k].id == id;
      } else {
        assert InCheck(s', i, id);
      }
    }
  }

  lemma HeardKept(s: State, s': State, except: nat, o: nat, r: Request)
    requires Moves(s, s', except) && o < |s.nodes| && WasHeard(s, o, r)
    ensures WasHeard(s', o, r)
  {
    var i := s.proposals[r.id].origin;
    if i != o {
      var k: nat :| k < s.heard[o][i] && k < |s.forwards[i]| && s.forwards[i][k].id == r.id;
      assert s'.forwards[i][k].id == r.id;
    }
  }

  /** Everything at node `a` but what is said about its own checker and new calls. */
  lemma SingleKept(s: State, s': State, except: nat, a: nat)
    requires Moves(s, s', except) && a < |s.nodes| && Single(s, a)
    requires IdsDiffer(s'.nodes[a].calls) && IdsDiffer(s'.forwards[a])
    requires forall r :: r in s'.nodes[a].calls && r !in s.nodes[a].calls ==> WasHeard(s', a, r)
    requires forall r :: r in s'.checking[a] ==> NotSent(s', a, r)
    requires forall j :: 0 <= j < |s.nodes| ==> s'.heard[j][a] <= |s'.forwards[a]|
    ensures Single(s', a)
  {
    forall r | r in s'.nodes[a].calls
      ensures WasHeard(s', a, r)
    {
      if r in s.nodes[a].calls {
        assert WasHeard(s, a, r);
        HeardKept(s, s', except, a, r);
      }
    }
  }

  /** Ids of calls and of messages are ids of proposals. */
  lemma KnownIds(s: State, a: nat)
    requires SourceInv(s) && a < |s.nodes|
    ensures forall r :: r in s.nodes[a].calls || r in s.forwards[a] || r in s.checking[a] ==> r.id < |s.proposals|
  {
    assert NodeOk(s, a) && CheckerOk(s, a);
    forall r | r in s.nodes[a].calls || r in s.forwards[a] || r in s.checking[a]
      ensures r.id < |s.proposals|
    {
      assert r in s.nodes[a].calls ==> Fit(s, a, r);
      assert r in s.forwards[a] || r in s.checking[a] ==> Waits(s, a, r);
    }
  }

  lemma ProposeSingle(s: State, s': State, i: nat, t: nat, hashv: word, payload: seq<byte>, a: nat)
    requires SourceInv(s) && AccountInv(s) && Propose(s, s', i, t, hashv, payload) && a < |s.nodes|
    requires Moves(s, s', |s.proposals|)
    ensures Single(s', a)
  {
    var id := |s.proposals|;
    KnownIds(s, a);
    assert Single(s, a);
    assert s'.forwards == s.forwards;
    forall r | r in s'.checking[a]
      ensures NotSent(s', a, r)
    {
      assert r.id != id ==> NotSent(s, a, r);
    }
    SingleKept(s, s', id, a);
  }

  lemma ProposeAccount(s: State, s': State, i: nat, t: nat, hashv: word, payload: seq<byte>)
    requires SourceInv(s) && AccountInv(s) && Propose(s, s', i, t, hashv, payload)
    ensures AccountInv(s')
  {
    var id := |s.proposals|;
    assert Moves(s, s', id);
    forall m: nat | m < |s'.proposals|
      ensures Placed(s', m)
    {
      if m < id {
        assert Placed(s, m);
        PlacedKept(s, s', id, m);
      } else if s.rule(hashv) == i {
        assert Request(hashv, payload, MSG_PURE, id) in s'.nodes[i].calls;
        assert Called(s', i, m);
      } else {
        assert Request(hashv, payload, MSG_WAIT, id) in s'.checking[i];
        assert InCheck(s', i, m);
      }
    }
    forall a | 0 <= a < |s.nodes|
      ensures Single(s', a)
    {
      ProposeSingle(s, s', i, t, hashv, payload, a);
    }
  }

  lemma ForwardAccount(s: State, s': State, i: nat, req: Request)
    requires SourceInv(s) && AccountInv(s) && Forward(s, s', i, req)
    ensures AccountInv(s')
  {
    assert Moves(s, s', req.id);
    assert CheckerOk(s, i) && Single(s, i) && Waits(s, i, req) && NotSent(s, i, req);
    forall m: nat | m < |s'.proposals|
      ensures Placed(s', m)
    {
      assert Placed(s, m);
      if m != req.id {
        PlacedKept(s, s', req.id, m);
      } else {
        assert s'.forwards[i][|s.forwards[i]|].id == m;
      }
    }
    forall a | 0 <= a < |s.nodes|
      ensures Single(s', a)
    {
      assert Single(s, a);
      forall r | r in s'.checking[a]
        ensures NotSent(s', a, r)
      {
        assert NotSent(s, a, r);
        assert a == i ==> Waits(s, i, r) && r != req;
      }
      SingleKept(s, s', req.id, a);
    }
  }

  /** The WAIT message just heard has not been called before. */
  lemma HeardIsNew(s: State, j: nat, i: nat)
    requires SourceInv(s) && AccountInv(s) && i < |s.nodes| && j < |s.nodes| && i != j
    requires s.heard[j][i] < |s.forwards[i]|
    ensures var req := s.forwards[i][s.heard[j][i]];
            Waits(s, i, req) && forall r :: r in s.nodes[j].calls ==> r.id != req.id
  {
    var req := s.forwards[i][s.heard[j][i]];
    assert CheckerOk(s, i) && Waits(s, i, req);
    assert Single(s, i) && Single(s, j);
    forall r | r in s.nodes[j].calls
      ensures r.id != req.id
    {
      assert WasHeard(s, j, r);
    }
  }

  lemma HearAccount(s: State, s': State, j: nat, i: nat)
    requires SourceInv(s) && AccountInv(s) && Hear(s, s', j, i)
    ensures AccountInv(s')
  {
    var req := s.forwards[i][s.heard[j][i]];
    HeardIsNew(s, j, i);
    assert Moves(s, s', req.id);
    forall m: nat | m < |s'.proposals|
      ensures Placed(s', m)
    {
      assert Placed(s, m);
      if m != req.id {
        PlacedKept(s, s', req.id, m);
      } else {
        HearPlaced(s, s', j, i);
      }
    }
    forall a | 0 <= a < |s.nodes|
      ensures Single(s', a)
    {
      HearSingle(s, s', j, i, a);
    }
  }

  lemma HearSingle(s: State, s': State, j: nat, i: nat, a: nat)
    requires SourceInv(s) && AccountInv(s) && Hear(s, s', j, i) && a < |s.nodes|
    requires Moves(s, s', s.forwards[i][s.heard[j][i]].id)
    ensures Single(s', a)
  {
    var req := s.forwards[i][s.heard[j][i]];
    HeardIsNew(s, j, i);
    assert Single(s, a);
    forall r | r in s'.checking[a]
      ensures NotSent(s', a, r)
    {
      assert NotSent(s, a, r);
    }
    if a == j && s.rule(req.hashv) == j {
      assert s'.forwards[i][s.heard[j][i]].id == req.id;
      assert WasHeard(s', j, req.(msg := MSG_ACK));
    }
    SingleKept(s, s', req.id, a);
  }

  lemma HearPlaced(s: State, s': State, j: nat, i: nat)
    requires SourceInv(s) && AccountInv(s) && Hear(s, s', j, i)
    requires Waits(s, i, s.forwards[i][s.heard[j][i]])
    ensures Placed(s', s.forwards[i][s.heard[j][i]].id)
  {
    var req := s.forwards[i][s.heard[j][i]];
    var o := s.rule(req.hashv);
    assert Placed(s, req.id);
    if o == j {
      assert req.(msg := MSG_ACK) in s'.nodes[j].calls;
      assert Called(s', j, req.id);
    } else if o < |s.nodes| {
      assert s'.heard[o][i] == s.heard[o][i];
      assert Called(s, o, req.id) ==> Called(s', o, req.id);
      assert OnTheWay(s, i, o, req.id) ==> OnTheWay(s', i, o, req.id);
      assert InCheck(s, i, req.id) ==> InCheck(s', i, req.id);
    }
  }

  lemma QuietAccount(s: State, s': State)
    requires AccountInv(s)
    requires (exists i, node :: Work(s, s', i, node)) || (exists j, i :: Replay(s, s', j, i))
    ensures AccountInv(s')
  {
    SameAccount(s, s');
  }

  lemma StepAccount(s: State, s': State)
    requires SourceInv(s) && AccountInv(s) && Step(s, s')
    ensures AccountInv(s')
  {
    if i, t, hashv, payload :| Propose(s, s', i, t, hashv, payload) {
      ProposeAccount(s, s', i, t, hashv, payload);
    } else if i, req :| Forward(s, s', i, req) {
      ForwardAccount(s, s', i, req);
    } else if j, i :| Hear(s, s', j, i) {
      HearAccount(s, s', j, i);
    } else {
      QuietAccount(s, s');
    }
  }
}
