/** What holds over whole runs of the cluster. */
module ClusterRuns {
  import opened Messages
  import opened Cluster
  import opened ClusterReplay
  import R = Replicator
  import RInv = ReplicatorInv
  import Runs = ReplicatorRuns

  ghost predicate StepAt(ss: seq<State>, i: nat)
    requires i + 1 < |ss|
  {
    Step(ss[i], ss[i + 1])
  }

  ghost predicate Run(ss: seq<State>) {
    |ss| > 0 && Init(ss[0]) && forall i :: 0 <= i < |ss| - 1 ==> StepAt(ss, i)
  }

  lemma StepSource(s: State, s': State)
    requires SourceInv(s) && Step(s, s')
    ensures SourceInv(s')
  {
    if i, t, hashv, payload :| Propose(s, s', i, t, hashv, payload) {
      ProposeSource(s, s', i, t, hashv, payload);
    } else if i, req :| Forward(s, s', i, req) {
      ForwardSource(s, s', i, req);
    } else if j, i :| Hear(s, s', j, i) {
      HearSource(s, s', j, i);
    } else if i, node :| Work(s, s', i, node) {
      WorkSource(s, s', i, node);
    } else {
      var j, i :| Replay(s, s', j, i);
      ReplaySource(s, s', j, i);
    }
  }

  ghost predicate Inv(s: State) {
    SourceInv(s) && ReplayInv(s) && AccountInv(s)
  }

  lemma InitInv(s: State)
    requires Init(s)
    ensures Inv(s)
  {
    InitSource(s);
    InitReplay(s);
    InitAccount(s);
  }

  lemma StepInv(ss: seq<State>, n: nat)
    requires Run(ss) && n + 1 < |ss| && Inv(ss[n])
    ensures Inv(ss[n + 1])
  {
    assert StepAt(ss, n);
    StepSource(ss[n], ss[n + 1]);
    StepReplay(ss[n], ss[n + 1]);
    StepAccount(ss[n], ss[n + 1]);
  }

  lemma StartInv(ss: seq<State>)
    requires Run(ss)
    ensures Inv(ss[0])
  {
    InitInv(ss[0]);
  }

  lemma {:induction false} RunInv(ss: seq<State>, n: nat)
    requires Run(ss) && n < |ss|
    ensures Inv(ss[n])
  {
    if n == 0 {
      StartInv(ss);
    } else {
      RunInv(ss, n - 1);
      StepInv(ss, n - 1);
    }
  }

  /** Every record for a hash stands in the replicator log of its owner, carries a
      proposed payload, and is PURE exactly if it was proposed at the owner. */
  lemma RecordsComeFromTheOwner(ss: seq<State>, n: nat, i: nat, m: nat)
    requires Run(ss) && n < |ss| && i < |ss[n].nodes| && m < |ss[n].nodes[i].log|
    ensures var s, r := ss[n], ss[n].nodes[i].log[m];
            && s.rule(r.hashv) == i
            && r.id < |s.proposals|
            && s.proposals[r.id] == Proposal(s.proposals[r.id].origin, r.hashv, r.payload)
            && r.msg == if s.proposals[r.id].origin == i then MSG_PURE else MSG_ACK
  {
    RunInv(ss, n);
    LogFits(ss[n], i, m);
  }

  /** What a node has replayed for a hash, over all its replayers, is a beginning
      of the owner's records for it; so of two nodes one is always ahead of the other. */
  lemma ReplayedIsPrefix(ss: seq<State>, n: nat, i: nat, j: nat, k: nat)
    requires Run(ss) && n < |ss| && i < |ss[n].nodes| && j < |ss[n].nodes|
    requires ss[n].rule(k) < |ss[n].nodes| && i != ss[n].rule(k) && j != ss[n].rule(k)
    ensures Shape(ss[n]) && Of(ss[n].seen[i], k) <= Of(ss[n].nodes[ss[n].rule(k)].log, k)
    ensures Of(ss[n].seen[i], k) <= Of(ss[n].seen[j], k) || Of(ss[n].seen[j], k) <= Of(ss[n].seen[i], k)
  {
    RunInv(ss, n);
    var s := ss[n];
    var o := s.rule(k);
    assert SeenOk(s, i, k) && SeenOk(s, j, k);
    var log, p, q := s.nodes[o].log, s.replayed[i][o], s.replayed[j][o];
    OfPrefix(log[..p], log, k);
    if p <= q {
      assert log[..p] <= log[..q];
      OfPrefix(log[..p], log[..q], k);
    } else {
      assert log[..q] <= log[..p];
      OfPrefix(log[..q], log[..p], k);
    }
  }

  /** No node replays a value and after it one that was published earlier for the
      same hash: `p` and `q` are the places in the owner's publications. */
  lemma ReplayedNeverGoesBack(ss: seq<State>, n: nat, j: nat, k: nat, a: nat, b: nat) returns (p: nat, q: nat)
    requires Run(ss) && n < |ss| && j < |ss[n].nodes| == |ss[n].seen|
    requires a < b < |Of(ss[n].seen[j], k)|
    ensures var o := ss[n].rule(k);
            && o < |ss[n].nodes| && p <= q < |ss[n].nodes[o].hist|
            && Of(ss[n].seen[j], k)[a] == ss[n].nodes[o].hist[p]
            && Of(ss[n].seen[j], k)[b] == ss[n].nodes[o].hist[q]
  {
    RunInv(ss, n);
    var s := ss[n];
    var o := s.rule(k);
    assert SeenOk(s, j, k) && NodeOk(s, o);
    p, q := LogStamps(s.nodes[o], s.replayed[j][o], k, a, b);
  }

  lemma LogStamps(node: R.State, r: nat, k: nat, a: nat, b: nat) returns (p: nat, q: nat)
    requires Runs.Reachable(node) && r <= |node.log|
    requires a < b < |Of(node.log[..r], k)|
    ensures p <= q < |node.hist| && Of(node.log[..r], k)[a] == node.hist[p] && Of(node.log[..r], k)[b] == node.hist[q]
  {
    Runs.ReachableInv(node);
    var x, y := OfIndices(node.log[..r], k, a, b);
    assert node.log[..r][x] == node.log[x] && node.log[..r][y] == node.log[y];
    assert RInv.Stamped(node, x) && RInv.Stamped(node, y) && RInv.NoOlder(node, x, y);
    p, q := node.stamps[x], node.stamps[y];
  }

  /** Nobody replays a record of a hash that is its own or nobody's. */
  lemma OwnerReplaysNothing(ss: seq<State>, n: nat, j: nat, k: nat)
    requires Run(ss) && n < |ss| && j < |ss[n].nodes|
    requires ss[n].rule(k) == j || ss[n].rule(k) >= |ss[n].nodes|
    ensures Shape(ss[n]) && Of(ss[n].seen[j], k) == []
  {
    RunInv(ss, n);
    assert SeenOk(ss[n], j, k);
  }

  // -------- Once all is drained --------

  /** No checker has anything to send, and all that was sent has been heard. */
  ghost predicate NoneForwarded(s: State) {
    && Shape(s)
    && (forall i :: 0 <= i < |s.nodes| ==> s.checking[i] == {})
    && (forall j, i :: 0 <= j < |s.nodes| && 0 <= i < |s.nodes| && i != j ==> s.heard[j][i] == |s.forwards[i]|)
  }

  ghost predicate Idle(s: State, o: nat)
    requires o < |s.nodes|
  {
    forall t :: t in s.nodes[o].pcs ==> s.nodes[o].pcs[t] == R.Resting
  }

  ghost predicate Drained(s: State, j: nat, o: nat)
    requires Shape(s) && j < |s.nodes| && o < |s.nodes|
  {
    s.replayed[j][o] == |s.nodes[o].log|
  }

  /** Then each proposal has become exactly one call at the owner of its hash. */
  lemma EveryProposalCalledOnce(ss: seq<State>, n: nat, id: nat) returns (m: nat)
    requires Run(ss) && n < |ss| && NoneForwarded(ss[n])
    requires id < |ss[n].proposals| && ss[n].rule(ss[n].proposals[id].hashv) < |ss[n].nodes|
    ensures var s := ss[n];
            var calls := s.nodes[s.rule(s.proposals[id].hashv)].calls;
            && m < |calls| && calls[m].id == id
            && calls[m].hashv == s.proposals[id].hashv && calls[m].payload == s.proposals[id].payload
            && forall l :: 0 <= l < |calls| && calls[l].id == id ==> l == m
  {
    RunInv(ss, n);
    var s := ss[n];
    var i, o := s.proposals[id].origin, s.rule(s.proposals[id].hashv);
    assert Placed(s, id) && Single(s, o);
    if !Called(s, o, id) {
      OwnProposalsAreCalled(s, id);
    }
    var r :| r in s.nodes[o].calls && r.id == id;
    m :| 0 <= m < |s.nodes[o].calls| && s.nodes[o].calls[m] == r;
    assert NodeOk(s, o) && Fit(s, o, r);
  }

  /** A proposal on its way is somebody else's. */
  lemma OwnProposalsAreCalled(s: State, id: nat)
    requires SourceInv(s) && AccountInv(s) && NoneForwarded(s)
    requires id < |s.proposals| && s.rule(s.proposals[id].hashv) < |s.nodes|
    ensures Called(s, s.rule(s.proposals[id].hashv), id)
  {
    var i, o := s.proposals[id].origin, s.rule(s.proposals[id].hashv);
    assert Placed(s, id) && CheckerOk(s, i);
    forall k: nat | k < |s.forwards[i]|
      ensures Waits(s, i, s.forwards[i][k])
    {
    }
    assert !OnTheWay(s, i, o, id);
  }

  /** All nodes that have replayed all of the owner's log end on the request the
      owner published last for the hash, and that is one of its proposals. */
  lemma DrainedNodesAgree(ss: seq<State>, n: nat, j: nat, id: nat) returns (p: nat)
    requires Run(ss) && n < |ss| && j < |ss[n].nodes| && NoneForwarded(ss[n])
    requires id < |ss[n].proposals|
    requires var o := ss[n].rule(ss[n].proposals[id].hashv);
             o < |ss[n].nodes| && o != j && Idle(ss[n], o) && Drained(ss[n], j, o)
    ensures var s, k := ss[n], ss[n].proposals[id].hashv;
            var o := s.rule(k);
            && Runs.LastOf(s.nodes[o].hist, p) && s.nodes[o].hist[p].hashv == k
            && Of(s.seen[j], k) == Of(s.nodes[o].log, k) != []
            && Of(s.seen[j], k)[|Of(s.seen[j], k)| - 1] == s.nodes[o].hist[p]
  {
    p := DrainedAt(ss, n, ss[n], j, id);
  }

  lemma DrainedAt(ss: seq<State>, n: nat, s: State, j: nat, id: nat) returns (p: nat)
    requires Run(ss) && n < |ss| && s == ss[n] && j < |s.nodes| && NoneForwarded(s) && id < |s.proposals|
    requires var o := s.rule(s.proposals[id].hashv); o < |s.nodes| && o != j && Idle(s, o) && Drained(s, j, o)
    ensures var node, f := s.nodes[s.rule(s.proposals[id].hashv)], Of(s.seen[j], s.proposals[id].hashv);
            && Runs.LastOf(node.hist, p) && node.hist[p].hashv == s.proposals[id].hashv
            && f == Of(node.log, s.proposals[id].hashv) && |f| > 0 && f[|f| - 1] == node.hist[p]
  {
    var k := s.proposals[id].hashv;
    var o := s.rule(k);
    var m := ProposalCalled(ss, n, s, id);
    NodeReachable(ss, n, o);
    assert Ended(s, j, k, o, m);
    p := DrainedEnds(s, j, k, o, m);
  }

  ghost predicate Ended(s: State, j: nat, k: nat, o: nat, m: nat) {
    && ReplayInv(s) && j < |s.nodes| && o == s.rule(k) && o < |s.nodes| && o != j
    && Idle(s, o) && Drained(s, j, o) && Runs.Reachable(s.nodes[o])
    && m < |s.nodes[o].calls| && s.nodes[o].calls[m].hashv == k
  }

  lemma ProposalCalled(ss: seq<State>, n: nat, s: State, id: nat) returns (m: nat)
    requires Run(ss) && n < |ss| && s == ss[n] && NoneForwarded(s)
    requires id < |s.proposals| && s.rule(s.proposals[id].hashv) < |s.nodes|
    ensures var calls := s.nodes[s.rule(s.proposals[id].hashv)].calls;
            m < |calls| && calls[m].hashv == s.proposals[id].hashv
  {
    m := EveryProposalCalledOnce(ss, n, id);
  }

  lemma NodeReachable(ss: seq<State>, n: nat, o: nat)
    requires Run(ss) && n < |ss| && o < |ss[n].nodes|
    ensures Runs.Reachable(ss[n].nodes[o]) && ReplayInv(ss[n])
  {
    RunInv(ss, n);
    assert NodeOk(ss[n], o);
  }

  lemma DrainedEnds(s: State, j: nat, k: nat, o: nat, m: nat) returns (p: nat)
    requires Ended(s, j, k, o, m)
    ensures var node, f := s.nodes[o], Of(s.seen[j], k);
            && Runs.LastOf(node.hist, p) && node.hist[p].hashv == k
            && f == Of(node.log, k) && |f| > 0 && f[|f| - 1] == node.hist[p]
  {
    assert SeenOk(s, j, k);
    assert s.nodes[o].log[..|s.nodes[o].log|] == s.nodes[o].log;
    p := IdleEnds(s.nodes[o], m);
  }

  /** In an idle replicator the last record of a called hash is the last published. */
  lemma IdleEnds(node: R.State, m: nat) returns (p: nat)
    requires Runs.Reachable(node) && (forall t :: t in node.pcs ==> node.pcs[t] == R.Resting)
    requires m < |node.calls|
    ensures Runs.LastOf(node.hist, p) && node.hist[p].hashv == node.calls[m].hashv
    ensures var f := Of(node.log, node.calls[m].hashv); |f| > 0 && f[|f| - 1] == node.hist[p]
  {
    Runs.ReachableInv(node);
    Runs.AllPublished(node);
    assert forall t :: !RInv.Pending(node, t);
    assert node.calls[m] in node.hist;
    var c: nat :| c < |node.hist| && node.hist[c] == node.calls[m];
    p := Runs.LastIndex(node.hist, c);
    var i := Runs.LastRecord(node, p);
    OfLast(node.log, i);
  }
}
