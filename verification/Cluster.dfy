/** The nodes together: proposals, checkers, receivers, replicators and replayers.

    Each hash has an owner.  A node proposes what it owns through its replicator;
    the rest its checker sends to all other nodes, as WAIT to the owner and as a
    bare header to the others.  The owner's receiver turns a WAIT into a write of
    its replicator.  Replicator logs go to all other nodes.  A channel hands its
    records over in the order they were written; ByteRuns proves that of the byte logs. */
module Cluster {
  import opened Messages
  import R = Replicator
  import Runs = ReplicatorRuns

  /** History: what was asked for, and where. */
  datatype Proposal = Proposal(origin: nat, hashv: word, payload: seq<byte>)

  /** `checking[i]` are the calls of the checker of node `i` that have not sent yet,
      `forwards[i]` what it sent, `heard[j][i]` how much of that the receiver of `j`
      has taken, and `replayed[j][i]` how much of the replicator log of `i` its
      replayer has taken.  `proposals` and `seen`, all records that `j` has
      replayed, are history.  `rule` gives the owner of a hash. */
  datatype State = State(rule: nat -> nat, proposals: seq<Proposal>, nodes: seq<R.State>,
                         checking: seq<set<Request>>, forwards: seq<seq<Request>>,
                         heard: seq<seq<nat>>, replayed: seq<seq<nat>>, seen: seq<seq<Request>>)

  ghost predicate Shape(s: State) {
    && |s.checking| == |s.forwards| == |s.heard| == |s.replayed| == |s.seen| == |s.nodes|
    && (forall j :: 0 <= j < |s.nodes| ==> |s.heard[j]| == |s.nodes|)
    && (forall j :: 0 <= j < |s.nodes| ==> |s.replayed[j]| == |s.nodes|)
  }

  ghost predicate Init(s: State) {
    && Shape(s) && s.proposals == []
    && (forall i :: 0 <= i < |s.nodes| ==> R.Init(s.nodes[i]))
    && (forall i :: 0 <= i < |s.nodes| ==> s.checking[i] == {} && s.forwards[i] == [] && s.seen[i] == [])
    && (forall j, i :: 0 <= j < |s.nodes| && 0 <= i < |s.nodes| ==> s.heard[j][i] == 0 && s.replayed[j][i] == 0)
  }

  /** One more message taken by `j` from `i`. */
  function Bump(m: seq<seq<nat>>, j: nat, i: nat): seq<seq<nat>>
    requires j < |m| && i < |m[j]|
  {
    m[j := m[j][i := m[j][i] + 1]]
  }

  // -------- Steps --------

  /** `propose` at node `i`: the owner writes itself, on thread `t`; others hand over to the checker. */
  ghost predicate Propose(s: State, s': State, i: nat, t: nat, hashv: word, payload: seq<byte>) {
    && i < |s.nodes| && Shape(s)
    && var id := |s.proposals|;
    && var asked := s.proposals + [Proposal(i, hashv, payload)];
    && if s.rule(hashv) == i then
         exists node :: && |s.nodes| <= t && R.Call(s.nodes[i], node, t, Request(hashv, payload, MSG_PURE, id))
                        && s' == s.(proposals := asked, nodes := s.nodes[i := node])
       else
         s' == s.(proposals := asked,
                  checking := s.checking[i := s.checking[i] + {Request(hashv, payload, MSG_WAIT, id)}])
  }

  /** Under its lock the checker of node `i` logs one message and sends it to all other nodes. */
  ghost predicate Forward(s: State, s': State, i: nat, req: Request) {
    && i < |s.nodes| && Shape(s) && req in s.checking[i]
    && s' == s.(checking := s.checking[i := s.checking[i] - {req}], forwards := s.forwards[i := s.forwards[i] + [req]])
  }

  /** The receiver of node `j` for node `i`, which is thread `i` of its replicator, takes the next message. */
  ghost predicate Hear(s: State, s': State, j: nat, i: nat) {
    && i < |s.nodes| && j < |s.nodes| && i != j && Shape(s)
    && s.heard[j][i] < |s.forwards[i]|
    && var req := s.forwards[i][s.heard[j][i]];
    && if s.rule(req.hashv) == j then
         exists node :: && R.Call(s.nodes[j], node, i, req.(msg := MSG_ACK))
                        && s' == s.(heard := Bump(s.heard, j, i), nodes := s.nodes[j := node])
       else
         s' == s.(heard := Bump(s.heard, j, i))
  }

  /** Any step inside the replicator of node `i`. */
  ghost predicate Work(s: State, s': State, i: nat, node: R.State) {
    && i < |s.nodes| && Shape(s)
    && R.Step(s.nodes[i], node) && node.calls == s.nodes[i].calls
    && s' == s.(nodes := s.nodes[i := node])
  }

  /** The replayer of node `j` for node `i` takes the next record. */
  ghost predicate Replay(s: State, s': State, j: nat, i: nat) {
    && i < |s.nodes| && j < |s.nodes| && i != j && Shape(s)
    && s.replayed[j][i] < |s.nodes[i].log|
    && s' == s.(replayed := Bump(s.replayed, j, i),
                seen := s.seen[j := s.seen[j] + [s.nodes[i].log[s.replayed[j][i]]]])
  }

  ghost predicate Step(s: State, s': State) {
    || (exists i, t, hashv, payload :: Propose(s, s', i, t, hashv, payload))
    || (exists i, req :: Forward(s, s', i, req))
    || (exists j, i :: Hear(s, s', j, i))
    || (exists i, node :: Work(s, s', i, node))
    || (exists j, i :: Replay(s, s', j, i))
  }

  // -------- Where records come from --------

  /** `r` is proposal number `r.id`. */
  ghost predicate Stems(s: State, r: Request) {
    && r.id < |s.proposals|
    && s.proposals[r.id].hashv == r.hashv && s.proposals[r.id].payload == r.payload
  }

  /** A request fit for the replicator of node `o`: its own as PURE, those of others as ACK. */
  ghost predicate Fit(s: State, o: nat, r: Request) {
    && Stems(s, r) && s.rule(r.hashv) == o
    && r.msg == if s.proposals[r.id].origin == o then MSG_PURE else MSG_ACK
  }

  ghost predicate NodeOk(s: State, i: nat)
    requires i < |s.nodes|
  {
    Runs.Reachable(s.nodes[i]) && forall r {:trigger Fit(s, i, r)} :: r in s.nodes[i].calls ==> Fit(s, i, r)
  }

  /** A message of the checker of node `i`. */
  ghost predicate Waits(s: State, i: nat, r: Request) {
    Stems(s, r) && s.proposals[r.id].origin == i && s.rule(r.hashv) != i && r.msg == MSG_WAIT
  }

  ghost predicate CheckerOk(s: State, i: nat)
    requires Shape(s) && i < |s.nodes|
  {
    && (forall r {:trigger Waits(s, i, r)} :: r in s.checking[i] ==> Waits(s, i, r))
    && (forall r {:trigger Waits(s, i, r)} :: r in s.forwards[i] ==> Waits(s, i, r))
  }

  ghost predicate SourceInv(s: State) {
    && Shape(s)
    && (forall i {:trigger NodeOk(s, i)} :: 0 <= i < |s.nodes| ==> NodeOk(s, i))
    && (forall i {:trigger CheckerOk(s, i)} :: 0 <= i < |s.nodes| ==> CheckerOk(s, i))
  }

  lemma InitSource(s: State)
    requires Init(s)
    ensures SourceInv(s)
  {
    forall i | 0 <= i < |s.nodes|
      ensures NodeOk(s, i) && CheckerOk(s, i)
    {
      Runs.ReachableInit(s.nodes[i]);
    }
  }

  /** Nodes and checkers are judged by more proposals as by fewer. */
  ghost predicate MoreProposals(s: State, s': State) {
    && Shape(s) && Shape(s') && |s'.nodes| == |s.nodes| && s'.rule == s.rule && s.proposals <= s'.proposals
  }

  lemma NodeKept(s: State, s': State, i: nat)
    requires MoreProposals(s, s') && i < |s.nodes| && NodeOk(s, i) && s'.nodes[i] == s.nodes[i]
    ensures NodeOk(s', i)
  {
    forall r | r in s'.nodes[i].calls
      ensures Fit(s', i, r)
    {
      assert Fit(s, i, r);
    }
  }

  lemma CheckerKept(s: State, s': State, i: nat)
    requires MoreProposals(s, s') && i < |s.nodes| && CheckerOk(s, i)
    requires forall r :: r in s'.checking[i] || r in s'.forwards[i] ==>
             r in s.checking[i] || r in s.forwards[i] || Waits(s', i, r)
    ensures CheckerOk(s', i)
  {
    forall r | r in s'.checking[i] || r in s'.forwards[i]
      ensures Waits(s', i, r)
    {
      assert r in s.checking[i] || r in s.forwards[i] ==> Waits(s, i, r);
    }
  }

  /** A replicator takes up a fit request. */
  lemma NodeCalled(s: State, s': State, i: nat, t: nat, req: Request)
    requires MoreProposals(s, s') && i < |s.nodes| && NodeOk(s, i)
    requires R.Call(s.nodes[i], s'.nodes[i], t, req) && Fit(s', i, req)
    ensures NodeOk(s', i)
  {
    assert R.StepOf(s.nodes[i], s'.nodes[i], t);
    Runs.ReachableStep(s.nodes[i], s'.nodes[i]);
    forall r | r in s'.nodes[i].calls
      ensures Fit(s', i, r)
    {
      assert r != req ==> Fit(s, i, r);
    }
  }

  lemma ProposeSource(s: State, s': State, i: nat, t: nat, hashv: word, payload: seq<byte>)
    requires SourceInv(s) && Propose(s, s', i, t, hashv, payload)
    ensures SourceInv(s')
  {
    forall a | 0 <= a < |s.nodes|
      ensures NodeOk(s', a) && CheckerOk(s', a)
    {
      assert NodeOk(s, a) && CheckerOk(s, a);
      CheckerKept(s, s', a);
      if a == i && s.rule(hashv) == i {
        NodeCalled(s, s', a, t, Request(hashv, payload, MSG_PURE, |s.proposals|));
      } else {
        NodeKept(s, s', a);
      }
    }
  }

  lemma ForwardSource(s: State, s': State, i: nat, req: Request)
    requires SourceInv(s) && Forward(s, s', i, req)
    ensures SourceInv(s')
  {
    forall a | 0 <= a < |s.nodes|
      ensures NodeOk(s', a) && CheckerOk(s', a)
    {
      assert NodeOk(s, a) && CheckerOk(s, a);
      CheckerKept(s, s', a);
      NodeKept(s, s', a);
    }
  }

  lemma HearSource(s: State, s': State, j: nat, i: nat)
    requires SourceInv(s) && Hear(s, s', j, i)
    ensures SourceInv(s')
  {
    var req := s.forwards[i][s.heard[j][i]];
    assert CheckerOk(s, i) && Waits(s, i, req);
    forall a | 0 <= a < |s.nodes|
      ensures NodeOk(s', a) && CheckerOk(s', a)
    {
      assert NodeOk(s, a) && CheckerOk(s, a);
      CheckerKept(s, s', a);
      if a == j && s.rule(req.hashv) == j {
        NodeCalled(s, s', a, i, req.(msg := MSG_ACK));
      } else {
        NodeKept(s, s', a);
      }
    }
  }

  lemma WorkSource(s: State, s': State, i: nat, node: R.State)
    requires SourceInv(s) && Work(s, s', i, node)
    ensures SourceInv(s')
  {
    forall a | 0 <= a < |s.nodes|
      ensures NodeOk(s', a) && CheckerOk(s', a)
    {
      assert NodeOk(s, a) && CheckerOk(s, a);
      CheckerKept(s, s', a);
      if a == i {
        Runs.ReachableStep(s.nodes[i], node);
        assert forall r :: Fit(s', i, r) == Fit(s, i, r);
      } else {
        NodeKept(s, s', a);
      }
    }
  }

  lemma ReplaySource(s: State, s': State, j: nat, i: nat)
    requires SourceInv(s) && Replay(s, s', j, i)
    ensures SourceInv(s')
  {
    forall a | 0 <= a < |s.nodes|
      ensures NodeOk(s', a) && CheckerOk(s', a)
    {
      assert NodeOk(s, a) && CheckerOk(s, a);
      CheckerKept(s, s', a);
      NodeKept(s, s', a);
    }
  }
}
