/** What the cluster over bytes can always do: proposals are accepted and forwarded,
    and what was sent can be brought over, heard and replayed. */
module ByteProgress {
  import opened Messages
  import opened LogLayout
  import opened ClusterChannels
  import opened ByteCluster
  import C = Cluster
  import D = LogDelivery
  import Log = LogChannel
  import R = Replicator
  import Slots = SlotAllocator

  // -------- Proposals and forwards --------

  /** A node always takes a proposal for a hash it does not own. */
  lemma CanProposeElsewhere(s: State, i: nat, hashv: word, payload: seq<byte>) returns (s': State)
    requires Shape(s) && i < |s.nodes| && s.rule(hashv) != i
    ensures Step(s, s') && Shape(s') && |s'.nodes| == |s.nodes|
    ensures Request(hashv, payload, MSG_WAIT, |s.proposals|) in s'.checking[i]
  {
    var req := Request(hashv, payload, MSG_WAIT, |s.proposals|);
    s' := s.(proposals := s.proposals + [C.Proposal(i, hashv, payload)],
             checking := s.checking[i := s.checking[i] + {req}]);
    assert Propose(s, s', i, 0, hashv, payload);
  }

  predicate Rests(node: R.State, t: nat) {
    R.Has(node, t, R.Resting) && Slots.At(node.alloc, t, Slots.Idle)
  }

  lemma CanCall(node: R.State, t: nat, req: Request) returns (node': R.State)
    requires Rests(node, t)
    ensures R.Call(node, node', t, req) && node'.calls == node.calls + [req]
  {
    node' := node.(alloc := Slots.Move(node.alloc, t, Slots.Trying),
                   pcs := node.pcs[t := R.Registering(req)], calls := node.calls + [req]);
  }

  /** The owner takes a proposal on any thread of its own that rests. */
  lemma CanProposeHere(s: State, i: nat, t: nat, hashv: word, payload: seq<byte>) returns (s': State)
    requires Shape(s) && i < |s.nodes| && s.rule(hashv) == i && |s.nodes| <= t && Rests(s.nodes[i], t)
    ensures Step(s, s') && Shape(s') && |s'.nodes| == |s.nodes|
    ensures s'.nodes[i].calls == s.nodes[i].calls + [Request(hashv, payload, MSG_PURE, |s.proposals|)]
  {
    var node := CanCall(s.nodes[i], t, Request(hashv, payload, MSG_PURE, |s.proposals|));
    s' := s.(proposals := s.proposals + [C.Proposal(i, hashv, payload)], nodes := s.nodes[i := node]);
    assert Propose(s, s', i, t, hashv, payload);
  }

  /** The log can still take the message. */
  ghost predicate Open(ch: Log.State, msg: Request) {
    |msg.payload| <= 65531 && ShareBit(msg.msg, ch.mask) && !Log.Wrapped(|ch.sent|, ch.next)
  }

  ghost function Sent(ch: Log.State, msg: Request): (ch': Log.State)
    requires Open(ch, msg)
    ensures Log.Send(ch, ch', msg)
  {
    var rec := Record(msg.hashv, |msg.payload|, ch.inst, msg.msg, msg.payload);
    ch.(sent := ch.sent + [rec], posts := ch.posts + [Log.Post(ch.next, Log.WireBytes(rec), 0)],
        next := ch.after(ch.next, rec.size), inst := (ch.inst + 1) % 256)
  }

  /** A message to every other node, one by one. */
  lemma CanSendToAll(chs: seq<seq<Log.State>>, i: nat, msg: nat -> Request) returns (chs': seq<seq<Log.State>>)
    requires Square(chs, |chs|) && i < |chs|
    requires forall j :: 0 <= j < |chs| && j != i ==> Open(chs[j][i], msg(j))
    ensures ByteCluster.SentToAll(chs, chs', i, msg)
  {
    chs' := seq(|chs|, j requires 0 <= j < |chs| => if j == i then chs[j] else chs[j][i := Sent(chs[j][i], msg(j))]);
  }

  /** As long as none of its logs has wrapped, a checker can forward any message that waits. */
  lemma CanForward(s: State, i: nat, req: Request) returns (s': State)
    requires Shape(s) && i < |s.nodes| && req in s.checking[i]
    requires forall j :: 0 <= j < |s.nodes| && j != i ==> Open(s.fwd[j][i], Addressed(s.rule, j, req))
    ensures Step(s, s') && s'.forwards == s.forwards[i := s.forwards[i] + [req]]
  {
    var chs := CanSendToAll(s.fwd, i, (j: nat) => Addressed(s.rule, j, req));
    s' := s.(checking := s.checking[i := s.checking[i] - {req}],
             forwards := s.forwards[i := s.forwards[i] + [req]], fwd := chs);
    assert Forward(s, s', i, req);
  }

  /** And its replicator can take any step. */
  lemma CanWork(s: State, i: nat, node: R.State) returns (s': State)
    requires Shape(s) && i < |s.nodes| && R.Step(s.nodes[i], node) && node.calls == s.nodes[i].calls
    requires node.log != s.nodes[i].log ==> |node.log| > 0 && forall j :: 0 <= j < |s.nodes| && j != i ==>
               Open(s.rep[j][i], node.log[|node.log| - 1])
    ensures Step(s, s') && s'.nodes == s.nodes[i := node]
  {
    var chs := s.rep;
    if node.log != s.nodes[i].log {
      chs := CanSendToAll(s.rep, i, (j: nat) => node.log[|node.log| - 1]);
    }
    s' := s.(nodes := s.nodes[i := node], rep := chs);
    assert Work(s, s', i, node);
  }

  // -------- Bringing over what was sent --------

  ghost predicate StepAt(ss: seq<State>, i: nat)
    requires i + 1 < |ss|
  {
    Step(ss[i], ss[i + 1])
  }

  ghost predicate Path(ss: seq<State>) {
    |ss| > 0 && forall i: nat {:trigger StepAt(ss, i)} :: i + 1 < |ss| ==> StepAt(ss, i)
  }

  /** The state in which the log that `j` keeps for the replicator of `i` is `ch`, and
      `j` has read what `ch` has handed out since `from`. */
  ghost function WithRep(s: State, j: nat, i: nat, from: nat, ch: Log.State): State
    requires Shape(s) && j < |s.nodes| && i < |s.nodes| && from <= |ch.got|
  {
    s.(rep := s.rep[j := s.rep[j][i := ch]], read := s.read[j := s.read[j] + ch.got[from..]])
  }

  lemma TakesRep(s: State, j: nat, i: nat, from: nat, ch: Log.State, ch': Log.State)
    requires Shape(s) && j < |s.nodes| && i < |s.nodes| && i != j
    requires from <= |ch.got| && D.Takes(ch, ch')
    ensures from <= |ch'.got| && Step(WithRep(s, j, i, from, ch), WithRep(s, j, i, from, ch'))
  {
    var t, t' := WithRep(s, j, i, from, ch), WithRep(s, j, i, from, ch');
    assert t.rep[j := t.rep[j][i := ch']] == t'.rep by {
      assert s.rep[j][i := ch][i := ch'] == s.rep[j][i := ch'];
    }
    if Log.Read(ch, ch') {
      assert ch'.got[from..] == ch.got[from..] + [ch'.got[|ch'.got| - 1]];
      assert t.read[j] + [ch'.got[|ch'.got| - 1]] == t'.read[j];
      assert t'.read == t.read[j := t.read[j] + [ch'.got[|ch'.got| - 1]]];
      assert Replay(t, t', j, i, ch');
    } else {
      assert Carry(ch, ch');
      assert Land(t, t', j, i, ch');
    }
  }

  /** The states along a path of that log. */
  ghost function Along(s: State, j: nat, i: nat, chs: seq<Log.State>): seq<State>
    requires Shape(s) && j < |s.nodes| && i < |s.nodes| && |chs| > 0
    requires forall n :: 0 <= n < |chs| ==> |chs[0].got| <= |chs[n].got|
  {
    seq(|chs|, n requires 0 <= n < |chs| => WithRep(s, j, i, |chs[0].got|, chs[n]))
  }

  lemma PathRep(s: State, j: nat, i: nat, chs: seq<Log.State>)
    requires Shape(s) && j < |s.nodes| && i < |s.nodes| && i != j && D.Path(chs) && chs[0] == s.rep[j][i]
    requires forall n :: 0 <= n < |chs| ==> |chs[0].got| <= |chs[n].got|
    ensures Path(Along(s, j, i, chs)) && Along(s, j, i, chs)[0] == s
  {
    forall n: nat | n + 1 < |chs|
      ensures StepAt(Along(s, j, i, chs), n)
    {
      assert D.TakesAt(chs, n);
      TakesRep(s, j, i, |chs[0].got|, chs[n], chs[n + 1]);
    }
    WithSame(s, j, i);
  }

  lemma WithSame(s: State, j: nat, i: nat)
    requires Shape(s) && j < |s.nodes| && i < |s.nodes|
    ensures WithRep(s, j, i, |s.rep[j][i].got|, s.rep[j][i]) == s
  {
    assert s.rep[j][i := s.rep[j][i]] == s.rep[j] && s.rep[j := s.rep[j]] == s.rep;
    assert s.rep[j][i].got[|s.rep[j][i].got|..] == [];
    assert s.read[j] + [] == s.read[j] && s.read[j := s.read[j]] == s.read;
  }

  /** From every reachable state a node can replay all that another one has logged,
      one record after the other. */
  lemma CanReplayAll(s: State, c: C.State, j: nat, i: nat) returns (ss: seq<State>)
    requires StandsFor(s, c) && j < |s.nodes| && i < |s.nodes| && i != j
    ensures Path(ss) && ss[0] == s
    ensures var e, from := ss[|ss| - 1], |s.rep[j][i].got|;
            && Shape(e) && e.nodes == s.nodes && |e.rep[j][i].got| == |s.nodes[i].log| >= from
            && e.read[j] == s.read[j] + e.rep[j][i].got[from..]
  {
    assert RepOk(s, j, i);
    var chs := D.CanDeliver(s.rep[j][i]);
    forall n | 0 <= n < |chs|
      ensures |chs[0].got| <= |chs[n].got|
    {
      D.GotGrows(chs, n);
    }
    PathRep(s, j, i, chs);
    ss := Along(s, j, i, chs);
  }

  // -------- Hearing --------

  lemma Carries(ch: Log.State, ch': Log.State)
    requires D.Takes(ch, ch') && ch'.got == ch.got
    ensures Carry(ch, ch')
  {
    assert Log.Read(ch, ch') ==> |ch'.got| == |ch.got| + 1;
  }

  lemma LandsFwd(s: State, c: C.State, j: nat, i: nat, ch: Log.State) returns (s': State)
    requires StandsFor(s, c) && j < |s.nodes| && i < |s.nodes| && i != j
    requires D.Takes(s.fwd[j][i], ch) && ch.got == s.fwd[j][i].got
    ensures Step(s, s') && StandsFor(s', c) && s' == s.(fwd := s.fwd[j := s.fwd[j][i := ch]])
  {
    Carries(s.fwd[j][i], ch);
    s' := s.(fwd := s.fwd[j := s.fwd[j][i := ch]]);
    assert Land(s, s', j, i, ch);
    LandStands(s, s', c, j, i, ch);
  }

  /** The next message lies complete before the receiver. */
  ghost predicate Ready(ch: Log.State) {
    && Log.Inv(ch) && |ch.got| < |ch.sent| && !ch.holding
    && ch.posts[|ch.got|].arrived == |ch.posts[|ch.got|].data|
  }

  /** Only the log that `j` keeps for the checker of `i` has changed, and nothing was read from it. */
  ghost predicate OnlyLanded(s: State, s': State, c: C.State, j: nat, i: nat)
    requires Shape(s) && j < |s.nodes| && i < |s.nodes|
  {
    && StandsFor(s', c) && s' == s.(fwd := s'.fwd)
    && s'.fwd[j][i].got == s.fwd[j][i].got && s'.fwd[j][i].sent == s.fwd[j][i].sent
  }

  lemma CanFinishOne(s: State, c: C.State, j: nat, i: nat) returns (s': State)
    requires StandsFor(s, c) && j < |s.nodes| && i < |s.nodes| && i != j && s.fwd[j][i].holding
    ensures Step(s, s') && OnlyLanded(s, s', c, j, i) && !s'.fwd[j][i].holding
  {
    assert FwdOk(s, j, i);
    var ch := D.CanFinish(s.fwd[j][i]);
    s' := LandsFwd(s, c, j, i, ch);
  }

  lemma CanLandOne(s: State, c: C.State, j: nat, i: nat, k: nat) returns (s': State)
    requires StandsFor(s, c) && j < |s.nodes| && i < |s.nodes| && i != j && !s.fwd[j][i].holding
    requires k == |s.fwd[j][i].got| < |s.fwd[j][i].posts|
    requires s.fwd[j][i].posts[k].arrived < |s.fwd[j][i].posts[k].data|
    ensures Step(s, s') && OnlyLanded(s, s', c, j, i) && !s'.fwd[j][i].holding && k < |s'.fwd[j][i].posts|
    ensures s'.fwd[j][i].posts[k].arrived == |s'.fwd[j][i].posts[k].data|
  {
    assert FwdOk(s, j, i);
    var ch := D.CanLand(s.fwd[j][i], k);
    s' := LandsFwd(s, c, j, i, ch);
  }

  lemma OnlyLandedTwice(s: State, s': State, s'': State, c: C.State, j: nat, i: nat)
    requires Shape(s) && Shape(s') && j < |s.nodes| == |s'.nodes| && i < |s.nodes|
    requires OnlyLanded(s, s', c, j, i) && OnlyLanded(s', s'', c, j, i)
    ensures OnlyLanded(s, s'', c, j, i)
  {
  }

  /** What is known of the entry that the receiver takes next. */
  lemma NextPost(s: State, c: C.State, j: nat, i: nat)
    requires StandsFor(s, c) && j < |s.nodes| && i < |s.nodes| && i != j
    requires |s.fwd[j][i].got| < |s.forwards[i]|
    ensures var ch := s.fwd[j][i];
            && Log.Inv(ch) && |ch.got| < |ch.sent| == |ch.posts|
            && ch.posts[|ch.got|].arrived <= |ch.posts[|ch.got|].data|
  {
    assert FwdOk(s, j, i);
    assert Log.PostOk(s.fwd[j][i], |s.fwd[j][i].got|);
  }

  lemma CanFree(s: State, c: C.State, j: nat, i: nat) returns (ss: seq<State>)
    requires StandsFor(s, c) && j < |s.nodes| && i < |s.nodes| && i != j
    ensures Path(ss) && ss[0] == s && OnlyLanded(s, ss[|ss| - 1], c, j, i) && !ss[|ss| - 1].fwd[j][i].holding
  {
    ss := [s];
    if s.fwd[j][i].holding {
      var e := CanFinishOne(s, c, j, i);
      ss := PathLast(ss, e);
    }
  }

  lemma CanMakeReady(s: State, c: C.State, j: nat, i: nat) returns (ss: seq<State>)
    requires StandsFor(s, c) && j < |s.nodes| && i < |s.nodes| && i != j
    requires |s.fwd[j][i].got| < |s.forwards[i]|
    ensures Path(ss) && ss[0] == s && OnlyLanded(s, ss[|ss| - 1], c, j, i) && Ready(ss[|ss| - 1].fwd[j][i])
  {
    ss := CanFree(s, c, j, i);
    var e := ss[|ss| - 1];
    NextPost(e, c, j, i);
    var k := |e.fwd[j][i].got|;
    if e.fwd[j][i].posts[k].arrived < |e.fwd[j][i].posts[k].data| {
      var e' := CanLandOne(e, c, j, i, k);
      NextPost(e', c, j, i);
      OnlyLandedTwice(s, e, e', c, j, i);
      ss := PathLast(ss, e');
    }
  }

  lemma PathLast(ss: seq<State>, e: State) returns (ss': seq<State>)
    requires Path(ss) && Step(ss[|ss| - 1], e)
    ensures ss' == ss + [e] && Path(ss')
  {
    ss' := ss + [e];
    forall i: nat | i + 1 < |ss'|
      ensures StepAt(ss', i)
    {
      assert i + 1 < |ss| ==> StepAt(ss, i);
    }
  }

  /** One step: the receiver, whose thread of the replicator rests, handles a message that lies ready. */
  lemma CanHear(s: State, c: C.State, j: nat, i: nat) returns (s': State)
    requires StandsFor(s, c) && j < |s.nodes| && i < |s.nodes| && i != j && Ready(s.fwd[j][i]) && Rests(s.nodes[j], i)
    ensures Step(s, s') && Shape(s') && |s'.nodes| == |s.nodes|
    ensures |s'.fwd[j][i].got| == |s.fwd[j][i].got| + 1
    ensures var taken := |s.fwd[j][i].got|;
            && taken < |s.forwards[i]|
            && var req := s.forwards[i][taken];
            && s'.nodes[j].calls ==
               if s.rule(req.hashv) == j then s.nodes[j].calls + [req.(msg := MSG_ACK)] else s.nodes[j].calls
  {
    assert FwdOk(s, j, i);
    var taken := |s.fwd[j][i].got|;
    var req := s.forwards[i][taken];
    var ch := D.CanRead(s.fwd[j][i]);
    ReadJoins(s.fwd[j][i], ch, SentTo(s.rule, j, s.forwards[i]), taken);
    var rec := ch.got[|ch.got| - 1];
    assert rec == Log.Received(RecordOf(Addressed(s.rule, j, req), taken % 256));
    var node := s.nodes[j];
    if rec.msg == MSG_WAIT {
      node := CanCall(node, i, req.(msg := MSG_ACK));
    }
    s' := s.(nodes := s.nodes[j := node], fwd := s.fwd[j := s.fwd[j][i := ch]]);
    assert Hear(s, s', j, i, ch, node);
  }

  /** From every reachable state a receiver whose thread of the replicator rests can
      hear the next message forwarded to it; what is meant for its node becomes a call there. */
  lemma CanHearNext(s: State, c: C.State, j: nat, i: nat) returns (ss: seq<State>)
    requires StandsFor(s, c) && j < |s.nodes| && i < |s.nodes| && i != j && Rests(s.nodes[j], i)
    requires |s.fwd[j][i].got| < |s.forwards[i]|
    ensures Path(ss) && ss[0] == s
    ensures var e, req := ss[|ss| - 1], s.forwards[i][|s.fwd[j][i].got|];
            && Shape(e) && |e.nodes| == |s.nodes| && |e.fwd[j][i].got| == |s.fwd[j][i].got| + 1
            && e.nodes[j].calls ==
               if s.rule(req.hashv) == j then s.nodes[j].calls + [req.(msg := MSG_ACK)] else s.nodes[j].calls
  {
    ss := CanMakeReady(s, c, j, i);
    var e := CanHear(ss[|ss| - 1], c, j, i);
    ss := PathLast(ss, e);
  }
}
