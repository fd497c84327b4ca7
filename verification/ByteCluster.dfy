/** The cluster over bytes: every node reads what other nodes sent from its own
    copies of their logs, into which remote writes land piece by piece.

    Up to the first wrap of the logs involved each step of this machine is a step of
    the cluster machine, or one that the cluster machine does not see. */
module ByteCluster {
  import opened Messages
  import opened LogLayout
  import opened ClusterChannels
  import C = Cluster
  import Runs = ReplicatorRuns
  import Log = LogChannel
  import R = Replicator

  /** `fwd[j][i]` is the log that node `j` keeps for the checker of node `i`, and
      `rep[j][i]` the one for its replicator.  `read[j]` are the records the replayers of
      node `j` have read.  `proposals` and `forwards` are history. */
  datatype State = State(rule: nat -> nat, proposals: seq<C.Proposal>, nodes: seq<R.State>,
                         checking: seq<set<Request>>, forwards: seq<seq<Request>>,
                         fwd: seq<seq<Log.State>>, rep: seq<seq<Log.State>>, read: seq<seq<Record>>)

  ghost predicate Square(chs: seq<seq<Log.State>>, n: nat) {
    |chs| == n && forall j :: 0 <= j < n ==> |chs[j]| == n
  }

  ghost predicate Shape(s: State) {
    && |s.checking| == |s.forwards| == |s.read| == |s.nodes|
    && Square(s.fwd, |s.nodes|) && Square(s.rep, |s.nodes|)
  }

  ghost predicate Init(s: State) {
    && Shape(s) && s.proposals == []
    && (forall i :: 0 <= i < |s.nodes| ==> R.Init(s.nodes[i]))
    && (forall i :: 0 <= i < |s.nodes| ==> s.checking[i] == {} && s.forwards[i] == [] && s.read[i] == [])
    && (forall j, i :: 0 <= j < |s.nodes| && 0 <= i < |s.nodes| ==>
          && Log.Init(s.fwd[j][i]) && s.fwd[j][i].mask == MSG_WAIT + MSG_HDRONLY
          && Log.Init(s.rep[j][i]) && s.rep[j][i].mask == MSG_PURE + MSG_ACK)
  }

  // -------- Steps --------

  ghost predicate Propose(s: State, s': State, i: nat, t: nat, hashv: word, payload: seq<byte>) {
    && i < |s.nodes| && Shape(s)
    && var id := |s.proposals|;
    && var asked := s.proposals + [C.Proposal(i, hashv, payload)];
    && if s.rule(hashv) == i then
         exists node :: && |s.nodes| <= t && R.Call(s.nodes[i], node, t, Request(hashv, payload, MSG_PURE, id))
                        && s' == s.(proposals := asked, nodes := s.nodes[i := node])
       else
         s' == s.(proposals := asked,
                  checking := s.checking[i := s.checking[i] + {Request(hashv, payload, MSG_WAIT, id)}])
  }

  /** Node `i` posts `msg(j)` to every other node `j`. */
  ghost predicate SentToAll(chs: seq<seq<Log.State>>, chs': seq<seq<Log.State>>, i: nat, msg: nat -> Request) {
    && Square(chs, |chs|) && Square(chs', |chs|) && i < |chs|
    && (forall j: nat, a: nat :: j < |chs| && a < |chs| && (a != i || a == j) ==> chs'[j][a] == chs[j][a])
    && (forall j: nat :: j < |chs| && j != i ==> Log.Send(chs[j][i], chs'[j][i], msg(j)))
  }

  ghost predicate Forward(s: State, s': State, i: nat, req: Request) {
    && i < |s.nodes| && Shape(s) && req in s.checking[i]
    && SentToAll(s.fwd, s'.fwd, i, (j: nat) => Addressed(s.rule, j, req))
    && s' == s.(checking := s.checking[i := s.checking[i] - {req}],
                forwards := s.forwards[i := s.forwards[i] + [req]], fwd := s'.fwd)
  }

  /** Any step inside the replicator of node `i`; a record it logs is posted. */
  ghost predicate Work(s: State, s': State, i: nat, node: R.State) {
    && i < |s.nodes| && Shape(s)
    && R.Step(s.nodes[i], node) && node.calls == s.nodes[i].calls
    && (if node.log == s.nodes[i].log then s'.rep == s.rep
        else |node.log| > 0 && SentToAll(s.rep, s'.rep, i, (j: nat) => node.log[|node.log| - 1]))
    && s' == s.(nodes := s.nodes[i := node], rep := s'.rep)
  }

  /** The id of the message that the receiver of `j` for `i` takes next: history. */
  function NextId(s: State, j: nat, i: nat): nat
    requires Shape(s) && j < |s.nodes| && i < |s.nodes|
  {
    var taken := |s.fwd[j][i].got|;
    if taken < |s.forwards[i]| then s.forwards[i][taken].id else 0
  }

  /** The receiver of node `j` for node `i` reads an entry and handles what it has read. */
  ghost predicate Hear(s: State, s': State, j: nat, i: nat, ch: Log.State, node: R.State) {
    && i < |s.nodes| && j < |s.nodes| && i != j && Shape(s)
    && Log.Read(s.fwd[j][i], ch) && Handles(s.nodes[j], node, i, ch.got[|ch.got| - 1], NextId(s, j, i))
    && s' == s.(nodes := s.nodes[j := node], fwd := s.fwd[j := s.fwd[j][i := ch]])
  }

  ghost predicate Replay(s: State, s': State, j: nat, i: nat, ch: Log.State) {
    && i < |s.nodes| && j < |s.nodes| && i != j && Shape(s)
    && Log.Read(s.rep[j][i], ch)
    && s' == s.(rep := s.rep[j := s.rep[j][i := ch]], read := s.read[j := s.read[j] + [ch.got[|ch.got| - 1]]])
  }

  /** Bytes land in a log that node `j` keeps for node `i`, or its reader finishes with an entry. */
  ghost predicate Land(s: State, s': State, j: nat, i: nat, ch: Log.State) {
    && i < |s.nodes| && j < |s.nodes| && i != j && Shape(s)
    && (|| (Carry(s.fwd[j][i], ch) && s' == s.(fwd := s.fwd[j := s.fwd[j][i := ch]]))
        || (Carry(s.rep[j][i], ch) && s' == s.(rep := s.rep[j := s.rep[j][i := ch]])))
  }

  ghost predicate Step(s: State, s': State) {
    || (exists i, t, hashv, payload :: Propose(s, s', i, t, hashv, payload))
    || (exists i, req :: Forward(s, s', i, req))
    || (exists i, node :: Work(s, s', i, node))
    || (exists j, i, ch, node :: Hear(s, s', j, i, ch, node))
    || (exists j, i, ch :: Replay(s, s', j, i, ch))
    || (exists j, i, ch :: Land(s, s', j, i, ch))
  }

  // -------- The cluster that the bytes stand for --------

  /** How many entries have been read from each log. */
  ghost function Counts(chs: seq<seq<Log.State>>): seq<seq<nat>> {
    seq(|chs|, j requires 0 <= j < |chs| => seq(|chs[j]|, i requires 0 <= i < |chs[j]| => |chs[j][i].got|))
  }

  lemma CountsSame(chs: seq<seq<Log.State>>, chs': seq<seq<Log.State>>)
    requires |chs'| == |chs| && forall j :: 0 <= j < |chs| ==> |chs'[j]| == |chs[j]|
    requires forall j, i :: 0 <= j < |chs| && 0 <= i < |chs[j]| ==> chs'[j][i].got == chs[j][i].got
    ensures Counts(chs') == Counts(chs)
  {
    forall j | 0 <= j < |chs|
      ensures Counts(chs')[j] == Counts(chs)[j]
    {
    }
  }

  lemma CountsBump(chs: seq<seq<Log.State>>, j: nat, i: nat, ch: Log.State)
    requires j < |chs| && i < |chs[j]| && |ch.got| == |chs[j][i].got| + 1
    ensures Counts(chs[j := chs[j][i := ch]]) == C.Bump(Counts(chs), j, i)
  {
    var c, c' := Counts(chs), Counts(chs[j := chs[j][i := ch]]);
    assert c'[j] == c[j][i := c[j][i] + 1];
    forall a | 0 <= a < |chs|
      ensures c'[a] == C.Bump(c, j, i)[a]
    {
    }
  }

  /** The state of the cluster machine, but for the ids in what was replayed. */
  ghost function Seen(s: State, seen: seq<seq<Request>>): C.State {
    C.State(s.rule, s.proposals, s.nodes, s.checking, s.forwards, Counts(s.fwd), Counts(s.rep), seen)
  }

  /** What the replayers of a node have read is what the cluster replays there. */
  ghost predicate ReadAs(recs: seq<Record>, reqs: seq<Request>) {
    && |recs| == |reqs|
    && forall k :: 0 <= k < |recs| ==>
         recs[k].hashv == reqs[k].hashv && recs[k].payload == reqs[k].payload && recs[k].msg == reqs[k].msg
  }

  ghost predicate FwdOk(s: State, j: nat, i: nat)
    requires Shape(s) && j < |s.nodes| && i < |s.nodes|
  {
    i != j ==> Joined(s.fwd[j][i], SentTo(s.rule, j, s.forwards[i]), |s.fwd[j][i].got|)
  }

  ghost predicate RepOk(s: State, j: nat, i: nat)
    requires Shape(s) && j < |s.nodes| && i < |s.nodes|
  {
    i != j ==> Joined(s.rep[j][i], s.nodes[i].log, |s.rep[j][i].got|)
  }

  ghost predicate AllFwd(s: State)
    requires Shape(s)
  {
    forall j: nat, i: nat {:trigger FwdOk(s, j, i)} :: j < |s.nodes| && i < |s.nodes| ==> FwdOk(s, j, i)
  }

  ghost predicate AllRep(s: State)
    requires Shape(s)
  {
    forall j: nat, i: nat {:trigger RepOk(s, j, i)} :: j < |s.nodes| && i < |s.nodes| ==> RepOk(s, j, i)
  }

  /** The state `s` over bytes stands for the cluster state `c`. */
  ghost predicate StandsFor(s: State, c: C.State) {
    && Shape(s) && c == Seen(s, c.seen) && |c.seen| == |s.nodes|
    && (forall j: nat {:trigger s.read[j]} :: j < |s.nodes| ==> ReadAs(s.read[j], c.seen[j]))
    && AllFwd(s) && AllRep(s)
  }

  lemma StandsForShape(s: State, c: C.State)
    requires StandsFor(s, c)
    ensures C.Shape(c)
  {
  }

  lemma InitStandsFor(s: State) returns (c: C.State)
    requires Init(s)
    ensures C.Init(c) && StandsFor(s, c)
  {
    c := Seen(s, seq(|s.nodes|, j => []));
    forall j: nat, i: nat | j < |s.nodes| && i < |s.nodes|
      ensures FwdOk(s, j, i) && RepOk(s, j, i)
    {
      InitJoins(s.fwd[j][i]);
      InitJoins(s.rep[j][i]);
      assert SentTo(s.rule, j, []) == [];
    }
  }

  // -------- Step by step --------

  lemma KeepFwd(s: State, s': State)
    requires Shape(s) && Shape(s') && AllFwd(s) && |s'.nodes| == |s.nodes|
    requires s'.fwd == s.fwd && s'.rule == s.rule && s'.forwards == s.forwards
    ensures AllFwd(s')
  {
    forall j: nat, i: nat | j < |s.nodes| && i < |s.nodes|
      ensures FwdOk(s', j, i)
    {
      assert FwdOk(s, j, i);
    }
  }

  lemma KeepRep(s: State, s': State)
    requires Shape(s) && Shape(s') && AllRep(s) && |s'.nodes| == |s.nodes|
    requires s'.rep == s.rep && forall i :: 0 <= i < |s.nodes| ==> s'.nodes[i].log == s.nodes[i].log
    ensures AllRep(s')
  {
    forall j: nat, i: nat | j < |s.nodes| && i < |s.nodes|
      ensures RepOk(s', j, i)
    {
      assert RepOk(s, j, i);
    }
  }

  lemma SetFwd(s: State, s': State, j: nat, i: nat, ch: Log.State)
    requires Shape(s) && Shape(s') && AllFwd(s) && |s'.nodes| == |s.nodes| && j < |s.nodes| && i < |s.nodes|
    requires s'.fwd == s.fwd[j := s.fwd[j][i := ch]] && s'.rule == s.rule && s'.forwards == s.forwards
    requires Joined(ch, SentTo(s.rule, j, s.forwards[i]), |ch.got|)
    ensures AllFwd(s')
  {
    forall b: nat, a: nat | b < |s.nodes| && a < |s.nodes|
      ensures FwdOk(s', b, a)
    {
      assert FwdOk(s, b, a);
    }
  }

  lemma SetRep(s: State, s': State, j: nat, i: nat, ch: Log.State)
    requires Shape(s) && Shape(s') && AllRep(s) && j < |s.nodes| && i < |s.nodes|
    requires s'.rep == s.rep[j := s.rep[j][i := ch]] && s'.nodes == s.nodes
    requires Joined(ch, s.nodes[i].log, |ch.got|)
    ensures AllRep(s')
  {
    forall b: nat, a: nat | b < |s.nodes| && a < |s.nodes|
      ensures RepOk(s', b, a)
    {
      assert RepOk(s, b, a);
    }
  }

  lemma ProposeStands(s: State, s': State, c: C.State, i: nat, t: nat, hashv: word, payload: seq<byte>)
    returns (c': C.State)
    requires StandsFor(s, c) && Propose(s, s', i, t, hashv, payload)
    ensures C.Propose(c, c', i, t, hashv, payload) && StandsFor(s', c')
  {
    c' := Seen(s', c.seen);
    assert C.Shape(c) by {
      StandsForShape(s, c);
    }
    forall j: nat, a: nat | j < |s.nodes| && a < |s.nodes|
      ensures FwdOk(s', j, a) && RepOk(s', j, a)
    {
      assert FwdOk(s, j, a) && RepOk(s, j, a);
    }
  }

  lemma ForwardStands(s: State, s': State, c: C.State, i: nat, req: Request) returns (c': C.State)
    requires StandsFor(s, c) && Forward(s, s', i, req)
    ensures C.Forward(c, c', i, req) && StandsFor(s', c')
  {
    c' := Seen(s', c.seen);
    StandsForShape(s, c);
    CountsSame(s.fwd, s'.fwd);
    forall j: nat, a: nat | j < |s.nodes| && a < |s.nodes|
      ensures FwdOk(s', j, a) && RepOk(s', j, a)
    {
      assert FwdOk(s, j, a) && RepOk(s, j, a);
      if a == i && j != i {
        SendIsForward(c, c', j, i, req, s.fwd[j][i], s'.fwd[j][i]);
      }
    }
  }

  /** A step of a replicator adds one record to its log or none. */
  lemma LogsOne(node: R.State, node': R.State)
    requires R.Step(node, node')
    ensures node'.log == node.log || (|node'.log| > 0 && node'.log == node.log + [node'.log[|node'.log| - 1]])
  {
    var t :| R.StepOf(node, node', t);
    if !R.Write(node, node', t) && !R.InsertCas(node, node', t) && !R.ReplaceCas(node, node', t) {
      Runs.OtherStepsKeepLogs(node, node', t);
    }
  }

  lemma WorkStands(s: State, s': State, c: C.State, i: nat, node: R.State) returns (c': C.State)
    requires StandsFor(s, c) && Work(s, s', i, node)
    ensures C.Work(c, c', i, node) && StandsFor(s', c')
  {
    c' := Seen(s', c.seen);
    StandsForShape(s, c);
    LogsOne(s.nodes[i], node);
    CountsSame(s.rep, s'.rep);
    forall j: nat, a: nat | j < |s.nodes| && a < |s.nodes|
      ensures FwdOk(s', j, a) && RepOk(s', j, a)
    {
      assert FwdOk(s, j, a) && RepOk(s, j, a);
      if a == i && j != i && node.log != s.nodes[i].log {
        SendIsWrite(c, c', j, i, node, node.log[|node.log| - 1], s.rep[j][i], s'.rep[j][i]);
      }
    }
  }

  lemma HearStands(s: State, s': State, c: C.State, j: nat, i: nat, ch: Log.State, node: R.State)
    returns (c': C.State)
    requires StandsFor(s, c) && Hear(s, s', j, i, ch, node)
    ensures C.Hear(c, c', j, i) && StandsFor(s', c')
  {
    StandsForShape(s, c);
    assert FwdOk(s, j, i);
    c' := ReadIsHear(c, j, i, s.fwd[j][i], ch, NextId(s, j, i), node);
    CountsBump(s.fwd, j, i, ch);
    SetFwd(s, s', j, i, ch);
    KeepRep(s, s');
  }

  lemma ReplayStands(s: State, s': State, c: C.State, j: nat, i: nat, ch: Log.State) returns (c': C.State)
    requires StandsFor(s, c) && C.SourceInv(c) && Replay(s, s', j, i, ch)
    ensures C.Replay(c, c', j, i) && StandsFor(s', c')
  {
    assert RepOk(s, j, i);
    c' := ReadIsReplay(c, j, i, s.rep[j][i], ch);
    CountsBump(s.rep, j, i, ch);
    SetRep(s, s', j, i, ch);
    KeepFwd(s, s');
  }

  lemma LandFwd(s: State, s': State, c: C.State, j: nat, i: nat, ch: Log.State)
    requires StandsFor(s, c) && i < |s.nodes| && j < |s.nodes| && i != j
    requires Carry(s.fwd[j][i], ch) && s' == s.(fwd := s.fwd[j := s.fwd[j][i := ch]])
    ensures StandsFor(s', c)
  {
    assert FwdOk(s, j, i);
    CarryJoins(s.fwd[j][i], ch, SentTo(s.rule, j, s.forwards[i]), |s.fwd[j][i].got|);
    CountsSame(s.fwd, s'.fwd);
    SetFwd(s, s', j, i, ch);
    KeepRep(s, s');
  }

  lemma LandRep(s: State, s': State, c: C.State, j: nat, i: nat, ch: Log.State)
    requires StandsFor(s, c) && i < |s.nodes| && j < |s.nodes| && i != j
    requires Carry(s.rep[j][i], ch) && s' == s.(rep := s.rep[j := s.rep[j][i := ch]])
    ensures StandsFor(s', c)
  {
    assert RepOk(s, j, i);
    CarryJoins(s.rep[j][i], ch, s.nodes[i].log, |s.rep[j][i].got|);
    CountsSame(s.rep, s'.rep);
    SetRep(s, s', j, i, ch);
    KeepFwd(s, s');
  }

  lemma LandStands(s: State, s': State, c: C.State, j: nat, i: nat, ch: Log.State)
    requires StandsFor(s, c) && Land(s, s', j, i, ch)
    ensures StandsFor(s', c)
  {
    if Carry(s.fwd[j][i], ch) && s' == s.(fwd := s.fwd[j := s.fwd[j][i := ch]]) {
      LandFwd(s, s', c, j, i, ch);
    } else {
      LandRep(s, s', c, j, i, ch);
    }
  }

  /** Every step is a step of the cluster machine or leaves its state as it is. */
  lemma StepStands(s: State, s': State, c: C.State) returns (c': C.State)
    requires StandsFor(s, c) && C.SourceInv(c) && Step(s, s')
    ensures (c' == c || C.Step(c, c')) && StandsFor(s', c')
  {
    if i, t, hashv, payload :| Propose(s, s', i, t, hashv, payload) {
      c' := ProposeStands(s, s', c, i, t, hashv, payload);
    } else if i, req :| Forward(s, s', i, req) {
      c' := ForwardStands(s, s', c, i, req);
    } else if i, node :| Work(s, s', i, node) {
      c' := WorkStands(s, s', c, i, node);
    } else if j, i, ch, node :| Hear(s, s', j, i, ch, node) {
      c' := HearStands(s, s', c, j, i, ch, node);
    } else if j, i, ch :| Replay(s, s', j, i, ch) {
      c' := ReplayStands(s, s', c, j, i, ch);
    } else {
      var j, i, ch :| Land(s, s', j, i, ch);
      LandStands(s, s', c, j, i, ch);
      c' := c;
    }
  }
}
