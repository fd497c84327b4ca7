/** Why a channel of the cluster machine may hand over its records in order: until
    its first wrap the byte log makes just the steps the cluster takes it to make. */
module ClusterChannels {
  import opened Messages
  import opened LogLayout
  import opened Cluster
  import ClusterReplay
  import Log = LogChannel
  import R = Replicator

  /** The byte log carries the messages `reqs`, and its reader has taken `taken` of them. */
  ghost predicate Joined(ch: Log.State, reqs: seq<Request>, taken: nat) {
    && Log.Inv(ch) && Log.InstancesOk(ch)
    && |ch.sent| == |reqs| && |ch.got| == taken
    && forall k :: 0 <= k < |reqs| ==> |reqs[k].payload| < 0x1_0000 && ch.sent[k] == RecordOf(reqs[k], k % 256)
  }

  lemma InitJoins(ch: Log.State)
    requires Log.Init(ch)
    ensures Joined(ch, [], 0)
  {
    Log.InitInv(ch);
  }

  lemma SendJoins(ch: Log.State, ch': Log.State, reqs: seq<Request>, taken: nat, req: Request)
    requires Joined(ch, reqs, taken) && Log.Send(ch, ch', req)
    ensures Joined(ch', reqs + [req], taken)
  {
    Log.SendInv(ch, ch', req);
    Log.InstancesSend(ch, ch', req);
  }

  /** Landing bytes, or the reader finishing with the entry it took last: steps that the cluster does not see. */
  ghost predicate Carry(ch: Log.State, ch': Log.State) {
    || (exists k, upTo :: Log.Arrive(ch, ch', k, upTo))
    || (exists clear :: Log.Finish(ch, ch', clear))
  }

  lemma CarryJoins(ch: Log.State, ch': Log.State, reqs: seq<Request>, taken: nat)
    requires Joined(ch, reqs, taken) && Carry(ch, ch')
    ensures Joined(ch', reqs, taken) && ch'.got == ch.got
  {
    if k, upTo :| Log.Arrive(ch, ch', k, upTo) {
      Log.ArriveInv(ch, ch', k, upTo);
    } else {
      var clear :| Log.Finish(ch, ch', clear);
      Log.FinishInv(ch, ch', clear);
    }
  }

  /** A read takes the next message: all of it, or its header if only that was sent. */
  lemma ReadJoins(ch: Log.State, ch': Log.State, reqs: seq<Request>, taken: nat)
    requires Joined(ch, reqs, taken) && Log.Read(ch, ch')
    ensures taken < |reqs| && Joined(ch', reqs, taken + 1) && |reqs[taken].payload| < 0x1_0000
    ensures ch'.got == ch.got + [Log.Received(RecordOf(reqs[taken], taken % 256))]
  {
    Log.ReadInv(ch, ch');
    Log.InstancesRead(ch, ch');
  }

  // -------- Replicator logs --------

  /** When node `i` logs a record, the byte log to node `j` is given that record. */
  lemma SendIsWrite(s: State, s': State, j: nat, i: nat, node: R.State, rec: Request, ch: Log.State, ch': Log.State)
    requires Work(s, s', i, node) && node.log == s.nodes[i].log + [rec] && j < |s.nodes|
    requires Joined(ch, s.nodes[i].log, s.replayed[j][i]) && Log.Send(ch, ch', rec)
    ensures Joined(ch', s'.nodes[i].log, s'.replayed[j][i])
  {
    SendJoins(ch, ch', s.nodes[i].log, s.replayed[j][i], rec);
  }

  /** A read of the log of node `i` at node `j` is the cluster's replay of the same record. */
  lemma ReadIsReplay(s: State, j: nat, i: nat, ch: Log.State, ch': Log.State) returns (s': State)
    requires SourceInv(s) && i < |s.nodes| && j < |s.nodes| && i != j
    requires Joined(ch, s.nodes[i].log, s.replayed[j][i]) && Log.Read(ch, ch')
    ensures Replay(s, s', j, i) && Joined(ch', s'.nodes[i].log, s'.replayed[j][i])
    ensures var taken := s.replayed[j][i];
            && taken < |s.nodes[i].log| && |s.nodes[i].log[taken].payload| < 0x1_0000
            && s' == s.(replayed := Bump(s.replayed, j, i), seen := s.seen[j := s.seen[j] + [s.nodes[i].log[taken]]])
            && ch'.got == ch.got + [RecordOf(s.nodes[i].log[taken], taken % 256)]
  {
    var taken := s.replayed[j][i];
    ReadJoins(ch, ch', s.nodes[i].log, taken);
    ClusterReplay.LogFits(s, i, taken);
    s' := s.(replayed := Bump(s.replayed, j, i), seen := s.seen[j := s.seen[j] + [s.nodes[i].log[taken]]]);
  }

  // -------- Forwarded messages --------

  /** What a checker sends to node `j` of a message. */
  function Addressed(rule: nat -> nat, j: nat, req: Request): Request {
    req.(msg := if rule(req.hashv) == j then MSG_WAIT else MSG_HDRONLY)
  }

  function SentTo(rule: nat -> nat, j: nat, reqs: seq<Request>): seq<Request> {
    seq(|reqs|, k requires 0 <= k < |reqs| => Addressed(rule, j, reqs[k]))
  }

  /** When the checker of node `i` forwards a message, the byte log to node `j` is given what is addressed to `j`. */
  lemma SendIsForward(s: State, s': State, j: nat, i: nat, req: Request, ch: Log.State, ch': Log.State)
    requires Forward(s, s', i, req) && j < |s.nodes|
    requires Joined(ch, SentTo(s.rule, j, s.forwards[i]), s.heard[j][i])
    requires Log.Send(ch, ch', Addressed(s.rule, j, req))
    ensures Joined(ch', SentTo(s.rule, j, s'.forwards[i]), s'.heard[j][i])
  {
    SendJoins(ch, ch', SentTo(s.rule, j, s.forwards[i]), s.heard[j][i], Addressed(s.rule, j, req));
    assert SentTo(s.rule, j, s'.forwards[i]) == SentTo(s.rule, j, s.forwards[i]) + [Addressed(s.rule, j, req)];
  }

  /** What the receiver of node `j` for node `i` does with a record it has read: a
      WAIT calls the replicator with the hash and the payload that were read, on the
      thread of that receiver; a bare header calls nothing.  `id` is history. */
  ghost predicate Handles(was: R.State, node: R.State, i: nat, rec: Record, id: nat) {
    if rec.msg == MSG_WAIT then R.Call(was, node, i, Request(rec.hashv, rec.payload, MSG_ACK, id)) else node == was
  }

  /** A read of a forwarded message at node `j` is the cluster's hearing it. */
  lemma ReadIsHear(s: State, j: nat, i: nat, ch: Log.State, ch': Log.State, id: nat, node: R.State) returns (s': State)
    requires Shape(s) && i < |s.nodes| && j < |s.nodes| && i != j
    requires Joined(ch, SentTo(s.rule, j, s.forwards[i]), s.heard[j][i]) && Log.Read(ch, ch')
    requires s.heard[j][i] < |s.forwards[i]| ==> id == s.forwards[i][s.heard[j][i]].id
    requires Handles(s.nodes[j], node, i, ch'.got[|ch'.got| - 1], id)
    ensures Hear(s, s', j, i) && s' == s.(heard := Bump(s.heard, j, i), nodes := s.nodes[j := node])
    ensures Joined(ch', SentTo(s.rule, j, s.forwards[i]), s'.heard[j][i]) && |ch'.got| == |ch.got| + 1
  {
    var taken := s.heard[j][i];
    ReadJoins(ch, ch', SentTo(s.rule, j, s.forwards[i]), taken);
    s' := s.(heard := Bump(s.heard, j, i), nodes := s.nodes[j := node]);
    assert s.nodes[j := s.nodes[j]] == s.nodes;
  }
}
