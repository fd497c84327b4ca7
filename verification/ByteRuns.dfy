/** What holds over whole runs of the cluster over bytes. */
module ByteRuns {
  import opened Messages
  import opened LogLayout
  import opened ByteCluster
  import C = Cluster
  import ClusterReplay
  import ClusterRuns
  import R = Replicator
  import Runs = ReplicatorRuns

  ghost predicate StepAt(ss: seq<State>, i: nat)
    requires i + 1 < |ss|
  {
    Step(ss[i], ss[i + 1])
  }

  ghost predicate Run(ss: seq<State>) {
    |ss| > 0 && Init(ss[0]) && forall i :: 0 <= i < |ss| - 1 ==> StepAt(ss, i)
  }

  /** `cs` is a run of the cluster machine that ends in a state `s` stands for. */
  ghost predicate Projects(s: State, cs: seq<C.State>) {
    ClusterRuns.Run(cs) && StandsFor(s, cs[|cs| - 1])
  }

  lemma RunExtends(cs: seq<C.State>, c': C.State)
    requires ClusterRuns.Run(cs) && C.Step(cs[|cs| - 1], c')
    ensures ClusterRuns.Run(cs + [c'])
  {
    var cs' := cs + [c'];
    forall i | 0 <= i < |cs'| - 1
      ensures ClusterRuns.StepAt(cs', i)
    {
      assert i < |cs| - 1 ==> ClusterRuns.StepAt(cs, i);
    }
  }

  lemma Follows(cs: seq<C.State>, c': C.State, s': State) returns (cs': seq<C.State>)
    requires ClusterRuns.Run(cs) && (c' == cs[|cs| - 1] || C.Step(cs[|cs| - 1], c')) && StandsFor(s', c')
    ensures Projects(s', cs')
  {
    if c' == cs[|cs| - 1] {
      cs' := cs;
    } else {
      RunExtends(cs, c');
      cs' := cs + [c'];
    }
  }

  lemma EndSource(cs: seq<C.State>)
    requires ClusterRuns.Run(cs)
    ensures C.SourceInv(cs[|cs| - 1])
  {
    ClusterRuns.RunInv(cs, |cs| - 1);
  }

  lemma StepProjects(ss: seq<State>, n: nat, cs: seq<C.State>) returns (cs': seq<C.State>)
    requires Run(ss) && n + 1 < |ss| && Projects(ss[n], cs)
    ensures Projects(ss[n + 1], cs')
  {
    EndSource(cs);
    assert StepAt(ss, n);
    var c' := StepStands(ss[n], ss[n + 1], cs[|cs| - 1]);
    cs' := Follows(cs, c', ss[n + 1]);
  }

  lemma StartProjects(ss: seq<State>) returns (cs: seq<C.State>)
    requires Run(ss)
    ensures Projects(ss[0], cs)
  {
    var c := InitStandsFor(ss[0]);
    cs := [c];
  }

  /** Every reachable state over bytes stands for a reachable state of the cluster machine. */
  lemma {:induction false} RunProjects(ss: seq<State>, n: nat) returns (cs: seq<C.State>)
    requires Run(ss) && n < |ss|
    ensures Projects(ss[n], cs)
  {
    if n == 0 {
      cs := StartProjects(ss);
    } else {
      cs := RunProjects(ss, n - 1);
      cs := StepProjects(ss, n - 1, cs);
    }
  }

  // -------- What is read from bytes --------

  /** The records for hash `k` among what was read. */
  function ReadOf(recs: seq<Record>, k: nat): seq<Record> {
    if recs == [] then []
    else ReadOf(recs[..|recs| - 1], k) + if recs[|recs| - 1].hashv == k then [recs[|recs| - 1]] else []
  }

  /** What records say: hash, payload and type. */
  function Said(recs: seq<Record>): seq<Request> {
    seq(|recs|, m requires 0 <= m < |recs| => Request(recs[m].hashv, recs[m].payload, recs[m].msg, 0))
  }

  function Unnumbered(reqs: seq<Request>): seq<Request> {
    seq(|reqs|, m requires 0 <= m < |reqs| => reqs[m].(id := 0))
  }

  lemma {:induction false} SaidOf(recs: seq<Record>, reqs: seq<Request>, k: nat)
    requires ReadAs(recs, reqs)
    ensures Said(ReadOf(recs, k)) == Unnumbered(ClusterReplay.Of(reqs, k))
  {
    if recs != [] {
      SaidOf(recs[..|recs| - 1], reqs[..|reqs| - 1], k);
      var r, q := ReadOf(recs[..|recs| - 1], k), ClusterReplay.Of(reqs[..|reqs| - 1], k);
      var rec, req := recs[|recs| - 1], reqs[|reqs| - 1];
      if req.hashv == k {
        assert Said(r + [rec]) == Said(r) + [Request(rec.hashv, rec.payload, rec.msg, 0)];
        assert Unnumbered(q + [req]) == Unnumbered(q) + [req.(id := 0)];
      } else {
        assert ReadOf(recs, k) == r && ClusterReplay.Of(reqs, k) == q;
      }
    }
  }

  lemma UnnumberedPrefix(a: seq<Request>, b: seq<Request>)
    requires a <= b
    ensures Unnumbered(a) <= Unnumbered(b)
  {
  }

  /** What a node reads from bytes for a hash says a beginning of what the owner of
      the hash has logged for it; so of two nodes one is always ahead of the other. */
  lemma ReadIsPrefix(ss: seq<State>, n: nat, i: nat, j: nat, k: nat)
    requires Run(ss) && n < |ss| && i < |ss[n].nodes| && j < |ss[n].nodes|
    requires ss[n].rule(k) < |ss[n].nodes| && i != ss[n].rule(k) && j != ss[n].rule(k)
    ensures Shape(ss[n])
    ensures var s := ss[n];
            && Said(ReadOf(s.read[i], k)) <= Unnumbered(ClusterReplay.Of(s.nodes[s.rule(k)].log, k))
            && (|| Said(ReadOf(s.read[i], k)) <= Said(ReadOf(s.read[j], k))
                || Said(ReadOf(s.read[j], k)) <= Said(ReadOf(s.read[i], k)))
  {
    var cs := RunProjects(ss, n);
    ClusterRuns.ReplayedIsPrefix(cs, |cs| - 1, i, j, k);
    PrefixRead(ss[n], cs[|cs| - 1], i, j, k);
  }

  lemma PrefixRead(s: State, c: C.State, i: nat, j: nat, k: nat)
    requires StandsFor(s, c) && i < |s.nodes| && j < |s.nodes| && s.rule(k) < |s.nodes|
    requires ClusterReplay.Of(c.seen[i], k) <= ClusterReplay.Of(s.nodes[s.rule(k)].log, k)
    requires || ClusterReplay.Of(c.seen[i], k) <= ClusterReplay.Of(c.seen[j], k)
             || ClusterReplay.Of(c.seen[j], k) <= ClusterReplay.Of(c.seen[i], k)
    ensures Said(ReadOf(s.read[i], k)) <= Unnumbered(ClusterReplay.Of(s.nodes[s.rule(k)].log, k))
    ensures || Said(ReadOf(s.read[i], k)) <= Said(ReadOf(s.read[j], k))
            || Said(ReadOf(s.read[j], k)) <= Said(ReadOf(s.read[i], k))
  {
    SaidOf(s.read[i], c.seen[i], k);
    SaidOf(s.read[j], c.seen[j], k);
    UnnumberedPrefix(ClusterReplay.Of(c.seen[i], k), ClusterReplay.Of(s.nodes[s.rule(k)].log, k));
    if ClusterReplay.Of(c.seen[i], k) <= ClusterReplay.Of(c.seen[j], k) {
      UnnumberedPrefix(ClusterReplay.Of(c.seen[i], k), ClusterReplay.Of(c.seen[j], k));
    } else {
      UnnumberedPrefix(ClusterReplay.Of(c.seen[j], k), ClusterReplay.Of(c.seen[i], k));
    }
  }

  /** No node reads from bytes what was published for a hash and after it what was published earlier. */
  lemma ReadNeverGoesBack(ss: seq<State>, n: nat, j: nat, k: nat, a: nat, b: nat) returns (p: nat, q: nat)
    requires Run(ss) && n < |ss| && j < |ss[n].nodes| == |ss[n].read|
    requires a < b < |ReadOf(ss[n].read[j], k)|
    ensures var s, o := ss[n], ss[n].rule(k);
            && o < |s.nodes| && p <= q < |s.nodes[o].hist|
            && Said(ReadOf(s.read[j], k))[a] == s.nodes[o].hist[p].(id := 0)
            && Said(ReadOf(s.read[j], k))[b] == s.nodes[o].hist[q].(id := 0)
  {
    var cs := RunProjects(ss, n);
    var s, c := ss[n], cs[|cs| - 1];
    SaidOf(s.read[j], c.seen[j], k);
    p, q := ClusterRuns.ReplayedNeverGoesBack(cs, |cs| - 1, j, k, a, b);
  }

  // -------- Once all is drained --------

  /** No checker has anything to send, and every forwarded message has been read. */
  ghost predicate NoneForwarded(s: State) {
    && Shape(s)
    && (forall i :: 0 <= i < |s.nodes| ==> s.checking[i] == {})
    && (forall j, i :: 0 <= j < |s.nodes| && 0 <= i < |s.nodes| && i != j ==> |s.fwd[j][i].got| == |s.fwd[j][i].sent|)
  }

  /** The replicator of `o` rests, and node `j` has read all that was sent of its log. */
  ghost predicate Drained(s: State, j: nat, o: nat)
    requires Shape(s) && j < |s.nodes| && o < |s.nodes|
  {
    && (forall t :: t in s.nodes[o].pcs ==> s.nodes[o].pcs[t] == R.Resting)
    && |s.rep[j][o].got| == |s.rep[j][o].sent|
  }

  lemma DrainedStands(s: State, c: C.State, j: nat, o: nat)
    requires StandsFor(s, c) && NoneForwarded(s) && j < |s.nodes| && o < |s.nodes| && j != o && Drained(s, j, o)
    ensures ClusterRuns.NoneForwarded(c) && ClusterRuns.Idle(c, o) && ClusterRuns.Drained(c, j, o)
  {
    StandsForShape(s, c);
    forall b: nat, a: nat | b < |s.nodes| && a < |s.nodes| && a != b
      ensures c.heard[b][a] == |c.forwards[a]|
    {
      assert FwdOk(s, b, a);
    }
    assert RepOk(s, j, o);
  }

  /** All nodes that have read all of the owner's log end on the request the owner
      published last for the hash. */
  lemma DrainedNodesAgree(ss: seq<State>, n: nat, j: nat, id: nat) returns (p: nat)
    requires Run(ss) && n < |ss| && j < |ss[n].nodes| && NoneForwarded(ss[n])
    requires id < |ss[n].proposals|
    requires var o := ss[n].rule(ss[n].proposals[id].hashv);
             o < |ss[n].nodes| && o != j && Drained(ss[n], j, o)
    ensures var s, k := ss[n], ss[n].proposals[id].hashv;
            var o, said := s.rule(k), Said(ReadOf(s.read[j], k));
            && Runs.LastOf(s.nodes[o].hist, p) && s.nodes[o].hist[p].hashv == k
            && |said| > 0 && said[|said| - 1] == s.nodes[o].hist[p].(id := 0)
  {
    var cs := RunProjects(ss, n);
    var s, c := ss[n], cs[|cs| - 1];
    var k := s.proposals[id].hashv;
    DrainedStands(s, c, j, s.rule(k));
    p := ClusterRuns.DrainedNodesAgree(cs, |cs| - 1, j, id);
    SaidOf(s.read[j], c.seen[j], k);
  }
}
