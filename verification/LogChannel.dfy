/** One writer's log carried to one reader by remote writes.

    A remote write lands as a prefix of its bytes that only grows; writes land
    independently of each other.  The reader polls its own copy and may or may not
    clear the message byte of an entry it has handled.  The buffer starts out all
    zero, and the machine runs until the log has wrapped once. */
module LogChannel {
  import opened Messages
  import opened LogLayout

  /** A remote write of `data` to aligned word `idx`, of which `arrived` bytes have landed. */
  datatype Post = Post(idx: nat, data: seq<byte>, arrived: nat)

  function Pos(p: Post): nat {
    Offset(p.idx)
  }

  /** `after` is the layout both ends compute with; `sent` and `got` are history.
      `holding` tells that the reader has not yet finished with the entry it took last. */
  datatype State = State(counts: nat, mask: byte, after: (nat, uint16) -> nat,
                         sent: seq<Record>, posts: seq<Post>, next: nat, inst: byte,
                         mem: seq<byte>, got: seq<Record>, rnext: nat, rinst: byte, holding: bool)

  ghost predicate Init(s: State) {
    && Layout(s.counts, |s.mem|) && (forall idx: nat, size: uint16 :: s.after(idx, size) == After(idx, size, s.counts))
    && (forall i :: 0 <= i < |s.mem| ==> s.mem[i] == 0)
    && s.sent == [] && s.posts == [] && s.next == 0 && s.inst == 0
    && s.got == [] && s.rnext == 0 && s.rinst == 0 && !s.holding
  }

  /** Header-only messages travel without payload and canary. */
  function WireBytes(r: Record): (d: seq<byte>)
    ensures HEADER_SZ <= |d|
  {
    if r.msg == MSG_HDRONLY then HeaderBytes(r.hashv, r.size, r.inst, r.msg) else Encode(r)
  }

  /** What the reader can know of an entry. */
  function Received(r: Record): Record {
    if r.msg == MSG_HDRONLY then r.(payload := []) else r
  }

  predicate Wrapped(count: nat, next: nat) {
    count > 0 && next == 0
  }

  // -------- Steps --------

  ghost predicate Send(s: State, s': State, req: Request) {
    && |req.payload| <= 65531 && ShareBit(req.msg, s.mask)
    && !Wrapped(|s.sent|, s.next)
    && var rec := Record(req.hashv, |req.payload|, s.inst, req.msg, req.payload);
    && s' == s.(sent := s.sent + [rec], posts := s.posts + [Post(s.next, WireBytes(rec), 0)],
                next := s.after(s.next, rec.size), inst := (s.inst + 1) % 256)
  }

  ghost predicate Arrive(s: State, s': State, k: nat, upTo: nat) {
    && k < |s.posts| && s.posts[k].arrived < upTo <= |s.posts[k].data|
    && var p := s.posts[k];
    && Pos(p) + |p.data| <= |s.mem|
    && s' == s.(posts := s.posts[k := p.(arrived := upTo)],
                mem := Overlay(s.mem, Pos(p) + p.arrived, p.data[p.arrived..upTo]))
  }

  ghost predicate Read(s: State, s': State) {
    && !s.holding && !Wrapped(|s.got|, s.rnext)
    && var off := Offset(s.rnext);
    && off + HEADER_SZ + 0x1_0000 <= |s.mem|
    && LookAt(s.mem, off, s.mask).Got?
    && var rec := LookAt(s.mem, off, s.mask).rec;
    && s' == s.(mem := Taken(s.mem, off, rec), got := s.got + [rec],
                rnext := s.after(s.rnext, rec.size), rinst := (s.rinst + 1) % 256, holding := true)
  }

  /** The reader is done with the entry taken last; `clear` tells whether it clears the message byte. */
  ghost predicate Finish(s: State, s': State, clear: bool) {
    && s.holding && 0 < |s.got| <= |s.posts|
    && var off := Pos(s.posts[|s.got| - 1]);
    && off + 7 < |s.mem|
    && s' == s.(mem := if clear then s.mem[off + 7 := MSG_NONE] else s.mem, holding := false)
  }

  ghost predicate Step(s: State, s': State) {
    || (exists req :: Send(s, s', req)) || (exists k, upTo :: Arrive(s, s', k, upTo))
    || Read(s, s') || (exists clear :: Finish(s, s', clear))
  }

  // -------- The invariant --------

  /** The end of the bytes that entry `k` may ever take. */
  function End(s: State, k: nat): nat
    requires k < |s.sent| == |s.posts|
  {
    Pos(s.posts[k]) + HEADER_SZ + s.sent[k].size + 1
  }

  ghost predicate PostOk(s: State, k: nat)
    requires k < |s.sent| == |s.posts|
  {
    var r, p := s.sent[k], s.posts[k];
    && |r.payload| == r.size <= 65531 && ShareBit(r.msg, s.mask)
    && p.idx < s.counts && p.data == WireBytes(r) && p.arrived <= |p.data|
    && (k > 0 ==> p.idx != 0)
    && (!Wrapped(|s.sent|, s.next) ==> End(s, k) <= Offset(s.next))
  }

  /** Entries of the lap do not overlap. */
  ghost predicate Apart(s: State, j: nat, k: nat)
    requires j < k < |s.sent| == |s.posts|
  {
    End(s, j) <= Pos(s.posts[k])
  }

  /** The word where entry `k` starts, or will start if it is the next to be sent. */
  function StartOf(s: State, k: nat): nat
    requires k <= |s.posts|
  {
    if k < |s.posts| then s.posts[k].idx else s.next
  }

  /** Entry `k + 1` starts where the shared layout puts it. */
  ghost predicate Chained(s: State, k: nat)
    requires k < |s.sent| == |s.posts|
  {
    StartOf(s, k + 1) == s.after(s.posts[k].idx, s.sent[k].size)
  }

  /** A written but unread entry: its landed bytes are there, the others are still zero. */
  ghost predicate Landed(s: State, k: nat)
    requires k < |s.sent| == |s.posts|
  {
    var p := s.posts[k];
    Pos(p) + |p.data| <= |s.mem| &&
    forall a :: Pos(p) <= a < Pos(p) + |p.data| ==> s.mem[a] == if a - Pos(p) < p.arrived then p.data[a - Pos(p)] else 0
  }

  /** An entry the reader has taken: it was complete, and taken as it was sent. */
  ghost predicate Handled(s: State, k: nat)
    requires k < |s.sent| == |s.posts| && k < |s.got|
  {
    s.posts[k].arrived == |s.posts[k].data| && s.got[k] == Received(s.sent[k])
  }

  /** An entry put at `idx` ends before the next one starts, unless the log wraps. */
  ghost predicate Spaced(s: State, idx: nat, size: uint16) {
    && s.after(idx, size) < s.counts
    && (s.after(idx, size) != 0 ==> Offset(idx) + HEADER_SZ + size + 1 <= Offset(s.after(idx, size)))
  }

  ghost predicate WriterOk(s: State) {
    && (forall idx: nat, size: uint16 {:trigger Spaced(s, idx, size)} ::
          idx < s.counts && size <= 65531 ==> Spaced(s, idx, size))
    && Layout(s.counts, |s.mem|)
    && |s.posts| == |s.sent| && s.next < s.counts && StartOf(s, 0) == 0
    && (forall k: nat {:trigger PostOk(s, k)} :: k < |s.sent| ==> PostOk(s, k))
    && (forall j: nat, k: nat {:trigger Apart(s, j, k)} :: j < k < |s.sent| ==> Apart(s, j, k))
    && (forall k: nat {:trigger Chained(s, k)} :: k < |s.sent| ==> Chained(s, k))
  }

  ghost predicate Zero(mem: seq<byte>, from: nat) {
    forall a :: from <= a < |mem| ==> mem[a] == 0
  }

  ghost predicate ReaderOk(s: State)
    requires |s.posts| == |s.sent|
  {
    && |s.got| <= |s.sent| && s.rnext == StartOf(s, |s.got|)
    && (forall k: nat {:trigger Handled(s, k)} :: k < |s.got| ==> Handled(s, k))
    && (forall k: nat {:trigger Landed(s, k)} :: |s.got| <= k < |s.sent| ==> Landed(s, k))
    && (!Wrapped(|s.sent|, s.next) ==> Zero(s.mem, Offset(s.next)))
    && (s.holding ==> |s.got| > 0)
  }

  ghost predicate Inv(s: State) {
    WriterOk(s) && ReaderOk(s)
  }

  lemma InitInv(s: State)
    requires Init(s)
    ensures Inv(s)
  {
    forall idx: nat, size: uint16 | idx < s.counts && size <= 65531
      ensures Spaced(s, idx, size)
    {
      AfterExact(idx, size, s.counts);
    }
  }

  lemma InBuffer(s: State, idx: nat)
    requires Layout(s.counts, |s.mem|) && idx < s.counts
    ensures Offset(idx) + HEADER_SZ + 0x1_0000 <= |s.mem|
  {
  }

  // -------- Sending --------

  lemma SendPost(s: State, s': State, req: Request, k: nat)
    requires WriterOk(s) && Send(s, s', req) && k <= |s.sent|
    ensures PostOk(s', k)
    ensures forall j: nat :: j < k ==> Apart(s', j, k)
  {
    assert Spaced(s, s.next, |req.payload|);
    forall j: nat | j < k
      ensures Apart(s', j, k)
    {
      assert PostOk(s, j);
      assert k < |s.sent| ==> Apart(s, j, k);
    }
    assert k < |s.sent| ==> PostOk(s, k);
  }

  lemma SendWriter(s: State, s': State, req: Request)
    requires WriterOk(s) && Send(s, s', req)
    ensures WriterOk(s')
  {
    assert Spaced(s, s.next, |req.payload|);
    forall idx: nat, size: uint16 | idx < s.counts && size <= 65531
      ensures Spaced(s', idx, size)
    {
      assert Spaced(s, idx, size);
    }
    forall k: nat | k < |s'.sent|
      ensures PostOk(s', k) && Chained(s', k)
    {
      SendPost(s, s', req, k);
      assert k < |s.sent| ==> Chained(s, k);
    }
    forall j: nat, k: nat | j < k < |s'.sent|
      ensures Apart(s', j, k)
    {
      SendPost(s, s', req, k);
    }
  }

  lemma SendInv(s: State, s': State, req: Request)
    requires Inv(s) && Send(s, s', req)
    ensures Inv(s')
  {
    SendWriter(s, s', req);
    assert Spaced(s, s.next, |req.payload|);
    forall k: nat | k < |s'.got|
      ensures Handled(s', k)
    {
      assert Handled(s, k);
    }
    InBuffer(s, s.next);
    forall k: nat | |s'.got| <= k < |s'.sent|
      ensures Landed(s', k)
    {
      assert k < |s.sent| ==> Landed(s, k);
    }
  }

  // -------- Writes inside one entry --------

  ghost predicate Inside(s: State, s': State, k: nat)
    requires k < |s.sent| == |s.posts|
  {
    && |s'.posts| == |s.posts|
    && s' == s.(posts := s'.posts, mem := s'.mem, got := s'.got, rnext := s'.rnext,
                rinst := s'.rinst, holding := s'.holding)
    && |s'.mem| == |s.mem|
    && (forall j :: 0 <= j < |s.posts| && j != k ==> s'.posts[j] == s.posts[j])
    && s'.posts[k] == s.posts[k].(arrived := s'.posts[k].arrived) && s'.posts[k].arrived <= |s.posts[k].data|
    && (forall a :: 0 <= a < |s.mem| && !(Pos(s.posts[k]) <= a < End(s, k)) ==> s'.mem[a] == s.mem[a])
  }

  lemma InsideWriter(s: State, s': State, k: nat)
    requires WriterOk(s) && k < |s.sent| && Inside(s, s', k)
    ensures WriterOk(s')
  {
    forall idx: nat, size: uint16 | idx < s.counts && size <= 65531
      ensures Spaced(s', idx, size)
    {
      assert Spaced(s, idx, size);
    }
    forall j: nat | j < |s.sent|
      ensures PostOk(s', j) && Chained(s', j)
    {
      assert PostOk(s, j) && Chained(s, j);
    }
    forall i: nat, j: nat | i < j < |s.sent|
      ensures Apart(s', i, j)
    {
      assert Apart(s, i, j);
    }
  }

  /** The other entries and the free space are left alone. */
  lemma InsideOthers(s: State, s': State, k: nat)
    requires Inv(s) && k < |s.sent| && Inside(s, s', k)
    ensures forall j: nat :: |s.got| <= j < |s.sent| && j != k ==> Landed(s', j)
    ensures !Wrapped(|s.sent|, s.next) ==> Zero(s'.mem, Offset(s.next))
  {
    assert PostOk(s, k);
    forall j: nat | |s.got| <= j < |s.sent| && j != k
      ensures Landed(s', j)
    {
      assert PostOk(s, j) && Landed(s, j);
      assert if j < k then Apart(s, j, k) else Apart(s, k, j);
    }
  }

  lemma ArriveInside(s: State, s': State, k: nat, upTo: nat)
    requires Inv(s) && Arrive(s, s', k, upTo)
    ensures k >= |s.got| && Inside(s, s', k) && Landed(s', k)
  {
    assert PostOk(s, k);
    assert k < |s.got| ==> Handled(s, k);
    assert Landed(s, k);
    ArriveLands(s, s', k, upTo);
    ArriveStaysInside(s, s', k, upTo);
  }

  /** The bytes that land are those of the post, at their places. */
  lemma ArriveLands(s: State, s': State, k: nat, upTo: nat)
    requires k < |s.sent| == |s.posts| && Landed(s, k) && Arrive(s, s', k, upTo)
    ensures Landed(s', k)
  {
    var p := s.posts[k];
    OverlayAt(s.mem, Pos(p) + p.arrived, p.data[p.arrived..upTo]);
  }

  lemma ArriveStaysInside(s: State, s': State, k: nat, upTo: nat)
    requires k < |s.sent| == |s.posts| && PostOk(s, k) && Arrive(s, s', k, upTo)
    ensures Inside(s, s', k)
  {
    var p := s.posts[k];
    OverlayAt(s.mem, Pos(p) + p.arrived, p.data[p.arrived..upTo]);
  }

  lemma ArriveInv(s: State, s': State, k: nat, upTo: nat)
    requires Inv(s) && Arrive(s, s', k, upTo)
    ensures Inv(s')
  {
    ArriveInside(s, s', k, upTo);
    InsideWriter(s, s', k);
    InsideOthers(s, s', k);
    forall j: nat | j < |s'.got|
      ensures Handled(s', j)
    {
      assert Handled(s, j);
    }
  }

  // -------- Reading --------

  lemma LookHeader(s: State, k: nat)
    requires Inv(s) && |s.got| <= k < |s.sent| && s.posts[k].arrived >= HEADER_SZ
    ensures var off, r := Pos(s.posts[k]), s.sent[k];
            && off + HEADER_SZ <= |s.mem|
            && HashAt(s.mem, off) == r.hashv && SizeAt(s.mem, off) == r.size
            && s.mem[off + 6] == r.inst && s.mem[off + 7] == r.msg
  {
    assert PostOk(s, k) && Landed(s, k);
    var p, r := s.posts[k], s.sent[k];
    assert s.mem[Pos(p)..Pos(p) + HEADER_SZ] == p.data[..HEADER_SZ] == HeaderBytes(r.hashv, r.size, r.inst, r.msg);
    HeaderLook(s.mem, Pos(p), r);
  }

  /** The reader accepts an unread entry if and only if all its bytes have landed, and then takes what was sent. */
  lemma LookIff(s: State, k: nat)
    requires Inv(s) && |s.got| <= k < |s.sent|
    ensures Pos(s.posts[k]) + HEADER_SZ + 0x1_0000 <= |s.mem|
    ensures LookAt(s.mem, Pos(s.posts[k]), s.mask).Got? <==> s.posts[k].arrived == |s.posts[k].data|
    ensures LookAt(s.mem, Pos(s.posts[k]), s.mask).Got? ==>
              LookAt(s.mem, Pos(s.posts[k]), s.mask).rec == Received(s.sent[k])
  {
    assert PostOk(s, k) && Landed(s, k);
    var p, r := s.posts[k], s.sent[k];
    InBuffer(s, p.idx);
    if p.arrived < HEADER_SZ {
      assert s.mem[Pos(p) + 7] == 0;
    } else {
      LookHeader(s, k);
      if r.msg != MSG_HDRONLY {
        var c := Pos(p) + HEADER_SZ + r.size;
        assert s.mem[c] == if p.arrived == |p.data| then SCOT_LOGENTRY_CANARY else 0;
        if p.arrived == |p.data| {
          assert s.mem[Pos(p) + HEADER_SZ..c] == p.data[HEADER_SZ..HEADER_SZ + r.size] == r.payload;
        }
      }
    }
  }

  /** Before the wrap there is nothing to take when everything sent has been taken. */
  lemma NothingToTake(s: State)
    requires Inv(s) && |s.got| == |s.sent| && !Wrapped(|s.got|, s.rnext)
    ensures Offset(s.rnext) + HEADER_SZ + 0x1_0000 <= |s.mem| && LookAt(s.mem, Offset(s.rnext), s.mask) == Spin
  {
    InBuffer(s, s.next);
    assert s.mem[Offset(s.rnext) + 7] == 0;
  }

  lemma ReadsUnread(s: State, s': State)
    requires Inv(s) && Read(s, s')
    ensures |s.got| < |s.sent| && s.posts[|s.got|].arrived == |s.posts[|s.got|].data|
    ensures s'.got == s.got + [Received(s.sent[|s.got|])] && s'.holding
    ensures s'.rnext == s.after(s.rnext, s.sent[|s.got|].size)
    ensures s'.posts == s.posts && Inside(s, s', |s.got|)
  {
    if |s.got| == |s.sent| {
      NothingToTake(s);
    } else {
      LookIff(s, |s.got|);
      assert PostOk(s, |s.got|);
    }
  }

  lemma ReadInv(s: State, s': State)
    requires Inv(s) && Read(s, s')
    ensures Inv(s') && |s.got| < |s.sent| && s'.got == s.got + [Received(s.sent[|s.got|])]
  {
    ReadsUnread(s, s');
    ReadMoves(s, s');
  }

  lemma ReadMoves(s: State, s': State)
    requires Inv(s) && |s.got| < |s.sent| && s.posts[|s.got|].arrived == |s.posts[|s.got|].data|
    requires s'.got == s.got + [Received(s.sent[|s.got|])] && s'.holding
    requires s'.rnext == s.after(s.rnext, s.sent[|s.got|].size)
    requires s'.posts == s.posts && Inside(s, s', |s.got|)
    ensures Inv(s')
  {
    var k := |s.got|;
    InsideWriter(s, s', k);
    InsideOthers(s, s', k);
    assert Chained(s, k);
    forall j: nat | j < |s'.got|
      ensures Handled(s', j)
    {
      assert j < k ==> Handled(s, j);
    }
  }

  lemma FinishInv(s: State, s': State, clear: bool)
    requires Inv(s) && Finish(s, s', clear)
    ensures Inv(s')
  {
    var k := |s.got| - 1;
    assert PostOk(s, k);
    InsideWriter(s, s', k);
    InsideOthers(s, s', k);
    forall j: nat | j < |s'.got|
      ensures Handled(s', j)
    {
      assert Handled(s, j);
    }
  }

  lemma StepInv(s: State, s': State)
    requires Inv(s) && Step(s, s')
    ensures Inv(s')
  {
    if req :| Send(s, s', req) {
      SendInv(s, s', req);
    } else if k, upTo :| Arrive(s, s', k, upTo) {
      ArriveInv(s, s', k, upTo);
    } else if Read(s, s') {
      ReadInv(s, s');
    } else {
      var clear :| Finish(s, s', clear);
      FinishInv(s, s', clear);
    }
  }

  /** Instance numbers count entries modulo 256 on both sides. */
  ghost predicate InstancesOk(s: State) {
    && s.inst == |s.sent| % 256 && s.rinst == |s.got| % 256
    && forall k :: 0 <= k < |s.sent| ==> s.sent[k].inst == k % 256
  }

  lemma InstancesStep(s: State, s': State)
    requires InstancesOk(s) && Step(s, s')
    ensures InstancesOk(s')
  {
    if req :| Send(s, s', req) {
      InstancesSend(s, s', req);
    } else if Read(s, s') {
      InstancesRead(s, s');
    }
  }

  lemma InstancesRead(s: State, s': State)
    requires InstancesOk(s) && Read(s, s')
    ensures InstancesOk(s') && s'.sent == s.sent
  {
  }

  lemma InstancesSend(s: State, s': State, req: Request)
    requires InstancesOk(s) && Send(s, s', req)
    ensures InstancesOk(s')
  {
  }

  // -------- Whole runs --------

  ghost predicate StepAt(ss: seq<State>, i: nat)
    requires i + 1 < |ss|
  {
    Step(ss[i], ss[i + 1])
  }

  ghost predicate Run(ss: seq<State>) {
    |ss| > 0 && Init(ss[0]) && forall i :: 0 <= i < |ss| - 1 ==> StepAt(ss, i)
  }

  lemma {:induction false} RunInv(ss: seq<State>, i: nat)
    requires Run(ss) && i < |ss|
    ensures Inv(ss[i]) && InstancesOk(ss[i])
  {
    if i == 0 {
      InitInv(ss[0]);
    } else {
      RunInv(ss, i - 1);
      assert StepAt(ss, i - 1);
      StepInv(ss[i - 1], ss[i]);
      InstancesStep(ss[i - 1], ss[i]);
    }
  }

  /** The reader has taken complete entries only, in the order they were sent, with
      exactly their headers and payloads; instance numbers count the entries modulo
      256; reader and writer agree on index and instance once all is read. */
  lemma ReaderExact(ss: seq<State>, n: nat)
    requires Run(ss) && n < |ss|
    ensures var s := ss[n];
            && |s.got| <= |s.sent| == |s.posts|
            && (forall k :: 0 <= k < |s.got| ==>
                  s.got[k] == Received(s.sent[k]) && s.posts[k].arrived == |s.posts[k].data|)
            && (forall k :: 0 <= k < |s.sent| ==> s.sent[k].inst == k % 256)
            && s.rinst == |s.got| % 256
            && (|s.got| == |s.sent| ==> s.rnext == s.next && s.rinst == s.inst)
  {
    RunInv(ss, n);
    var s := ss[n];
    forall k | 0 <= k < |s.got|
      ensures s.got[k] == Received(s.sent[k]) && s.posts[k].arrived == |s.posts[k].data|
    {
      assert Handled(s, k);
    }
  }

  /** The reader can take an entry exactly when the next one has landed completely. */
  lemma ReadsWhenComplete(ss: seq<State>, n: nat)
    requires Run(ss) && n < |ss| && !ss[n].holding && !Wrapped(|ss[n].got|, ss[n].rnext)
    ensures var s := ss[n];
            (exists s' :: Read(s, s')) <==>
            |s.got| < |s.sent| == |s.posts| && s.posts[|s.got|].arrived == |s.posts[|s.got|].data|
  {
    RunInv(ss, n);
    var s := ss[n];
    var k := |s.got|;
    if k == |s.sent| {
      NothingToTake(s);
    } else {
      LookIff(s, k);
      var off := Offset(s.rnext);
      if LookAt(s.mem, off, s.mask).Got? {
        var rec := LookAt(s.mem, off, s.mask).rec;
        assert Read(s, s.(mem := Taken(s.mem, off, rec), got := s.got + [rec],
                          rnext := s.after(s.rnext, rec.size), rinst := (s.rinst + 1) % 256, holding := true));
      }
    }
  }
}
