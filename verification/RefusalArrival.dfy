/** What becomes of a refused request: the refusal is the first reply its caller
    reads, and the call fails with its status (server-go/bus/module_runtime.go:223-291,
    345-427, server-go/bus/module_caller.go:165-223). */
module RefusalArrival {
  import opened Bytes
  import opened Wire
  import opened ModuleProtocol
  import opened Fragments
  import opened RuntimeModel
  import opened RuntimeInvariant
  import opened RuntimeHistory
  import opened RequestArrival
  import opened ReplyArrival
  import opened EndToEnd
  import opened RuntimeDecisions
  import RuntimeReply
  import RuntimeLoop
  import CA = CallerAwait

  // ------------------------------------------------------ replies in a run

  lemma StepAppends(s: State, cfg: Config, a: Action)
    ensures s.replies <= Step(s, cfg, a).replies
  {
    hide Judge, Outcome, Normalised;
  }

  /** Replies once sent stay sent, in their order. */
  lemma {:induction false} RunAppends(s: State, cfg: Config, acts: seq<Action>)
    ensures s.replies <= Run(s, cfg, acts).replies
    decreases |acts|
  {
    hide Step;
    if acts != [] {
      StepAppends(s, cfg, acts[0]);
      RunAppends(Step(s, cfg, acts[0]), cfg, acts[1..]);
    }
  }

  lemma {:induction false} RepliesSplit(a: seq<Reply>, b: seq<Reply>, c: uint64)
    ensures RepliesTo(a + b, c) == RepliesTo(a, c) + RepliesTo(b, c)
    decreases |b|
  {
    if b == [] {
      assert a + b == a;
    } else {
      RepliesSplit(a, b[..|b| - 1], c);
      assert (a + b)[..|a + b| - 1] == a + b[..|b| - 1];
    }
  }

  lemma {:induction false} StreamsSplit(a: seq<Reply>, b: seq<Reply>, chunk: nat)
    requires chunk > 0
    ensures RuntimeLoop.Streams(a + b, chunk) == RuntimeLoop.Streams(a, chunk) + RuntimeLoop.Streams(b, chunk)
    decreases |b|
  {
    hide RuntimeReply.ReplyStream;
    if b == [] {
      assert a + b == a;
    } else {
      StreamsSplit(a, b[..|b| - 1], chunk);
      assert (a + b)[..|a + b| - 1] == a + b[..|b| - 1];
    }
  }

  lemma StreamsOne(r: Reply, chunk: nat)
    requires chunk > 0
    ensures RuntimeLoop.Streams([r], chunk) == RuntimeReply.ReplyStream(r, chunk)
  {
    hide RuntimeReply.ReplyStream;
    assert [r][..0] == [];
  }

  // ------------------------------------------------------------- one refusal

  /** How a call ends whose request failed with `status`; the two reserved kinds are
      failures of their own. */
  function Failing(kind: uint32, status: uint16): CA.Progress {
    if kind == 4 then CA.Failed(CA.CapabilityAbsent)
    else if kind == 3 then CA.Failed(CA.RejectedByHost)
    else CA.Failed(CA.StageFailed(status))
  }

  /** The refusal that the event is answered with. */
  lemma RefusalShape(s: State, cfg: Config, p: Packet, now: uint64, status: uint16) returns (r: Reply)
    requires RefusedWith(s, cfg, p, now, status)
    ensures Step(s, cfg, Handle(p, now, true)).replies == s.replies + [r]
    ensures r.kind == p.kind && r.correlation == p.correlation && r.stageID != 0 && r.status == status && r.body == []
  {
    hide Step, DecodePayload;
    r := Step(s, cfg, Handle(p, now, true)).replies[|s.replies|];
  }

  /** A caller reads the first fragment of a failure, and needs no other. */
  lemma FailureEndsWait(r: Reply, chunk: nat, c: uint64)
    requires chunk > 0 && r.stageID != 0 && 0 < r.status <= 5 && r.body == []
    ensures RuntimeReply.ReplyStream(r, chunk) != []
    ensures CA.AwaitStep([], RuntimeReply.ReplyStream(r, chunk)[0].(correlation := c), r.kind, c)
            == Failing(r.kind, r.status)
  {
    RuntimeReply.ReplyOnWire(r, chunk, 0);
    hide RuntimeReply.ReplyStream, Chunks, DecodePayload, BodyOf;
    CA.PacketDecides([], RuntimeReply.ReplyStream(r, chunk)[0].(correlation := c), r.kind, c);
    hide CA.AwaitStep;
  }

  /** The packets of `m` begin with the refusal, if no reply came before it. */
  lemma RefusalIsFirst(replies: seq<Reply>, r: Reply, more: seq<Reply>, chunk: nat, m: uint64)
    requires chunk > 0 && RepliesTo(replies, m) == [] && r.correlation == m
    ensures RuntimeReply.ReplyStream(r, chunk) <= CA.Only(RuntimeLoop.Streams(replies + [r] + more, chunk), m)
  {
    OnlyReplies(replies + [r] + more, chunk, m);
    RepliesSplit(replies + [r], more, m);
    RepliesSnoc(replies, r, m);
    StreamsSplit([r], RepliesTo(more, m), chunk);
    StreamsOne(r, chunk);
    hide RuntimeReply.ReplyStream, RuntimeLoop.Streams, CA.Only, RepliesTo;
    assert [] + [r] == [r];
  }

  lemma {:induction false} AwaitFirst(p: Packet, rest: seq<Packet>, kind: uint32, c: uint64)
    requires CA.AwaitStep([], p, kind, c).Failed?
    ensures CA.Await([], [p] + rest, kind, c) == CA.AwaitStep([], p, kind, c)
  {
    hide CA.AwaitStep;
    assert ([p] + rest)[0] == p;
  }

  /** The caller's wait after a refusal: whatever the module does afterwards, and
      whatever else arrives, the call fails with its status. */
  lemma RefusalIsRead(s: State, cfg: Config, p: Packet, now: uint64, status: uint16, acts: seq<Action>,
                      earlier: seq<Packet>, chunk: nat, received: seq<Packet>, c: uint64)
    requires RefusedWith(s, cfg, p, now, status) && 0 < status <= 5 && chunk > 0
    requires RepliesTo(s.replies, p.correlation) == [] && CA.Only(earlier, p.correlation) == []
    requires var t := Run(Step(s, cfg, Handle(p, now, true)), cfg, acts);
             Relayed(earlier + RuntimeLoop.Streams(t.replies, chunk), p.correlation, received, c)
    ensures CA.Await([], received, p.kind, c) == Failing(p.kind, status)
  {
    var u := Step(s, cfg, Handle(p, now, true));
    var r := RefusalShape(s, cfg, p, now, status);
    RunAppends(u, cfg, acts);
    hide Step, Run, RefusedWith, RuntimeLoop.Streams, CA.Only, CA.Await, Failing, Relayed;
    var all := Run(u, cfg, acts).replies;
    CutAt(u.replies, all);
    FirstReplyEndsWait(s.replies, r, all[|u.replies|..], earlier, chunk, received, c);
  }

  lemma CutAt(front: seq<Reply>, all: seq<Reply>)
    requires front <= all
    ensures all == front + all[|front|..]
  {
  }

  lemma FirstReplyEndsWait(before: seq<Reply>, r: Reply, more: seq<Reply>, earlier: seq<Packet>, chunk: nat,
                           received: seq<Packet>, c: uint64)
    requires r.stageID != 0 && 0 < r.status <= 5 && r.body == [] && chunk > 0
    requires RepliesTo(before, r.correlation) == [] && CA.Only(earlier, r.correlation) == []
    requires Relayed(earlier + RuntimeLoop.Streams(before + [r] + more, chunk), r.correlation, received, c)
    ensures CA.Await([], received, r.kind, c) == Failing(r.kind, r.status)
  {
    var m, sent := r.correlation, RuntimeLoop.Streams(before + [r] + more, chunk);
    RefusalIsFirst(before, r, more, chunk, m);
    FailureEndsWait(r, chunk, c);
    CA.AwaitIsolation([], received, r.kind, c);
    FailingFails(r.kind, r.status);
    hide RuntimeLoop.Streams, RuntimeReply.ReplyStream, CA.Only, CA.Await, CA.AwaitStep, Failing, RepliesTo, Relayed;
    FirstRelayed(earlier, sent, m, received, c, RuntimeReply.ReplyStream(r, chunk));
    var own := CA.Only(received, c);
    AwaitFirst(own[0], own[1..], r.kind, c);
    assert own == [own[0]] + own[1..];
  }

  lemma FirstRelayed(earlier: seq<Packet>, sent: seq<Packet>, m: uint64, received: seq<Packet>, c: uint64,
                     stream: seq<Packet>)
    requires CA.Only(earlier, m) == [] && Relayed(earlier + sent, m, received, c)
    requires stream != [] && stream <= CA.Only(sent, m)
    ensures CA.Only(received, c) != [] && CA.Only(received, c)[0] == stream[0].(correlation := c)
  {
    OnlySplit(earlier, sent, m);
    hide CA.Only;
    assert [] + CA.Only(sent, m) == CA.Only(sent, m);
  }

  lemma FailingFails(kind: uint32, status: uint16)
    ensures Failing(kind, status).Failed?
  {
  }

  // --------------------------------------------------- a request without room

  /** What is missing for a fragment without room: an assembly slot; and for the last
      one time, a handler, or a job slot. */
  function Lacking(s: State, cfg: Config, c: uint64, deadline: uint64, now: uint64): uint16 {
    if c !in s.assemblies && |s.assemblies| >= 16 then 5
    else if deadline != 0 && now >= deadline then 3
    else if !cfg.hasHandler then 1
    else 5
  }

  /** The status of the first fragment of `c` in a run that finds no room. */
  function FirstLacking(s: State, cfg: Config, acts: seq<Action>, c: uint64, deadline: uint64): uint16
    decreases |acts|
  {
    if acts == [] then 0
    else if Concerns(s, acts[0], c) && !Room(s, cfg, acts[0].p, acts[0].now)
    then Lacking(s, cfg, c, deadline, acts[0].now)
    else FirstLacking(Step(s, cfg, acts[0]), cfg, acts[1..], c, deadline)
  }

  /** A fragment of a request that finds no room is refused with what is missing. */
  lemma FragmentRefused(s: State, cfg: Config, env: Envelope, parts: seq<Bytes>, k: nat, now: uint64)
    requires env.pattern == F_REQUEST && k < |parts| && Served(cfg, env, parts) && Partly(s, env, parts, 0, k)
    requires s.phase.Serving? && !Room(s, cfg, FragmentPacket(env, parts[k], k < |parts| - 1), now)
    ensures var p := FragmentPacket(env, parts[k], k < |parts| - 1);
            p.kind == env.kind && p.correlation == env.correlation
            && RefusedWith(s, cfg, p, now, Lacking(s, cfg, env.correlation, env.deadline, now))
  {
    var p, more := FragmentPacket(env, parts[k], k < |parts| - 1), k < |parts| - 1;
    PieceFits(cfg, env, parts, k);
    PacketIs(env, parts[k], more);
    NoRoomIs(s, cfg, p, now);
    hide FragmentPacket, Served, Room, Unfit, Overflows, Asks, Continues, RefusedWith, Concat, DecodePayload, BodyOf,
         Step, Lacking;
    Fits(s, cfg, p, env, parts, k);
    FitIsDecided(s, cfg, p, now);
  }

  /** The fragment as the loop reads it. */
  lemma PacketIs(env: Envelope, part: Bytes, more: bool)
    requires Invokes(env) && env.stageID != 0 && |part| <= MAX_BODY
    ensures var p := FragmentPacket(env, part, more);
            && p.kind == env.kind && p.correlation == env.correlation && Asks(p) && (Continues(p) <==> more)
            && Reads(p, env, part)
  {
    FragmentReads(env, part, more);
    FragmentFlagsAre(env, part, more);
    FlagTests(FragmentPacket(env, part, more).flags);
    hide DecodePayload, BodyOf, Payload, Has, Flag;
  }

  ghost predicate Reads(p: Packet, env: Envelope, part: Bytes) {
    && DecodePayload(p.payload).Some? && BodyOf(p.payload) == part
    && var m := DecodePayload(p.payload).value;
       && m.operation == 1 && m.stageID == env.stageID && m.deadline == env.deadline && m.trace == env.trace
       && m.bodyLen == |part|
  }

  lemma PieceFits(cfg: Config, env: Envelope, parts: seq<Bytes>, k: nat)
    requires k < |parts| && Served(cfg, env, parts)
    ensures Invokes(env) && env.stageID != 0 && |Concat(parts[0..k])| + |parts[k]| <= MAX_BODY
  {
    ConcatRange(parts, 0, k);
    hide Concat;
  }

  /** What no room means, given that the fragment is read. */
  lemma NoRoomIs(s: State, cfg: Config, p: Packet, now: uint64)
    requires DecodePayload(p.payload).Some? && !Room(s, cfg, p, now)
    ensures (p.correlation in s.assemblies || |s.assemblies| < 16) ==>
              !Continues(p) && (Late(p, now) || !cfg.hasHandler || |s.jobs| >= 16)
  {
    FlagTests(p.flags);
    hide DecodePayload, Has, Flag;
  }

  lemma Fits(s: State, cfg: Config, p: Packet, env: Envelope, parts: seq<Bytes>, k: nat)
    requires k < |parts| && Partly(s, env, parts, 0, k) && Reads(p, env, parts[k])
    requires p.kind == env.kind && p.correlation == env.correlation
    requires env.stageID != 0 && env.stageID == ExpectedStage(cfg, env.kind)
    requires |Concat(parts[0..k])| + |parts[k]| <= MAX_BODY
    ensures !Unfit(s, cfg, p)
    ensures Overflows(s, p) <==> p.correlation !in s.assemblies && |s.assemblies| >= 16
  {
    hide DecodePayload, BodyOf, Concat;
  }

  lemma {:induction false} RestIsRefused(s: State, cfg: Config, acts: seq<Action>, env: Envelope, parts: seq<Bytes>,
                                         k: nat, earlier: seq<Packet>, chunk: nat, received: seq<Packet>, c: uint64)
    requires Inv(s) && env.pattern == F_REQUEST && k < |parts| && Served(cfg, env, parts) && Partly(s, env, parts, 0, k)
    requires RepliesTo(s.replies, env.correlation) == [] && CA.Only(earlier, env.correlation) == [] && chunk > 0
    requires CA.Only(Given(acts), env.correlation) == Remaining(env, parts, k)
    requires Run(s, cfg, acts).phase.Serving? && !RoomAlong(s, cfg, acts, env.correlation)
    requires Relayed(earlier + RuntimeLoop.Streams(Run(s, cfg, acts).replies, chunk), env.correlation, received, c)
    ensures var status := FirstLacking(s, cfg, acts, env.correlation, env.deadline);
            status in {1, 3, 5} && CA.Await([], received, env.kind, c) == Failing(env.kind, status)
    decreases |acts|
  {
    hide Step, Inv, Given, CA.Only, CA.Await, RepliesTo, Partly, Served, FragmentPacket, Room, RuntimeLoop.Streams,
         RefusedWith, Relayed, Failing, Concat;
    var m, rest := env.correlation, Remaining(env, parts, k);
    assert rest[0] == FragmentPacket(env, parts[k], k < |parts| - 1);
    NothingGiven(m);
    assert acts != [];
    NextStep(s, cfg, acts, m);
    var a, t := acts[0], Step(s, cfg, acts[0]);
    if !Concerns(s, a, m) {
      NoJobYet(s, env, parts, k);
      StaysQuiet(s, cfg, a, m);
      OthersKeepPartly(s, cfg, a, env, parts, 0, k);
      RestIsRefused(t, cfg, acts[1..], env, parts, k, earlier, chunk, received, c);
    } else if !Room(s, cfg, a.p, a.now) {
      FragmentRefused(s, cfg, env, parts, k, a.now);
      WasSent(s, cfg, a, Lacking(s, cfg, m, env.deadline, a.now));
      RefusalIsRead(s, cfg, a.p, a.now, Lacking(s, cfg, m, env.deadline, a.now), acts[1..], earlier, chunk, received,
                    c);
    } else {
      assert CA.Only(Given(acts[1..]), m) == rest[1..] == Stream(env, parts)[k + 1..];
      if k == |parts| - 1 {
        NoMoreRoomNeeded(t, cfg, acts[1..], m);
      } else {
        MoreFragments(s, cfg, a, env, parts, k);
        RestIsRefused(t, cfg, acts[1..], env, parts, k + 1, earlier, chunk, received, c);
      }
    }
  }

  /** A loop that still serves has sent its refusal. */
  lemma WasSent(s: State, cfg: Config, a: Action, status: uint16)
    requires a.Handle? && s.phase.Serving? && Step(s, cfg, a).phase.Serving?
    requires RefusedWith(s, cfg, a.p, a.now, status)
    ensures a == Handle(a.p, a.now, true)
  {
    hide Judge, Normalised, DecodePayload;
  }

  /** The other half of CallRoundTrip: under the same conditions, but without room at
      some fragment, the call fails with what the first such fragment lacked: Internal
      for a full table, deadline exceeded, or capability absent; whatever the module
      makes of the fragments after it. */
  lemma RefusedRoundTrip(env: Envelope, request: Bytes, callerChunk: nat, callerSent: seq<Packet>,
                         s: State, cfg: Config, acts: seq<Action>, m: uint64,
                         earlier: seq<Packet>, moduleChunk: nat, received: seq<Packet>)
    requires Invokes(env) && env.stageID != 0 && env.stageID == ExpectedStage(cfg, env.kind)
    requires |request| <= MAX_BODY && callerChunk > 0 && moduleChunk > 0
    requires CA.Only(callerSent, env.correlation) == Stream(env, Chunks(request, callerChunk))
    requires Relayed(callerSent, env.correlation, Given(acts), m)
    requires Inv(s) && m !in s.assemblies && m !in s.jobs && RepliesTo(s.replies, m) == []
    requires Run(s, cfg, acts).phase.Serving? && !RoomAlong(s, cfg, acts, m) && CA.Only(earlier, m) == []
    requires Relayed(earlier + RuntimeLoop.Streams(Run(s, cfg, acts).replies, moduleChunk), m,
                     received, env.correlation)
    ensures var status := FirstLacking(s, cfg, acts, m, env.deadline);
            status in {1, 3, 5} && CA.Await([], received, env.kind, env.correlation) == Failing(env.kind, status)
  {
    var own, parts := env.(correlation := m), Chunks(request, callerChunk);
    StreamRenamed(env, parts, m);
    ChunkLaw(request, callerChunk);
    hide CA.Only, CA.Await, Chunks, Inv, Run, RoomAlong, Given, RepliesTo, RuntimeLoop.Streams, FragmentPacket, Failing,
         FirstLacking, Concat;
    assert Stream(own, parts)[0..] == Stream(own, parts);
    RestIsRefused(s, cfg, acts, own, parts, 0, earlier, moduleChunk, received, env.correlation);
  }
}
