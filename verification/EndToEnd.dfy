/** One call, end to end: caller's fragments, a relay that keeps each
    correlation's order, the module's loop and worker, its fragments back, and the
    caller's reply loop (server-go/bus/module_caller.go:94-223,
    server-go/bus/module_runtime.go:196-429). */
module EndToEnd {
  import opened Bytes
  import opened Wire
  import opened ModuleProtocol
  import opened Wrappers
  import opened Fragments
  import opened RuntimeModel
  import opened RuntimeInvariant
  import opened RuntimeHistory
  import opened RequestArrival
  import opened ReplyArrival
  import RuntimeReply
  import RuntimeLoop
  import CA = CallerAwait

  // ---------------------------------------------------------- at the module

  /** Cancel flags are only ever set on works already numbered. */
  ghost predicate OldFlags(s: State) {
    forall i | i in s.cancelled :: i < s.nextId
  }

  lemma StepKeepsOldFlags(s: State, cfg: Config, a: Action)
    requires Inv(s) && OldFlags(s)
    ensures OldFlags(Step(s, cfg, a))
  {
    hide Bounded, InFlight, Flagged, Judge, Outcome, Normalised;
  }

  lemma {:induction false} RunKeepsOldFlags(s: State, cfg: Config, acts: seq<Action>)
    requires Inv(s) && OldFlags(s)
    ensures OldFlags(Run(s, cfg, acts))
    decreases |acts|
  {
    hide Step, Inv, OldFlags;
    if acts != [] {
      StepKeepsInv(s, cfg, acts[0]);
      StepKeepsOldFlags(s, cfg, acts[0]);
      RunKeepsOldFlags(Step(s, cfg, acts[0]), cfg, acts[1..]);
    }
  }

  /** What a run made of a whole request: while its job is in flight, no reply;
      after that exactly one, what the worker that was handed the request
      returned. */
  ghost predicate AnsweredOnce(s: State, t: State, returned: Option<Action>, env: Envelope, request: Bytes) {
    var c := env.correlation;
    if c in t.jobs then RepliesTo(t.replies, c) == RepliesTo(s.replies, c)
    else
      && returned.Some? && returned.value.Decide?
      && WorkIs(returned.value.w, env.kind, c, env.stageID, env.deadline, env.trace, request)
      && RepliesTo(t.replies, c) == RepliesTo(s.replies, c) + [Answered(returned.value)]
  }

  /** The event that completes the request starts the job, uncancelled. */
  lemma LastFragment(s: State, cfg: Config, a: Action, env: Envelope, parts: seq<Bytes>)
    requires env.pattern == F_REQUEST && parts != [] && Served(cfg, env, parts) && Inv(s) && OldFlags(s)
    requires Partly(s, env, parts, 0, |parts| - 1)
    requires Concerns(s, a, env.correlation) && a.p == FragmentPacket(env, parts[|parts| - 1], false)
    requires Room(s, cfg, a.p, a.now)
    ensures var t := Step(s, cfg, a);
            && Flight(t, env.correlation, WorkFor(env, Concat(parts), s.nextId), None)
            && t.replies == s.replies
  {
    hide Judge, Concat, Room, FragmentPacket, Step, Served, Partly, HeaderFor;
    FragmentDecided(s, cfg, env, parts, 0, |parts| - 1, a.now);
    VerdictStep(s, cfg, a);
    assert parts[0..] == parts;
    NewIsUndecided(s, WorkFor(env, Concat(parts), s.nextId));
    hide Inv;
  }

  lemma NewIsUndecided(s: State, w: Work)
    requires Inv(s) && w.id >= s.nextId
    ensures w !in s.decided
  {
    if w in s.running {
      OwnJob(s.running, s.done, s.jobs, s.nextId, w);
    }
  }

  lemma MoreFragments(s: State, cfg: Config, a: Action, env: Envelope, parts: seq<Bytes>, k: nat)
    requires env.pattern == F_REQUEST && k < |parts| - 1 && Served(cfg, env, parts) && Partly(s, env, parts, 0, k)
    requires Concerns(s, a, env.correlation) && a.p == FragmentPacket(env, parts[k], true)
    requires Room(s, cfg, a.p, a.now)
    ensures var t := Step(s, cfg, a);
            Partly(t, env, parts, 0, k + 1) && t.replies == s.replies
  {
    hide Judge, Concat, Room, FragmentPacket, Step, Served, HeaderFor;
    FragmentDecided(s, cfg, env, parts, 0, k, a.now);
    VerdictStep(s, cfg, a);
  }

  lemma {:induction false} RestIsAnswered(s: State, cfg: Config, acts: seq<Action>, env: Envelope, parts: seq<Bytes>,
                                          k: nat)
    requires Inv(s) && OldFlags(s) && env.pattern == F_REQUEST
    requires k < |parts| && Served(cfg, env, parts) && Partly(s, env, parts, 0, k)
    requires CA.Only(Given(acts), env.correlation) == Remaining(env, parts, k)
    requires Run(s, cfg, acts).phase.Serving? && RoomAlong(s, cfg, acts, env.correlation)
    ensures AnsweredOnce(s, Run(s, cfg, acts), Returned(s, cfg, acts, env.correlation), env, Concat(parts))
    decreases |acts|
  {
    hide Step, Inv, Given, CA.Only, RepliesTo, Normalised, Outcome, Judge, Partly, Served, FragmentPacket, Concat,
         Room, Flight, OldFlags, Answered;
    var c, rest := env.correlation, Remaining(env, parts, k);
    assert rest[0] == FragmentPacket(env, parts[k], k < |parts| - 1);
    NothingGiven(c);
    assert acts != [];
    NextStep(s, cfg, acts, c);
    StepKeepsOldFlags(s, cfg, acts[0]);
    var a, t := acts[0], Step(s, cfg, acts[0]);
    if Concerns(s, a, c) {
      assert CA.Only(Given(acts[1..]), c) == rest[1..] == Stream(env, parts)[k + 1..];
      if k == |parts| - 1 {
        LastFragment(s, cfg, a, env, parts);
        JobIsReplied(t, cfg, acts[1..], c, WorkFor(env, Concat(parts), s.nextId));
      } else {
        MoreFragments(s, cfg, a, env, parts, k);
        RestIsAnswered(t, cfg, acts[1..], env, parts, k + 1);
      }
    } else {
      NoJobYet(s, env, parts, k);
      StaysQuiet(s, cfg, a, c);
      OthersKeepPartly(s, cfg, a, env, parts, 0, k);
      RestIsAnswered(t, cfg, acts[1..], env, parts, k);
    }
  }

  lemma NoJobYet(s: State, env: Envelope, parts: seq<Bytes>, k: nat)
    requires k <= |parts| && Partly(s, env, parts, 0, k)
    ensures env.correlation !in s.jobs
  {
  }

  /** The module's half of a call: given room at each fragment, a worker gets the
      request byte for byte, and the only reply to its correlation is what that
      worker returned, uncancelled. */
  lemma RequestIsAnswered(s: State, cfg: Config, acts: seq<Action>, env: Envelope, request: Bytes, size: nat)
    requires Inv(s) && OldFlags(s)
    requires Invokes(env)
    requires env.stageID != 0 && env.stageID == ExpectedStage(cfg, env.kind)
    requires |request| <= MAX_BODY && size > 0
    requires env.correlation !in s.assemblies && env.correlation !in s.jobs
    requires CA.Only(Given(acts), env.correlation) == Stream(env, Chunks(request, size))
    requires Run(s, cfg, acts).phase.Serving? && RoomAlong(s, cfg, acts, env.correlation)
    ensures AnsweredOnce(s, Run(s, cfg, acts), Returned(s, cfg, acts, env.correlation), env, request)
  {
    ChunkLaw(request, size);
    var parts := Chunks(request, size);
    hide Given, CA.Only, Run, RoomAlong, Chunks, Concat, Returned, AnsweredOnce, Inv, OldFlags;
    assert Stream(env, parts)[0..] == Stream(env, parts);
    RestIsAnswered(s, cfg, acts, env, parts, 0);
  }

  // ------------------------------------------------------------- the caller

  /** What a caller makes of one whole reply. */
  function ReadBack(kind: uint32, status: uint16, body: Bytes): CA.Progress {
    if kind == KIND_CAPABILITY_ABSENT then CA.Failed(CA.CapabilityAbsent)
    else if kind == KIND_ERROR then CA.Failed(CA.RejectedByHost)
    else if status == STATUS_OK then CA.Answered(body)
    else CA.Failed(CA.StageFailed(status))
  }

  lemma ReplyStep(body: Bytes, env: Envelope, part: Bytes, more: bool)
    requires Results(env)
    requires env.stageID != 0 && env.status <= STATUS_INTERNAL && |part| <= MAX_BODY
    requires |body| + |part| <= MAX_BODY
    ensures CA.AwaitStep(body, FragmentPacket(env, part, more), env.kind, env.correlation)
            == if env.kind == KIND_CAPABILITY_ABSENT || env.kind == KIND_ERROR || env.status != STATUS_OK
               then ReadBack(env.kind, env.status, [])
               else if more then CA.Collecting(body + part) else CA.Answered(body + part)
  {
    FragmentReads(env, part, more);
    FragmentTests(F_REPLY, more);
    hide Has, DecodePayload, Payload, ReadBack;
    var p := FragmentPacket(env, part, more);
    OneReplyStep(body, p, HeaderFor(env, part), env.kind, part);
  }

  lemma OneReplyStep(body: Bytes, p: Packet, m: Message, kind: uint32, part: Bytes)
    requires DecodePayload(p.payload) == Some(m) && BodyOf(p.payload) == part && p.kind == kind
    requires m.operation == OP_RESULT && |body| + |part| <= MAX_BODY
    ensures CA.AwaitStep(body, p, kind, p.correlation)
            == if kind == KIND_CAPABILITY_ABSENT || kind == KIND_ERROR || m.status != STATUS_OK
               then ReadBack(kind, m.status, [])
               else if Has(p.flags, F_MORE) then CA.Collecting(body + part) else CA.Answered(body + part)
  {
    hide Has, DecodePayload;
  }

  lemma {:induction false} RestIsRead(env: Envelope, parts: seq<Bytes>, k: nat)
    requires Results(env)
    requires env.stageID != 0 && env.status <= STATUS_INTERNAL && k < |parts| && |Concat(parts)| <= MAX_BODY
    ensures CA.Await(Concat(parts[..k]), Remaining(env, parts, k), env.kind, env.correlation)
            == ReadBack(env.kind, env.status, Concat(parts))
    decreases |parts| - k
  {
    hide CA.AwaitStep, FragmentPacket, Concat;
    var rest := Remaining(env, parts, k);
    assert rest[0] == FragmentPacket(env, parts[k], k < |parts| - 1);
    assert rest[1..] == Stream(env, parts)[k + 1..];
    ConcatRange(parts, 0, k);
    assert parts[0..] == parts && parts[0..k] == parts[..k] && parts[0..k + 1] == parts[..k + 1];
    ReplyStep(Concat(parts[..k]), env, parts[k], k < |parts| - 1);
    if k < |parts| - 1 {
      RestIsRead(env, parts, k + 1);
    }
  }

  /** The caller's half of a call: a whole reply, cut for any budget and read among
      any other packets, gives back its body if its status is OK, and its status if
      not. */
  lemma ReplyIsRead(env: Envelope, body: Bytes, size: nat, seen: seq<Packet>)
    requires Results(env)
    requires env.stageID != 0 && env.status <= STATUS_INTERNAL && |body| <= MAX_BODY && size > 0
    requires CA.Only(seen, env.correlation) == Stream(env, Chunks(body, size))
    ensures CA.Await([], seen, env.kind, env.correlation) == ReadBack(env.kind, env.status, body)
  {
    CA.AwaitIsolation([], seen, env.kind, env.correlation);
    ChunkLaw(body, size);
    var parts := Chunks(body, size);
    EmptyPrefix(parts);
    hide CA.Await, CA.Only, Concat, Chunks;
    assert Stream(env, parts)[0..] == Stream(env, parts);
    RestIsRead(env, parts, 0);
  }

  lemma EmptyPrefix(parts: seq<Bytes>)
    ensures Concat(parts[..0]) == []
  {
  }

  // --------------------------------------------------------------- the relay

  /** The same packets under another correlation. */
  function Renamed(ps: seq<Packet>, c: uint64): (r: seq<Packet>)
    ensures |r| == |ps|
  {
    seq(|ps|, i requires 0 <= i < |ps| => ps[i].(correlation := c))
  }

  /** The host delivers the packets of `from` in order, all of them and nothing
      else under that name, as packets of `to`. */
  ghost predicate Relayed(sent: seq<Packet>, from: uint64, received: seq<Packet>, to: uint64) {
    CA.Only(received, to) == Renamed(CA.Only(sent, from), to)
  }

  lemma StreamRenamed(env: Envelope, parts: seq<Bytes>, c: uint64)
    requires env.pattern == F_REQUEST || env.pattern == F_REPLY
    ensures Renamed(Stream(env, parts), c) == Stream(env.(correlation := c), parts)
  {
    hide Payload;
  }

  lemma {:induction false} OnlyAll(ps: seq<Packet>, c: uint64)
    requires forall i :: 0 <= i < |ps| ==> ps[i].correlation == c
    ensures CA.Only(ps, c) == ps
    decreases |ps|
  {
    if ps != [] {
      OnlyAll(ps[1..], c);
      assert ps == [ps[0]] + ps[1..];
    }
  }

  lemma {:induction false} OnlyNone(ps: seq<Packet>, c: uint64)
    requires forall i :: 0 <= i < |ps| ==> ps[i].correlation != c
    ensures CA.Only(ps, c) == []
    decreases |ps|
  {
    if ps != [] {
      OnlyNone(ps[1..], c);
    }
  }

  /** After a successful send under a fresh correlation, the request's fragments are
      all that the caller's log holds of it. */
  lemma LogCarriesRequest(before: seq<Packet>, env: Envelope, parts: seq<Bytes>)
    requires env.pattern == F_REQUEST
    requires forall i :: 0 <= i < |before| ==> before[i].correlation != env.correlation
    ensures CA.Only(before + Stream(env, parts), env.correlation) == Stream(env, parts)
  {
    hide CA.Only, Payload;
    var all := Stream(env, parts);
    OnlySplit(before, all, env.correlation);
    OnlyNone(before, env.correlation);
    OnlyAll(all, env.correlation);
    assert [] + all == all;
  }

  /** The packets of one correlation among all replies on the wire. */
  lemma {:induction false} OnlyReplies(replies: seq<Reply>, chunk: nat, c: uint64)
    requires chunk > 0
    ensures CA.Only(RuntimeLoop.Streams(replies, chunk), c) == RuntimeLoop.Streams(RepliesTo(replies, c), chunk)
    decreases |replies|
  {
    hide CA.Only, RuntimeReply.ReplyStream;
    if replies == [] {
      OnlyNone([], c);
    } else {
      var before, last := replies[..|replies| - 1], replies[|replies| - 1];
      var stream := RuntimeReply.ReplyStream(last, chunk);
      OnlyReplies(before, chunk, c);
      OnlySplit(RuntimeLoop.Streams(before, chunk), stream, c);
      ReplyCorrelation(last, chunk);
      if last.correlation == c {
        OnlyAll(stream, c);
        assert (RepliesTo(before, c) + [last])[..|RepliesTo(before, c)|] == RepliesTo(before, c);
      } else {
        OnlyNone(stream, c);
        var others := RuntimeLoop.Streams(before, chunk);
        assert CA.Only(others, c) + [] == CA.Only(others, c);
        assert RepliesTo(before, c) + [] == RepliesTo(before, c);
      }
    }
  }

  lemma ReplyCorrelation(r: Reply, chunk: nat)
    requires chunk > 0
    ensures var s := RuntimeReply.ReplyStream(r, chunk);
            forall i :: 0 <= i < |s| ==> s[i].correlation == r.correlation
  {
    hide Chunks, Payload;
  }

  /** The result of a worker is a reply already as replyModuleResult wants it. */
  lemma AnsweredIs(a: Action)
    requires a.Decide?
    ensures Answered(a) == ReplyFor(Outcome(a.w, a.response, a.status, false, a.clock))
  {
    hide Outcome;
  }

  /** The fragments of an answer. */
  lemma OneReply(r: Reply, chunk: nat)
    requires chunk > 0 && r == Normalised(r)
    ensures RuntimeLoop.Streams([r], chunk)
            == Stream(ReplyEnvelope(r.kind, r.correlation, r.stageID, r.trace, r.status), Chunks(r.body, chunk))
  {
    hide Chunks, Stream, Normalised;
    assert [r][..0] == [];
    assert [] + RuntimeReply.ReplyStream(r, chunk) == RuntimeReply.ReplyStream(r, chunk);
  }

  /** The reply's way back: the one reply to `m` is read by the caller under its own
      correlation. */
  lemma ReplyComesBack(replies: seq<Reply>, r: Reply, earlier: seq<Packet>, chunk: nat, m: uint64,
                       received: seq<Packet>, c: uint64)
    requires chunk > 0 && RepliesTo(replies, m) == [r] && r == Normalised(r) && r.correlation == m && r.stageID != 0
    requires CA.Only(earlier, m) == []
    requires Relayed(earlier + RuntimeLoop.Streams(replies, chunk), m, received, c)
    ensures CA.Await([], received, r.kind, c) == ReadBack(r.kind, r.status, r.body)
  {
    hide CA.Only, CA.Await, Renamed, Chunks, Stream, Normalised;
    OnlySplit(earlier, RuntimeLoop.Streams(replies, chunk), m);
    OnlyReplies(replies, chunk, m);
    OneReply(r, chunk);
    var env := ReplyEnvelope(r.kind, m, r.stageID, r.trace, r.status);
    var own := Stream(env, Chunks(r.body, chunk));
    assert [] + own == own;
    StreamRenamed(env, Chunks(r.body, chunk), c);
    ReplyIsRead(env.(correlation := c), r.body, chunk, received);
  }

  /** Call integrity. A caller's log carries the request under `c`; the host relays
      it to the module as `m` and the module's packets of `m` back as `c`; everything
      else on either ring is arbitrary. If there was room at each fragment and the
      job is no longer in flight, then the worker was handed exactly the request, and
      the caller ends with exactly what that worker's end makes of the handler's
      result: its body, byte for byte, when it is OK. */
  lemma CallRoundTrip(env: Envelope, request: Bytes, callerChunk: nat, callerSent: seq<Packet>,
                      s: State, cfg: Config, acts: seq<Action>, m: uint64,
                      earlier: seq<Packet>, moduleChunk: nat, received: seq<Packet>)
    requires Invokes(env)
    requires env.stageID != 0 && env.stageID == ExpectedStage(cfg, env.kind)
    requires |request| <= MAX_BODY && callerChunk > 0 && moduleChunk > 0
    requires CA.Only(callerSent, env.correlation) == Stream(env, Chunks(request, callerChunk))
    requires Relayed(callerSent, env.correlation, Given(acts), m)
    requires Inv(s) && OldFlags(s) && m !in s.assemblies && m !in s.jobs && RepliesTo(s.replies, m) == []
    requires RoomAlong(s, cfg, acts, m)
    requires Run(s, cfg, acts).phase.Serving? && m !in Run(s, cfg, acts).jobs
    requires CA.Only(earlier, m) == []
    requires Relayed(earlier + RuntimeLoop.Streams(Run(s, cfg, acts).replies, moduleChunk), m,
                     received, env.correlation)
    ensures var a := Returned(s, cfg, acts, m);
            && a.Some? && a.value.Decide?
            && WorkIs(a.value.w, env.kind, m, env.stageID, env.deadline, env.trace, request)
            && var r := Outcome(a.value.w, a.value.response, a.value.status, false, a.value.clock);
               CA.Await([], received, env.kind, env.correlation) == ReadBack(env.kind, r.status, r.body)
  {
    hide CA.Only, CA.Await, Renamed, Chunks, Stream, Normalised, Inv, OldFlags, Run, RoomAlong, Returned, Given,
         RepliesTo, Outcome, RuntimeLoop.Streams;
    var own := env.(correlation := m);
    StreamRenamed(env, Chunks(request, callerChunk), m);
    RequestIsAnswered(s, cfg, acts, own, request, callerChunk);
    var a := Returned(s, cfg, acts, m);
    AnsweredIs(a.value);
    AnswerShape(a.value);
    assert [] + [Answered(a.value)] == [Answered(a.value)];
    ReplyComesBack(Run(s, cfg, acts).replies, Answered(a.value), earlier, moduleChunk, m, received, env.correlation);
  }

  lemma AnswerShape(a: Action)
    requires a.Decide?
    ensures var r := Answered(a);
            r == Normalised(r) && r.correlation == a.w.correlation && r.kind == a.w.kind && r.stageID == a.w.stageID
  {
    hide Outcome;
  }

  /** A handler that returns OK within the response limit and in time has its
      response delivered byte for byte, for either kind of budget. */
  lemma ResponseArrives(env: Envelope, w: Work, response: Bytes, clock: uint64)
    requires env.kind != KIND_CAPABILITY_ABSENT && env.kind != KIND_ERROR && |response| <= MAX_BODY
    requires w.deadline == 0 || clock == 0 || clock < w.deadline
    ensures var r := Outcome(w, response, STATUS_OK, false, clock);
            ReadBack(env.kind, r.status, r.body) == CA.Answered(response)
  {
  }
}
