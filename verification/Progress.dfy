/** A call that nothing disturbs is answered: for every request and response within
    the limits there is a run of the module, the obvious one, that meets every
    condition of the end-to-end statement and ends with the response at the caller
    (server-go/bus/module_runtime.go:293-429). */
module Progress {
  import opened Bytes
  import opened Wire
  import opened ModuleProtocol
  import opened Fragments
  import opened RuntimeModel
  import opened RuntimeInvariant
  import opened RequestArrival
  import opened ReplyArrival
  import opened EndToEnd
  import RuntimeLoop
  import CA = CallerAwait

  /** The loop is given these packets one after the other. */
  function Deliveries(ps: seq<Packet>, now: uint64): (acts: seq<Action>)
    ensures |acts| == |ps|
  {
    seq(|ps|, i requires 0 <= i < |ps| => Handle(ps[i], now, true))
  }

  lemma {:induction false} GivenDeliveries(ps: seq<Packet>, now: uint64)
    ensures Given(Deliveries(ps, now)) == ps
    decreases |ps|
  {
    if ps != [] {
      var before := ps[..|ps| - 1];
      GivenDeliveries(before, now);
      assert Deliveries(ps, now)[..|ps| - 1] == Deliveries(before, now);
      assert ps == before + [ps[|ps| - 1]];
    }
  }

  /** A loop that serves, with at most this one request on its way. */
  ghost predicate Alone(s: State, env: Envelope, parts: seq<Bytes>, k: nat)
    requires k <= |parts|
  {
    && s.phase.Serving? && s.jobs == map[] && s.running == {} && s.decided == map[] && s.done == [] && s.cancelled == {}
    && s.replies == [] && s.assemblies.Keys <= {env.correlation} && Partly(s, env, parts, 0, k)
  }

  /** The same loop once the request is with a worker. */
  ghost predicate Handed(s: State, w: Work) {
    && s.phase.Serving? && s.jobs == map[w.correlation := w] && s.running == {w} && s.decided == map[] && s.done == []
    && s.cancelled == {} && s.replies == []
  }

  /** The request can be handled: there is a handler, and time. */
  predicate InTime(cfg: Config, deadline: uint64, now: uint64) {
    cfg.hasHandler && (deadline == 0 || now < deadline)
  }

  lemma AloneHasRoom(s: State, cfg: Config, env: Envelope, parts: seq<Bytes>, k: nat, now: uint64)
    requires env.pattern == F_REQUEST && k < |parts| && Served(cfg, env, parts) && Alone(s, env, parts, k)
    requires InTime(cfg, env.deadline, now)
    ensures Room(s, cfg, FragmentPacket(env, parts[k], k < |parts| - 1), now)
  {
    hide DecodePayload, Has, Payload, Concat;
    ConcatRange(parts, 0, k);
    FragmentReads(env, parts[k], k < |parts| - 1);
    FewAssemblies(s.assemblies.Keys, env.correlation);
  }

  lemma FewAssemblies(keys: set<uint64>, c: uint64)
    requires keys <= {c}
    ensures |keys| <= 1
  {
    assert keys == {} || keys == {c};
  }

  lemma StepAlone(s: State, cfg: Config, env: Envelope, parts: seq<Bytes>, k: nat, now: uint64)
    requires env.pattern == F_REQUEST && k < |parts| && Served(cfg, env, parts) && Alone(s, env, parts, k)
    requires InTime(cfg, env.deadline, now)
    ensures var t := Step(s, cfg, Handle(FragmentPacket(env, parts[k], k < |parts| - 1), now, true));
            if k < |parts| - 1 then Alone(t, env, parts, k + 1) && t.nextId == s.nextId
            else Handed(t, WorkFor(env, Concat(parts), s.nextId))
  {
    hide Judge, FragmentPacket, Concat, Room, HeaderFor, Served, Step, InTime, Alone, Handed;
    AloneHasRoom(s, cfg, env, parts, k, now);
    ReallyAlone(s, env, parts, k);
    FragmentDecided(s, cfg, env, parts, 0, k, now);
    assert parts[0..] == parts;
    var p := FragmentPacket(env, parts[k], k < |parts| - 1);
    PacketCorrelation(env, parts[k], k < |parts| - 1);
    VerdictStep(s, cfg, Handle(p, now, true));
    if k < |parts| - 1 {
      AbsorbedAlone(s, env, parts, k);
    } else {
      StartedAlone(s, Step(s, cfg, Handle(p, now, true)), env, parts, k, WorkFor(env, Concat(parts), s.nextId));
    }
  }

  lemma ReallyAlone(s: State, env: Envelope, parts: seq<Bytes>, k: nat)
    requires k <= |parts| && Alone(s, env, parts, k)
    ensures s.phase.Serving? && Partly(s, env, parts, 0, k)
  {
  }

  lemma AbsorbedAlone(s: State, env: Envelope, parts: seq<Bytes>, k: nat)
    requires k < |parts| && Alone(s, env, parts, k)
    ensures var a := Assembly(env.kind, HeaderFor(env, parts[0]), Concat(parts[0..k + 1]));
            Alone(s.(assemblies := s.assemblies[env.correlation := a]), env, parts, k + 1)
  {
    hide HeaderFor, Concat;
  }

  lemma StartedAlone(s: State, t: State, env: Envelope, parts: seq<Bytes>, k: nat, w: Work)
    requires k <= |parts| && Alone(s, env, parts, k) && w.correlation == env.correlation
    requires t.jobs == s.jobs[w.correlation := w] && t.running == s.running + {w} && t.done == s.done
    requires t.decided == s.decided && t.cancelled == s.cancelled && t.replies == s.replies && t.phase == s.phase
    ensures Handed(t, w)
  {
  }

  /** The fragments from `k` on, delivered one after the other. */
  lemma {:induction false} RestIsHanded(s: State, cfg: Config, env: Envelope, parts: seq<Bytes>, k: nat, now: uint64)
    requires env.pattern == F_REQUEST && k < |parts| && Served(cfg, env, parts) && Alone(s, env, parts, k)
    requires InTime(cfg, env.deadline, now)
    ensures var acts := Deliveries(Remaining(env, parts, k), now);
            && Handed(Run(s, cfg, acts), WorkFor(env, Concat(parts), s.nextId))
            && RoomAlong(s, cfg, acts, env.correlation)
    decreases |parts| - k
  {
    hide Step, FragmentPacket, Concat, Room, Served, Alone, Handed, InTime;
    var rest := Remaining(env, parts, k);
    var acts := Deliveries(rest, now);
    var p := FragmentPacket(env, parts[k], k < |parts| - 1);
    assert rest[0] == p && acts[0] == Handle(p, now, true);
    AloneHasRoom(s, cfg, env, parts, k, now);
    StepAlone(s, cfg, env, parts, k, now);
    var t := Step(s, cfg, acts[0]);
    if k < |parts| - 1 {
      RestIsHanded(t, cfg, env, parts, k + 1, now);
      assert acts[1..] == Deliveries(Remaining(env, parts, k + 1), now);
    } else {
      assert acts[1..] == [];
    }
  }

  /** The handler returns, the worker decides and sends, the loop receives. */
  function Returning(a: Action): seq<Action>
    requires a.Decide?
  {
    [a, Send(a.w), Collect(true)]
  }

  lemma HandedIsAnswered(s: State, cfg: Config, w: Work, response: Bytes, status: uint16, clock: uint64)
    requires Handed(s, w)
    ensures var a := Decide(w, response, status, clock);
            var t := Run(s, cfg, Returning(a));
            t.phase.Serving? && t.jobs == map[] && t.replies == [Answered(a)]
  {
    hide Outcome, Normalised;
    var a, b, c := Decide(w, response, status, clock), Send(w), Collect(true);
    var r := Outcome(w, response, status, false, clock);
    var m := Step(s, cfg, a);
    assert m.decided == map[w := r];
    var n := Step(m, cfg, b);
    assert n.done == [r] && n.running == {};
    var t := Step(n, cfg, c);
    assert map[w.correlation := w] - {w.correlation} == map[];
    assert [a, b, c][1..] == [b, c] && [b, c][1..] == [c] && [c][1..] == [];
    assert Run(s, cfg, [a, b, c]) == Run(m, cfg, [b, c]) == Run(n, cfg, [c]) == t;
  }

  lemma {:induction false} RoomAlongSplit(s: State, cfg: Config, a: seq<Action>, b: seq<Action>, c: uint64)
    requires RoomAlong(s, cfg, a, c) && RoomAlong(Run(s, cfg, a), cfg, b, c)
    ensures RoomAlong(s, cfg, a + b, c)
    decreases |a|
  {
    hide Step, Room;
    if a == [] {
      assert a + b == b;
    } else {
      assert (a + b)[1..] == a[1..] + b;
      RoomAlongSplit(Step(s, cfg, a[0]), cfg, a[1..], b, c);
    }
  }

  /** The undisturbed run of one call: the fragments `ps` come in, and worker `w`
      answers OK. */
  function Schedule(ps: seq<Packet>, w: Work, now: uint64, response: Bytes, clock: uint64): seq<Action> {
    Deliveries(ps, now) + Returning(Decide(w, response, STATUS_OK, clock))
  }

  /** Every request of at most the body limit that reaches an idle module undisturbed
      and in time, cut for any budget, is handed over whole, under the kind, stage,
      deadline and trace it was called with; and every response of at most the limit its
      handler returns in time is what the caller then reads, for any budget. */
  lemma UndisturbedCall(cfg: Config, kind: uint32, correlation: uint64, stageID: uint32, deadline: uint64,
                        trace: uint64, request: Bytes, size: nat, now: uint64, response: Bytes, clock: uint64,
                        chunk: nat)
    requires stageID != 0 && stageID == ExpectedStage(cfg, kind)
    requires |request| <= MAX_BODY && |response| <= MAX_BODY && size > 0 && chunk > 0
    requires InTime(cfg, deadline, now) && (deadline == 0 || clock < deadline)
    ensures var w := Work(id := 0, kind := kind, correlation := correlation, stageID := stageID, deadline := deadline,
                          trace := trace, body := request);
            var env := RequestEnvelope(kind, correlation, stageID, deadline, trace);
            Invokes(env)
            && var ps := Stream(env, Chunks(request, size));
               var acts := Schedule(ps, w, now, response, clock);
               var t := Run(IDLE, cfg, acts);
               && Given(acts) == ps && RoomAlong(IDLE, cfg, acts, correlation)
               && Run(IDLE, cfg, Deliveries(ps, now)).running == {w}
               && t.phase.Serving? && t.jobs == map[]
               && CA.Await([], RuntimeLoop.Streams(t.replies, chunk), kind, correlation)
                  == if kind == 4 then CA.Failed(CA.CapabilityAbsent)
                     else if kind == 3 then CA.Failed(CA.RejectedByHost)
                     else CA.Answered(response)
  {
    hide Run, RoomAlong, Given, CA.Await, RuntimeLoop.Streams, Schedule, Answered, Deliveries;
    var env := RequestEnvelope(kind, correlation, stageID, deadline, trace);
    var a := Decide(WorkFor(env, request, 0), response, STATUS_OK, clock);
    ScheduleRuns(cfg, env, request, size, now, response, clock);
    AnswerIsRead(env, a, response, chunk);
  }

  lemma ScheduleRuns(cfg: Config, env: Envelope, request: Bytes, size: nat, now: uint64, response: Bytes, clock: uint64)
    requires Invokes(env)
    requires env.stageID != 0 && env.stageID == ExpectedStage(cfg, env.kind)
    requires |request| <= MAX_BODY && size > 0 && InTime(cfg, env.deadline, now)
    ensures var ps := Stream(env, Chunks(request, size));
            var acts := Schedule(ps, WorkFor(env, request, 0), now, response, clock);
            var t := Run(IDLE, cfg, acts);
            && Given(acts) == ps
            && RoomAlong(IDLE, cfg, acts, env.correlation)
            && Run(IDLE, cfg, Deliveries(ps, now)).running == {WorkFor(env, request, 0)}
            && t.phase.Serving? && t.jobs == map[]
            && t.replies == [Answered(Decide(WorkFor(env, request, 0), response, STATUS_OK, clock))]
  {
    hide Run, RoomAlong, Given, Deliveries, Chunks, Concat, Stream, Answered, Alone, Served, InTime, Returning;
    var parts := Chunks(request, size);
    IdleIsAlone(cfg, env, request, size);
    var first := Deliveries(Stream(env, parts), now);
    var w := WorkFor(env, request, 0);
    var a := Decide(w, response, STATUS_OK, clock);
    var last := Returning(a);
    assert Remaining(env, parts, 0) == Stream(env, parts);
    RestIsHanded(IDLE, cfg, env, parts, 0, now);
    HandedIsAnswered(Run(IDLE, cfg, first), cfg, w, response, STATUS_OK, clock);
    JoinRuns(IDLE, cfg, first, last);
    GivenDeliveries(Stream(env, parts), now);
    NothingGivenAfter(a);
    assert Stream(env, parts) + [] == Stream(env, parts);
    OnlyGivenNone(Run(IDLE, cfg, first), cfg, last, env.correlation);
    RoomAlongSplit(IDLE, cfg, first, last, env.correlation);
  }

  lemma IdleIsAlone(cfg: Config, env: Envelope, request: Bytes, size: nat)
    requires Invokes(env)
    requires env.stageID != 0 && env.stageID == ExpectedStage(cfg, env.kind) && |request| <= MAX_BODY && size > 0
    ensures var parts := Chunks(request, size);
            parts != [] && Concat(parts) == request && Served(cfg, env, parts) && Alone(IDLE, env, parts, 0)
  {
    ChunkLaw(request, size);
    hide Chunks, Concat;
  }

  lemma NothingGivenAfter(a: Action)
    requires a.Decide?
    ensures Given(Returning(a)) == []
  {
    GivenOne(a);
    GivenSnoc([a], Send(a.w));
    GivenSnoc([a] + [Send(a.w)], Collect(true));
    assert [a] + [Send(a.w)] + [Collect(true)] == Returning(a);
  }

  lemma OnlyGivenNone(s: State, cfg: Config, acts: seq<Action>, c: uint64)
    requires Given(acts) == []
    ensures RoomAlong(s, cfg, acts, c)
  {
    NoMoreRoomNeeded(s, cfg, acts, c);
  }

  lemma AnswerIsRead(env: Envelope, a: Action, response: Bytes, chunk: nat)
    requires a.Decide? && a.response == response && a.status == STATUS_OK && |response| <= MAX_BODY && chunk > 0
    requires a.w.kind == env.kind && a.w.correlation == env.correlation && a.w.stageID == env.stageID != 0
    requires a.w.deadline == 0 || a.clock < a.w.deadline
    ensures CA.Await([], RuntimeLoop.Streams([Answered(a)], chunk), env.kind, env.correlation)
            == ReadBack(env.kind, STATUS_OK, response)
  {
    AnsweredIs(a);
    AnswerShape(a);
    var r := Answered(a);
    OneReply(r, chunk);
    hide RuntimeLoop.Streams, CA.Await, CA.Only, Chunks, Stream, ReadBack, Answered, Normalised;
    var reply := ReplyEnvelope(r.kind, r.correlation, r.stageID, r.trace, r.status);
    StreamCorrelation(reply, Chunks(r.body, chunk));
    OnlyAll(Stream(reply, Chunks(r.body, chunk)), r.correlation);
    ReplyIsRead(reply, r.body, chunk, Stream(reply, Chunks(r.body, chunk)));
  }

  lemma StreamCorrelation(env: Envelope, parts: seq<Bytes>)
    requires env.pattern == F_REQUEST || env.pattern == F_REPLY
    ensures forall i :: 0 <= i < |parts| ==> Stream(env, parts)[i].correlation == env.correlation
  {
    hide Payload;
  }
}
