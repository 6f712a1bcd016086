/** The module runtime as a state machine: the serving loop, its workers and the
    channel between them, one step at a time in any interleaving
    (server-go/bus/module_runtime.go:196-429). */
module RuntimeModel {
  import opened Bytes
  import opened Wire
  import opened ModuleProtocol
  import opened Fragments
  import opened Wrappers

  const MAX_IN_FLIGHT: nat := 16

  /** What a process serves: the validated stage table, and whether it has a
      handler. */
  datatype Config = Config(stages: map<uint32, uint32>, hasHandler: bool)

  ghost predicate ConfigOk(cfg: Config) {
    forall k | k in cfg.stages :: k != 0 && cfg.stages[k] != 0
  }

  datatype Assembly = Assembly(kind: uint32, message: Message, body: Bytes)

  /** One invocation handed to a worker. Works are objects in the source; `id`
      keeps two works apart. */
  datatype Work = Work(
    id: nat, kind: uint32, correlation: uint64, stageID: uint32, deadline: uint64, trace: uint64, body: Bytes)

  datatype Result = Result(work: Work, body: Bytes, status: uint16)

  /** A terminal reply to one correlation. */
  datatype Reply = Reply(
    kind: uint32, correlation: uint64, stageID: uint32, trace: uint64, status: uint16, body: Bytes)

  datatype Phase = Serving | Draining | Stopped

  datatype State = State(
    phase: Phase,
    assemblies: map<uint64, Assembly>,
    jobs: map<uint64, Work>,
    running: set<Work>,              // works whose worker has not sent its result
    decided: map<Work, Result>,      // of those, the results decided and not yet sent
    done: seq<Result>,               // the buffered channel
    cancelled: set<nat>,             // ids of works whose cancel flag is set
    nextId: nat,
    replies: seq<Reply>)             // terminal replies sent, oldest first

  const IDLE: State := State(Serving, map[], map[], {}, map[], [], {}, 0, [])

  // ----------------------------------------------------------------- replies

  /** What replyModuleResult sends: an unknown status or an oversized body
      becomes Internal, and only OK carries a body. */
  function Normalised(r: Reply): (n: Reply)
    ensures n.status <= STATUS_INTERNAL && |n.body| <= MAX_BODY && (n.status != STATUS_OK ==> n.body == [])
    ensures n.correlation == r.correlation
  {
    if r.status > STATUS_INTERNAL || |r.body| > MAX_BODY then r.(status := STATUS_INTERNAL, body := [])
    else if r.status != STATUS_OK then r.(body := [])
    else r
  }

  /** A reply goes out, or sending fails and the loop returns. */
  function Answer(s: State, r: Reply, sent: bool): State {
    if sent then s.(replies := s.replies + [Normalised(r)]) else s.(phase := Stopped)
  }

  // ------------------------------------------------------------------ events

  /** What the loop decides about one polled event. */
  datatype Verdict =
    | NotForUs
    | CancelRequest
    | Refuse(reply: Reply)
    | Absorb(assembly: Assembly)
    | Start(work: Work)

  function ExpectedStage(cfg: Config, kind: uint32): uint32 {
    if kind in cfg.stages then cfg.stages[kind] else 0
  }

  /** The event cannot be part of a request this process is assembling. */
  predicate Invalid(s: State, cfg: Config, p: Packet) {
    var expected := ExpectedStage(cfg, p.kind);
    var m := DecodePayload(p.payload);
    || expected == 0 || m.None? || m.value.operation != OP_INVOKE
    || m.value.stageID != expected || p.correlation in s.jobs
    || (p.correlation in s.assemblies &&
        var a := s.assemblies[p.correlation];
        || a.kind != p.kind || a.message.stageID != m.value.stageID
        || a.message.deadline != m.value.deadline || a.message.trace != m.value.trace)
  }

  function Refusal(p: Packet, stageID: uint32, trace: uint64, status: uint16): Verdict {
    Refuse(Reply(p.kind, p.correlation, stageID, trace, status, []))
  }

  /** A request whose last fragment is in: refused, or handed to a worker. */
  function Complete(s: State, cfg: Config, p: Packet, m: Message, body: Bytes, now: uint64): Verdict {
    var expected := ExpectedStage(cfg, p.kind);
    if DeadlineExpired(m, now) then Refusal(p, expected, m.trace, STATUS_DEADLINE_EXCEEDED)
    else if !cfg.hasHandler then Refusal(p, expected, m.trace, STATUS_CAPABILITY_ABSENT)
    else if |s.jobs| >= MAX_IN_FLIGHT then Refusal(p, expected, m.trace, STATUS_INTERNAL)
    else Start(Work(s.nextId, p.kind, p.correlation, expected, m.deadline, m.trace, body))
  }

  /** A fragment that passed the checks, with the assembly it belongs to. */
  function Assemble(s: State, cfg: Config, p: Packet, m: Message, now: uint64): Verdict
    requires DecodePayload(p.payload) == Some(m)
  {
    var expected := ExpectedStage(cfg, p.kind);
    var known := p.correlation in s.assemblies;
    if !known && |s.assemblies| >= MAX_IN_FLIGHT then Refusal(p, expected, m.trace, STATUS_INTERNAL)
    else
      var a := if known then s.assemblies[p.correlation] else Assembly(p.kind, m, []);
      var part := BodyOf(p.payload);
      if |a.body| + |part| > MAX_BODY then Refusal(p, expected, m.trace, STATUS_INTERNAL)
      else if Has(p.flags, F_MORE) then Absorb(a.(body := a.body + part))
      else Complete(s, cfg, p, m, a.body + part, now)
  }

  function Judge(s: State, cfg: Config, p: Packet, now: uint64): Verdict {
    var expected := ExpectedStage(cfg, p.kind);
    if Has(p.flags, F_CANCEL) then CancelRequest
    else if !Has(p.flags, F_REQUEST) then NotForUs
    else if Invalid(s, cfg, p) then
      Refusal(p, if expected == 0 then 1 else expected, 0, STATUS_INVALID_REQUEST)
    else Assemble(s, cfg, p, DecodePayload(p.payload).value, now)
  }

  /** What a verdict on an event of `c` does to the tables. */
  function Enter(s: State, c: uint64, v: Verdict): State {
    match v
    case NotForUs => s
    case CancelRequest =>
      s.(assemblies := s.assemblies - {c},
         cancelled := if c in s.jobs then s.cancelled + {s.jobs[c].id} else s.cancelled)
    case Refuse(_) => s.(assemblies := s.assemblies - {c})
    case Absorb(a) => s.(assemblies := s.assemblies[c := a])
    case Start(w) =>
      s.(assemblies := s.assemblies - {c}, jobs := s.jobs[c := w], running := s.running + {w},
         nextId := s.nextId + 1)
  }

  function Apply(s: State, c: uint64, v: Verdict, sent: bool): State {
    if v.Refuse? then Answer(Enter(s, c, v), v.reply, sent) else Enter(s, c, v)
  }

  function Receive(s: State, cfg: Config, p: Packet, now: uint64, sent: bool): State {
    Apply(s, p.correlation, Judge(s, cfg, p, now), sent)
  }

  // ----------------------------------------------------------------- workers

  /** What runHandler decides to send, given what the handler returned, the cancel
      flag as it was loaded, and the clock (zero when it cannot be read). */
  function Outcome(w: Work, response: Bytes, status: uint16, cancelled: bool, now: uint64): (r: Result)
    ensures r.work == w && r.status <= STATUS_INTERNAL && |r.body| <= MAX_BODY
    ensures r.status != STATUS_OK ==> r.body == []
    ensures r.status == STATUS_OK ==> r.body == response
    ensures cancelled ==> r.status == STATUS_CANCELLED
  {
    if cancelled then Result(w, [], STATUS_CANCELLED)
    else if w.deadline != 0 && now != 0 && now >= w.deadline then Result(w, [], STATUS_DEADLINE_EXCEEDED)
    else if status > STATUS_INTERNAL || |response| > MAX_BODY then Result(w, [], STATUS_INTERNAL)
    else if status != STATUS_OK then Result(w, [], status)
    else Result(w, response, STATUS_OK)
  }

  // ------------------------------------------------------------------- steps

  datatype Action =
    | Handle(p: Packet, now: uint64, sent: bool)
    | Decide(w: Work, response: Bytes, status: uint16, clock: uint64)   // a worker loads its flag and the clock
    | Send(w: Work)                                                     // a worker sends on done
    | Collect(sent: bool)                                               // the loop receives and replies
    | ContextEnds
    | Drain                                                             // the shutdown loop receives
    | Leave                                                             // epoch change or poll error

  function ReplyFor(r: Result): Reply {
    Reply(r.work.kind, r.work.correlation, r.work.stageID, r.work.trace, r.status, r.body)
  }

  /** One step; an action that cannot happen in `s` changes nothing. A worker
      decides its result first and sends it later, and can send only while the
      channel has room. */
  function Step(s: State, cfg: Config, a: Action): State {
    match a
    case Handle(p, now, sent) => if s.phase.Serving? then Receive(s, cfg, p, now, sent) else s
    case Decide(w, response, status, clock) =>
      if w !in s.running || w in s.decided then s
      else s.(decided := s.decided[w := Outcome(w, response, status, w.id in s.cancelled, clock)])
    case Send(w) =>
      if w !in s.running || w !in s.decided || |s.done| >= MAX_IN_FLIGHT then s
      else s.(running := s.running - {w}, decided := s.decided - {w}, done := s.done + [s.decided[w]])
    case Collect(sent) =>
      if !s.phase.Serving? || s.done == [] then s
      else Answer(s.(done := s.done[1..], jobs := s.jobs - {s.done[0].work.correlation}),
                  ReplyFor(s.done[0]), sent)
    case ContextEnds =>
      if !s.phase.Serving? then s
      else s.(phase := if s.jobs == map[] then Stopped else Draining,
              cancelled := s.cancelled + (set c | c in s.jobs :: s.jobs[c].id))
    case Drain =>
      if !s.phase.Draining? || s.done == [] then s
      else
        var jobs := s.jobs - {s.done[0].work.correlation};
        s.(done := s.done[1..], jobs := jobs, phase := if jobs == map[] then Stopped else Draining)
    case Leave => if s.phase.Serving? then s.(phase := Stopped) else s
  }

  function Run(s: State, cfg: Config, acts: seq<Action>): State
    decreases |acts|
  {
    if acts == [] then s else Run(Step(s, cfg, acts[0]), cfg, acts[1..])
  }

  lemma {:induction false} RunSplit(s: State, cfg: Config, a: seq<Action>, b: seq<Action>)
    ensures Run(s, cfg, a + b) == Run(Run(s, cfg, a), cfg, b)
    decreases |a|
  {
    hide Step;
    if a == [] {
      assert a + b == b;
    } else {
      RunSplit(Step(s, cfg, a[0]), cfg, a[1..], b);
      assert (a + b)[1..] == a[1..] + b;
    }
  }

  lemma RunSnoc(s: State, cfg: Config, acts: seq<Action>, a: Action)
    ensures Run(s, cfg, acts + [a]) == Step(Run(s, cfg, acts), cfg, a)
  {
    hide Step;
    RunSplit(s, cfg, acts, [a]);
    assert [a][1..] == [];
  }

  /** The packets the loop was given over a run. */
  function Given(acts: seq<Action>): seq<Packet> {
    if acts == [] then []
    else Given(acts[..|acts| - 1]) + (if acts[|acts| - 1].Handle? then [acts[|acts| - 1].p] else [])
  }

  lemma GivenSnoc(acts: seq<Action>, a: Action)
    ensures Given(acts + [a]) == Given(acts) + if a.Handle? then [a.p] else []
  {
    assert (acts + [a])[..|acts|] == acts;
  }

  lemma {:induction false} GivenSplit(a: seq<Action>, b: seq<Action>)
    ensures Given(a + b) == Given(a) + Given(b)
    decreases |b|
  {
    if b == [] {
      assert a + b == a;
    } else {
      GivenSplit(a, b[..|b| - 1]);
      assert (a + b)[..|a + b| - 1] == a + b[..|b| - 1];
    }
  }

  /** Two runs in a row are one run. */
  lemma JoinRuns(s: State, cfg: Config, a: seq<Action>, b: seq<Action>)
    ensures Run(s, cfg, a + b) == Run(Run(s, cfg, a), cfg, b)
    ensures Given(a + b) == Given(a) + Given(b)
  {
    RunSplit(s, cfg, a, b);
    GivenSplit(a, b);
  }

  lemma JoinStep(s: State, cfg: Config, a: seq<Action>, last: Action)
    ensures Run(s, cfg, a + [last]) == Step(Run(s, cfg, a), cfg, last)
    ensures Given(a + [last]) == Given(a) + if last.Handle? then [last.p] else []
  {
    RunSnoc(s, cfg, a, last);
    GivenSnoc(a, last);
  }
}
