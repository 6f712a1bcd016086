/** What the runtime decides, by the wire's own numbers: when a request event is
    refused and with which status, what a worker makes of its handler's return, and
    the reply that follows (server-go/bus/module_runtime.go:196-291, 345-427).
    Statuses: 0 OK, 1 capability absent, 2 cancelled, 3 deadline exceeded,
    4 invalid request, 5 internal. */
module RuntimeDecisions {
  import opened Bytes
  import opened Wire
  import opened ModuleProtocol
  import opened Wrappers
  import opened Fragments
  import opened RuntimeModel
  import opened RuntimeInvariant
  import opened RuntimeHistory
  import opened RequestArrival
  import opened ReplyArrival
  import CA = CallerAwait

  // ------------------------------------------------------------- one event

  /** The stage of the table for a kind, or zero. */
  function StageFor(cfg: Config, kind: uint32): uint32 {
    if kind in cfg.stages then cfg.stages[kind] else 0
  }

  /** The event is no part of a request for this process: no stage for its kind, no
      message or not an invocation of that stage, a job of its correlation already, or
      an assembly that began with another kind, stage, deadline or trace. */
  predicate Unfit(s: State, cfg: Config, p: Packet) {
    var c, m := p.correlation, DecodePayload(p.payload);
    || StageFor(cfg, p.kind) == 0 || m.None? || m.value.operation != 1
    || m.value.stageID != StageFor(cfg, p.kind) || c in s.jobs
    || (c in s.assemblies &&
        var a := s.assemblies[c];
        !(a.kind == p.kind && a.message.stageID == m.value.stageID
          && a.message.deadline == m.value.deadline && a.message.trace == m.value.trace))
  }

  /** What has come in of the event's request before it. */
  function Before(s: State, p: Packet): Bytes {
    if p.correlation in s.assemblies then s.assemblies[p.correlation].body else []
  }

  /** A sixteenth assembly is there already, or the body gets over 16 MiB. */
  predicate Overflows(s: State, p: Packet)
    requires DecodePayload(p.payload).Some?
  {
    || (p.correlation !in s.assemblies && |s.assemblies| >= 16)
    || |Before(s, p)| + DecodePayload(p.payload).value.bodyLen > 0x100_0000
  }

  predicate Late(p: Packet, now: uint64)
    requires DecodePayload(p.payload).Some?
  {
    DecodePayload(p.payload).value.deadline != 0 && now >= DecodePayload(p.payload).value.deadline
  }

  /** A request event, not a cancel. */
  predicate Asks(p: Packet) {
    Flag(p.flags, 3) && !Flag(p.flags, 5)
  }

  /** More fragments follow. */
  predicate Continues(p: Packet) {
    Flag(p.flags, 7)
  }

  /** The event is answered with `status` and dropped, with what was assembled: under
      its own kind and correlation, for the stage of its kind, or stage 1 where there is
      none, with its own trace, or 0 if it is invalid, and without a body. */
  ghost predicate RefusedWith(s: State, cfg: Config, p: Packet, now: uint64, status: uint16) {
    var stage := StageFor(cfg, p.kind);
    var trace := if status == 4 || DecodePayload(p.payload).None? then 0 else DecodePayload(p.payload).value.trace;
    Step(s, cfg, Handle(p, now, true))
    == s.(assemblies := s.assemblies - {p.correlation},
          replies := s.replies + [Reply(kind := p.kind, correlation := p.correlation,
                                        stageID := if stage == 0 then 1 else stage,
                                        trace := trace, status := status, body := [])])
  }

  /** The event's piece is added to what has come in of its request. */
  ghost predicate Absorbs(s: State, t: State, p: Packet)
    requires DecodePayload(p.payload).Some?
  {
    var c, m := p.correlation, DecodePayload(p.payload).value;
    && c in t.assemblies && t == s.(assemblies := s.assemblies[c := t.assemblies[c]])
    && var a := t.assemblies[c];
       && a.kind == p.kind && a.message.stageID == m.stageID && a.message.deadline == m.deadline
       && a.message.trace == m.trace && a.body == Before(s, p) + BodyOf(p.payload)
  }

  /** The event's request is handed to a new worker, whole. */
  ghost predicate Starts(s: State, t: State, p: Packet)
    requires DecodePayload(p.payload).Some?
  {
    var c, m := p.correlation, DecodePayload(p.payload).value;
    && c in t.jobs
    && var w := t.jobs[c];
       && t == s.(assemblies := s.assemblies - {c}, jobs := s.jobs[c := w], running := s.running + {w},
                  nextId := s.nextId + 1)
       && w.id == s.nextId && w.kind == p.kind && w.correlation == c && w.stageID == m.stageID
       && w.deadline == m.deadline && w.trace == m.trace && w.body == Before(s, p) + BodyOf(p.payload)
  }

  /** The decision on a request event: refused with each status under exactly these
      conditions, and otherwise absorbed or handed to a worker. */
  lemma EventDecided(s: State, cfg: Config, p: Packet, now: uint64)
    requires s.phase.Serving? && Asks(p)
    ensures RefusedWith(s, cfg, p, now, 4) <==> Unfit(s, cfg, p)
    ensures RefusedWith(s, cfg, p, now, 5) <==>
              && !Unfit(s, cfg, p)
              && (Overflows(s, p) || (!Continues(p) && !Late(p, now) && cfg.hasHandler && |s.jobs| >= 16))
    ensures RefusedWith(s, cfg, p, now, 3) <==>
              !Unfit(s, cfg, p) && !Overflows(s, p) && !Continues(p) && Late(p, now)
    ensures RefusedWith(s, cfg, p, now, 1) <==>
              !Unfit(s, cfg, p) && !Overflows(s, p) && !Continues(p) && !Late(p, now) && !cfg.hasHandler
    ensures !Unfit(s, cfg, p) && !Overflows(s, p) && Continues(p) ==>
              Absorbs(s, Step(s, cfg, Handle(p, now, true)), p)
    ensures !Unfit(s, cfg, p) && !Overflows(s, p) && !Continues(p) && !Late(p, now) && cfg.hasHandler
            && |s.jobs| < 16 ==>
              Starts(s, Step(s, cfg, Handle(p, now, true)), p)
  {
    OneStatus(s, cfg, p, now);
    if Unfit(s, cfg, p) {
      UnfitIsRefused(s, cfg, p, now);
    } else {
      FitIsDecided(s, cfg, p, now);
    }
    hide Unfit, Overflows, Late, Continues, Asks, RefusedWith, Before, DecodePayload, BodyOf, Step;
  }

  lemma OneStatus(s: State, cfg: Config, p: Packet, now: uint64)
    ensures forall a, b | RefusedWith(s, cfg, p, now, a) && RefusedWith(s, cfg, p, now, b) :: a == b
    ensures forall a | RefusedWith(s, cfg, p, now, a) ::
              |Step(s, cfg, Handle(p, now, true)).replies| == |s.replies| + 1
  {
    hide Step;
    forall a, b | RefusedWith(s, cfg, p, now, a) && RefusedWith(s, cfg, p, now, b) ensures a == b {
      var last := Step(s, cfg, Handle(p, now, true)).replies[|s.replies|];
      assert last.status == a && last.status == b;
    }
  }

  lemma UnfitIsRefused(s: State, cfg: Config, p: Packet, now: uint64)
    requires s.phase.Serving? && Asks(p) && Unfit(s, cfg, p)
    ensures RefusedWith(s, cfg, p, now, 4)
  {
    FlagTests(p.flags);
    hide Has, Flag, DecodePayload, Assemble;
  }

  lemma FitIsDecided(s: State, cfg: Config, p: Packet, now: uint64)
    requires s.phase.Serving? && Asks(p) && !Unfit(s, cfg, p)
    ensures var t := Step(s, cfg, Handle(p, now, true));
            if Overflows(s, p) then RefusedWith(s, cfg, p, now, 5)
            else if Continues(p) then Absorbs(s, t, p)
            else if Late(p, now) then RefusedWith(s, cfg, p, now, 3)
            else if !cfg.hasHandler then RefusedWith(s, cfg, p, now, 1)
            else if |s.jobs| >= 16 then RefusedWith(s, cfg, p, now, 5)
            else Starts(s, t, p)
  {
    FlagTests(p.flags);
    FitIsAssembled(s, cfg, p, now);
    hide Has, Flag, DecodePayload, BodyOf, Unfit, Judge, Assemble;
    if Judge(s, cfg, p, now).Refuse? {
      RefusedStep(s, cfg, p, now);
    }
  }

  /** A refusal is entered and sent. */
  lemma RefusedStep(s: State, cfg: Config, p: Packet, now: uint64)
    requires s.phase.Serving? && Judge(s, cfg, p, now).Refuse?
    requires var r := Judge(s, cfg, p, now).reply;
             r.status <= 5 && r.body == []
    ensures Step(s, cfg, Handle(p, now, true))
            == s.(assemblies := s.assemblies - {p.correlation}, replies := s.replies + [Judge(s, cfg, p, now).reply])
  {
    hide Judge;
  }

  /** What the loop makes of an event that fits. */
  lemma FitIsAssembled(s: State, cfg: Config, p: Packet, now: uint64)
    requires Asks(p) && !Unfit(s, cfg, p)
    ensures var v, m := Judge(s, cfg, p, now), DecodePayload(p.payload).value;
            var refused := (status: uint16) =>
              Refuse(Reply(kind := p.kind, correlation := p.correlation, stageID := StageFor(cfg, p.kind),
                           trace := m.trace, status := status, body := []));
            if Overflows(s, p) then v == refused(5)
            else if Continues(p) then
              && v.Absorb? && v.assembly.kind == p.kind && v.assembly.body == Before(s, p) + BodyOf(p.payload)
              && v.assembly.message.stageID == m.stageID && v.assembly.message.deadline == m.deadline
              && v.assembly.message.trace == m.trace
            else if Late(p, now) then v == refused(3)
            else if !cfg.hasHandler then v == refused(1)
            else if |s.jobs| >= 16 then v == refused(5)
            else v == RuntimeModel.Start(Work(id := s.nextId, kind := p.kind, correlation := p.correlation,
                                              stageID := m.stageID, deadline := m.deadline, trace := m.trace,
                                              body := Before(s, p) + BodyOf(p.payload)))
  {
    FlagTests(p.flags);
    if p.correlation !in s.assemblies {
      assert [] + BodyOf(p.payload) == BodyOf(p.payload);
    }
    hide Has, Flag, DecodePayload, BodyOf;
  }

  /** A cancel drops the assembly of its correlation and flags its job; an event that
      is neither a cancel nor a request does nothing. */
  lemma NoRequest(s: State, cfg: Config, p: Packet, now: uint64, sent: bool)
    requires s.phase.Serving? && !Asks(p)
    ensures var c, t := p.correlation, Step(s, cfg, Handle(p, now, sent));
            if Flag(p.flags, 5)
            then t == s.(assemblies := s.assemblies - {c},
                         cancelled := s.cancelled + if c in s.jobs then {s.jobs[c].id} else {})
            else t == s
  {
    FlagTests(p.flags);
    hide Has, Flag, Assemble, Invalid;
  }

  // ---------------------------------------------------------- one decision

  /** The result of a handler that returned `response` and `status`: cancelled, if the
      flag was set; deadline exceeded, if the work has a deadline, the clock can be read
      and has reached it; internal, for an unknown status or more than 16 MiB; any other
      failure as it is; and only OK with the response. */
  ghost predicate Rules(r: Result, w: Work, response: Bytes, status: uint16, cancelled: bool, clock: uint64) {
    && r.work == w
    && if cancelled then r.status == 2 && r.body == []
       else if w.deadline != 0 && clock != 0 && clock >= w.deadline then r.status == 3 && r.body == []
       else if status > 5 || |response| > 0x100_0000 then r.status == 5 && r.body == []
       else if status != 0 then r.status == status && r.body == []
       else r.status == 0 && r.body == response
  }

  /** A worker's decision, in any state. */
  lemma WorkDecided(s: State, cfg: Config, w: Work, response: Bytes, status: uint16, clock: uint64)
    requires w in s.running && w !in s.decided
    ensures var t := Step(s, cfg, Decide(w, response, status, clock));
            && w in t.decided && t == s.(decided := s.decided[w := t.decided[w]])
            && Rules(t.decided[w], w, response, status, w.id in s.cancelled, clock)
  {
  }

  /** The reply a result owes: under the kind and correlation of its work, for its
      stage and with its trace. */
  function Owes(r: Result): Reply {
    Reply(kind := r.work.kind, correlation := r.work.correlation, stageID := r.work.stageID, trace := r.work.trace,
          status := r.status, body := r.body)
  }

  /** The one reply to a job: what its worker decided, late or not. */
  lemma JobsReply(s: State, cfg: Config, acts: seq<Action>, c: uint64, w: Work)
    requires Inv(s) && Flight(s, c, w, None) && CA.Only(Given(acts), c) == []
    requires Run(s, cfg, acts).phase.Serving? && c !in Run(s, cfg, acts).jobs
    ensures var a, replies := Returned(s, cfg, acts, c), RepliesTo(Run(s, cfg, acts).replies, c);
            && a.Some? && a.value.Decide? && a.value.w == w
            && |replies| == |RepliesTo(s.replies, c)| + 1 && RepliesTo(s.replies, c) <= replies
            && var last := replies[|replies| - 1];
               var r := Result(w, last.body, last.status);
               && last == Owes(r) && Rules(r, w, a.value.response, a.value.status, false, a.value.clock)
  {
    JobIsReplied(s, cfg, acts, c, w);
    var a := Returned(s, cfg, acts, c).value;
    OwedIsRuled(a);
    hide Inv, Flight, CA.Only, Given, Run, Returned, RepliesTo, Answered, Rules;
    var before, after := RepliesTo(s.replies, c), RepliesTo(Run(s, cfg, acts).replies, c);
    assert after[|before|] == Answered(a);
  }

  lemma OwedIsRuled(a: Action)
    requires a.Decide?
    ensures var r := Result(a.w, Answered(a).body, Answered(a).status);
            Answered(a) == Owes(r) && Rules(r, a.w, a.response, a.status, false, a.clock)
  {
  }

  // ------------------------------------------------------------ whole runs

  /** The reply is that of a job whose worker decided at step `k` of the run, not
      cancelled, in time, and with this very body returned OK by its handler. */
  ghost predicate EarnedAt(cfg: Config, acts: seq<Action>, k: nat, r: Reply)
    requires k < |acts|
  {
    var s, a := Run(IDLE, cfg, acts[..k]), acts[k];
    && a.Decide? && a.w in s.running && a.w !in s.decided && a.w.id !in s.cancelled
    && (a.w.deadline == 0 || a.clock == 0 || a.clock < a.w.deadline)
    && a.status == 0 && |a.response| <= 0x100_0000
    && r == Owes(Result(a.w, a.response, 0))
  }

  ghost predicate Earned(cfg: Config, acts: seq<Action>, r: Reply) {
    exists k: nat :: k < |acts| && EarnedAt(cfg, acts, k, r)
  }

  ghost predicate AllEarned(cfg: Config, acts: seq<Action>, s: State) {
    && (forall i :: 0 <= i < |s.replies| && s.replies[i].status == 0 ==> Earned(cfg, acts, s.replies[i]))
    && (forall i :: 0 <= i < |s.done| && s.done[i].status == 0 ==> Earned(cfg, acts, Owes(s.done[i])))
    && (forall w | w in s.decided && s.decided[w].status == 0 :: Earned(cfg, acts, Owes(s.decided[w])))
  }

  /** Every OK reply of a run was earned: no refusal is OK, and neither is the reply to
      a job decided at or past its deadline, or after a cancel. */
  lemma {:induction false} OkIsEarned(cfg: Config, acts: seq<Action>)
    ensures AllEarned(cfg, acts, Run(IDLE, cfg, acts))
    decreases |acts|
  {
    hide AllEarned;
    if acts == [] {
      NothingToEarn(cfg);
    } else {
      var before, a := acts[..|acts| - 1], acts[|acts| - 1];
      OkIsEarned(cfg, before);
      assert acts == before + [a];
      RunSnoc(IDLE, cfg, before, a);
      StepEarns(cfg, before, a);
    }
  }

  lemma NothingToEarn(cfg: Config)
    ensures AllEarned(cfg, [], IDLE)
  {
  }

  lemma EarnedGrows(cfg: Config, acts: seq<Action>, a: Action, r: Reply)
    requires Earned(cfg, acts, r)
    ensures Earned(cfg, acts + [a], r)
  {
    var k: nat :| k < |acts| && EarnedAt(cfg, acts, k, r);
    assert (acts + [a])[..k] == acts[..k];
    hide Run, Owes;
    assert EarnedAt(cfg, acts + [a], k, r);
  }

  lemma AllEarnedGrows(cfg: Config, acts: seq<Action>, a: Action, s: State)
    requires AllEarned(cfg, acts, s)
    ensures AllEarned(cfg, acts + [a], s)
  {
    hide Earned, Owes;
    forall r | Earned(cfg, acts, r) ensures Earned(cfg, acts + [a], r) {
      EarnedGrows(cfg, acts, a, r);
    }
  }

  lemma StepEarns(cfg: Config, acts: seq<Action>, a: Action)
    requires AllEarned(cfg, acts, Run(IDLE, cfg, acts))
    ensures AllEarned(cfg, acts + [a], Step(Run(IDLE, cfg, acts), cfg, a))
  {
    var s, more := Run(IDLE, cfg, acts), acts + [a];
    AllEarnedGrows(cfg, acts, a, s);
    match a
    case Handle(p, now, sent) =>
      RefusalIsNotOk(s, cfg, p, now);
      hide Judge, Earned, Run;
    case Decide(w, response, status, clock) =>
      if w in s.running && w !in s.decided {
        DecisionEarns(cfg, acts, a);
        hide Outcome, Earned, Run;
      }
    case Send(_) => SendEarns(cfg, more, s, a);
    case Collect(_) => CollectEarns(cfg, more, s, a);
    case _ => hide Earned, Run;
  }

  lemma RefusalIsNotOk(s: State, cfg: Config, p: Packet, now: uint64)
    ensures Judge(s, cfg, p, now).Refuse? ==> Judge(s, cfg, p, now).reply.status in {1, 3, 4, 5}
  {
    hide DecodePayload, Has, DeadlineExpired;
  }

  lemma DecisionEarns(cfg: Config, acts: seq<Action>, a: Action)
    requires var s := Run(IDLE, cfg, acts);
             a.Decide? && a.w in s.running && a.w !in s.decided
    ensures var r := Outcome(a.w, a.response, a.status, a.w.id in Run(IDLE, cfg, acts).cancelled, a.clock);
            r.status == 0 ==> Earned(cfg, acts + [a], Owes(r))
  {
    hide Run;
    var r := Outcome(a.w, a.response, a.status, a.w.id in Run(IDLE, cfg, acts).cancelled, a.clock);
    assert (acts + [a])[..|acts|] == acts;
    if r.status == 0 {
      assert EarnedAt(cfg, acts + [a], |acts|, Owes(r));
    }
  }

  lemma SendEarns(cfg: Config, acts: seq<Action>, s: State, a: Action)
    requires AllEarned(cfg, acts, s) && a.Send?
    ensures AllEarned(cfg, acts, Step(s, cfg, a))
  {
    hide Earned, Owes;
  }

  lemma CollectEarns(cfg: Config, acts: seq<Action>, s: State, a: Action)
    requires AllEarned(cfg, acts, s) && a.Collect?
    ensures AllEarned(cfg, acts, Step(s, cfg, a))
  {
    hide Earned;
    if s.phase.Serving? && s.done != [] {
      var n := Normalised(ReplyFor(s.done[0]));
      assert n.status == 0 ==> n == Owes(s.done[0]) && s.done[0].status == 0;
      hide Normalised, Owes;
    }
  }
}
