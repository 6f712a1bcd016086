/** The runtime never builds a message or a frame its own codecs would refuse
    (server-go/bus/module_runtime.go:112-128, 223-284). */
module ValidReplies {
  import opened Bytes
  import opened Wire
  import opened ModuleProtocol
  import opened Wrappers
  import BC = BusClient
  import opened Fragments
  import opened RuntimeModel
  import opened RuntimeInvariant
  import opened RuntimeHistory

  /** A request event names its correlation. */
  predicate Identified(p: Packet) {
    Has(p.flags, F_REQUEST) ==> p.correlation != 0
  }

  /** Whatever Poll delivers is identified, since it passed Validate. */
  lemma DeliveredIsIdentified(slot: Bytes)
    requires BC.ViewOf(slot).Delivered?
    ensures Identified(PacketOf(BC.ViewOf(slot).event))
    ensures Validate(BC.ViewOf(slot).event.frame) == OK
  {
    var f := BC.ViewOf(slot).event.frame;
    DecodedIsValid(slot);
    ValidMeans(f);
    FlagTests(f.flags);
    hide DecodeBytes, Validate, Flag, Has;
  }

  lemma DecodedIsValid(slot: Bytes)
    requires DecodeBytes(slot).Header?
    ensures Validate(DecodeBytes(slot).frame) == OK
  {
    hide Validate, FrameAt;
  }

  /** Every job has a correlation and a stage. */
  ghost predicate Named(s: State) {
    forall c | c in s.jobs :: c != 0 && s.jobs[c].stageID != 0
  }

  /** The reply a step tries to send. */
  function Attempted(s: State, cfg: Config, a: Action): Option<Reply> {
    if !s.phase.Serving? then None
    else if a.Handle? && Judge(s, cfg, a.p, a.now).Refuse? then Some(Judge(s, cfg, a.p, a.now).reply)
    else if a.Collect? && s.done != [] then Some(ReplyFor(s.done[0]))
    else None
  }

  lemma JudgedIsNamed(s: State, cfg: Config, p: Packet, now: uint64)
    requires ConfigOk(cfg) && Identified(p)
    ensures match Judge(s, cfg, p, now)
            case Refuse(r) => r.correlation == p.correlation != 0 && r.stageID != 0
            case Start(w) => w.correlation == p.correlation != 0 && w.stageID != 0
            case _ => true
  {
    hide DecodePayload, Has, DeadlineExpired;
  }

  lemma StepKeepsNamed(s: State, cfg: Config, a: Action)
    requires Named(s) && ConfigOk(cfg) && (a.Handle? ==> Identified(a.p))
    ensures Named(Step(s, cfg, a))
  {
    if a.Handle? {
      JudgedIsNamed(s, cfg, a.p, a.now);
    }
    hide Judge, Identified, Outcome, Normalised, ConfigOk;
  }

  lemma {:induction false} RunKeepsNamed(s: State, cfg: Config, acts: seq<Action>)
    requires Named(s) && ConfigOk(cfg) && forall i :: 0 <= i < |acts| && acts[i].Handle? ==> Identified(acts[i].p)
    ensures Named(Run(s, cfg, acts))
    decreases |acts|
  {
    hide Step, Named, ConfigOk, Identified;
    if acts != [] {
      StepKeepsNamed(s, cfg, acts[0]);
      RunKeepsNamed(Step(s, cfg, acts[0]), cfg, acts[1..]);
    }
  }

  lemma AttemptedIsNamed(s: State, cfg: Config, a: Action)
    requires Inv(s) && Named(s) && ConfigOk(cfg) && (a.Handle? ==> Identified(a.p))
    ensures Attempted(s, cfg, a).Some? ==>
              Attempted(s, cfg, a).value.correlation != 0 && Attempted(s, cfg, a).value.stageID != 0
  {
    hide Judge, Inv, Identified, ConfigOk, Named;
    if a.Handle? {
      JudgedIsNamed(s, cfg, a.p, a.now);
    }
    DoneIsNamed(s);
  }

  lemma DoneIsNamed(s: State)
    requires Inv(s) && Named(s)
    ensures s.done != [] ==> s.done[0].work.correlation != 0 && s.done[0].work.stageID != 0
  {
    hide InFlight;
    if s.done != [] {
      TakeInFlight(s.running, s.done, s.jobs, s.nextId);
    }
  }

  /** Each fragment of the reply has a valid envelope and a valid frame. */
  ghost predicate Sendable(handle: uint32, reply: Reply, chunk: nat)
    requires chunk > 0
  {
    var n := Normalised(reply);
    var env := ReplyEnvelope(n.kind, n.correlation, n.stageID, n.trace, n.status);
    var parts := Chunks(n.body, chunk);
    forall i :: 0 <= i < |parts| ==> FragmentSendable(handle, env, parts[i], i < |parts| - 1)
  }

  ghost predicate FragmentSendable(handle: uint32, env: Envelope, part: Bytes, more: bool)
    requires env.pattern == F_REPLY
  {
    && ValidMessage(HeaderFor(env, part)) && (more ==> part != [])
    && Validate(BC.FrameFor(handle, BC.FragmentFlags(F_REPLY, more), env.kind, env.correlation,
                            Payload(HeaderFor(env, part), part))) == OK
  }

  lemma PartIsSendable(handle: uint32, env: Envelope, part: Bytes, more: bool)
    requires Results(env)
    requires env.correlation != 0 && env.stageID != 0 && env.status <= STATUS_INTERNAL
    requires HEADER_LEN + |part| <= MAX_PAYLOAD && (more ==> part != [])
    ensures FragmentSendable(handle, env, part, more)
  {
    hide Validate, BC.FrameFor, ModuleProtocol.Encoded;
    FragmentIsValid(handle, F_REPLY, env.kind, env.correlation, Payload(HeaderFor(env, part), part), more);
  }

  lemma NamedIsSendable(handle: uint32, reply: Reply, chunk: nat)
    requires reply.correlation != 0 && reply.stageID != 0 && 0 < chunk <= MAX_PAYLOAD - HEADER_LEN
    ensures Sendable(handle, reply, chunk)
  {
    var n := Normalised(reply);
    var env := ReplyEnvelope(n.kind, n.correlation, n.stageID, n.trace, n.status);
    var parts := Chunks(n.body, chunk);
    ChunkLaw(n.body, chunk);
    hide Concat, Chunks, FragmentSendable, ChunkCount;
    forall i | 0 <= i < |parts| ensures FragmentSendable(handle, env, parts[i], i < |parts| - 1) {
      PartIsSendable(handle, env, parts[i], i < |parts| - 1);
    }
  }

  /** In every run from a validated stage table over events that passed Decode, the
      reply the loop tries to send next, if any, has a nonzero correlation and
      stage, and each of its fragments has a valid envelope and a valid frame for
      any budget up to the payload limit. */
  lemma RepliesAreValid(cfg: Config, acts: seq<Action>, a: Action, handle: uint32, chunk: nat)
    requires ConfigOk(cfg) && 0 < chunk <= MAX_PAYLOAD - HEADER_LEN
    requires forall i :: 0 <= i < |acts| && acts[i].Handle? ==> Identified(acts[i].p)
    requires a.Handle? ==> Identified(a.p)
    ensures var r := Attempted(Run(IDLE, cfg, acts), cfg, a);
            r.Some? ==> r.value.correlation != 0 && r.value.stageID != 0 && Sendable(handle, r.value, chunk)
  {
    hide Identified, ConfigOk, Run, Attempted, Sendable, Inv;
    IdleInv();
    RunKeepsInv(IDLE, cfg, acts);
    RunKeepsNamed(IDLE, cfg, acts);
    var s := Run(IDLE, cfg, acts);
    AttemptedIsNamed(s, cfg, a);
    if Attempted(s, cfg, a).Some? {
      NamedIsSendable(handle, Attempted(s, cfg, a).value, chunk);
    }
  }

  /** No reply other than OK carries a body, and none exceeds the limit. */
  ghost predicate Plain(replies: seq<Reply>) {
    forall i :: 0 <= i < |replies| ==>
      && replies[i].status <= STATUS_INTERNAL && |replies[i].body| <= MAX_BODY
      && (replies[i].status != STATUS_OK ==> replies[i].body == [])
  }

  lemma {:induction false} RunKeepsPlain(s: State, cfg: Config, acts: seq<Action>)
    requires Plain(s.replies)
    ensures Plain(Run(s, cfg, acts).replies)
    decreases |acts|
  {
    if acts != [] {
      StepKeepsPlain(s, cfg, acts[0]);
      hide Step, Plain;
      RunKeepsPlain(Step(s, cfg, acts[0]), cfg, acts[1..]);
    }
  }

  lemma StepKeepsPlain(s: State, cfg: Config, a: Action)
    requires Plain(s.replies)
    ensures Plain(Step(s, cfg, a).replies)
  {
    hide Judge, Outcome, Normalised;
  }
}
