/** The module runtime in its own imperative form: the stage table check, the
    worker body, and the serving loop over an attached client. Every method is
    proved against the state machine of RuntimeModel
    (server-go/bus/module_runtime.go:112-128, 196-429). */
module RuntimeLoop {
  import opened Bytes
  import opened Wire
  import opened ModuleProtocol
  import BC = BusClient
  import opened Fragments
  import opened Wrappers
  import opened CallerSend
  import opened HostSide
  import opened RuntimeModel
  import opened RuntimeInvariant
  import opened RuntimeReply
  import CallerAwait
  import RingLayout

  // ---------------------------------------------------------- stage table

  datatype Stage = Stage(kind: uint32, stageID: uint32)

  datatype ProcessConfig = ProcessConfig(
    socketPath: string, moduleName: string, principalClass: uint32, principalRef: uint32, stages: seq<Stage>)

  /** No field of a stage is zero, and no kind is given twice. */
  predicate StagesOk(stages: seq<Stage>) {
    && (forall i :: 0 <= i < |stages| ==> stages[i].kind != 0 && stages[i].stageID != 0)
    && (forall i, j :: 0 <= i < j < |stages| ==> stages[i].kind != stages[j].kind)
  }

  /** The table sends each stage's kind to its id and knows no other kind. */
  ghost predicate TableOf(stages: seq<Stage>, table: map<uint32, uint32>) {
    && (forall i :: 0 <= i < |stages| ==> stages[i].kind in table && table[stages[i].kind] == stages[i].stageID)
    && (forall k | k in table :: exists i :: 0 <= i < |stages| && stages[i].kind == k)
  }

  lemma OneMoreStage(stages: seq<Stage>, n: nat, table: map<uint32, uint32>)
    requires n < |stages| && TableOf(stages[..n], table) && StagesOk(stages[..n])
    ensures var stage := stages[n];
            if stage.kind == 0 || stage.stageID == 0 || stage.kind in table then !StagesOk(stages)
            else StagesOk(stages[..n + 1]) && TableOf(stages[..n + 1], table[stage.kind := stage.stageID])
  {
    var stage, few, more := stages[n], stages[..n], stages[..n + 1];
    if stage.kind in table {
      var i :| 0 <= i < |few| && few[i].kind == stage.kind;
      assert stages[i].kind == stages[n].kind;
    } else {
      var grown := table[stage.kind := stage.stageID];
      forall k | k in grown ensures exists i :: 0 <= i < |more| && more[i].kind == k {
        if k == stage.kind {
          assert more[n].kind == k;
        } else {
          var i :| 0 <= i < |few| && few[i].kind == k;
          assert more[i].kind == k;
        }
      }
      assert forall i :: 0 <= i < n ==> more[i] == few[i];
    }
  }

  lemma TableIsOk(stages: seq<Stage>, table: map<uint32, uint32>, hasHandler: bool)
    requires StagesOk(stages) && TableOf(stages, table)
    ensures ConfigOk(Config(table, hasHandler))
  {
  }

  /** Checks the configuration and builds the stage table. */
  method ValidateConfig(config: ProcessConfig) returns (r: Option<map<uint32, uint32>>)
    ensures r.Some? <==>
      && config.socketPath != "" && config.moduleName != "" && config.principalClass != 0 && config.principalRef != 0
      && config.stages != [] && StagesOk(config.stages)
    ensures r.Some? ==> TableOf(config.stages, r.value)
    ensures r.Some? ==> ConfigOk(Config(r.value, true)) && ConfigOk(Config(r.value, false))
  {
    if config.socketPath == "" || config.moduleName == "" || config.principalClass == 0 || config.principalRef == 0
       || config.stages == [] {
      return None;
    }
    var stages := config.stages;
    var table: map<uint32, uint32> := map[];
    assert StagesOk(stages[..0]) && TableOf(stages[..0], table);
    hide StagesOk, TableOf, ConfigOk;
    for n := 0 to |stages|
      invariant StagesOk(stages[..n]) && TableOf(stages[..n], table)
    {
      OneMoreStage(stages, n, table);
      var stage := stages[n];
      if stage.kind == 0 || stage.stageID == 0 {
        return None;
      }
      if stage.kind in table {
        return None;
      }
      table := table[stage.kind := stage.stageID];
    }
    assert stages[..|stages|] == stages;
    TableIsOk(stages, table, true);
    TableIsOk(stages, table, false);
    return Some(table);
  }

  // --------------------------------------------------------------- worker

  /** The end of a worker, in the order the source decides it. */
  method RunHandler(w: Work, response: Bytes, returned: uint16, cancelled: bool, clock: uint64) returns (r: Result)
    ensures r == Outcome(w, response, returned, cancelled, clock)
    ensures r.work == w
    ensures if cancelled then r.status == 2 && r.body == []
            else if w.deadline != 0 && clock != 0 && clock >= w.deadline then r.status == 3 && r.body == []
            else if returned > 5 || |response| > 0x100_0000 then r.status == 5 && r.body == []
            else if returned != 0 then r.status == returned && r.body == []
            else r.status == 0 && r.body == response
  {
    var body, status := response, returned;
    if status > STATUS_INTERNAL || |body| > MAX_BODY {
      status, body := STATUS_INTERNAL, [];
    } else if status != STATUS_OK {
      body := [];
    }
    if cancelled {
      status, body := STATUS_CANCELLED, [];
    } else if w.deadline != 0 {
      if clock != 0 && clock >= w.deadline {
        status, body := STATUS_DEADLINE_EXCEEDED, [];
      }
    }
    return Result(w, body, status);
  }

  // -------------------------------------------------- replies on the wire

  /** The fragments of a run of replies. */
  function Streams(replies: seq<Reply>, chunk: nat): seq<Packet>
    requires chunk > 0
  {
    if replies == [] then []
    else Streams(replies[..|replies| - 1], chunk) + ReplyStream(replies[|replies| - 1], chunk)
  }

  /** What is on the wire after one more reply. */
  lemma OneMoreReply(replies: seq<Reply>, r: Reply, chunk: nat)
    requires chunk > 0
    ensures Streams(replies + [Normalised(r)], chunk) == Streams(replies, chunk) + ReplyStream(r, chunk)
  {
    SameStream(r, chunk);
    hide ReplyStream, Normalised;
    assert (replies + [Normalised(r)])[..|replies|] == replies;
  }

  lemma SameStream(r: Reply, chunk: nat)
    requires chunk > 0
    ensures ReplyStream(Normalised(r), chunk) == ReplyStream(r, chunk)
  {
    hide Stream, Chunks;
  }

  lemma DropAbsent(m: map<uint64, Assembly>, c: uint64)
    requires c !in m
    ensures m - {c} == m
  {
  }

  lemma PutThenDrop(m: map<uint64, Assembly>, c: uint64, a: Assembly)
    ensures m[c := a] - {c} == m - {c}
  {
  }

  lemma PutTwice(m: map<uint64, Assembly>, c: uint64, a: Assembly, b: Assembly)
    ensures m[c := a][c := b] == m[c := b]
  {
  }

  // ------------------------------------------------------------- the loop

  /** One step of a worker: it decides its result, or sends the one it decided. */
  datatype WorkerAct =
    | Decides(w: Work, response: Bytes, status: uint16, clock: uint64)
    | Sends(w: Work)

  /** How a handler returns, and the clock when it does. */
  datatype HandlerEnd = HandlerEnd(response: Bytes, status: uint16, clock: uint64)

  /** The surroundings of one turn of the serving loop: what the workers do before
      each look into the channel, what happens around each attempt to publish, and
      what the host has done when the loop looks at the epoch and when it polls. */
  datatype Tick = Tick(
    workers: seq<seq<WorkerAct>>, waits: seq<Wait>, contextOver: bool,
    arrivals: seq<Bytes>, epoch: uint64, pollEpoch: uint64, now: uint64)

  class Runtime {
    const client: BC.Client
    const cfg: Config
    var assemblies: map<uint64, Assembly>
    var jobs: map<uint64, Work>
    var done: seq<Result>
    var running: set<Work>
    var decided: map<Work, Result>
    var cancelled: set<nat>
    var nextId: nat
    var phase: Phase
    ghost var replies: seq<Reply>

    ghost function Now(): State
      reads this
    {
      State(phase, assemblies, jobs, running, decided, done, cancelled, nextId, replies)
    }

    /** What the client had sent before this process served it. */
    ghost const earlier: seq<Packet>

    /** The packets in the outbound log are exactly the fragments of the replies,
        one reply after the other. */
    ghost predicate OnWire()
      reads this`replies, client.outbound`log
    {
      if client.inlineBudget > HEADER_LEN
      then Packets(client.outbound.log) == earlier + Streams(replies, client.inlineBudget - HEADER_LEN)
      else replies == []
    }

    /** The host is the one the client attached to, whenever a turn looks. */
    ghost predicate Alive(tick: Tick) {
      client.control && tick.epoch == client.attachedEpoch && tick.pollEpoch == client.attachedEpoch
    }

    constructor (client: BC.Client, cfg: Config)
      ensures Now() == IDLE && this.client == client && this.cfg == cfg && OnWire()
      ensures earlier == Packets(client.outbound.log)
    {
      this.client, this.cfg := client, cfg;
      earlier := Packets(client.outbound.log);
      assemblies, jobs, done, running, decided, cancelled := map[], map[], [], {}, map[], {};
      nextId, phase, replies := 0, Serving, [];
    }

    /** Sends one terminal reply, or gives up serving. */
    method SendReply(reply: Reply, waits: seq<Wait>, from: nat) returns (sent: bool, next: nat)
      requires client.Valid() && phase.Serving? && OnWire() && from <= |waits|
      modifies this`phase, this`replies
      modifies client`hostEpoch, client.outbound`log, client.outbound`taken, client.outbound.mem
      ensures client.Valid() && from <= next <= |waits|
      ensures Now() == Answer(old(Now()), reply, sent)
      ensures sent ==> OnWire()
    {
      hide RingLayout.Holds, SentFirst, ReplyStream, Packets, Streams;
      ghost var log := client.outbound.log;
      var end;
      end, next := ReplyResult(client, reply, waits, from);
      if end != ReplySent {
        phase := Stopped;
        return false, next;
      }
      SentAll(log, client.outbound.log, ReplyStream(reply, client.inlineBudget - HEADER_LEN));
      OneMoreReply(replies, reply, client.inlineBudget - HEADER_LEN);
      replies := replies + [Normalised(reply)];
      return true, next;
    }

    /** One polled event: entered in the tables, and answered if it is refused. */
    method OnEvent(p: Packet, now: uint64, waits: seq<Wait>, from: nat) returns (sent: bool)
      requires client.Valid() && phase.Serving? && OnWire() && from <= |waits|
      modifies this
      modifies client`hostEpoch, client.outbound`log, client.outbound`taken, client.outbound.mem
      ensures client.Valid()
      ensures Now() == Step(old(Now()), cfg, Handle(p, now, sent))
      ensures phase.Serving? ==> OnWire()
    {
      hide BC.Client.Valid, RingLayout.Holds, OnWire, Judge, Normalised;
      var v := Triage(p, now);
      sent := true;
      if v.Refuse? {
        var next;
        sent, next := SendReply(v.reply, waits, from);
      }
    }

    /** The branches of the loop body, in the source's order. A refusal is returned
        for the caller to send. */
    method Triage(p: Packet, now: uint64) returns (v: Verdict)
      modifies this`assemblies, this`jobs, this`running, this`cancelled, this`nextId
      ensures v == Judge(old(Now()), cfg, p, now)
      ensures Now() == Enter(old(Now()), p.correlation, v)
    {
      hide DecodePayload, Has, Assemble;
      var correlation := p.correlation;
      if Has(p.flags, F_CANCEL) {
        if correlation in jobs {
          cancelled := cancelled + {jobs[correlation].id};
        }
        assemblies := assemblies - {correlation};
        return CancelRequest;
      }
      if !Has(p.flags, F_REQUEST) {
        return NotForUs;
      }
      var expected := if p.kind in cfg.stages then cfg.stages[p.kind] else 0;
      var decoded := DecodePayload(p.payload);
      var invalid := expected == 0 || decoded.None? || decoded.value.operation != OP_INVOKE
                     || decoded.value.stageID != expected || correlation in jobs;
      if !invalid && correlation in assemblies {
        var a := assemblies[correlation];
        invalid := a.kind != p.kind || a.message.stageID != decoded.value.stageID
                   || a.message.deadline != decoded.value.deadline || a.message.trace != decoded.value.trace;
      }
      if invalid {
        assemblies := assemblies - {correlation};
        var stageID := if expected == 0 then 1 else expected;
        return Refuse(Reply(p.kind, correlation, stageID, 0, STATUS_INVALID_REQUEST, []));
      }
      v := OnFragment(p, decoded.value, expected, now);
    }

    /** A fragment that belongs to a request of ours: assembled, refused, or the
        one that starts the job. */
    method OnFragment(p: Packet, message: Message, expected: uint32, now: uint64) returns (v: Verdict)
      requires DecodePayload(p.payload) == Some(message) && expected == ExpectedStage(cfg, p.kind)
      modifies this`assemblies, this`jobs, this`running, this`nextId
      ensures v == Assemble(old(Now()), cfg, p, message, now)
      ensures Now() == Enter(old(Now()), p.correlation, v)
    {
      hide DecodePayload, Has, Complete, ExpectedStage, DeadlineExpired;
      var correlation := p.correlation;
      ghost var s, before := Now(), assemblies;
      if correlation !in assemblies {
        if |assemblies| >= MAX_IN_FLIGHT {
          DropAbsent(before, correlation);
          return Refuse(Reply(p.kind, correlation, expected, message.trace, STATUS_INTERNAL, []));
        }
        assemblies := assemblies[correlation := Assembly(p.kind, message, [])];
      }
      var assembly := assemblies[correlation];
      var part := BodyOf(p.payload);
      ghost var grown := assembly.(body := assembly.body + part);
      PutThenDrop(before, correlation, assembly);
      PutTwice(before, correlation, assembly, grown);
      PutThenDrop(before, correlation, grown);
      if |assembly.body| + |part| > MAX_BODY {
        assemblies := assemblies - {correlation};
        return Refuse(Reply(p.kind, correlation, expected, message.trace, STATUS_INTERNAL, []));
      }
      assembly := assembly.(body := assembly.body + part);
      assemblies := assemblies[correlation := assembly];
      if Has(p.flags, F_MORE) {
        return Absorb(assembly);
      }
      assemblies := assemblies - {correlation};
      v := OnComplete(s, p, message, expected, assembly.body, now);
    }

    /** The last fragment is in. */
    method OnComplete(ghost s: State, p: Packet, message: Message, expected: uint32, body: Bytes, now: uint64)
        returns (v: Verdict)
      requires s.jobs == jobs && s.nextId == nextId && expected == ExpectedStage(cfg, p.kind)
      modifies this`jobs, this`running, this`nextId
      ensures v == Complete(s, cfg, p, message, body, now)
      ensures v.Refuse? || v.Start?
      ensures v.Refuse? ==> Now() == old(Now())
      ensures v.Start? ==>
        Now() == old(Now()).(jobs := old(jobs)[p.correlation := v.work], running := old(running) + {v.work},
                             nextId := old(nextId) + 1)
    {
      var correlation := p.correlation;
      if DeadlineExpired(message, now) {
        return Refuse(Reply(p.kind, correlation, expected, message.trace, STATUS_DEADLINE_EXCEEDED, []));
      }
      if !cfg.hasHandler {
        return Refuse(Reply(p.kind, correlation, expected, message.trace, STATUS_CAPABILITY_ABSENT, []));
      }
      if |jobs| >= MAX_IN_FLIGHT {
        return Refuse(Reply(p.kind, correlation, expected, message.trace, STATUS_INTERNAL, []));
      }
      var work := Work(nextId, p.kind, correlation, expected, message.deadline, message.trace, body);
      jobs := jobs[correlation := work];
      running := running + {work};
      nextId := nextId + 1;
      return Start(work);
    }

    /** A worker's handler has returned: the worker loads the cancel flag and the
        clock and decides its result. */
    method WorkerDecides(w: Work, response: Bytes, status: uint16, clock: uint64)
      requires Inv(Now()) && w in running && w !in decided
      modifies this`decided
      ensures Now() == Step(old(Now()), cfg, Decide(w, response, status, clock))
      ensures Inv(Now())
    {
      hide Inv, Outcome;
      StepKeepsInv(Now(), cfg, Decide(w, response, status, clock));
      var r := RunHandler(w, response, status, w.id in cancelled, clock);
      decided := decided[w := r];
    }

    /** The worker sends its result into the channel, where there is always room. */
    method WorkerSends(w: Work)
      requires Inv(Now()) && w in running && w in decided
      modifies this`running, this`decided, this`done
      ensures Now() == Step(old(Now()), cfg, Send(w))
      ensures Inv(Now())
    {
      hide Inv, Outcome;
      RoomForResult(Now(), w);
      StepKeepsInv(Now(), cfg, Send(w));
      var r := decided[w];
      running, decided := running - {w}, decided - {w};
      done := done + [r];
    }

    /** The loop takes one result from the channel and answers it. */
    method FinishWork(waits: seq<Wait>, from: nat) returns (sent: bool, next: nat)
      requires client.Valid() && phase.Serving? && OnWire() && done != [] && from <= |waits|
      modifies this
      modifies client`hostEpoch, client.outbound`log, client.outbound`taken, client.outbound.mem
      ensures client.Valid() && from <= next <= |waits|
      ensures Now() == Step(old(Now()), cfg, Collect(sent))
      ensures phase.Serving? ==> OnWire()
    {
      hide BC.Client.Valid, RingLayout.Holds, OnWire, Normalised;
      var result := done[0];
      done := done[1..];
      jobs := jobs - {result.work.correlation};
      sent, next := SendReply(ReplyFor(result), waits, from);
    }

    /** The context is over: flag every job, then receive until none is left, a
        worker going on as `late` says whenever the channel is empty. */
    method Shutdown(late: Work -> HandlerEnd) returns (ghost trace: seq<Action>)
      requires Inv(Now()) && phase.Serving?
      modifies this`phase, this`jobs, this`done, this`running, this`decided, this`cancelled
      ensures Now() == Run(old(Now()), cfg, trace) && Inv(Now()) && Given(trace) == []
      ensures trace != [] && trace[0] == ContextEnds
      ensures phase.Stopped? && jobs == map[] && running == {} && done == [] && decided == map[]
      ensures replies == old(replies)
    {
      hide Step, Inv, OnWire, WorkerStep, DrainWork, Run;
      ghost var s := Now();
      StepKeepsInv(s, cfg, ContextEnds);
      JoinStep(s, cfg, [], ContextEnds);
      NoSteps(s, cfg);
      trace := [] + [ContextEnds];
      SetFlags();
      while jobs != map[]
        invariant Inv(Now()) && replies == old(replies)
        invariant phase == if jobs == map[] then Stopped else Draining
        invariant Now() == Run(s, cfg, trace) && Given(trace) == []
        invariant trace != [] && trace[0] == ContextEnds
        decreases DrainWork(Now())
      {
        DrainIsOpen(Now());
        ghost var a: Action;
        if done == [] {
          var w :| w in running;
          var end := late(w);
          WorkerProgress(Now(), cfg, w, end.response, end.status, end.clock);
          a := WorkerStep(Now(), w, end.response, end.status, end.clock);
          WorkerGoesOn(w, end);
        } else {
          a := Drain;
          StepKeepsInv(Now(), cfg, Drain);
          ReceiveProgress(Now(), cfg);
          TakeOne();
        }
        JoinStep(s, cfg, trace, a);
        trace := trace + [a];
      }
      NothingLeft(Now());
    }

    method WorkerGoesOn(w: Work, end: HandlerEnd)
      requires Inv(Now()) && w in running
      modifies this`running, this`decided, this`done
      ensures Now() == Step(old(Now()), cfg, WorkerStep(old(Now()), w, end.response, end.status, end.clock))
      ensures !WorkerStep(old(Now()), w, end.response, end.status, end.clock).Handle?
      ensures Inv(Now())
    {
      hide Inv, Step;
      if w in decided {
        WorkerSends(w);
      } else {
        WorkerDecides(w, end.response, end.status, end.clock);
      }
    }

    method SetFlags()
      requires phase.Serving?
      modifies this`phase, this`cancelled
      ensures Now() == Step(old(Now()), cfg, ContextEnds)
      ensures phase == if jobs == map[] then Stopped else Draining
    {
      cancelled := cancelled + (set c | c in jobs :: jobs[c].id);
      phase := if jobs == map[] then Stopped else Draining;
    }

    method TakeOne()
      requires phase.Draining? && done != []
      modifies this`phase, this`jobs, this`done
      ensures Now() == Step(old(Now()), cfg, Drain)
      ensures phase == if jobs == map[] then Stopped else Draining
    {
      var result := done[0];
      done := done[1..];
      jobs := jobs - {result.work.correlation};
      phase := if jobs == map[] then Stopped else Draining;
    }

    /** Workers go on, in the order given; what a worker cannot do now is passed
        over. */
    method WorkersAct(acts: seq<WorkerAct>) returns (ghost trace: seq<Action>)
      requires Inv(Now())
      modifies this`running, this`decided, this`done
      ensures Now() == Run(old(Now()), cfg, trace) && Inv(Now()) && Given(trace) == []
    {
      hide Inv, Step;
      ghost var s := Now();
      trace := [];
      for i := 0 to |acts|
        invariant Inv(Now()) && Now() == Run(s, cfg, trace) && Given(trace) == []
      {
        match acts[i]
        case Decides(w, response, status, clock) =>
          if w in running && w !in decided {
            WorkerDecides(w, response, status, clock);
            JoinStep(s, cfg, trace, Decide(w, response, status, clock));
            trace := trace + [Decide(w, response, status, clock)];
          }
        case Sends(w) =>
          if w in running && w in decided {
            WorkerSends(w);
            JoinStep(s, cfg, trace, Send(w));
            trace := trace + [Send(w)];
          }
      }
    }

    /** The host publishes slots in the inbound ring, and an epoch. */
    method HostActs(arrivals: seq<Bytes>, epoch: uint64)
      requires client.Valid()
      modifies client`hostEpoch, client.inbound`log, client.inbound.mem
      ensures client.Valid() && client.Passed() == old(client.Passed()) && client.hostEpoch == epoch
      ensures old(client.inbound.log) <= client.inbound.log
    {
      hide RingLayout.Holds;
      for i := 0 to |arrivals|
        invariant client.Valid() && client.Passed() == old(client.Passed())
        invariant old(client.inbound.log) <= client.inbound.log
      {
        Deliver(client, arrivals[i]);
      }
      client.hostEpoch := epoch;
    }

    /** Empties the channel, answering each result; workers can go on before each
        look into it. Ends with the channel empty, or stopped by a reply that could
        not be sent. */
    method AnswerDone(workers: seq<seq<WorkerAct>>, waits: seq<Wait>) returns (ghost trace: seq<Action>, next: nat)
      requires client.Valid() && phase.Serving? && OnWire() && Inv(Now())
      modifies this
      modifies client`hostEpoch, client.outbound`log, client.outbound`taken, client.outbound.mem
      ensures client.Valid() && client.Passed() == old(client.Passed()) && next <= |waits|
      ensures Now() == Run(old(Now()), cfg, trace) && Inv(Now()) && Given(trace) == []
      ensures phase.Serving? ==> OnWire() && done == []
      ensures phase.Serving? || (phase.Stopped? && trace != [] && trace[|trace| - 1] == Collect(false))
    {
      hide RingLayout.Holds, Inv, Step, OnWire;
      ghost var s := Now();
      trace, next := [], 0;
      var i := 0;
      while i < |workers| || done != []
        invariant 0 <= i <= |workers| && next <= |waits|
        invariant client.Valid() && client.Passed() == old(client.Passed())
        invariant phase.Serving? && OnWire() && Inv(Now())
        invariant Now() == Run(s, cfg, trace) && Given(trace) == []
        decreases |workers| - i, |done|
      {
        ghost var more := [];
        if i < |workers| {
          more := WorkersAct(workers[i]);
          i := i + 1;
        }
        JoinRuns(s, cfg, trace, more);
        trace := trace + more;
        if done != [] {
          var sent := true;
          ghost var t := Now();
          sent, next := FinishWork(waits, next);
          ghost var a := Collect(sent);
          StepKeepsInv(t, cfg, a);
          JoinStep(s, cfg, trace, a);
          CollectEffect(t, cfg, sent);
          trace := trace + [a];
          if !sent {
            return;
          }
        }
      }
    }

    /** What a turn comes to, in the order the source decides it: after the results
        waiting in the channel (`mid`), the end of the context, a host that has gone,
        or one poll. */
    ghost predicate TurnEnds(tick: Tick, mid: State, rest: seq<Action>, t: State, log: seq<Bytes>, start: nat, at: nat)
      requires start <= |log|
    {
      if mid.phase.Stopped? then rest == [] && at == start && t == mid
      else
        && mid.phase.Serving? && mid.done == []
        && if tick.contextOver then
             && rest != [] && rest[0] == ContextEnds && at == start
             && t.phase.Stopped? && t.jobs == map[] && t.running == {} && t.done == [] && t.replies == mid.replies
           else if !Alive(tick) then rest == [Leave] && at == start && t.phase.Stopped?
           else if start == |log| then rest == [] && at == start && t.phase.Serving?
           else
             match BC.ViewOf(log[start])
             case Skipped => rest == [] && at == start + 1 && t.phase.Serving?
             case Faulty => rest == [Leave] && at == start && t.phase.Stopped?
             case Delivered(e) =>
               && |rest| == 1 && rest[0].Handle? && rest[0].p == PacketOf(e) && rest[0].now == tick.now
               && at == start + 1 && (t.phase.Stopped? ==> !rest[0].sent)
    }

    /** One turn: answer what is done, stop if the context is over or the host has
        gone, then poll and handle one event. Every turn is a run of the state
        machine, over exactly the events polled, and comes to what it should. */
    method Turn(tick: Tick, late: Work -> HandlerEnd) returns (ghost settled: seq<Action>, ghost rest: seq<Action>)
      requires client.Valid() && phase.Serving? && OnWire() && Inv(Now())
      modifies this, client`hostEpoch, client`pendingRead
      modifies client.inbound`taken, client.inbound`log, client.inbound.mem
      modifies client.outbound`log, client.outbound`taken, client.outbound.mem
      ensures client.Valid() && (phase.Serving? || phase.Stopped?)
      ensures Now() == Run(Run(old(Now()), cfg, settled), cfg, rest) && Inv(Now())
      ensures phase.Serving? ==> OnWire()
      ensures old(client.inbound.log) <= client.inbound.log
      ensures old(client.Passed()) <= client.Passed() <= |client.inbound.log|
      ensures Given(settled) == [] && Packets(client.inbound.log[old(client.Passed())..client.Passed()]) == Given(rest)
      ensures TurnEnds(tick, Run(old(Now()), cfg, settled), rest, Now(), client.inbound.log, old(client.Passed()),
                       client.Passed())
      ensures Run(old(Now()), cfg, settled).phase.Stopped? ==>
        settled != [] && settled[|settled| - 1] == Collect(false)
    {
      hide RingLayout.Holds, Inv, Step, OnWire, Packets, BC.ViewOf, Run, Given;
      ghost var start := client.Passed();
      assert |client.inbound.Contents()| == |client.inbound.log| - client.inbound.taken;
      var next;
      settled, next := AnswerDone(tick.workers, tick.waits);
      rest := [];
      NothingPolled(client.inbound.log, start, Now(), cfg);
      if phase.Stopped? {
        return;
      }
      if tick.contextOver {
        rest := Shutdown(late);
        return;
      }
      rest := LookAndPoll(tick);
    }

    /** The second half of a turn: the host's epoch, then the poll. */
    method LookAndPoll(tick: Tick) returns (ghost rest: seq<Action>)
      requires client.Valid() && phase.Serving? && OnWire() && Inv(Now()) && done == [] && !tick.contextOver
      modifies this, client`hostEpoch, client`pendingRead
      modifies client.inbound`taken, client.inbound`log, client.inbound.mem
      modifies client.outbound`log, client.outbound`taken, client.outbound.mem
      ensures client.Valid() && (phase.Serving? || phase.Stopped?)
      ensures Now() == Run(old(Now()), cfg, rest) && Inv(Now())
      ensures phase.Serving? ==> OnWire()
      ensures old(client.inbound.log) <= client.inbound.log
      ensures old(client.Passed()) <= client.Passed() <= |client.inbound.log|
      ensures Packets(client.inbound.log[old(client.Passed())..client.Passed()]) == Given(rest)
      ensures TurnEnds(tick, old(Now()), rest, Now(), client.inbound.log, old(client.Passed()), client.Passed())
    {
      hide RingLayout.Holds, Inv, Step, OnWire, Packets, BC.ViewOf, Run, Given, TurnEnds;
      ghost var s, start := Now(), client.Passed();
      HostActs(tick.arrivals, tick.epoch);
      assert |client.inbound.Contents()| == |client.inbound.log| - client.inbound.taken;
      NothingPolled(client.inbound.log, start, s, cfg);
      if client.EpochChanged() {
        rest := LeaveNow();
        EndsGone(tick, s, Now(), client.inbound.log, start);
        return;
      }
      client.hostEpoch := tick.pollEpoch;
      rest := PollOnce(tick);
    }

    /** The poll, and what becomes of the event. */
    method PollOnce(tick: Tick) returns (ghost rest: seq<Action>)
      requires client.Valid() && phase.Serving? && OnWire() && Inv(Now()) && done == [] && !tick.contextOver
      requires !client.control || tick.epoch == client.attachedEpoch
      requires client.hostEpoch == tick.pollEpoch
      modifies this, client`hostEpoch, client`pendingRead
      modifies client.inbound`taken, client.inbound.mem
      modifies client.outbound`log, client.outbound`taken, client.outbound.mem
      ensures client.Valid() && (phase.Serving? || phase.Stopped?)
      ensures Now() == Run(old(Now()), cfg, rest) && Inv(Now())
      ensures phase.Serving? ==> OnWire()
      ensures old(client.Passed()) <= client.Passed() <= |client.inbound.log|
      ensures Packets(client.inbound.log[old(client.Passed())..client.Passed()]) == Given(rest)
      ensures TurnEnds(tick, old(Now()), rest, Now(), client.inbound.log, old(client.Passed()), client.Passed())
    {
      hide RingLayout.Holds, Inv, Step, OnWire, Packets, BC.ViewOf, Run, Given, TurnEnds;
      ghost var s, start := Now(), client.Passed();
      assert |client.inbound.Contents()| == |client.inbound.log| - client.inbound.taken;
      NothingPolled(client.inbound.log, start, s, cfg);
      var polled := client.Poll();
      if polled.NothingYet? {
        rest := [];
        if client.Passed() > start {
          CallerAwait.SkippedSeen(client.inbound.log, start, start);
        }
        EndsQuietly(tick, s, client.inbound.log, start, client.Passed());
      } else if polled.Polled? {
        OnePolled(client.inbound.log, start, polled.event);
        rest := HandleOne(PacketOf(polled.event), tick);
        EndsHandled(tick, s, rest, Now(), client.inbound.log, start, polled.event);
      } else {
        rest := LeaveNow();
        EndsFaulty(tick, s, Now(), client.inbound.log, start);
      }
    }

    /** The loop returns. */
    method LeaveNow() returns (ghost rest: seq<Action>)
      requires phase.Serving? && Inv(Now())
      modifies this`phase
      ensures Now() == Run(old(Now()), cfg, rest) && Inv(Now()) && Given(rest) == []
      ensures rest == [Leave] && phase.Stopped?
    {
      hide Inv, Step;
      ghost var s := Now();
      StepKeepsInv(s, cfg, Leave);
      JoinStep(s, cfg, [], Leave);
      LeaveEffect(s, cfg);
      NoSteps(s, cfg);
      rest := [] + [Leave];
      phase := Stopped;
    }

    lemma EndsGone(tick: Tick, s: State, t: State, log: seq<Bytes>, start: nat)
      requires start <= |log| && s.phase.Serving? && s.done == [] && t.phase.Stopped?
      requires !tick.contextOver && !Alive(tick)
      ensures TurnEnds(tick, s, [Leave], t, log, start, start)
    {
    }

    lemma EndsQuietly(tick: Tick, s: State, log: seq<Bytes>, start: nat, at: nat)
      requires start <= |log| && s.phase.Serving? && s.done == [] && !tick.contextOver && Alive(tick)
      requires at == start == |log| || (at == start + 1 && start < |log| && BC.ViewOf(log[start]) == BC.Skipped)
      ensures TurnEnds(tick, s, [], s, log, start, at)
    {
      hide BC.ViewOf;
    }

    lemma EndsHandled(tick: Tick, s: State, rest: seq<Action>, t: State, log: seq<Bytes>, start: nat, e: BC.Event)
      requires start < |log| && s.phase.Serving? && s.done == [] && !tick.contextOver && Alive(tick)
      requires BC.ViewOf(log[start]) == BC.Delivered(e)
      requires |rest| == 1 && rest[0].Handle? && rest[0].p == PacketOf(e) && rest[0].now == tick.now
      requires t.phase.Stopped? ==> !rest[0].sent
      ensures TurnEnds(tick, s, rest, t, log, start, start + 1)
    {
      hide BC.ViewOf;
    }

    lemma EndsFaulty(tick: Tick, s: State, t: State, log: seq<Bytes>, start: nat)
      requires start <= |log| && s.phase.Serving? && s.done == [] && !tick.contextOver && t.phase.Stopped?
      requires !Alive(tick) || (start < |log| && BC.ViewOf(log[start]) == BC.Faulty)
      ensures TurnEnds(tick, s, [Leave], t, log, start, start)
    {
      hide BC.ViewOf;
    }

    method HandleOne(p: Packet, tick: Tick) returns (ghost trace: seq<Action>)
      requires client.Valid() && phase.Serving? && OnWire() && Inv(Now())
      modifies this
      modifies client`hostEpoch, client.outbound`log, client.outbound`taken, client.outbound.mem
      ensures client.Valid() && (phase.Serving? || phase.Stopped?)
      ensures Now() == Run(old(Now()), cfg, trace) && Inv(Now()) && Given(trace) == [p]
      ensures |trace| == 1 && trace[0].Handle? && trace[0].p == p && trace[0].now == tick.now
      ensures phase.Stopped? ==> !trace[0].sent
      ensures phase.Serving? ==> OnWire()
    {
      hide RingLayout.Holds, Inv, Step, OnWire;
      ghost var s := Now();
      var sent := OnEvent(p, tick.now, tick.waits, 0);
      ghost var a := Handle(p, tick.now, sent);
      StepKeepsInv(s, cfg, a);
      JoinStep(s, cfg, [], a);
      HandleEffect(s, cfg, a);
      trace := [] + [a];
    }

    /** Why a service has ended: a reply could not be sent, the host had gone or a slot
        faulted, or the context was over and nothing is left. */
    ghost predicate Ended(trace: seq<Action>, t: State) {
      && trace != []
      && var last := trace[|trace| - 1];
         || last == Collect(false) || (last.Handle? && !last.sent) || last == Leave
         || (t.jobs == map[] && t.running == {} && t.done == [])
    }

    /** Serves turn after turn until the loop returns. Whatever the interleaving, the
        runtime's state is a run of the state machine over exactly the events polled.
        If it is still serving, every turn found the host alive and the context open,
        the outbound log is exactly the fragments of its replies, and each turn took an
        event as long as the slots there at the start lasted. */
    method Serve(world: seq<Tick>, late: Work -> HandlerEnd) returns (ghost trace: seq<Action>)
      requires client.Valid() && phase.Serving? && OnWire() && Inv(Now())
      modifies this, client`hostEpoch, client`pendingRead
      modifies client.inbound`taken, client.inbound`log, client.inbound.mem
      modifies client.outbound`log, client.outbound`taken, client.outbound.mem
      ensures client.Valid() && (phase.Serving? || phase.Stopped?)
      ensures Now() == Run(old(Now()), cfg, trace) && Inv(Now())
      ensures old(client.inbound.log) <= client.inbound.log
      ensures old(client.Passed()) <= client.Passed() <= |client.inbound.log|
      ensures Packets(client.inbound.log[old(client.Passed())..client.Passed()]) == Given(trace)
      ensures phase.Serving? ==>
        && OnWire()
        && (forall i :: 0 <= i < |world| ==> !world[i].contextOver && Alive(world[i]))
        && client.Passed() >= Min(old(client.Passed()) + |world|, |old(client.inbound.log)|)
      ensures phase.Stopped? ==> Ended(trace, Now())
    {
      hide RingLayout.Holds, Inv, Step, OnWire, Packets, BC.ViewOf, Run, Given, TurnEnds, Ended;
      ghost var s, start := Now(), client.Passed();
      assert |client.inbound.Contents()| == |client.inbound.log| - client.inbound.taken;
      trace := [];
      NothingPolled(client.inbound.log, start, s, cfg);
      var i := 0;
      while i < |world| && phase.Serving?
        invariant 0 <= i <= |world| && client.Valid() && (phase.Serving? || phase.Stopped?)
        invariant Now() == Run(s, cfg, trace) && Inv(Now())
        invariant phase.Serving? ==> OnWire()
        invariant old(client.inbound.log) <= client.inbound.log
        invariant start <= client.Passed() <= |client.inbound.log|
        invariant Packets(client.inbound.log[start..client.Passed()]) == Given(trace)
        invariant phase.Serving? ==> forall j :: 0 <= j < i ==> !world[j].contextOver && Alive(world[j])
        invariant phase.Serving? ==> client.Passed() >= Min(start + i, |old(client.inbound.log)|)
        invariant phase.Stopped? ==> Ended(trace, Now())
      {
        ghost var log, passed, before := client.inbound.log, client.Passed(), Now();
        ghost var settled, rest := Turn(world[i], late);
        ghost var mid := Run(before, cfg, settled);
        JoinRuns(s, cfg, trace, settled);
        JoinRuns(s, cfg, trace + settled, rest);
        PolledSplit(log, client.inbound.log, start, passed, client.Passed());
        if phase.Serving? {
          TurnGoesOn(world[i], mid, rest, Now(), client.inbound.log, passed, client.Passed());
        } else {
          TurnHasEnded(world[i], trace, settled, mid, rest, Now(), client.inbound.log, passed, client.Passed());
        }
        assert Given(trace + settled) == Given(trace) + [] == Given(trace);
        trace := trace + settled + rest;
        i := i + 1;
      }
    }

    lemma TurnGoesOn(tick: Tick, mid: State, rest: seq<Action>, t: State, log: seq<Bytes>, start: nat, at: nat)
      requires start <= |log| && TurnEnds(tick, mid, rest, t, log, start, at) && t.phase.Serving?
      ensures !tick.contextOver && Alive(tick) && at >= Min(start + 1, |log|)
    {
      hide BC.ViewOf;
    }

    lemma TurnHasEnded(tick: Tick, trace: seq<Action>, settled: seq<Action>, mid: State, rest: seq<Action>, t: State,
                       log: seq<Bytes>, start: nat, at: nat)
      requires start <= |log| && TurnEnds(tick, mid, rest, t, log, start, at) && t.phase.Stopped?
      requires mid.phase.Stopped? ==> settled != [] && settled[|settled| - 1] == Collect(false)
      ensures Ended(trace + settled + rest, t)
    {
      hide BC.ViewOf;
      if rest != [] {
        assert (trace + settled + rest)[|trace + settled + rest| - 1] == rest[|rest| - 1];
      } else {
        assert trace + settled + rest == trace + settled;
        assert (trace + settled)[|trace + settled| - 1] == settled[|settled| - 1];
      }
    }
  }

  lemma NoSteps(s: State, cfg: Config)
    ensures Run(s, cfg, []) == s && Given([]) == []
  {
  }

  lemma NothingPolled(log: seq<Bytes>, start: nat, s: State, cfg: Config)
    requires start <= |log|
    ensures Packets(log[start..start]) == [] && Given([]) == [] && Run(s, cfg, []) == s
  {
  }

  lemma OnePolled(log: seq<Bytes>, start: nat, e: BC.Event)
    requires start < |log| && BC.ViewOf(log[start]) == BC.Delivered(e)
    ensures Packets(log[start..start + 1]) == [PacketOf(e)]
  {
    hide BC.ViewOf;
    var s := log[start..start + 1];
    assert s[..0] == [] && Packets(s[..0]) == [];
  }

  lemma PolledSplit(log: seq<Bytes>, log': seq<Bytes>, start: nat, mid: nat, end: nat)
    requires start <= mid <= end <= |log'| && mid <= |log| && log <= log'
    ensures Packets(log'[start..end]) == Packets(log[start..mid]) + Packets(log'[mid..end])
  {
    hide Packets;
    PacketsSplit(log'[start..mid], log'[mid..end]);
    assert log'[start..mid] + log'[mid..end] == log'[start..end];
    assert log'[start..mid] == log[start..mid];
  }

  /** Collecting while serving either keeps serving or stops the loop. */
  lemma CollectEffect(s: State, cfg: Config, sent: bool)
    requires s.phase.Serving? && s.done != []
    ensures var t := Step(s, cfg, Collect(sent));
            && t.phase == (if sent then Serving else Stopped)
            && t.done == s.done[1..]
  {
    hide Normalised;
  }

  lemma LeaveEffect(s: State, cfg: Config)
    requires s.phase.Serving?
    ensures Step(s, cfg, Leave) == s.(phase := Stopped)
  {
  }

  lemma HandleEffect(s: State, cfg: Config, a: Action)
    requires s.phase.Serving? && a.Handle?
    ensures Step(s, cfg, a).phase.Serving? || (Step(s, cfg, a).phase.Stopped? && !a.sent)
  {
    hide Normalised, Judge;
  }
}
