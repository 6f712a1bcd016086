/** One call over its two endpoints: a Caller and a Runtime, each over its own
    client, and between them a relay that keeps each correlation's order
    (server-go/bus/module_caller.go:94-223, server-go/bus/module_runtime.go:293-429). */
module Endpoints {
  import opened Bytes
  import opened Wire
  import opened ModuleProtocol
  import opened Wrappers
  import BC = BusClient
  import opened Fragments
  import opened RuntimeModel
  import opened RuntimeInvariant
  import opened RequestArrival
  import opened ReplyArrival
  import opened EndToEnd
  import RuntimeLoop
  import CA = CallerAwait
  import MC = ModuleCaller
  import RA = RefusalArrival

  /** The inbound slots from `start` on can all be read. */
  ghost predicate Readable(log: seq<Bytes>, start: nat) {
    forall i :: start <= i < |log| ==> BC.ViewOf(log[i]).Delivered?
  }

  /** What Call has said of its wait when it returns. */
  ghost predicate Waited(r: MC.CallResult, kind: uint32, correlation: uint64, host: seq<CA.HostStep>, used: nat,
                         log: seq<Bytes>, start: nat, at: nat)
  {
    && MC.WentOut(r)
    && CA.WaitEnds(MC.Outcome(r), kind, correlation, host, used, log, start, at, true, false)
  }

  /** A whole reply to this call in the inbound log, among anything else, decides it:
      with a live host and readable slots Call returns its body if it is OK, and its
      status if not. */
  lemma WholeReplyEndsCall(r: MC.CallResult, env: Envelope, body: Bytes, size: nat, host: seq<CA.HostStep>, used: nat,
                           log: seq<Bytes>, start: nat, at: nat)
    requires Waited(r, env.kind, env.correlation, host, used, log, start, at)
    requires start <= |log| && Readable(log, start)
    requires Results(env)
    requires env.stageID != 0 && env.status <= STATUS_INTERNAL && |body| <= MAX_BODY && size > 0
    requires CA.Only(Packets(log[start..]), env.correlation) == Stream(env, Chunks(body, size))
    ensures MC.Outcome(r) == ReadBack(env.kind, env.status, body)
    ensures env.kind != KIND_CAPABILITY_ABSENT && env.kind != KIND_ERROR && env.status == STATUS_OK ==>
              r == MC.Returned(body)
  {
    hide CA.Only, CA.Await, Packets, Chunks, Stream, CA.WaitEnds, BC.ViewOf;
    ReplyIsRead(env, body, size, Packets(log[start..]));
    CA.DecidedWait(MC.Outcome(r), env.kind, env.correlation, host, used, log, start, at);
  }

  /** What the two ends of one call have seen of it, in the words of the contracts of
      Call and Serve: the caller sent its fragments after `before` and then waited, from
      slot `start` of its inbound `log` to slot `at`; the runtime, for `cfg`, has served
      from idle, from slot `from` on; and the host relayed the caller's packets to the
      runtime as `m`, and the runtime's packets of `m` back. */
  ghost predicate BothEnds(caller: MC.Caller, runtime: RuntimeLoop.Runtime, cfg: Config, kind: uint32, stageID: uint32,
                           deadline: uint64, trace: uint64, request: Bytes, before: seq<Packet>, log: seq<Bytes>,
                           start: nat, at: nat, acts: seq<Action>, from: nat, m: uint64)
    reads caller, caller.client, caller.client.inbound
    reads runtime, runtime.client, runtime.client.inbound, runtime.client.outbound
  {
    var mine, its := caller.client, runtime.client;
    && mine.inlineBudget > HEADER_LEN && its.inlineBudget > HEADER_LEN
    && mine.inbound.log == log && mine.Passed() == at
    && start <= |log| && from <= its.Passed() <= |its.inbound.log|
    && runtime.cfg == cfg
    && runtime.phase.Serving? && runtime.Now() == Run(IDLE, cfg, acts) && runtime.OnWire()
    && Packets(its.inbound.log[from..its.Passed()]) == Given(acts)
    && (forall i :: 0 <= i < |before| ==> before[i].correlation != caller.correlation)
    && CA.Only(runtime.earlier, m) == []
    && Relayed(before + caller.Fragments(kind, stageID, trace, deadline, request), caller.correlation,
               Packets(its.inbound.log[from..its.Passed()]), m)
    && Relayed(Packets(its.outbound.log), m, Packets(log[start..]), caller.correlation)
  }

  /** How a call ends whose worker decided uncancelled: a late decision as deadline
      exceeded, an unknown status or an oversized response as an internal failure, any
      other failure as such, and OK with the response. The two reserved kinds are
      failures whatever comes back. */
  function CallEnd(kind: uint32, deadline: uint64, response: Bytes, status: uint16, clock: uint64): MC.CallResult {
    if kind == 4 then MC.NoReply(CA.CapabilityAbsent)
    else if kind == 3 then MC.NoReply(CA.RejectedByHost)
    else if deadline != 0 && clock != 0 && clock >= deadline then MC.NoReply(CA.StageFailed(3))
    else if status > 5 || |response| > 0x100_0000 then MC.NoReply(CA.StageFailed(5))
    else if status != 0 then MC.NoReply(CA.StageFailed(status))
    else MC.Returned(response)
  }

  /** The layers composed. A Call that got its request out and waited, over a Runtime
      that had room at each fragment and has answered: the worker was handed exactly
      the request, under the kind, stage, deadline and trace the caller gave, and Call
      ends as that worker's decision says; with an OK response within the limit and in
      time, it returns that response. */
  lemma CallComesBack(caller: MC.Caller, runtime: RuntimeLoop.Runtime, cfg: Config, kind: uint32, stageID: uint32,
                      deadline: uint64, trace: uint64, request: Bytes, before: seq<Packet>, log: seq<Bytes>,
                      start: nat, at: nat, acts: seq<Action>, from: nat, m: uint64, r: MC.CallResult,
                      host: seq<CA.HostStep>, used: nat)
    requires BothEnds(caller, runtime, cfg, kind, stageID, deadline, trace, request, before, log, start, at, acts,
                      from, m)
    requires Waited(r, kind, caller.correlation, host, used, log, start, at) && Readable(log, start)
    requires |request| <= MAX_BODY && stageID != 0 && stageID == ExpectedStage(cfg, kind)
    requires RoomAlong(IDLE, cfg, acts, m) && m !in runtime.jobs
    ensures var a := Returned(IDLE, cfg, acts, m);
            && a.Some? && a.value.Decide?
            && WorkIs(a.value.w, kind, m, stageID, deadline, trace, request)
            && r == CallEnd(kind, deadline, a.value.response, a.value.status, a.value.clock)
  {
    hide CA.Only, Packets, Chunks, Stream, CA.WaitEnds, BC.ViewOf, Run, RoomAlong, Given, Returned,
         RuntimeLoop.Streams, Relayed, Readable, Waited, BothEnds, ExpectedStage, CallEnd;
    var env := RequestEnvelope(kind, caller.correlation, stageID, deadline, trace);
    var chunk, replyChunk, earlier :=
      EndsMeans(caller, runtime, cfg, kind, stageID, deadline, trace, request, before, log, start, at, acts, from, m);
    AnswerInLog(env, request, chunk, before, cfg, acts, m, earlier, replyChunk, log, start);
    var a := Returned(IDLE, cfg, acts, m).value;
    AnswerEndsCall(r, kind, caller.correlation, a, host, used, log, start, at);
  }

  /** And where a fragment found no room: the first such fragment decides the call, which
      ends with what was lacking. */
  lemma CallIsRefused(caller: MC.Caller, runtime: RuntimeLoop.Runtime, cfg: Config, kind: uint32, stageID: uint32,
                      deadline: uint64, trace: uint64, request: Bytes, before: seq<Packet>, log: seq<Bytes>,
                      start: nat, at: nat, acts: seq<Action>, from: nat, m: uint64, r: MC.CallResult,
                      host: seq<CA.HostStep>, used: nat)
    requires BothEnds(caller, runtime, cfg, kind, stageID, deadline, trace, request, before, log, start, at, acts,
                      from, m)
    requires Waited(r, kind, caller.correlation, host, used, log, start, at) && Readable(log, start)
    requires |request| <= MAX_BODY && stageID != 0 && stageID == ExpectedStage(cfg, kind)
    requires !RoomAlong(IDLE, cfg, acts, m)
    ensures var status := RA.FirstLacking(IDLE, cfg, acts, m, deadline);
            && status in {1, 3, 5}
            && r == if kind == 4 then MC.NoReply(CA.CapabilityAbsent)
                    else if kind == 3 then MC.NoReply(CA.RejectedByHost)
                    else MC.NoReply(CA.StageFailed(status))
  {
    hide CA.Only, Packets, Chunks, Stream, CA.WaitEnds, BC.ViewOf, Run, RoomAlong, Given, RA.FirstLacking,
         RuntimeLoop.Streams, Relayed, Readable, Waited, BothEnds, ExpectedStage, RA.Failing, CA.Await, Inv;
    var env := RequestEnvelope(kind, caller.correlation, stageID, deadline, trace);
    var chunk, replyChunk, earlier :=
      EndsMeans(caller, runtime, cfg, kind, stageID, deadline, trace, request, before, log, start, at, acts, from, m);
    LogCarriesRequest(before, env, Chunks(request, chunk));
    IdleIsReady();
    RA.RefusedRoundTrip(env, request, chunk, before + Stream(env, Chunks(request, chunk)), IDLE, cfg, acts, m,
                        earlier, replyChunk, Packets(log[start..]));
    FailureEndsCall(r, kind, caller.correlation, RA.FirstLacking(IDLE, cfg, acts, m, deadline), host, used, log,
                    start, at);
  }

  lemma FailureEndsCall(r: MC.CallResult, kind: uint32, correlation: uint64, status: uint16, host: seq<CA.HostStep>,
                        used: nat, log: seq<Bytes>, start: nat, at: nat)
    requires Waited(r, kind, correlation, host, used, log, start, at) && start <= |log| && Readable(log, start)
    requires CA.Await([], Packets(log[start..]), kind, correlation) == RA.Failing(kind, status)
    ensures r == if kind == 4 then MC.NoReply(CA.CapabilityAbsent)
                 else if kind == 3 then MC.NoReply(CA.RejectedByHost)
                 else MC.NoReply(CA.StageFailed(status))
  {
    hide CA.Await, Packets, CA.WaitEnds, BC.ViewOf;
    CA.DecidedWait(MC.Outcome(r), kind, correlation, host, used, log, start, at);
  }

  lemma EndsMeans(caller: MC.Caller, runtime: RuntimeLoop.Runtime, cfg: Config, kind: uint32, stageID: uint32,
                  deadline: uint64, trace: uint64, request: Bytes, before: seq<Packet>, log: seq<Bytes>,
                  start: nat, at: nat, acts: seq<Action>, from: nat, m: uint64)
      returns (chunk: nat, replyChunk: nat, earlier: seq<Packet>)
    requires BothEnds(caller, runtime, cfg, kind, stageID, deadline, trace, request, before, log, start, at, acts,
                      from, m)
    ensures chunk > 0 && replyChunk > 0 && start <= |log|
    ensures forall i :: 0 <= i < |before| ==> before[i].correlation != caller.correlation
    ensures CA.Only(earlier, m) == []
    ensures var env := RequestEnvelope(kind, caller.correlation, stageID, deadline, trace);
            Invokes(env)
            && Relayed(before + Stream(env, Chunks(request, chunk)), caller.correlation, Given(acts), m)
    ensures var t := Run(IDLE, cfg, acts);
            && t.phase.Serving? && t.jobs == runtime.jobs
            && Relayed(earlier + RuntimeLoop.Streams(t.replies, replyChunk), m, Packets(log[start..]),
                       caller.correlation)
  {
    hide CA.Only, Packets, Chunks, Stream, BC.ViewOf, Run, Given, RuntimeLoop.Streams, Relayed;
    chunk, replyChunk := caller.client.inlineBudget - HEADER_LEN, runtime.client.inlineBudget - HEADER_LEN;
    earlier := runtime.earlier;
  }

  /** What the caller's inbound log then holds decides the call. */
  lemma AnswerInLog(env: Envelope, request: Bytes, chunk: nat, before: seq<Packet>, cfg: Config, acts: seq<Action>,
                    m: uint64, earlier: seq<Packet>, replyChunk: nat, log: seq<Bytes>, start: nat)
    requires Invokes(env)
    requires |request| <= MAX_BODY && env.stageID != 0 && env.stageID == ExpectedStage(cfg, env.kind)
    requires chunk > 0 && replyChunk > 0 && start <= |log|
    requires forall i :: 0 <= i < |before| ==> before[i].correlation != env.correlation
    requires Relayed(before + Stream(env, Chunks(request, chunk)), env.correlation, Given(acts), m)
    requires RoomAlong(IDLE, cfg, acts, m) && CA.Only(earlier, m) == []
    requires Run(IDLE, cfg, acts).phase.Serving? && m !in Run(IDLE, cfg, acts).jobs
    requires Relayed(earlier + RuntimeLoop.Streams(Run(IDLE, cfg, acts).replies, replyChunk), m,
                     Packets(log[start..]), env.correlation)
    ensures var a := Returned(IDLE, cfg, acts, m);
            && a.Some? && a.value.Decide?
            && WorkIs(a.value.w, env.kind, m, env.stageID, env.deadline, env.trace, request)
            && var result := Outcome(a.value.w, a.value.response, a.value.status, false, a.value.clock);
               CA.Await([], Packets(log[start..]), env.kind, env.correlation)
               == ReadBack(env.kind, result.status, result.body)
  {
    hide CA.Only, CA.Await, Packets, Chunks, Stream, Run, RoomAlong, Given, Returned, RuntimeLoop.Streams, Outcome,
         ReadBack, Relayed, Inv, OldFlags, RepliesTo;
    LogCarriesRequest(before, env, Chunks(request, chunk));
    IdleIsReady();
    CallRoundTrip(env, request, chunk, before + Stream(env, Chunks(request, chunk)), IDLE, cfg, acts, m,
                  earlier, replyChunk, Packets(log[start..]));
  }

  lemma AnswerEndsCall(r: MC.CallResult, kind: uint32, correlation: uint64, a: Action, host: seq<CA.HostStep>,
                       used: nat, log: seq<Bytes>, start: nat, at: nat)
    requires a.Decide? && Waited(r, kind, correlation, host, used, log, start, at)
    requires start <= |log| && Readable(log, start)
    requires var result := Outcome(a.w, a.response, a.status, false, a.clock);
             CA.Await([], Packets(log[start..]), kind, correlation) == ReadBack(kind, result.status, result.body)
    ensures r == CallEnd(kind, a.w.deadline, a.response, a.status, a.clock)
  {
    hide CA.Await, Packets, CA.WaitEnds, BC.ViewOf;
    CA.DecidedWait(MC.Outcome(r), kind, correlation, host, used, log, start, at);
  }

  lemma IdleIsReady()
    ensures Inv(IDLE) && OldFlags(IDLE) && RepliesTo(IDLE.replies, 0) == []
    ensures forall m :: RepliesTo(IDLE.replies, m) == []
  {
    IdleInv();
  }
}
