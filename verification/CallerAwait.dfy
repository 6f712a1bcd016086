/** The caller's reply loop: picks its own fragments out of everything that
    arrives and joins them (server-go/bus/module_caller.go:165-223). */
module CallerAwait {
  import opened Bytes
  import opened Wire
  import opened ModuleProtocol
  import opened BusClient
  import opened Fragments
  import opened HostSide
  import RingLayout

  datatype CallError =
    | CapabilityAbsent
    | RejectedByHost
    | StageFailed(status: uint16)
    | RuntimeFailed
    | DeadlinePassed
    | ContextEnded
    | BusFailed(why: PollResult)

  datatype Progress =
    | Collecting(body: Bytes)
    | Answered(body: Bytes)
    | Failed(why: CallError)

  /** What one polled event does to the body collected so far. */
  function AwaitStep(body: Bytes, p: Packet, kind: uint32, correlation: uint64): Progress {
    if p.correlation == correlation && p.kind == KIND_CAPABILITY_ABSENT then Failed(CapabilityAbsent)
    else if p.correlation == correlation && p.kind == KIND_ERROR then Failed(RejectedByHost)
    else if p.kind != kind || p.correlation != correlation then Collecting(body)
    else
      var m := DecodePayload(p.payload);
      if m.None? || m.value.operation != OP_RESULT then Collecting(body)
      else if m.value.status != STATUS_OK then Failed(StageFailed(m.value.status))
      else if |body| + m.value.bodyLen > MAX_BODY then Failed(RuntimeFailed)
      else if Has(p.flags, F_MORE) then Collecting(body + BodyOf(p.payload))
      else Answered(body + BodyOf(p.payload))
  }

  function Await(body: Bytes, ps: seq<Packet>, kind: uint32, correlation: uint64): Progress
    decreases |ps|
  {
    if ps == [] then Collecting(body)
    else
      match AwaitStep(body, ps[0], kind, correlation)
      case Collecting(b) => Await(b, ps[1..], kind, correlation)
      case done => done
  }

  lemma {:induction false} AwaitSplit(body: Bytes, a: seq<Packet>, b: seq<Packet>, kind: uint32, correlation: uint64)
    ensures Await(body, a + b, kind, correlation) ==
            match Await(body, a, kind, correlation)
            case Collecting(c) => Await(c, b, kind, correlation)
            case done => done
    decreases |a|
  {
    hide AwaitStep;
    if a == [] {
      assert a + b == b;
    } else {
      assert (a + b)[1..] == a[1..] + b;
      match AwaitStep(body, a[0], kind, correlation)
      case Collecting(c) => AwaitSplit(c, a[1..], b, kind, correlation);
      case _ =>
    }
  }

  /** A result of this call: not of a reserved kind, and with a well-formed envelope. */
  predicate OwnResult(p: Packet, kind: uint32, correlation: uint64) {
    && p.correlation == correlation && p.kind == kind && kind != 3 && kind != 4
    && DecodePayload(p.payload).Some? && DecodePayload(p.payload).value.operation == 2
  }

  /** What one packet does to a wait, outcome by outcome: under this correlation kind 4
      is an absent capability and kind 3 a rejection, whatever they carry; a result of
      the call with a status fails it with that status, and one that makes the body
      exceed 16 MiB as a runtime failure; one that is not followed by more answers it.
      Everything else leaves it waiting, with the body grown by a result's piece. */
  lemma PacketDecides(body: Bytes, p: Packet, kind: uint32, correlation: uint64)
    ensures var r := AwaitStep(body, p, kind, correlation);
            var own, m := OwnResult(p, kind, correlation), DecodePayload(p.payload);
            && (r == Failed(CapabilityAbsent) <==> p.correlation == correlation && p.kind == 4)
            && (r == Failed(RejectedByHost) <==> p.correlation == correlation && p.kind == 3)
            && (own && m.value.status != 0 ==> r == Failed(StageFailed(m.value.status)))
            && (own && m.value.status == 0 && |body| + m.value.bodyLen > 0x100_0000 ==> r == Failed(RuntimeFailed))
            && (own && m.value.status == 0 && |body| + m.value.bodyLen <= 0x100_0000 ==>
                  r == if Flag(p.flags, 7) then Collecting(body + BodyOf(p.payload))
                       else Answered(body + BodyOf(p.payload)))
            && (!own && (p.correlation == correlation ==> p.kind != 3 && p.kind != 4) ==> r == Collecting(body))
  {
    FlagTests(p.flags);
    hide Has, Flag, DecodePayload, BodyOf;
  }

  /** And a wait ends with the first packet that ends it. */
  lemma {:induction false} FirstDecides(body: Bytes, ps: seq<Packet>, kind: uint32, correlation: uint64)
      returns (i: nat)
    requires !Await(body, ps, kind, correlation).Collecting?
    ensures i < |ps|
    ensures var before := Await(body, ps[..i], kind, correlation);
            before.Collecting?
            && AwaitStep(before.body, ps[i], kind, correlation) == Await(body, ps, kind, correlation)
    decreases |ps|
  {
    hide AwaitStep;
    match AwaitStep(body, ps[0], kind, correlation)
    case Collecting(c) =>
      var j := FirstDecides(c, ps[1..], kind, correlation);
      i := j + 1;
      assert ps[..i][1..] == ps[1..][..j];
    case _ =>
      i := 0;
  }

  // -------------------------------------------------------------- isolation

  /** The packets of one correlation, in order. */
  function Only(ps: seq<Packet>, correlation: uint64): (r: seq<Packet>)
    ensures forall i :: 0 <= i < |r| ==> r[i].correlation == correlation
  {
    if ps == [] then []
    else (if ps[0].correlation == correlation then [ps[0]] else []) + Only(ps[1..], correlation)
  }

  /** Nothing that carries another correlation, a late reply to an earlier call
      included, has any influence on the outcome. */
  lemma {:induction false} AwaitIsolation(body: Bytes, ps: seq<Packet>, kind: uint32, correlation: uint64)
    ensures Await(body, ps, kind, correlation) == Await(body, Only(ps, correlation), kind, correlation)
    decreases |ps|
  {
    if ps != [] {
      var only := Only(ps, correlation);
      if ps[0].correlation == correlation {
        assert only[0] == ps[0] && only[1..] == Only(ps[1..], correlation);
      } else {
        assert only == Only(ps[1..], correlation);
        assert AwaitStep(body, ps[0], kind, correlation) == Collecting(body);
      }
      hide AwaitStep;
      match AwaitStep(body, ps[0], kind, correlation)
      case Collecting(c) => AwaitIsolation(c, ps[1..], kind, correlation);
      case _ =>
    }
  }

  /** The bodies of the OK results of one call, up to and including the first
      without "more". */
  function OwnBodies(ps: seq<Packet>, kind: uint32, correlation: uint64): seq<Bytes> {
    if ps == [] then []
    else
      var m := DecodePayload(ps[0].payload);
      if ps[0].kind != kind || ps[0].correlation != correlation || m.None?
         || m.value.operation != OP_RESULT || m.value.status != STATUS_OK
      then OwnBodies(ps[1..], kind, correlation)
      else [BodyOf(ps[0].payload)]
           + (if Has(ps[0].flags, F_MORE) then OwnBodies(ps[1..], kind, correlation) else [])
  }

  /** An answered call returns precisely the joined bodies of its own results,
      and never more than the response limit. */
  lemma {:induction false} AnswerIsOwnBodies(body: Bytes, ps: seq<Packet>, kind: uint32, correlation: uint64)
    requires Await(body, ps, kind, correlation).Answered? && |body| <= MAX_BODY
    ensures Await(body, ps, kind, correlation).body == body + Concat(OwnBodies(ps, kind, correlation))
    ensures |Await(body, ps, kind, correlation).body| <= MAX_BODY
    decreases |ps|
  {
    hide DecodePayload, Has;
    var own := OwnBodies(ps, kind, correlation);
    match AwaitStep(body, ps[0], kind, correlation) {
      case Collecting(c) =>
        AnswerIsOwnBodies(c, ps[1..], kind, correlation);
        var rest := OwnBodies(ps[1..], kind, correlation);
        if c != body || own != rest {
          assert own[1..] == rest && c == body + own[0];
        }
      case Answered(c) =>
        assert own[1..] == [] && c == body + own[0];
    }
  }

  // ------------------------------------------------------------ the method

  /** What happens while the caller waits: the host fills a slot, takes some, or
      publishes an epoch, or the wait is over. */
  datatype HostStep =
    | Arrive(slot: Bytes) | Takes(count: nat) | HostRestart(epoch: uint64)
    | ContextDone | Expired

  /** The host publishes no slot. */
  ghost predicate NoArrivals(host: seq<HostStep>) {
    forall i :: 0 <= i < |host| ==> !host[i].Arrive?
  }

  /** The host takes no slot. */
  ghost predicate NoTakes(host: seq<HostStep>) {
    forall i :: 0 <= i < |host| ==> !host[i].Takes?
  }

  /** The host stays the one with this epoch. */
  ghost predicate NoRestart(host: seq<HostStep>, attached: uint64) {
    forall i :: 0 <= i < |host| && host[i].HostRestart? ==> host[i].epoch == attached
  }

  /** A reason only the caller can have. */
  predicate Local(why: CallError) {
    why.DeadlinePassed? || why.ContextEnded? || why.BusFailed?
  }

  /** The last poll had nothing to give: the ring was empty, or its slot did not
      decode. */
  ghost predicate NothingThere(log: seq<Bytes>, start: nat, at: nat) {
    start <= at <= |log| && (at == |log| || (at > start && ViewOf(log[at - 1]) == Skipped))
  }

  /** No step ends the wait. */
  ghost predicate NoEnd(host: seq<HostStep>) {
    forall i :: 0 <= i < |host| ==> host[i] != ContextDone && host[i] != Expired
  }

  /** A local reason is given only when there is one: the deadline or the context
      only where the first step that ends the wait says so, or the script has run out
      without one, and with nothing left to read; a bus failure only without a control region, after a
      restart, or on a faulting slot. */
  ghost predicate HasReason(why: CallError, host: seq<HostStep>, used: nat, log: seq<Bytes>, start: nat, at: nat,
                            control: bool, gone: bool)
    requires Local(why) && used <= |host|
  {
    match why
    case DeadlinePassed =>
      used > 0 && host[used - 1] == Expired && NoEnd(host[..used - 1]) && NothingThere(log, start, at)
    case ContextEnded =>
      && (|| (used == |host| && NoEnd(host))
          || (used > 0 && host[used - 1] == ContextDone && NoEnd(host[..used - 1])))
      && NothingThere(log, start, at)
    case BusFailed(poll) =>
      || (poll == NoControl && !control) || (poll == EpochOver && gone)
      || (poll == SliceFault && at < |log| && ViewOf(log[at]) == Faulty)
  }

  /** No slot from `start` to `at` faults. */
  ghost predicate NoFaults(log: seq<Bytes>, start: nat, at: nat)
    requires at <= |log|
  {
    forall i :: start <= i < at ==> ViewOf(log[i]) != Faulty
  }

  /** How a wait ends: as the slots gone past decide it, none of which faults, or
      undecided and for a reason. */
  ghost predicate WaitEnds(r: Progress, kind: uint32, correlation: uint64, host: seq<HostStep>, used: nat,
                           log: seq<Bytes>, start: nat, at: nat, control: bool, gone: bool)
  {
    && start <= at <= |log| && used <= |host| && !r.Collecting? && NoFaults(log, start, at)
    && var seen := Await([], Packets(log[start..at]), kind, correlation);
       if r.Failed? && Local(r.why)
       then seen.Collecting? && HasReason(r.why, host, used, log, start, at, control, gone)
       else seen == r
  }

  /** If what is in the inbound log from the start of the wait on decides the call,
      every slot of it readable and the host alive, then that is how the wait
      ends: it neither gives up early nor waits on. */
  lemma DecidedWait(r: Progress, kind: uint32, correlation: uint64, host: seq<HostStep>, used: nat,
                    log: seq<Bytes>, start: nat, at: nat)
    requires WaitEnds(r, kind, correlation, host, used, log, start, at, true, false)
    requires forall i :: start <= i < |log| ==> ViewOf(log[i]).Delivered?
    requires !Await([], Packets(log[start..]), kind, correlation).Collecting?
    ensures r == Await([], Packets(log[start..]), kind, correlation)
  {
    hide ViewOf, Await, Packets;
    PacketsSplit(log[start..at], log[at..]);
    assert log[start..at] + log[at..] == log[start..];
    AwaitSplit([], Packets(log[start..at]), Packets(log[at..]), kind, correlation);
    assert at == |log| ==> log[start..at] == log[start..];
    LocalMeansEmpty(r, kind, correlation, host, used, log, start, at);
  }

  /** Where every slot can be read and the host is alive, a caller gives up only with
      nothing left to read. */
  lemma LocalMeansEmpty(r: Progress, kind: uint32, correlation: uint64, host: seq<HostStep>, used: nat,
                        log: seq<Bytes>, start: nat, at: nat)
    requires WaitEnds(r, kind, correlation, host, used, log, start, at, true, false)
    requires forall i :: start <= i < |log| ==> ViewOf(log[i]).Delivered?
    ensures r.Failed? && Local(r.why) ==> at == |log|
  {
    hide ViewOf, Await, Packets;
  }

  /** A wait that begins at a slot that faults, with the host alive, ends there and
      then. */
  lemma FaultEndsWait(r: Progress, kind: uint32, correlation: uint64, host: seq<HostStep>, used: nat,
                      log: seq<Bytes>, start: nat, at: nat)
    requires WaitEnds(r, kind, correlation, host, used, log, start, at, true, false)
    requires start < |log| && ViewOf(log[start]) == Faulty
    ensures at == start && r == Failed(BusFailed(SliceFault))
  {
    hide ViewOf;
    assert at == start;
    assert log[start..at] == [];
  }

  /** One polled event, handled as the loop body does: the 32-bit length sum
      cannot wrap, and the payload is never shorter than its envelope says. */
  method Accept(body: Bytes, p: Packet, kind: uint32, correlation: uint64) returns (r: Progress)
    requires |body| <= MAX_BODY
    ensures r == AwaitStep(body, p, kind, correlation)
    ensures r.Collecting? ==> |r.body| <= MAX_BODY
  {
    hide DecodePayload, Has;
    if p.correlation == correlation {
      if p.kind == KIND_CAPABILITY_ABSENT {
        return Failed(CapabilityAbsent);
      } else if p.kind == KIND_ERROR {
        return Failed(RejectedByHost);
      }
    }
    if p.kind != kind || p.correlation != correlation {
      return Collecting(body);
    }
    var m := DecodePayload(p.payload);
    if m.None? || m.value.operation != OP_RESULT {
      return Collecting(body);
    }
    if m.value.status != STATUS_OK {
      return Failed(StageFailed(m.value.status));
    }
    var start := HEADER_LEN;
    var end := start + m.value.bodyLen;
    assert end <= |p.payload|;
    if end > |p.payload| {
      return Failed(RuntimeFailed);
    }
    if (|body| % TWO32 + m.value.bodyLen) % TWO32 > MAX_BODY {
      return Failed(RuntimeFailed);
    }
    var joined := body + p.payload[start..end];
    return if Has(p.flags, F_MORE) then Collecting(joined) else Answered(joined);
  }

  /** One wait between two polls. */
  method Idle(client: Client, step: HostStep) returns (over: bool, why: CallError)
    requires client.Valid()
    modifies client`hostEpoch, client.inbound`log, client.inbound.mem, client.outbound`taken, client.outbound.mem
    ensures client.Valid() && client.Passed() == old(client.Passed())
    ensures client.outbound.taken >= old(client.outbound.taken)
    ensures old(client.inbound.log) <= client.inbound.log
    ensures !step.Arrive? ==> client.inbound.log == old(client.inbound.log)
    ensures !step.Takes? ==> client.outbound.taken == old(client.outbound.taken)
    ensures client.hostEpoch == if step.HostRestart? then step.epoch else old(client.hostEpoch)
    ensures over <==> step.ContextDone? || step.Expired?
    ensures over ==> why == if step.Expired? then DeadlinePassed else ContextEnded
  {
    hide RingLayout.Holds;
    match step {
      case ContextDone => return true, ContextEnded;
      case Expired => return true, DeadlinePassed;
      case HostRestart(epoch) => client.hostEpoch := epoch;
      case Arrive(slot) => Deliver(client, slot);
      case Takes(count) => Take(client, count);
    }
    return false, ContextEnded;
  }

  /** `body` is what the slots gone past since `start` add up to so far. */
  ghost predicate Joined(log: seq<Bytes>, start: nat, at: nat, kind: uint32, correlation: uint64, r: Progress) {
    start <= at <= |log| && NoFaults(log, start, at) && Await([], Packets(log[start..at]), kind, correlation) == r
  }

  /** Polls until this call's result is complete or a step of the host ends the
      wait. */
  method AwaitReply(client: Client, kind: uint32, correlation: uint64, host: seq<HostStep>)
      returns (r: Progress, ghost used: nat)
    requires client.Valid()
    modifies client`pendingRead, client`hostEpoch, client.inbound`taken, client.inbound`log, client.inbound.mem
    modifies client.outbound`taken, client.outbound.mem
    ensures client.Valid() && client.outbound.taken >= old(client.outbound.taken)
    ensures old(client.inbound.log) <= client.inbound.log
    ensures NoArrivals(host) ==> client.inbound.log == old(client.inbound.log)
    ensures NoTakes(host) ==> client.outbound.taken == old(client.outbound.taken)
    ensures old(!client.EpochChanged()) && NoRestart(host, client.attachedEpoch) ==> !client.EpochChanged()
    ensures WaitEnds(r, kind, correlation, host, used, client.inbound.log, old(client.Passed()), client.Passed(),
                     client.control, client.EpochChanged())
  {
    hide RingLayout.Holds, Await, AwaitStep, Packets, ViewOf, Joined, WaitEnds, NoArrivals, NoTakes, NoRestart,
         NothingThere;
    var body: Bytes := [];
    var i := 0;
    used := 0;
    ghost var start := client.Passed();
    assert |client.inbound.Contents()| == |client.inbound.log| - client.inbound.taken;
    NoneSeen(client.inbound.log, start, kind, correlation);
    while true
      invariant client.Valid() && 0 <= i <= |host| && |body| <= MAX_BODY && used == i && NoEnd(host[..i])
      invariant start <= client.Passed() <= |client.inbound.log| && old(client.inbound.log) <= client.inbound.log
      invariant NoArrivals(host) ==> client.inbound.log == old(client.inbound.log)
      invariant client.outbound.taken >= old(client.outbound.taken)
      invariant NoTakes(host) ==> client.outbound.taken == old(client.outbound.taken)
      invariant old(!client.EpochChanged()) && NoRestart(host, client.attachedEpoch) ==> !client.EpochChanged()
      invariant Joined(client.inbound.log, start, client.Passed(), kind, correlation, Collecting(body))
      decreases |host| - i, |client.inbound.log| - client.Passed()
    {
      ghost var passed := client.Passed();
      var polled := client.Poll();
      match polled {
        case NothingYet =>
          NothingSeen(client.inbound.log, start, passed, client.Passed(), kind, correlation, Collecting(body));
          if i == |host| {
            assert host[..i] == host;
            EndsLocally(ContextEnded, kind, correlation, host, i, client.inbound.log, start, client.Passed(), body,
                        client.control, client.EpochChanged());
            return Failed(ContextEnded), i;
          }
          ghost var log := client.inbound.log;
          StepAt(host, i, client.attachedEpoch);
          var over, why := Idle(client, host[i]);
          OneStepOn(host, i, over);
          i := i + 1;
          used := i;
          JoinedGrows(log, client.inbound.log, start, client.Passed(), kind, correlation, Collecting(body));
          if over {
            EndsLocally(why, kind, correlation, host, i, client.inbound.log, start, client.Passed(), body,
                        client.control, client.EpochChanged());
            return Failed(why), i;
          }
        case Polled(event) =>
          OneMoreSeen(client.inbound.log, start, passed, event, kind, correlation, body);
          var now := Accept(body, PacketOf(event), kind, correlation);
          if !now.Collecting? {
            NoLocalFailure(body, PacketOf(event), kind, correlation);
            EndsDecided(now, kind, correlation, host, i, client.inbound.log, start, client.Passed(),
                        client.control, client.EpochChanged());
            return now, i;
          }
          body := now.body;
        case _ =>
          EndsLocally(BusFailed(polled), kind, correlation, host, i, client.inbound.log, start, client.Passed(), body,
                      client.control, client.EpochChanged());
          return Failed(BusFailed(polled)), i;
      }
    }
  }

  /** An event never ends a call with a reason only the caller can have. */
  lemma NoLocalFailure(body: Bytes, p: Packet, kind: uint32, correlation: uint64)
    ensures var r := AwaitStep(body, p, kind, correlation);
            r.Failed? ==> !Local(r.why)
  {
  }

  lemma EndsLocally(why: CallError, kind: uint32, correlation: uint64, host: seq<HostStep>, used: nat,
                    log: seq<Bytes>, start: nat, at: nat, body: Bytes, control: bool, gone: bool)
    requires Joined(log, start, at, kind, correlation, Collecting(body)) && Local(why) && used <= |host|
    requires HasReason(why, host, used, log, start, at, control, gone)
    ensures WaitEnds(Failed(why), kind, correlation, host, used, log, start, at, control, gone)
  {
    hide HasReason, Await;
  }

  lemma EndsDecided(r: Progress, kind: uint32, correlation: uint64, host: seq<HostStep>, used: nat,
                    log: seq<Bytes>, start: nat, at: nat, control: bool, gone: bool)
    requires Joined(log, start, at, kind, correlation, r) && !r.Collecting? && used <= |host|
    requires r.Failed? ==> !Local(r.why)
    ensures WaitEnds(r, kind, correlation, host, used, log, start, at, control, gone)
  {
    hide Await;
  }

  lemma StepAt(host: seq<HostStep>, i: nat, attached: uint64)
    requires i < |host|
    ensures NoArrivals(host) ==> !host[i].Arrive?
    ensures NoTakes(host) ==> !host[i].Takes?
    ensures NoRestart(host, attached) && host[i].HostRestart? ==> host[i].epoch == attached
  {
  }

  lemma OneStepOn(host: seq<HostStep>, i: nat, over: bool)
    requires i < |host| && NoEnd(host[..i]) && (over <==> host[i].ContextDone? || host[i].Expired?)
    ensures host[..i + 1][..i] == host[..i] && (!over ==> NoEnd(host[..i + 1]))
  {
  }

  lemma NothingSeen(log: seq<Bytes>, start: nat, at: nat, now: nat, kind: uint32, correlation: uint64, r: Progress)
    requires Joined(log, start, at, kind, correlation, r)
    requires now == at == |log| || (now == at + 1 && at < |log| && ViewOf(log[at]) == Skipped)
    ensures Joined(log, start, now, kind, correlation, r) && NothingThere(log, start, now)
  {
    hide ViewOf, Await, Packets;
    if now > at {
      SkippedSeen(log, start, at);
    }
  }

  lemma JoinedGrows(log: seq<Bytes>, log': seq<Bytes>, start: nat, at: nat, kind: uint32, correlation: uint64,
                    r: Progress)
    requires Joined(log, start, at, kind, correlation, r) && log <= log'
    ensures Joined(log', start, at, kind, correlation, r)
  {
    assert log'[start..at] == log[start..at];
  }

  lemma NoneSeen(log: seq<Bytes>, start: nat, kind: uint32, correlation: uint64)
    requires start <= |log|
    ensures Joined(log, start, start, kind, correlation, Collecting([]))
  {
  }

  lemma SkippedSeen(log: seq<Bytes>, start: nat, at: nat)
    requires start <= at < |log| && ViewOf(log[at]) == Skipped
    ensures Packets(log[start..at + 1]) == Packets(log[start..at])
  {
    var s := log[start..at + 1];
    assert s[..|s| - 1] == log[start..at];
  }

  lemma OneMoreSeen(log: seq<Bytes>, start: nat, at: nat, e: Event, kind: uint32, correlation: uint64, body: Bytes)
    requires start <= at < |log| && ViewOf(log[at]) == Delivered(e)
    requires Joined(log, start, at, kind, correlation, Collecting(body))
    ensures Joined(log, start, at + 1, kind, correlation, AwaitStep(body, PacketOf(e), kind, correlation))
  {
    hide ViewOf, AwaitStep;
    var s := log[start..at + 1];
    assert s[..|s| - 1] == log[start..at];
    var seen, p := Packets(log[start..at]), PacketOf(e);
    assert Packets(s) == seen + [p];
    AwaitSplit([], seen, [p], kind, correlation);
    AwaitOne(body, p, kind, correlation);
  }

  lemma AwaitOne(body: Bytes, p: Packet, kind: uint32, correlation: uint64)
    ensures Await(body, [p], kind, correlation) == AwaitStep(body, p, kind, correlation)
  {
    hide AwaitStep;
    assert [p][1..] == [];
  }
}
