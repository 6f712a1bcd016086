/** One synchronous stage call: a fresh correlation, the fragments out, the
    result back, and a cancel if the wait fails
    (server-go/bus/module_caller.go:91-130). */
module ModuleCaller {
  import opened Bytes
  import opened Wire
  import opened ModuleProtocol
  import opened BusClient
  import opened Fragments
  import opened HostSide
  import opened CallerSend
  import opened CallerAwait
  import RingLayout

  datatype CallResult =
    | Returned(body: Bytes)
    | BadConfig
    | NotSent(send: SendResult)
    | NoReply(why: CallError)
    | Crashed                        // a slot faulted: the process is gone, and nothing is returned

  /** The request went out whole, and the call waited. */
  predicate WentOut(r: CallResult) {
    r.Returned? || r.NoReply? || r.Crashed?
  }

  /** The outcome of the wait as the caller of Call sees it. */
  function Outcome(r: CallResult): Progress
    requires WentOut(r)
  {
    if r.Returned? then Answered(r.body)
    else if r.NoReply? then Failed(r.why)
    else Failed(BusFailed(SliceFault))
  }

  /** A cancel of a nonzero correlation is a valid frame. */
  lemma CancelIsValid(handle: uint32, kind: uint32, correlation: uint64)
    requires correlation != 0
    ensures Validate(FrameFor(handle, F_CANCEL, kind, correlation, [])) == OK
  {
    CancelBits();
    ValidMeans(FrameFor(handle, F_CANCEL, kind, correlation, []));
    hide Flag, Validate;
  }

  lemma CancelBits()
    ensures !Flag(F_CANCEL, 0) && !Flag(F_CANCEL, 1) && !Flag(F_CANCEL, 2) && !Flag(F_CANCEL, 3) && !Flag(F_CANCEL, 4)
    ensures Flag(F_CANCEL, 5) && !Flag(F_CANCEL, 7)
  {
    SmallPowers();
  }

  class Caller {
    const client: Client
    var correlation: uint64

    constructor (client: Client)
      ensures this.client == client && correlation == 0
    {
      this.client, this.correlation := client, 0;
    }

    /** Every fragment of a request of this caller. */
    ghost function Fragments(kind: uint32, stageID: uint32, trace: uint64, deadline: uint64, request: Bytes)
      : seq<Packet>
      reads this`correlation
      requires client.inlineBudget > HEADER_LEN
    {
      Stream(RequestEnvelope(kind, correlation, stageID, deadline, trace),
             Chunks(request, client.inlineBudget - HEADER_LEN))
    }

    /** Refuses by the 32-bit length. Otherwise takes a new correlation and sends; a
        failed send ends the call at once, with a proper prefix of the fragments out
        and no cancel. After a whole send it waits, and ends as the wait ends; after a
        failed wait, and only then, a cancel follows, exactly if the host has not
        restarted and the ring has a free slot. Whatever went out reads as the request
        that was asked for. A slot that faults crashes the process
        in the middle of the wait, and no cancel follows. */
    method Call(kind: uint32, stageID: uint32, trace: uint64, deadline: uint64, request: Bytes,
                script: seq<HostMove>, host: seq<HostStep>) returns (r: CallResult, ghost used: nat)
      requires client.Valid()
      modifies this`correlation, client`hostEpoch, client`pendingRead
      modifies client.outbound`log, client.outbound`taken, client.outbound.mem
      modifies client.inbound`taken, client.inbound`log, client.inbound.mem
      ensures client.Valid()
      ensures r == BadConfig <==> |request| % TWO32 > MAX_BODY
      ensures r == BadConfig ==> correlation == old(correlation) && client.outbound.log == old(client.outbound.log)
      ensures r != BadConfig ==> correlation == (old(correlation) + 1) % TWO64
      ensures old(client.inbound.log) <= client.inbound.log
      ensures NoArrivals(host) ==> client.inbound.log == old(client.inbound.log)
      ensures r.NotSent? ==> client.Passed() == old(client.Passed())
      ensures r.NotSent? ==>
        if client.inlineBudget <= HEADER_LEN then client.outbound.log == old(client.outbound.log)
        else
          var all := Fragments(kind, stageID, trace, deadline, request);
          var k := |client.outbound.log| - |old(client.outbound.log)|;
          0 <= k < |all| && SentFirst(old(client.outbound.log), client.outbound.log, all, k)
      ensures r != BadConfig && client.inlineBudget > HEADER_LEN ==>
        (WentOut(r) <==>
           && Fits(client, stageID, correlation, request)
           && RoomForAll(old(|client.outbound.Contents()|), old(client.hostEpoch), script,
                         |Fragments(kind, stageID, trace, deadline, request)|,
                         client.outbound.capacity, client.attachedEpoch))
      ensures WentOut(r) ==>
        && client.inlineBudget > HEADER_LEN && client.control && HDR_LEN <= client.slotSize
        && WaitEnds(Outcome(r), kind, correlation, host, used, client.inbound.log, old(client.Passed()),
                    client.Passed(), client.control, client.EpochChanged())
      ensures r.NoReply? ==> r.why != BusFailed(SliceFault)
      ensures WentOut(r) && NoRestart(host, client.attachedEpoch) ==> !client.EpochChanged()
      ensures script == [] && NoTakes(host) ==>
        client.outbound.taken == old(client.outbound.taken)
      ensures WentOut(r) ==>
        var all := Fragments(kind, stageID, trace, deadline, request);
        var room := |old(client.outbound.log)| + |all| < client.outbound.taken + client.outbound.capacity;
        var cancelled := r.NoReply? && !client.EpochChanged() && room;
        Packets(client.outbound.log)
        == Packets(old(client.outbound.log)) + all + if cancelled then [Packet(0x20, kind, correlation, [])] else []
      ensures r != BadConfig && client.inlineBudget > HEADER_LEN ==>
        RequestOut(Packets(old(client.outbound.log)), Packets(client.outbound.log), kind, correlation, stageID,
                   deadline, trace, Chunks(request, client.inlineBudget - HEADER_LEN))
      ensures r.Returned? ==>
        r.body
        == Concat(OwnBodies(Packets(client.inbound.log[old(client.Passed())..client.Passed()]), kind, correlation))
    {
      hide RingLayout.Holds, Await, AwaitStep, OwnBodies, Packets, ViewOf, Chunks, Validate, SentFirst, RoomForAll,
           HasReason, RequestOut;
      used := 0;
      if |request| % TWO32 > MAX_BODY {
        return BadConfig, 0;
      }
      correlation := (correlation + 1) % TWO64;
      ghost var before := client.outbound.log;
      var sent := Send(client, kind, stageID, trace, correlation, deadline, request, script);
      if sent != AllSent {
        return NotSent(sent), 0;
      }
      ghost var all := Fragments(kind, stageID, trace, deadline, request);
      SentAll(before, client.outbound.log, all);
      ghost var parts, whole := Chunks(request, client.inlineBudget - HEADER_LEN), Packets(client.outbound.log);
      ghost var start := client.Passed();
      var reply;
      reply, used := AwaitReply(client, kind, correlation, host);
      ghost var seen := Packets(client.inbound.log[start..client.Passed()]);
      match reply {
        case Answered(body) =>
          AnswerIsOwnBodies([], seen, kind, correlation);
          assert [] + Concat(OwnBodies(seen, kind, correlation)) == body;
          assert Packets(client.outbound.log) + [] == Packets(client.outbound.log);
          return Returned(body), used;
        case Failed(why) =>
          if why == BusFailed(SliceFault) {
            assert Packets(client.outbound.log) + [] == Packets(client.outbound.log);
            return Crashed, used;
          }
          CancelAfterwards(kind, all, before);
          RequestStaysOut(Packets(before), whole, Packets(client.outbound.log), kind, correlation, stageID, deadline,
                          trace, parts);
          return NoReply(why), used;
      }
    }

    /** The best-effort cancel of a caller that is leaving. */
    method CancelAfterwards(kind: uint32, ghost all: seq<Packet>, ghost before: seq<Bytes>)
      requires client.Valid() && client.control && HDR_LEN <= client.slotSize && correlation != 0
      requires |client.outbound.log| == |before| + |all| && Packets(client.outbound.log) == Packets(before) + all
      modifies client.outbound`log, client.outbound.mem
      ensures client.Valid()
      ensures
        var room := |before| + |all| < client.outbound.taken + client.outbound.capacity;
        Packets(client.outbound.log)
        == Packets(before) + all
           + if !client.EpochChanged() && room then [Packet(0x20, kind, correlation, [])] else []
    {
      hide RingLayout.Holds, Packets, ViewOf, Validate;
      ghost var mid := client.outbound.log;
      CancelIsValid(client.handle, kind, correlation);
      var cancelled := client.Cancel(kind, correlation);
      if cancelled == Sent {
        PacketsSnoc(mid, client.outbound.log, Event(FrameFor(client.handle, F_CANCEL, kind, correlation, []), []));
      } else {
        assert Packets(client.outbound.log) + [] == Packets(client.outbound.log);
      }
    }
  }

  /** A call that gives up without its cancel: the request fills the last free slot,
      nothing is taken or published, and the deadline passes. */
  method CancelIsLost(caller: Caller, kind: uint32, stageID: uint32, trace: uint64, deadline: uint64)
      returns (r: CallResult)
    requires caller.client.Valid() && caller.client.inlineBudget > HEADER_LEN && stageID != 0
    requires caller.client.control && !caller.client.EpochChanged() && caller.correlation + 1 < TWO64
    requires HDR_LEN + HEADER_LEN <= caller.client.slotSize
    requires |caller.client.outbound.Contents()| + 1 == caller.client.outbound.capacity
    requires caller.client.Passed() == |caller.client.inbound.log|
    modifies caller`correlation, caller.client`hostEpoch, caller.client`pendingRead
    modifies caller.client.outbound`log, caller.client.outbound`taken, caller.client.outbound.mem
    modifies caller.client.inbound`taken, caller.client.inbound`log, caller.client.inbound.mem
    ensures r == NoReply(DeadlinePassed)
    ensures var all := caller.Fragments(kind, stageID, trace, deadline, []);
            Packets(caller.client.outbound.log) == Packets(old(caller.client.outbound.log)) + all
  {
    hide RingLayout.Holds, Packets, ViewOf, SentFirst;
    ghost var used;
    r, used := caller.Call(kind, stageID, trace, deadline, [], [], [Expired]);
    ghost var all := caller.Fragments(kind, stageID, trace, deadline, []);
    assert |all| == 1;
    NothingToRead(caller.client.inbound.log, kind, caller.correlation);
    if r.NoReply? && Local(r.why) {
      OnlyExpired(r.why, used, caller.client.inbound.log, caller.client.Passed(), caller.client.Passed());
    }
    assert Packets(old(caller.client.outbound.log)) + all + [] == Packets(old(caller.client.outbound.log)) + all;
  }

  lemma OnlyExpired(why: CallError, used: nat, log: seq<Bytes>, start: nat, at: nat)
    requires Local(why) && used <= 1 && HasReason(why, [Expired], used, log, start, at, true, false)
    requires why != BusFailed(SliceFault)
    ensures why == DeadlinePassed
  {
    hide ViewOf;
    assert [Expired][0] == Expired;
  }

  /** A call that crashes: its request goes out, and the slot it would read next
      faults. Nothing follows the request, not even a cancel. */
  method CrashSendsNoCancel(caller: Caller, kind: uint32, stageID: uint32, trace: uint64, deadline: uint64,
                            request: Bytes, host: seq<HostStep>) returns (r: CallResult)
    requires caller.client.Valid() && caller.client.inlineBudget > HEADER_LEN
    requires caller.client.control && !caller.client.EpochChanged() && NoRestart(host, caller.client.attachedEpoch)
    requires caller.client.Passed() < |caller.client.inbound.log|
    requires ViewOf(caller.client.inbound.log[caller.client.Passed()]) == Faulty
    modifies caller`correlation, caller.client`hostEpoch, caller.client`pendingRead
    modifies caller.client.outbound`log, caller.client.outbound`taken, caller.client.outbound.mem
    modifies caller.client.inbound`taken, caller.client.inbound`log, caller.client.inbound.mem
    ensures r.Crashed? || r.NotSent? || r.BadConfig?
    ensures r.Crashed? ==>
      Packets(caller.client.outbound.log)
      == Packets(old(caller.client.outbound.log)) + caller.Fragments(kind, stageID, trace, deadline, request)
  {
    hide RingLayout.Holds, Packets, ViewOf, SentFirst, Chunks, Fits, RoomForAll, WaitEnds, NoRestart;
    ghost var start := caller.client.Passed();
    ghost var used;
    r, used := caller.Call(kind, stageID, trace, deadline, request, [], host);
    if WentOut(r) {
      FaultEndsWait(Outcome(r), kind, caller.correlation, host, used, caller.client.inbound.log, start,
                    caller.client.Passed());
      ghost var all := caller.Fragments(kind, stageID, trace, deadline, request);
      assert Packets(old(caller.client.outbound.log)) + all + [] == Packets(old(caller.client.outbound.log)) + all;
    }
  }

  lemma NothingToRead(log: seq<Bytes>, kind: uint32, correlation: uint64)
    ensures Await([], Packets(log[|log|..|log|]), kind, correlation) == Collecting([])
  {
  }

  // ------------------------------------------------------- the length check

  /** Call's 32-bit comparison agrees with the limit exactly unless the excess is
      lost in the conversion. */
  lemma LengthCheckExactly(length: nat)
    ensures (length % TWO32 > MAX_BODY <==> length > MAX_BODY) <==> (length < TWO32 || length % TWO32 > MAX_BODY)
  {
  }

  /** A request of 2^32 bytes is not refused: Call sends it as any other. */
  method HugeRequestIsSent(caller: Caller, kind: uint32, stageID: uint32, trace: uint64, deadline: uint64,
                           request: Bytes, script: seq<HostMove>, host: seq<HostStep>) returns (r: CallResult)
    requires caller.client.Valid() && caller.client.inlineBudget > HEADER_LEN && |request| == TWO32
    modifies caller`correlation, caller.client`hostEpoch, caller.client`pendingRead
    modifies caller.client.outbound`log, caller.client.outbound`taken, caller.client.outbound.mem
    modifies caller.client.inbound`taken, caller.client.inbound`log, caller.client.inbound.mem
    ensures r != BadConfig
    ensures var all := caller.Fragments(kind, stageID, trace, deadline, request);
            if Fits(caller.client, stageID, caller.correlation, request)
               && RoomForAll(old(|caller.client.outbound.Contents()|), old(caller.client.hostEpoch), script, |all|,
                             caller.client.outbound.capacity, caller.client.attachedEpoch)
            then Packets(old(caller.client.outbound.log)) + all <= Packets(caller.client.outbound.log)
            else r.NotSent?
  {
    hide RingLayout.Holds, Packets, ViewOf, SentFirst, HasReason, Chunks, Fits, RoomForAll, WaitEnds;
    ghost var used;
    r, used := caller.Call(kind, stageID, trace, deadline, request, script, host);
  }

  // -------------------------------------------------------------- isolation

  /** Two calls made fewer than 2^64 apart never use the same correlation. */
  lemma CorrelationsDiffer(first: uint64, i: nat, j: nat)
    requires i < j < i + TWO64
    ensures (first + i) % TWO64 != (first + j) % TWO64
  {
  }

  /** The traffic without one correlation. */
  function Without(ps: seq<Packet>, c: uint64): (r: seq<Packet>)
    ensures forall i :: 0 <= i < |r| ==> r[i].correlation != c
  {
    if ps == [] then [] else (if ps[0].correlation == c then [] else [ps[0]]) + Without(ps[1..], c)
  }

  lemma {:induction false} OnlyWithout(ps: seq<Packet>, c: uint64, d: uint64)
    requires c != d
    ensures Only(Without(ps, d), c) == Only(ps, c)
  {
    if ps != [] {
      OnlyWithout(ps[1..], c, d);
      if ps[0].correlation == d {
        assert Without(ps, d) == Without(ps[1..], d);
        assert Only(ps, c) == Only(ps[1..], c);
      } else {
        assert Without(ps, d)[0] == ps[0] && Without(ps, d)[1..] == Without(ps[1..], d);
      }
    }
  }

  /** Isolation over the calls of one caller, numbered by `first`: whatever arrives
      for call `i`, in whatever order and however late, call `j` fewer than 2^64 calls
      later, or earlier, ends as if it had not arrived, and returns no byte of it. */
  lemma OtherCallsAreInvisible(first: uint64, i: nat, j: nat, seen: seq<Packet>, kind: uint32)
    requires i != j && i < j + TWO64 && j < i + TWO64
    ensures var own, other := (first + j) % TWO64, (first + i) % TWO64;
            && Await([], seen, kind, own) == Await([], Without(seen, other), kind, own)
            && (Await([], seen, kind, own).Answered? ==>
                  Await([], seen, kind, own).body == Concat(OwnBodies(Without(seen, other), kind, own)))
  {
    hide Await, OwnBodies;
    CorrelationsDiffer(first, if i < j then i else j, if i < j then j else i);
    var own, other := (first + j) % TWO64, (first + i) % TWO64;
    AwaitIsolation([], seen, kind, own);
    AwaitIsolation([], Without(seen, other), kind, own);
    OnlyWithout(seen, own, other);
    if Await([], seen, kind, own).Answered? {
      AnswerIsOwnBodies([], Without(seen, other), kind, own);
      var body := Concat(OwnBodies(Without(seen, other), kind, own));
      assert [] + body == body;
    }
  }
}
