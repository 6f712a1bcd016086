/** The caller's fragmenter: one request, cut across the inline budget into the
    outbound ring (server-go/bus/module_caller.go:132-163). */
module CallerSend {
  import opened Bytes
  import opened Wire
  import opened ModuleProtocol
  import MP = ModuleProtocol
  import opened BusClient
  import opened Fragments
  import opened HostSide

  datatype SendResult = AllSent | NoBudget | BadEnvelope | BusRefused(why: EmitResult)

  function Min(a: nat, b: nat): nat {
    if a < b then a else b
  }

  /** What the slice at `offset` contributes to the chunk sequence. */
  lemma ChunkStep(body: Bytes, offset: nat, size: nat)
    requires size > 0 && offset <= |body|
    ensures var c, part := Chunks(body[offset..], size), Min(|body| - offset, size);
            && c[0] == body[offset..offset + part]
            && (|c| > 1 <==> offset + part < |body|)
            && (|c| > 1 ==> c[1..] == Chunks(body[offset + part..], size))
  {
    if |body| - offset > size {
      assert body[offset..][size..] == body[offset + size..];
    }
  }

  /** What a request needs to fit: an attached control region, an identified stage
      and correlation, and a first (hence every) fragment within a slot and the
      frame limit. */
  ghost predicate Fits(client: Client, stageID: uint32, correlation: uint64, request: Bytes)
    reads client
    requires client.inlineBudget > HEADER_LEN
  {
    var first := HEADER_LEN + Min(|request|, client.inlineBudget - HEADER_LEN);
    && client.control && stageID != 0 && correlation != 0
    && HDR_LEN + first <= client.slotSize && first <= MAX_PAYLOAD
  }

  /** From `n` slots in use on, the host moving before each of `count` fragments as
      `moves` says (and standing still after those), each fragment finds the attached
      epoch and a free slot. */
  predicate RoomForAll(n: nat, epoch: uint64, moves: seq<HostMove>, count: nat, capacity: nat, attached: uint64)
    decreases count
  {
    count > 0 ==>
      var left := if moves == [] then n else LeftAfter(n, moves[0].takes);
      var now := if moves == [] then epoch else moves[0].epoch;
      && now == attached && left < capacity
      && RoomForAll(left + 1, now, if moves == [] then [] else moves[1..], count - 1, capacity, attached)
  }

  /** `after` is `before` and `k` more slots carrying the first `k` of `all`. */
  ghost predicate SentFirst(before: seq<Bytes>, after: seq<Bytes>, all: seq<Packet>, k: nat) {
    && k <= |all| && |after| == |before| + k && after[..|before|] == before
    && Packets(after) == Packets(before) + all[..k]
  }

  lemma SentNone(before: seq<Bytes>, all: seq<Packet>)
    ensures SentFirst(before, before, all, 0)
  {
    assert all[..0] == [];
  }

  /** `after` is `before` and one more slot carrying `p`. */
  ghost predicate AppendedPacket(before: seq<Bytes>, after: seq<Bytes>, p: Packet) {
    exists e :: Appended(before, after, e) && PacketOf(e) == p
  }

  lemma SentAll(before: seq<Bytes>, after: seq<Bytes>, all: seq<Packet>)
    requires SentFirst(before, after, all, |all|)
    ensures Packets(after) == Packets(before) + all
  {
    assert all[..|all|] == all;
  }

  lemma SentOneMore(before: seq<Bytes>, mid: seq<Bytes>, after: seq<Bytes>, all: seq<Packet>, k: nat)
    requires SentFirst(before, mid, all, k) && k < |all| && AppendedPacket(mid, after, all[k])
    ensures SentFirst(before, after, all, k + 1) && |after| == |mid| + 1
  {
    hide ViewOf, Packets;
    var e :| Appended(mid, after, e) && PacketOf(e) == all[k];
    PacketsSnoc(mid, after, e);
    assert all[..k + 1] == all[..k] + [all[k]];
    assert after[..|before|] == after[..|mid|][..|before|];
  }

  /** When one fragment of a request or a reply goes out. */
  lemma FragmentGoesOut(client: Client, pattern: uint16, kind: uint32, correlation: uint64, payload: Bytes, more: bool)
    requires pattern == F_REQUEST || pattern == F_REPLY
    requires client.Valid() && HEADER_LEN <= |payload| <= client.inlineBudget
    ensures client.FragmentOutcome(pattern, kind, correlation, payload, more) == Sent <==>
              && client.control && !client.EpochChanged() && correlation != 0
              && HDR_LEN + |payload| <= client.slotSize && |payload| <= MAX_PAYLOAD
              && |client.outbound.Contents()| < client.outbound.capacity
  {
    hide Validate, FrameFor, RingLayout.Holds;
    if correlation != 0 {
      FragmentIsValid(client.handle, pattern, kind, correlation, payload, more);
    }
  }

  /** The event a fragment becomes once emitted. */
  lemma FragmentEvent(handle: uint32, env: Envelope, part: Bytes, more: bool)
    requires env.pattern == F_REQUEST || env.pattern == F_REPLY
    ensures var payload := Payload(HeaderFor(env, part), part);
            PacketOf(Event(FrameFor(handle, FragmentFlags(env.pattern, more), env.kind, env.correlation, payload),
                           payload))
            == FragmentPacket(env, part, more)
  {
    hide Payload;
  }

  /** Builds envelope and piece in the reused buffer. */
  method BuildPayload(frame: array<byte>, env: Envelope, part: Bytes) returns (ok: bool, payload: Bytes)
    requires HEADER_LEN + |part| <= frame.Length < TWO32
    modifies frame
    ensures ok == ValidMessage(HeaderFor(env, part))
    ensures ok ==> payload == Payload(HeaderFor(env, part), part)
  {
    hide Pack, ValidMessage, MP.Encoded;
    var written;
    written, ok := MP.Encode(HeaderFor(env, part), frame);
    if !ok {
      return false, [];
    }
    ghost var s := frame[..];
    CopyIn(frame, written, part);
    payload := frame[..written + |part|];
    assert frame[..HEADER_LEN] == s[..HEADER_LEN];
  }

  /** One turn of the loop: a fragment goes out or nothing does. */
  method SendOne(client: Client, frame: array<byte>, env: Envelope, part: Bytes, more: bool)
      returns (r: SendResult)
    requires client.Valid() && client.inlineBudget > HEADER_LEN && frame.Length == client.inlineBudget
    requires frame != client.outbound.mem && frame != client.inbound.mem
    requires env.pattern == F_REQUEST && env.operation == OP_INVOKE && env.status == STATUS_OK
    requires HEADER_LEN + |part| <= client.inlineBudget
    modifies frame, client.outbound`log, client.outbound.mem
    ensures client.Valid()
    ensures r == AllSent <==>
      && client.control && !client.EpochChanged() && env.stageID != 0 && env.correlation != 0
      && HDR_LEN + HEADER_LEN + |part| <= client.slotSize && HEADER_LEN + |part| <= MAX_PAYLOAD
      && old(|client.outbound.Contents()|) < client.outbound.capacity
    ensures r != AllSent ==> client.outbound.log == old(client.outbound.log)
    ensures r == AllSent ==> AppendedPacket(old(client.outbound.log), client.outbound.log,
                                            FragmentPacket(env, part, more))
  {
    hide Validate, FrameFor, RingLayout.Holds, ViewOf, MP.Encoded;
    var ok, payload := BuildPayload(frame, env, part);
    if !ok {
      return BadEnvelope;
    }
    FragmentGoesOut(client, F_REQUEST, env.kind, env.correlation, payload, more);
    FragmentEvent(client.handle, env, part, more);
    var sent := client.Fragment(F_REQUEST, env.kind, env.correlation, payload, more);
    return if sent == Sent then AllSent else BusRefused(sent);
  }

  /** Sends the whole request, fragment by fragment in order, the host moving before
      each as `script` says. On success exactly the fragments of the request have been
      appended; on failure a proper prefix of them. It succeeds exactly when the
      geometry fits and each fragment finds the attached epoch and a free slot. */
  method Send(client: Client, kind: uint32, stageID: uint32, trace: uint64, correlation: uint64,
              deadline: uint64, request: Bytes, script: seq<HostMove>) returns (r: SendResult)
    requires client.Valid()
    modifies client`hostEpoch, client.outbound`log, client.outbound`taken, client.outbound.mem
    ensures client.Valid() && client.outbound.taken >= old(client.outbound.taken)
    ensures client.inlineBudget <= HEADER_LEN ==> r == NoBudget && client.outbound.log == old(client.outbound.log)
    ensures script == [] ==>
      client.hostEpoch == old(client.hostEpoch) && client.outbound.taken == old(client.outbound.taken)
    ensures r == AllSent && client.control ==> !client.EpochChanged()
    ensures client.inlineBudget > HEADER_LEN ==>
      var all := Stream(RequestEnvelope(kind, correlation, stageID, deadline, trace),
                        Chunks(request, client.inlineBudget - HEADER_LEN));
      var k := |client.outbound.log| - |old(client.outbound.log)|;
      && 0 <= k <= |all| && SentFirst(old(client.outbound.log), client.outbound.log, all, k)
      && (r == AllSent <==> k == |all|)
      && (r == AllSent <==>
            && Fits(client, stageID, correlation, request)
            && RoomForAll(old(|client.outbound.Contents()|), old(client.hostEpoch), script, |all|,
                          client.outbound.capacity, client.attachedEpoch))
      && RequestOut(Packets(old(client.outbound.log)), Packets(client.outbound.log), kind, correlation, stageID,
                    deadline, trace, Chunks(request, client.inlineBudget - HEADER_LEN))
  {
    hide Packets, RequestOut, Chunks, SentFirst, AppendedPacket, RingLayout.Holds, FragmentPacket, RoomForAll,
         LeftAfter;
    var budget := client.inlineBudget;
    if budget <= HEADER_LEN {
      return NoBudget;
    }
    var chunk: nat := budget - HEADER_LEN;
    var frame := new byte[budget];
    var env := RequestEnvelope(kind, correlation, stageID, deadline, trace);
    ghost var parts := Chunks(request, chunk);
    ghost var all := Stream(env, parts);
    ghost var k := 0;
    var moves := script;
    var first, offset := true, 0;
    assert request[0..] == request;
    SentNone(client.outbound.log, all);
    while first || offset < |request|
      invariant client.Valid() && fresh(frame)
      invariant 0 <= offset <= |request| && first == (k == 0)
      invariant k <= |parts| && (k < |parts| <==> first || offset < |request|)
      invariant k < |parts| ==> parts[k..] == Chunks(request[offset..], chunk)
      invariant k == 0 ==> offset == 0
      invariant SentFirst(old(client.outbound.log), client.outbound.log, all, k)
      invariant |client.outbound.log| == |old(client.outbound.log)| + k
      invariant k > 0 ==> Fits(client, stageID, correlation, request) && client.hostEpoch == client.attachedEpoch
      invariant script == [] ==> moves == [] && client.hostEpoch == old(client.hostEpoch)
                                 && client.outbound.taken == old(client.outbound.taken)
      invariant client.outbound.taken >= old(client.outbound.taken)
      invariant RoomForAll(old(|client.outbound.Contents()|), old(client.hostEpoch), script, |all|,
                           client.outbound.capacity, client.attachedEpoch)
                == RoomForAll(|client.outbound.Contents()|, client.hostEpoch, moves, |all| - k,
                              client.outbound.capacity, client.attachedEpoch)
      decreases first, |request| - offset
    {
      first := false;
      var part := |request| - offset;
      if part > chunk {
        part := chunk;
      }
      var more := offset + part < |request|;
      ChunkStep(request, offset, chunk);
      var piece := request[offset..offset + part];
      assert all[k] == FragmentPacket(env, piece, more);
      ghost var mid := client.outbound.log;
      NextRoom(|client.outbound.Contents()|, client.hostEpoch, moves, |all| - k, client.outbound.capacity,
               client.attachedEpoch);
      if moves != [] {
        Move(client, moves[0]);
        moves := moves[1..];
      }
      r := SendOne(client, frame, env, piece, more);
      if r != AllSent {
        SentIsOut(old(client.outbound.log), client.outbound.log, kind, correlation, stageID, deadline, trace, request,
                  chunk, k);
        return;
      }
      SentOneMore(old(client.outbound.log), mid, client.outbound.log, all, k);
      k := k + 1;
      offset := offset + part;
    }
    NoneLeft(|client.outbound.Contents()|, client.hostEpoch, moves, client.outbound.capacity, client.attachedEpoch);
    SentIsOut(old(client.outbound.log), client.outbound.log, kind, correlation, stageID, deadline, trace, request,
              chunk, k);
    return AllSent;
  }

  lemma SentIsOut(before: seq<Bytes>, after: seq<Bytes>, kind: uint32, correlation: uint64, stageID: uint32,
                  deadline: uint64, trace: uint64, request: Bytes, chunk: nat, k: nat)
    requires chunk > 0 && (k > 0 ==> stageID != 0 && Min(|request|, chunk) <= MAX_BODY)
    requires SentFirst(before, after, Stream(RequestEnvelope(kind, correlation, stageID, deadline, trace),
                                             Chunks(request, chunk)), k)
    ensures RequestOut(Packets(before), Packets(after), kind, correlation, stageID, deadline, trace,
                       Chunks(request, chunk))
  {
    hide Chunks, Packets, FragmentPacket;
    RequestIsOut(Packets(before), Packets(after), kind, correlation, stageID, deadline, trace, request, chunk, k);
  }

  lemma NextRoom(n: nat, epoch: uint64, moves: seq<HostMove>, count: nat, capacity: nat, attached: uint64)
    requires count > 0
    ensures var left := if moves == [] then n else LeftAfter(n, moves[0].takes);
            var now := if moves == [] then epoch else moves[0].epoch;
            RoomForAll(n, epoch, moves, count, capacity, attached) <==>
              && now == attached && left < capacity
              && RoomForAll(left + 1, now, if moves == [] then [] else moves[1..], count - 1, capacity, attached)
  {
    hide LeftAfter;
  }

  lemma NoneLeft(n: nat, epoch: uint64, moves: seq<HostMove>, capacity: nat, attached: uint64)
    ensures RoomForAll(n, epoch, moves, 0, capacity, attached)
  {
  }

  /** A request can have more fragments than the ring has slots: the host only has to
      keep up. */
  lemma {:induction false} KeepingUp(n: nat, attached: uint64, count: nat, capacity: nat)
    requires n <= capacity && 0 < capacity
    ensures RoomForAll(n, attached, seq(count, i => HostMove(1, attached)), count, capacity, attached)
    decreases count
  {
    if count > 0 {
      var moves := seq(count, i => HostMove(1, attached));
      assert moves[1..] == seq(count - 1, i => HostMove(1, attached));
      KeepingUp(LeftAfter(n, 1) + 1, attached, count - 1, capacity);
    }
  }

  /** And a request that fits is lost if the host restarts after its first
      fragment. */
  lemma RestartStops(n: nat, attached: uint64, epoch: uint64, count: nat, capacity: nat)
    requires n < capacity && count > 1 && epoch != attached
    ensures !RoomForAll(n, attached, [HostMove(0, attached), HostMove(0, epoch)], count, capacity, attached)
  {
    var moves := [HostMove(0, attached), HostMove(0, epoch)];
    assert moves[1..] == [HostMove(0, epoch)];
  }
}
