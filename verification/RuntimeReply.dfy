/** The module's fragmenter: one terminal reply, cut across the inline budget into
    the outbound ring, waiting while the ring is full
    (server-go/bus/module_runtime.go:223-274). */
module RuntimeReply {
  import opened Bytes
  import opened Wire
  import opened ModuleProtocol
  import MP = ModuleProtocol
  import opened BusClient
  import opened Fragments
  import opened CallerSend
  import opened HostSide
  import opened RuntimeModel
  import RingLayout

  /** What happens around one attempt to publish: the context is over, or the host
      moves. */
  datatype Wait = ContextOver | Pause(move: HostMove)

  /** The host never restarts. */
  ghost predicate Steady(client: Client, waits: seq<Wait>) {
    forall i :: 0 <= i < |waits| && waits[i].Pause? ==> waits[i].move.epoch == client.attachedEpoch
  }

  datatype ReplyEnd =
    | ReplySent
    | NoReplyBudget
    | EncodeFailed
    | BusError(why: EmitResult)
    | HostGone
    | Cancelled

  /** The fragments of one normalised reply. */
  function ReplyStream(r: Reply, chunk: nat): seq<Packet>
    requires chunk > 0
  {
    var n := Normalised(r);
    Stream(ReplyEnvelope(n.kind, n.correlation, n.stageID, n.trace, n.status), Chunks(n.body, chunk))
  }

  /** What a receiver reads of a reply, in however many fragments it comes: an unknown
      status, or a body over 16 MiB, has become Internal, only OK carries its body, and
      kind, correlation, stage and trace are those of the reply. */
  lemma ReplyOnWire(r: Reply, chunk: nat, i: nat)
    requires chunk > 0 && r.stageID != 0
    ensures var status := if r.status > 5 || |r.body| > 0x100_0000 then 5 else r.status;
            var parts := Chunks(if status == 0 then r.body else [], chunk);
            && |ReplyStream(r, chunk)| == |parts|
            && (i < |parts| ==>
                  ReplyFragment(ReplyStream(r, chunk)[i], r.kind, r.correlation, r.stageID, r.trace, status, parts[i],
                                i < |parts| - 1))
  {
    var n := Normalised(r);
    var parts := Chunks(n.body, chunk);
    hide Chunks, FragmentPacket, ReplyFragment;
    if i < |parts| {
      PieceLength(n.body, chunk, i);
      ReplyReads(n.kind, n.correlation, n.stageID, n.trace, n.status, parts[i], i < |parts| - 1);
    }
  }

  /** The client's geometry carries any fragment the budget allows. */
  ghost predicate Fitting(client: Client)
    reads client
  {
    && client.control && HEADER_LEN < client.inlineBudget <= MAX_PAYLOAD
    && HDR_LEN + client.inlineBudget <= client.slotSize
  }

  /** Publishes one fragment, retrying for as long as the ring is full; the host can
      move before each attempt and during each wait. However often it retries, the
      fragment enters the ring once or not at all. */
  method PublishFragment(client: Client, env: Envelope, payload: Bytes, more: bool, waits: seq<Wait>, from: nat)
      returns (r: ReplyEnd, next: nat)
    requires client.Valid() && env.pattern == F_REPLY && from <= |waits|
    requires HEADER_LEN <= |payload| <= client.inlineBudget
    modifies client`hostEpoch, client.outbound`log, client.outbound`taken, client.outbound.mem
    ensures client.Valid() && from <= next <= |waits|
    ensures r != ReplySent ==> client.outbound.log == old(client.outbound.log)
    ensures r == ReplySent ==>
      Appended(old(client.outbound.log), client.outbound.log,
               Event(FrameFor(client.handle, FragmentFlags(F_REPLY, more), env.kind, env.correlation, payload),
                     payload))
    ensures r == Cancelled ==> next == |waits| || waits[next].ContextOver?
    ensures old(!client.EpochChanged()) && Steady(client, waits) ==> !client.EpochChanged() && r != HostGone
    ensures Fitting(client) && env.correlation != 0 ==>
      || r == ReplySent || r == Cancelled
      || ((r == HostGone || r == BusError(ErrEpoch)) && client.EpochChanged())
  {
    hide RingLayout.Holds, ViewOf, Validate, FrameFor;
    next := from;
    while true
      invariant client.Valid() && from <= next <= |waits|
      invariant client.outbound.log == old(client.outbound.log)
      invariant old(!client.EpochChanged()) && Steady(client, waits) ==> !client.EpochChanged()
      decreases |waits| - next
    {
      if next < |waits| {
        if waits[next].Pause? {
          Move(client, waits[next].move);
        }
        next := next + 1;
      }
      OutcomeWhenFitting(client, env, payload, more);
      var sent := client.Fragment(F_REPLY, env.kind, env.correlation, payload, more);
      if sent == Sent {
        return ReplySent, next;
      }
      if sent != ErrWouldBlock {
        return BusError(sent), next;
      }
      if next == |waits| || waits[next].ContextOver? {
        return Cancelled, next;
      }
      Move(client, waits[next].move);
      next := next + 1;
      if client.EpochChanged() {
        return HostGone, next;
      }
    }
  }

  lemma OutcomeWhenFitting(client: Client, env: Envelope, payload: Bytes, more: bool)
    requires client.Valid() && HEADER_LEN <= |payload| <= client.inlineBudget
    ensures Fitting(client) && env.correlation != 0 ==>
      var r := client.FragmentOutcome(F_REPLY, env.kind, env.correlation, payload, more);
      r == Sent || r == ErrWouldBlock || (r == ErrEpoch && client.EpochChanged())
  {
    if env.correlation != 0 {
      FragmentIsValid(client.handle, F_REPLY, env.kind, env.correlation, payload, more);
    }
    hide Validate, FrameFor, RingLayout.Holds;
  }

  /** One turn of the loop: envelope and piece, published. */
  method ReplyOne(client: Client, env: Envelope, part: Bytes, more: bool, waits: seq<Wait>, from: nat)
      returns (r: ReplyEnd, next: nat)
    requires client.Valid() && env.pattern == F_REPLY && from <= |waits|
    requires HEADER_LEN + |part| <= client.inlineBudget
    modifies client`hostEpoch, client.outbound`log, client.outbound`taken, client.outbound.mem
    ensures client.Valid() && from <= next <= |waits|
    ensures r != ReplySent ==> client.outbound.log == old(client.outbound.log)
    ensures r == ReplySent ==>
      AppendedPacket(old(client.outbound.log), client.outbound.log, FragmentPacket(env, part, more))
    ensures r == Cancelled ==> next == |waits| || waits[next].ContextOver?
    ensures old(!client.EpochChanged()) && Steady(client, waits) ==> !client.EpochChanged() && r != HostGone
    ensures Fitting(client) && env.correlation != 0 && ValidMessage(HeaderFor(env, part)) ==>
      || r == ReplySent || r == Cancelled
      || ((r == HostGone || r == BusError(ErrEpoch)) && client.EpochChanged())
  {
    hide RingLayout.Holds, ViewOf, FrameFor, Payload;
    var buffer := new byte[HEADER_LEN + |part|];
    var ok, payload := BuildPayload(buffer, env, part);
    if !ok {
      return EncodeFailed, from;
    }
    r, next := PublishFragment(client, env, payload, more, waits, from);
    FragmentEvent(client.handle, env, part, more);
  }

  /** Sends the whole reply in order. ReplySent, exactly its fragments have been
      appended, once each; otherwise a proper prefix of them. With fitting geometry
      and an identified stage and correlation, only the host going away or the
      context ending can stop it. */
  method ReplyResult(client: Client, reply: Reply, waits: seq<Wait>, from: nat) returns (r: ReplyEnd, next: nat)
    requires client.Valid() && from <= |waits|
    modifies client`hostEpoch, client.outbound`log, client.outbound`taken, client.outbound.mem
    ensures client.Valid() && from <= next <= |waits|
    ensures client.inlineBudget <= HEADER_LEN ==> r == NoReplyBudget && client.outbound.log == old(client.outbound.log)
    ensures client.inlineBudget > HEADER_LEN ==>
      var all := ReplyStream(reply, client.inlineBudget - HEADER_LEN);
      var k := |client.outbound.log| - |old(client.outbound.log)|;
      && 0 <= k <= |all| && SentFirst(old(client.outbound.log), client.outbound.log, all, k)
      && (r == ReplySent <==> k == |all|)
    ensures r == Cancelled ==> next == |waits| || waits[next].ContextOver?
    ensures old(!client.EpochChanged()) && Steady(client, waits) ==> !client.EpochChanged() && r != HostGone
    ensures Fitting(client) && reply.correlation != 0 && reply.stageID != 0 ==>
      || r == ReplySent || r == Cancelled
      || ((r == HostGone || r == BusError(ErrEpoch)) && client.EpochChanged())
  {
    hide Chunks, SentFirst, RingLayout.Holds, FragmentPacket, Payload, ViewOf, FrameFor;
    var status, body := reply.status, reply.body;
    if status > STATUS_INTERNAL || |body| > MAX_BODY {
      status, body := STATUS_INTERNAL, [];
    } else if status != STATUS_OK {
      body := [];
    }
    var budget := client.inlineBudget;
    next := from;
    if budget <= HEADER_LEN {
      return NoReplyBudget, next;
    }
    var chunk: nat := budget - HEADER_LEN;
    var env := ReplyEnvelope(reply.kind, reply.correlation, reply.stageID, reply.trace, status);
    ghost var parts := Chunks(body, chunk);
    ghost var all := Stream(env, parts);
    ghost var k := 0;
    var first, offset := true, 0;
    assert body[0..] == body;
    SentNone(client.outbound.log, all);
    while first || offset < |body|
      invariant client.Valid() && from <= next <= |waits|
      invariant old(!client.EpochChanged()) && Steady(client, waits) ==> !client.EpochChanged()
      invariant 0 <= offset <= |body| && first == (k == 0)
      invariant k <= |parts| && (k < |parts| <==> first || offset < |body|)
      invariant k < |parts| ==> parts[k..] == Chunks(body[offset..], chunk)
      invariant k == 0 ==> offset == 0
      invariant SentFirst(old(client.outbound.log), client.outbound.log, all, k)
      invariant |client.outbound.log| == |old(client.outbound.log)| + k
      decreases first, |body| - offset
    {
      first := false;
      var part := |body| - offset;
      if part > chunk {
        part := chunk;
      }
      var more := offset + part < |body|;
      ChunkStep(body, offset, chunk);
      var piece := body[offset..offset + part];
      assert all[k] == FragmentPacket(env, piece, more);
      ghost var mid := client.outbound.log;
      r, next := ReplyOne(client, env, piece, more, waits, next);
      if r != ReplySent {
        return;
      }
      SentOneMore(old(client.outbound.log), mid, client.outbound.log, all, k);
      k := k + 1;
      offset := offset + part;
    }
    return ReplySent, next;
  }
}
