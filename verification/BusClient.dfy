/** The attached client: emitting one frame into the outbound ring, polling one
    event from the inbound ring (server-go/bus/client.go:188-305). */
module BusClient {
  import opened Bytes
  import opened Wire
  import opened RingLayout
  import opened Rings

  datatype Event = Event(frame: Frame, payload: Bytes)

  datatype EmitResult = Sent | ErrProtocol | ErrPayload | ErrEpoch | ErrWouldBlock

  datatype PollResult =
    | Polled(event: Event)
    | NothingYet
    | EpochOver
    | NoControl
    | SliceFault                     // the payload slice expression is out of range

  /** What Poll makes of the bytes in a slot. */
  datatype View = Skipped | Delivered(event: Event) | Faulty

  // ------------------------------------------------------- frames and slots

  /** `flags | F_INLINE`. */
  function WithInline(flags: uint16): (r: uint16) {
    if flags % 2 == 1 then flags else flags + F_INLINE
  }

  /** The frame that emit builds. */
  function FrameFor(handle: uint32, flags: uint16, kind: uint32, correlation: uint64, payload: Bytes): Frame {
    if payload == []
    then Frame(flags, WIRE_VERSION, kind, 0, correlation, 0, 0, 0, 0, handle, 0, 0)
    else Frame(WithInline(flags), WIRE_VERSION, kind, 0, correlation, 0, 0, HDR_LEN, |payload| % TWO32, handle, 0, 0)
  }

  /** The sum that bounds a payload slice wraps at 2^64. */
  function PayloadEnd(f: Frame): uint64 {
    (f.payloadRef + f.payloadLen) % TWO64
  }

  function ViewOf(slot: Bytes): View {
    match DecodeBytes(slot)
    case Refused(_) => Skipped
    case Header(f) => PayloadView(f, slot)
  }

  function PayloadView(f: Frame, slot: Bytes): View {
    if !Has(f.flags, F_INLINE) || f.payloadLen == 0 || PayloadEnd(f) > |slot| then Delivered(Event(f, []))
    else if f.payloadRef > PayloadEnd(f) then Faulty
    else Delivered(Event(f, slot[f.payloadRef..PayloadEnd(f)]))
  }

  /** A slot whose frame passes CheckPlacement is always delivered, an inline one
      with exactly the bytes it points at. */
  lemma PlacedIsDelivered(slot: Bytes, arenaSize: uint64)
    requires DecodeBytes(slot).Header? && |slot| < TWO32
    requires CheckPlacement(DecodeBytes(slot).frame, |slot|, arenaSize) == OK
    ensures var f := DecodeBytes(slot).frame;
            if Has(f.flags, F_INLINE) && f.payloadLen > 0
            then HDR_LEN <= f.payloadRef && f.payloadRef + f.payloadLen <= |slot|
                 && ViewOf(slot) == Delivered(Event(f, slot[f.payloadRef..f.payloadRef + f.payloadLen]))
            else ViewOf(slot) == Delivered(Event(f, []))
  {
    hide DecodeBytes, Validate, Has;
    var f := DecodeBytes(slot).frame;
    if f.payloadLen > 0 && Has(f.flags, F_INLINE) {
      PlacementMeans(f, |slot|, arenaSize);
    }
  }

  /** Poll's own bound lets a slice fault through exactly when the header's end
      offset wraps past 2^64 and lands inside the slot. */
  lemma FaultExactlyOnWrap(slot: Bytes)
    requires DecodeBytes(slot).Header? && |slot| < TWO32
    ensures var f := DecodeBytes(slot).frame;
            ViewOf(slot) == Faulty <==>
              && Has(f.flags, F_INLINE) && f.payloadLen > 0
              && TWO64 <= f.payloadRef + f.payloadLen <= TWO64 + |slot|
  {
    hide DecodeBytes, Validate, Has;
  }

  /** A valid frame whose payload ends past 2^64. */
  function WrappingFrame(): Frame {
    Frame(F_REQUEST + F_INLINE, WIRE_VERSION, 1, 0, 1, 0, 0, TWO64 - 1, 2, 0, 0, 0)
  }

  /** Such a frame is accepted by Decode, and Poll's slice of it faults. */
  lemma PollCanFault(rest: Bytes)
    requires |rest| < MAX_PAYLOAD
    ensures ViewOf(Encoded(WrappingFrame()) + rest) == Faulty
  {
    var f := WrappingFrame();
    SmallPowers();
    FlagTests(f.flags);
    ValidMeans(f);
    DecodeOfEncoded(f, rest);
    FaultExactlyOnWrap(Encoded(f) + rest);
    hide DecodeBytes, Validate, Encoded, Flag, Has, ViewOf;
  }

  lemma InlineIsSet(flags: uint16)
    ensures Has(WithInline(flags), F_INLINE)
  {
    hide And, Has;
    FlagTests(WithInline(flags));
    assert Pow2(0) == 1;
  }

  /** A slot that emit filled is seen as the frame and payload it was given. */
  lemma EmittedView(f: Frame, payload: Bytes, rest: Bytes, flags: uint16)
    requires |payload| < TWO32 && Validate(f) == OK
    requires f == FrameFor(f.src, flags, f.kind, f.correlation, payload)
    ensures ViewOf(Encoded(f) + payload + rest) == Delivered(Event(f, payload))
  {
    hide DecodeBytes, Validate, Encoded, PayloadView, FrameFor;
    var s := Encoded(f) + payload + rest;
    DecodeOfEncoded(f, payload + rest);
    assert s == Encoded(f) + (payload + rest);
    EmittedPayload(f, s, payload, flags);
  }

  lemma EmittedPayload(f: Frame, s: Bytes, payload: Bytes, flags: uint16)
    requires |payload| < TWO32 && HDR_LEN + |payload| <= |s|
    requires f == FrameFor(f.src, flags, f.kind, f.correlation, payload)
    requires s[HDR_LEN..HDR_LEN + |payload|] == payload
    ensures PayloadView(f, s) == Delivered(Event(f, payload))
  {
    hide Has;
    InlineIsSet(flags);
  }

  /** `after` is `before` and one more slot, which is seen as `e`. */
  ghost predicate Appended(before: seq<Bytes>, after: seq<Bytes>, e: Event) {
    |after| == |before| + 1 && after[..|before|] == before && ViewOf(after[|before|]) == Delivered(e)
  }

  /** The bytes of a slot that holds this frame and payload: the client's handle as
      the source, nothing in the fields the host fills in, and a payload right after
      the header, marked inline. */
  ghost predicate SlotBytes(s: Bytes, handle: uint32, flags: uint16, kind: uint32, correlation: uint64,
                            payload: Bytes)
  {
    && |s| >= 64 + |payload| && s[64..64 + |payload|] == payload
    && s[0..4] == LE(0x30535542, 4) && s[6..8] == LE(3, 2) && s[8..12] == LE(kind, 4)
    && s[4..6] == LE(if payload == [] then flags else flags / 2 * 2 + 1, 2)
    && s[12..16] == LE(0, 4) && s[16..24] == LE(correlation, 8) && s[24..32] == LE(0, 8) && s[32..40] == LE(0, 8)
    && s[40..48] == LE(if payload == [] then 0 else 64, 8) && s[48..52] == LE(|payload|, 4)
    && s[52..56] == LE(handle, 4) && s[56..60] == LE(0, 4) && s[60..64] == LE(0, 4)
  }

  /** What one more slot of the outbound log says in bytes. */
  lemma AppendedBytes(before: seq<Bytes>, after: seq<Bytes>, handle: uint32, flags: uint16, kind: uint32,
                      correlation: uint64, payload: Bytes)
    requires Appended(before, after, Event(FrameFor(handle, flags, kind, correlation, payload), payload))
    ensures SlotBytes(after[|before|], handle, flags, kind, correlation, payload)
  {
    var s, f := after[|before|], FrameFor(handle, flags, kind, correlation, payload);
    PayloadIs(s, f, flags, payload);
    HeaderBytes(s, f);
    FrameForIs(handle, flags, kind, correlation, payload);
    hide LE, DecodeBytes, Validate, ViewOf, FrameFor;
  }

  lemma FrameForIs(handle: uint32, flags: uint16, kind: uint32, correlation: uint64, payload: Bytes)
    ensures var f := FrameFor(handle, flags, kind, correlation, payload);
            && f.flags == (if payload == [] then flags else flags / 2 * 2 + 1)
            && f.version == 3 && f.kind == kind && f.principal == 0 && f.correlation == correlation
            && f.sequence == 0 && f.logicalTS == 0 && f.payloadRef == (if payload == [] then 0 else 64)
            && f.src == handle && f.dst == 0 && f.generation == 0
  {
  }

  lemma PayloadIs(s: Bytes, f: Frame, flags: uint16, payload: Bytes)
    requires ViewOf(s) == Delivered(Event(f, payload)) && f == FrameFor(f.src, flags, f.kind, f.correlation, payload)
    ensures DecodeBytes(s) == Header(f)
    ensures |s| >= 64 + |payload| && s[64..64 + |payload|] == payload && f.payloadLen == |payload|
  {
    DecodedAt(s);
    InlineIsSet(flags);
    hide Has, Validate, FrameReads, FromLE;
  }

  lemma HeaderBytes(s: Bytes, f: Frame)
    requires DecodeBytes(s) == Header(f)
    ensures |s| >= 64
    ensures s[0..4] == LE(0x30535542, 4) && s[4..6] == LE(f.flags, 2) && s[6..8] == LE(f.version, 2)
    ensures s[8..12] == LE(f.kind, 4) && s[12..16] == LE(f.principal, 4) && s[16..24] == LE(f.correlation, 8)
    ensures s[24..32] == LE(f.sequence, 8) && s[32..40] == LE(f.logicalTS, 8) && s[40..48] == LE(f.payloadRef, 8)
    ensures s[48..52] == LE(f.payloadLen, 4) && s[52..56] == LE(f.src, 4) && s[56..60] == LE(f.dst, 4)
    ensures s[60..64] == LE(f.generation, 4)
  {
    EncodedOfDecode(s);
    hide LE, Encoded, DecodeBytes, Validate;
    EncodedAt(f);
    Within(s, Encoded(f));
  }

  lemma Within(s: Bytes, header: Bytes)
    requires |header| == 64 <= |s| && s[..64] == header
    ensures forall i, j | 0 <= i <= j <= 64 :: s[i..j] == header[i..j]
  {
  }

  /** The flags of one fragment before placement. */
  function FragmentFlags(pattern: uint16, more: bool): (r: uint16)
    requires pattern == F_REQUEST || pattern == F_REPLY
  {
    if more then pattern + F_MORE else pattern
  }

  // ------------------------------------------------------------- the client

  class Client {
    const handle: uint32
    const inlineBudget: uint32
    const slotSize: uint32
    const control: bool
    const attachedEpoch: uint64
    const inbound: Ring
    const outbound: Ring
    /** The epoch the host publishes in the control region. */
    var hostEpoch: uint64
    var pendingRead: bool

    ghost predicate Valid()
      reads this, inbound, inbound.mem, outbound, outbound.mem
    {
      && inbound != outbound && inbound.mem != outbound.mem
      && inbound.Valid() && outbound.Valid()
      && inbound.slotSize == outbound.slotSize == slotSize
      && (pendingRead ==> inbound.Contents() != [])
    }

    function EpochChanged(): bool
      reads this`hostEpoch
    {
      control && hostEpoch != attachedEpoch
    }

    constructor (handle: uint32, inlineBudget: uint32, epoch: uint64, inbound: Ring, outbound: Ring)
      requires inbound != outbound && inbound.mem != outbound.mem && inbound.Valid() && outbound.Valid()
      requires inbound.slotSize == outbound.slotSize
      ensures Valid() && !pendingRead && !EpochChanged() && control
      ensures this.inbound == inbound && this.outbound == outbound && this.inlineBudget == inlineBudget
    {
      this.handle, this.inlineBudget, this.slotSize := handle, inlineBudget, inbound.slotSize;
      this.control, this.attachedEpoch, this.hostEpoch := true, epoch, epoch;
      this.inbound, this.outbound, this.pendingRead := inbound, outbound, false;
    }

    /** How emit ends, decided before anything is written. */
    ghost function Outcome(flags: uint16, kind: uint32, correlation: uint64, payload: Bytes): EmitResult
      reads this, outbound, outbound.mem
      requires outbound.Valid()
    {
      if !control then ErrProtocol
      else if payload != [] && (|payload| % TWO32 > inlineBudget || HDR_LEN + |payload| > slotSize) then ErrPayload
      else if EpochChanged() then ErrEpoch
      else if |outbound.Contents()| == outbound.capacity then ErrWouldBlock
      else if slotSize < HDR_LEN || Validate(FrameFor(handle, flags, kind, correlation, payload)) != OK
      then ErrProtocol
      else Sent
    }

    /** When emit fails with which error: a payload over the budget or the slot counts
        before a new epoch, and that before a full ring. */
    lemma EmitFails(flags: uint16, kind: uint32, correlation: uint64, payload: Bytes)
      requires outbound.Valid()
      ensures var r := Outcome(flags, kind, correlation, payload);
              var big := payload != [] && (|payload| % 0x1_0000_0000 > inlineBudget || 64 + |payload| > slotSize);
              var gone, full := hostEpoch != attachedEpoch, |outbound.Contents()| == outbound.capacity;
              && (r == ErrPayload <==> control && big)
              && (r == ErrEpoch <==> control && !big && gone)
              && (r == ErrWouldBlock <==> control && !big && !gone && full)
              && (!control ==> r == ErrProtocol)
              && (r == Sent ==> control && !big && !gone && !full && slotSize >= 64)
    {
      hide Validate, FrameFor;
    }

    /** Appends exactly one frame, which a reader sees with the same header and
        payload; on any error the outbound queue is as it was. */
    method Emit(flags: uint16, kind: uint32, correlation: uint64, payload: Bytes) returns (r: EmitResult)
      requires Valid()
      modifies outbound`log, outbound.mem
      ensures Valid()
      ensures r == old(Outcome(flags, kind, correlation, payload))
      ensures r != Sent ==> outbound.log == old(outbound.log)
      ensures r == Sent ==>
        Appended(old(outbound.log), outbound.log,
                 Event(FrameFor(handle, flags, kind, correlation, payload), payload))
        && SlotBytes(outbound.log[|old(outbound.log)|], handle, flags, kind, correlation, payload)
    {
      if !control {
        return ErrProtocol;
      }
      if payload != [] && (|payload| % TWO32 > inlineBudget || HDR_LEN + |payload| > slotSize) {
        return ErrPayload;
      }
      if EpochChanged() {
        return ErrEpoch;
      }
      var ok, slot := outbound.ProduceBegin();
      if !ok {
        return ErrWouldBlock;
      }
      var f := FrameFor(handle, flags, kind, correlation, payload);
      var filled := Fill(outbound, slot, f, flags, payload);
      if !filled {
        return ErrProtocol;
      }
      outbound.ProduceCommit();
      AppendedBytes(old(outbound.log), outbound.log, handle, flags, kind, correlation, payload);
      return Sent;
    }

    /** How a fragment emission ends. */
    ghost function FragmentOutcome(pattern: uint16, kind: uint32, correlation: uint64, payload: Bytes, more: bool)
        : EmitResult
      reads this, outbound, outbound.mem
      requires outbound.Valid() && (pattern == F_REQUEST || pattern == F_REPLY)
    {
      if correlation == 0 || (more && payload == []) then ErrProtocol
      else Outcome(FragmentFlags(pattern, more), kind, correlation, payload)
    }

    method Fragment(pattern: uint16, kind: uint32, correlation: uint64, payload: Bytes, more: bool)
        returns (r: EmitResult)
      requires Valid() && (pattern == F_REQUEST || pattern == F_REPLY)
      modifies outbound`log, outbound.mem
      ensures Valid()
      ensures r == old(FragmentOutcome(pattern, kind, correlation, payload, more))
      ensures correlation == 0 || (more && payload == []) ==> r == ErrProtocol
      ensures r != Sent ==> outbound.log == old(outbound.log)
      ensures r == Sent ==>
        Appended(old(outbound.log), outbound.log,
                 Event(FrameFor(handle, FragmentFlags(pattern, more), kind, correlation, payload), payload))
    {
      if correlation == 0 {
        return ErrProtocol;
      }
      var flags := pattern;
      if more {
        if payload == [] {
          return ErrProtocol;
        }
        flags := flags + F_MORE;
      }
      r := Emit(flags, kind, correlation, payload);
    }

    /** Cancels an outstanding request. */
    method Cancel(kind: uint32, correlation: uint64) returns (r: EmitResult)
      requires Valid()
      modifies outbound`log, outbound.mem
      ensures Valid()
      ensures r == if correlation == 0 then ErrProtocol else old(Outcome(F_CANCEL, kind, correlation, []))
      ensures r != Sent ==> outbound.log == old(outbound.log)
      ensures r == Sent ==>
        Appended(old(outbound.log), outbound.log, Event(FrameFor(handle, F_CANCEL, kind, correlation, []), []))
    {
      if correlation == 0 {
        return ErrProtocol;
      }
      r := Emit(F_CANCEL, kind, correlation, []);
    }

    /** The inbound queue once the event handed out last has been released. */
    ghost function Waiting(): seq<Bytes>
      reads this, inbound, inbound.mem
      requires inbound.Valid() && (pendingRead ==> inbound.Contents() != [])
    {
      if pendingRead then inbound.Contents()[1..] else inbound.Contents()
    }

    /** How many inbound slots Poll has gone past, the one handed out included. */
    ghost function Passed(): nat
      reads this`pendingRead, inbound`taken
    {
      inbound.taken + (if pendingRead then 1 else 0)
    }

    /** Takes the next inbound event. The slot handed out stays in the ring, and so
        out of the producer's reach, until the next Poll; a slot that does not
        decode is dropped. */
    method Poll() returns (r: PollResult)
      requires Valid()
      modifies this`pendingRead, inbound`taken, inbound.mem
      ensures Valid() && inbound.log == old(inbound.log)
      ensures var queue := old(Waiting());
              if !control then r == NoControl && inbound.Contents() == old(inbound.Contents())
              else if EpochChanged() then r == EpochOver && inbound.Contents() == old(inbound.Contents())
              else if queue == [] then r == NothingYet && !pendingRead && inbound.Contents() == []
              else match ViewOf(queue[0])
                case Skipped => r == NothingYet && !pendingRead && inbound.Contents() == queue[1..]
                case Faulty => r == SliceFault && !pendingRead && inbound.Contents() == queue
                case Delivered(e) => r == Polled(e) && pendingRead && inbound.Contents() == queue
      ensures old(Passed()) <= Passed() <= |inbound.log|
      ensures r.Polled? ==> Passed() == old(Passed()) + 1
                            && ViewOf(inbound.log[old(Passed())]) == Delivered(r.event)
      ensures r.NoControl? || r.EpochOver? || r.SliceFault? ==> Passed() == old(Passed())
      ensures (r.NoControl? <==> !control) && (r.EpochOver? <==> EpochChanged())
      ensures r.SliceFault? ==> Passed() < |inbound.log| && ViewOf(inbound.log[Passed()]) == Faulty
      ensures r == NothingYet ==>
        || Passed() == old(Passed()) == |inbound.log|
        || (Passed() == old(Passed()) + 1 && ViewOf(inbound.log[old(Passed())]) == Skipped)
    {
      hide ViewOf, Holds;
      if !control {
        return NoControl;
      }
      if EpochChanged() {
        return EpochOver;
      }
      if pendingRead {
        inbound.ConsumeCommit();
        pendingRead := false;
      }
      var ok, slot := inbound.ConsumeBegin();
      if !ok {
        return NothingYet;
      }
      var view := ViewSlot(inbound.mem, slot, slotSize);
      match view {
        case Skipped =>
          inbound.ConsumeCommit();
          return NothingYet;
        case Faulty =>
          return SliceFault;
        case Delivered(e) =>
          pendingRead := true;
          return Polled(e);
      }
    }
  }

  /** Decodes the frame in a slot and slices out its inline payload. */
  method ViewSlot(mem: array<byte>, slot: nat, slotSize: uint32) returns (v: View)
    requires slot + slotSize <= mem.Length
    ensures v == ViewOf(mem[slot..slot + slotSize])
  {
    hide DecodeBytes, Has;
    var d := Decode(mem, slot, slotSize);
    if d.Refused? {
      return Skipped;
    }
    var f := d.frame;
    var payload := [];
    if Has(f.flags, F_INLINE) && f.payloadLen > 0 && PayloadEnd(f) <= slotSize {
      if f.payloadRef > PayloadEnd(f) {
        return Faulty;
      }
      payload := mem[slot + f.payloadRef..slot + PayloadEnd(f)];
      assert payload == mem[slot..slot + slotSize][f.payloadRef..PayloadEnd(f)];
    }
    return Delivered(Event(f, payload));
  }

  method CopyIn(mem: array<byte>, off: nat, payload: Bytes)
    requires off + |payload| <= mem.Length
    modifies mem
    ensures mem[..] == Splice(old(mem[..]), off, payload)
  {
    for i := 0 to |payload|
      invariant mem[..off] == old(mem[..off])
      invariant mem[off..off + i] == payload[..i]
      invariant mem[off + i..] == old(mem[off + i..])
    {
      mem[off + i] := payload[i];
    }
    Cut3(mem[..], off, off + |payload|);
  }

  /** A header and a payload written one after the other into the free slot leave
      the queue alone; the slot then starts with both. */
  lemma FillFreeSlot(s: Bytes, g: Geometry, base: nat, log: seq<Bytes>, taken: nat, header: Bytes, payload: Bytes)
      returns (rest: Bytes)
    requires Holds(s, g, base, log, taken) && |log| < taken + g.capacity
    requires |header| + |payload| <= g.slotSize
    ensures |s| >= SLOTS_OFF && SlotStart(g, Head(s)) + g.slotSize <= |s|
    ensures var slot := SlotStart(g, Head(s));
            var t := Splice(Splice(s, slot, header), slot + |header|, payload);
            && Holds(t, g, base, log, taken)
            && Element(t, g, base, |log|) == header + payload + rest
  {
    SlotInBounds(g, Head(s));
    var slot := SlotStart(g, Head(s));
    var both := header + payload;
    SpliceAppend(s, slot, header, payload);
    WriteFreeSlot(s, g, base, log, taken, 0, both);
    WriteKeepsIndices(s, slot, both);
    rest := SplicedWindow(s, slot, g.slotSize, both);
  }

  lemma SplicedWindow(s: Bytes, off: nat, size: nat, t: Bytes) returns (rest: Bytes)
    requires |t| <= size && off + size <= |s|
    ensures Splice(s, off, t)[off..off + size] == t + rest
  {
    rest := s[off + |t|..off + size];
  }

  /** Writes the header and the payload into the free slot `slot`; an invalid
      frame, or a slot too small for a header, is left unwritten. */
  method Fill(ring: Ring, slot: nat, f: Frame, ghost flags: uint16, payload: Bytes) returns (ok: bool)
    requires ring.Valid() && |ring.Contents()| < ring.capacity
    requires slot == SlotStart(ring.Geo(), Head(ring.mem[..])) && slot + ring.slotSize <= ring.mem.Length
    requires payload != [] ==> HDR_LEN + |payload| <= ring.slotSize
    requires |payload| < TWO32 && f == FrameFor(f.src, flags, f.kind, f.correlation, payload)
    modifies ring.mem
    ensures ring.Valid()
    ensures ok == (ring.slotSize >= HDR_LEN && Validate(f) == OK)
    ensures ok ==>
      ViewOf(Element(ring.mem[..], ring.Geo(), ring.base, |ring.log|)) == Delivered(Event(f, payload))
  {
    hide Validate, Encoded, ViewOf, FrameFor, Times, Splice;
    ghost var s := ring.mem[..];
    var n := Encode(f, ring.mem, slot, ring.slotSize);
    if n != HDR_LEN {
      assert ring.mem[..] == s;
      return false;
    }
    CopyIn(ring.mem, slot + n, payload);
    ghost var rest := FillFreeSlot(s, ring.Geo(), ring.base, ring.log, ring.taken, Encoded(f), payload);
    EmittedView(f, payload, rest, flags);
    return true;
  }
}
