/** The 64-byte frame header: what it may hold, how it is laid out, and how it
    is read back (server-go/bus/wire.go). */
module Wire {
  import opened Bytes

  const WIRE_MAGIC: uint32 := 0x30535542
  const WIRE_VERSION: uint16 := 3
  const HDR_LEN: nat := 64
  const MAX_PAYLOAD: uint32 := 0x10_0000

  const F_INLINE: uint16 := 0x0001
  const F_ARENA: uint16 := 0x0002
  const F_NOTIFICATION: uint16 := 0x0004
  const F_REQUEST: uint16 := 0x0008
  const F_REPLY: uint16 := 0x0010
  const F_CANCEL: uint16 := 0x0020
  const F_CONTROL: uint16 := 0x0040
  const F_MORE: uint16 := 0x0080
  const PLACEMENT_MASK: uint16 := 0x0003
  const PATTERN_MASK: uint16 := 0x003C
  const KNOWN_MASK: uint16 := 0x00FF

  const KIND_ERROR: uint32 := 3
  const KIND_CAPABILITY_ABSENT: uint32 := 4

  datatype Frame = Frame(
    flags: uint16, version: uint16, kind: uint32, principal: uint32,
    correlation: uint64, sequence: uint64, logicalTS: uint64,
    payloadRef: uint64, payloadLen: uint32,
    src: uint32, dst: uint32, generation: uint32)

  datatype WireResult =
    | OK | ErrShort | ErrMagic | ErrVersion | ErrFlags | ErrPayloadLen | ErrCorrelation

  datatype Decoded = Header(frame: Frame) | Refused(reason: WireResult)

  predicate Has(flags: uint16, flag: uint16) {
    And(flags, flag) != 0
  }

  predicate ExactlyOne(v: uint16) {
    v != 0 && And(v, v - 1) == 0
  }

  function Validate(f: Frame): WireResult {
    var placement := And(f.flags, PLACEMENT_MASK);
    var pattern := And(f.flags, PATTERN_MASK);
    if f.version != WIRE_VERSION then ErrVersion
    else if f.flags - And(f.flags, KNOWN_MASK) != 0 then ErrFlags
    else if !ExactlyOne(pattern) then ErrFlags
    else if f.payloadLen > 0 && !ExactlyOne(placement) then ErrFlags
    else if f.payloadLen > 0 && f.payloadLen > MAX_PAYLOAD then ErrPayloadLen
    else if f.payloadLen == 0 && placement != 0 then ErrFlags
    else if f.payloadLen == 0 && f.payloadRef != 0 then ErrPayloadLen
    else if Has(f.flags, F_MORE)
            && ((pattern != F_REQUEST && pattern != F_REPLY) || placement != F_INLINE || f.payloadLen == 0)
    then ErrFlags
    else if !Has(f.flags, F_ARENA) && f.generation != 0 then ErrFlags
    else if Has(f.flags, F_NOTIFICATION) && f.correlation != 0 then ErrCorrelation
    else if !Has(f.flags, F_NOTIFICATION) && f.correlation == 0 then ErrCorrelation
    else OK
  }

  // ------------------------------------------------- what the flag tests mean

  /** The flag numbered `i` is set. */
  predicate Flag(flags: uint16, i: nat) {
    Bit(flags, i)
  }

  /** How many of four conditions hold. */
  function CountTrue(a: bool, b: bool, c: bool, d: bool): nat {
    (if a then 1 else 0) + (if b then 1 else 0) + (if c then 1 else 0) + (if d then 1 else 0)
  }

  lemma SmallPowers()
    ensures Pow2(0) == 1 && Pow2(1) == 2 && Pow2(2) == 4 && Pow2(3) == 8
    ensures Pow2(4) == 0x10 && Pow2(5) == 0x20 && Pow2(6) == 0x40 && Pow2(7) == 0x80
    ensures Pow2(8) == 0x100
  {
    assert Pow2(2) == 2 * Pow2(1);
    assert Pow2(4) == 2 * Pow2(3);
    assert Pow2(6) == 2 * Pow2(5);
    assert Pow2(8) == 2 * Pow2(7);
  }

  /** Each named flag is one bit of the word. */
  lemma FlagTests(v: uint16)
    ensures Flag(v, 0) == Has(v, F_INLINE) && Flag(v, 1) == Has(v, F_ARENA)
    ensures Flag(v, 2) == Has(v, F_NOTIFICATION) && Flag(v, 3) == Has(v, F_REQUEST)
    ensures Flag(v, 4) == Has(v, F_REPLY) && Flag(v, 5) == Has(v, F_CANCEL)
    ensures Flag(v, 7) == Has(v, F_MORE)
  {
    SmallPowers();
    AndOneBit(v, 0); AndOneBit(v, 1); AndOneBit(v, 2); AndOneBit(v, 3);
    AndOneBit(v, 4); AndOneBit(v, 5); AndOneBit(v, 7);
  }

  function Weight(b: bool, w: nat): nat {
    if b then w else 0
  }

  lemma BitWeight(v: uint16, m: uint16, i: nat, w: nat)
    requires w == Pow2(i)
    ensures Pick(v, m, w) == if m / w % 2 == 1 then Weight(Flag(v, i), w) else 0
  {
  }

  lemma PlacementBits(v: uint16)
    ensures And(v, PLACEMENT_MASK) == Weight(Flag(v, 0), 1) + Weight(Flag(v, 1), 2)
  {
    SmallPowers();
    AndByte(v, PLACEMENT_MASK);
    BitWeight(v, PLACEMENT_MASK, 0, 1);
    BitWeight(v, PLACEMENT_MASK, 1, 2);
  }

  lemma PatternBits(v: uint16)
    ensures And(v, PATTERN_MASK) == Weight(Flag(v, 2), 4) + Weight(Flag(v, 3), 8)
                                 + Weight(Flag(v, 4), 0x10) + Weight(Flag(v, 5), 0x20)
  {
    SmallPowers();
    AndByte(v, PATTERN_MASK);
    BitWeight(v, PATTERN_MASK, 2, 4);
    BitWeight(v, PATTERN_MASK, 3, 8);
    BitWeight(v, PATTERN_MASK, 4, 0x10);
    BitWeight(v, PATTERN_MASK, 5, 0x20);
  }

  lemma KnownBits(v: uint16)
    ensures v - And(v, KNOWN_MASK) == 0 <==> v < 0x100
  {
    hide And;
    SmallPowers();
    AndMaskTo(v, 8, 0x100);
  }

  lemma ExactlyOneSmall(v: uint16)
    requires v < 0x40
    ensures ExactlyOne(v) <==> v in {1, 2, 4, 8, 0x10, 0x20}
  {
    if v > 0 {
      PowerOfTwoTest(v);
      SmallPowers();
      forall k: nat | k >= 6 ensures Pow2(k) >= 0x40 { Pow2Grows(6, k); }
    }
  }

  /** A header is valid exactly when: this wire version; no unknown flag;
      one message pattern; payload bytes placed one way and within bounds, or no
      payload and no placement at all; "more" only on inline request and reply
      fragments that carry bytes; a generation only in the arena; and a
      correlation on everything but notifications. */
  lemma ValidMeans(f: Frame)
    ensures Validate(f) == OK <==>
      && f.version == 3
      && f.flags < 0x100
      && CountTrue(Flag(f.flags, 2), Flag(f.flags, 3), Flag(f.flags, 4), Flag(f.flags, 5)) == 1
      && (if f.payloadLen > 0
          then Flag(f.flags, 0) != Flag(f.flags, 1) && f.payloadLen <= 0x10_0000
          else !Flag(f.flags, 0) && !Flag(f.flags, 1) && f.payloadRef == 0)
      && (Flag(f.flags, 7) ==>
            (Flag(f.flags, 3) || Flag(f.flags, 4)) && Flag(f.flags, 0) && f.payloadLen > 0)
      && (f.generation != 0 ==> Flag(f.flags, 1))
      && (Flag(f.flags, 2) <==> f.correlation == 0)
  {
    FlagTests(f.flags);
    PlacementBits(f.flags);
    PatternBits(f.flags);
    KnownBits(f.flags);
    ExactlyOneSmall(And(f.flags, PATTERN_MASK));
    ExactlyOneSmall(And(f.flags, PLACEMENT_MASK));
  }

  /** Why a header is refused: first the version; then the flags one by one; then,
      if nothing else is wrong with the flags, the payload's size; and last the
      correlation. Everything else is a fault of the flags. */
  lemma InvalidMeans(f: Frame)
    ensures Validate(f) in {OK, ErrVersion, ErrFlags, ErrPayloadLen, ErrCorrelation}
    ensures Validate(f) == ErrVersion <==> f.version != 3
    ensures Validate(f) == ErrPayloadLen <==>
              && f.version == 3 && Patterned(f)
              && if f.payloadLen > 0 then f.payloadLen > 0x10_0000 else f.payloadRef != 0
    ensures Validate(f) == ErrCorrelation <==>
              && f.version == 3 && Patterned(f)
              && (if f.payloadLen > 0 then f.payloadLen <= 0x10_0000 else f.payloadRef == 0)
              && (Flag(f.flags, 7) ==>
                    (Flag(f.flags, 3) || Flag(f.flags, 4)) && Flag(f.flags, 0) && f.payloadLen > 0)
              && (f.generation != 0 ==> Flag(f.flags, 1))
              && (Flag(f.flags, 2) <==> f.correlation != 0)
  {
    FlagTests(f.flags);
    PlacementBits(f.flags);
    PatternBits(f.flags);
    KnownBits(f.flags);
    ExactlyOneSmall(And(f.flags, PATTERN_MASK));
    ExactlyOneSmall(And(f.flags, PLACEMENT_MASK));
  }

  /** Known flags only, one message pattern, and one placement exactly if there is
      a payload. */
  predicate Patterned(f: Frame) {
    && f.flags < 0x100
    && CountTrue(Flag(f.flags, 2), Flag(f.flags, 3), Flag(f.flags, 4), Flag(f.flags, 5)) == 1
    && if f.payloadLen > 0 then Flag(f.flags, 0) != Flag(f.flags, 1) else !Flag(f.flags, 0) && !Flag(f.flags, 1)
  }

  // -------------------------------------------------------------- the layout

  function Width(i: nat): nat {
    if i in {0, 3, 4} || i >= 9 then 4 else if i <= 2 then 2 else 8
  }

  function Value(f: Frame, i: nat): nat {
    if i == 0 then WIRE_MAGIC else if i == 1 then f.flags else if i == 2 then f.version
    else if i == 3 then f.kind else if i == 4 then f.principal else if i == 5 then f.correlation
    else if i == 6 then f.sequence else if i == 7 then f.logicalTS else if i == 8 then f.payloadRef
    else if i == 9 then f.payloadLen else if i == 10 then f.src else if i == 11 then f.dst
    else f.generation
  }

  function Values(f: Frame): Record {
    i => Value(f, i)
  }

  const FIELD_COUNT: nat := 13

  lemma ValueFits(f: Frame, i: nat)
    ensures Value(f, i) < Pow256(Width(i))
  {
    Widths();
  }

  /** The offsets the source writes. */
  lemma Starts()
    ensures Start(Width, 0) == 0 && Start(Width, 1) == 4 && Start(Width, 2) == 6
    ensures Start(Width, 3) == 8 && Start(Width, 4) == 12 && Start(Width, 5) == 16
    ensures Start(Width, 6) == 24 && Start(Width, 7) == 32 && Start(Width, 8) == 40
    ensures Start(Width, 9) == 48 && Start(Width, 10) == 52 && Start(Width, 11) == 56
    ensures Start(Width, 12) == 60 && Start(Width, FIELD_COUNT) == HDR_LEN
  {
    assert Start(Width, 2) == 6;
    assert Start(Width, 4) == 12;
    assert Start(Width, 6) == 24;
    assert Start(Width, 8) == 40;
    assert Start(Width, 10) == 52;
    assert Start(Width, 12) == 60;
  }

  /** The 64 header bytes of `f`. */
  function Encoded(f: Frame): (r: Bytes)
    ensures |r| == HDR_LEN
  {
    Starts();
    Pack(Values(f), Width, FIELD_COUNT)
  }

  function At(s: Bytes, i: nat): (r: nat)
    requires |s| >= HDR_LEN && i < FIELD_COUNT
    ensures r < Pow256(Width(i))
  {
    Starts();
    StartGrows(Width, i + 1, FIELD_COUNT);
    FromLEBound(s[Start(Width, i)..Start(Width, i + 1)]);
    Field(s, Width, i)
  }

  function FrameAt(s: Bytes): Frame
    requires |s| >= HDR_LEN
  {
    Widths();
    Frame(At(s, 1), At(s, 2), At(s, 3), At(s, 4), At(s, 5), At(s, 6), At(s, 7), At(s, 8),
          At(s, 9), At(s, 10), At(s, 11), At(s, 12))
  }

  /** What a reader makes of the bytes of a slot. */
  function DecodeBytes(s: Bytes): Decoded {
    if |s| < HDR_LEN then Refused(ErrShort)
    else if At(s, 0) != WIRE_MAGIC then Refused(ErrMagic)
    else
      var f := FrameAt(s);
      if Validate(f) != OK then Refused(Validate(f)) else Header(f)
  }

  lemma AtOfEncoded(f: Frame, rest: Bytes, i: nat)
    requires i < FIELD_COUNT
    ensures At(Encoded(f) + rest, i) == Value(f, i)
  {
    ValueFits(f, i);
    FieldOfPack(Values(f), Width, i, FIELD_COUNT, rest);
  }

  lemma FrameAtIs(s: Bytes, f: Frame)
    requires |s| >= HDR_LEN && forall i: nat | i < FIELD_COUNT :: At(s, i) == Value(f, i)
    ensures At(s, 0) == WIRE_MAGIC && FrameAt(s) == f
  {
  }

  /** Where each field of a header stands on the wire. */
  lemma EncodedAt(f: Frame)
    ensures var s := Encoded(f);
            && s[0..4] == LE(0x30535542, 4) && s[4..6] == LE(f.flags, 2) && s[6..8] == LE(f.version, 2)
            && s[8..12] == LE(f.kind, 4) && s[12..16] == LE(f.principal, 4)
            && s[16..24] == LE(f.correlation, 8) && s[24..32] == LE(f.sequence, 8)
            && s[32..40] == LE(f.logicalTS, 8) && s[40..48] == LE(f.payloadRef, 8)
            && s[48..52] == LE(f.payloadLen, 4) && s[52..56] == LE(f.src, 4)
            && s[56..60] == LE(f.dst, 4) && s[60..64] == LE(f.generation, 4)
  {
    Starts();
    hide Encoded, LE, Start;
    PieceAt(f, 0); PieceAt(f, 1); PieceAt(f, 2); PieceAt(f, 3); PieceAt(f, 4); PieceAt(f, 5); PieceAt(f, 6);
    PieceAt(f, 7); PieceAt(f, 8); PieceAt(f, 9); PieceAt(f, 10); PieceAt(f, 11); PieceAt(f, 12);
  }

  lemma PieceAt(f: Frame, i: nat)
    requires i < FIELD_COUNT
    ensures Start(Width, i) <= Start(Width, i + 1) <= HDR_LEN
    ensures Encoded(f)[Start(Width, i)..Start(Width, i + 1)] == LE(Value(f, i), Width(i))
  {
    Starts();
    PieceOfPack(Values(f), Width, i, FIELD_COUNT);
  }

  /** And where a reader looks for it. A slot is accepted exactly when it is long
      enough, starts with the magic and holds a valid header. */
  lemma DecodedAt(s: Bytes)
    ensures DecodeBytes(s) == Refused(ErrShort) <==> |s| < 64
    ensures DecodeBytes(s) == Refused(ErrMagic) <==> |s| >= 64 && FromLE(s[0..4]) != 0x30535542
    ensures DecodeBytes(s).Header? ==>
              var f := DecodeBytes(s).frame;
              && |s| >= 64 && FromLE(s[0..4]) == 0x30535542 && Validate(f) == OK
              && FrameReads(s, f)
    ensures |s| >= 64 && FromLE(s[0..4]) == 0x30535542 ==>
              forall f | FrameReads(s, f) ::
                DecodeBytes(s) == if Validate(f) == OK then Header(f) else Refused(Validate(f))
  {
    Starts();
    if |s| >= 64 {
      InvalidMeans(FrameAt(s));
    }
    hide FromLE, Start, Validate, Patterned, Flag;
  }

  /** The fields of `f` are the little-endian numbers at their places in `s`. */
  predicate FrameReads(s: Bytes, f: Frame)
    requires |s| >= 64
  {
    && f.flags == FromLE(s[4..6]) && f.version == FromLE(s[6..8]) && f.kind == FromLE(s[8..12])
    && f.principal == FromLE(s[12..16]) && f.correlation == FromLE(s[16..24]) && f.sequence == FromLE(s[24..32])
    && f.logicalTS == FromLE(s[32..40]) && f.payloadRef == FromLE(s[40..48]) && f.payloadLen == FromLE(s[48..52])
    && f.src == FromLE(s[52..56]) && f.dst == FromLE(s[56..60]) && f.generation == FromLE(s[60..64])
  }

  /** Reading a written header gives the header back, whatever follows it in
      the slot. */
  lemma DecodeOfEncoded(f: Frame, rest: Bytes)
    requires Validate(f) == OK
    ensures DecodeBytes(Encoded(f) + rest) == Header(f)
  {
    var s := Encoded(f) + rest;
    forall i: nat | i < FIELD_COUNT ensures At(s, i) == Value(f, i) {
      AtOfEncoded(f, rest, i);
    }
    FrameAtIs(s, f);
  }

  lemma ValueOfFrameAt(s: Bytes, i: nat)
    requires |s| >= HDR_LEN && i < FIELD_COUNT && At(s, 0) == WIRE_MAGIC
    ensures Value(FrameAt(s), i) == At(s, i)
  {
  }

  /** A header that was accepted re-encodes to the very bytes it came from. */
  lemma EncodedOfDecode(s: Bytes)
    requires DecodeBytes(s).Header?
    ensures Validate(DecodeBytes(s).frame) == OK
    ensures Encoded(DecodeBytes(s).frame) == s[..HDR_LEN]
  {
    Starts();
    var v := Values(FrameAt(s));
    forall i: nat | i < FIELD_COUNT ensures Reads(s, v, Width, i) {
      StartGrows(Width, i + 1, FIELD_COUNT);
      ValueOfFrameAt(s, i);
    }
    PackOfFields(s, v, Width, FIELD_COUNT);
  }

  /** Writes a valid header over the first 64 bytes of the slot
      `mem[base..base + len]`; writes nothing otherwise. */
  method Encode(f: Frame, mem: array<byte>, base: nat, len: nat) returns (n: nat)
    requires base + len <= mem.Length
    modifies mem
    ensures n == if len >= HDR_LEN && Validate(f) == OK then HDR_LEN else 0
    ensures n == 0 ==> mem[..] == old(mem[..])
    ensures n == HDR_LEN ==> mem[..] == Splice(old(mem[..]), base, Encoded(f))
  {
    if len < HDR_LEN || Validate(f) != OK {
      return 0;
    }
    Clear(mem, base, HDR_LEN);
    SpliceOver(old(mem[..]), base, seq(HDR_LEN, i => 0), Encoded(f));
    EncodeFields(f, mem, base);
    return HDR_LEN;
  }

  method EncodeFields(f: Frame, mem: array<byte>, base: nat)
    requires base + HDR_LEN <= mem.Length
    modifies mem
    ensures mem[..] == Splice(old(mem[..]), base, Encoded(f))
  {
    hide Splice, Pack;
    ghost var b, v := mem[..], Values(f);
    NothingWritten(b, base, v, Width);
    Starts();
    PutField(mem, base, b, v, Width, 0, 0, WIRE_MAGIC, 4);
    PutField(mem, base, b, v, Width, 1, 4, f.flags, 2);
    PutField(mem, base, b, v, Width, 2, 6, f.version, 2);
    PutField(mem, base, b, v, Width, 3, 8, f.kind, 4);
    PutField(mem, base, b, v, Width, 4, 12, f.principal, 4);
    PutField(mem, base, b, v, Width, 5, 16, f.correlation, 8);
    PutField(mem, base, b, v, Width, 6, 24, f.sequence, 8);
    PutField(mem, base, b, v, Width, 7, 32, f.logicalTS, 8);
    PutField(mem, base, b, v, Width, 8, 40, f.payloadRef, 8);
    PutField(mem, base, b, v, Width, 9, 48, f.payloadLen, 4);
    PutField(mem, base, b, v, Width, 10, 52, f.src, 4);
    PutField(mem, base, b, v, Width, 11, 56, f.dst, 4);
    PutField(mem, base, b, v, Width, 12, 60, f.generation, 4);
  }

  /** Reads the header of the slot `mem[base..base + len]` field by field. */
  method Decode(mem: array<byte>, base: nat, len: nat) returns (d: Decoded)
    requires base + len <= mem.Length
    ensures d == DecodeBytes(mem[base..base + len])
  {
    hide Validate, Field;
    if len < HDR_LEN {
      return Refused(ErrShort);
    }
    Widths();
    Starts();
    var magic := GetField(mem, base, len, Width, 0, 0, 4);
    if magic != WIRE_MAGIC {
      return Refused(ErrMagic);
    }
    var flags := GetField(mem, base, len, Width, 1, 4, 2);
    var version := GetField(mem, base, len, Width, 2, 6, 2);
    var kind := GetField(mem, base, len, Width, 3, 8, 4);
    var principal := GetField(mem, base, len, Width, 4, 12, 4);
    var correlation := GetField(mem, base, len, Width, 5, 16, 8);
    var sequence := GetField(mem, base, len, Width, 6, 24, 8);
    var logicalTS := GetField(mem, base, len, Width, 7, 32, 8);
    var payloadRef := GetField(mem, base, len, Width, 8, 40, 8);
    var payloadLen := GetField(mem, base, len, Width, 9, 48, 4);
    var src := GetField(mem, base, len, Width, 10, 52, 4);
    var dst := GetField(mem, base, len, Width, 11, 56, 4);
    var generation := GetField(mem, base, len, Width, 12, 60, 4);
    var f := Frame(flags, version, kind, principal, correlation, sequence, logicalTS,
                   payloadRef, payloadLen, src, dst, generation);
    var r := Validate(f);
    return if r != OK then Refused(r) else Header(f);
  }

  // --------------------------------------------------------------- placement

  function CheckPlacement(f: Frame, slotSize: uint32, arenaSize: uint64): WireResult {
    if Validate(f) != OK then Validate(f)
    else if f.payloadLen == 0 then OK
    else if Has(f.flags, F_INLINE) then
      var end := (f.payloadRef + f.payloadLen) % TWO64;
      if end < f.payloadRef then ErrPayloadLen
      else if f.payloadRef < HDR_LEN || end > slotSize then ErrPayloadLen
      else OK
    else if f.payloadLen > arenaSize then ErrPayloadLen
    else OK
  }

  /** With 64-bit wrap-around and all, an inline payload is placed exactly when it
      lies between the header and the end of the slot. */
  lemma PlacementMeans(f: Frame, slotSize: uint32, arenaSize: uint64)
    requires Validate(f) == OK && f.payloadLen > 0 && Has(f.flags, F_INLINE)
    ensures CheckPlacement(f, slotSize, arenaSize) == OK <==>
            HDR_LEN <= f.payloadRef && f.payloadRef + f.payloadLen <= slotSize
  {
    if f.payloadRef + f.payloadLen >= TWO64 {
      assert (f.payloadRef + f.payloadLen) % TWO64 == f.payloadRef + f.payloadLen - TWO64;
    }
  }

  /** What else a placement check says: an arena payload has to fit the arena, a
      header without a payload is placed, and a misplaced payload is refused by its
      length, while an invalid header is refused as by Validate. */
  lemma OtherPlacements(f: Frame, slotSize: uint32, arenaSize: uint64)
    ensures var r := CheckPlacement(f, slotSize, arenaSize);
            && (Validate(f) != OK ==> r == Validate(f))
            && (Validate(f) == OK ==> r == OK || r == ErrPayloadLen)
            && (Validate(f) == OK && f.payloadLen == 0 ==> r == OK)
            && (Validate(f) == OK && f.payloadLen > 0 && Flag(f.flags, 1) ==> (r == OK <==> f.payloadLen <= arenaSize))
  {
    FlagTests(f.flags);
    ValidMeans(f);
    hide Validate, Flag, Has;
  }
}
