/** The 40-byte AMOD envelope in front of every stage request and reply
    (server-go/bus/module_protocol.go). */
module ModuleProtocol {
  import opened Bytes
  import opened Wrappers

  const MESSAGE_MAGIC: uint32 := 0x444f4d41
  const MESSAGE_VERSION: uint16 := 1
  const HEADER_LEN: nat := 40
  const MAX_BODY: uint32 := 16 * 1024 * 1024

  const OP_INVOKE: uint16 := 1
  const OP_RESULT: uint16 := 2

  const STATUS_OK: uint16 := 0
  const STATUS_CAPABILITY_ABSENT: uint16 := 1
  const STATUS_CANCELLED: uint16 := 2
  const STATUS_DEADLINE_EXCEEDED: uint16 := 3
  const STATUS_INVALID_REQUEST: uint16 := 4
  const STATUS_INTERNAL: uint16 := 5

  datatype Message = Message(
    operation: uint16, status: uint16, stageID: uint32, flags: uint32, bodyLen: uint32,
    deadline: uint64, trace: uint64)

  predicate ValidMessage(m: Message) {
    && (m.operation == OP_INVOKE || m.operation == OP_RESULT)
    && m.status <= STATUS_INTERNAL
    && (m.operation == OP_INVOKE ==> m.status == STATUS_OK)
    && m.stageID != 0 && m.flags == 0 && m.bodyLen <= MAX_BODY
  }

  predicate DeadlineExpired(m: Message, now: uint64) {
    m.deadline != 0 && now >= m.deadline
  }

  // -------------------------------------------------------------- the layout

  function Width(i: nat): nat {
    if i == 0 || 5 <= i <= 7 then 4 else if i <= 4 then 2 else 8
  }

  function Value(m: Message, i: nat): nat {
    if i == 0 then MESSAGE_MAGIC else if i == 1 then MESSAGE_VERSION else if i == 2 then HEADER_LEN
    else if i == 3 then m.operation else if i == 4 then m.status else if i == 5 then m.stageID
    else if i == 6 then m.flags else if i == 7 then m.bodyLen else if i == 8 then m.deadline
    else m.trace
  }

  function Values(m: Message): Record {
    i => Value(m, i)
  }

  const FIELD_COUNT: nat := 10

  lemma ValueFits(m: Message, i: nat)
    ensures Value(m, i) < Pow256(Width(i))
  {
    Widths();
  }

  lemma Starts()
    ensures Start(Width, 0) == 0 && Start(Width, 1) == 4 && Start(Width, 2) == 6
    ensures Start(Width, 3) == 8 && Start(Width, 4) == 10 && Start(Width, 5) == 12
    ensures Start(Width, 6) == 16 && Start(Width, 7) == 20 && Start(Width, 8) == 24
    ensures Start(Width, 9) == 32 && Start(Width, FIELD_COUNT) == HEADER_LEN
  {
    assert Start(Width, 2) == 6;
    assert Start(Width, 4) == 10;
    assert Start(Width, 6) == 16;
    assert Start(Width, 8) == 24;
  }

  /** The 40 header bytes of `m`. */
  function Encoded(m: Message): (r: Bytes)
    ensures |r| == HEADER_LEN
  {
    Starts();
    Pack(Values(m), Width, FIELD_COUNT)
  }

  function At(s: Bytes, i: nat): (r: nat)
    requires |s| >= HEADER_LEN && i < FIELD_COUNT
    ensures r < Pow256(Width(i))
  {
    Starts();
    StartGrows(Width, i + 1, FIELD_COUNT);
    FromLEBound(s[Start(Width, i)..Start(Width, i + 1)]);
    Field(s, Width, i)
  }

  function MessageAt(s: Bytes): Message
    requires |s| >= HEADER_LEN
  {
    Widths();
    Message(At(s, 3), At(s, 4), At(s, 5), At(s, 6), At(s, 7), At(s, 8), At(s, 9))
  }

  /** The envelope of an event payload, if it has one that is well formed and
      whose body is all there. */
  function DecodePayload(s: Bytes): (r: Option<Message>)
    ensures r.Some? ==> ValidMessage(r.value) && HEADER_LEN + r.value.bodyLen <= |s|
  {
    if |s| < HEADER_LEN || At(s, 0) != MESSAGE_MAGIC || At(s, 1) != MESSAGE_VERSION || At(s, 2) != HEADER_LEN
    then None
    else if !ValidMessage(MessageAt(s)) || MessageAt(s).bodyLen > |s| - HEADER_LEN then None
    else Some(MessageAt(s))
  }

  /** An envelope followed by its body. */
  function Payload(m: Message, body: Bytes): (r: Bytes)
    ensures |r| == HEADER_LEN + |body|
  {
    Encoded(m) + body
  }

  /** The body a payload's envelope announces. */
  function BodyOf(s: Bytes): (r: Bytes)
    requires DecodePayload(s).Some?
    ensures |r| == DecodePayload(s).value.bodyLen
  {
    s[HEADER_LEN..HEADER_LEN + DecodePayload(s).value.bodyLen]
  }

  lemma AtOfEncoded(m: Message, rest: Bytes, i: nat)
    requires i < FIELD_COUNT
    ensures At(Encoded(m) + rest, i) == Value(m, i)
  {
    ValueFits(m, i);
    FieldOfPack(Values(m), Width, i, FIELD_COUNT, rest);
  }

  lemma MessageAtIs(s: Bytes, m: Message)
    requires |s| >= HEADER_LEN && forall i: nat | i < FIELD_COUNT :: At(s, i) == Value(m, i)
    ensures At(s, 0) == MESSAGE_MAGIC && At(s, 1) == MESSAGE_VERSION && At(s, 2) == HEADER_LEN
    ensures MessageAt(s) == m
  {
  }

  /** Where each field of an envelope stands on the wire. */
  lemma EncodedAt(m: Message)
    ensures var s := Encoded(m);
            && s[0..4] == LE(0x444f4d41, 4) && s[4..6] == LE(1, 2) && s[6..8] == LE(40, 2)
            && s[8..10] == LE(m.operation, 2) && s[10..12] == LE(m.status, 2) && s[12..16] == LE(m.stageID, 4)
            && s[16..20] == LE(m.flags, 4) && s[20..24] == LE(m.bodyLen, 4)
            && s[24..32] == LE(m.deadline, 8) && s[32..40] == LE(m.trace, 8)
  {
    Starts();
    hide Encoded, LE, Start;
    PieceAt(m, 0); PieceAt(m, 1); PieceAt(m, 2); PieceAt(m, 3); PieceAt(m, 4);
    PieceAt(m, 5); PieceAt(m, 6); PieceAt(m, 7); PieceAt(m, 8); PieceAt(m, 9);
  }

  lemma PieceAt(m: Message, i: nat)
    requires i < FIELD_COUNT
    ensures Start(Width, i) <= Start(Width, i + 1) <= HEADER_LEN
    ensures Encoded(m)[Start(Width, i)..Start(Width, i + 1)] == LE(Value(m, i), Width(i))
  {
    Starts();
    PieceOfPack(Values(m), Width, i, FIELD_COUNT);
  }

  /** And where a reader looks for it. A payload is accepted exactly when it starts
      with an envelope of this magic, version and length, for an invocation or a
      result, with a known status (OK in an invocation), a stage, no flags, and a body
      of at most 16 MiB that is all there. */
  lemma DecodedAt(s: Bytes)
    ensures DecodePayload(s).Some? <==>
              && |s| >= 40 && FromLE(s[0..4]) == 0x444f4d41 && FromLE(s[4..6]) == 1 && FromLE(s[6..8]) == 40
              && FromLE(s[8..10]) in {1, 2} && FromLE(s[10..12]) <= 5
              && (FromLE(s[8..10]) == 1 ==> FromLE(s[10..12]) == 0)
              && FromLE(s[12..16]) != 0 && FromLE(s[16..20]) == 0
              && FromLE(s[20..24]) <= 0x100_0000 && 40 + FromLE(s[20..24]) <= |s|
    ensures DecodePayload(s).Some? ==>
              var m := DecodePayload(s).value;
              && m.operation == FromLE(s[8..10]) && m.status == FromLE(s[10..12]) && m.stageID == FromLE(s[12..16])
              && m.flags == FromLE(s[16..20]) && m.bodyLen == FromLE(s[20..24])
              && m.deadline == FromLE(s[24..32]) && m.trace == FromLE(s[32..40])
              && BodyOf(s) == s[40..40 + m.bodyLen]
  {
    Starts();
    hide FromLE, Start;
  }

  /** A payload written with a valid envelope reads back as that envelope and
      that body. */
  lemma DecodeOfPayload(m: Message, body: Bytes)
    requires ValidMessage(m) && m.bodyLen == |body|
    ensures DecodePayload(Payload(m, body)) == Some(m)
    ensures BodyOf(Payload(m, body)) == body
  {
    var s := Payload(m, body);
    forall i: nat | i < FIELD_COUNT ensures At(s, i) == Value(m, i) {
      AtOfEncoded(m, body, i);
    }
    MessageAtIs(s, m);
  }

  lemma ValueOfMessageAt(s: Bytes, i: nat)
    requires DecodePayload(s).Some? && i < FIELD_COUNT
    ensures Value(MessageAt(s), i) == At(s, i)
  {
  }

  lemma EncodedOfMessageAt(s: Bytes)
    requires DecodePayload(s).Some?
    ensures Encoded(DecodePayload(s).value) == s[..HEADER_LEN]
  {
    Starts();
    var v := Values(MessageAt(s));
    forall i: nat | i < FIELD_COUNT ensures Reads(s, v, Width, i) {
      StartGrows(Width, i + 1, FIELD_COUNT);
      ValueOfMessageAt(s, i);
    }
    PackOfFields(s, v, Width, FIELD_COUNT);
  }

  /** An accepted payload is exactly its re-encoded envelope, its body, and
      whatever padding the sender left behind. */
  lemma PayloadOfDecode(s: Bytes)
    requires DecodePayload(s).Some?
    ensures ValidMessage(DecodePayload(s).value)
    ensures s == Payload(DecodePayload(s).value, BodyOf(s)) + s[HEADER_LEN + DecodePayload(s).value.bodyLen..]
  {
    EncodedOfMessageAt(s);
    hide Encoded, At, MessageAt;
    var n := HEADER_LEN + DecodePayload(s).value.bodyLen;
    Cut3(s, HEADER_LEN, n);
  }

  // -------------------------------------------------------------- in place

  /** Writes a valid envelope over the first 40 bytes of `out`; writes nothing
      and fails otherwise. */
  method Encode(m: Message, out: array<byte>) returns (n: nat, ok: bool)
    modifies out
    ensures ok == (out.Length >= HEADER_LEN && ValidMessage(m))
    ensures n == if ok then HEADER_LEN else 0
    ensures !ok ==> out[..] == old(out[..])
    ensures ok ==> out[..] == Splice(old(out[..]), 0, Encoded(m))
  {
    if out.Length < HEADER_LEN || !ValidMessage(m) {
      return 0, false;
    }
    Clear(out, 0, HEADER_LEN);
    SpliceOver(old(out[..]), 0, seq(HEADER_LEN, i => 0), Encoded(m));
    EncodeFields(m, out);
    return HEADER_LEN, true;
  }

  method EncodeFields(m: Message, out: array<byte>)
    requires HEADER_LEN <= out.Length
    modifies out
    ensures out[..] == Splice(old(out[..]), 0, Encoded(m))
  {
    hide Splice, Pack;
    ghost var b, v := out[..], Values(m);
    NothingWritten(b, 0, v, Width);
    Starts();
    PutField(out, 0, b, v, Width, 0, 0, MESSAGE_MAGIC, 4);
    PutField(out, 0, b, v, Width, 1, 4, MESSAGE_VERSION, 2);
    PutField(out, 0, b, v, Width, 2, 6, HEADER_LEN, 2);
    PutField(out, 0, b, v, Width, 3, 8, m.operation, 2);
    PutField(out, 0, b, v, Width, 4, 10, m.status, 2);
    PutField(out, 0, b, v, Width, 5, 12, m.stageID, 4);
    PutField(out, 0, b, v, Width, 6, 16, m.flags, 4);
    PutField(out, 0, b, v, Width, 7, 20, m.bodyLen, 4);
    PutField(out, 0, b, v, Width, 8, 24, m.deadline, 8);
    PutField(out, 0, b, v, Width, 9, 32, m.trace, 8);
  }
}
