/** Cutting a body into fragments, the packets that carry them, and what a
    receiver gets by joining them (server-go/bus/module_caller.go:132-163,
    server-go/bus/module_runtime.go:231-274). */
module Fragments {
  import opened Bytes
  import Wrappers
  import opened Wire
  import opened ModuleProtocol
  import opened BusClient

  /** What a relay must preserve of a frame: everything a module or a caller
      looks at. */
  datatype Packet = Packet(flags: uint16, kind: uint32, correlation: uint64, payload: Bytes)

  function PacketOf(e: Event): Packet {
    Packet(e.frame.flags, e.frame.kind, e.frame.correlation, e.payload)
  }

  /** The packets a reader gets from a run of slots; undecodable slots yield
      none. */
  function Packets(slots: seq<Bytes>): (r: seq<Packet>) {
    if slots == [] then []
    else
      var last := slots[|slots| - 1];
      Packets(slots[..|slots| - 1]) + (if ViewOf(last).Delivered? then [PacketOf(ViewOf(last).event)] else [])
  }

  lemma {:induction false} PacketsSplit(a: seq<Bytes>, b: seq<Bytes>)
    ensures Packets(a + b) == Packets(a) + Packets(b)
    decreases |b|
  {
    hide ViewOf;
    if b == [] {
      assert a + b == a;
    } else {
      PacketsSplit(a, b[..|b| - 1]);
      assert (a + b)[..|a + b| - 1] == a + b[..|b| - 1];
    }
  }

  // ----------------------------------------------------------------- chunks

  /** A body cut into pieces of `size`; an empty body is one empty piece. */
  function Chunks(body: Bytes, size: nat): (r: seq<Bytes>)
    requires size > 0
    ensures r != []
    decreases |body|
  {
    if |body| <= size then [body] else [body[..size]] + Chunks(body[size..], size)
  }

  function Concat(parts: seq<Bytes>): (r: Bytes) {
    if parts == [] then [] else parts[0] + Concat(parts[1..])
  }

  /** max(1, ceil(n / size)) */
  function ChunkCount(n: nat, size: nat): nat
    requires size > 0
  {
    if n <= size then 1 else 1 + ChunkCount(n - size, size)
  }

  lemma {:induction false} ChunkCountIs(n: nat, size: nat)
    requires size > 0
    ensures ChunkCount(n, size) == if n == 0 then 1 else (n + size - 1) / size
    decreases n
  {
    if n > size {
      ChunkCountIs(n - size, size);
      var q := (n - 1) / size;
      QuotientUnique(n + size - 1, size, q + 1, (n - 1) % size);
      var p := (n - size - 1) / size;
      QuotientUnique(n - 1, size, p + 1, (n - size - 1) % size);
      QuotientUnique(n - size + size - 1, size, q, (n - 1) % size);
    } else if n > 0 {
      QuotientUnique(n + size - 1, size, 1, n - 1);
    }
  }

  /** The fragmenter law: the pieces join back to the body, there are
      max(1, ceil(n / size)) of them, all but the last are full, and only the
      last can be empty. */
  lemma {:induction false} ChunkLaw(body: Bytes, size: nat)
    requires size > 0
    ensures var parts := Chunks(body, size);
            && Concat(parts) == body
            && |parts| == ChunkCount(|body|, size)
            && (forall i :: 0 <= i < |parts| - 1 ==> |parts[i]| == size)
            && |parts[|parts| - 1]| <= size
            && (parts[|parts| - 1] == [] ==> body == [])
    decreases |body|
  {
    var parts := Chunks(body, size);
    if |body| > size {
      ChunkLaw(body[size..], size);
      var rest := Chunks(body[size..], size);
      assert parts[1..] == rest;
      assert body == body[..size] + body[size..];
      assert forall i :: 1 <= i < |parts| ==> parts[i] == rest[i - 1];
    } else {
      assert Concat([body]) == body + Concat([body][1..]);
    }
  }

  lemma {:induction false} ConcatSplit(a: seq<Bytes>, b: seq<Bytes>)
    ensures Concat(a + b) == Concat(a) + Concat(b)
  {
    if a == [] {
      assert a + b == b;
    } else {
      ConcatSplit(a[1..], b);
      ConcatFirst(a);
      ConcatFirst(a + b);
      hide Concat;
      assert (a + b)[1..] == a[1..] + b && (a + b)[0] == a[0];
    }
  }

  lemma ConcatFirst(parts: seq<Bytes>)
    requires parts != []
    ensures Concat(parts) == parts[0] + Concat(parts[1..])
  {
  }

  // ---------------------------------------------------------------- streams

  /** What all fragments of one request or one reply have in common. */
  datatype Envelope = Envelope(
    pattern: uint16, kind: uint32, correlation: uint64, operation: uint16, status: uint16,
    stageID: uint32, deadline: uint64, trace: uint64)

  function HeaderFor(env: Envelope, part: Bytes): Message {
    Message(env.operation, env.status, env.stageID, 0, |part| % TWO32, env.deadline, env.trace)
  }

  /** One fragment on the wire. */
  function FragmentPacket(env: Envelope, part: Bytes, more: bool): Packet
    requires env.pattern == F_REQUEST || env.pattern == F_REPLY
  {
    Packet(WithInline(FragmentFlags(env.pattern, more)), env.kind, env.correlation,
           Payload(HeaderFor(env, part), part))
  }

  /** All fragments, the last alone without "more". */
  function Stream(env: Envelope, parts: seq<Bytes>): (r: seq<Packet>)
    requires env.pattern == F_REQUEST || env.pattern == F_REPLY
    ensures |r| == |parts|
  {
    seq(|parts|, i requires 0 <= i < |parts| => FragmentPacket(env, parts[i], i < |parts| - 1))
  }

  function RequestEnvelope(kind: uint32, correlation: uint64, stageID: uint32, deadline: uint64, trace: uint64)
      : Envelope
  {
    Envelope(F_REQUEST, kind, correlation, OP_INVOKE, STATUS_OK, stageID, deadline, trace)
  }

  function ReplyEnvelope(kind: uint32, correlation: uint64, stageID: uint32, trace: uint64, status: uint16)
      : Envelope
  {
    Envelope(F_REPLY, kind, correlation, OP_RESULT, status, stageID, 0, trace)
  }

  /** The envelope of an invocation, and that of a result, whatever they carry. */
  predicate Invokes(env: Envelope) {
    env.pattern == F_REQUEST && env.operation == OP_INVOKE && env.status == STATUS_OK
  }

  predicate Results(env: Envelope) {
    env.pattern == F_REPLY && env.operation == OP_RESULT
  }

  /** The flag tests a receiver makes on a fragment. */
  lemma FragmentTests(pattern: uint16, more: bool)
    requires pattern == F_REQUEST || pattern == F_REPLY
    ensures var flags := WithInline(FragmentFlags(pattern, more));
            && !Has(flags, F_CANCEL)
            && (Has(flags, F_REQUEST) <==> pattern == F_REQUEST)
            && (Has(flags, F_MORE) <==> more)
  {
    var flags := WithInline(FragmentFlags(pattern, more));
    FragmentBits(flags, pattern, more);
    FlagTests(flags);
    hide Flag, Has;
  }

  /** A fragment read back gives its envelope and its piece. */
  lemma FragmentReads(env: Envelope, part: Bytes, more: bool)
    requires env.pattern == F_REQUEST || env.pattern == F_REPLY
    requires |part| <= MAX_BODY && ValidMessage(HeaderFor(env, part))
    ensures var p := FragmentPacket(env, part, more);
            && DecodePayload(p.payload) == Wrappers.Some(HeaderFor(env, part))
            && BodyOf(p.payload) == part
  {
    hide Payload, DecodePayload, ValidMessage;
    DecodeOfPayload(HeaderFor(env, part), part);
  }

  /** A fragment of a request as its receiver reads it: an inline request frame,
      flagged "more" but for the last, whose payload is an invocation with status OK
      and no flags, for this stage, deadline and trace, followed by the piece. */
  predicate RequestFragment(p: Packet, kind: uint32, correlation: uint64, stageID: uint32, deadline: uint64,
                            trace: uint64, piece: Bytes, more: bool)
  {
    && p.kind == kind && p.correlation == correlation && p.flags == (if more then 0x89 else 0x09)
    && DecodePayload(p.payload).Some? && BodyOf(p.payload) == piece
    && var m := DecodePayload(p.payload).value;
       && m.operation == 1 && m.status == 0 && m.stageID == stageID && m.flags == 0 && m.bodyLen == |piece|
       && m.deadline == deadline && m.trace == trace
  }

  /** A fragment of a reply: an inline reply frame whose payload is a result with this
      status, stage and trace, and without a deadline. */
  predicate ReplyFragment(p: Packet, kind: uint32, correlation: uint64, stageID: uint32, trace: uint64,
                          status: uint16, piece: Bytes, more: bool)
  {
    && p.kind == kind && p.correlation == correlation && p.flags == (if more then 0x91 else 0x11)
    && DecodePayload(p.payload).Some? && BodyOf(p.payload) == piece
    && var m := DecodePayload(p.payload).value;
       && m.operation == 2 && m.status == status && m.stageID == stageID && m.flags == 0 && m.bodyLen == |piece|
       && m.deadline == 0 && m.trace == trace
  }

  lemma RequestReads(kind: uint32, correlation: uint64, stageID: uint32, deadline: uint64, trace: uint64,
                     piece: Bytes, more: bool)
    requires stageID != 0 && |piece| <= MAX_BODY
    ensures RequestFragment(FragmentPacket(RequestEnvelope(kind, correlation, stageID, deadline, trace), piece, more),
                            kind, correlation, stageID, deadline, trace, piece, more)
  {
    FlagBytes(F_REQUEST, more);
    FragmentReads(RequestEnvelope(kind, correlation, stageID, deadline, trace), piece, more);
    hide DecodePayload, Payload, BodyOf, ValidMessage, WithInline, FragmentFlags;
  }

  lemma ReplyReads(kind: uint32, correlation: uint64, stageID: uint32, trace: uint64, status: uint16,
                   piece: Bytes, more: bool)
    requires stageID != 0 && |piece| <= MAX_BODY && status <= 5
    ensures ReplyFragment(FragmentPacket(ReplyEnvelope(kind, correlation, stageID, trace, status), piece, more),
                          kind, correlation, stageID, trace, status, piece, more)
  {
    FlagBytes(F_REPLY, more);
    FragmentReads(ReplyEnvelope(kind, correlation, stageID, trace, status), piece, more);
    hide DecodePayload, Payload, BodyOf, ValidMessage, WithInline, FragmentFlags;
  }

  lemma FlagBytes(pattern: uint16, more: bool)
    requires pattern == F_REQUEST || pattern == F_REPLY
    ensures WithInline(FragmentFlags(pattern, more))
            == if pattern == F_REQUEST then if more then 0x89 else 0x09 else if more then 0x91 else 0x11
  {
  }

  /** `after` is `before` and then fragments of a request, as many of its pieces as
      there is room for, in order. */
  ghost predicate RequestOut(before: seq<Packet>, after: seq<Packet>, kind: uint32, correlation: uint64,
                             stageID: uint32, deadline: uint64, trace: uint64, parts: seq<Bytes>)
  {
    && before <= after
    && forall i :: 0 <= i < |parts| && |before| + i < |after| ==>
         RequestFragment(after[|before| + i], kind, correlation, stageID, deadline, trace, parts[i], i < |parts| - 1)
  }

  /** Whatever the request, what is sent of it reads as what the caller asked for. */
  lemma RequestIsOut(before: seq<Packet>, after: seq<Packet>, kind: uint32, correlation: uint64, stageID: uint32,
                     deadline: uint64, trace: uint64, request: Bytes, chunk: nat, k: nat)
    requires chunk > 0 && k <= |Chunks(request, chunk)|
    requires k > 0 ==> stageID != 0 && (|request| <= MAX_BODY || chunk <= MAX_BODY)
    requires var env := RequestEnvelope(kind, correlation, stageID, deadline, trace);
             env.pattern == F_REQUEST && after == before + Stream(env, Chunks(request, chunk))[..k]
    ensures RequestOut(before, after, kind, correlation, stageID, deadline, trace, Chunks(request, chunk))
  {
    var parts := Chunks(request, chunk);
    hide Chunks, FragmentPacket, RequestFragment;
    forall i | 0 <= i < |parts| && |before| + i < |after|
      ensures RequestFragment(after[|before| + i], kind, correlation, stageID, deadline, trace, parts[i],
                              i < |parts| - 1)
    {
      PieceLength(request, chunk, i);
      RequestReads(kind, correlation, stageID, deadline, trace, parts[i], i < |parts| - 1);
    }
  }

  lemma {:induction false} PieceLength(body: Bytes, size: nat, i: nat)
    requires size > 0 && i < |Chunks(body, size)|
    ensures |Chunks(body, size)[i]| <= size && |Chunks(body, size)[i]| <= |body|
    decreases |body|
  {
    if i > 0 {
      PieceLength(body[size..], size, i - 1);
    }
  }

  /** What follows a whole request changes nothing of it. */
  lemma RequestStaysOut(before: seq<Packet>, mid: seq<Packet>, after: seq<Packet>, kind: uint32, correlation: uint64,
                        stageID: uint32, deadline: uint64, trace: uint64, parts: seq<Bytes>)
    requires RequestOut(before, mid, kind, correlation, stageID, deadline, trace, parts)
    requires |mid| >= |before| + |parts| && mid <= after
    ensures RequestOut(before, after, kind, correlation, stageID, deadline, trace, parts)
  {
    hide RequestFragment;
  }

  /** When emit can send a fragment, given that its payload fits the budget. */
  lemma FragmentIsValid(handle: uint32, pattern: uint16, kind: uint32, correlation: uint64, payload: Bytes, more: bool)
    requires (pattern == F_REQUEST || pattern == F_REPLY) && correlation != 0 && payload != []
    requires |payload| < TWO32
    ensures Validate(FrameFor(handle, FragmentFlags(pattern, more), kind, correlation, payload)) == OK
            <==> |payload| <= MAX_PAYLOAD
  {
    var f := FrameFor(handle, FragmentFlags(pattern, more), kind, correlation, payload);
    FragmentBits(f.flags, pattern, more);
    ValidMeans(f);
    hide Flag, Validate;
  }

  lemma FragmentBits(flags: uint16, pattern: uint16, more: bool)
    requires pattern == F_REQUEST || pattern == F_REPLY
    requires flags == WithInline(FragmentFlags(pattern, more))
    ensures flags < 0x100 && Flag(flags, 0) && !Flag(flags, 1) && !Flag(flags, 2) && !Flag(flags, 5)
    ensures Flag(flags, 3) == (pattern == F_REQUEST) && Flag(flags, 4) == (pattern == F_REPLY)
    ensures Flag(flags, 7) == more
  {
    SmallPowers();
    assert flags in {0x09, 0x89, 0x11, 0x91};
  }

  // --------------------------------------------------------- views of slots

  lemma PacketsSnoc(before: seq<Bytes>, after: seq<Bytes>, e: Event)
    requires Appended(before, after, e)
    ensures Packets(after) == Packets(before) + [PacketOf(e)]
  {
    assert after[..|after| - 1] == before;
  }
}
