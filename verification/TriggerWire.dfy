/** The trigger request and response on the wire, and the two handlers that serve
    them (server-go/modules/skills/skills.go:164-191,
    src/modules/skills/include/aimee/skills/module_api.h:27-158,
    src/modules/skills/module_adapter.c:26-63). */
module TriggerWire {
  import opened Bytes
  import opened Wrappers
  import opened TriggerText
  import TriggerGo
  import TriggerC
  import TriggerParity
  import BC = BusClient

  const REQUEST_MAGIC: uint32 := 0x51544b53
  const RESPONSE_MAGIC: uint32 := 0x52544b53
  const WIRE_VERSION: uint32 := 1
  const HEADER_LEN: nat := 20
  const CONTENT_MAX: uint32 := 100 * 1024
  const TOOL_MAX: uint32 := 255
  const SUBJECT_MAX: uint32 := 1024 * 1024
  const RESPONSE_LEN: nat := 12

  datatype Request = Request(content: Bytes, tool: Bytes, subject: Bytes)

  /** What a request can carry: text within the limits, and a tool. */
  predicate Carried(r: Request) {
    && |r.content| <= CONTENT_MAX && 0 < |r.tool| <= TOOL_MAX && |r.subject| <= SUBJECT_MAX
    && 0 !in r.content && 0 !in r.tool && 0 !in r.subject
  }

  // ------------------------------------------------------------ five words

  function Width(i: nat): nat { 4 }

  function Words(contentLen: nat, toolLen: nat, subjectLen: nat): Record {
    i => if i == 0 then REQUEST_MAGIC else if i == 1 then WIRE_VERSION else if i == 2 then contentLen
         else if i == 3 then toolLen else subjectLen
  }

  lemma Starts()
    ensures Start(Width, 0) == 0 && Start(Width, 1) == 4 && Start(Width, 2) == 8 && Start(Width, 3) == 12
    ensures Start(Width, 4) == 16 && Start(Width, 5) == HEADER_LEN
  {
    assert Start(Width, 2) == 8;
    assert Start(Width, 4) == 16;
  }

  function Head(contentLen: nat, toolLen: nat, subjectLen: nat): (r: Bytes)
    ensures |r| == HEADER_LEN
  {
    Starts();
    Pack(Words(contentLen, toolLen, subjectLen), Width, 5)
  }

  function Word(s: Bytes, i: nat): nat
    requires i < 5 && |s| >= HEADER_LEN
  {
    Starts();
    StartGrows(Width, i + 1, 5);
    Field(s, Width, i)
  }

  /** The bytes of a request. */
  function RequestBytes(r: Request): (s: Bytes)
    ensures |s| == HEADER_LEN + |r.content| + |r.tool| + |r.subject|
  {
    Head(|r.content|, |r.tool|, |r.subject|) + r.content + r.tool + r.subject
  }

  /** The request in a body of exactly the announced size, if it is acceptable. */
  function Parse(s: Bytes): Option<Request> {
    if |s| < HEADER_LEN || Word(s, 0) != REQUEST_MAGIC || Word(s, 1) != WIRE_VERSION then None
    else
      var c, t, u := Word(s, 2), Word(s, 3), Word(s, 4);
      if c > CONTENT_MAX || t == 0 || t > TOOL_MAX || u > SUBJECT_MAX || HEADER_LEN + c + t + u != |s| then None
      else if 0 in s[HEADER_LEN..] then None
      else Some(Request(s[HEADER_LEN..HEADER_LEN + c], s[HEADER_LEN + c..HEADER_LEN + c + t], s[HEADER_LEN + c + t..]))
  }

  /** Where the parts of a request stand, and what a handler accepts: this magic and
      version, a content of at most 100 KiB, a tool of 1 to 255 bytes, a subject of at
      most 1 MiB, nothing before or after them, and no NUL in any. */
  lemma ParseAt(s: Bytes)
    ensures Parse(s).Some? <==>
              && |s| >= 20 && FromLE(s[0..4]) == 0x51544b53 && FromLE(s[4..8]) == 1
              && var content, tool, subject := FromLE(s[8..12]), FromLE(s[12..16]), FromLE(s[16..20]);
                 && content <= 102400 && 0 < tool <= 255 && subject <= 1048576
                 && |s| == 20 + content + tool + subject && 0 !in s[20..]
    ensures Parse(s).Some? ==>
              var content, tool := FromLE(s[8..12]), FromLE(s[12..16]);
              Parse(s).value == Request(content := s[20..20 + content], tool := s[20 + content..20 + content + tool],
                                        subject := s[20 + content + tool..])
  {
    Starts();
    hide FromLE, Start;
  }

  lemma ResponseAt(m: bool)
    ensures var s := ResponseBytes(m);
            |s| == 12 && s[0..4] == LE(0x52544b53, 4) && s[4..8] == LE(1, 4) && s[8..12] == LE(if m then 1 else 0, 4)
  {
    hide LE;
  }

  lemma WordOfHead(c: uint32, t: uint32, u: uint32, rest: Bytes, i: nat)
    requires i < 5
    ensures Word(Head(c, t, u) + rest, i) == Words(c, t, u)(i)
  {
    Widths();
    FieldOfPack(Words(c, t, u), Width, i, 5, rest);
  }

  lemma HeadOfWords(s: Bytes)
    requires |s| >= HEADER_LEN && Word(s, 0) == REQUEST_MAGIC && Word(s, 1) == WIRE_VERSION
    ensures Head(Word(s, 2), Word(s, 3), Word(s, 4)) == s[..HEADER_LEN]
  {
    Starts();
    var v := Words(Word(s, 2), Word(s, 3), Word(s, 4));
    forall i: nat | i < 5 ensures Reads(s, v, Width, i) {
      StartGrows(Width, i + 1, 5);
    }
    PackOfFields(s, v, Width, 5);
  }

  lemma Parts(head: Bytes, c: Bytes, t: Bytes, u: Bytes)
    ensures var s := head + c + t + u;
            && s[|head|..] == c + t + u && s[|head|..|head| + |c|] == c
            && s[|head| + |c|..|head| + |c| + |t|] == t && s[|head| + |c| + |t|..] == u
  {
  }

  lemma NoZero(c: Bytes, t: Bytes, u: Bytes)
    ensures 0 in c + t + u <==> 0 in c || 0 in t || 0 in u
  {
  }

  /** The request codec is a bijection: a body parses to a request exactly when the
      request can be carried and the body is its encoding. */
  lemma ParseIsInverse(s: Bytes, r: Request)
    ensures Parse(s) == Some(r) <==> Carried(r) && s == RequestBytes(r)
  {
    if Carried(r) && s == RequestBytes(r) {
      ParseOfRequest(r);
    }
    if Parse(s) == Some(r) {
      RequestOfParse(s);
    }
  }

  lemma ParseOfRequest(r: Request)
    requires Carried(r)
    ensures Parse(RequestBytes(r)) == Some(r)
  {
    var head := Head(|r.content|, |r.tool|, |r.subject|);
    var rest := r.content + r.tool + r.subject;
    Parts(head, r.content, r.tool, r.subject);
    NoZero(r.content, r.tool, r.subject);
    assert RequestBytes(r) == head + rest;
    forall i: nat | i < 5 ensures Word(head + rest, i) == Words(|r.content|, |r.tool|, |r.subject|)(i) {
      WordOfHead(|r.content|, |r.tool|, |r.subject|, rest, i);
    }
    hide Head, Word;
  }

  lemma RequestOfParse(s: Bytes)
    requires Parse(s).Some?
    ensures Carried(Parse(s).value) && RequestBytes(Parse(s).value) == s
  {
    hide Head, Word;
    HeadOfWords(s);
    var r := Parse(s).value;
    CutTexts(s, |r.content|, |r.tool|);
    NoZero(r.content, r.tool, r.subject);
    hide Parse;
  }

  lemma CutTexts(s: Bytes, c: nat, t: nat)
    requires HEADER_LEN + c + t <= |s|
    ensures var content, tool := s[HEADER_LEN..HEADER_LEN + c], s[HEADER_LEN + c..HEADER_LEN + c + t];
            var subject := s[HEADER_LEN + c + t..];
            && s[HEADER_LEN..] == content + tool + subject
            && s == s[..HEADER_LEN] + content + tool + subject
  {
    Cut3(s[HEADER_LEN..], c, c + t);
    Cut3(s, HEADER_LEN, HEADER_LEN + c);
    Cut3(s[HEADER_LEN + c..], 0, t);
  }

  // ------------------------------------------------------------- responses

  function ResponseBytes(matched: bool): (s: Bytes)
    ensures |s| == RESPONSE_LEN
  {
    LE(RESPONSE_MAGIC, 4) + LE(WIRE_VERSION, 4) + LE(if matched then 1 else 0, 4)
  }

  /** What the C client makes of a response. */
  function ResponseDecode(s: Bytes): Option<bool> {
    if |s| != RESPONSE_LEN || FromLE(s[..4]) != RESPONSE_MAGIC || FromLE(s[4..8]) != WIRE_VERSION || FromLE(s[8..]) > 1
    then None
    else Some(FromLE(s[8..]) == 1)
  }

  /** Likewise for responses. */
  lemma ResponseIsInverse(s: Bytes, m: bool)
    ensures ResponseDecode(s) == Some(m) <==> s == ResponseBytes(m)
  {
    Widths();
    var w := if m then 1 else 0;
    FromLEOfLE(RESPONSE_MAGIC, 4);
    FromLEOfLE(WIRE_VERSION, 4);
    FromLEOfLE(w, 4);
    var t := ResponseBytes(m);
    assert t[..4] == LE(RESPONSE_MAGIC, 4) && t[4..8] == LE(WIRE_VERSION, 4) && t[8..] == LE(w, 4);
    if ResponseDecode(s) == Some(m) {
      LEOfFromLE(s[..4]);
      LEOfFromLE(s[4..8]);
      LEOfFromLE(s[8..]);
      Cut3(s, 4, 8);
    }
    hide LE, FromLE;
  }

  // -------------------------------------------------------------- handlers

  datatype Status = Served | InvalidRequest | InternalError

  /** What a handler owes a request. */
  ghost function Answer(d: Dialect, request: Bytes): (Status, Bytes) {
    match Parse(request)
    case None => (InvalidRequest, [])
    case Some(r) => (Served, ResponseBytes(Matches(d, r.content, r.tool, r.subject)))
  }

  /** Go's handler. */
  method HandleGo(request: Bytes) returns (status: Status, response: Bytes)
    requires |request| < TWO32
    ensures (status, response) == Answer(Go, request)
  {
    hide Word, Matches, ResponseBytes;
    if |request| < HEADER_LEN || Word(request, 0) != REQUEST_MAGIC || Word(request, 1) != WIRE_VERSION {
      return InvalidRequest, [];
    }
    var contentLen, toolLen, subjectLen := Word(request, 2), Word(request, 3), Word(request, 4);
    var total := HEADER_LEN + contentLen + toolLen + subjectLen;
    if contentLen > CONTENT_MAX || toolLen == 0 || toolLen > TOOL_MAX || subjectLen > SUBJECT_MAX
       || total != |request| {
      return InvalidRequest, [];
    }
    var contentEnd := HEADER_LEN + contentLen;
    var toolEnd := contentEnd + toolLen;
    if 0 in request[HEADER_LEN..total] {
      return InvalidRequest, [];
    }
    assert request[HEADER_LEN..total] == request[HEADER_LEN..] && request[toolEnd..total] == request[toolEnd..];
    var matched := TriggerGo.TriggerMatches(
      request[HEADER_LEN..contentEnd], request[contentEnd..toolEnd], request[toolEnd..total]);
    response := ResponseBytes(matched);
    return Served, response;
  }

  /** C's handler, given room for the response and for its copies of the texts. */
  method HandleC(request: Bytes, capacity: nat, gotMemory: bool) returns (status: Status, response: Bytes)
    requires |request| < TWO32
    ensures capacity < RESPONSE_LEN ==> status == InvalidRequest && response == []
    ensures capacity >= RESPONSE_LEN && Parse(request).Some? && !gotMemory ==> status == InternalError && response == []
    ensures capacity >= RESPONSE_LEN && (Parse(request).None? || gotMemory) ==>
              (status, response) == Answer(C, request)
  {
    hide Parse, Matches, ResponseBytes;
    if capacity < RESPONSE_LEN {
      return InvalidRequest, [];
    }
    var parsed := RequestDecode(request);
    if parsed.None? {
      return InvalidRequest, [];
    }
    if !gotMemory {
      return InternalError, [];
    }
    var r := parsed.value;
    ParseIsInverse(request, r);
    var matched := TriggerC.MatchesContent(r.content, r.tool, r.subject);
    response := ResponseBytes(matched);
    return Served, response;
  }

  /** The C decoder checks the limits before the total, and each text for a NUL on
      its own. */
  method RequestDecode(s: Bytes) returns (r: Option<Request>)
    ensures r == Parse(s)
  {
    hide Word;
    if |s| < HEADER_LEN || Word(s, 0) != REQUEST_MAGIC || Word(s, 1) != WIRE_VERSION {
      return None;
    }
    var c, t, u := Word(s, 2), Word(s, 3), Word(s, 4);
    if c > CONTENT_MAX || t == 0 || t > TOOL_MAX || u > SUBJECT_MAX {
      return None;
    }
    if HEADER_LEN + c + t + u != |s| {
      return None;
    }
    var content, tool := s[HEADER_LEN..HEADER_LEN + c], s[HEADER_LEN + c..HEADER_LEN + c + t];
    var subject := s[HEADER_LEN + c + t..];
    assert s[HEADER_LEN..] == content + tool + subject;
    NoZero(content, tool, subject);
    if 0 in content || 0 in tool || 0 in subject {
      return None;
    }
    return Some(Request(content, tool, subject));
  }

  /** The C encoder: writes the request, or refuses what cannot be carried or does
      not fit. */
  method RequestEncode(r: Request, out: array<byte>) returns (ok: bool)
    requires 0 !in r.content && 0 !in r.tool && 0 !in r.subject
    modifies out
    ensures ok <==> Carried(r) && |RequestBytes(r)| <= out.Length
    ensures !ok ==> out[..] == old(out[..])
    ensures ok ==> out[..] == Splice(old(out[..]), 0, RequestBytes(r))
  {
    hide Head, Splice;
    var c, t, u := |r.content|, |r.tool|, |r.subject|;
    if c > CONTENT_MAX || t == 0 || t > TOOL_MAX || u > SUBJECT_MAX || out.Length < HEADER_LEN + c + t + u {
      return false;
    }
    ghost var before, head := out[..], Head(c, t, u);
    EncodeHead(c, t, u, out);
    BC.CopyIn(out, HEADER_LEN, r.content);
    SpliceAppend(before, 0, head, r.content);
    BC.CopyIn(out, HEADER_LEN + c, r.tool);
    SpliceAppend(before, 0, head + r.content, r.tool);
    BC.CopyIn(out, HEADER_LEN + c + t, r.subject);
    SpliceAppend(before, 0, head + r.content + r.tool, r.subject);
    return true;
  }

  method EncodeHead(c: uint32, t: uint32, u: uint32, out: array<byte>)
    requires HEADER_LEN <= out.Length
    modifies out
    ensures out[..] == Splice(old(out[..]), 0, Head(c, t, u))
  {
    hide Splice, Pack;
    ghost var b, v := out[..], Words(c, t, u);
    NothingWritten(b, 0, v, Width);
    Starts();
    PutField(out, 0, b, v, Width, 0, 0, REQUEST_MAGIC, 4);
    PutField(out, 0, b, v, Width, 1, 4, WIRE_VERSION, 4);
    PutField(out, 0, b, v, Width, 2, 8, c, 4);
    PutField(out, 0, b, v, Width, 3, 12, t, 4);
    PutField(out, 0, b, v, Width, 4, 16, u, 4);
  }

  /** The two handlers give the same answer to every body, unless it carries a
      content with an entry line that is not read alike; one without a white space
      character outside ASCII between its fences has none. */
  lemma HandlersAgree(request: Bytes)
    requires Parse(request).Some? ==>
               var content := Parse(request).value.content;
               TriggerParity.Alike(content) || TriggerParity.PlainHeader(content)
    ensures Answer(Go, request) == Answer(C, request)
  {
    hide Parse, Matches, ResponseBytes, TriggerParity.Alike, TriggerParity.PlainHeader;
    match Parse(request)
    case None =>
    case Some(r) =>
      if TriggerParity.PlainHeader(r.content) {
        TriggerParity.MatchersAgree(r.content, r.tool, r.subject);
      } else {
        TriggerParity.AlikeIsDecidedAlike(r.content, r.tool, r.subject);
      }
  }

  /** A decision asked over the wire is the decision: encode, serve, decode. */
  lemma WireRoundTrip(d: Dialect, r: Request)
    requires Carried(r)
    ensures var (status, response) := Answer(d, RequestBytes(r));
            status == Served && ResponseDecode(response) == Some(Matches(d, r.content, r.tool, r.subject))
  {
    ghost var matched := Matches(d, r.content, r.tool, r.subject);
    ParseIsInverse(RequestBytes(r), r);
    ResponseIsInverse(ResponseBytes(matched), matched);
    hide Parse, Matches, ResponseBytes, ResponseDecode, RequestBytes;
  }
}
