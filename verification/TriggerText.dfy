/** What a trigger front matter means: the vocabulary both matchers are proved
    against (server-go/modules/skills/skills.go:49-162,
    src/modules/skills/skill_trigger_policy.c). */
module TriggerText {
  import opened Bytes
  import opened Wrappers
  import opened Search

  /** The bytes of an ASCII literal. */
  function Text(s: string): (r: Bytes)
    requires forall i :: 0 <= i < |s| ==> s[i] < 128 as char
    ensures |r| == |s| && forall i :: 0 <= i < |r| ==> r[i] == s[i] as int
  {
    seq(|s|, i requires 0 <= i < |s| => s[i] as int)
  }

  const NEWLINE: byte := 10
  const COLON: byte := 58

  predicate IsSpace(b: byte) {
    b == 32 || 9 <= b <= 13
  }

  predicate IsToken(b: byte) {
    97 <= b <= 122 || 65 <= b <= 90 || 48 <= b <= 57 || b == 95 || b == 45 || b == 46
  }

  predicate IsQuote(b: byte) {
    b == 34 || b == 39
  }

  // ----------------------------------------------------------------- tokens

  /** `value[i..j]` is a run of token bytes that cannot be extended. */
  ghost predicate TokenRun(value: Bytes, i: nat, j: nat) {
    && i < j <= |value| && (forall k :: i <= k < j ==> IsToken(value[k]))
    && (i == 0 || !IsToken(value[i - 1])) && (j == |value| || !IsToken(value[j]))
  }

  /** Some maximal run of token bytes is `needle`. */
  ghost predicate HasToken(value: Bytes, needle: Bytes) {
    exists i: nat, j: nat :: TokenRun(value, i, j) && value[i..j] == needle
  }

  /** Two maximal runs that overlap are the same. */
  lemma RunsAgree(value: Bytes, i: nat, j: nat, a: nat, b: nat)
    requires TokenRun(value, i, j) && TokenRun(value, a, b) && i < b && a < j
    ensures i == a && j == b
  {
  }

  // --------------------------------------------------------------- patterns

  /** The first byte at or after `from` that is a quote, or the end. */
  function QuoteAt(value: Bytes, from: nat): (r: nat)
    requires from <= |value|
    ensures from <= r <= |value| && (r < |value| ==> IsQuote(value[r]))
    ensures forall k :: from <= k < r ==> !IsQuote(value[k])
    decreases |value| - from
  {
    if from == |value| || IsQuote(value[from]) then from else QuoteAt(value, from + 1)
  }

  /** The first `quote` at or after `from`, or the end. */
  function CloseAt(value: Bytes, from: nat, quote: byte): (r: nat)
    requires from <= |value|
    ensures from <= r <= |value| && (r < |value| ==> value[r] == quote)
    ensures forall k :: from <= k < r ==> value[k] != quote
    decreases |value| - from
  {
    if from == |value| || value[from] == quote then from else CloseAt(value, from + 1, quote)
  }

  lemma QuoteIs(value: Bytes, from: nat, r: nat)
    requires from <= r <= |value| && (r < |value| ==> IsQuote(value[r]))
    requires forall k :: from <= k < r ==> !IsQuote(value[k])
    ensures QuoteAt(value, from) == r
  {
  }

  lemma CloseIs(value: Bytes, from: nat, quote: byte, r: nat)
    requires from <= r <= |value| && (r < |value| ==> value[r] == quote)
    requires forall k :: from <= k < r ==> value[k] != quote
    ensures CloseAt(value, from, quote) == r
  {
  }

  /** The texts between quotes: each quote opens one that runs to the next quote
      of its own kind, or to the end. */
  function Quoted(value: Bytes, from: nat): seq<Bytes>
    requires from <= |value|
    decreases |value| - from
  {
    var open := QuoteAt(value, from);
    if open == |value| then []
    else
      var close := CloseAt(value, open + 1, value[open]);
      [value[open + 1..close]] + QuotedAfter(value, close)
  }

  /** The quoted texts after one that closed at `close`. */
  function QuotedAfter(value: Bytes, close: nat): seq<Bytes>
    requires close <= |value|
    decreases |value| - close
  {
    if close < |value| then Quoted(value, close + 1) else []
  }

  const PATTERN_MAX: nat := 127

  /** Patterns are looked for by at most their first 127 bytes. */
  function Capped(pattern: Bytes): (r: Bytes)
    ensures r <= pattern && |r| <= PATTERN_MAX
  {
    if |pattern| > PATTERN_MAX then pattern[..PATTERN_MAX] else pattern
  }

  ghost predicate Hits(patterns: seq<Bytes>, subject: Bytes) {
    exists i :: 0 <= i < |patterns| && patterns[i] != [] && Occurs(subject, Capped(patterns[i]))
  }

  ghost predicate Given(patterns: seq<Bytes>) {
    exists i :: 0 <= i < |patterns| && patterns[i] != []
  }

  /** With quoted patterns, one of them stands in the subject; with none, the
      subject is itself a token of the value. */
  ghost predicate PatternsMatch(value: Bytes, subject: Bytes) {
    var patterns := Quoted(value, 0);
    if Given(patterns) then Hits(patterns, subject) else HasToken(value, subject)
  }

  // --------------------------------------------------------------- trimming

  function TrimLeft(s: Bytes): (r: Bytes)
    ensures |r| <= |s|
  {
    if s != [] && IsSpace(s[0]) then TrimLeft(s[1..]) else s
  }

  function TrimRight(s: Bytes): (r: Bytes)
    ensures |r| <= |s|
  {
    if s != [] && IsSpace(s[|s| - 1]) then TrimRight(s[..|s| - 1]) else s
  }

  /** The length of the white space character `s` begins with, UTF-8 encoded:
      U+0085, U+00A0, U+1680, U+2000 to U+200A, U+2028, U+2029, U+202F, U+205F and
      U+3000 beside the six ASCII ones. */
  function SpaceHere(s: Bytes): (n: nat)
    ensures n <= |s|
  {
    if s == [] then 0
    else if IsSpace(s[0]) then 1
    else WideSpaceHere(s)
  }

  function WideSpaceHere(s: Bytes): (n: nat)
    ensures n <= |s| && (n > 0 ==> n >= 2 && s[0] >= 0x80 && s[n - 1] >= 0x80)
  {
    if |s| >= 2 && WideTwo(s[0], s[1]) then 2
    else if |s| >= 3 && WideThree(s[0], s[1], s[2]) then 3
    else 0
  }

  predicate WideTwo(a: byte, b: byte) {
    a == 0xC2 && (b == 0x85 || b == 0xA0)
  }

  predicate WideThree(a: byte, b: byte, c: byte) {
    || (a == 0xE1 && b == 0x9A && c == 0x80)
    || (a == 0xE2 && b == 0x80 && (0x80 <= c <= 0x8A || c == 0xA8 || c == 0xA9 || c == 0xAF))
    || (a == 0xE2 && b == 0x81 && c == 0x9F)
    || (a == 0xE3 && b == 0x80 && c == 0x80)
  }

  /** The length of the white space character `s` ends with. */
  function SpaceLast(s: Bytes): (n: nat)
    ensures n <= |s|
  {
    if s == [] then 0
    else if IsSpace(s[|s| - 1]) then 1
    else WideSpaceLast(s)
  }

  function WideSpaceLast(s: Bytes): (n: nat)
    ensures n <= |s| && (n > 0 ==> n >= 2 && s[|s| - n] >= 0x80 && s[|s| - 1] >= 0x80)
  {
    if |s| >= 2 && WideTwo(s[|s| - 2], s[|s| - 1]) then 2
    else if |s| >= 3 && WideThree(s[|s| - 3], s[|s| - 2], s[|s| - 1]) then 3
    else 0
  }

  /** bytes.TrimSpace, from the left and from the right. */
  function TrimUnicodeLeft(s: Bytes): (r: Bytes)
    ensures |r| <= |s|
    decreases |s|
  {
    if SpaceHere(s) > 0 then TrimUnicodeLeft(s[SpaceHere(s)..]) else s
  }

  function TrimUnicodeRight(s: Bytes): (r: Bytes)
    ensures |r| <= |s|
    decreases |s|
  {
    if SpaceLast(s) > 0 then TrimUnicodeRight(s[..|s| - SpaceLast(s)]) else s
  }

  // ------------------------------------------------------------------ lines

  /** Whose rules a line is read by. */
  datatype Dialect = Go | C

  function Trim(d: Dialect, s: Bytes): (r: Bytes) {
    match d
    case Go => TrimUnicodeRight(TrimUnicodeLeft(s))
    case C => TrimRight(TrimLeft(s))
  }

  /** The value of `key` on a line, if the line gives it one. Go trims both ends
      before it looks for the key, C only the left one. */
  function LineValue(d: Dialect, line: Bytes, key: Bytes): Option<Bytes> {
    var s := if d.Go? then Trim(Go, line) else TrimLeft(line);
    if key + [COLON] <= s then Some(Trim(d, s[|key| + 1..])) else None
  }

  /** A text cut at its newlines; the pieces are one more than the newlines. */
  function Lines(s: Bytes): (r: seq<Bytes>)
    ensures r != []
    decreases |s|
  {
    match Find(s, [NEWLINE], 0)
    case None => [s]
    case Some(i) => [s[..i]] + Lines(s[i + 1..])
  }

  // --------------------------------------------------------------- decision

  datatype Scan = Scan(
    inTriggers: bool, sawTriggers: bool, sawTool: bool, toolMatch: bool, sawPattern: bool, patternMatch: bool)

  const NO_LINES: Scan := Scan(false, false, false, false, false, false)

  function TriggersKey(): Bytes { Text("triggers:") }
  function ToolKey(): Bytes { Text("tool") }
  function ArgKey(): Bytes { Text("arg_pattern") }
  function PathKey(): Bytes { Text("path_pattern") }

  /** An indented line inside the triggers block. */
  ghost function Entry(d: Dialect, st: Scan, line: Bytes, tool: Bytes, subject: Bytes): Scan {
    if LineValue(d, line, ToolKey()).Some? then
      st.(sawTool := true, toolMatch := st.toolMatch || HasToken(LineValue(d, line, ToolKey()).value, tool))
    else if LineValue(d, line, ArgKey()).Some? then
      Pattern(st, LineValue(d, line, ArgKey()).value, subject)
    else if LineValue(d, line, PathKey()).Some? then
      Pattern(st, LineValue(d, line, PathKey()).value, subject)
    else st
  }

  ghost function Pattern(st: Scan, value: Bytes, subject: Bytes): Scan {
    st.(sawPattern := true, patternMatch := st.patternMatch || PatternsMatch(value, subject))
  }

  /** The block ends at the first unindented line after it that does not open one
      again. */
  predicate Stops(st: Scan, line: Bytes) {
    line != [] && !IsSpace(line[0]) && !(TriggersKey() <= line) && st.inTriggers
  }

  ghost function LineStep(d: Dialect, st: Scan, line: Bytes, tool: Bytes, subject: Bytes): Scan {
    if line == [] then st
    else if !IsSpace(line[0]) then
      if TriggersKey() <= line then st.(inTriggers := true, sawTriggers := true) else st
    else if st.inTriggers then Entry(d, st, line, tool, subject)
    else st
  }

  ghost function ScanLines(d: Dialect, st: Scan, lines: seq<Bytes>, tool: Bytes, subject: Bytes): Scan
    decreases |lines|
  {
    if lines == [] || Stops(st, lines[0]) then st
    else ScanLines(d, LineStep(d, st, lines[0], tool, subject), lines[1..], tool, subject)
  }

  predicate Decision(st: Scan) {
    st.sawTriggers && (!st.sawTool || st.toolMatch) && (!st.sawPattern || st.patternMatch)
  }

  predicate Opens(content: Bytes) {
    |content| >= 4 && content[..3] == Text("---") && (content[3] == 10 || content[3] == 13)
  }

  /** Where the front matter starts and ends. */
  function Header(content: Bytes): (r: Option<(nat, nat)>)
    ensures r.Some? ==> r.value.0 <= r.value.1 < |content| && content[r.value.1] == NEWLINE
  {
    match Find(content, [NEWLINE], 0)
    case None => None
    case Some(i) =>
      var fence := Text("\n---");
      match Find(content, fence, i + 1)
      case None => None
      case Some(end) =>
        assert content[end..end + 4][0] == fence[0];
        Some((i + 1, end))
  }

  /** The decision on a skill's content. */
  ghost predicate Matches(d: Dialect, content: Bytes, tool: Bytes, subject: Bytes) {
    && tool != [] && Opens(content)
    && match Header(content)
       case None => false
       case Some((start, end)) => Decision(ScanLines(d, NO_LINES, Lines(content[start..end]), tool, subject))
  }
}
