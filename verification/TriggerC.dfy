/** The C trigger matcher, with pointers as offsets into NUL-terminated text,
    proved to decide what the front matter means under C's trimming rules
    (src/modules/skills/skill_trigger_policy.c:7-147). */
module TriggerC {
  import opened Bytes
  import opened Wrappers
  import opened Search
  import opened TriggerText
  import TriggerGo

  /** The character a pointer sees; at the end, the terminator. */
  function CharAt(s: Bytes, i: nat): byte {
    if i < |s| then s[i] else 0
  }

  /** `strncmp(s + p, t, strlen(t)) == 0`. It looks past the end of the line the
      pointer is in. */
  predicate Agrees(s: Bytes, p: nat, t: Bytes) {
    forall k :: 0 <= k < |t| ==> CharAt(s, p + k) == t[k]
  }

  lemma AgreesIs(s: Bytes, p: nat, t: Str)
    requires p <= |s|
    ensures Agrees(s, p, t) <==> t <= s[p..]
  {
    if |t| > |s| - p {
      var k := |s| - p;
      assert CharAt(s, p + k) != t[k];
    }
  }

  // ------------------------------------------------------- values of a line

  /** Looks for a maximal run of token bytes equal to the needle, between two
      pointers. */
  method ContainsToken(s: Str, value: nat, len: nat, needle: Str) returns (found: bool)
    requires value + len <= |s|
    ensures found == HasToken(s[value..value + len], needle)
  {
    if needle == [] {
      return false;
    }
    hide HasToken, NoRun, TokenRun;
    var p, end := value, value + len;
    NoRunAtStart(s[value..end], needle);
    while p < end
      invariant value <= p <= end
      invariant p == value || p == end || !IsToken(s[p])
      invariant NoRun(s[value..end], p - value, needle)
    {
      ghost var from := p;
      while p < end && !IsToken(s[p])
        invariant from <= p <= end
        invariant forall k :: from <= k < p ==> !IsToken(s[k])
      {
        p := p + 1;
      }
      var start := p;
      while p < end && IsToken(s[p])
        invariant start <= p <= end
        invariant forall k :: start <= k < p ==> IsToken(s[k])
      {
        p := p + 1;
      }
      NextRun(s, value, end, from, start, p, needle);
      if p - start == |needle| && s[start..start + |needle|] == needle {
        return true;
      }
    }
    NoRunAtAll(s[value..end], needle);
    return false;
  }

  /** No maximal run that ends by `n` is the needle. */
  ghost predicate NoRun(v: Bytes, n: nat, needle: Bytes) {
    forall i: nat, j: nat :: TokenRun(v, i, j) && j <= n ==> v[i..j] != needle
  }

  lemma NoRunAtStart(v: Bytes, needle: Bytes)
    ensures NoRun(v, 0, needle)
  {
  }

  lemma NoRunAtAll(v: Bytes, needle: Bytes)
    requires NoRun(v, |v|, needle)
    ensures !HasToken(v, needle)
  {
  }

  /** The run between two pointers is the only one that ends past `from` and by
      `p`. */
  lemma NextRun(s: Bytes, value: nat, end: nat, from: nat, start: nat, p: nat, needle: Bytes)
    requires value <= from <= start <= p <= end <= |s| && needle != []
    requires NoRun(s[value..end], from - value, needle)
    requires from == value || from == end || !IsToken(s[from])
    requires forall k :: from <= k < start ==> !IsToken(s[k])
    requires forall k :: start <= k < p ==> IsToken(s[k])
    requires (start == end || IsToken(s[start])) && (p == end || !IsToken(s[p]))
    ensures if s[start..p] == needle then HasToken(s[value..end], needle)
            else NoRun(s[value..end], p - value, needle)
  {
    var v := s[value..end];
    SliceOfSlice(s, value, end, start - value, p - value);
    if s[start..p] == needle {
      assert TokenRun(v, start - value, p - value);
    } else {
      forall i: nat, j: nat | TokenRun(v, i, j) && j <= p - value ensures v[i..j] != needle {
        TriggerGo.RunsUpTo(v, from - value, start - value, p - value, i, j);
      }
    }
  }

  /** The inner loops: on to the next quote, and on to the one that closes it. */
  method SkipToQuote(s: Str, value: nat, end: nat, from: nat) returns (p: nat)
    requires value <= from <= end <= |s|
    ensures p == value + QuoteAt(s[value..end], from - value) && (p < end ==> s[p] == s[value..end][p - value])
  {
    p := from;
    while p < end && !IsQuote(s[p])
      invariant from <= p <= end
      invariant forall k :: from <= k < p ==> !IsQuote(s[k])
    {
      p := p + 1;
    }
    QuoteIs(s[value..end], from - value, p - value);
  }

  method SkipToClose(s: Str, value: nat, end: nat, from: nat, quote: byte) returns (p: nat)
    requires value <= from <= end <= |s|
    ensures p == value + CloseAt(s[value..end], from - value, quote)
  {
    p := from;
    while p < end && s[p] != quote
      invariant from <= p <= end
      invariant forall k :: from <= k < p ==> s[k] != quote
    {
      p := p + 1;
    }
    CloseIs(s[value..end], from - value, quote, p - value);
  }

  /** Splits off the quoted patterns between two pointers, copies at most 127 bytes
      of each, and looks for it. */
  method QuotedPatternsMatch(s: Str, value: nat, len: nat, subject: Str) returns (found: bool)
    requires value + len <= |s|
    ensures found == PatternsMatch(s[value..value + len], subject)
  {
    hide Quoted, Hits, Given, Occurs, HasToken, QuoteAt, CloseAt, Capped;
    var p, end := value, value + len;
    ghost var v := s[value..end];
    TriggerGo.NoPatterns(v, subject);
    var sawQuoted := false;
    ghost var seen: seq<Bytes> := [];
    while p < end
      invariant value <= p <= end
      invariant Quoted(v, 0) == seen + Quoted(v, p - value)
      invariant sawQuoted == Given(seen) && !Hits(seen, subject)
    {
      ghost var from := p - value;
      p := SkipToQuote(s, value, end, p);
      if p >= end {
        TriggerGo.NothingQuoted(v, from);
        break;
      }
      var quote := s[p];
      p := p + 1;
      var start := p;
      p := SkipToClose(s, value, end, p, quote);
      ghost var pattern := v[start - value..p - value];
      TriggerGo.QuotedOnce(v, from, start - value, p - value);
      ghost var left := QuotedAfter(v, p - value);
      assert seen + Quoted(v, from) == seen + [pattern] + left;
      TriggerGo.OneMorePattern(seen, pattern, subject);
      SliceOfSlice(s, value, end, start - value, p - value);
      if p - start > 0 {
        sawQuoted := true;
        var hit := LookFor(s, start, p - start, subject);
        if hit {
          TriggerGo.HitsGrow(seen + [pattern], left, subject);
          return true;
        }
      }
      seen := seen + [pattern];
      if p < end {
        p := p + 1;
      }
    }
    assert seen + [] == seen;
    if sawQuoted {
      return false;
    }
    found := ContainsToken(s, value, len, subject);
  }

  /** Copies at most 127 bytes into a buffer and looks for them. */
  method LookFor(s: Str, start: nat, len: nat, subject: Str) returns (hit: bool)
    requires start + len <= |s|
    ensures hit == Occurs(subject, Capped(s[start..start + len]))
  {
    var patLen := len;
    if patLen >= 128 {
      patLen := 127;
    }
    var copied := s[start..start + patLen];
    assert copied == Capped(s[start..start + len]);
    var found := Find(subject, copied, 0);
    return found.Some?;
  }

  /** Finds `key:` at the start of a line, past its indentation, and the value after
      it with blanks stripped. */
  method FindValue(s: Str, line: nat, len: nat, key: Str) returns (ok: bool, value: nat, valueLen: nat)
    requires line + len <= |s|
    ensures ok == LineValue(C, s[line..line + len], key).Some?
    ensures ok ==> value + valueLen <= line + len
                   && s[value..value + valueLen] == LineValue(C, s[line..line + len], key).value
  {
    hide TrimLeft, TrimRight, LineValue;
    var end := line + len;
    var p := SkipSpaces(s, line, end);
    ValueAfterKey(s, s[line..end], p, end, key);
    if end - p < |key| + 1 || s[p..p + |key|] != key || s[p + |key|] != COLON {
      return false, 0, 0;
    }
    value, valueLen := StripValue(s, p + |key| + 1, end);
    ok := true;
  }

  method StripValue(s: Str, from: nat, to: nat) returns (value: nat, valueLen: nat)
    requires from <= to <= |s|
    ensures value + valueLen <= to && s[value..value + valueLen] == TrimRight(TrimLeft(s[from..to]))
  {
    hide TrimLeft, TrimRight;
    var p := SkipSpaces(s, from, to);
    var end := DropSpaces(s, p, to);
    return p, end - p;
  }

  lemma ValueAfterKey(s: Bytes, line: Bytes, p: nat, end: nat, key: Bytes)
    requires p <= end <= |s| && s[p..end] == TrimLeft(line)
    ensures LineValue(C, line, key)
            == if end - p >= |key| + 1 && s[p..p + |key|] == key && s[p + |key|] == COLON
               then Some(TrimRight(TrimLeft(s[p + |key| + 1..end]))) else None
  {
    KeyTest(s, p, end, key);
    hide TrimLeft, TrimRight;
  }

  /** The three tests on the bytes after the indentation. */
  lemma KeyTest(s: Bytes, p: nat, end: nat, key: Bytes)
    requires p <= end <= |s|
    ensures key + [COLON] <= s[p..end] <==>
              end - p >= |key| + 1 && s[p..p + |key|] == key && s[p + |key|] == COLON
    ensures end - p >= |key| + 1 ==> s[p..end][|key| + 1..] == s[p + |key| + 1..end]
  {
    if end - p >= |key| + 1 {
      SliceOfSlice(s, p, end, 0, |key| + 1);
      SliceOfSlice(s, p, end, |key| + 1, end - p);
      assert s[p..p + |key| + 1] == s[p..p + |key|] + [s[p + |key|]];
      PrefixIs(key, s[p..p + |key|], s[p + |key|], s[p..end]);
    }
  }

  lemma PrefixIs(key: Bytes, head: Bytes, next: byte, s: Bytes)
    requires |key| == |head| < |s| && s[..|key| + 1] == head + [next]
    ensures key + [COLON] <= s <==> key == head && next == COLON
  {
    var t := key + [COLON];
    if t <= s {
      assert t == head + [next];
      assert t[..|key|] == key && (head + [next])[..|key|] == head;
      assert t[|key|] == COLON && (head + [next])[|key|] == next;
    }
  }

  method SkipSpaces(s: Str, from: nat, end: nat) returns (p: nat)
    requires from <= end <= |s|
    ensures from <= p <= end && s[p..end] == TrimLeft(s[from..end])
  {
    hide TrimLeft;
    p := from;
    while p < end && IsSpace(s[p])
      invariant from <= p <= end && TrimLeft(s[p..end]) == TrimLeft(s[from..end])
    {
      TrimLeftHere(s, p, end);
      p := p + 1;
    }
    TrimLeftHere(s, p, end);
  }

  lemma TrimLeftHere(s: Bytes, p: nat, end: nat)
    requires p <= end <= |s|
    ensures TrimLeft(s[p..end]) == if p < end && IsSpace(s[p]) then TrimLeft(s[p + 1..end]) else s[p..end]
  {
    if p < end {
      assert s[p..end][0] == s[p];
      SliceOfSlice(s, p, end, 1, end - p);
    }
  }

  lemma TrimRightHere(s: Bytes, p: nat, end: nat)
    requires p <= end <= |s|
    ensures TrimRight(s[p..end]) == if p < end && IsSpace(s[end - 1]) then TrimRight(s[p..end - 1]) else s[p..end]
  {
    if p < end {
      assert s[p..end][end - p - 1] == s[end - 1];
      SliceOfSlice(s, p, end, 0, end - p - 1);
    }
  }

  method DropSpaces(s: Str, p: nat, from: nat) returns (end: nat)
    requires p <= from <= |s|
    ensures p <= end <= from && s[p..end] == TrimRight(s[p..from])
  {
    hide TrimRight;
    end := from;
    while end > p && IsSpace(s[end - 1])
      invariant p <= end <= from && TrimRight(s[p..end]) == TrimRight(s[p..from])
    {
      TrimRightHere(s, p, end);
      end := end - 1;
    }
    TrimRightHere(s, p, end);
  }

  // ------------------------------------------------------------- the lines

  /** `memchr(p, '\n', end - p)`, or `end`. */
  function LineEnd(s: Bytes, p: nat, end: nat): (r: nat)
    requires p <= end <= |s|
    ensures p <= r <= end && (r < end ==> s[r] == NEWLINE) && forall k :: p <= k < r ==> s[k] != NEWLINE
  {
    FindByte(s[..end], NEWLINE, p);
    match Find(s[..end], [NEWLINE], p)
    case Some(i) => i
    case None => end
  }

  function NextLine(lineEnd: nat, end: nat): nat {
    if lineEnd < end then lineEnd + 1 else end
  }

  /** What the pointer loop makes of the text from `p` on. */
  ghost function ScanFrom(s: Bytes, p: nat, end: nat, st: Scan, tool: Bytes, subject: Bytes): Scan
    requires p <= end <= |s|
    decreases end - p
  {
    if p >= end then st
    else
      var lineEnd := LineEnd(s, p, end);
      var next := NextLine(lineEnd, end);
      if lineEnd == p then ScanFrom(s, next, end, st, tool, subject)
      else if !IsSpace(s[p]) then
        if Agrees(s, p, TriggersKey())
        then ScanFrom(s, next, end, st.(inTriggers := true, sawTriggers := true), tool, subject)
        else if st.inTriggers then st
        else ScanFrom(s, next, end, st, tool, subject)
      else
        var now := if st.inTriggers then Entry(C, st, s[p..lineEnd], tool, subject) else st;
        ScanFrom(s, next, end, now, tool, subject)
  }

  lemma CutLine(s: Bytes, p: nat, end: nat)
    requires p <= end <= |s|
    ensures var lineEnd := LineEnd(s, p, end);
            Lines(s[p..end])
            == if lineEnd < end then [s[p..lineEnd]] + Lines(s[lineEnd + 1..end]) else [s[p..end]]
  {
    hide Find;
    FindInTail(s[..end], [NEWLINE], p, 0);
    assert s[..end][p..] == s[p..end];
    var lineEnd := LineEnd(s, p, end);
    var found := Find(s[p..end], [NEWLINE], 0);
    assert lineEnd == if found.Some? then p + found.value else end;
    hide LineEnd;
    if lineEnd < end {
      assert s[p..end][..lineEnd - p] == s[p..lineEnd];
      assert s[p..end][lineEnd - p + 1..] == s[lineEnd + 1..end];
    }
  }

  /** Looking past the end of a line for a key without a newline finds what the
      line itself starts with, because a newline follows the line. */
  lemma KeyWithinLine(s: Bytes, p: nat, lineEnd: nat, key: Str)
    requires p <= lineEnd < |s| && s[lineEnd] == NEWLINE && NEWLINE !in key
    ensures Agrees(s, p, key) <==> key <= s[p..lineEnd]
  {
    AgreesIs(s, p, key);
    if |key| > lineEnd - p {
      assert s[p..][lineEnd - p] != key[lineEnd - p];
    }
  }

  lemma TriggersKeyIsPlain()
    ensures 0 !in TriggersKey() && NEWLINE !in TriggersKey()
  {
  }

  /** The pointer scan reads the lines that splitting gives. */
  lemma {:induction false} ScanIsLines(s: Bytes, p: nat, end: nat, st: Scan, tool: Bytes, subject: Bytes)
    requires p <= end < |s| && s[end] == NEWLINE
    ensures ScanFrom(s, p, end, st, tool, subject) == ScanLines(C, st, Lines(s[p..end]), tool, subject)
    decreases end - p
  {
    hide Entry, LineEnd, TriggersKey, Agrees, Lines;
    CutLine(s, p, end);
    var lineEnd := LineEnd(s, p, end);
    var line, lines := s[p..lineEnd], Lines(s[p..end]);
    TriggersKeyIsPlain();
    KeyWithinLine(s, p, lineEnd, TriggersKey());
    assert lines[0] == line;
    if p < end && !Stops(st, line) {
      var now := LineStep(C, st, line, tool, subject);
      ScanIsLines(s, NextLine(lineEnd, end), end, now, tool, subject);
      RestOfLines(s, p, end, lines);
      NoMoreLines(s, end, now, tool, subject);
    } else if p == end {
      NoMoreLines(s, end, st, tool, subject);
    }
  }

  lemma RestOfLines(s: Bytes, p: nat, end: nat, lines: seq<Bytes>)
    requires p < end < |s| && lines == Lines(s[p..end])
    ensures var lineEnd := LineEnd(s, p, end);
            lines[1..] == if lineEnd < end then Lines(s[lineEnd + 1..end]) else []
  {
    hide LineEnd, Lines;
    CutLine(s, p, end);
  }

  lemma NoMoreLines(s: Bytes, end: nat, st: Scan, tool: Bytes, subject: Bytes)
    requires end <= |s|
    ensures ScanLines(C, st, Lines(s[end..end]), tool, subject) == st == ScanLines(C, st, [], tool, subject)
  {
    assert Lines([]) == [[]];
  }

  /** The whole decision. */
  method MatchesContent(content: Str, toolName: Str, subject: Str) returns (r: bool)
    ensures r == Matches(C, content, toolName, subject)
  {
    if toolName == [] {
      return false;
    }
    OpensIs(content);
    if !Agrees(content, 0, Text("---")) || (CharAt(content, 3) != 10 && CharAt(content, 3) != 13) {
      return false;
    }
    var headerStart := Find(content, [NEWLINE], 0);
    if headerStart.None? {
      return false;
    }
    var headerEnd := Find(content, Text("\n---"), headerStart.value + 1);
    if headerEnd.None? {
      return false;
    }
    hide Text, ScanFrom, ScanLines, Find, Agrees;
    var start, end := headerStart.value + 1, headerEnd.value;
    assert Header(content) == Some((start, end));
    ScanIsLines(content, start, end, NO_LINES, toolName, subject);
    var st := ReadLines(content, start, end, toolName, subject);
    return Decision(st);
  }

  lemma OpensIs(content: Str)
    ensures Opens(content) <==>
              Agrees(content, 0, Text("---")) && (CharAt(content, 3) == 10 || CharAt(content, 3) == 13)
  {
    AgreesIs(content, 0, Text("---"));
    assert content[0..] == content;
    hide Text;
  }

  /** The loop over the lines. */
  method ReadLines(s: Str, start: nat, end: nat, toolName: Str, subject: Str) returns (st: Scan)
    requires start <= end <= |s|
    ensures st == ScanFrom(s, start, end, NO_LINES, toolName, subject)
  {
    hide Entry, Text, Agrees;
    st := NO_LINES;
    var p := start;
    while p < end
      invariant start <= p <= end
      invariant ScanFrom(s, p, end, st, toolName, subject) == ScanFrom(s, start, end, NO_LINES, toolName, subject)
      decreases end - p
    {
      var lineEnd := LineEnd(s, p, end);
      var next := NextLine(lineEnd, end);
      if lineEnd == p {
        p := next;
        continue;
      }
      if !IsSpace(s[p]) {
        if Agrees(s, p, TriggersKey()) {
          st := st.(inTriggers := true, sawTriggers := true);
        } else if st.inTriggers {
          return;
        }
      } else if st.inTriggers {
        st := ReadEntry(s, p, lineEnd - p, st, toolName, subject);
      }
      p := next;
    }
  }

  method ReadEntry(s: Str, line: nat, len: nat, st: Scan, toolName: Str, subject: Str) returns (r: Scan)
    requires line + len <= |s|
    ensures r == TriggerText.Entry(C, st, s[line..line + len], toolName, subject)
  {
    hide HasToken, PatternsMatch, LineValue;
    var ok, value, valueLen := FindValue(s, line, len, ToolKey());
    if ok {
      var found := ContainsToken(s, value, valueLen, toolName);
      return st.(sawTool := true, toolMatch := st.toolMatch || found);
    }
    ok, value, valueLen := FindValue(s, line, len, ArgKey());
    if !ok {
      ok, value, valueLen := FindValue(s, line, len, PathKey());
    }
    if ok {
      var found := QuotedPatternsMatch(s, value, valueLen, subject);
      return st.(sawPattern := true, patternMatch := st.patternMatch || found);
    }
    return st;
  }
}
