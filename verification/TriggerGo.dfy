/** The Go trigger matcher, proved to decide what the front matter means under
    Go's trimming rules (server-go/modules/skills/skills.go:54-162). */
module TriggerGo {
  import opened Bytes
  import opened Wrappers
  import opened Search
  import opened TriggerText

  /** A run that ends no later than the next maximal one does is either earlier or
      that one. */
  lemma RunsUpTo(value: Bytes, from: nat, start: nat, pos: nat, i: nat, j: nat)
    requires from <= start <= pos <= |value| && TokenRun(value, i, j) && j <= pos
    requires from == 0 || from == |value| || !IsToken(value[from])
    requires forall k :: from <= k < start ==> !IsToken(value[k])
    requires forall k :: start <= k < pos ==> IsToken(value[k])
    requires start == |value| || start < pos
    requires pos == |value| || !IsToken(value[pos])
    ensures j <= from || (i == start && j == pos)
  {
    if j > from {
      assert IsToken(value[j - 1]);
      if start < pos {
        RunsAgree(value, i, j, start, pos);
      }
    }
  }

  /** Looks for a maximal run of token bytes equal to the needle. */
  method ContainsToken(value: Bytes, needle: Bytes) returns (found: bool)
    ensures found == HasToken(value, needle)
  {
    if needle == [] {
      return false;
    }
    var pos := 0;
    while pos < |value|
      invariant 0 <= pos <= |value|
      invariant pos == 0 || pos == |value| || !IsToken(value[pos])
      invariant forall i: nat, j: nat :: TokenRun(value, i, j) && j <= pos ==> value[i..j] != needle
    {
      ghost var from := pos;
      while pos < |value| && !IsToken(value[pos])
        invariant from <= pos <= |value|
        invariant forall k :: from <= k < pos ==> !IsToken(value[k])
      {
        pos := pos + 1;
      }
      var start := pos;
      while pos < |value| && IsToken(value[pos])
        invariant start <= pos <= |value|
        invariant forall k :: start <= k < pos ==> IsToken(value[k])
      {
        pos := pos + 1;
      }
      if value[start..pos] == needle {
        assert TokenRun(value, start, pos);
        return true;
      }
      forall i: nat, j: nat | TokenRun(value, i, j) && j <= pos ensures value[i..j] != needle {
        RunsUpTo(value, from, start, pos, i, j);
      }
    }
    return false;
  }

  /** Splits off the quoted patterns one by one and looks for each. */
  method QuotedPatternsMatch(value: Bytes, subject: Bytes) returns (found: bool)
    ensures found == PatternsMatch(value, subject)
  {
    hide Quoted, Hits, Given, Occurs, HasToken;
    NoPatterns(value, subject);
    var sawQuoted := false;
    var pos := 0;
    ghost var seen: seq<Bytes> := [];
    while pos < |value|
      invariant 0 <= pos <= |value|
      invariant Quoted(value, 0) == seen + Quoted(value, pos)
      invariant sawQuoted == Given(seen) && !Hits(seen, subject)
    {
      ghost var from := pos;
      while pos < |value| && !IsQuote(value[pos])
        invariant from <= pos <= |value|
        invariant forall k :: from <= k < pos ==> !IsQuote(value[k])
      {
        pos := pos + 1;
      }
      QuoteIs(value, from, pos);
      if pos == |value| {
        NothingQuoted(value, from);
        break;
      }
      var quote := value[pos];
      pos := pos + 1;
      var start := pos;
      while pos < |value| && value[pos] != quote
        invariant start <= pos <= |value|
        invariant forall k :: start <= k < pos ==> value[k] != quote
      {
        pos := pos + 1;
      }
      CloseIs(value, start, quote, pos);
      ghost var pattern := value[start..pos];
      QuotedOnce(value, from, start, pos);
      ghost var left := QuotedAfter(value, pos);
      assert seen + Quoted(value, from) == seen + [pattern] + left;
      OneMorePattern(seen, pattern, subject);
      if pos > start {
        sawQuoted := true;
        var end := pos;
        if end - start > PATTERN_MAX {
          end := start + PATTERN_MAX;
        }
        var hit := Find(subject, value[start..end], 0);
        assert value[start..end] == Capped(pattern);
        FoundIsOccurs(subject, Capped(pattern));
        if hit.Some? {
          HitsGrow(seen + [pattern], left, subject);
          return true;
        }
      }
      seen := seen + [pattern];
      if pos < |value| {
        pos := pos + 1;
      }
    }
    assert seen + [] == seen;
    if sawQuoted {
      return false;
    }
    found := ContainsToken(value, subject);
  }

  lemma NothingQuoted(value: Bytes, from: nat)
    requires from <= |value| && QuoteAt(value, from) == |value|
    ensures Quoted(value, from) == []
  {
  }

  lemma NoPatterns(value: Bytes, subject: Bytes)
    ensures [] + Quoted(value, 0) == Quoted(value, 0)
    ensures !Given([]) && !Hits([], subject) && Quoted(value, |value|) == []
  {
  }

  lemma FoundIsOccurs(s: Bytes, t: Bytes)
    ensures Find(s, t, 0).Some? <==> Occurs(s, t)
  {
  }

  /** The next quoted text, and what is left after it. */
  lemma QuotedOnce(value: Bytes, from: nat, start: nat, pos: nat)
    requires from < start <= pos <= |value| && QuoteAt(value, from) == start - 1
    requires CloseAt(value, start, value[start - 1]) == pos
    ensures Quoted(value, from) == [value[start..pos]] + QuotedAfter(value, pos)
  {
    hide QuoteAt, CloseAt, QuotedAfter;
  }

  lemma OneMorePattern(seen: seq<Bytes>, pattern: Bytes, subject: Bytes)
    ensures Given(seen + [pattern]) <==> Given(seen) || pattern != []
    ensures Hits(seen + [pattern], subject) <==>
              Hits(seen, subject) || (pattern != [] && Occurs(subject, Capped(pattern)))
  {
    var more := seen + [pattern];
    forall i | 0 <= i < |seen| ensures more[i] == seen[i] {
    }
    assert more[|seen|] == pattern;
  }

  lemma HitsGrow(seen: seq<Bytes>, left: seq<Bytes>, subject: Bytes)
    requires Hits(seen, subject)
    ensures Hits(seen + left, subject) && Given(seen + left)
  {
    var i :| 0 <= i < |seen| && seen[i] != [] && Occurs(subject, Capped(seen[i]));
    assert (seen + left)[i] == seen[i];
  }

  /** The whole decision: fences, lines, block, values. */
  method TriggerMatches(content: Bytes, toolName: Bytes, subject: Bytes) returns (r: bool)
    ensures r == Matches(Go, content, toolName, subject)
  {
    hide Lines, LineStep, HasToken, PatternsMatch, LineValue;
    if toolName == [] || |content| < 4 || content[..3] != Text("---") || (content[3] != 10 && content[3] != 13) {
      return false;
    }
    hide Header, Text;
    var header := CutHeader(content);
    if header.None? {
      return false;
    }
    var st := ReadLines(Lines(header.value), toolName, subject);
    return Decision(st);
  }

  /** The text between the first newline and the closing fence. */
  method CutHeader(content: Bytes) returns (r: Option<Bytes>)
    ensures r == match Header(content)
                 case None => None
                 case Some((start, end)) => Some(content[start..end])
  {
    var headerStart := Find(content, [NEWLINE], 0);
    if headerStart.None? {
      return None;
    }
    var fence := Text("\n---");
    var headerTail := content[headerStart.value + 1..];
    var headerEnd := Find(headerTail, fence, 0);
    FindInTail(content, fence, headerStart.value + 1, 0);
    hide Find;
    if headerEnd.None? {
      return None;
    }
    assert headerTail[..headerEnd.value]
        == content[headerStart.value + 1..headerStart.value + 1 + headerEnd.value];
    return Some(headerTail[..headerEnd.value]);
  }

  /** The loop over the lines. */
  method ReadLines(lines: seq<Bytes>, toolName: Bytes, subject: Bytes) returns (st: Scan)
    ensures st == ScanLines(Go, NO_LINES, lines, toolName, subject)
  {
    hide HasToken, PatternsMatch, LineValue, Text;
    st := NO_LINES;
    assert lines[0..] == lines;
    for n := 0 to |lines|
      invariant ScanLines(Go, st, lines[n..], toolName, subject) == ScanLines(Go, NO_LINES, lines, toolName, subject)
    {
      var line := lines[n];
      assert lines[n..][1..] == lines[n + 1..];
      if line == [] {
        continue;
      }
      if !IsSpace(line[0]) {
        if TriggersKey() <= line {
          st := st.(inTriggers := true, sawTriggers := true);
        } else if st.inTriggers {
          return;
        }
        continue;
      }
      if !st.inTriggers {
        continue;
      }
      st := ReadEntry(st, line, toolName, subject);
    }
  }

  method ReadEntry(st: Scan, line: Bytes, toolName: Bytes, subject: Bytes) returns (r: Scan)
    ensures r == TriggerText.Entry(Go, st, line, toolName, subject)
  {
    hide HasToken, PatternsMatch, LineValue, Text;
    var tool := LineValue(Go, line, ToolKey());
    if tool.Some? {
      var found := ContainsToken(tool.value, toolName);
      return st.(sawTool := true, toolMatch := st.toolMatch || found);
    }
    var arg := LineValue(Go, line, ArgKey());
    if arg.Some? {
      var found := QuotedPatternsMatch(arg.value, subject);
      return st.(sawPattern := true, patternMatch := st.patternMatch || found);
    }
    var path := LineValue(Go, line, PathKey());
    if path.Some? {
      var found := QuotedPatternsMatch(path.value, subject);
      return st.(sawPattern := true, patternMatch := st.patternMatch || found);
    }
    return st;
  }
}
