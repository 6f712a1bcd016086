/** What a triggers block asks for, apart from the scan that reads it: one of the
    tools its entries name, if any do, and one of their patterns, if there are any
    (server-go/modules/skills/skills.go:136-161,
    src/modules/skills/skill_trigger_policy.c:98-146). */
module TriggerEntries {
  import opened Bytes
  import opened Wrappers
  import opened Search
  import opened TriggerText

  /** The lines of the triggers block that are looked at for keys. */
  function Entries(open: bool, lines: seq<Bytes>): seq<Bytes>
    decreases |lines|
  {
    if lines == [] then []
    else if lines[0] == [] then Entries(open, lines[1..])
    else if IsSpace(lines[0][0]) then (if open then [lines[0]] else []) + Entries(open, lines[1..])
    else if TriggersKey() <= lines[0] then Entries(true, lines[1..])
    else if open then []
    else Entries(false, lines[1..])
  }

  /** Some line opens a block. */
  predicate OpensBlock(lines: seq<Bytes>) {
    exists i :: 0 <= i < |lines| && TriggersKey() <= lines[i]
  }

  function ToolValue(d: Dialect, line: Bytes): Option<Bytes> {
    LineValue(d, line, ToolKey())
  }

  /** The value of the first pattern key, on a line that has no tool key. */
  function PatternValue(d: Dialect, line: Bytes): Option<Bytes> {
    if LineValue(d, line, ToolKey()).Some? then None
    else if LineValue(d, line, ArgKey()).Some? then LineValue(d, line, ArgKey())
    else LineValue(d, line, PathKey())
  }

  ghost predicate NamesTools(d: Dialect, entries: seq<Bytes>) {
    exists i :: 0 <= i < |entries| && ToolValue(d, entries[i]).Some?
  }

  ghost predicate NamesTool(d: Dialect, entries: seq<Bytes>, tool: Bytes) {
    exists i :: 0 <= i < |entries| && ToolValue(d, entries[i]).Some? && HasToken(ToolValue(d, entries[i]).value, tool)
  }

  ghost predicate HasPatterns(d: Dialect, entries: seq<Bytes>) {
    exists i :: 0 <= i < |entries| && PatternValue(d, entries[i]).Some?
  }

  ghost predicate HasPattern(d: Dialect, entries: seq<Bytes>, subject: Bytes) {
    exists i ::
      && 0 <= i < |entries| && PatternValue(d, entries[i]).Some?
      && PatternsMatch(PatternValue(d, entries[i]).value, subject)
  }

  ghost predicate ToolAccepted(d: Dialect, entries: seq<Bytes>, tool: Bytes) {
    NamesTools(d, entries) ==> NamesTool(d, entries, tool)
  }

  ghost predicate SubjectAccepted(d: Dialect, entries: seq<Bytes>, subject: Bytes) {
    HasPatterns(d, entries) ==> HasPattern(d, entries, subject)
  }

  lemma OneEntryMore(d: Dialect, line: Bytes, rest: seq<Bytes>, tool: Bytes, subject: Bytes)
    ensures var all := [line] + rest;
            && (NamesTools(d, all) <==> ToolValue(d, line).Some? || NamesTools(d, rest))
            && (NamesTool(d, all, tool) <==>
                  (ToolValue(d, line).Some? && HasToken(ToolValue(d, line).value, tool)) || NamesTool(d, rest, tool))
            && (HasPatterns(d, all) <==> PatternValue(d, line).Some? || HasPatterns(d, rest))
            && (HasPattern(d, all, subject) <==>
                  (PatternValue(d, line).Some? && PatternsMatch(PatternValue(d, line).value, subject))
                  || HasPattern(d, rest, subject))
  {
    hide ToolValue, PatternValue, HasToken, PatternsMatch;
    var all := [line] + rest;
    assert all[0] == line;
    assert forall i :: 0 <= i < |rest| ==> all[i + 1] == rest[i];
    assert forall i :: 0 < i < |all| ==> all[i] == rest[i - 1];
  }

  lemma EntrySays(d: Dialect, st: Scan, line: Bytes, tool: Bytes, subject: Bytes)
    ensures var t := Entry(d, st, line, tool, subject);
            && t.inTriggers == st.inTriggers && t.sawTriggers == st.sawTriggers
            && t.sawTool == (st.sawTool || ToolValue(d, line).Some?)
            && t.toolMatch
               == (st.toolMatch || (ToolValue(d, line).Some? && HasToken(ToolValue(d, line).value, tool)))
            && t.sawPattern == (st.sawPattern || PatternValue(d, line).Some?)
            && t.patternMatch
               == (st.patternMatch
                   || (PatternValue(d, line).Some? && PatternsMatch(PatternValue(d, line).value, subject)))
  {
    hide LineValue, HasToken, PatternsMatch;
  }

  /** What a scan has seen at the end. */
  ghost predicate Sums(d: Dialect, st: Scan, t: Scan, entries: seq<Bytes>, tool: Bytes, subject: Bytes) {
    && t.sawTool == (st.sawTool || NamesTools(d, entries))
    && t.toolMatch == (st.toolMatch || NamesTool(d, entries, tool))
    && t.sawPattern == (st.sawPattern || HasPatterns(d, entries))
    && t.patternMatch == (st.patternMatch || HasPattern(d, entries, subject))
  }

  lemma SumsNothing(d: Dialect, st: Scan, tool: Bytes, subject: Bytes)
    ensures Sums(d, st, st, [], tool, subject)
  {
  }

  lemma SumsOneMore(d: Dialect, st: Scan, t: Scan, line: Bytes, rest: seq<Bytes>, tool: Bytes, subject: Bytes)
    requires Sums(d, Entry(d, st, line, tool, subject), t, rest, tool, subject)
    ensures Sums(d, st, t, [line] + rest, tool, subject)
  {
    hide Entry, NamesTools, NamesTool, HasPatterns, HasPattern, ToolValue, PatternValue;
    EntrySays(d, st, line, tool, subject);
    OneEntryMore(d, line, rest, tool, subject);
  }

  lemma {:induction false} ScanSums(d: Dialect, st: Scan, lines: seq<Bytes>, tool: Bytes, subject: Bytes)
    ensures Sums(d, st, ScanLines(d, st, lines, tool, subject), Entries(st.inTriggers, lines), tool, subject)
    decreases |lines|
  {
    hide Entry, Sums, TriggersKey;
    if lines == [] || Stops(st, lines[0]) {
      SumsNothing(d, st, tool, subject);
    } else {
      var line, next := lines[0], LineStep(d, st, lines[0], tool, subject);
      ScanSums(d, next, lines[1..], tool, subject);
      if line != [] && IsSpace(line[0]) && st.inTriggers {
        EntrySays(d, st, line, tool, subject);
        SumsOneMore(d, st, ScanLines(d, next, lines[1..], tool, subject), line, Entries(true, lines[1..]), tool,
                    subject);
      } else {
        assert [] + Entries(st.inTriggers, lines[1..]) == Entries(st.inTriggers, lines[1..]);
        SameSums(d, st, next, ScanLines(d, next, lines[1..], tool, subject), Entries(next.inTriggers, lines[1..]), tool,
                 subject);
      }
    }
  }

  lemma SameSums(d: Dialect, st: Scan, next: Scan, t: Scan, entries: seq<Bytes>, tool: Bytes, subject: Bytes)
    requires next == st.(inTriggers := next.inTriggers, sawTriggers := next.sawTriggers)
    requires Sums(d, next, t, entries, tool, subject)
    ensures Sums(d, st, t, entries, tool, subject)
  {
    hide NamesTools, NamesTool, HasPatterns, HasPattern;
  }

  lemma {:induction false} ScanOpens(d: Dialect, st: Scan, lines: seq<Bytes>, tool: Bytes, subject: Bytes)
    requires st.inTriggers ==> st.sawTriggers
    ensures ScanLines(d, st, lines, tool, subject).sawTriggers <==> st.sawTriggers || OpensBlock(lines)
    decreases |lines|
  {
    KeyIsUnindented();
    hide Entry, TriggersKey;
    if lines != [] {
      var line, next := lines[0], LineStep(d, st, lines[0], tool, subject);
      assert OpensBlock(lines) <==> TriggersKey() <= line || OpensBlock(lines[1..]) by {
        assert forall i :: 0 < i < |lines| ==> lines[i] == lines[1..][i - 1];
        assert forall i :: 0 <= i < |lines| - 1 ==> lines[1..][i] == lines[i + 1];
      }
      if TriggersKey() <= line {
        assert line[0] == TriggersKey()[0];
      }
      if !Stops(st, line) {
        EntrySays(d, st, line, tool, subject);
        ScanOpens(d, next, lines[1..], tool, subject);
      }
    }
  }

  lemma KeyIsUnindented()
    ensures |TriggersKey()| == 9 && !IsSpace(TriggersKey()[0])
  {
  }

  /** There is a front matter with a triggers block. */
  ghost predicate HasBlock(content: Bytes) {
    && Opens(content)
    && match Header(content)
       case None => false
       case Some((start, end)) => OpensBlock(Lines(content[start..end]))
  }

  function EntriesOf(content: Bytes): seq<Bytes> {
    match Header(content)
    case None => []
    case Some((start, end)) => Entries(false, Lines(content[start..end]))
  }

  /** The decision, without the scan: a content matches exactly if it has a block whose
      entries accept the tool and the subject, each for itself. */
  lemma MatchesMeans(d: Dialect, content: Bytes, tool: Bytes, subject: Bytes)
    ensures Matches(d, content, tool, subject) <==>
              && tool != [] && HasBlock(content)
              && ToolAccepted(d, EntriesOf(content), tool) && SubjectAccepted(d, EntriesOf(content), subject)
  {
    hide Header, Opens, Lines, ScanLines, Entries, NamesTools, NamesTool, HasPatterns, HasPattern, OpensBlock;
    if Header(content).Some? {
      var (start, end) := Header(content).value;
      ScanSums(d, NO_LINES, Lines(content[start..end]), tool, subject);
      ScanOpens(d, NO_LINES, Lines(content[start..end]), tool, subject);
    }
  }
}
