/** When the Go and the C trigger matcher decide alike, exactly, as a condition on what
    the entries of the triggers block spell: the tools they name and the patterns they
    give (docs/modules/skills.md:18-20). */
module TriggerAgreement {
  import opened Bytes
  import opened Wrappers
  import opened Search
  import opened TriggerText
  import opened TriggerMargins
  import opened TriggerEntries
  import TriggerAlike

  // ------------------------------------------------------- what entries hold

  /** A line as `Lines` cuts them out of a C string. */
  predicate TextLine(line: Bytes) {
    NEWLINE !in line && 0 !in line
  }

  ghost predicate AllText(lines: seq<Bytes>) {
    forall i :: 0 <= i < |lines| ==> TextLine(lines[i])
  }

  lemma {:induction false} LinesAreText(s: Bytes)
    requires 0 !in s
    ensures AllText(Lines(s))
    decreases |s|
  {
    FindByte(s, NEWLINE, 0);
    hide Find;
    match Find(s, [NEWLINE], 0)
    case None =>
    case Some(i) =>
      LinesAreText(s[i + 1..]);
  }

  lemma {:induction false} EntriesAreText(open: bool, lines: seq<Bytes>)
    requires AllText(lines)
    ensures AllText(Entries(open, lines))
    decreases |lines|
  {
    hide TriggersKey, TextLine;
    if lines != [] {
      assert AllText(lines[1..]);
      EntriesAreText(open, lines[1..]);
      EntriesAreText(true, lines[1..]);
    }
  }

  lemma EntriesOfText(content: Str)
    ensures AllText(EntriesOf(content))
  {
    hide Lines, Header, Entries;
    if Header(content).Some? {
      var (start, end) := Header(content).value;
      LinesAreText(content[start..end]);
      EntriesAreText(false, Lines(content[start..end]));
    }
  }

  /** Every byte of `t` stands in `s`. */
  ghost predicate BytesOf(t: Bytes, s: Bytes) {
    forall i :: 0 <= i < |t| ==> t[i] in s
  }

  lemma TextWithin(t: Bytes, s: Bytes)
    requires BytesOf(t, s) && TextLine(s)
    ensures TextLine(t)
  {
  }

  lemma TrimmedWithin(d: Dialect, s: Bytes)
    ensures BytesOf(Trim(d, s), s)
  {
    hide TrimLeft, TrimRight, TrimUnicodeLeft, TrimUnicodeRight;
    TrimLeftIs(s);
    TrimRightIs(TrimLeft(s));
    UnicodeLeftIs(s);
    UnicodeRightIs(TrimUnicodeLeft(s));
  }

  lemma ValueWithin(d: Dialect, line: Bytes, key: Bytes)
    ensures LineValue(d, line, key).Some? ==> BytesOf(LineValue(d, line, key).value, line)
  {
    var s := if d.Go? then Trim(Go, line) else TrimLeft(line);
    assert BytesOf(s, line) by {
      TrimmedWithin(Go, line);
      TrimLeftIs(line);
      hide TrimLeft, Trim;
    }
    hide Trim, TrimLeft;
    if key + [COLON] <= s {
      TrimmedWithin(d, s[|key| + 1..]);
    }
  }

  lemma {:induction false} QuotedWithin(value: Bytes, from: nat)
    requires from <= |value|
    ensures forall i :: 0 <= i < |Quoted(value, from)| ==> BytesOf(Quoted(value, from)[i], value)
    decreases |value| - from
  {
    hide QuoteAt, CloseAt;
    var open := QuoteAt(value, from);
    if open < |value| {
      var close := CloseAt(value, open + 1, value[open]);
      var piece, rest := value[open + 1..close], QuotedAfter(value, close);
      assert Quoted(value, from) == [piece] + rest;
      assert BytesOf(piece, value);
      if close < |value| {
        QuotedWithin(value, close + 1);
        assert rest == Quoted(value, close + 1);
      }
      hide BytesOf;
      forall i | 0 <= i < |rest| ensures BytesOf(rest[i], value) {
      }
    }
  }

  // ----------------------------------------------------- patterns and tokens

  /** `p` is what is looked for of some quoted pattern of the entries. */
  ghost predicate IsPattern(d: Dialect, entries: seq<Bytes>, p: Bytes) {
    exists i, j ::
      && 0 <= i < |entries| && PatternValue(d, entries[i]).Some?
      && 0 <= j < |Quoted(PatternValue(d, entries[i]).value, 0)|
      && Quoted(PatternValue(d, entries[i]).value, 0)[j] != []
      && p == Capped(Quoted(PatternValue(d, entries[i]).value, 0)[j])
  }

  /** `t` is a token of a pattern entry that quotes nothing. */
  ghost predicate IsBare(d: Dialect, entries: seq<Bytes>, t: Bytes) {
    exists i ::
      && 0 <= i < |entries| && PatternValue(d, entries[i]).Some?
      && !Given(Quoted(PatternValue(d, entries[i]).value, 0)) && HasToken(PatternValue(d, entries[i]).value, t)
  }

  /** Some pattern of the entries stands in `s`. */
  ghost predicate Contains(d: Dialect, entries: seq<Bytes>, s: Bytes) {
    exists p :: IsPattern(d, entries, p) && Occurs(s, p)
  }

  /** A subject that is accepted contains a pattern or is a bare token. */
  lemma HasPatternMeans(d: Dialect, entries: seq<Bytes>, subject: Bytes)
    ensures HasPattern(d, entries, subject) <==> Contains(d, entries, subject) || IsBare(d, entries, subject)
  {
    hide PatternValue, Quoted, HasToken, Occurs, Capped;
    if HasPattern(d, entries, subject) {
      var i :| 0 <= i < |entries| && PatternValue(d, entries[i]).Some?
               && PatternsMatch(PatternValue(d, entries[i]).value, subject);
      var quoted := Quoted(PatternValue(d, entries[i]).value, 0);
      if Given(quoted) {
        var j :| 0 <= j < |quoted| && quoted[j] != [] && Occurs(subject, Capped(quoted[j]));
        assert IsPattern(d, entries, Capped(quoted[j]));
      }
    }
    if Contains(d, entries, subject) {
      var p :| IsPattern(d, entries, p) && Occurs(subject, p);
      PatternHits(d, entries, p, subject);
    }
  }

  lemma PatternHits(d: Dialect, entries: seq<Bytes>, p: Bytes, subject: Bytes)
    requires IsPattern(d, entries, p) && Occurs(subject, p)
    ensures HasPattern(d, entries, subject)
  {
    hide PatternValue, Quoted, HasToken, Occurs, Capped;
    var i, j :|
      && 0 <= i < |entries| && PatternValue(d, entries[i]).Some?
      && 0 <= j < |Quoted(PatternValue(d, entries[i]).value, 0)|
      && Quoted(PatternValue(d, entries[i]).value, 0)[j] != []
      && p == Capped(Quoted(PatternValue(d, entries[i]).value, 0)[j]);
    var quoted := Quoted(PatternValue(d, entries[i]).value, 0);
    assert Given(quoted) && Hits(quoted, subject);
  }

  /** Everything `d` looks for, `e` finds as well: each of its patterns contains one of
      `e`'s, and each of its bare tokens does or is one of `e`'s. */
  ghost predicate Within(d: Dialect, e: Dialect, entries: seq<Bytes>) {
    && (forall p | IsPattern(d, entries, p) :: Contains(e, entries, p))
    && (forall t | IsBare(d, entries, t) :: Contains(e, entries, t) || IsBare(e, entries, t))
  }

  // ---------------------------------------------------------------- subjects

  /** Entries that accept the same subjects. */
  ghost predicate SameSubjects(entries: seq<Bytes>) {
    forall subject: Str :: SubjectAccepted(Go, entries, subject) == SubjectAccepted(C, entries, subject)
  }

  lemma {:induction false} PatternIsText(d: Dialect, entries: seq<Bytes>, p: Bytes)
    requires AllText(entries) && IsPattern(d, entries, p)
    ensures TextLine(p)
  {
    hide LineValue, Quoted, TextLine;
    var i, j :|
      && 0 <= i < |entries| && PatternValue(d, entries[i]).Some?
      && 0 <= j < |Quoted(PatternValue(d, entries[i]).value, 0)|
      && Quoted(PatternValue(d, entries[i]).value, 0)[j] != []
      && p == Capped(Quoted(PatternValue(d, entries[i]).value, 0)[j]);
    var value := PatternValue(d, entries[i]).value;
    ValueWithin(d, entries[i], ArgKey());
    ValueWithin(d, entries[i], PathKey());
    TextWithin(value, entries[i]);
    QuotedWithin(value, 0);
    assert BytesOf(p, value);
    TextWithin(p, value);
  }

  lemma TokenIsText(value: Bytes, t: Bytes)
    requires HasToken(value, t)
    ensures t != [] && TextLine(t) && forall i :: 0 <= i < |t| ==> IsToken(t[i])
  {
    var i: nat, j: nat :| TokenRun(value, i, j) && value[i..j] == t;
    assert forall k :: 0 <= k < |t| ==> t[k] == value[i + k];
  }

  /** A text without a newline that stands in `p` and a newline stands in `p`. */
  lemma OccursBefore(p: Bytes, q: Bytes)
    requires Occurs(p + [NEWLINE], q) && TextLine(q) && q != []
    ensures Occurs(p, q)
  {
    var s := p + [NEWLINE];
    var i: nat :| MatchAt(s, q, i);
    assert s[i..i + |q|][|q| - 1] == s[i + |q| - 1] && s[|p|] == NEWLINE;
    assert i + |q| <= |p|;
    assert p[i..i + |q|] == s[i..i + |q|];
    assert MatchAt(p, q, i);
  }

  lemma PatternStays(d: Dialect, entries: seq<Bytes>, p: Bytes)
    requires AllText(entries) && (Contains(d, entries, p + [NEWLINE]) || IsBare(d, entries, p + [NEWLINE]))
    ensures Contains(d, entries, p)
  {
    hide IsPattern, HasToken, Occurs, PatternValue;
    if Contains(d, entries, p + [NEWLINE]) {
      var q :| IsPattern(d, entries, q) && Occurs(p + [NEWLINE], q);
      PatternIsText(d, entries, q);
      PatternIsThere(d, entries, q);
      OccursBefore(p, q);
    } else {
      var i :| 0 <= i < |entries| && PatternValue(d, entries[i]).Some?
               && !Given(Quoted(PatternValue(d, entries[i]).value, 0))
               && HasToken(PatternValue(d, entries[i]).value, p + [NEWLINE]);
      NewlineIsNoToken(PatternValue(d, entries[i]).value, p);
    }
  }

  lemma NewlineIsNoToken(value: Bytes, p: Bytes)
    ensures !HasToken(value, p + [NEWLINE])
  {
    assert (p + [NEWLINE])[|p|] == NEWLINE;
    if HasToken(value, p + [NEWLINE]) {
      TokenIsText(value, p + [NEWLINE]);
    }
  }

  lemma PatternIsThere(d: Dialect, entries: seq<Bytes>, p: Bytes)
    requires IsPattern(d, entries, p)
    ensures p != [] && HasPatterns(d, entries)
  {
    hide PatternValue, Quoted;
  }

  lemma BareIsThere(d: Dialect, entries: seq<Bytes>, t: Bytes)
    requires IsBare(d, entries, t)
    ensures t != [] && TextLine(t) && HasPatterns(d, entries)
  {
    hide PatternValue, Quoted, HasToken, TextLine;
    var i :| 0 <= i < |entries| && PatternValue(d, entries[i]).Some?
             && !Given(Quoted(PatternValue(d, entries[i]).value, 0))
             && HasToken(PatternValue(d, entries[i]).value, t);
    TokenIsText(PatternValue(d, entries[i]).value, t);
  }

  /** The empty subject is accepted only by entries without patterns. */
  lemma NoPatternInNothing(d: Dialect, entries: seq<Bytes>)
    ensures !HasPattern(d, entries, [])
  {
    hide PatternValue, PatternsMatch;
    forall value ensures !PatternsMatch(value, []) {
      TriggerAlike.NoEmptySubject(value);
    }
  }

  lemma PatternGoesOn(p: Bytes)
    ensures Occurs(p + [NEWLINE], p) && Occurs(p, p)
  {
    var s := p + [NEWLINE];
    assert s[0..|p|] == p && p[0..|p|] == p;
    assert MatchAt(s, p, 0) && MatchAt(p, p, 0);
  }

  lemma PatternIsContained(d: Dialect, entries: seq<Bytes>, p: Bytes, s: Bytes)
    requires IsPattern(d, entries, p) && Occurs(s, p)
    ensures Contains(d, entries, s)
  {
    hide IsPattern, Occurs;
  }

  lemma AcceptedMeans(d: Dialect, entries: seq<Bytes>, subject: Bytes)
    ensures SubjectAccepted(d, entries, subject)
            <==> (HasPatterns(d, entries) ==> Contains(d, entries, subject) || IsBare(d, entries, subject))
  {
    hide HasPattern, HasPatterns, Contains, IsBare;
    HasPatternMeans(d, entries, subject);
  }

  /** If the same subjects are accepted, everything `d` looks for is within `e`: a
      pattern and a newline are no token, and no other pattern reaches into the
      newline. */
  lemma SameIsWithin(d: Dialect, e: Dialect, entries: seq<Bytes>)
    requires AllText(entries) && HasPatterns(e, entries)
    requires forall subject: Str :: SubjectAccepted(d, entries, subject) == SubjectAccepted(e, entries, subject)
    ensures Within(d, e, entries)
  {
    hide Contains, IsBare, IsPattern, SubjectAccepted, AllText, HasPatterns, Occurs;
    forall p | IsPattern(d, entries, p) ensures Contains(e, entries, p) {
      PatternIsText(d, entries, p);
      PatternGoesOn(p);
      var s: Str := p + [NEWLINE];
      PatternIsContained(d, entries, p, s);
      AcceptedMeans(d, entries, s);
      AcceptedMeans(e, entries, s);
      PatternStays(e, entries, p);
    }
    forall t | IsBare(d, entries, t) ensures Contains(e, entries, t) || IsBare(e, entries, t) {
      BareIsThere(d, entries, t);
      var s: Str := t;
      AcceptedMeans(d, entries, s);
      AcceptedMeans(e, entries, s);
    }
  }

  /** What `d` accepts, `e` accepts, if everything `d` looks for is within `e`. */
  lemma WithinIsAccepted(d: Dialect, e: Dialect, entries: seq<Bytes>, subject: Bytes)
    requires Within(d, e, entries) && (HasPatterns(d, entries) <==> HasPatterns(e, entries))
    requires SubjectAccepted(d, entries, subject)
    ensures SubjectAccepted(e, entries, subject)
  {
    hide IsBare, IsPattern, SubjectAccepted, HasPatterns, Occurs;
    AcceptedMeans(d, entries, subject);
    AcceptedMeans(e, entries, subject);
    if Contains(d, entries, subject) {
      var p :| IsPattern(d, entries, p) && Occurs(subject, p);
      var q :| IsPattern(e, entries, q) && Occurs(p, q);
      TriggerAlike.OccursIn(subject, p, q);
      PatternIsContained(e, entries, q, subject);
    }
  }

  /** The same subjects are accepted exactly if both have patterns or neither has, and
      everything either looks for is within the other. */
  lemma SameSubjectsExactly(entries: seq<Bytes>)
    requires AllText(entries)
    ensures SameSubjects(entries) <==>
              && (HasPatterns(Go, entries) <==> HasPatterns(C, entries))
              && Within(Go, C, entries) && Within(C, Go, entries)
  {
    hide Within, SubjectAccepted, AllText, HasPatterns;
    if SameSubjects(entries) {
      var nothing: Str := [];
      assert SubjectAccepted(Go, entries, nothing) == SubjectAccepted(C, entries, nothing);
      NothingAccepted(Go, entries);
      NothingAccepted(C, entries);
      if HasPatterns(Go, entries) {
        SameIsWithin(Go, C, entries);
        SameIsWithin(C, Go, entries);
      } else {
        WithinNothing(Go, C, entries);
        WithinNothing(C, Go, entries);
      }
    } else {
      var subject: Str :| SubjectAccepted(Go, entries, subject) != SubjectAccepted(C, entries, subject);
      if (HasPatterns(Go, entries) <==> HasPatterns(C, entries)) && Within(Go, C, entries) && Within(C, Go, entries) {
        if SubjectAccepted(Go, entries, subject) {
          WithinIsAccepted(Go, C, entries, subject);
        } else {
          WithinIsAccepted(C, Go, entries, subject);
        }
      }
    }
  }

  lemma NothingAccepted(d: Dialect, entries: seq<Bytes>)
    ensures SubjectAccepted(d, entries, []) <==> !HasPatterns(d, entries)
  {
    hide HasPattern, HasPatterns;
    NoPatternInNothing(d, entries);
  }

  lemma WithinNothing(d: Dialect, e: Dialect, entries: seq<Bytes>)
    requires !HasPatterns(d, entries)
    ensures Within(d, e, entries)
  {
    hide Contains, HasPatterns, IsPattern, IsBare;
    forall p ensures !IsPattern(d, entries, p) && !IsBare(d, entries, p) {
      if IsPattern(d, entries, p) {
        PatternIsThere(d, entries, p);
      } else if IsBare(d, entries, p) {
        BareIsThere(d, entries, p);
      }
    }
  }

  // ------------------------------------------------------------------- tools

  /** Entries that accept the same tools. */
  ghost predicate SameTools(entries: seq<Bytes>) {
    forall tool: Str | tool != [] :: ToolAccepted(Go, entries, tool) == ToolAccepted(C, entries, tool)
  }

  /** Entries that name the same tools, or under both rules none at all. */
  ghost predicate SameNames(entries: seq<Bytes>) {
    && (NamesTools(Go, entries) <==> NamesTools(C, entries))
    && forall tool :: NamesTool(Go, entries, tool) <==> NamesTool(C, entries, tool)
  }

  /** The same tools are accepted exactly if the same are named, and under one rule
      none at all only if under the other. */
  lemma SameToolsExactly(entries: seq<Bytes>)
    ensures SameTools(entries) <==> SameNames(entries)
  {
    hide NamesTools, NamesTool;
    var tool: Str := seq(Total(entries) + 1, i => 97);
    TooLong(Go, entries, tool);
    TooLong(C, entries, tool);
    if SameTools(entries) {
      assert ToolAccepted(Go, entries, tool) == ToolAccepted(C, entries, tool);
      forall t ensures NamesTool(Go, entries, t) <==> NamesTool(C, entries, t) {
        if NamesTool(Go, entries, t) || NamesTool(C, entries, t) {
          NamedIsNaming(Go, entries, t);
          NamedIsNaming(C, entries, t);
          var name: Str := t;
          assert ToolAccepted(Go, entries, name) == ToolAccepted(C, entries, name);
        }
      }
    }
  }

  lemma NamedIsNaming(d: Dialect, entries: seq<Bytes>, tool: Bytes)
    ensures NamesTool(d, entries, tool) ==> NamesTools(d, entries) && tool != [] && TextLine(tool)
  {
    hide ToolValue, HasToken, TextLine;
    if NamesTool(d, entries, tool) {
      var i :| 0 <= i < |entries| && ToolValue(d, entries[i]).Some? && HasToken(ToolValue(d, entries[i]).value, tool);
      TokenIsText(ToolValue(d, entries[i]).value, tool);
    }
  }

  function Total(lines: seq<Bytes>): nat {
    if lines == [] then 0 else |lines[0]| + Total(lines[1..])
  }

  lemma {:induction false} TooLong(d: Dialect, entries: seq<Bytes>, tool: Bytes)
    requires |tool| > Total(entries)
    ensures !NamesTool(d, entries, tool)
    decreases |entries|
  {
    if entries != [] {
      TooLong(d, entries[1..], tool);
      assert entries == [entries[0]] + entries[1..];
      OneEntryMore(d, entries[0], entries[1..], tool, []);
      NoLongToken(d, entries[0], tool);
    }
    hide NamesTool;
  }

  lemma NoLongToken(d: Dialect, line: Bytes, tool: Bytes)
    requires |tool| > |line|
    ensures ToolValue(d, line).Some? ==> !HasToken(ToolValue(d, line).value, tool)
  {
    hide TrimLeft, TrimRight, TrimUnicodeLeft, TrimUnicodeRight;
    if ToolValue(d, line).Some? {
      var value := ToolValue(d, line).value;
      assert |value| <= |line|;
      forall i: nat, j: nat | TokenRun(value, i, j) ensures value[i..j] != tool {
      }
    }
  }

  // ------------------------------------------------------ nothing can match

  /** Entries under which nothing can match. */
  ghost predicate Rejects(d: Dialect, entries: seq<Bytes>) {
    || (forall tool: Str | tool != [] :: !ToolAccepted(d, entries, tool))
    || (forall subject: Str :: !SubjectAccepted(d, entries, subject))
  }

  /** Tool entries without a token byte in any of them, or pattern entries without a
      nonempty quoted pattern or a token byte in any of them. */
  ghost predicate Barren(d: Dialect, entries: seq<Bytes>) {
    || (NamesTools(d, entries)
        && forall i :: 0 <= i < |entries| && ToolValue(d, entries[i]).Some? ==> NoToken(ToolValue(d, entries[i]).value))
    || (HasPatterns(d, entries)
        && forall i :: 0 <= i < |entries| && PatternValue(d, entries[i]).Some? ==>
             !Given(Quoted(PatternValue(d, entries[i]).value, 0)) && NoToken(PatternValue(d, entries[i]).value))
  }

  predicate NoToken(value: Bytes) {
    forall k :: 0 <= k < |value| ==> !IsToken(value[k])
  }

  /** A token byte is part of some token. */
  lemma TokenAround(value: Bytes, k: nat) returns (t: Bytes)
    requires k < |value| && IsToken(value[k])
    ensures HasToken(value, t)
  {
    var i, j := k, k + 1;
    while i > 0 && IsToken(value[i - 1])
      invariant 0 <= i <= k && forall n :: i <= n <= k ==> IsToken(value[n])
    {
      i := i - 1;
    }
    while j < |value| && IsToken(value[j])
      invariant k < j <= |value| && forall n :: i <= n < j ==> IsToken(value[n])
    {
      j := j + 1;
    }
    t := value[i..j];
    assert TokenRun(value, i, j);
  }

  lemma TokenIsThere(value: Bytes, t: Bytes)
    requires HasToken(value, t)
    ensures !NoToken(value)
  {
    var i: nat, j: nat :| TokenRun(value, i, j) && value[i..j] == t;
    assert IsToken(value[i]);
  }

  lemma NoTokenMeans(value: Bytes)
    ensures NoToken(value) <==> forall t :: !HasToken(value, t)
  {
    if NoToken(value) {
      forall t ensures !HasToken(value, t) {
        if HasToken(value, t) {
          TokenIsThere(value, t);
        }
      }
    } else {
      var k :| 0 <= k < |value| && IsToken(value[k]);
      var t := TokenAround(value, k);
      assert HasToken(value, t);
    }
    hide HasToken;
  }

  lemma NoToolNamed(d: Dialect, entries: seq<Bytes>)
    ensures (forall tool: Str | tool != [] :: !ToolAccepted(d, entries, tool))
            <==> NamesTools(d, entries)
                 && forall i :: 0 <= i < |entries| && ToolValue(d, entries[i]).Some? ==>
                      NoToken(ToolValue(d, entries[i]).value)
  {
    hide ToolValue, HasToken, NoToken;
    var any: Str := [97];
    assert !ToolAccepted(d, entries, any) ==> NamesTools(d, entries);
    forall i | 0 <= i < |entries| && ToolValue(d, entries[i]).Some? {
      NoTokenMeans(ToolValue(d, entries[i]).value);
    }
    if forall tool: Str | tool != [] :: !ToolAccepted(d, entries, tool) {
      forall i | 0 <= i < |entries| && ToolValue(d, entries[i]).Some?
        ensures NoToken(ToolValue(d, entries[i]).value)
      {
        var value := ToolValue(d, entries[i]).value;
        NoTokenMeans(value);
        forall t ensures !HasToken(value, t) {
          if HasToken(value, t) {
            ToolIsAccepted(d, entries, i, t);
          }
        }
      }
    }
  }

  lemma ToolIsAccepted(d: Dialect, entries: seq<Bytes>, i: nat, t: Bytes)
    requires i < |entries| && ToolValue(d, entries[i]).Some? && HasToken(ToolValue(d, entries[i]).value, t)
    ensures t != [] && 0 !in t && ToolAccepted(d, entries, t)
  {
    hide ToolValue, HasToken;
    TokenIsText(ToolValue(d, entries[i]).value, t);
  }

  lemma NoSubjectFound(d: Dialect, entries: seq<Bytes>)
    requires AllText(entries)
    ensures (forall subject: Str :: !SubjectAccepted(d, entries, subject))
            <==> HasPatterns(d, entries)
                 && forall i :: 0 <= i < |entries| && PatternValue(d, entries[i]).Some? ==>
                      !Given(Quoted(PatternValue(d, entries[i]).value, 0)) && NoToken(PatternValue(d, entries[i]).value)
  {
    hide PatternValue, HasToken, NoToken, Quoted, Given, AllText, Hits;
    var nothing: Str := [];
    assert !SubjectAccepted(d, entries, nothing) ==> HasPatterns(d, entries);
    forall i | 0 <= i < |entries| && PatternValue(d, entries[i]).Some? {
      NoTokenMeans(PatternValue(d, entries[i]).value);
    }
    if forall subject: Str :: !SubjectAccepted(d, entries, subject) {
      forall i | 0 <= i < |entries| && PatternValue(d, entries[i]).Some?
        ensures !Given(Quoted(PatternValue(d, entries[i]).value, 0)) && NoToken(PatternValue(d, entries[i]).value)
      {
        NotFoundThere(d, entries, i);
      }
    }
  }

  lemma NotFoundThere(d: Dialect, entries: seq<Bytes>, i: nat)
    requires AllText(entries) && i < |entries| && PatternValue(d, entries[i]).Some?
    requires forall subject: Str :: !SubjectAccepted(d, entries, subject)
    ensures !Given(Quoted(PatternValue(d, entries[i]).value, 0)) && NoToken(PatternValue(d, entries[i]).value)
  {
    hide PatternValue, HasToken, NoToken, Quoted, AllText, TextLine, HasPattern, Occurs;
    var value := PatternValue(d, entries[i]).value;
    var quoted := Quoted(value, 0);
    if Given(quoted) {
      var j :| 0 <= j < |quoted| && quoted[j] != [];
      PatternIsAccepted(d, entries, i, j);
    } else {
      NoTokenMeans(value);
      forall t ensures !HasToken(value, t) {
        if HasToken(value, t) {
          BareIsAccepted(d, entries, i, t);
        }
      }
    }
  }

  lemma PatternIsAccepted(d: Dialect, entries: seq<Bytes>, i: nat, j: nat)
    requires AllText(entries) && i < |entries| && PatternValue(d, entries[i]).Some?
    requires j < |Quoted(PatternValue(d, entries[i]).value, 0)|
    requires Quoted(PatternValue(d, entries[i]).value, 0)[j] != []
    ensures var p := Capped(Quoted(PatternValue(d, entries[i]).value, 0)[j]);
            0 !in p && SubjectAccepted(d, entries, p)
  {
    hide PatternValue, Quoted, AllText, HasPattern, Occurs;
    var p := Capped(Quoted(PatternValue(d, entries[i]).value, 0)[j]);
    assert IsPattern(d, entries, p);
    hide IsPattern;
    PatternIsText(d, entries, p);
    PatternGoesOn(p);
    PatternHits(d, entries, p, p);
  }

  lemma BareIsAccepted(d: Dialect, entries: seq<Bytes>, i: nat, t: Bytes)
    requires i < |entries| && PatternValue(d, entries[i]).Some?
    requires !Given(Quoted(PatternValue(d, entries[i]).value, 0)) && HasToken(PatternValue(d, entries[i]).value, t)
    ensures 0 !in t && SubjectAccepted(d, entries, t)
  {
    hide PatternValue, Quoted, HasToken, HasPattern;
    TokenIsText(PatternValue(d, entries[i]).value, t);
    assert IsBare(d, entries, t);
    HasPatternMeans(d, entries, t);
  }

  lemma RejectsExactly(d: Dialect, entries: seq<Bytes>)
    requires AllText(entries)
    ensures Rejects(d, entries) <==> Barren(d, entries)
  {
    hide AllText, ToolAccepted, SubjectAccepted, NamesTools, HasPatterns, NoToken, Given, Quoted, ToolValue,
         PatternValue;
    NoToolNamed(d, entries);
    NoSubjectFound(d, entries);
  }

  // ---------------------------------------------------------------- decisions

  /** When the two decide the same on a content, whatever tool and subject they are
      asked about, exactly: it has no triggers block; or its entries name the same
      tools under both rules and everything either looks for is within the other; or
      under both the tools or the patterns spell nothing that could match. Everything
      here is read off the entries. */
  lemma DecidedAlikeExactly(content: Str)
    ensures (forall tool: Str, subject: Str | tool != [] ::
               Matches(Go, content, tool, subject) == Matches(C, content, tool, subject))
            <==>
              var entries := EntriesOf(content);
              || !HasBlock(content)
              || (SameNames(entries) && (HasPatterns(Go, entries) <==> HasPatterns(C, entries))
                  && Within(Go, C, entries) && Within(C, Go, entries))
              || (Barren(Go, entries) && Barren(C, entries))
  {
    hide Matches, HasBlock, EntriesOf, SameTools, SameSubjects, Rejects, Barren, Within, HasPatterns, SameNames,
         AllText;
    var entries := EntriesOf(content);
    EntriesOfText(content);
    AlikeAcceptance(content);
    SameToolsExactly(entries);
    SameSubjectsExactly(entries);
    RejectsExactly(Go, entries);
    RejectsExactly(C, entries);
  }

  /** The same, with acceptance taken as a whole. */
  lemma AlikeAcceptance(content: Str)
    ensures (forall tool: Str, subject: Str | tool != [] ::
               Matches(Go, content, tool, subject) == Matches(C, content, tool, subject))
            <==>
              var entries := EntriesOf(content);
              || !HasBlock(content) || (SameTools(entries) && SameSubjects(entries))
              || (Rejects(Go, entries) && Rejects(C, entries))
  {
    hide Matches, HasBlock, EntriesOf, ToolAccepted, SubjectAccepted;
    var entries := EntriesOf(content);
    forall d, tool, subject
      ensures Matches(d, content, tool, subject) <==> Accepts(d, content, tool, subject)
    {
      MatchesMeans(d, content, tool, subject);
    }
    if HasBlock(content)
       && forall tool: Str, subject: Str | tool != [] ::
            Matches(Go, content, tool, subject) == Matches(C, content, tool, subject) {
      if !Rejects(Go, entries) {
        SameFrom(Go, C, content);
      } else if !Rejects(C, entries) {
        SameFrom(C, Go, content);
      }
    }
  }

  ghost predicate Accepts(d: Dialect, content: Bytes, tool: Bytes, subject: Bytes) {
    && tool != [] && HasBlock(content)
    && ToolAccepted(d, EntriesOf(content), tool) && SubjectAccepted(d, EntriesOf(content), subject)
  }

  /** With one pair accepted by both, the tools and the subjects can be told apart. */
  lemma SameFrom(d: Dialect, e: Dialect, content: Str)
    requires d != e && HasBlock(content) && !Rejects(d, EntriesOf(content))
    requires forall d, tool, subject :: Matches(d, content, tool, subject) <==> Accepts(d, content, tool, subject)
    requires forall tool: Str, subject: Str | tool != [] ::
               Matches(Go, content, tool, subject) == Matches(C, content, tool, subject)
    ensures SameTools(EntriesOf(content)) && SameSubjects(EntriesOf(content))
  {
    hide Matches, HasBlock, ToolAccepted, SubjectAccepted, EntriesOf;
    var entries := EntriesOf(content);
    var tool: Str :| tool != [] && ToolAccepted(d, entries, tool);
    var subject: Str :| SubjectAccepted(d, entries, subject);
    assert Matches(d, content, tool, subject) && Matches(e, content, tool, subject);
    forall t: Str | t != [] ensures ToolAccepted(Go, entries, t) == ToolAccepted(C, entries, t) {
      assert Matches(Go, content, t, subject) == Matches(C, content, t, subject);
    }
    forall u: Str ensures SubjectAccepted(Go, entries, u) == SubjectAccepted(C, entries, u) {
      assert Matches(Go, content, tool, u) == Matches(C, content, tool, u);
    }
  }
}
