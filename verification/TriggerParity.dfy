/** When the Go and the C trigger matcher decide alike (docs/modules/skills.md:18-20):
    on every content each of whose entry lines is read alike, in particular if no
    white space character outside ASCII stands between the fences; and for a block of
    one entry exactly then. */
module TriggerParity {
  import opened Bytes
  import opened Wrappers
  import opened Search
  import opened TriggerText
  import opened TriggerMargins
  import opened TriggerAlike
  import opened TriggerEntries
  import TriggerGo
  import TriggerC

  // ------------------------------------------------------------- plain text

  /** No white space character outside ASCII begins anywhere. */
  ghost predicate Plain(s: Bytes) {
    forall i: nat :: i <= |s| ==> WideSpaceHere(s[i..]) == 0
  }

  lemma AsciiIsPlain(s: Bytes)
    requires forall i :: 0 <= i < |s| ==> s[i] < 0x80
    ensures Plain(s)
  {
  }

  lemma PlainTail(s: Bytes, a: nat)
    requires Plain(s) && a <= |s|
    ensures Plain(s[a..])
  {
    forall i: nat | i <= |s| - a ensures WideSpaceHere(s[a..][i..]) == 0 {
      assert s[a..][i..] == s[a + i..];
    }
  }

  lemma PlainHead(s: Bytes, b: nat)
    requires Plain(s) && b <= |s|
    ensures Plain(s[..b])
  {
    forall i: nat | i <= b ensures WideSpaceHere(s[..b][i..]) == 0 {
      assert s[i..][..b - i] == s[..b][i..];
      WidePrefix(s[i..], b - i);
    }
  }

  lemma WidePrefix(s: Bytes, n: nat)
    requires n <= |s| && WideSpaceHere(s) == 0
    ensures WideSpaceHere(s[..n]) == 0
  {
  }

  lemma PlainSlice(s: Bytes, a: nat, b: nat)
    requires Plain(s) && a <= b <= |s|
    ensures Plain(s[a..b])
  {
    hide Plain;
    PlainTail(s, a);
    PlainHead(s[a..], b - a);
    assert s[a..][..b - a] == s[a..b];
  }

  lemma NoWideHere(s: Bytes)
    requires Plain(s)
    ensures WideSpaceHere(s) == 0 && WideSpaceLast(s) == 0
  {
    assert s[0..] == s;
    if |s| >= 2 {
      assert WideSpaceHere(s[|s| - 2..]) == 0;
    }
    if |s| >= 3 {
      assert WideSpaceHere(s[|s| - 3..]) == 0;
    }
  }

  lemma {:induction false} TrimLeftPlain(s: Bytes)
    requires Plain(s)
    ensures Plain(TrimLeft(s))
  {
    hide Plain;
    if s != [] && IsSpace(s[0]) {
      PlainTail(s, 1);
      TrimLeftPlain(s[1..]);
    }
  }

  lemma {:induction false} TrimRightPlain(s: Bytes)
    requires Plain(s)
    ensures Plain(TrimRight(s))
  {
    hide Plain;
    if s != [] && IsSpace(s[|s| - 1]) {
      PlainHead(s, |s| - 1);
      TrimRightPlain(s[..|s| - 1]);
    }
  }

  /** On a plain line both find the same value for a key. */
  lemma LineValueAgrees(line: Bytes, key: Bytes)
    requires Plain(line) && KeyLike(key)
    ensures LineValue(Go, line, key) == LineValue(C, line, key)
  {
    hide Plain, TrimLeft, TrimRight, TrimUnicodeLeft, TrimUnicodeRight, WideSpaceHere, WideSpaceLast;
    var u, n := TrimLeft(line), |key| + 1;
    TrimLeftPlain(line);
    NoWideHere(u);
    if key + [COLON] <= u {
      PlainTail(u, n);
      TrimLeftPlain(u[n..]);
      TrimRightPlain(TrimLeft(u[n..]));
      NoWideHere(Trim(C, u[n..]));
    }
    LineValueAgreesExactly(line, key);
  }

  ghost predicate AllPlain(lines: seq<Bytes>) {
    forall i :: 0 <= i < |lines| ==> Plain(lines[i])
  }

  lemma {:induction false} LinesArePlain(s: Bytes)
    requires Plain(s)
    ensures AllPlain(Lines(s))
    decreases |s|
  {
    hide Plain;
    match Find(s, [NEWLINE], 0)
    case None =>
    case Some(i) =>
      PlainHead(s, i);
      PlainTail(s, i + 1);
      LinesArePlain(s[i + 1..]);
  }

  // --------------------------------------------------------------- decisions

  ghost predicate AllAlike(lines: seq<Bytes>) {
    forall i :: 0 <= i < |lines| ==> ReadAlike(lines[i])
  }

  /** Every entry line between the fences is read alike. */
  ghost predicate Alike(content: Bytes) {
    AllAlike(EntriesOf(content))
  }

  lemma AlikeValues(line: Bytes, tool: Bytes, subject: Bytes)
    requires ReadAlike(line)
    ensures ToolValue(Go, line).Some? <==> ToolValue(C, line).Some?
    ensures PatternValue(Go, line).Some? <==> PatternValue(C, line).Some?
    ensures ToolValue(Go, line).Some? ==>
              (HasToken(ToolValue(Go, line).value, tool) <==> HasToken(ToolValue(C, line).value, tool))
    ensures PatternValue(Go, line).Some? ==>
              (PatternsMatch(PatternValue(Go, line).value, subject) <==>
                 PatternsMatch(PatternValue(C, line).value, subject))
  {
    hide ReadAlike, ToolValue, PatternValue, Entry, HasToken, PatternsMatch;
    AlikeSteps(NO_LINES, line, tool, subject);
    EntrySays(Go, NO_LINES, line, tool, subject);
    EntrySays(C, NO_LINES, line, tool, subject);
  }

  lemma {:induction false} AlikeAccepts(entries: seq<Bytes>, tool: Bytes, subject: Bytes)
    requires AllAlike(entries)
    ensures NamesTools(Go, entries) <==> NamesTools(C, entries)
    ensures NamesTool(Go, entries, tool) <==> NamesTool(C, entries, tool)
    ensures HasPatterns(Go, entries) <==> HasPatterns(C, entries)
    ensures HasPattern(Go, entries, subject) <==> HasPattern(C, entries, subject)
    decreases |entries|
  {
    hide ReadAlike, ToolValue, PatternValue, HasToken, PatternsMatch;
    if entries != [] {
      var rest := entries[1..];
      assert entries == [entries[0]] + rest;
      AlikeValues(entries[0], tool, subject);
      AlikeAccepts(rest, tool, subject);
      OneEntryMore(Go, entries[0], rest, tool, subject);
      OneEntryMore(C, entries[0], rest, tool, subject);
    }
    hide NamesTools, NamesTool, HasPatterns, HasPattern;
  }

  /** Parity: on a content each of whose entry lines is read alike, both
      implementations decide the same for every tool and subject. */
  lemma AlikeIsDecidedAlike(content: Bytes, tool: Bytes, subject: Bytes)
    requires Alike(content)
    ensures Matches(Go, content, tool, subject) == Matches(C, content, tool, subject)
  {
    hide Matches, AllAlike, EntriesOf, HasBlock, NamesTools, NamesTool, HasPatterns, HasPattern;
    MatchesMeans(Go, content, tool, subject);
    MatchesMeans(C, content, tool, subject);
    AlikeAccepts(EntriesOf(content), tool, subject);
  }

  /** The three keys have the same value on the line, or none. */
  ghost predicate SameValues(line: Bytes) {
    && LineValue(Go, line, ToolKey()) == LineValue(C, line, ToolKey())
    && LineValue(Go, line, ArgKey()) == LineValue(C, line, ArgKey())
    && LineValue(Go, line, PathKey()) == LineValue(C, line, PathKey())
  }

  lemma SameValuesAreAlike(line: Bytes)
    requires SameValues(line)
    ensures ReadAlike(line)
  {
    hide LineValue, ReadAlike, Decision;
    if !ReadAlike(line) {
      var tool, subject := OthersDiffer(line);
      assert false;
    }
  }

  /** Every entry line between the fences gives each key the same value. */
  ghost predicate SameValued(content: Bytes) {
    AllSame(EntriesOf(content))
  }

  ghost predicate AllSame(lines: seq<Bytes>) {
    forall i :: 0 <= i < |lines| ==> SameValues(lines[i])
  }

  lemma AllSameAreAlike(lines: seq<Bytes>)
    requires AllSame(lines)
    ensures AllAlike(lines)
  {
    hide SameValues, ReadAlike;
    forall i | 0 <= i < |lines| ensures ReadAlike(lines[i]) {
      SameValuesAreAlike(lines[i]);
    }
  }

  /** So they do if every entry line gives each key the same value under both rules. */
  lemma SameValuesAgree(content: Bytes, tool: Bytes, subject: Bytes)
    requires SameValued(content)
    ensures Alike(content) && Matches(Go, content, tool, subject) == Matches(C, content, tool, subject)
  {
    hide EntriesOf, AllSame, AllAlike, Matches;
    AllSameAreAlike(EntriesOf(content));
    AlikeIsDecidedAlike(content, tool, subject);
  }

  /** No white space character outside ASCII stands between the fences. */
  ghost predicate PlainHeader(content: Bytes) {
    match Header(content)
    case None => true
    case Some((start, end)) => Plain(content[start..end])
  }

  lemma {:induction false} EntriesAreLines(open: bool, lines: seq<Bytes>)
    requires AllPlain(lines)
    ensures AllPlain(Entries(open, lines))
    decreases |lines|
  {
    hide Plain, TriggersKey;
    if lines != [] {
      assert AllPlain(lines[1..]);
      EntriesAreLines(open, lines[1..]);
      EntriesAreLines(true, lines[1..]);
    }
  }

  /** And so they do, whatever the body of the skill holds, if the text between the
      fences is plain. */
  lemma MatchersAgree(content: Bytes, tool: Bytes, subject: Bytes)
    requires PlainHeader(content)
    ensures Alike(content) && Matches(Go, content, tool, subject) == Matches(C, content, tool, subject)
  {
    hide Plain, Lines, Header, Entries, Matches, Alike, AllPlain;
    if Header(content).Some? {
      var (start, end) := Header(content).value;
      LinesArePlain(content[start..end]);
      EntriesAreLines(false, Lines(content[start..end]));
      AllPlainAreSame(Entries(false, Lines(content[start..end])));
    }
    SameValuesAgree(content, tool, subject);
  }

  lemma AllPlainAreSame(lines: seq<Bytes>)
    requires AllPlain(lines)
    ensures AllSame(lines)
  {
    KeysAre();
    hide Plain, LineValue, ToolKey, ArgKey, PathKey;
    forall i | 0 <= i < |lines| ensures SameValues(lines[i]) {
      LineValueAgrees(lines[i], ToolKey());
      LineValueAgrees(lines[i], ArgKey());
      LineValueAgrees(lines[i], PathKey());
    }
  }

  lemma PlainIsPlainHeader(content: Bytes)
    requires Plain(content)
    ensures PlainHeader(content)
  {
    hide Plain, Header;
    match Header(content)
    case None =>
    case Some((start, end)) => PlainSlice(content, start, end);
  }

  /** The two implementations, called with the same input, return the same if it is
      read alike; if it is ASCII, it is. */
  method Both(content: Str, tool: Str, subject: Str) returns (inGo: bool, inC: bool)
    ensures inGo == Matches(Go, content, tool, subject) && inC == Matches(C, content, tool, subject)
    ensures Alike(content) || (forall i :: 0 <= i < |content| ==> content[i] < 0x80) ==> inGo == inC
  {
    hide Matches, Plain, Alike;
    inGo := TriggerGo.TriggerMatches(content, tool, subject);
    inC := TriggerC.MatchesContent(content, tool, subject);
    if Alike(content) {
      AlikeIsDecidedAlike(content, tool, subject);
    } else if forall i :: 0 <= i < |content| ==> content[i] < 0x80 {
      AsciiIsPlain(content);
      PlainIsPlainHeader(content);
      MatchersAgree(content, tool, subject);
    }
  }

  // --------------------------------------------------- a block of one entry

  /** A content whose block has one entry. */
  function Block(line: Bytes): Bytes { Text("---\n") + BlockText(line) + Text("\n---") }

  function BlockText(line: Bytes): Bytes { TriggersKey() + [NEWLINE] + line }

  /** One indented line. */
  predicate Indented(line: Bytes) {
    line != [] && IsSpace(line[0]) && NEWLINE !in line
  }

  lemma NoNewline(s: Bytes)
    requires NEWLINE !in s
    ensures Lines(s) == [s]
  {
    FindByte(s, NEWLINE, 0);
  }

  /** A first line without a newline, cut off. */
  lemma FirstLine(s: Bytes, rest: Bytes)
    requires NEWLINE !in s
    ensures Lines(s + [NEWLINE] + rest) == [s] + Lines(rest)
  {
    var t := s + [NEWLINE] + rest;
    FindByte(t, NEWLINE, 0);
    assert t[|s|] == NEWLINE && t[..|s|] == s && t[|s| + 1..] == rest;
    hide Find;
  }

  lemma BlockLines(line: Bytes)
    requires Indented(line)
    ensures Lines(BlockText(line)) == [TriggersKey(), line]
  {
    KeyHasNoNewline();
    hide Lines, Text, TriggersKey;
    FirstLine(TriggersKey(), line);
    NoNewline(line);
  }

  lemma KeyHasNoNewline()
    ensures NEWLINE !in TriggersKey() && |TriggersKey()| == 9 && !IsSpace(TriggersKey()[0])
  {
  }

  lemma NoMatch(s: Bytes, t: Bytes, k: nat)
    requires |t| >= 2 && k + 1 < |s| && (s[k] != t[0] || s[k + 1] != t[1])
    ensures !MatchAt(s, t, k)
  {
    if k + |t| <= |s| {
      var u := s[k..k + |t|];
      assert u[0] == s[k] && u[1] == s[k + 1];
    }
  }

  lemma BlockIsFenced(line: Bytes)
    requires Indented(line)
    ensures Opens(Block(line)) && Header(Block(line)) == Some((4, 4 + |BlockText(line)|))
    ensures Block(line)[4..4 + |BlockText(line)|] == BlockText(line)
  {
    var w, n, fence := Block(line), 4 + |BlockText(line)|, Text("\n---");
    FindByte(w, NEWLINE, 0);
    assert w[..3] == Text("---");
    assert w[n..n + 4] == fence;
    NoFenceInside(line, w, n);
    hide Block, BlockText, Text, Find;
    forall k: nat | 4 <= k < n ensures !MatchAt(w, fence, k) {
      NoMatch(w, fence, k);
    }
    FindIs(w, fence, 4, n);
  }

  /** The only newline inside is not followed by a dash. */
  lemma NoFenceInside(line: Bytes, w: Bytes, n: nat)
    requires Indented(line) && w == Block(line) && n == 4 + |BlockText(line)|
    ensures |w| == n + 4 && forall k :: 4 <= k < n ==> w[k] != NEWLINE || w[k + 1] != 45
  {
    KeyHasNoNewline();
    hide TriggersKey;
    var h, t := BlockText(line), TriggersKey();
    assert |h| == 10 + |line| && h[9] == NEWLINE && h[10] == line[0];
    assert forall k :: 0 <= k < 9 ==> h[k] == t[k];
    assert forall k :: 10 <= k < |h| ==> h[k] == line[k - 10];
    assert forall k :: 0 <= k < |h| ==> w[4 + k] == h[k];
  }

  /** The decision on such a content is the decision after its entry. */
  lemma EntryDecides(d: Dialect, line: Bytes, tool: Bytes, subject: Bytes)
    requires Indented(line) && tool != []
    ensures Matches(d, Block(line), tool, subject) <==> Decision(Entry(d, OPENED, line, tool, subject))
  {
    hide Header, Lines, Block, BlockText, LineValue, Opens, Entry, TriggersKey, Decision;
    BlockLines(line);
    BlockIsFenced(line);
    KeyHasNoNewline();
    var key := TriggersKey();
    assert [key, line][1..] == [line] && [line][1..] == [];
    assert LineStep(d, NO_LINES, key, tool, subject) == OPENED;
    assert ScanLines(d, NO_LINES, [key, line], tool, subject) == ScanLines(d, OPENED, [line], tool, subject);
    assert ScanLines(d, OPENED, [line], tool, subject) == Entry(d, OPENED, line, tool, subject);
  }

  /** For a block of one entry the condition is exact: the implementations decide the
      same for every tool and subject just when the line is read alike. */
  lemma OneEntryExactly(line: Str)
    requires Indented(line)
    ensures (forall tool: Str, subject: Str | tool != [] ::
               Matches(Go, Block(line), tool, subject) == Matches(C, Block(line), tool, subject))
            <==> ReadAlike(line)
  {
    hide Matches, Block, Entry, Decision, ReadAlike, Indented;
    if ReadAlike(line) {
      forall tool: Str, subject: Str | tool != []
        ensures Matches(Go, Block(line), tool, subject) == Matches(C, Block(line), tool, subject)
      {
        EntryDecides(Go, line, tool, subject);
        EntryDecides(C, line, tool, subject);
        AlikeSteps(OPENED, line, tool, subject);
      }
    } else {
      var t, s := OthersDiffer(line);
      var tool: Str, subject: Str := t, s;
      EntryDecides(Go, line, tool, subject);
      EntryDecides(C, line, tool, subject);
    }
  }

  // ---------------------------------------------------------- a witness

  /** A triggers block whose only entry is indented with a no-break space. */
  function WitnessLine(): Bytes { [32, 0xC2, 0xA0] + Text("tool:x") }

  /** Go reads the line as naming a tool, C does not read it at all. */
  lemma WitnessLineDiffers()
    ensures LineValue(Go, WitnessLine(), ToolKey()) == Some(Text("x"))
    ensures forall key | key == ToolKey() || key == ArgKey() || key == PathKey() ::
              LineValue(C, WitnessLine(), key) == None
  {
    hide LineValue;
    WitnessInGo();
    forall key | key == ToolKey() || key == ArgKey() || key == PathKey()
      ensures LineValue(C, WitnessLine(), key) == None
    {
      WitnessInC(key);
    }
  }

  lemma WitnessInGo()
    ensures LineValue(Go, WitnessLine(), ToolKey()) == Some(Text("x"))
  {
    var line, rest, x := WitnessLine(), Text("tool:x"), Text("x");
    assert line[1..][2..] == rest && rest[5..] == x;
    assert ToolKey() + [COLON] <= rest;
    StartsWide(line);
    assert rest[0] == 116 && rest[5] == 120 && x[0] == 120;
    NothingToTrim(rest);
    NothingToTrim(x);
    hide TrimUnicodeLeft, TrimUnicodeRight, WideSpaceHere, Text;
  }

  lemma NothingToTrim(s: Bytes)
    requires s != [] && 32 < s[0] < 0x80 && 32 < s[|s| - 1] < 0x80
    ensures Trim(Go, s) == s && TrimUnicodeLeft(s) == s && TrimUnicodeRight(s) == s
  {
    assert SpaceHere(s) == 0 && SpaceLast(s) == 0;
    hide SpaceHere, SpaceLast;
  }

  /** A blank and a no-break space are both trimmed by Go. */
  lemma StartsWide(line: Bytes)
    requires |line| >= 3 && line[0] == 32 && line[1] == 0xC2 && line[2] == 0xA0
    ensures TrimUnicodeLeft(line) == TrimUnicodeLeft(line[1..][2..])
    ensures TrimLeft(line) == line[1..]
  {
    assert SpaceHere(line) == 1 && SpaceHere(line[1..]) == 2;
  }

  lemma WitnessInC(key: Bytes)
    requires key == ToolKey() || key == ArgKey() || key == PathKey()
    ensures LineValue(C, WitnessLine(), key) == None
  {
    var line := WitnessLine();
    StartsWide(line);
    assert key != [] && key[0] < 0x80 && line[1..][0] == 0xC2;
    hide WitnessLine, Text, TrimLeft;
    assert (key + [COLON])[0] == key[0];
  }

  lemma NotThatTool()
    ensures !HasToken(Text("x"), Text("y"))
  {
    var x, y := Text("x"), Text("y");
    assert x[0] == 120 && y[0] == 121;
    forall i: nat, j: nat | TokenRun(x, i, j) ensures x[i..j] != y {
      assert x[i..j][0] == x[0];
    }
  }

  /** Such a block the two implementations decide differently. */
  lemma WitnessDisagrees()
    ensures Matches(C, Block(WitnessLine()), Text("y"), []) && !Matches(Go, Block(WitnessLine()), Text("y"), [])
  {
    WitnessIsIndented();
    hide Matches, WitnessLine, LineValue, Block, HasToken;
    WitnessLineDiffers();
    EntryDecides(Go, WitnessLine(), Text("y"), []);
    EntryDecides(C, WitnessLine(), Text("y"), []);
    NotThatTool();
  }

  lemma WitnessIsIndented()
    ensures Indented(WitnessLine()) && Text("y") != []
  {
  }
}
