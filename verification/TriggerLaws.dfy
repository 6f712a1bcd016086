/** The trigger language by its own bytes: what a token is made of, what quotes and
    white space are, which keys a block knows, and how a front matter is fenced
    (server-go/modules/skills/skills.go:49-162,
    src/modules/skills/skill_trigger_policy.c:7-146). */
module TriggerLaws {
  import opened Bytes
  import opened Wrappers
  import opened Search
  import opened TriggerText
  import opened TriggerEntries
  import opened TriggerParity

  // ----------------------------------------------------------------- tokens

  /** Letters and digits, an underscore, a dash and a dot. */
  predicate InToken(b: byte) {
    || 'a' as int <= b <= 'z' as int || 'A' as int <= b <= 'Z' as int || '0' as int <= b <= '9' as int
    || b == '_' as int || b == '-' as int || b == '.' as int
  }

  /** What follows a word ends it exactly if it is none of these: the tool `code` is
      named by `code, review` and not by `code-review`. */
  lemma WordEnds(word: Bytes, b: byte, rest: Bytes)
    requires word != [] && forall i :: 0 <= i < |word| ==> 'a' as int <= word[i] <= 'z' as int
    ensures InToken(b) ==> forall i: nat, j: nat :: TokenRun(word + [b] + rest, i, j) ==> i > 0 || j > |word|
    ensures !InToken(b) ==> HasToken(word + [b] + rest, word)
  {
    var value := word + [b] + rest;
    assert value[|word|] == b && value[..|word|] == word;
    assert forall i :: 0 <= i < |word| ==> value[i] == word[i];
    if !InToken(b) {
      assert TokenRun(value, 0, |word|) && value[0..|word|] == word;
    }
  }

  /** A value of token bytes only names itself and nothing else. */
  lemma WholeToken(value: Bytes, tool: Bytes)
    requires value != [] && forall i :: 0 <= i < |value| ==> InToken(value[i])
    ensures HasToken(value, tool) <==> tool == value
  {
    assert TokenRun(value, 0, |value|) && value[0..|value|] == value;
    forall i: nat, j: nat | TokenRun(value, i, j) ensures i == 0 && j == |value| {
      RunsAgree(value, i, j, 0, |value|);
    }
  }

  /** A value without such a byte names nothing. */
  lemma NoToken(value: Bytes, tool: Bytes)
    requires forall i :: 0 <= i < |value| ==> !InToken(value[i])
    ensures !HasToken(value, tool)
  {
    forall i: nat, j: nat ensures !TokenRun(value, i, j) {
      if i < j <= |value| {
        assert !InToken(value[i]);
      }
    }
  }

  // --------------------------------------------------------------- patterns

  /** A pattern in quotes of either kind is looked for anywhere in the subject, up to
      its first 127 bytes. */
  lemma QuotedPattern(q: byte, pattern: Bytes, subject: Bytes)
    requires q == '"' as int || q == '\'' as int
    requires pattern != [] && q !in pattern
    ensures PatternsMatch([q] + pattern + [q], subject) <==>
              Occurs(subject, if |pattern| > 127 then pattern[..127] else pattern)
  {
    var value := [q] + pattern + [q];
    OneQuoted(q, pattern);
    assert Given([pattern]) by {
      assert [pattern][0] != [];
    }
    hide Quoted, QuotedAfter, Occurs;
    assert [pattern][0] == pattern;
  }

  lemma OneQuoted(q: byte, pattern: Bytes)
    requires (q == '"' as int || q == '\'' as int) && q !in pattern
    ensures Quoted([q] + pattern + [q], 0) == [pattern]
  {
    var value := [q] + pattern + [q];
    var n := |pattern| + 1;
    assert value[0] == q && value[n] == q && value[1..n] == pattern;
    assert forall k :: 1 <= k < n ==> value[k] == pattern[k - 1];
    QuoteIs(value, 0, 0);
    CloseIs(value, 1, q, n);
    QuoteIs(value, n + 1, n + 1);
    hide QuoteAt, CloseAt;
    assert QuotedAfter(value, n) == [];
    assert [pattern] + [] == [pattern];
  }

  /** Without quotes, or with nothing between them, a pattern is a name: the subject
      itself has to be a token of it. */
  lemma BarePattern(value: Bytes, subject: Bytes)
    requires forall i :: 0 <= i < |value| ==> value[i] != '"' as int && value[i] != '\'' as int
    ensures PatternsMatch(value, subject) <==> HasToken(value, subject)
    ensures PatternsMatch(Text("''") + value, subject) <==> HasToken(Text("''") + value, subject)
  {
    NoQuotes(value, 0);
    assert !Given([]);
    var quoted := Text("''") + value;
    assert quoted[0] == 39 && quoted[1] == 39;
    assert forall k :: 2 <= k < |quoted| ==> quoted[k] == value[k - 2];
    QuoteIs(quoted, 0, 0);
    CloseIs(quoted, 1, 39, 1);
    NoQuotes(quoted, 2);
    hide QuoteAt, CloseAt, Text;
    assert quoted[1..1] == [];
    assert Quoted(quoted, 0) == [[]] + [];
    assert !Given([[]]);
  }

  lemma NoQuotes(value: Bytes, from: nat)
    requires from <= |value|
    requires forall i :: from <= i < |value| ==> value[i] != '"' as int && value[i] != '\'' as int
    ensures Quoted(value, from) == []
  {
    QuoteIs(value, from, |value|);
  }

  // ------------------------------------------------------------ white space

  /** The ASCII white space characters: tab, newline, vertical tab, form feed,
      carriage return and blank. */
  predicate Blank(b: byte) {
    b == '\t' as int || b == '\n' as int || b == 11 || b == 12 || b == '\r' as int || b == ' ' as int
  }

  /** Either dialect reads a key behind such a character, and behind no other of
      ASCII. */
  lemma KeyBehind(d: Dialect, b: byte, key: Bytes, value: Bytes)
    requires b < 0x80 && key != [] && 32 < key[0] < 0x80 && b != key[0]
    ensures LineValue(d, [b] + (key + [58] + value), key).Some? <==> Blank(b)
    ensures Blank(b) ==> LineValue(d, [b] + (key + [58] + value), key) == LineValue(d, key + [58] + value, key)
  {
    var bare := key + [58] + value;
    assert bare[0] == key[0] && bare[..|key| + 1] == key + [58];
    LeftEnds(b, bare);
    StartStays(bare, |key| + 1);
    StartStays([b] + bare, 0);
    KeyOrNot(d, [b] + bare, key);
    KeyOrNot(d, bare, key);
    hide TrimUnicodeRight, TrimUnicodeLeft, TrimLeft, LineValue;
  }

  /** A key is read where the left end is gone, if the right end leaves it. */
  lemma KeyOrNot(d: Dialect, line: Bytes, key: Bytes)
    requires TrimUnicodeLeft(line) == TrimLeft(line)
    requires TrimUnicodeRight(TrimLeft(line)) <= TrimLeft(line)
    requires key + [58] <= TrimLeft(line) ==> key + [58] <= TrimUnicodeRight(TrimLeft(line))
    ensures LineValue(d, line, key).Some? <==> key + [58] <= TrimLeft(line)
    ensures LineValue(d, line, key)
            == if key + [58] <= TrimLeft(line)
               then Some(Trim(d, (if d.Go? then TrimUnicodeRight(TrimLeft(line)) else TrimLeft(line))[|key| + 1..]))
               else None
  {
    hide TrimUnicodeRight, TrimUnicodeLeft, TrimLeft, TrimRight;
  }

  lemma LeftEnds(b: byte, bare: Bytes)
    requires b < 0x80 && bare != [] && 32 < bare[0] < 0x80
    ensures TrimLeft(bare) == bare && TrimUnicodeLeft(bare) == bare
    ensures var line := [b] + bare;
            TrimLeft(line) == (if Blank(b) then bare else line) && TrimUnicodeLeft(line) == TrimLeft(line)
  {
    assert ([b] + bare)[1..] == bare;
    assert SpaceHere(bare) == 0 && SpaceHere([b] + bare) == if Blank(b) then 1 else 0;
    hide SpaceHere;
  }

  /** Trimming the right end takes nothing of a front that does not end in white
      space. */
  lemma {:induction false} StartStays(s: Bytes, n: nat)
    requires n <= |s| && (n > 0 ==> 32 < s[n - 1] < 0x80)
    ensures s[..n] <= TrimUnicodeRight(s) <= s
    decreases |s|
  {
    var k := SpaceLast(s);
    if k > 0 {
      assert n <= |s| - k;
      StartStays(s[..|s| - k], n);
      assert s[..|s| - k][..n] == s[..n];
    }
  }

  /** Begins and ends with a printable ASCII character, and is one line. */
  predicate Bare(v: Bytes) {
    v != [] && 32 < v[0] < 0x80 && 32 < v[|v| - 1] < 0x80 && '\n' as int !in v
  }

  lemma {:induction false} BlanksLeft(d: Dialect, s: Bytes, v: Bytes)
    requires (forall i :: 0 <= i < |s| ==> Blank(s[i])) && v != [] && 32 < v[0] < 0x80
    ensures TrimLeft(s + v) == v && TrimUnicodeLeft(s + v) == v
    decreases |s|
  {
    if s == [] {
      assert s + v == v && SpaceHere(v) == 0;
    } else {
      BlanksLeft(d, s[1..], v);
      assert (s + v)[1..] == s[1..] + v && SpaceHere(s + v) == 1;
    }
  }

  lemma {:induction false} BlanksRight(d: Dialect, v: Bytes, s: Bytes)
    requires (forall i :: 0 <= i < |s| ==> Blank(s[i])) && v != [] && 32 < v[|v| - 1] < 0x80
    ensures TrimRight(v + s) == v && TrimUnicodeRight(v + s) == v
    decreases |s|
  {
    if s == [] {
      assert v + s == v && SpaceLast(v) == 0;
    } else {
      var n := |s| - 1;
      BlanksRight(d, v, s[..n]);
      assert (v + s)[..|v| + n] == v + s[..n] && SpaceLast(v + s) == 1;
    }
  }

  /** What a key is given is trimmed of such characters at both ends. */
  lemma ValueTrimmed(d: Dialect, key: Bytes, before: Bytes, v: Bytes, after: Bytes)
    requires key != [] && 32 < key[0] < 0x80 && Bare(v)
    requires forall i :: 0 <= i < |before| ==> Blank(before[i])
    requires forall i :: 0 <= i < |after| ==> Blank(after[i])
    ensures LineValue(d, key + [58] + (before + v + after), key) == Some(v)
  {
    var all := before + v + after;
    var line := key + [58] + all;
    LineEnds(d, key, before, v, after);
    PlainTrim(d, before, v, after);
    PlainTrim(d, before, v, []);
    assert before + v + [] == before + v;
    KeyOrNot(d, line, key);
    hide TrimUnicodeRight, TrimUnicodeLeft, TrimLeft, TrimRight, Bare, Trim, LineValue, Blank;
    assert (key + [58] + (before + v))[|key| + 1..] == before + v && line[|key| + 1..] == all;
  }

  lemma PlainTrim(d: Dialect, before: Bytes, v: Bytes, after: Bytes)
    requires Bare(v)
    requires forall i :: 0 <= i < |before| ==> Blank(before[i])
    requires forall i :: 0 <= i < |after| ==> Blank(after[i])
    ensures Trim(d, before + v + after) == v
  {
    assert before + v + after == before + (v + after);
    BlanksLeft(d, before, v + after);
    BlanksRight(d, v, after);
    hide TrimUnicodeRight, TrimUnicodeLeft, TrimLeft, TrimRight, Blank;
  }

  lemma LineEnds(d: Dialect, key: Bytes, before: Bytes, v: Bytes, after: Bytes)
    requires key != [] && 32 < key[0] < 0x80 && Bare(v)
    requires forall i :: 0 <= i < |after| ==> Blank(after[i])
    ensures var line := key + [58] + (before + v + after);
            TrimLeft(line) == line && TrimUnicodeLeft(line) == line
            && TrimUnicodeRight(line) == key + [58] + (before + v)
  {
    var front := key + [58] + (before + v);
    var line := key + [58] + (before + v + after);
    LastOf(key + [58] + before, v);
    assert front == key + [58] + before + v && line == front + after;
    BlanksRight(d, front, after);
    BlanksLeft(d, [], line);
    hide TrimUnicodeRight, TrimUnicodeLeft, TrimLeft, TrimRight, Blank, Bare;
    assert [] + line == line;
  }

  lemma LastOf(a: Bytes, v: Bytes)
    requires v != []
    ensures (a + v)[|a + v| - 1] == v[|v| - 1]
  {
  }

  /** Go also trims the white space characters of Unicode that take three bytes in
      UTF-8, by their code points, and none other that do. */
  lemma WideBlank(a: byte, b: byte, c: byte, v: Bytes)
    requires 0xE0 <= a <= 0xEF && 0x80 <= b <= 0xBF && 0x80 <= c <= 0xBF && Bare(v)
    ensures var point := (a - 0xE0) * 0x1000 + (b - 0x80) * 0x40 + (c - 0x80);
            var wide := point in {0x1680, 0x2028, 0x2029, 0x202F, 0x205F, 0x3000} || 0x2000 <= point <= 0x200A;
            && TrimUnicodeLeft([a, b, c] + v) == (if wide then v else [a, b, c] + v)
            && TrimUnicodeRight(v + [a, b, c]) == (if wide then v else v + [a, b, c])
  {
    var front, back := [a, b, c] + v, v + [a, b, c];
    assert front[3..] == v && back[..|v|] == v;
    WidePoint(a, b, c);
    assert SpaceHere(v) == 0 && SpaceLast(v) == 0;
    assert SpaceHere(front) == if WideThree(a, b, c) then 3 else 0;
    assert SpaceLast(back) == if WideThree(a, b, c) then 3 else 0;
    hide SpaceHere, SpaceLast, WideThree;
  }

  lemma WidePoint(a: byte, b: byte, c: byte)
    requires 0xE0 <= a <= 0xEF && 0x80 <= b <= 0xBF && 0x80 <= c <= 0xBF
    ensures var point := (a - 0xE0) * 0x1000 + (b - 0x80) * 0x40 + (c - 0x80);
            WideThree(a, b, c) <==>
              point in {0x1680, 0x2028, 0x2029, 0x202F, 0x205F, 0x3000} || 0x2000 <= point <= 0x200A
  {
  }

  /** And those that take two. */
  lemma NarrowBlank(a: byte, b: byte, v: Bytes)
    requires 0xC2 <= a <= 0xDF && 0x80 <= b <= 0xBF && Bare(v)
    ensures var wide := (a - 0xC0) * 0x40 + (b - 0x80) in {0x85, 0xA0};
            && TrimUnicodeLeft([a, b] + v) == (if wide then v else [a, b] + v)
            && TrimUnicodeRight(v + [a, b]) == (if wide then v else v + [a, b])
  {
    var front, back := [a, b] + v, v + [a, b];
    assert front[2..] == v && back[..|v|] == v;
    assert SpaceHere(v) == 0 && SpaceLast(v) == 0;
    assert SpaceHere(front) == if WideTwo(a, b) then 2 else 0;
    assert SpaceLast(back) == if WideTwo(a, b) then 2 else 0;
    hide SpaceHere, SpaceLast;
  }

  // ----------------------------------------------------------------- blocks

  /** A front matter with one entry, byte for byte. */
  function Content(entry: Bytes): Bytes {
    Text("---\ntriggers:\n ") + entry + Text("\n---")
  }

  lemma ContentIs(entry: Bytes)
    ensures Content(entry) == Block([32] + entry)
  {
    assert Text("---\ntriggers:\n ") == Text("---\n") + (Text("triggers:") + [10] + [32]);
    assert Text("triggers:") + [10] + ([32] + entry) == Text("triggers:") + [10] + [32] + entry;
    hide Text;
  }

  /** A line that begins with a printable character, behind a blank. */
  lemma EntryLine(d: Dialect, entry: Bytes, tool: Bytes, subject: Bytes)
    requires Bare(entry) && tool != []
    ensures Matches(d, Content(entry), tool, subject) <==>
              Decision(TriggerText.Entry(d, TriggerAlike.OPENED, [32] + entry, tool, subject))
  {
    ContentIs(entry);
    hide Matches, Block, TriggerText.Entry, Decision;
    EntryDecides(d, [32] + entry, tool, subject);
  }

  lemma KeyText(key: Bytes, v: Bytes)
    requires key != [] && 32 < key[0] < 0x80 && '\n' as int !in key && Bare(v)
    ensures Bare(key + [58] + v)
  {
    assert (key + [58] + v)[|key| + 1 + |v| - 1] == v[|v| - 1];
  }

  lemma Behind(d: Dialect, key: Bytes, v: Bytes)
    requires key != [] && 32 < key[0] < 0x80 && Bare(v)
    ensures LineValue(d, [32] + (key + [58] + v), key) == Some(v)
  {
    hide LineValue;
    KeyBehind(d, 32, key, v);
    ValueAlone(d, key, v);
  }

  lemma ValueAlone(d: Dialect, key: Bytes, v: Bytes)
    requires key != [] && 32 < key[0] < 0x80 && Bare(v)
    ensures LineValue(d, key + [58] + v, key) == Some(v)
  {
    hide LineValue, Bare, Blank;
    ValueTrimmed(d, key, [], v, []);
    assert [] + v + [] == v;
  }

  lemma NotThatKey(d: Dialect, entry: Bytes, key: Bytes)
    requires Bare(entry) && key != [] && !(key + [58] <= entry)
    ensures LineValue(d, [32] + entry, key) == None
  {
    LeftEnds(32, entry);
    BlanksRight(d, entry, []);
    assert entry + [] == entry;
    hide TrimUnicodeRight, TrimUnicodeLeft, TrimLeft, TrimRight;
  }

  /** The entries of a block are the indented lines from the one that begins with
      `triggers:` to the next unindented one; what is before and after is not looked
      at, and empty lines are passed over. */
  lemma {:induction false} BlockIs(before: seq<Bytes>, opening: Bytes, entries: seq<Bytes>, next: Bytes,
                                   rest: seq<Bytes>)
    requires forall i :: 0 <= i < |before| ==> !(Text("triggers:") <= before[i])
    requires Text("triggers:") <= opening
    requires forall i :: 0 <= i < |entries| ==> entries[i] != [] ==> Blank(entries[i][0])
    requires next != [] && !Blank(next[0]) && !(Text("triggers:") <= next)
    ensures Entries(false, before + [opening] + entries + [next] + rest) == NotEmpty(entries)
    decreases |before|
  {
    var lines := before + [opening] + entries + [next] + rest;
    if before == [] {
      KeyIsUnindented();
      assert lines[0] == opening && opening[0] == Text("triggers:")[0];
      assert lines[1..] == entries + [next] + rest;
      OpenBlock(entries, next, rest);
    } else {
      assert lines[0] == before[0];
      assert lines[1..] == before[1..] + [opening] + entries + [next] + rest;
      BlockIs(before[1..], opening, entries, next, rest);
    }
  }

  function NotEmpty(lines: seq<Bytes>): seq<Bytes> {
    if lines == [] then [] else (if lines[0] == [] then [] else [lines[0]]) + NotEmpty(lines[1..])
  }

  lemma {:induction false} OpenBlock(entries: seq<Bytes>, next: Bytes, rest: seq<Bytes>)
    requires forall i :: 0 <= i < |entries| ==> entries[i] != [] ==> Blank(entries[i][0])
    requires next != [] && !Blank(next[0]) && !(Text("triggers:") <= next)
    ensures Entries(true, entries + [next] + rest) == NotEmpty(entries)
    decreases |entries|
  {
    var lines := entries + [next] + rest;
    if entries == [] {
      assert lines[0] == next;
    } else {
      assert lines[0] == entries[0] && lines[1..] == entries[1..] + [next] + rest;
      OpenBlock(entries[1..], next, rest);
    }
  }

  /** `tool:` asks for a token of its value. */
  lemma ToolEntry(d: Dialect, v: Bytes, tool: Bytes, subject: Bytes)
    requires Bare(v) && tool != []
    ensures Matches(d, Content(Text("tool:") + v), tool, subject) <==> HasToken(v, tool)
  {
    var key := Text("tool");
    assert Text("tool:") == key + [58];
    assert key[0] == 116 && '\n' as int !in key;
    hide Text;
    KeyText(key, v);
    Behind(d, key, v);
    hide Matches, LineValue, HasToken, Bare;
    EntryLine(d, key + [58] + v, tool, subject);
  }

  /** `arg_pattern:` and `path_pattern:` ask for a match of the subject. */
  lemma PatternEntry(d: Dialect, path: bool, v: Bytes, tool: Bytes, subject: Bytes)
    requires Bare(v) && tool != []
    ensures Matches(d, Content(Text(if path then "path_pattern:" else "arg_pattern:") + v), tool, subject) <==>
              PatternsMatch(v, subject)
  {
    var key := if path then Text("path_pattern") else Text("arg_pattern");
    PatternKeys(path, key);
    hide Text;
    KeyText(key, v);
    Behind(d, key, v);
    OtherKey(d, key, v, ToolKey());
    if path {
      OtherKey(d, key, v, ArgKey());
    }
    hide Matches, LineValue, PatternsMatch, Bare, Content;
    PatternDecides(d, key + [58] + v, v, tool, subject);
  }

  lemma PatternDecides(d: Dialect, entry: Bytes, v: Bytes, tool: Bytes, subject: Bytes)
    requires Bare(entry) && tool != [] && PatternValue(d, [32] + entry) == Some(v)
    ensures Matches(d, Content(entry), tool, subject) <==> PatternsMatch(v, subject)
  {
    hide Matches, LineValue, PatternsMatch, Bare, Text, Content;
    EntryLine(d, entry, tool, subject);
  }

  lemma OtherKey(d: Dialect, key: Bytes, v: Bytes, other: Bytes)
    requires key != [] && 32 < key[0] < 0x80 && '\n' as int !in key && Bare(v)
    requires other != [] && other[0] != key[0]
    ensures LineValue(d, [32] + (key + [58] + v), other) == None
  {
    KeyText(key, v);
    hide LineValue, Bare;
    var entry := key + [58] + v;
    assert entry[0] == key[0] && (other + [58])[0] == other[0];
    NotThatKey(d, entry, other);
  }

  lemma PatternKeys(path: bool, key: Bytes)
    requires key == if path then Text("path_pattern") else Text("arg_pattern")
    ensures ToolKey() == Text("tool") && ArgKey() == Text("arg_pattern") && PathKey() == Text("path_pattern")
    ensures Text(if path then "path_pattern:" else "arg_pattern:") == key + [58]
    ensures key != [] && key[0] == (if path then 112 else 97) && '\n' as int !in key
    ensures Text("tool") != [] && Text("tool")[0] == 116 && Text("arg_pattern") != [] && Text("arg_pattern")[0] == 97
  {
  }

  /** And no other key asks for anything. */
  lemma OtherEntry(d: Dialect, entry: Bytes, tool: Bytes, subject: Bytes)
    requires Bare(entry) && tool != []
    requires !(Text("tool:") <= entry) && !(Text("arg_pattern:") <= entry) && !(Text("path_pattern:") <= entry)
    ensures Matches(d, Content(entry), tool, subject)
  {
    KeysAndColons();
    hide Text, LineValue, Bare;
    NotThatKey(d, entry, Text("tool"));
    NotThatKey(d, entry, Text("arg_pattern"));
    NotThatKey(d, entry, Text("path_pattern"));
    hide Matches;
    EntryLine(d, entry, tool, subject);
  }

  lemma KeysAndColons()
    ensures Text("tool:") == Text("tool") + [58] && Text("tool") != []
    ensures Text("arg_pattern:") == Text("arg_pattern") + [58] && Text("arg_pattern") != []
    ensures Text("path_pattern:") == Text("path_pattern") + [58] && Text("path_pattern") != []
  {
  }

  // ------------------------------------------------------------- the fences

  /** The first line is three dashes and then a newline or a carriage return; what
      follows the return on that line makes no difference. */
  lemma FirstFence(d: Dialect, c: byte, more: Bytes, rest: Bytes, tool: Bytes, subject: Bytes)
    requires '\n' as int !in more
    ensures var content := Text("---") + [c] + more + [10] + rest;
            && (c == '\r' as int ==>
                  (Matches(d, content, tool, subject) <==> Matches(d, Text("---") + [10] + rest, tool, subject)))
            && (c != '\r' as int && c != '\n' as int ==> !Matches(d, content, tool, subject))
  {
    hide Header, ScanLines, Lines, Matches, Text;
    var dashes := Text("---");
    OpensOrNot(d, dashes + [c] + more + [10] + rest, c, tool, subject);
    if c == '\r' as int {
      OpensOrNot(d, dashes + [10] + rest, 10, tool, subject);
      HeaderAt(dashes + [c] + more, rest);
      HeaderAt(dashes, rest);
    }
  }

  lemma OpensOrNot(d: Dialect, content: Bytes, c: byte, tool: Bytes, subject: Bytes)
    requires |content| >= 4 && content[..3] == Text("---") && content[3] == c
    ensures c != '\r' as int && c != '\n' as int ==> !Matches(d, content, tool, subject)
    ensures c == '\r' as int || c == '\n' as int ==>
              (Matches(d, content, tool, subject) <==>
                 && tool != []
                 && match Header(content)
                    case None => false
                    case Some((start, end)) =>
                      Decision(ScanLines(d, NO_LINES, Lines(content[start..end]), tool, subject)))
  {
    hide Header, ScanLines, Lines;
  }

  /** The header is what stands between the first line and the next one that begins
      with three dashes. */
  lemma HeaderAt(first: Bytes, rest: Bytes)
    requires '\n' as int !in first
    ensures var content := first + [10] + rest;
            match Find(rest, Text("\n---"), 0)
            case None => Header(content) == None
            case Some(i) =>
              && Header(content) == Some((|first| + 1, |first| + 1 + i))
              && content[|first| + 1..|first| + 1 + i] == rest[..i]
  {
    var content, fence := first + [10] + rest, Text("\n---");
    FirstNewline(first, rest);
    FindInTail(content, fence, |first| + 1, 0);
    assert content[|first| + 1..] == rest;
    hide Find, Text;
    match Find(rest, fence, 0)
    case None =>
    case Some(i) => SliceIs(content, |first| + 1, rest, i);
  }

  lemma SliceIs(content: Bytes, start: nat, rest: Bytes, i: nat)
    requires start <= |content| && content[start..] == rest && i <= |rest|
    ensures content[start..start + i] == rest[..i]
  {
  }

  lemma FirstNewline(first: Bytes, rest: Bytes)
    requires '\n' as int !in first
    ensures Find(first + [10] + rest, [10], 0) == Some(|first|)
  {
    var content := first + [10] + rest;
    FindByte(content, 10, 0);
    hide Find;
    assert content[|first|] == 10 && forall k :: 0 <= k < |first| ==> content[k] == first[k];
  }

  /** Without a closing fence nothing matches. */
  lemma NoClosingFence(d: Dialect, rest: Bytes, tool: Bytes, subject: Bytes)
    requires !Occurs(rest, Text("\n---"))
    ensures !Matches(d, Text("---") + [10] + rest, tool, subject)
  {
    HeaderAt(Text("---"), rest);
    hide Header, Text;
  }
}
