/** Skill names, and the name a tool's stub skill gets
    (src/modules/skills/skill.c:291-304, 892-922). */
module SkillName {

  type Name = string

  const NAME_MAX: nat := 64

  predicate Lower(c: char) { 'a' <= c <= 'z' }
  predicate Digit(c: char) { '0' <= c <= '9' }
  predicate Upper(c: char) { 'A' <= c <= 'Z' }

  predicate NameIsValid(name: Name) {
    && 0 < |name| < NAME_MAX && (Lower(name[0]) || Upper(name[0]) || Digit(name[0]))
    && forall i :: 0 <= i < |name| ==>
         Lower(name[i]) || Digit(name[i]) || name[i] == '.' || name[i] == '_' || name[i] == '-'
  }

  /** The slug so far with the next character of the tool name. */
  function Next(out: string, c: char): string {
    if Lower(c) || Digit(c) then out + [c]
    else if Upper(c) then out + [(c as int + 32) as char]
    else if c == '_' || c == '-' || c == '.' then out + ['-']
    else if out != [] && out[|out| - 1] != '-' then out + ['-']
    else out
  }

  function Fill(out: string, tool: string): (r: string)
    decreases |tool|
  {
    if tool == [] || |out| + 1 >= NAME_MAX then out else Fill(Next(out, tool[0]), tool[1..])
  }

  function DropDashes(s: string): string {
    if s != [] && s[|s| - 1] == '-' then DropDashes(s[..|s| - 1]) else s
  }

  function Prefix(tool: string): string {
    if tool != [] && !(Lower(tool[0]) || Upper(tool[0]) || Digit(tool[0])) then "tool-" else ""
  }

  function Slug(tool: string): string {
    DropDashes(Fill(Prefix(tool), tool))
  }

  /** Only lower-case letters, digits and dashes, within the limit, and an
      alphanumeric start once there is one. */
  predicate Tidy(s: string) {
    && |s| < NAME_MAX && (forall i :: 0 <= i < |s| ==> Lower(s[i]) || Digit(s[i]) || s[i] == '-')
    && (s != [] ==> s[0] != '-')
  }

  lemma {:induction false} FillIsTidy(out: string, tool: string)
    requires Tidy(out) && (out != [] || (tool != [] && Prefix(tool) == ""))
    ensures Tidy(Fill(out, tool)) && Fill(out, tool) != []
    decreases |tool|
  {
    if tool != [] && |out| + 1 < NAME_MAX {
      FillIsTidy(Next(out, tool[0]), tool[1..]);
    }
  }

  lemma {:induction false} DropDashesIsTidy(s: string)
    requires Tidy(s) && s != []
    ensures Tidy(DropDashes(s)) && DropDashes(s) != [] && DropDashes(s)[|DropDashes(s)| - 1] != '-'
  {
    if s[|s| - 1] == '-' {
      DropDashesIsTidy(s[..|s| - 1]);
    }
  }

  /** Every tool with a name gets a valid skill name. */
  lemma SlugIsValid(tool: string)
    requires tool != []
    ensures NameIsValid(Slug(tool)) && Tidy(Slug(tool)) && Slug(tool)[|Slug(tool)| - 1] != '-'
  {
    FillIsTidy(Prefix(tool), tool);
    DropDashesIsTidy(Fill(Prefix(tool), tool));
  }

  lemma {:induction false} FillCopies(out: string, s: string)
    requires Tidy(out + s)
    ensures Fill(out, s) == out + s
    decreases |s|
  {
    if s == [] {
      assert out + s == out;
    } else {
      assert (out + s)[|out|] == s[0];
      assert out + [s[0]] + s[1..] == out + s;
      FillCopies(out + [s[0]], s[1..]);
    }
  }

  /** The slug of a slug is that slug. */
  lemma SlugOfSlug(tool: string)
    ensures Slug(Slug(tool)) == Slug(tool)
  {
    if tool != [] {
      SlugIsValid(tool);
      var s := Slug(tool);
      assert Prefix(s) == "" && "" + s == s;
      FillCopies("", s);
    }
  }

  // ------------------------------------------- what a slug keeps of a name

  /** A letter or digit in lower case. */
  function LowerOf(c: char): char
    requires Lower(c) || Upper(c) || Digit(c)
  {
    if 'A' <= c <= 'Z' then c - 'A' + 'a' else c
  }

  /** The letters and digits of a name, in lower case and in order. */
  function Letters(s: string): string {
    if s == [] then []
    else (if Lower(s[0]) || Upper(s[0]) || Digit(s[0]) then [LowerOf(s[0])] else []) + Letters(s[1..])
  }

  lemma {:induction false} LettersSplit(a: string, b: string)
    ensures Letters(a + b) == Letters(a) + Letters(b)
  {
    hide Lower, Upper, Digit, LowerOf;
    if a == [] {
      assert a + b == b;
    } else {
      LettersSplit(a[1..], b);
      assert (a + b)[1..] == a[1..] + b;
    }
  }

  lemma NextLetters(out: string, c: char)
    ensures Letters(Next(out, c)) == Letters(out) + Letters([c])
  {
    assert [c][1..] == [] && Letters("") == [];
    if Lower(c) || Digit(c) {
      LettersSplit(out, [c]);
    } else if Upper(c) {
      var low := (c as int + 32) as char;
      assert [low][1..] == [];
      LettersSplit(out, [low]);
    } else {
      assert ['-'][1..] == [];
      LettersSplit(out, ['-']);
    }
  }

  lemma {:induction false} FillLetters(out: string, tool: string)
    ensures Letters(Fill(out, tool)) <= Letters(out) + Letters(tool)
    ensures |out| + |tool| < NAME_MAX ==> Letters(Fill(out, tool)) == Letters(out) + Letters(tool)
    decreases |tool|
  {
    hide Next;
    if tool == [] {
      assert Letters(out) + [] == Letters(out);
    } else if |out| + 1 < NAME_MAX {
      NextLetters(out, tool[0]);
      LettersSplit([tool[0]], tool[1..]);
      assert [tool[0]] + tool[1..] == tool;
      NextLength(out, tool[0]);
      FillLetters(Next(out, tool[0]), tool[1..]);
      assert Letters(out) + Letters(tool) == Letters(Next(out, tool[0])) + Letters(tool[1..]);
    }
  }

  lemma NextLength(out: string, c: char)
    ensures |Next(out, c)| <= |out| + 1
  {
  }

  lemma {:induction false} DropDashesLetters(s: string)
    ensures Letters(DropDashes(s)) == Letters(s)
  {
    if s != [] && s[|s| - 1] == '-' {
      DropDashesLetters(s[..|s| - 1]);
      LettersSplit(s[..|s| - 1], ['-']);
      assert ['-'][1..] == [];
      assert s == s[..|s| - 1] + ['-'];
    }
  }

  /** A slug loses no letter and no digit of a name that fits, keeps their order and
      puts them in lower case; of a longer name it keeps the first ones. A name that
      starts with neither gets the letters of "tool" in front. */
  lemma SlugKeepsLetters(tool: string)
    requires tool != []
    ensures var front := if Lower(tool[0]) || Upper(tool[0]) || Digit(tool[0]) then "" else "tool";
            && Letters(Slug(tool)) <= front + Letters(tool)
            && (|tool| + 5 < 64 ==> Letters(Slug(tool)) == front + Letters(tool))
  {
    FillLetters(Prefix(tool), tool);
    DropDashesLetters(Fill(Prefix(tool), tool));
    LettersOfTool();
  }

  lemma LettersOfTool()
    ensures Letters("tool-") == "tool"
  {
    var s := "tool-";
    assert s[1..] == "ool-" && s[1..][1..] == "ol-" && s[1..][1..][1..] == "l-" && s[1..][1..][1..][1..] == "-";
    assert s[1..][1..][1..][1..][1..] == "";
  }

  /** A word: letters and digits only. */
  predicate Word(s: string) {
    s != [] && forall i :: 0 <= i < |s| ==> Lower(s[i]) || Upper(s[i]) || Digit(s[i])
  }

  /** Two words of a name stay two words: what stands between them, if it is one
      character or two, becomes a dash, and two dashes only if the second is itself an
      underscore, a dash or a dot. */
  lemma SlugOfTwoWords(a: string, between: string, b: string)
    requires Word(a) && Word(b) && 1 <= |between| <= 2 && |a| + |between| + |b| < 64
    requires forall i :: 0 <= i < |between| ==> !(Lower(between[i]) || Upper(between[i]) || Digit(between[i]))
    ensures Slug(a + between + b)
            == Letters(a) + (if |between| == 2 && between[1] in {'_', '-', '.'} then "--" else "-") + Letters(b)
  {
    var dashes := if |between| == 2 && between[1] in {'_', '-', '.'} then "--" else "-";
    WordLetters(a);
    WordLetters(b);
    WordStarts(a, between + b);
    hide Fill, Letters, Next, Word;
    FillWord("", a, between + b);
    assert "" + Letters(a) == Letters(a);
    FillBetween(Letters(a), between, b);
    LastWord(Letters(a) + dashes, b);
    JoinThree(a, between, b);
  }

  lemma LastWord(out: string, s: string)
    requires Word(s) && |out| + |s| < 64
    ensures DropDashes(Fill(out, s)) == out + Letters(s)
  {
    WordLetters(s);
    FillWord(out, s, "");
    assert s + "" == s;
    NothingToFill(out + Letters(s));
    NothingToDrop(out, Letters(s));
  }

  lemma JoinThree(a: string, b: string, c: string)
    ensures a + b + c == a + (b + c)
  {
  }

  lemma WordStarts(s: string, rest: string)
    requires Word(s)
    ensures Prefix(s + rest) == ""
  {
  }

  lemma NothingToFill(s: string)
    ensures Fill(s, "") == s
  {
  }

  lemma NothingToDrop(s: string, word: string)
    requires word != "" && word[|word| - 1] != '-'
    ensures DropDashes(s + word) == s + word
  {
  }

  lemma {:induction false} WordLetters(s: string)
    requires s == "" || Word(s)
    ensures |Letters(s)| == |s| && forall i :: 0 <= i < |s| ==> Letters(s)[i] == LowerOf(s[i]) != '-'
  {
    if s != [] {
      WordLetters(s[1..]);
    }
  }

  lemma {:induction false} FillWord(out: string, s: string, rest: string)
    requires (s == "" || Word(s)) && |out| + |s| < 64
    ensures Fill(out, s + rest) == Fill(out + Letters(s), rest)
    decreases |s|
  {
    if s == "" {
      assert s + rest == rest && out + Letters(s) == out;
    } else {
      var c, more := s[0], s[1..];
      NextOfLetter(out, c);
      LettersOfWord(s);
      hide Fill, Letters, Next, LowerOf;
      FillStep(out, c, more + rest);
      FillWord(out + [LowerOf(c)], more, rest);
      hide Word;
      assert s == [c] + more;
      JoinThree([c], more, rest);
      JoinThree(out, [LowerOf(c)], Letters(more));
    }
  }

  lemma LettersOfWord(s: string)
    requires Word(s)
    ensures Letters(s) == [LowerOf(s[0])] + Letters(s[1..])
  {
  }

  lemma FillStep(out: string, c: char, rest: string)
    requires |out| + 1 < NAME_MAX
    ensures Fill(out, [c] + rest) == Fill(Next(out, c), rest)
  {
    hide Next;
    assert ([c] + rest)[1..] == rest;
  }

  lemma NextOfLetter(out: string, c: char)
    requires Lower(c) || Upper(c) || Digit(c)
    ensures Next(out, c) == out + [LowerOf(c)]
  {
  }

  lemma FillBetween(out: string, between: string, rest: string)
    requires out != "" && out[|out| - 1] != '-' && 1 <= |between| <= 2 && |out| + |between| < 64
    requires forall i :: 0 <= i < |between| ==> !(Lower(between[i]) || Upper(between[i]) || Digit(between[i]))
    ensures var dashes := if |between| == 2 && between[1] in {'_', '-', '.'} then "--" else "-";
            Fill(out, between + rest) == Fill(out + dashes, rest)
  {
    var s := between + rest;
    assert Next(out, s[0]) == out + "-";
    if |between| == 2 {
      assert s[1..][1..] == rest;
      assert out + "-" + "-" == out + "--";
    } else {
      assert s[1..] == rest;
    }
  }

  /** The loops. */
  method MakeSlug(tool: string) returns (out: string)
    ensures out == Slug(tool)
  {
    out := "";
    if tool == "" {
      return;
    }
    if !(Lower(tool[0]) || Upper(tool[0]) || Digit(tool[0])) {
      out := "tool-";
    }
    var p := 0;
    assert tool[0..] == tool;
    while p < |tool| && |out| + 1 < NAME_MAX
      invariant 0 <= p <= |tool|
      invariant Fill(out, tool[p..]) == Fill(Prefix(tool), tool)
    {
      assert tool[p..][0] == tool[p] && tool[p..][1..] == tool[p + 1..];
      var c := tool[p];
      if Lower(c) || Digit(c) {
        out := out + [c];
      } else if Upper(c) {
        out := out + [(c as int + 32) as char];
      } else if c == '_' || c == '-' || c == '.' {
        out := out + ['-'];
      } else if out != [] && out[|out| - 1] != '-' {
        out := out + ['-'];
      }
      p := p + 1;
    }
    ghost var filled := out;
    while out != [] && out[|out| - 1] == '-'
      invariant DropDashes(out) == DropDashes(filled)
    {
      out := out[..|out| - 1];
    }
  }
}
