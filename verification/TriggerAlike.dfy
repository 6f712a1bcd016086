/** Which entry lines of a triggers block the Go and the C matcher read alike, for
    every tool and subject, and why the others are not
    (server-go/modules/skills/skills.go:49-162,
    src/modules/skills/skill_trigger_policy.c). */
module TriggerAlike {
  import opened Bytes
  import opened Wrappers
  import opened Search
  import opened TriggerText
  import opened TriggerMargins
  import TriggerGo

  // ----------------------------------------------------- what trimming keeps

  /** `w[a..b]`, with nothing but blanks around it. */
  ghost predicate Core(w: Bytes, a: nat, b: nat) {
    && a <= b <= |w|
    && (forall i :: 0 <= i < a ==> Blank(w[i])) && (forall i :: b <= i < |w| ==> Blank(w[i]))
  }

  /** C's value is such a core, and what follows a byte that is not blank is trimmed
      by itself. */
  lemma CoreInC(w: Bytes) returns (a: nat, b: nat)
    ensures Core(w, a, b) && Trim(C, w) == w[a..b]
    ensures forall o :: 0 <= o < |w| && !Blank(w[o]) ==> a <= o < b && w[o + 1..b] == TrimRight(w[o + 1..])
  {
    hide TrimLeft, TrimRight;
    var u, t := TrimLeft(w), Trim(C, w);
    TrimLeftIs(w);
    TrimRightIs(u);
    a := |w| - |u|;
    b := a + |t|;
    assert Core(w, a, b) by {
      assert forall i :: |t| <= i < |u| ==> w[a + i] == u[i];
    }
    forall o | 0 <= o < |w| && !Blank(w[o]) ensures a <= o < b && w[o + 1..b] == TrimRight(w[o + 1..]) {
      TrimRightPast(u, o + 1 - a);
      assert u[o + 1 - a..] == w[o + 1..];
      assert t[o + 1 - a..] == w[o + 1..b];
    }
  }

  /** So is Go's. */
  lemma CoreInGo(w: Bytes) returns (a: nat, b: nat)
    ensures Core(w, a, b) && Trim(Go, TrimUnicodeRight(w)) == w[a..b]
    ensures forall o :: 0 <= o < |w| && !Blank(w[o]) ==> a <= o < b && w[o + 1..b] == TrimUnicodeRight(w[o + 1..])
  {
    hide TrimUnicodeLeft, TrimUnicodeRight;
    a, b := GoEnds(w);
    forall o | 0 <= o < |w| && !Blank(w[o]) ensures a <= o < b && w[o + 1..b] == TrimUnicodeRight(w[o + 1..]) {
      GoAfter(w, a, b, o);
    }
  }

  lemma GoEnds(w: Bytes) returns (a: nat, b: nat)
    ensures Core(w, a, b) && Trim(Go, TrimUnicodeRight(w)) == w[a..b]
    ensures a <= |TrimUnicodeRight(w)| && TrimUnicodeLeft(TrimUnicodeRight(w)) == TrimUnicodeRight(w)[a..]
  {
    hide TrimUnicodeLeft, TrimUnicodeRight;
    var x := TrimUnicodeRight(w);
    var y := TrimUnicodeLeft(x);
    var z := TrimUnicodeRight(y);
    UnicodeRightIs(w);
    UnicodeLeftIs(x);
    UnicodeRightIs(y);
    a := |x| - |y|;
    b := a + |z|;
    forall i | b <= i < |w| ensures Blank(w[i]) {
      assert i < |x| ==> y[i - a] == w[i];
    }
    assert z == w[a..b];
  }

  lemma GoAfter(w: Bytes, a: nat, b: nat, o: nat)
    requires Core(w, a, b) && Trim(Go, TrimUnicodeRight(w)) == w[a..b]
    requires a <= |TrimUnicodeRight(w)| && TrimUnicodeLeft(TrimUnicodeRight(w)) == TrimUnicodeRight(w)[a..]
    requires o < |w| && !Blank(w[o])
    ensures a <= o < b && w[o + 1..b] == TrimUnicodeRight(w[o + 1..])
  {
    hide TrimUnicodeLeft, TrimUnicodeRight;
    var x := TrimUnicodeRight(w);
    UnicodeRightIs(w);
    UnicodeRightPast(w, o + 1);
    UnicodeRightPast(x[a..], o + 1 - a);
    UnicodeRightIs(w[o + 1..]);
    assert x[a..][o + 1 - a..] == x[o + 1..];
    assert w[a..b][o + 1 - a..] == w[o + 1..b];
  }

  // ----------------------------------------------------------------- tokens

  /** Blanks around a value do not matter for its tokens. */
  lemma SameTokens(w: Bytes, a: nat, b: nat, needle: Bytes)
    requires Core(w, a, b)
    ensures HasToken(w[a..b], needle) <==> HasToken(w, needle)
  {
    var v := w[a..b];
    if HasToken(v, needle) {
      var i: nat, j: nat :| TokenRun(v, i, j) && v[i..j] == needle;
      RunInCore(w, a, b, i, j);
    }
    if HasToken(w, needle) {
      var i: nat, j: nat :| TokenRun(w, i, j) && w[i..j] == needle;
      RunIsInCore(w, a, b, i, j);
      RunInCore(w, a, b, i - a, j - a);
    }
    hide TokenRun, Core;
  }

  lemma RunIsInCore(w: Bytes, a: nat, b: nat, i: nat, j: nat)
    requires Core(w, a, b) && TokenRun(w, i, j)
    ensures a <= i < j <= b
  {
    assert IsToken(w[i]) && IsToken(w[j - 1]);
  }

  lemma RunInCore(w: Bytes, a: nat, b: nat, i: nat, j: nat)
    requires Core(w, a, b) && j <= b - a
    ensures TokenRun(w[a..b], i, j) <==> TokenRun(w, a + i, a + j)
    ensures i <= j ==> w[a..b][i..j] == w[a + i..a + j]
  {
    var v := w[a..b];
    assert forall k :: 0 <= k < b - a ==> v[k] == w[a + k];
  }

  // ----------------------------------------------------------------- quotes

  /** Where the quote stands that is never closed; the end if there is none. */
  function OpenEnd(value: Bytes, from: nat): (r: nat)
    requires from <= |value|
    ensures from <= r <= |value| && (r < |value| ==> IsQuote(value[r]))
    decreases |value| - from
  {
    var open := QuoteAt(value, from);
    if open == |value| then |value|
    else
      var close := CloseAt(value, open + 1, value[open]);
      if close == |value| then open else OpenEnd(value, close + 1)
  }

  /** One quoted text, and the rest. */
  lemma OneQuoted(value: Bytes, from: nat, open: nat, close: nat)
    requires from <= |value| && QuoteAt(value, from) == open < |value|
    requires CloseAt(value, open + 1, value[open]) == close
    ensures open < close <= |value|
    ensures Quoted(value, from) == [value[open + 1..close]] + (if close < |value| then Quoted(value, close + 1) else [])
    ensures OpenEnd(value, from) == if close < |value| then OpenEnd(value, close + 1) else open
  {
  }

  lemma NoneQuoted(value: Bytes, from: nat)
    requires from <= |value| && QuoteAt(value, from) == |value|
    ensures Quoted(value, from) == [] && OpenEnd(value, from) == |value|
  {
  }

  /** The text after the quote that is never closed is the last quoted one. */
  lemma {:induction false} QuotedEnd(value: Bytes, from: nat)
    requires from <= |value|
    ensures var o := OpenEnd(value, from);
            o < |value| ==> Quoted(value, from) == Quoted(value[..o], from) + [value[o + 1..]]
    decreases |value| - from
  {
    hide Quoted, OpenEnd, QuoteAt, CloseAt;
    var open, o := QuoteAt(value, from), OpenEnd(value, from);
    if open == |value| {
      NoneQuoted(value, from);
    } else {
      var close := CloseAt(value, open + 1, value[open]);
      OneQuoted(value, from, open, close);
      if close == |value| {
        QuoteIs(value[..o], from, o);
        NoneQuoted(value[..o], from);
        assert value[o + 1..close] == value[o + 1..];
      } else if o < |value| {
        QuotedEnd(value, close + 1);
        SameOpening(value, from, open, close, o);
        Joined(value[open + 1..close], Quoted(value, close + 1), Quoted(value[..o], close + 1), value[o + 1..]);
      }
    }
  }

  lemma Joined(first: Bytes, rest: seq<Bytes>, middle: seq<Bytes>, last: Bytes)
    requires rest == middle + [last]
    ensures [first] + rest == [first] + middle + [last]
  {
  }

  /** Both quotes are still there in a head that holds them. */
  lemma SameOpening(value: Bytes, from: nat, open: nat, close: nat, b: nat)
    requires from <= |value| && QuoteAt(value, from) == open < |value|
    requires CloseAt(value, open + 1, value[open]) == close < b <= |value|
    ensures var head := value[..b];
            && Quoted(head, from) == [value[open + 1..close]] + Quoted(head, close + 1)
            && OpenEnd(head, from) == OpenEnd(head, close + 1)
  {
    hide Quoted, OpenEnd, QuoteAt, CloseAt;
    var head := value[..b];
    QuoteIs(head, from, open);
    CloseIs(head, open + 1, value[open], close);
    OneQuoted(head, from, open, close);
    assert head[open + 1..close] == value[open + 1..close];
  }

  /** Cutting off an end without quotes shortens at most the last quoted text. */
  lemma {:induction false} QuotedHead(value: Bytes, from: nat, b: nat)
    requires from <= b <= |value| && forall i :: b <= i < |value| ==> !IsQuote(value[i])
    ensures var o := OpenEnd(value, from);
            && (o == |value| ==> Quoted(value[..b], from) == Quoted(value, from))
            && (o < |value| ==> o < b && OpenEnd(value[..b], from) == o)
    decreases |value| - from
  {
    hide Quoted, OpenEnd, QuoteAt, CloseAt;
    var open, head := QuoteAt(value, from), value[..b];
    if open == |value| {
      QuoteIs(head, from, b);
      NoneQuoted(value, from);
      NoneQuoted(head, from);
    } else {
      var close := CloseAt(value, open + 1, value[open]);
      OneQuoted(value, from, open, close);
      if close == |value| {
        QuoteIs(head, from, open);
        CloseIs(head, open + 1, value[open], b);
        OneQuoted(head, from, open, b);
      } else {
        assert IsQuote(value[close]);
        SameOpening(value, from, open, close, b);
        QuotedHead(value, close + 1, b);
      }
    }
  }

  /** A beginning without quotes does not matter. */
  lemma {:induction false} QuotedTail(value: Bytes, a: nat, from: nat)
    requires a + from <= |value|
    ensures Quoted(value[a..], from) == Quoted(value, a + from)
    decreases |value| - from
  {
    hide Quoted, OpenEnd, QuoteAt, CloseAt;
    var tail, open := value[a..], QuoteAt(value, a + from);
    QuoteIs(tail, from, open - a);
    if open == |value| {
      NoneQuoted(value, a + from);
      NoneQuoted(tail, from);
    } else {
      var close := CloseAt(value, open + 1, value[open]);
      CloseIs(tail, open - a + 1, value[open], close - a);
      OneQuoted(value, a + from, open, close);
      OneQuoted(tail, from, open - a, close - a);
      assert tail[open - a + 1..close - a] == value[open + 1..close];
      if close < |value| {
        QuotedTail(value, a, close + 1 - a);
      }
    }
  }

  lemma NoQuoteBefore(value: Bytes, a: nat)
    requires a <= |value| && forall i :: 0 <= i < a ==> !IsQuote(value[i])
    ensures Quoted(value, 0) == Quoted(value, a)
  {
    QuoteIs(value, 0, QuoteAt(value, a));
  }

  /** The quoted texts of `w[..b]`: as in `w`, but for the end of one never closed. */
  function QuotedUpTo(w: Bytes, b: nat): seq<Bytes>
    requires b <= |w|
  {
    var o := OpenEnd(w, 0);
    if o < b then Quoted(w[..o], 0) + [w[o + 1..b]] else Quoted(w, 0)
  }

  lemma CoreQuotes(w: Bytes, a: nat, b: nat)
    requires Core(w, a, b)
    ensures Quoted(w[a..b], 0) == QuotedUpTo(w, b)
  {
    hide Quoted, OpenEnd;
    var h, o := w[..b], OpenEnd(w, 0);
    assert h[a..] == w[a..b];
    QuotedTail(h, a, 0);
    NoQuoteBefore(h, a);
    QuotedHead(w, 0, b);
    if o < |w| {
      QuotedEnd(h, 0);
      assert h[..o] == w[..o] && h[o + 1..] == w[o + 1..b];
    }
  }

  // --------------------------------------------------------------- patterns

  /** A pattern line's text gives both the same patterns, as far as any subject can
      tell: all quotes are closed, or trimming the last text in C's way and in Go's
      leaves the same first 127 bytes, or an earlier pattern is found wherever the
      one of those that can be found is. */
  ghost predicate SamePatterns(w: Bytes) {
    var o := OpenEnd(w, 0);
    o < |w| ==>
      var inC, inGo := TrimRight(w[o + 1..]), TrimUnicodeRight(w[o + 1..]);
      Interchangeable(Quoted(w[..o], 0), inC, inGo)
  }

  ghost predicate Interchangeable(earlier: seq<Bytes>, inC: Bytes, inGo: Bytes) {
    || Capped(inC) == Capped(inGo)
    || Covered(earlier, if inGo == [] then inC else inGo)
  }

  /** Some pattern is found wherever `text` is. */
  ghost predicate Covered(patterns: seq<Bytes>, text: Bytes) {
    exists i :: 0 <= i < |patterns| && patterns[i] != [] && Occurs(Capped(text), Capped(patterns[i]))
  }

  lemma OccursIn(s: Bytes, t: Bytes, e: Bytes)
    requires Occurs(s, t) && Occurs(t, e)
    ensures Occurs(s, e)
  {
    var i: nat :| MatchAt(s, t, i);
    var j: nat :| MatchAt(t, e, j);
    SliceOfSlice(s, i, i + |t|, j, j + |e|);
    assert MatchAt(s, e, i + j);
  }

  lemma PrefixOccurs(t: Bytes, e: Bytes)
    requires e <= t
    ensures Occurs(t, e)
  {
    assert MatchAt(t, e, 0);
  }

  lemma LongerIsNotIn(s: Bytes, t: Bytes)
    requires s <= t && s != t
    ensures !Occurs(s, t)
  {
  }

  lemma CoveredHits(patterns: seq<Bytes>, text: Bytes, subject: Bytes)
    requires Covered(patterns, text)
    ensures Given(patterns) && text != []
    ensures Occurs(subject, Capped(text)) ==> Hits(patterns, subject)
  {
    var i :| 0 <= i < |patterns| && patterns[i] != [] && Occurs(Capped(text), Capped(patterns[i]));
    if Occurs(subject, Capped(text)) {
      OccursIn(subject, Capped(text), Capped(patterns[i]));
    }
  }

  /** What the last text counts for is the same in both. */
  lemma SameHits(earlier: seq<Bytes>, inC: Bytes, inGo: Bytes, subject: Bytes)
    requires Interchangeable(earlier, inC, inGo) && inGo <= inC
    ensures Hits(earlier + [inC], subject) <==> Hits(earlier + [inGo], subject)
    ensures Given(earlier + [inC]) <==> Given(earlier + [inGo])
  {
    TriggerGo.OneMorePattern(earlier, inC, subject);
    TriggerGo.OneMorePattern(earlier, inGo, subject);
    if Capped(inC) != Capped(inGo) {
      CoveredHits(earlier, if inGo == [] then inC else inGo, subject);
      PrefixOccurs(Capped(inC), Capped(inGo));
      if Occurs(subject, Capped(inC)) {
        OccursIn(subject, Capped(inC), Capped(inGo));
      }
    }
    hide Hits, Given, Occurs;
  }

  /** And if it is not, a subject tells them apart. */
  lemma OtherHits(earlier: seq<Bytes>, inC: Bytes, inGo: Bytes)
    requires !Interchangeable(earlier, inC, inGo) && inGo <= inC
    ensures inC != []
    ensures inGo != [] ==> Hits(earlier + [inGo], Capped(inGo)) && !Hits(earlier + [inC], Capped(inGo))
    ensures inGo == [] ==> Hits(earlier + [inC], Capped(inC)) && !Hits(earlier + [inGo], Capped(inC))
  {
    var subject := Capped(if inGo == [] then inC else inGo);
    PrefixOccurs(subject, subject);
    TriggerGo.OneMorePattern(earlier, inC, subject);
    TriggerGo.OneMorePattern(earlier, inGo, subject);
    assert !Hits(earlier, subject);
    LongerIsNotIn(Capped(inGo), Capped(inC));
    hide Hits, Given, Occurs;
  }

  lemma BlankIsNoToken(v: Bytes, needle: Bytes)
    requires needle == [] || Blank(needle[0])
    ensures !HasToken(v, needle)
  {
    forall i: nat, j: nat | TokenRun(v, i, j) ensures v[i..j] != needle {
      assert IsToken(v[i]) && v[i..j][0] == v[i];
    }
  }

  /** The texts of one key under both rules: any subject is treated alike exactly if
      `SamePatterns` says so. */
  lemma PatternsAlike(w: Bytes, subject: Bytes)
    requires SamePatterns(w)
    ensures PatternsMatch(Trim(C, w), subject) == PatternsMatch(Trim(Go, TrimUnicodeRight(w)), subject)
  {
    hide Quoted, HasToken, Hits, Given, OpenEnd, TrimRight, TrimUnicodeRight, Trim, QuotedUpTo, SamePatterns;
    var a, b := CoreInC(w);
    var c, d := CoreInGo(w);
    CoreQuotes(w, a, b);
    CoreQuotes(w, c, d);
    SameTokens(w, a, b, subject);
    SameTokens(w, c, d, subject);
    SameUpTo(w, b, d, subject);
  }

  lemma SameUpTo(w: Bytes, b: nat, d: nat, subject: Bytes)
    requires SamePatterns(w) && b <= |w| && d <= |w|
    requires var o := OpenEnd(w, 0);
             o < |w| ==> o < b && o < d && w[o + 1..b] == TrimRight(w[o + 1..])
                         && w[o + 1..d] == TrimUnicodeRight(w[o + 1..])
    ensures Hits(QuotedUpTo(w, b), subject) <==> Hits(QuotedUpTo(w, d), subject)
    ensures Given(QuotedUpTo(w, b)) <==> Given(QuotedUpTo(w, d))
  {
    hide Quoted, Hits, Given, OpenEnd, TrimRight, TrimUnicodeRight, Interchangeable;
    var o := OpenEnd(w, 0);
    if o < |w| {
      TrimRightShorter(w[o + 1..]);
      SameHits(Quoted(w[..o], 0), w[o + 1..b], w[o + 1..d], subject);
    }
  }

  lemma TrimRightShorter(s: Bytes)
    ensures TrimUnicodeRight(s) <= TrimRight(s)
  {
    UnicodeRightFrom(s);
    UnicodeRightIs(s);
    TrimRightIs(s);
  }

  /** The subject to ask about: the last text as Go has it, or as C has it if Go has
      nothing. */
  function Telling(w: Bytes): Bytes
    requires OpenEnd(w, 0) < |w|
  {
    var text := w[OpenEnd(w, 0) + 1..];
    Capped(if TrimUnicodeRight(text) == [] then TrimRight(text) else TrimUnicodeRight(text))
  }

  lemma TellingIsText(w: Bytes)
    requires OpenEnd(w, 0) < |w| && 0 !in w
    ensures 0 !in Telling(w)
  {
    hide OpenEnd, TrimRight, TrimUnicodeRight;
    var text := w[OpenEnd(w, 0) + 1..];
    TrimRightIs(text);
    UnicodeRightIs(text);
    var subject := Telling(w);
    assert forall i :: 0 <= i < |subject| ==> subject[i] == w[OpenEnd(w, 0) + 1 + i];
  }

  lemma PatternsDiffer(w: Bytes) returns (subject: Bytes)
    requires !SamePatterns(w)
    ensures PatternsMatch(Trim(C, w), subject) != PatternsMatch(Trim(Go, TrimUnicodeRight(w)), subject)
    ensures OpenEnd(w, 0) < |w| && subject == Telling(w)
  {
    var a, b := CoreInC(w);
    var c, d := CoreInGo(w);
    CoreQuotes(w, a, b);
    CoreQuotes(w, c, d);
    var o := OpenEnd(w, 0);
    var text, earlier := w[o + 1..], Quoted(w[..o], 0);
    var inC, inGo := TrimRight(text), TrimUnicodeRight(text);
    assert !Blank(w[o]);
    assert w[o + 1..b] == inC && w[o + 1..d] == inGo;
    TrimRightShorter(text);
    OtherHits(earlier, inC, inGo);
    subject := Capped(if inGo == [] then inC else inGo);
    if inGo == [] {
      UnicodeRightIs(text);
      TrimRightIs(text);
      assert subject[0] == inC[0] == text[0];
      BlankIsNoToken(Trim(Go, TrimUnicodeRight(w)), subject);
    }
    TriggerGo.OneMorePattern(earlier, inC, subject);
    TriggerGo.OneMorePattern(earlier, inGo, subject);
    hide Quoted, HasToken, Hits, OpenEnd, TrimRight, TrimUnicodeRight, Trim, Core;
  }

  // ------------------------------------------------------------ entry lines

  /** The text behind a pattern key that `u` begins with. */
  function PatternText(u: Bytes): Option<Bytes> {
    if ArgKey() + [COLON] <= u then Some(u[|ArgKey()| + 1..])
    else if PathKey() + [COLON] <= u then Some(u[|PathKey()| + 1..])
    else None
  }

  predicate Keyed(u: Bytes) {
    ToolKey() + [COLON] <= u || PatternText(u).Some?
  }

  /** A line is read alike: behind a wide white space character, where C sees no key,
      there is none; and if it has a pattern key the patterns are the same. What a
      tool line says is never in doubt. */
  ghost predicate ReadAlike(line: Bytes) {
    var u := TrimLeft(line);
    if WideSpaceHere(u) > 0 then !Keyed(TrimUnicodeLeft(line))
    else PatternText(u).Some? ==> SamePatterns(PatternText(u).value)
  }

  /** The keys are ASCII, and no two of them begin the same line. */
  lemma KeysAre()
    ensures KeyLike(ToolKey()) && KeyLike(ArgKey()) && KeyLike(PathKey())
    ensures ToolKey()[0] == 116 && ArgKey()[0] == 97 && PathKey()[0] == 112
  {
  }

  /** How each reads a key on a line that C does not stop short of. */
  lemma ReadBehind(line: Bytes, key: Bytes)
    requires KeyLike(key) && WideSpaceHere(TrimLeft(line)) == 0
    ensures var u, prefix := TrimLeft(line), key + [COLON];
            if prefix <= u then
              var w := u[|prefix|..];
              && LineValue(C, line, key) == Some(Trim(C, w))
              && LineValue(Go, line, key) == Some(Trim(Go, TrimUnicodeRight(w)))
            else LineValue(C, line, key).None? && LineValue(Go, line, key).None?
  {
    hide TrimLeft, TrimRight, TrimUnicodeLeft, TrimUnicodeRight, WideSpaceHere;
    LeftAgrees(line);
    PrefixOutlives(TrimLeft(line), key + [COLON]);
  }

  /** And on one where it does. */
  lemma ReadBeyond(line: Bytes, key: Bytes)
    requires KeyLike(key) && WideSpaceHere(TrimLeft(line)) > 0
    ensures LineValue(C, line, key).None?
    ensures LineValue(Go, line, key).Some? <==> key + [COLON] <= TrimUnicodeLeft(line)
  {
    hide TrimLeft, TrimRight, TrimUnicodeLeft, TrimUnicodeRight;
    PrefixOutlives(TrimUnicodeLeft(line), key + [COLON]);
    assert (key + [COLON])[0] == key[0] != TrimLeft(line)[0];
  }

  lemma SameTool(w: Bytes, tool: Bytes)
    ensures HasToken(Trim(C, w), tool) == HasToken(Trim(Go, TrimUnicodeRight(w)), tool)
  {
    hide Trim, TrimUnicodeRight, HasToken, TrimRight;
    var a, b := CoreInC(w);
    var c, d := CoreInGo(w);
    SameTokens(w, a, b, tool);
    SameTokens(w, c, d, tool);
  }

  /** The scan after a line that is read alike is the same, whatever went before and
      whatever is asked. */
  lemma AlikeSteps(st: Scan, line: Bytes, tool: Bytes, subject: Bytes)
    requires ReadAlike(line)
    ensures Entry(Go, st, line, tool, subject) == Entry(C, st, line, tool, subject)
  {
    KeysAre();
    hide TrimLeft, TrimUnicodeLeft, WideSpaceHere, LineValue, ToolKey, ArgKey, PathKey, SamePatterns, HasToken,
         PatternsMatch, Trim, TrimUnicodeRight;
    var u := TrimLeft(line);
    if WideSpaceHere(u) > 0 {
      ReadBeyond(line, ToolKey());
      ReadBeyond(line, ArgKey());
      ReadBeyond(line, PathKey());
    } else {
      ReadBehind(line, ToolKey());
      ReadBehind(line, ArgKey());
      ReadBehind(line, PathKey());
      if ToolKey() + [COLON] <= u {
        SameTool(u[|ToolKey()| + 1..], tool);
      } else if PatternText(u).Some? {
        PatternsAlike(PatternText(u).value, subject);
      }
    }
  }

  /** An open block in which nothing has been read. */
  const OPENED: Scan := NO_LINES.(inTriggers := true, sawTriggers := true)

  /** Any other line is decided differently for some tool and subject, even alone in
      its block. */
  lemma OthersDiffer(line: Bytes) returns (tool: Bytes, subject: Bytes)
    requires !ReadAlike(line)
    ensures tool != []
    ensures Decision(Entry(Go, OPENED, line, tool, subject)) != Decision(Entry(C, OPENED, line, tool, subject))
    ensures 0 !in line ==> 0 !in tool && 0 !in subject
  {
    hide Decision, Entry, Keyed, PatternText, SamePatterns, TrimLeft, TrimUnicodeLeft, WideSpaceHere;
    if WideSpaceHere(TrimLeft(line)) > 0 {
      tool := OnlyGoReads(line);
      subject := [];
    } else {
      tool := [97];
      subject := ReadApart(line);
    }
  }

  /** Behind a wide white space character Go reads a key that C does not. */
  lemma OnlyGoReads(line: Bytes) returns (tool: Bytes)
    requires WideSpaceHere(TrimLeft(line)) > 0 && Keyed(TrimUnicodeLeft(line))
    ensures tool != [] && 0 !in tool
    ensures Decision(Entry(Go, OPENED, line, tool, [])) != Decision(Entry(C, OPENED, line, tool, []))
  {
    KeysAre();
    hide TrimLeft, TrimUnicodeLeft, WideSpaceHere, LineValue, ToolKey, ArgKey, PathKey, HasToken, PatternsMatch;
    ghost var inGo := LineValue(Go, line, ToolKey());
    ReadBeyond(line, ToolKey());
    ReadBeyond(line, ArgKey());
    ReadBeyond(line, PathKey());
    tool := UnknownTool(if inGo.Some? then inGo.value else []);
    forall v ensures !PatternsMatch(v, []) {
      NoEmptySubject(v);
    }
  }

  /** Patterns that are not the same are told apart by a subject. */
  lemma ReadApart(line: Bytes) returns (subject: Bytes)
    requires var u := TrimLeft(line);
             WideSpaceHere(u) == 0 && PatternText(u).Some? && !SamePatterns(PatternText(u).value)
    ensures Decision(Entry(Go, OPENED, line, [97], subject)) != Decision(Entry(C, OPENED, line, [97], subject))
    ensures 0 !in line ==> 0 !in subject
  {
    KeysAre();
    hide TrimLeft, TrimUnicodeLeft, WideSpaceHere, LineValue, ToolKey, ArgKey, PathKey, SamePatterns, HasToken,
         PatternsMatch, Trim, TrimUnicodeRight;
    var u := TrimLeft(line);
    ReadBehind(line, ToolKey());
    ReadBehind(line, ArgKey());
    ReadBehind(line, PathKey());
    FirstOf(ToolKey(), u);
    FirstOf(ArgKey(), u);
    FirstOf(PathKey(), u);
    subject := PatternsDiffer(PatternText(u).value);
    if 0 !in line {
      TrimLeftIs(line);
      TellingIsText(PatternText(u).value);
    }
  }

  lemma FirstOf(key: Bytes, u: Bytes)
    requires key != []
    ensures key + [COLON] <= u ==> u[0] == key[0]
  {
    assert (key + [COLON])[0] == key[0];
  }

  /** A tool the value does not name. */
  lemma UnknownTool(value: Bytes) returns (tool: Bytes)
    ensures tool != [] && 0 !in tool && !HasToken(value, tool)
  {
    tool := seq(|value| + 1, i => 97);
    forall i: nat, j: nat | TokenRun(value, i, j) ensures value[i..j] != tool {
      assert |value[i..j]| < |tool|;
    }
  }

  /** No pattern stands in the empty subject. */
  lemma NoEmptySubject(value: Bytes)
    ensures !PatternsMatch(value, [])
  {
    BlankIsNoToken(value, []);
    hide Quoted, HasToken;
  }
}
