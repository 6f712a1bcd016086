/** What trimming takes off a line under Go's rules and under C's, and exactly where
    that changes what a key is given (server-go/modules/skills/skills.go:106-113,
    src/modules/skills/skill_trigger_policy.c). */
module TriggerMargins {
  import opened Bytes
  import opened Wrappers
  import opened Search
  import opened TriggerText

  // --------------------------------------------------------------- trimming

  /** Without a wide space at the front, both trim the same from the left. */
  lemma {:induction false} LeftAgrees(s: Bytes)
    requires WideSpaceHere(TrimLeft(s)) == 0
    ensures TrimUnicodeLeft(s) == TrimLeft(s)
  {
    hide WideSpaceHere;
    if s != [] && IsSpace(s[0]) {
      LeftAgrees(s[1..]);
    }
  }

  lemma {:induction false} RightAgrees(s: Bytes)
    requires WideSpaceLast(TrimRight(s)) == 0
    ensures TrimUnicodeRight(s) == TrimRight(s)
  {
    hide WideSpaceLast;
    if s != [] && IsSpace(s[|s| - 1]) {
      RightAgrees(s[..|s| - 1]);
    }
  }

  // ------------------------------------------------- trimming before the key

  lemma {:induction false} TrimRightIs(s: Bytes)
    ensures TrimRight(s) == s[..|TrimRight(s)|]
    ensures TrimRight(s) != [] ==> !IsSpace(s[|TrimRight(s)| - 1])
    ensures forall i :: |TrimRight(s)| <= i < |s| ==> IsSpace(s[i])
  {
    if s != [] && IsSpace(s[|s| - 1]) {
      TrimRightIs(s[..|s| - 1]);
    }
  }

  lemma {:induction false} TrimLeftIs(s: Bytes)
    ensures TrimLeft(s) == s[|s| - |TrimLeft(s)|..]
    ensures TrimLeft(s) != [] ==> !IsSpace(TrimLeft(s)[0])
    ensures forall i :: 0 <= i < |s| - |TrimLeft(s)| ==> IsSpace(s[i])
  {
    if s != [] && IsSpace(s[0]) {
      TrimLeftIs(s[1..]);
    }
  }

  /** Trimming the right end first changes nothing in front of a byte that is not
      white space, and trims what follows it. */
  lemma {:induction false} TrimRightPast(s: Bytes, n: nat)
    requires 0 < n <= |s| && !IsSpace(s[n - 1])
    ensures n <= |TrimRight(s)| && TrimRight(s)[..n] == s[..n]
    ensures TrimRight(s)[n..] == TrimRight(s[n..])
    decreases |s|
  {
    if IsSpace(s[|s| - 1]) {
      var t := s[..|s| - 1];
      TrimRightPast(t, n);
      assert t[n..] == s[n..][..|s| - n - 1];
    }
  }

  // ------------------------------------------------- exactly where they differ

  lemma {:induction false} UnicodeLeftFrom(s: Bytes)
    ensures TrimUnicodeLeft(s) == TrimUnicodeLeft(TrimLeft(s))
    decreases |s|
  {
    hide WideSpaceHere;
    if s != [] && IsSpace(s[0]) {
      UnicodeLeftFrom(s[1..]);
    }
  }

  /** A byte that some trimming can take off; none of them is a quote, a colon or
      part of a token. */
  predicate Blank(b: byte) {
    IsSpace(b) || b >= 0x80
  }

  lemma {:induction false} UnicodeLeftIs(s: Bytes)
    ensures TrimUnicodeLeft(s) == s[|s| - |TrimUnicodeLeft(s)|..]
    ensures forall i :: 0 <= i < |s| - |TrimUnicodeLeft(s)| ==> Blank(s[i])
    decreases |s|
  {
    var n, r := SpaceHere(s), TrimUnicodeLeft(s);
    WideHereIsBlank(s);
    hide WideSpaceHere;
    if n > 0 {
      UnicodeLeftIs(s[n..]);
      assert s[n..][|s| - n - |r|..] == s[|s| - |r|..];
      forall i | 0 <= i < |s| - |r| ensures Blank(s[i]) {
        assert i >= n ==> s[n..][i - n] == s[i];
      }
    }
  }

  lemma WideHereIsBlank(s: Bytes)
    ensures forall i :: 0 <= i < SpaceHere(s) ==> Blank(s[i])
  {
  }

  lemma {:induction false} UnicodeRightFrom(s: Bytes)
    ensures TrimUnicodeRight(s) == TrimUnicodeRight(TrimRight(s))
    ensures |TrimUnicodeRight(s)| <= |TrimRight(s)|
    decreases |s|
  {
    hide WideSpaceLast;
    if s != [] && IsSpace(s[|s| - 1]) {
      UnicodeRightFrom(s[..|s| - 1]);
    }
  }

  /** Trimming a tail from the right removes at least as much. */
  lemma TrimRightOfTail(s: Bytes, n: nat)
    requires n <= |s|
    ensures |TrimRight(s[n..])| == 0 || |TrimRight(s[n..])| + n <= |TrimRight(s)|
  {
    hide TrimRight;
    TrimRightIs(s);
    TrimRightIs(s[n..]);
    if TrimRight(s[n..]) != [] {
      assert s[n..][|TrimRight(s[n..])| - 1] == s[n + |TrimRight(s[n..])| - 1];
    }
  }

  /** A wide space at the front survives trimming the right end, so it can be seen
      either before or after. */
  lemma FrontSurvives(u: Bytes)
    ensures WideSpaceHere(TrimRight(u)) > 0 <==> WideSpaceHere(u) > 0
  {
    TrimRightIs(u);
    var n := WideSpaceHere(u);
    if n > 0 {
      TrimRightPast(u, n);
    }
    hide TrimRight;
  }

  /** The two ways to trim give the same result exactly when what ASCII trimming
      leaves neither begins nor ends with a wider white space character. */
  lemma TrimsAgreeExactly(s: Bytes)
    ensures Trim(Go, s) == Trim(C, s) <==>
              WideSpaceHere(Trim(C, s)) == 0 && WideSpaceLast(Trim(C, s)) == 0
  {
    hide TrimLeft, TrimRight, WideSpaceHere, WideSpaceLast, TrimUnicodeLeft, TrimUnicodeRight;
    var u, t := TrimLeft(s), Trim(C, s);
    FrontSurvives(u);
    if WideSpaceHere(t) > 0 {
      WideFrontIsCut(s);
    } else {
      LeftAgrees(s);
      if WideSpaceLast(t) > 0 {
        WideBackIsCut(u);
      } else {
        RightAgrees(u);
      }
    }
  }

  lemma WideFrontIsCut(s: Bytes)
    requires WideSpaceHere(TrimLeft(s)) > 0 && TrimRight(TrimLeft(s)) != []
    ensures |Trim(Go, s)| < |Trim(C, s)|
  {
    hide TrimLeft, TrimRight, TrimUnicodeRight;
    var u := TrimLeft(s);
    TrimLeftIs(s);
    var v := TrimUnicodeLeft(u);
    UnicodeLeftFrom(s);
    UnicodeLeftIs(u);
    assert |v| < |u|;
    UnicodeRightFrom(v);
    TrimRightOfTail(u, |u| - |v|);
  }

  lemma WideBackIsCut(u: Bytes)
    requires WideSpaceLast(TrimRight(u)) > 0
    ensures |TrimUnicodeRight(u)| < |TrimRight(u)|
  {
    hide TrimRight, WideSpaceLast;
    UnicodeRightFrom(u);
    TrimRightIs(u);
  }

  lemma {:induction false} TrimRightTwice(s: Bytes)
    ensures TrimRight(TrimRight(s)) == TrimRight(s)
  {
    if s != [] && IsSpace(s[|s| - 1]) {
      TrimRightTwice(s[..|s| - 1]);
    }
  }

  /** The two ends of C's trimming can be taken in either order. */
  lemma {:induction false} TrimRightFirst(s: Bytes)
    ensures Trim(C, TrimRight(s)) == Trim(C, s)
    decreases |s|
  {
    if s != [] && IsSpace(s[0]) {
      TrimRightFirst(s[1..]);
      LeadingSpace(s);
    } else if s != [] {
      TrimRightPast(s, 1);
      TrimRightTwice(s);
      assert TrimRight(s)[0] == s[0];
    }
  }

  lemma {:induction false} LeadingSpace(s: Bytes)
    requires s != [] && IsSpace(s[0])
    ensures TrimLeft(TrimRight(s)) == TrimLeft(TrimRight(s[1..]))
    decreases |s|
  {
    if IsSpace(s[|s| - 1]) {
      var t := s[..|s| - 1];
      if |s| > 1 {
        assert t[1..] == s[1..][..|s| - 2];
        LeadingSpace(t);
      }
    } else {
      assert TrimRight(s) == s && TrimRight(s[1..]) == s[1..];
    }
  }

  // ----------------------------------------------------- the value of a key

  lemma {:induction false} UnicodeRightIs(s: Bytes)
    ensures TrimUnicodeRight(s) == s[..|TrimUnicodeRight(s)|]
    ensures forall i :: |TrimUnicodeRight(s)| <= i < |s| ==> Blank(s[i])
    ensures SpaceLast(TrimUnicodeRight(s)) == 0 && TrimUnicodeRight(TrimUnicodeRight(s)) == TrimUnicodeRight(s)
    decreases |s|
  {
    var n, r := SpaceLast(s), TrimUnicodeRight(s);
    WideLastIsBlank(s);
    hide WideSpaceLast;
    if n > 0 {
      UnicodeRightIs(s[..|s| - n]);
    }
  }

  lemma WideLastIsBlank(s: Bytes)
    ensures forall i :: |s| - SpaceLast(s) <= i < |s| ==> Blank(s[i])
  {
  }

  lemma LastOfTail(s: Bytes, n: nat)
    requires 0 < n <= |s| && !Blank(s[n - 1])
    ensures SpaceLast(s[n..]) == SpaceLast(s) <= |s| - n
  {
  }

  /** As `TrimRightPast`, for Go. */
  lemma {:induction false} UnicodeRightPast(s: Bytes, n: nat)
    requires 0 < n <= |s| && !Blank(s[n - 1])
    ensures n <= |TrimUnicodeRight(s)| && TrimUnicodeRight(s)[..n] == s[..n]
    ensures TrimUnicodeRight(s)[n..] == TrimUnicodeRight(s[n..])
    decreases |s|
  {
    LastOfTail(s, n);
    hide SpaceLast;
    var k := SpaceLast(s);
    if k > 0 {
      var t := s[..|s| - k];
      UnicodeRightPast(t, n);
      assert t[n..] == s[n..][..|s| - n - k];
    }
  }

  /** A prefix that ends with something else than white space outlives trimming the
      right end. */
  lemma PrefixOutlives(s: Bytes, prefix: Bytes)
    requires prefix != [] && !Blank(prefix[|prefix| - 1])
    ensures prefix <= TrimUnicodeRight(s) <==> prefix <= s
    ensures prefix <= s ==> TrimUnicodeRight(s)[|prefix|..] == TrimUnicodeRight(s[|prefix|..])
  {
    UnicodeRightIs(s);
    if prefix <= s {
      UnicodeRightPast(s, |prefix|);
      assert prefix == s[..|prefix|];
    }
    hide TrimUnicodeRight;
  }

  /** What Go gives a key has been trimmed on the right twice, once with the line;
      still it is what C gives it exactly when that has no wide margin. */
  lemma ValueAgreesExactly(w: Bytes)
    ensures Trim(Go, TrimUnicodeRight(w)) == Trim(C, w) <==>
              WideSpaceHere(Trim(C, w)) == 0 && WideSpaceLast(Trim(C, w)) == 0
  {
    hide TrimLeft, TrimRight, WideSpaceHere, WideSpaceLast, TrimUnicodeLeft, TrimUnicodeRight;
    var r := TrimRight(w);
    TrimRightFirst(w);
    TrimRightTwice(w);
    UnicodeRightFrom(w);
    if WideSpaceLast(r) == 0 {
      RightAgrees(r);
      TrimsAgreeExactly(r);
    } else {
      WideBackShows(r);
      WideBackIsCut(r);
      UnicodeRightIs(r);
      ShorterHead(r, TrimUnicodeRight(r));
    }
  }

  /** A wide space at the end is still there once the left end is trimmed. */
  lemma WideBackShows(r: Bytes)
    requires WideSpaceLast(r) > 0 && TrimRight(r) == r
    ensures WideSpaceLast(Trim(C, r)) > 0 && Trim(C, r) == TrimLeft(r)
  {
    TrimLeftIs(r);
    var n, t := WideSpaceLast(r), TrimLeft(r);
    assert r[|r| - n] >= 0x80 && r[|r| - 1] >= 0x80;
    assert |t| >= n;
    WideLastOfTail(r, |r| - |t|);
    assert t[|t| - 1] == r[|r| - 1];
    assert TrimRight(t) == t;
  }

  lemma WideLastOfTail(r: Bytes, k: nat)
    requires 0 < WideSpaceLast(r) <= |r| - k
    ensures WideSpaceLast(r[k..]) > 0
  {
  }

  lemma ShorterHead(r: Bytes, x: Bytes)
    requires |x| < |r| && x == r[..|x|] && TrimLeft(r) != []
    ensures |Trim(Go, x)| < |TrimLeft(r)|
  {
    hide TrimLeft, TrimUnicodeLeft, TrimUnicodeRight;
    UnicodeLeftFrom(x);
    TrimLeftIs(x);
    TrimLeftIs(r);
    var k := |r| - |TrimLeft(r)|;
    if TrimLeft(x) != [] {
      assert x[|x| - |TrimLeft(x)|] == TrimLeft(x)[0];
    }
  }

  /** Key names are ASCII and do not begin with white space. */
  predicate KeyLike(key: Bytes) {
    key != [] && !Blank(key[0])
  }

  /** Neither margin of the line keeps a key's value from being read the same. */
  predicate SameMargins(line: Bytes, key: Bytes) {
    var u, prefix := TrimLeft(line), key + [COLON];
    if WideSpaceHere(u) > 0 then !(prefix <= TrimUnicodeLeft(line))
    else prefix <= u ==>
      var v := Trim(C, u[|prefix|..]);
      WideSpaceHere(v) == 0 && WideSpaceLast(v) == 0
  }

  /** Both dialects give a key the same value, or none, exactly when the line does
      not show Go a key behind a wide white space character that C stops at, and the
      value C gives neither begins nor ends with one. */
  lemma LineValueAgreesExactly(line: Bytes, key: Bytes)
    requires KeyLike(key)
    ensures LineValue(Go, line, key) == LineValue(C, line, key) <==> SameMargins(line, key)
  {
    hide TrimLeft, TrimRight, TrimUnicodeLeft, TrimUnicodeRight;
    var u, prefix := TrimLeft(line), key + [COLON];
    PrefixOutlives(TrimUnicodeLeft(line), prefix);
    if WideSpaceHere(u) > 0 {
      assert prefix[0] == key[0] != u[0];
    } else {
      LeftAgrees(line);
      hide WideSpaceHere, WideSpaceLast;
      if prefix <= u {
        ValueAgreesExactly(u[|prefix|..]);
      }
    }
  }
}
