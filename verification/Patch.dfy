/** Replacing a passage of a skill, first occurrence or all of them
    (src/modules/skills/skill.c:1533-1569). */
module Patch {
  import opened Bytes
  import opened Wrappers
  import opened Search

  /** What a text becomes when its gaps are joined by `sep`. */
  function Join(gaps: seq<Bytes>, sep: Bytes): Bytes
    requires gaps != []
  {
    if |gaps| == 1 then gaps[0] else gaps[0] + sep + Join(gaps[1..], sep)
  }

  /** The text around the places to replace. */
  function Gaps(s: Bytes, target: Bytes, all: bool): (r: seq<Bytes>)
    requires target != []
    ensures r != []
    decreases |s|
  {
    match Find(s, target, 0)
    case None => [s]
    case Some(i) =>
      var rest := s[i + |target|..];
      [s[..i]] + (if all then Gaps(rest, target, all) else [rest])
  }

  // ---------------------------------------------------- what the gaps are

  /** In `gap` followed by `t`, the earliest `t` is the one that follows. */
  ghost predicate NothingEarlier(gap: Bytes, t: Bytes) {
    forall k: nat :: k < |gap| ==> !MatchAt(gap + t, t, k)
  }

  /** `gaps` cut `s` at leftmost, non-overlapping places: each is the earliest
      match from where the one before it ended, and after the last there is none
      left to replace. */
  ghost predicate LeftmostCut(s: Bytes, t: Bytes, all: bool, gaps: seq<Bytes>)
  {
    && gaps != [] && Join(gaps, t) == s
    && (forall i :: 0 <= i < |gaps| - 1 ==> NothingEarlier(gaps[i], t))
    && (if all then !Occurs(gaps[|gaps| - 1], t)
        else |gaps| <= 2 && (|gaps| == 1 ==> !Occurs(s, t)))
  }

  /** Matching at `k` looks no further than `k + |t|`. */
  lemma MatchWithin(s: Bytes, t: Bytes, i: nat, k: nat)
    requires i + |t| <= |s| && k + |t| <= i + |t|
    ensures MatchAt(s[..i + |t|], t, k) <==> MatchAt(s, t, k)
  {
    assert s[..i + |t|][k..k + |t|] == s[k..k + |t|];
  }

  lemma FirstHit(s: Bytes, t: Bytes, i: nat)
    requires Find(s, t, 0) == Some(i)
    ensures s == s[..i] + t + s[i + |t|..] && NothingEarlier(s[..i], t)
  {
    assert s[..i] + t == s[..i + |t|];
    forall k: nat | k < i ensures !MatchAt(s[..i] + t, t, k) {
      MatchWithin(s, t, i, k);
    }
  }

  /** The cut is leftmost and non-overlapping. */
  lemma {:induction false} GapsAreLeftmost(s: Bytes, t: Bytes, all: bool)
    requires t != []
    ensures LeftmostCut(s, t, all, Gaps(s, t, all))
    decreases |s|
  {
    hide NothingEarlier, Gaps, Find, MatchAt, Join, Occurs;
    var gaps := Gaps(s, t, all);
    FoundOrNot(s, t);
    JoinOne(s, t);
    match Find(s, t, 0)
    case None => NoGap(s, t, all);
    case Some(i) =>
      GapsStart(s, t, all, i);
      FirstHit(s, t, i);
      var rest := s[i + |t|..];
      if all {
        GapsAreLeftmost(rest, t, all);
      }
      JoinOne(rest, t);
      JoinFirst([], gaps, t);
      OneMoreGap(s, t, all, s[..i], gaps[1..], rest);
  }

  lemma FoundOrNot(s: Bytes, t: Bytes)
    ensures Find(s, t, 0).None? <==> !Occurs(s, t)
  {
  }

  lemma OneMoreGap(s: Bytes, t: Bytes, all: bool, gap: Bytes, gaps: seq<Bytes>, rest: Bytes)
    requires gaps != [] && NothingEarlier(gap, t) && s == gap + t + rest && Join(gaps, t) == rest
    requires if all then LeftmostCut(rest, t, all, gaps) else gaps == [rest]
    ensures LeftmostCut(s, t, all, [gap] + gaps)
  {
    hide NothingEarlier, Occurs;
    var more := [gap] + gaps;
    JoinFirst([], more, t);
    assert more[1..] == gaps;
    assert [] + gap == gap && [] + Join(more, t) == Join(more, t);
    hide Join;
    assert forall j :: 1 <= j < |more| ==> more[j] == gaps[j - 1];
  }

  lemma {:induction false} JoinSplit(gaps: seq<Bytes>, t: Bytes)
    requires |gaps| > 1
    ensures var s := Join(gaps, t);
            s[..|gaps[0]| + |t|] == gaps[0] + t && s[|gaps[0]| + |t|..] == Join(gaps[1..], t)
  {
  }

  /** There is no other such cut. */
  lemma {:induction false} LeftmostCutIsUnique(s: Bytes, t: Bytes, all: bool, gaps: seq<Bytes>)
    requires t != [] && LeftmostCut(s, t, all, gaps)
    ensures gaps == Gaps(s, t, all)
    decreases |gaps|
  {
    hide MatchAt;
    if |gaps| == 1 {
      assert gaps == [s];
    } else {
      var i := |gaps[0]|;
      JoinSplit(gaps, t);
      FirstIs(s, t, gaps[0]);
      var rest := s[i + |t|..];
      assert s[..i] == gaps[0];
      if all {
        assert forall j :: 0 <= j < |gaps| - 1 ==> gaps[1..][j] == gaps[j + 1];
        LeftmostCutIsUnique(rest, t, all, gaps[1..]);
        assert gaps == [gaps[0]] + gaps[1..];
      } else {
        assert gaps == [gaps[0], rest];
      }
    }
  }

  lemma FirstIs(s: Bytes, t: Bytes, gap: Bytes)
    requires |gap| + |t| <= |s| && s[..|gap| + |t|] == gap + t && NothingEarlier(gap, t)
    ensures Find(s, t, 0) == Some(|gap|)
  {
    var i := |gap|;
    assert s[i..i + |t|] == (gap + t)[i..] == t;
    forall k: nat | k < i ensures !MatchAt(s, t, k) {
      MatchWithin(s, t, i, k);
    }
    FindIs(s, t, 0, i);
  }

  // ------------------------------------------------------------- the result

  function Times(n: nat, d: int): int {
    if n == 0 then 0 else d + Times(n - 1, d)
  }

  /** Each replacement changes the length by the difference of the two strings. */
  lemma {:induction false} JoinLength(gaps: seq<Bytes>, a: Bytes, b: Bytes)
    requires gaps != []
    ensures |Join(gaps, b)| == |Join(gaps, a)| + Times(|gaps| - 1, |b| - |a|)
  {
    if |gaps| > 1 {
      JoinLength(gaps[1..], a, b);
    }
  }

  /** Something is replaced exactly when the string occurs. */
  lemma HitsIffOccurs(s: Bytes, t: Bytes, all: bool)
    requires t != []
    ensures |Gaps(s, t, all)| > 1 <==> Occurs(s, t)
  {
    hide MatchAt;
  }

  /** The patched text, for any content: its gaps are those of the original, its
      length follows from their number, and replacing a string by itself changes
      nothing. */
  lemma PatchedText(s: Bytes, t: Bytes, u: Bytes, all: bool)
    requires t != []
    ensures var gaps := Gaps(s, t, all);
            && LeftmostCut(s, t, all, gaps)
            && |Join(gaps, u)| == |s| + Times(|gaps| - 1, |u| - |t|)
            && Join(gaps, t) == s
  {
    GapsAreLeftmost(s, t, all);
    JoinLength(Gaps(s, t, all), t, u);
    hide Gaps, Join;
  }

  // -------------------------------------------------------- C strings

  /** What the C string functions see of a file's bytes: those before the first
      NUL. */
  function UpToNul(s: Bytes): (r: Str)
    ensures r <= s && (|r| < |s| ==> s[|r|] == 0)
    ensures 0 !in s ==> r == s
  {
    if s == [] || s[0] == 0 then [] else [s[0]] + UpToNul(s[1..])
  }

  /** Whatever follows a NUL in the skill's file is dropped by every patch. */
  lemma {:induction false} RestIsDropped(a: Str, b: Bytes)
    ensures UpToNul(a + [0] + b) == a
  {
    if a != [] {
      assert (a + [0] + b)[1..] == a[1..] + [0] + b;
      RestIsDropped(a[1..], b);
    }
  }

  datatype PatchResult = Patched(content: Bytes) | SkillNotFound | StringsRequired | NotFound

  /** The replace loop: copies up to each hit, writes the new string, goes on after
      the hit. */
  method ReplaceLoop(content: Str, target: Str, replacement: Str, replaceAll: bool)
      returns (out: Bytes, hits: nat)
    requires target != []
    ensures out == Join(Gaps(content, target, replaceAll), replacement)
    ensures hits == |Gaps(content, target, replaceAll)| - 1
  {
    hide MatchAt, Join, Gaps, Occurs, Find;
    ghost var left := Gaps(content, target, replaceAll);
    ghost var joined, count := Join(left, replacement), |left|;
    var p := 0;
    out, hits := [], 0;
    assert content[0..] == content;
    assert out + joined == joined;
    while true
      invariant 0 <= p <= |content| && hits + |left| == count
      invariant left == (if hits == 0 || replaceAll then Gaps(content[p..], target, replaceAll) else [content[p..]])
      invariant joined == out + Join(left, replacement)
      decreases |content| - p
    {
      NextGap(content, target, p, replaceAll);
      var hit := Find(content, target, p);
      if hit.None? || (!replaceAll && hits > 0) {
        JoinOne(content[p..], replacement);
        out := out + content[p..];
        return;
      }
      JoinFirst(out, left, replacement);
      out := out + content[p..hit.value];
      out := out + replacement;
      p := hit.value + |target|;
      hits := hits + 1;
      left := left[1..];
    }
  }

  /** The patch of a skill file, if there is one: refused without both strings, or if
      the old one does not occur before the file's first NUL. */
  method Replace(file: Option<Bytes>, oldString: Option<Str>, newString: Option<Str>, replaceAll: bool)
      returns (r: PatchResult)
    ensures r == SkillNotFound <==> file.None?
    ensures r == StringsRequired <==> file.Some? && (oldString.None? || oldString.value == [] || newString.None?)
    ensures r == NotFound <==> r != SkillNotFound && r != StringsRequired
                               && !Occurs(UpToNul(file.value), oldString.value)
    ensures r.Patched? ==>
      r.content == Join(Gaps(UpToNul(file.value), oldString.value, replaceAll), newString.value)
  {
    if file.None? {
      return SkillNotFound;
    }
    if oldString.None? || oldString.value == [] || newString.None? {
      return StringsRequired;
    }
    hide Join, Gaps, Occurs, UpToNul;
    var content := UpToNul(file.value);
    HitsIffOccurs(content, oldString.value, replaceAll);
    var out, hits := ReplaceLoop(content, oldString.value, newString.value, replaceAll);
    if hits == 0 {
      return NotFound;
    }
    return Patched(out);
  }

  /** What the search from `p` says about the gaps of the rest. */
  lemma NextGap(s: Bytes, t: Bytes, p: nat, all: bool)
    requires t != [] && p <= |s|
    ensures var gaps := Gaps(s[p..], t, all);
            match Find(s, t, p)
            case None => gaps == [s[p..]]
            case Some(i) =>
              && i + |t| <= |s| && |gaps| > 1 && gaps[0] == s[p..i]
              && gaps[1..] == (if all then Gaps(s[i + |t|..], t, all) else [s[i + |t|..]])
  {
    hide Find, Gaps, MatchAt;
    FindInTail(s, t, p, 0);
    match Find(s[p..], t, 0)
    case None => NoGap(s[p..], t, all);
    case Some(j) =>
      GapsStart(s[p..], t, all, j);
      TailOfTail(s, p, j);
      TailOfTail(s, p, j + |t|);
  }

  lemma TailOfTail(s: Bytes, p: nat, n: nat)
    requires p + n <= |s|
    ensures s[p..][n..] == s[p + n..] && s[p..][..n] == s[p..p + n]
  {
  }

  lemma NoGap(s: Bytes, t: Bytes, all: bool)
    requires t != [] && Find(s, t, 0).None?
    ensures Gaps(s, t, all) == [s]
  {
  }

  lemma GapsStart(s: Bytes, t: Bytes, all: bool, i: nat)
    requires t != [] && Find(s, t, 0) == Some(i)
    ensures i + |t| <= |s|
    ensures Gaps(s, t, all) == [s[..i]] + (if all then Gaps(s[i + |t|..], t, all) else [s[i + |t|..]])
  {
  }

  lemma JoinOne(s: Bytes, sep: Bytes)
    ensures Join([s], sep) == s
  {
  }

  lemma JoinFirst(out: Bytes, gaps: seq<Bytes>, sep: Bytes)
    requires |gaps| > 1
    ensures out + Join(gaps, sep) == out + gaps[0] + sep + Join(gaps[1..], sep)
  {
  }
}
