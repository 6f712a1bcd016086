/** Finding one byte string in another, leftmost first: what bytes.Index,
    bytes.Contains, strstr, strchr and memchr have in common. */
module Search {
  import opened Bytes
  import opened Wrappers

  /** What a C string can hold: anything but the terminator. */
  type Str = s: Bytes | 0 !in s witness []

  /** `t` stands in `s` at `i`. */
  predicate MatchAt(s: Bytes, t: Bytes, i: nat) {
    i + |t| <= |s| && s[i..i + |t|] == t
  }

  ghost predicate Occurs(s: Bytes, t: Bytes) {
    exists i: nat :: MatchAt(s, t, i)
  }

  /** The earliest match at or after `from`. */
  function Find(s: Bytes, t: Bytes, from: nat): (r: Option<nat>)
    ensures r.Some? ==> from <= r.value && MatchAt(s, t, r.value)
                        && forall k: nat :: from <= k < r.value ==> !MatchAt(s, t, k)
    ensures r.None? ==> forall k: nat :: from <= k ==> !MatchAt(s, t, k)
    decreases |s| - from
  {
    if |s| < from + |t| then None
    else if MatchAt(s, t, from) then Some(from)
    else Find(s, t, from + 1)
  }

  /** Searching the rest of a string is searching on from there. */
  lemma {:induction false} FindInTail(s: Bytes, t: Bytes, start: nat, from: nat)
    requires start <= |s|
    ensures match Find(s[start..], t, from)
            case Some(i) => Find(s, t, start + from) == Some(start + i)
            case None => Find(s, t, start + from) == None
  {
    var tail := s[start..];
    match Find(tail, t, from)
    case Some(i) =>
      forall k: nat | start + from <= k < start + i ensures !MatchAt(s, t, k) {
        MatchShift(s, t, start, k - start);
      }
      MatchShift(s, t, start, i);
      FindIs(s, t, start + from, start + i);
    case None =>
      forall k: nat | start + from <= k ensures !MatchAt(s, t, k) {
        MatchShift(s, t, start, k - start);
      }
  }

  lemma MatchShift(s: Bytes, t: Bytes, start: nat, i: nat)
    requires start <= |s|
    ensures MatchAt(s[start..], t, i) <==> MatchAt(s, t, start + i)
  {
    if start + i + |t| <= |s| {
      assert s[start..][i..i + |t|] == s[start + i..start + i + |t|];
    }
  }

  lemma FindIs(s: Bytes, t: Bytes, from: nat, i: nat)
    requires from <= i && MatchAt(s, t, i) && forall k: nat | from <= k < i :: !MatchAt(s, t, k)
    ensures Find(s, t, from) == Some(i)
  {
    hide MatchAt;
  }

  /** A one-byte search finds the first such byte. */
  lemma FindByte(s: Bytes, b: byte, from: nat)
    ensures match Find(s, [b], from)
            case Some(i) => from <= i < |s| && s[i] == b && forall k :: from <= k < i ==> s[k] != b
            case None => forall k :: from <= k < |s| ==> s[k] != b
  {
    var r := Find(s, [b], from);
    var end := if r.Some? then r.value else |s|;
    forall k | from <= k < end && k < |s| ensures s[k] != b {
      assert !MatchAt(s, [b], k);
      assert s[k..k + 1] == [s[k]];
    }
    if r.Some? {
      assert s[r.value..r.value + 1] == [s[r.value]];
    }
  }

  lemma SliceOfSlice(s: Bytes, a: nat, b: nat, i: nat, j: nat)
    requires a <= b <= |s| && i <= j <= b - a
    ensures s[a..b][i..j] == s[a + i..a + j]
  {
    var x, y := s[a..b][i..j], s[a + i..a + j];
    assert forall k :: 0 <= k < j - i ==> x[k] == y[k];
    assert x == y;
  }
}
