/** Bytes, fixed-width integers, little-endian packing and bitwise `and` on
    unbounded naturals: the vocabulary of every wire layout in the project. */
module Bytes {

  type byte = x: int | 0 <= x < 0x100
  type uint16 = x: int | 0 <= x < 0x1_0000
  type uint32 = x: int | 0 <= x < 0x1_0000_0000
  type uint64 = x: int | 0 <= x < 0x1_0000_0000_0000_0000

  const TWO16: int := 0x1_0000
  const TWO32: int := 0x1_0000_0000
  const TWO64: int := 0x1_0000_0000_0000_0000

  type Bytes = seq<byte>

  // ---------------------------------------------------------------- powers

  function Pow2(n: nat): (r: nat)
    ensures r >= 1
  {
    if n == 0 then 1 else 2 * Pow2(n - 1)
  }

  function Pow256(n: nat): (r: nat)
    ensures r >= 1
  {
    if n == 0 then 1 else 0x100 * Pow256(n - 1)
  }

  lemma {:induction false} Pow2Grows(a: nat, b: nat)
    requires a <= b
    ensures Pow2(a) <= Pow2(b)
    decreases b
  {
    if a < b {
      Pow2Grows(a, b - 1);
    }
  }

  lemma Widths()
    ensures Pow256(2) == TWO16
    ensures Pow256(4) == TWO32
    ensures Pow256(8) == TWO64
  {
    assert Pow256(2) == 0x100 * Pow256(1);
    assert Pow256(4) == 0x100 * Pow256(3);
    assert Pow256(6) == 0x100 * Pow256(5);
    assert Pow256(8) == 0x100 * Pow256(7);
  }

  // ------------------------------------------------ one little-endian field

  /** The low `n` bytes of `v`, least significant first. */
  function LE(v: nat, n: nat): (r: Bytes)
    ensures |r| == n
    decreases n
  {
    if n == 0 then [] else [v % 0x100] + LE(v / 0x100, n - 1)
  }

  function FromLE(s: Bytes): (r: nat) {
    if s == [] then 0 else s[0] + 0x100 * FromLE(s[1..])
  }

  lemma {:induction false} FromLEBound(s: Bytes)
    ensures FromLE(s) < Pow256(|s|)
  {
    if s != [] {
      FromLEBound(s[1..]);
    }
  }

  lemma {:induction false} FromLEOfLE(v: nat, n: nat)
    requires v < Pow256(n)
    ensures FromLE(LE(v, n)) == v
    decreases n
  {
    if n > 0 {
      FromLEOfLE(v / 0x100, n - 1);
      assert LE(v, n)[1..] == LE(v / 0x100, n - 1);
    }
  }

  lemma ByteSplit(low: byte, rest: nat)
    ensures (low + 0x100 * rest) % 0x100 == low && (low + 0x100 * rest) / 0x100 == rest
  {
  }

  lemma {:induction false} LEOfFromLE(s: Bytes)
    ensures LE(FromLE(s), |s|) == s
  {
    if s != [] {
      var rest := FromLE(s[1..]);
      LEOfFromLE(s[1..]);
      ByteSplit(s[0], rest);
      assert LE(s[0] + 0x100 * rest, |s|) == [s[0]] + LE(rest, |s| - 1);
    }
  }

  /** The byte at place `i` has weight 256^i. */
  lemma {:induction false} ByteAt(v: nat, n: nat, i: nat)
    requires i < n
    ensures LE(v, n)[i] == v / Pow256(i) % 0x100
    decreases n
  {
    if i > 0 {
      ByteAt(v / 0x100, n - 1, i - 1);
      DivideTwice(v, 0x100, Pow256(i - 1));
    }
  }

  lemma DivideTwice(v: nat, a: nat, b: nat)
    requires a > 0 && b > 0
    ensures a * b > 0 && v / a / b == v / (a * b)
  {
    var q, r := v / a / b, v / a % b;
    assert v == a * (v / a) + v % a && v / a == b * q + r;
    assert a * (b * q + r) == q * (a * b) + a * r;
    assert a * r + a <= a * b by {
      assert a * (r + 1) <= a * b;
    }
    QuotientUnique(v, a * b, q, a * r + v % a);
  }

  /** Four bytes as a number, and back. */
  lemma FourBytes(a: byte, b: byte, c: byte, d: byte)
    ensures var v := a + 0x100 * b + 0x1_0000 * c + 0x100_0000 * d;
            FromLE([a, b, c, d]) == v && LE(v, 4) == [a, b, c, d]
  {
    var s := [a, b, c, d];
    assert s[1..] == [b, c, d] && [b, c, d][1..] == [c, d] && [c, d][1..] == [d] && [d][1..] == [];
    assert FromLE([c, d]) == c + 0x100 * FromLE([d]);
    LEOfFromLE(s);
  }

  // ------------------------------------------- records of consecutive fields

  /** A record layout gives the width of each field; a record gives the values. */
  type Layout = nat -> nat
  type Record = nat -> nat

  /** Where field `k` starts. */
  function Start(width: Layout, k: nat): (r: nat)
  {
    if k == 0 then 0 else Start(width, k - 1) + width(k - 1)
  }

  lemma {:induction false} StartGrows(width: Layout, i: nat, k: nat)
    requires i <= k
    ensures Start(width, i) <= Start(width, k)
    decreases k
  {
    if i < k {
      StartGrows(width, i, k - 1);
    }
  }

  /** The first `k` fields, one after the other. */
  function Pack(value: Record, width: Layout, k: nat): (r: Bytes)
    ensures |r| == Start(width, k)
  {
    if k == 0 then [] else Pack(value, width, k - 1) + LE(value(k - 1), width(k - 1))
  }

  /** Field `i` read at its own offset. */
  function Field(s: Bytes, width: Layout, i: nat): nat
    requires Start(width, i + 1) <= |s|
  {
    FromLE(s[Start(width, i)..Start(width, i + 1)])
  }

  /** Reading a field of a packed record gives its value, whatever follows. */
  lemma {:induction false} FieldOfPack(value: Record, width: Layout, i: nat, k: nat, rest: Bytes)
    requires i < k && value(i) < Pow256(width(i))
    ensures Start(width, i + 1) <= Start(width, k)
    ensures Field(Pack(value, width, k) + rest, width, i) == value(i)
    decreases k
  {
    StartGrows(width, i + 1, k);
    var front, last := Pack(value, width, k - 1), LE(value(k - 1), width(k - 1));
    assert Pack(value, width, k) + rest == front + (last + rest);
    if i == k - 1 {
      FromLEOfLE(value(i), width(i));
      assert (front + (last + rest))[|front|..|front| + |last|] == last;
    } else {
      FieldOfPack(value, width, i, k - 1, last + rest);
    }
  }

  /** The bytes of a field stand at its own offset. */
  lemma {:induction false} PieceOfPack(value: Record, width: Layout, i: nat, k: nat)
    requires i < k
    ensures Start(width, i) <= Start(width, i + 1) <= Start(width, k)
    ensures Pack(value, width, k)[Start(width, i)..Start(width, i + 1)] == LE(value(i), width(i))
    decreases k
  {
    StartGrows(width, i + 1, k);
    if i < k - 1 {
      PieceOfPack(value, width, i, k - 1);
    }
  }

  /** Field `i` of the record is what the bytes say. */
  predicate Reads(s: Bytes, value: Record, width: Layout, i: nat) {
    Start(width, i + 1) <= |s| && value(i) == Field(s, width, i)
  }

  /** Packing the fields that were read reproduces the bytes. */
  lemma {:induction false} PackOfFields(s: Bytes, value: Record, width: Layout, k: nat)
    requires Start(width, k) <= |s|
    requires forall i: nat | i < k :: Reads(s, value, width, i)
    ensures Pack(value, width, k) == s[..Start(width, k)]
    decreases k
  {
    if k > 0 {
      var a, b := Start(width, k - 1), Start(width, k);
      PackOfFields(s, value, width, k - 1);
      assert Reads(s, value, width, k - 1);
      LEOfFromLE(s[a..b]);
      assert s[..b] == s[..a] + s[a..b];
    }
  }

  // -------------------------------------------------------- writing in place

  /** `s` with the bytes at `off` replaced by `t`. */
  function Splice(s: Bytes, off: nat, t: Bytes): (r: Bytes)
    requires off + |t| <= |s|
    ensures |r| == |s|
  {
    s[..off] + t + s[off + |t|..]
  }

  lemma SpliceAt(s: Bytes, off: nat, t: Bytes, i: nat)
    requires off + |t| <= |s| && i < |s|
    ensures Splice(s, off, t)[i] == if off <= i < off + |t| then t[i - off] else s[i]
  {
  }

  /** Two adjacent writes are one write. */
  lemma SpliceAppend(s: Bytes, off: nat, a: Bytes, b: Bytes)
    requires off + |a| + |b| <= |s|
    ensures Splice(Splice(s, off, a), off + |a|, b) == Splice(s, off, a + b)
  {
    var l, r := Splice(Splice(s, off, a), off + |a|, b), Splice(s, off, a + b);
    forall i | 0 <= i < |s| ensures l[i] == r[i] {
      SpliceAt(Splice(s, off, a), off + |a|, b, i);
      SpliceAt(s, off, a, i);
      SpliceAt(s, off, a + b, i);
    }
  }

  lemma Cut3(s: Bytes, a: nat, b: nat)
    requires a <= b <= |s|
    ensures s == s[..a] + s[a..b] + s[b..]
  {
  }

  /** A later write over the same place hides the earlier one. */
  lemma SpliceOver(s: Bytes, off: nat, a: Bytes, b: Bytes)
    requires |a| <= |b| && off + |b| <= |s|
    ensures Splice(Splice(s, off, a), off, b) == Splice(s, off, b)
  {
    var l, r := Splice(Splice(s, off, a), off, b), Splice(s, off, b);
    forall i | 0 <= i < |s| ensures l[i] == r[i] {
      SpliceAt(Splice(s, off, a), off, b, i);
      SpliceAt(s, off, a, i);
      SpliceAt(s, off, b, i);
    }
  }

  /** A write leaves every window it does not touch as it was. */
  lemma SpliceFrame(s: Bytes, off: nat, t: Bytes, lo: nat, hi: nat)
    requires off + |t| <= |s| && lo <= hi <= |s|
    requires hi <= off || off + |t| <= lo
    ensures Splice(s, off, t)[lo..hi] == s[lo..hi]
  {
    forall i | lo <= i < hi ensures Splice(s, off, t)[i] == s[i] {
      SpliceAt(s, off, t, i);
    }
  }

  /** Stores `n` little-endian bytes of `v` at `off`, one byte at a time. */
  method PutLE(mem: array<byte>, off: nat, v: nat, n: nat)
    requires off + n <= mem.Length
    modifies mem
    ensures mem[..] == Splice(old(mem[..]), off, LE(v, n))
  {
    var i, rest := 0, v;
    while i < n
      invariant 0 <= i <= n
      invariant LE(v, n) == mem[off..off + i] + LE(rest, n - i)
      invariant mem[..off] == old(mem[..off])
      invariant mem[off + n..] == old(mem[off + n..])
    {
      ghost var done := mem[off..off + i];
      mem[off + i] := rest % 0x100;
      assert mem[off..off + i + 1] == done + [rest % 0x100];
      rest := rest / 0x100;
      i := i + 1;
    }
    assert mem[..] == mem[..off] + mem[off..off + n] + mem[off + n..];
  }

  /** Loads `n` little-endian bytes at `off`. */
  method GetLE(mem: array<byte>, off: nat, n: nat) returns (v: nat)
    requires off + n <= mem.Length
    ensures v == FromLE(mem[off..off + n])
    ensures v < Pow256(n)
  {
    v := 0;
    var i := n;
    while i > 0
      invariant 0 <= i <= n
      invariant v == FromLE(mem[off + i..off + n])
    {
      i := i - 1;
      assert mem[off + i..off + n][1..] == mem[off + i + 1..off + n];
      v := mem[off + i] + 0x100 * v;
    }
    FromLEBound(mem[off..off + n]);
  }

  /** The first `k` fields are in place at `base`, over `before`. */
  ghost predicate Written(now: Bytes, base: nat, before: Bytes, value: Record, width: Layout, k: nat) {
    base + Start(width, k) <= |before| && now == Splice(before, base, Pack(value, width, k))
  }

  lemma NothingWritten(before: Bytes, base: nat, value: Record, width: Layout)
    requires base <= |before|
    ensures Written(before, base, before, value, width, 0)
  {
  }

  /** Stores field `k`, the fields before it being in place. */
  method PutField(mem: array<byte>, base: nat, ghost before: Bytes, ghost value: Record,
                  ghost width: Layout, ghost k: nat, off: nat, v: nat, n: nat)
    requires off == Start(width, k) && v == value(k) && n == width(k)
    requires base + off + n <= mem.Length == |before| && Written(mem[..], base, before, value, width, k)
    modifies mem
    ensures Written(mem[..], base, before, value, width, k + 1)
  {
    PutLE(mem, base + off, v, n);
    SpliceAppend(before, base, Pack(value, width, k), LE(v, n));
  }

  /** Loads field `i` of the record at the start of `mem[base..base + len]`. */
  method GetField(mem: array<byte>, base: nat, len: nat, ghost width: Layout, ghost i: nat,
                  off: nat, n: nat) returns (v: nat)
    requires off == Start(width, i) && n == width(i) && off + n <= len && base + len <= mem.Length
    ensures Start(width, i + 1) <= len
    ensures v == Field(mem[base..base + len], width, i) && v < Pow256(n)
  {
    v := GetLE(mem, base + off, n);
    assert mem[base..base + len][off..off + n] == mem[base + off..base + off + n];
  }

  /** Clears the `n` bytes at `off`. */
  method Clear(mem: array<byte>, off: nat, n: nat)
    requires off + n <= mem.Length
    modifies mem
    ensures mem[..] == Splice(old(mem[..]), off, seq(n, i => 0))
  {
    for i := 0 to n
      invariant forall j :: off <= j < off + i ==> mem[j] == 0
      invariant mem[..off] == old(mem[..off])
      invariant mem[off + i..] == old(mem[off + i..])
    {
      mem[off + i] := 0;
    }
    assert mem[..] == mem[..off] + mem[off..off + n] + mem[off + n..];
    assert mem[off..off + n] == seq(n, i => 0);
  }

  // ------------------------------------------------------------- bitwise and

  /** Bitwise `and`, on naturals of any width. */
  function And(a: nat, b: nat): (r: nat)
    ensures r <= a && r <= b
  {
    if a == 0 || b == 0 then 0
    else (if a % 2 == 1 && b % 2 == 1 then 1 else 0) + 2 * And(a / 2, b / 2)
  }

  predicate Bit(v: nat, i: nat) {
    v / Pow2(i) % 2 == 1
  }

  lemma BitStep(v: nat, i: nat)
    requires i > 0
    ensures Bit(v, i) == Bit(v / 2, i - 1)
  {
    var p := Pow2(i - 1);
    assert v / (2 * p) == v / 2 / p by { DivDiv(v, p); }
  }

  lemma DivDiv(v: nat, p: nat)
    requires p > 0
    ensures v / (2 * p) == v / 2 / p
  {
    var q := v / 2 / p;
    var r := v / 2 % p;
    assert v / 2 == q * p + r;
    assert v == 2 * (q * p + r) + v % 2;
    assert v == q * (2 * p) + (2 * r + v % 2);
    assert 0 <= 2 * r + v % 2 < 2 * p;
    QuotientUnique(v, 2 * p, q, 2 * r + v % 2);
  }

  lemma QuotientUnique(v: int, d: int, q: int, r: int)
    requires d > 0 && 0 <= r < d && v == q * d + r
    ensures v / d == q && v % d == r
  {
    assert (v / d - q) * d == r - v % d;
    MulGrows(v / d - q, d);
  }

  lemma MulGrows(e: int, d: int)
    requires d > 0
    ensures e >= 1 ==> e * d >= d
    ensures e <= -1 ==> e * d <= -d
  {
  }

  /** `And` is bitwise conjunction. */
  lemma {:induction false} AndBits(a: nat, b: nat, i: nat)
    ensures Bit(And(a, b), i) == (Bit(a, i) && Bit(b, i))
    decreases i
  {
    if i == 0 {
      assert Pow2(0) == 1;
    } else {
      BitStep(And(a, b), i);
      BitStep(a, i);
      BitStep(b, i);
      AndBits(a / 2, b / 2, i - 1);
      assert And(a, b) / 2 == And(a / 2, b / 2);
    }
  }

  lemma AndStep(a: nat, b: nat, a': nat, b': nat)
    requires a' == a / 2 && b' == b / 2
    ensures And(a, b) == (if a % 2 == 1 && b % 2 == 1 then 1 else 0) + 2 * And(a', b')
  {
  }

  lemma AndPair(v: nat, m: nat)
    ensures And(v, m) == Pick(v, m, 1) + Pick(v, m, 2) + 4 * And(v / 4, m / 4)
  {
    hide And;
    AndStep(v, m, v / 2, m / 2);
    AndStep(v / 2, m / 2, v / 4, m / 4);
  }

  lemma PickScale(v: nat, m: nat, s: nat, w: nat)
    requires s in {4, 0x10} && w in {1, 2, 4, 8}
    ensures s * Pick(v / s, m / s, w) == Pick(v, m, s * w)
  {
    ScaleDiv(v, s, w);
    ScaleDiv(m, s, w);
  }

  lemma ScaleDiv(v: nat, s: nat, w: nat)
    requires s in {4, 0x10} && w in {1, 2, 4, 8}
    ensures v / s / w == v / (s * w)
  {
    if s == 4 {
      assert v / 4 / 2 == v / 8 && v / 4 / 4 == v / 0x10 && v / 4 / 8 == v / 0x20;
    } else {
      assert v / 0x10 / 2 == v / 0x20 && v / 0x10 / 4 == v / 0x40 && v / 0x10 / 8 == v / 0x80;
    }
  }

  lemma AndNibble(v: nat, m: nat)
    ensures And(v, m) == Pick(v, m, 1) + Pick(v, m, 2) + Pick(v, m, 4) + Pick(v, m, 8)
                       + 0x10 * And(v / 0x10, m / 0x10)
  {
    hide And, Pick;
    AndPair(v, m);
    AndPair(v / 4, m / 4);
    PickScale(v, m, 4, 1);
    PickScale(v, m, 4, 2);
  }

  /** An eight-bit mask keeps the bits it names among the low eight. */
  lemma AndByte(v: nat, m: nat)
    requires m < 0x100
    ensures And(v, m) == Pick(v, m, 1) + Pick(v, m, 2) + Pick(v, m, 4) + Pick(v, m, 8)
                       + Pick(v, m, 0x10) + Pick(v, m, 0x20) + Pick(v, m, 0x40) + Pick(v, m, 0x80)
  {
    hide And, Pick;
    AndNibble(v, m);
    AndNibble(v / 0x10, m / 0x10);
    PickScale(v, m, 0x10, 1); PickScale(v, m, 0x10, 2);
    PickScale(v, m, 0x10, 4); PickScale(v, m, 0x10, 8);
  }

  /** The bit of weight `w` when both words have it. */
  function Pick(v: nat, m: nat, w: nat): nat
    requires w > 0
  {
    if v / w % 2 == 1 && m / w % 2 == 1 then w else 0
  }

  lemma ModDouble(v: nat, p: nat)
    requires p > 0
    ensures v % (2 * p) == 2 * (v / 2 % p) + v % 2
  {
    var q, r := v / 2 / p, v / 2 % p;
    assert v / 2 == q * p + r;
    assert v == q * (2 * p) + (2 * r + v % 2);
    QuotientUnique(v, 2 * p, q, 2 * r + v % 2);
  }

  lemma AndMaskStep(v: nat, p: nat)
    requires v > 0 && p > 0
    ensures And(v, 2 * p - 1) == v % 2 + 2 * And(v / 2, p - 1)
  {
    var m := 2 * p - 1;
    assert m % 2 == 1 && m / 2 == p - 1;
  }

  /** Masking with 2^k - 1 is reduction modulo 2^k. */
  lemma {:induction false} AndMask(v: nat, k: nat)
    ensures And(v, Pow2(k) - 1) == v % Pow2(k)
    decreases k
  {
    var m := Pow2(k);
    if v == 0 {
      QuotientUnique(0, m, 0, 0);
    } else if k == 0 {
      assert m == 1;
    } else {
      hide And;
      AndMask(v / 2, k - 1);
      AndMaskNext(v, Pow2(k - 1), And(v / 2, Pow2(k - 1) - 1));
    }
  }

  lemma AndMaskNext(v: nat, p: nat, low: nat)
    requires v > 0 && p > 0 && And(v / 2, p - 1) == low == v / 2 % p
    ensures And(v, 2 * p - 1) == v % (2 * p)
  {
    ModDouble(v, p);
    AndMaskStep(v, p);
  }

  lemma AndMaskTo(v: nat, k: nat, p: nat)
    requires p == Pow2(k)
    ensures And(v, p - 1) == v % p
  {
    hide And;
    AndMask(v, k);
  }

  /** A one-bit mask tests that bit. */
  lemma {:induction false} AndOneBit(v: nat, i: nat)
    ensures And(v, Pow2(i)) == if Bit(v, i) then Pow2(i) else 0
    decreases i
  {
    if i == 0 {
      assert Pow2(0) == 1;
    } else {
      var p := Pow2(i - 1);
      AndOneBit(v / 2, i - 1);
      BitStep(v, i);
      AndStep(v, 2 * p, v / 2, p);
    }
  }

  ghost predicate IsPow2(v: nat) {
    exists k: nat :: v == Pow2(k)
  }

  lemma Pow2Parity(v: nat)
    requires v > 1
    ensures v % 2 == 0 ==> (IsPow2(v) <==> IsPow2(v / 2))
    ensures v % 2 == 1 ==> !IsPow2(v)
  {
    if k: nat :| v == Pow2(k) {
      assert v / 2 == Pow2(k - 1) && v % 2 == 0;
    }
    if k: nat :| v / 2 == Pow2(k) {
      assert Pow2(k + 1) == 2 * Pow2(k);
    }
  }

  /** The test `v & (v-1) == 0` recognises exactly the powers of two. */
  lemma {:induction false} PowerOfTwoTest(v: nat)
    requires v > 0
    ensures And(v, v - 1) == 0 <==> IsPow2(v)
    decreases v
  {
    if v == 1 {
      assert v == Pow2(0);
      assert And(1, 0) == 0;
    } else {
      Pow2Parity(v);
      hide And, IsPow2;
      AndStep(v, v - 1, v / 2, (v - 1) / 2);
      if v % 2 == 0 {
        PowerOfTwoTest(v / 2);
      } else {
        AndSelf(v / 2);
      }
    }
  }

  lemma {:induction false} AndSelf(v: nat)
    ensures And(v, v) == v
  {
    if v != 0 {
      AndSelf(v / 2);
    }
  }
}
