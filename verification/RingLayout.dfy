/** Where a ring's indices and slots lie in the mapped bytes, and the invariant
    that ties those bytes to a first-in first-out queue of slots
    (server-go/bus/ring.go). Shared by the class that works in place and by the
    interleaved machine. */
module RingLayout {
  import opened Bytes

  const RING_MAGIC: uint32 := 0x474e4952
  const HEAD_OFF: nat := 64
  const TAIL_OFF: nat := 128
  const SLOTS_OFF: nat := 192

  datatype Geometry = Geometry(slotSize: uint32, capacity: uint32)

  ghost predicate Sound(g: Geometry) {
    g.slotSize > 0 && g.capacity >= 2 && IsPow2(g.capacity)
  }

  /** `a` slots of `b` bytes each. */
  function Times(a: nat, b: nat): (r: nat) {
    if a == 0 then 0 else Times(a - 1, b) + b
  }

  lemma {:induction false} TimesIsProduct(a: nat, b: nat)
    ensures Times(a, b) == a * b
  {
    if a > 0 {
      TimesIsProduct(a - 1, b);
      assert (a - 1) * b + b == a * b;
    }
  }

  lemma {:induction false} TimesMono(a: nat, b: nat, size: nat)
    requires a <= b
    ensures Times(a, size) <= Times(b, size)
    decreases b
  {
    if a < b {
      TimesMono(a, b - 1, size);
    }
  }

  function Need(g: Geometry): (r: nat)
    ensures r >= SLOTS_OFF
  {
    SLOTS_OFF + Times(g.capacity, g.slotSize)
  }

  /** The 64-bit difference of two wrapped indices. */
  function Distance(head: uint64, tail: uint64): uint64 {
    (head - tail) % TWO64
  }

  /** Start of the slot that the wrapped index selects through the mask. */
  function SlotStart(g: Geometry, index: uint64): (r: nat)
    requires g.capacity > 0
    ensures r >= SLOTS_OFF
  {
    SLOTS_OFF + Times(And(index, g.capacity - 1), g.slotSize)
  }

  // --------------------------------------------------------- ring geometry

  lemma ModOfMod(n: nat, a: nat, b: nat)
    requires a > 0 && b > 0
    ensures a * b > 0 && n % (a * b) % a == n % a
  {
    var q, r := n / (a * b), n % (a * b);
    var q', r' := r / a, r % a;
    assert n == q * (a * b) + r && r == q' * a + r';
    assert q * (a * b) == (q * b) * a;
    assert n == (q * b + q') * a + r' by {
      assert (q * b + q') * a == (q * b) * a + q' * a;
    }
    QuotientUnique(n, a, q * b + q', r');
  }

  lemma {:induction false} Pow2Sum(a: nat, b: nat)
    ensures Pow2(a + b) == Pow2(a) * Pow2(b)
    decreases b
  {
    if b > 0 {
      Pow2Sum(a, b - 1);
      assert Pow2(a) * Pow2(b) == 2 * (Pow2(a) * Pow2(b - 1));
    }
  }

  lemma Pow64()
    ensures Pow2(32) == TWO32 && Pow2(64) == TWO64
  {
    SmallPower();
    hide Pow2;
    Pow2Sum(8, 8);
    Pow2Sum(16, 16);
    Pow2Sum(32, 32);
  }

  lemma SmallPower()
    ensures Pow2(8) == 0x100
  {
    assert Pow2(2) == 4 && Pow2(4) == 2 * Pow2(3) == 16 && Pow2(6) == 2 * Pow2(5) == 64;
  }

  /** Masking an index that has wrapped at 2^64 selects the same slot as the
      index that never wrapped, reduced modulo the capacity. */
  lemma MaskIsModulo(g: Geometry, n: nat)
    requires Sound(g)
    ensures And(n % TWO64, g.capacity - 1) == n % g.capacity < g.capacity
  {
    var k: nat :| g.capacity == Pow2(k);
    Pow64();
    if k >= 32 {
      Pow2Grows(32, k);
    }
    Pow2Sum(k, 64 - k);
    ModOfMod(n, Pow2(k), Pow2(64 - k));
    AndMaskTo(n % TWO64, k, g.capacity);
  }

  /** Every slot lies within the mapping and clear of the ring header, and the
      offset arithmetic stays below 2^63. */
  lemma SlotInBounds(g: Geometry, index: uint64)
    requires Sound(g)
    ensures SLOTS_OFF <= SlotStart(g, index)
    ensures SlotStart(g, index) + g.slotSize <= Need(g) < TWO64 / 2
  {
    MaskIsModulo(g, index);
    TimesMono(And(index, g.capacity - 1) + 1, g.capacity, g.slotSize);
    NeedBound(g);
  }

  lemma NeedBound(g: Geometry)
    requires Sound(g)
    ensures Need(g) < TWO64 / 2
  {
    CapacityBound(g);
    TimesMono(g.capacity, TWO32 / 2, g.slotSize);
    TimesIsProduct(TWO32 / 2, g.slotSize);
  }

  lemma CapacityBound(g: Geometry)
    requires Sound(g)
    ensures g.capacity <= TWO32 / 2
  {
    var k: nat :| g.capacity == Pow2(k);
    Pow64();
    assert Pow2(32) == 2 * Pow2(31);
    if k >= 32 {
      Pow2Grows(32, k);
    } else {
      Pow2Grows(k, 31);
    }
  }

  /** Different slots do not overlap. */
  lemma SlotsApart(g: Geometry, a: uint64, b: uint64)
    requires Sound(g)
    ensures And(a, g.capacity - 1) == And(b, g.capacity - 1)
         || SlotStart(g, a) + g.slotSize <= SlotStart(g, b)
         || SlotStart(g, b) + g.slotSize <= SlotStart(g, a)
  {
    var i, j := And(a, g.capacity - 1), And(b, g.capacity - 1);
    if i < j {
      TimesMono(i + 1, j, g.slotSize);
    } else if j < i {
      TimesMono(j + 1, i, g.slotSize);
    }
  }

  // ------------------------------------------------- the queue in the bytes

  function Head(s: Bytes): (r: uint64)
    requires |s| >= SLOTS_OFF
  {
    IndexBound(s, HEAD_OFF);
    FromLE(s[HEAD_OFF..HEAD_OFF + 8])
  }

  function Tail(s: Bytes): (r: uint64)
    requires |s| >= SLOTS_OFF
  {
    IndexBound(s, TAIL_OFF);
    FromLE(s[TAIL_OFF..TAIL_OFF + 8])
  }

  lemma IndexBound(s: Bytes, off: nat)
    requires off + 8 <= |s|
    ensures FromLE(s[off..off + 8]) < TWO64
  {
    FromLEBound(s[off..off + 8]);
    Widths();
  }

  function Slot(s: Bytes, g: Geometry, index: uint64): (r: Bytes)
    requires g.capacity > 0 && SlotStart(g, index) + g.slotSize <= |s|
    ensures |r| == g.slotSize
  {
    s[SlotStart(g, index)..SlotStart(g, index) + g.slotSize]
  }

  /** The bytes after the release store on head. */
  function Published(s: Bytes): (r: Bytes)
    requires |s| >= SLOTS_OFF
    ensures |r| == |s|
  {
    Splice(s, HEAD_OFF, LE((Head(s) + 1) % TWO64, 8))
  }

  /** The bytes after the release store on tail. */
  function Released(s: Bytes): (r: Bytes)
    requires |s| >= SLOTS_OFF
    ensures |r| == |s|
  {
    Splice(s, TAIL_OFF, LE((Tail(s) + 1) % TWO64, 8))
  }

  /** The slot holding the queue's `i`-th element, the first having been put at
      the unwrapped index `base`. */
  function Element(s: Bytes, g: Geometry, base: nat, i: nat): Bytes
    requires Sound(g) && Need(g) <= |s|
  {
    SlotInBounds(g, (base + i) % TWO64);
    Slot(s, g, (base + i) % TWO64)
  }

  /** The mapped bytes hold, between tail and head, the elements of `log` not yet
      taken: `log` is everything ever published, `taken` how many of those the
      consumer has released. The counts are unbounded; the indices in the bytes
      wrap. */
  ghost predicate Holds(s: Bytes, g: Geometry, base: nat, log: seq<Bytes>, taken: nat) {
    && Sound(g) && SLOTS_OFF <= Need(g) <= |s|
    && taken <= |log| <= taken + g.capacity
    && Head(s) == (base + |log|) % TWO64
    && Tail(s) == (base + taken) % TWO64
    && forall i: nat | taken <= i < |log| :: Element(s, g, base, i) == log[i]
  }

  /** Where the host finds the queue: head at byte 64, tail at byte 128, and from
      byte 192 on the slots, those from tail on modulo the capacity being unread. */
  lemma QueueAt(s: Bytes, g: Geometry, base: nat, log: seq<Bytes>, taken: nat, i: nat)
    requires Holds(s, g, base, log, taken)
    ensures |s| >= 192
    ensures var head, tail := FromLE(s[64..72]), FromLE(s[128..136]);
            && |log| - taken == (head - tail) % 0x1_0000_0000_0000_0000
            && (i < |log| - taken ==> StandsAt(s, g, (tail + i) % g.capacity, log[taken + i]))
  {
    OccupiedIs(s, g, base, log, taken);
    hide Element, StandsAt, Times, IsPow2, FromLE;
    if i < |log| - taken {
      UnreadStands(s, g, base, log, taken, i);
    }
  }

  lemma UnreadStands(s: Bytes, g: Geometry, base: nat, log: seq<Bytes>, taken: nat, i: nat)
    requires Holds(s, g, base, log, taken) && i < |log| - taken
    ensures StandsAt(s, g, (Tail(s) + i) % g.capacity, log[taken + i])
  {
    hide Element, StandsAt, Times, IsPow2, FromLE;
    ElementShift(s, g, base, taken, i);
    StandsWhere(s, g, base + taken, i, log[taken + i], Tail(s));
  }

  lemma ElementShift(s: Bytes, g: Geometry, base: nat, taken: nat, i: nat)
    requires Sound(g) && Need(g) <= |s|
    ensures Element(s, g, base, taken + i) == Element(s, g, base + taken, i)
  {
    hide Slot;
  }

  lemma StandsWhere(s: Bytes, g: Geometry, n: nat, i: nat, slot: Bytes, tail: uint64)
    requires Sound(g) && Need(g) <= |s| && Element(s, g, n, i) == slot && tail == n % TWO64
    ensures StandsAt(s, g, (tail + i) % g.capacity, slot)
  {
    hide Element, StandsAt, IsPow2;
    SameSlot(g, n, i);
    ElementAt(s, g, n, i);
  }

  /** Slot number `k` holds `slot`. */
  ghost predicate StandsAt(s: Bytes, g: Geometry, k: nat, slot: Bytes) {
    var o := 192 + k * g.slotSize;
    o + g.slotSize <= |s| && slot == s[o..o + g.slotSize]
  }

  lemma SameSlot(g: Geometry, n: nat, i: nat)
    requires Sound(g)
    ensures (n % TWO64 + i) % g.capacity == (n + i) % g.capacity
  {
    hide And, IsPow2;
    MaskIsModulo(g, n);
    MaskIsModulo(g, n % TWO64);
    ModPlus(n % TWO64, n, i, g.capacity);
  }

  lemma ModPlus(a: nat, b: nat, i: nat, d: nat)
    requires d > 0 && a % d == b % d
    ensures (a + i) % d == (b + i) % d
  {
    var r := b % d + i;
    assert a + i == a / d * d + r && b + i == b / d * d + r;
    assert (a / d + r / d) * d == a / d * d + r / d * d && (b / d + r / d) * d == b / d * d + r / d * d;
    QuotientUnique(a + i, d, a / d + r / d, r % d);
    QuotientUnique(b + i, d, b / d + r / d, r % d);
  }

  lemma ElementAt(s: Bytes, g: Geometry, base: nat, i: nat)
    requires Sound(g) && Need(g) <= |s|
    ensures StandsAt(s, g, (base + i) % g.capacity, Element(s, g, base, i))
  {
    MaskIsModulo(g, base + i);
    SlotInBounds(g, (base + i) % TWO64);
    TimesIsProduct((base + i) % g.capacity, g.slotSize);
  }

  lemma WrapDiff(a: nat, b: nat)
    requires b <= a < b + TWO64
    ensures (a % TWO64 - b % TWO64) % TWO64 == a - b
  {
  }

  /** The occupied count that the wrapped indices give is the true one. */
  lemma OccupiedIs(s: Bytes, g: Geometry, base: nat, log: seq<Bytes>, taken: nat)
    requires Holds(s, g, base, log, taken)
    ensures Distance(Head(s), Tail(s)) == |log| - taken <= g.capacity
    ensures Head(s) == Tail(s) <==> |log| == taken
  {
    WrapDiff(base + |log|, base + taken);
  }

  /** The slot a producer may write is none of the unread ones. */
  lemma FreeSlotApart(g: Geometry, base: nat, i: nat, n: nat)
    requires Sound(g) && i < n < i + g.capacity
    ensures var free, unread := (base + n) % TWO64, (base + i) % TWO64;
            || SlotStart(g, free) + g.slotSize <= SlotStart(g, unread)
            || SlotStart(g, unread) + g.slotSize <= SlotStart(g, free)
  {
    MaskIsModulo(g, base + n);
    MaskIsModulo(g, base + i);
    ResiduesDiffer(base + i, base + n, g.capacity);
    SlotsApart(g, (base + n) % TWO64, (base + i) % TWO64);
  }

  lemma ResiduesDiffer(a: nat, b: nat, d: nat)
    requires d > 0 && a < b < a + d
    ensures a % d != b % d
  {
    if a % d == b % d {
      assert b - a == (b / d - a / d) * d by {
        assert a == a / d * d + a % d && b == b / d * d + b % d;
        assert (b / d - a / d) * d == b / d * d - a / d * d;
      }
      MulGrows(b / d - a / d, d);
      assert false;
    }
  }

  lemma WriteKeepsElement(s: Bytes, g: Geometry, base: nat, i: nat, n: nat, at: nat, t: Bytes)
    requires Sound(g) && Need(g) <= |s| && i < n < i + g.capacity && at + |t| <= g.slotSize
    ensures SlotStart(g, (base + n) % TWO64) + at + |t| <= |s|
    ensures Element(Splice(s, SlotStart(g, (base + n) % TWO64) + at, t), g, base, i) == Element(s, g, base, i)
  {
    var f, o := SlotStart(g, (base + n) % TWO64), SlotStart(g, (base + i) % TWO64);
    FreeSlotApart(g, base, i, n);
    SlotInBounds(g, (base + n) % TWO64);
    SlotInBounds(g, (base + i) % TWO64);
    SpliceFrame(s, f + at, t, o, o + g.slotSize);
  }

  lemma WriteKeepsIndices(s: Bytes, off: nat, t: Bytes)
    requires SLOTS_OFF <= off && off + |t| <= |s|
    ensures Head(Splice(s, off, t)) == Head(s) && Tail(Splice(s, off, t)) == Tail(s)
  {
    SpliceFrame(s, off, t, HEAD_OFF, HEAD_OFF + 8);
    SpliceFrame(s, off, t, TAIL_OFF, TAIL_OFF + 8);
  }

  /** Writing inside the free slot changes nothing the queue can see. */
  lemma WriteFreeSlot(s: Bytes, g: Geometry, base: nat, log: seq<Bytes>, taken: nat, at: nat, t: Bytes)
    requires Holds(s, g, base, log, taken) && |log| < taken + g.capacity
    requires at + |t| <= g.slotSize
    ensures |s| >= SLOTS_OFF && SlotStart(g, Head(s)) + at + |t| <= |s|
    ensures Holds(Splice(s, SlotStart(g, Head(s)) + at, t), g, base, log, taken)
  {
    hide SlotStart, Splice, Element;
    SlotInBounds(g, Head(s));
    var off := SlotStart(g, Head(s)) + at;
    WriteKeepsIndices(s, off, t);
    WriteKeepsElements(s, Splice(s, off, t), g, base, log, taken, at, t);
  }

  lemma WriteKeepsElements(s: Bytes, s': Bytes, g: Geometry, base: nat, log: seq<Bytes>, taken: nat,
                           at: nat, t: Bytes)
    requires Holds(s, g, base, log, taken) && |log| < taken + g.capacity
    requires at + |t| <= g.slotSize && SlotStart(g, Head(s)) + at + |t| <= |s|
    requires s' == Splice(s, SlotStart(g, Head(s)) + at, t)
    ensures forall i: nat | taken <= i < |log| :: Element(s', g, base, i) == log[i]
  {
    hide SlotStart, Splice, Element;
    forall i: nat | taken <= i < |log| ensures Element(s', g, base, i) == log[i] {
      WriteKeepsElement(s, g, base, i, |log|, at, t);
    }
  }

  lemma StoreHead(s: Bytes, v: uint64)
    requires |s| >= SLOTS_OFF
    ensures Head(Splice(s, HEAD_OFF, LE(v, 8))) == v && Tail(Splice(s, HEAD_OFF, LE(v, 8))) == Tail(s)
  {
    var s' := Splice(s, HEAD_OFF, LE(v, 8));
    assert s'[HEAD_OFF..HEAD_OFF + 8] == LE(v, 8);
    Widths();
    FromLEOfLE(v, 8);
    SpliceFrame(s, HEAD_OFF, LE(v, 8), TAIL_OFF, TAIL_OFF + 8);
  }

  lemma StoreTail(s: Bytes, v: uint64)
    requires |s| >= SLOTS_OFF
    ensures Tail(Splice(s, TAIL_OFF, LE(v, 8))) == v && Head(Splice(s, TAIL_OFF, LE(v, 8))) == Head(s)
  {
    var s' := Splice(s, TAIL_OFF, LE(v, 8));
    assert s'[TAIL_OFF..TAIL_OFF + 8] == LE(v, 8);
    Widths();
    FromLEOfLE(v, 8);
    SpliceFrame(s, TAIL_OFF, LE(v, 8), HEAD_OFF, HEAD_OFF + 8);
  }

  lemma StoreKeepsElement(s: Bytes, g: Geometry, base: nat, off: nat, v: uint64, i: nat)
    requires Sound(g) && Need(g) <= |s| && off + 8 <= SLOTS_OFF
    ensures Element(Splice(s, off, LE(v, 8)), g, base, i) == Element(s, g, base, i)
  {
    var o := SlotStart(g, (base + i) % TWO64);
    SlotInBounds(g, (base + i) % TWO64);
    SpliceFrame(s, off, LE(v, 8), o, o + g.slotSize);
  }

  lemma NextIndex(n: nat)
    ensures (n % TWO64 + 1) % TWO64 == (n + 1) % TWO64
  {
  }

  lemma StoreKeepsElements(s: Bytes, g: Geometry, base: nat, off: nat, v: uint64)
    requires Sound(g) && Need(g) <= |s| && off + 8 <= SLOTS_OFF
    ensures forall i: nat :: Element(Splice(s, off, LE(v, 8)), g, base, i) == Element(s, g, base, i)
  {
    forall i: nat ensures Element(Splice(s, off, LE(v, 8)), g, base, i) == Element(s, g, base, i) {
      StoreKeepsElement(s, g, base, off, v, i);
    }
  }

  /** Storing head + 1 publishes the bytes of the free slot as the newest
      element. */
  lemma Publish(s: Bytes, g: Geometry, base: nat, log: seq<Bytes>, taken: nat)
    requires Holds(s, g, base, log, taken) && |log| < taken + g.capacity
    ensures Holds(Published(s), g, base, log + [Element(s, g, base, |log|)], taken)
  {
    hide Element, Splice, SlotStart;
    var v := (Head(s) + 1) % TWO64;
    StoreHead(s, v);
    NextIndex(base + |log|);
    StoreKeepsElements(s, g, base, HEAD_OFF, v);
  }

  /** Storing tail + 1 releases the oldest element. */
  lemma Release(s: Bytes, g: Geometry, base: nat, log: seq<Bytes>, taken: nat)
    requires Holds(s, g, base, log, taken) && taken < |log|
    ensures Holds(Released(s), g, base, log, taken + 1)
  {
    hide Element, Splice, SlotStart;
    var v := (Tail(s) + 1) % TWO64;
    StoreTail(s, v);
    NextIndex(base + taken);
    StoreKeepsElements(s, g, base, TAIL_OFF, v);
  }
}
