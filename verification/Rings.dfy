/** A ring as one side uses it: adopted from mapped bytes, then read and written
    in place (server-go/bus/ring.go). */
module Rings {
  import opened Bytes
  import opened RingLayout

  function U32(s: Bytes, off: nat): (r: uint32)
    requires off + 4 <= |s|
  {
    FromLEBound(s[off..off + 4]);
    Widths();
    FromLE(s[off..off + 4])
  }

  function GeometryAt(s: Bytes): Geometry
    requires |s| >= SLOTS_OFF
  {
    Geometry(U32(s, 4), U32(s, 8))
  }

  ghost predicate HeaderOk(s: Bytes) {
    && |s| >= SLOTS_OFF
    && U32(s, 0) == RING_MAGIC
    && Sound(GeometryAt(s))
    && U32(s, 12) == U32(s, 8) - 1
    && U32(s, 16) == SLOTS_OFF
    && Need(GeometryAt(s)) <= |s|
  }

  /** The header describes a ring that fits the mapping and whose indices are at
      most one capacity apart. */
  ghost predicate Adoptable(s: Bytes) {
    && HeaderOk(s)
    && Distance(Head(s), Tail(s)) <= GeometryAt(s).capacity
  }

  /** The header of an adoptable ring, place by place. */
  lemma AdoptableAt(s: Bytes)
    ensures Adoptable(s) <==>
      && |s| >= 192 && FromLE(s[0..4]) == 0x474e4952
      && var slotSize, capacity := FromLE(s[4..8]), FromLE(s[8..12]);
         && slotSize > 0 && capacity >= 2 && And(capacity, capacity - 1) == 0
         && FromLE(s[12..16]) == capacity - 1 && FromLE(s[16..20]) == 192 && 192 + slotSize * capacity <= |s|
         && (FromLE(s[64..72]) - FromLE(s[128..136])) % 0x1_0000_0000_0000_0000 <= capacity
  {
    if |s| >= 192 {
      var g := GeometryAt(s);
      CapacityOkMeans(g.capacity, g.slotSize);
      TimesIsProduct(g.capacity, g.slotSize);
    }
    hide FromLE, And, Times, IsPow2;
  }

  /** The slots lying between tail and head, oldest first. */
  ghost function Unread(s: Bytes, g: Geometry, first: uint64, count: nat): (r: seq<Bytes>)
    requires Sound(g) && Need(g) <= |s|
    ensures |r| == count
  {
    seq(count, i requires 0 <= i < count => Element(s, g, first, i))
  }

  /** The power-of-two test AttachRing applies to the capacity. */
  predicate CapacityOk(capacity: uint32) {
    capacity >= 2 && And(capacity, capacity - 1) == 0
  }

  lemma CapacityOkMeans(capacity: uint32, slotSize: uint32)
    ensures CapacityOk(capacity) && slotSize != 0 <==> Sound(Geometry(slotSize, capacity))
  {
    if capacity >= 2 {
      PowerOfTwoTest(capacity);
    }
  }

  lemma AdoptedHolds(s: Bytes)
    requires Adoptable(s)
    ensures var g, count := GeometryAt(s), Distance(Head(s), Tail(s));
            Holds(s, g, Tail(s), Unread(s, g, Tail(s), count), 0)
  {
    hide Element, Times;
    DistanceSpan(Head(s), Tail(s));
  }

  lemma DistanceSpan(head: uint64, tail: uint64)
    ensures (tail + Distance(head, tail)) % TWO64 == head
  {
  }

  class Ring {
    const mem: array<byte>
    const slotSize: uint32
    const capacity: uint32
    const mask: uint32

    /** The unwrapped index of the first slot of `log`. */
    ghost const base: nat
    /** Every slot ever published, and how many of them have been released. */
    ghost var log: seq<Bytes>
    ghost var taken: nat

    ghost predicate Valid()
      reads this, mem
    {
      mask == capacity - 1 && Holds(mem[..], Geo(), base, log, taken)
    }

    ghost function Geo(): Geometry {
      Geometry(slotSize, capacity)
    }

    /** The published slots not yet released, oldest first. */
    ghost function Contents(): (r: seq<Bytes>)
      reads this, mem
      requires Valid()
      ensures |r| == |log| - taken <= capacity
    {
      log[taken..]
    }

    constructor Adopt(mem: array<byte>, slotSize: uint32, capacity: uint32)
      requires Adoptable(mem[..]) && GeometryAt(mem[..]) == Geometry(slotSize, capacity)
      ensures Valid() && this.mem == mem && this.slotSize == slotSize && this.capacity == capacity
      ensures Contents() == Unread(mem[..], Geo(), Tail(mem[..]), Distance(Head(mem[..]), Tail(mem[..])))
    {
      this.mem, this.slotSize, this.capacity, this.mask := mem, slotSize, capacity, capacity - 1;
      this.base, this.taken := Tail(mem[..]), 0;
      this.log := Unread(mem[..], Geometry(slotSize, capacity), Tail(mem[..]),
                         Distance(Head(mem[..]), Tail(mem[..])));
      AdoptedHolds(mem[..]);
    }

    /** Adopts the ring at the start of `mem`, or refuses it. */
    static method Attach(mem: array<byte>) returns (r: Ring?)
      ensures r != null <==> Adoptable(mem[..])
      ensures r != null ==> fresh(r) && r.Valid() && r.mem == mem && r.Geo() == GeometryAt(mem[..])
      ensures r != null ==>
        r.Contents() == Unread(mem[..], r.Geo(), Tail(mem[..]), Distance(Head(mem[..]), Tail(mem[..])))
    {
      var ok, slot, capv := CheckHeader(mem);
      if !ok {
        return null;
      }
      var head := LoadIndex(mem, HEAD_OFF);
      var tail := LoadIndex(mem, TAIL_OFF);
      if Distance(head, tail) > capv {
        return null;
      }
      r := new Ring.Adopt(mem, slot, capv);
    }

    static method CheckHeader(mem: array<byte>) returns (ok: bool, slot: uint32, capv: uint32)
      ensures ok <==> HeaderOk(mem[..])
      ensures ok ==> GeometryAt(mem[..]) == Geometry(slot, capv)
    {
      if mem.Length < SLOTS_OFF {
        return false, 0, 0;
      }
      var magic := LoadU32(mem, 0);
      if magic != RING_MAGIC {
        return false, 0, 0;
      }
      slot := LoadU32(mem, 4);
      capv := LoadU32(mem, 8);
      var mask := LoadU32(mem, 12);
      var slotsOff := LoadU32(mem, 16);
      CapacityOkMeans(capv, slot);
      if !CapacityOk(capv) || slot == 0 || mask != capv - 1 || slotsOff != SLOTS_OFF {
        return false, slot, capv;
      }
      TimesIsProduct(capv, slot);
      var need: nat := slotsOff + slot * capv;
      return mem.Length >= need, slot, capv;
    }

    static method LoadU32(mem: array<byte>, off: nat) returns (v: uint32)
      requires off + 4 <= mem.Length
      ensures v == U32(mem[..], off)
    {
      Widths();
      var n := GetLE(mem, off, 4);
      assert mem[..][off..off + 4] == mem[off..off + 4];
      v := n;
    }

    static method LoadIndex(mem: array<byte>, off: nat) returns (v: uint64)
      requires mem.Length >= SLOTS_OFF && (off == HEAD_OFF || off == TAIL_OFF)
      ensures v == if off == HEAD_OFF then Head(mem[..]) else Tail(mem[..])
    {
      Widths();
      var n := GetLE(mem, off, 8);
      assert mem[..][off..off + 8] == mem[off..off + 8];
      v := n;
    }

    /** The occupied slots. */
    method Count() returns (n: uint64)
      requires Valid()
      ensures n == |Contents()|
    {
      var head := LoadIndex(mem, HEAD_OFF);
      var tail := LoadIndex(mem, TAIL_OFF);
      OccupiedIs(mem[..], Geo(), base, log, taken);
      return Distance(head, tail);
    }

    method SlotFor(index: uint64) returns (off: nat)
      requires Valid()
      ensures off == SlotStart(Geo(), index) && off + slotSize <= mem.Length
    {
      SlotInBounds(Geo(), index);
      TimesIsProduct(And(index, mask), slotSize);
      off := SLOTS_OFF + And(index, mask) * slotSize;
    }

    /** The slot to fill next, unless the ring is full. */
    method ProduceBegin() returns (ok: bool, off: nat)
      requires Valid()
      ensures ok <==> |Contents()| < capacity
      ensures ok ==> off == SlotStart(Geo(), Head(mem[..])) && off + slotSize <= mem.Length
    {
      var head := LoadIndex(mem, HEAD_OFF);
      var tail := LoadIndex(mem, TAIL_OFF);
      OccupiedIs(mem[..], Geo(), base, log, taken);
      if Distance(head, tail) >= capacity {
        return false, 0;
      }
      off := SlotFor(head);
      return true, off;
    }

    /** Publishes the slot most recently begun. */
    method ProduceCommit()
      requires Valid() && |Contents()| < capacity
      modifies this`log, mem
      ensures Valid()
      ensures log == old(log) + [old(Element(mem[..], Geo(), base, |log|))]
    {
      hide Element, Splice, Times;
      ghost var s := mem[..];
      var head := LoadIndex(mem, HEAD_OFF);
      Publish(s, Geo(), base, log, taken);
      PutLE(mem, HEAD_OFF, (head + 1) % TWO64, 8);
      assert mem[..] == Published(s);
      log := log + [Element(s, Geo(), base, |log|)];
    }

    /** The oldest unread slot, if there is one. */
    method ConsumeBegin() returns (ok: bool, off: nat)
      requires Valid()
      ensures ok <==> Contents() != []
      ensures ok ==> off + slotSize <= mem.Length && mem[off..off + slotSize] == Contents()[0]
    {
      var tail := LoadIndex(mem, TAIL_OFF);
      var head := LoadIndex(mem, HEAD_OFF);
      OccupiedIs(mem[..], Geo(), base, log, taken);
      if head == tail {
        return false, 0;
      }
      off := SlotFor(tail);
      assert Element(mem[..], Geo(), base, taken) == log[taken];
      assert mem[..][off..off + slotSize] == mem[off..off + slotSize];
      return true, off;
    }

    /** Releases the oldest unread slot for reuse. */
    method ConsumeCommit()
      requires Valid() && Contents() != []
      modifies this`taken, mem
      ensures Valid()
      ensures taken == old(taken) + 1
    {
      hide Element, Splice, Times;
      ghost var s := mem[..];
      var tail := LoadIndex(mem, TAIL_OFF);
      Release(s, Geo(), base, log, taken);
      PutLE(mem, TAIL_OFF, (tail + 1) % TWO64, 8);
      assert mem[..] == Released(s);
      taken := taken + 1;
    }

    /** Lays out an empty ring over `mem`, as the host does, and adopts it. */
    static method Init(mem: array<byte>, slotSize: uint32, capacity: uint32) returns (r: Ring?)
      modifies mem
      ensures r != null <==>
        Sound(Geometry(slotSize, capacity)) && Need(Geometry(slotSize, capacity)) <= mem.Length
      ensures r == null ==> mem[..] == old(mem[..])
      ensures r != null ==>
        fresh(r) && r.Valid() && r.mem == mem && r.Geo() == Geometry(slotSize, capacity) && r.Contents() == []
    {
      CapacityOkMeans(capacity, slotSize);
      TimesIsProduct(capacity, slotSize);
      if !CapacityOk(capacity) || slotSize == 0 {
        return null;
      }
      var need: nat := SLOTS_OFF + slotSize * capacity;
      if mem.Length < need {
        return null;
      }
      Clear(mem, 0, need);
      WriteHeader(mem, slotSize, capacity);
      r := Attach(mem);
    }

    static method WriteHeader(mem: array<byte>, slotSize: uint32, capacity: uint32)
      requires mem.Length >= SLOTS_OFF && capacity > 0
      modifies mem
      ensures var s := mem[..];
              && U32(s, 0) == RING_MAGIC && U32(s, 4) == slotSize && U32(s, 8) == capacity
              && U32(s, 12) == capacity - 1 && U32(s, 16) == SLOTS_OFF && Head(s) == 0 && Tail(s) == 0
    {
      Widths();
      Store(mem, 4, slotSize, 4);
      Store(mem, 8, capacity, 4);
      Store(mem, 12, capacity - 1, 4);
      Store(mem, 16, SLOTS_OFF, 4);
      Store(mem, HEAD_OFF, 0, 8);
      Store(mem, TAIL_OFF, 0, 8);
      Store(mem, 0, RING_MAGIC, 4);
      assert U32(mem[..], 0) == FromLE(mem[0..4]) && U32(mem[..], 4) == FromLE(mem[4..8]);
      assert U32(mem[..], 8) == FromLE(mem[8..12]) && U32(mem[..], 12) == FromLE(mem[12..16]);
      assert U32(mem[..], 16) == FromLE(mem[16..20]);
      assert Head(mem[..]) == FromLE(mem[HEAD_OFF..HEAD_OFF + 8]);
      assert Tail(mem[..]) == FromLE(mem[TAIL_OFF..TAIL_OFF + 8]);
    }

    /** Stores one field; no other window changes. */
    static method Store(mem: array<byte>, off: nat, v: nat, n: nat)
      requires off + n <= mem.Length && v < Pow256(n)
      modifies mem
      ensures FromLE(mem[off..off + n]) == v
      ensures forall lo, hi {:trigger mem[lo..hi]} ::
        0 <= lo <= hi <= mem.Length && (hi <= off || off + n <= lo) ==> mem[lo..hi] == old(mem[lo..hi])
    {
      PutLE(mem, off, v, n);
      FromLEOfLE(v, n);
      ghost var s, s' := old(mem[..]), mem[..];
      assert s'[off..off + n] == LE(v, n) && mem[off..off + n] == s'[off..off + n];
      forall lo, hi | 0 <= lo <= hi <= mem.Length && (hi <= off || off + n <= lo)
        ensures mem[lo..hi] == old(mem[lo..hi])
      {
        SpliceFrame(s, off, LE(v, n), lo, hi);
        assert s'[lo..hi] == mem[lo..hi] && s[lo..hi] == old(mem[lo..hi]);
      }
    }
  }
}
