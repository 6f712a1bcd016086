/** A producer and a consumer sharing one ring, one atomic load or store at a
    time, in any interleaving (server-go/bus/ring.go:79-126). Each side decides
    on index values it loaded earlier, which the other side may have moved since.
    The machine is shown to be a first-in first-out queue. */
module RingMachine {
  import opened Bytes
  import opened RingLayout
  import Rings

  /** Where the producer stands, with the index values it has loaded. */
  datatype Producer =
    | PIdle
    | PLoadedHead(head: uint64)      // in ProduceBegin, tail not yet loaded
    | PWriting(head: uint64)         // holds the slot ProduceBegin returned
    | PCommitting(head: uint64)      // in ProduceCommit, store pending

  /** Where the consumer stands. */
  datatype Consumer =
    | CIdle
    | CLoadedTail(tail: uint64)      // in ConsumeBegin, head not yet loaded
    | CHolding(tail: uint64)         // holds the slot ConsumeBegin returned
    | CCommitting(tail: uint64)      // in ConsumeCommit, store pending

  /** The mapped bytes and the two program counters; `log`, `taken` and `got`
      record what was published, how much was released, and what the consumer
      saw in each slot it released. */
  datatype State = State(
    mem: Bytes, producer: Producer, consumer: Consumer,
    log: seq<Bytes>, taken: nat, got: seq<Bytes>)

  datatype Action =
    | PLoadHead
    | PLoadTail
    | PWrite(at: nat, value: byte)
    | PAbandon                       // the slot is given up without a commit
    | PLoadHeadAgain
    | PStoreHead
    | CLoadTail
    | CLoadHead
    | CLoadTailAgain
    | CStoreTail

  function SlotAt(s: State, g: Geometry, index: uint64): (r: Bytes)
    requires Sound(g) && Need(g) <= |s.mem|
  {
    SlotInBounds(g, index);
    Slot(s.mem, g, index)
  }

  /** One atomic step; an action that the program counters do not allow changes
      nothing. */
  function Step(s: State, g: Geometry, a: Action): (r: State)
    requires Sound(g) && Need(g) <= |s.mem|
    ensures |r.mem| == |s.mem|
  {
    match a
    case PLoadHead =>
      if s.producer.PIdle? then s.(producer := PLoadedHead(Head(s.mem))) else s
    case PLoadTail =>
      if !s.producer.PLoadedHead? then s
      else if Distance(s.producer.head, Tail(s.mem)) >= g.capacity then s.(producer := PIdle)
      else s.(producer := PWriting(s.producer.head))
    case PWrite(at, value) =>
      if !s.producer.PWriting? || at >= g.slotSize then s
      else
        SlotInBounds(g, s.producer.head);
        s.(mem := Splice(s.mem, SlotStart(g, s.producer.head) + at, [value]))
    case PAbandon =>
      if s.producer.PWriting? then s.(producer := PIdle) else s
    case PLoadHeadAgain =>
      if s.producer.PWriting? then s.(producer := PCommitting(Head(s.mem))) else s
    case PStoreHead =>
      if !s.producer.PCommitting? then s
      else s.(mem := Splice(s.mem, HEAD_OFF, LE((s.producer.head + 1) % TWO64, 8)),
              log := s.log + [SlotAt(s, g, s.producer.head)], producer := PIdle)
    case CLoadTail =>
      if s.consumer.CIdle? then s.(consumer := CLoadedTail(Tail(s.mem))) else s
    case CLoadHead =>
      if !s.consumer.CLoadedTail? then s
      else if Head(s.mem) == s.consumer.tail then s.(consumer := CIdle)
      else s.(consumer := CHolding(s.consumer.tail))
    case CLoadTailAgain =>
      if !s.consumer.CHolding? then s
      else s.(got := s.got + [SlotAt(s, g, s.consumer.tail)], consumer := CCommitting(Tail(s.mem)))
    case CStoreTail =>
      if !s.consumer.CCommitting? then s
      else s.(mem := Splice(s.mem, TAIL_OFF, LE((s.consumer.tail + 1) % TWO64, 8)),
              taken := s.taken + 1, consumer := CIdle)
  }

  function Run(s: State, g: Geometry, acts: seq<Action>): (r: State)
    requires Sound(g) && Need(g) <= |s.mem|
    ensures |r.mem| == |s.mem|
    decreases |acts|
  {
    if acts == [] then s else Run(Step(s, g, acts[0]), g, acts[1..])
  }

  // -------------------------------------------------------------- invariant

  ghost predicate Inv(s: State, g: Geometry, base: nat) {
    && Holds(s.mem, g, base, s.log, s.taken)
    && (s.producer != PIdle ==> s.producer.head == Head(s.mem))
    && (s.producer.PWriting? || s.producer.PCommitting? ==> |s.log| < s.taken + g.capacity)
    && (s.consumer != CIdle ==> s.consumer.tail == Tail(s.mem))
    && (s.consumer.CHolding? || s.consumer.CCommitting? ==> s.taken < |s.log|)
    && s.got == s.log[..s.taken + (if s.consumer.CCommitting? then 1 else 0)]
  }

  /** Any ring AttachRing adopts starts in the invariant, with both sides idle and
      whatever lies between its indices as the initial queue. */
  lemma AdoptedInv(mem: Bytes)
    requires Rings.Adoptable(mem)
    ensures var g := Rings.GeometryAt(mem);
            var queue := Rings.Unread(mem, g, Tail(mem), Distance(Head(mem), Tail(mem)));
            Inv(State(mem, PIdle, CIdle, queue, 0, []), g, Tail(mem))
  {
    Rings.AdoptedHolds(mem);
  }

  lemma ProducerStep(s: State, g: Geometry, base: nat, a: Action)
    requires Inv(s, g, base) && (a.PLoadHead? || a.PLoadTail? || a.PAbandon? || a.PLoadHeadAgain?)
    ensures Inv(Step(s, g, a), g, base)
  {
    OccupiedIs(s.mem, g, base, s.log, s.taken);
  }

  lemma WriteStep(s: State, g: Geometry, base: nat, a: Action)
    requires Inv(s, g, base) && a.PWrite?
    ensures Inv(Step(s, g, a), g, base)
  {
    hide Times, Element;
    if s.producer.PWriting? && a.at < g.slotSize {
      SlotInBounds(g, s.producer.head);
      WriteFreeSlot(s.mem, g, base, s.log, s.taken, a.at, [a.value]);
      WriteKeepsIndices(s.mem, SlotStart(g, s.producer.head) + a.at, [a.value]);
    }
  }

  lemma PublishStep(s: State, g: Geometry, base: nat)
    requires Inv(s, g, base)
    ensures Inv(Step(s, g, PStoreHead), g, base)
  {
    hide Times, Splice, Slot, SlotStart;
    if s.producer.PCommitting? {
      Publish(s.mem, g, base, s.log, s.taken);
      StoreHead(s.mem, (s.producer.head + 1) % TWO64);
      assert SlotAt(s, g, s.producer.head) == Element(s.mem, g, base, |s.log|);
    }
  }

  lemma ConsumerStep(s: State, g: Geometry, base: nat, a: Action)
    requires Inv(s, g, base) && (a.CLoadTail? || a.CLoadHead? || a.CLoadTailAgain?)
    ensures Inv(Step(s, g, a), g, base)
  {
    OccupiedIs(s.mem, g, base, s.log, s.taken);
    if a.CLoadTailAgain? && s.consumer.CHolding? {
      HeldIsOldest(s, g, base);
      assert s.log[..s.taken + 1] == s.log[..s.taken] + [s.log[s.taken]];
    }
  }

  lemma ReleaseStep(s: State, g: Geometry, base: nat)
    requires Inv(s, g, base)
    ensures Inv(Step(s, g, CStoreTail), g, base)
  {
    hide Times, Splice, Element, Slot, SlotStart, LE;
    if s.consumer.CCommitting? {
      Release(s.mem, g, base, s.log, s.taken);
      StoreTail(s.mem, (s.consumer.tail + 1) % TWO64);
    }
  }

  /** Every atomic step of either side keeps the invariant. */
  lemma StepKeepsInv(s: State, g: Geometry, base: nat, a: Action)
    requires Inv(s, g, base)
    ensures Inv(Step(s, g, a), g, base)
  {
    match a
    case PWrite(_, _) => WriteStep(s, g, base, a);
    case PStoreHead => PublishStep(s, g, base);
    case CStoreTail => ReleaseStep(s, g, base);
    case PLoadHead => ProducerStep(s, g, base, a);
    case PLoadTail => ProducerStep(s, g, base, a);
    case PAbandon => ProducerStep(s, g, base, a);
    case PLoadHeadAgain => ProducerStep(s, g, base, a);
    case CLoadTail => ConsumerStep(s, g, base, a);
    case CLoadHead => ConsumerStep(s, g, base, a);
    case CLoadTailAgain => ConsumerStep(s, g, base, a);
  }

  /** The slot the consumer holds is the oldest unread one. */
  lemma HeldIsOldest(s: State, g: Geometry, base: nat)
    requires Inv(s, g, base) && (s.consumer.CHolding? || s.consumer.CCommitting?)
    ensures SlotAt(s, g, s.consumer.tail) == s.log[s.taken]
  {
    assert Element(s.mem, g, base, s.taken) == s.log[s.taken];
  }

  lemma {:induction false} RunKeepsInv(s: State, g: Geometry, base: nat, acts: seq<Action>)
    requires Inv(s, g, base)
    ensures Inv(Run(s, g, acts), g, base)
    decreases |acts|
  {
    if acts != [] {
      StepKeepsInv(s, g, base, acts[0]);
      RunKeepsInv(Step(s, g, acts[0]), g, base, acts[1..]);
    }
  }

  // ---------------------------------------------------- the ring is a queue

  /** The abstract queue: published and not yet released. */
  function Queue(s: State): seq<Bytes> {
    if s.taken <= |s.log| then s.log[s.taken..] else []
  }

  /** Each atomic step leaves the queue alone, appends the slot just written, or
      removes the oldest. */
  lemma StepIsQueueStep(s: State, g: Geometry, base: nat, a: Action)
    requires Inv(s, g, base)
    ensures var t := Step(s, g, a);
            if a.PStoreHead? && s.producer.PCommitting?
            then Queue(t) == Queue(s) + [SlotAt(s, g, s.producer.head)] && |Queue(s)| < g.capacity
            else if a.CStoreTail? && s.consumer.CCommitting?
            then Queue(s) != [] && Queue(t) == Queue(s)[1..]
            else Queue(t) == Queue(s)
  {
    hide Times, Splice, Element, SlotStart, LE, Head, Tail, Distance, SlotAt;
    var t := Step(s, g, a);
    if a.PStoreHead? && s.producer.PCommitting? {
      assert t.log == s.log + [SlotAt(s, g, s.producer.head)] && t.taken == s.taken;
    } else if a.CStoreTail? && s.consumer.CCommitting? {
      assert t.log == s.log && t.taken == s.taken + 1;
    } else {
      assert t.log == s.log && t.taken == s.taken;
    }
  }

  /** Over any run: what the consumer has seen is a prefix, in order, of what the
      producer published; and however often both counters have wrapped, the
      distance between the indices in memory is the queue's length and at most
      the capacity. */
  lemma FirstInFirstOut(s: State, g: Geometry, base: nat, acts: seq<Action>)
    requires Inv(s, g, base)
    ensures var t := Run(s, g, acts);
            && t.got <= t.log
            && Distance(Head(t.mem), Tail(t.mem)) == |Queue(t)| <= g.capacity
  {
    RunKeepsInv(s, g, base, acts);
    var t := Run(s, g, acts);
    OccupiedIs(t.mem, g, base, t.log, t.taken);
  }

  /** The slot being written never overlaps a slot still unread, so in particular
      never the one the consumer holds. */
  lemma WriterStaysClear(s: State, g: Geometry, base: nat, acts: seq<Action>, i: nat)
    requires Inv(s, g, base)
    ensures var t := Run(s, g, acts);
            t.producer.PWriting? && t.taken <= i < |t.log| ==>
              var w, u := SlotStart(g, t.producer.head), SlotStart(g, (base + i) % TWO64);
              w + g.slotSize <= u || u + g.slotSize <= w
  {
    RunKeepsInv(s, g, base, acts);
    var t := Run(s, g, acts);
    if t.producer.PWriting? && t.taken <= i < |t.log| {
      FreeSlotApart(g, base, i, |t.log|);
    }
  }

  predicate FromProducer(a: Action) {
    a.PLoadHead? || a.PLoadTail? || a.PWrite? || a.PAbandon? || a.PLoadHeadAgain? || a.PStoreHead?
  }

  /** While the consumer holds a slot, nothing the producer does changes a byte
      of it. */
  lemma {:induction false} HeldSlotIsStable(s: State, g: Geometry, base: nat, acts: seq<Action>)
    requires Inv(s, g, base) && s.consumer.CHolding?
    requires forall i :: 0 <= i < |acts| ==> FromProducer(acts[i])
    ensures var t := Run(s, g, acts);
            t.consumer == s.consumer && SlotAt(t, g, t.consumer.tail) == SlotAt(s, g, s.consumer.tail)
    decreases |acts|
  {
    if acts != [] {
      var u := Step(s, g, acts[0]);
      assert FromProducer(acts[0]);
      StepKeepsInv(s, g, base, acts[0]);
      HeldIsOldest(s, g, base);
      HeldIsOldest(u, g, base);
      HeldSlotIsStable(u, g, base, acts[1..]);
    }
  }

  // ----------------------------------------------------------------- Count

  /** Count loads head, lets `acts` happen, then loads tail. */
  function CountAcross(s: State, g: Geometry, acts: seq<Action>): uint64
    requires Sound(g) && Need(g) <= |s.mem|
  {
    Distance(Head(s.mem), Tail(Run(s, g, acts).mem))
  }

  lemma {:induction false} TakenGrows(s: State, g: Geometry, base: nat, acts: seq<Action>)
    requires Inv(s, g, base)
    ensures Run(s, g, acts).taken >= s.taken
    ensures (forall i :: 0 <= i < |acts| ==> FromProducer(acts[i])) ==> Run(s, g, acts).taken == s.taken
    ensures (forall i :: 0 <= i < |acts| ==> !FromProducer(acts[i])) ==> Run(s, g, acts).log == s.log
    decreases |acts|
  {
    hide Times, Splice;
    if acts != [] {
      StepKeepsInv(s, g, base, acts[0]);
      TakenGrows(Step(s, g, acts[0]), g, base, acts[1..]);
    }
  }

  /** No more has been released than had been published; or a whole 2^64 more, give or
      take the capacity, which wrapped counters cannot tell from it. */
  predicate NotOvertaken(released: nat, published: nat, capacity: nat) {
    || released <= published || (released - published) % TWO64 == 0
    || (released - published) % TWO64 >= TWO64 - capacity
  }

  /** A snapshot count is at most the capacity exactly when, between its two
      loads, the consumer did not release more than had been published at the
      first (or released a whole 2^64 less the capacity more). Called by the
      producer or by the consumer it always is. */
  lemma CountBound(s: State, g: Geometry, base: nat, acts: seq<Action>)
    requires Inv(s, g, base)
    ensures CountAcross(s, g, acts) <= g.capacity <==> NotOvertaken(Run(s, g, acts).taken, |s.log|, g.capacity)
    ensures (forall i :: 0 <= i < |acts| ==> FromProducer(acts[i])) ==>
              CountAcross(s, g, acts) == |Queue(s)|
    ensures (forall i :: 0 <= i < |acts| ==> !FromProducer(acts[i])) ==>
              CountAcross(s, g, acts) <= |Queue(s)|
  {
    RunKeepsInv(s, g, base, acts);
    TakenGrows(s, g, base, acts);
    hide Inv, Run, FromProducer, Distance, Head, Tail, NotOvertaken;
    TwoLoads(s, Run(s, g, acts), g, base);
    TakenAtMost(s, g, base);
    TakenAtMost(Run(s, g, acts), g, base);
  }

  lemma TakenAtMost(s: State, g: Geometry, base: nat)
    requires Inv(s, g, base)
    ensures s.taken <= |s.log| && |Queue(s)| == |s.log| - s.taken
  {
    hide Times, Element;
  }

  /** Head loaded in `s` and tail in a later state `t`. */
  lemma TwoLoads(s: State, t: State, g: Geometry, base: nat)
    requires Inv(s, g, base) && Inv(t, g, base) && s.taken <= t.taken
    ensures var count, released, published := Distance(Head(s.mem), Tail(t.mem)), t.taken, |s.log|;
            && (count <= g.capacity <==> NotOvertaken(released, published, g.capacity))
            && (released <= published ==> count == published - released)
  {
    hide Times, Element;
    CapacityBound(g);
    CountWraps(base, |s.log|, s.taken, t.taken, g.capacity);
  }

  lemma CountWraps(base: nat, published: nat, taken: nat, released: nat, capacity: nat)
    requires taken <= published <= taken + capacity && taken <= released && capacity < TWO32
    ensures var count := ((base + published) % TWO64 - (base + released) % TWO64) % TWO64;
            && (count <= capacity <==> NotOvertaken(released, published, capacity))
            && (released <= published ==> count == published - released)
  {
    WrappedDifference(base + published, base + released);
    if released > published {
      WrappedNegative(released - published);
    }
  }

  lemma WrappedDifference(a: nat, b: nat)
    ensures (a % TWO64 - b % TWO64) % TWO64 == (a - b) % TWO64
  {
  }

  lemma WrappedNegative(k: nat)
    requires k > 0
    ensures (0 - k) % TWO64 == if k % TWO64 == 0 then 0 else TWO64 - k % TWO64
  {
  }

  /** One slot produced and consumed, step by step. */
  function ProduceAndConsume(): seq<Action> {
    [PLoadHead, PLoadTail, PLoadHeadAgain, PStoreHead] + [CLoadTail, CLoadHead, CLoadTailAgain, CStoreTail]
  }

  /** The producer's half, from any state with room. */
  lemma Produces(s: State, g: Geometry, base: nat)
    requires Inv(s, g, base) && s.producer.PIdle? && |Queue(s)| < g.capacity
    ensures var t := Run(s, g, [PLoadHead, PLoadTail, PLoadHeadAgain, PStoreHead]);
            Inv(t, g, base) && t.consumer == s.consumer && t.taken == s.taken && |t.log| == |s.log| + 1
  {
    SoundCapacity(s, g, base);
    hide Inv, Sound, Need, Run, Queue, Distance, SlotAt, Splice, LE, Head, Tail;
    var a := Step(s, g, PLoadHead);
    var b := Step(a, g, PLoadTail);
    var c := Step(b, g, PLoadHeadAgain);
    FourSteps(s, g, PLoadHead, PLoadTail, PLoadHeadAgain, PStoreHead);
    StepKeepsInv(s, g, base, PLoadHead);
    SameQueue(s, a);
    TailLoadDecides(a, g, base);
    StepKeepsInv(a, g, base, PLoadTail);
    StepKeepsInv(b, g, base, PLoadHeadAgain);
    StepKeepsInv(c, g, base, PStoreHead);
  }

  /** The consumer's half, from any state with something unread. */
  lemma Consumes(s: State, g: Geometry, base: nat)
    requires Inv(s, g, base) && s.consumer.CIdle? && Queue(s) != []
    ensures var t := Run(s, g, [CLoadTail, CLoadHead, CLoadTailAgain, CStoreTail]);
            Inv(t, g, base) && t.taken == s.taken + 1 && t.log == s.log
  {
    SoundCapacity(s, g, base);
    hide Inv, Sound, Need, Run, Queue, Distance, SlotAt, Splice, LE, Head, Tail;
    var a := Step(s, g, CLoadTail);
    var b := Step(a, g, CLoadHead);
    var c := Step(b, g, CLoadTailAgain);
    FourSteps(s, g, CLoadTail, CLoadHead, CLoadTailAgain, CStoreTail);
    StepKeepsInv(s, g, base, CLoadTail);
    SameQueue(s, a);
    HeadLoadDecides(a, g, base);
    StepKeepsInv(a, g, base, CLoadHead);
    StepKeepsInv(b, g, base, CLoadTailAgain);
    StepKeepsInv(c, g, base, CStoreTail);
  }

  lemma SameQueue(s: State, t: State)
    requires s.log == t.log && s.taken == t.taken
    ensures Queue(s) == Queue(t)
  {
  }

  lemma FourSteps(s: State, g: Geometry, a: Action, b: Action, c: Action, d: Action)
    requires Sound(g) && Need(g) <= |s.mem|
    ensures Run(s, g, [a, b, c, d]) == Step(Step(Step(Step(s, g, a), g, b), g, c), g, d)
  {
    hide Step, Sound, Need;
    var t := Step(s, g, a);
    var u := Step(t, g, b);
    var v := Step(u, g, c);
    assert [a, b, c, d][1..] == [b, c, d] && [b, c, d][1..] == [c, d] && [c, d][1..] == [d] && [d][1..] == [];
    assert Run(v, g, [d]) == Step(v, g, d);
    assert Run(u, g, [c, d]) == Run(v, g, [d]);
    assert Run(t, g, [b, c, d]) == Run(u, g, [c, d]);
  }

  lemma {:induction false} RunSplit(s: State, g: Geometry, a: seq<Action>, b: seq<Action>)
    requires Sound(g) && Need(g) <= |s.mem|
    ensures Run(s, g, a + b) == Run(Run(s, g, a), g, b)
    decreases |a|
  {
    hide Step;
    if a == [] {
      assert a + b == b;
    } else {
      RunSplit(Step(s, g, a[0]), g, a[1..], b);
      assert (a + b)[1..] == a[1..] + b;
    }
  }

  /** A count taken by a third party can exceed the capacity: it loads head from an
      empty ring, one slot is produced and consumed, and it loads tail. */
  lemma CountCanExceed(s: State, g: Geometry, base: nat)
    requires Inv(s, g, base) && s.producer.PIdle? && s.consumer.CIdle? && Queue(s) == []
    ensures CountAcross(s, g, ProduceAndConsume()) > g.capacity
  {
    hide Inv, Queue, CountAcross, Run;
    CountBound(s, g, base, ProduceAndConsume());
    TakenAtMost(s, g, base);
    SoundCapacity(s, g, base);
    RunSplit(s, g, [PLoadHead, PLoadTail, PLoadHeadAgain, PStoreHead],
             [CLoadTail, CLoadHead, CLoadTailAgain, CStoreTail]);
    Produces(s, g, base);
    var m := Run(s, g, [PLoadHead, PLoadTail, PLoadHeadAgain, PStoreHead]);
    TakenAtMost(m, g, base);
    Consumes(m, g, base);
  }

  lemma SoundCapacity(s: State, g: Geometry, base: nat)
    requires Inv(s, g, base)
    ensures Sound(g) && Need(g) <= |s.mem| && 0 < g.capacity <= TWO32 / 2
  {
    CapacityBound(g);
  }

  // --------------------------------------- what the two sides decide on

  /** ProduceBegin, deciding on a head it loaded earlier, fails exactly when the queue
      is full as it loads tail. */
  lemma TailLoadDecides(s: State, g: Geometry, base: nat)
    requires Inv(s, g, base) && s.producer.PLoadedHead?
    ensures var t := Step(s, g, PLoadTail);
            && (t.producer.PIdle? <==> |Queue(s)| == g.capacity)
            && (t.producer.PWriting? <==> |Queue(s)| < g.capacity)
  {
    hide Times, Element;
    OccupiedIs(s.mem, g, base, s.log, s.taken);
  }

  /** ConsumeBegin, deciding on a tail it loaded earlier, fails exactly when the queue
      is empty as it loads head, and otherwise holds the oldest unread slot. */
  lemma HeadLoadDecides(s: State, g: Geometry, base: nat)
    requires Inv(s, g, base) && s.consumer.CLoadedTail?
    ensures var t := Step(s, g, CLoadHead);
            && (t.consumer.CIdle? <==> Queue(s) == [])
            && (t.consumer.CHolding? <==> Queue(s) != [])
            && (t.consumer.CHolding? ==> SlotAt(t, g, t.consumer.tail) == Queue(s)[0])
  {
    HeadSeen(s, g, base);
    var t := Step(s, g, CLoadHead);
    if t.consumer.CHolding? {
      StepKeepsInv(s, g, base, CLoadHead);
      HeldIsOldest(t, g, base);
    }
    hide Times, Element, SlotAt;
  }

  lemma HeadSeen(s: State, g: Geometry, base: nat)
    requires Inv(s, g, base)
    ensures Head(s.mem) == Tail(s.mem) <==> Queue(s) == []
  {
    hide Times, Element;
    OccupiedIs(s.mem, g, base, s.log, s.taken);
  }
}
