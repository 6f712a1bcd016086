/** What a run says about one correlation: every request event is absorbed,
    answered once, or turned into one job; and a handler gets exactly the bytes
    absorbed since its assembly began. */
module RuntimeHistory {
  import opened Bytes
  import opened Wire
  import opened ModuleProtocol
  import opened Fragments
  import opened RuntimeModel
  import opened RuntimeInvariant

  // -------------------------------------------------------- reply accounting

  function Count(replies: seq<Reply>, c: uint64): nat {
    if replies == [] then 0
    else Count(replies[..|replies| - 1], c) + (if replies[|replies| - 1].correlation == c then 1 else 0)
  }

  lemma CountSnoc(replies: seq<Reply>, r: Reply, c: uint64)
    ensures Count(replies + [r], c) == Count(replies, c) + if r.correlation == c then 1 else 0
  {
    assert (replies + [r])[..|replies|] == replies;
  }

  predicate IsRequest(p: Packet) {
    !Has(p.flags, F_CANCEL) && Has(p.flags, F_REQUEST)
  }

  predicate Absorbed(s: State, cfg: Config, p: Packet, now: uint64) {
    Judge(s, cfg, p, now).Absorb?
  }

  /** The action is a request event of `c` that the loop does not absorb as a
      "more" fragment, so that owes one terminal reply. */
  predicate Demands(s: State, cfg: Config, a: Action, c: uint64) {
    && a.Handle? && s.phase.Serving? && a.p.correlation == c && IsRequest(a.p)
    && !Absorbed(s, cfg, a.p, a.now)
  }

  /** How many replies a run owes to `c`. */
  function Owed(s: State, cfg: Config, acts: seq<Action>, c: uint64): nat
    decreases |acts|
  {
    if acts == [] then 0
    else (if Demands(s, cfg, acts[0], c) then 1 else 0) + Owed(Step(s, cfg, acts[0]), cfg, acts[1..], c)
  }

  /** Replies sent to `c`, and one more if a job of `c` is in flight. */
  function Settled(s: State, c: uint64): nat {
    Count(s.replies, c) + if c in s.jobs then 1 else 0
  }

  lemma JudgeShape(s: State, cfg: Config, p: Packet, now: uint64)
    ensures match Judge(s, cfg, p, now)
            case NotForUs => !IsRequest(p) && !Has(p.flags, F_CANCEL)
            case CancelRequest => Has(p.flags, F_CANCEL)
            case Refuse(r) => IsRequest(p) && r.correlation == p.correlation
            case Absorb(_) => IsRequest(p)
            case Start(w) => IsRequest(p) && w.correlation == p.correlation && p.correlation !in s.jobs
  {
    hide DecodePayload, Has;
  }

  lemma EventSettles(s: State, cfg: Config, a: Action, c: uint64)
    requires a.Handle? && s.phase.Serving? && Step(s, cfg, a).phase.Serving?
    ensures Settled(Step(s, cfg, a), c) == Settled(s, c) + if Demands(s, cfg, a, c) then 1 else 0
  {
    JudgeShape(s, cfg, a.p, a.now);
    hide Judge, IsRequest, Count, Has;
    match Judge(s, cfg, a.p, a.now)
    case Refuse(r) => CountSnoc(s.replies, Normalised(r), c);
    case _ =>
  }

  lemma CollectSettles(s: State, cfg: Config, sent: bool, c: uint64)
    requires Inv(s) && s.phase.Serving? && Step(s, cfg, Collect(sent)).phase.Serving?
    ensures Settled(Step(s, cfg, Collect(sent)), c) == Settled(s, c)
  {
    hide Count, InFlight, Filed, Normalised;
    if s.done != [] {
      TakeInFlight(s.running, s.done, s.jobs, s.nextId);
      CountSnoc(s.replies, Normalised(ReplyFor(s.done[0])), c);
    }
  }

  lemma StepSettles(s: State, cfg: Config, a: Action, c: uint64)
    requires Inv(s) && s.phase.Serving? && Step(s, cfg, a).phase.Serving?
    ensures Settled(Step(s, cfg, a), c) == Settled(s, c) + if Demands(s, cfg, a, c) then 1 else 0
  {
    match a
    case Handle(_, _, _) => EventSettles(s, cfg, a, c);
    case Collect(sent) => CollectSettles(s, cfg, sent, c);
    case _ => hide Inv, Outcome;
  }

  lemma {:induction false} StoppedForGood(s: State, cfg: Config, acts: seq<Action>)
    requires !s.phase.Serving?
    ensures !Run(s, cfg, acts).phase.Serving?
    decreases |acts|
  {
    hide Receive, Outcome;
    if acts != [] {
      StoppedForGood(Step(s, cfg, acts[0]), cfg, acts[1..]);
    }
  }

  /** While the loop runs, for each correlation: terminal replies sent, plus one if
      a job is in flight, is the number of request events that were not absorbed
      as "more" fragments. */
  lemma {:induction false} RepliesAccounted(s: State, cfg: Config, acts: seq<Action>, c: uint64)
    requires Inv(s) && Run(s, cfg, acts).phase.Serving?
    ensures Settled(Run(s, cfg, acts), c) == Settled(s, c) + Owed(s, cfg, acts, c)
    decreases |acts|
  {
    hide Step, Inv, Settled, Demands;
    if acts != [] {
      var t := Step(s, cfg, acts[0]);
      if !s.phase.Serving? {
        StoppedForGood(s, cfg, acts);
      }
      if !t.phase.Serving? {
        StoppedForGood(t, cfg, acts[1..]);
      }
      StepKeepsInv(s, cfg, acts[0]);
      StepSettles(s, cfg, acts[0], c);
      RepliesAccounted(t, cfg, acts[1..], c);
    }
  }

  /** From the start: replies to `c` and jobs of `c` account for its requests. */
  lemma EveryRequestAccounted(cfg: Config, acts: seq<Action>, c: uint64)
    requires Run(IDLE, cfg, acts).phase.Serving?
    ensures var s := Run(IDLE, cfg, acts);
            Count(s.replies, c) + (if c in s.jobs then 1 else 0) == Owed(IDLE, cfg, acts, c)
  {
    IdleInv();
    RepliesAccounted(IDLE, cfg, acts, c);
    assert Settled(IDLE, c) == 0;
  }

  // ------------------------------------------------------- assembly contents

  /** One cancel or request event of a correlation, and whether it was absorbed. */
  datatype Entry = Entry(p: Packet, absorbed: bool)

  /** What an action adds to the history of `c`. */
  function Entries(s: State, cfg: Config, a: Action, c: uint64): seq<Entry> {
    if a.Handle? && s.phase.Serving? && a.p.correlation == c && (Has(a.p.flags, F_CANCEL) || Has(a.p.flags, F_REQUEST))
    then [Entry(a.p, Absorbed(s, cfg, a.p, a.now))]
    else []
  }

  function History(s: State, cfg: Config, acts: seq<Action>, c: uint64): seq<Entry>
    decreases |acts|
  {
    if acts == [] then []
    else Entries(s, cfg, acts[0], c) + History(Step(s, cfg, acts[0]), cfg, acts[1..], c)
  }

  /** The fragments absorbed since the last event of the correlation that was not:
      since its last cancel, refusal or completed request. */
  function Pending(h: seq<Entry>): seq<Packet> {
    if h == [] || !h[|h| - 1].absorbed then []
    else Pending(h[..|h| - 1]) + [h[|h| - 1].p]
  }

  function Bodies(ps: seq<Packet>): seq<Bytes> {
    seq(|ps|, i requires 0 <= i < |ps| =>
      if DecodePayload(ps[i].payload).Some? then BodyOf(ps[i].payload) else [])
  }

  /** The packet is an invocation fragment of the same request as `m`. */
  predicate SameRequest(p: Packet, kind: uint32, m: Message) {
    var d := DecodePayload(p.payload);
    && IsRequest(p) && p.kind == kind && d.Some?
    && d.value.operation == OP_INVOKE && d.value.stageID == m.stageID
    && d.value.deadline == m.deadline && d.value.trace == m.trace
  }

  /** The assembly is the bodies of `ps` joined in order, all of one request. */
  ghost predicate Joins(a: Assembly, ps: seq<Packet>, cfg: Config) {
    && a.body == Concat(Bodies(ps)) && |a.body| <= MAX_BODY
    && a.message.stageID == ExpectedStage(cfg, a.kind)
    && forall i :: 0 <= i < |ps| ==> SameRequest(ps[i], a.kind, a.message) && Has(ps[i].flags, F_MORE)
  }

  /** An assembly of `c` exists exactly while fragments are pending, and holds
      their bodies joined in order. */
  ghost predicate AssemblyHolds(s: State, cfg: Config, c: uint64, h: seq<Entry>) {
    var ps := Pending(h);
    && (c in s.assemblies <==> ps != [])
    && (c in s.assemblies ==> Joins(s.assemblies[c], ps, cfg))
  }

  lemma BodiesSnoc(ps: seq<Packet>, p: Packet)
    requires DecodePayload(p.payload).Some?
    ensures Concat(Bodies(ps + [p])) == Concat(Bodies(ps)) + BodyOf(p.payload)
  {
    hide DecodePayload;
    assert Bodies(ps + [p]) == Bodies(ps) + [BodyOf(p.payload)];
    ConcatSplit(Bodies(ps), [BodyOf(p.payload)]);
    ConcatOne(BodyOf(p.payload));
  }

  lemma ConcatOne(b: Bytes)
    ensures Concat([b]) == b
  {
    assert [b][1..] == [];
  }

  lemma PendingSnoc(h: seq<Entry>, e: Entry)
    ensures Pending(h + [e]) == if e.absorbed then Pending(h) + [e.p] else []
  {
    assert (h + [e])[..|h|] == h;
  }

  /** What absorbing or starting says about the event and the assembly so far. */
  lemma AcceptedFragment(s: State, cfg: Config, p: Packet, now: uint64)
    ensures match Judge(s, cfg, p, now)
            case Absorb(a) =>
              var m := DecodePayload(p.payload);
              && m.Some? && Has(p.flags, F_MORE) && |a.body| <= MAX_BODY
              && SameRequest(p, a.kind, a.message) && a.message.stageID == ExpectedStage(cfg, a.kind)
              && (if p.correlation in s.assemblies
                  then a == s.assemblies[p.correlation].(body := s.assemblies[p.correlation].body + BodyOf(p.payload))
                  else a == Assembly(p.kind, m.value, BodyOf(p.payload)))
            case Start(w) =>
              var m := DecodePayload(p.payload);
              && m.Some? && !Has(p.flags, F_MORE) && |w.body| <= MAX_BODY
              && SameRequest(p, w.kind, m.value)
              && w.stageID == m.value.stageID && w.deadline == m.value.deadline && w.trace == m.value.trace
              && (if p.correlation in s.assemblies
                  then w.body == s.assemblies[p.correlation].body + BodyOf(p.payload)
                       && SameRequest(p, s.assemblies[p.correlation].kind, s.assemblies[p.correlation].message)
                  else w.body == BodyOf(p.payload))
            case _ => true
  {
    hide DecodePayload, Has, DeadlineExpired;
    if Judge(s, cfg, p, now).Absorb? && p.correlation !in s.assemblies {
      assert [] + BodyOf(p.payload) == BodyOf(p.payload);
    }
  }

  /** An event changes the assembly of its own correlation only. */
  lemma OtherCorrelation(s: State, cfg: Config, a: Action, c: uint64)
    requires !(a.Handle? && a.p.correlation == c && s.phase.Serving?)
    ensures var t := Step(s, cfg, a);
            (c in t.assemblies <==> c in s.assemblies)
            && (c in s.assemblies ==> t.assemblies[c] == s.assemblies[c])
  {
    if a.Handle? && s.phase.Serving? {
      JudgeShape(s, cfg, a.p, a.now);
    }
    hide Judge, Outcome, Normalised;
  }

  lemma JoinsSnoc(a: Assembly, ps: seq<Packet>, p: Packet, cfg: Config)
    requires Joins(a, ps, cfg) && DecodePayload(p.payload).Some?
    requires SameRequest(p, a.kind, a.message) && Has(p.flags, F_MORE) && |a.body + BodyOf(p.payload)| <= MAX_BODY
    ensures Joins(a.(body := a.body + BodyOf(p.payload)), ps + [p], cfg)
  {
    BodiesSnoc(ps, p);
    hide DecodePayload, Has, Bodies, Concat, SameRequest, ExpectedStage;
  }

  lemma JoinsFirst(a: Assembly, p: Packet, cfg: Config)
    requires DecodePayload(p.payload).Some? && a.body == BodyOf(p.payload) && |a.body| <= MAX_BODY
    requires SameRequest(p, a.kind, a.message) && Has(p.flags, F_MORE)
    requires a.message.stageID == ExpectedStage(cfg, a.kind)
    ensures Joins(a, [p], cfg)
  {
    NoBodies();
    BodiesSnoc([], p);
    hide DecodePayload, Has, Bodies, Concat, SameRequest, ExpectedStage;
    assert [] + [p] == [p] && [] + BodyOf(p.payload) == BodyOf(p.payload);
  }

  lemma AbsorbHolds(s: State, cfg: Config, p: Packet, now: uint64, h: seq<Entry>)
    requires AssemblyHolds(s, cfg, p.correlation, h) && Judge(s, cfg, p, now).Absorb?
    ensures AssemblyHolds(s.(assemblies := s.assemblies[p.correlation := Judge(s, cfg, p, now).assembly]), cfg,
                          p.correlation, h + [Entry(p, true)])
  {
    AcceptedFragment(s, cfg, p, now);
    PendingSnoc(h, Entry(p, true));
    hide Judge, DecodePayload, Has, Joins, Pending, SameRequest, ExpectedStage;
    if p.correlation in s.assemblies {
      JoinsSnoc(s.assemblies[p.correlation], Pending(h), p, cfg);
    } else {
      JoinsFirst(Judge(s, cfg, p, now).assembly, p, cfg);
      assert [] + [p] == [p];
    }
  }

  lemma NoBodies()
    ensures Concat(Bodies([])) == []
  {
  }

  lemma StepKeepsAssembly(s: State, cfg: Config, a: Action, c: uint64, h: seq<Entry>)
    requires AssemblyHolds(s, cfg, c, h)
    ensures AssemblyHolds(Step(s, cfg, a), cfg, c, h + Entries(s, cfg, a, c))
  {
    if a.Handle? && s.phase.Serving? && a.p.correlation == c {
      JudgeShape(s, cfg, a.p, a.now);
      var e := Entry(a.p, Absorbed(s, cfg, a.p, a.now));
      PendingSnoc(h, e);
      if Judge(s, cfg, a.p, a.now).Absorb? {
        AbsorbHolds(s, cfg, a.p, a.now, h);
      }
      hide Judge, Has, Joins, Pending, Normalised;
      assert h + [] == h;
    } else {
      OtherCorrelation(s, cfg, a, c);
      hide Step, Has, Joins, Pending;
      assert h + [] == h;
    }
  }

  lemma {:induction false} RunKeepsAssembly(s: State, cfg: Config, acts: seq<Action>, c: uint64, h: seq<Entry>)
    requires AssemblyHolds(s, cfg, c, h)
    ensures AssemblyHolds(Run(s, cfg, acts), cfg, c, h + History(s, cfg, acts, c))
    decreases |acts|
  {
    hide Step, AssemblyHolds, Entries;
    if acts == [] {
      assert h + [] == h;
    } else {
      var e := Entries(s, cfg, acts[0], c);
      var t := Step(s, cfg, acts[0]);
      StepKeepsAssembly(s, cfg, acts[0], c, h);
      RunKeepsAssembly(t, cfg, acts[1..], c, h + e);
      assert h + e + History(t, cfg, acts[1..], c) == h + (e + History(t, cfg, acts[1..], c));
    }
  }

  /** Whatever else is interleaved, a handler is started with the in-order
      concatenation of exactly the fragments absorbed for its correlation since the
      last cancel, refusal or completion, followed by the final one; all agree on
      kind, stage, deadline and trace, and the total is within the limit. Bytes
      received before a cancel or a refusal never reach it. */
  lemma HandlerBody(cfg: Config, acts: seq<Action>, p: Packet, now: uint64)
    requires var s := Run(IDLE, cfg, acts);
             s.phase.Serving? && Judge(s, cfg, p, now).Start?
    ensures var w := Judge(Run(IDLE, cfg, acts), cfg, p, now).work;
            var m := DecodePayload(p.payload);
            var ps := Pending(History(IDLE, cfg, acts, p.correlation));
            && m.Some?
            && w.body == Concat(Bodies(ps)) + BodyOf(p.payload) && |w.body| <= MAX_BODY
            && w.kind == p.kind && w.stageID == m.value.stageID
            && w.deadline == m.value.deadline && w.trace == m.value.trace
            && forall i :: 0 <= i < |ps| ==> SameRequest(ps[i], p.kind, m.value) && Has(ps[i].flags, F_MORE)
  {
    var s := Run(IDLE, cfg, acts);
    var h := History(IDLE, cfg, acts, p.correlation);
    assert AssemblyHolds(IDLE, cfg, p.correlation, []);
    RunKeepsAssembly(IDLE, cfg, acts, p.correlation, []);
    assert [] + h == h;
    AcceptedFragment(s, cfg, p, now);
    NoBodies();
    hide Judge, DecodePayload, Has, Bodies, Concat, Run, History, Pending, SameRequest;
    assert [] + BodyOf(p.payload) == BodyOf(p.payload);
  }
}
