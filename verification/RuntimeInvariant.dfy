/** What every run of the runtime keeps: bounds, disjointness, and the exact
    correspondence between jobs and works in flight; hence no worker ever blocks,
    and the shutdown drain ends with nothing left. */
module RuntimeInvariant {
  import opened Bytes
  import opened Wire
  import opened ModuleProtocol
  import opened Fragments
  import opened RuntimeModel

  function Queued(done: seq<Result>): set<Work> {
    set i | 0 <= i < |done| :: done[i].work
  }

  /** Each job is filed under its own correlation, and ids tell jobs apart. */
  ghost predicate Filed(jobs: map<uint64, Work>, nextId: nat) {
    && (forall c | c in jobs :: jobs[c].correlation == c && jobs[c].id < nextId)
    && (forall c, d | c in jobs && d in jobs :: jobs[c].id == jobs[d].id ==> c == d)
  }

  /** The works in workers together with the results in the channel are the jobs,
      each once. */
  ghost predicate InFlight(running: set<Work>, done: seq<Result>, jobs: map<uint64, Work>) {
    && running !! Queued(done)
    && running + Queued(done) == jobs.Values
    && |running| + |done| == |jobs|
    && (forall i, j | 0 <= i < j < |done| :: done[i].work != done[j].work)
  }

  ghost predicate Bounded(s: State) {
    && |s.assemblies| <= MAX_IN_FLIGHT && |s.jobs| <= MAX_IN_FLIGHT
    && forall c | c in s.jobs :: c !in s.assemblies
  }

  /** While draining there are jobs, and all their flags are set. */
  ghost predicate Flagged(s: State) {
    s.phase.Draining? ==> s.jobs != map[] && forall c | c in s.jobs :: s.jobs[c].id in s.cancelled
  }

  /** Decided results belong to works whose worker has not sent yet, one each. */
  ghost predicate Loaded(running: set<Work>, decided: map<Work, Result>) {
    forall w | w in decided :: w in running && decided[w].work == w
  }

  ghost predicate Inv(s: State) {
    && Bounded(s) && Filed(s.jobs, s.nextId) && InFlight(s.running, s.done, s.jobs)
    && Loaded(s.running, s.decided) && Flagged(s)
  }

  lemma OwnJob(running: set<Work>, done: seq<Result>, jobs: map<uint64, Work>, nextId: nat, w: Work)
    requires InFlight(running, done, jobs) && Filed(jobs, nextId) && (w in running || w in Queued(done))
    ensures w.correlation in jobs && jobs[w.correlation] == w
  {
    assert w in jobs.Values;
  }

  lemma ValuesOfInsert(m: map<uint64, Work>, c: uint64, w: Work)
    requires c !in m
    ensures m[c := w].Values == m.Values + {w} && |m[c := w]| == |m| + 1
  {
    var n := m[c := w];
    forall v | v in m.Values + {w} ensures v in n.Values {
      if v == w {
        assert n[c] == w;
      } else {
        var k :| k in m && m[k] == v;
        assert n[k] == v;
      }
    }
  }

  lemma ValuesOfRemove(m: map<uint64, Work>, w: Work)
    requires w.correlation in m && m[w.correlation] == w
    requires forall c | c in m :: m[c].correlation == c
    ensures (m - {w.correlation}).Values == m.Values - {w}
    ensures |m - {w.correlation}| == |m| - 1
  {
    var n := m - {w.correlation};
    assert n.Keys == m.Keys - {w.correlation};
    forall v | v in m.Values - {w} ensures v in n.Values {
      var k :| k in m && m[k] == v;
      assert n[k] == v;
    }
    assert |n.Keys| == |m.Keys| - 1;
  }

  lemma QueuedSnoc(done: seq<Result>, r: Result)
    ensures Queued(done + [r]) == Queued(done) + {r.work}
  {
    forall v | v in Queued(done) + {r.work} ensures v in Queued(done + [r]) {
      if v == r.work {
        assert (done + [r])[|done|].work == v;
      } else {
        var i :| 0 <= i < |done| && done[i].work == v;
        assert (done + [r])[i].work == v;
      }
    }
  }

  lemma QueuedRest(done: seq<Result>)
    requires done != [] && forall i, j | 0 <= i < j < |done| :: done[i].work != done[j].work
    ensures Queued(done[1..]) == Queued(done) - {done[0].work}
  {
    forall v | v in Queued(done) - {done[0].work} ensures v in Queued(done[1..]) {
      var i :| 0 <= i < |done| && done[i].work == v;
      assert done[1..][i - 1].work == v;
    }
  }

  lemma StartFiled(jobs: map<uint64, Work>, nextId: nat, w: Work)
    requires Filed(jobs, nextId) && w.correlation !in jobs && w.id == nextId
    ensures Filed(jobs[w.correlation := w], nextId + 1)
  {
  }

  lemma StartInFlight(running: set<Work>, done: seq<Result>, jobs: map<uint64, Work>, nextId: nat, w: Work)
    requires InFlight(running, done, jobs) && Filed(jobs, nextId) && w.correlation !in jobs
    ensures InFlight(running + {w}, done, jobs[w.correlation := w])
  {
    if w in running || w in Queued(done) {
      OwnJob(running, done, jobs, nextId, w);
    }
    ValuesOfInsert(jobs, w.correlation, w);
    StartExact(running, Queued(done), jobs.Values, w);
    hide Queued, Filed;
  }

  lemma StartExact(running: set<Work>, queued: set<Work>, values: set<Work>, w: Work)
    requires running !! queued && running + queued == values && w !in values
    ensures running + {w} !! queued && running + {w} + queued == values + {w}
    ensures |running + {w}| == |running| + 1
  {
  }

  lemma FinishInFlight(running: set<Work>, done: seq<Result>, jobs: map<uint64, Work>, r: Result)
    requires InFlight(running, done, jobs) && r.work in running
    ensures InFlight(running - {r.work}, done + [r], jobs)
  {
    QueuedSnoc(done, r);
    assert forall i | 0 <= i < |done| :: done[i].work in Queued(done);
    FinishExact(running, Queued(done), jobs.Values, r.work);
    hide Queued;
  }

  lemma FinishExact(running: set<Work>, queued: set<Work>, values: set<Work>, w: Work)
    requires running !! queued && running + queued == values && w in running
    ensures running - {w} !! queued + {w} && running - {w} + (queued + {w}) == values
    ensures |running - {w}| == |running| - 1
  {
  }

  lemma TakeFiled(jobs: map<uint64, Work>, nextId: nat, c: uint64)
    requires Filed(jobs, nextId)
    ensures Filed(jobs - {c}, nextId)
  {
  }

  /** Receiving a result removes from `jobs` the very work it belongs to. */
  lemma TakeInFlight(running: set<Work>, done: seq<Result>, jobs: map<uint64, Work>, nextId: nat)
    requires InFlight(running, done, jobs) && Filed(jobs, nextId) && done != []
    ensures var w := done[0].work;
            && w.correlation in jobs && jobs[w.correlation] == w
            && |jobs - {w.correlation}| == |jobs| - 1
            && InFlight(running, done[1..], jobs - {w.correlation})
  {
    var w := done[0].work;
    assert w in Queued(done);
    OwnJob(running, done, jobs, nextId, w);
    ValuesOfRemove(jobs, w);
    QueuedRest(done);
    TakeExact(running, Queued(done), jobs.Values, w);
    hide Queued, Filed;
  }

  lemma TakeExact(running: set<Work>, queued: set<Work>, values: set<Work>, w: Work)
    requires running !! queued && running + queued == values && w in queued
    ensures running !! queued - {w} && running + (queued - {w}) == values - {w}
  {
  }

  /** What a verdict guarantees about the state it was reached in. */
  lemma JudgeSound(s: State, cfg: Config, p: Packet, now: uint64)
    ensures match Judge(s, cfg, p, now)
            case Absorb(a) =>
              && p.correlation !in s.jobs
              && (p.correlation in s.assemblies || |s.assemblies| < MAX_IN_FLIGHT)
            case Start(w) =>
              && p.correlation !in s.jobs && |s.jobs| < MAX_IN_FLIGHT
              && w.id == s.nextId && w.correlation == p.correlation
            case Refuse(r) => r.correlation == p.correlation
            case _ => true
  {
    hide DecodePayload, Has;
  }

  lemma ForgetBounded(assemblies: map<uint64, Assembly>, c: uint64)
    ensures (assemblies - {c}).Keys == assemblies.Keys - {c} && |assemblies - {c}| <= |assemblies|
  {
    assert (assemblies - {c}).Keys == assemblies.Keys - {c};
    assert |assemblies.Keys - {c}| <= |assemblies.Keys|;
  }

  lemma RememberBounded(assemblies: map<uint64, Assembly>, c: uint64, a: Assembly)
    requires |assemblies| <= MAX_IN_FLIGHT && (c in assemblies || |assemblies| < MAX_IN_FLIGHT)
    ensures assemblies[c := a].Keys == assemblies.Keys + {c} && |assemblies[c := a]| <= MAX_IN_FLIGHT
  {
    assert assemblies[c := a].Keys == assemblies.Keys + {c};
  }

  lemma ReceiveKeepsInv(s: State, cfg: Config, p: Packet, now: uint64, sent: bool)
    requires Inv(s) && s.phase.Serving?
    ensures Inv(Receive(s, cfg, p, now, sent))
  {
    JudgeSound(s, cfg, p, now);
    hide Judge, InFlight, Filed, Normalised, Flagged, Bounded;
    var c := p.correlation;
    match Judge(s, cfg, p, now)
    case NotForUs =>
    case CancelRequest => ForgetKeepsInv(s, c);
    case Refuse(_) => ForgetKeepsInv(s, c);
    case Absorb(a) => AbsorbKeepsInv(s, c, a);
    case Start(w) => StartKeepsInv(s, w);
    hide Inv;
  }

  /** Dropping an assembly, setting a flag, answering or leaving keep the
      invariant. */
  lemma ForgetKeepsInv(s: State, c: uint64)
    requires Inv(s) && s.phase.Serving?
    ensures forall t: State | t.assemblies == s.assemblies - {c} && t.jobs == s.jobs && t.running == s.running
              && t.done == s.done && t.decided == s.decided && t.nextId == s.nextId && !t.phase.Draining? :: Inv(t)
  {
    ForgetBounded(s.assemblies, c);
    hide InFlight, Filed, Loaded;
  }

  lemma AbsorbKeepsInv(s: State, c: uint64, a: Assembly)
    requires Inv(s) && s.phase.Serving? && c !in s.jobs && (c in s.assemblies || |s.assemblies| < MAX_IN_FLIGHT)
    ensures Inv(s.(assemblies := s.assemblies[c := a]))
  {
    RememberBounded(s.assemblies, c, a);
    hide InFlight, Filed, Loaded;
  }

  lemma StartKeepsInv(s: State, w: Work)
    requires Inv(s) && s.phase.Serving? && w.id == s.nextId
    requires w.correlation !in s.jobs && |s.jobs| < MAX_IN_FLIGHT
    ensures Inv(s.(assemblies := s.assemblies - {w.correlation}, jobs := s.jobs[w.correlation := w],
                   running := s.running + {w}, nextId := s.nextId + 1))
  {
    hide InFlight, Filed;
    var t := s.(assemblies := s.assemblies - {w.correlation}, jobs := s.jobs[w.correlation := w],
                running := s.running + {w}, nextId := s.nextId + 1);
    StartInFlight(s.running, s.done, s.jobs, s.nextId, w);
    StartFiled(s.jobs, s.nextId, w);
    StartBounded(s.assemblies, s.jobs, w);
    assert Bounded(t);
    hide Bounded, Flagged, Loaded;
    NothingToFlag(t);
    StillLoaded(s.running, s.decided, w);
  }

  lemma StillLoaded(running: set<Work>, decided: map<Work, Result>, w: Work)
    requires Loaded(running, decided)
    ensures Loaded(running + {w}, decided)
  {
  }

  lemma NothingToFlag(s: State)
    requires !s.phase.Draining?
    ensures Flagged(s)
  {
  }

  lemma StartBounded(assemblies: map<uint64, Assembly>, jobs: map<uint64, Work>, w: Work)
    requires |assemblies| <= MAX_IN_FLIGHT && |jobs| < MAX_IN_FLIGHT && w.correlation !in jobs
    requires forall c | c in jobs :: c !in assemblies
    ensures var left, more := assemblies - {w.correlation}, jobs[w.correlation := w];
            |left| <= MAX_IN_FLIGHT && |more| <= MAX_IN_FLIGHT && forall c | c in more :: c !in left
  {
    ForgetBounded(assemblies, w.correlation);
    ValuesOfInsert(jobs, w.correlation, w);
  }

  /** Every step keeps the invariant. */
  lemma StepKeepsInv(s: State, cfg: Config, a: Action)
    requires Inv(s)
    ensures Inv(Step(s, cfg, a))
  {
    hide Receive, Judge, Normalised, InFlight, Filed, Outcome;
    match a
    case Handle(p, now, sent) =>
      if s.phase.Serving? {
        ReceiveKeepsInv(s, cfg, p, now, sent);
      }
    case Decide(w, response, status, clock) =>
    case Send(w) => SendKeepsInv(s, cfg, w);
    case Collect(sent) => CollectKeepsInv(s, cfg, sent);
    case ContextEnds =>
    case Drain => DrainKeepsInv(s, cfg);
    case Leave =>
  }

  lemma SendKeepsInv(s: State, cfg: Config, w: Work)
    requires Inv(s)
    ensures Inv(Step(s, cfg, Send(w)))
  {
    hide InFlight, Filed, Flagged, Bounded;
    if w in s.running && w in s.decided && |s.done| < MAX_IN_FLIGHT {
      FinishInFlight(s.running, s.done, s.jobs, s.decided[w]);
      SentFlagged(s, Step(s, cfg, Send(w)));
    }
  }

  lemma SentFlagged(s: State, t: State)
    requires t.phase == s.phase && t.jobs == s.jobs && t.cancelled == s.cancelled && t.assemblies == s.assemblies
    ensures Flagged(t) == Flagged(s) && Bounded(t) == Bounded(s)
  {
  }

  lemma CollectKeepsInv(s: State, cfg: Config, sent: bool)
    requires Inv(s)
    ensures Inv(Step(s, cfg, Collect(sent)))
  {
    hide InFlight, Filed, Normalised, Loaded;
    if s.phase.Serving? && s.done != [] {
      TakeInFlight(s.running, s.done, s.jobs, s.nextId);
      TakeFiled(s.jobs, s.nextId, s.done[0].work.correlation);
    }
  }

  lemma DrainKeepsInv(s: State, cfg: Config)
    requires Inv(s)
    ensures Inv(Step(s, cfg, Drain))
  {
    hide InFlight, Filed, Loaded;
    if s.phase.Draining? && s.done != [] {
      TakeInFlight(s.running, s.done, s.jobs, s.nextId);
      TakeFiled(s.jobs, s.nextId, s.done[0].work.correlation);
    }
  }

  lemma {:induction false} RunKeepsInv(s: State, cfg: Config, acts: seq<Action>)
    requires Inv(s)
    ensures Inv(Run(s, cfg, acts))
    decreases |acts|
  {
    hide Step;
    if acts != [] {
      StepKeepsInv(s, cfg, acts[0]);
      RunKeepsInv(Step(s, cfg, acts[0]), cfg, acts[1..]);
    }
  }

  lemma IdleInv()
    ensures Inv(IDLE)
  {
    assert IDLE.jobs.Values == {} && Queued([]) == {};
  }

  /** In every reachable state, in every phase, also after the loop has returned
      early, each running worker finds room in the channel. */
  lemma NoWorkerBlocks(cfg: Config, acts: seq<Action>, w: Work)
    ensures var s := Run(IDLE, cfg, acts);
            Inv(s) && (w in s.running ==> |s.done| < MAX_IN_FLIGHT)
  {
    IdleInv();
    RunKeepsInv(IDLE, cfg, acts);
    RoomForResult(Run(IDLE, cfg, acts), w);
  }

  lemma RoomForResult(s: State, w: Work)
    requires Inv(s)
    ensures w in s.running ==> |s.done| < MAX_IN_FLIGHT
  {
    if w in s.running {
      assert |s.running| > 0;
    }
  }

  // ---------------------------------------------------------------- the drain

  /** How many results the shutdown loop receives over a run. */
  function Drained(s: State, cfg: Config, acts: seq<Action>): nat
    decreases |acts|
  {
    if acts == [] then 0
    else (if acts[0].Drain? && s.phase.Draining? && s.done != [] then 1 else 0)
         + Drained(Step(s, cfg, acts[0]), cfg, acts[1..])
  }

  ghost predicate Ending(s: State) {
    s.phase.Draining? || (s.phase.Stopped? && s.jobs == map[])
  }

  /** One step of the shutdown: a receive removes exactly one job, anything else
      removes none, and nothing is sent. */
  lemma DrainStep(s: State, cfg: Config, a: Action)
    requires Inv(s) && Ending(s)
    ensures var t := Step(s, cfg, a);
            && Ending(t) && t.replies == s.replies
            && |t.jobs| + (if a.Drain? && s.phase.Draining? && s.done != [] then 1 else 0) == |s.jobs|
  {
    hide InFlight, Filed, Outcome, Receive, Normalised;
    if s.done != [] {
      TakeInFlight(s.running, s.done, s.jobs, s.nextId);
    }
  }

  /** Over any run after the context ended, jobs left plus results received is the
      number of jobs there were, and no reply is sent. */
  lemma {:induction false} DrainCounts(s: State, cfg: Config, acts: seq<Action>)
    requires Inv(s) && Ending(s)
    ensures var t := Run(s, cfg, acts);
            Ending(t) && |t.jobs| + Drained(s, cfg, acts) == |s.jobs| && t.replies == s.replies
    decreases |acts|
  {
    hide Step, Inv, Ending;
    if acts != [] {
      StepKeepsInv(s, cfg, acts[0]);
      DrainStep(s, cfg, acts[0]);
      DrainCounts(Step(s, cfg, acts[0]), cfg, acts[1..]);
    }
  }

  /** Work left to do before the drain ends: a worker must still decide and send,
      and the loop must still receive. */
  function DrainWork(s: State): nat {
    2 * |s.running| + |s.running - s.decided.Keys| + |s.done|
  }

  /** The drain never gets stuck: until it has stopped, a receive or a worker's
      next step is possible, and each strictly reduces the work left. */
  lemma DrainProgress(s: State, cfg: Config)
    requires Inv(s) && s.phase.Draining?
    ensures s.done != [] || s.running != {}
    ensures s.done != [] ==> DrainWork(Step(s, cfg, Drain)) < DrainWork(s)
    ensures forall w, response, status, clock | w in s.running ::
              DrainWork(Step(s, cfg, WorkerStep(s, w, response, status, clock))) < DrainWork(s)
  {
    hide Inv, Outcome, WorkerStep, Step, DrainWork;
    DrainIsOpen(s);
    if s.done != [] {
      ReceiveProgress(s, cfg);
    }
    forall w, response, status, clock | w in s.running
      ensures DrainWork(Step(s, cfg, WorkerStep(s, w, response, status, clock))) < DrainWork(s)
    {
      WorkerProgress(s, cfg, w, response, status, clock);
    }
  }

  lemma DrainIsOpen(s: State)
    requires Inv(s) && s.phase.Draining?
    ensures s.done != [] || s.running != {}
  {
    assert |s.jobs| > 0 by {
      var c :| c in s.jobs;
    }
    RunningOrDone(s.running, s.done, s.jobs);
  }

  lemma ReceiveProgress(s: State, cfg: Config)
    requires s.phase.Draining? && s.done != []
    ensures DrainWork(Step(s, cfg, Drain)) < DrainWork(s)
  {
  }

  /** What a running worker does next: decide, or send what it has decided. */
  function WorkerStep(s: State, w: Work, response: Bytes, status: uint16, clock: uint64): Action {
    if w in s.decided then Send(w) else Decide(w, response, status, clock)
  }

  lemma WorkerProgress(s: State, cfg: Config, w: Work, response: Bytes, status: uint16, clock: uint64)
    requires Inv(s) && w in s.running
    ensures DrainWork(Step(s, cfg, WorkerStep(s, w, response, status, clock))) < DrainWork(s)
  {
    hide Inv, Outcome, DrainWork, Step;
    if w in s.decided {
      RoomForResult(s, w);
      SendProgress(s, cfg, w);
    } else {
      DecideProgress(s, cfg, w, response, status, clock);
    }
  }

  lemma DecideProgress(s: State, cfg: Config, w: Work, response: Bytes, status: uint16, clock: uint64)
    requires w in s.running && w !in s.decided
    ensures DrainWork(Step(s, cfg, Decide(w, response, status, clock))) < DrainWork(s)
  {
    hide Outcome;
    var t := Step(s, cfg, Decide(w, response, status, clock));
    assert t.running - t.decided.Keys == s.running - s.decided.Keys - {w};
  }

  lemma SendProgress(s: State, cfg: Config, w: Work)
    requires w in s.running && w in s.decided && |s.done| < MAX_IN_FLIGHT
    ensures DrainWork(Step(s, cfg, Send(w))) < DrainWork(s)
  {
    var t := Step(s, cfg, Send(w));
    assert t.decided.Keys == s.decided.Keys - {w};
    assert t.running - t.decided.Keys == s.running - s.decided.Keys;
    assert |t.running| == |s.running| - 1;
  }

  lemma RunningOrDone(running: set<Work>, done: seq<Result>, jobs: map<uint64, Work>)
    requires InFlight(running, done, jobs) && |jobs| > 0
    ensures done != [] || running != {}
  {
    if done == [] {
      assert |running| > 0;
    }
  }

  /** A schedule that receives when it can and otherwise lets a worker go on. */
  ghost function FairDrain(s: State, cfg: Config): seq<Action>
    requires Inv(s)
    decreases if s.phase.Draining? then 1 + DrainWork(s) else 0
  {
    if !s.phase.Draining? then []
    else
      DrainProgress(s, cfg);
      var a := if s.done != [] then Drain else
                 var w :| w in s.running;
                 WorkerStep(s, w, [], 0, 0);
      StepKeepsInv(s, cfg, a);
      [a] + FairDrain(Step(s, cfg, a), cfg)
  }

  /** From any reachable serving state, once the context ends every work in flight
      has its cancel flag set; the drain then receives exactly one result for each
      job, sends no reply, and stops with no job, no worker and no result left. */
  lemma ShutdownIsComplete(s: State, cfg: Config)
    requires Inv(s) && s.phase.Serving?
    ensures var t := Step(s, cfg, ContextEnds);
            && Inv(t)
            && (forall w | w in s.running :: w.id in t.cancelled)
            && var acts := FairDrain(t, cfg);
               var u := Run(t, cfg, acts);
               && u.phase.Stopped? && u.jobs == map[] && u.running == {} && u.done == []
               && Drained(t, cfg, acts) == |s.jobs|
               && u.replies == s.replies
  {
    StepKeepsInv(s, cfg, ContextEnds);
    var t := Step(s, cfg, ContextEnds);
    FlagsSet(s, cfg);
    hide Step;
    var acts := FairDrain(t, cfg);
    FairDrainStops(t, cfg);
    DrainCounts(t, cfg, acts);
    RunKeepsInv(t, cfg, acts);
    NothingLeft(Run(t, cfg, acts));
  }

  lemma FlagsSet(s: State, cfg: Config)
    requires Inv(s) && s.phase.Serving?
    ensures var t := Step(s, cfg, ContextEnds);
            Ending(t) && t.jobs == s.jobs && t.replies == s.replies && forall w | w in s.running :: w.id in t.cancelled
  {
    hide InFlight, Filed, Loaded;
    forall w | w in s.running ensures w.id in Step(s, cfg, ContextEnds).cancelled {
      OwnJob(s.running, s.done, s.jobs, s.nextId, w);
    }
  }

  lemma NothingLeft(s: State)
    requires Inv(s) && s.jobs == map[]
    ensures s.running == {} && s.done == [] && s.decided == map[]
  {
    assert s.decided.Keys == {};
  }

  lemma {:induction false} FairDrainStops(s: State, cfg: Config)
    requires Inv(s)
    ensures !Run(s, cfg, FairDrain(s, cfg)).phase.Draining?
    decreases if s.phase.Draining? then 1 + DrainWork(s) else 0
  {
    if s.phase.Draining? {
      DrainProgress(s, cfg);
      var acts := FairDrain(s, cfg);
      StepKeepsInv(s, cfg, acts[0]);
      assert acts == [acts[0]] + acts[1..];
      FairDrainStops(Step(s, cfg, acts[0]), cfg);
    }
  }

  /** A work whose flag is set when its worker loads it is decided Cancelled, with
      no body. */
  lemma CancelledResult(s: State, cfg: Config, w: Work, response: Bytes, status: uint16, clock: uint64)
    requires w in s.running && w !in s.decided && w.id in s.cancelled
    ensures var t := Step(s, cfg, Decide(w, response, status, clock));
            w in t.decided && t.decided[w] == Result(w, [], STATUS_CANCELLED)
  {
  }

  /** Whatever else happens, a decided result stays as it is until it is sent. */
  lemma DecidedStays(s: State, cfg: Config, a: Action, w: Work)
    requires Inv(s) && w in s.decided && a != Send(w)
    ensures w in Step(s, cfg, a).decided && Step(s, cfg, a).decided[w] == s.decided[w]
  {
    hide Inv, Judge, Outcome, Normalised;
  }

  /** What the loop receives of a worker is what it decided when it loaded the flag,
      even if the flag is set before it sends: a cancel that comes in between leaves
      an OK result with its body. */
  lemma LateCancelComesTooLate(s: State, cfg: Config, w: Work, response: Bytes, cancel: Packet, now: uint64)
    requires Inv(s) && s.phase.Serving? && w in s.running && w !in s.decided && w.id !in s.cancelled
    requires w.deadline == 0 && |response| <= MAX_BODY
    requires Has(cancel.flags, F_CANCEL) && cancel.correlation == w.correlation
    ensures var t := Run(s, cfg, [Decide(w, response, STATUS_OK, 0), Handle(cancel, now, true), Send(w)]);
            w.id in t.cancelled && t.done == s.done + [Result(w, response, STATUS_OK)]
  {
    var a, b, c := Decide(w, response, STATUS_OK, 0), Handle(cancel, now, true), Send(w);
    OwnJob(s.running, s.done, s.jobs, s.nextId, w);
    RoomForResult(s, w);
    hide Inv, Has, Judge, InFlight, Filed, Step;
    var t := Step(s, cfg, a);
    DecideStep(s, cfg, w, response);
    CancelStep(t, cfg, cancel, now);
    var u := Step(t, cfg, b);
    SendStep(u, cfg, w);
    RunThree(s, cfg, a, b, c);
  }

  lemma DecideStep(s: State, cfg: Config, w: Work, response: Bytes)
    requires w in s.running && w !in s.decided && w.id !in s.cancelled && w.deadline == 0 && |response| <= MAX_BODY
    ensures Step(s, cfg, Decide(w, response, STATUS_OK, 0))
            == s.(decided := s.decided[w := Result(w, response, STATUS_OK)])
  {
  }

  lemma SendStep(s: State, cfg: Config, w: Work)
    requires w in s.running && w in s.decided && |s.done| < MAX_IN_FLIGHT
    ensures Step(s, cfg, Send(w)).done == s.done + [s.decided[w]]
    ensures Step(s, cfg, Send(w)).cancelled == s.cancelled
  {
  }

  lemma CancelStep(s: State, cfg: Config, p: Packet, now: uint64)
    requires s.phase.Serving? && Has(p.flags, F_CANCEL)
    ensures Step(s, cfg, Handle(p, now, true))
            == s.(assemblies := s.assemblies - {p.correlation},
                  cancelled :=
                    if p.correlation in s.jobs then s.cancelled + {s.jobs[p.correlation].id} else s.cancelled)
  {
    hide Has, Assemble, Invalid;
  }

  lemma RunThree(s: State, cfg: Config, a: Action, b: Action, c: Action)
    ensures Run(s, cfg, [a, b, c]) == Step(Step(Step(s, cfg, a), cfg, b), cfg, c)
  {
    hide Step;
    var t := Step(s, cfg, a);
    var u := Step(t, cfg, b);
    assert [a, b, c][1..] == [b, c] && [b, c][1..] == [c] && [c][1..] == [];
    assert Run(u, cfg, [c]) == Step(u, cfg, c);
    assert Run(t, cfg, [b, c]) == Run(u, cfg, [c]);
  }
}
