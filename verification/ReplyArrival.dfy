/** What becomes of a job: its worker's result is the one reply its correlation
    gets, and the caller reads that reply back byte for byte
    (server-go/bus/module_runtime.go:196-275, server-go/bus/module_caller.go:165-223). */
module ReplyArrival {
  import opened Bytes
  import opened Wire
  import opened ModuleProtocol
  import opened Wrappers
  import opened Fragments
  import opened RuntimeModel
  import opened RuntimeInvariant
  import opened RuntimeHistory
  import opened RequestArrival
  import CA = CallerAwait

  /** The replies to one correlation, oldest first. */
  function RepliesTo(replies: seq<Reply>, c: uint64): (r: seq<Reply>) {
    if replies == [] then []
    else RepliesTo(replies[..|replies| - 1], c)
         + (if replies[|replies| - 1].correlation == c then [replies[|replies| - 1]] else [])
  }

  lemma RepliesSnoc(replies: seq<Reply>, r: Reply, c: uint64)
    ensures RepliesTo(replies + [r], c) == RepliesTo(replies, c) + if r.correlation == c then [r] else []
  {
    assert (replies + [r])[..|replies|] == replies;
  }

  /** The job of `c` is `w`: its worker is running, uncancelled and undecided, or
      its result is `r`, decided or waiting in the channel. */
  ghost predicate Flight(s: State, c: uint64, w: Work, r: Option<Result>) {
    && c in s.jobs && s.jobs[c] == w
    && (r.None? ==> w in s.running && w !in s.decided && w.id !in s.cancelled)
    && (r.Some? ==>
          && r.value.work == w
          && (r.value in s.done || (w in s.running && w in s.decided && s.decided[w] == r.value)))
  }

  /** The action is a worker of `c` deciding its result. */
  predicate EndsJob(s: State, a: Action, c: uint64) {
    a.Decide? && a.w.correlation == c && a.w in s.running && a.w !in s.decided
  }

  /** The first decision of a worker of `c` in a run. */
  function Returned(s: State, cfg: Config, acts: seq<Action>, c: uint64): Option<Action>
    decreases |acts|
  {
    if acts == [] then None
    else if EndsJob(s, acts[0], c) then Some(acts[0])
    else Returned(Step(s, cfg, acts[0]), cfg, acts[1..], c)
  }

  /** The reply an uncancelled worker's decision leads to. */
  function Answered(a: Action): Reply
    requires a.Decide?
  {
    Normalised(ReplyFor(Outcome(a.w, a.response, a.status, false, a.clock)))
  }

  /** An event of another correlation cancels no work of `c`, and answers it
      nothing. */
  lemma OtherEvent(s: State, cfg: Config, a: Action, c: uint64)
    requires Inv(s) && a.Handle? && !Concerns(s, a, c) && Step(s, cfg, a).phase.Serving?
    ensures var t := Step(s, cfg, a);
            && (c in t.jobs <==> c in s.jobs) && t.done == s.done && s.running <= t.running && t.decided == s.decided
            && (c in s.jobs ==> t.jobs[c] == s.jobs[c])
            && (c in s.jobs ==> (s.jobs[c].id in t.cancelled <==> s.jobs[c].id in s.cancelled))
            && RepliesTo(t.replies, c) == RepliesTo(s.replies, c)
  {
    hide Judge, Normalised, RepliesTo, InFlight, Bounded, Flagged, Loaded, IsRequest, Has;
    if s.phase.Serving? {
      JudgeShape(s, cfg, a.p, a.now);
      var v := Judge(s, cfg, a.p, a.now);
      if v.Refuse? {
        RepliesSnoc(s.replies, Normalised(v.reply), c);
      }
    }
  }

  /** A step that does not concern a flying job leaves it flying. */
  lemma FlightGoesOn(s: State, cfg: Config, a: Action, c: uint64, w: Work, r: Option<Result>)
    requires Inv(s) && Flight(s, c, w, r) && Step(s, cfg, a).phase.Serving?
    requires !Concerns(s, a, c) && !(a.Collect? && s.done != [] && s.done[0].work == w) && !EndsJob(s, a, c)
    ensures Flight(Step(s, cfg, a), c, w, r)
    ensures RepliesTo(Step(s, cfg, a).replies, c) == RepliesTo(s.replies, c)
  {
    match a
    case Handle(_, _, _) =>
      OtherEvent(s, cfg, a, c);
      hide Step, Inv, RepliesTo;
    case Collect(sent) => CollectOther(s, cfg, sent, c, w, r);
    case Decide(_, _, _, _) => DecideOther(s, cfg, a, c, w, r);
    case Send(_) => SendOther(s, cfg, a, c, w, r);
    case _ =>
      hide Inv, RepliesTo;
  }

  lemma DecideOther(s: State, cfg: Config, a: Action, c: uint64, w: Work, r: Option<Result>)
    requires Inv(s) && Flight(s, c, w, r) && a.Decide? && !EndsJob(s, a, c)
    ensures Flight(Step(s, cfg, a), c, w, r) && Step(s, cfg, a).replies == s.replies
  {
    assert s.jobs[c].correlation == c;
    hide Inv, Outcome;
  }

  /** A worker's send moves its result into the channel. */
  lemma SendOther(s: State, cfg: Config, a: Action, c: uint64, w: Work, r: Option<Result>)
    requires Inv(s) && Flight(s, c, w, r) && a.Send?
    ensures Flight(Step(s, cfg, a), c, w, r) && Step(s, cfg, a).replies == s.replies
  {
    hide Inv;
    var t := Step(s, cfg, a);
    if t != s {
      assert t.done == s.done + [s.decided[a.w]];
      assert t.done[|s.done|] == s.decided[a.w];
      if r.Some? && r.value in s.done {
        var i :| 0 <= i < |s.done| && s.done[i] == r.value;
        assert t.done[i] == r.value;
      }
    }
  }

  lemma CollectOther(s: State, cfg: Config, sent: bool, c: uint64, w: Work, r: Option<Result>)
    requires Inv(s) && Flight(s, c, w, r) && !(s.done != [] && s.done[0].work == w)
    requires s.phase.Serving? && Step(s, cfg, Collect(sent)).phase.Serving?
    ensures var t := Step(s, cfg, Collect(sent));
            Flight(t, c, w, r) && RepliesTo(t.replies, c) == RepliesTo(s.replies, c)
  {
    hide InFlight, Normalised, RepliesTo, Bounded, Flagged;
    if s.done != [] {
      TakeInFlight(s.running, s.done, s.jobs, s.nextId);
      assert s.jobs[c].correlation == c;
      hide Inv, Filed;
      RepliesSnoc(s.replies, Normalised(ReplyFor(s.done[0])), c);
      if r.Some? && r.value in s.done {
        StaysIn(s.done, r.value);
      }
    }
  }

  lemma StaysIn(done: seq<Result>, r: Result)
    requires r in done && done[0] != r
    ensures r in done[1..]
  {
    var i :| 0 <= i < |done| && done[i] == r;
    assert done[1..][i - 1] == r;
  }

  /** The worker decides: the flag it loads is not set. */
  lemma FlightReturns(s: State, cfg: Config, a: Action, c: uint64, w: Work)
    requires Inv(s) && Flight(s, c, w, None) && EndsJob(s, a, c)
    ensures a.w == w
    ensures Flight(Step(s, cfg, a), c, w, Some(Outcome(w, a.response, a.status, false, a.clock)))
    ensures Step(s, cfg, a).replies == s.replies
  {
    OwnJob(s.running, s.done, s.jobs, s.nextId, a.w);
    hide Inv, Outcome;
  }

  /** Receiving the result ends the job with the one reply. */
  lemma FlightLands(s: State, cfg: Config, sent: bool, c: uint64, w: Work, r: Result)
    requires Inv(s) && Flight(s, c, w, Some(r)) && s.done != [] && s.done[0].work == w
    requires s.phase.Serving? && Step(s, cfg, Collect(sent)).phase.Serving?
    ensures var t := Step(s, cfg, Collect(sent));
            && c !in t.jobs
            && RepliesTo(t.replies, c) == RepliesTo(s.replies, c) + [Normalised(ReplyFor(r))]
  {
    hide Inv, Flight, Normalised, RepliesTo;
    FrontIsIts(s, c, w, r);
    RepliesSnoc(s.replies, Normalised(ReplyFor(r)), c);
  }

  /** A work at the front of the channel is there with its own result. */
  lemma FrontIsIts(s: State, c: uint64, w: Work, r: Result)
    requires Inv(s) && Flight(s, c, w, Some(r)) && s.done != [] && s.done[0].work == w
    ensures s.done[0] == r && w.correlation == c
  {
    assert s.jobs[c].correlation == c;
    assert s.done[0].work in Queued(s.done);
    var i :| 0 <= i < |s.done| && s.done[i] == r;
    assert i == 0;
  }

  /** A correlation with no job and no events gets no job and no reply. */
  lemma StaysQuiet(s: State, cfg: Config, a: Action, c: uint64)
    requires Inv(s) && c !in s.jobs && !Concerns(s, a, c) && Step(s, cfg, a).phase.Serving?
    ensures c !in Step(s, cfg, a).jobs && !EndsJob(s, a, c)
    ensures RepliesTo(Step(s, cfg, a).replies, c) == RepliesTo(s.replies, c)
  {
    hide Inv, Outcome, RepliesTo;
    match a
    case Handle(_, _, _) =>
      OtherEvent(s, cfg, a, c);
    case Collect(sent) =>
      QuietCollect(s, cfg, sent, c);
    case Decide(w, _, _, _) =>
      if w in s.running {
        QuietWorker(s, c, w);
      }
    case _ =>
  }

  lemma QuietWorker(s: State, c: uint64, w: Work)
    requires Inv(s) && c !in s.jobs && w in s.running
    ensures w.correlation != c
  {
    OwnJob(s.running, s.done, s.jobs, s.nextId, w);
  }

  lemma QuietCollect(s: State, cfg: Config, sent: bool, c: uint64)
    requires Inv(s) && c !in s.jobs && s.phase.Serving? && Step(s, cfg, Collect(sent)).phase.Serving?
    ensures var t := Step(s, cfg, Collect(sent));
            c !in t.jobs && RepliesTo(t.replies, c) == RepliesTo(s.replies, c)
  {
    hide InFlight, Filed, Bounded, Flagged, Loaded, Normalised, RepliesTo;
    if s.done != [] {
      TakeInFlight(s.running, s.done, s.jobs, s.nextId);
      RepliesSnoc(s.replies, Normalised(ReplyFor(s.done[0])), c);
    }
  }

  lemma {:induction false} QuietRun(s: State, cfg: Config, acts: seq<Action>, c: uint64)
    requires Inv(s) && c !in s.jobs && CA.Only(Given(acts), c) == [] && Run(s, cfg, acts).phase.Serving?
    ensures c !in Run(s, cfg, acts).jobs
    ensures RepliesTo(Run(s, cfg, acts).replies, c) == RepliesTo(s.replies, c)
    decreases |acts|
  {
    hide Step, Inv, Given, CA.Only, RepliesTo, EndsJob;
    if acts != [] {
      NextStep(s, cfg, acts, c);
      StaysQuiet(s, cfg, acts[0], c);
      QuietRun(Step(s, cfg, acts[0]), cfg, acts[1..], c);
    }
  }

  /** In a run that is serving at its end, each step was taken while serving. */
  lemma NextStep(s: State, cfg: Config, acts: seq<Action>, c: uint64)
    requires Inv(s) && acts != [] && Run(s, cfg, acts).phase.Serving?
    ensures s.phase.Serving? && Step(s, cfg, acts[0]).phase.Serving? && Inv(Step(s, cfg, acts[0]))
    ensures CA.Only(Given(acts), c)
            == (if Concerns(s, acts[0], c) then [acts[0].p] else []) + CA.Only(Given(acts[1..]), c)
  {
    hide Step, Inv, Given, CA.Only;
    StepKeepsInv(s, cfg, acts[0]);
    OnlyGiven(acts, c);
    if !s.phase.Serving? {
      StoppedForGood(s, cfg, acts);
    }
    if !Step(s, cfg, acts[0]).phase.Serving? {
      StoppedForGood(Step(s, cfg, acts[0]), cfg, acts[1..]);
    }
  }

  /** A result decided is the one reply its correlation gets. */
  lemma {:induction false} ResultIsReplied(s: State, cfg: Config, acts: seq<Action>, c: uint64, w: Work, r: Result)
    requires Inv(s) && Flight(s, c, w, Some(r)) && CA.Only(Given(acts), c) == []
    requires Run(s, cfg, acts).phase.Serving?
    ensures var t := Run(s, cfg, acts);
            RepliesTo(t.replies, c)
            == RepliesTo(s.replies, c) + if c in t.jobs then [] else [Normalised(ReplyFor(r))]
    decreases |acts|
  {
    hide Step, Inv, Given, CA.Only, RepliesTo, Normalised, EndsJob;
    if acts == [] {
      assert c in s.jobs;
    } else {
      NextStep(s, cfg, acts, c);
      var a, t := acts[0], Step(s, cfg, acts[0]);
      if a.Collect? && s.done != [] && s.done[0].work == w {
        FlightLands(s, cfg, a.sent, c, w, r);
        QuietRun(t, cfg, acts[1..], c);
      } else {
        NoSecondEnd(s, a, c, w, r);
        FlightGoesOn(s, cfg, a, c, w, Some(r));
        ResultIsReplied(t, cfg, acts[1..], c, w, r);
      }
    }
  }

  lemma NoSecondEnd(s: State, a: Action, c: uint64, w: Work, r: Result)
    requires Inv(s) && Flight(s, c, w, Some(r))
    ensures !EndsJob(s, a, c)
  {
    if r in s.done {
      assert w in Queued(s.done);
    }
    if EndsJob(s, a, c) {
      OwnJob(s.running, s.done, s.jobs, s.nextId, a.w);
    }
  }

  /** A running worker: as long as its job is in flight there is no reply, and the
      reply that ends it is what its handler returned. */
  lemma {:induction false} JobIsReplied(s: State, cfg: Config, acts: seq<Action>, c: uint64, w: Work)
    requires Inv(s) && Flight(s, c, w, None) && CA.Only(Given(acts), c) == []
    requires Run(s, cfg, acts).phase.Serving?
    ensures var t, a := Run(s, cfg, acts), Returned(s, cfg, acts, c);
            if c in t.jobs then RepliesTo(t.replies, c) == RepliesTo(s.replies, c)
            else a.Some? && a.value.Decide? && a.value.w == w
                 && RepliesTo(t.replies, c) == RepliesTo(s.replies, c) + [Answered(a.value)]
    decreases |acts|
  {
    hide Step, Inv, Given, CA.Only, RepliesTo, Normalised, Outcome;
    if acts == [] {
      assert c in s.jobs;
    } else {
      NextStep(s, cfg, acts, c);
      var a, t := acts[0], Step(s, cfg, acts[0]);
      if EndsJob(s, a, c) {
        FlightReturns(s, cfg, a, c, w);
        ResultIsReplied(t, cfg, acts[1..], c, w, Outcome(w, a.response, a.status, false, a.clock));
      } else {
        StillRunning(s, c, w);
        FlightGoesOn(s, cfg, a, c, w, None);
        JobIsReplied(t, cfg, acts[1..], c, w);
      }
    }
  }

  lemma StillRunning(s: State, c: uint64, w: Work)
    requires Inv(s) && Flight(s, c, w, None)
    ensures s.done != [] ==> s.done[0].work != w
  {
    if s.done != [] {
      assert s.done[0].work in Queued(s.done);
    }
  }
}
