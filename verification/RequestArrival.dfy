/** A fragmented request, interleaved with everything else a module receives,
    becomes exactly one job with exactly the caller's bytes
    (server-go/bus/module_caller.go:134-163, server-go/bus/module_runtime.go:345-420). */
module RequestArrival {
  import opened Bytes
  import opened Wire
  import opened ModuleProtocol
  import opened Wrappers
  import opened Fragments
  import opened RuntimeModel
  import opened RuntimeInvariant
  import opened RuntimeHistory
  import CA = CallerAwait

  // ------------------------------------------------------- works of one name

  /** The works handed to workers for events of `c` over a run, oldest first. */
  function Started(s: State, cfg: Config, acts: seq<Action>, c: uint64): seq<Work>
    decreases |acts|
  {
    if acts == [] then [] else StartedBy(s, cfg, acts[0], c) + Started(Step(s, cfg, acts[0]), cfg, acts[1..], c)
  }

  function StartedBy(s: State, cfg: Config, a: Action, c: uint64): seq<Work> {
    if Concerns(s, a, c) && Judge(s, cfg, a.p, a.now).Start? then [Judge(s, cfg, a.p, a.now).work] else []
  }

  /** The action hands the serving loop an event of `c`. */
  predicate Concerns(s: State, a: Action, c: uint64) {
    a.Handle? && a.p.correlation == c && s.phase.Serving?
  }

  /** The loop has room for an event: an assembly slot, and for a final fragment a
      handler, a job slot and time. */
  predicate Room(s: State, cfg: Config, p: Packet, now: uint64) {
    && (p.correlation in s.assemblies || |s.assemblies| < MAX_IN_FLIGHT)
    && (!Has(p.flags, F_MORE) ==>
          && cfg.hasHandler && |s.jobs| < MAX_IN_FLIGHT
          && (DecodePayload(p.payload).Some? ==> !DeadlineExpired(DecodePayload(p.payload).value, now)))
  }

  /** There is room at each event of `c`. */
  predicate RoomAlong(s: State, cfg: Config, acts: seq<Action>, c: uint64)
    decreases |acts|
  {
    acts != [] ==>
      && (Concerns(s, acts[0], c) ==> Room(s, cfg, acts[0].p, acts[0].now))
      && RoomAlong(Step(s, cfg, acts[0]), cfg, acts[1..], c)
  }

  // ---------------------------------------------------- a request on its way

  /** Fragments up to `k` have come in, and the runtime holds those from `j` on:
      all of them, unless one was refused. */
  ghost predicate Partly(s: State, env: Envelope, parts: seq<Bytes>, j: nat, k: nat)
    requires j <= k <= |parts|
  {
    && env.correlation !in s.jobs
    && (if j == k then env.correlation !in s.assemblies
        else env.correlation in s.assemblies
             && s.assemblies[env.correlation]
                == Assembly(env.kind, HeaderFor(env, parts[j]), Concat(parts[j..k])))
  }

  /** A request some stage of `cfg` answers to, cut into pieces of which only the
      last may be empty, within the body limit. */
  ghost predicate Served(cfg: Config, env: Envelope, parts: seq<Bytes>) {
    && Invokes(env)
    && env.stageID != 0 && env.stageID == ExpectedStage(cfg, env.kind)
    && parts != [] && |Concat(parts)| <= MAX_BODY
    && forall i :: 0 <= i < |parts| - 1 ==> parts[i] != []
  }

  /** The work is for this request, whatever its number. */
  predicate WorkIs(w: Work, kind: uint32, correlation: uint64, stageID: uint32, deadline: uint64, trace: uint64,
                   body: Bytes)
  {
    && w.kind == kind && w.correlation == correlation && w.stageID == stageID
    && w.deadline == deadline && w.trace == trace && w.body == body
  }

  /** The work a whole request becomes. */
  function WorkFor(env: Envelope, body: Bytes, id: nat): Work {
    Work(id, env.kind, env.correlation, env.stageID, env.deadline, env.trace, body)
  }

  lemma ConcatRange(parts: seq<Bytes>, j: nat, k: nat)
    requires j <= k < |parts|
    ensures Concat(parts[j..k + 1]) == Concat(parts[j..k]) + parts[k]
    ensures |Concat(parts[j..k])| + |parts[k]| + |Concat(parts[k + 1..])| <= |Concat(parts)|
    ensures |Concat(parts[k..])| == |parts[k]| + |Concat(parts[k + 1..])| <= |Concat(parts[j..])|
    ensures j == k ==> Concat(parts[j..k]) == []
    ensures k == |parts| - 1 ==> parts[j..k + 1] == parts[j..]
  {
    ConcatSplit(parts[j..k], [parts[k]]);
    ConcatOne(parts[k]);
    assert parts[j..k + 1] == parts[j..k] + [parts[k]];
    ConcatCut(parts, 0, j);
    ConcatCut(parts, j, k);
    assert parts[0..] == parts;
    assert parts[k..][1..] == parts[k + 1..];
  }

  lemma ConcatCut(parts: seq<Bytes>, j: nat, k: nat)
    requires j <= k <= |parts|
    ensures Concat(parts[j..]) == Concat(parts[j..k]) + Concat(parts[k..])
  {
    hide Concat;
    ConcatSplit(parts[j..k], parts[k..]);
    assert parts[j..] == parts[j..k] + parts[k..];
  }

  /** The next fragment of a request: absorbed if there is room, or if it is the
      last the start of the job; refused otherwise. */
  lemma FragmentDecided(s: State, cfg: Config, env: Envelope, parts: seq<Bytes>, j: nat, k: nat, now: uint64)
    requires env.pattern == F_REQUEST && j <= k < |parts| && Served(cfg, env, parts) && Partly(s, env, parts, j, k)
    ensures var p := FragmentPacket(env, parts[k], k < |parts| - 1);
            var v := Judge(s, cfg, p, now);
            if !Room(s, cfg, p, now) then v.Refuse?
            else if k < |parts| - 1
            then v == Absorb(Assembly(env.kind, HeaderFor(env, parts[j]), Concat(parts[j..k + 1])))
            else v == Start(WorkFor(env, Concat(parts[j..]), s.nextId))
  {
    hide Judge, DecodePayload, FragmentPacket, Has, Room, Concat;
    ConcatRange(parts, j, k);
    FragmentFlagsAre(env, parts[k], k < |parts| - 1);
    FragmentReads(env, parts[k], k < |parts| - 1);
    FragmentJudged(s, cfg, env, parts[j], parts[k], k < |parts| - 1, Concat(parts[j..k]), now);
  }

  lemma FragmentFlagsAre(env: Envelope, part: Bytes, more: bool)
    requires env.pattern == F_REQUEST
    ensures var p := FragmentPacket(env, part, more);
            && !Has(p.flags, F_CANCEL) && Has(p.flags, F_REQUEST) && (Has(p.flags, F_MORE) <==> more)
  {
    FragmentTests(F_REQUEST, more);
    hide Has;
  }

  lemma FragmentJudged(s: State, cfg: Config, env: Envelope, first: Bytes, part: Bytes, more: bool, body: Bytes,
                       now: uint64)
    requires Invokes(env)
    requires env.stageID != 0 && env.stageID == ExpectedStage(cfg, env.kind) && env.correlation !in s.jobs
    requires var p := FragmentPacket(env, part, more);
             && !Has(p.flags, F_CANCEL) && Has(p.flags, F_REQUEST) && (Has(p.flags, F_MORE) <==> more)
             && DecodePayload(p.payload) == Some(HeaderFor(env, part)) && BodyOf(p.payload) == part
    requires |body| + |part| <= MAX_BODY
    requires env.correlation in s.assemblies ==>
               s.assemblies[env.correlation] == Assembly(env.kind, HeaderFor(env, first), body)
    requires env.correlation !in s.assemblies ==> body == [] && first == part
    ensures var p := FragmentPacket(env, part, more);
            var v := Judge(s, cfg, p, now);
            if !Room(s, cfg, p, now) then v.Refuse?
            else if more then v == Absorb(Assembly(env.kind, HeaderFor(env, first), body + part))
            else v == Start(WorkFor(env, body + part, s.nextId))
  {
    hide DecodePayload, Has, Payload;
  }

  // ----------------------------------------------------------- whole runs

  /** Steps that are not events of `c` give it no job. */
  lemma NoJobFromElsewhere(s: State, cfg: Config, a: Action, c: uint64)
    requires !Concerns(s, a, c) && c !in s.jobs
    ensures c !in Step(s, cfg, a).jobs
  {
    if a.Handle? && s.phase.Serving? {
      JudgeShape(s, cfg, a.p, a.now);
    }
    hide Judge, Outcome, Normalised;
  }

  lemma OthersKeepPartly(s: State, cfg: Config, a: Action, env: Envelope, parts: seq<Bytes>, j: nat, k: nat)
    requires j <= k <= |parts| && Partly(s, env, parts, j, k) && !Concerns(s, a, env.correlation)
    ensures Partly(Step(s, cfg, a), env, parts, j, k)
  {
    NoJobFromElsewhere(s, cfg, a, env.correlation);
    OtherCorrelation(s, cfg, a, env.correlation);
    hide Step, HeaderFor, Concat;
  }

  /** What a run still has to deliver of a request. */
  function Remaining(env: Envelope, parts: seq<Bytes>, k: nat): seq<Packet>
    requires k <= |parts| && (env.pattern == F_REQUEST || env.pattern == F_REPLY)
  {
    Stream(env, parts)[k..]
  }

  lemma {:induction false} OnlySplit(a: seq<Packet>, b: seq<Packet>, c: uint64)
    ensures CA.Only(a + b, c) == CA.Only(a, c) + CA.Only(b, c)
    decreases |a|
  {
    if a == [] {
      assert a + b == b;
    } else {
      OnlySplit(a[1..], b, c);
      assert (a + b)[1..] == a[1..] + b;
    }
  }

  /** The events of `c` in a run, first step apart. */
  lemma OnlyGiven(acts: seq<Action>, c: uint64)
    requires acts != []
    ensures CA.Only(Given(acts), c)
            == (if acts[0].Handle? && acts[0].p.correlation == c then [acts[0].p] else [])
               + CA.Only(Given(acts[1..]), c)
  {
    assert acts == [acts[0]] + acts[1..];
    GivenSplit([acts[0]], acts[1..]);
    GivenOne(acts[0]);
    OnlySplit(Given([acts[0]]), Given(acts[1..]), c);
  }

  lemma GivenOne(a: Action)
    ensures Given([a]) == if a.Handle? then [a.p] else []
  {
    assert [a][..0] == [];
  }

  /** A correlation with no more events starts no more works. */
  lemma {:induction false} NothingStarted(s: State, cfg: Config, acts: seq<Action>, c: uint64)
    requires CA.Only(Given(acts), c) == []
    ensures Started(s, cfg, acts, c) == []
    decreases |acts|
  {
    hide Step, Judge, Given, CA.Only;
    if acts != [] {
      OnlyGiven(acts, c);
      NothingStarted(Step(s, cfg, acts[0]), cfg, acts[1..], c);
    }
  }

  /** One event of the request in its place in the run. */
  lemma OneFragment(s: State, cfg: Config, a: Action, env: Envelope, parts: seq<Bytes>, j: nat, k: nat)
    requires env.pattern == F_REQUEST && j <= k < |parts| && Served(cfg, env, parts) && Partly(s, env, parts, j, k)
    requires Concerns(s, a, env.correlation) && a.p == FragmentPacket(env, parts[k], k < |parts| - 1)
    ensures Room(s, cfg, a.p, a.now) && k < |parts| - 1 ==>
              Partly(Step(s, cfg, a), env, parts, j, k + 1) && StartedBy(s, cfg, a, env.correlation) == []
    ensures Room(s, cfg, a.p, a.now) && k == |parts| - 1 ==>
              StartedBy(s, cfg, a, env.correlation) == [WorkFor(env, Concat(parts[j..]), s.nextId)]
    ensures !Room(s, cfg, a.p, a.now) ==>
              Partly(Step(s, cfg, a), env, parts, k + 1, k + 1) && StartedBy(s, cfg, a, env.correlation) == []
  {
    hide Judge, Concat, HeaderFor, Room, FragmentPacket, Step, Served;
    FragmentDecided(s, cfg, env, parts, j, k, a.now);
    VerdictStep(s, cfg, a);
  }

  lemma VerdictStep(s: State, cfg: Config, a: Action)
    requires a.Handle? && s.phase.Serving?
    ensures var v, t := Judge(s, cfg, a.p, a.now), Step(s, cfg, a);
            && (v.Absorb? ==> t == s.(assemblies := s.assemblies[a.p.correlation := v.assembly]))
            && (v.Refuse? ==> t.assemblies == s.assemblies - {a.p.correlation} && t.jobs == s.jobs)
            && (v.Start? ==>
                  t.jobs == s.jobs[a.p.correlation := v.work] && t.running == s.running + {v.work} && t.done == s.done
                  && t.decided == s.decided && t.cancelled == s.cancelled && t.replies == s.replies
                  && t.phase == s.phase)
  {
    hide Judge, Normalised;
  }

  /** How a request whose fragments from `j` on are held can end: with room
      throughout, in exactly one work with all of those; otherwise in none, or in
      one with fewer bytes. */
  ghost predicate HandedOver(works: seq<Work>, env: Envelope, parts: seq<Bytes>, j: nat, room: bool)
    requires j <= |parts|
  {
    if room then |works| == 1 && works[0] == WorkFor(env, Concat(parts[j..]), works[0].id)
    else works == [] || (|works| == 1 && works[0] == WorkFor(env, works[0].body, works[0].id)
                         && |works[0].body| < |Concat(parts[j..])|)
  }

  lemma {:induction false} RestArrives(s: State, cfg: Config, acts: seq<Action>, env: Envelope, parts: seq<Bytes>,
                                       j: nat, k: nat)
    requires env.pattern == F_REQUEST && j <= k < |parts| && Served(cfg, env, parts) && Partly(s, env, parts, j, k)
    requires CA.Only(Given(acts), env.correlation) == Remaining(env, parts, k)
    requires Run(s, cfg, acts).phase.Serving?
    ensures HandedOver(Started(s, cfg, acts, env.correlation), env, parts, j, RoomAlong(s, cfg, acts, env.correlation))
    decreases |acts|
  {
    hide Step, Judge, Given, CA.Only, Partly, Served, FragmentPacket, Concat, Room, HandedOver;
    var c, rest := env.correlation, Remaining(env, parts, k);
    assert rest[0] == FragmentPacket(env, parts[k], k < |parts| - 1);
    NothingGiven(c);
    assert acts != [];
    OnlyGiven(acts, c);
    var t := Step(s, cfg, acts[0]);
    if !s.phase.Serving? {
      StoppedForGood(s, cfg, acts);
    }
    if acts[0].Handle? && acts[0].p.correlation == c {
      OneFragment(s, cfg, acts[0], env, parts, j, k);
      assert CA.Only(Given(acts[1..]), c) == rest[1..] == Stream(env, parts)[k + 1..];
      var kept, more := Room(s, cfg, acts[0].p, acts[0].now), k < |parts| - 1;
      var here, later := StartedBy(s, cfg, acts[0], c), Started(t, cfg, acts[1..], c);
      if more {
        RestArrives(t, cfg, acts[1..], env, parts, if kept then j else k + 1, k + 1);
      } else {
        NothingStarted(t, cfg, acts[1..], c);
        NoMoreRoomNeeded(t, cfg, acts[1..], c);
      }
      HandedOverFrom(here, later, env, parts, cfg, j, k, kept, RoomAlong(t, cfg, acts[1..], c), s.nextId);
    } else {
      OthersKeepPartly(s, cfg, acts[0], env, parts, j, k);
      RestArrives(t, cfg, acts[1..], env, parts, j, k);
      assert [] + Started(t, cfg, acts[1..], c) == Started(t, cfg, acts[1..], c);
    }
  }

  /** The first event and what follows it, put together. */
  lemma HandedOverFrom(here: seq<Work>, later: seq<Work>, env: Envelope, parts: seq<Bytes>, cfg: Config, j: nat, k: nat,
                 kept: bool, after: bool, id: nat)
    requires j <= k < |parts| && Served(cfg, env, parts)
    requires kept && k == |parts| - 1 ==> here == [WorkFor(env, Concat(parts[j..]), id)]
    requires !kept || k < |parts| - 1 ==> here == []
    requires if k < |parts| - 1 then HandedOver(later, env, parts, if kept then j else k + 1, after)
             else later == [] && after
    ensures HandedOver(here + later, env, parts, j, kept && after)
  {
    ConcatRange(parts, j, k);
    hide Concat, HeaderFor;
    assert [] + later == later;
  }

  lemma {:induction false} NoMoreRoomNeeded(s: State, cfg: Config, acts: seq<Action>, c: uint64)
    requires CA.Only(Given(acts), c) == []
    ensures RoomAlong(s, cfg, acts, c)
    decreases |acts|
  {
    hide Step, Room, Given, CA.Only;
    if acts != [] {
      OnlyGiven(acts, c);
      NoMoreRoomNeeded(Step(s, cfg, acts[0]), cfg, acts[1..], c);
    }
  }

  lemma NothingGiven(c: uint64)
    ensures CA.Only(Given([]), c) == []
  {
  }

  /** Request integrity: take a request of at most the body limit, cut for any
      budget, whose fragments arrive in order under a fresh correlation, interleaved
      with anything else. At most one work is started for it; and a worker is handed
      the caller's request, byte for byte, exactly when there is room at each of its
      fragments. (Without room the loop answers the fragment and drops what it has,
      and later fragments of the same request begin a new, shorter body.) */
  lemma RequestArrives(s: State, cfg: Config, acts: seq<Action>, env: Envelope, request: Bytes, size: nat)
    requires Invokes(env)
    requires env.stageID != 0 && env.stageID == ExpectedStage(cfg, env.kind)
    requires |request| <= MAX_BODY && size > 0
    requires env.correlation !in s.assemblies && env.correlation !in s.jobs
    requires CA.Only(Given(acts), env.correlation) == Stream(env, Chunks(request, size))
    requires Run(s, cfg, acts).phase.Serving?
    ensures var works := Started(s, cfg, acts, env.correlation);
            && |works| <= 1
            && (RoomAlong(s, cfg, acts, env.correlation) <==>
                  && works != []
                  && WorkIs(works[0], env.kind, env.correlation, env.stageID, env.deadline, env.trace, request))
  {
    ChunkLaw(request, size);
    var parts := Chunks(request, size);
    hide Given, CA.Only, Run, RoomAlong, Chunks, Concat, Started;
    assert Stream(env, parts)[0..] == Stream(env, parts);
    assert parts[0..] == parts;
    RestArrives(s, cfg, acts, env, parts, 0, 0);
  }

  // -------------------------------------------------- a request cut short

  /** A cancel of another request. */
  function CancelOf(d: uint64): Packet {
    Packet(F_CANCEL, 0, d, [])
  }

  lemma CancelDrops(s: State, cfg: Config, d: uint64, now: uint64)
    requires s.phase.Serving?
    ensures Step(s, cfg, Handle(CancelOf(d), now, true))
            == s.(assemblies := s.assemblies - {d},
                  cancelled := if d in s.jobs then s.cancelled + {s.jobs[d].id} else s.cancelled)
  {
    AndSelf(F_CANCEL);
    hide And, Assemble, Invalid;
  }

  lemma RefusedDrops(s: State, cfg: Config, a: Action)
    requires a.Handle? && a.sent && s.phase.Serving? && Judge(s, cfg, a.p, a.now).Refuse?
    ensures var t := Step(s, cfg, a);
            t.phase.Serving? && t.jobs == s.jobs && t.nextId == s.nextId
            && t.assemblies == s.assemblies - {a.p.correlation}
  {
    hide Judge, Normalised;
  }

  /** How a handler can get less than the caller sent: the first fragment of a
      two-fragment request meets a full table and is refused, a place becomes free,
      and the second fragment alone becomes the body. */
  lemma RefusalCutsShort(s: State, cfg: Config, env: Envelope, first: Bytes, last: Bytes, d: uint64, now: uint64)
    requires Served(cfg, env, [first, last]) && env.pattern == F_REQUEST && s.phase.Serving?
    requires env.correlation !in s.assemblies && env.correlation !in s.jobs
    requires |s.assemblies| == MAX_IN_FLIGHT && d in s.assemblies && |s.jobs| < MAX_IN_FLIGHT
    requires cfg.hasHandler && (env.deadline == 0 || now < env.deadline)
    ensures var acts := [Handle(FragmentPacket(env, first, true), now, true), Handle(CancelOf(d), now, true),
                         Handle(FragmentPacket(env, last, false), now, true)];
            Started(s, cfg, acts, env.correlation) == [WorkFor(env, last, s.nextId)] && first != []
  {
    var parts := [first, last];
    var a, b, c := Handle(FragmentPacket(env, first, true), now, true), Handle(CancelOf(d), now, true),
                   Handle(FragmentPacket(env, last, false), now, true);
    hide Step, Served, Partly, Judge, FragmentPacket, CancelOf, StartedBy;
    FirstIsRefused(s, cfg, env, parts, now);
    var t := Step(s, cfg, a);
    PlaceIsFreed(t, cfg, env, parts, d, now);
    var u := Step(t, cfg, b);
    OnePlaceFree(s.assemblies, env.correlation, d);
    LastStarts(u, cfg, env, parts, now);
    StartedInThree(s, cfg, a, b, c, env.correlation);
    assert t.nextId == s.nextId && u.nextId == s.nextId;
  }

  lemma StartedInThree(s: State, cfg: Config, a: Action, b: Action, d: Action, c: uint64)
    ensures var t := Step(s, cfg, a);
            var u := Step(t, cfg, b);
            Started(s, cfg, [a, b, d], c) == StartedBy(s, cfg, a, c) + StartedBy(t, cfg, b, c) + StartedBy(u, cfg, d, c)
  {
    hide Step, StartedBy;
    var t := Step(s, cfg, a);
    var u := Step(t, cfg, b);
    assert [a, b, d][1..] == [b, d] && [b, d][1..] == [d] && [d][1..] == [];
    assert Started(u, cfg, [d], c) == StartedBy(u, cfg, d, c) + [];
    assert Started(t, cfg, [b, d], c) == StartedBy(t, cfg, b, c) + Started(u, cfg, [d], c);
  }

  lemma FirstIsRefused(s: State, cfg: Config, env: Envelope, parts: seq<Bytes>, now: uint64)
    requires |parts| == 2 && Served(cfg, env, parts) && env.pattern == F_REQUEST && s.phase.Serving?
    requires env.correlation !in s.assemblies && env.correlation !in s.jobs
    requires |s.assemblies| >= MAX_IN_FLIGHT && |s.jobs| < MAX_IN_FLIGHT
    requires cfg.hasHandler && (env.deadline == 0 || now < env.deadline)
    ensures var a := Handle(FragmentPacket(env, parts[0], true), now, true);
            var t := Step(s, cfg, a);
            && StartedBy(s, cfg, a, env.correlation) == [] && parts[0] != []
            && t.phase.Serving? && t.jobs == s.jobs && t.nextId == s.nextId
            && t.assemblies == s.assemblies - {env.correlation} && Partly(t, env, parts, 1, 1)
  {
    CutShortRoom(s, cfg, env, parts, now);
    hide Judge, FragmentPacket, Room, Served, Step, HeaderFor, Partly;
    CutShortStart(s, env, parts);
    PacketCorrelation(env, parts[0], true);
    var a := Handle(FragmentPacket(env, parts[0], true), now, true);
    OneFragment(s, cfg, a, env, parts, 0, 0);
    FragmentDecided(s, cfg, env, parts, 0, 0, now);
    RefusedDrops(s, cfg, a);
  }

  lemma PlaceIsFreed(t: State, cfg: Config, env: Envelope, parts: seq<Bytes>, d: uint64, now: uint64)
    requires |parts| == 2 && Partly(t, env, parts, 1, 1) && t.phase.Serving? && d != env.correlation
    ensures var b := Handle(CancelOf(d), now, true);
            var u := Step(t, cfg, b);
            && StartedBy(t, cfg, b, env.correlation) == []
            && u.phase.Serving? && u.jobs == t.jobs && u.nextId == t.nextId
            && u.assemblies == t.assemblies - {d} && Partly(u, env, parts, 1, 1)
  {
    hide Judge, Step, HeaderFor, Partly;
    CancelDrops(t, cfg, d, now);
    OtherName(d, env.correlation);
    OthersKeepPartly(t, cfg, Handle(CancelOf(d), now, true), env, parts, 1, 1);
  }

  lemma LastStarts(u: State, cfg: Config, env: Envelope, parts: seq<Bytes>, now: uint64)
    requires |parts| == 2 && Served(cfg, env, parts) && env.pattern == F_REQUEST && u.phase.Serving?
    requires Partly(u, env, parts, 1, 1) && |u.assemblies| < MAX_IN_FLIGHT && |u.jobs| < MAX_IN_FLIGHT
    requires cfg.hasHandler && (env.deadline == 0 || now < env.deadline)
    ensures StartedBy(u, cfg, Handle(FragmentPacket(env, parts[1], false), now, true), env.correlation)
            == [WorkFor(env, parts[1], u.nextId)]
  {
    CutShortRoom(u, cfg, env, parts, now);
    PacketCorrelation(env, parts[1], false);
    hide FragmentPacket, Room, Served, Step, HeaderFor, StartedBy;
    OneFragment(u, cfg, Handle(FragmentPacket(env, parts[1], false), now, true), env, parts, 1, 1);
    assert parts[1..] == [parts[1]];
    ConcatOne(parts[1]);
  }

  lemma PacketCorrelation(env: Envelope, part: Bytes, more: bool)
    requires env.pattern == F_REQUEST || env.pattern == F_REPLY
    ensures FragmentPacket(env, part, more).correlation == env.correlation
  {
    hide Payload;
  }

  lemma OtherName(d: uint64, c: uint64)
    requires c != d
    ensures CancelOf(d).correlation != c
  {
  }

  lemma OnePlaceFree(m: map<uint64, Assembly>, c: uint64, d: uint64)
    requires c !in m && d in m
    ensures |m - {c} - {d}| < |m|
  {
    assert (m - {c} - {d}).Keys == m.Keys - {d};
    assert |m.Keys - {d}| == |m.Keys| - 1;
  }

  lemma CutShortStart(s: State, env: Envelope, parts: seq<Bytes>)
    requires env.correlation !in s.assemblies && env.correlation !in s.jobs
    ensures Partly(s, env, parts, 0, 0)
  {
  }

  /** With the table full there is no room for a first fragment; with a place free,
      a handler, a job slot and time there is for a last one. */
  lemma CutShortRoom(s: State, cfg: Config, env: Envelope, parts: seq<Bytes>, now: uint64)
    requires |parts| == 2 && env.pattern == F_REQUEST && Served(cfg, env, parts)
    requires env.correlation !in s.assemblies && |s.jobs| < MAX_IN_FLIGHT
    requires cfg.hasHandler && (env.deadline == 0 || now < env.deadline)
    ensures |s.assemblies| >= MAX_IN_FLIGHT ==> !Room(s, cfg, FragmentPacket(env, parts[0], true), now)
    ensures |s.assemblies| < MAX_IN_FLIGHT ==> Room(s, cfg, FragmentPacket(env, parts[1], false), now)
    ensures parts[0] != []
  {
    hide DecodePayload, Has, Payload, Concat;
    ConcatRange(parts, 0, 1);
    FragmentReads(env, parts[1], false);
  }

  // The full table is within reach of a module that has just started.

  /** The same request under another correlation. */
  function Under(env: Envelope, c: uint64): Envelope {
    env.(correlation := c)
  }

  /** First fragments of `n` requests, under the correlations 1 to `n`. */
  function Openers(env: Envelope, first: Bytes, n: nat, now: uint64): seq<Action>
    requires n <= MAX_IN_FLIGHT && env.pattern == F_REQUEST
  {
    if n == 0 then [] else Openers(env, first, n - 1, now) + [Opener(env, first, n, now)]
  }

  function Opener(env: Envelope, first: Bytes, n: nat, now: uint64): Action
    requires n <= MAX_IN_FLIGHT && env.pattern == F_REQUEST
  {
    Handle(FragmentPacket(Under(env, n), first, true), now, true)
  }

  /** A serving loop that holds `n` first fragments, all under 1 to `n`, and nothing
      else. */
  ghost predicate Opened(s: State, n: nat) {
    && s.phase.Serving? && s.jobs == map[] && s.nextId == 0 && UpTo(s.assemblies, n)
  }

  ghost predicate UpTo(m: map<uint64, Assembly>, n: nat) {
    |m| == n && (forall c | c in m :: c <= n) && (n > 0 ==> 1 in m)
  }

  lemma {:induction false} OpenersFill(cfg: Config, env: Envelope, parts: seq<Bytes>, n: nat, now: uint64, c: uint64)
    requires |parts| == 2 && Served(cfg, env, parts) && env.pattern == F_REQUEST
    requires n <= MAX_IN_FLIGHT < c
    ensures Opened(Run(IDLE, cfg, Openers(env, parts[0], n, now)), n)
    ensures CA.Only(Given(Openers(env, parts[0], n, now)), c) == []
  {
    hide Step, Served, CA.Only, Run, Given, Opened, Opener;
    if n == 0 {
      NothingOpened(cfg);
      NothingGiven(c);
    } else {
      OpenersFill(cfg, env, parts, n - 1, now, c);
      var before := Openers(env, parts[0], n - 1, now);
      JoinStep(IDLE, cfg, before, Opener(env, parts[0], n, now));
      OpenOne(Run(IDLE, cfg, before), cfg, env, parts, n, now);
      OpenerIsNot(env, parts[0], n, now, c);
      OnlySplit(Given(before), [Opener(env, parts[0], n, now).p], c);
    }
  }

  lemma NothingOpened(cfg: Config)
    ensures Run(IDLE, cfg, []) == IDLE && Opened(IDLE, 0)
  {
  }

  lemma OpenerIsNot(env: Envelope, first: Bytes, n: nat, now: uint64, c: uint64)
    requires n <= MAX_IN_FLIGHT < c && env.pattern == F_REQUEST
    ensures var a := Opener(env, first, n, now);
            a.Handle? && a.p.correlation == n && CA.Only([a.p], c) == []
  {
    PacketCorrelation(Under(env, n), first, true);
    hide FragmentPacket;
    var p := Opener(env, first, n, now).p;
    assert [p][1..] == [];
  }

  lemma OpenOne(s: State, cfg: Config, env: Envelope, parts: seq<Bytes>, n: nat, now: uint64)
    requires |parts| == 2 && Served(cfg, env, parts) && env.pattern == F_REQUEST
    requires 0 < n <= MAX_IN_FLIGHT && Opened(s, n - 1)
    ensures Opened(Step(s, cfg, Opener(env, parts[0], n, now)), n)
  {
    var e, a := Under(env, n), Opener(env, parts[0], n, now);
    PacketCorrelation(e, parts[0], true);
    assert Served(cfg, e, parts) && Partly(s, e, parts, 0, 0) && Room(s, cfg, a.p, now) by {
      OpenerHasRoom(s, cfg, env, parts, n, now);
    }
    hide Served, Partly, Room, Judge, FragmentPacket, Step, HeaderFor, Concat, UpTo;
    FragmentDecided(s, cfg, e, parts, 0, 0, now);
    VerdictStep(s, cfg, a);
    OneMore(s.assemblies, n, Judge(s, cfg, a.p, now).assembly);
  }

  lemma OneMore(m: map<uint64, Assembly>, n: uint64, a: Assembly)
    requires n > 0 && UpTo(m, n - 1)
    ensures UpTo(m[n := a], n)
  {
    assert m[n := a].Keys == m.Keys + {n};
  }

  lemma OpenerHasRoom(s: State, cfg: Config, env: Envelope, parts: seq<Bytes>, n: nat, now: uint64)
    requires |parts| == 2 && Served(cfg, env, parts) && env.pattern == F_REQUEST
    requires 0 < n <= MAX_IN_FLIGHT && Opened(s, n - 1)
    ensures Served(cfg, Under(env, n), parts) && Partly(s, Under(env, n), parts, 0, 0)
    ensures Room(s, cfg, Opener(env, parts[0], n, now).p, now)
  {
    FragmentFlagsAre(Under(env, n), parts[0], true);
    hide DecodePayload, Has, Payload, Concat;
  }

  lemma {:induction false} StartedSplit(s: State, cfg: Config, a: seq<Action>, b: seq<Action>, c: uint64)
    ensures Started(s, cfg, a + b, c) == Started(s, cfg, a, c) + Started(Run(s, cfg, a), cfg, b, c)
    decreases |a|
  {
    hide Step, StartedBy;
    if a == [] {
      assert a + b == b;
    } else {
      StartedSplit(Step(s, cfg, a[0]), cfg, a[1..], b, c);
      assert (a + b)[1..] == a[1..] + b;
    }
  }

  /** A module that has just started can be brought to hand its worker less than the
      caller sent: sixteen requests are begun, the first fragment of another is
      refused, one of the sixteen is cancelled, and the last fragment of the refused
      request starts a job with its bytes alone. */
  lemma RequestCutShort(cfg: Config, env: Envelope, first: Bytes, last: Bytes, now: uint64)
    requires Served(cfg, env, [first, last]) && env.pattern == F_REQUEST && env.correlation > MAX_IN_FLIGHT
    requires cfg.hasHandler && (env.deadline == 0 || now < env.deadline)
    ensures var acts := Openers(env, first, MAX_IN_FLIGHT, now)
                        + [Handle(FragmentPacket(env, first, true), now, true), Handle(CancelOf(1), now, true),
                           Handle(FragmentPacket(env, last, false), now, true)];
            Started(IDLE, cfg, acts, env.correlation) == [WorkFor(env, last, 0)] && first != []
  {
    var c, open := env.correlation, Openers(env, first, MAX_IN_FLIGHT, now);
    OpenersFill(cfg, env, [first, last], MAX_IN_FLIGHT, now, c);
    var s := Run(IDLE, cfg, open);
    assert 1 in s.assemblies && c !in s.assemblies;
    hide Served, Run, Started, Openers, FragmentPacket, CancelOf, Given, CA.Only;
    RefusalCutsShort(s, cfg, env, first, last, 1, now);
    NothingStarted(IDLE, cfg, open, c);
    StartedSplit(IDLE, cfg, open,
      [Handle(FragmentPacket(env, first, true), now, true), Handle(CancelOf(1), now, true),
       Handle(FragmentPacket(env, last, false), now, true)], c);
  }
}
