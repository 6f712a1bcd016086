/** The lifecycle pass over a project's flat-file skills: which skills it archives
    or marks stale, and what it leaves alone
    (src/modules/skills/skill.c:1275-1334, 1575-1704). */
module Lifecycle {
  import opened Bytes
  import opened SkillName

  const MAX_SKILLS: nat := 64
  const DAY: nat := 86400

  /** A recorded time: missing, unreadable, or seconds since the epoch. */
  datatype Stamp = Blank | Garbled | At(t: int)

  datatype Record = Record(pinned: bool, created: Stamp, lastUsed: Stamp, patched: Stamp, patches: int, state: string)

  datatype Store = Store(files: map<Name, Bytes>, archive: map<Name, Bytes>, usage: map<Name, Record>)

  datatype Fault = AtRecord(name: Name) | AtRename(name: Name) | AtArchiveDir

  /** What one pass is called with, and what the environment makes fail. */
  datatype Pass = Pass(staleAfter: int, archiveAfter: int, now: int, faults: set<Fault>)

  datatype Counts = Counts(considered: nat, stale: nat, archived: nat, pinned: nat, errors: nat)

  const NO_COUNTS: Counts := Counts(0, 0, 0, 0, 0)

  const NEW_RECORD: Record := Record(false, Blank, Blank, Blank, 0, "active")

  /** What skill_usage_get reports for a project skill. */
  function Usage(s: Store, name: Name): Record {
    if name in s.usage then s.usage[name] else NEW_RECORD
  }

  /** Whole days, or -1 when the time is missing, unreadable or in the future. */
  function AgeDays(ts: Stamp, now: int): (r: int)
    ensures r >= -1
  {
    if !ts.At? || ts.t > now then -1 else (now - ts.t) / DAY
  }

  function Activity(r: Record): Stamp {
    if r.lastUsed != Blank then r.lastUsed else r.created
  }

  /** The record after skill_record_mutation. */
  function Mutated(s: Store, name: Name, bump: bool, state: string, now: int): Store {
    var r := if name in s.usage then s.usage[name] else NEW_RECORD.(created := At(now));
    s.(usage := s.usage[name := r.(patches := if bump then r.patches + 1 else r.patches,
                                   patched := At(now), state := state)])
  }

  datatype Effect = Nothing | SkippedPinned | MarkedStale | Archived | Failed

  /** Archiving one skill: refused if it is pinned, badly named, or already in the
      archive. The record is written before the file moves. */
  function ArchiveOne(s: Store, name: Name, p: Pass): (Store, bool) {
    if name !in s.files || Usage(s, name).pinned || !NameIsValid(name) then (s, false)
    else if AtArchiveDir in p.faults || name in s.archive || AtRecord(name) in p.faults then (s, false)
    else
      var t := Mutated(s, name, true, "archived", p.now);
      if AtRename(name) in p.faults then (t, false)
      else (t.(files := t.files - {name}, archive := t.archive[name := t.files[name]]), true)
  }

  /** One turn of the pass. */
  function One(s: Store, name: Name, p: Pass): (Store, Effect) {
    if name !in s.files then (s, Failed)
    else
      var u := Usage(s, name);
      var age := AgeDays(Activity(u), p.now);
      if u.pinned then (s, SkippedPinned)
      else if age < 0 then (s, Nothing)
      else if p.archiveAfter > 0 && age >= p.archiveAfter then
        var (t, ok) := ArchiveOne(s, name, p);
        (t, if ok then Archived else Failed)
      else if p.staleAfter > 0 && age >= p.staleAfter && u.state != "stale" then
        if AtRecord(name) in p.faults then (s, Failed)
        else (Mutated(s, name, false, "stale", p.now), MarkedStale)
      else (s, Nothing)
  }

  function Tally(c: Counts, e: Effect): Counts {
    var d := c.(considered := c.considered + 1);
    match e
    case Nothing => d
    case SkippedPinned => d.(pinned := d.pinned + 1)
    case MarkedStale => d.(stale := d.stale + 1)
    case Archived => d.(archived := d.archived + 1)
    case Failed => d.(errors := d.errors + 1)
  }

  function After(s: Store, names: seq<Name>, p: Pass): Store {
    if names == [] then s else One(After(s, names[..|names| - 1], p), names[|names| - 1], p).0
  }

  function Total(s: Store, names: seq<Name>, p: Pass): Counts {
    if names == [] then NO_COUNTS
    else Tally(Total(s, names[..|names| - 1], p), One(After(s, names[..|names| - 1], p), names[|names| - 1], p).1)
  }

  // --------------------------------------------------------------- one turn

  /** A turn touches no other skill. */
  lemma OnlyThatSkill(s: Store, name: Name, p: Pass, other: Name)
    requires other != name
    ensures var t := One(s, name, p).0;
            && (other in t.files <==> other in s.files) && (other in s.files ==> t.files[other] == s.files[other])
            && (other in t.archive <==> other in s.archive)
            && (other in s.archive ==> t.archive[other] == s.archive[other])
            && (other in t.usage <==> other in s.usage) && (other in s.usage ==> t.usage[other] == s.usage[other])
            && Usage(t, other) == Usage(s, other)
  {
  }

  /** Of the skill itself: the text is neither lost nor changed, it only moves from
      the files to a free place in the archive; and nothing of a pinned skill
      changes. */
  lemma ThatSkill(s: Store, name: Name, p: Pass)
    ensures var (t, e) := One(s, name, p);
            && (name in s.archive ==> name in t.archive && t.archive[name] == s.archive[name])
            && (e == Archived <==> name in s.files && name !in t.files)
            && (e == Archived ==> name !in s.archive && name in t.archive && t.archive[name] == s.files[name])
            && (e != Archived ==> t.files == s.files && t.archive == s.archive)
            && (Usage(s, name).pinned ==> t == s)
  {
  }

  /** There is nothing to do for this skill at this time. */
  predicate Idle(s: Store, name: Name, p: Pass) {
    var u := Usage(s, name);
    var age := AgeDays(Activity(u), p.now);
    || u.pinned || age < 0
    || (!(p.archiveAfter > 0 && age >= p.archiveAfter)
        && !(p.staleAfter > 0 && age >= p.staleAfter && u.state != "stale"))
  }

  /** A turn without an error leaves the skill gone or with nothing to do. */
  lemma TurnSettles(s: Store, name: Name, p: Pass)
    requires name in s.files && One(s, name, p).1 != Failed
    ensures var t := One(s, name, p).0;
            name in t.files ==> Idle(t, name, p)
  {
  }

  // --------------------------------------------------------------- whole passes

  /** Over a whole pass: each considered skill adds to at most one of the other
      counters. */
  lemma {:induction false} AtMostOneOutcomeEach(s: Store, names: seq<Name>, p: Pass)
    ensures var c := Total(s, names, p);
            c.considered == |names| && c.stale + c.archived + c.pinned + c.errors <= c.considered
  {
    hide One, After;
    if names != [] {
      AtMostOneOutcomeEach(s, names[..|names| - 1], p);
    }
  }

  /** What a pass keeps: pinned skills as they are, archive entries as they are, and
      every text, in place or in the archive. */
  ghost predicate Keeps(s: Store, t: Store) {
    && (forall k | k in s.files && Usage(s, k).pinned ::
          k in t.files && t.files[k] == s.files[k] && Usage(t, k) == Usage(s, k))
    && (forall k | k in s.archive :: k in t.archive && t.archive[k] == s.archive[k])
    && (forall k | k in s.files ::
          if k in t.files then t.files[k] == s.files[k]
          else k !in s.archive && k in t.archive && t.archive[k] == s.files[k])
    && t.files.Keys <= s.files.Keys
    && (forall k | k in t.archive :: k in s.archive || k in s.files)
  }

  lemma OneKeeps(s: Store, m: Store, name: Name, p: Pass)
    requires Keeps(s, m)
    ensures Keeps(s, One(m, name, p).0)
  {
    hide One, Usage;
    ThatSkill(m, name, p);
    forall other | other != name
      ensures var t := One(m, name, p).0;
              && (other in t.files <==> other in m.files) && (other in m.files ==> t.files[other] == m.files[other])
              && (other in t.archive <==> other in m.archive)
              && (other in m.archive ==> t.archive[other] == m.archive[other])
              && Usage(t, other) == Usage(m, other)
    {
      OnlyThatSkill(m, name, p, other);
    }
  }

  lemma {:induction false} PassKeeps(s: Store, names: seq<Name>, p: Pass)
    ensures Keeps(s, After(s, names, p))
  {
    hide One, Keeps;
    if names == [] {
      KeepsItself(s);
    } else {
      PassKeeps(s, names[..|names| - 1], p);
      OneKeeps(s, After(s, names[..|names| - 1], p), names[|names| - 1], p);
    }
  }

  lemma KeepsItself(s: Store)
    ensures Keeps(s, s)
  {
  }

  ghost predicate Distinct(names: seq<Name>) {
    forall i, j :: 0 <= i < j < |names| ==> names[i] != names[j]
  }

  /** A pass without errors leaves each skill it considered gone, or with nothing to
      do. */
  lemma {:induction false} PassSettles(s: Store, names: seq<Name>, p: Pass, k: Name)
    requires Total(s, names, p).errors == 0 && k in names
    ensures k in After(s, names, p).files ==> Idle(After(s, names, p), k, p)
  {
    hide Idle;
    var before, name := names[..|names| - 1], names[|names| - 1];
    var m := After(s, before, p);
    NoErrorLast(s, names, p);
    hide One;
    if k == name {
      PresentUnlessFailed(m, name, p);
      TurnSettles(m, name, p);
    } else {
      PassSettles(s, before, p, k);
      OnlyThatSkill(m, name, p, k);
      IdleElsewhere(m, After(s, names, p), k, p);
    }
  }

  lemma NoErrorLast(s: Store, names: seq<Name>, p: Pass)
    requires names != [] && Total(s, names, p).errors == 0
    ensures Total(s, names[..|names| - 1], p).errors == 0
    ensures One(After(s, names[..|names| - 1], p), names[|names| - 1], p).1 != Failed
  {
    hide One, After;
  }

  lemma PresentUnlessFailed(m: Store, name: Name, p: Pass)
    requires One(m, name, p).1 != Failed
    ensures name in m.files
  {
  }

  lemma IdleElsewhere(m: Store, t: Store, k: Name, p: Pass)
    requires k in m.usage <==> k in t.usage
    requires k in m.usage ==> t.usage[k] == m.usage[k]
    ensures Idle(t, k, p) == Idle(m, k, p)
  {
  }

  /** If nothing is to be done for any skill considered, a pass does nothing and
      counts no archived, stale or failed skill, whatever could fail. */
  lemma {:induction false} IdlePassDoesNothing(s: Store, names: seq<Name>, p: Pass)
    requires forall i :: 0 <= i < |names| ==> names[i] in s.files && Idle(s, names[i], p)
    ensures After(s, names, p) == s
    ensures var c := Total(s, names, p); c.archived == 0 && c.stale == 0 && c.errors == 0
  {
    hide Idle, One;
    if names != [] {
      var before, name := names[..|names| - 1], names[|names| - 1];
      assert forall i :: 0 <= i < |before| ==> before[i] == names[i];
      IdlePassDoesNothing(s, before, p);
      assert name == names[|names| - 1];
      IdleTurn(s, name, p);
    }
  }

  lemma IdleTurn(s: Store, name: Name, p: Pass)
    requires name in s.files && Idle(s, name, p)
    ensures One(s, name, p) == (s, Nothing) || One(s, name, p) == (s, SkippedPinned)
  {
  }

  /** What skill_project_list can list. */
  predicate Listable(name: Name) {
    0 < |name| < NAME_MAX
  }

  /** A listing: distinct listable names, in any order, cut off at the limit. */
  ghost predicate Listing(s: Store, names: seq<Name>) {
    && Distinct(names) && |names| <= MAX_SKILLS
    && (forall i :: 0 <= i < |names| ==> names[i] in s.files && Listable(names[i]))
    && (|names| < MAX_SKILLS ==> forall k | k in s.files && Listable(k) :: k in names)
  }

  /** A second pass at the same time, right after one that considered every skill
      without an error, archives and marks nothing and changes nothing, in whatever
      order either directory listing came, and whatever fails the second time. */
  lemma SecondPassDoesNothing(s: Store, names: seq<Name>, again: seq<Name>, p: Pass, faults: set<Fault>)
    requires Listing(s, names) && Total(s, names, p).errors == 0
    requires forall k | k in s.files && Listable(k) :: k in names
    requires Listing(After(s, names, p), again)
    ensures var t := After(s, names, p);
            var c := Total(t, again, p.(faults := faults));
            && After(t, again, p.(faults := faults)) == t
            && c.archived == 0 && c.stale == 0 && c.errors == 0
  {
    var t := After(s, names, p);
    PassKeeps(s, names, p);
    assert t.files.Keys <= s.files.Keys;
    var q := p.(faults := faults);
    forall i | 0 <= i < |again| ensures again[i] in t.files && Idle(t, again[i], q) {
      assert again[i] in s.files.Keys;
      PassSettles(s, names, p, again[i]);
    }
    hide After, Total, Idle;
    IdlePassDoesNothing(t, again, q);
  }

  // -------------------------------------------------------------- in place

  class Skills {
    var files: map<Name, Bytes>
    var archive: map<Name, Bytes>
    var usage: map<Name, Record>

    ghost function Now(): Store
      reads this
    {
      Store(files, archive, usage)
    }

    method RecordMutation(name: Name, bump: bool, state: string, p: Pass) returns (ok: bool)
      requires name in files
      modifies this`usage
      ensures ok == (AtRecord(name) !in p.faults)
      ensures Now() == if ok then Mutated(old(Now()), name, bump, state, p.now) else old(Now())
      ensures ok ==>
        && files == old(files) && archive == old(archive) && usage.Keys == old(usage.Keys) + {name}
        && (forall k | k in old(usage) && k != name :: usage[k] == old(usage[k]))
        && usage[name].state == state && usage[name].patched == At(p.now)
      ensures ok && name in old(usage) ==>
        var was := old(usage[name]);
        && usage[name].pinned == was.pinned && usage[name].created == was.created
        && usage[name].lastUsed == was.lastUsed && usage[name].patches == was.patches + if bump then 1 else 0
      ensures ok && name !in old(usage) ==>
        && !usage[name].pinned && usage[name].created == At(p.now) && usage[name].lastUsed == Blank
        && usage[name].patches == if bump then 1 else 0
    {
      if AtRecord(name) in p.faults {
        return false;
      }
      var r := NEW_RECORD.(created := At(p.now));
      if name in usage {
        r := usage[name];
      }
      if bump {
        r := r.(patches := r.patches + 1);
      }
      r := r.(patched := At(p.now));
      r := r.(state := state);
      usage := usage[name := r];
      return true;
    }

    method ArchiveSkill(name: Name, p: Pass) returns (ok: bool)
      modifies this
      ensures (Now(), ok) == ArchiveOne(old(Now()), name, p)
      ensures ok <==>
        && name in old(files) && !(name in old(usage) && old(usage[name]).pinned)
        && 0 < |name| < 64
        && ('a' <= name[0] <= 'z' || 'A' <= name[0] <= 'Z' || '0' <= name[0] <= '9')
        && (forall i :: 0 <= i < |name| ==>
              'a' <= name[i] <= 'z' || '0' <= name[i] <= '9' || name[i] in {'.', '_', '-'})
        && name !in old(archive)
        && AtArchiveDir !in p.faults && AtRecord(name) !in p.faults && AtRename(name) !in p.faults
    {
      if name !in files {
        return false;
      }
      if name in usage && usage[name].pinned {
        return false;
      }
      if !NameIsValid(name) {
        return false;
      }
      if AtArchiveDir in p.faults || name in archive {
        return false;
      }
      var recorded := RecordMutation(name, true, "archived", p);
      if !recorded || AtRename(name) in p.faults {
        return false;
      }
      archive := archive[name := files[name]];
      files := files - {name};
      return true;
    }

    /** The directory listing, in whatever order. */
    method ProjectList() returns (names: seq<Name>)
      ensures Listing(Now(), names)
      ensures |names| <= 64 && forall i, j :: 0 <= i < j < |names| ==> names[i] != names[j]
      ensures forall i :: 0 <= i < |names| ==> names[i] in files && 0 < |names[i]| < 64
      ensures |names| < 64 ==> forall k | k in files && 0 < |k| < 64 :: k in names
    {
      names := [];
      var left := files.Keys;
      while left != {} && |names| < MAX_SKILLS
        invariant left <= files.Keys && Distinct(names) && |names| <= MAX_SKILLS
        invariant forall i :: 0 <= i < |names| ==> names[i] in files && Listable(names[i]) && names[i] !in left
        invariant forall k | k in files && Listable(k) :: k in left || k in names
        decreases |left|
      {
        var name :| name in left;
        if Listable(name) {
          names := names + [name];
        }
        left := left - {name};
      }
    }

    /** The pass: its counts and its effect are those of the turns, one after the
        other over the listing. */
    method Apply(p: Pass) returns (counts: Counts, ghost names: seq<Name>)
      modifies this
      ensures Listing(old(Now()), names)
      ensures Now() == After(old(Now()), names, p) && counts == Total(old(Now()), names, p)
    {
      hide ArchiveOne, NameIsValid;
      ghost var s := Now();
      var listed := ProjectList();
      names := listed;
      counts := NO_COUNTS;
      for i := 0 to |listed|
        invariant Now() == After(s, names[..i], p) && counts == Total(s, names[..i], p)
      {
        assert names[..i + 1][..i] == names[..i];
        var e := Turn(listed[i], p);
        counts := Tally(counts, e);
      }
      assert names[..|names|] == names;
    }

    method Turn(name: Name, p: Pass) returns (e: Effect)
      modifies this
      ensures (Now(), e) == One(old(Now()), name, p)
    {
      hide ArchiveOne, NameIsValid, AgeDays;
      if name !in files {
        return Failed;
      }
      var u := if name in usage then usage[name] else NEW_RECORD;
      if u.pinned {
        return SkippedPinned;
      }
      var activity := if u.lastUsed != Blank then u.lastUsed else u.created;
      var age := AgeDays(activity, p.now);
      if age < 0 {
        return Nothing;
      }
      if p.archiveAfter > 0 && age >= p.archiveAfter {
        var ok := ArchiveSkill(name, p);
        return if ok then Archived else Failed;
      }
      if p.staleAfter > 0 && age >= p.staleAfter && u.state != "stale" {
        var ok := RecordMutation(name, false, "stale", p);
        return if ok then MarkedStale else Failed;
      }
      return Nothing;
    }
  }
}
