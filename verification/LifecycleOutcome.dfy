/** What a lifecycle pass comes to for each skill, in seconds and from the records
    before it: which skills it archives, which it marks stale, which it leaves alone,
    and what its counts count (src/modules/skills/skill.c:1275-1334, 1575-1704). */
module LifecycleOutcome {
  import opened SkillName
  import opened Lifecycle

  /** The record of a skill; one without a record is a fresh one. */
  function RecordOf(s: Store, k: Name): Record {
    if k in s.usage then s.usage[k]
    else Record(pinned := false, created := Blank, lastUsed := Blank, patched := Blank, patches := 0, state := "active")
  }

  /** The skill was last used at `t`; or it was never used, and created at `t`. */
  predicate ActiveAt(r: Record, t: int) {
    r.lastUsed == At(t) || (r.lastUsed == Blank && r.created == At(t))
  }

  /** The time that counts is there and can be read. */
  predicate Timed(r: Record) {
    r.lastUsed.At? || (r.lastUsed == Blank && r.created.At?)
  }

  /** The two stores say the same of this skill. */
  ghost predicate Same(s: Store, t: Store, k: Name) {
    && (k in t.files <==> k in s.files) && (k in s.files ==> t.files[k] == s.files[k])
    && (k in t.archive <==> k in s.archive) && (k in s.archive ==> t.archive[k] == s.archive[k])
    && (k in t.usage <==> k in s.usage) && (k in s.usage ==> t.usage[k] == s.usage[k])
  }

  /** Only the record has changed: it has this state now, and the time of the pass as
      its last change, and one more change if it was archived. */
  ghost predicate OnlyRecorded(s: Store, t: Store, k: Name, p: Pass, state: string) {
    var r := RecordOf(s, k);
    && Same(s, t.(usage := s.usage), k)
    && k in t.usage
    && t.usage[k] == r.(state := state, patched := At(p.now),
                        patches := r.patches + if state == "archived" then 1 else 0)
  }

  /** The record says so, and the text is in the archive instead. */
  ghost predicate Moved(s: Store, t: Store, k: Name, p: Pass)
    requires k in s.files
  {
    && OnlyRecorded(s, t.(files := s.files, archive := s.archive), k, p, "archived")
    && k !in t.files && k !in s.archive && k in t.archive && t.archive[k] == s.files[k]
  }

  /** Archiving can begin: a valid name, a free place, and nothing that fails before
      the file is moved. */
  predicate CanArchive(s: Store, k: Name, p: Pass) {
    NameIsValid(k) && k !in s.archive && AtArchiveDir !in p.faults && AtRecord(k) !in p.faults
  }

  /** What becomes of a listed skill that was active at `t`. A pinned skill, and one of
      the future, is left alone. From `archiveAfter` times 86400 seconds on it is
      archived if that can begin, its record being written first; from `staleAfter`
      times 86400 seconds on it is marked stale, once. */
  ghost predicate Fate(s: Store, t: Store, k: Name, p: Pass, active: int)
    requires k in s.files
  {
    var r, idle := RecordOf(s, k), p.now - active;
    if r.pinned || idle < 0 then Same(s, t, k)
    else if p.archiveAfter > 0 && idle >= p.archiveAfter * 86400 then
      if !CanArchive(s, k, p) then Same(s, t, k)
      else if AtRename(k) in p.faults then OnlyRecorded(s, t, k, p, "archived")
      else Moved(s, t, k, p)
    else if p.staleAfter > 0 && idle >= p.staleAfter * 86400 && r.state != "stale" && AtRecord(k) !in p.faults
    then OnlyRecorded(s, t, k, p, "stale")
    else Same(s, t, k)
  }

  lemma WholeDays(seconds: int, days: int)
    requires seconds >= 0 && days > 0
    ensures seconds / 86400 >= days <==> seconds >= days * 86400
  {
  }

  lemma TurnFate(s: Store, k: Name, p: Pass, active: int)
    requires k in s.files && ActiveAt(RecordOf(s, k), active)
    ensures Fate(s, One(s, k, p).0, k, p, active)
  {
    var idle := p.now - active;
    if idle >= 0 {
      if p.archiveAfter > 0 {
        WholeDays(idle, p.archiveAfter);
      }
      if p.staleAfter > 0 {
        WholeDays(idle, p.staleAfter);
      }
    }
    hide NameIsValid;
  }

  lemma TurnUntimed(s: Store, k: Name, p: Pass)
    requires !Timed(RecordOf(s, k))
    ensures One(s, k, p).0 == s
  {
    hide NameIsValid;
  }

  /** A pass does nothing to a skill it does not list. */
  lemma {:induction false} NotListed(s: Store, names: seq<Name>, p: Pass, k: Name)
    requires k !in names
    ensures Same(s, After(s, names, p), k)
  {
    hide One;
    if names != [] {
      var before, name := names[..|names| - 1], names[|names| - 1];
      NotListed(s, before, p, k);
      OnlyThatSkill(After(s, before, p), name, p, k);
    }
  }

  /** A pass and each skill it lists: its fate by the clock, whatever the others. */
  lemma {:induction false} PassFate(s: Store, names: seq<Name>, p: Pass, k: Name, active: int)
    requires Distinct(names) && k in names && k in s.files && ActiveAt(RecordOf(s, k), active)
    ensures Fate(s, After(s, names, p), k, p, active)
  {
    var before, name := names[..|names| - 1], names[|names| - 1];
    var m := After(s, before, p);
    if k == name {
      NotListed(s, before, p, k);
      TurnFate(m, k, p, active);
      hide One, After;
      FateOfSame(s, m, One(m, k, p).0, k, p, active);
    } else {
      hide One;
      PassFate(s, before, p, k, active);
      OnlyThatSkill(m, name, p, k);
      FateStays(s, m, After(s, names, p), k, p, active);
    }
  }

  lemma FateOfSame(s: Store, m: Store, t: Store, k: Name, p: Pass, active: int)
    requires k in s.files && Same(s, m, k) && Fate(m, t, k, p, active)
    ensures Fate(s, t, k, p, active)
  {
    hide NameIsValid;
  }

  lemma FateStays(s: Store, m: Store, t: Store, k: Name, p: Pass, active: int)
    requires k in s.files && Same(m, t, k) && Fate(s, m, k, p, active)
    ensures Fate(s, t, k, p, active)
  {
    hide NameIsValid;
  }

  /** A skill without a readable time is left alone. */
  lemma {:induction false} PassUntimed(s: Store, names: seq<Name>, p: Pass, k: Name)
    requires !Timed(RecordOf(s, k))
    ensures Same(s, After(s, names, p), k)
  {
    if names != [] {
      var before, name := names[..|names| - 1], names[|names| - 1];
      var m := After(s, before, p);
      PassUntimed(s, before, p, k);
      assert RecordOf(m, k) == RecordOf(s, k);
      if k == name {
        TurnUntimed(m, k, p);
      } else {
        hide One;
        OnlyThatSkill(m, name, p, k);
      }
    }
  }

  /** Use protects: a skill used less than `archiveAfter` days ago is still there after
      the pass, however long ago it was created and whatever its name, and its record
      changes only to stale, exactly from `staleAfter` days on. */
  lemma UseProtects(s: Store, names: seq<Name>, p: Pass, k: Name, t: int)
    requires Distinct(names) && k in s.files && k in s.usage && s.usage[k].lastUsed == At(t)
    requires 0 <= p.now - t < p.archiveAfter * 86400
    ensures var u := After(s, names, p);
            var due := k in names && !s.usage[k].pinned && p.staleAfter > 0 && p.now - t >= p.staleAfter * 86400
                       && s.usage[k].state != "stale" && AtRecord(k) !in p.faults;
            && k in u.files && u.files[k] == s.files[k] && k in u.usage
            && u.usage[k] == if due then s.usage[k].(state := "stale", patched := At(p.now)) else s.usage[k]
  {
    hide After;
    if k in names {
      PassFate(s, names, p, k, t);
    } else {
      NotListed(s, names, p, k);
    }
  }

  /** And disuse archives: an unpinned, validly named listed skill with a free archive
      place is archived by a pass without faults exactly when archiving is on and its
      last use, or if it was never used its creation, is that many days back. */
  lemma DisuseArchives(s: Store, names: seq<Name>, p: Pass, k: Name, t: int)
    requires Distinct(names) && k in names && k in s.files && k in s.usage && p.faults == {}
    requires !s.usage[k].pinned && NameIsValid(k) && k !in s.archive
    requires s.usage[k].lastUsed == At(t) || (s.usage[k].lastUsed == Blank && s.usage[k].created == At(t))
    ensures var u := After(s, names, p);
            && (k !in u.files <==> p.archiveAfter > 0 && p.now - t >= p.archiveAfter * 86400)
            && (k !in u.files <==> k in u.archive)
            && (k in u.archive ==> u.archive[k] == s.files[k])
  {
    PassFate(s, names, p, k, t);
    hide After, NameIsValid;
  }

  // ----------------------------------------------------------------- counts

  ghost function Pinned(s: Store, names: seq<Name>): set<Name> {
    set k | k in names && RecordOf(s, k).pinned
  }

  ghost function Gone(t: Store, names: seq<Name>): set<Name> {
    set k | k in names && k !in t.files
  }

  ghost function Marked(s: Store, t: Store, names: seq<Name>): set<Name> {
    set k | k in names && k in t.files && RecordOf(s, k).state != "stale" && RecordOf(t, k).state == "stale"
  }

  /** The counts count: as many skills are gone as the pass says it archived, as many
      are newly stale as it says it marked, and as many were pinned. */
  lemma {:induction false} CountsAreTrue(s: Store, names: seq<Name>, p: Pass)
    requires Distinct(names) && forall i :: 0 <= i < |names| ==> names[i] in s.files
    ensures var c, t := Total(s, names, p), After(s, names, p);
            && c.archived == |Gone(t, names)| && c.stale == |Marked(s, t, names)| && c.pinned == |Pinned(s, names)|
  {
    if names == [] {
      assert Gone(s, []) == {} && Marked(s, s, []) == {} && Pinned(s, []) == {};
    } else {
      var before, k := names[..|names| - 1], names[|names| - 1];
      var m := After(s, before, p);
      CountsAreTrue(s, before, p);
      NotListed(s, before, p, k);
      OneCounts(s, m, before, k, p);
      assert names == before + [k];
      hide One, After, Gone, Marked, Pinned;
    }
  }

  /** The last turn adds its skill to the sets exactly as it is tallied. */
  lemma OneCounts(s: Store, m: Store, before: seq<Name>, k: Name, p: Pass)
    requires k !in before && k in s.files && Same(s, m, k)
    ensures var (t, e) := One(m, k, p);
            var names := before + [k];
            && |Gone(t, names)| == |Gone(m, before)| + (if e == Archived then 1 else 0)
            && |Marked(s, t, names)| == |Marked(s, m, before)| + (if e == MarkedStale then 1 else 0)
            && |Pinned(s, names)| == |Pinned(s, before)| + (if e == SkippedPinned then 1 else 0)
  {
    var (t, e) := One(m, k, p);
    TurnEffect(s, m, k, p);
    OthersStay(m, k, p, before);
    hide One;
    GoneGrows(m, t, before, k);
    MarkedGrows(s, m, t, before, k);
    PinnedGrows(s, before, k);
  }

  lemma GoneGrows(m: Store, t: Store, before: seq<Name>, k: Name)
    requires k !in before && forall j | j in before :: j in t.files <==> j in m.files
    ensures |Gone(t, before + [k])| == |Gone(m, before)| + if k !in t.files then 1 else 0
  {
    assert Gone(t, before + [k]) == Gone(m, before) + if k !in t.files then {k} else {};
  }

  lemma MarkedGrows(s: Store, m: Store, t: Store, before: seq<Name>, k: Name)
    requires k !in before
    requires forall j | j in before :: (j in t.files <==> j in m.files) && RecordOf(t, j) == RecordOf(m, j)
    ensures |Marked(s, t, before + [k])|
            == |Marked(s, m, before)|
               + if k in t.files && RecordOf(s, k).state != "stale" && RecordOf(t, k).state == "stale" then 1 else 0
  {
    hide RecordOf;
    var one := if k in t.files && RecordOf(s, k).state != "stale" && RecordOf(t, k).state == "stale" then {k} else {};
    assert Marked(s, t, before + [k]) == Marked(s, m, before) + one;
  }

  lemma PinnedGrows(s: Store, before: seq<Name>, k: Name)
    requires k !in before
    ensures |Pinned(s, before + [k])| == |Pinned(s, before)| + if RecordOf(s, k).pinned then 1 else 0
  {
    hide RecordOf;
    assert Pinned(s, before + [k]) == Pinned(s, before) + if RecordOf(s, k).pinned then {k} else {};
  }

  lemma TurnEffect(s: Store, m: Store, k: Name, p: Pass)
    requires k in s.files && Same(s, m, k)
    ensures var (t, e) := One(m, k, p);
            && (e == Archived <==> k !in t.files)
            && (e == MarkedStale <==>
                  k in t.files && RecordOf(s, k).state != "stale" && RecordOf(t, k).state == "stale")
            && (e == SkippedPinned <==> RecordOf(s, k).pinned)
  {
    hide NameIsValid;
  }

  lemma OthersStay(m: Store, k: Name, p: Pass, before: seq<Name>)
    requires k !in before
    ensures var t := One(m, k, p).0;
            forall j | j in before :: (j in t.files <==> j in m.files) && RecordOf(t, j) == RecordOf(m, j)
  {
    hide One;
    forall j | j in before
      ensures var t := One(m, k, p).0;
              (j in t.files <==> j in m.files) && RecordOf(t, j) == RecordOf(m, j)
    {
      OnlyThatSkill(m, k, p, j);
    }
  }
}
