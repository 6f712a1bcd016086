/** What restoring a snapshot comes to, as functions and conditions on trees: what is
    read of the snapshot, what it is merged with, and what can be in the way
    (src/modules/skills/skill_rollback.c). */
module RestorePlan {
  import opened Bytes
  import opened Wrappers
  import opened FileTree

  const SNAPSHOTS_NAME: Name := ".snapshots"

  // ------------------------------------------------------- what is restored

  /** A tree without any entry named `.snapshots`, at any depth. */
  function Prune(n: Node): Node {
    match n
    case Dir(m) => Dir(map k | k in m && k != SNAPSHOTS_NAME :: Prune(m[k]))
    case _ => n
  }

  function PrunedEntries(m: map<Name, Node>): map<Name, Node>
  {
    map k | k in m && k != SNAPSHOTS_NAME :: Prune(m[k])
  }

  /** Copying can only succeed on regular files and directories. */
  ghost predicate Restorable(n: Node) {
    match n
    case File(_) => true
    case Dir(m) => forall k | k in m && k != SNAPSHOTS_NAME :: Restorable(m[k])
    case _ => false
  }

  /** The entries of the skills directory after a restore. */
  function Restored(m: map<Name, Node>, snapshot: map<Name, Node>): map<Name, Node> {
    var pruned := PrunedEntries(snapshot);
    if SNAPSHOTS_NAME in m then pruned[SNAPSHOTS_NAME := m[SNAPSHOTS_NAME]] else pruned
  }

  function SkillsDir(project: Path): (p: Path)
    ensures p != []
  {
    project + [".aimee", "skills"]
  }

  function SnapshotDir(project: Path, id: Name): Path {
    SkillsDir(project) + [SNAPSHOTS_NAME, id]
  }

  /** A path that avoids `.snapshots` sees in the pruned tree what it saw in the
      tree, pruned; a path through `.snapshots` sees nothing. */
  lemma {:induction false} PruneAt(n: Node, p: Path)
    ensures Lookup(Prune(n), p)
            == if SNAPSHOTS_NAME in p || Lookup(n, p).None? then None else Some(Prune(Lookup(n, p).value))
    decreases |p|
  {
    if p != [] && n.Dir? && p[0] in n.entries && p[0] != SNAPSHOTS_NAME {
      PruneAt(n.entries[p[0]], p[1..]);
    }
    assert p != [] ==> p == [p[0]] + p[1..];
  }

  /** No path down the tree at `p` is too long. */
  ghost predicate Reachable(p: Path, n: Node, deepest: nat)
    decreases n
  {
    |p| <= deepest && (n.Dir? ==> forall k | k in n.entries :: Reachable(p + [k], n.entries[k], deepest))
  }

  lemma {:induction false} ReachableBelow(p: Path, n: Node, deepest: nat, q: Path)
    requires Reachable(p, n, deepest) && Lookup(n, q).Some?
    ensures Reachable(p + q, Lookup(n, q).value, deepest)
    decreases |q|
  {
    if q == [] {
      assert p + q == p;
    } else {
      ReachableBelow(p + [q[0]], n.entries[q[0]], deepest, q[1..]);
      assert p + [q[0]] + q[1..] == p + q;
    }
  }

  // --------------------------------------------------- listings cut short

  /** Directory listings that a read error ends early, with the names they still
      give. None of the loops tells such an end from the real one. */
  type Cuts = map<Path, set<Name>>

  /** The names that reading the directory at `p` gives. */
  function Listed(cuts: Cuts, p: Path, m: map<Name, Node>): set<Name> {
    if p in cuts then m.Keys * cuts[p] else m.Keys
  }

  /** The tree at `p` as a copy reads it: what is listed, without `.snapshots`. */
  function AsRead(cuts: Cuts, p: Path, n: Node): Node
    decreases n
  {
    match n
    case Dir(m) =>
      Dir(map k | k in m && k in Listed(cuts, p, m) && k != SNAPSHOTS_NAME :: AsRead(cuts, p + [k], m[k]))
    case _ => n
  }

  function ReadEntries(cuts: Cuts, p: Path, m: map<Name, Node>): map<Name, Node> {
    map k | k in m && k in Listed(cuts, p, m) && k != SNAPSHOTS_NAME :: AsRead(cuts, p + [k], m[k])
  }

  function Get(m: map<Name, Node>, k: Name): Option<Node> {
    if k in m then Some(m[k]) else None
  }

  function EntriesOf(o: Option<Node>): map<Name, Node> {
    if o.Some? && o.value.Dir? then o.value.entries else map[]
  }

  /** What copying `src` onto `was` leaves there, if it succeeds: directories merge,
      files are overwritten, and an empty directory copied onto anything else leaves
      that alone. */
  function Merge(was: Option<Node>, src: Node): Node
    decreases src
  {
    match src
    case Dir(m) =>
      if was.Some? && !was.value.Dir? then was.value
      else
        var base := EntriesOf(was);
        Dir(map k | k in base.Keys + m.Keys :: if k in m then Merge(Get(base, k), m[k]) else base[k])
    case _ => src
  }

  function MergeEntries(base: map<Name, Node>, m: map<Name, Node>): map<Name, Node> {
    map k | k in base.Keys + m.Keys :: if k in m then Merge(Get(base, k), m[k]) else base[k]
  }

  /** Copying `src` onto `was` meets nothing it cannot copy or overwrite. */
  ghost predicate Fits(was: Option<Node>, src: Node)
    decreases src
  {
    match src
    case File(_) => was.Some? ==> was.value.File?
    case Dir(m) =>
      if was.Some? && !was.value.Dir? then m == map[]
      else forall k | k in m :: Fits(Get(EntriesOf(was), k), m[k])
    case _ => false
  }

  predicate Copyable(n: Node) {
    n.File? || n.Dir?
  }

  /** Copying `src` onto `was` opens no file by way of a link, or of a device, pipe or
      socket: no file of `src` meets one, and no directory with something to copy in it
      meets a link. */
  ghost predicate Safe(was: Option<Node>, src: Node)
    decreases src
  {
    match src
    case File(_) => !Fixed(was)
    case Dir(m) =>
      if was.Some? && was.value.Link? then forall k | k in m :: !Copyable(m[k])
      else if was.Some? && !was.value.Dir? then true
      else forall k | k in m :: Safe(Get(EntriesOf(was), k), m[k])
    case _ => true
  }

  /** Every directory to be removed is listed to its end. */
  ghost predicate Removable(cuts: Cuts, p: Path, n: Node)
    decreases n
  {
    match n
    case Dir(m) => Listed(cuts, p, m) == m.Keys && forall k | k in m :: Removable(cuts, p + [k], m[k])
    case _ => true
  }

  /** Every directory to be copied is listed to its end, but for `.snapshots`. */
  ghost predicate Complete(cuts: Cuts, p: Path, n: Node)
    decreases n
  {
    match n
    case Dir(m) =>
      forall k | k in m && k != SNAPSHOTS_NAME :: k in Listed(cuts, p, m) && Complete(cuts, p + [k], m[k])
    case _ => true
  }

  /** What is listed of `n` makes up, with what is in its place already, a pruned
      `n`: every old entry is one of `n`'s, and what is not listed is there already. */
  ghost predicate Refreshed(cuts: Cuts, p: Path, was: Option<Node>, n: Node)
    decreases n
  {
    match n
    case Dir(m) =>
      && (was.Some? ==> was.value.Dir?)
      && (forall k | k in EntriesOf(was) :: k in m && k != SNAPSHOTS_NAME)
      && (forall k | k in m && k != SNAPSHOTS_NAME ::
            if k in Listed(cuts, p, m) then Refreshed(cuts, p + [k], Get(EntriesOf(was), k), m[k])
            else Get(EntriesOf(was), k) == Some(Prune(m[k])))
    case _ => true
  }

  /** A copy reads the whole pruned tree exactly when every listing is complete. */
  lemma {:induction false} ReadsAll(cuts: Cuts, p: Path, n: Node)
    ensures AsRead(cuts, p, n) == Prune(n) <==> Complete(cuts, p, n)
    decreases n
  {
    match n
    case Dir(m) =>
      forall k | k in m ensures AsRead(cuts, p + [k], m[k]) == Prune(m[k]) <==> Complete(cuts, p + [k], m[k]) {
        ReadsAll(cuts, p + [k], m[k]);
      }
      hide Listed;
      var read, pruned := ReadEntries(cuts, p, m), PrunedEntries(m);
      assert AsRead(cuts, p, n) == Dir(read) && Prune(n) == Dir(pruned);
      if Complete(cuts, p, n) {
        assert read == pruned;
      } else {
        var k :| k in m && k != SNAPSHOTS_NAME && !(k in Listed(cuts, p, m) && Complete(cuts, p + [k], m[k]));
        assert k in pruned && (k in read ==> read[k] != pruned[k]);
      }
    case _ =>
  }

  /** Merged, what was read is the pruned tree exactly when what is missing was there
      already and nothing else was. */
  lemma {:induction false} MergesToPruned(cuts: Cuts, p: Path, was: Option<Node>, n: Node)
    ensures Merge(was, AsRead(cuts, p, n)) == Prune(n) <==> Refreshed(cuts, p, was, n)
    decreases n
  {
    match n
    case Dir(m) =>
      var base := EntriesOf(was);
      forall k | k in m
        ensures Merge(Get(base, k), AsRead(cuts, p + [k], m[k])) == Prune(m[k])
                <==> Refreshed(cuts, p + [k], Get(base, k), m[k])
      {
        MergesToPruned(cuts, p + [k], Get(base, k), m[k]);
      }
      if was.None? || was.value.Dir? {
        MergedEntries(cuts, p, base, m);
        assert Merge(was, AsRead(cuts, p, n)) == Dir(MergeEntries(base, ReadEntries(cuts, p, m)));
        PruneDir(m);
      }
    case _ =>
  }

  /** The same, one directory at a time. */
  lemma MergedEntries(cuts: Cuts, p: Path, base: map<Name, Node>, m: map<Name, Node>)
    ensures MergeEntries(base, ReadEntries(cuts, p, m)) == PrunedEntries(m)
            <==> && (forall k | k in base :: k in m && k != SNAPSHOTS_NAME)
                 && (forall k | k in m && k != SNAPSHOTS_NAME ::
                       if k in Listed(cuts, p, m) then Merge(Get(base, k), AsRead(cuts, p + [k], m[k])) == Prune(m[k])
                       else Get(base, k) == Some(Prune(m[k])))
  {
    hide Listed, Merge, AsRead, Prune;
    var read, pruned := ReadEntries(cuts, p, m), PrunedEntries(m);
    var now := MergeEntries(base, read);
    if now == pruned {
      assert forall k | k in base :: k in now && k in pruned;
      forall k | k in m && k != SNAPSHOTS_NAME
        ensures if k in Listed(cuts, p, m) then Merge(Get(base, k), AsRead(cuts, p + [k], m[k])) == Prune(m[k])
                else Get(base, k) == Some(Prune(m[k]))
      {
        assert k in pruned && k in now && now[k] == pruned[k];
      }
    }
    if (forall k | k in base :: k in m && k != SNAPSHOTS_NAME)
       && (forall k | k in m && k != SNAPSHOTS_NAME ::
             if k in Listed(cuts, p, m) then Merge(Get(base, k), AsRead(cuts, p + [k], m[k])) == Prune(m[k])
             else Get(base, k) == Some(Prune(m[k]))) {
      assert now.Keys == pruned.Keys;
      assert forall k | k in now :: now[k] == pruned[k];
    }
  }

  /** Where nothing is, nothing is in the way. */
  lemma {:induction false} SafeFresh(n: Node)
    ensures Safe(None, n)
    decreases n
  {
    match n
    case Dir(m) =>
      forall k | k in m ensures Safe(None, m[k]) {
        SafeFresh(m[k]);
      }
    case _ =>
  }

  /** What is in the way is somewhere, and something to copy has the same place. */
  lemma {:induction false} InTheWay(was: Option<Node>, src: Node) returns (p: Path)
    requires !Safe(was, src)
    ensures was.Some? && Fixed(Lookup(was.value, p))
    ensures Lookup(src, p).Some? && Copyable(Lookup(src, p).value)
    decreases src
  {
    if was.None? {
      SafeFresh(src);
    }
    if src.File? || was.value.Link? {
      p := [];
    } else {
      var base := EntriesOf(was);
      var k :| k in src.entries && !Safe(Get(base, k), src.entries[k]);
      var rest := InTheWay(Get(base, k), src.entries[k]);
      p := [k] + rest;
      assert p[1..] == rest;
    }
  }

  /** Onto nothing, a tree merges to itself. */
  lemma {:induction false} MergeFresh(n: Node)
    ensures Merge(None, n) == n && Merge(Some(Dir(map[])), n) == n
    decreases n
  {
    match n
    case Dir(m) =>
      forall k | k in m ensures Merge(None, m[k]) == m[k] {
        MergeFresh(m[k]);
      }
      assert MergeEntries(map[], m) == m;
    case _ =>
  }

  /** With nothing in the way, a pruned tree can be copied exactly when it is
      restorable. */
  lemma {:induction false} FitsFresh(n: Node)
    ensures Fits(None, Prune(n)) <==> Restorable(n)
    decreases n
  {
    match n
    case Dir(m) =>
      forall k | k in m ensures Fits(None, Prune(m[k])) <==> Restorable(m[k]) {
        FitsFresh(m[k]);
      }
      var pruned := PrunedEntries(m);
      assert Prune(n) == Dir(pruned);
      assert forall k | k in pruned :: pruned[k] == Prune(m[k]);
    case _ =>
  }

  /** Without cuts everything is read, and anything can be removed. */
  lemma {:induction false} NoCuts(p: Path, n: Node)
    ensures Complete(map[], p, n) && Removable(map[], p, n)
    decreases n
  {
    match n
    case Dir(m) =>
      forall k | k in m ensures Complete(map[], p + [k], m[k]) && Removable(map[], p + [k], m[k]) {
        NoCuts(p + [k], m[k]);
      }
    case _ =>
  }

  // ------------------------------------------------- progress of the loops

  /** Of `entries`, those in `left` are untouched and, if all went well, the others
      are gone. */
  ghost predicate Remaining(entries: map<Name, Node>, now: map<Name, Node>, left: set<Name>, ok: bool) {
    && left <= now.Keys <= entries.Keys && (forall k | k in left :: now[k] == entries[k])
    && (ok ==> now.Keys == left)
  }

  lemma AllRemain(cuts: Cuts, p: Path, m: map<Name, Node>, left: set<Name>, kept: set<Name>)
    requires left + kept == m.Keys && left !! kept
    ensures Remaining(m, m, left + kept, true) && RemovableBut(cuts, p, m, left + kept)
  {
  }

  /** All entries of the directory at `p` but those in `left` can be removed. */
  ghost predicate RemovableBut(cuts: Cuts, p: Path, m: map<Name, Node>, left: set<Name>) {
    forall k | k in m && k !in left :: Removable(cuts, p + [k], m[k])
  }

  lemma OneRemovable(cuts: Cuts, p: Path, m: map<Name, Node>, left: set<Name>, name: Name)
    requires name in left && name in m
    ensures RemovableBut(cuts, p, m, left - {name})
            <==> RemovableBut(cuts, p, m, left) && Removable(cuts, p + [name], m[name])
  {
    hide Removable;
  }

  /** A directory can be removed when all of it is listed and each entry can be. */
  lemma DirRemovable(cuts: Cuts, p: Path, m: map<Name, Node>)
    ensures Removable(cuts, p, Dir(m))
            <==> Listed(cuts, p, m) == m.Keys && RemovableBut(cuts, p, m, m.Keys - Listed(cuts, p, m))
  {
  }

  /** What clearing the directory at `p` leaves alone. */
  function Spared(cuts: Cuts, p: Path, m: map<Name, Node>): set<Name> {
    set k | k in m && (k == SNAPSHOTS_NAME || k !in Listed(cuts, p, m))
  }

  lemma SparedIs(cuts: Cuts, p: Path, m: map<Name, Node>)
    ensures Spared(cuts, p, m) == m.Keys - (Listed(cuts, p, m) - {SNAPSHOTS_NAME})
    ensures Listed(cuts, p, m) <= m.Keys
  {
  }

  lemma StillThere(m: map<Name, Node>, now: map<Name, Node>, left: set<Name>, ok: bool, name: Name)
    requires Remaining(m, now, left, ok) && name in left
    ensures name in m && name in now && now[name] == m[name]
  {
  }

  lemma NothingLeft(m: map<Name, Node>, now: map<Name, Node>, names: set<Name>, ok: bool)
    requires Remaining(m, now, m.Keys - names, ok) && names <= m.Keys
    ensures ok ==> (now == map[] <==> names == m.Keys)
  {
    assert m.Keys == (m.Keys - names) + names;
  }

  /** One entry more: `o` is what its removal left. */
  lemma OneRemoved(cuts: Cuts, p: Path, m: map<Name, Node>, now: map<Name, Node>, left: set<Name>, kept: set<Name>,
                   ok: bool, name: Name, o: Option<Node>, removed: bool)
    requires Remaining(m, now, left + kept, ok) && name in left && left !! kept && (removed ==> o.None?)
    ensures name in m
    ensures Remaining(m, WithEntry(now, name, o), left - {name} + kept, ok && removed)
    ensures RemovableBut(cuts, p, m, left - {name} + kept)
            <==> RemovableBut(cuts, p, m, left + kept) && Removable(cuts, p + [name], m[name])
  {
    assert left - {name} + kept == left + kept - {name};
    OneRemovable(cuts, p, m, left + kept, name);
    hide Removable, RemovableBut;
  }

  /** Of what was read, all but `left` has been copied into a directory that held
      `base`; where all went well, what is there is merged. */
  ghost predicate Merged(base: map<Name, Node>, read: map<Name, Node>, now: map<Name, Node>, left: set<Name>,
                         ok: bool)
  {
    && (forall k | k !in read || k in left :: Get(now, k) == Get(base, k))
    && (ok ==> forall k | k in read && k !in left :: Get(now, k) == Some(Merge(Get(base, k), read[k])))
  }

  lemma OneMerged(base: map<Name, Node>, read: map<Name, Node>, now: map<Name, Node>, left: set<Name>, ok: bool,
                  name: Name, o: Option<Node>, copied: bool)
    requires Merged(base, read, now, left, ok) && name in left && left <= read.Keys
    requires copied ==> o == Some(Merge(Get(now, name), read[name]))
    ensures Merged(base, read, WithEntry(now, name, o), left - {name}, ok && copied)
  {
    hide Merge;
    assert Get(now, name) == Get(base, name);
  }

  lemma AllMerged(base: map<Name, Node>, read: map<Name, Node>, now: map<Name, Node>)
    requires Merged(base, read, now, {}, true)
    ensures now == MergeEntries(base, read)
  {
    hide Merge;
    var whole := MergeEntries(base, read);
    assert forall k :: Get(now, k) == Get(whole, k);
    assert forall k | k in now :: k in whole && now[k] == whole[k] by {
      assert forall k | k in now :: Get(whole, k) == Some(now[k]);
    }
    assert forall k | k in whole :: Get(now, k).Some?;
  }

  /** What was read, but for `left`, can be copied into such a directory. */
  ghost predicate FitsBut(base: map<Name, Node>, read: map<Name, Node>, left: set<Name>) {
    forall k | k in read && k !in left :: Fits(Get(base, k), read[k])
  }

  /** How far a copy of the entries `read` onto `was` has come, `cur` being there now:
      onto anything but a directory only nothing can be copied. */
  ghost predicate Underway(was: Option<Node>, read: map<Name, Node>, cur: Node, left: set<Name>, ok: bool) {
    if was.Some? && !was.value.Dir? then cur == was.value && (ok ==> left == read.Keys)
    else cur.Dir? && Merged(EntriesOf(was), read, cur.entries, left, ok)
  }

  ghost predicate Suits(was: Option<Node>, read: map<Name, Node>, left: set<Name>) {
    if was.Some? && !was.value.Dir? then left == read.Keys else FitsBut(EntriesOf(was), read, left)
  }

  /** Nothing is in the way of what was read, but for `left`. */
  ghost predicate SafeBut(was: Option<Node>, read: map<Name, Node>, left: set<Name>) {
    forall k | k in read && k !in left :: SafeFor(was, k, read[k])
  }

  ghost predicate SafeFor(was: Option<Node>, k: Name, src: Node) {
    if was.Some? && was.value.Link? then !Copyable(src)
    else if was.Some? && !was.value.Dir? then true
    else Safe(Get(EntriesOf(was), k), src)
  }

  lemma OneSafe(was: Option<Node>, read: map<Name, Node>, left: set<Name>, name: Name)
    requires name in left && name in read
    ensures SafeBut(was, read, left - {name}) <==> SafeBut(was, read, left) && SafeFor(was, name, read[name])
  {
    hide SafeFor;
  }

  lemma AllSafe(was: Option<Node>, read: map<Name, Node>)
    ensures SafeBut(was, read, {}) <==> Safe(was, Dir(read))
    ensures SafeBut(was, read, read.Keys)
  {
    hide Fixed;
  }

  lemma NoneCopied(was: Option<Node>, read: map<Name, Node>, ok: bool)
    ensures Underway(was, read, if was.Some? then was.value else Dir(map[]), read.Keys, ok)
    ensures Suits(was, read, read.Keys)
  {
  }

  lemma AllCopied(was: Option<Node>, read: map<Name, Node>, cur: Node)
    ensures Underway(was, read, cur, {}, true) ==> cur == Merge(was, Dir(read))
    ensures Suits(was, read, {}) <==> Fits(was, Dir(read))
  {
    if Underway(was, read, cur, {}, true) && (was.None? || was.value.Dir?) {
      AllMerged(EntriesOf(was), read, cur.entries);
    }
  }

  /** One entry more: what the copy of `name` left there, `o`, is put in the place it
      had. */
  lemma OneCopied(before: Node, dst: Path, was: Option<Node>, read: map<Name, Node>, left: set<Name>, ok: bool,
                  name: Name, o: Option<Node>, copied: bool)
    requires dst != [] && Lookup(before, dst).Some? && name in left && left <= read.Keys
    requires Underway(was, read, Lookup(before, dst).value, left, ok)
    requires copied ==>
      Placeable(before, dst + [name]) && o == Some(Merge(Lookup(before, dst + [name]), read[name]))
    ensures var cur := Lookup(Graft(before, dst + [name], o), dst);
            cur.Some? && Underway(was, read, cur.value, left - {name}, ok && copied)
    ensures Graft(before, dst + [name], o) == Graft(before, dst, Lookup(Graft(before, dst + [name], o), dst))
  {
    var cur := Lookup(before, dst).value;
    GraftBelow(before, dst, name, o);
    PlaceableIn(before, dst, name);
    FoundIsPlaceable(before, dst);
    hide Graft, Lookup, Placeable, Merge, Merged;
    if cur.Dir? {
      LookupEntry(before, dst, cur.entries, name);
      GraftEntry(before, dst, cur.entries, name, o);
      LookupGraft(before, dst, Some(Dir(WithEntry(cur.entries, name, o))));
      OneMerged(EntriesOf(was), read, cur.entries, left, ok, name, o, copied);
    } else {
      NoDirectory(before, dst, name, o);
    }
  }

  /** The copy of one entry succeeds exactly when it suits, so all copied so far did
      exactly when all of them suit. */
  lemma OneSuits(before: Node, dst: Path, was: Option<Node>, read: map<Name, Node>, left: set<Name>, ok: bool,
                 name: Name)
    requires dst != [] && Lookup(before, dst).Some? && name in left && left <= read.Keys
    requires Underway(was, read, Lookup(before, dst).value, left, ok) && (ok <==> Suits(was, read, left))
    ensures ok && Placeable(before, dst + [name]) && Fits(Lookup(before, dst + [name]), read[name])
            <==> Suits(was, read, left - {name})
  {
    var cur := Lookup(before, dst).value;
    PlaceableIn(before, dst, name);
    if cur.Dir? {
      LookupEntry(before, dst, cur.entries, name);
    }
    hide Graft, Lookup, Placeable, Merge, Fits;
    if cur.Dir? {
      assert Get(cur.entries, name) == Get(EntriesOf(was), name);
      assert FitsBut(EntriesOf(was), read, left - {name})
             <==> FitsBut(EntriesOf(was), read, left) && Fits(Get(EntriesOf(was), name), read[name]);
    }
  }

  /** A change below `p` is a change at `p`. */
  lemma GraftBelow(n: Node, p: Path, k: Name, o: Option<Node>)
    requires p != []
    ensures var t := Graft(n, p + [k], o);
            t == Graft(n, p, Lookup(t, p))
  {
    var d := Lookup(n, p);
    if d.Some? && d.value.Dir? {
      FoundIsPlaceable(n, p);
      GraftEntry(n, p, d.value.entries, k, o);
      LookupGraft(n, p, Some(Dir(WithEntry(d.value.entries, k, o))));
    } else {
      NoDirectory(n, p, k, o);
      GraftSame(n, p);
    }
  }

  lemma {:induction false} NoDirectory(n: Node, p: Path, k: Name, o: Option<Node>)
    requires Lookup(n, p).None? || !Lookup(n, p).value.Dir?
    ensures Graft(n, p + [k], o) == n
    decreases |p|
  {
    if p == [] {
      assert p + [k] == [k];
    } else {
      assert (p + [k])[1..] == p[1..] + [k];
      if n.Dir? && p[0] in n.entries {
        NoDirectory(n.entries[p[0]], p[1..], k, o);
      }
    }
  }

  lemma {:induction false} PlaceableIn(n: Node, p: Path, k: Name)
    requires Lookup(n, p).Some?
    ensures Placeable(n, p + [k]) <==> Lookup(n, p).value.Dir?
    decreases |p|
  {
    if p == [] {
      assert p + [k] == [k];
    } else {
      assert (p + [k])[1..] == p[1..] + [k];
      PlaceableIn(n.entries[p[0]], p[1..], k);
    }
  }

  lemma LeafCopies(cuts: Cuts, p: Path, n: Node, was: Option<Node>)
    ensures !n.Dir? ==> AsRead(cuts, p, n) == n && Merge(was, n) == n
    ensures !n.Dir? ==> (Fits(was, n) <==> n.File? && (was.Some? ==> was.value.File?))
    ensures n.Dir? ==> AsRead(cuts, p, n) == Dir(ReadEntries(cuts, p, n.entries))
    ensures !Copyable(n) ==> Safe(was, n)
  {
  }

  lemma ReadKeys(cuts: Cuts, p: Path, m: map<Name, Node>)
    ensures ReadEntries(cuts, p, m).Keys == Listed(cuts, p, m) - {SNAPSHOTS_NAME} <= m.Keys
  {
  }

  lemma ReadAt(cuts: Cuts, p: Path, m: map<Name, Node>, name: Name)
    requires name in ReadEntries(cuts, p, m)
    ensures name in m && name != SNAPSHOTS_NAME && ReadEntries(cuts, p, m)[name] == AsRead(cuts, p + [name], m[name])
  {
  }

  lemma PruneDir(m: map<Name, Node>)
    ensures Prune(Dir(m)) == Dir(PrunedEntries(m))
  {
  }
}
