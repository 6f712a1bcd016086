/** Restoring the project's skills from a snapshot, over a file system whose
    operations can fail (src/modules/skills/skill_rollback.c). */
module Rollback {
  import opened Bytes
  import opened Wrappers
  import opened FileTree
  import opened RestorePlan

  // -------------------------------------------------------- snapshot names

  predicate IdChar(c: char) {
    || 'a' <= c <= 'z' || 'A' <= c <= 'Z' || '0' <= c <= '9' || c == '-' || c == '_' || c == '.'
  }

  ghost predicate HasDoubleDot(id: Name) {
    exists i :: 0 <= i < |id| - 1 && id[i] == '.' && id[i + 1] == '.'
  }

  ghost predicate SnapshotIdOk(id: Name) {
    && 0 < |id| <= 128 && id != "." && !HasDoubleDot(id) && forall i :: 0 <= i < |id| ==> IdChar(id[i])
  }

  method CheckSnapshotId(id: Name) returns (ok: bool)
    ensures ok == SnapshotIdOk(id)
    ensures ok <==>
      && 0 < |id| <= 128 && id != "."
      && (forall i :: 0 <= i < |id| - 1 ==> !(id[i] == '.' && id[i + 1] == '.'))
      && forall i :: 0 <= i < |id| ==>
           'a' <= id[i] <= 'z' || 'A' <= id[i] <= 'Z' || '0' <= id[i] <= '9' || id[i] in {'-', '_', '.'}
  {
    if id == "" || |id| > 128 || id == "." {
      return false;
    }
    for i := 0 to |id| - 1
      invariant forall k :: 0 <= k < i ==> !(id[k] == '.' && id[k + 1] == '.')
    {
      if id[i] == '.' && id[i + 1] == '.' {
        return false;
      }
    }
    for i := 0 to |id|
      invariant forall k :: 0 <= k < i ==> IdChar(id[k])
    {
      if !IdChar(id[i]) {
        return false;
      }
    }
    return true;
  }

  /** An accepted id is one path component below `.snapshots`: not empty, without a
      separator, and neither `.` nor `..`. */
  lemma IdIsOneComponent(id: Name)
    requires SnapshotIdOk(id)
    ensures id != "" && '/' !in id && id != "." && id != ".."
  {
    assert !(|id| > 1 && id[0] == '.' && id[1] == '.');
  }

  // -------------------------------------------------------- the file system

  /** An operation the environment makes fail. */
  datatype Fault =
    | AtLstat(p: Path) | AtUnlink(p: Path) | AtRmdir(p: Path) | AtMkdir(p: Path) | AtOpendir(p: Path)
    | AtCopy(src: Path, dst: Path)

  datatype Found = Missing | StatFailed | IsDir | IsFile | IsOther

  datatype Made = MadeNew | AlreadyThere | MakeFailed

  /** What mkdir does where the way leads, if anywhere. */
  function Making(root: Node, at: Option<Path>): Made {
    if at.None? then MakeFailed
    else if Lookup(root, at.value).Some? then AlreadyThere
    else if Placeable(root, at.value) then MadeNew
    else MakeFailed
  }

  predicate IsFileAt(root: Node, p: Path) {
    Lookup(root, p).Some? && Lookup(root, p).value.File?
  }

  /** Opening `dst` for writing goes by way of a link, or opens a device, pipe or
      socket. */
  predicate Follows(root: Node, dst: Path) {
    !Straight(root, dst) || Fixed(Lookup(root, dst))
  }

  /** There is a file to copy, and opening `dst` leads to a file or a free place. */
  predicate Opens(root: Node, src: Path, dst: Path) {
    && IsFileAt(root, src) && OpenedAt(root, dst).Some? && Placeable(root, OpenedAt(root, dst).value)
    && (Lookup(root, OpenedAt(root, dst).value).Some? ==> IsFileAt(root, OpenedAt(root, dst).value))
  }

  /** The tree after the copy. */
  function AfterCopy(root: Node, src: Path, dst: Path): Node
    requires Opens(root, src, dst)
  {
    var at := OpenedAt(root, dst).value;
    Graft(root, at, Some(if at == src then File([]) else Lookup(root, src).value))
  }

  // ------------------------------------------------------- what a copy does

  /** The copy starts out as it should: from `node` at `src` to a path that no link
      leads away from. */
  ghost predicate Course(root: Node, src: Path, dst: Path, node: Node) {
    Apart(dst, src) && Straight(root, dst) && Lookup(root, src) == Some(node)
  }

  /** What a copy that has not gone astray has done. */
  ghost predicate Copied(cuts: Cuts, start: Node, root: Node, src: Path, dst: Path, node: Node, ok: bool) {
    && root == Graft(start, dst, Lookup(root, dst))
    && (ok ==> Placeable(start, dst) && Lookup(root, dst) == Some(Merge(Lookup(start, dst), AsRead(cuts, src, node))))
  }

  /** What holds of every copy, astray or not. */
  ghost predicate Moved(start: Node, root: Node, dst: Path, strayed: seq<Path>, strays: seq<Path>,
                        arrived: seq<Path>, landed: seq<Path>)
  {
    strayed <= strays && arrived <= landed && Persists(start, root) && Keeps(start, root, dst, landed)
  }

  /** A copy under way, with `left` of the names still to come. */
  ghost predicate Copying(cuts: Cuts, start: Node, root: Node, src: Path, dst: Path, m: map<Name, Node>,
                          left: set<Name>, ok: bool)
  {
    && left <= ReadEntries(cuts, src, m).Keys && Placeable(start, dst) && Straight(start, dst)
    && root == Graft(start, dst, Lookup(root, dst)) && Lookup(root, src) == Some(Dir(m)) && Lookup(root, dst).Some?
    && Underway(Lookup(start, dst), ReadEntries(cuts, src, m), Lookup(root, dst).value, left, ok)
  }

  lemma ReachableHere(p: Path, n: Node, deepest: nat)
    ensures Reachable(p, n, deepest) ==> |p| <= deepest
  {
  }

  lemma ReachableChild(p: Path, m: map<Name, Node>, k: Name, deepest: nat)
    requires k in m
    ensures Reachable(p, Dir(m), deepest) ==> Reachable(p + [k], m[k], deepest)
  {
  }

  lemma JustMoved(start: Node, root: Node, dst: Path, strayed: seq<Path>, strays: seq<Path>, arrived: seq<Path>,
                  landed: seq<Path>)
    requires strayed <= strays && arrived <= landed && Persists(start, root) && Keeps(start, root, dst, landed)
    ensures Moved(start, root, dst, strayed, strays, arrived, landed)
  {
    hide Persists, Keeps;
  }

  /** The copy of an entry, after others. */
  lemma MovedOn(start: Node, before: Node, root: Node, dst: Path, name: Name, strayed: seq<Path>, way: seq<Path>,
                strays: seq<Path>, arrived: seq<Path>, reached: seq<Path>, landed: seq<Path>)
    requires Moved(start, before, dst, strayed, way, arrived, reached)
    requires Moved(before, root, dst + [name], way, strays, reached, landed)
    ensures Moved(start, root, dst, strayed, strays, arrived, landed)
    ensures |way| <= |strays| && (strays == strayed ==> way == strayed)
  {
    hide Persists, Keeps;
    PersistsOn(start, before, root);
    KeepsOn(start, before, root, dst, [name], reached, landed);
  }

  /** A file is copied to `dst` itself, unless something is in the way. */
  lemma LeafWritten(cuts: Cuts, start: Node, src: Path, dst: Path, node: Node)
    requires dst != [] && IsFileAt(start, src)
    ensures !Straight(start, dst) ==> Follows(start, dst)
    ensures Course(start, src, dst, node) ==>
      && node.File? && (Follows(start, dst) <==> !Safe(Lookup(start, dst), node))
      && (!Follows(start, dst) ==>
            && (Opens(start, src, dst) <==> Placeable(start, dst) && Fits(Lookup(start, dst), node))
            && (Opens(start, src, dst) ==>
                  AfterCopy(start, src, dst) == Graft(start, dst, Some(node))
                  && Lookup(AfterCopy(start, src, dst), dst) == Some(node)))
  {
    if Course(start, src, dst, node) && !Follows(start, dst) {
      assert src != [] by {
        hide Lookup;
      }
      GoesStraight(start, dst);
      NotApartFromItself(src);
      hide Lookup, Resolve, Graft, Apart, Placeable, Straight;
      if Placeable(start, dst) {
        LookupGraft(start, dst, Some(node));
      }
    }
  }

  /** The directory for the copies: there already, or made. */
  lemma CopyStarts(cuts: Cuts, start: Node, root: Node, src: Path, dst: Path, m: map<Name, Node>, made: Made,
                   fails: bool)
    requires dst != [] && Course(start, src, dst, Dir(m))
    requires made == if fails then MakeFailed else Making(start, MadeAt(start, dst))
    requires root == if made == MadeNew then Graft(start, MadeAt(start, dst).value, Some(Dir(map[]))) else start
    ensures var was, read := Lookup(start, dst), ReadEntries(cuts, src, m);
            && (made != MakeFailed ==> Copying(cuts, start, root, src, dst, m, read.Keys, true))
            && SafeBut(was, read, read.Keys) && Suits(was, read, read.Keys)
            && (made == MakeFailed && !fails ==> !Placeable(start, dst) && Safe(was, Dir(read)))
  {
    var was, read := Lookup(start, dst), ReadEntries(cuts, src, m);
    assert src != [] by {
      hide Lookup;
    }
    MakesStraight(start, dst);
    hide MadeAt, Making, Graft, Lookup, Placeable, Straight, Safe, Underway, Suits, ReadEntries, Apart, SafeBut;
    AllSafe(was, read);
    NoneCopied(was, read, true);
    GraftSame(start, dst);
    SafeFresh(Dir(read));
    if was.Some? {
      FoundIsPlaceable(start, dst);
    } else if Placeable(start, dst) {
      LookupGraft(start, dst, Some(Dir(map[])));
      GraftApart(start, dst, Some(Dir(map[])), src);
    }
  }

  /** What a copy under way has done so far. */
  lemma HowFar(cuts: Cuts, start: Node, root: Node, src: Path, dst: Path, m: map<Name, Node>, left: set<Name>, ok: bool)
    requires Copying(cuts, start, root, src, dst, m, left, ok)
    ensures root == Graft(start, dst, Lookup(root, dst)) && Placeable(start, dst)
    ensures Lookup(root, src) == Some(Dir(m))
    ensures left == {} && ok ==>
      Lookup(root, dst) == Some(Merge(Lookup(start, dst), Dir(ReadEntries(cuts, src, m))))
  {
    hide Graft, Lookup, Placeable, Straight, Merge, Underway, ReadEntries;
    AllCopied(Lookup(start, dst), ReadEntries(cuts, src, m), Lookup(root, dst).value);
  }

  lemma AllSuit(was: Option<Node>, read: map<Name, Node>)
    ensures Suits(was, read, {}) <==> Fits(was, Dir(read))
  {
    AllCopied(was, read, Dir(map[]));
  }

  lemma SafeEach(was: Option<Node>, read: map<Name, Node>, name: Name)
    requires Safe(was, Dir(read)) && name in read
    ensures SafeFor(was, name, read[name])
  {
    AllSafe(was, read);
  }

  /** What the copy of the next entry starts from. */
  lemma ChildCourse(cuts: Cuts, start: Node, root: Node, src: Path, dst: Path, m: map<Name, Node>, left: set<Name>,
                    ok: bool, name: Name)
    requires Copying(cuts, start, root, src, dst, m, left, ok) && name in left && dst != []
    requires Apart(dst + [name], src + [name])
    ensures name in m && name in ReadEntries(cuts, src, m) && Lookup(root, src + [name]) == Some(m[name])
    ensures var was, read := Lookup(start, dst), ReadEntries(cuts, src, m);
            && read[name] == AsRead(cuts, src + [name], m[name])
            && (if Straight(root, dst + [name])
                then Course(root, src + [name], dst + [name], m[name])
                     && (SafeFor(was, name, read[name]) <==> Safe(Lookup(root, dst + [name]), read[name]))
                else SafeFor(was, name, read[name]) <==> !Copyable(m[name]))
  {
    var was, read, cur := Lookup(start, dst), ReadEntries(cuts, src, m), Lookup(root, dst).value;
    ReadAt(cuts, src, m, name);
    AsReadKind(cuts, src + [name], m[name]);
    LookupEntry(root, src, m, name);
    FoundIsPlaceable(root, dst);
    PlaceableIsStraight(root, dst);
    StraightBelow(root, dst, name);
    SafeFresh(read[name]);
    LookupBelow(root, dst, [name]);
    hide Graft, Placeable, Straight, Merge, ReadEntries, AsRead, Apart, Safe;
    if cur.Dir? {
      LookupEntry(root, dst, cur.entries, name);
      assert Get(cur.entries, name) == Get(EntriesOf(was), name);
    }
  }

  lemma ApartBoth(src: Path, dst: Path, name: Name)
    ensures Apart(dst, src) ==> Apart(dst + [name], src) && Apart(dst + [name], src + [name])
  {
    if Apart(dst, src) {
      ApartBelow(dst, src, [name], []);
      ApartBelow(dst, src, [name], [name]);
      assert src + [] == src;
    }
  }

  lemma AsReadKind(cuts: Cuts, p: Path, n: Node)
    ensures Copyable(AsRead(cuts, p, n)) <==> Copyable(n)
  {
  }

  lemma {:induction false} StraightBelow(n: Node, p: Path, k: Name)
    requires Lookup(n, p).Some? && Straight(n, p) && p != []
    ensures Straight(n, p + [k]) <==> !Lookup(n, p).value.Link?
    decreases |p|
  {
    assert (p + [k])[1..] == p[1..] + [k];
    if |p| > 1 {
      StraightBelow(n.entries[p[0]], p[1..], k);
    }
  }

  /** One entry more has been copied, or has met a link and been left. */
  lemma OneMoreCopied(cuts: Cuts, start: Node, before: Node, root: Node, src: Path, dst: Path, m: map<Name, Node>,
                      left: set<Name>, ok: bool, name: Name, copied: bool)
    requires Copying(cuts, start, before, src, dst, m, left, ok) && name in left && dst != []
    requires name in m && Apart(dst + [name], src)
    requires if Straight(before, dst + [name])
             then Copied(cuts, before, root, src + [name], dst + [name], m[name], copied)
             else root == before && !copied
    ensures Copying(cuts, start, root, src, dst, m, left - {name}, ok && copied)
  {
    var was, read := Lookup(start, dst), ReadEntries(cuts, src, m);
    var o := Lookup(root, dst + [name]);
    ReadAt(cuts, src, m, name);
    if !Straight(before, dst + [name]) {
      GraftSame(before, dst + [name]);
    }
    hide Graft, Lookup, Placeable, Straight, Merge, ReadEntries, AsRead, Apart, Underway;
    assert root == Graft(before, dst + [name], o);
    OneCopied(before, dst, was, read, left, ok, name, o, copied);
    GraftTwice(start, dst, Lookup(before, dst), Lookup(root, dst));
    GraftApart(before, dst + [name], o, src);
  }

  /** And suits, and is clear, as the rest has to. */
  lemma OneMoreSuits(cuts: Cuts, start: Node, before: Node, src: Path, dst: Path, m: map<Name, Node>, left: set<Name>,
                     ok: bool, name: Name)
    requires Copying(cuts, start, before, src, dst, m, left, ok) && name in left && dst != []
    requires var was, read := Lookup(start, dst), ReadEntries(cuts, src, m);
             ok <==> Suits(was, read, left)
    ensures var was, read := Lookup(start, dst), ReadEntries(cuts, src, m);
            && name in read
            && (SafeBut(was, read, left - {name}) <==> SafeBut(was, read, left) && SafeFor(was, name, read[name]))
            && (ok && Placeable(before, dst + [name]) && Fits(Lookup(before, dst + [name]), read[name])
                <==> Suits(was, read, left - {name}))
            && (Placeable(before, dst + [name]) ==> Straight(before, dst + [name]))
  {
    var was, read := Lookup(start, dst), ReadEntries(cuts, src, m);
    if Placeable(before, dst + [name]) {
      PlaceableIsStraight(before, dst + [name]);
    }
    hide Graft, Lookup, Placeable, Straight, Merge, ReadEntries, Underway, Suits, Fits, SafeBut, SafeFor;
    OneSafe(was, read, left, name);
    OneSuits(before, dst, was, read, left, ok, name);
  }

  lemma NothingMoved(root: Node, dst: Path, strays: seq<Path>, landed: seq<Path>)
    ensures Moved(root, root, dst, strays, strays, landed, landed)
  {
    hide Lookup;
  }

  class FileSystem {
    var root: Node
    const faults: set<Fault>
    /** What a failed copy leaves behind, if it got as far as opening its target. */
    const torn: map<(Path, Path), Bytes>
    /** The listings that a read error ends early. */
    const cuts: Cuts
    /** Longer paths are refused. */
    const deepest: nat
    /** The paths at which something was made or opened for writing by way of a link, or
        a device, pipe or socket was; and where that made or wrote something. */
    ghost var strays: seq<Path>
    ghost var landed: seq<Path>

    constructor (root: Node, faults: set<Fault>, torn: map<(Path, Path), Bytes>, cuts: Cuts, deepest: nat)
      ensures this.root == root && this.faults == faults && this.torn == torn && this.cuts == cuts
      ensures this.deepest == deepest && strays == [] && landed == []
    {
      this.root, this.faults, this.torn, this.cuts, this.deepest := root, faults, torn, cuts, deepest;
      strays, landed := [], [];
    }

    /** Nothing but what is in the way can keep `node` at `p` from being copied or
        removed. */
    ghost predicate Free(p: Path, node: Node) {
      faults == {} && Reachable(p, node, deepest)
    }

    /** What is at `p`, by a way without links, as are those of all that is looked at,
        listed or removed here. */
    method Lstat(p: Path) returns (r: Found)
      ensures r == StatFailed <==> AtLstat(p) in faults || |p| > deepest
      ensures r != StatFailed ==>
        match Lookup(root, p)
        case None => r == Missing
        case Some(Dir(_)) => r == IsDir
        case Some(File(_)) => r == IsFile
        case Some(_) => r == IsOther
    {
      if AtLstat(p) in faults || |p| > deepest {
        return StatFailed;
      }
      match Lookup(root, p)
      case None => return Missing;
      case Some(Dir(_)) => return IsDir;
      case Some(File(_)) => return IsFile;
      case Some(_) => return IsOther;
    }

    method Unlink(p: Path) returns (ok: bool)
      modifies this`root
      ensures ok <==> AtUnlink(p) !in faults && old(Lookup(root, p)).Some? && !old(Lookup(root, p)).value.Dir?
      ensures root == if ok then Graft(old(root), p, None) else old(root)
    {
      ok := AtUnlink(p) !in faults && Lookup(root, p).Some? && !Lookup(root, p).value.Dir?;
      if ok {
        root := Graft(root, p, None);
      }
    }

    /** Only an empty directory can be removed. */
    method Rmdir(p: Path) returns (ok: bool)
      modifies this`root
      ensures ok <==> AtRmdir(p) !in faults && old(Lookup(root, p)) == Some(Dir(map[]))
      ensures root == if ok then Graft(old(root), p, None) else old(root)
    {
      ok := AtRmdir(p) !in faults && Lookup(root, p) == Some(Dir(map[]));
      if ok {
        root := Graft(root, p, None);
      }
    }

    /** Makes a directory where the way to `p` leads. */
    method Mkdir(p: Path) returns (r: Made)
      requires p != []
      modifies this`root, this`strays, this`landed
      ensures r == if AtMkdir(p) in faults then MakeFailed else Making(old(root), MadeAt(old(root), p))
      ensures root == if r == MadeNew then Graft(old(root), MadeAt(old(root), p).value, Some(Dir(map[]))) else old(root)
      ensures strays == old(strays) + if Straight(old(root), p) then [] else [p]
      ensures old(landed) <= landed && Persists(old(root), root) && Keeps(old(root), root, p, landed)
      ensures Straight(old(root), p) ==> landed == old(landed)
    {
      strays := strays + if Straight(root, p) then [] else [p];
      var at := MadeAt(root, p);
      if AtMkdir(p) in faults || at.None? {
        return MakeFailed;
      } else if Lookup(root, at.value).Some? {
        return AlreadyThere;
      } else if Placeable(root, at.value) {
        if Straight(root, p) {
          GoesStraight(root, p);
        } else {
          landed := landed + [at.value];
        }
        WritePersists(root, at.value, Dir(map[]));
        WriteKeeps(root, at.value, Dir(map[]), p, landed);
        root := Graft(root, at.value, Some(Dir(map[])));
        return MadeNew;
      }
      return MakeFailed;
    }

    /** The names that reading the directory gives, up to its end or a read error. */
    method Opendir(p: Path) returns (r: Option<set<Name>>)
      ensures r.Some? <==> AtOpendir(p) !in faults && Lookup(root, p).Some? && Lookup(root, p).value.Dir?
      ensures r.Some? ==> r.value == Listed(cuts, p, Lookup(root, p).value.entries)
    {
      if AtOpendir(p) in faults || Lookup(root, p).None? || !Lookup(root, p).value.Dir? {
        return None;
      }
      return Some(Listed(cuts, p, Lookup(root, p).value.entries));
    }

    /** Copies a regular file to where opening `dst` leads; a copy that fails may leave
        a torn file there. A file copied onto itself is emptied. */
    method CopyFile(src: Path, dst: Path) returns (ok: bool)
      requires dst != []
      modifies this`root, this`strays, this`landed
      ensures ok <==> AtCopy(src, dst) !in faults && Opens(old(root), src, dst)
      ensures ok ==> root == AfterCopy(old(root), src, dst)
      ensures IsFileAt(old(root), src) ==> strays == old(strays) + if Follows(old(root), dst) then [dst] else []
      ensures !IsFileAt(old(root), src) ==> strays == old(strays)
      ensures old(landed) <= landed && Persists(old(root), root) && Keeps(old(root), root, dst, landed)
      ensures !Follows(old(root), dst) ==> root == Graft(old(root), dst, Lookup(root, dst)) && landed == old(landed)
    {
      GraftSame(root, dst);
      if !IsFileAt(root, src) {
        return false;
      }
      strays := strays + if Follows(root, dst) then [dst] else [];
      if !Opens(root, src, dst) {
        return false;
      }
      var at := OpenedAt(root, dst).value;
      if Follows(root, dst) {
        landed := landed + [at];
      } else {
        GoesStraight(root, dst);
      }
      if AtCopy(src, dst) in faults {
        if (src, dst) in torn {
          Write(at, torn[(src, dst)], dst);
        }
        return false;
      }
      Write(at, if at == src then [] else Lookup(root, src).value.data, dst);
      return true;
    }

    method Write(at: Path, data: Bytes, ghost dst: Path)
      requires Placeable(root, at) && (Lookup(root, at).Some? ==> Lookup(root, at).value.File?)
      requires at == dst || at in landed
      modifies this`root
      ensures root == Graft(old(root), at, Some(File(data))) && Lookup(root, at) == Some(File(data))
      ensures Persists(old(root), root) && Keeps(old(root), root, dst, landed)
    {
      WritePersists(root, at, File(data));
      WriteKeeps(root, at, File(data), dst, landed);
      LookupGraft(root, at, Some(File(data)));
      root := Graft(root, at, Some(File(data)));
    }

    // ------------------------------------------------------------ removing

    /** Removes what is at `path`, if anything. Nothing else changes; success means
        it is gone, and only a fault, a listing cut short or a path too long prevents
        it. */
    method RemoveTree(path: Path, ghost node: Node) returns (ok: bool)
      requires path != [] && (Lookup(root, path).Some? ==> Lookup(root, path).value == node)
      modifies this`root
      ensures root == Graft(old(root), path, Lookup(root, path))
      ensures ok ==> Lookup(root, path).None?
      ensures faults == {} && Reachable(path, node, deepest) ==>
        (ok <==> old(Lookup(root, path)).None? || Removable(cuts, path, node))
      decreases node, 1
    {
      hide Graft, Lookup, Placeable, RemovableBut, Remaining;
      GraftSame(root, path);
      var st := Lstat(path);
      if st == Missing || st == StatFailed {
        return st == Missing;
      }
      FoundIsPlaceable(root, path);
      LookupGraft(root, path, None);
      if st != IsDir {
        ok := Unlink(path);
        return;
      }
      var names := Opendir(path);
      if names.None? {
        return false;
      }
      ghost var start, m := root, node.entries;
      DirRemovable(cuts, path, m);
      hide Removable, Listed;
      ghost var now;
      ok, now := RemoveEntries(path, names.value, m);
      NothingLeft(m, now, names.value, ok);
      LookupGraft(start, path, Some(Dir(now)));
      if ok {
        GraftTwice(start, path, Some(Dir(now)), None);
        ok := Rmdir(path);
      }
    }

    /** Removes the named entries of the directory at `path`. */
    method RemoveEntries(path: Path, names: set<Name>, ghost m: map<Name, Node>)
        returns (ok: bool, ghost now: map<Name, Node>)
      requires path != [] && Lookup(root, path) == Some(Dir(m)) && names <= m.Keys
      modifies this`root
      ensures root == Graft(old(root), path, Some(Dir(now)))
      ensures Remaining(m, now, m.Keys - names, ok)
      ensures faults == {} && Reachable(path, Dir(m), deepest) ==>
        (ok <==> RemovableBut(cuts, path, m, m.Keys - names))
      decreases Dir(m), 0
    {
      hide Graft, Lookup, Placeable, WithEntry, RemovableBut, Removable, Remaining, Reachable;
      FoundIsPlaceable(root, path);
      GraftSame(root, path);
      ghost var start, kept := root, m.Keys - names;
      var left := names;
      AllRemain(cuts, path, m, left, kept);
      ok, now := true, m;
      while left != {}
        invariant left !! kept && Placeable(start, path)
        invariant root == Graft(start, path, Some(Dir(now)))
        invariant Remaining(m, now, left + kept, ok)
        invariant faults == {} && Reachable(path, Dir(m), deepest) ==>
          (ok <==> RemovableBut(cuts, path, m, left + kept))
        decreases |left|
      {
        var name :| name in left;
        LookupGraft(start, path, Some(Dir(now)));
        LookupEntry(root, path, now, name);
        StillThere(m, now, left + kept, ok, name);
        ReachableChild(path, m, name, deepest);
        var removed := RemoveTree(path + [name], m[name]);
        ghost var o := Lookup(root, path + [name]);
        EntryOfGraft(start, path, now, name, o);
        OneRemoved(cuts, path, m, now, left, kept, ok, name, o, removed);
        now, ok := WithEntry(now, name, o), ok && removed;
        left := left - {name};
      }
      assert left + kept == kept;
    }

    /** Empties the skills directory, but for `.snapshots` and what its listing does
        not give. */
    method ClearSkills(skills: Path, ghost m: map<Name, Node>) returns (ok: bool, ghost now: map<Name, Node>)
      requires Lookup(root, skills) == Some(Dir(m)) && skills != []
      modifies this`root
      ensures root == Graft(old(root), skills, Some(Dir(now)))
      ensures Remaining(m, now, Spared(cuts, skills, m), ok)
      ensures faults == {} && Reachable(skills, Dir(m), deepest) ==>
        (ok <==> RemovableBut(cuts, skills, m, Spared(cuts, skills, m)))
    {
      hide Graft, RemovableBut;
      GraftSame(root, skills);
      var names := Opendir(skills);
      if names.None? {
        return false, m;
      }
      SparedIs(cuts, skills, m);
      var left := names.value - {SNAPSHOTS_NAME};
      assert m.Keys - left == Spared(cuts, skills, m);
      hide Lookup, Listed, Remaining, Spared;
      ok, now := RemoveEntries(skills, left, m);
    }

    // ------------------------------------------------------------- copying

    /** Copies `src` to `dst`, leaving out every `.snapshots`. What it does goes by the
        links it meets at `dst`: nothing changes but `dst` and where those lead, and no
        link, device, pipe or socket goes away. If it meets none where it would write,
        only `dst` changes; success then means that what is read of `src` is merged
        with what was there, and without faults it succeeds exactly when that can be.
        Without faults it goes astray exactly if something is in the way. */
    method CopyTree(src: Path, dst: Path, ghost node: Node) returns (ok: bool)
      requires dst != []
      modifies this`root, this`strays, this`landed
      ensures Moved(old(root), root, dst, old(strays), strays, old(landed), landed)
      ensures Course(old(root), src, dst, node) && Safe(old(Lookup(root, dst)), AsRead(cuts, src, node)) ==>
        strays == old(strays)
      ensures Course(old(root), src, dst, node) && strays == old(strays) ==>
        Copied(cuts, old(root), root, src, dst, node, ok)
      ensures Course(old(root), src, dst, node) && strays == old(strays) && Free(src, node) ==>
        && Safe(old(Lookup(root, dst)), AsRead(cuts, src, node))
        && (ok <==> Placeable(old(root), dst) && Fits(old(Lookup(root, dst)), AsRead(cuts, src, node)))
      ensures old(Lookup(root, src)) == Some(node) && !Straight(old(root), dst) ==>
        && (strays == old(strays) ==> !ok && root == old(root))
        && (if Copyable(node) then Free(src, node) ==> strays != old(strays) else strays == old(strays))
      ensures old(IsFileAt(root, src)) && faults == {} && |src| <= deepest && Opens(old(root), src, dst) ==>
        ok && root == AfterCopy(old(root), src, dst)
      decreases if |src| <= deepest then deepest - |src| + 1 else 0
    {
      hide AsRead, Merge, Fits, Safe, Graft, Lookup, Apart, Placeable, Straight, ReadEntries, Fixed,
           Persists, Keeps, Resolve, Opens, AfterCopy, Copying, SafeBut, Suits, Reachable, Moved, Listed;
      GraftSame(root, dst);
      ghost var start, was := root, Lookup(root, dst);
      ghost var strayed, arrived := strays, landed;
      LeafCopies(cuts, src, node, was);
      NothingMoved(start, dst, strays, landed);
      ReachableHere(src, node, deepest);
      var st := Lstat(src);
      if st == Missing || st == StatFailed {
        return false;
      }
      if st != IsDir {
        if st != IsFile {
          return false;
        }
        LeafWritten(cuts, start, src, dst, node);
        ok := CopyFile(src, dst);
        JustMoved(start, root, dst, strayed, strays, arrived, landed);
        return;
      }
      ghost var m := Lookup(root, src).value.entries;
      ghost var read := ReadEntries(cuts, src, m);
      ghost var course := Course(start, src, dst, node);
      var made := Mkdir(dst);
      JustMoved(start, root, dst, strayed, strays, arrived, landed);
      if course {
        CopyStarts(cuts, start, root, src, dst, m, made, AtMkdir(dst) in faults);
      }
      if made == MakeFailed {
        return false;
      }
      if course && strays == strayed {
        HowFar(cuts, start, root, src, dst, m, read.Keys, true);
      }
      var names := Opendir(src);
      if names.None? {
        return false;
      }
      var left := names.value - {SNAPSHOTS_NAME};
      ReadKeys(cuts, src, m);
      ok := true;
      while left != {}
        invariant Moved(start, root, dst, strayed, strays, arrived, landed)
        invariant !Straight(start, dst) ==> |strays| > |strayed|
        invariant course && strays == strayed ==> Copying(cuts, start, root, src, dst, m, left, ok)
        invariant course && Safe(was, Dir(read)) ==> strays == strayed
        invariant course && strays == strayed && Free(src, node) ==>
          SafeBut(was, read, left) && (ok <==> Suits(was, read, left))
        decreases |left|
      {
        var name :| name in left;
        ghost var before, way, reached := root, strays, landed;
        ghost var child := if name in m then m[name] else Other;
        ApartBoth(src, dst, name);
        if course && strays == strayed {
          ChildCourse(cuts, start, root, src, dst, m, left, ok, name);
          ReachableChild(src, m, name, deepest);
          if Safe(was, Dir(read)) {
            SafeEach(was, read, name);
          }
        }
        var copied := CopyTree(src + [name], dst + [name], child);
        MovedOn(start, before, root, dst, name, strayed, way, strays, arrived, reached, landed);
        if course && strays == strayed {
          OneMoreCopied(cuts, start, before, root, src, dst, m, left, ok, name, copied);
          if Free(src, node) {
            OneMoreSuits(cuts, start, before, src, dst, m, left, ok, name);
          }
        }
        ok := ok && copied;
        left := left - {name};
      }
      if course && strays == strayed {
        HowFar(cuts, start, root, src, dst, m, left, ok);
        AllSafe(was, read);
        AllSuit(was, read);
      }
    }

    // ------------------------------------------------------------ rollback

    /** `mkdir -p` by a path without links: the directories down to `path`, or as many
        of them as can be made before one that fails. Without faults it succeeds exactly
        when nothing above `path` is anything but a directory. */
    method MkdirAll(path: Path) returns (ok: bool)
      modifies this`root, this`strays, this`landed
      ensures Straight(old(root), path) ==>
        && strays == old(strays) && landed == old(landed)
        && (ok ==> root == WithDirs(old(root), path) && Lookup(root, path).Some?)
        && (exists i :: 0 <= i <= |path| && root == WithDirs(old(root), path[..i]))
        && (faults == {} ==> (ok <==> Passable(old(root), path)))
    {
      hide Lookup, Graft, Placeable, WithDirs, Passable, Straight, MadeAt, Persists, Keeps;
      ghost var start := root;
      NoDirsMade(start);
      for i := 1 to |path| + 1
        invariant Straight(start, path) ==>
          && strays == old(strays) && landed == old(landed)
          && root == WithDirs(start, path[..i - 1]) && Lookup(root, path[..i - 1]).Some?
          && Passable(start, path[..i - 1])
      {
        assert path[..i] == path[..i - 1] + [path[i - 1]];
        if Straight(start, path) {
          OneDirMore(start, path[..i - 1], path[i - 1]);
          StillStraight(start, path, i);
        }
        var made := Mkdir(path[..i]);
        if made == MakeFailed {
          if Passable(start, path) {
            PassablePrefix(start, path, i);
          }
          return false;
        }
        if Straight(start, path) && made == MadeNew {
          LookupGraft(WithDirs(start, path[..i - 1]), path[..i], Some(Dir(map[])));
        }
      }
      assert path[..|path|] == path;
      return true;
    }

    /** Copies the snapshot's entries into the skills directory. As with `CopyTree`, if
        nothing left there is in the way only the skills directory changes, and without
        faults exactly then. */
    method CopySnapshot(skills: Path, from: Path, ghost m: map<Name, Node>, ghost snapshot: map<Name, Node>)
        returns (ok: bool)
      requires skills != [] && skills + [SNAPSHOTS_NAME] < from
      requires Lookup(root, skills) == Some(Dir(m)) && Lookup(root, from) == Some(Dir(snapshot))
      modifies this`root, this`strays, this`landed
      ensures Moved(old(root), root, skills, old(strays), strays, old(landed), landed)
      ensures Safe(Some(Dir(m)), Dir(ReadEntries(cuts, from, snapshot))) ==> strays == old(strays)
      ensures strays == old(strays) ==>
        && root == Graft(old(root), skills, Lookup(root, skills))
        && Lookup(root, skills).Some? && Lookup(root, skills).value.Dir?
        && Get(Lookup(root, skills).value.entries, SNAPSHOTS_NAME) == Get(m, SNAPSHOTS_NAME)
        && (ok ==> Lookup(root, skills) == Some(Dir(MergeEntries(m, ReadEntries(cuts, from, snapshot)))))
      ensures strays == old(strays) && Free(from, Dir(snapshot)) ==>
        && Safe(Some(Dir(m)), Dir(ReadEntries(cuts, from, snapshot)))
        && (ok <==> FitsBut(m, ReadEntries(cuts, from, snapshot), {}))
      ensures forall k ::
        OnlyFile(cuts, old(root), from, skills, snapshot, k) && Free(from, Dir(snapshot)) ==>
          ok && root == AfterCopy(old(root), from + [k], skills + [k])
    {
      hide AsRead, Merge, MergeEntries, FitsBut, Graft, Lookup, Placeable, ReadEntries, Copying, Suits, Safe, SafeBut,
           Straight, Moved, Reachable, Listed, AfterCopy, Opens, Resolve, Fixed;
      ghost var start, was, read := root, Some(Dir(m)), ReadEntries(cuts, from, snapshot);
      ghost var strayed, arrived := strays, landed;
      GraftSame(root, skills);
      SnapshotStarts(cuts, start, from, skills, m, snapshot);
      NothingMoved(start, skills, strays, landed);
      ReadKeys(cuts, from, snapshot);
      var names := Opendir(from);
      if names.None? {
        return false;
      }
      var left := names.value - {SNAPSHOTS_NAME};
      ok := true;
      while left != {}
        invariant Moved(start, root, skills, strayed, strays, arrived, landed)
        invariant strays == strayed ==> Copying(cuts, start, root, from, skills, snapshot, left, ok)
        invariant Safe(was, Dir(read)) ==> strays == strayed
        invariant strays == strayed && Free(from, Dir(snapshot)) ==>
          SafeBut(was, read, left) && (ok <==> Suits(was, read, left))
        invariant left == read.Keys ==> ok && root == start
        invariant forall k ::
          OnlyFile(cuts, start, from, skills, snapshot, k) && Free(from, Dir(snapshot)) && left == {} ==>
            ok && root == AfterCopy(start, from + [k], skills + [k])
        invariant left <= read.Keys
        decreases |left|
      {
        var name :| name in left;
        ghost var before, way, reached := root, strays, landed;
        ReadAt(cuts, from, snapshot, name);
        SourceApart(skills, from, name);
        ReachableChild(from, snapshot, name, deepest);
        ReachableHere(from + [name], snapshot[name], deepest);
        if strays == strayed {
          ChildCourse(cuts, start, root, from, skills, snapshot, left, ok, name);
          if Safe(was, Dir(read)) {
            SafeEach(was, read, name);
          }
        }
        var copied := CopyTree(from + [name], skills + [name], snapshot[name]);
        MovedOn(start, before, root, skills, name, strayed, way, strays, arrived, reached, landed);
        if strays == strayed {
          OneMoreCopied(cuts, start, before, root, from, skills, snapshot, left, ok, name, copied);
          if Free(from, Dir(snapshot)) {
            OneMoreSuits(cuts, start, before, from, skills, snapshot, left, ok, name);
          }
        }
        OneNameLeft(read.Keys, left, name);
        ok := ok && copied;
        left := left - {name};
      }
      if strays == strayed {
        SnapshotEnds(cuts, start, root, from, skills, m, snapshot, ok);
        AllSafe(was, read);
      }
    }

    /** The restore. Whatever fails, nothing changes but the skills directory and where
        writes by way of links left in it landed. If nothing left there is in the way,
        no write goes astray: nothing outside the skills directory changes, and neither
        does its `.snapshots`; success means what was read of the snapshot merged with
        what the listing of the skills did not give; and without faults it comes exactly
        when that can be. Without faults, and once the listed skills are gone, writes go
        astray exactly if something is in the way. Success is the restored tree exactly
        when nothing is in the way and all of it was refreshed. */
    method RollbackSnapshot(projectRoot: Option<Path>, id: Name) returns (ok: bool)
      modifies this`root, this`strays, this`landed
      ensures projectRoot.None? ==> !ok && root == old(root) && strays == old(strays)
      ensures projectRoot.Some? ==> Keeps(old(root), root, SkillsDir(projectRoot.value), landed)
      ensures projectRoot.Some? && Unobstructed(old(root), cuts, projectRoot.value, id) ==> strays == old(strays)
      ensures projectRoot.Some? && strays == old(strays) ==>
        var skills := SkillsDir(projectRoot.value);
        && root == Graft(old(root), skills, Lookup(root, skills))
        && Lookup(root, skills + [SNAPSHOTS_NAME]) == old(Lookup(root, skills + [SNAPSHOTS_NAME]))
      ensures ok ==> HasSnapshot(old(root), projectRoot.value, id) && SnapshotIdOk(id)
      ensures ok && strays == old(strays) ==> root == AfterRollback(old(root), cuts, projectRoot.value, id)
      ensures ok ==> (root == RolledBack(old(root), projectRoot.value, id)
                      <==> Unobstructed(old(root), cuts, projectRoot.value, id)
                           && AllRefreshed(old(root), cuts, projectRoot.value, id))
      ensures ok && cuts == map[] ==> root == RolledBack(old(root), projectRoot.value, id)
      ensures projectRoot.Some? && Free(SkillsDir(projectRoot.value), SkillsNode(old(root), projectRoot.value)) ==>
        && (Unobstructed(old(root), cuts, projectRoot.value, id) ==>
              (ok <==> CanRestore(old(root), cuts, projectRoot.value, id)))
        && (CanClear(old(root), cuts, projectRoot.value, id) ==>
              (strays == old(strays) <==> Unobstructed(old(root), cuts, projectRoot.value, id)))
        && (cuts == map[] ==>
              (ok <==> SnapshotIdOk(id) && HasSnapshot(old(root), projectRoot.value, id)
                       && Restorable(Lookup(old(root), SnapshotDir(projectRoot.value, id)).value)))
      ensures projectRoot.Some? && Free(SkillsDir(projectRoot.value), SkillsNode(old(root), projectRoot.value)) ==>
        forall k :: OnlyCopies(old(root), cuts, projectRoot.value, id, k) ==>
          && ok
          && root
             == AfterCopy(old(root), SnapshotDir(projectRoot.value, id) + [k], SkillsDir(projectRoot.value) + [k])
    {
      hide Graft, Restorable, SnapshotIdOk, Prune, Placeable, Remaining, RemovableBut, FitsBut, MergeEntries,
           ReadEntries, Kept, Spared, AfterRollback, CanRestore, RolledBack, WithDirs, Keeps, Persists, Unobstructed,
           AllRefreshed, Straight, Reachable, Safe, AfterCopy, OnlyCopies, OnlyFile, CanClear;
      if projectRoot.None? {
        return false;
      }
      var project := projectRoot.value;
      GraftSame(root, SkillsDir(project));
      NothingMoved(root, SkillsDir(project), strays, landed);
      var idOk := CheckSnapshotId(id);
      CanRestoreMeans(root, cuts, project, id);
      ConditionsMean(root, cuts, project, id);
      if !idOk {
        return false;
      }
      var skills, from := SkillsDir(project), SnapshotDir(project, id);
      if HasSnapshot(root, project, id) && Reachable(skills, SkillsNode(root, project), deepest) {
        DeepEnough(root, project, id, deepest);
      }
      var st := Lstat(from);
      if st != IsDir {
        return false;
      }
      SkillsOfSnapshot(root, project, id);
      DirsAreThere(root, skills);
      FoundIsPlaceable(root, skills);
      PlaceableIsStraight(root, skills);
      var prepared := MkdirAll(skills);
      if !prepared {
        return false;
      }
      ghost var start, m := root, Lookup(root, skills).value.entries;
      ghost var snapshot := Lookup(root, from).value.entries;
      NoCutsNoMatter(start, project, id);
      ghost var now;
      ok, now := ClearSkills(skills, m);
      Cleared(start, cuts, project, id, m, now, ok);
      ClearedKeeps(start, skills, now, landed);
      if !ok {
        return;
      }
      ghost var mid, way, arrived := root, strays, landed;
      ok := CopySnapshot(skills, from, now, snapshot);
      CopiedKeeps(start, mid, root, skills, way, strays, arrived, landed);
      if strays == way {
        GraftTwice(start, skills, Some(Dir(now)), Lookup(root, skills));
        LookupGraft(start, skills, Lookup(root, skills));
        SnapshotsKept(start, root, skills, m);
      }
      if ok {
        SuccessMeans(start, mid, root, cuts, project, id);
      }
    }
  }

  // ------------------------------------------------------- making directories

  /** The tree with the directories down to `p` made, as far as nothing else is in
      the way. */
  function WithDirs(n: Node, p: Path): Node
    decreases |p|
  {
    if p == [] || !n.Dir? then n
    else Dir(n.entries[p[0] := WithDirs(if p[0] in n.entries then n.entries[p[0]] else Dir(map[]), p[1..])])
  }

  /** Nothing above `p` is anything but a directory. */
  predicate Passable(n: Node, p: Path)
    decreases |p|
  {
    p != [] ==> n.Dir? && (p[0] in n.entries ==> Passable(n.entries[p[0]], p[1..]))
  }

  lemma NoDirsMade(n: Node)
    ensures WithDirs(n, []) == n && Passable(n, []) && Lookup(n, []).Some?
  {
  }

  lemma {:induction false} PassablePrefix(n: Node, p: Path, i: nat)
    requires i <= |p| && Passable(n, p)
    ensures Passable(n, p[..i])
    decreases |p|
  {
    if i > 0 && p[0] in n.entries {
      PassablePrefix(n.entries[p[0]], p[1..], i - 1);
      assert p[..i][1..] == p[1..][..i - 1];
    }
  }

  /** The next directory on the way down is there, or can be put there, exactly when
      the way is passable. */
  lemma {:induction false} OneDirMore(n: Node, p: Path, k: Name)
    requires Passable(n, p) && Lookup(WithDirs(n, p), p).Some?
    ensures var t := WithDirs(n, p);
            && (Passable(n, p + [k]) <==> Lookup(t, p + [k]).Some? || Placeable(t, p + [k]))
            && WithDirs(n, p + [k]) == (if Lookup(t, p + [k]).Some? then t else Graft(t, p + [k], Some(Dir(map[]))))
    decreases |p|
  {
    if p == [] {
      assert p + [k] == [k] && [k][1..] == [];
      if n.Dir? && k in n.entries {
        assert n.entries[k := n.entries[k]] == n.entries;
      }
    } else {
      assert (p + [k])[1..] == p[1..] + [k] && (p + [k])[0] == p[0];
      var c := if p[0] in n.entries then n.entries[p[0]] else Dir(map[]);
      NewIsPassable(p[1..]);
      OneDirMore(c, p[1..], k);
      NewIsPassable(p[1..] + [k]);
      var u := WithDirs(c, p[1..]);
      assert WithDirs(n, p) == Dir(n.entries[p[0] := u]);
    }
  }

  lemma {:induction false} NewIsPassable(p: Path)
    ensures Passable(Dir(map[]), p)
  {
  }

  lemma {:induction false} DirsAreThere(n: Node, p: Path)
    requires Lookup(n, p).Some?
    ensures forall i :: 0 <= i <= |p| ==> WithDirs(n, p[..i]) == n
    ensures Passable(n, p)
    decreases |p|
  {
    if p != [] {
      var c := n.entries[p[0]];
      DirsAreThere(c, p[1..]);
      forall i | 0 <= i <= |p| ensures WithDirs(n, p[..i]) == n {
        if i > 0 {
          assert p[..i][1..] == p[1..][..i - 1];
          assert WithDirs(c, p[1..][..i - 1]) == c;
          assert n.entries[p[0] := c] == n.entries;
        }
      }
    }
  }

  /** Making directories on a straight way leaves it straight. */
  lemma StillStraight(n: Node, p: Path, i: nat)
    requires 0 < i <= |p| && Straight(n, p)
    ensures var t := WithDirs(n, p[..i - 1]);
            && Straight(t, p[..i])
            && Making(t, MadeAt(t, p[..i])) == MakingHere(t, p[..i])
            && (Making(t, MadeAt(t, p[..i])) == MadeNew ==> MadeAt(t, p[..i]) == Some(p[..i]))
  {
    StraightPrefix(n, p, i);
    assert p[..i] == p[..i - 1] + [p[i - 1]];
    WithDirsStraight(n, p[..i - 1], p[i - 1]);
    MakesStraight(WithDirs(n, p[..i - 1]), p[..i]);
  }

  /** What mkdir does at a path it reaches. */
  function MakingHere(root: Node, p: Path): Made {
    if Lookup(root, p).Some? then AlreadyThere else if Placeable(root, p) then MadeNew else MakeFailed
  }

  lemma MakesStraight(root: Node, p: Path)
    requires p != [] && Straight(root, p)
    ensures Making(root, MadeAt(root, p)) == MakingHere(root, p)
    ensures Making(root, MadeAt(root, p)) == MadeNew ==> MadeAt(root, p) == Some(p)
  {
    if Lookup(root, p).Some? {
      FoundIsPlaceable(root, p);
    }
    if root.Dir? {
      GoesStraight(root, p);
      hide MadeAt, Resolve;
    }
  }

  lemma {:induction false} StraightPrefix(n: Node, p: Path, i: nat)
    requires i <= |p| && Straight(n, p)
    ensures Straight(n, p[..i])
    decreases |p|
  {
    if i > 1 && n.Dir? && p[0] in n.entries {
      StraightPrefix(n.entries[p[0]], p[1..], i - 1);
      assert p[..i][1..] == p[1..][..i - 1];
    }
  }

  lemma {:induction false} WithDirsStraight(n: Node, p: Path, k: Name)
    requires Straight(n, p + [k])
    ensures Straight(WithDirs(n, p), p + [k])
    decreases |p|
  {
    if p != [] && n.Dir? {
      assert (p + [k])[1..] == p[1..] + [k];
      var c := if p[0] in n.entries then n.entries[p[0]] else Dir(map[]);
      EmptyIsStraight(p[1..] + [k]);
      WithDirsStraight(c, p[1..], k);
    }
  }

  lemma EmptyIsStraight(p: Path)
    ensures Straight(Dir(map[]), p)
  {
  }

  /** The snapshot lies beside every place the restore writes to. */
  lemma SourceApart(skills: Path, from: Path, name: Name)
    requires name != SNAPSHOTS_NAME && skills + [SNAPSHOTS_NAME] < from
    ensures Apart(skills + [name], from) && Apart(skills + [name], from + [name])
  {
    var rest := from[|skills|..];
    assert from == skills + rest && rest[0] == SNAPSHOTS_NAME;
    ApartUnder(skills, [name], rest);
    ApartBelow(skills + [name], from, [], [name]);
    assert skills + [name] + [] == skills + [name];
  }

  lemma Finished(m: map<Name, Node>, read: map<Name, Node>, cur: Node, ok: bool)
    requires Underway(Some(Dir(m)), read, cur, {}, ok) && SNAPSHOTS_NAME !in read
    ensures cur.Dir? && Get(cur.entries, SNAPSHOTS_NAME) == Get(m, SNAPSHOTS_NAME)
    ensures ok ==> cur.entries == MergeEntries(m, read)
    ensures Suits(Some(Dir(m)), read, {}) <==> FitsBut(m, read, {})
  {
    if ok {
      AllMerged(m, read, cur.entries);
    }
  }

  lemma SnapshotStarts(cuts: Cuts, start: Node, from: Path, skills: Path, m: map<Name, Node>,
                       snapshot: map<Name, Node>)
    requires skills != [] && Lookup(start, skills) == Some(Dir(m)) && Lookup(start, from) == Some(Dir(snapshot))
    ensures var read := ReadEntries(cuts, from, snapshot);
            && Copying(cuts, start, start, from, skills, snapshot, read.Keys, true)
            && SafeBut(Some(Dir(m)), read, read.Keys) && Suits(Some(Dir(m)), read, read.Keys)
  {
    var read := ReadEntries(cuts, from, snapshot);
    hide Graft, Lookup, Placeable, Straight, ReadEntries, Underway, Suits, SafeBut;
    FoundIsPlaceable(start, skills);
    PlaceableIsStraight(start, skills);
    GraftSame(start, skills);
    NoneCopied(Some(Dir(m)), read, true);
    AllSafe(Some(Dir(m)), read);
  }

  lemma SnapshotEnds(cuts: Cuts, start: Node, root: Node, from: Path, skills: Path, m: map<Name, Node>,
                     snapshot: map<Name, Node>, ok: bool)
    requires Lookup(start, skills) == Some(Dir(m)) && Copying(cuts, start, root, from, skills, snapshot, {}, ok)
    ensures root == Graft(start, skills, Lookup(root, skills))
    ensures Lookup(root, skills).Some? && Lookup(root, skills).value.Dir?
    ensures Get(Lookup(root, skills).value.entries, SNAPSHOTS_NAME) == Get(m, SNAPSHOTS_NAME)
    ensures ok ==> Lookup(root, skills) == Some(Dir(MergeEntries(m, ReadEntries(cuts, from, snapshot))))
    ensures Suits(Some(Dir(m)), ReadEntries(cuts, from, snapshot), {})
            <==> FitsBut(m, ReadEntries(cuts, from, snapshot), {})
  {
    ReadKeys(cuts, from, snapshot);
    hide Graft, Lookup, Placeable, Straight, ReadEntries, MergeEntries;
    Finished(m, ReadEntries(cuts, from, snapshot), Lookup(root, skills).value, ok);
  }

  lemma OneNameLeft(keys: set<Name>, left: set<Name>, name: Name)
    requires name in left && left <= keys
    ensures left - {name} != keys
    ensures forall k :: keys == {k} ==> name == k && left == keys
  {
  }

  lemma ClearedKeeps(start: Node, skills: Path, now: map<Name, Node>, landed: seq<Path>)
    ensures Keeps(start, Graft(start, skills, Some(Dir(now))), skills, landed)
  {
    WriteKeeps(start, skills, Dir(now), skills, landed);
  }

  lemma CopiedKeeps(start: Node, mid: Node, root: Node, skills: Path, way: seq<Path>, strays: seq<Path>,
                    arrived: seq<Path>, landed: seq<Path>)
    requires Keeps(start, mid, skills, arrived) && Moved(mid, root, skills, way, strays, arrived, landed)
    ensures Keeps(start, root, skills, landed) && Persists(mid, root)
  {
    hide Keeps, Persists;
    assert skills + [] == skills;
    KeepsOn(start, mid, root, skills, [], arrived, landed);
  }

  // ---------------------------------------------------------- the theorems

  predicate HasSnapshot(root: Node, project: Path, id: Name) {
    var s := Lookup(root, SnapshotDir(project, id));
    s.Some? && s.value.Dir?
  }

  /** A snapshot can only be there below a skills directory and its `.snapshots`. */
  lemma SkillsOfSnapshot(root: Node, project: Path, id: Name)
    requires HasSnapshot(root, project, id)
    ensures var d := Lookup(root, SkillsDir(project));
            && d.Some? && d.value.Dir? && SNAPSHOTS_NAME in d.value.entries
            && Lookup(d.value.entries[SNAPSHOTS_NAME], [id]) == Lookup(root, SnapshotDir(project, id))
  {
    LookupBelow(root, SkillsDir(project), [SNAPSHOTS_NAME, id]);
    assert [SNAPSHOTS_NAME, id][1..] == [id];
  }

  /** The tree after a successful restore. */
  function RolledBack(root: Node, project: Path, id: Name): Node
    requires HasSnapshot(root, project, id)
  {
    SkillsOfSnapshot(root, project, id);
    Graft(root, SkillsDir(project),
          Some(Dir(Restored(Lookup(root, SkillsDir(project)).value.entries,
                            Lookup(root, SnapshotDir(project, id)).value.entries))))
  }

  /** What clearing leaves in the skills directory. */
  function Kept(cuts: Cuts, p: Path, m: map<Name, Node>): map<Name, Node> {
    map k | k in m && k in Spared(cuts, p, m) :: m[k]
  }

  /** Skills that clearing left behind because their names were not listed. */
  function Stale(cuts: Cuts, p: Path, m: map<Name, Node>): map<Name, Node> {
    Kept(cuts, p, m) - {SNAPSHOTS_NAME}
  }

  /** The tree after a restore that reports success. */
  function AfterRollback(root: Node, cuts: Cuts, project: Path, id: Name): Node
    requires HasSnapshot(root, project, id)
  {
    SkillsOfSnapshot(root, project, id);
    var skills, from := SkillsDir(project), SnapshotDir(project, id);
    Graft(root, skills,
          Some(Dir(MergeEntries(Kept(cuts, skills, Lookup(root, skills).value.entries),
                                ReadEntries(cuts, from, Lookup(root, from).value.entries)))))
  }

  /** What the restore needs to succeed, without faults: an acceptable id of a
      snapshot that is there; listed skills that can be removed; and nothing in what
      is read of the snapshot that cannot be copied over what was left. */
  ghost predicate CanRestore(root: Node, cuts: Cuts, project: Path, id: Name) {
    && SnapshotIdOk(id) && HasSnapshot(root, project, id)
    && (SkillsOfSnapshot(root, project, id);
        var skills, from := SkillsDir(project), SnapshotDir(project, id);
        var m := Lookup(root, skills).value.entries;
        && RemovableBut(cuts, skills, m, Spared(cuts, skills, m))
        && FitsBut(Kept(cuts, skills, m), ReadEntries(cuts, from, Lookup(root, from).value.entries), {}))
  }

  /** Nothing that clearing leaves behind is in the way of what is read of the
      snapshot. */
  ghost predicate Unobstructed(root: Node, cuts: Cuts, project: Path, id: Name) {
    HasSnapshot(root, project, id) ==>
      (SkillsOfSnapshot(root, project, id);
       var skills, from := SkillsDir(project), SnapshotDir(project, id);
       Safe(Some(Dir(Kept(cuts, skills, Lookup(root, skills).value.entries))),
            Dir(ReadEntries(cuts, from, Lookup(root, from).value.entries))))
  }

  /** What is left behind and what is read make up the restored tree. */
  ghost predicate AllRefreshed(root: Node, cuts: Cuts, project: Path, id: Name)
    requires HasSnapshot(root, project, id)
  {
    SkillsOfSnapshot(root, project, id);
    var skills, from := SkillsDir(project), SnapshotDir(project, id);
    Refreshed(cuts, from, Some(Dir(Stale(cuts, skills, Lookup(root, skills).value.entries))), Lookup(root, from).value)
  }

  /** The restore gets as far as copying. */
  ghost predicate CanClear(root: Node, cuts: Cuts, project: Path, id: Name) {
    && SnapshotIdOk(id) && HasSnapshot(root, project, id)
    && (SkillsOfSnapshot(root, project, id);
        var skills := SkillsDir(project);
        var m := Lookup(root, skills).value.entries;
        RemovableBut(cuts, skills, m, Spared(cuts, skills, m)))
  }

  /** Of the snapshot the file `k` is read and nothing else, and opening its place among
      the skills leads to a file or a free place. */
  ghost predicate OnlyFile(cuts: Cuts, root: Node, from: Path, skills: Path, snapshot: map<Name, Node>, k: Name) {
    && ReadEntries(cuts, from, snapshot).Keys == {k} && IsFileAt(root, from + [k])
    && Opens(root, from + [k], skills + [k])
  }

  /** The restore finds nothing to clear and only the file `k` to copy. */
  ghost predicate OnlyCopies(root: Node, cuts: Cuts, project: Path, id: Name, k: Name) {
    && SnapshotIdOk(id) && HasSnapshot(root, project, id)
    && (SkillsOfSnapshot(root, project, id);
        var skills, from := SkillsDir(project), SnapshotDir(project, id);
        && Listed(cuts, skills, Lookup(root, skills).value.entries) == {}
        && OnlyFile(cuts, root, from, skills, Lookup(root, from).value.entries, k))
  }

  function SkillsNode(root: Node, project: Path): Node {
    var d := Lookup(root, SkillsDir(project));
    if d.Some? then d.value else Other
  }

  /** The conditions, spelled out for a snapshot that is there. */
  lemma ConditionsMean(root: Node, cuts: Cuts, project: Path, id: Name)
    ensures !HasSnapshot(root, project, id) ==>
      && Unobstructed(root, cuts, project, id) && !CanClear(root, cuts, project, id)
      && forall k :: !OnlyCopies(root, cuts, project, id, k)
    ensures !SnapshotIdOk(id) ==>
      !CanClear(root, cuts, project, id) && forall k :: !OnlyCopies(root, cuts, project, id, k)
    ensures var skills, from := SkillsDir(project), SnapshotDir(project, id);
            HasSnapshot(root, project, id) ==>
              && Lookup(root, skills).Some? && Lookup(root, skills).value.Dir? && Lookup(root, from).Some?
              && var m, snapshot := Lookup(root, skills).value.entries, Lookup(root, from).value.entries;
                 && (Unobstructed(root, cuts, project, id) <==>
                       Safe(Some(Dir(Kept(cuts, skills, m))), Dir(ReadEntries(cuts, from, snapshot))))
                 && (CanClear(root, cuts, project, id) <==>
                       SnapshotIdOk(id) && RemovableBut(cuts, skills, m, Spared(cuts, skills, m)))
                 && forall k :: OnlyCopies(root, cuts, project, id, k) ==>
                      && OnlyFile(cuts, root, from, skills, snapshot, k)
                      && RemovableBut(cuts, skills, m, Spared(cuts, skills, m)) && Kept(cuts, skills, m) == m
  {
    hide SnapshotIdOk, ReadEntries, OnlyFile, Safe, Removable, Listed;
    if HasSnapshot(root, project, id) {
      SkillsOfSnapshot(root, project, id);
    }
  }

  lemma DeepEnough(root: Node, project: Path, id: Name, deepest: nat)
    requires HasSnapshot(root, project, id) && Reachable(SkillsDir(project), SkillsNode(root, project), deepest)
    ensures Lookup(root, SkillsDir(project)).Some?
    ensures |SnapshotDir(project, id)| <= deepest
    ensures Reachable(SnapshotDir(project, id), Lookup(root, SnapshotDir(project, id)).value, deepest)
    ensures Reachable(SkillsDir(project), Lookup(root, SkillsDir(project)).value, deepest)
  {
    SkillsOfSnapshot(root, project, id);
    var d := Lookup(root, SkillsDir(project)).value;
    LookupBelow(root, SkillsDir(project), [SNAPSHOTS_NAME, id]);
    ReachableBelow(SkillsDir(project), d, deepest, [SNAPSHOTS_NAME, id]);
    hide Lookup;
  }

  lemma SnapshotsKept(start: Node, root: Node, skills: Path, m: map<Name, Node>)
    requires Lookup(start, skills) == Some(Dir(m)) && Lookup(root, skills).Some? && Lookup(root, skills).value.Dir?
    requires Get(Lookup(root, skills).value.entries, SNAPSHOTS_NAME) == Get(m, SNAPSHOTS_NAME)
    ensures Lookup(root, skills + [SNAPSHOTS_NAME]) == Lookup(start, skills + [SNAPSHOTS_NAME])
  {
    LookupEntry(root, skills, Lookup(root, skills).value.entries, SNAPSHOTS_NAME);
    LookupEntry(start, skills, m, SNAPSHOTS_NAME);
    hide Lookup;
  }

  /** What a copy reads at a path is, file or directory, there in the pruned tree. */
  lemma {:induction false} ReadIsThere(cuts: Cuts, q: Path, n: Node, p: Path)
    requires Lookup(AsRead(cuts, q, n), p).Some? && Copyable(Lookup(AsRead(cuts, q, n), p).value)
    ensures Lookup(Prune(n), p).Some? && Copyable(Lookup(Prune(n), p).value)
    decreases |p|
  {
    if p != [] {
      ReadIsThere(cuts, q + [p[0]], n.entries[p[0]], p[1..]);
    }
  }

  /** What was in the way is there still, so this is not the restored tree. */
  lemma ObstructedIsNotRestored(start: Node, mid: Node, root: Node, cuts: Cuts, project: Path, id: Name)
    requires HasSnapshot(start, project, id) && !Unobstructed(start, cuts, project, id) && Persists(mid, root)
    requires Lookup(start, SkillsDir(project)).Some? && Lookup(start, SkillsDir(project)).value.Dir?
    requires mid == Graft(start, SkillsDir(project),
                          Some(Dir(Kept(cuts, SkillsDir(project), Lookup(start, SkillsDir(project)).value.entries))))
    ensures root != RolledBack(start, project, id)
  {
    var skills, from := SkillsDir(project), SnapshotDir(project, id);
    SkillsOfSnapshot(start, project, id);
    var m, snapshot := Lookup(start, skills).value.entries, Lookup(start, from).value.entries;
    var kept, read := Kept(cuts, skills, m), ReadEntries(cuts, from, snapshot);
    var p := InTheWay(Some(Dir(kept)), Dir(read));
    var back := Restored(m, snapshot);
    FoundIsPlaceable(start, skills);
    LookupGraft(start, skills, Some(Dir(kept)));
    LookupGraft(start, skills, Some(Dir(back)));
    LookupBelow(mid, skills, p);
    LookupBelow(RolledBack(start, project, id), skills, p);
    assert AsRead(cuts, from, Dir(snapshot)) == Dir(read);
    ReadIsThere(cuts, from, Dir(snapshot), p);
    assert p != [] && p[0] in read;
    ReadKeys(cuts, from, snapshot);
    PruneDir(snapshot);
    SameBelow(back, PrunedEntries(snapshot), p);
    hide Graft, Lookup, Kept, ReadEntries, Prune, Listed;
    assert Fixed(Lookup(mid, skills + p));
  }

  /** Success is the restored tree exactly when nothing was in the way and all of it
      was refreshed. */
  lemma SuccessMeans(start: Node, mid: Node, root: Node, cuts: Cuts, project: Path, id: Name)
    requires HasSnapshot(start, project, id) && Persists(mid, root)
    requires Lookup(start, SkillsDir(project)).Some? && Lookup(start, SkillsDir(project)).value.Dir?
    requires mid == Graft(start, SkillsDir(project),
                          Some(Dir(Kept(cuts, SkillsDir(project), Lookup(start, SkillsDir(project)).value.entries))))
    requires Unobstructed(start, cuts, project, id) ==> root == AfterRollback(start, cuts, project, id)
    ensures root == RolledBack(start, project, id)
            <==> Unobstructed(start, cuts, project, id) && AllRefreshed(start, cuts, project, id)
  {
    hide Graft, Lookup, Kept, Unobstructed, AfterRollback, RolledBack, Refreshed, Complete, Stale, Persists;
    RestoredExactly(start, cuts, project, id);
    if !Unobstructed(start, cuts, project, id) {
      ObstructedIsNotRestored(start, mid, root, cuts, project, id);
    }
  }

  lemma CanRestoreMeans(root: Node, cuts: Cuts, project: Path, id: Name)
    ensures CanRestore(root, cuts, project, id) ==> SnapshotIdOk(id) && HasSnapshot(root, project, id)
    ensures var skills, from := SkillsDir(project), SnapshotDir(project, id);
            HasSnapshot(root, project, id) ==>
              && Lookup(root, skills).Some? && Lookup(root, skills).value.Dir? && Lookup(root, from).Some?
              && var m, snapshot := Lookup(root, skills).value.entries, Lookup(root, from).value.entries;
                 && AfterRollback(root, cuts, project, id)
                    == Graft(root, skills,
                             Some(Dir(MergeEntries(Kept(cuts, skills, m), ReadEntries(cuts, from, snapshot)))))
                 && (CanRestore(root, cuts, project, id) <==>
                       && SnapshotIdOk(id) && RemovableBut(cuts, skills, m, Spared(cuts, skills, m))
                       && FitsBut(Kept(cuts, skills, m), ReadEntries(cuts, from, snapshot), {}))
  {
    hide SnapshotIdOk, RemovableBut, FitsBut, MergeEntries, ReadEntries, Kept, Spared;
    if HasSnapshot(root, project, id) {
      SkillsOfSnapshot(root, project, id);
    }
  }

  lemma Cleared(root: Node, cuts: Cuts, project: Path, id: Name, m: map<Name, Node>, now: map<Name, Node>, ok: bool)
    requires HasSnapshot(root, project, id) && Lookup(root, SkillsDir(project)) == Some(Dir(m))
    requires Remaining(m, now, Spared(cuts, SkillsDir(project), m), ok)
    ensures var t := Graft(root, SkillsDir(project), Some(Dir(now)));
            && Get(now, SNAPSHOTS_NAME) == Get(m, SNAPSHOTS_NAME) && Placeable(root, SkillsDir(project))
            && Lookup(t, SkillsDir(project)) == Some(Dir(now))
            && Lookup(t, SnapshotDir(project, id)) == Lookup(root, SnapshotDir(project, id))
            && Lookup(t, SkillsDir(project) + [SNAPSHOTS_NAME]) == Lookup(root, SkillsDir(project) + [SNAPSHOTS_NAME])
    ensures ok ==> now == Kept(cuts, SkillsDir(project), m)
  {
    var skills := SkillsDir(project);
    var t := Graft(root, skills, Some(Dir(now)));
    hide Graft, Listed;
    FoundIsPlaceable(root, skills);
    LookupGraft(root, skills, Some(Dir(now)));
    SkillsOfSnapshot(root, project, id);
    assert SNAPSHOTS_NAME in Spared(cuts, skills, m) && SNAPSHOTS_NAME in now;
    LookupBelow(t, skills, [SNAPSHOTS_NAME, id]);
    LookupBelow(t, skills, [SNAPSHOTS_NAME]);
    LookupBelow(root, skills, [SNAPSHOTS_NAME]);
    assert [SNAPSHOTS_NAME, id][1..] == [id];
  }

  /** What success means, exactly: the restored tree came about just when the skills
      left behind are ones the snapshot replaces or that equal its own, and what was
      not read of the snapshot was there already. If the listing of the skills was
      complete, that is just when every directory of the snapshot was listed to its
      end. */
  lemma RestoredExactly(root: Node, cuts: Cuts, project: Path, id: Name)
    requires HasSnapshot(root, project, id)
    ensures Lookup(root, SkillsDir(project)).Some? && Lookup(root, SkillsDir(project)).value.Dir?
    ensures var from, stale := SnapshotDir(project, id),
                               Stale(cuts, SkillsDir(project), Lookup(root, SkillsDir(project)).value.entries);
            var snapshot := Lookup(root, from).value;
            && (AfterRollback(root, cuts, project, id) == RolledBack(root, project, id)
                <==> Refreshed(cuts, from, Some(Dir(stale)), snapshot))
            && (stale == map[] ==>
                  (AfterRollback(root, cuts, project, id) == RolledBack(root, project, id)
                   <==> Complete(cuts, from, snapshot)))
  {
    SkillsOfSnapshot(root, project, id);
    var skills, from := SkillsDir(project), SnapshotDir(project, id);
    var m, snapshot := Lookup(root, skills).value.entries, Lookup(root, from).value.entries;
    var stale, read := Stale(cuts, skills, m), ReadEntries(cuts, from, snapshot);
    var a, b := MergeEntries(Kept(cuts, skills, m), read), Restored(m, snapshot);
    FoundIsPlaceable(root, skills);
    LookupGraft(root, skills, Some(Dir(a)));
    LookupGraft(root, skills, Some(Dir(b)));
    assert AfterRollback(root, cuts, project, id) == Graft(root, skills, Some(Dir(a)));
    assert RolledBack(root, project, id) == Graft(root, skills, Some(Dir(b)));
    hide Graft, Lookup, Refreshed, Complete, Listed;
    BesideSnapshots(cuts, skills, from, m, snapshot);
    MergedIs(cuts, from, stale, snapshot);
    MergesToPruned(cuts, from, Some(Dir(stale)), Dir(snapshot));
    MergeFresh(AsRead(cuts, from, Dir(snapshot)));
    ReadsAll(cuts, from, Dir(snapshot));
  }

  /** `.snapshots` plays no part in the comparison. */
  lemma BesideSnapshots(cuts: Cuts, skills: Path, from: Path, m: map<Name, Node>, snapshot: map<Name, Node>)
    requires SNAPSHOTS_NAME in m
    ensures var read := ReadEntries(cuts, from, snapshot);
            MergeEntries(Kept(cuts, skills, m), read) == Restored(m, snapshot)
            <==> MergeEntries(Stale(cuts, skills, m), read) == PrunedEntries(snapshot)
  {
    hide Merge, Prune, AsRead, Listed;
    var read, pruned := ReadEntries(cuts, from, snapshot), PrunedEntries(snapshot);
    var kept, stale := Kept(cuts, skills, m), Stale(cuts, skills, m);
    var a, b := MergeEntries(kept, read), MergeEntries(stale, read);
    assert SNAPSHOTS_NAME !in b && SNAPSHOTS_NAME !in pruned;
    assert a == b[SNAPSHOTS_NAME := m[SNAPSHOTS_NAME]] by {
      assert a.Keys == b.Keys + {SNAPSHOTS_NAME};
      assert forall k | k in b :: Get(kept, k) == Get(stale, k);
    }
    assert a - {SNAPSHOTS_NAME} == b;
    assert Restored(m, snapshot) - {SNAPSHOTS_NAME} == pruned;
  }

  lemma MergedIs(cuts: Cuts, p: Path, base: map<Name, Node>, m: map<Name, Node>)
    ensures Merge(Some(Dir(base)), AsRead(cuts, p, Dir(m))) == Dir(MergeEntries(base, ReadEntries(cuts, p, m)))
    ensures Prune(Dir(m)) == Dir(PrunedEntries(m))
  {
  }

  /** With every listing complete a restore is what it promises, and it succeeds
      exactly on an acceptable id of a restorable snapshot. */
  lemma NoCutsNoMatter(root: Node, project: Path, id: Name)
    requires HasSnapshot(root, project, id)
    ensures AfterRollback(root, map[], project, id) == RolledBack(root, project, id)
    ensures Unobstructed(root, map[], project, id) && AllRefreshed(root, map[], project, id)
    ensures CanRestore(root, map[], project, id)
            <==> SnapshotIdOk(id) && Restorable(Lookup(root, SnapshotDir(project, id)).value)
  {
    SkillsOfSnapshot(root, project, id);
    var skills, from := SkillsDir(project), SnapshotDir(project, id);
    var m, snapshot := Lookup(root, skills).value.entries, Lookup(root, from).value.entries;
    NothingStale(skills, m);
    RestoredExactly(root, map[], project, id);
    NoCuts(from, Dir(snapshot));
    CanRestoreMeans(root, map[], project, id);
    AllRemovable(skills, m);
    NothingInTheWay(root, map[], project, id);
    hide Lookup, RemovableBut, Kept, Spared, Refreshed, Complete, Graft, SnapshotIdOk, AfterRollback, CanRestore,
         Unobstructed;
    FitsBesideSnapshots(from, Kept(map[], skills, m), snapshot);
  }

  /** If every skill was listed, nothing is left behind that could be in the way. */
  lemma NothingInTheWay(root: Node, cuts: Cuts, project: Path, id: Name)
    requires HasSnapshot(root, project, id) && Lookup(root, SkillsDir(project)).Some?
    requires Lookup(root, SkillsDir(project)).value.Dir?
    requires Stale(cuts, SkillsDir(project), Lookup(root, SkillsDir(project)).value.entries) == map[]
    ensures Unobstructed(root, cuts, project, id)
  {
    var skills, from := SkillsDir(project), SnapshotDir(project, id);
    SkillsOfSnapshot(root, project, id);
    var kept := Kept(cuts, skills, Lookup(root, skills).value.entries);
    var read := ReadEntries(cuts, from, Lookup(root, from).value.entries);
    assert forall k | k in kept :: k == SNAPSHOTS_NAME by {
      assert forall k | k in kept && k != SNAPSHOTS_NAME :: k in kept - {SNAPSHOTS_NAME};
    }
    hide Lookup, Kept, Spared;
    forall k | k in read ensures Safe(Get(kept, k), read[k]) {
      SafeFresh(read[k]);
    }
  }

  lemma NothingStale(p: Path, m: map<Name, Node>)
    ensures Stale(map[], p, m) == map[]
  {
  }

  lemma AllRemovable(p: Path, m: map<Name, Node>)
    ensures RemovableBut(map[], p, m, Spared(map[], p, m)) && Kept(map[], p, m).Keys <= {SNAPSHOTS_NAME}
  {
    forall k | k in m ensures Removable(map[], p + [k], m[k]) {
      NoCuts(p + [k], m[k]);
    }
  }

  lemma FitsBesideSnapshots(p: Path, base: map<Name, Node>, m: map<Name, Node>)
    requires base.Keys <= {SNAPSHOTS_NAME}
    ensures FitsBut(base, ReadEntries(map[], p, m), {}) <==> Restorable(Dir(m))
  {
    var read := ReadEntries(map[], p, m);
    forall k | k in m && k != SNAPSHOTS_NAME ensures k in read && (Fits(Get(base, k), read[k]) <==> Restorable(m[k])) {
      NoCuts(p + [k], m[k]);
      ReadsAll(map[], p + [k], m[k]);
      FitsFresh(m[k]);
    }
    hide Fits;
  }

  /** A restore can report success and have restored nothing: if reading the snapshot
      directory fails at once, the skills are cleared, no entry is copied, and that is
      taken for the end. */
  lemma EmptyRestoreSucceeds(root: Node, project: Path, id: Name, k: Name)
    requires SnapshotIdOk(id) && HasSnapshot(root, project, id) && k != SNAPSHOTS_NAME
    requires k in Lookup(root, SnapshotDir(project, id)).value.entries
    ensures var cuts := map[SnapshotDir(project, id) := {}];
            && CanRestore(root, cuts, project, id) && Unobstructed(root, cuts, project, id)
            && AfterRollback(root, cuts, project, id) != RolledBack(root, project, id)
            && Lookup(AfterRollback(root, cuts, project, id), SkillsDir(project) + [k]).None?
  {
    var skills, from := SkillsDir(project), SnapshotDir(project, id);
    var cuts: Cuts := map[from := {}];
    SkillsOfSnapshot(root, project, id);
    var m, snapshot := Lookup(root, skills).value.entries, Lookup(root, from).value.entries;
    var kept := Kept(cuts, skills, m);
    CanRestoreMeans(root, cuts, project, id);
    RestoredExactly(root, cuts, project, id);
    assert from != skills;
    assert kept.Keys == {SNAPSHOTS_NAME};
    assert ReadEntries(cuts, from, snapshot) == map[];
    assert MergeEntries(kept, map[]) == kept;
    FoundIsPlaceable(root, skills);
    LookupGraft(root, skills, Some(Dir(kept)));
    LookupEntry(Graft(root, skills, Some(Dir(kept))), skills, kept, k);
    assert Stale(cuts, skills, m) == map[];
    assert !Complete(cuts, from, Dir(snapshot));
    hide Graft, Lookup, SnapshotIdOk, AfterRollback, Complete, Refreshed, CanRestore;
    forall j | j in m && j != SNAPSHOTS_NAME ensures Removable(cuts, skills + [j], m[j]) {
      SourceApart(skills, from, j);
      RemovableApart(from, skills + [j], m[j]);
    }
  }

  /** A cut elsewhere does not keep a tree from being removed. */
  lemma {:induction false} RemovableApart(from: Path, p: Path, n: Node)
    requires Apart(p, from)
    ensures Removable(map[from := {}], p, n)
    decreases n
  {
    NotApartFromItself(p);
    match n
    case Dir(m) =>
      forall k | k in m ensures Removable(map[from := {}], p + [k], m[k]) {
        ApartBelow(p, from, [k], []);
        assert from + [] == from;
        RemovableApart(from, p + [k], m[k]);
      }
    case _ =>
  }

  /** And a skill can outlive a restore that reports success: if reading the skills
      directory fails at once, nothing is cleared. */
  lemma StaleSkillSurvives(root: Node, project: Path, id: Name, k: Name)
    requires SnapshotIdOk(id) && HasSnapshot(root, project, id) && k != SNAPSHOTS_NAME
    requires Lookup(root, SkillsDir(project) + [k]).Some? && k !in Lookup(root, SnapshotDir(project, id)).value.entries
    ensures var cuts := map[SkillsDir(project) := {}];
            && Lookup(AfterRollback(root, cuts, project, id), SkillsDir(project) + [k])
               == Lookup(root, SkillsDir(project) + [k])
            && AfterRollback(root, cuts, project, id) != RolledBack(root, project, id)
            && (CanRestore(root, cuts, project, id) <==>
                  Fits(Lookup(root, SkillsDir(project)), Prune(Lookup(root, SnapshotDir(project, id)).value)))
            && (Unobstructed(root, cuts, project, id) <==>
                  Safe(Lookup(root, SkillsDir(project)), Prune(Lookup(root, SnapshotDir(project, id)).value)))
  {
    var skills, from := SkillsDir(project), SnapshotDir(project, id);
    var cuts: Cuts := map[skills := {}];
    SkillsOfSnapshot(root, project, id);
    var m, snapshot := Lookup(root, skills).value.entries, Lookup(root, from).value.entries;
    CanRestoreMeans(root, cuts, project, id);
    RestoredExactly(root, cuts, project, id);
    LookupEntry(root, skills, m, k);
    assert Kept(cuts, skills, m) == m;
    assert k in Stale(cuts, skills, m);
    var read := ReadEntries(cuts, from, snapshot);
    ReadKeys(cuts, from, snapshot);
    var now := MergeEntries(m, read);
    assert now[k] == m[k];
    FoundIsPlaceable(root, skills);
    LookupGraft(root, skills, Some(Dir(now)));
    LookupEntry(Graft(root, skills, Some(Dir(now))), skills, now, k);
    assert RemovableBut(cuts, skills, m, Spared(cuts, skills, m));
    CompleteBelow(skills, from, Dir(snapshot));
    ReadsAll(cuts, from, Dir(snapshot));
    MergedIs(cuts, from, m, snapshot);
    assert Prune(Dir(snapshot)) == Dir(read);
    hide Graft, Lookup, SnapshotIdOk, AfterRollback, Complete, CanRestore;
  }

  /** Opening the place of a link that a restore left behind opens what it leads to. */
  lemma LinkIsFollowed(root: Node, project: Path, id: Name, k: Name, target: Path, data: Bytes)
    requires SnapshotIdOk(id) && HasSnapshot(root, project, id) && k != SNAPSHOTS_NAME
    requires Lookup(root, SnapshotDir(project, id)) == Some(Dir(map[k := File(data)]))
    requires Lookup(root, SkillsDir(project) + [k]) == Some(Link(target)) && target != [] && IsFileAt(root, target)
    ensures var cuts: Cuts := map[SkillsDir(project) := {}];
            var src, dst := SnapshotDir(project, id) + [k], SkillsDir(project) + [k];
            && OnlyCopies(root, cuts, project, id, k) && !Unobstructed(root, cuts, project, id)
            && Opens(root, src, dst)
            && AfterCopy(root, src, dst) == Graft(root, target, Some(File(if target == src then [] else data)))
            && Lookup(AfterCopy(root, src, dst), target) == Some(File(if target == src then [] else data))
  {
    var skills, from := SkillsDir(project), SnapshotDir(project, id);
    var cuts: Cuts := map[skills := {}];
    SkillsOfSnapshot(root, project, id);
    var m := Lookup(root, skills).value.entries;
    LookupEntry(root, skills, m, k);
    LookupEntry(root, from, map[k := File(data)], k);
    FoundIsPlaceable(root, skills + [k]);
    PlaceableIsStraight(root, skills + [k]);
    LinkOpens(root, skills + [k], target);
    FoundIsPlaceable(root, target);
    LookupGraft(root, target, Some(File(if target == from + [k] then [] else data)));
    var read := ReadEntries(cuts, from, map[k := File(data)]);
    assert from != skills;
    assert read == map[k := File(data)];
    var kept := Kept(cuts, skills, m);
    assert k in kept && kept[k] == Link(target);
    assert !Safe(Get(kept, k), read[k]);
    hide Graft, Lookup, SnapshotIdOk, Resolve, Placeable, Straight;
  }

  /** A restore can write outside the skills directory, or into a snapshot, and report
      success: if reading the skills directory fails at once, a link among the skills
      outlives the clearing, and the snapshot's file of its name is written to where it
      leads. If it leads to that very file, the snapshot's file is emptied. */
  method RestoreGoesAstray(root: Node, project: Path, id: Name, k: Name, target: Path, data: Bytes, deepest: nat)
      returns (fs: FileSystem, ok: bool)
    requires SnapshotIdOk(id) && HasSnapshot(root, project, id) && k != SNAPSHOTS_NAME
    requires Lookup(root, SnapshotDir(project, id)) == Some(Dir(map[k := File(data)]))
    requires Lookup(root, SkillsDir(project) + [k]) == Some(Link(target)) && target != [] && IsFileAt(root, target)
    requires Reachable(SkillsDir(project), SkillsNode(root, project), deepest)
    ensures fresh(fs) && ok
    ensures Lookup(fs.root, target) == Some(File(if target == SnapshotDir(project, id) + [k] then [] else data))
  {
    hide Graft, Lookup, SnapshotIdOk, Reachable, OnlyCopies, AfterCopy, Opens, Unobstructed, CanRestore, CanClear,
         Keeps, HasSnapshot;
    LinkIsFollowed(root, project, id, k, target, data);
    fs := new FileSystem(root, {}, map[], map[SkillsDir(project) := {}], deepest);
    ok := fs.RollbackSnapshot(Some(project), id);
  }

  /** A cut further up does not touch the listings below. */
  lemma {:induction false} CompleteBelow(skills: Path, p: Path, n: Node)
    requires skills < p
    ensures Complete(map[skills := {}], p, n)
    decreases n
  {
    match n
    case Dir(m) =>
      forall k | k in m ensures Complete(map[skills := {}], p + [k], m[k]) {
        CompleteBelow(skills, p + [k], m[k]);
      }
    case _ =>
  }

  /** Restoring the same snapshot a second time changes nothing. */
  lemma SecondRollbackChangesNothing(root: Node, project: Path, id: Name)
    requires HasSnapshot(root, project, id)
    ensures var once := RolledBack(root, project, id);
            HasSnapshot(once, project, id) && RolledBack(once, project, id) == once
  {
    var skills := SkillsDir(project);
    SkillsOfSnapshot(root, project, id);
    var m := Lookup(root, skills).value.entries;
    var snapshot := Lookup(root, SnapshotDir(project, id)).value.entries;
    var now := Restored(m, snapshot);
    var once := RolledBack(root, project, id);
    FoundIsPlaceable(root, skills);
    LookupGraft(root, skills, Some(Dir(now)));
    LookupBelow(once, skills, [SNAPSHOTS_NAME, id]);
    assert [SNAPSHOTS_NAME, id][1..] == [id];
    GraftTwice(root, skills, Some(Dir(now)), Some(Dir(now)));
    hide Graft, Prune;
  }

  /** What the skills directory holds after a restore: below any path that avoids
      `.snapshots` exactly what the snapshot holds there, pruned; below `.snapshots`
      exactly what was there; and everything apart from the directory is as it
      was. */
  lemma RestoredContents(root: Node, project: Path, id: Name, p: Path, q: Path)
    requires HasSnapshot(root, project, id) && p != [] && Apart(project + [".aimee", "skills"], q)
    ensures var once := RolledBack(root, project, id);
            var skills, from := project + [".aimee", "skills"], project + [".aimee", "skills", ".snapshots", id];
            && (".snapshots" !in p ==>
                  var s := Lookup(root, from + p);
                  Lookup(once, skills + p) == if s.None? then None else Some(Prune(s.value)))
            && (p[0] == ".snapshots" ==> Lookup(once, skills + p) == Lookup(root, skills + p))
            && Lookup(once, q) == Lookup(root, q)
  {
    assert SnapshotDir(project, id) == project + [".aimee", "skills", ".snapshots", id];
    var skills, from := SkillsDir(project), SnapshotDir(project, id);
    SkillsOfSnapshot(root, project, id);
    var m, snapshot := Lookup(root, skills).value.entries, Lookup(root, from).value.entries;
    var now := Restored(m, snapshot);
    var once := RolledBack(root, project, id);
    FoundIsPlaceable(root, skills);
    LookupGraft(root, skills, Some(Dir(now)));
    GraftApart(root, skills, Some(Dir(now)), q);
    LookupBelow(once, skills, p);
    LookupBelow(root, skills, p);
    LookupBelow(root, from, p);
    PruneAt(Dir(snapshot), p);
    hide Graft;
    if SNAPSHOTS_NAME !in p {
      assert p[0] != SNAPSHOTS_NAME;
      SameBelow(now, PrunedEntries(snapshot), p);
    } else if p[0] == SNAPSHOTS_NAME {
      SameBelow(now, m, p);
    }
  }

  lemma SameBelow(a: map<Name, Node>, b: map<Name, Node>, p: Path)
    requires p != [] && (p[0] in a <==> p[0] in b) && (p[0] in a ==> a[p[0]] == b[p[0]])
    ensures Lookup(Dir(a), p) == Lookup(Dir(b), p)
  {
  }
}
