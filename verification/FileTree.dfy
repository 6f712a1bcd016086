/** Directory trees, what a path sees of them, and where it leads when links are
    followed. */
module FileTree {
  import opened Bytes
  import opened Wrappers

  type Name = string
  type Path = seq<Name>

  /** A file, a directory, a symbolic link with the path it leads to, or anything else
      that lstat can find: a device, a pipe, a socket. */
  datatype Node = File(data: Bytes) | Dir(entries: map<Name, Node>) | Link(target: Path) | Other

  function Lookup(n: Node, p: Path): (r: Option<Node>)
    ensures p == [] ==> r == Some(n)
    decreases |p|
  {
    if p == [] then Some(n)
    else if n.Dir? && p[0] in n.entries then Lookup(n.entries[p[0]], p[1..])
    else None
  }

  /** A directory's entries with one of them replaced, added or removed. */
  function WithEntry(m: map<Name, Node>, k: Name, o: Option<Node>): map<Name, Node> {
    if o.Some? then m[k := o.value] else m - {k}
  }

  /** The tree with `o` at `p` and everything else as it was; unchanged if `p` has
      no parent directory. */
  function Graft(n: Node, p: Path, o: Option<Node>): Node
    decreases |p|
  {
    if p == [] then (if o.Some? then o.value else n)
    else if !n.Dir? then n
    else if |p| == 1 then Dir(WithEntry(n.entries, p[0], o))
    else if p[0] in n.entries then Dir(n.entries[p[0] := Graft(n.entries[p[0]], p[1..], o)])
    else n
  }

  /** `p` names an entry of an existing directory, which may or may not be there. */
  predicate Placeable(n: Node, p: Path)
    decreases |p|
  {
    p != [] && n.Dir? && (|p| > 1 ==> p[0] in n.entries && Placeable(n.entries[p[0]], p[1..]))
  }

  lemma {:induction false} FoundIsPlaceable(n: Node, p: Path)
    requires p != [] && Lookup(n, p).Some?
    ensures Placeable(n, p)
    decreases |p|
  {
    if |p| > 1 {
      FoundIsPlaceable(n.entries[p[0]], p[1..]);
    }
  }

  lemma {:induction false} LookupGraft(n: Node, p: Path, o: Option<Node>)
    requires Placeable(n, p)
    ensures Lookup(Graft(n, p, o), p) == o
    decreases |p|
  {
    if |p| > 1 {
      LookupGraft(n.entries[p[0]], p[1..], o);
    }
  }

  lemma {:induction false} GraftTwice(n: Node, p: Path, a: Option<Node>, b: Option<Node>)
    requires Placeable(n, p)
    ensures Placeable(Graft(n, p, a), p) && Graft(Graft(n, p, a), p, b) == Graft(n, p, b)
    decreases |p|
  {
    if |p| > 1 {
      GraftTwice(n.entries[p[0]], p[1..], a, b);
    } else {
      assert WithEntry(WithEntry(n.entries, p[0], a), p[0], b) == WithEntry(n.entries, p[0], b);
    }
  }

  /** What is there can be put there. */
  lemma {:induction false} GraftSame(n: Node, p: Path)
    ensures Graft(n, p, Lookup(n, p)) == n
    decreases |p|
  {
    if p != [] && n.Dir? && p[0] in n.entries {
      GraftSame(n.entries[p[0]], p[1..]);
    }
  }

  /** Looking down a long path is looking down its two parts. */
  lemma {:induction false} LookupBelow(n: Node, p: Path, q: Path)
    ensures Lookup(n, p + q) == if Lookup(n, p).Some? then Lookup(Lookup(n, p).value, q) else None
    decreases |p|
  {
    if p == [] {
      assert p + q == q;
    } else {
      assert (p + q)[1..] == p[1..] + q;
      if n.Dir? && p[0] in n.entries {
        LookupBelow(n.entries[p[0]], p[1..], q);
      }
    }
  }

  /** Changing an entry of the directory at `p` changes the directory at `p`. */
  lemma {:induction false} GraftEntry(n: Node, p: Path, m: map<Name, Node>, k: Name, o: Option<Node>)
    requires Lookup(n, p) == Some(Dir(m))
    ensures Graft(n, p + [k], o) == Graft(n, p, Some(Dir(WithEntry(m, k, o))))
    decreases |p|
  {
    if p == [] {
      assert p + [k] == [k];
    } else {
      assert (p + [k])[1..] == p[1..] + [k];
      GraftEntry(n.entries[p[0]], p[1..], m, k, o);
    }
  }

  /** The same, for a directory just put there. */
  lemma EntryOfGraft(n: Node, p: Path, m: map<Name, Node>, k: Name, o: Option<Node>)
    requires Placeable(n, p)
    ensures Graft(Graft(n, p, Some(Dir(m))), p + [k], o) == Graft(n, p, Some(Dir(WithEntry(m, k, o))))
  {
    LookupGraft(n, p, Some(Dir(m)));
    GraftEntry(Graft(n, p, Some(Dir(m))), p, m, k, o);
    GraftTwice(n, p, Some(Dir(m)), Some(Dir(WithEntry(m, k, o))));
  }

  lemma LookupEntry(n: Node, p: Path, m: map<Name, Node>, k: Name)
    requires Lookup(n, p) == Some(Dir(m))
    ensures Lookup(n, p + [k]) == if k in m then Some(m[k]) else None
  {
    LookupBelow(n, p, [k]);
    assert [k][1..] == [];
  }

  /** Two paths part at some component, so neither is above the other. */
  predicate Apart(p: Path, q: Path)
    decreases |p|
  {
    p != [] && q != [] && (p[0] != q[0] || Apart(p[1..], q[1..]))
  }

  lemma {:induction false} ApartBelow(p: Path, q: Path, a: Path, b: Path)
    requires Apart(p, q)
    ensures Apart(p + a, q + b)
    decreases |p|
  {
    assert (p + a)[1..] == p[1..] + a && (q + b)[1..] == q[1..] + b;
    if p[0] == q[0] {
      ApartBelow(p[1..], q[1..], a, b);
    }
  }

  lemma {:induction false} NotApartFromItself(p: Path)
    ensures !Apart(p, p)
    decreases |p|
  {
    if p != [] {
      NotApartFromItself(p[1..]);
    }
  }

  lemma {:induction false} ApartUnder(p: Path, a: Path, b: Path)
    requires Apart(a, b)
    ensures Apart(p + a, p + b)
    decreases |p|
  {
    if p == [] {
      assert p + a == a && p + b == b;
    } else {
      ApartUnder(p[1..], a, b);
      assert (p + a)[1..] == p[1..] + a && (p + b)[1..] == p[1..] + b;
    }
  }

  /** A change at `p` is not seen from a path apart from it. */
  lemma {:induction false} GraftApart(n: Node, p: Path, o: Option<Node>, q: Path)
    requires Apart(p, q)
    ensures Lookup(Graft(n, p, o), q) == Lookup(n, q)
    decreases |p|
  {
    if n.Dir? && |p| > 1 && p[0] in n.entries && p[0] == q[0] {
      GraftApart(n.entries[p[0]], p[1..], o, q[1..]);
    }
  }

  // ----------------------------------------------------------- following links

  /** How many links the kernel follows in one path. */
  const MAX_HOPS: nat := 40

  /** Where a path leads: links on the way are followed, and the last component too if
      `follow` says so; nothing if the way is blocked or turns too often. */
  function Resolve(n: Node, at: Path, rest: Path, follow: bool, hops: nat): Option<Path>
    decreases hops, |rest|
  {
    if rest == [] then Some(at)
    else
      var here := Lookup(n, at + [rest[0]]);
      if here.Some? && here.value.Link? && (follow || |rest| > 1) then
        if hops == 0 then None else Resolve(n, [], here.value.target + rest[1..], follow, hops - 1)
      else if |rest| == 1 then Some(at + rest)
      else if here.Some? && here.value.Dir? then Resolve(n, at + [rest[0]], rest[1..], follow, hops)
      else None
  }

  /** Where mkdir makes a directory: it does not follow the last component. */
  function MadeAt(n: Node, p: Path): Option<Path> {
    Resolve(n, [], p, false, MAX_HOPS)
  }

  /** What opening a file for writing opens. */
  function OpenedAt(n: Node, p: Path): Option<Path> {
    Resolve(n, [], p, true, MAX_HOPS)
  }

  /** There is no link on the way to `p`; `p` itself may be one. */
  predicate Straight(n: Node, p: Path)
    decreases |p|
  {
    |p| > 1 && n.Dir? && p[0] in n.entries ==>
      !n.entries[p[0]].Link? && Straight(n.entries[p[0]], p[1..])
  }

  lemma {:induction false} PlaceableIsStraight(n: Node, p: Path)
    requires Placeable(n, p)
    ensures Straight(n, p)
    decreases |p|
  {
    if |p| > 1 {
      PlaceableIsStraight(n.entries[p[0]], p[1..]);
    }
  }

  /** A straight path leads to itself, if it leads anywhere. */
  lemma {:induction false} StraightLeads(n: Node, at: Path, d: Node, rest: Path, follow: bool, hops: nat)
    requires rest != [] && Lookup(n, at) == Some(d) && d.Dir? && Straight(d, rest)
    requires follow ==> (Lookup(d, rest).Some? ==> !Lookup(d, rest).value.Link?)
    ensures Resolve(n, at, rest, follow, hops) == if Placeable(d, rest) then Some(at + rest) else None
    decreases |rest|
  {
    LookupBelow(n, at, [rest[0]]);
    assert [rest[0]][1..] == [];
    if |rest| == 1 {
      assert rest == [rest[0]];
    } else if rest[0] in d.entries && d.entries[rest[0]].Dir? {
      StraightLeads(n, at + [rest[0]], d.entries[rest[0]], rest[1..], follow, hops);
      assert at + [rest[0]] + rest[1..] == at + rest;
    }
  }

  /** So mkdir and open go to the path they are given, if it can be placed. */
  lemma GoesStraight(n: Node, p: Path)
    requires p != [] && n.Dir? && Straight(n, p)
    ensures MadeAt(n, p) == if Placeable(n, p) then Some(p) else None
    ensures (Lookup(n, p).Some? ==> !Lookup(n, p).value.Link?) ==>
              OpenedAt(n, p) == if Placeable(n, p) then Some(p) else None
  {
    StraightLeads(n, [], n, p, false, MAX_HOPS);
    if Lookup(n, p).Some? ==> !Lookup(n, p).value.Link? {
      StraightLeads(n, [], n, p, true, MAX_HOPS);
    }
    assert [] + p == p;
  }

  /** A link to a file that is there, by a straight path, opens that file. */
  lemma LinkOpens(n: Node, p: Path, target: Path)
    requires Lookup(n, p) == Some(Link(target)) && p != [] && n.Dir? && Straight(n, p)
    requires target != [] && Lookup(n, target).Some? && Lookup(n, target).value.File?
    ensures OpenedAt(n, p) == Some(target)
  {
    FoundIsPlaceable(n, p);
    FoundIsPlaceable(n, target);
    PlaceableIsStraight(n, target);
    LinkLeads(n, [], n, p, target, MAX_HOPS);
    StraightLeads(n, [], n, target, true, MAX_HOPS - 1);
    assert [] + target == target;
  }

  lemma {:induction false} LinkLeads(n: Node, at: Path, d: Node, rest: Path, target: Path, hops: nat)
    requires rest != [] && Lookup(n, at) == Some(d) && d.Dir? && Straight(d, rest) && hops > 0
    requires Lookup(d, rest) == Some(Link(target))
    ensures Resolve(n, at, rest, true, hops) == Resolve(n, [], target, true, hops - 1)
    decreases |rest|
  {
    LookupBelow(n, at, [rest[0]]);
    assert [rest[0]][1..] == [];
    if |rest| == 1 {
      assert target + rest[1..] == target;
    } else {
      LinkLeads(n, at + [rest[0]], d.entries[rest[0]], rest[1..], target, hops);
    }
  }

  // ------------------------------------------------------------ what stays

  predicate Fixed(o: Option<Node>) {
    o.Some? && (o.value.Link? || o.value.Other?)
  }

  /** Every link, device, pipe and socket of `a` is still there in `b`. */
  ghost predicate Persists(a: Node, b: Node) {
    forall p: Path :: Fixed(Lookup(a, p)) ==> Lookup(b, p) == Lookup(a, p)
  }

  /** Away from `dst`, and from where strayed writes landed, `b` is as `a` was. */
  ghost predicate Keeps(a: Node, b: Node, dst: Path, landed: seq<Path>) {
    forall q: Path :: Apart(dst, q) && AwayFrom(q, landed) ==> Lookup(b, q) == Lookup(a, q)
  }

  ghost predicate AwayFrom(q: Path, landed: seq<Path>) {
    forall i :: 0 <= i < |landed| ==> Apart(landed[i], q)
  }

  /** A file or a directory put at a free place, or a file in place of a file, leaves
      everything else as it was. */
  lemma {:induction false} GraftPersists(n: Node, p: Path, x: Node, q: Path)
    requires Placeable(n, p) && (Lookup(n, p).Some? ==> Lookup(n, p).value.File?)
    requires Fixed(Lookup(n, q))
    ensures Lookup(Graft(n, p, Some(x)), q) == Lookup(n, q)
    decreases |p|
  {
    if |p| > 1 && q != [] && q[0] == p[0] {
      GraftPersists(n.entries[p[0]], p[1..], x, q[1..]);
    }
  }

  lemma WritePersists(n: Node, p: Path, x: Node)
    requires Placeable(n, p) && (Lookup(n, p).Some? ==> Lookup(n, p).value.File?)
    ensures Persists(n, Graft(n, p, Some(x)))
  {
    hide Lookup, Graft, Placeable, Fixed;
    forall q: Path | Fixed(Lookup(n, q)) ensures Lookup(Graft(n, p, Some(x)), q) == Lookup(n, q) {
      GraftPersists(n, p, x, q);
    }
  }

  lemma WriteKeeps(n: Node, p: Path, x: Node, dst: Path, landed: seq<Path>)
    requires p == dst || p in landed
    ensures Keeps(n, Graft(n, p, Some(x)), dst, landed)
  {
    hide Lookup, Graft;
    forall q: Path | Apart(dst, q) && AwayFrom(q, landed) ensures Lookup(Graft(n, p, Some(x)), q) == Lookup(n, q) {
      GraftApart(n, p, Some(x), q);
    }
  }

  lemma PersistsOn(a: Node, b: Node, c: Node)
    requires Persists(a, b) && Persists(b, c)
    ensures Persists(a, c)
  {
    hide Lookup;
  }

  /** A change below `dst`, after others, is a change at `dst`. */
  lemma KeepsOn(a: Node, b: Node, c: Node, dst: Path, child: Path, landed: seq<Path>, more: seq<Path>)
    requires Keeps(a, b, dst, landed) && Keeps(b, c, dst + child, more) && landed <= more
    ensures Keeps(a, c, dst, more)
  {
    hide Lookup, Apart;
    forall q: Path | Apart(dst, q) && AwayFrom(q, more) ensures Lookup(c, q) == Lookup(a, q) {
      ApartBelow(dst, q, child, []);
      assert q + [] == q;
      assert AwayFrom(q, landed) by {
        assert forall i :: 0 <= i < |landed| ==> landed[i] == more[i];
      }
    }
  }
}
