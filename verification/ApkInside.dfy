/** When everything an extraction writes stays below the destination, with links followed. */
module ApkInside {
  import opened Common
  import opened FileTree
  import opened ApkEntries
  import opened ApkCache

  /** No step up. */
  predicate OnlyDown(components: seq<Component>) {
    forall i :: 0 <= i < |components| ==> components[i] != ParentDir
  }

  /** All steps up come before the first name, and there are at most `depth` of them. */
  predicate ClimbsFirst(components: seq<Component>, depth: nat) {
    if components == [] then true else
    match components[0]
    case ParentDir => depth > 0 && ClimbsFirst(components[1..], depth - 1)
    case CurrentDir => ClimbsFirst(components[1..], depth)
    case Normal(_) => OnlyDown(components[1..])
  }

  /** From `depth` levels below the destination, the target does not leave it. */
  predicate StaysBelow(target: LinkTarget, depth: nat) {
    !target.absolute && ClimbsFirst(target.components, depth)
  }

  /** Every link below the destination stays below it, read from where the link really is. */
  ghost predicate LinksInside(fs: Tree, destDir: Path) {
    forall q :: q in fs && destDir < q && fs[q].Link? ==> StaysBelow(fs[q].target, |q| - 1 - |destDir|)
  }

  /** The destination is a real directory, and links below it stay inside. */
  ghost predicate Contained(fs: Tree, destDir: Path) {
    WellFormed(fs) && IsDir(fs, destDir) && LinksInside(fs, destDir)
  }

  /** Nothing that is not below the destination differs. */
  ghost predicate SameOutside(a: Tree, b: Tree, destDir: Path) {
    forall p :: !(destDir < p) ==> (p in a <==> p in b) && (p in a ==> b[p] == a[p])
  }

  // ----- lookups -----

  lemma {:induction false} DownIsClimbsFirst(components: seq<Component>, depth: nat)
    requires OnlyDown(components)
    ensures ClimbsFirst(components, depth)
  {
    if components != [] && components[0] == CurrentDir {
      DownIsClimbsFirst(components[1..], depth);
    }
  }

  lemma {:induction false} ClimbsFirstAppend(xs: seq<Component>, ys: seq<Component>, depth: nat)
    requires ClimbsFirst(xs, depth) && OnlyDown(ys)
    ensures ClimbsFirst(xs + ys, depth)
  {
    if xs == [] {
      assert xs + ys == ys;
      DownIsClimbsFirst(ys, depth);
    } else {
      assert (xs + ys)[1..] == xs[1..] + ys;
      match xs[0]
      case ParentDir => ClimbsFirstAppend(xs[1..], ys, depth - 1);
      case CurrentDir => ClimbsFirstAppend(xs[1..], ys, depth);
      case Normal(_) =>
    }
  }

  /** A walk that starts below the destination and climbs no further than it stays there. */
  lemma {:induction false} WalkStaysInside(fs: Tree, at: Path, rest: seq<Component>, hops: nat, destDir: Path)
    requires LinksInside(fs, destDir) && destDir <= at && ClimbsFirst(rest, |at| - |destDir|)
    ensures Walk(fs, at, rest, hops).Some? ==> destDir <= Walk(fs, at, rest, hops).value.dir
    decreases hops, |rest|
  {
    if rest != [] {
      match rest[0]
      case CurrentDir => WalkStaysInside(fs, at, rest[1..], hops, destDir);
      case ParentDir => WalkStaysInside(fs, Parent(at), rest[1..], hops, destDir);
      case Normal(name) =>
        var q := at + [name];
        DownIsClimbsFirst(rest[1..], |q| - |destDir|);
        if q in fs && fs[q] == Dir {
          WalkStaysInside(fs, q, rest[1..], hops, destDir);
        } else if q in fs && fs[q].Link? && hops > 0 {
          var t := fs[q].target;
          ClimbsFirstAppend(t.components, rest[1..], |at| - |destDir|);
          WalkStaysInside(fs, at, t.components + rest[1..], hops - 1, destDir);
        }
    }
  }

  lemma {:induction false} NormalsGoDown(p: Path)
    ensures OnlyDown(Normals(p))
  {
    if p != [] {
      NormalsGoDown(Parent(p));
    }
  }

  lemma {:induction false} NormalsAppend(a: Path, b: Path)
    ensures Normals(a + b) == Normals(a) + Normals(b)
    decreases |b|
  {
    if b == [] {
      assert a + b == a;
    } else {
      assert Parent(a + b) == a + Parent(b);
      NormalsAppend(a, Parent(b));
    }
  }

  /** Every path below the destination leads below it. */
  lemma LookupStaysInside(fs: Tree, p: Path, destDir: Path)
    requires Contained(fs, destDir) && destDir <= p
    ensures LeadsToDir(fs, p) ==> destDir <= Lookup(fs, p).value.dir
  {
    var rest := p[|destDir|..];
    assert p == destDir + rest;
    NormalsAppend(destDir, rest);
    RealDir(fs, destDir);
    WalkAppend(fs, [], Normals(destDir), Normals(rest), MAX_LINKS);
    NormalsGoDown(rest);
    DownIsClimbsFirst(Normals(rest), 0);
    WalkStaysInside(fs, destDir, Normals(rest), MAX_LINKS, destDir);
  }

  lemma SiteStaysInside(fs: Tree, p: Path, destDir: Path)
    requires Contained(fs, destDir) && destDir < p
    ensures Site(fs, p).Some? ==> destDir < Site(fs, p).value
  {
    assert destDir <= Parent(p);
    LookupStaysInside(fs, Parent(p), destDir);
  }

  // ----- entries -----

  /** A change at one place below the destination that leaves no bad link there. */
  lemma ChangeInside(a: Tree, b: Tree, q: Path, destDir: Path)
    requires Contained(a, destDir) && WellFormed(b) && destDir < q && SameOff(a, b, q)
    requires forall p :: p in b && q <= p && b[p].Link? ==> p == q && StaysBelow(b[p].target, |q| - 1 - |destDir|)
    ensures Contained(b, destDir) && SameOutside(a, b, destDir)
  {
    hide WellFormed, StaysBelow;
    assert IsDir(b, destDir);
    forall p | p in b && destDir < p && b[p].Link?
      ensures StaysBelow(b[p].target, |p| - 1 - |destDir|)
    {
      if !(q <= p) {
        assert a[p] == b[p];
      }
    }
  }

  lemma PutDirInside(fs: Tree, p: Path, destDir: Path)
    requires Contained(fs, destDir) && destDir < p
    ensures Contained(Put(fs, p, Dir).0, destDir) && SameOutside(fs, Put(fs, p, Dir).0, destDir)
  {
    hide Lookup, LinksInside;
    PutKeeps(fs, p, Dir);
    if Put(fs, p, Dir).1 {
      SiteStaysInside(fs, p, destDir);
      NothingBelow(fs, Site(fs, p).value);
      ChangeInside(fs, Put(fs, p, Dir).0, Site(fs, p).value, destDir);
    }
  }

  lemma OutsideTransitive(a: Tree, b: Tree, c: Tree, destDir: Path)
    requires SameOutside(a, b, destDir) && SameOutside(b, c, destDir)
    ensures SameOutside(a, c, destDir)
  {
  }

  lemma DestinationLeads(fs: Tree, destDir: Path)
    requires Contained(fs, destDir)
    ensures LeadsToDir(fs, destDir)
  {
    RealDir(fs, destDir);
  }

  /** Directories are made below the destination. */
  lemma {:induction false} MakeInside(fs: Tree, p: Path, destDir: Path)
    requires Contained(fs, destDir) && destDir <= p
    ensures Contained(CreateDirAll(fs, p).0, destDir) && SameOutside(fs, CreateDirAll(fs, p).0, destDir)
    decreases |p|
  {
    hide Lookup, Contained, SameOutside, Put;
    DestinationLeads(fs, destDir);
    NothingOutside(fs, destDir);
    if !LeadsToDir(fs, p) {
      assert p != destDir;
      assert destDir <= Parent(p);
      MakeInside(fs, Parent(p), destDir);
      var (above, ok) := CreateDirAll(fs, Parent(p));
      if ok {
        PutDirInside(above, p, destDir);
        OutsideTransitive(fs, above, Put(above, p, Dir).0, destDir);
      }
    }
  }

  lemma NothingOutside(fs: Tree, destDir: Path)
    ensures SameOutside(fs, fs, destDir)
  {
  }

  /** Below anything but a directory there is nothing. */
  lemma NothingUnder(fs: Tree, q: Path)
    requires WellFormed(fs) && q in fs && fs[q] != Dir
    ensures forall p :: p in fs && q <= p ==> p == q
  {
    forall p | p in fs && q <= p
      ensures p == q
    {
      AncestorsAreDirs(fs, p, q);
    }
  }

  /** The place of the entry's link is where its path says, below the destination, and its target climbs first. */
  predicate PlainLink(fs: Tree, dest: Path, destDir: Path, target: LinkTarget) {
    destDir < dest && IsDir(fs, Parent(dest)) && ClimbsOnce(target.components)
  }

  /** No step up follows a name. */
  predicate ClimbsOnce(components: seq<Component>) {
    ClimbsFirst(components, |components|)
  }

  /** What the lexical test adds: the climb ends below the destination. */
  lemma {:induction false} SafeClimb(at: Path, components: seq<Component>, destDir: Path, depth: nat)
    requires destDir <= at && StaysInside(at, components, destDir) && ClimbsFirst(components, depth)
    ensures ClimbsFirst(components, |at| - |destDir|)
    decreases |components|
  {
    if components != [] {
      match components[0]
      case ParentDir => SafeClimb(Parent(at), components[1..], destDir, depth - 1);
      case CurrentDir => SafeClimb(at, components[1..], destDir, depth);
      case Normal(_) =>
    }
  }

  lemma UnpackInside(fs: Tree, dest: Path, data: seq<byte>, destDir: Path)
    requires Contained(fs, destDir) && destDir <= dest
    ensures Contained(Unpack(fs, dest, data).0, destDir) && SameOutside(fs, Unpack(fs, dest, data).0, destDir)
  {
    hide Lookup, LinksInside;
    var after := Unpack(fs, dest, data).0;
    UnpackMeans(fs, dest, data);
    if dest == destDir && dest != [] {
      RealDir(fs, Parent(dest));
      assert Parent(dest) + [Last(dest)] == dest;
    }
    if dest != destDir && Site(fs, dest).Some? && !IsDir(fs, Site(fs, dest).value) {
      SiteStaysInside(fs, dest, destDir);
      OnlyAt(after, Site(fs, dest).value);
      ChangeInside(fs, after, Site(fs, dest).value, destDir);
    }
  }

  lemma PlaceLinkInside(fs: Tree, dest: Path, target: LinkTarget, destDir: Path)
    requires Contained(fs, destDir) && PlainLink(fs, dest, destDir, target) && IsSafeLink(target, dest, destDir)
    ensures Contained(PlaceLink(fs, dest, target).0, destDir)
    ensures SameOutside(fs, PlaceLink(fs, dest, target).0, destDir)
  {
    var after := PlaceLink(fs, dest, target).0;
    PlainPlace(fs, dest);
    TargetStaysBelow(dest, target, destDir);
    PlaceLinkMeans(fs, dest, target);
    hide Lookup, LinksInside, PlaceLink, WellFormed, SameOff, StaysBelow, IsSafeLink, ClimbsOnce, SameOutside, Site;
    OnlyAt(after, dest);
    ChangeInside(fs, after, dest, destDir);
  }

  /** In a real directory, the place is where the path says. */
  lemma PlainPlace(fs: Tree, dest: Path)
    requires WellFormed(fs) && dest != [] && IsDir(fs, Parent(dest))
    ensures Site(fs, dest) == Some(dest)
  {
    RealDir(fs, Parent(dest));
    assert Parent(dest) + [Last(dest)] == dest;
  }

  lemma TargetStaysBelow(dest: Path, target: LinkTarget, destDir: Path)
    requires destDir < dest && IsSafeLink(target, dest, destDir) && ClimbsOnce(target.components)
    ensures StaysBelow(target, |dest| - 1 - |destDir|)
  {
    assert destDir <= Parent(dest);
    SafeClimb(Parent(dest), target.components, destDir, |target.components|);
  }

  /** A place that is free or no directory has nothing below it. */
  lemma OnlyAt(fs: Tree, q: Path)
    requires WellFormed(fs) && !IsDir(fs, q)
    ensures forall p :: p in fs && q <= p ==> p == q
  {
    if q in fs {
      NothingUnder(fs, q);
    } else {
      NothingBelow(fs, q);
    }
  }

  /** An accepted link entry puts a plain link. */
  predicate IsTame(s: Progress, created: set<Path>, destDir: Path, item: Item) {
    item.Entry? && Stripped(item.name).Some? && item.kind.Symlink? && item.kind.target.Some? ==>
      var dest := Destination(destDir, Stripped(item.name).value);
      IsSafeLink(item.kind.target.value, dest, destDir) ==>
        PlainLink(FindsTree(s, created, destDir, item), dest, destDir, item.kind.target.value)
  }

  lemma ParentInside(fs: Tree, created: set<Path>, dest: Path, destDir: Path)
    requires Contained(fs, destDir) && destDir <= dest
    ensures Contained(ParentMade(fs, created, dest), destDir) && SameOutside(fs, ParentMade(fs, created, dest), destDir)
  {
    hide Lookup, LinksInside;
    if dest == destDir {
      if dest != [] {
        RealDir(fs, Parent(dest));
      }
    } else {
      assert destDir <= Parent(dest);
      MakeInside(fs, Parent(dest), destDir);
    }
  }

  /** One entry, successful or not, changes nothing outside, and keeps links inside. */
  lemma EntryInside(s: Progress, created: set<Path>, destDir: Path, item: Item)
    requires Contained(s.fs, destDir) && IsTame(s, created, destDir, item)
    ensures var t := CachedEntry(s, created, destDir, item).0;
            Contained(t.fs, destDir) && SameOutside(s.fs, t.fs, destDir)
  {
    hide Stripped, CreateDirAll, Unpack, PlaceLink, IsSafeLink, Contained, PlainLink;
    if item.Unreadable? || Stripped(item.name).None? {
      return;
    }
    var dest := Destination(destDir, Stripped(item.name).value);
    var fs := ParentMade(s.fs, created, dest);
    ParentInside(s.fs, created, dest, destDir);
    match item.kind
    case Directory => MakeInside(fs, dest, destDir);
    case Symlink(Some(target)) =>
      if IsSafeLink(target, dest, destDir) {
        PlaceLinkInside(fs, dest, target, destDir);
      }
    case Regular(data) => UnpackInside(fs, dest, data, destDir);
    case _ =>
  }

  predicate AlwaysTame(s: Progress, created: set<Path>, destDir: Path, items: seq<Item>)
    decreases |items|
  {
    items != [] ==>
      IsTame(s, created, destDir, items[0]) &&
      var (t, created', ok) := CachedEntry(s, created, destDir, items[0]);
      ok ==> AlwaysTame(t, created', destDir, items[1..])
  }

  /** Everything an extraction writes, successful or not, stays below the destination when links are followed, if no
      link below the destination leads out at the start, every accepted link is placed where its path says, and no
      target climbs after a name. */
  lemma {:induction false} ExtractionStaysInside(s: Progress, created: set<Path>, destDir: Path, items: seq<Item>)
    requires Contained(s.fs, destDir) && AlwaysTame(s, created, destDir, items)
    ensures var t := CachedRun(s, created, destDir, items).0;
            Contained(t.fs, destDir) && SameOutside(s.fs, t.fs, destDir)
    decreases |items|
  {
    hide CachedEntry, Contained, IsTame;
    if items != [] {
      EntryInside(s, created, destDir, items[0]);
      var (t, created', ok) := CachedEntry(s, created, destDir, items[0]);
      if ok {
        ExtractionStaysInside(t, created', destDir, items[1..]);
      }
    }
  }

  // ----- why the lexical test alone does not say where a link leads -----

  const D: Path := ["d"]
  const L: Path := D + ["l"]
  const P: Path := D + ["p"]
  const Q: Path := P + ["q"]
  const DOWN := LinkTarget(false, [Normal("p"), Normal("q")])
  const UP := LinkTarget(false, [Normal("l"), ParentDir])
  const NESTED: Tree := map[[] := Dir, D := Dir, P := Dir, Q := Dir, L := Link(DOWN)]

  /** Beside a link to p/q, the target l/.. reads as the destination and leads to p. */
  lemma LexicalIsNotFollowed()
    ensures WellFormed(NESTED) && IsSafeLink(UP, D + ["m"], D)
    ensures Lexical(D, UP.components) == Some(D)
    ensures Walk(NESTED, D, UP.components, MAX_LINKS) == Some(Spot(P, MAX_LINKS - 1))
    ensures !ClimbsOnce(UP.components)
  {
    assert Parent(L) == Parent(P) == Parent(D + ["m"]) == D && Parent(Q) == P && Parent(D) == [];
    assert UP.components[1..] == [ParentDir] && [ParentDir][1..] == [];
    var rest := [Normal("q"), ParentDir];
    assert DOWN.components + [ParentDir] == [Normal("p")] + rest;
    assert ([Normal("p")] + rest)[1..] == rest && rest[1..] == [ParentDir];
    assert Walk(NESTED, Q, [ParentDir], MAX_LINKS - 1) == Some(Spot(P, MAX_LINKS - 1));
    assert Walk(NESTED, P, rest, MAX_LINKS - 1) == Some(Spot(P, MAX_LINKS - 1));
    assert Parent(L) == D && L == D + ["l"] && P == D + ["p"] && Q == P + ["q"];
    assert Parent(D + ["l"]) == D;
  }
}
