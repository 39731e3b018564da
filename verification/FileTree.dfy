/** A file system with symbolic links that are followed, and the few operations extraction uses. */
module FileTree {
  import opened Common

  /** An absolute path as its normal components; [] is the root. */
  type Path = seq<string>

  datatype Component = Normal(name: string) | ParentDir | CurrentDir

  datatype LinkTarget = LinkTarget(absolute: bool, components: seq<Component>)

  datatype Node = Dir | File(data: seq<byte>) | Link(target: LinkTarget)

  /** The objects and where they really are. */
  type Tree = map<Path, Node>

  /** How many links one lookup follows at most. */
  const MAX_LINKS := 40

  function Parent(p: Path): Path
    requires p != []
  {
    p[..|p| - 1]
  }

  function Last(p: Path): string
    requires p != []
  {
    p[|p| - 1]
  }

  /** Every object but the root sits in a directory. */
  ghost predicate WellFormed(fs: Tree) {
    [] in fs && fs[[]] == Dir && forall p :: p in fs && p != [] ==> Parent(p) in fs && fs[Parent(p)] == Dir
  }

  predicate IsDir(fs: Tree, p: Path) {
    p in fs && fs[p] == Dir
  }

  // ----- lookups -----

  /** The directory a lookup has come to, and how many links it may still follow. */
  datatype Spot = Spot(dir: Path, hops: nat)

  /** Follow `rest` from the directory `at`; None unless every step ends in a directory. */
  function Walk(fs: Tree, at: Path, rest: seq<Component>, hops: nat): Option<Spot>
    decreases hops, |rest|
  {
    if rest == [] then Some(Spot(at, hops)) else
    match rest[0]
    case CurrentDir => Walk(fs, at, rest[1..], hops)
    case ParentDir => Walk(fs, if at == [] then [] else Parent(at), rest[1..], hops)
    case Normal(name) =>
      var q := at + [name];
      if q !in fs then None else
      match fs[q]
      case Dir => Walk(fs, q, rest[1..], hops)
      case File(_) => None
      case Link(target) =>
        if hops == 0 then None
        else Walk(fs, if target.absolute then [] else at, target.components + rest[1..], hops - 1)
  }

  function Normals(p: Path): seq<Component> {
    if p == [] then [] else Normals(Parent(p)) + [Normal(Last(p))]
  }

  function Lookup(fs: Tree, p: Path): Option<Spot> {
    Walk(fs, [], Normals(p), MAX_LINKS)
  }

  /** `Path::is_dir`. */
  predicate LeadsToDir(fs: Tree, p: Path) {
    Lookup(fs, p).Some?
  }

  /** Where an object called `p` really is or would be. */
  function Site(fs: Tree, p: Path): Option<Path>
    requires p != []
  {
    match Lookup(fs, Parent(p))
    case None => None
    case Some(spot) => Some(spot.dir + [Last(p)])
  }

  // ----- operations -----

  /** mkdir, symlink, or open with O_CREAT and O_EXCL: the place must be free and its parent lead to a directory. */
  function Put(fs: Tree, p: Path, node: Node): (Tree, bool)
    requires p != []
  {
    match Site(fs, p)
    case None => (fs, false)
    case Some(q) => if q in fs then (fs, false) else (fs[q := node], true)
  }

  /** `create_dir_all`. */
  function CreateDirAll(fs: Tree, p: Path): (Tree, bool)
    decreases |p|
  {
    if LeadsToDir(fs, p) then (fs, true) else
    if p == [] then (fs, false) else
    var (above, ok) := CreateDirAll(fs, Parent(p));
    if ok then Put(above, p, Dir) else (above, false)
  }

  /** Nothing at or below `q` is left; no link below it is followed. */
  function Remove(fs: Tree, q: Path): Tree {
    map p | p in fs && !(q <= p) :: fs[p]
  }

  /** Unpacking a regular file: what is in its place is unlinked first, which fails for a directory. */
  function Unpack(fs: Tree, p: Path, data: seq<byte>): (Tree, bool) {
    if p == [] || Site(fs, p).None? then (fs, false) else
    var q := Site(fs, p).value;
    if IsDir(fs, q) then (fs, false) else Put(fs - {q}, p, File(data))
  }

  /** remove_file and remove_dir_all, then symlink. */
  function PlaceLink(fs: Tree, p: Path, target: LinkTarget): (Tree, bool) {
    if p == [] || Site(fs, p).None? then (fs, false) else Put(Remove(fs, Site(fs, p).value), p, Link(target))
  }

  // ----- lemmas about lookups -----

  /** Walking on is one longer walk. */
  lemma {:induction false} WalkAppend(fs: Tree, at: Path, xs: seq<Component>, ys: seq<Component>, hops: nat)
    ensures Walk(fs, at, xs + ys, hops) ==
            match Walk(fs, at, xs, hops) case None => None case Some(s) => Walk(fs, s.dir, ys, s.hops)
    decreases hops, |xs|
  {
    if xs == [] {
      assert xs + ys == ys;
    } else {
      assert (xs + ys)[1..] == xs[1..] + ys;
      match xs[0]
      case CurrentDir => WalkAppend(fs, at, xs[1..], ys, hops);
      case ParentDir => WalkAppend(fs, if at == [] then [] else Parent(at), xs[1..], ys, hops);
      case Normal(name) =>
        var q := at + [name];
        if q in fs && fs[q] == Dir {
          WalkAppend(fs, q, xs[1..], ys, hops);
        } else if q in fs && fs[q].Link? && hops > 0 {
          var t := fs[q].target;
          assert t.components + (xs[1..] + ys) == (t.components + xs[1..]) + ys;
          WalkAppend(fs, if t.absolute then [] else at, t.components + xs[1..], ys, hops - 1);
        }
    }
  }

  /** The last step of a lookup. */
  lemma LookupStep(fs: Tree, p: Path)
    requires p != []
    ensures Lookup(fs, p) ==
            match Lookup(fs, Parent(p)) case None => None case Some(s) => Walk(fs, s.dir, [Normal(Last(p))], s.hops)
  {
    WalkAppend(fs, [], Normals(Parent(p)), [Normal(Last(p))], MAX_LINKS);
  }

  /** One step by name, without a link. */
  lemma OneStep(fs: Tree, at: Path, name: string, hops: nat)
    ensures at + [name] !in fs ==> Walk(fs, at, [Normal(name)], hops) == None
    ensures IsDir(fs, at + [name]) ==> Walk(fs, at, [Normal(name)], hops) == Some(Spot(at + [name], hops))
  {
    assert [Normal(name)][1..] == [];
  }

  lemma {:induction false} WalkEndsInDir(fs: Tree, at: Path, rest: seq<Component>, hops: nat)
    requires WellFormed(fs) && IsDir(fs, at) && Walk(fs, at, rest, hops).Some?
    ensures IsDir(fs, Walk(fs, at, rest, hops).value.dir)
    decreases hops, |rest|
  {
    if rest != [] {
      match rest[0]
      case CurrentDir => WalkEndsInDir(fs, at, rest[1..], hops);
      case ParentDir => WalkEndsInDir(fs, if at == [] then [] else Parent(at), rest[1..], hops);
      case Normal(name) =>
        var q := at + [name];
        match fs[q]
        case Dir => WalkEndsInDir(fs, q, rest[1..], hops);
        case Link(t) => WalkEndsInDir(fs, if t.absolute then [] else at, t.components + rest[1..], hops - 1);
    }
  }

  lemma LookupEndsInDir(fs: Tree, p: Path)
    requires WellFormed(fs) && LeadsToDir(fs, p)
    ensures IsDir(fs, Lookup(fs, p).value.dir)
  {
    WalkEndsInDir(fs, [], Normals(p), MAX_LINKS);
  }

  /** Everything in `a` is in `b`, unchanged. */
  ghost predicate Extends(a: Tree, b: Tree) {
    forall p :: p in a ==> p in b && b[p] == a[p]
  }

  /** What a lookup found it still finds when objects are added. */
  lemma {:induction false} WalkGrows(a: Tree, b: Tree, at: Path, rest: seq<Component>, hops: nat)
    requires Extends(a, b) && Walk(a, at, rest, hops).Some?
    ensures Walk(b, at, rest, hops) == Walk(a, at, rest, hops)
    decreases hops, |rest|
  {
    if rest != [] {
      match rest[0]
      case CurrentDir => WalkGrows(a, b, at, rest[1..], hops);
      case ParentDir => WalkGrows(a, b, if at == [] then [] else Parent(at), rest[1..], hops);
      case Normal(name) =>
        var q := at + [name];
        match a[q]
        case Dir => WalkGrows(a, b, q, rest[1..], hops);
        case Link(t) => WalkGrows(a, b, if t.absolute then [] else at, t.components + rest[1..], hops - 1);
    }
  }

  lemma LookupGrows(a: Tree, b: Tree, p: Path)
    requires Extends(a, b) && LeadsToDir(a, p)
    ensures Lookup(b, p) == Lookup(a, p)
  {
    WalkGrows(a, b, [], Normals(p), MAX_LINKS);
  }

  /** A real directory is found where its path says. */
  lemma {:induction false} RealDir(fs: Tree, p: Path)
    requires WellFormed(fs) && IsDir(fs, p)
    ensures Lookup(fs, p) == Some(Spot(p, MAX_LINKS))
    decreases |p|
  {
    if p != [] {
      RealDir(fs, Parent(p));
      LookupStep(fs, p);
      assert Parent(p) + [Last(p)] == p;
      OneStep(fs, Parent(p), Last(p), MAX_LINKS);
    }
  }

  function Climbs(n: nat): seq<Component> {
    seq(n, _ => ParentDir)
  }

  lemma {:induction false} ClimbsWalk(fs: Tree, at: Path, n: nat, hops: nat)
    requires n <= |at|
    ensures Walk(fs, at, Climbs(n), hops) == Some(Spot(at[..|at| - n], hops))
  {
    if n == 0 {
      assert at[..|at|] == at;
    } else {
      assert Climbs(n)[1..] == Climbs(n - 1) && Parent(at)[..|at| - n] == at[..|at| - n];
      ClimbsWalk(fs, Parent(at), n - 1, hops);
    }
  }

  lemma {:induction false} DownWalk(fs: Tree, base: Path, down: Path, hops: nat)
    requires WellFormed(fs) && IsDir(fs, base + down)
    ensures Walk(fs, base, Normals(down), hops) == Some(Spot(base + down, hops))
    decreases |down|
  {
    if down == [] {
      assert base + down == base;
    } else {
      assert Parent(base + down) == base + Parent(down) && base + Parent(down) + [Last(down)] == base + down;
      DownWalk(fs, base, Parent(down), hops);
      WalkAppend(fs, base, Normals(Parent(down)), [Normal(Last(down))], hops);
      OneStep(fs, base + Parent(down), Last(down), hops);
    }
  }

  /** A lookup that ends at a link walks on along its target. */
  lemma LinkIsFollowed(fs: Tree, p: Path, target: LinkTarget)
    requires WellFormed(fs) && p != [] && p in fs && fs[p] == Link(target)
    ensures Lookup(fs, p) == Walk(fs, if target.absolute then [] else Parent(p), target.components, MAX_LINKS - 1)
  {
    RealDir(fs, Parent(p));
    LookupStep(fs, p);
    hide Lookup, WellFormed;
    assert Parent(p) + [Last(p)] == p && [Normal(Last(p))][1..] == [] && target.components + [] == target.components;
  }

  lemma UpAndDown(fs: Tree, at: Path, up: nat, down: Path, hops: nat)
    requires WellFormed(fs) && up <= |at| && IsDir(fs, at[..|at| - up] + down)
    ensures Walk(fs, at, Climbs(up) + Normals(down), hops) == Some(Spot(at[..|at| - up] + down, hops))
  {
    ClimbsWalk(fs, at, up, hops);
    WalkAppend(fs, at, Climbs(up), Normals(down), hops);
    DownWalk(fs, at[..|at| - up], down, hops);
    hide Walk, WellFormed, Normals, Climbs;
  }

  /** Where a link leads: an absolute target is read from the root, any other from the directory the link is in, with
      one directory up for every "..". */
  lemma LinkLeads(fs: Tree, p: Path, target: LinkTarget, up: nat, down: Path)
    requires WellFormed(fs) && p != [] && p in fs && fs[p] == Link(target)
    requires up <= (if target.absolute then 0 else |p| - 1) && target.components == Climbs(up) + Normals(down)
    requires IsDir(fs, (if target.absolute then [] else p[..|p| - 1 - up]) + down)
    ensures Lookup(fs, p) == Some(Spot((if target.absolute then [] else p[..|p| - 1 - up]) + down, MAX_LINKS - 1))
  {
    LinkIsFollowed(fs, p, target);
    hide Walk, Lookup, WellFormed, Normals, Climbs;
    var at := if target.absolute then [] else Parent(p);
    assert at[..|at| - up] == if target.absolute then [] else p[..|p| - 1 - up];
    UpAndDown(fs, at, up, down, MAX_LINKS - 1);
  }

  // ----- lemmas about operations -----

  lemma PutKeeps(fs: Tree, p: Path, node: Node)
    requires WellFormed(fs) && p != []
    ensures var (after, ok) := Put(fs, p, node);
            && WellFormed(after) && Extends(fs, after)
            && (!ok ==> after == fs)
            && (ok ==> Site(fs, p).value !in fs && after == fs[Site(fs, p).value := node])
  {
    if Put(fs, p, node).1 {
      LookupEndsInDir(fs, Parent(p));
      AddKeeps(fs, Lookup(fs, Parent(p)).value.dir, Last(p), node);
    }
  }

  lemma AddKeeps(fs: Tree, dir: Path, name: string, node: Node)
    requires WellFormed(fs) && IsDir(fs, dir) && dir + [name] !in fs
    ensures WellFormed(fs[dir + [name] := node]) && Extends(fs, fs[dir + [name] := node])
  {
    var q := dir + [name];
    assert Parent(q) == dir;
  }

  /** A place for `p` is free. */
  ghost predicate IsFree(fs: Tree, p: Path)
    requires p != []
  {
    Site(fs, p).Some? && Site(fs, p).value !in fs
  }

  /** The directory `p` leads to is empty. */
  ghost predicate IsEmptyDir(fs: Tree, p: Path) {
    LeadsToDir(fs, p) && forall name :: Lookup(fs, p).value.dir + [name] !in fs
  }

  /** create_dir_all changes nothing if it fails or if there is nothing to do; otherwise it adds objects, and `p` leads
      to a directory that is new and empty. */
  lemma {:induction false} CreateDirAllMeans(fs: Tree, p: Path)
    requires WellFormed(fs)
    ensures var (after, ok) := CreateDirAll(fs, p);
            && WellFormed(after) && Extends(fs, after)
            && (ok <==> LeadsToDir(after, p))
            && (!ok || LeadsToDir(fs, p) ==> after == fs)
            && (ok && !LeadsToDir(fs, p) ==> IsEmptyDir(after, p))
    decreases |p|
  {
    hide Lookup;
    if !LeadsToDir(fs, p) {
      RootLeads(fs);
      var up := Parent(p);
      CreateDirAllMeans(fs, up);
      var (above, made) := CreateDirAll(fs, up);
      if made {
        var (after, ok) := Put(above, p, Dir);
        PutKeeps(above, p, Dir);
        if ok {
          MadeDirIsEmpty(above, p);
        } else {
          TakenPlace(fs, above, p);
        }
      }
    }
  }

  lemma RootLeads(fs: Tree)
    ensures LeadsToDir(fs, [])
  {
  }

  lemma MadeDirIsEmpty(fs: Tree, p: Path)
    requires WellFormed(fs) && p != [] && Put(fs, p, Dir).1
    ensures IsEmptyDir(Put(fs, p, Dir).0, p)
  {
    var after := Put(fs, p, Dir).0;
    var q := Site(fs, p).value;
    PutKeeps(fs, p, Dir);
    LookupGrows(fs, after, Parent(p));
    LookupStep(after, p);
    OneStep(after, Lookup(fs, Parent(p)).value.dir, Last(p), Lookup(fs, Parent(p)).value.hops);
    forall name: string
      ensures q + [name] !in after
    {
      assert Parent(q + [name]) == q;
    }
  }

  /** If the place is taken after making the parent, the parent was there before. */
  lemma TakenPlace(fs: Tree, above: Tree, p: Path)
    requires p != [] && LeadsToDir(above, Parent(p)) && !Put(above, p, Dir).1
    requires !LeadsToDir(fs, Parent(p)) ==> IsEmptyDir(above, Parent(p))
    ensures LeadsToDir(fs, Parent(p))
  {
  }

  /** A path that leads to a directory has a parent that does; one in an empty directory does not. */
  lemma ParentLeads(fs: Tree, p: Path)
    requires p != []
    ensures LeadsToDir(fs, p) ==> LeadsToDir(fs, Parent(p))
    ensures IsEmptyDir(fs, Parent(p)) ==> !LeadsToDir(fs, p) && IsFree(fs, p)
  {
    LookupStep(fs, p);
    if IsEmptyDir(fs, Parent(p)) {
      var s := Lookup(fs, Parent(p)).value;
      OneStep(fs, s.dir, Last(p), s.hops);
    }
  }

  /** Making the parent first makes no difference. */
  lemma ParentFirst(fs: Tree, p: Path)
    requires WellFormed(fs) && p != []
    ensures var (above, made) := CreateDirAll(fs, Parent(p));
            if made then CreateDirAll(above, p) == CreateDirAll(fs, p) else CreateDirAll(fs, p) == (fs, false)
  {
    hide Lookup, Put;
    var (above, made) := CreateDirAll(fs, Parent(p));
    CreateDirAllMeans(fs, Parent(p));
    ParentLeads(fs, p);
    ParentLeads(above, p);
  }

  lemma RemoveKeeps(fs: Tree, q: Path)
    requires WellFormed(fs) && q != []
    ensures WellFormed(Remove(fs, q)) && Extends(Remove(fs, q), fs)
  {
    var after := Remove(fs, q);
    forall r | r in after && r != []
      ensures Parent(r) in after && after[Parent(r)] == Dir
    {
      assert q <= Parent(r) ==> q <= r;
    }
  }

  lemma UnlinkKeeps(fs: Tree, q: Path)
    requires WellFormed(fs) && !IsDir(fs, q)
    ensures WellFormed(fs - {q}) && Extends(fs - {q}, fs)
  {
  }

  // ----- what an operation on one place leaves alone -----

  /** The trees agree except at and below `q`. */
  ghost predicate SameOff(a: Tree, b: Tree, q: Path) {
    forall p :: !(q <= p) ==> (p in a <==> p in b) && (p in a ==> b[p] == a[p])
  }

  /** Clearing a place and putting something there: everything else stays, and the object is at that very place. */
  lemma PutAfterClearing(fs: Tree, cleared: Tree, p: Path, node: Node)
    requires WellFormed(fs) && WellFormed(cleared) && p != [] && Site(fs, p).Some?
    requires Extends(cleared, fs) && SameOff(fs, cleared, Site(fs, p).value)
    ensures var q := Site(fs, p).value;
            var (after, ok) := Put(cleared, p, node);
            && WellFormed(after) && SameOff(fs, after, q)
            && (ok ==> Site(cleared, p) == Some(q) && after == cleared[q := node])
            && (!ok ==> after == cleared)
  {
    PutKeeps(cleared, p, node);
    if Put(cleared, p, node).1 {
      LookupGrows(cleared, fs, Parent(p));
    }
    hide Lookup;
  }

  lemma UnpackMeans(fs: Tree, p: Path, data: seq<byte>)
    requires WellFormed(fs)
    ensures var (after, ok) := Unpack(fs, p, data);
            && WellFormed(after)
            && (p == [] || Site(fs, p).None? ==> !ok && after == fs)
            && (p != [] && Site(fs, p).Some? ==> SameOff(fs, after, Site(fs, p).value))
            && (ok ==> Site(fs, p).value in after)
            && (p != [] && Site(fs, p).Some? ==>
                  if IsDir(fs, Site(fs, p).value) then !ok && after == fs
                  else Site(fs, p).value in after ==> after[Site(fs, p).value] == File(data))
  {
    if p != [] && Site(fs, p).Some? {
      var q := Site(fs, p).value;
      if !IsDir(fs, q) {
        UnlinkKeeps(fs, q);
        PutAfterClearing(fs, fs - {q}, p, File(data));
      }
    }
  }

  lemma PlaceLinkMeans(fs: Tree, p: Path, target: LinkTarget)
    requires WellFormed(fs)
    ensures var (after, ok) := PlaceLink(fs, p, target);
            && WellFormed(after)
            && (p == [] || Site(fs, p).None? ==> !ok && after == fs)
            && (p != [] && Site(fs, p).Some? ==> SameOff(fs, after, Site(fs, p).value))
            && (ok ==> Site(fs, p).value in after)
            && (p != [] && Site(fs, p).Some? && Site(fs, p).value in after ==>
                  after[Site(fs, p).value] == Link(target))
  {
    if p != [] && Site(fs, p).Some? {
      var q := Site(fs, p).value;
      RemoveKeeps(fs, q);
      PutAfterClearing(fs, Remove(fs, q), p, Link(target));
    }
  }

  /** In a free place in an empty directory both work. */
  lemma FreePlaceTakes(fs: Tree, p: Path, data: seq<byte>, target: LinkTarget)
    requires WellFormed(fs) && p != [] && IsFree(fs, p)
    ensures Unpack(fs, p, data).1 && PlaceLink(fs, p, target).1
  {
    var q := Site(fs, p).value;
    assert fs - {q} == fs;
    NothingBelow(fs, q);
    assert Remove(fs, q) == fs;
  }

  lemma {:induction false} NothingBelow(fs: Tree, q: Path)
    requires WellFormed(fs) && q !in fs
    ensures forall p :: p in fs ==> !(q <= p)
  {
    forall p | p in fs
      ensures !(q <= p)
    {
      if q <= p {
        AncestorsAreDirs(fs, p, q);
      }
    }
  }

  /** Below a directory everything on the way is a directory. */
  lemma {:induction false} AncestorsAreDirs(fs: Tree, p: Path, q: Path)
    requires WellFormed(fs) && p in fs && q <= p
    ensures q in fs && (q != p ==> IsDir(fs, q))
    decreases |p|
  {
    if q != p {
      AncestorsAreDirs(fs, Parent(p), q);
    }
  }
}
