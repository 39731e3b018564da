/** Exactly when the cache of created directories changes what an extraction does, and when it stays accurate. */
module ApkCache {
  import opened Common
  import opened FileTree
  import opened ApkEntries

  // ----- one entry -----

  /** An entry relies on a cached directory that is not there, where asking for it would have made a difference. */
  predicate TrustsStale(item: Item, created: set<Path>, fs: Tree, destDir: Path) {
    item.Entry? && Stripped(item.name).Some? &&
    var dest := Destination(destDir, Stripped(item.name).value);
    dest != [] &&
    var up := Parent(dest);
    if item.kind.Directory? then
      dest in created && !LeadsToDir(fs, dest) && (up in created || CreateDirAll(fs, up).1)
    else
      up in created && !LeadsToDir(fs, up) && (item.kind == Symlink(None) || CreateDirAll(fs, up).1)
  }

  /** Without a parent no object is placed. */
  lemma PlaceUnreached(s: Progress, destDir: Path, dest: Path, kind: Kind)
    requires !kind.Directory? && dest != [] && !LeadsToDir(s.fs, Parent(dest))
    ensures kind == Symlink(None) || Place(s, destDir, dest, kind) == (s, false)
  {
  }

  /** In a new parent an object is placed, or refused without a trace. */
  lemma PlaceInEmptyDir(s: Progress, destDir: Path, dest: Path, kind: Kind)
    requires WellFormed(s.fs) && !kind.Directory? && dest != [] && IsEmptyDir(s.fs, Parent(dest))
    ensures var (t, ok) := Place(s, destDir, dest, kind);
            ok || t.fs == s.fs
  {
    ParentLeads(s.fs, dest);
    match kind
    case Symlink(Some(target)) => FreePlaceTakes(s.fs, dest, [], target);
    case Regular(data) => FreePlaceTakes(s.fs, dest, data, LinkTarget(false, []));
    case _ =>
  }

  /** A directory entry. */
  lemma DirectoryAgreesIff(s: Progress, created: set<Path>, destDir: Path, item: Item)
    requires WellFormed(s.fs) && item.Entry? && Stripped(item.name).Some? && item.kind.Directory?
    ensures var (t, _, ok) := CachedEntry(s, created, destDir, item);
            PlainEntry(s, destDir, item) == (t, ok) <==> !TrustsStale(item, created, s.fs, destDir)
  {
    hide Stripped, Destination, Lookup, Put, Uncached, IsEmptyDir;
    var dest := Destination(destDir, Stripped(item.name).value);
    if dest == [] {
      RootLeads(s.fs);
    } else {
      var up := Parent(dest);
      var (above, made) := CreateDirAll(s.fs, up);
      CreateDirAllMeans(s.fs, up);
      CreateDirAllMeans(s.fs, dest);
      CreateDirAllMeans(above, dest);
      ParentFirst(s.fs, dest);
      ParentLeads(s.fs, dest);
      ParentLeads(above, dest);
      assert dest in created + Uncached(created, up) <==> dest in created;
    }
  }

  /** Any other entry. */
  lemma PlacingAgreesIff(s: Progress, created: set<Path>, destDir: Path, item: Item)
    requires WellFormed(s.fs) && item.Entry? && Stripped(item.name).Some? && !item.kind.Directory?
    ensures var (t, _, ok) := CachedEntry(s, created, destDir, item);
            PlainEntry(s, destDir, item) == (t, ok) <==> !TrustsStale(item, created, s.fs, destDir)
  {
    hide Stripped, Destination, Lookup, Put, Uncached, IsEmptyDir, Place;
    var dest := Destination(destDir, Stripped(item.name).value);
    if dest != [] && Parent(dest) in created {
      var up := Parent(dest);
      var (above, made) := CreateDirAll(s.fs, up);
      CreateDirAllMeans(s.fs, up);
      if !LeadsToDir(s.fs, up) {
        PlaceUnreached(s, destDir, dest, item.kind);
        if made {
          PlaceInEmptyDir(s.(fs := above), destDir, dest, item.kind);
        }
        if item.kind == Symlink(None) {
          PlaceNothing(s, destDir, dest);
          PlaceNothing(s.(fs := above), destDir, dest);
        }
      }
    }
  }

  lemma PlaceNothing(s: Progress, destDir: Path, dest: Path)
    ensures Place(s, destDir, dest, Symlink(None)) == (s, true)
  {
  }

  /** Exactly when one cached entry does what an entry that calls create_dir_all every time does. */
  lemma EntryAgreesIff(s: Progress, created: set<Path>, destDir: Path, item: Item)
    requires WellFormed(s.fs)
    ensures var (t, _, ok) := CachedEntry(s, created, destDir, item);
            PlainEntry(s, destDir, item) == (t, ok) <==> !TrustsStale(item, created, s.fs, destDir)
  {
    hide Stripped;
    if item.Entry? && Stripped(item.name).Some? {
      if item.kind.Directory? {
        DirectoryAgreesIff(s, created, destDir, item);
      } else {
        PlacingAgreesIff(s, created, destDir, item);
      }
    }
  }

  lemma PlaceKeepsTree(s: Progress, destDir: Path, dest: Path, kind: Kind)
    requires WellFormed(s.fs) && !kind.Directory?
    ensures WellFormed(Place(s, destDir, dest, kind).0.fs)
  {
    match kind
    case Symlink(Some(target)) => PlaceLinkMeans(s.fs, dest, target);
    case Regular(data) => UnpackMeans(s.fs, dest, data);
    case _ =>
  }

  lemma EntryKeepsTree(s: Progress, created: set<Path>, destDir: Path, item: Item)
    requires WellFormed(s.fs)
    ensures WellFormed(CachedEntry(s, created, destDir, item).0.fs)
  {
    hide Stripped, Destination, Place, CreateDirAll, WellFormed;
    if item.Unreadable? || Stripped(item.name).None? {
      return;
    }
    var dest := Destination(destDir, Stripped(item.name).value);
    var fs := s.fs;
    if dest != [] && Parent(dest) !in created {
      CreateDirAllMeans(s.fs, Parent(dest));
      fs := CreateDirAll(s.fs, Parent(dest)).0;
    }
    CreateDirAllMeans(fs, dest);
    if !item.kind.Directory? {
      PlaceKeepsTree(s.(fs := fs), destDir, dest, item.kind);
    }
  }

  // ----- whole runs -----

  /** No entry that the run gets to relies on a cached directory that is not there. */
  predicate NeverTrustsStale(s: Progress, created: set<Path>, destDir: Path, items: seq<Item>)
    decreases |items|
  {
    items == [] ||
    (!TrustsStale(items[0], created, s.fs, destDir) &&
     var (t, created', ok) := CachedEntry(s, created, destDir, items[0]);
     ok ==> NeverTrustsStale(t, created', destDir, items[1..]))
  }

  /** After these entries the extractions with and without the cache have the same tree, lists and result. */
  predicate SameAfter(s: Progress, created: set<Path>, destDir: Path, items: seq<Item>) {
    var (t, _, ok) := CachedRun(s, created, destDir, items);
    PlainRun(s, destDir, items) == (t, ok)
  }

  /** After every entry. */
  ghost predicate AlwaysSame(s: Progress, created: set<Path>, destDir: Path, items: seq<Item>) {
    forall k :: 0 <= k <= |items| ==> SameAfter(s, created, destDir, items[..k])
  }

  /** Exactly when the cache changes nothing: extraction with the cache has the same tree, lists and result after
      every entry as extraction that calls create_dir_all for every entry, if and only if no entry that it gets to
      relies on a cached directory that is not there. */
  lemma {:induction false} CachedRunAgreesIff(s: Progress, created: set<Path>, destDir: Path, items: seq<Item>)
    requires WellFormed(s.fs)
    ensures AlwaysSame(s, created, destDir, items) <==> NeverTrustsStale(s, created, destDir, items)
    decreases |items|
  {
    if items != [] {
      var (t, created', ok) := CachedEntry(s, created, destDir, items[0]);
      EntryAgreesIff(s, created, destDir, items[0]);
      EntryKeepsTree(s, created, destDir, items[0]);
      hide CachedEntry, PlainEntry, TrustsStale, SameAfter;
      FirstOfRun(s, created, destDir, items, 0);
      FirstOfRun(s, created, destDir, items, 1);
      if ok && PlainEntry(s, destDir, items[0]) == (t, ok) {
        CachedRunAgreesIff(t, created', destDir, items[1..]);
        forall k | 0 < k <= |items|
          ensures SameAfter(s, created, destDir, items[..k]) <==> SameAfter(t, created', destDir, items[1..][..k - 1])
        {
          FirstOfRun(s, created, destDir, items, k);
        }
        if AlwaysSame(s, created, destDir, items) {
          forall k | 0 <= k <= |items[1..]|
            ensures SameAfter(t, created', destDir, items[1..][..k])
          {
            assert SameAfter(s, created, destDir, items[..k + 1]);
          }
        }
      } else {
        forall k | 0 < k <= |items|
          ensures !ok && PlainEntry(s, destDir, items[0]) == (t, ok) ==> SameAfter(s, created, destDir, items[..k])
        {
          FirstOfRun(s, created, destDir, items, k);
        }
      }
    } else {
      assert items[..0] == [];
    }
  }

  /** A run begins with its first entry. */
  lemma FirstOfRun(s: Progress, created: set<Path>, destDir: Path, items: seq<Item>, k: nat)
    requires k <= |items| && items != []
    ensures k == 0 ==> SameAfter(s, created, destDir, items[..k])
    ensures var (t, created', ok) := CachedEntry(s, created, destDir, items[0]);
            var same := PlainEntry(s, destDir, items[0]) == (t, ok);
            && (k == 1 ==> (SameAfter(s, created, destDir, items[..k]) <==> same))
            && (k > 0 && same && !ok ==> SameAfter(s, created, destDir, items[..k]))
            && (k > 0 && same && ok ==>
                  (SameAfter(s, created, destDir, items[..k]) <==>
                   SameAfter(t, created', destDir, items[1..][..k - 1])))
  {
    hide CachedEntry, PlainEntry;
    if k == 0 {
      assert items[..k] == [];
    } else {
      assert items[..k][0] == items[0] && items[..k][1..] == items[1..][..k - 1];
      if k == 1 {
        var (t, created', ok) := CachedEntry(s, created, destDir, items[0]);
        assert items[..k][1..] == [];
        assert CachedRun(t, created', destDir, []) == (t, created', true);
        assert PlainRun(PlainEntry(s, destDir, items[0]).0, destDir, []) == (PlainEntry(s, destDir, items[0]).0, true);
      }
    }
  }

  // ----- what the cache holds -----

  /** Closed under parents, down to the destination. */
  ghost predicate Closed(created: set<Path>, destDir: Path) {
    destDir in created && forall p :: p in created && p != destDir && p != [] ==> Parent(p) in created
  }

  /** Every cached path leads to a directory. */
  ghost predicate Accurate(created: set<Path>, fs: Tree) {
    forall p :: p in created ==> LeadsToDir(fs, p)
  }

  lemma {:induction false} UncachedContains(created: set<Path>, p: Path)
    ensures p in created + Uncached(created, p)
    ensures forall q :: q in Uncached(created, p) && q != [] ==> Parent(q) in created + Uncached(created, p)
    decreases |p|
  {
    if p !in created && p != [] {
      UncachedContains(created, Parent(p));
    }
  }

  lemma StartIsClosed(destDir: Path)
    ensures Closed({destDir}, destDir)
  {
  }

  /** The ancestor walk of every entry ends at a cached path and leaves the cache closed. */
  lemma EntryKeepsClosed(s: Progress, created: set<Path>, destDir: Path, item: Item)
    requires Closed(created, destDir)
    ensures Closed(CachedEntry(s, created, destDir, item).1, destDir)
  {
    hide Stripped, Destination, Place, CreateDirAll;
    if item.Entry? && Stripped(item.name).Some? {
      var dest := Destination(destDir, Stripped(item.name).value);
      if dest != [] {
        UncachedContains(created, Parent(dest));
      }
    }
  }

  /** What is cached stays cached, and the cache stays closed under parents down to the destination. */
  lemma {:induction false} CacheStaysClosed(s: Progress, created: set<Path>, destDir: Path, items: seq<Item>)
    requires Closed(created, destDir)
    ensures var created' := CachedRun(s, created, destDir, items).1;
            created <= created' && Closed(created', destDir)
    decreases |items|
  {
    if items != [] {
      var (t, created', ok) := CachedEntry(s, created, destDir, items[0]);
      EntryKeepsClosed(s, created, destDir, items[0]);
      assert created <= created';
      hide CachedEntry, Closed;
      if ok {
        CacheStaysClosed(t, created', destDir, items[1..]);
      }
    }
  }

  // ----- lookups that pass a place -----

  /** A walk that comes to `place`, whatever is there. */
  predicate Passes(fs: Tree, at: Path, rest: seq<Component>, hops: nat, place: Path)
    decreases hops, |rest|
  {
    if rest == [] then false else
    match rest[0]
    case CurrentDir => Passes(fs, at, rest[1..], hops, place)
    case ParentDir => Passes(fs, if at == [] then [] else Parent(at), rest[1..], hops, place)
    case Normal(name) =>
      var q := at + [name];
      if q == place then true else
      if q !in fs then false else
      match fs[q]
      case Dir => Passes(fs, q, rest[1..], hops, place)
      case File(_) => false
      case Link(target) =>
        if hops == 0 then false
        else Passes(fs, if target.absolute then [] else at, target.components + rest[1..], hops - 1, place)
  }

  predicate PathPasses(fs: Tree, p: Path, place: Path) {
    Passes(fs, [], Normals(p), MAX_LINKS, place)
  }

  /** A walk that does not come to the place cannot tell what changed at or below it; one that does come to it ends
      there if it is no directory and no link. */
  lemma {:induction false} WalkPastPlace(a: Tree, b: Tree, at: Path, rest: seq<Component>, hops: nat, place: Path)
    requires SameOff(a, b, place) && !(place <= at)
    ensures !Passes(a, at, rest, hops, place) ==> Walk(b, at, rest, hops) == Walk(a, at, rest, hops)
    ensures Passes(a, at, rest, hops, place) && (place in b ==> b[place].File?) ==> Walk(b, at, rest, hops).None?
    decreases hops, |rest|
  {
    if rest != [] {
      match rest[0]
      case CurrentDir => WalkPastPlace(a, b, at, rest[1..], hops, place);
      case ParentDir =>
        assert at != [] ==> Parent(at) <= at;
        WalkPastPlace(a, b, if at == [] then [] else Parent(at), rest[1..], hops, place);
      case Normal(name) =>
        var q := at + [name];
        if q != place {
          NotBelow(place, at, name);
          if q in a && a[q] == Dir {
            WalkPastPlace(a, b, q, rest[1..], hops, place);
          } else if q in a && a[q].Link? && hops > 0 {
            var t := a[q].target;
            WalkPastPlace(a, b, if t.absolute then [] else at, t.components + rest[1..], hops - 1, place);
          }
        }
    }
  }

  lemma NotBelow(place: Path, at: Path, name: string)
    requires !(place <= at) && place != at + [name]
    ensures !(place <= at + [name])
  {
    assert (at + [name])[..|at|] == at;
  }

  lemma LookupPastPlace(a: Tree, b: Tree, p: Path, place: Path)
    requires SameOff(a, b, place) && place != []
    ensures !PathPasses(a, p, place) ==> (LeadsToDir(b, p) <==> LeadsToDir(a, p))
    ensures PathPasses(a, p, place) && (place in b ==> b[place].File?) ==> !LeadsToDir(b, p)
  {
    WalkPastPlace(a, b, [], Normals(p), MAX_LINKS, place);
  }

  // ----- when the cache stays accurate -----

  /** The tree an entry finds once its parent has been seen to. */
  function ParentMade(fs: Tree, created: set<Path>, dest: Path): Tree {
    if dest != [] && Parent(dest) !in created then CreateDirAll(fs, Parent(dest)).0 else fs
  }

  /** Where an entry puts a file or a link. */
  function PutsAt(s: Progress, created: set<Path>, destDir: Path, item: Item): Option<Path> {
    if item.Unreadable? || Stripped(item.name).None? then None else
    var dest := Destination(destDir, Stripped(item.name).value);
    if dest == [] || !(item.kind.Regular? || (item.kind.Symlink? && item.kind.target.Some?)) then None
    else Site(ParentMade(s.fs, created, dest), dest)
  }

  /** The tree it finds there. */
  function FindsTree(s: Progress, created: set<Path>, destDir: Path, item: Item): Tree {
    if item.Unreadable? || Stripped(item.name).None? then s.fs
    else ParentMade(s.fs, created, Destination(destDir, Stripped(item.name).value))
  }

  /** An entry puts a file where `p` passes, or a link through which `p` no longer leads to a directory. */
  ghost predicate BreaksPath(s: Progress, created: set<Path>, destDir: Path, item: Item, p: Path) {
    var place := PutsAt(s, created, destDir, item);
    place.Some? && PathPasses(FindsTree(s, created, destDir, item), p, place.value) &&
    (item.kind.Regular? || !LeadsToDir(CachedEntry(s, created, destDir, item).0.fs, p))
  }

  ghost predicate BreaksCache(s: Progress, created: set<Path>, destDir: Path, item: Item) {
    exists p :: p in CachedEntry(s, created, destDir, item).1 && BreaksPath(s, created, destDir, item, p)
  }

  lemma {:induction false} AncestorsLead(fs: Tree, p: Path, q: Path)
    requires LeadsToDir(fs, p) && q <= p
    ensures LeadsToDir(fs, q)
    decreases |p|
  {
    hide Lookup;
    if q != p {
      ParentLeads(fs, p);
      AncestorsLead(fs, Parent(p), q);
    }
  }

  /** Making a directory and remembering it keeps the cache accurate. */
  lemma MakeKeepsAccurate(fs: Tree, created: set<Path>, p: Path)
    requires WellFormed(fs) && Accurate(created, fs) && CreateDirAll(fs, p).1
    ensures WellFormed(CreateDirAll(fs, p).0) && Accurate(created + Uncached(created, p) + {p}, CreateDirAll(fs, p).0)
  {
    hide Lookup;
    var after := CreateDirAll(fs, p).0;
    CreateDirAllMeans(fs, p);
    forall q | q in created + Uncached(created, p) + {p}
      ensures LeadsToDir(after, q)
    {
      if q in created {
        LookupGrows(fs, after, q);
      } else {
        AncestorsLead(after, p, q);
      }
    }
  }

  /** A file or link at a place: exactly the cached paths that pass it are at stake. */
  lemma PlaceAccurateIff(a: Tree, b: Tree, created: set<Path>, place: Path, isFile: bool)
    requires SameOff(a, b, place) && place != [] && Accurate(created, a)
    requires place in b && (isFile ==> b[place].File?)
    ensures Accurate(created, b) <==>
            !exists p :: p in created && PathPasses(a, p, place) && (isFile || !LeadsToDir(b, p))
  {
    forall p | p in created
      ensures LeadsToDir(b, p) <==> !(PathPasses(a, p, place) && (isFile || !LeadsToDir(b, p)))
    {
      LookupPastPlace(a, b, p, place);
    }
  }

  /** Exactly when one successful entry leaves an accurate cache accurate. */
  lemma EntryAccurateIff(s: Progress, created: set<Path>, destDir: Path, item: Item)
    requires WellFormed(s.fs) && Accurate(created, s.fs) && CachedEntry(s, created, destDir, item).2
    ensures var (t, created', _) := CachedEntry(s, created, destDir, item);
            Accurate(created', t.fs) <==> !BreaksCache(s, created, destDir, item)
  {
    hide Stripped, Destination, Lookup, CreateDirAll, Uncached, WellFormed, Accurate, Unpack, PlaceLink, IsSafeLink;
    hide PathPasses;
    if item.Unreadable? || Stripped(item.name).None? {
      return;
    }
    var dest := Destination(destDir, Stripped(item.name).value);
    var fs, cache := s.fs, created;
    if dest != [] && Parent(dest) !in created {
      MakeKeepsAccurate(s.fs, created, Parent(dest));
      UncachedContains(created, Parent(dest));
      fs, cache := CreateDirAll(s.fs, Parent(dest)).0, created + Uncached(created, Parent(dest));
      assert cache + {Parent(dest)} == cache;
    }
    match item.kind
    case Directory =>
      if dest !in cache {
        MakeKeepsAccurate(fs, cache, dest);
        AccurateSubset(cache + Uncached(cache, dest) + {dest}, cache + {dest}, CreateDirAll(fs, dest).0);
      } else {
        assert cache + {dest} == cache;
      }
    case Symlink(Some(target)) =>
      PlaceLinkMeans(fs, dest, target);
      PlaceAccurateIff(fs, PlaceLink(fs, dest, target).0, cache, Site(fs, dest).value, false);
    case Regular(data) =>
      UnpackMeans(fs, dest, data);
      PlaceAccurateIff(fs, Unpack(fs, dest, data).0, cache, Site(fs, dest).value, true);
    case _ =>
  }

  lemma AccurateSubset(big: set<Path>, small: set<Path>, fs: Tree)
    requires Accurate(big, fs) && small <= big
    ensures Accurate(small, fs)
  {
  }

  /** In a free place, or on a regular file, nothing is broken. */
  lemma FreeOrFileKeepsCache(s: Progress, created: set<Path>, destDir: Path, item: Item)
    requires WellFormed(s.fs) && Accurate(created, s.fs) && CachedEntry(s, created, destDir, item).2
    requires var place, fs := PutsAt(s, created, destDir, item), FindsTree(s, created, destDir, item);
             place.Some? && place.value in fs ==> fs[place.value].File?
    ensures !BreaksCache(s, created, destDir, item)
  {
    hide Stripped, Destination, Lookup, CreateDirAll, Uncached, WellFormed, Unpack, PlaceLink, IsSafeLink, PathPasses;
    var place := PutsAt(s, created, destDir, item);
    if place.Some? {
      var dest := Destination(destDir, Stripped(item.name).value);
      var fs, cache := s.fs, created;
      if Parent(dest) !in created {
        MakeKeepsAccurate(s.fs, created, Parent(dest));
        fs, cache := CreateDirAll(s.fs, Parent(dest)).0, created + Uncached(created, Parent(dest));
      }
      forall p | p in cache
        ensures !PathPasses(fs, p, place.value)
      {
        LookupPastPlace(fs, fs, p, place.value);
      }
    }
  }

  /** The run succeeds so far and the cache is accurate, or it has failed. */
  ghost predicate AccurateAfter(s: Progress, created: set<Path>, destDir: Path, items: seq<Item>) {
    var (t, created', ok) := CachedRun(s, created, destDir, items);
    ok ==> Accurate(created', t.fs)
  }

  ghost predicate AlwaysAccurate(s: Progress, created: set<Path>, destDir: Path, items: seq<Item>) {
    forall k :: 0 <= k <= |items| ==> AccurateAfter(s, created, destDir, items[..k])
  }

  ghost predicate NeverBreaksCache(s: Progress, created: set<Path>, destDir: Path, items: seq<Item>)
    decreases |items|
  {
    items != [] ==>
      var (t, created', ok) := CachedEntry(s, created, destDir, items[0]);
      ok ==> !BreaksCache(s, created, destDir, items[0]) && NeverBreaksCache(t, created', destDir, items[1..])
  }

  /** Exactly when the cache stays accurate: every cached path leads to a directory after every entry of a run, if and
      only if no successful entry breaks it. */
  lemma {:induction false} CacheAccurateIff(s: Progress, created: set<Path>, destDir: Path, items: seq<Item>)
    requires WellFormed(s.fs) && Accurate(created, s.fs)
    ensures AlwaysAccurate(s, created, destDir, items) <==> NeverBreaksCache(s, created, destDir, items)
    decreases |items|
  {
    assert items[..0] == [];
    if items != [] {
      var (t, created', ok) := CachedEntry(s, created, destDir, items[0]);
      EntryKeepsTree(s, created, destDir, items[0]);
      assert items[..1][1..] == [];
      assert ok ==> CachedRun(s, created, destDir, items[..1]) == (t, created', true);
      hide CachedEntry, BreaksCache;
      forall k | 0 < k <= |items|
        ensures ok ==> (AccurateAfter(s, created, destDir, items[..k]) <==>
                        AccurateAfter(t, created', destDir, items[1..][..k - 1]))
        ensures !ok ==> AccurateAfter(s, created, destDir, items[..k])
      {
        assert items[..k][1..] == items[1..][..k - 1];
      }
      hide AccurateAfter;
      if ok {
        EntryAccurateIff(s, created, destDir, items[0]);
        assert AccurateAfter(s, created, destDir, items[..1]) <==> Accurate(created', t.fs) by {
          assert items[1..][..0] == [];
          AccurateNow(t, created', destDir);
        }
        if Accurate(created', t.fs) {
          CacheAccurateIff(t, created', destDir, items[1..]);
          if AlwaysAccurate(s, created, destDir, items) {
            forall k | 0 <= k <= |items[1..]|
              ensures AccurateAfter(t, created', destDir, items[1..][..k])
            {
              assert AccurateAfter(s, created, destDir, items[..k + 1]);
            }
          }
        }
      }
    }
  }

  lemma AccurateNow(s: Progress, created: set<Path>, destDir: Path)
    ensures AccurateAfter(s, created, destDir, []) <==> Accurate(created, s.fs)
  {
  }

  lemma {:induction false} NeverBreakingNeverTrusts(s: Progress, created: set<Path>, destDir: Path, items: seq<Item>)
    requires WellFormed(s.fs) && Accurate(created, s.fs) && NeverBreaksCache(s, created, destDir, items)
    ensures NeverTrustsStale(s, created, destDir, items)
    decreases |items|
  {
    hide CachedEntry, BreaksCache, Stripped, Destination, Lookup;
    if items != [] {
      var (t, created', ok) := CachedEntry(s, created, destDir, items[0]);
      if ok {
        EntryKeepsTree(s, created, destDir, items[0]);
        EntryAccurateIff(s, created, destDir, items[0]);
        NeverBreakingNeverTrusts(t, created', destDir, items[1..]);
      }
    }
  }

  /** In particular, extraction with an accurate cache that no entry breaks does what extraction that calls
      create_dir_all for every entry does. */
  lemma CachedRunAgrees(s: Progress, created: set<Path>, destDir: Path, items: seq<Item>)
    requires WellFormed(s.fs) && Accurate(created, s.fs) && NeverBreaksCache(s, created, destDir, items)
    ensures AlwaysSame(s, created, destDir, items)
    ensures SameAfter(s, created, destDir, items)
  {
    NeverBreakingNeverTrusts(s, created, destDir, items);
    CachedRunAgreesIff(s, created, destDir, items);
    assert items[..|items|] == items;
  }
}
