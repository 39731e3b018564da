/** What an extraction puts on disk, and when an entry succeeds. */
module ApkContents {
  import opened Common
  import opened PathNames
  import opened FileTree
  import opened ApkEntries
  import opened ApkCache

  // ----- entry names -----

  predicate IsReserved(name: string) {
    name == ".PKGINFO" || name == ".INSTALL" || ".SIGN." <= name
  }

  predicate AllSlashes(s: string) {
    forall i :: 0 <= i < |s| ==> s[i] == '/'
  }

  predicate AfterDot(name: string, tail: string) {
    name == "./" + tail || (name == tail && !("./" <= name))
  }

  /** An entry name is what is unpacked after an optional "./" and any slashes. */
  ghost predicate LeadsInto(name: string, rest: string) {
    exists slashes :: AllSlashes(slashes) && AfterDot(name, slashes + rest)
  }

  lemma SlashesLead(slashes: string, rest: string)
    requires AllSlashes(slashes) && slashes != ""
    ensures (slashes + rest)[0] == '/'
  {
  }

  lemma {:induction false} TrimmedMeans(s: string, rest: string)
    requires rest != "" && rest[0] != '/'
    ensures TrimSlashes(s) == rest <==> exists slashes :: AllSlashes(slashes) && s == slashes + rest
  {
    if s == "" {
      assert forall slashes: string :: |slashes + rest| > 0;
    } else if s[0] == '/' {
      TrimmedMeans(s[1..], rest);
      if slashes :| AllSlashes(slashes) && s[1..] == slashes + rest {
        assert AllSlashes("/" + slashes) && s == ("/" + slashes) + rest;
      }
      if slashes :| AllSlashes(slashes) && s == slashes + rest {
        assert slashes != "";
        assert AllSlashes(slashes[1..]) && s[1..] == slashes[1..] + rest;
      }
    } else {
      if s == rest {
        assert AllSlashes("") && s == "" + rest;
      }
      if slashes :| AllSlashes(slashes) && s == slashes + rest {
        if slashes != "" { SlashesLead(slashes, rest); }
      }
    }
  }

  function WithoutDot(name: string): string {
    if "./" <= name then name[2..] else name
  }

  lemma AfterDotExactly(name: string, tail: string)
    ensures AfterDot(name, tail) <==> WithoutDot(name) == tail
  {
    if "./" <= name {
      assert name == "./" + name[2..];
      assert ("./" + tail)[2..] == tail;
    }
  }

  lemma LeadsIntoMeans(name: string, rest: string)
    ensures LeadsInto(name, rest) <==> exists slashes :: AllSlashes(slashes) && WithoutDot(name) == slashes + rest
  {
    hide AllSlashes, AfterDot, WithoutDot;
    forall slashes | true
      ensures AfterDot(name, slashes + rest) <==> WithoutDot(name) == slashes + rest
    {
      AfterDotExactly(name, slashes + rest);
    }
  }

  /** Exactly which entries are unpacked, and under which name: not the package's own metadata, nothing that contains
      "..", and without leading slashes. */
  lemma StrippedMeans(name: string, rest: string)
    ensures Stripped(name) == Some(rest) <==>
            !IsReserved(name) && rest != "" && rest[0] != '/' && !Contains(rest, "..") && LeadsInto(name, rest)
  {
    TrimmedHead(WithoutDot(name));
    if rest != "" && rest[0] != '/' {
      TrimmedMeans(WithoutDot(name), rest);
      LeadsIntoMeans(name, rest);
    }
    hide TrimSlashes, Contains, LeadsInto, AllSlashes;
  }

  lemma {:induction false} TrimmedHead(s: string)
    ensures TrimSlashes(s) != "" ==> TrimSlashes(s)[0] != '/'
  {
    if s != "" && s[0] == '/' {
      TrimmedHead(s[1..]);
    }
  }

  function JoinNames(names: seq<string>): string {
    if names == [] then "" else if |names| == 1 then names[0] else names[0] + "/" + JoinNames(names[1..])
  }

  /** A path goes below the destination, name by name; empty names and single dots add nothing. */
  lemma {:induction false} DestinationOfJoined(destDir: Path, names: seq<string>)
    requires names != [] && forall n :: n in names ==> '/' !in n
    ensures Destination(destDir, JoinNames(names)) == destDir + NormalPieces(names)
  {
    PiecesOfJoined(names);
  }

  lemma {:induction false} PiecesOfJoined(names: seq<string>)
    requires names != [] && forall n :: n in names ==> '/' !in n
    ensures Pieces(JoinNames(names), '/') == names
  {
    assert names[0] in names;
    PiecesOfPlain(names[0], '/');
    if |names| > 1 {
      PiecesOfJoined(names[1..]);
      PiecesAppend(names[0], '/', JoinNames(names[1..]));
      assert names[0] + "/" + JoinNames(names[1..]) == names[0] + ['/'] + JoinNames(names[1..]);
      assert [names[0]] + names[1..] == names;
    } else {
      assert names == [names[0]];
    }
  }

  /** Names other than "" and "." are all kept, in their order. */
  lemma {:induction false} NormalPiecesKeep(names: seq<string>)
    requires forall n :: n in names ==> n != "" && n != "."
    ensures NormalPieces(names) == names
  {
    if names != [] {
      assert names[0] in names;
      forall n | n in names[1..]
        ensures n != "" && n != "."
      {
        assert n in names;
      }
      NormalPiecesKeep(names[1..]);
    }
  }

  // ----- when an entry succeeds -----

  /** The way to `p` is a directory down to some ancestor, and below that nothing is there yet. */
  ghost predicate CanBeMade(fs: Tree, p: Path) {
    exists k :: 0 <= k <= |p| && FreeFrom(fs, p, k)
  }

  /** The first `k` names lead to a directory, and the next one is free. */
  ghost predicate FreeFrom(fs: Tree, p: Path, k: nat)
    requires k <= |p|
  {
    LeadsToDir(fs, p[..k]) && (k < |p| ==> IsFree(fs, p[..k + 1]))
  }

  lemma FreeLeadsNowhere(fs: Tree, p: Path)
    requires p != [] && IsFree(fs, p)
    ensures !LeadsToDir(fs, p)
  {
    LookupStep(fs, p);
    var spot := Lookup(fs, Parent(p)).value;
    OneStep(fs, spot.dir, Last(p), spot.hops);
  }

  /** Below a directory, a path can be made exactly if its place is free. */
  lemma CanBeMadeBelow(fs: Tree, p: Path)
    requires p != [] && LeadsToDir(fs, Parent(p)) && !LeadsToDir(fs, p)
    ensures CanBeMade(fs, p) <==> IsFree(fs, p)
  {
    hide Lookup;
    assert p[..|p|] == p && p[..|p| - 1] == Parent(p);
    assert FreeFrom(fs, p, |p| - 1) <==> IsFree(fs, p);
    assert !FreeFrom(fs, p, |p|);
    if k :| 0 <= k < |p| - 1 && FreeFrom(fs, p, k) {
      FreeLeadsNowhere(fs, p[..k + 1]);
      AncestorsLead(fs, Parent(p), p[..k + 1]);
    }
  }

  /** Otherwise exactly if its parent can be made. */
  lemma CanBeMadeAbove(fs: Tree, p: Path)
    requires p != [] && !LeadsToDir(fs, Parent(p)) && !LeadsToDir(fs, p)
    ensures CanBeMade(fs, p) <==> CanBeMade(fs, Parent(p))
  {
    hide LeadsToDir, IsFree;
    var up := Parent(p);
    assert p[..|p|] == p && p[..|up|] == up && up[..|up|] == up;
    assert !FreeFrom(fs, p, |p|) && !FreeFrom(fs, p, |up|) && !FreeFrom(fs, up, |up|);
    forall k | 0 <= k < |up|
      ensures FreeFrom(fs, p, k) <==> FreeFrom(fs, up, k)
    {
      assert up[..k + 1] == p[..k + 1] && up[..k] == p[..k];
    }
  }

  /** Exactly when create_dir_all succeeds. */
  lemma {:induction false} CreateDirAllSucceedsIff(fs: Tree, p: Path)
    requires WellFormed(fs)
    ensures CreateDirAll(fs, p).1 <==> CanBeMade(fs, p)
    decreases |p|
  {
    hide Lookup, CanBeMade;
    if LeadsToDir(fs, p) {
      LeadingCanBeMade(fs, p);
    } else if p == [] {
      RootLeads(fs);
    } else {
      var up := Parent(p);
      var (above, made) := CreateDirAll(fs, up);
      CreateDirAllSucceedsIff(fs, up);
      CreateDirAllMeans(fs, up);
      if LeadsToDir(fs, up) {
        CanBeMadeBelow(fs, p);
      } else {
        CanBeMadeAbove(fs, p);
        ParentLeads(above, p);
      }
    }
  }

  lemma LeadingCanBeMade(fs: Tree, p: Path)
    requires LeadsToDir(fs, p)
    ensures CanBeMade(fs, p)
  {
    assert p[..|p|] == p && FreeFrom(fs, p, |p|);
  }

  /** The entry has a place of its own. */
  predicate HasPlace(item: Item, destDir: Path) {
    item.Entry? && Stripped(item.name).Some? && Destination(destDir, Stripped(item.name).value) != []
  }

  function PlaceName(item: Item, destDir: Path): Path
    requires HasPlace(item, destDir)
  {
    Destination(destDir, Stripped(item.name).value)
  }

  /** The parent is cached, or can be made. */
  predicate ParentGiven(s: Progress, created: set<Path>, dest: Path)
    requires dest != []
  {
    Parent(dest) in created || CreateDirAll(s.fs, Parent(dest)).1
  }

  /** Exactly when an entry of each kind succeeds. */
  lemma EntrySucceedsIff(s: Progress, created: set<Path>, destDir: Path, item: Item)
    requires WellFormed(s.fs) && HasPlace(item, destDir)
    ensures var dest, fs := PlaceName(item, destDir), FindsTree(s, created, destDir, item);
            var site := Site(fs, dest);
            CachedEntry(s, created, destDir, item).2 <==>
            ParentGiven(s, created, dest) &&
            match item.kind
            case Directory => dest in created || CreateDirAll(fs, dest).1
            case Symlink(None) => true
            case Symlink(Some(target)) =>
              IsSafeLink(target, dest, destDir) && site.Some? && LeadsToDir(Remove(fs, site.value), Parent(dest))
            case Regular(data) =>
              site.Some? && !IsDir(fs, site.value) && LeadsToDir(fs - {site.value}, Parent(dest))
            case HardLink => false
            case Unsupported => false
  {
    hide Stripped, Destination, IsSafeLink, CreateDirAll, Uncached, WellFormed;
    var dest, fs := PlaceName(item, destDir), FindsTree(s, created, destDir, item);
    if Parent(dest) !in created {
      CreateDirAllMeans(s.fs, Parent(dest));
    }
    NotBelowAncestors(created, dest);
    match item.kind
    case Symlink(Some(target)) => LinkSucceedsIff(fs, dest, target);
    case Regular(data) => FileSucceedsIff(fs, dest, data);
    case _ =>
  }

  lemma NotBelowAncestors(created: set<Path>, dest: Path)
    requires dest != []
    ensures dest in created + Uncached(created, Parent(dest)) <==> dest in created
  {
  }

  lemma FileSucceedsIff(fs: Tree, p: Path, data: seq<byte>)
    requires WellFormed(fs) && p != []
    ensures Unpack(fs, p, data).1 <==>
            Site(fs, p).Some? && !IsDir(fs, Site(fs, p).value) && LeadsToDir(fs - {Site(fs, p).value}, Parent(p))
  {
    if Site(fs, p).Some? && !IsDir(fs, Site(fs, p).value) {
      var q := Site(fs, p).value;
      UnlinkKeeps(fs, q);
      SameSite(fs - {q}, fs, p);
      hide Lookup;
    }
  }

  lemma LinkSucceedsIff(fs: Tree, p: Path, target: LinkTarget)
    requires WellFormed(fs) && p != []
    ensures PlaceLink(fs, p, target).1 <==>
            Site(fs, p).Some? && LeadsToDir(Remove(fs, Site(fs, p).value), Parent(p))
  {
    if Site(fs, p).Some? {
      var q := Site(fs, p).value;
      RemoveKeeps(fs, q);
      SameSite(Remove(fs, q), fs, p);
      hide Lookup;
    }
  }

  lemma SameSite(small: Tree, big: Tree, p: Path)
    requires Extends(small, big) && p != []
    ensures LeadsToDir(small, Parent(p)) ==> Site(small, p) == Site(big, p)
  {
    if LeadsToDir(small, Parent(p)) {
      LookupGrows(small, big, Parent(p));
    }
  }

  // ----- what an entry puts there -----

  /** The object that an entry is about: its bytes, or its target. */
  function Payload(kind: Kind): Option<Node> {
    match kind
    case Regular(data) => Some(File(data))
    case Symlink(Some(target)) => Some(Link(target))
    case _ => None
  }

  /** A successful file or link entry leaves exactly its object at the place its path leads to, and is listed. */
  lemma EntryPuts(s: Progress, created: set<Path>, destDir: Path, item: Item)
    requires WellFormed(s.fs) && HasPlace(item, destDir) && Payload(item.kind).Some?
    requires CachedEntry(s, created, destDir, item).2
    ensures var t, dest := CachedEntry(s, created, destDir, item).0, PlaceName(item, destDir);
            var place := PutsAt(s, created, destDir, item);
            && place.Some? && Site(t.fs, dest) == place
            && place.value in t.fs && t.fs[place.value] == Payload(item.kind).value
            && t.files == s.files + [dest] && t.dirs == s.dirs
  {
    hide Stripped, Destination, IsSafeLink, CreateDirAll, Uncached, WellFormed;
    var dest, fs := PlaceName(item, destDir), FindsTree(s, created, destDir, item);
    if Parent(dest) !in created {
      CreateDirAllMeans(s.fs, Parent(dest));
    }
    match item.kind
    case Symlink(Some(target)) => LinkIsThere(fs, dest, target);
    case Regular(data) => FileIsThere(fs, dest, data);
  }

  lemma FileIsThere(fs: Tree, p: Path, data: seq<byte>)
    requires WellFormed(fs) && Unpack(fs, p, data).1
    ensures var after := Unpack(fs, p, data).0;
            Site(fs, p).Some? && Site(after, p) == Site(fs, p) && Site(fs, p).value in after &&
            after[Site(fs, p).value] == File(data)
  {
    var q := Site(fs, p).value;
    UnlinkKeeps(fs, q);
    PutIsThere(fs - {q}, fs, p, File(data));
    hide Lookup;
  }

  lemma LinkIsThere(fs: Tree, p: Path, target: LinkTarget)
    requires WellFormed(fs) && PlaceLink(fs, p, target).1
    ensures var after := PlaceLink(fs, p, target).0;
            Site(fs, p).Some? && Site(after, p) == Site(fs, p) && Site(fs, p).value in after &&
            after[Site(fs, p).value] == Link(target)
  {
    var q := Site(fs, p).value;
    RemoveKeeps(fs, q);
    PutIsThere(Remove(fs, q), fs, p, Link(target));
    hide Lookup;
  }

  lemma PutIsThere(cleared: Tree, fs: Tree, p: Path, node: FileTree.Node)
    requires WellFormed(cleared) && Extends(cleared, fs) && p != [] && Put(cleared, p, node).1
    ensures var after := Put(cleared, p, node).0;
            Site(fs, p).Some? && Site(after, p) == Site(fs, p) && Site(fs, p).value in after &&
            after[Site(fs, p).value] == node
  {
    PutKeeps(cleared, p, node);
    SameSite(cleared, fs, p);
    SameSite(cleared, Put(cleared, p, node).0, p);
    hide Lookup;
  }

  // ----- the lists -----

  /** Destinations of the entries of some kinds, in archive order. */
  function Listed(items: seq<Item>, destDir: Path, wanted: Kind -> bool): seq<Path> {
    if items == [] then [] else
    (if items[0].Entry? && Stripped(items[0].name).Some? && wanted(items[0].kind)
     then [Destination(destDir, Stripped(items[0].name).value)] else [])
    + Listed(items[1..], destDir, wanted)
  }

  const FILES: Kind -> bool := (kind: Kind) => Payload(kind).Some?
  const DIRS: Kind -> bool := (kind: Kind) => kind.Directory?

  lemma EntryLists(s: Progress, created: set<Path>, destDir: Path, item: Item)
    requires CachedEntry(s, created, destDir, item).2
    ensures item.Entry?
    ensures var t := CachedEntry(s, created, destDir, item).0;
            t.files == s.files + Listed([item], destDir, FILES) && t.dirs == s.dirs + Listed([item], destDir, DIRS)
  {
    hide Stripped, Destination, IsSafeLink, CreateDirAll, Uncached, Unpack, PlaceLink;
    assert [item][1..] == [] && Listed([], destDir, FILES) == [] && Listed([], destDir, DIRS) == [];
  }

  /** After a successful run the lists hold exactly the destinations of the file and link entries, and of the
      directory entries, in archive order; and no entry was unreadable. */
  lemma {:induction false} RunLists(s: Progress, created: set<Path>, destDir: Path, items: seq<Item>)
    requires CachedRun(s, created, destDir, items).2
    ensures forall item :: item in items ==> item.Entry?
    ensures var t := CachedRun(s, created, destDir, items).0;
            t.files == s.files + Listed(items, destDir, FILES) && t.dirs == s.dirs + Listed(items, destDir, DIRS)
    decreases |items|
  {
    hide CachedEntry, Stripped, Destination, FILES, DIRS;
    if items != [] {
      EntryLists(s, created, destDir, items[0]);
      var (t, created', ok) := CachedEntry(s, created, destDir, items[0]);
      RunLists(t, created', destDir, items[1..]);
      assert [items[0]][1..] == [] && Listed([], destDir, FILES) == [] && Listed([], destDir, DIRS) == [];
      assert items == [items[0]] + items[1..];
    }
  }

  // ----- what is there at the end -----

  /** The place of this entry is `q` or above it. */
  predicate Takes(s: Progress, created: set<Path>, destDir: Path, item: Item, q: Path) {
    var place := PutsAt(s, created, destDir, item);
    place.Some? && place.value <= q
  }

  /** No entry that the run gets to takes the place `q`. */
  predicate NoneTakes(s: Progress, created: set<Path>, destDir: Path, items: seq<Item>, q: Path)
    decreases |items|
  {
    items != [] ==>
      !Takes(s, created, destDir, items[0], q) &&
      var (t, created', ok) := CachedEntry(s, created, destDir, items[0]);
      ok ==> NoneTakes(t, created', destDir, items[1..], q)
  }

  lemma ParentMadeExtends(fs: Tree, created: set<Path>, dest: Path)
    requires WellFormed(fs)
    ensures Extends(fs, ParentMade(fs, created, dest)) && WellFormed(ParentMade(fs, created, dest))
  {
    if dest != [] {
      CreateDirAllMeans(fs, Parent(dest));
    }
  }

  /** An entry that does not take a place leaves what is there, whether it succeeds or not. */
  lemma EntryLeaves(s: Progress, created: set<Path>, destDir: Path, item: Item, q: Path)
    requires WellFormed(s.fs) && q in s.fs && !Takes(s, created, destDir, item, q)
    ensures var t := CachedEntry(s, created, destDir, item).0;
            q in t.fs && t.fs[q] == s.fs[q]
  {
    hide Stripped, Destination, IsSafeLink, CreateDirAll, Uncached, WellFormed, Site;
    if item.Unreadable? || Stripped(item.name).None? {
      return;
    }
    var dest := Destination(destDir, Stripped(item.name).value);
    var fs := ParentMade(s.fs, created, dest);
    ParentMadeExtends(s.fs, created, dest);
    match item.kind
    case Directory => CreateDirAllMeans(fs, dest);
    case Symlink(Some(target)) => PlaceLinkMeans(fs, dest, target);
    case Regular(data) => UnpackMeans(fs, dest, data);
    case _ =>
  }

  lemma {:induction false} RunLeaves(s: Progress, created: set<Path>, destDir: Path, items: seq<Item>, q: Path)
    requires WellFormed(s.fs) && q in s.fs && NoneTakes(s, created, destDir, items, q)
    ensures var t := CachedRun(s, created, destDir, items).0;
            q in t.fs && t.fs[q] == s.fs[q]
    decreases |items|
  {
    hide CachedEntry, Takes, WellFormed;
    if items != [] {
      EntryLeaves(s, created, destDir, items[0], q);
      EntryKeepsTree(s, created, destDir, items[0]);
      var (t, created', ok) := CachedEntry(s, created, destDir, items[0]);
      if ok {
        RunLeaves(t, created', destDir, items[1..], q);
      }
    }
  }

  lemma {:induction false} RunSplits(s: Progress, created: set<Path>, destDir: Path, xs: seq<Item>, ys: seq<Item>)
    ensures var (t, created', ok) := CachedRun(s, created, destDir, xs);
            CachedRun(s, created, destDir, xs + ys) ==
            if ok then CachedRun(t, created', destDir, ys) else (t, created', false)
    decreases |xs|
  {
    hide CachedEntry;
    if xs == [] {
      assert xs + ys == ys;
    } else {
      assert (xs + ys)[1..] == xs[1..] + ys;
      var (t, created', ok) := CachedEntry(s, created, destDir, xs[0]);
      if ok {
        RunSplits(t, created', destDir, xs[1..], ys);
      }
    }
  }

  /** An entry without a name to unpack under makes no difference, whatever kind it is and wherever it stands. */
  lemma PassedOver(s: Progress, created: set<Path>, destDir: Path, before: seq<Item>, item: Item, after: seq<Item>)
    requires item.Entry? && Stripped(item.name).None?
    ensures CachedRun(s, created, destDir, before + [item] + after) ==
            CachedRun(s, created, destDir, before + after)
  {
    assert before + [item] + after == before + ([item] + after);
    assert ([item] + after)[1..] == after;
    RunSplits(s, created, destDir, before, [item] + after);
    RunSplits(s, created, destDir, before, after);
    hide Stripped;
  }

  lemma {:induction false} RunKeepsTree(s: Progress, created: set<Path>, destDir: Path, items: seq<Item>)
    requires WellFormed(s.fs)
    ensures WellFormed(CachedRun(s, created, destDir, items).0.fs)
    decreases |items|
  {
    hide CachedEntry, WellFormed;
    if items != [] {
      EntryKeepsTree(s, created, destDir, items[0]);
      var (t, created', ok) := CachedEntry(s, created, destDir, items[0]);
      if ok {
        RunKeepsTree(t, created', destDir, items[1..]);
      }
    }
  }

  /** After a successful run, each file entry's place holds exactly its bytes, and each link entry's place its target,
      unless a later entry takes that place. */
  lemma RunPuts(s: Progress, created: set<Path>, destDir: Path, before: seq<Item>, item: Item, after: seq<Item>)
    requires WellFormed(s.fs) && HasPlace(item, destDir) && Payload(item.kind).Some?
    requires CachedRun(s, created, destDir, before + ([item] + after)).2
    ensures var (t, cache, ok) := CachedRun(s, created, destDir, before);
            var place := PutsAt(t, cache, destDir, item);
            var (u, cache', good) := CachedEntry(t, cache, destDir, item);
            var end := CachedRun(s, created, destDir, before + ([item] + after)).0.fs;
            && ok && good && place.Some? && Site(u.fs, PlaceName(item, destDir)) == place
            && (NoneTakes(u, cache', destDir, after, place.value) ==>
                  place.value in end && end[place.value] == Payload(item.kind).value)
  {
    RunSplits(s, created, destDir, before, [item] + after);
    RunKeepsTree(s, created, destDir, before);
    var (t, cache, ok) := CachedRun(s, created, destDir, before);
    assert ([item] + after)[1..] == after && ([item] + after)[0] == item;
    hide HasPlace, Payload, CachedEntry, WellFormed, PutsAt, NoneTakes, Site, Stripped, Destination;
    assert CachedRun(t, cache, destDir, [item] + after).2;
    EntryPuts(t, cache, destDir, item);
    EntryKeepsTree(t, cache, destDir, item);
    var (u, cache', good) := CachedEntry(t, cache, destDir, item);
    var place := PutsAt(t, cache, destDir, item).value;
    if NoneTakes(u, cache', destDir, after, place) {
      RunLeaves(u, cache', destDir, after, place);
    }
  }

  // ----- directories -----

  /** A path that leads to a directory still does after a successful entry, exactly if the entry does not break it. */
  lemma EntryKeepsPathIff(s: Progress, created: set<Path>, destDir: Path, item: Item, p: Path)
    requires WellFormed(s.fs) && LeadsToDir(s.fs, p) && CachedEntry(s, created, destDir, item).2
    ensures LeadsToDir(CachedEntry(s, created, destDir, item).0.fs, p) <==> !BreaksPath(s, created, destDir, item, p)
  {
    hide Stripped, Destination, Lookup, CreateDirAll, Uncached, WellFormed, Unpack, PlaceLink, IsSafeLink, PathPasses;
    if item.Unreadable? || Stripped(item.name).None? {
      return;
    }
    var dest := Destination(destDir, Stripped(item.name).value);
    var fs := ParentMade(s.fs, created, dest);
    ParentMadeExtends(s.fs, created, dest);
    LookupGrows(s.fs, fs, p);
    match item.kind
    case Directory =>
      CreateDirAllMeans(fs, dest);
      if CreateDirAll(fs, dest).1 { LookupGrows(fs, CreateDirAll(fs, dest).0, p); }
    case Symlink(Some(target)) =>
      PlaceLinkMeans(fs, dest, target);
      LookupPastPlace(fs, PlaceLink(fs, dest, target).0, p, Site(fs, dest).value);
    case Regular(data) =>
      UnpackMeans(fs, dest, data);
      LookupPastPlace(fs, Unpack(fs, dest, data).0, p, Site(fs, dest).value);
    case _ =>
  }

  /** No entry that the run gets to breaks the path `p`. */
  ghost predicate NoneBreaks(s: Progress, created: set<Path>, destDir: Path, items: seq<Item>, p: Path)
    decreases |items|
  {
    items != [] ==>
      !BreaksPath(s, created, destDir, items[0], p) &&
      var (t, created', ok) := CachedEntry(s, created, destDir, items[0]);
      ok ==> NoneBreaks(t, created', destDir, items[1..], p)
  }

  lemma {:induction false} RunKeepsPath(s: Progress, created: set<Path>, destDir: Path, items: seq<Item>, p: Path)
    requires WellFormed(s.fs) && LeadsToDir(s.fs, p) && NoneBreaks(s, created, destDir, items, p)
    requires CachedRun(s, created, destDir, items).2
    ensures LeadsToDir(CachedRun(s, created, destDir, items).0.fs, p)
    decreases |items|
  {
    hide CachedEntry, BreaksPath, WellFormed, LeadsToDir;
    if items != [] {
      EntryKeepsPathIff(s, created, destDir, items[0], p);
      EntryKeepsTree(s, created, destDir, items[0]);
      var (t, created', ok) := CachedEntry(s, created, destDir, items[0]);
      RunKeepsPath(t, created', destDir, items[1..], p);
    }
  }

  /** A directory entry that succeeds leads to a directory, exactly if it does not trust a stale path. */
  lemma EntryLeadsIff(s: Progress, created: set<Path>, destDir: Path, item: Item)
    requires WellFormed(s.fs) && HasPlace(item, destDir) && item.kind.Directory?
    requires CachedEntry(s, created, destDir, item).2
    ensures LeadsToDir(CachedEntry(s, created, destDir, item).0.fs, PlaceName(item, destDir)) <==>
            !TrustsStale(item, created, s.fs, destDir)
  {
    hide Stripped, Destination, Lookup, Uncached, WellFormed;
    var dest := PlaceName(item, destDir);
    var up := Parent(dest);
    var above := CreateDirAll(s.fs, up).0;
    DirectoryAgreesIff(s, created, destDir, item);
    CreateDirAllMeans(s.fs, up);
    CreateDirAllMeans(above, dest);
    assert LeadsToDir(above, dest) ==> CreateDirAll(above, dest) == (above, true);
    hide CreateDirAll;
  }

  /** After a successful run each directory entry leads to a directory, unless it trusted a stale path or a later entry
      breaks its path. */
  lemma RunLeads(s: Progress, created: set<Path>, destDir: Path, before: seq<Item>, item: Item, after: seq<Item>)
    requires WellFormed(s.fs) && HasPlace(item, destDir) && item.kind.Directory?
    requires CachedRun(s, created, destDir, before + ([item] + after)).2
    ensures var (t, cache, ok) := CachedRun(s, created, destDir, before);
            var (u, cache', good) := CachedEntry(t, cache, destDir, item);
            var dest, end := PlaceName(item, destDir), CachedRun(s, created, destDir, before + ([item] + after)).0.fs;
            && ok && good
            && (!TrustsStale(item, cache, t.fs, destDir) && NoneBreaks(u, cache', destDir, after, dest) ==>
                  LeadsToDir(end, dest))
  {
    RunSplits(s, created, destDir, before, [item] + after);
    RunKeepsTree(s, created, destDir, before);
    var (t, cache, ok) := CachedRun(s, created, destDir, before);
    assert ([item] + after)[1..] == after && ([item] + after)[0] == item;
    hide HasPlace, CachedEntry, WellFormed, NoneBreaks, TrustsStale, LeadsToDir, Stripped, Destination;
    assert CachedRun(t, cache, destDir, [item] + after).2;
    EntryLeadsIff(t, cache, destDir, item);
    EntryKeepsTree(t, cache, destDir, item);
    var (u, cache', good) := CachedEntry(t, cache, destDir, item);
    var dest := PlaceName(item, destDir);
    if !TrustsStale(item, cache, t.fs, destDir) && NoneBreaks(u, cache', destDir, after, dest) {
      RunKeepsPath(u, cache', destDir, after, dest);
    }
  }
}
