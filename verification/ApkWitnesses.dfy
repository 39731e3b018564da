/** Archives on which the cache of created directories goes wrong, in each of the ways it can. */
module ApkWitnesses {
  import opened Common
  import opened PathNames
  import opened FileTree
  import opened ApkEntries
  import opened ApkCache

  // ----- names -----

  /** A component without dots. */
  predicate IsSimple(name: string) {
    name != "" && '.' !in name && '/' !in name
  }

  lemma NoDots(text: string)
    requires '.' !in text
    ensures !Contains(text, "..")
  {
    forall i | 0 <= i <= |text|
      ensures !(".." <= text[i..])
    {
      assert ".."[0] == '.' && (i < |text| ==> text[i..][0] == text[i]);
    }
  }

  lemma StripsNothing(text: string)
    requires text != "" && text[0] != '/' && '.' !in text
    ensures Stripped(text) == Some(text)
  {
    NoDots(text);
    assert text[0] in text;
    assert "./"[0] == ".SIGN."[0] == ".PKGINFO"[0] == ".INSTALL"[0] == '.';
    hide Contains;
  }

  lemma {:induction false} NormalsStay(pieces: seq<string>)
    requires forall p :: p in pieces ==> IsSimple(p)
    ensures NormalPieces(pieces) == pieces
  {
    if pieces != [] {
      assert pieces[0] in pieces && pieces[0] != ".";
      NormalsStay(pieces[1..]);
    }
  }

  lemma OneName(dir: Path, a: string)
    requires IsSimple(a)
    ensures Stripped(a) == Some(a) && Destination(dir, a) == dir + [a]
  {
    StripsNothing(a);
    PiecesOfPlain(a, '/');
    NormalsStay([a]);
  }

  lemma TwoNames(dir: Path, a: string, b: string)
    requires IsSimple(a) && IsSimple(b)
    ensures Stripped(a + "/" + b) == Some(a + "/" + b) && Destination(dir, a + "/" + b) == dir + [a, b]
  {
    var text := a + "/" + b;
    assert text[0] == a[0] && a[0] in a;
    StripsNothing(text);
    PiecesOfPlain(a, '/');
    PiecesOfPlain(b, '/');
    PiecesAppend(a, '/', b);
    assert text == a + ['/'] + b && [a] + [b] == [a, b];
    NormalsStay([a, b]);
  }

  lemma ThreeNames(dir: Path, a: string, b: string, c: string)
    requires IsSimple(a) && IsSimple(b) && IsSimple(c)
    ensures var text := a + "/" + b + "/" + c;
            Stripped(text) == Some(text) && Destination(dir, text) == dir + [a, b, c]
  {
    var text := a + "/" + b + "/" + c;
    assert text[0] == a[0] && a[0] in a;
    StripsNothing(text);
    PiecesOfPlain(a, '/');
    PiecesOfPlain(b, '/');
    PiecesOfPlain(c, '/');
    PiecesAppend(a, '/', b);
    PiecesAppend(a + ['/'] + b, '/', c);
    assert text == a + ['/'] + b + ['/'] + c && [a] + [b] + [c] == [a, b, c];
    NormalsStay([a, b, c]);
  }

  // ----- steps on concrete trees -----

  lemma MakesOne(fs: Tree, p: Path)
    requires WellFormed(fs) && p != [] && IsDir(fs, Parent(p)) && p !in fs
    ensures !LeadsToDir(fs, p) && CreateDirAll(fs, p) == (fs[p := Dir], true) && WellFormed(fs[p := Dir])
  {
    RealDir(fs, Parent(p));
    LookupStep(fs, p);
    assert Parent(p) + [Last(p)] == p;
    OneStep(fs, Parent(p), Last(p), MAX_LINKS);
    assert CreateDirAll(fs, Parent(p)) == (fs, true);
    PutKeeps(fs, p, Dir);
  }

  lemma MakesNone(fs: Tree, p: Path)
    requires WellFormed(fs) && IsDir(fs, p)
    ensures LeadsToDir(fs, p) && CreateDirAll(fs, p) == (fs, true)
  {
    RealDir(fs, p);
  }

  /** A relative link of one component. */
  function To(name: string): LinkTarget {
    LinkTarget(false, [Normal(name)])
  }

  lemma FollowsOne(fs: Tree, at: Path, a: string, x: string, hops: nat)
    requires at + [a] in fs && fs[at + [a]] == Link(To(x)) && hops > 0
    ensures Walk(fs, at, [Normal(a)], hops) == Walk(fs, at, [Normal(x)], hops - 1)
  {
    assert [Normal(a)][1..] == [] && To(x).components + [] == [Normal(x)];
  }

  /** A link beside its target. */
  lemma LinkLookup(fs: Tree, dir: Path, a: string, x: string)
    requires WellFormed(fs) && IsDir(fs, dir) && dir + [a] in fs && fs[dir + [a]] == Link(To(x))
    ensures Lookup(fs, dir + [a]) == Walk(fs, dir, [Normal(x)], MAX_LINKS - 1)
  {
    var p := dir + [a];
    assert Parent(p) == dir && Last(p) == a;
    RealDir(fs, dir);
    LookupStep(fs, p);
    FollowsOne(fs, dir, a, x, MAX_LINKS);
  }

  lemma PlacesLink(s: Progress, destDir: Path, a: string, x: string)
    requires WellFormed(s.fs) && IsDir(s.fs, destDir)
    ensures var p := destDir + [a];
            var after := Remove(s.fs, p)[p := Link(To(x))];
            Place(s, destDir, p, Symlink(Some(To(x)))) == (Progress(after, s.files + [p], s.dirs), true) &&
            WellFormed(after)
  {
    var p := destDir + [a];
    assert Parent(p) == destDir && Last(p) == a;
    assert To(x).components[1..] == [] && IsSafeLink(To(x), p, destDir);
    RealDir(s.fs, destDir);
    var cleared := Remove(s.fs, p);
    RemoveKeeps(s.fs, p);
    assert IsDir(cleared, destDir);
    RealDir(cleared, destDir);
    PutKeeps(cleared, p, Link(To(x)));
  }

  // ----- a cached directory that is linked away -----

  const D: Path := ["d"]
  const A: Path := D + ["a"]
  const X: Path := D + ["x"]
  const Y: Path := D + ["y"]
  const AB: Path := A + ["b"]
  const XB: Path := X + ["b"]
  const YB: Path := Y + ["b"]
  const ABF: Path := AB + ["f"]
  const XBF: Path := XB + ["f"]

  const MAKE := Entry("a" + "/" + "b", Directory)
  const COVER := Entry("a", Symlink(Some(To("x"))))
  const COVER_X := Entry("x", Symlink(Some(To("y"))))
  const WRITE := Entry("a" + "/" + "b" + "/" + "f", Regular([]))

  /** What the cache holds after a first `MAKE`. */
  const CACHE: set<Path> := {D} + {A} + {AB}

  lemma Names()
    ensures Stripped("a" + "/" + "b") == Some("a" + "/" + "b") && Destination(D, "a" + "/" + "b") == AB
    ensures Stripped("x") == Some("x") && Destination(D, "x") == X
    ensures Stripped("a") == Some("a") && Destination(D, "a") == A
    ensures var f := "a" + "/" + "b" + "/" + "f";
            Stripped(f) == Some(f) && Destination(D, f) == ABF
  {
    TwoNames(D, "a", "b");
    OneName(D, "x");
    OneName(D, "a");
    ThreeNames(D, "a", "b", "f");
    assert D + ["a", "b"] == AB && D + ["a", "b", "f"] == ABF;
  }

  lemma Parents()
    ensures Parent(A) == Parent(X) == D && Parent(AB) == A && Parent(ABF) == AB
    ensures Last(A) == "a" && Last(X) == "x" && Last(AB) == "b" && Last(ABF) == "f"
  {
  }

  lemma CacheAfterMake()
    ensures Uncached({D}, A) == {A} && {D} + Uncached({D}, A) + {AB} == CACHE
    ensures A in CACHE && AB in CACHE && D in CACHE && X !in CACHE && CACHE + {AB} == CACHE
  {
    Parents();
    assert Uncached({D}, D) == {};
  }

  /** The first `MAKE`, below a real directory or below a link to one: the parent is there, the directory is new. */
  lemma FirstMake(fs: Tree, place: Path)
    requires WellFormed(fs) && LeadsToDir(fs, A) && Site(fs, AB) == Some(place) && place !in fs && !LeadsToDir(fs, AB)
    ensures var t := Progress(fs[place := Dir], [], [AB]);
            && CachedEntry(Progress(fs, [], []), {D}, D, MAKE) == (t, CACHE, true)
            && PlainEntry(Progress(fs, [], []), D, MAKE) == (t, true)
            && WellFormed(t.fs)
  {
    Names();
    Parents();
    CacheAfterMake();
    hide Stripped, Destination, Lookup, Uncached;
    assert CreateDirAll(fs, A) == (fs, true);
    assert CreateDirAll(fs, AB) == Put(fs, AB, Dir);
    PutKeeps(fs, AB, Dir);
    assert [] + [AB] == [AB];
  }

  /** A link entry in the destination. */
  lemma Cover(s: Progress, item: Item, a: string, x: string, place: Path)
    requires WellFormed(s.fs) && IsDir(s.fs, D) && IsSimple(a) && place == D + [a]
    requires item == Entry(a, Symlink(Some(To(x))))
    ensures var t := Progress(Remove(s.fs, place)[place := Link(To(x))], s.files + [place], s.dirs);
            && CachedEntry(s, CACHE, D, item) == (t, CACHE, true)
            && PlainEntry(s, D, item) == (t, true)
            && WellFormed(t.fs)
  {
    OneName(D, a);
    CacheAfterMake();
    assert Parent(place) == D;
    PlacesLink(s, D, a, x);
    MakesNone(s.fs, D);
    hide Stripped, Destination, Lookup, Place, Put, Remove;
  }

  lemma RunOfThree(s: Progress, created: set<Path>, a: Item, b: Item, c: Item)
    ensures var (t, made, ok) := CachedEntry(s, created, D, a);
            ok ==> var (u, more, good) := CachedEntry(t, made, D, b);
                   good ==> CachedRun(s, created, D, [a, b, c]) == CachedEntry(u, more, D, c)
    ensures var (t, ok) := PlainEntry(s, D, a);
            ok ==> var (u, good) := PlainEntry(t, D, b);
                   good ==> PlainRun(s, D, [a, b, c]) == PlainEntry(u, D, c)
  {
    hide CachedEntry, PlainEntry;
    assert [a, b, c][1..] == [b, c] && [b, c][1..] == [c] && [c][1..] == [];
    var (t, made, ok) := CachedEntry(s, created, D, a);
    if ok {
      var (u, more, good) := CachedEntry(t, made, D, b);
      if good {
        assert CachedRun(u, more, D, [c]) == CachedEntry(u, more, D, c);
        assert CachedRun(t, made, D, [b, c]) == CachedRun(u, more, D, [c]);
      }
    }
    var (t', ok') := PlainEntry(s, D, a);
    if ok' {
      var (u, good) := PlainEntry(t', D, b);
      if good {
        assert PlainRun(u, D, [c]) == PlainEntry(u, D, c);
        assert PlainRun(t', D, [b, c]) == PlainRun(u, D, [c]);
      }
    }
  }

  /** The first `MAKE` in a real directory. */
  lemma RealMake(fs: Tree)
    requires WellFormed(fs) && IsDir(fs, A) && AB !in fs
    ensures var t := Progress(fs[AB := Dir], [], [AB]);
            && CachedEntry(Progress(fs, [], []), {D}, D, MAKE) == (t, CACHE, true)
            && PlainEntry(Progress(fs, [], []), D, MAKE) == (t, true)
            && WellFormed(t.fs)
  {
    Parents();
    MakesNone(fs, A);
    MakesOne(fs, AB);
    RealDir(fs, A);
    assert A + ["b"] == AB;
    hide *;
    FirstMake(fs, AB);
  }

  /** A first `MAKE` leads from `s` to `t`, with and without the cache. */
  predicate MadeFrom(s: Progress, t: Progress) {
    CachedEntry(s, {D}, D, MAKE) == (t, CACHE, true) && PlainEntry(s, D, MAKE) == (t, true)
  }

  /** A link entry leads from `t` to `u`, with and without the cache. */
  predicate CoveredFrom(t: Progress, u: Progress, item: Item) {
    CachedEntry(t, CACHE, D, item) == (u, CACHE, true) && PlainEntry(t, D, item) == (u, true)
  }

  // ----- one: only the cached run succeeds -----

  const BARE: Tree := map[[] := Dir, D := Dir]
  const BARE_A: Tree := BARE[A := Dir]
  const DANGLING: Tree := BARE[A := Link(To("x"))]

  lemma BareTrees()
    ensures WellFormed(BARE) && WellFormed(BARE_A) && IsDir(BARE_A, A) && IsDir(BARE_A, D)
    ensures AB !in BARE_A && X !in BARE_A && X !in DANGLING && A in DANGLING && AB !in DANGLING
    ensures WellFormed(DANGLING) && IsDir(DANGLING, D)
    ensures Remove(BARE_A[AB := Dir], A)[A := Link(To("x"))] == DANGLING
  {
    Parents();
    assert Parent(D) == [];
    assert A <= A && A <= AB && !(A <= D) && !(A <= []);
  }

  /** A second `MAKE` after `A` was linked to nothing. */
  lemma DanglingMake(s: Progress)
    requires s.fs == DANGLING
    ensures CachedEntry(s, CACHE, D, MAKE) == (s.(dirs := s.dirs + [AB]), CACHE, true)
    ensures !PlainEntry(s, D, MAKE).1
  {
    Names();
    Parents();
    CacheAfterMake();
    BareTrees();
    hide Stripped, Destination, DANGLING, BARE, BARE_A, CACHE;
    LinkLookup(s.fs, D, "a", "x");
    OneStep(s.fs, D, "x", MAX_LINKS - 1);
    RealDir(s.fs, D);
    assert CreateDirAll(s.fs, D) == (s.fs, true);
    assert Site(s.fs, A) == Some(A);
    assert CreateDirAll(s.fs, A) == (s.fs, false);
  }

  const ONE0 := Progress(BARE_A, [], [])
  const ONE1 := Progress(BARE_A[AB := Dir], [], [AB])
  const ONE2 := Progress(DANGLING, [A], [AB])

  lemma OneFirst()
    ensures MadeFrom(ONE0, ONE1) && WellFormed(ONE1.fs) && IsDir(ONE1.fs, D)
  {
    BareTrees();
    RealMake(BARE_A);
  }

  lemma OneSecond()
    ensures CoveredFrom(ONE1, ONE2, COVER)
  {
    OneFirst();
    BareTrees();
    assert ONE1.files + [A] == [A];
    assert A == D + ["a"] && COVER == Entry("a", Symlink(Some(To("x")))) && IsSimple("a");
    hide CachedEntry, PlainEntry, Remove, DANGLING, BARE_A, BARE, IsSimple, Destination;
    Cover(ONE1, COVER, "a", "x", A);
  }

  /** A directory, a link to nothing over its parent, and the directory again: the cached run succeeds and lists a
      directory that is not there; the plain run fails. */
  lemma OnlyCachedSucceeds()
    ensures CachedRun(ONE0, {D}, D, [MAKE, COVER, MAKE]) == (Progress(DANGLING, [A], [AB, AB]), CACHE, true)
    ensures !LeadsToDir(DANGLING, AB)
    ensures !PlainRun(ONE0, D, [MAKE, COVER, MAKE]).1
  {
    OneFirst();
    OneSecond();
    NothingUnderDangling();
    assert ONE2.(dirs := ONE2.dirs + [AB]) == Progress(DANGLING, [A], [AB, AB]);
    DanglingMake(ONE2);
    hide *;
    RunOfThree(ONE0, {D}, MAKE, COVER, MAKE);
  }

  lemma NothingUnderDangling()
    ensures !LeadsToDir(DANGLING, AB)
  {
    BareTrees();
    Parents();
    hide DANGLING, BARE, BARE_A;
    LinkLookup(DANGLING, D, "a", "x");
    OneStep(DANGLING, D, "x", MAX_LINKS - 1);
    ParentLeads(DANGLING, AB);
  }

  // ----- two: only the plain run succeeds -----

  const WITH_X: Tree := BARE[X := Dir]
  const WITH_AX: Tree := WITH_X[A := Dir]
  const LINKED: Tree := WITH_X[A := Link(To("x"))]

  lemma LinkedTrees()
    ensures WellFormed(WITH_AX) && IsDir(WITH_AX, A) && IsDir(WITH_AX, D) && AB !in WITH_AX
    ensures WellFormed(LINKED) && IsDir(LINKED, D) && IsDir(LINKED, X) && XB !in LINKED && XBF !in LINKED && A in LINKED
    ensures LINKED[A] == Link(To("x"))
    ensures Remove(WITH_AX[AB := Dir], A)[A := Link(To("x"))] == LINKED
  {
    Parents();
    assert Parent(D) == [];
    assert A <= A && A <= AB && !(A <= D) && !(A <= []) && !(A <= X);
  }

  /** The link leads to `X`, and nothing called b is there. */
  lemma LinkedLookups()
    ensures Lookup(LINKED, A) == Some(Spot(X, MAX_LINKS - 1)) && !LeadsToDir(LINKED, AB)
    ensures Site(LINKED, AB) == Some(XB)
    ensures var after := LINKED[XB := Dir];
            && CreateDirAll(LINKED, AB) == (after, true) && WellFormed(after)
            && Site(after, ABF) == Some(XBF) && XBF !in after
  {
    LinkedTrees();
    Parents();
    hide LINKED, WITH_X, WITH_AX, BARE;
    LinkLookup(LINKED, D, "a", "x");
    OneStep(LINKED, D, "x", MAX_LINKS - 1);
    assert X == D + ["x"] && XB == X + ["b"] && XBF == XB + ["f"];
    LookupStep(LINKED, AB);
    OneStep(LINKED, X, "b", MAX_LINKS - 1);
    PutKeeps(LINKED, AB, Dir);
    var after := LINKED[XB := Dir];
    LookupGrows(LINKED, after, A);
    LookupStep(after, AB);
    OneStep(after, X, "b", MAX_LINKS - 1);
  }

  lemma LinkedWrite(s: Progress)
    requires s.fs == LINKED
    ensures !CachedEntry(s, CACHE, D, WRITE).2
    ensures var fs := LINKED[XB := Dir][XBF := File([])];
            PlainEntry(s, D, WRITE) == (Progress(fs, s.files + [ABF], s.dirs), true)
  {
    Names();
    Parents();
    CacheAfterMake();
    LinkedLookups();
    hide Stripped, Destination, CreateDirAll, Lookup, LINKED, CACHE;
    var after := LINKED[XB := Dir];
    assert after - {XBF} == after;
  }

  const TWO0 := Progress(WITH_AX, [], [])
  const TWO1 := Progress(WITH_AX[AB := Dir], [], [AB])
  const TWO2 := Progress(LINKED, [A], [AB])

  lemma TwoFirst()
    ensures MadeFrom(TWO0, TWO1) && WellFormed(TWO1.fs) && IsDir(TWO1.fs, D)
  {
    LinkedTrees();
    RealMake(WITH_AX);
  }

  lemma TwoSecond()
    ensures CoveredFrom(TWO1, TWO2, COVER)
  {
    TwoFirst();
    LinkedTrees();
    assert TWO1.files + [A] == [A];
    assert A == D + ["a"] && COVER == Entry("a", Symlink(Some(To("x")))) && IsSimple("a");
    hide CachedEntry, PlainEntry, Remove, LINKED, WITH_AX, WITH_X, BARE, IsSimple, Destination;
    Cover(TWO1, COVER, "a", "x", A);
  }

  /** A directory, a link to another directory over its parent, and a file in it: the plain run makes the directory
      again where the link leads and succeeds; the cached run fails. */
  lemma OnlyPlainSucceeds()
    ensures !CachedRun(TWO0, {D}, D, [MAKE, COVER, WRITE]).2
    ensures PlainRun(TWO0, D, [MAKE, COVER, WRITE]) ==
            (Progress(LINKED[XB := Dir][XBF := File([])], [A, ABF], [AB]), true)
  {
    TwoFirst();
    TwoSecond();
    assert TWO2.files + [ABF] == [A, ABF];
    LinkedWrite(TWO2);
    hide *;
    RunOfThree(TWO0, {D}, MAKE, COVER, WRITE);
  }

  // ----- three: both succeed, no link lands on a cached path, and the trees differ -----

  const WITH_Y: Tree := BARE[Y := Dir][A := Link(To("x"))]
  const ROUTED: Tree := WITH_Y[X := Dir]
  const REROUTED: Tree := WITH_Y[X := Link(To("y"))]

  lemma WithYIsTree()
    ensures WellFormed(WITH_Y) && IsDir(WITH_Y, D) && X !in WITH_Y && XB !in WITH_Y
    ensures IsDir(WITH_Y, Y) && YB !in WITH_Y && A in WITH_Y && WITH_Y[A] == Link(To("x"))
  {
    Parents();
    assert Parent(D) == [];
    AddKeeps(BARE, D, "y", Dir);
    AddKeeps(BARE[Y := Dir], D, "a", Link(To("x")));
  }

  lemma RoutedTrees()
    ensures WellFormed(ROUTED) && IsDir(ROUTED, D) && IsDir(ROUTED, X) && XB !in ROUTED && A in ROUTED
    ensures ROUTED[A] == Link(To("x"))
    ensures WellFormed(REROUTED) && IsDir(REROUTED, D) && IsDir(REROUTED, Y) && YB !in REROUTED
    ensures A in REROUTED && REROUTED[A] == Link(To("x")) && X in REROUTED && REROUTED[X] == Link(To("y"))
    ensures Remove(ROUTED[XB := Dir], X)[X := Link(To("y"))] == REROUTED
  {
    Parents();
    WithYIsTree();
    assert X == D + ["x"] && X != A && X != D && X != XB && X != Y && X != YB;
    assert A != XB && D != XB && Y != XB && Y != YB;
    assert X <= X && X <= XB && YB != X;
    hide WITH_Y, BARE, A, D, Y, YB, To;
    AddKeeps(WITH_Y, D, "x", Dir);
    AddKeeps(WITH_Y, D, "x", Link(To("y")));
    NothingBelow(WITH_Y, X);
    RemoveAdded(WITH_Y, X, XB);
  }

  /** Removing a new directory with a new directory in it. */
  lemma RemoveAdded(fs: Tree, p: Path, q: Path)
    requires p <= q && forall r :: r in fs ==> !(p <= r)
    ensures Remove(fs[p := Dir][q := Dir], p) == fs
  {
  }

  lemma RoutedLookups()
    ensures LeadsToDir(ROUTED, A) && Site(ROUTED, AB) == Some(XB) && !LeadsToDir(ROUTED, AB)
  {
    RoutedTrees();
    Parents();
    hide ROUTED, REROUTED, WITH_Y, BARE;
    LinkLookup(ROUTED, D, "a", "x");
    OneStep(ROUTED, D, "x", MAX_LINKS - 1);
    assert X == D + ["x"] && XB == X + ["b"];
    LookupStep(ROUTED, AB);
    OneStep(ROUTED, X, "b", MAX_LINKS - 1);
  }

  lemma ReroutedLookups()
    ensures LeadsToDir(REROUTED, A) && Site(REROUTED, AB) == Some(YB) && !LeadsToDir(REROUTED, AB)
  {
    RoutedTrees();
    Parents();
    hide ROUTED, REROUTED, WITH_Y, BARE;
    LinkLookup(REROUTED, D, "a", "x");
    FollowsOne(REROUTED, D, "x", "y", MAX_LINKS - 1);
    OneStep(REROUTED, D, "y", MAX_LINKS - 2);
    assert Y == D + ["y"] && YB == Y + ["b"];
    LookupStep(REROUTED, AB);
    OneStep(REROUTED, Y, "b", MAX_LINKS - 2);
  }

  lemma ReroutedMake(s: Progress)
    requires s.fs == REROUTED
    ensures CachedEntry(s, CACHE, D, MAKE) == (s.(dirs := s.dirs + [AB]), CACHE, true)
    ensures PlainEntry(s, D, MAKE) == (Progress(REROUTED[YB := Dir], s.files, s.dirs + [AB]), true)
  {
    Names();
    Parents();
    CacheAfterMake();
    RoutedTrees();
    ReroutedLookups();
    hide Stripped, Destination, Lookup, REROUTED, CACHE;
    assert CreateDirAll(s.fs, A) == (s.fs, true);
    assert CreateDirAll(s.fs, AB) == Put(s.fs, AB, Dir);
  }

  const THREE0 := Progress(ROUTED, [], [])
  const THREE1 := Progress(ROUTED[XB := Dir], [], [AB])
  const THREE2 := Progress(REROUTED, [X], [AB])

  lemma ThreeFirst()
    ensures MadeFrom(THREE0, THREE1) && WellFormed(THREE1.fs) && IsDir(THREE1.fs, D)
  {
    RoutedTrees();
    RoutedLookups();
    hide CachedEntry, PlainEntry, Lookup, REROUTED;
    FirstMake(ROUTED, XB);
  }

  lemma ThreeSecond()
    ensures CoveredFrom(THREE1, THREE2, COVER_X)
  {
    ThreeFirst();
    RoutedTrees();
    hide Walk, CreateDirAll, Place, Stripped, PlainRun, CachedRun;
    assert THREE1.files + [X] == [X];
    assert X == D + ["x"] && COVER_X == Entry("x", Symlink(Some(To("y")))) && IsSimple("x");
    hide CachedEntry, PlainEntry, Remove, ROUTED, REROUTED, WITH_Y, BARE, IsSimple, Destination;
    Cover(THREE1, COVER_X, "x", "y", X);
  }

  /** A directory below a link, a link over what that link leads to, and the directory again: no link lands on a
      cached path, both runs succeed with the same lists, and the plain one has a directory more. */
  lemma TreesDiffer()
    ensures A in CACHE && X !in CACHE && YB !in REROUTED
    ensures CachedRun(THREE0, {D}, D, [MAKE, COVER_X, MAKE]) == (Progress(REROUTED, [X], [AB, AB]), CACHE, true)
    ensures PlainRun(THREE0, D, [MAKE, COVER_X, MAKE]) == (Progress(REROUTED[YB := Dir], [X], [AB, AB]), true)
  {
    CacheAfterMake();
    RoutedTrees();
    ThreeFirst();
    ThreeSecond();
    assert THREE2.dirs + [AB] == [AB, AB];
    ReroutedMake(THREE2);
    hide *;
    RunOfThree(THREE0, {D}, MAKE, COVER_X, MAKE);
  }
}
