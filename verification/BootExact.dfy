/** Exactly which boot units the promises about filtering hold for, whatever else the rootfs holds. */
module BootExact {
  import opened Common
  import opened PathNames
  import opened DinitUnits
  import opened Paths
  import opened BootServices
  import opened BootPasses

  /** The rootfs has a boot unit with this text, and only links in boot.d. */
  ghost predicate HasBoot(w: World, lines: seq<string>) {
    BOOT in w.units && w.units[BOOT] == lines && LinksOnly(w)
  }

  /** Apart from state-mount, no kept service leads to the boot unit. */
  ghost predicate KeptLeadAway(w: World) {
    forall s :: s in Kept(w, BootList(w)) && s != STATE_MOUNT ==> !Reaches(w.Edges(), s, BOOT)
  }

  /** The boot unit lists the kept services afterwards, filtering has changed the verdict of none of them, and
      validation passes exactly when /bin/true is executable and state-mount, if listed, can run. */
  ghost predicate FiltersSafely(w: World, links: string -> bool) {
    var kept, after := Kept(w, BootList(w)), Filtered(w, links);
    && BootList(after) == kept
    && (forall s :: s in kept ==> (w.Runnable(s, []) <==> after.Runnable(s, [])))
    && (Validates(after) <==> Expected(w))
  }

  // ----- a rootfs on which the promises fail -----

  const PLAIN_UNIT := ["command = " + "/sbin/init"]
  const ON_BOOT := ["command = " + "/sbin/init"] + DependsLines([BOOT])

  /** Everything listed can run; `/bin/true` is a script without an interpreter unless the boot unit runs it. */
  function TrapImage(lines: seq<string>): Image {
    Image(map[],
          {Command(lines), "/sbin/init", "/bin/true", "/usr/bin/alpenglowed-bin", "/usr/bin/alpenglowed-lite",
           "/usr/local/bin/alpenglow-zramctl-zig"},
          if Command(lines) == "/bin/true" then map[] else map["/bin/true" := "#!"],
          {"mount", Applet(lines)})
  }

  /** The boot unit as it is, `service` on top of it, and nothing behind the other services. */
  function Trap(lines: seq<string>, service: string): World {
    var names := {BOOT} + Elements(Listed(lines)) + Elements(Dependencies(lines));
    World(TrapImage(lines),
          map n | n in names && CanBeUnit(n) ::
            if n == BOOT then lines else if n == service then ON_BOOT else PLAIN_UNIT)
  }

  lemma TrapUnits()
    ensures Command(PLAIN_UNIT) == Command(ON_BOOT) == "/sbin/init"
    ensures Dependencies(PLAIN_UNIT) == [] && Dependencies(ON_BOOT) == [BOOT]
  {
    assert PLAIN_UNIT == ["command = " + "/sbin/init"] + [];
    CommandReads("/sbin/init", []);
    CommandReads("/sbin/init", DependsLines([BOOT]));
    DependsLinesRead([BOOT]);
    PlainUntrimmed([BOOT]);
    SkipsLine("command = " + "/sbin/init", []);
    SkipsLine("command = " + "/sbin/init", DependsLines([BOOT]));
  }

  lemma TrapLocal(lines: seq<string>, service: string, n: string)
    requires Startable(lines) && n in Trap(lines, service).units
    ensures Trap(lines, service).LocalOk(n)
  {
    hide Command, Applet, Listed, Dependencies;
    TrapUnits();
  }

  /** A listed service that is no dependency of the boot unit runs on top of it. */
  lemma TrapRuns(lines: seq<string>, service: string)
    requires !Contained(lines) && service in Listed(lines) && service !in Dependencies(lines)
    ensures service in Trap(lines, service).units && !IsPlain(service)
    ensures Trap(lines, service).Runnable(service, [])
    ensures forall s :: s in Listed(lines) && CanBeUnit(s) ==> Trap(lines, service).Runnable(s, [])
    ensures Reaches(Trap(lines, service).Edges(), service, BOOT)
  {
    hide Command, Applet, Listed, Dependencies, LocallyRunnable, World.Runnable;
    var w := Trap(lines, service);
    TrapUnits();
    ListedAreDependencies(lines, service);
    forall n | n in w.units
      ensures w.LocalOk(n)
    {
      TrapLocal(lines, service, n);
    }
    forall n, above | n in w.units && n != BOOT && n != service && AllWords(above)
      ensures IsWord(n) && w.Runnable(n, above)
    {
      RunnableMeans(w, n, above);
    }
    var above := [] + [service];
    forall d | d in w.Deps(BOOT)
      ensures d !in above && w.Runnable(d, above + [BOOT])
    {
    }
    RunnableMeans(w, BOOT, above);
    RunnableMeans(w, service, []);
    forall s | s in Listed(lines) && CanBeUnit(s)
      ensures w.Runnable(s, [])
    {
      ListedAreDependencies(lines, s);
    }
    assert w.Edges()(service, BOOT);
    EdgeLeads(w.Edges(), service, BOOT);
  }

  /** Filtering the trap keeps everything that can be a unit. */
  lemma TrapKeepsAll(lines: seq<string>, service: string)
    requires !Contained(lines) && service in Listed(lines) && service !in Dependencies(lines)
    ensures var w := Trap(lines, service);
            BootList(w) == Listed(lines) && HasBoot(w, lines) &&
            forall s :: s in Listed(lines) && CanBeUnit(s) ==> s in Kept(w, BootList(w))
  {
    TrapRuns(lines, service);
    TrapHasBoot(lines, service);
    hide *;
    var w := Trap(lines, service);
    forall s | s in Listed(lines) && CanBeUnit(s)
      ensures s in Kept(w, BootList(w))
    {
      RunnableIsKept(w, s);
    }
  }

  lemma RunnableIsKept(w: World, service: string)
    requires service in BootList(w) && w.Runnable(service, [])
    ensures service in Kept(w, BootList(w))
  {
    KeptExactly(w, BootList(w), service);
  }

  lemma TrapHasBoot(lines: seq<string>, service: string)
    ensures HasBoot(Trap(lines, service), lines) && BootList(Trap(lines, service)) == Listed(lines)
  {
    BootCanBeUnit();
    hide Listed, Dependencies, TrapImage, CanBeUnit;
  }

  /** A service on top of the boot unit fails with it. */
  lemma FailsWithBoot(v: World, service: string, d: string)
    requires IsWord(service) && BOOT in v.Deps(service)
    requires !v.LocalOk(BOOT) || (d in v.Deps(BOOT) && (d == BOOT || !v.LocalOk(d)))
    ensures !v.Runnable(service, [])
  {
    hide World.Runnable, World.LocalOk, World.Deps;
    RunnableExact(v, service);
    assert v.Edges()(service, BOOT);
    EdgeLeads(v.Edges(), service, BOOT);
    if v.LocalOk(BOOT) {
      assert v.Edges()(BOOT, d);
      EdgeLeads(v.Edges(), BOOT, d);
      LeadsTransitive(v.Edges(), service, BOOT, d);
    }
  }

  /** After the rewrite, the boot unit of the trap cannot run, and so neither can the service on top of it. */
  lemma TrapSprings(lines: seq<string>, service: string)
    requires !Contained(lines) && !Stable(lines) && service in Listed(lines) && service !in Dependencies(lines)
    ensures var w := Trap(lines, service);
            !Rewired(w, Kept(w, BootList(w))).Runnable(service, [])
  {
    hide Applet, Dependencies, Listed, World.Runnable, Command, LocallyRunnable;
    var w := Trap(lines, service);
    var kept := Kept(w, BootList(w));
    var v := Rewired(w, kept);
    TrapUnits();
    TrapRuns(lines, service);
    assert v.units[service] == w.units[service] == ON_BOOT;
    if Command(lines) != "/bin/true" {
      RewiredBootFails(lines, kept);
      FailsWithBoot(v, service, BOOT);
    } else {
      var d := LostDependency(lines, service);
      FailsWithBoot(v, service, d);
    }
  }

  /** A listed service whose trimmed name is nowhere. */
  lemma LostWord(lines: seq<string>) returns (k: string)
    requires !Stable(lines) && Command(lines) == "/bin/true"
    ensures k in Listed(lines) && CanBeUnit(k) && IsPlain(DropSpaces(k))
    ensures DropSpaces(k) !in Dependencies(lines) && DropSpaces(k) !in Listed(lines)
  {
    hide Dependencies, Listed, Command;
    k :| k in Listed(lines) && DropSpaces(k) != "" && DropSpaces(k) !in Dependencies(lines);
    DropSpacesWord(k);
    ListedAreDependencies(lines, k);
    if DropSpaces(k) in Listed(lines) {
      ListedAreDependencies(lines, DropSpaces(k));
    }
  }

  /** It becomes a dependency of the rewritten boot unit. */
  lemma LostDependency(lines: seq<string>, service: string) returns (d: string)
    requires !Contained(lines) && !Stable(lines) && service in Listed(lines) && service !in Dependencies(lines)
    requires Command(lines) == "/bin/true"
    ensures var w := Trap(lines, service);
            var v := Rewired(w, Kept(w, BootList(w)));
            d in v.Deps(BOOT) && (d == BOOT || d !in v.units)
  {
    hide Applet, Dependencies, Listed, World.Runnable, Command, Contained, Stable, DropSpaces, Trimmed, Kept, TrapImage;
    var w := Trap(lines, service);
    var kept := Kept(w, BootList(w));
    var k := LostWord(lines);
    d := DropSpaces(k);
    TrapKeepsAll(lines, service);
    RewiredLists(w, kept);
    TrimmedExactly(kept, d);
  }

  lemma RewiredBootFails(lines: seq<string>, services: seq<string>)
    requires Command(lines) != "" && Command(lines) != "/bin/true"
    ensures !LocallyRunnable(TrapImage(lines), BOOT, BootUnit(services))
  {
    hide Command, Applet;
    RewiredCommand(services);
    var img := TrapImage(lines);
    assert img.firstLines["/bin/true"] == "#!" && Interpreter("#!") == "";
    assert "" !in img.programs;
  }

  lemma TrapFails(lines: seq<string>) returns (w: World)
    requires !Contained(lines) && !Stable(lines) && forall s :: s in Listed(lines) ==> StaysInBootD(s)
    ensures HasBoot(w, lines) && !FiltersSafely(w, _ => true)
  {
    hide Listed, Dependencies, World.Runnable, Command, Stable;
    var s :| s in Listed(lines) && s !in Dependencies(lines);
    w := Trap(lines, s);
    TrapRuns(lines, s);
    TrapKeepsAll(lines, s);
    TrapSprings(lines, s);
    hide Contained;
    FilteredIsRewired(w, _ => true);
  }

  // ----- a service whose path leads out of boot.d -----

  /** A unit that wants two others. */
  function OnTwo(a: string, b: string): seq<string> {
    ["command = " + "/sbin/init", "depends-on = " + (a + " " + b)]
  }

  const BASE := "init"

  /** Every service runs; `climber` needs the unit that its link replaces. */
  function Ladder(lines: seq<string>, climber: string): World {
    var below := LinkPath(climber);
    var names := {BOOT, BASE, below} + Elements(Listed(lines));
    World(TrapImage(lines),
          map n | n in names && CanBeUnit(n) ::
            if n == BOOT then lines else if n == climber && below != BOOT then OnTwo(BASE, below) else PLAIN_UNIT)
  }

  predicate Climbs(lines: seq<string>, climber: string) {
    climber in Listed(lines) && IsDirect(climber) && !StaysInBootD(climber)
  }

  lemma TwoWords(a: string, b: string)
    requires IsPlain(a) && IsWord(b)
    ensures DropSpaces(a + " " + b) == a + " " + b && Words(a + " " + b) == [a, b]
  {
    var text := a + " " + b;
    assert text[0] == a[0];
    TokenIs(text, a, " " + b);
    assert text[|a|..] == " " + b && (" " + b)[1..] == b;
    WordsOfWord(b);
    assert Words(" " + b) == Words(b);
  }

  lemma TwoDependencies(a: string, b: string)
    requires IsPlain(a) && IsWord(b)
    ensures Command(OnTwo(a, b)) == "/sbin/init" && Dependencies(OnTwo(a, b)) == [a, b]
  {
    var text := a + " " + b;
    var first, line := "command = " + "/sbin/init", "depends-on = " + text;
    CommandReads("/sbin/init", [line]);
    SkipsLine(first, [line]);
    assert OnTwo(a, b) == [first] + [line];
    TwoWords(a, b);
    assert line[13..] == text;
    StrictIsLoose(line);
  }

  /** What the steps up leave is a word that a unit can be called. */
  lemma ClimberBelow(lines: seq<string>, climber: string)
    requires Climbs(lines, climber)
    ensures IsWord(LinkPath(climber)) && CanBeUnit(LinkPath(climber))
    ensures CanBeUnit(climber) && climber != BOOT && climber != BASE && climber != LinkPath(climber)
  {
    DirectHasName(climber);
    var below := climber[3..];
    forall i | 0 <= i < |below|
      ensures !SplitsWords(below[i])
    {
      assert below[i] == climber[i + 3];
    }
    assert climber[0] == "../"[0] == '.' && BOOT[0] == 'b' && BASE[0] == 'i' && BOOT_D[0] == (BOOT_D + "/")[0] == 'b';
  }

  lemma DirectHasName(service: string)
    requires IsDirect(service) && "../" <= service
    ensures service[3..] != ""
  {
    EmptyPiece();
    assert AfterClimb(service) == AfterClimb(service[3..]);
  }

  lemma EmptyPiece()
    ensures AfterClimb("") == "" && "" in Pieces<char>("", '/')
  {
  }

  lemma LadderLocal(lines: seq<string>, climber: string, n: string)
    requires Climbs(lines, climber) && n in Ladder(lines, climber).units && n != BOOT
    ensures Ladder(lines, climber).LocalOk(n)
  {
    hide Command, Applet, Listed, Dependencies, Climbs;
    TrapUnits();
    ClimberBelow(lines, climber);
    TwoDependencies(BASE, LinkPath(climber));
  }

  /** On the ladder every listed service runs, but for the boot unit and what cannot be a unit. */
  lemma LadderRuns(lines: seq<string>, climber: string)
    requires Climbs(lines, climber)
    ensures HasBoot(Ladder(lines, climber), lines)
    ensures forall s :: s in Listed(lines) && s != BOOT && CanBeUnit(s) ==> Ladder(lines, climber).Runnable(s, [])
  {
    hide Command, Applet, Listed, Dependencies, LocallyRunnable, World.Runnable, IsDirect;
    var w := Ladder(lines, climber);
    var below := LinkPath(climber);
    TrapUnits();
    ClimberBelow(lines, climber);
    TwoDependencies(BASE, below);
    forall n | n in w.units && n != BOOT
      ensures w.LocalOk(n)
    {
      LadderLocal(lines, climber, n);
    }
    forall n, above | n in w.units && n != BOOT && n != climber && AllWords(above) && IsWord(n)
      ensures w.Runnable(n, above)
    {
      RunnableMeans(w, n, above);
    }
    if below == BOOT {
      RunnableMeans(w, climber, []);
    } else {
      var above := [] + [climber];
      assert w.Runnable(BASE, above) && w.Runnable(below, above);
      RunnableMeans(w, climber, []);
    }
  }

  /** Where a listed service leads out of boot.d, some rootfs is not filtered safely: the link for the kept service
      replaces a unit that it needs, or the boot unit. */
  lemma LadderFails(lines: seq<string>, climber: string)
    requires Climbs(lines, climber)
    ensures HasBoot(Ladder(lines, climber), lines) && !FiltersSafely(Ladder(lines, climber), _ => true)
  {
    var w := Ladder(lines, climber);
    var below := LinkPath(climber);
    LadderRuns(lines, climber);
    ClimberBelow(lines, climber);
    LadderDropsBelow(lines, climber);
    LadderUnits(lines, climber);
    hide *;
    KeptExactly(w, BootList(w), climber);
    LadderLoses(w, climber, _ => true);
    if below != BOOT {
      NeedsMissing(Filtered(w, _ => true), climber, below);
    }
  }

  lemma LadderUnits(lines: seq<string>, climber: string)
    requires Climbs(lines, climber)
    ensures var w, below := Ladder(lines, climber), LinkPath(climber);
            && BootList(w) == Listed(lines) && climber in BootList(w) && IsWord(climber)
            && Survives(w, climber)
            && climber in w.units && (below != BOOT ==> w.Deps(climber) == [BASE, below])
  {
    hide Command, Applet, World.Runnable, IsDirect, TrapImage, Dependencies, Listed, LinkPath;
    ClimberBelow(lines, climber);
    LadderRuns(lines, climber);
    TwoDependencies(BASE, LinkPath(climber));
  }

  /** The path of a kept service's link is no unit afterwards, unless it is the boot unit that is written again; all
      other units are as they were, or gone. */
  lemma LadderLoses(w: World, climber: string, links: string -> bool)
    requires LinksOnly(w) && climber in Kept(w, BootList(w)) && links(climber)
    requires forall s :: s in BootList(w) ==> Survives(w, s) || StaysInBootD(s)
    ensures LinkPath(climber) !in Filtered(w, links).units
    ensures forall u :: u in Filtered(w, links).units && u != BOOT ==>
              u in w.units && Filtered(w, links).units[u] == w.units[u]
  {
    hide World.Runnable, Survives, Listed, StaysInBootD, LinkPath;
    SiftIsKept(w, BootList(w));
    var r := Sift(w, BootList(w));
    assert LinkPath(climber) in Linked(r.kept, links);
  }

  lemma NeedsMissing(v: World, service: string, missing: string)
    requires IsWord(service) && IsWord(missing) && missing !in v.units
    requires service in v.units ==> missing in v.Deps(service)
    ensures !v.Runnable(service, [])
  {
    RunnableMeans(v, service, []);
    RunnableMeans(v, missing, [] + [service]);
  }

  /** What is dropped there is removed below boot.d. */
  lemma LadderDropsBelow(lines: seq<string>, climber: string)
    requires Climbs(lines, climber)
    ensures forall s :: s in Listed(lines) ==> Survives(Ladder(lines, climber), s) || StaysInBootD(s)
  {
    hide Command, Applet, Listed, World.Runnable, IsDirect;
    LadderRuns(lines, climber);
    forall s | s in Listed(lines) && (s == BOOT || !CanBeUnit(s))
      ensures StaysInBootD(s)
    {
      assert BOOT[0] == BOOT_D[0] == (BOOT_D + "/")[0] == 'b' && "../"[0] == '.';
    }
  }

  /** A service name that is nothing special. */
  predicate IsOrdinary(name: string) {
    && IsPlain(name) && StaysInBootD(name) && LinkPath(name) != BOOT
    && CanBeUnit(name) && name != BOOT && name != STATE_MOUNT
  }

  /** A boot list with a service and its namesake one directory up. */
  function Namesakes(name: string): seq<string> {
    [name, "../" + name]
  }

  /** There is a unit for the first only. */
  function OneUnit(name: string): World {
    var lines := BootUnit(Namesakes(name));
    World(TrapImage(lines), map[BOOT := lines, name := PLAIN_UNIT])
  }

  lemma NamesakeWords(name: string)
    requires IsOrdinary(name)
    ensures IsPlain("../" + name) && AllWords(Namesakes(name)) && LinkPath("../" + name) == name
    ensures "../" + name != STATE_MOUNT && "../" + name != BOOT && "../" + name != name
  {
    var up := "../" + name;
    assert up[3..] == name && up[0] == '.' && BOOT[0] == 'b' && STATE_MOUNT[0] == 's' && |up| == |name| + 3;
    forall i | 0 <= i < |up|
      ensures !SplitsWords(up[i])
    {
      assert i >= 3 ==> up[i] == name[i - 3];
    }
  }

  lemma NamesakesRead(name: string)
    requires IsOrdinary(name)
    ensures AllWords(Namesakes(name))
    ensures var lines := BootUnit(Namesakes(name));
            && Listed(lines) == Namesakes(name) && Command(lines) == "/bin/true"
            && Contained(lines) && Stable(lines)
  {
    NamesakeWords(name);
    hide Listed, Dependencies, Command, Stable, BootUnit, Trimmed, Startable;
    BootUnitRoundTrip(Namesakes(name));
    RewiredCommand(Namesakes(name));
    WrittenIsStable(Namesakes(name));
  }

  lemma FirstLocal(name: string)
    requires IsOrdinary(name)
    ensures OneUnit(name).LocalOk(name) && OneUnit(name).Deps(name) == []
    ensures NativeExecutable(OneUnit(name).img, "/bin/true")
  {
    TrapUnits();
    hide Listed, Dependencies, Command, Applet, BootUnit;
  }

  lemma TwoUnitsHave(img: Image, lines: seq<string>, name: string, unit: seq<string>)
    requires name != BOOT && CanBeUnit(name)
    ensures var w := World(img, map[BOOT := lines, name := unit]);
            HasBoot(w, lines) && BootList(w) == Listed(lines) &&
            forall other :: other != BOOT && other != name ==> other !in w.units
  {
    BootCanBeUnit();
    hide CanBeUnit, Listed;
  }

  lemma OneUnitHas(name: string)
    requires IsOrdinary(name)
    ensures var w := OneUnit(name);
            HasBoot(w, BootUnit(Namesakes(name))) && BootList(w) == Namesakes(name) &&
            "../" + name !in w.units && STATE_MOUNT !in Namesakes(name)
  {
    var lines, up := BootUnit(Namesakes(name)), "../" + name;
    assert OneUnit(name) == World(TrapImage(lines), map[BOOT := lines, name := PLAIN_UNIT]);
    assert Namesakes(name) == [name, up];
    NamesakeWords(name);
    NamesakesRead(name);
    assert name != BOOT && CanBeUnit(name) && name != STATE_MOUNT;
    hide *;
    TwoUnitsHave(TrapImage(lines), lines, name, PLAIN_UNIT);
  }

  lemma BootCanBeUnit()
    ensures CanBeUnit(BOOT)
  {
  }

  lemma FirstRuns(name: string)
    requires IsOrdinary(name)
    ensures Expected(OneUnit(name)) && OneUnit(name).Runnable(name, [])
    ensures IsWord("../" + name) && !OneUnit(name).Runnable("../" + name, [])
  {
    NamesakeWords(name);
    FirstLocal(name);
    OneUnitHas(name);
    hide World.Runnable, World.LocalOk, World.Deps, OneUnit, BootList, NativeExecutable, LinkPath, HasBoot;
    RunnableMeans(OneUnit(name), name, []);
  }

  lemma SiftTwo(w: World, a: string, b: string)
    requires IsWord(a) && IsWord(b) && Survives(w, a) && !Survives(w, b)
    ensures AllWords([a, b]) && Sift(w, [a, b]) == Sifting([a], {LinkPath(b)})
  {
    hide Survives, LinkPath, Sift;
    var both := [a, b];
    assert both[..0] == [] && both[..1] == [a] && both[..2] == both;
    SiftNone(w);
    SiftNext(w, both, 0);
    SiftNext(w, both, 1);
    assert [] + [a] == [a] && {} + {LinkPath(b)} == {LinkPath(b)};
  }

  lemma NamesakesSift(name: string)
    requires IsOrdinary(name)
    ensures AllWords(Namesakes(name)) && Sift(OneUnit(name), Namesakes(name)) == Sifting([name], {name})
  {
    NamesakeWords(name);
    FirstRuns(name);
    assert IsWord(name) && Survives(OneUnit(name), name) && !Survives(OneUnit(name), "../" + name);
    assert Namesakes(name) == [name, "../" + name];
    hide *;
    SiftTwo(OneUnit(name), name, "../" + name);
  }

  lemma OneKept(w: World, name: string, links: string -> bool)
    requires Sift(w, BootList(w)) == Sifting([name], {name}) && name != BOOT && LinkPath(name) != BOOT
    ensures var units := Filtered(w, links).units;
            name !in units && BOOT in units && units[BOOT] == BootUnit([name])
  {
    hide Sift, BootList, LinkPath, BootUnit, World.Runnable;
    assert BOOT !in Linked([name], links);
  }

  /** The one service kept has lost its unit. */
  lemma KeptButGone(w: World, name: string, links: string -> bool)
    requires Sift(w, BootList(w)) == Sifting([name], {name}) && IsPlain(name)
    requires name != BOOT && LinkPath(name) != BOOT && Expected(w)
    ensures name !in Filtered(w, links).units
    ensures !Validates(Filtered(w, links)) && !FiltersSafely(w, links)
  {
    OneKept(w, name, links);
    BootUnitRoundTrip([name]);
    assert IsWord(name);
    hide World.Runnable, Listed, Dependencies, BootUnit, LinkPath, NativeExecutable, Kept, Sift, Filtered;
    hide Expected, IsPlain, IsWord, Trimmed;
    var after := Filtered(w, links);
    assert BootList(after) == [name];
    assert !after.Runnable(BootList(after)[0], []);
  }

  /** A boot unit that meets both conditions, but lists a service that leads out of boot.d: dropping that one removes
      the unit of the other, which was kept, and validation fails. */
  lemma DroppedServiceRemovesUnit(name: string, links: string -> bool)
    requires IsOrdinary(name)
    ensures var lines, w := BootUnit(Namesakes(name)), OneUnit(name);
            && HasBoot(w, lines) && Contained(lines) && Stable(lines)
            && w.Runnable(name, []) && name !in Filtered(w, links).units
            && Expected(w) && !Validates(Filtered(w, links)) && !FiltersSafely(w, links)
  {
    NamesakesRead(name);
    OneUnitHas(name);
    FirstRuns(name);
    NamesakesSift(name);
    assert IsPlain(name) && name != BOOT && LinkPath(name) != BOOT;
    hide *;
    KeptButGone(OneUnit(name), name, links);
  }

  // ----- exactly when the promises hold -----

  /** The text of the boot unit decides whether kept services lead away from it on every rootfs. */
  lemma KeptLeadAwayIff(lines: seq<string>)
    ensures (forall w :: HasBoot(w, lines) ==> KeptLeadAway(w)) <==> Contained(lines)
  {
    hide Listed, Dependencies, World.Runnable;
    if Contained(lines) {
      forall w, s | HasBoot(w, lines) && s in Kept(w, BootList(w)) && s != STATE_MOUNT
        ensures !Reaches(w.Edges(), s, BOOT)
      {
        KeptAvoidsBoot(w, s);
      }
    } else {
      var s :| s in Listed(lines) && s !in Dependencies(lines);
      var w := Trap(lines, s);
      TrapRuns(lines, s);
      TrapKeepsAll(lines, s);
      assert HasBoot(w, lines) && !KeptLeadAway(w);
    }
  }

  /** And whether filtering is safe on every rootfs, whichever links can be made: no service leads out of boot.d, and
      either no kept service leads to the boot unit, or the rewrite keeps its command and adds no dependency. */
  lemma FilteringIsSafeIff(lines: seq<string>)
    requires forall s :: s in Listed(lines) ==> IsDirect(s)
    ensures (forall w, links :: HasBoot(w, lines) ==> FiltersSafely(w, links)) <==>
            (Contained(lines) || Stable(lines)) && forall s :: s in Listed(lines) ==> StaysInBootD(s)
  {
    hide Listed, Dependencies, World.Runnable, Contained, Stable, IsDirect, StaysInBootD;
    if exists s :: s in Listed(lines) && !StaysInBootD(s) {
      var s :| s in Listed(lines) && !StaysInBootD(s);
      LadderFails(lines, s);
    } else if Contained(lines) || Stable(lines) {
      forall w, links: string -> bool | HasBoot(w, lines)
        ensures FiltersSafely(w, links)
      {
        SafelyFiltered(w, links);
      }
    } else {
      var w := TrapFails(lines);
    }
  }

  lemma SafelyFiltered(w: World, links: string -> bool)
    requires LinksOnly(w) && BOOT in w.units && forall s :: s in BootList(w) ==> StaysInBootD(s)
    requires Contained(w.units[BOOT]) || Stable(w.units[BOOT])
    ensures FiltersSafely(w, links)
  {
    hide Listed, Dependencies, World.Runnable, Contained, Stable, StaysInBootD, Filtered;
    var kept := Kept(w, BootList(w));
    FilteredIsRewired(w, links);
    RewiredLists(w, kept);
    ValidationAfterFiltering(w, links);
    forall s | s in kept
      ensures w.Runnable(s, []) <==> Filtered(w, links).Runnable(s, [])
    {
      RewriteKeepsVerdict(w, s);
    }
  }

  lemma WrittenIsStable(services: seq<string>)
    requires AllWords(services)
    ensures Stable(BootUnit(services)) && Listed(BootUnit(services)) == services
  {
    hide Listed, Dependencies, Trimmed;
    BootUnitRoundTrip(services);
    RewiredCommand(services);
    forall s | s in services
      ensures DropSpaces(s) == "" || DropSpaces(s) in Trimmed(services)
    {
      DropSpacesWord(s);
      TrimmedExactly(services, DropSpaces(s));
    }
  }

  /** The boot units that the assembly writes itself are safe to filter exactly when no service leads out of boot.d. */
  lemma WrittenUnitsAreSafe(services: seq<string>)
    requires AllWords(services) && forall s :: s in services ==> IsDirect(s)
    ensures (forall w, links :: HasBoot(w, BootUnit(services)) ==> FiltersSafely(w, links)) <==>
            forall s :: s in services ==> StaysInBootD(s)
  {
    WrittenIsStable(services);
    hide *;
    FilteringIsSafeIff(BootUnit(services));
  }
}
