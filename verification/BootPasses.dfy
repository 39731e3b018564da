/** The passes that filter, rewrite and validate the boot list of a native rootfs. */
module BootPasses {
  import opened Common
  import opened PathNames
  import opened DinitUnits
  import opened Paths
  import opened BootServices

  const BOOT := "boot"

  /** The services the boot unit lists; a missing unit lists none. */
  function BootList(w: World): (r: seq<string>)
    ensures AllWords(r)
  {
    if BOOT in w.units then Listed(w.units[BOOT]) else []
  }

  /** A service survives filtering. */
  predicate Survives(w: World, service: string)
    requires IsWord(service)
  {
    service == STATE_MOUNT || w.Runnable(service, [])
  }

  function Kept(w: World, services: seq<string>): (r: seq<string>)
    requires AllWords(services)
    ensures AllWords(r)
  {
    if services == [] then [] else
    var n := |services| - 1;
    Kept(w, services[..n]) + if Survives(w, services[n]) then [services[n]] else []
  }

  // ----- paths -----

  /** Units are known by their path from the unit directory, and boot.d is a directory beside them. */
  const BOOT_D := "boot.d"

  /** Where ln and rm act for a service: boot.d/<service>, from the unit directory; a leading "../" leaves boot.d. */
  function LinkPath(service: string): string {
    if "../" <= service then service[3..] else BOOT_D + "/" + service
  }

  predicate IsBelowBootD(path: string) {
    BOOT_D + "/" <= path
  }

  /** A path at which a unit can be: boot.d itself is a directory, and only links are below it. */
  predicate CanBeUnit(path: string) {
    path != BOOT_D && !IsBelowBootD(path)
  }

  predicate LinksOnly(w: World) {
    forall path :: path in w.units ==> CanBeUnit(path)
  }

  /** ln and rm for this service act below boot.d. */
  predicate StaysInBootD(service: string) {
    IsBelowBootD(LinkPath(service))
  }

  function AfterClimb(service: string): string {
    if "../" <= service then AfterClimb(service[3..]) else service
  }

  /** The service is spelled as a file's path, without detours: steps up only at the start, then names. */
  predicate IsDirect(service: string) {
    && (forall p :: p in Pieces(AfterClimb(service), '/') ==> p != "" && p != "." && p != "..")
    && LinkPath(service) != BOOT_D
  }

  /** What the filter loop has done: the services kept, and the paths removed. */
  datatype Sifting = Sifting(kept: seq<string>, gone: set<string>)

  function Without(w: World, gone: set<string>): World {
    w.(units := w.units - gone)
  }

  /** The filter loop: each service is judged on what the removals before it have left. */
  function Sift(w: World, services: seq<string>): (r: Sifting)
    requires AllWords(services)
    ensures AllWords(r.kept)
  {
    if services == [] then Sifting([], {}) else
    var n := |services| - 1;
    var r := Sift(w, services[..n]);
    if Survives(Without(w, r.gone), services[n]) then r.(kept := r.kept + [services[n]])
    else r.(gone := r.gone + {LinkPath(services[n])})
  }

  /** The paths that become links, given which ln commands work. */
  function Linked(services: seq<string>, links: string -> bool): set<string> {
    set s | s in services && links(s) :: LinkPath(s)
  }

  /** The units once the links are made and the boot unit is written, unless that is a link by now. */
  function Wired(units: map<string, seq<string>>, services: seq<string>, links: string -> bool, bootIsLink: bool)
    : map<string, seq<string>>
  {
    var rest := units - Linked(services, links);
    if bootIsLink then rest else rest[BOOT := BootUnit(services)]
  }

  /** The rootfs after the filter pass. */
  function Filtered(w: World, links: string -> bool): World {
    var r := Sift(w, BootList(w));
    w.(units := Wired(w.units - r.gone, r.kept, links, BOOT in Linked(r.kept, links)))
  }

  /** The world after the boot unit is rewritten for `services`. */
  function Rewired(w: World, services: seq<string>): World {
    w.(units := w.units[BOOT := BootUnit(services)])
  }

  /** The verdict of validation: /bin/true and every listed service. */
  predicate Validates(w: World) {
    NativeExecutable(w.img, "/bin/true") &&
    forall k :: 0 <= k < |BootList(w)| ==> w.Runnable(BootList(w)[k], [])
  }

  /** The unit directory, updated in place: units, and the links made by the passes. */
  class Rootfs {
    const img: Image
    var units: map<string, seq<string>>
    var madeLinks: set<string>

    constructor (img: Image, units: map<string, seq<string>>, madeLinks: set<string>)
      requires units.Keys !! madeLinks
      ensures this.img == img && this.units == units && this.madeLinks == madeLinks && Valid()
    {
      this.img := img;
      this.units := units;
      this.madeLinks := madeLinks;
    }

    /** A path is a unit or a link. */
    ghost predicate Valid()
      reads this
    {
      units.Keys !! madeLinks
    }

    function Contents(): World
      reads this
    {
      World(img, units)
    }

    /** `_wire_boot_services`: link every service into boot.d, as far as ln works, and write the boot unit. */
    method WireBootServices(services: seq<string>, links: string -> bool)
      requires Valid()
      modifies this
      ensures Valid() && madeLinks == old(madeLinks) + Linked(services, links)
      ensures units == Wired(old(units), services, links, BOOT in madeLinks)
    {
      for k := 0 to |services|
        invariant madeLinks == old(madeLinks) + Linked(services[..k], links)
        invariant units == old(units) - Linked(services[..k], links)
      {
        LinkedNext(services, links, k);
        if links(services[k]) {
          units := units - {LinkPath(services[k])};
          madeLinks := madeLinks + {LinkPath(services[k])};
        }
      }
      assert services[..|services|] == services;
      if BOOT !in madeLinks {
        units := units[BOOT := BootUnit(services)];
      }
    }

    /** `_assemble_native_filter_services`; fails only when there is no boot unit to read. */
    method FilterServices(links: string -> bool) returns (ok: bool)
      requires Valid()
      modifies this
      ensures Valid() && (ok <==> BOOT in old(units))
      ensures !ok ==> units == old(units) && madeLinks == old(madeLinks)
      ensures ok ==> Contents() == Filtered(old(Contents()), links)
      ensures ok ==> var r := Sift(old(Contents()), BootList(old(Contents())));
                     madeLinks == old(madeLinks) - r.gone + Linked(r.kept, links)
    {
      if BOOT !in units {
        return false;
      }
      hide World.Runnable, Listed, Survives, LinkPath, Linked, Sift;
      var kept, gone := SiftServices(BootList(Contents()));
      WireBootServices(kept, links);
      ok := true;
    }

    /** The filter loop. */
    method SiftServices(services: seq<string>) returns (kept: seq<string>, ghost gone: set<string>)
      requires Valid() && AllWords(services)
      modifies this
      ensures Valid() && AllWords(kept) && Sift(old(Contents()), services) == Sifting(kept, gone)
      ensures units == old(units) - gone && madeLinks == old(madeLinks) - gone
    {
      ghost var before := Contents();
      SiftNone(before);
      hide World.Runnable, Listed, Survives, LinkPath, Sift;
      kept, gone := [], {};
      for k := 0 to |services|
        invariant AllWords(kept) && Sift(before, services[..k]) == Sifting(kept, gone)
        invariant units == before.units - gone && madeLinks == old(madeLinks) - gone
      {
        SiftNext(before, services, k);
        if Survives(Contents(), services[k]) {
          kept := kept + [services[k]];
        } else {
          units := units - {LinkPath(services[k])};
          madeLinks := madeLinks - {LinkPath(services[k])};
          gone := gone + {LinkPath(services[k])};
        }
      }
      assert services[..|services|] == services;
    }

    /** `_assemble_native_validate_services`. */
    method ValidateServices() returns (ok: bool)
      ensures ok <==> Validates(Contents())
    {
      ok := CheckExecutable(img, "/bin/true");
      if !ok {
        return;
      }
      hide World.Runnable, Listed;
      var services := BootList(Contents());
      for k := 0 to |services|
        invariant forall j :: 0 <= j < k ==> Contents().Runnable(services[j], [])
      {
        if !Contents().Runnable(services[k], []) {
          return false;
        }
      }
    }
  }

  lemma SiftNone(w: World)
    ensures Sift(w, []) == Sifting([], {}) && Without(w, {}) == w
  {
    assert w.units - {} == w.units;
  }

  lemma SiftNext(w: World, services: seq<string>, k: nat)
    requires AllWords(services) && k < |services|
    ensures var r := Sift(w, services[..k]);
            Sift(w, services[..k + 1]) ==
            if Survives(Without(w, r.gone), services[k]) then r.(kept := r.kept + [services[k]])
            else r.(gone := r.gone + {LinkPath(services[k])})
  {
    hide World.Runnable, Survives, LinkPath;
    assert services[..k + 1][..k] == services[..k];
  }

  lemma LinkedNext(services: seq<string>, links: string -> bool, k: nat)
    requires k < |services|
    ensures Linked(services[..k + 1], links) ==
            Linked(services[..k], links) + if links(services[k]) then {LinkPath(services[k])} else {}
  {
    assert services[..k + 1] == services[..k] + [services[k]];
  }

  // ----- when the passes leave the units alone -----

  /** Whatever is dropped is removed below boot.d, where no unit is: then the loop keeps what was fit at its start. */
  lemma {:induction false} SiftIsKept(w: World, services: seq<string>)
    requires AllWords(services) && LinksOnly(w)
    requires forall s :: s in services ==> Survives(w, s) || StaysInBootD(s)
    ensures Sift(w, services).kept == Kept(w, services) && Without(w, Sift(w, services).gone) == w
    ensures forall path :: path in Sift(w, services).gone ==> IsBelowBootD(path)
  {
    hide World.Runnable, Survives, LinkPath;
    if services != [] {
      var n := |services| - 1;
      assert services[n] in services;
      SiftIsKept(w, services[..n]);
    } else {
    }
  }

  lemma LinkedBelow(services: seq<string>, links: string -> bool)
    requires forall s :: s in services ==> StaysInBootD(s)
    ensures forall path :: path in Linked(services, links) ==> IsBelowBootD(path)
    ensures BOOT !in Linked(services, links)
  {
    assert !IsBelowBootD(BOOT);
  }

  /** For services called by names or paths inside boot.d, the links removed and made are boot.d/<service>. */
  lemma LinksByName(w: World, links: string -> bool)
    requires LinksOnly(w) && forall s :: s in BootList(w) ==> !("../" <= s)
    ensures var r := Sift(w, BootList(w));
            && r.kept == Kept(w, BootList(w))
            && r.gone == (set s | s in BootList(w) && !Survives(w, s) :: "boot.d/" + s)
            && Linked(r.kept, links) == set s | s in r.kept && links(s) :: "boot.d/" + s
  {
    forall s | s in BootList(w)
      ensures LinkPath(s) == "boot.d/" + s && StaysInBootD(s)
    {
      assert BOOT_D + "/" + s == (BOOT_D + "/") + s;
    }
    SiftIsKept(w, BootList(w));
    SiftGone(w, BootList(w));
    forall s | s in Kept(w, BootList(w))
      ensures s in BootList(w)
    {
      KeptExactly(w, BootList(w), s);
    }
  }

  lemma {:induction false} SiftGone(w: World, services: seq<string>)
    requires AllWords(services) && LinksOnly(w) && forall s :: s in services ==> StaysInBootD(s)
    ensures Sift(w, services).gone == set s | s in services && !Survives(w, s) :: LinkPath(s)
  {
    hide World.Runnable, Survives, LinkPath;
    if services != [] {
      var n := |services| - 1;
      SiftGone(w, services[..n]);
      SiftIsKept(w, services[..n]);
      assert services == services[..n] + [services[n]];
    }
  }

  /** With all services linked below boot.d, filtering touches no unit but the boot unit, which it rewrites. */
  lemma FilteredIsRewired(w: World, links: string -> bool)
    requires LinksOnly(w) && forall s :: s in BootList(w) ==> StaysInBootD(s)
    ensures Sift(w, BootList(w)).kept == Kept(w, BootList(w))
    ensures Filtered(w, links) == Rewired(w, Kept(w, BootList(w)))
  {
    hide World.Runnable, Survives, Listed, StaysInBootD;
    var kept := Kept(w, BootList(w));
    SiftIsKept(w, BootList(w));
    forall s | s in kept
      ensures StaysInBootD(s)
    {
      KeptExactly(w, BootList(w), s);
    }
    LinkedBelow(kept, links);
  }

  // ----- what removals do to later verdicts -----

  lemma {:induction false} SoundIsFollowed(w: World, v: World, path: seq<string>)
    requires IsPath(w.Edges(), path) && v.Sound(path[0])
    requires forall n :: n in v.units ==> n in w.units && w.units[n] == v.units[n]
    ensures Reaches(v.Edges(), path[0], path[|path| - 1])
  {
    hide Dependencies, LocallyRunnable;
    if |path| > 1 {
      var n := |path| - 1;
      SoundIsFollowed(w, v, path[..n]);
      assert w.Edges()(path[n - 1], path[n - 1 + 1]) && v.LocalOk(path[n - 1]);
      ReachesByEdge(v.Edges(), path[0], path[n - 1], path[n]);
    }
  }

  lemma SoundReaches(w: World, v: World, a: string, b: string)
    requires v.Sound(a) && Reaches(w.Edges(), a, b)
    requires forall n :: n in v.units ==> n in w.units && w.units[n] == v.units[n]
    ensures Reaches(v.Edges(), a, b)
  {
    hide World.Sound;
    if a != b {
      var path :| Joins(w.Edges(), path, a, b) && |path| >= 2;
      SoundIsFollowed(w, v, path);
    }
  }

  /** What is sound without some units was sound with them, and reaches none of them. */
  lemma SoundBefore(w: World, gone: set<string>, service: string)
    requires Without(w, gone).Sound(service)
    ensures w.Sound(service) && forall n :: Reaches(w.Edges(), service, n) ==> n !in gone
  {
    hide Dependencies, LocallyRunnable;
    var v := Without(w, gone);
    forall n | Reaches(w.Edges(), service, n)
      ensures n !in gone && w.LocalOk(n) && !OnCycle(w.Edges(), n)
    {
      SoundReaches(w, v, service, n);
      assert v.LocalOk(n);
      if OnCycle(w.Edges(), n) {
        var m := FirstEdge(w.Edges(), n, n);
        SoundBelow(v, service, n);
        assert v.Edges()(n, m);
        EdgeLeads(v.Edges(), n, m);
        SoundBelow(v, n, m);
        SoundReaches(w, v, m, n);
        EdgeReaches(v.Edges(), n, m, n);
      }
    }
  }

  lemma SoundWithout(w: World, gone: set<string>, service: string)
    requires w.Sound(service) && forall n :: Reaches(w.Edges(), service, n) ==> n !in gone
    ensures Without(w, gone).Sound(service)
  {
    hide Dependencies, LocallyRunnable;
    var v := Without(w, gone);
    assert IncludedIn(v.Edges(), w.Edges());
    forall n | Reaches(v.Edges(), service, n)
      ensures v.LocalOk(n) && !OnCycle(v.Edges(), n)
    {
      assert Reaches(w.Edges(), service, n);
    }
  }

  /** The filter loop's verdict on one service: kept exactly if it is state-mount, or it was runnable at the start and
      nothing in its reach was removed for a service dropped before it. */
  lemma SiftVerdict(w: World, services: seq<string>, k: nat)
    requires AllWords(services) && k < |services|
    ensures var r, next, s := Sift(w, services[..k]), Sift(w, services[..k + 1]), services[k];
            if s == STATE_MOUNT ||
               (w.Runnable(s, []) && forall n :: Reaches(w.Edges(), s, n) ==> n !in r.gone)
            then next == Sifting(r.kept + [s], r.gone)
            else next == Sifting(r.kept, r.gone + {LinkPath(s)})
  {
    var gone, s := Sift(w, services[..k]).gone, services[k];
    SiftNext(w, services, k);
    RunnableExact(w, s);
    RunnableExact(Without(w, gone), s);
    hide World.Runnable, World.Sound, Sift, LinkPath, Without;
    if Without(w, gone).Sound(s) {
      SoundBefore(w, gone, s);
    } else if w.Sound(s) && forall n :: Reaches(w.Edges(), s, n) ==> n !in gone {
      SoundWithout(w, gone, s);
    }
  }

  // ----- what filtering keeps -----

  lemma {:induction false} KeptExactly(w: World, services: seq<string>, s: string)
    requires AllWords(services)
    ensures s in Kept(w, services) <==> s in services && IsWord(s) && Survives(w, s)
  {
    if services != [] {
      var n := |services| - 1;
      KeptExactly(w, services[..n], s);
      assert services == services[..n] + [services[n]];
    }
  }

  /** Positions of the survivors, in list order. */
  function SurvivorsAt(w: World, services: seq<string>): (r: seq<nat>)
    requires AllWords(services)
    ensures forall k :: 0 <= k < |r| ==> r[k] < |services|
  {
    if services == [] then [] else
    var n := |services| - 1;
    SurvivorsAt(w, services[..n]) + if Survives(w, services[n]) then [n] else []
  }

  /** Filtering keeps exactly the survivors and keeps them in their order. */
  lemma {:induction false} KeptInOrder(w: World, services: seq<string>)
    requires AllWords(services)
    ensures var at, kept := SurvivorsAt(w, services), Kept(w, services);
            && |at| == |kept|
            && (forall k :: 0 <= k < |at| ==> kept[k] == services[at[k]])
            && (forall j, k :: 0 <= j < k < |at| ==> at[j] < at[k])
            && (forall i :: 0 <= i < |services| ==> (i in at <==> Survives(w, services[i])))
  {
    hide World.Runnable, Survives;
    if services != [] {
      var n := |services| - 1;
      KeptInOrder(w, services[..n]);
      var at := SurvivorsAt(w, services[..n]);
      assert forall i :: 0 <= i < n ==> services[..n][i] == services[i];
      assert forall i :: i in SurvivorsAt(w, services) <==> i in at || (i == n && Survives(w, services[n]));
    }
  }

  // ----- rewriting the boot unit -----

  /** Some image lets a boot unit with this text run, as far as the unit itself goes. */
  predicate Startable(lines: seq<string>) {
    Command(lines) != "" && (Command(lines) == "/bin/toybox" ==> Applet(lines) != "")
  }

  /** A property of the boot unit's text: whatever filtering reads as listed the runnable check reads as a
      dependency, or no service can both run and depend on the boot unit anyway. */
  predicate Contained(lines: seq<string>) {
    || (exists d :: d in Dependencies(lines) && (d == BOOT || !CanBeUnit(d))) || !Startable(lines)
    || forall s :: s in Listed(lines) ==> s in Dependencies(lines)
  }

  /** Rewriting adds no dependency to the boot unit and keeps its command. */
  predicate Stable(lines: seq<string>) {
    && Command(lines) == "/bin/true"
    && forall s :: s in Listed(lines) ==> DropSpaces(s) == "" || DropSpaces(s) in Dependencies(lines)
  }

  lemma RewiredDiffersAtBoot(w: World, services: seq<string>)
    ensures AgreeExceptAt(w.Edges(), Rewired(w, services).Edges(), BOOT)
    ensures forall s :: s != BOOT ==> (w.LocalOk(s) <==> Rewired(w, services).LocalOk(s))
  {
  }

  lemma RewiredLists(w: World, services: seq<string>)
    requires AllWords(services)
    ensures BootList(Rewired(w, services)) == services && Rewired(w, services).Deps(BOOT) == Trimmed(services)
  {
    BootUnitRoundTrip(services);
  }

  /** A runnable dependency of the boot unit does not lead back to it. */
  lemma DependencyAvoidsBoot(w: World, service: string)
    requires IsWord(service) && w.Runnable(service, []) && service in w.Deps(BOOT)
    ensures !Reaches(w.Edges(), service, BOOT)
  {
    hide World.Runnable, World.LocalOk;
    RunnableExact(w, service);
    if Reaches(w.Edges(), service, BOOT) {
      assert w.Edges()(BOOT, service);
      EdgeReaches(w.Edges(), BOOT, service, BOOT);
    }
  }

  /** If a runnable listed service does lead to the boot unit, that unit runs, is off every cycle, and does not
      depend on the service. */
  lemma ReachingBoot(w: World, service: string)
    requires service in BootList(w) && w.Runnable(service, []) && Reaches(w.Edges(), service, BOOT) && LinksOnly(w)
    ensures w.Sound(service) && w.LocalOk(BOOT) && !OnCycle(w.Edges(), BOOT)
    ensures !Contained(w.units[BOOT])
  {
    hide Dependencies, Listed, World.Runnable;
    RunnableExact(w, service);
    if service in w.Deps(BOOT) {
      DependencyAvoidsBoot(w, service);
    }
    forall d | d in w.Deps(BOOT)
      ensures d != BOOT && CanBeUnit(d)
    {
      EdgeLeads(w.Edges(), BOOT, d);
      LeadsTransitive(w.Edges(), service, BOOT, d);
      assert w.LocalOk(d);
    }
  }

  /** With such a boot unit, no runnable listed service leads back to it. */
  lemma RunnableAvoidsBoot(w: World, service: string)
    requires service in BootList(w) && w.Runnable(service, []) && LinksOnly(w) && Contained(w.units[BOOT])
    ensures !Reaches(w.Edges(), service, BOOT)
  {
    if Reaches(w.Edges(), service, BOOT) {
      ReachingBoot(w, service);
    }
  }

  /** Off the boot unit nothing changes: the same units in reach, on the same cycles. */
  lemma AvoidingKeepsSound(w: World, v: World, service: string)
    requires AgreeExceptAt(w.Edges(), v.Edges(), BOOT)
    requires forall s :: s != BOOT ==> (w.LocalOk(s) <==> v.LocalOk(s))
    requires !Reaches(w.Edges(), service, BOOT) && w.Sound(service)
    ensures v.Sound(service)
  {
    hide World.LocalOk;
    AvoidingAgrees(w.Edges(), v.Edges(), BOOT, service, BOOT);
    forall n | Reaches(v.Edges(), service, n)
      ensures v.LocalOk(n) && !OnCycle(v.Edges(), n)
    {
      AvoidingAgrees(w.Edges(), v.Edges(), BOOT, service, n);
      assert Reaches(w.Edges(), service, n) && n != BOOT;
      if OnCycle(v.Edges(), n) {
        var m := FirstEdge(v.Edges(), n, n);
        AvoidsBelow(w, service, n);
        assert w.Edges()(n, m);
        AvoidsBelow(w, n, m);
        AvoidingAgrees(w.Edges(), v.Edges(), BOOT, m, n);
        EdgeReaches(w.Edges(), n, m, n);
      }
    }
  }

  lemma AvoidsBelow(w: World, a: string, b: string)
    requires !Reaches(w.Edges(), a, BOOT)
    requires Reaches(w.Edges(), a, b) || w.Edges()(a, b)
    ensures !Reaches(w.Edges(), b, BOOT)
  {
    if w.Edges()(a, b) { EdgeLeads(w.Edges(), a, b); }
    if Reaches(w.Edges(), b, BOOT) {
      LeadsTransitive(w.Edges(), a, b, BOOT);
    }
  }

  /** With no more edges and no unit gone bad, what was sound stays sound. */
  lemma FewerEdgesKeepSound(w: World, v: World, service: string)
    requires IncludedIn(v.Edges(), w.Edges()) && w.Sound(service)
    requires forall n :: w.LocalOk(n) ==> v.LocalOk(n)
    ensures v.Sound(service)
  {
    hide World.LocalOk;
    forall n | Reaches(v.Edges(), service, n)
      ensures v.LocalOk(n) && !OnCycle(v.Edges(), n)
    {
    }
  }

  /** What rewriting a stable boot unit does: fewer dependencies, the same command. */
  lemma StableRewrite(w: World)
    requires BOOT in w.units && Stable(w.units[BOOT])
    ensures var v := Rewired(w, Kept(w, BootList(w)));
            IncludedIn(v.Edges(), w.Edges()) && forall n :: w.LocalOk(n) ==> v.LocalOk(n)
  {
    hide Dependencies, Listed, Command, World.Runnable;
    var kept := Kept(w, BootList(w));
    var v := Rewired(w, kept);
    RewiredLists(w, kept);
    RewiredCommand(kept);
    RewiredDiffersAtBoot(w, kept);
    forall d | d in v.Deps(BOOT)
      ensures d in w.Deps(BOOT)
    {
      TrimmedExactly(kept, d);
      var s :| s in kept && DropSpaces(s) == d;
      KeptExactly(w, BootList(w), s);
    }
  }

  lemma RewiredCommand(services: seq<string>)
    ensures Command(BootUnit(services)) == "/bin/true"
  {
    hide Value, TakeWhileNot;
    var first, second := "type = scripted", "command = " + "/bin/true";
    var rest := ["restart = no"] + DependsLines(services);
    assert second == "command = /bin/true";
    assert BootUnit(services) == [first] + ([second] + rest);
    NoCommand(first, [second] + rest);
    CommandReads("/bin/true", rest);
  }

  /** For every service that filtering keeps, the verdict is the same before and after the rewrite. */
  lemma RewriteKeepsVerdict(w: World, service: string)
    requires service in Kept(w, BootList(w)) && LinksOnly(w)
    requires Contained(w.units[BOOT]) || Stable(w.units[BOOT])
    ensures w.Runnable(service, []) <==> Rewired(w, Kept(w, BootList(w))).Runnable(service, [])
  {
    hide Dependencies, Listed, World.Runnable, Contained, Stable;
    var kept := Kept(w, BootList(w));
    var v := Rewired(w, kept);
    KeptExactly(w, BootList(w), service);
    RewiredDiffersAtBoot(w, kept);
    RewiredLists(w, kept);
    RunnableExact(w, service);
    RunnableExact(v, service);
    if w.Runnable(service, []) {
      if Contained(w.units[BOOT]) {
        RunnableAvoidsBoot(w, service);
        AvoidingKeepsSound(w, v, service);
      } else {
        StableRewrite(w);
        FewerEdgesKeepSound(w, v, service);
      }
    } else if v.Runnable(service, []) {
      DropSpacesWord(service);
      TrimmedExactly(kept, service);
      DependencyAvoidsBoot(v, service);
      AvoidingAgrees(w.Edges(), v.Edges(), BOOT, service, BOOT);
      AvoidingKeepsSound(v, w, service);
    }
  }

  /** Apart from state-mount, no kept service leads to the boot unit. */
  lemma KeptAvoidsBoot(w: World, service: string)
    requires service in Kept(w, BootList(w)) && service != STATE_MOUNT && LinksOnly(w) && Contained(w.units[BOOT])
    ensures !Reaches(w.Edges(), service, BOOT)
  {
    KeptExactly(w, BootList(w), service);
    RunnableAvoidsBoot(w, service);
  }

  /** What validation is expected to find after filtering. */
  predicate Expected(w: World) {
    NativeExecutable(w.img, "/bin/true") && (STATE_MOUNT in BootList(w) ==> w.Runnable(STATE_MOUNT, []))
  }

  /** After filtering, validation can only fail on /bin/true or on a listed state-mount that cannot run. */
  lemma ValidationAfterFiltering(w: World, links: string -> bool)
    requires LinksOnly(w) && BOOT in w.units && forall s :: s in BootList(w) ==> StaysInBootD(s)
    requires Contained(w.units[BOOT]) || Stable(w.units[BOOT])
    ensures Validates(Filtered(w, links)) <==> Expected(w)
  {
    FilteredIsRewired(w, links);
    RewiredValidates(w);
  }

  lemma RewiredValidates(w: World)
    requires LinksOnly(w) && BOOT in w.units && (Contained(w.units[BOOT]) || Stable(w.units[BOOT]))
    ensures Validates(Rewired(w, Kept(w, BootList(w)))) <==> Expected(w)
  {
    hide World.Runnable, NativeExecutable, Kept, Listed, Contained, Stable;
    var kept := Kept(w, BootList(w));
    var v := Rewired(w, kept);
    KeptVerdicts(w);
    KeptExactly(w, BootList(w), STATE_MOUNT);
    if STATE_MOUNT in BootList(w) {
      var k :| 0 <= k < |kept| && kept[k] == STATE_MOUNT;
      assert v.Runnable(BootList(v)[k], []) <==> w.Runnable(STATE_MOUNT, []);
    }
  }

  lemma KeptVerdicts(w: World)
    requires LinksOnly(w) && BOOT in w.units && (Contained(w.units[BOOT]) || Stable(w.units[BOOT]))
    ensures var kept := Kept(w, BootList(w));
            var v := Rewired(w, kept);
            BootList(v) == kept &&
            forall k :: 0 <= k < |kept| ==>
              (v.Runnable(kept[k], []) <==> kept[k] != STATE_MOUNT || w.Runnable(STATE_MOUNT, []))
  {
    hide World.Runnable, Kept, Listed, Contained, Stable;
    var kept := Kept(w, BootList(w));
    RewiredLists(w, kept);
    forall k | 0 <= k < |kept|
      ensures Rewired(w, kept).Runnable(kept[k], []) <==> kept[k] != STATE_MOUNT || w.Runnable(STATE_MOUNT, [])
    {
      KeptExactly(w, BootList(w), kept[k]);
      RewriteKeepsVerdict(w, kept[k]);
    }
  }
}
