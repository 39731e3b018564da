/** `oil install`: resolve, install package by package in memory, persist once at the end. */
module InstallRun {
  import opened Common
  import opened DepName
  import opened Registry
  import opened Resolver
  import opened ResolverTheorems

  datatype InstalledPackage = InstalledPackage(name: string, version: string, installDate: int, pinned: bool)

  type Installed = map<string, InstalledPackage>

  /** What installed.json holds; `Torn` is a write that was cut short, which no later load accepts. */
  datatype StateFile = Absent | Complete(packages: Installed) | Torn

  /** How the one write of a save ends: before the file is opened, part-way, or completely. A run that is killed
      counts by what it left: one killed right after its complete write has done its work and is a `Written` one. */
  datatype WriteOutcome = Refused | Interrupted | Written

  /** What the outside decides during one run. */
  datatype Env = Env(
    registry: Option<seq<PackageMetadata>>, destination: bool,
    installs: nat -> bool, clock: nat -> int, write: WriteOutcome)

  function Load(file: StateFile): Option<Installed> {
    match file
    case Absent => Some(map[])
    case Complete(packages) => Some(packages)
    case Torn => None
  }

  function Mark(state: Installed, name: string, version: Option<string>, now: int): Installed {
    var text := if version.Some? then version.value else "";
    if name in state then state[name := state[name].(version := text, installDate := now)]
    else state[name := InstalledPackage(name, text, now, false)]
  }

  /** Marking the packages of an order, the k-th at time clock(k). */
  function MarkAll(state: Installed, order: seq<PackageMetadata>, clock: nat -> int): Installed {
    if order == [] then state else
    var n := |order| - 1;
    Mark(MarkAll(state, order[..n], clock), order[n].name, Some(order[n].version), clock(n))
  }

  function SkipInstalled(state: Installed): string -> bool {
    (name: string) => name in state
  }

  function Pending(state: Installed, names: seq<string>): seq<string> {
    if names == [] then [] else
    var n := |names| - 1;
    Pending(state, names[..n]) + if names[n] in state then [] else [names[n]]
  }

  predicate AllInstall(env: Env, n: nat) {
    forall k :: 0 <= k < n ==> env.installs(k)
  }

  /** The reference run: whether it succeeded and what installed.json holds afterwards. */
  function Run(file: StateFile, names: seq<string>, dryRun: bool, env: Env): (bool, StateFile) {
    if Load(file).None? then (false, file) else
    var state := Load(file).value;
    var pending := Pending(state, names);
    if pending == [] then (true, file) else
    if env.registry.None? then (false, file) else
    var (outcome, t) := Catalog(env.registry.value, SkipInstalled(state)).Resolve(pending);
    if !outcome.Done? then (false, file) else
    if dryRun then (true, file) else
    if !env.destination || !AllInstall(env, |t.order|) then (false, file) else
    match env.write
    case Refused => (false, file)
    case Interrupted => (false, Torn)
    case Written => (true, Complete(MarkAll(state, t.order, env.clock)))
  }

  /** No other entry changes; a known package keeps its name and pin, a new one is unpinned. */
  ghost predicate OnlyMarks(before: Installed, after: Installed, name: string) {
    && after.Keys == before.Keys + {name}
    && (forall other :: other in before && other != name ==> after[other] == before[other])
    && (if name in before then after[name].name == before[name].name && after[name].pinned == before[name].pinned
        else after[name].name == name && !after[name].pinned)
  }

  /** Those promises leave no choice. */
  lemma MarkIs(before: Installed, after: Installed, name: string, version: string, now: int)
    requires OnlyMarks(before, after, name) && after[name].version == version && after[name].installDate == now
    ensures after == Mark(before, name, Some(version), now)
  {
  }

  /** The persisted file, shared by all runs of one user. */
  class Home {
    var file: StateFile

    constructor ()
      ensures file == Absent
    {
      file := Absent;
    }
  }

  class InstallState {
    var packages: Installed

    constructor (packages: Installed)
      ensures this.packages == packages
    {
      this.packages := packages;
    }

    function Get(name: string): (r: Option<InstalledPackage>)
      reads this
      ensures r.Some? <==> name in packages
    {
      if name in packages then Some(packages[name]) else None
    }

    method MarkInstalled(name: string, version: Option<string>, now: int)
      modifies this
      ensures OnlyMarks(old(packages), packages, name)
      ensures version.Some? ==> packages[name].version == version.value
      ensures version.None? ==> packages[name].version == ""
      ensures packages[name].installDate == now
    {
      var text := if version.Some? then version.value else "";
      if name in packages {
        packages := packages[name := packages[name].(version := text, installDate := now)];
      } else {
        packages := packages[name := InstalledPackage(name, text, now, false)];
      }
    }

    method Save(home: Home, write: WriteOutcome) returns (ok: bool)
      modifies home
      ensures ok <==> write == Written
      ensures home.file == match write
                           case Refused => old(home.file)
                           case Interrupted => Torn
                           case Written => Complete(packages)
    {
      match write {
        case Refused =>
        case Interrupted => home.file := Torn;
        case Written => home.file := Complete(packages);
      }
      ok := write == Written;
    }
  }

  /** The first loop of run_install: requests that are not installed yet, in order. */
  method CollectPending(state: InstallState, names: seq<string>) returns (pending: seq<string>)
    ensures pending == Pending(state.packages, names)
  {
    pending := [];
    for i := 0 to |names|
      invariant pending == Pending(state.packages, names[..i])
    {
      assert names[..i + 1][..i] == names[..i];
      if state.Get(names[i]).None? {
        pending := pending + [names[i]];
      }
    }
    assert names[..|names|] == names;
  }

  /** The second loop: install and mark one package after the other, stopping at the first failure. */
  method InstallAll(state: InstallState, order: seq<PackageMetadata>, dryRun: bool, env: Env) returns (ok: bool)
    modifies state
    ensures ok <==> dryRun || AllInstall(env, |order|)
    ensures dryRun ==> state.packages == old(state.packages)
    ensures !dryRun && ok ==> state.packages == MarkAll(old(state.packages), order, env.clock)
  {
    hide Mark, OnlyMarks;
    for k := 0 to |order|
      invariant dryRun ==> state.packages == old(state.packages)
      invariant !dryRun ==> state.packages == MarkAll(old(state.packages), order[..k], env.clock)
      invariant !dryRun ==> AllInstall(env, k)
    {
      assert order[..k + 1][..k] == order[..k];
      if !dryRun {
        if !env.installs(k) {
          return false;
        }
        ghost var before := state.packages;
        state.MarkInstalled(order[k].name, Some(order[k].version), env.clock(k));
        MarkIs(before, state.packages, order[k].name, order[k].version, env.clock(k));
      }
    }
    assert order[..|order|] == order;
    ok := true;
  }

  /** `run_install`. */
  method RunInstall(home: Home, names: seq<string>, dryRun: bool, env: Env) returns (ok: bool)
    modifies home
    ensures (ok, home.file) == Run(old(home.file), names, dryRun, env)
  {
    hide Pending, MarkAll, AllInstall;
    hide Catalog.Resolve;
    var loaded := Load(home.file);
    if loaded.None? {
      return false;
    }
    var state := new InstallState(loaded.value);
    var pending := CollectPending(state, names);
    if pending == [] {
      return true;
    }
    if env.registry.None? {
      return false;
    }
    var index := NewIndex(env.registry.value);
    var resolution := new Resolution(index, SkipInstalled(state.packages));
    var outcome := resolution.ResolveInstallOrder(pending);
    if !outcome.Done? {
      return false;
    }
    if !dryRun && !env.destination {
      return false;
    }
    ok := InstallAll(state, resolution.order, dryRun, env);
    if ok && !dryRun {
      ok := state.Save(home, env.write);
    }
  }

  // ----- what a run promises -----

  /** Every dependency string of `p` is installed under its own name or under the name it resolves to. */
  ghost predicate DepsMet(packages: seq<PackageMetadata>, p: PackageMetadata, installed: set<string>) {
    forall d :: d in p.depends ==>
      var name := ParseDepName(d);
      name == "" || name in installed ||
      (LinearFind(packages, name).Some? && LinearFind(packages, name).value.name in installed)
  }

  lemma {:induction false} MarkAllKeys(state: Installed, order: seq<PackageMetadata>, clock: nat -> int)
    ensures MarkAll(state, order, clock).Keys == state.Keys + Names(order)
  {
    if order != [] {
      var n := |order| - 1;
      MarkAllKeys(state, order[..n], clock);
      assert order == order[..n] + [order[n]];
    }
  }

  /** A name marked once keeps what its own step wrote: its version, its time, and an earlier pin. */
  lemma {:induction false} MarkAllEntry(state: Installed, order: seq<PackageMetadata>, clock: nat -> int, k: nat)
    requires UniqueNames(order) && k < |order|
    ensures var name := order[k].name;
            var after := MarkAll(state, order, clock);
            && name in after && after[name].version == order[k].version && after[name].installDate == clock(k)
            && after[name].pinned == (name in state && state[name].pinned)
            && after[name].name == if name in state then state[name].name else name
  {
    var n := |order| - 1;
    if k < n {
      MarkAllEntry(state, order[..n], clock, k);
      assert order[n].name != order[k].name;
    } else {
      MarkAllUntouched(state, order[..n], clock, order[n].name);
    }
  }

  lemma {:induction false} MarkAllUntouched(state: Installed, order: seq<PackageMetadata>, clock: nat -> int,
                                            name: string)
    requires forall i :: 0 <= i < |order| ==> order[i].name != name
    ensures var after := MarkAll(state, order, clock);
            (name in after <==> name in state) && (name in state ==> after[name] == state[name])
  {
    if order != [] {
      MarkAllUntouched(state, order[..|order| - 1], clock, name);
    }
  }

  /** Every dependency string of `p` is in the starting state under its own name, or resolves to a marked package. */
  ghost predicate MetBy(packages: seq<PackageMetadata>, p: PackageMetadata, start: set<string>, marked: set<string>) {
    forall d :: d in p.depends ==>
      var name := ParseDepName(d);
      name == "" || name in start ||
      (LinearFind(packages, name).Some? && LinearFind(packages, name).value.name in marked)
  }

  /** At every point of the install loop, each package marked so far has every dependency in the starting state or
      resolved to a name marked before it. */
  lemma EveryPointClosed(packages: seq<PackageMetadata>, state: Installed, roots: seq<string>,
                         clock: nat -> int, k: nat, i: nat)
    requires k <= |Catalog(packages, SkipInstalled(state)).Order(roots)| && i < k
    ensures var order := Catalog(packages, SkipInstalled(state)).Order(roots);
            && MetBy(packages, order[i], state.Keys, Names(order[..i]))
            && DepsMet(packages, order[i], MarkAll(state, order[..k], clock).Keys)
  {
    hide LinearFind, FirstNamed, FirstProviding, ParseDepName;
    var c := Catalog(packages, SkipInstalled(state));
    var order := c.Order(roots);
    ResolveSound(c, roots);
    MarkAllKeys(state, order[..k], clock);
    assert c.DepsBefore(order, i);
    assert Names(order[..i]) <= Names(order[..k]) by {
      assert forall j :: 0 <= j < i ==> order[..i][j] == order[..k][j];
    }
    forall d | d in order[i].depends && ParseDepName(d) != "" && ParseDepName(d) !in state
      ensures LinearFind(packages, ParseDepName(d)).Some?
      ensures LinearFind(packages, ParseDepName(d)).value.name in Names(order[..i])
    {
      assert c.Wants(order[i], ParseDepName(d));
    }
  }

  /** Everything installed is a package of the list whose dependencies are installed. */
  ghost predicate Sound(packages: seq<PackageMetadata>, installed: set<string>) {
    forall n :: n in installed ==> exists p :: p in packages && p.name == n && DepsMet(packages, p, installed)
  }

  ghost predicate SoundFile(packages: seq<PackageMetadata>, file: StateFile) {
    Load(file).Some? ==> Sound(packages, Load(file).value.Keys)
  }

  lemma DepsMetGrows(packages: seq<PackageMetadata>, p: PackageMetadata, small: set<string>, big: set<string>)
    requires small <= big && DepsMet(packages, p, small)
    ensures DepsMet(packages, p, big)
  {
  }

  lemma OrderKeepsSound(packages: seq<PackageMetadata>, state: Installed, roots: seq<string>, clock: nat -> int)
    requires Sound(packages, state.Keys)
    ensures var order := Catalog(packages, SkipInstalled(state)).Order(roots);
            Sound(packages, MarkAll(state, order, clock).Keys)
  {
    hide LinearFind, ParseDepName, DepsMet, MarkAll, Justified, AllFound, UniqueNames;
    hide Catalog.Resolve, Catalog.Sorted, Catalog.Settled;
    var c := Catalog(packages, SkipInstalled(state));
    var order := c.Order(roots);
    var after := MarkAll(state, order, clock).Keys;
    MarkAllKeys(state, order, clock);
    forall n | n in after
      ensures exists p :: p in packages && p.name == n && DepsMet(packages, p, after)
    {
      if n in state.Keys {
        var p :| p in packages && p.name == n && DepsMet(packages, p, state.Keys);
        DepsMetGrows(packages, p, state.Keys, after);
      } else {
        var p := OrderedIsMet(packages, state, roots, clock, n);
      }
    }
  }

  lemma OrderedIsMet(packages: seq<PackageMetadata>, state: Installed, roots: seq<string>, clock: nat -> int, n: string)
    returns (p: PackageMetadata)
    requires n in Names(Catalog(packages, SkipInstalled(state)).Order(roots))
    ensures var order := Catalog(packages, SkipInstalled(state)).Order(roots);
            p in packages && p.name == n && DepsMet(packages, p, MarkAll(state, order, clock).Keys)
  {
    hide LinearFind, ParseDepName, DepsMet, MarkAll, Justified, AllFound, UniqueNames;
    hide Catalog.Resolve, Catalog.Sorted, Catalog.Settled;
    var c := Catalog(packages, SkipInstalled(state));
    var order := c.Order(roots);
    ResolveSound(c, roots);
    var i :| 0 <= i < |order| && order[i].name == n;
    p := order[i];
    EveryPointClosed(packages, state, roots, clock, |order|, i);
    assert order[..|order|] == order;
  }

  /** Any number of runs, with any requests, failures and crashes, against one package list. */
  function Runs(file: StateFile, requests: seq<(seq<string>, bool, Env)>): StateFile
    decreases |requests|
  {
    if requests == [] then file else
    var (names, dryRun, env) := requests[0];
    Runs(Run(file, names, dryRun, env).1, requests[1..])
  }

  lemma RunKeepsSound(packages: seq<PackageMetadata>, file: StateFile, names: seq<string>, dryRun: bool, env: Env)
    requires SoundFile(packages, file)
    requires env.registry.Some? ==> env.registry.value == packages
    ensures SoundFile(packages, Run(file, names, dryRun, env).1)
  {
    hide LinearFind, ParseDepName, DepsMet;
    if Load(file).Some? && env.registry.Some? {
      var state := Load(file).value;
      OrderKeepsSound(packages, state, Pending(state, names), env.clock);
    }
  }

  lemma {:induction false} RunsKeepSound(packages: seq<PackageMetadata>, file: StateFile,
                                         requests: seq<(seq<string>, bool, Env)>)
    requires SoundFile(packages, file)
    requires forall q :: q in requests && q.2.registry.Some? ==> q.2.registry.value == packages
    ensures SoundFile(packages, Runs(file, requests))
    decreases |requests|
  {
    hide SoundFile;
    if requests != [] {
      var (names, dryRun, env) := requests[0];
      RunKeepsSound(packages, file, names, dryRun, env);
      RunsKeepSound(packages, Run(file, names, dryRun, env).1, requests[1..]);
    }
  }

  /** The run gets as far as its one write: there is something to install, it resolves, and every step works. */
  predicate ReachesSave(file: StateFile, names: seq<string>, dryRun: bool, env: Env) {
    && !dryRun && env.registry.Some? && env.destination && Load(file).Some?
    && var pending := Pending(Load(file).value, names);
       var (outcome, t) := Catalog(env.registry.value, SkipInstalled(Load(file).value)).Resolve(pending);
       pending != [] && outcome.Done? && AllInstall(env, |t.order|)
  }

  /** The one write is cut short. */
  predicate Tears(file: StateFile, names: seq<string>, dryRun: bool, env: Env) {
    ReachesSave(file, names, dryRun, env) && env.write == Interrupted
  }

  /** Exactly when a failed run changes the persisted file: when its one write is cut short, and then it is torn.
      A dry run never does. */
  lemma FailedRunChangesFileIff(file: StateFile, names: seq<string>, dryRun: bool, env: Env)
    ensures var (ok, after) := Run(file, names, dryRun, env);
            && (!ok && after != file <==> Tears(file, names, dryRun, env))
            && (!ok && after != file ==> after == Torn)
            && (dryRun ==> after == file)
            && (ok ==> after.Absent? || after.Complete?)
  {
    hide Pending, AllInstall;
    hide Catalog.Resolve;
  }

  /** Nothing installed, one package without dependencies, and a write that is cut short. */
  const ONE := PackageMetadata("a", "1", "", "", None, 0, [], [])
  const CUT := Env(Some([ONE]), true, _ => true, _ => 0, Interrupted)

  lemma InterruptedRunTears()
    ensures Run(Absent, ["a"], false, CUT) == (false, Torn)
    ensures forall names, dryRun, env :: Run(Torn, names, dryRun, env) == (false, Torn)
  {
    var c := Catalog([ONE], SkipInstalled(map[]));
    assert ["a"][..0] == [] && Pending(map[], []) == [] && Pending(map[], ["a"]) == ["a"];
    assert c.Find("a") == Some(ONE);
    assert c.VisitDeps([], START.(visiting := {"a"})) == (Done, START.(visiting := {"a"}));
    assert START.(visiting := START.visiting + {"a"}) == START.(visiting := {"a"});
    assert c.Visit("a", START).0.Done?;
    assert ["a"][1..] == [] && c.VisitRoots(["a"], START).0.Done?;
    assert AllInstall(CUT, |c.Order(["a"])|);
  }

  /** The runs of a history that succeed, in order. */
  function Successes(file: StateFile, requests: seq<(seq<string>, bool, Env)>): seq<(seq<string>, bool, Env)>
    decreases |requests|
  {
    if requests == [] then [] else
    var (names, dryRun, env) := requests[0];
    var (ok, after) := Run(file, names, dryRun, env);
    if ok then [requests[0]] + Successes(after, requests[1..]) else Successes(after, requests[1..])
  }

  /** Once a final write was cut short, every later run fails and the file stays as it is. */
  lemma {:induction false} TornStays(requests: seq<(seq<string>, bool, Env)>)
    ensures Runs(Torn, requests) == Torn && Successes(Torn, requests) == []
    decreases |requests|
  {
    if requests != [] {
      TornStays(requests[1..]);
    }
  }

  /** Some run of the history is cut short at its write. */
  predicate EverTears(file: StateFile, requests: seq<(seq<string>, bool, Env)>)
    decreases |requests|
  {
    requests != [] &&
    var (names, dryRun, env) := requests[0];
    Tears(file, names, dryRun, env) || EverTears(Run(file, names, dryRun, env).1, requests[1..])
  }

  /** Failed runs are invisible, that is, deleting them from a history leaves the same persisted file, exactly
      when no run of it is cut short at its write; and exactly then the file does not end up torn. */
  lemma {:induction false} FailedRunsInvisibleIff(file: StateFile, requests: seq<(seq<string>, bool, Env)>)
    ensures Runs(file, Successes(file, requests)) == Runs(file, requests) <==> !EverTears(file, requests)
    ensures Runs(file, requests) == Torn <==> file == Torn || EverTears(file, requests)
    ensures file != Torn ==> Runs(file, Successes(file, requests)) != Torn
    decreases |requests|
  {
    hide Run, Tears;
    if requests != [] {
      var (names, dryRun, env) := requests[0];
      var (ok, after) := Run(file, names, dryRun, env);
      FailedRunChangesFileIff(file, names, dryRun, env);
      TornIsKept(file, names, dryRun, env);
      FailedRunsInvisibleIff(after, requests[1..]);
      if ok {
        assert Successes(file, requests)[1..] == Successes(after, requests[1..]);
      } else if after != file {
        TornStays(requests[1..]);
      }
    }
  }

  lemma TornIsKept(file: StateFile, names: seq<string>, dryRun: bool, env: Env)
    ensures file == Torn ==> Run(file, names, dryRun, env) == (false, Torn)
  {
  }

  lemma {:induction false} PendingExact(state: Installed, names: seq<string>, name: string)
    ensures name in Pending(state, names) <==> name in names && name !in state
  {
    if names != [] {
      PendingExact(state, names[..|names| - 1], name);
      assert names == names[..|names| - 1] + [names[|names| - 1]];
    }
  }

  /** What is installed before a run, if the file can be read. */
  function StartOf(file: StateFile): Installed {
    if file.Complete? then file.packages else map[]
  }

  /** What the run resolves against. */
  function CatalogOf(file: StateFile, env: Env): Catalog
    requires env.registry.Some?
  {
    Catalog(env.registry.value, SkipInstalled(StartOf(file)))
  }

  ghost predicate AllInstalled(file: StateFile, names: seq<string>) {
    forall n :: n in names ==> n in StartOf(file)
  }

  lemma NothingPending(file: StateFile, names: seq<string>)
    ensures Pending(StartOf(file), names) == [] <==> AllInstalled(file, names)
  {
    var pending := Pending(StartOf(file), names);
    forall n | n in names
      ensures n in pending <==> n !in StartOf(file)
    {
      PendingExact(StartOf(file), names, n);
    }
    if pending != [] {
      PendingExact(StartOf(file), names, pending[0]);
      assert pending[0] in pending;
    }
  }

  /** Resolving what is pending is resolving the request: leaving out what is installed changes nothing, whatever the
      order and the result. */
  lemma {:induction false} PendingResolves(file: StateFile, names: seq<string>, env: Env)
    requires env.registry.Some?
    ensures CatalogOf(file, env).Resolve(Pending(StartOf(file), names)) == CatalogOf(file, env).Resolve(names)
  {
    if names != [] {
      var c, n := CatalogOf(file, env), |names| - 1;
      PendingResolves(file, names[..n], env);
      assert names == names[..n] + [names[n]] && [names[n]][1..] == [];
      VisitRootsSplits(c, names[..n], [names[n]], START);
      VisitRootsSplits(c, Pending(StartOf(file), names[..n]), [names[n]], START);
      assert Pending(StartOf(file), names[..n]) + [] == Pending(StartOf(file), names[..n]);
    }
  }

  /** Exactly when a run succeeds: the file is not torn, and either everything asked for is installed, or the registry
      is there, the rest resolves, and the run is dry or every step and the write work. */
  lemma RunSucceedsIff(file: StateFile, names: seq<string>, dryRun: bool, env: Env)
    ensures Run(file, names, dryRun, env).0 <==>
            !file.Torn? &&
            (AllInstalled(file, names) ||
             (env.registry.Some? &&
              var (outcome, t) := CatalogOf(file, env).Resolve(names);
              outcome.Done? &&
              (dryRun || (env.destination && env.write == Written &&
                          forall k :: 0 <= k < |t.order| ==> env.installs(k)))))
  {
    NothingPending(file, names);
    if env.registry.Some? {
      PendingResolves(file, names, env);
    }
    hide Pending;
    hide Catalog.Resolve;
  }

  /** On a clear request, exactly what a caller can see: every name in reach resolves and nothing in reach is on a
      cycle, instead of what the search says. */
  lemma ClearRunSucceedsIff(file: StateFile, names: seq<string>, dryRun: bool, env: Env)
    requires env.registry.Some? && Clear(CatalogOf(file, env), names)
    ensures var c := CatalogOf(file, env);
            Run(file, names, dryRun, env).0 <==>
            !file.Torn? &&
            (AllInstalled(file, names) ||
             (c.Complete(names) && c.Acyclic(names) &&
              (dryRun || (env.destination && env.write == Written &&
                          forall k :: 0 <= k < |c.Order(names)| ==> env.installs(k)))))
  {
    RunSucceedsIff(file, names, dryRun, env);
    hide Run, AllInstalled, Found;
    hide Catalog.Resolve, Catalog.Reachable, Catalog.Find;
    ResolveExact(CatalogOf(file, env), names);
  }

  lemma SuccessShape(file: StateFile, names: seq<string>, dryRun: bool, env: Env)
    requires Run(file, names, dryRun, env).0
    ensures var after := Run(file, names, dryRun, env).1;
            if dryRun || AllInstalled(file, names) then after == file else
              && env.registry.Some? && CatalogOf(file, env).Resolve(names).0.Done?
              && after == Complete(MarkAll(StartOf(file), CatalogOf(file, env).Order(names), env.clock))
  {
    NothingPending(file, names);
    if env.registry.Some? {
      PendingResolves(file, names, env);
    }
    hide Pending, AllInstalled, MarkAll;
    hide Catalog.Resolve;
  }

  /** What a success leaves in the file: nothing new if the run was dry or there was nothing to do; otherwise exactly
      the old names and those of the order, each ordered package with its own version, step time and earlier pin, and
      every other entry as it was. */
  lemma SuccessWrites(file: StateFile, names: seq<string>, dryRun: bool, env: Env)
    requires Run(file, names, dryRun, env).0
    ensures var after := Run(file, names, dryRun, env).1;
            if dryRun || AllInstalled(file, names) then after == file else
              && env.registry.Some? && after.Complete?
              && Records(StartOf(file), CatalogOf(file, env).Order(names), env.clock, after.packages)
  {
    SuccessShape(file, names, dryRun, env);
    if !dryRun && !AllInstalled(file, names) {
      var c := CatalogOf(file, env);
      ResolveSound(c, names);
      hide Run, Justified, AllFound, Records, MarkAll;
      hide Catalog.Resolve, Catalog.Sorted, Catalog.Settled;
      MarkAllRecords(StartOf(file), c.Order(names), env.clock);
    }
  }

  /** What was installed is not installed again, unless a package of that name provides another name. */
  lemma InstalledIsLeftAlone(file: StateFile, names: seq<string>, dryRun: bool, env: Env, n: string)
    requires Run(file, names, dryRun, env).0 && n in StartOf(file)
    requires env.registry.Some? ==> forall p :: p in env.registry.value && p.name == n ==> p.provided == []
    ensures var after := Run(file, names, dryRun, env).1;
            after == file || (after.Complete? && n in after.packages && after.packages[n] == StartOf(file)[n])
  {
    SuccessWrites(file, names, dryRun, env);
    if !dryRun && !AllInstalled(file, names) {
      var c := CatalogOf(file, env);
      ResolveSound(c, names);
      hide Run, Pending, Justified, AllFound, Found;
      hide Catalog.Resolve, Catalog.Sorted, Catalog.Settled, Catalog.Find, Catalog.Reachable;
      if p :| p in c.Order(names) && p.name == n {
        SkippedOnlyThroughAlias(c, names, p);
      }
    }
  }

  /** The old entries with an order marked on top, the k-th package at time clock(k). */
  ghost predicate Records(before: Installed, order: seq<PackageMetadata>, clock: nat -> int, after: Installed) {
    && after.Keys == before.Keys + Names(order)
    && (forall n :: n in before && n !in Names(order) ==> after[n] == before[n])
    && forall k :: 0 <= k < |order| ==>
         var name := order[k].name;
         name in after &&
         after[name] == InstalledPackage(if name in before then before[name].name else name, order[k].version, clock(k),
                                         name in before && before[name].pinned)
  }

  lemma MarkAllRecords(state: Installed, order: seq<PackageMetadata>, clock: nat -> int)
    requires UniqueNames(order)
    ensures Records(state, order, clock, MarkAll(state, order, clock))
  {
    MarkAllKeys(state, order, clock);
    forall n | n in state && n !in Names(order)
      ensures MarkAll(state, order, clock)[n] == state[n]
    {
      assert forall i :: 0 <= i < |order| ==> order[i].name in Names(order);
      MarkAllUntouched(state, order, clock, n);
    }
    forall k | 0 <= k < |order|
      ensures var name, after := order[k].name, MarkAll(state, order, clock);
              name in after &&
              after[name] == InstalledPackage(if name in state then state[name].name else name, order[k].version,
                                              clock(k), name in state && state[name].pinned)
    {
      MarkAllEntry(state, order, clock, k);
    }
  }

  /** A successful real run covers every request and forgets nothing. */
  lemma SuccessCovers(file: StateFile, names: seq<string>, env: Env, name: string)
    requires Run(file, names, false, env).0 && name in names
    ensures Load(Run(file, names, false, env).1).Some?
    ensures var before, after := Load(file).value, Load(Run(file, names, false, env).1).value;
            && before.Keys <= after.Keys
            && (name in after ||
                (env.registry.Some? && LinearFind(env.registry.value, name).Some? &&
                 LinearFind(env.registry.value, name).value.name in after))
  {
    hide LinearFind, ParseDepName, MarkAll, Pending, Names;
    hide Catalog.Resolve, Catalog.Reachable;
    var state := Load(file).value;
    var pending := Pending(state, names);
    PendingExact(state, names, name);
    if pending != [] {
      var c := Catalog(env.registry.value, SkipInstalled(state));
      MarkAllKeys(state, c.Order(pending), env.clock);
      if name !in state {
        RootCovered(c, pending, name);
      }
    }
  }

  lemma RootCovered(c: Catalog, roots: seq<string>, root: string)
    requires c.Resolve(roots).0.Done? && root in roots && !c.skip(root)
    ensures c.Find(root).Some? && c.Find(root).value.name in Names(c.Order(roots))
  {
    ResolveSound(c, roots);
    assert c.Settled(root, c.Resolve(roots).1);
  }
}
