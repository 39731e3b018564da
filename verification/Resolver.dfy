/** Dependency resolution: the depth-first search, as a function on values and as the mutating methods. */
module Resolver {
  import opened Common
  import opened DepName
  import opened Paths
  import opened Registry

  datatype Outcome = Done | NotFound(name: string) | Circular(name: string)

  datatype Search = Search(visiting: set<string>, scheduled: set<string>, order: seq<PackageMetadata>)

  const START := Search({}, {}, [])

  /** What is resolved against: the package list and the names the caller asks to skip. */
  datatype Catalog = Catalog(packages: seq<PackageMetadata>, skip: string -> bool)
  {
    function Find(name: string): Option<PackageMetadata> {
      LinearFind(packages, name)
    }

    /** One call of visit_install_deps. */
    function Visit(name: string, s: Search): (r: (Outcome, Search))
      ensures r.0.Done? ==> r.1.visiting == s.visiting
      decreases |Names(packages) - s.visiting|, 1
    {
      if skip(name) then (Done, s) else
      match Find(name)
      case None => (NotFound(name), s)
      case Some(pkg) =>
        if pkg.name in s.scheduled then (Done, s)
        else if pkg.name in s.visiting then (Circular(pkg.name), s)
        else Expand(pkg, s)
    }

    /** Visit a package's dependencies, then schedule it. */
    function Expand(pkg: PackageMetadata, s: Search): (r: (Outcome, Search))
      requires pkg in packages && pkg.name !in s.visiting
      ensures r.0.Done? ==> r.1.visiting == s.visiting
      decreases |Names(packages) - s.visiting|, 0
    {
      EnterShrinks(Names(packages), s.visiting, pkg.name);
      var (outcome, t) := VisitDeps(pkg.depends, s.(visiting := s.visiting + {pkg.name}));
      if !outcome.Done? then (outcome, t)
      else (Done, Search(t.visiting - {pkg.name}, t.scheduled + {pkg.name}, t.order + [pkg]))
    }

    /** The loop over a package's dependency strings. */
    function VisitDeps(deps: seq<string>, s: Search): (r: (Outcome, Search))
      ensures r.0.Done? ==> r.1.visiting == s.visiting
      decreases |Names(packages) - s.visiting|, 2 + |deps|
    {
      if deps == [] then (Done, s) else
      var name := ParseDepName(deps[0]);
      if name == "" then VisitDeps(deps[1..], s) else
      var (outcome, t) := Visit(name, s);
      if !outcome.Done? then (outcome, t) else VisitDeps(deps[1..], t)
    }

    /** The loop over the requested roots. */
    function VisitRoots(roots: seq<string>, s: Search): (r: (Outcome, Search))
      ensures r.0.Done? ==> r.1.visiting == s.visiting
    {
      if roots == [] then (Done, s) else
      var (outcome, t) := Visit(roots[0], s);
      if !outcome.Done? then (outcome, t) else VisitRoots(roots[1..], t)
    }

    function Resolve(roots: seq<string>): (Outcome, Search) {
      VisitRoots(roots, START)
    }

    function Order(roots: seq<string>): seq<PackageMetadata> {
      Resolve(roots).1.order
    }

    // ----- the declarative side -----

    /** `name` is asked for by one of `pkg`'s dependency strings and not skipped. */
    predicate Wants(pkg: PackageMetadata, name: string) {
      name != "" && !skip(name) && exists d :: d in pkg.depends && ParseDepName(d) == name
    }

    /** Asking for `a` makes the search ask for `b`. */
    predicate Asks(a: string, b: string) {
      Find(a).Some? && Wants(Find(a).value, b)
    }

    function Edges(): Relation {
      (a, b) => Asks(a, b)
    }

    ghost predicate Reachable(roots: seq<string>, name: string) {
      exists root :: root in roots && !skip(root) && Reaches(Edges(), root, name)
    }

    /** Every reachable name resolves. */
    ghost predicate Complete(roots: seq<string>) {
      forall name :: Reachable(roots, name) ==> Find(name).Some?
    }

    ghost predicate Acyclic(roots: seq<string>) {
      forall name :: Reachable(roots, name) ==> !OnCycle(Edges(), name)
    }

    /** Each dependency of the i-th package resolves to a name scheduled before it. */
    ghost predicate DepsBefore(order: seq<PackageMetadata>, i: nat)
      requires i < |order|
    {
      forall d :: d in order[i].depends && Wants(order[i], ParseDepName(d)) ==>
        Find(ParseDepName(d)).Some? && Find(ParseDepName(d)).value.name in Names(order[..i])
    }

    ghost predicate Sorted(order: seq<PackageMetadata>) {
      forall i :: 0 <= i < |order| ==> DepsBefore(order, i)
    }

    /** What the search keeps at every step, success or failure. */
    ghost predicate Inv(s: Search) {
      && s.scheduled == Names(s.order) && UniqueNames(s.order)
      && (forall p :: p in s.order ==> p in packages)
      && s.visiting !! s.scheduled && s.visiting <= Names(packages)
      && Sorted(s.order)
    }

    /** What a request for `name` has once it succeeded. */
    ghost predicate Settled(name: string, s: Search) {
      skip(name) || (Find(name).Some? && Find(name).value.name in s.scheduled)
    }
  }

  lemma SetSizeShrinks(a: set<string>, b: set<string>)
    requires a < b
    ensures |a| < |b|
  {
    assert b == a + (b - a);
    assert |b| == |a| + |b - a|;
  }

  /** Dependency strings of the packages whose name is not in `done`: the visits still to come. */
  function Remaining(packages: seq<PackageMetadata>, done: set<string>): nat {
    if packages == [] then 0 else
    (if packages[0].name in done then 0 else |packages[0].depends|) + Remaining(packages[1..], done)
  }

  function TotalDepends(packages: seq<PackageMetadata>): nat {
    if packages == [] then 0 else |packages[0].depends| + TotalDepends(packages[1..])
  }

  lemma {:induction false} RemainingAtStart(packages: seq<PackageMetadata>)
    ensures Remaining(packages, {}) == TotalDepends(packages)
  {
    if packages != [] {
      RemainingAtStart(packages[1..]);
    }
  }

  lemma {:induction false} RemainingShrinks(packages: seq<PackageMetadata>, done: set<string>, name: string)
    ensures Remaining(packages, done + {name}) <= Remaining(packages, done)
  {
    if packages != [] {
      RemainingShrinks(packages[1..], done, name);
    }
  }

  /** Expanding a package pays for the visits of its dependency strings. */
  lemma {:induction false} RemainingPays(packages: seq<PackageMetadata>, done: set<string>, pkg: PackageMetadata)
    requires pkg in packages && pkg.name !in done
    ensures Remaining(packages, done + {pkg.name}) + |pkg.depends| <= Remaining(packages, done)
  {
    if packages[0] == pkg {
      RemainingShrinks(packages[1..], done, pkg.name);
    } else {
      RemainingPays(packages[1..], done, pkg);
    }
  }

  /** `PackageIndex::resolve_install_order` and its mutable accumulators. */
  class Resolution {
    const index: PackageIndex
    const skip: string -> bool
    var visiting: set<string>
    var scheduled: set<string>
    var order: seq<PackageMetadata>

    /** Accounting: calls of VisitInstallDeps so far, and how often a package was expanded. */
    ghost var visits: nat
    ghost var expansions: nat

    constructor (index: PackageIndex, skip: string -> bool)
      ensures this.index == index && this.skip == skip
      ensures State() == START && visits == 0 && Accounted()
    {
      this.index := index;
      this.skip := skip;
      visiting, scheduled, order := {}, {}, [];
      visits, expansions := 0, 0;
    }

    function State(): Search
      reads this
    {
      Search(visiting, scheduled, order)
    }

    function Source(): Catalog {
      Catalog(index.packages, skip)
    }

    /** No name is expanded twice. */
    ghost predicate Accounted()
      reads this
    {
      expansions == |visiting + scheduled|
    }

    /** Visits made plus visits the unexpanded packages can still cause. */
    ghost function Bill(): nat
      reads this
    {
      visits + Remaining(index.packages, visiting + scheduled)
    }

    method ResolveInstallOrder(roots: seq<string>) returns (outcome: Outcome)
      requires index.Valid() && State() == START && visits == 0 && Accounted()
      modifies this
      ensures (outcome, State()) == Source().Resolve(roots)
      ensures Accounted() && visits <= |roots| + TotalDepends(index.packages)
    {
      RemainingAtStart(index.packages);
      assert visiting + scheduled == {};
      for k := 0 to |roots|
        invariant visiting == {} && Accounted()
        invariant Bill() <= k + TotalDepends(index.packages)
        invariant Source().VisitRoots(roots, START) == Source().VisitRoots(roots[k..], State())
      {
        outcome := VisitInstallDeps(roots[k], 0);
        assert roots[k..][1..] == roots[k + 1..];
        if !outcome.Done? {
          return;
        }
      }
      outcome := Done;
    }

    /** `depth` is the number of expansions on the call stack: always the size of `visiting`. */
    method VisitInstallDeps(name: string, ghost depth: nat) returns (outcome: Outcome)
      requires index.Valid() && Accounted()
      requires depth == |visiting| && visiting <= Names(index.packages)
      modifies this
      ensures (outcome, State()) == Source().Visit(name, old(State()))
      ensures depth <= |Names(index.packages)|
      ensures Accounted() && Bill() <= old(Bill()) + 1
      decreases |Names(index.packages) - visiting|, 1
    {
      SubsetSize(visiting, Names(index.packages));
      visits := visits + 1;
      if skip(name) {
        return Done;
      }
      var found := index.Find(name);
      if found.None? {
        return NotFound(name);
      }
      var pkg := found.value;
      if pkg.name in scheduled {
        return Done;
      }
      if pkg.name in visiting {
        return Circular(pkg.name);
      }
      outcome := Expand(pkg, depth);
    }

    /** The second half of visit_install_deps: from `visiting.insert` to `order.push`. */
    method Expand(pkg: PackageMetadata, ghost depth: nat) returns (outcome: Outcome)
      requires index.Valid() && Accounted()
      requires depth == |visiting| && visiting <= Names(index.packages)
      requires pkg in index.packages && pkg.name !in visiting + scheduled
      modifies this
      ensures (outcome, State()) == Source().Expand(pkg, old(State()))
      ensures Accounted() && Bill() <= old(Bill())
      decreases |Names(index.packages) - visiting|, 0
    {
      hide LinearFind, FirstNamed, FirstProviding, Remaining, ParseDepName;
      hide Catalog.Visit, Catalog.VisitDeps, PackageIndex.Valid;
      EnterShrinks(Names(index.packages), visiting, pkg.name);
      Enter(pkg);
      outcome := VisitDepends(pkg.depends, depth + 1);
      if !outcome.Done? {
        return;
      }
      Schedule(pkg);
    }

    /** The package is being visited from here on. */
    method Enter(pkg: PackageMetadata)
      requires pkg in index.packages && pkg.name !in visiting + scheduled && Accounted()
      modifies this`visiting, this`expansions
      ensures State() == old(State()).(visiting := old(visiting) + {pkg.name})
      ensures Accounted() && Bill() + |pkg.depends| <= old(Bill())
    {
      hide Remaining;
      EnterPays(index.packages, visiting, scheduled, pkg);
      visiting := visiting + {pkg.name};
      expansions := expansions + 1;
    }

    /** The last three lines of visit_install_deps. */
    method Schedule(pkg: PackageMetadata)
      requires pkg.name in visiting && Accounted()
      modifies this`visiting, this`scheduled, this`order
      ensures State() == Search(old(visiting) - {pkg.name}, old(scheduled) + {pkg.name}, old(order) + [pkg])
      ensures Accounted() && Bill() == old(Bill())
    {
      MoveName(visiting, scheduled, pkg.name);
      visiting := visiting - {pkg.name};
      scheduled := scheduled + {pkg.name};
      order := order + [pkg];
    }

    /** The loop `for dep in &pkg.depends` of visit_install_deps. */
    method VisitDepends(depends: seq<string>, ghost depth: nat) returns (outcome: Outcome)
      requires index.Valid() && Accounted()
      requires depth == |visiting| && visiting <= Names(index.packages)
      modifies this
      ensures (outcome, State()) == Source().VisitDeps(depends, old(State()))
      ensures Accounted() && Bill() <= old(Bill()) + |depends|
      decreases |Names(index.packages) - visiting|, 2
    {
      hide LinearFind, FirstNamed, FirstProviding, Remaining, ParseDepName;
      ghost var c, entered := Source(), State();
      for k := 0 to |depends|
        invariant visiting == entered.visiting && Accounted()
        invariant Bill() <= old(Bill()) + k
        invariant c.VisitDeps(depends, entered) == c.VisitDeps(depends[k..], State())
      {
        var depName := ParseDepName(depends[k]);
        assert depends[k..][1..] == depends[k + 1..];
        if depName == "" {
          continue;
        }
        outcome := VisitInstallDeps(depName, depth);
        if !outcome.Done? {
          return;
        }
      }
      outcome := Done;
    }
  }

  lemma SubsetSize(a: set<string>, b: set<string>)
    requires a <= b
    ensures |a| <= |b|
  {
    assert b == a + (b - a);
  }

  lemma EnterPays(packages: seq<PackageMetadata>, visiting: set<string>, scheduled: set<string>, pkg: PackageMetadata)
    requires pkg in packages && pkg.name !in visiting + scheduled
    ensures Remaining(packages, visiting + {pkg.name} + scheduled) + |pkg.depends|
         <= Remaining(packages, visiting + scheduled)
    ensures |visiting + {pkg.name} + scheduled| == |visiting + scheduled| + 1
  {
    RemainingPays(packages, visiting + scheduled, pkg);
    assert visiting + {pkg.name} + scheduled == visiting + scheduled + {pkg.name};
  }

  lemma MoveName(visiting: set<string>, scheduled: set<string>, name: string)
    requires name in visiting
    ensures visiting - {name} + (scheduled + {name}) == visiting + scheduled
  {
  }

  lemma EnterShrinks(names: set<string>, visiting: set<string>, name: string)
    requires name in names && name !in visiting
    ensures |names - (visiting + {name})| < |names - visiting|
  {
    SetSizeShrinks(names - (visiting + {name}), names - visiting);
  }
}
