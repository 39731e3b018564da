/** What a resolution promises: soundness on any index, and exactly when it yields the whole closure. */
module ResolverTheorems {
  import opened Common
  import opened DepName
  import opened Paths
  import opened Registry
  import opened Resolver

  // ----- what every call keeps -----

  lemma {:induction false} VisitKeeps(c: Catalog, name: string, s: Search)
    requires c.Inv(s)
    ensures var (outcome, t) := c.Visit(name, s);
            c.Inv(t) && s.order <= t.order && s.scheduled <= t.scheduled &&
            (outcome.Done? ==> c.Settled(name, t))
    decreases |Names(c.packages) - s.visiting|, 0
  {
    if !c.skip(name) && c.Find(name).Some? && c.Find(name).value.name !in s.scheduled + s.visiting {
      var pkg := c.Find(name).value;
      var s' := s.(visiting := s.visiting + {pkg.name});
      EnterShrinks(Names(c.packages), s.visiting, pkg.name);
      VisitDepsKeeps(c, pkg.depends, s');
      var (outcome, t) := c.VisitDeps(pkg.depends, s');
      if outcome.Done? {
        PushKeeps(c, t, pkg);
      }
    }
  }

  /** Scheduling an expanded package after its dependencies keeps the invariant. */
  lemma PushKeeps(c: Catalog, t: Search, pkg: PackageMetadata)
    requires c.Inv(t) && pkg in c.packages && pkg.name in t.visiting
    requires forall d :: d in pkg.depends ==> ParseDepName(d) == "" || c.Settled(ParseDepName(d), t)
    ensures c.Inv(Search(t.visiting - {pkg.name}, t.scheduled + {pkg.name}, t.order + [pkg]))
  {
    var order := t.order + [pkg];
    assert Names(order) == Names(t.order) + {pkg.name};
    assert forall i :: 0 <= i < |t.order| ==> t.order[i].name in Names(t.order);
    forall i | 0 <= i < |order|
      ensures c.DepsBefore(order, i)
    {
      if i < |t.order| {
        assert order[..i] == t.order[..i];
        assert c.DepsBefore(t.order, i);
      } else {
        assert order[..i] == t.order;
      }
    }
  }

  lemma {:induction false} VisitDepsKeeps(c: Catalog, deps: seq<string>, s: Search)
    requires c.Inv(s)
    ensures var (outcome, t) := c.VisitDeps(deps, s);
            c.Inv(t) && s.order <= t.order && s.scheduled <= t.scheduled &&
            (outcome.Done? ==>
               forall d :: d in deps ==> ParseDepName(d) == "" || c.Settled(ParseDepName(d), t))
    decreases |Names(c.packages) - s.visiting|, 1 + |deps|
  {
    if deps != [] {
      var name := ParseDepName(deps[0]);
      if name == "" {
        VisitDepsKeeps(c, deps[1..], s);
      } else {
        VisitKeeps(c, name, s);
        var (outcome, t) := c.Visit(name, s);
        if outcome.Done? {
          VisitDepsKeeps(c, deps[1..], t);
        }
      }
    }
  }

  lemma {:induction false} VisitRootsKeeps(c: Catalog, roots: seq<string>, s: Search)
    requires c.Inv(s)
    ensures var (outcome, t) := c.VisitRoots(roots, s);
            c.Inv(t) && s.order <= t.order && s.scheduled <= t.scheduled &&
            (outcome.Done? ==> forall r :: r in roots ==> c.Settled(r, t))
  {
    if roots != [] {
      VisitKeeps(c, roots[0], s);
      var (outcome, t) := c.Visit(roots[0], s);
      if outcome.Done? {
        VisitRootsKeeps(c, roots[1..], t);
      }
    }
  }

  // ----- everything scheduled or reported was reachable -----

  /** `name` resolves to a package called `pkgName`. */
  ghost predicate ResolvesTo(c: Catalog, name: string, pkgName: string) {
    c.Find(name).Some? && c.Find(name).value.name == pkgName
  }

  ghost predicate Found(c: Catalog, roots: seq<string>, p: PackageMetadata) {
    exists n :: c.Reachable(roots, n) && c.Find(n) == Some(p)
  }

  ghost predicate AllFound(c: Catalog, roots: seq<string>, order: seq<PackageMetadata>) {
    forall p :: p in order ==> Found(c, roots, p)
  }

  /** Each name being expanded was asked for, and leads to `below`. */
  ghost predicate Above(c: Catalog, roots: seq<string>, v: string, below: string) {
    exists n :: c.Reachable(roots, n) && ResolvesTo(c, n, v) && Reaches(c.Edges(), n, below)
  }

  ghost predicate StrictlyAbove(c: Catalog, roots: seq<string>, v: string, below: string) {
    exists n :: c.Reachable(roots, n) && ResolvesTo(c, n, v) && Leads(c.Edges(), n, below)
  }

  /** A walk that returns to a package of the same name. */
  ghost predicate NameLoop(c: Catalog, roots: seq<string>, pkgName: string) {
    exists n, m :: c.Reachable(roots, n) && Leads(c.Edges(), n, m) &&
                   ResolvesTo(c, n, pkgName) && ResolvesTo(c, m, pkgName)
  }

  ghost predicate Justified(c: Catalog, roots: seq<string>, outcome: Outcome) {
    match outcome
    case Done => true
    case NotFound(n) => c.Reachable(roots, n) && c.Find(n).None?
    case Circular(p) => NameLoop(c, roots, p)
  }

  lemma AskReachable(c: Catalog, roots: seq<string>, a: string, b: string)
    requires c.Reachable(roots, a) && c.Asks(a, b)
    ensures c.Reachable(roots, b)
  {
    var root :| root in roots && !c.skip(root) && Reaches(c.Edges(), root, a);
    ReachesByEdge(c.Edges(), root, a, b);
  }

  lemma {:induction false} VisitJustified(c: Catalog, roots: seq<string>, name: string, s: Search)
    requires c.skip(name) || c.Reachable(roots, name)
    requires forall v :: v in s.visiting ==> StrictlyAbove(c, roots, v, name)
    requires AllFound(c, roots, s.order)
    ensures var (outcome, t) := c.Visit(name, s);
            Justified(c, roots, outcome) && AllFound(c, roots, t.order)
    decreases |Names(c.packages) - s.visiting|, 0
  {
    if c.skip(name) || c.Find(name).None? || c.Find(name).value.name in s.scheduled {
      return;
    }
    var pkg := c.Find(name).value;
    if pkg.name in s.visiting {
      assert StrictlyAbove(c, roots, pkg.name, name);
      assert ResolvesTo(c, name, pkg.name);
      return;
    }
    var s' := s.(visiting := s.visiting + {pkg.name});
    EnterShrinks(Names(c.packages), s.visiting, pkg.name);
    EnterAbove(c, roots, name, s);
    VisitDepsJustified(c, roots, name, pkg.depends, s');
    FoundPush(c, roots, name, c.VisitDeps(pkg.depends, s').1.order);
  }

  lemma FoundPush(c: Catalog, roots: seq<string>, name: string, order: seq<PackageMetadata>)
    requires c.Reachable(roots, name) && c.Find(name).Some? && AllFound(c, roots, order)
    ensures AllFound(c, roots, order + [c.Find(name).value])
  {
    assert Found(c, roots, c.Find(name).value);
  }

  lemma EnterAbove(c: Catalog, roots: seq<string>, name: string, s: Search)
    requires c.Reachable(roots, name) && c.Find(name).Some?
    requires forall v :: v in s.visiting ==> StrictlyAbove(c, roots, v, name)
    ensures forall v :: v in s.visiting + {c.Find(name).value.name} ==> Above(c, roots, v, name)
  {
    assert ResolvesTo(c, name, c.Find(name).value.name);
    assert Above(c, roots, c.Find(name).value.name, name);
    forall v | v in s.visiting
      ensures Above(c, roots, v, name)
    {
      assert StrictlyAbove(c, roots, v, name);
    }
  }

  lemma {:induction false} VisitDepsJustified(c: Catalog, roots: seq<string>, parent: string, deps: seq<string>,
                                              s: Search)
    requires c.Reachable(roots, parent) && c.Find(parent).Some?
    requires forall d :: d in deps ==> d in c.Find(parent).value.depends
    requires forall v :: v in s.visiting ==> Above(c, roots, v, parent)
    requires AllFound(c, roots, s.order)
    ensures var (outcome, t) := c.VisitDeps(deps, s);
            Justified(c, roots, outcome) && AllFound(c, roots, t.order)
    decreases |Names(c.packages) - s.visiting|, 1 + |deps|
  {
    if deps == [] {
      return;
    }
    var name := ParseDepName(deps[0]);
    if name == "" {
      VisitDepsJustified(c, roots, parent, deps[1..], s);
      return;
    }
    if !c.skip(name) {
      assert c.Asks(parent, name);
      AskReachable(c, roots, parent, name);
    }
    forall v | v in s.visiting && !c.skip(name)
      ensures StrictlyAbove(c, roots, v, name)
    {
      var n :| c.Reachable(roots, n) && ResolvesTo(c, n, v) && Reaches(c.Edges(), n, parent);
      ReachesByEdge(c.Edges(), n, parent, name);
    }
    if !c.skip(name) {
      VisitJustified(c, roots, name, s);
    }
    var (outcome, t) := c.Visit(name, s);
    if outcome.Done? {
      VisitDepsJustified(c, roots, parent, deps[1..], t);
    }
  }

  lemma {:induction false} VisitRootsJustified(c: Catalog, roots: seq<string>, rest: seq<string>, s: Search)
    requires forall r :: r in rest ==> r in roots
    requires s.visiting == {} && AllFound(c, roots, s.order)
    ensures var (outcome, t) := c.VisitRoots(rest, s);
            Justified(c, roots, outcome) && AllFound(c, roots, t.order)
  {
    if rest != [] {
      if !c.skip(rest[0]) {
        assert Reaches(c.Edges(), rest[0], rest[0]);
      }
      VisitJustified(c, roots, rest[0], s);
      var (outcome, t) := c.Visit(rest[0], s);
      if outcome.Done? {
        VisitRootsJustified(c, roots, rest[1..], t);
      }
    }
  }

  // ----- any index -----

  /** Soundness on any index, duplicate names included: what an order contains, and what an error means. */
  lemma ResolveSound(c: Catalog, roots: seq<string>)
    ensures var (outcome, t) := c.Resolve(roots);
            && Justified(c, roots, outcome)
            && UniqueNames(t.order) && c.Sorted(t.order) && AllFound(c, roots, t.order)
            && (forall p :: p in t.order ==> p in c.packages)
            && (outcome.Done? ==> t.visiting == {} && t.scheduled == Names(t.order))
            && (outcome.Done? ==> forall r :: r in roots ==> c.Settled(r, t))
  {
    VisitRootsKeeps(c, roots, START);
    VisitRootsJustified(c, roots, roots, START);
  }

  /** Resolving more roots only appends to the order. */
  lemma {:induction false} VisitRootsSplits(c: Catalog, r: seq<string>, s: seq<string>, from: Search)
    ensures var (outcome, t) := c.VisitRoots(r, from);
            c.VisitRoots(r + s, from) == if outcome.Done? then c.VisitRoots(s, t) else (outcome, t)
  {
    if r == [] {
      assert r + s == s;
    } else {
      assert (r + s)[1..] == r[1..] + s;
      var (outcome, t) := c.Visit(r[0], from);
      if outcome.Done? {
        VisitRootsSplits(c, r[1..], s, t);
      }
    }
  }

  lemma OrderIsPrefix(c: Catalog, r: seq<string>, s: seq<string>)
    requires c.Resolve(r + s).0.Done?
    ensures c.Resolve(r).0.Done? && c.Order(r) <= c.Order(r + s)
  {
    VisitRootsSplits(c, r, s, START);
    VisitRootsKeeps(c, r, START);
    VisitRootsKeeps(c, s, c.Resolve(r).1);
  }

  // ----- unambiguous names -----

  ghost predicate Findable(c: Catalog, p: PackageMetadata) {
    exists n :: c.Find(n) == Some(p)
  }

  /** No two different packages of one name can both be found: duplicates, if any, are shadowed. */
  ghost predicate Unambiguous(c: Catalog) {
    forall p, q :: Findable(c, p) && Findable(c, q) && p.name == q.name ==> p == q
  }

  /** Names are unambiguous exactly when the loader's deduplication would change no lookup. */
  lemma UnambiguousIffDedupNeutral(c: Catalog)
    ensures Unambiguous(c) <==>
            forall name :: LinearFind(FirstOfEachName(c.packages), name) == LinearFind(c.packages, name)
  {
    var kept := FirstOfEachName(c.packages);
    if Unambiguous(c) {
      forall name: string
        ensures LinearFind(kept, name) == LinearFind(c.packages, name)
      {
        LookupNeutral(c, name);
      }
    }
    if forall name :: LinearFind(kept, name) == LinearFind(c.packages, name) {
      var k := Catalog(kept, c.skip);
      forall p, q | Findable(c, p) && Findable(c, q) && p.name == q.name
        ensures p == q
      {
        var n :| c.Find(n) == Some(p);
        var m :| c.Find(m) == Some(q);
        assert k.Find(n) == Some(p) && k.Find(m) == Some(q);
        assert Findable(k, p) && Findable(k, q);
      }
    }
  }

  lemma LookupNeutral(c: Catalog, name: string)
    requires Unambiguous(c)
    ensures LinearFind(FirstOfEachName(c.packages), name) == LinearFind(c.packages, name)
  {
    if name in Names(c.packages) {
      DedupKeepsNamed(c.packages, name);
    } else if FirstProviding(c.packages, name).Some? {
      ProviderIsFirst(c, name);
      DedupKeepsProvidedIff(c.packages, name);
    } else {
      assert LinearFind(c.packages, name).None?;
    }
  }

  /** The package a provided name finds is the first of its own name. */
  lemma ProviderIsFirst(c: Catalog, name: string)
    requires Unambiguous(c) && name !in Names(c.packages) && FirstProviding(c.packages, name).Some?
    ensures var i := FirstProviding(c.packages, name).value;
            c.packages[i].name !in Names(c.packages[..i])
  {
    var i := FirstProviding(c.packages, name).value;
    assert c.Find(name) == Some(c.packages[i]);
    var own := c.packages[i].name;
    assert own in Names(c.packages);
    var j := FirstNamed(c.packages, own).value;
    assert c.Find(own) == Some(c.packages[j]);
    assert Findable(c, c.packages[i]) && Findable(c, c.packages[j]);
  }

  // ----- clear requests -----

  /** Of this request alone: no two different packages of one name are found by reachable names. */
  ghost predicate Clear(c: Catalog, roots: seq<string>) {
    forall p, q :: Found(c, roots, p) && Found(c, roots, q) && p.name == q.name ==> p == q
  }

  lemma FoundInOrder(c: Catalog, roots: seq<string>, order: seq<PackageMetadata>, name: string)
    requires Clear(c, roots) && AllFound(c, roots, order) && c.Reachable(roots, name)
    requires c.Find(name).Some? && c.Find(name).value.name in Names(order)
    ensures c.Find(name).value in order
  {
    var q :| q in order && q.name == c.Find(name).value.name;
    assert Found(c, roots, q) && Found(c, roots, c.Find(name).value);
  }

  /** Two different packages of one name are in reach. */
  ghost predicate Twofold(c: Catalog, roots: seq<string>, pkgName: string) {
    exists p, q :: Found(c, roots, p) && Found(c, roots, q) && p.name == q.name == pkgName && p != q
  }

  ghost predicate RealCycle(c: Catalog, roots: seq<string>, pkgName: string) {
    exists n :: c.Reachable(roots, n) && OnCycle(c.Edges(), n) && ResolvesTo(c, n, pkgName)
  }

  /** A name loop is a cycle of the request graph, unless two packages share the name. */
  lemma NameLoopMeans(c: Catalog, roots: seq<string>, pkgName: string)
    requires NameLoop(c, roots, pkgName)
    ensures RealCycle(c, roots, pkgName) || Twofold(c, roots, pkgName)
  {
    hide LinearFind;
    var n, m :| c.Reachable(roots, n) && Leads(c.Edges(), n, m) &&
                ResolvesTo(c, n, pkgName) && ResolvesTo(c, m, pkgName);
    var root :| root in roots && !c.skip(root) && Reaches(c.Edges(), root, n);
    LeadsTransitive(c.Edges(), root, n, m);
    assert c.Reachable(roots, m);
    assert Found(c, roots, c.Find(n).value) && Found(c, roots, c.Find(m).value);
    if c.Find(n) == c.Find(m) {
      var b := FirstEdge(c.Edges(), n, m);
      assert c.Asks(m, b);
      EdgeReaches(c.Edges(), m, b, m);
    }
  }

  /** Position of a package in an order. */
  ghost function Rank(order: seq<PackageMetadata>, p: PackageMetadata): (i: nat)
    requires p in order
    ensures i < |order| && order[i] == p
  {
    var i :| 0 <= i < |order| && order[i] == p;
    i
  }

  /** A request by a scheduled package resolves to a package scheduled earlier. */
  lemma AskedIsEarlier(c: Catalog, roots: seq<string>, order: seq<PackageMetadata>, a: string, b: string)
    requires Clear(c, roots) && AllFound(c, roots, order) && UniqueNames(order) && c.Sorted(order)
    requires c.Reachable(roots, a) && c.Find(a).Some? && c.Find(a).value in order && c.Asks(a, b)
    ensures c.Reachable(roots, b) && c.Find(b).Some? && c.Find(b).value in order
    ensures Rank(order, c.Find(b).value) < Rank(order, c.Find(a).value)
  {
    hide LinearFind, ParseDepName;
    AskReachable(c, roots, a, b);
    var i := Rank(order, c.Find(a).value);
    assert c.DepsBefore(order, i);
    FoundInOrder(c, roots, order[..i], b);
  }

  /** Ranks fall along any walk that starts at a scheduled package. */
  lemma {:induction false} RankFalls(c: Catalog, roots: seq<string>, order: seq<PackageMetadata>, path: seq<string>)
    requires Clear(c, roots) && AllFound(c, roots, order) && UniqueNames(order) && c.Sorted(order)
    requires IsPath(c.Edges(), path) && c.Reachable(roots, path[0])
    requires c.Find(path[0]).Some? && c.Find(path[0]).value in order
    ensures var last := path[|path| - 1];
            c.Reachable(roots, last) && c.Find(last).Some? && c.Find(last).value in order &&
            Rank(order, c.Find(last).value) <= Rank(order, c.Find(path[0]).value) - (|path| - 1)
  {
    hide LinearFind, Clear, Found, UniqueNames;
    hide Catalog.Reachable, Catalog.Sorted, Catalog.Asks;
    if |path| > 1 {
      var n := |path| - 1;
      RankFalls(c, roots, order, path[..n]);
      assert c.Edges()(path[n - 1], path[n - 1 + 1]);
      AskedIsEarlier(c, roots, order, path[n - 1], path[n]);
    }
  }

  /** After success on a clear request, everything reachable is scheduled and off every cycle. */
  lemma ReachedIsScheduled(c: Catalog, roots: seq<string>, name: string)
    requires Clear(c, roots) && c.Resolve(roots).0.Done? && c.Reachable(roots, name)
    ensures c.Find(name).Some? && c.Find(name).value in c.Order(roots)
    ensures !OnCycle(c.Edges(), name)
  {
    hide LinearFind, Clear, Found, UniqueNames;
    hide Catalog.Resolve, Catalog.Sorted, Catalog.Edges;
    ResolveSound(c, roots);
    var order := c.Order(roots);
    var root :| root in roots && !c.skip(root) && Reaches(c.Edges(), root, name);
    RootIsScheduled(c, roots, root);
    if root != name {
      var path :| Joins(c.Edges(), path, root, name) && |path| >= 2;
      RankFalls(c, roots, order, path);
    }
    if OnCycle(c.Edges(), name) {
      var path :| Joins(c.Edges(), path, name, name) && |path| >= 2;
      RankFalls(c, roots, order, path);
    }
  }

  lemma RootIsScheduled(c: Catalog, roots: seq<string>, root: string)
    requires Clear(c, roots) && c.Resolve(roots).0.Done? && root in roots && !c.skip(root)
    ensures c.Reachable(roots, root) && c.Find(root).Some? && c.Find(root).value in c.Order(roots)
  {
    hide LinearFind, Clear, Found;
    hide Catalog.Resolve, Catalog.Sorted;
    ResolveSound(c, roots);
    assert Reaches(c.Edges(), root, root);
    assert c.Settled(root, c.Resolve(roots).1);
    FoundInOrder(c, roots, c.Order(roots), root);
  }

  /** The order holds exactly the packages that reachable names find. */
  ghost predicate IsClosure(c: Catalog, roots: seq<string>) {
    forall p :: p in c.Order(roots) <==> Found(c, roots, p)
  }

  /** Exactness on any index: the search succeeds with the whole closure exactly when every reachable name
      resolves, nothing reachable is on a cycle, and no two packages in reach share a name. */
  lemma ResolveExactly(c: Catalog, roots: seq<string>)
    ensures c.Resolve(roots).0.Done? && IsClosure(c, roots) <==>
            c.Complete(roots) && c.Acyclic(roots) && Clear(c, roots)
  {
    hide LinearFind;
    hide Catalog.Resolve, Catalog.Sorted;
    if c.Resolve(roots).0.Done? && IsClosure(c, roots) {
      ClosureIsClear(c, roots);
    }
    if Clear(c, roots) {
      ResolveExact(c, roots);
      if c.Resolve(roots).0.Done? {
        OrderIsClosureIff(c, roots);
      }
    }
  }

  lemma ClosureIsClear(c: Catalog, roots: seq<string>)
    requires IsClosure(c, roots)
    ensures Clear(c, roots)
  {
    hide Catalog.Resolve, Catalog.Sorted, Found;
    ResolveSound(c, roots);
    forall p, q | Found(c, roots, p) && Found(c, roots, q) && p.name == q.name
      ensures p == q
    {
      assert p in c.Order(roots) && q in c.Order(roots);
    }
  }

  /** On a clear request, the search succeeds exactly when every reachable name resolves and nothing reachable
      is on a cycle. */
  lemma ResolveExact(c: Catalog, roots: seq<string>)
    requires Clear(c, roots)
    ensures c.Resolve(roots).0.Done? <==> c.Complete(roots) && c.Acyclic(roots)
  {
    hide LinearFind;
    hide Catalog.Resolve, Catalog.Sorted;
    ResolveSound(c, roots);
    var outcome := c.Resolve(roots).0;
    if outcome.Done? {
      forall name | c.Reachable(roots, name)
        ensures c.Find(name).Some? && !OnCycle(c.Edges(), name)
      {
        ReachedIsScheduled(c, roots, name);
      }
    }
    if outcome.Circular? {
      NameLoopMeans(c, roots, outcome.name);
    }
  }

  /** On any index, a circular error names a package that really depends on itself, or a name that two
      different packages in reach share. */
  lemma CircularMeans(c: Catalog, roots: seq<string>)
    requires c.Resolve(roots).0.Circular?
    ensures var name := c.Resolve(roots).0.name;
            RealCycle(c, roots, name) || Twofold(c, roots, name)
  {
    ResolveSound(c, roots);
    NameLoopMeans(c, roots, c.Resolve(roots).0.name);
  }

  /** After success, the order is the whole closure exactly when no two packages in reach share a name. */
  lemma OrderIsClosureIff(c: Catalog, roots: seq<string>)
    requires c.Resolve(roots).0.Done?
    ensures IsClosure(c, roots) <==> Clear(c, roots)
  {
    hide LinearFind;
    hide Catalog.Resolve, Catalog.Sorted;
    ResolveSound(c, roots);
    if IsClosure(c, roots) {
      ClosureIsClear(c, roots);
    }
    if Clear(c, roots) {
      forall p | Found(c, roots, p)
        ensures p in c.Order(roots)
      {
        var n :| c.Reachable(roots, n) && c.Find(n) == Some(p);
        ReachedIsScheduled(c, roots, n);
      }
    }
  }

  /** Permuting or repeating roots changes neither success nor the set of packages, only their order. */
  lemma RootOrderIrrelevant(c: Catalog, r: seq<string>, s: seq<string>)
    requires Clear(c, r) && Elements(r) == Elements(s)
    ensures c.Resolve(r).0.Done? <==> c.Resolve(s).0.Done?
    ensures c.Resolve(r).0.Done? ==> multiset(c.Order(r)) == multiset(c.Order(s))
  {
    hide LinearFind;
    hide Catalog.Resolve, Catalog.Sorted;
    SameRootsSameFound(c, r, s);
    ResolveExact(c, r);
    ResolveExact(c, s);
    if c.Resolve(r).0.Done? {
      OrderIsClosureIff(c, r);
      OrderIsClosureIff(c, s);
      ResolveSound(c, r);
      ResolveSound(c, s);
      assert forall p :: p in Elements(c.Order(r)) <==> p in Elements(c.Order(s));
      DistinctSameElements(c.Order(r), c.Order(s));
    }
  }

  lemma SameRootsSameFound(c: Catalog, r: seq<string>, s: seq<string>)
    requires Elements(r) == Elements(s)
    ensures forall n :: c.Reachable(r, n) <==> c.Reachable(s, n)
    ensures forall p :: Found(c, r, p) <==> Found(c, s, p)
  {
    assert forall x :: x in r <==> x in Elements(r);
    assert forall x :: x in s <==> x in Elements(s);
    assert forall n :: c.Reachable(r, n) <==> c.Reachable(s, n);
  }

  lemma ReachableIsUnskipped(c: Catalog, roots: seq<string>, name: string)
    requires c.Reachable(roots, name)
    ensures !c.skip(name)
  {
    hide LinearFind, ParseDepName;
    var root :| root in roots && !c.skip(root) && Reaches(c.Edges(), root, name);
    if root != name {
      var b := LastEdge(c.Edges(), root, name);
      assert c.Asks(b, name);
    }
  }

  /** `skip` tests the requested name: a package whose own name is skipped is scheduled only when another,
      unskipped name that it provides is asked for. */
  lemma SkippedOnlyThroughAlias(c: Catalog, roots: seq<string>, p: PackageMetadata)
    requires p in c.Order(roots) && c.skip(p.name)
    ensures exists n :: c.Reachable(roots, n) && n != p.name && c.Find(n) == Some(p) && n in p.provided
  {
    hide LinearFind, UniqueNames;
    hide Catalog.Resolve, Catalog.Sorted, Catalog.Reachable, Catalog.Edges;
    ResolveSound(c, roots);
    assert Found(c, roots, p);
    var n :| c.Reachable(roots, n) && c.Find(n) == Some(p);
    ReachableIsUnskipped(c, roots, n);
  }

  /** A package in reach carries a skipped name. */
  ghost predicate SkippedInReach(c: Catalog, roots: seq<string>) {
    exists n :: c.Reachable(roots, n) && c.Find(n).Some? && c.skip(c.Find(n).value.name)
  }

  /** Exactly when a successful request schedules a package whose own name is skipped: when a name in reach,
      itself not skipped, finds one. Without such a name the promise holds on any index. */
  lemma SkippedIsScheduledIff(c: Catalog, roots: seq<string>)
    requires c.Resolve(roots).0.Done?
    ensures (exists p :: p in c.Order(roots) && c.skip(p.name)) ==> SkippedInReach(c, roots)
    ensures Clear(c, roots) ==> ((exists p :: p in c.Order(roots) && c.skip(p.name)) <==> SkippedInReach(c, roots))
  {
    hide LinearFind, Clear, UniqueNames, Justified;
    hide Catalog.Resolve, Catalog.Sorted, Catalog.Reachable, Catalog.Edges;
    ResolveSound(c, roots);
    if p :| p in c.Order(roots) && c.skip(p.name) {
      assert Found(c, roots, p);
    }
    if Clear(c, roots) && SkippedInReach(c, roots) {
      var n :| c.Reachable(roots, n) && c.Find(n).Some? && c.skip(c.Find(n).value.name);
      ReachedIsScheduled(c, roots, n);
    }
  }

  /** One package "a" that provides "x", with the name "a" skipped. */
  function Alias(): Catalog {
    Catalog([PackageMetadata("a", "1", "", "", None, 0, [], ["x"])], (n: string) => n == "a")
  }

  /** Asking for "x" schedules "a", although "a" is skipped. */
  lemma SkippedIsScheduled()
    ensures Alias().skip("a")
    ensures Alias().Resolve(["x"]).0.Done? && Alias().Order(["x"]) == Alias().packages
  {
    var c := Alias();
    var pkg := c.packages[0];
    assert c.Find("x") == Some(pkg);
    var s := START.(visiting := {"a"});
    assert c.VisitDeps(pkg.depends, s) == (Done, s);
    assert START.(visiting := START.visiting + {pkg.name}) == s;
    assert c.Visit("x", START).0.Done? && c.Visit("x", START).1.order == [pkg];
  }

  /** On what the loader returns, whatever was fetched, resolution is exact. */
  lemma LoadedResolveExact(fetched: seq<PackageMetadata>, skip: string -> bool, roots: seq<string>)
    ensures var c := Catalog(FirstOfEachName(fetched), skip);
            && (c.Resolve(roots).0.Done? <==> c.Complete(roots) && c.Acyclic(roots))
            && (c.Resolve(roots).0.Done? ==> IsClosure(c, roots))
            && (c.Resolve(roots).0.Circular? ==> RealCycle(c, roots, c.Resolve(roots).0.name))
  {
    hide Catalog.Resolve, Catalog.Sorted;
    var c := Catalog(FirstOfEachName(fetched), skip);
    ResolveExact(c, roots);
    if c.Resolve(roots).0.Done? {
      OrderIsClosureIff(c, roots);
    }
    if c.Resolve(roots).0.Circular? {
      CircularMeans(c, roots);
    }
  }

  // ----- which order, and which missing name -----

  /** What a package asks for, in the order of its dependency strings. */
  function DepNames(deps: seq<string>): seq<string> {
    if deps == [] then [] else
    (if ParseDepName(deps[0]) == "" then [] else [ParseDepName(deps[0])]) + DepNames(deps[1..])
  }

  /** The loop over dependency strings is the loop over roots, on what they ask for. */
  lemma {:induction false} DepsAreRoots(c: Catalog, deps: seq<string>, s: Search)
    ensures c.VisitDeps(deps, s) == c.VisitRoots(DepNames(deps), s)
    decreases |deps|
  {
    hide ParseDepName;
    hide Catalog.Visit;
    if deps != [] {
      var name := ParseDepName(deps[0]);
      if name == "" {
        assert DepNames(deps) == DepNames(deps[1..]);
        DepsAreRoots(c, deps[1..], s);
      } else {
        assert DepNames(deps)[0] == name && DepNames(deps)[1..] == DepNames(deps[1..]);
        var (outcome, t) := c.Visit(name, s);
        if outcome.Done? {
          DepsAreRoots(c, deps[1..], t);
        }
      }
    }
  }

  /** The outcomes agree, and on success so do the searches but for what is being visited. */
  predicate SameBut(r: (Outcome, Search), q: (Outcome, Search), visiting: set<string>) {
    r.0 == q.0 && (r.0.Done? ==> q.1 == r.1.(visiting := visiting))
  }

  /** What is being visited matters only to circular errors. */
  lemma {:induction false} VisitWithLess(c: Catalog, name: string, s: Search, v: set<string>)
    requires v <= s.visiting && !c.Visit(name, s).0.Circular?
    ensures SameBut(c.Visit(name, s), c.Visit(name, s.(visiting := v)), v)
    decreases |Names(c.packages) - s.visiting|, 0
  {
    if !c.skip(name) && c.Find(name).Some? && c.Find(name).value.name !in s.scheduled + s.visiting {
      var pkg := c.Find(name).value;
      var s' := s.(visiting := s.visiting + {pkg.name});
      EnterShrinks(Names(c.packages), s.visiting, pkg.name);
      VisitDepsWithLess(c, pkg.depends, s', v + {pkg.name});
      assert s'.(visiting := v + {pkg.name}) == s.(visiting := v + {pkg.name});
      assert v + {pkg.name} - {pkg.name} == v && s.visiting + {pkg.name} - {pkg.name} == s.visiting;
    }
  }

  lemma {:induction false} VisitDepsWithLess(c: Catalog, deps: seq<string>, s: Search, v: set<string>)
    requires v <= s.visiting && !c.VisitDeps(deps, s).0.Circular?
    ensures SameBut(c.VisitDeps(deps, s), c.VisitDeps(deps, s.(visiting := v)), v)
    decreases |Names(c.packages) - s.visiting|, 1 + |deps|
  {
    hide ParseDepName, LinearFind;
    if deps != [] {
      var name := ParseDepName(deps[0]);
      if name == "" {
        VisitDepsWithLess(c, deps[1..], s, v);
      } else {
        VisitWithLess(c, name, s, v);
        var (outcome, t) := c.Visit(name, s);
        if outcome.Done? {
          VisitDepsWithLess(c, deps[1..], t, v);
        }
      }
    }
  }

  /** A root whose request meets no cycle is resolved as its package's dependencies are, in the order in which they
      are written, and then comes itself; and the missing name reported is the one reported for them. */
  lemma RootFollowsItsDependencies(c: Catalog, root: string)
    requires !c.skip(root) && !c.Resolve([root]).0.Circular?
    ensures match c.Find(root)
            case None => c.Resolve([root]).0 == NotFound(root) && c.Order([root]) == []
            case Some(pkg) =>
              var deps := DepNames(pkg.depends);
              c.Resolve([root]).0 == c.Resolve(deps).0 &&
              (c.Resolve(deps).0.Done? ==> c.Order([root]) == c.Order(deps) + [pkg])
  {
    hide ParseDepName, LinearFind;
    var (outcome, t) := c.Visit(root, START);
    assert [root][1..] == [] && c.VisitRoots([], t) == (Done, t);
    assert c.Resolve([root]) == (outcome, t);
    if c.Find(root).Some? {
      var pkg := c.Find(root).value;
      var s := START.(visiting := {pkg.name});
      assert START.(visiting := START.visiting + {pkg.name}) == s;
      assert c.Visit(root, START) == c.Expand(pkg, START);
      VisitDepsWithLess(c, pkg.depends, s, {});
      assert s.(visiting := {}) == START;
      DepsAreRoots(c, pkg.depends, START);
    }
  }

  /** More roots are resolved after those before them: the first failure is the one that is reported. */
  lemma FirstFailureIsReported(c: Catalog, r: seq<string>, s: seq<string>)
    requires !c.Resolve(r).0.Done?
    ensures c.Resolve(r + s).0 == c.Resolve(r).0
  {
    VisitRootsSplits(c, r, s, START);
  }

  // ----- why uniqueness is needed -----

  /** Two packages called "a": the first wants "x", which the second provides. */
  function Twins(): Catalog {
    var first := PackageMetadata("a", "1", "", "", None, 0, ["x"], []);
    var second := PackageMetadata("a", "2", "", "", None, 0, [], ["x"]);
    Catalog([first, second], (n: string) => false)
  }

  lemma TwinsFind(name: string)
    ensures Twins().Find("a") == Some(Twins().packages[0])
    ensures Twins().Find("x") == Some(Twins().packages[1])
    ensures name != "a" && name != "x" ==> Twins().Find(name).None?
  {
    hide FirstNamed, FirstProviding;
  }

  lemma XParses()
    ensures ParseDepName("x") == "x"
  {
    NameRoundTrip("", "x", "");
    assert "" + "x" + "" == "x";
  }

  lemma TwinsAsk(a: string, b: string)
    ensures Twins().Asks(a, b) <==> a == "a" && b == "x"
  {
    TwinsFind(a);
    XParses();
    assert "x" in Twins().packages[0].depends;
  }

  /** A tap may repeat a package name; then "circular dependency" can be reported for an acyclic, complete request. */
  lemma DuplicateNamesFalseCycle()
    ensures Twins().Resolve(["a"]).0 == Circular("a")
    ensures Twins().Complete(["a"]) && Twins().Acyclic(["a"])
  {
    var c := Twins();
    TwinsFail();
    assert c.VisitRoots(["a"], START).0 == Circular("a");
    forall name | c.Reachable(["a"], name)
      ensures c.Find(name).Some? && !OnCycle(c.Edges(), name)
    {
      hide *;
      TwinsReach(name);
      TwinsFind(name);
    }
  }

  lemma TwinsFail()
    ensures Twins().Visit("a", START).0 == Circular("a")
  {
    hide ParseDepName, LinearFind;
    var c := Twins();
    TwinsFind("a");
    XParses();
    var pkg := c.packages[0];
    var s := START.(visiting := {"a"});
    assert c.Visit("x", s) == (Circular("a"), s);
    assert START.(visiting := START.visiting + {pkg.name}) == s;
  }

  lemma TwinsReach(name: string)
    requires Twins().Reachable(["a"], name)
    ensures (name == "a" || name == "x") && !OnCycle(Twins().Edges(), name)
  {
    hide ParseDepName, LinearFind;
    hide Catalog.Asks;
    var edges := Twins().Edges();
    assert forall a, b :: edges(a, b) <==> a == "a" && b == "x" by {
      forall a, b ensures edges(a, b) <==> a == "a" && b == "x" { TwinsAsk(a, b); }
    }
    if name != "a" {
      var b := LastEdge(edges, "a", name);
    }
    if OnCycle(edges, name) {
      var b := FirstEdge(edges, name, name);
      var d := LastEdge(edges, name, name);
    }
  }
}
