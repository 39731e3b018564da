/** The package index: two hash maps that must agree with a linear scan of the package list. */
module Registry {
  import opened Common

  datatype PackageMetadata = PackageMetadata(
    name: string, version: string, description: string, downloadUrl: string,
    sha256: Option<string>, installedSize: nat, depends: seq<string>, provided: seq<string>)

  function Names(packages: seq<PackageMetadata>): set<string> {
    set p | p in packages :: p.name
  }

  ghost predicate UniqueNames(packages: seq<PackageMetadata>) {
    forall i, j :: 0 <= i < j < |packages| ==> packages[i].name != packages[j].name
  }

  /** Position of the first package called `name`. */
  function FirstNamed(packages: seq<PackageMetadata>, name: string): (r: Option<nat>)
    ensures r.Some? ==> r.value < |packages| && packages[r.value].name == name
    ensures forall j :: 0 <= j < (if r.Some? then r.value else |packages|) ==> packages[j].name != name
  {
    if packages == [] then None else
    var n := |packages| - 1;
    var r := FirstNamed(packages[..n], name);
    if r.Some? then r else if packages[n].name == name then Some(n) else None
  }

  /** Position of the first package providing `name`. */
  function FirstProviding(packages: seq<PackageMetadata>, name: string): (r: Option<nat>)
    ensures r.Some? ==> r.value < |packages| && name in packages[r.value].provided
    ensures forall j :: 0 <= j < (if r.Some? then r.value else |packages|) ==> name !in packages[j].provided
  {
    if packages == [] then None else
    var n := |packages| - 1;
    var r := FirstProviding(packages[..n], name);
    if r.Some? then r else if name in packages[n].provided then Some(n) else None
  }

  /** The reference scan: the first package with that name, else the first package providing it. */
  function LinearFind(packages: seq<PackageMetadata>, name: string): (r: Option<PackageMetadata>)
    ensures r.Some? ==> r.value in packages && (r.value.name == name || name in r.value.provided)
    ensures r.None? <==> forall p :: p in packages ==> p.name != name && name !in p.provided
  {
    match FirstNamed(packages, name)
    case Some(i) => Some(packages[i])
    case None =>
      match FirstProviding(packages, name)
      case Some(i) => Some(packages[i])
      case None => None
  }

  ghost predicate IndexesNames(m: map<string, nat>, packages: seq<PackageMetadata>) {
    forall n :: match FirstNamed(packages, n)
                case Some(i) => n in m && m[n] == i
                case None => n !in m
  }

  ghost predicate IndexesProvides(m: map<string, nat>, packages: seq<PackageMetadata>) {
    forall n :: match FirstProviding(packages, n)
                case Some(i) => n in m && m[n] == i
                case None => n !in m
  }

  datatype PackageIndex = PackageIndex(
    packages: seq<PackageMetadata>, nameIndex: map<string, nat>, providesIndex: map<string, nat>)
  {
    ghost predicate Valid() {
      IndexesNames(nameIndex, packages) && IndexesProvides(providesIndex, packages)
    }

    /** Two map lookups; the same answer as the scan of the whole list. */
    function Find(name: string): (r: Option<PackageMetadata>)
      requires Valid()
      ensures r == LinearFind(packages, name)
    {
      assert match FirstNamed(packages, name)
             case Some(i) => name in nameIndex && nameIndex[name] == i
             case None => name !in nameIndex;
      assert match FirstProviding(packages, name)
             case Some(i) => name in providesIndex && providesIndex[name] == i
             case None => name !in providesIndex;
      if name in nameIndex then Some(packages[nameIndex[name]])
      else if name in providesIndex then Some(packages[providesIndex[name]])
      else None
    }
  }

  /** The inner loop over what one package provides. */
  method AddProvided(before: map<string, nat>, provided: seq<string>, i: nat) returns (after: map<string, nat>)
    ensures forall n :: n in after <==> n in before || n in provided
    ensures forall n :: n in after ==> after[n] == if n in before then before[n] else i
  {
    after := before;
    for j := 0 to |provided|
      invariant forall n :: n in after <==> n in before || n in provided[..j]
      invariant forall n :: n in after ==> after[n] == if n in before then before[n] else i
    {
      if provided[j] !in after {
        after := after[provided[j] := i];
      }
    }
    assert provided[..|provided|] == provided;
  }

  /** Build the index: `entry(..).or_insert(i)` keeps the first position under each key. */
  method NewIndex(packages: seq<PackageMetadata>) returns (index: PackageIndex)
    ensures index.Valid() && index.packages == packages
  {
    var nameIndex: map<string, nat>, providesIndex: map<string, nat> := map[], map[];
    for i := 0 to |packages|
      invariant IndexesNames(nameIndex, packages[..i])
      invariant IndexesProvides(providesIndex, packages[..i])
    {
      var pkg := packages[i];
      providesIndex := AddProvided(providesIndex, pkg.provided, i);
      if pkg.name !in nameIndex {
        nameIndex := nameIndex[pkg.name := i];
      }
      assert packages[..i + 1][..i] == packages[..i];
    }
    assert packages[..|packages|] == packages;
    index := PackageIndex(packages, nameIndex, providesIndex);
  }

  // ----- the loader's deduplication -----

  /** The packages whose name does not occur earlier. */
  function FirstOfEachName(packages: seq<PackageMetadata>): (r: seq<PackageMetadata>)
    ensures UniqueNames(r)
    ensures Names(r) == Names(packages)
    ensures forall p :: p in r ==> p in packages
  {
    if packages == [] then [] else
    var n := |packages| - 1;
    var r := FirstOfEachName(packages[..n]);
    assert packages == packages[..n] + [packages[n]];
    assert Names(packages) == Names(packages[..n]) + {packages[n].name};
    if packages[n].name in Names(packages[..n]) then r else
      assert forall i :: 0 <= i < |r| ==> r[i].name in Names(r);
      r + [packages[n]]
  }

  /** `all_packages.retain(..)` with a growing `seen` set. */
  method Deduplicate(packages: seq<PackageMetadata>) returns (kept: seq<PackageMetadata>)
    ensures kept == FirstOfEachName(packages)
  {
    var seen: set<string> := {};
    kept := [];
    for i := 0 to |packages|
      invariant seen == Names(packages[..i])
      invariant kept == FirstOfEachName(packages[..i])
    {
      var p := packages[i];
      assert packages[..i + 1][..i] == packages[..i];
      assert packages[..i + 1] == packages[..i] + [p];
      if p.name !in seen {
        seen := seen + {p.name};
        kept := kept + [p];
      }
    }
    assert packages[..|packages|] == packages;
  }

  /** One more package at the end changes nothing for a name that is there already. */
  lemma NamedInFront(front: seq<PackageMetadata>, p: PackageMetadata, name: string)
    ensures name in Names(front) ==> LinearFind(front + [p], name) == LinearFind(front, name)
    ensures name !in Names(front) && p.name == name ==> LinearFind(front + [p], name) == Some(p)
  {
    hide FirstProviding;
    var all := front + [p];
    assert all[..|all| - 1] == front && all[|all| - 1] == p;
  }

  /** A name that belongs to a package finds the same package before and after deduplication. */
  lemma {:induction false} DedupKeepsNamed(packages: seq<PackageMetadata>, name: string)
    requires name in Names(packages)
    ensures LinearFind(FirstOfEachName(packages), name) == LinearFind(packages, name)
  {
    hide LinearFind;
    var n := |packages| - 1;
    var front, p := packages[..n], packages[n];
    var r := FirstOfEachName(front);
    assert packages == front + [p];
    assert FirstOfEachName(packages) == if p.name in Names(front) then r else r + [p];
    NamedInFront(front, p, name);
    NamedInFront(r, p, name);
    if name in Names(front) {
      DedupKeepsNamed(front, name);
    }
  }

  /** For a provided name, deduplication keeps the answer exactly when it kept the first provider. */
  lemma DedupKeepsProvidedIff(packages: seq<PackageMetadata>, name: string)
    requires name !in Names(packages) && FirstProviding(packages, name).Some?
    ensures var i := FirstProviding(packages, name).value;
            LinearFind(FirstOfEachName(packages), name) == LinearFind(packages, name)
            <==> packages[i].name !in Names(packages[..i])
  {
    var i := FirstProviding(packages, name).value;
    var kept := FirstOfEachName(packages);
    assert LinearFind(packages, name) == Some(packages[i]);
    if packages[i].name !in Names(packages[..i]) {
      FirstProviderOfKept(packages, name, i);
    } else {
      var j :| 0 <= j < i && packages[j].name == packages[i].name;
      assert name !in packages[j].provided;
      KeptIsFirst(packages, packages[i]);
    }
  }

  /** Every kept package is the first one of its name. */
  lemma {:induction false} KeptIsFirst(packages: seq<PackageMetadata>, p: PackageMetadata)
    ensures p in FirstOfEachName(packages) ==>
              FirstNamed(packages, p.name).Some? && packages[FirstNamed(packages, p.name).value] == p
  {
    if packages != [] {
      hide FirstOfEachName, FirstNamed, Names;
      var n := |packages| - 1;
      var front, last := packages[..n], packages[n];
      assert packages == front + [last];
      KeptIsFirst(front, p);
    }
  }

  lemma {:induction false} FirstProviderOfKept(packages: seq<PackageMetadata>, name: string, i: nat)
    requires FirstProviding(packages, name) == Some(i)
    requires packages[i].name !in Names(packages[..i])
    ensures FirstProviding(FirstOfEachName(packages), name).Some?
    ensures var kept := FirstOfEachName(packages);
            kept[FirstProviding(kept, name).value] == packages[i]
  {
    var n := |packages| - 1;
    var front := packages[..n];
    var r := FirstOfEachName(front);
    if i < n {
      assert front[..i] == packages[..i];
      FirstProviderOfKept(front, name, i);
      assert FirstOfEachName(packages) == r || FirstOfEachName(packages)[..|r|] == r;
    } else {
      assert forall j :: 0 <= j < |r| ==> r[j] in front && name !in r[j].provided;
      assert FirstOfEachName(packages)[..|r|] == r;
    }
  }
}
