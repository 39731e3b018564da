/** Which boot services of a native rootfs can run, and the filter / rewrite / validate passes over them. */
module BootServices {
  import opened Common
  import opened DinitUnits
  import opened Paths

  const STATE_MOUNT := "state-mount"
  const MAX_LINKS := 40

  /** The parts of the rootfs the checks look at, besides the unit files. */
  datatype Image = Image(
    links: map<string, string>,       // symbolic links and their targets
    programs: set<string>,            // paths that are executable regular files
    firstLines: map<string, string>,  // first line of the files that can be read
    applets: set<string>)             // applets of the toybox build

  // ----- following symbolic links -----

  /** The shell's `${path%/x*}`: everything before the last slash, or the whole path without one. */
  function DirName(path: string): (r: string)
    ensures if exists i :: 0 <= i < |path| && path[i] == '/'
            then |r| < |path| && path[|r|] == '/' && r == path[..|r|] &&
                 forall i :: |r| < i < |path| ==> path[i] != '/'
            else r == path
  {
    if path == "" then ""
    else if path[|path| - 1] == '/' then path[..|path| - 1]
    else
      var front := path[..|path| - 1];
      var d := DirName(front);
      if d == front then path else d
  }

  function Hop(img: Image, path: string): string
    requires path in img.links
  {
    var target := img.links[path];
    if target != "" && target[0] == '/' then target else DirName(path) + "/" + target
  }

  /** `path` leads to an executable through at most `hops` links. */
  function Executable(img: Image, path: string, hops: nat): bool
    decreases hops
  {
    if path in img.links then hops > 0 && Executable(img, Hop(img, path), hops - 1)
    else path in img.programs
  }

  function NativeExecutable(img: Image, path: string): bool {
    Executable(img, path, MAX_LINKS)
  }

  /** `_native_executable`: the loop with its link counter. */
  method CheckExecutable(img: Image, path: string) returns (ok: bool)
    ensures ok == NativeExecutable(img, path)
  {
    var current, count := path, 0;
    while current in img.links
      invariant 0 <= count <= MAX_LINKS
      invariant NativeExecutable(img, path) == Executable(img, current, MAX_LINKS - count)
      decreases MAX_LINKS - count
    {
      count := count + 1;
      if count > MAX_LINKS {
        return false;
      }
      current := Hop(img, current);
    }
    ok := current in img.programs;
  }

  /** A chain of links from a path, one entry per hop. */
  ghost predicate LinkChain(img: Image, chain: seq<string>) {
    |chain| > 0 && forall i :: 0 <= i < |chain| - 1 ==>
      chain[i] in img.links && chain[i + 1] == Hop(img, chain[i])
  }

  /** A chain of at most `hops` links from `path` to an executable that is no link. */
  ghost predicate LeadsToProgram(img: Image, chain: seq<string>, path: string, hops: nat) {
    && LinkChain(img, chain) && chain[0] == path && |chain| - 1 <= hops
    && chain[|chain| - 1] !in img.links && chain[|chain| - 1] in img.programs
  }

  lemma ChainGrows(img: Image, chain: seq<string>, path: string, hops: nat)
    requires path in img.links && LeadsToProgram(img, chain, Hop(img, path), hops)
    ensures LeadsToProgram(img, [path] + chain, path, hops + 1)
  {
    var longer := [path] + chain;
    assert longer[|longer| - 1] == chain[|chain| - 1];
  }

  lemma ChainShrinks(img: Image, chain: seq<string>, path: string, hops: nat)
    requires path in img.links && LeadsToProgram(img, chain, path, hops)
    ensures hops > 0 && LeadsToProgram(img, chain[1..], Hop(img, path), hops - 1)
  {
    assert |chain| > 1 && chain[1] == chain[0 + 1];
    assert chain[1..][|chain| - 2] == chain[|chain| - 1];
  }

  /** Executable means: some chain of at most `hops` links ends in an executable that is no link. */
  lemma {:induction false} ExecutableIffChain(img: Image, path: string, hops: nat)
    ensures Executable(img, path, hops) <==> exists chain :: LeadsToProgram(img, chain, path, hops)
    decreases hops
  {
    if path !in img.links {
      assert Executable(img, path, hops) ==> LeadsToProgram(img, [path], path, hops);
    } else {
      hide LeadsToProgram, Hop;
      var next := Hop(img, path);
      if hops > 0 {
        var fewer := hops - 1;
        ExecutableIffChain(img, next, fewer);
        if chain :| LeadsToProgram(img, chain, next, fewer) {
          ChainGrows(img, chain, path, fewer);
        }
      }
      if chain :| LeadsToProgram(img, chain, path, hops) {
        ChainShrinks(img, chain, path, hops);
      }
    }
  }

  /** A link that leads back to itself is never executable, however many hops are allowed. */
  lemma {:induction false} LinkLoopNotExecutable(img: Image, chain: seq<string>, hops: nat)
    requires LinkChain(img, chain) && |chain| > 1 && chain[0] == chain[|chain| - 1]
    ensures !Executable(img, chain[0], hops)
    decreases hops
  {
    if hops > 0 {
      var turned := chain[1..] + [chain[1]];
      assert LinkChain(img, turned);
      LinkLoopNotExecutable(img, turned, hops - 1);
    }
  }

  // ----- the local part of the runnable check -----

  function Interpreter(line: string): string {
    TakeWhileNot(DinitUnits.IsSpace, DropSpaces(line[if |line| < 2 then |line| else 2..]))
  }

  /** Everything `_native_service_runnable` checks about one unit before it looks at dependencies. */
  function LocallyRunnable(img: Image, service: string, unit: seq<string>): bool {
    var command := Command(unit);
    && command != "" && NativeExecutable(img, command)
    && (command == "/bin/toybox" ==> Applet(unit) != "" && Applet(unit) in img.applets)
    && (command in img.firstLines && "#!" <= img.firstLines[command] ==>
          NativeExecutable(img, Interpreter(img.firstLines[command])))
    && (service == "mount-filesystems" ==> "mount" in img.applets)
    && (service == "alpenglow-zram" ==> NativeExecutable(img, "/usr/local/bin/alpenglow-zramctl-zig"))
    && (service == "alpenglowed" ==>
          NativeExecutable(img, "/usr/bin/alpenglowed-bin") || NativeExecutable(img, "/usr/bin/alpenglowed"))
    && (service == "alpenglowed-lite" ==> NativeExecutable(img, "/usr/bin/alpenglowed-lite"))
    && (service == "networking" && command == "/bin/toybox" ==>
          NativeExecutable(img, "/usr/share/udhcpc/default.script"))
  }

  /** The interpreter of a script is the first token after "#!", whatever arguments follow. */
  lemma InterpreterReads(pad: string, path: string, args: string)
    requires AllSpaces(pad) && IsToken(path) && EndsToken(args)
    ensures Interpreter("#!" + (pad + path + args)) == path
  {
    var line := "#!" + (pad + path + args);
    assert line[2..] == pad + path + args;
    PadDropped(pad, path, args);
    FirstToken(path, args);
  }

  predicate IsScript(img: Image, command: string) {
    command in img.firstLines && "#!" <= img.firstLines[command]
  }

  /** A service that nothing more is asked of than its command. */
  predicate IsCommonService(service: string) {
    service !in {"mount-filesystems", "alpenglow-zram", "alpenglowed", "alpenglowed-lite", "networking"}
  }

  /** A unit that runs a toybox applet passes exactly when toybox runs and the build has that applet, whatever
      arguments the applet is given. */
  lemma ToyboxUnitIff(img: Image, service: string, pad: string, applet: string, args: string, rest: seq<string>)
    requires pad != "" && AllSpaces(pad) && IsToken(applet) && EndsToken(args)
    requires IsCommonService(service) && !IsScript(img, TOYBOX)
    ensures LocallyRunnable(img, service, [ToyboxCommand(pad, applet, args)] + rest) <==>
            NativeExecutable(img, TOYBOX) && applet in img.applets
  {
    AppletReads(pad, applet, args, rest);
    hide Command, Applet, ToyboxCommand, NativeExecutable;
  }

  /** A unit that runs a script passes exactly when the script and the interpreter its first line names run. */
  lemma ScriptUnitIff(img: Image, service: string, command: string, args: string, rest: seq<string>,
                      pad: string, path: string, more: string)
    requires IsToken(command) && EndsToken(args) && command != TOYBOX && IsCommonService(service)
    requires AllSpaces(pad) && IsToken(path) && EndsToken(more)
    requires command in img.firstLines && img.firstLines[command] == "#!" + (pad + path + more)
    ensures LocallyRunnable(img, service, ["command = " + (command + args)] + rest) <==>
            NativeExecutable(img, command) && NativeExecutable(img, path)
  {
    CommandOf(command, args, rest);
    InterpreterReads(pad, path, more);
    hide Command, Applet, Interpreter, NativeExecutable;
  }

  /** A unit that runs any other program passes exactly when that program runs. */
  lemma ProgramUnitIff(img: Image, service: string, command: string, args: string, rest: seq<string>)
    requires IsToken(command) && EndsToken(args) && command != TOYBOX && IsCommonService(service)
    requires !IsScript(img, command)
    ensures LocallyRunnable(img, service, ["command = " + (command + args)] + rest) <==> NativeExecutable(img, command)
  {
    CommandOf(command, args, rest);
    hide Command, Applet, Interpreter, NativeExecutable;
  }

  /** What five services need besides: all that tells them from any common service with the same unit. */
  lemma SpecialServices(img: Image, unit: seq<string>, common: string)
    requires IsCommonService(common)
    ensures LocallyRunnable(img, "mount-filesystems", unit) <==>
            LocallyRunnable(img, common, unit) && "mount" in img.applets
    ensures LocallyRunnable(img, "alpenglow-zram", unit) <==>
            LocallyRunnable(img, common, unit) && NativeExecutable(img, "/usr/local/bin/alpenglow-zramctl-zig")
    ensures LocallyRunnable(img, "alpenglowed", unit) <==>
            LocallyRunnable(img, common, unit) &&
            (NativeExecutable(img, "/usr/bin/alpenglowed-bin") || NativeExecutable(img, "/usr/bin/alpenglowed"))
    ensures LocallyRunnable(img, "alpenglowed-lite", unit) <==>
            LocallyRunnable(img, common, unit) && NativeExecutable(img, "/usr/bin/alpenglowed-lite")
    ensures LocallyRunnable(img, "networking", unit) <==>
            LocallyRunnable(img, common, unit) &&
            (Command(unit) == TOYBOX ==> NativeExecutable(img, "/usr/share/udhcpc/default.script"))
  {
    hide Command, Applet, Interpreter, NativeExecutable;
  }

  /** A unit that gives no command is never runnable. */
  lemma NoCommandNotRunnable(img: Image, service: string, unit: seq<string>)
    requires forall line :: line in unit ==> Value("command", line).None?
    ensures !LocallyRunnable(img, service, unit)
  {
    NoCommandAtAll(unit);
  }

  lemma {:induction false} NoCommandAtAll(unit: seq<string>)
    requires forall line :: line in unit ==> Value("command", line).None?
    ensures Command(unit) == ""
  {
    hide Value;
    if unit != [] {
      assert unit[0] in unit;
      NoCommandAtAll(unit[1..]);
    }
  }

  /** Where a link leads: from the directory of the link, or from the root. */
  lemma HopLeads(img: Image, dir: string, name: string)
    requires '/' !in name && dir + "/" + name in img.links
    ensures var target := img.links[dir + "/" + name];
            Hop(img, dir + "/" + name) == if target != "" && target[0] == '/' then target else dir + "/" + target
  {
    var path := dir + "/" + name;
    var d := DirName(path);
    assert path[|dir|] == '/';
    assert forall i :: |dir| < i < |path| ==> path[i] == name[i - |dir| - 1];
    assert |d| == |dir|;
  }

  // ----- the ancestor list -----

  /** The second argument of the recursive call: each ancestor preceded by a blank. */
  function AncestorText(ancestors: seq<string>): string {
    if ancestors == [] then "" else " " + ancestors[0] + AncestorText(ancestors[1..])
  }

  predicate OccursAt(needle: string, text: string, i: nat) {
    i + |needle| <= |text| && text[i..i + |needle|] == needle
  }

  /** case " ${2:-} " in *" ${dependency} "*) */
  predicate ListsAncestor(ancestors: seq<string>, dependency: string) {
    var text := " " + AncestorText(ancestors) + " ";
    exists i: nat :: i < |text| && OccursAt(" " + dependency + " ", text, i)
  }

  ghost predicate AllWords(ws: seq<string>) {
    forall w :: w in ws ==> IsWord(w)
  }

  /** Where a blank-delimited word occurs in the ancestor text, it is one of the ancestors. */
  lemma {:induction false} OccurrenceIsAncestor(ancestors: seq<string>, dep: string, i: nat)
    requires AllWords(ancestors) && IsWord(dep)
    requires OccursAt(" " + dep + " ", AncestorText(ancestors) + " ", i)
    ensures dep in ancestors
  {
    if ancestors != [] {
      var a, tail := ancestors[0], AncestorText(ancestors[1..]) + " ";
      assert a in ancestors && IsWord(a);
      hide AncestorText, OccursAt, IsWord;
      OccursInTail(a, tail, dep, i);
      if i > |a| {
        OccurrenceIsAncestor(ancestors[1..], dep, i - 1 - |a|);
      } else {
        SameFirstWord(a, dep, tail, " " + a + tail);
      }
    }
  }

  /** An occurrence starts at the blank before the first word, or behind that word. */
  lemma OccursInTail(a: string, tail: string, dep: string, i: nat)
    requires IsWord(a) && OccursAt(" " + dep + " ", " " + a + tail, i)
    ensures if i > |a| then OccursAt(" " + dep + " ", tail, i - 1 - |a|) else i == 0
  {
    var needle, text := " " + dep + " ", " " + a + tail;
    assert text[i] == text[i..i + |needle|][0] == needle[0];
    assert forall k :: 1 <= k <= |a| ==> text[k] == a[k - 1];
    if i > |a| {
      assert tail[i - 1 - |a|..i - 1 - |a| + |needle|] == text[i..i + |needle|];
    }
  }

  lemma SameFirstWord(a: string, dep: string, tail: string, text: string)
    requires IsWord(a) && IsWord(dep) && tail != "" && tail[0] == ' '
    requires text == " " + a + tail && OccursAt(" " + dep + " ", text, 0)
    ensures a == dep
  {
    var needle := " " + dep + " ";
    assert text[..|needle|] == needle;
    assert forall k :: 0 <= k < |needle| ==> text[k] == needle[k];
    assert forall k :: 1 <= k <= |a| ==> text[k] == a[k - 1];
    assert forall k :: 1 <= k <= |dep| ==> text[k] == dep[k - 1];
    assert text[|dep| + 1] == ' ' && text[|a| + 1] == ' ';
    assert |a| == |dep|;
    forall k | 0 <= k < |a|
      ensures a[k] == dep[k]
    {
      assert text[k + 1] == a[k + 1 - 1] && text[k + 1] == dep[k + 1 - 1];
    }
  }

  lemma {:induction false} AncestorOccurs(ancestors: seq<string>, dep: string) returns (i: nat)
    requires dep in ancestors
    ensures OccursAt(" " + dep + " ", AncestorText(ancestors) + " ", i)
  {
    var a, tail := ancestors[0], AncestorText(ancestors[1..]) + " ";
    var text := AncestorText(ancestors) + " ";
    assert text == " " + a + tail;
    if a == dep {
      i := 0;
      assert tail[0] == ' ';
      assert text[..|dep| + 2] == " " + dep + " ";
    } else {
      var j := AncestorOccurs(ancestors[1..], dep);
      i := j + 1 + |a|;
      assert text[i..i + |dep| + 2] == tail[j..j + |dep| + 2];
    }
  }

  /** The text test is list membership, because words contain no blanks. */
  lemma ListsAncestorExactly(ancestors: seq<string>, dep: string)
    requires AllWords(ancestors) && IsWord(dep)
    ensures ListsAncestor(ancestors, dep) <==> dep in ancestors
  {
    var needle := " " + dep + " ";
    var inner := AncestorText(ancestors) + " ";
    var text := " " + AncestorText(ancestors) + " ";
    assert text == " " + inner;
    hide AncestorText, OccursAt;
    if dep in ancestors {
      var i := AncestorOccurs(ancestors, dep);
      OccursShifted(needle, inner, i);
      assert OccursAt(needle, text, i + 1) && i + 1 < |text|;
    }
    if ListsAncestor(ancestors, dep) {
      var i: nat :| i < |text| && OccursAt(needle, text, i);
      StartsWithBlank(ancestors);
      NotAtFront(dep, inner, i);
      OccursShifted(needle, inner, i - 1);
      OccurrenceIsAncestor(ancestors, dep, i - 1);
    }
  }

  lemma StartsWithBlank(ancestors: seq<string>)
    ensures (AncestorText(ancestors) + " ")[0] == ' '
  {
  }

  lemma OccursShifted(needle: string, inner: string, i: nat)
    ensures OccursAt(needle, " " + inner, i + 1) <==> OccursAt(needle, inner, i)
    ensures needle != "" && OccursAt(needle, inner, i) ==> i < |inner|
  {
    var text := " " + inner;
    if i + |needle| <= |inner| {
      assert text[i + 1..i + 1 + |needle|] == inner[i..i + |needle|];
    }
  }

  lemma NotAtFront(dep: string, inner: string, i: nat)
    requires IsWord(dep) && inner != "" && inner[0] == ' '
    requires OccursAt(" " + dep + " ", " " + inner, i)
    ensures i > 0
  {
    var needle, text := " " + dep + " ", " " + inner;
    assert text[i + 1] == text[i..i + |needle|][1] == needle[1] == dep[0];
  }

  // ----- the recursive check -----

  datatype World = World(img: Image, units: map<string, seq<string>>)
  {
    function Deps(service: string): seq<string> {
      if service in units then Dependencies(units[service]) else []
    }

    function LocalOk(service: string): bool {
      service in units && LocallyRunnable(img, service, units[service])
    }

    function Edges(): Relation {
      (a, b) => b in Deps(a)
    }

    /** Twice the unvisited units, plus one for a service that is its own parent: the ancestor list
        does not hold the current service, so a self-dependency is caught one call late. */
    function Measure(service: string, ancestors: seq<string>): nat {
      2 * |units.Keys - Elements(ancestors)| + if service in ancestors then 1 else 0
    }

    /** `_native_service_runnable service ancestors`. */
    function Runnable(service: string, ancestors: seq<string>): bool
      requires IsWord(service) && AllWords(ancestors)
      decreases Measure(service, ancestors), 1 + |Deps(service)|
    {
      LocalOk(service) && AllRunnable(Deps(service), service, ancestors)
    }

    /** The loop over the dependencies of `service`. */
    function AllRunnable(deps: seq<string>, service: string, ancestors: seq<string>): bool
      requires AllWords(deps) && IsWord(service) && AllWords(ancestors) && service in units
      decreases Measure(service, ancestors), |deps|
    {
      if deps == [] then true else
      ListsAncestorExactly(ancestors, deps[0]);
      if ListsAncestor(ancestors, deps[0]) then false else
      MeasureDrops(this, service, ancestors, deps[0]);
      Runnable(deps[0], ancestors + [service]) && AllRunnable(deps[1..], service, ancestors)
    }

    /** Everything reachable is locally runnable and off every cycle. */
    ghost predicate Sound(service: string) {
      forall n :: Reaches(Edges(), service, n) ==> LocalOk(n) && !OnCycle(Edges(), n)
    }
  }

  lemma MeasureDrops(w: World, service: string, ancestors: seq<string>, dep: string)
    requires service in w.units && dep !in ancestors
    ensures w.Measure(dep, ancestors + [service]) < w.Measure(service, ancestors)
  {
    var left := w.units.Keys - Elements(ancestors);
    assert Elements(ancestors + [service]) == Elements(ancestors) + {service};
    if service in ancestors {
      assert w.units.Keys - Elements(ancestors + [service]) == left;
    } else {
      assert w.units.Keys - Elements(ancestors + [service]) == left - {service};
      assert |left - {service}| == |left| - 1;
    }
  }

  lemma {:induction false} AllRunnableMeans(w: World, deps: seq<string>, service: string, ancestors: seq<string>)
    requires AllWords(deps) && IsWord(service) && AllWords(ancestors) && service in w.units
    ensures w.AllRunnable(deps, service, ancestors) <==>
            forall d :: d in deps ==> d !in ancestors && w.Runnable(d, ancestors + [service])
  {
    if deps != [] {
      ListsAncestorExactly(ancestors, deps[0]);
      AllRunnableMeans(w, deps[1..], service, ancestors);
      assert deps == [deps[0]] + deps[1..];
    }
  }

  /** One unfolding of the check, with the list test read as membership. */
  lemma RunnableMeans(w: World, service: string, ancestors: seq<string>)
    requires IsWord(service) && AllWords(ancestors)
    ensures w.Runnable(service, ancestors) <==>
            w.LocalOk(service) &&
            forall d :: d in w.Deps(service) ==> d !in ancestors && w.Runnable(d, ancestors + [service])
  {
    if w.LocalOk(service) {
      AllRunnableMeans(w, w.Deps(service), service, ancestors);
    }
  }

  lemma PathWords(w: World, path: seq<string>)
    requires IsPath(w.Edges(), path) && IsWord(path[0])
    ensures AllWords(path)
  {
    forall i | 0 <= i < |path|
      ensures IsWord(path[i])
    {
      if i > 0 { assert w.Edges()(path[i - 1], path[i - 1 + 1]); }
    }
  }

  /** Success holds along every walk, and no step of the walk returns before its own start. */
  lemma {:induction false} SuccessAlongPath(w: World, path: seq<string>)
    requires IsPath(w.Edges(), path) && IsWord(path[0]) && AllWords(path)
    requires w.Runnable(path[0], [])
    ensures w.Runnable(path[|path| - 1], path[..|path| - 1])
    ensures |path| > 1 ==> path[|path| - 1] !in path[..|path| - 2]
  {
    hide World.Runnable, LocallyRunnable, Dependencies;
    if |path| > 1 {
      var n := |path| - 1;
      SuccessAlongPath(w, path[..n]);
      assert path[..n][..n - 1] == path[..n - 1];
      assert w.Edges()(path[n - 1], path[n - 1 + 1]);
      RunnableMeans(w, path[n - 1], path[..n - 1]);
      assert path[..n - 1] + [path[n - 1]] == path[..n];
    }
  }

  /** A successful check leaves no cycle in reach: walk to the cycle and round it twice. */
  lemma SuccessMeansSound(w: World, service: string)
    requires IsWord(service) && w.Runnable(service, [])
    ensures w.Sound(service)
  {
    forall n | Reaches(w.Edges(), service, n)
      ensures w.LocalOk(n) && !OnCycle(w.Edges(), n)
    {
      var path := [service];
      if service != n {
        path :| Joins(w.Edges(), path, service, n) && |path| >= 2;
      }
      PathWords(w, path);
      SuccessAlongPath(w, path);
      RunnableMeans(w, n, path[..|path| - 1]);
      if OnCycle(w.Edges(), n) {
        var loop :| Joins(w.Edges(), loop, n, n) && |loop| >= 2;
        TwiceRoundFails(w, path, loop, n);
      }
    }
  }

  lemma TwiceRoundFails(w: World, path: seq<string>, loop: seq<string>, n: string)
    requires IsPath(w.Edges(), path) && path[|path| - 1] == n && IsWord(path[0])
    requires Joins(w.Edges(), loop, n, n) && |loop| >= 2
    ensures !w.Runnable(path[0], [])
  {
    var once := path + loop[1..];
    JoinPaths(w.Edges(), path, loop, path[0], n, n);
    var twice := once + loop[1..];
    JoinPaths(w.Edges(), once, loop, path[0], n, n);
    PathWords(w, twice);
    assert twice[..|twice| - 2][|path| - 1] == twice[|path| - 1] == n;
    if w.Runnable(path[0], []) {
      SuccessAlongPath(w, twice);
    }
  }

  /** Without bad units or cycles in reach the check succeeds, whatever walk led to it. */
  lemma {:induction false} SoundMeansSuccess(w: World, service: string, ancestors: seq<string>)
    requires IsWord(service) && AllWords(ancestors) && w.Sound(service)
    requires forall a :: a in ancestors ==> Leads(w.Edges(), a, service)
    ensures w.Runnable(service, ancestors)
    decreases w.Measure(service, ancestors)
  {
    assert Reaches(w.Edges(), service, service);
    forall d | d in w.Deps(service)
      ensures d !in ancestors && w.Runnable(d, ancestors + [service])
    {
      assert w.Edges()(service, d);
      EdgeLeads(w.Edges(), service, d);
      if d in ancestors {
        LeadsTransitive(w.Edges(), d, service, d);
        assert Reaches(w.Edges(), service, d);
      }
      MeasureDrops(w, service, ancestors, d);
      forall a | a in ancestors + [service]
        ensures Leads(w.Edges(), a, d)
      {
        if a in ancestors { LeadsTransitive(w.Edges(), a, service, d); }
      }
      SoundBelow(w, service, d);
      SoundMeansSuccess(w, d, ancestors + [service]);
    }
    RunnableMeans(w, service, ancestors);
  }

  lemma SoundBelow(w: World, a: string, b: string)
    requires w.Sound(a) && Reaches(w.Edges(), a, b)
    ensures w.Sound(b)
  {
    forall n | Reaches(w.Edges(), b, n)
      ensures w.LocalOk(n) && !OnCycle(w.Edges(), n)
    {
      LeadsTransitive(w.Edges(), a, b, n);
    }
  }

  /** Exactness: runnable means every reachable unit is locally runnable and no reachable unit is on a cycle. */
  lemma RunnableExact(w: World, service: string)
    requires IsWord(service)
    ensures w.Runnable(service, []) <==> w.Sound(service)
  {
    if w.Runnable(service, []) {
      SuccessMeansSound(w, service);
    }
    if w.Sound(service) {
      SoundMeansSuccess(w, service, []);
    }
  }
}
