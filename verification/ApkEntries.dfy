/** What one entry of an APK's data tar does, with and without the cache of directories already created. */
module ApkEntries {
  import opened Common
  import opened PathNames
  import opened FileTree

  datatype Kind = Directory | Symlink(target: Option<LinkTarget>) | HardLink | Regular(data: seq<byte>) | Unsupported

  /** One item of the tar stream; an unreadable one ends the extraction. */
  datatype Item = Entry(name: string, kind: Kind) | Unreadable

  /** What an extraction has done so far. */
  datatype Progress = Progress(fs: Tree, files: seq<Path>, dirs: seq<Path>)

  // ----- entry names -----

  predicate Contains(text: string, needle: string) {
    exists i :: 0 <= i <= |text| && needle <= text[i..]
  }

  function TrimSlashes(s: string): string {
    if s != "" && s[0] == '/' then TrimSlashes(s[1..]) else s
  }

  /** The relative name an entry is unpacked under; None for entries that are passed over. */
  function Stripped(name: string): Option<string> {
    if name == ".PKGINFO" || name == ".INSTALL" || ".SIGN." <= name then None else
    var rest := TrimSlashes(if "./" <= name then name[2..] else name);
    if rest == "" || Contains(rest, "..") then None else Some(rest)
  }

  function NormalPieces(pieces: seq<string>): Path {
    if pieces == [] then [] else
    (if pieces[0] == "" || pieces[0] == "." then [] else [pieces[0]]) + NormalPieces(pieces[1..])
  }

  function Destination(destDir: Path, stripped: string): (r: Path)
    ensures destDir <= r
  {
    destDir + NormalPieces(Pieces(stripped, '/'))
  }

  /** `is_safe_symlink`: lexically, the target never climbs out of the destination. */
  function StaysInside(resolved: Path, components: seq<Component>, destDir: Path): bool
    decreases |components|
  {
    if components == [] then destDir <= resolved else
    match components[0]
    case ParentDir =>
      resolved != [] && destDir <= Parent(resolved) && StaysInside(Parent(resolved), components[1..], destDir)
    case Normal(c) => StaysInside(resolved + [c], components[1..], destDir)
    case CurrentDir => StaysInside(resolved, components[1..], destDir)
  }

  function IsSafeLink(target: LinkTarget, dest: Path, destDir: Path): bool {
    !target.absolute && StaysInside(if dest == [] then [] else Parent(dest), target.components, destDir)
  }

  /** `is_safe_symlink`: the loop over the components of the target. */
  method CheckSafeLink(target: LinkTarget, dest: Path, destDir: Path) returns (safe: bool)
    ensures safe == IsSafeLink(target, dest, destDir)
  {
    if target.absolute {
      return false;
    }
    var resolved := if dest == [] then [] else Parent(dest);
    for k := 0 to |target.components|
      invariant IsSafeLink(target, dest, destDir) == StaysInside(resolved, target.components[k..], destDir)
    {
      assert target.components[k..][1..] == target.components[k + 1..];
      match target.components[k] {
        case ParentDir =>
          if resolved == [] || !(destDir <= Parent(resolved)) {
            return false;
          }
          resolved := Parent(resolved);
        case Normal(c) =>
          resolved := resolved + [c];
        case CurrentDir =>
      }
    }
    safe := destDir <= resolved;
  }

  /** The lexical meaning of a relative target: where it leads from `base`; None above the root. */
  function Lexical(base: Path, components: seq<Component>): Option<Path>
    decreases |components|
  {
    if components == [] then Some(base) else
    match components[0]
    case ParentDir => if base == [] then None else Lexical(Parent(base), components[1..])
    case Normal(c) => Lexical(base + [c], components[1..])
    case CurrentDir => Lexical(base, components[1..])
  }

  predicate LeadsInside(base: Path, components: seq<Component>, destDir: Path) {
    match Lexical(base, components)
    case Some(p) => destDir <= p
    case None => false
  }

  /** A target is accepted exactly if it is relative and, read from the parent of its entry, leads below the
      destination at its end and after every climb. */
  lemma SafeLinkIff(target: LinkTarget, dest: Path, destDir: Path)
    requires dest != []
    ensures IsSafeLink(target, dest, destDir) <==>
            && !target.absolute && LeadsInside(Parent(dest), target.components, destDir)
            && forall k :: 0 <= k < |target.components| && target.components[k] == ParentDir ==>
                 LeadsInside(Parent(dest), target.components[..k + 1], destDir)
  {
    StaysInsideIff(Parent(dest), target.components, destDir);
  }

  lemma {:induction false} StaysInsideIff(base: Path, components: seq<Component>, destDir: Path)
    ensures StaysInside(base, components, destDir) <==>
            && LeadsInside(base, components, destDir)
            && forall k :: 0 <= k < |components| && components[k] == ParentDir ==>
                 LeadsInside(base, components[..k + 1], destDir)
    decreases |components|
  {
    if components != [] {
      var climbs := components[0] == ParentDir;
      var rest := components[1..];
      forall k | 0 <= k < |components|
        ensures components[..k + 1][0] == components[0] && components[..k + 1][1..] == rest[..k]
      {
      }
      if climbs && base == [] {
        assert !LeadsInside(base, components, destDir);
        return;
      }
      var next := match components[0]
        case ParentDir => Parent(base)
        case Normal(c) => base + [c]
        case CurrentDir => base;
      assert forall k :: 0 <= k < |components| ==>
        LeadsInside(base, components[..k + 1], destDir) == LeadsInside(next, rest[..k], destDir);
      assert LeadsInside(next, rest[..0], destDir) == (destDir <= next);
      assert forall k :: 0 <= k < |rest| ==> components[k + 1] == rest[k];
      StaysInsideIff(next, rest, destDir);
      hide Lexical;
    }
  }

  // ----- extraction without a cache: the reference -----

  /** The part of an entry that does not involve the cache, once its parent directory is in place. */
  function Place(s: Progress, destDir: Path, dest: Path, kind: Kind): (Progress, bool)
    requires !kind.Directory?
  {
    match kind
    case Symlink(None) => (s, true)
    case Symlink(Some(target)) =>
      if !IsSafeLink(target, dest, destDir) then (s, false) else
      var (fs, ok) := PlaceLink(s.fs, dest, target);
      (s.(fs := fs, files := if ok then s.files + [dest] else s.files), ok)
    case Regular(data) =>
      var (fs, ok) := Unpack(s.fs, dest, data);
      (s.(fs := fs, files := if ok then s.files + [dest] else s.files), ok)
    case _ => (s, false)
  }

  /** One entry, calling create_dir_all every time. */
  function PlainEntry(s: Progress, destDir: Path, item: Item): (Progress, bool) {
    if item.Unreadable? then (s, false) else
    var name := Stripped(item.name);
    if name.None? then (s, true) else
    var dest := Destination(destDir, name.value);
    var (fs, ok) := if dest == [] then (s.fs, true) else CreateDirAll(s.fs, Parent(dest));
    if !ok then (s.(fs := fs), false)
    else if item.kind.Directory? then
      var (fs', ok') := CreateDirAll(fs, dest);
      (s.(fs := fs', dirs := if ok' then s.dirs + [dest] else s.dirs), ok')
    else Place(s.(fs := fs), destDir, dest, item.kind)
  }

  function PlainRun(s: Progress, destDir: Path, items: seq<Item>): (Progress, bool)
    decreases |items|
  {
    if items == [] then (s, true) else
    var (t, ok) := PlainEntry(s, destDir, items[0]);
    if ok then PlainRun(t, destDir, items[1..]) else (t, false)
  }

  // ----- extraction with the cache -----

  /** The loop over `current`: the path and its ancestors up to the first cached one. */
  function Uncached(created: set<Path>, p: Path): (r: set<Path>)
    ensures forall q :: q in r ==> q <= p && q !in created
    decreases |p|
  {
    if p in created then {} else {p} + (if p == [] then {} else Uncached(created, Parent(p)))
  }

  function CachedEntry(s: Progress, created: set<Path>, destDir: Path, item: Item): (Progress, set<Path>, bool) {
    if item.Unreadable? then (s, created, false) else
    var name := Stripped(item.name);
    if name.None? then (s, created, true) else
    var dest := Destination(destDir, name.value);
    var miss := dest != [] && Parent(dest) !in created;
    var (fs, ok) := if miss then CreateDirAll(s.fs, Parent(dest)) else (s.fs, true);
    if !ok then (s.(fs := fs), created, false) else
    var created' := if miss then created + Uncached(created, Parent(dest)) else created;
    if item.kind.Directory? then
      var (fs', ok') := if dest in created' then (fs, true) else CreateDirAll(fs, dest);
      (s.(fs := fs', dirs := if ok' then s.dirs + [dest] else s.dirs),
       if ok' then created' + {dest} else created', ok')
    else
      var (t, ok') := Place(s.(fs := fs), destDir, dest, item.kind);
      (t, created', ok')
  }

  function CachedRun(s: Progress, created: set<Path>, destDir: Path, items: seq<Item>): (Progress, set<Path>, bool)
    decreases |items|
  {
    if items == [] then (s, created, true) else
    var (t, created', ok) := CachedEntry(s, created, destDir, items[0]);
    if ok then CachedRun(t, created', destDir, items[1..]) else (t, created', false)
  }
}
