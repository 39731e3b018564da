/** Unpacking an APK's data tar with a cache of directories already created. */
module ApkExtract {
  import opened Common
  import opened FileTree
  import opened ApkEntries
  import opened ApkCache
  import opened ApkContents

  /** The collections `untar` grows, and the file system it works on. */
  class Extraction {
    const destDir: Path
    var fs: Tree
    var files: seq<Path>
    var dirs: seq<Path>
    var createdDirs: set<Path>

    constructor (destDir: Path, fs: Tree)
      ensures this.destDir == destDir && State() == Progress(fs, [], []) && createdDirs == {destDir}
    {
      this.destDir := destDir;
      this.fs := fs;
      files, dirs, createdDirs := [], [], {destDir};
    }

    function State(): Progress
      reads this
    {
      Progress(fs, files, dirs)
    }

    /** `untar`. */
    method Untar(items: seq<Item>) returns (ok: bool)
      requires createdDirs == {destDir}
      modifies this
      ensures (State(), createdDirs, ok) == CachedRun(old(State()), {destDir}, destDir, items)
      ensures WellFormed(old(fs)) ==>
                (AlwaysSame(old(State()), {destDir}, destDir, items) <==>
                 NeverTrustsStale(old(State()), {destDir}, destDir, items))
      ensures AlwaysSame(old(State()), {destDir}, destDir, items) ==>
                PlainRun(old(State()), destDir, items) == (State(), ok)
      ensures createdDirs >= {destDir} && Closed(createdDirs, destDir)
      ensures ok ==> files == old(files) + Listed(items, destDir, FILES)
      ensures ok ==> dirs == old(dirs) + Listed(items, destDir, DIRS)
    {
      hide CachedEntry, PlainEntry, TrustsStale, Closed;
      if WellFormed(fs) {
        CachedRunAgreesIff(State(), {destDir}, destDir, items);
      }
      StartIsClosed(destDir);
      if CachedRun(State(), {destDir}, destDir, items).2 {
        RunLists(State(), {destDir}, destDir, items);
      }
      CacheStaysClosed(State(), {destDir}, destDir, items);
      assert items[..|items|] == items;
      assert AlwaysSame(State(), {destDir}, destDir, items) ==>
             SameAfter(State(), {destDir}, destDir, items[..|items|]);
      for k := 0 to |items|
        invariant CachedRun(old(State()), {destDir}, destDir, items) ==
                  CachedRun(State(), createdDirs, destDir, items[k..])
      {
        ok := ProcessEntry(items[k]);
        assert items[k..][1..] == items[k + 1..];
        if !ok {
          return;
        }
      }
      ok := true;
    }

    /** `process_tar_entry` with `process_dir`. */
    method ProcessEntry(item: Item) returns (ok: bool)
      modifies this
      ensures (State(), createdDirs, ok) == CachedEntry(old(State()), old(createdDirs), destDir, item)
    {
      if item.Unreadable? {
        return false;
      }
      var name := Stripped(item.name);
      if name.None? {
        return true;
      }
      var dest := Destination(destDir, name.value);
      if dest != [] && Parent(dest) !in createdDirs {
        var (made, done) := CreateDirAll(fs, Parent(dest));
        fs := made;
        if !done {
          return false;
        }
        Remember(Parent(dest));
      }
      if item.kind.Directory? {
        if dest !in createdDirs {
          var (made, done) := CreateDirAll(fs, dest);
          fs := made;
          if !done {
            return false;
          }
          createdDirs := createdDirs + {dest};
        }
        assert dest in createdDirs;
        assert createdDirs + {dest} == createdDirs;
        dirs := dirs + [dest];
        return true;
      }
      var (next, done) := Place(State(), destDir, dest, item.kind);
      fs, files, dirs := next.fs, next.files, next.dirs;
      ok := done;
    }

    /** The ancestor walk that fills the cache. */
    method Remember(parent: Path)
      modifies this`createdDirs
      ensures createdDirs == old(createdDirs) + Uncached(old(createdDirs), parent)
    {
      var current := parent;
      while current !in createdDirs
        invariant current !in old(createdDirs) ==> current !in createdDirs
        invariant old(createdDirs) + Uncached(old(createdDirs), parent) ==
                  createdDirs + Uncached(old(createdDirs), current)
        invariant forall q :: q in createdDirs && q !in old(createdDirs) ==> |q| > |current|
        decreases |current|
      {
        createdDirs := createdDirs + {current};
        if current == [] {
          return;
        }
        current := Parent(current);
      }
    }
  }
}
