# Alpenglow verification model

A Dafny 4.11 model of the parts of Alpenglow that hold state, walk graphs, read binary formats or write disks, with
proofs of what those parts promise. `dafny verify dfyconfig.toml` checks everything.

How the model is built:

- Code that updates state in place is a class with methods (`Resolver.Resolution`, `InstallRun.InstallState`,
  `BootPasses.Rootfs`, `DiskInstaller.Machine`, `ReleaseUpload.Release`, `ApkExtract.Extraction`,
  `Snapshots.SnapshotDir`), and loops are loops. Each method is proved equal to a function on values, or against a
  declarative predicate; the theorems are then lemmas about that function or predicate.
- What the outside decides is a parameter, never an assumption: what a path names at each step, which command dies and
  what it leaves behind, which deletions fail, the clock, when a write buffer is emptied.
- Checksums, gzip decoding and UTF-8 validity are function parameters, so every theorem holds for any such function.

The parts, in the order of the sections below:

1. **Package index and resolver** (`Registry`, `DepName`, `Resolver`, `ResolverTheorems`). The reference is a request
   graph on names: asking for a name makes the search ask for the names its package wants. Resolution succeeds exactly
   when everything reachable resolves and nothing reachable is on a cycle, provided the request is *clear*: no two
   different packages in its reach share a name. Duplicates that taps append are harmless as long as they are shadowed
   or out of reach. When they are not, "circular dependency" can be reported for an acyclic request (a lemma shows the
   input) and the order can lack part of the closure; `ResolveExactly` says exactly when all is well, for any index.
2. **Install transaction** (`InstallRun`). Exactly when a run succeeds and what it then writes, dependencies before
   dependents at every point of the loop, soundness over any history of runs, failed runs invisible. The one exception,
   and exactly that, is a final write that is cut short: the source writes `installed.json` in place, so the file is
   then torn and every later run refuses it.
3. **Boot services** (`DinitUnits`, `BootServices`, `BootPasses`, `BootExact`). The runnable check with its textual
   ancestor list, and the filter, rewrite and validate passes, down to how `sed` and the shell read the unit files: sed
   strips a carriage return, vertical tab or form feed before a service and the shell does not, so for a boot unit
   written by hand the promises can fail. They also fail when a service is called by a path out of boot.d, because `rm`
   and `ln` then act on units. The exact condition on the text of the boot unit is proved.
4. **Disk installer** (`DiskInstaller`), for every re-pointing of the target path between two steps, and for any number
   of attempts, of which any may fail anywhere.
5. **Release upload** (`ReleaseUpload`), for every sequence of dying and completing runs.
6. **APK extraction** (`FileTree`, `ApkEntries`, `ApkCache`, `ApkContents`, `ApkInside`, `ApkExtract`,
   `ApkWitnesses`, `GzipSplit`) and **APKINDEX archives** (`Tar`, `PathNames`). The file tree has symbolic links, and
   lookups follow up to forty of them. `RunPuts`, `RunLeads` and `RunLists` say what a successful run leaves. The cache
   of created directories can go stale in three ways, each with an archive that shows it; `EntryAgreesIff` and
   `CachedRunAgreesIff` say exactly when it changes what an entry, or any entry of a run, does. They speak of every
   point of a run, because two trees that have differed can become the same again.
7. **Disk image check** (`GptCheck`), **snapshots** (`Snapshots`) and **search** (`CaseSearch`).

Where the code and its documentation differ, the model follows the code. Two findings of that kind:

- The module comment of `snapshot.rs` says names sort by creation time. Below 10^13 milliseconds they sort by clock time,
  beyond it exactly when `NameOrderExact` says so. Two snapshots of one millisecond sort by operation
  (`SameTimeOrder`), and with the clock set back the newest snapshot can be the first to be pruned (`ClockSetBack`, and
  exactly when: `NewSurvivesIff`).
- The comment above `resolve_install_order` says names present in `skip` are skipped, but a package whose own name is
  skipped is still scheduled when a name it provides is asked for (`SkippedIsScheduled`, and exactly when:
  `SkippedIsScheduledIff`).

## Model

| member | source | states |
|---|---|---|
| DepName.ParseIsNamePart | system/oil/src/system/registry/mod.rs:117-120 | the parser returns exactly the longest run of name characters after the leading white space, for every string |
| DepName.NameRoundTrip | system/oil/src/system/registry/mod.rs:117-120 | a name written with any padding, constraint and version parses back to itself |
| Registry.NewIndex | system/oil/src/system/registry/mod.rs:27-43 | both maps hold, for every key, the first package with that name or provided name, and nothing else |
| Registry.PackageIndex.Find | system/oil/src/system/registry/mod.rs:45-53 | two map lookups give the answer of the linear scan: first package of that name, else first provider |
| Registry.Deduplicate | system/oil/src/system/registry/apk.rs:111-120 | the retain pass with its seen set keeps exactly the first package of each name |
| Registry.FirstOfEachName | system/oil/src/system/registry/apk.rs:111-120 | deduplication yields unique names, loses no name and invents no package |
| Registry.DedupKeepsNamed | system/oil/src/system/registry/apk.rs:111-120 | every package name finds the same package before and after deduplication |
| Registry.DedupKeepsProvidedIff | system/oil/src/system/registry/apk.rs:111-120 | a provided name keeps its answer if and only if its first provider is the first package of its own name |
| Resolver.Resolution.ResolveInstallOrder | system/oil/src/system/registry/mod.rs:57-71 | the mutating search computes the reference resolution; no package name is expanded twice; the visits are at most the roots plus the sum of all dependency-list lengths |
| Resolver.Resolution.VisitInstallDeps | system/oil/src/system/registry/mod.rs:73-98 | recursion depth is the size of `visiting` and never exceeds the number of distinct names; each call adds at most one visit to the bill |
| Resolver.Resolution.Expand | system/oil/src/system/registry/mod.rs:100-114 | an expansion is paid for by the dependency strings of the package it expands, and terminates because `visiting` grows |
| Resolver.Resolution.VisitDepends | system/oil/src/system/registry/mod.rs:102-108 | the dependency loop computes the reference loop and leaves `visiting` as it found it on success |
| ResolverTheorems.VisitKeeps | system/oil/src/system/registry/mod.rs:73-114 | every call, failed or not, keeps: distinct scheduled names, dependencies scheduled earlier, `visiting` apart from `scheduled`, an order that only grows; success settles the name |
| ResolverTheorems.VisitJustified | system/oil/src/system/registry/mod.rs:73-114 | every call only schedules reachable packages, and every error it returns has its cause in the request graph |
| ResolverTheorems.ResolveSound | system/oil/src/system/registry/mod.rs:57-114 | for any index: names in the order are distinct, dependencies come first, everything in it is reachable, roots are covered; a missing name is reachable, unskipped and unresolvable; a circular error has a walk that returns to a package of the same name |
| ResolverTheorems.ResolveExactly | system/oil/src/system/registry/mod.rs:57-114 | for any index and roots: success with the whole closure scheduled, if and only if every reachable name resolves, no reachable name is on a cycle, and no two packages in reach share a name |
| ResolverTheorems.ResolveExact | system/oil/src/system/registry/mod.rs:57-114 | on a clear request (no two packages in reach share a name), success if and only if every reachable name resolves and no reachable name is on a cycle |
| ResolverTheorems.CircularMeans | system/oil/src/system/registry/mod.rs:93-98 | for any index, a circular error names a package that really depends on itself, or a name that two different packages in reach share |
| ResolverTheorems.OrderIsClosureIff | system/oil/src/system/registry/mod.rs:66-113 | after success, the order holds exactly the packages that reachable names find, if and only if no two of those share a name |
| ResolverTheorems.RootOrderIrrelevant | system/oil/src/system/registry/mod.rs:66-70 | on a clear request, permuting or repeating roots changes neither success nor the multiset of packages |
| ResolverTheorems.OrderIsPrefix | system/oil/src/system/registry/mod.rs:66-70 | resolving more roots only appends to the order, for any index |
| ResolverTheorems.RootFollowsItsDependencies | system/oil/src/system/registry/mod.rs:73-114 | for any index: unless it ends in a cycle, asking for a name does what asking for its package's dependencies does, as roots in the order they are listed, and then schedules the package; the missing name reported is the same |
| ResolverTheorems.FirstFailureIsReported | system/oil/src/system/registry/mod.rs:66-70 | roots after one that fails do not change the error that is reported |
| ResolverTheorems.UnambiguousIffDedupNeutral | system/oil/src/main.rs:201-206 | lookups are unambiguous if and only if deduplication would change none of them |
| ResolverTheorems.LoadedResolveExact | system/oil/src/system/registry/apk.rs:102-128 | on what the loader returns, whatever was fetched, resolution is exact, yields the whole closure, and reports only real cycles |
| ResolverTheorems.SkippedIsScheduled | system/oil/src/system/registry/mod.rs:81-87 | a request that schedules a package whose own name is skipped |
| ResolverTheorems.SkippedIsScheduledIff | system/oil/src/system/registry/mod.rs:81-87 | a successful clear request schedules a package with a skipped name if and only if a name in reach finds one; for any index it does so only then |
| ResolverTheorems.SkippedOnlyThroughAlias | system/oil/src/system/registry/mod.rs:81-87 | such a package was asked for by another, unskipped name that it provides |
| ResolverTheorems.DuplicateNamesFalseCycle | system/oil/src/system/registry/mod.rs:89-98 | with a repeated name, a complete and acyclic request can still end in "circular dependency" |
| InstallRun.RunInstall | system/oil/src/main.rs:445-488 | the transaction computes the reference run: result and persisted file, for every outcome of every step; a killed run counts by what its write left |
| InstallRun.InstallState.MarkInstalled | system/oil/src/install.rs:56-76 | version and date are set, a known package keeps its name and pin, a new one is unpinned, and no other entry changes |
| InstallRun.MarkAllEntry | system/oil/src/install.rs:56-76 | after the whole loop each package of the order carries the version, date and pin of its own step |
| InstallRun.EveryPointClosed | system/oil/src/main.rs:472-483 | at every point of the install loop each package marked so far has every non-empty dependency name in the starting state or resolved to a name marked before it, for any index |
| InstallRun.RunsKeepSound | system/oil/src/main.rs:445-488 | over any history of runs, everything installed keeps its dependencies installed |
| InstallRun.FailedRunChangesFileIff | system/oil/src/main.rs:461-487 | a failed run changes the persisted file if and only if it gets as far as its one write and that write is cut short; the file is then torn; a dry run never changes it |
| InstallRun.InterruptedRunTears | system/oil/src/install.rs:47-54 | an input on which that happens; afterwards every run fails and leaves the file as it is |
| InstallRun.FailedRunsInvisibleIff | system/oil/src/main.rs:484-486 | deleting the failed runs from a history leaves the same persisted file if and only if no run of it is cut short at its write; and the file ends up torn only then |
| InstallRun.SuccessCovers | system/oil/src/main.rs:449-463 | a successful run covers every request, by name or by the package it resolves to, and forgets nothing |
| InstallRun.RunSucceedsIff | system/oil/src/main.rs:445-488 | a run succeeds if and only if the file is not torn and either everything asked for is installed, or the registry is there, the request resolves, and the run is dry or every step and the write work |
| InstallRun.ClearRunSucceedsIff | system/oil/src/main.rs:445-488 | on a clear request the same in terms of the request graph: everything in reach resolves and nothing in reach is on a cycle |
| InstallRun.SuccessWrites | system/oil/src/main.rs:472-487 | a real success leaves a complete file with exactly the old names and those of the order; each ordered package has its own version, step time and earlier pin, and every other entry is unchanged; a dry or empty one leaves the file as it was |
| InstallRun.PendingResolves | system/oil/src/main.rs:449-463 | dropping the installed names from a request first makes no difference to its resolution, order and errors included |
| InstallRun.InstalledIsLeftAlone | system/oil/src/main.rs:449-483 | what was installed keeps its entry, unless a package of that name provides another name |
| DinitUnits.BootUnitRoundTrip | scripts/lib/assemble-rootfs.sh:229-236 | the boot unit that is written reads back as exactly its services for filtering and validation; for the runnable check it reads back trimmed, so the same if and only if no service begins with a carriage return, vertical tab or form feed |
| DinitUnits.LineReadsExactly | scripts/lib/assemble-rootfs.sh:321-328 | for every line the strict expression lists, the lenient one reads the same words but for the leading ones, which it trims up to the first that has something left |
| DinitUnits.ValueReads | scripts/lib/assemble-rootfs.sh:304-321 | a key reads as its value whatever white space stands before it, around the equals sign and before the value |
| DinitUnits.FirstCommandDecides | scripts/lib/assemble-rootfs.sh:304 | the command is the first token of the first line that gives one, whatever other lines say, and empty if that line leaves it empty |
| DinitUnits.AppletReads | scripts/lib/assemble-rootfs.sh:306-309 | the applet is the first token after the toybox binary, whatever white space and arguments stand around it |
| DinitUnits.FirstAppletDecides | scripts/lib/assemble-rootfs.sh:306-309 | of several lines the first that runs toybox with something more decides which applet is meant |
| BootServices.CheckExecutable | scripts/lib/assemble-rootfs.sh:285-298 | the link-following loop with its counter equals following at most forty links |
| BootServices.ExecutableIffChain | scripts/lib/assemble-rootfs.sh:285-298 | executable if and only if a chain of at most that many links ends in an executable that is no link |
| BootServices.LinkLoopNotExecutable | scripts/lib/assemble-rootfs.sh:288-296 | a path on a loop of links is never executable |
| BootServices.HopLeads | scripts/lib/assemble-rootfs.sh:291-294 | a link is followed from the root if its target is absolute and from its own directory otherwise |
| BootServices.ToyboxUnitIff | scripts/lib/assemble-rootfs.sh:304-309 | a unit whose command line is toybox, a token and any arguments passes if and only if toybox runs and the build has exactly that applet |
| BootServices.ScriptUnitIff | scripts/lib/assemble-rootfs.sh:310-313 | a unit whose command is a script passes if and only if the script and the interpreter that its first line names run |
| BootServices.ProgramUnitIff | scripts/lib/assemble-rootfs.sh:304-305 | a unit of any other command passes if and only if its first token is executable |
| BootServices.NoCommandNotRunnable | scripts/lib/assemble-rootfs.sh:304-305 | a unit without a command line never passes |
| BootServices.InterpreterReads | scripts/lib/assemble-rootfs.sh:310-313 | a first line of "#!", white space, a path and arguments demands exactly that path |
| BootServices.SpecialServices | scripts/lib/assemble-rootfs.sh:314-320 | what the five named services demand on top of what any other service with that unit does |
| BootServices.ListsAncestorExactly | scripts/lib/assemble-rootfs.sh:322-323 | the pattern match on the blank-separated ancestor text is list membership |
| BootServices.MeasureDrops | scripts/lib/assemble-rootfs.sh:321-324 | the recursion terminates: unvisited units, counted twice, plus one for a service that is its own parent and is caught one call late |
| BootServices.RunnableExact | scripts/lib/assemble-rootfs.sh:300-325 | a service is runnable if and only if every reachable unit is locally runnable and no reachable unit is on a cycle |
| BootPasses.Rootfs.WireBootServices | scripts/lib/assemble-rootfs.sh:224-237 | for any services, and whichever ln commands work: the paths linked are links and no units afterwards, and the boot unit becomes the one written for them unless it is such a link |
| BootPasses.Rootfs.FilterServices | scripts/lib/assemble-rootfs.sh:327-339 | the pass computes the reference loop and then the wiring of the services kept; it fails only if there is no boot unit |
| BootPasses.SiftVerdict | scripts/lib/assemble-rootfs.sh:330-337 | in the loop a service is kept if and only if it is state-mount, or it was runnable at the start and nothing in its reach was removed for a service dropped before it; otherwise the object its path names is removed |
| BootPasses.LinksByName | scripts/lib/assemble-rootfs.sh:224-237 | for services called by plain names, exactly boot.d/<service> is removed for every service dropped and linked for every one kept whose link works |
| BootPasses.FilteredIsRewired | scripts/lib/assemble-rootfs.sh:327-339 | if no listed service leads out of boot.d, the pass keeps what was fit at its start, rewrites the boot unit for it, and touches no other unit |
| BootPasses.Rootfs.ValidateServices | scripts/lib/assemble-rootfs.sh:341-349 | validation passes if and only if /bin/true is executable and every listed service is runnable |
| BootPasses.KeptInOrder | scripts/lib/assemble-rootfs.sh:330-337 | what is fit is kept in its order: exactly the runnable services plus state-mount |
| BootPasses.KeptAvoidsBoot | scripts/lib/assemble-rootfs.sh:327-339 | apart from state-mount, no kept service leads to the boot unit, if the text of that unit lists only its dependencies, cannot start, or depends on itself or on what can be no unit |
| BootExact.KeptLeadAwayIff | scripts/lib/assemble-rootfs.sh:327-339 | that condition on the text is exact: it holds if and only if kept services lead away from the boot unit on every rootfs with that boot unit and only links in boot.d |
| BootPasses.RewriteKeepsVerdict | scripts/lib/assemble-rootfs.sh:229-236 | writing the boot unit for the services kept changes the verdict of none of them, state-mount included, under that condition or when it keeps the command and adds no dependency |
| BootPasses.ValidationAfterFiltering | scripts/lib/assemble-rootfs.sh:327-349 | after the whole filter pass, validation passes if and only if /bin/true is executable and state-mount, if listed, is runnable, under the same conditions and if no listed service leads out of boot.d |
| BootExact.FilteringIsSafeIff | scripts/lib/assemble-rootfs.sh:224-349 | those conditions on the text are exact: they hold if and only if, on every rootfs with that boot unit and whichever links can be made, the boot unit lists the kept services afterwards, none changes its verdict, and validation finds what is expected |
| BootExact.DroppedServiceRemovesUnit | scripts/lib/assemble-rootfs.sh:334-336 | a boot list of a service and its namesake one directory up meets both conditions on the text and is not safe to filter: dropping the second removes the unit of the first |
| BootExact.WrittenUnitsAreSafe | scripts/lib/assemble-rootfs.sh:224-237 | a boot unit that the assembly writes is safe to filter on every rootfs if and only if no service leads out of boot.d |
| DiskInstaller.Machine.OpenTarget | system/installer/src/lib.rs:256-321 | an object is handed on exactly when all guards hold of the object actually opened; nothing is written before that |
| DiskInstaller.Machine.WriteImage | system/installer/src/lib.rs:322-365 | succeeds exactly when a file target can be emptied, on a block device the measured image fits and the copy reads exactly that many bytes, and the copy works; only a prefix of the stream ever reaches the target |
| DiskInstaller.Machine.Transfer | system/installer/src/lib.rs:344-361 | the buffered copy loop: bytes on the target followed by bytes in the buffer are always the stream read so far, cut at the limit |
| DiskInstaller.Machine.InstallImage | system/installer/src/lib.rs:249-365 | for every interleaving: only a validated object or one fresh file may differ afterwards, by a prefix of the stream within the measured size; success happens exactly under the stated conditions; Ok(n) on a block device means n is the measured size, the source had exactly n bytes, and they lead the device |
| DiskInstaller.Machine.InstallImageToDisk | system/installer/src/lib.rs:109-121 | a wrong device name changes nothing; otherwise the same guarantees with the confirmed identity, and success exactly when name, guards and copy are right |
| DiskInstaller.ConfirmedInstallSucceedsIff | system/installer/src/lib.rs:249-365 | if the path leads to the confirmed disk throughout, installation succeeds if and only if the image fits, has its measured size, and nothing goes wrong while it is copied |
| DiskInstaller.FileInstallSucceedsIff | system/installer/src/lib.rs:249-365 | if the path is free, or leads to one regular file throughout, installation succeeds if and only if the source is another regular file and opening, emptying, reading, writing and syncing work |
| DiskInstaller.ExpectedIsConfirmed | system/installer/src/lib.rs:284-290 | a success with an expected identity is one on a block device that was there and in which model, size, removable flag, disk sequence and numbers were confirmed |
| DiskInstaller.OnlyDisksAndFilesChange | system/installer/src/lib.rs:216-230 | whatever changes is a block device or, where those are allowed, a regular file |
| DiskInstaller.OnlyValidatedEverChanges | system/installer/src/lib.rs:256-321 | over any number of attempts, finished or not, no object vanishes or changes its nature, and an object changes only if some attempt validated it |
| DiskInstaller.OnlyInspectedEverChanges | system/installer/src/lib.rs:291-313 | however the path was re-pointed, an object that no attempt inspected never changes |
| DiskInstaller.SourceNeverChanges | system/installer/src/lib.rs:314-320 | the source image is never written by any number of attempts, even through another name |
| DiskInstaller.OnlyConfirmedDiskEverChanges | system/installer/src/lib.rs:284-290 | over any attempts on a confirmed disk, no object appears, and whatever changed is a block device with that disk's device, inode and device number whose size and disk sequence were confirmed, and no partition |
| DiskInstaller.BlockTailNeverChanges | system/installer/src/lib.rs:322-343 | over any attempts, a block device keeps its size and every byte at or past the largest measured image, even if the source grows |
| DiskInstaller.SuccessErasesFailures | system/installer/src/lib.rs:322-365 | a successful attempt leaves exactly what it would have left on the untouched device, whatever failed attempts with no larger image did before |
| DiskInstaller.InstalledImageStays | system/installer/src/lib.rs:256-365 | an installed image leads its target until a later attempt validates that target |
| Tar.WalkArchive | system/oil/src/system/registry/apk.rs:217-247 | on arbitrary bytes the walk stays in bounds, keeps its offset a multiple of 512, never overflows, terminates, and computes the reference walk |
| Tar.SizeRoundTrip | system/oil/src/system/registry/apk.rs:261-266 | an octal size field ended by NUL or space reads back as the number it was written for |
| Tar.SizeReads | system/oil/src/system/registry/apk.rs:261-266 | octal digits of any number read as their value if it fits, with a plus sign, blanks around that and NULs around those |
| Tar.StrayByteRefused | system/oil/src/system/registry/apk.rs:261-266 | one ASCII byte that is neither NUL, white space, a plus sign nor an octal digit, anywhere in the field, and there is no size |
| Tar.ArchiveRoundTrip | system/oil/src/system/registry/apk.rs:207-248 | for any members in the ustar layout followed by a zero block, the walk yields exactly the bytes of the first member called APKINDEX, or nothing |
| Tar.ArchiveEnds | system/oil/src/system/registry/apk.rs:217-247 | after any members none of which is the index, what follows decides: nothing or a zero block ends the walk without an index, and an unreadable size, an overflow and a body cut short are told apart |
| Tar.IndexNamesRecognised | system/oil/src/system/registry/apk.rs:200-205 | a name field is taken for the index if and only if it is APKINDEX or a path that ends in it, give or take trailing slashes and single dots |
| ReleaseUpload.Release.UploadAssets | scripts/upload-release-assets.sh:21-63 | the script's loops compute the reference run against the server |
| ReleaseUpload.Release.FindMatch | scripts/upload-release-assets.sh:28-42 | the scan of the listing finds the one record of a name, and fails exactly when there are two |
| ReleaseUpload.NotReadyChangesNothing | scripts/upload-release-assets.sh:10-19 | if verification fails or the release is no draft, the run fails and the server is as it was |
| ReleaseUpload.FailureStopsTheRun | scripts/upload-release-assets.sh:26-63 | after the first file whose step fails, the run fails and the records of all later files' names stay as they were |
| ReleaseUpload.RunCompletesIff | scripts/upload-release-assets.sh:10-63 | a run completes if and only if its checks pass and each file's step works on what the steps before it left |
| ReleaseUpload.ReconcileLeaves | scripts/upload-release-assets.sh:44-62 | whatever one step does to a file's records: nothing, or it turns none or a lone starter into none, a new starter, or a new upload of exactly the local bytes |
| ReleaseUpload.ReconcileKeeps | scripts/upload-release-assets.sh:44-62 | however a file's commands end, no uploaded asset is lost and no other name is touched |
| ReleaseUpload.RunsKeepUploaded | scripts/upload-release-assets.sh:26-63 | over any sequence of dying and completing runs, an asset once uploaded stays as it is, and assets outside the local names are untouched |
| ReleaseUpload.CompletedMeansPublished | scripts/upload-release-assets.sh:44-63 | a completed run means every local file is the one uploaded asset of its name, with equal bytes |
| ReleaseUpload.RerunIsIdle | scripts/upload-release-assets.sh:44-52 | a run after a completed one mutates nothing, and completes exactly when its downloads work |
| ReleaseUpload.CleanRunCompletesIff | scripts/upload-release-assets.sh:44-62 | an undisturbed run completes if and only if every local name is absent, a lone starter, or already published |
| ReleaseUpload.CrashesCanBeResumed | scripts/upload-release-assets.sh:53-60 | from a fresh draft, after any crashes, one undisturbed run completes the release |
| ApkExtract.Extraction.Untar | system/oil/src/system/extractor/apk.rs:339-352 | the extraction loop computes the cached reference run, on success lists exactly the destinations unpacked, keeps its cache closed under parents down to the destination, and has the result of the run without a cache after every entry if and only if no entry it gets to trusts a stale path |
| ApkExtract.Extraction.ProcessEntry | system/oil/src/system/extractor/apk.rs:237-305 | one entry, with its cache consultations, does what the cached reference does, errors included, with links followed in every path |
| ApkExtract.Extraction.Remember | system/oil/src/system/extractor/apk.rs:263-270 | the ancestor walk terminates and adds exactly the path and its ancestors up to the first cached one |
| FileTree.CreateDirAllMeans | system/oil/src/system/extractor/apk.rs:261 | with links followed, create_dir_all changes nothing if it fails or has nothing to do; otherwise it only adds objects, and the path leads to a new, empty directory |
| FileTree.ParentFirst | system/oil/src/system/extractor/apk.rs:260-261 | making the parent first makes no difference to making a directory |
| FileTree.LinkLeads | system/oil/src/system/extractor/apk.rs:259-261 | where a link leads in a lookup: from the root if its target is absolute, otherwise from its own directory, one directory up for every climb |
| ApkCache.EntryAgreesIff | system/oil/src/system/extractor/apk.rs:259-305 | one cached entry does what one that calls create_dir_all does, failures included, if and only if it does not trust a stale path: for a directory entry, a cached place that leads to no directory although its parent is cached or can be made; for any other, a cached parent that leads to none although it can be made or the entry wants no more |
| ApkCache.CachedRunAgreesIff | system/oil/src/system/extractor/apk.rs:339-352 | extraction with and without the cache have the same tree, lists and result after every entry if and only if no entry that is reached trusts a stale path |
| ApkCache.EntryAccurateIff | system/oil/src/system/extractor/apk.rs:307-337 | a successful entry leaves an accurate cache accurate if and only if it does not put a file where a cached path passes, or a link through which one no longer leads to a directory |
| ApkCache.CacheAccurateIff | system/oil/src/system/extractor/apk.rs:259-324 | every cached path leads to a directory after every entry if and only if no successful entry breaks one in that way |
| ApkCache.FreeOrFileKeepsCache | system/oil/src/system/extractor/apk.rs:320-336 | an entry that lands on a free place or a regular file breaks nothing |
| ApkCache.CacheStaysClosed | system/oil/src/system/extractor/apk.rs:259-272 | what is cached stays cached, and the cache stays closed under parents down to the destination |
| ApkCache.CachedRunAgrees | system/oil/src/system/extractor/apk.rs:339-352 | in particular the runs agree while no entry breaks an accurate cache |
| ApkWitnesses.OnlyCachedSucceeds | system/oil/src/system/extractor/apk.rs:294-324 | a directory, a link to nothing over its parent, and the directory again: only the cached run succeeds, and lists a directory that is not there |
| ApkWitnesses.OnlyPlainSucceeds | system/oil/src/system/extractor/apk.rs:259-261 | a directory, a link to another directory over its parent, and a file in it: only the run without the cache succeeds |
| ApkWitnesses.TreesDiffer | system/oil/src/system/extractor/apk.rs:294-324 | a directory below a link, a link over what that leads to, and the directory again: no link lands on a cached path, both runs succeed, and the trees differ |
| ApkEntries.CheckSafeLink | system/oil/src/system/extractor/apk.rs:210-235 | the component loop equals the lexical test |
| ApkEntries.SafeLinkIff | system/oil/src/system/extractor/apk.rs:210-235 | a target is accepted if and only if it is relative and, read lexically from the parent of its entry, leads below the destination at its end and after every climb |
| ApkInside.LexicalIsNotFollowed | system/oil/src/system/extractor/apk.rs:210-235 | an accepted target that reads as the destination and, followed, leads elsewhere |
| ApkInside.ExtractionStaysInside | system/oil/src/system/extractor/apk.rs:237-352 | with links followed, everything an extraction writes stays below the destination if no link there leads out at the start, every accepted link is placed where its path says, and no target climbs after a name |
| ApkContents.StrippedMeans | system/oil/src/system/extractor/apk.rs:247-257 | exactly which entries are unpacked and under which name: not the metadata, nothing with two dots in a row, after an optional ./ and any slashes |
| ApkContents.PassedOver | system/oil/src/system/extractor/apk.rs:247-257 | an entry without such a name makes no difference to a run, whatever its kind and wherever it stands |
| ApkContents.DestinationOfJoined | system/oil/src/system/extractor/apk.rs:259 | a path goes below the destination name by name; empty names and single dots add nothing |
| ApkContents.CreateDirAllSucceedsIff | system/oil/src/system/extractor/apk.rs:261 | create_dir_all succeeds if and only if some part of the path leads to a directory and, if that is not all of it, the next name below it is free |
| ApkContents.EntrySucceedsIff | system/oil/src/system/extractor/apk.rs:259-337 | exactly when an entry succeeds, kind by kind: its parent is given, and its place is free or can be cleared without cutting off its parent; a link target is also safe |
| ApkContents.EntryPuts | system/oil/src/system/extractor/apk.rs:307-337 | a successful file entry leaves exactly its bytes at its place, and a link entry its target |
| ApkContents.RunPuts | system/oil/src/system/extractor/apk.rs:339-352 | after a successful run each file entry's place holds exactly its bytes and each link entry's its target, unless a later entry takes that place or one above it |
| ApkContents.EntryKeepsPathIff | system/oil/src/system/extractor/apk.rs:259-337 | after a successful entry a path that led to a directory still does, if and only if the entry does not put a file where it passes, or a link through which it no longer leads to one |
| ApkContents.EntryLeadsIff | system/oil/src/system/extractor/apk.rs:294-305 | a successful directory entry leads to a directory if and only if it does not trust a stale path |
| ApkContents.RunLeads | system/oil/src/system/extractor/apk.rs:339-352 | after a successful run each directory entry leads to a directory, unless it trusted a stale path or a later entry breaks its path in that way |
| ApkContents.RunLists | system/oil/src/system/extractor/apk.rs:339-352 | after a successful run no entry was unreadable, and the two lists are exactly the destinations of the file and link entries and of the directory entries, in archive order |
| GzipSplit.FindStarts | system/oil/src/system/extractor/apk.rs:160-189 | the scan returns the first magic positions, as many as asked for or all there are; the overlap error cannot occur |
| GzipSplit.SplitStreams | system/oil/src/system/extractor/apk.rs:97-158 | succeeds if and only if three are asked for, the input and the outputs fit their limits, three magic pairs exist and all three decode; outputs are then complete; each failure is returned for its cause: missing streams with the number found, the others at the first member that does not fit |
| GzipSplit.StartsAreMembersIff | system/oil/src/system/extractor/apk.rs:160-189 | the starts are the true member offsets if and only if neither of the first two members contains the magic pair in its interior |
| GzipSplit.ThreeMembersSplit | system/oil/src/system/extractor/apk.rs:97-158 | three such members split into exactly what they decode to, if and only if the sizes fit |
| GptCheck.CheckDiskImage | scripts/check-release-architecture.py:19-64 | returns normally if and only if header and table meet their bounds and checksums and some in-image partition of the required type has the required boot content, plus MBR boot code for BIOS |
| GptCheck.AcceptsIffWritten | scripts/check-release-architecture.py:19-64 | the images that pass are exactly those in the layout of sections 5.3.2 and 5.3.3 of the UEFI Specification: each number least significant byte first at its literal offset, checksums over the bytes they cover, an entry of the required type, and its boot content |
| GptCheck.EspType | scripts/check-release-architecture.py:15 | the bytes compared are the mixed-endian form of the EFI System Partition type |
| GptCheck.BiosType | scripts/check-release-architecture.py:16 | the bytes compared are the mixed-endian form of the BIOS boot partition type |
| GptCheck.OnlyPatchedHolds | scripts/check-release-architecture.py:32-38 | filling in the checksum computed with bytes 16-19 zeroed passes, and no other value of those bytes does |
| Snapshots.NameOrderExact | system/oil/src/util/snapshot.rs:95-99 | for any two times, names sort as the times do if and only if the earlier one is at most the leading digits, as many as it has itself, of the later one; otherwise they sort the other way round |
| Snapshots.NameOrder | system/oil/src/util/snapshot.rs:95-99 | below 10^13 milliseconds names sort exactly as their times do, whatever the operations |
| Snapshots.SameTimeOrder | system/oil/src/util/snapshot.rs:95-99 | two snapshots of one millisecond sort by operation |
| Snapshots.NameOrderBreaksAtBound | system/oil/src/util/snapshot.rs:99-112 | the bound is sharp: 10^13 sorts before the millisecond before it |
| Snapshots.SnapshotDir.Prune | system/oil/src/util/snapshot.rs:113-129 | only the lowest names beyond `keep` are deleted, each unless its deletion fails |
| Snapshots.SnapshotDir.Snapshot | system/oil/src/util/snapshot.rs:92-110 | a failed creation changes nothing; a successful one adds its name and prunes among the snapshots it can list |
| Snapshots.GreatestSurvive | system/oil/src/util/snapshot.rs:92-129 | for any directory, any clock and any failures, the `keep` greatest of all snapshot names there ever were survive, other files are left alone, and after a transaction whose pruning works nothing else is left |
| Snapshots.NewSurvivesIff | system/oil/src/util/snapshot.rs:113-129 | a new snapshot outlives its own pruning if and only if fewer than `keep` of those there are have greater names |
| Snapshots.ClockSetBack | system/oil/src/util/snapshot.rs:92-129 | one snapshot kept and the clock set back behind it: the newest snapshot is the one that is pruned |
| Snapshots.NewestSurvive | system/oil/src/util/snapshot.rs:92-129 | with a strictly increasing clock the newest `keep` always survive, however many creations, listings and deletions fail, and are all that survives a transaction whose pruning works |
| Snapshots.LastSurvive | system/oil/src/util/snapshot.rs:92-129 | from an empty directory with a strictly increasing clock and working ioctls, exactly the last `keep` snapshots are there |
| Snapshots.SizeAfter | system/oil/src/util/snapshot.rs:92-129 | when the ioctls work there is one snapshot more than before but at most `keep`; a name that is taken is no snapshot and prunes nothing |
| CaseSearch.ContainsIgnoreCase | system/oil/src/main.rs:346-377 | true if and only if some window equals the needle up to ASCII case; skipping to the next first-byte hit misses nothing and every slice is in bounds |

## Left out

- Network fetching, TLS, host allowlists, threads, and JSON, YAML and command-line parsing: library or I/O plumbing; fetched packages enter as a list.
- `parse_apk_stanza` and `parse_apkindex`: the text of the index is not parsed in the model; the walk ends with its bytes.
- `read_limited` and `extract_tracked` around the splitter: single-branch size tests and the signature check; the limited read inside the splitter is modelled.
- RSA, SHA-256, CRC32, gzip and zstd internals: parameters or not modelled. For a compressed image the decoded stream stands for the source.
- `run_upgrade`, `run_reinstall`, `run_uninstall` and recipes: they share `mark_installed` and `save` and add no new invariant; uninstalling does not keep dependencies installed.
- A missing `$HOME`, and a registry that differs between runs: the history theorems fix one package list.
- ApkExtract.Extraction.ProcessEntry: operations fail only by what the tree holds; permissions, times, and I/O errors of the file system are not modelled, nor are a link entry for the root and names of file and link entries that end in a slash or a dot.
- BootExact.FilteringIsSafeIff: asks that listed services are spelled without detours (./foo, a//b) and name no directory, and that boot.d holds links only; a dependency spelled with a detour counts as another unit.
- Pathname expansion of unquoted words, and what `echo` makes of a backslash in a service name.
- Host-side resolution of an absolute link by `head` and `sed` on a command file: the first line read is part of the image's data.
- Non-Linux branches of the installer, and reuse of an inode number between the two looks at the target: objects are told apart by device and inode.
- `os.walk` over ELF files and kernel magic in the release check: single-field tests.
- Pagination and renaming of assets by the hosting service, and an empty asset directory: the listing is complete and names are used as given.
- The site, TUI, graphical installer, kernel modules and build scripts: no unbounded property.
- 32-bit targets: `usize` is taken to have 64 bits.
