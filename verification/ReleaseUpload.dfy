/** Resumable upload of release assets by an uploader that may die at any step of any run. */
module ReleaseUpload {
  import opened Common

  datatype AssetState = Uploaded | Starter | Unexpected

  /** An asset of the draft release; a starter is an upload that never finished. */
  datatype Asset = Asset(id: nat, name: string, state: AssetState, bytes: seq<byte>)

  datatype Remote = Remote(assets: seq<Asset>, nextId: nat)

  datatype File = File(name: string, bytes: seq<byte>)

  /** What a died upload leaves on the server. */
  datatype Debris = Nothing | StarterLeft | UploadedLeft

  datatype UploadFate = Completes | Dies(left: Debris)
  datatype DeleteFate = Deletes | DiesDeleting(deleted: bool)

  /** How the commands issued for one local file go. */
  datatype Fate = Fate(download: bool, delete: DeleteFate, upload: UploadFate)

  /** One run: whether the checks before the loop pass, and the fate of each file's commands. */
  datatype Attempt = Attempt(ready: bool, fates: nat -> Fate)

  // ----- the server -----

  function Named(assets: seq<Asset>, name: string): seq<Asset> {
    if assets == [] then [] else
    var n := |assets| - 1;
    var front := Named(assets[..n], name);
    if assets[n].name == name then front + [assets[n]] else front
  }

  function Without(assets: seq<Asset>, id: nat): seq<Asset> {
    if assets == [] then [] else
    var n := |assets| - 1;
    var front := Without(assets[..n], id);
    if assets[n].id == id then front else front + [assets[n]]
  }

  /** Asset ids are never reused. */
  ghost predicate WellFormed(r: Remote) {
    (forall a :: a in r.assets ==> a.id < r.nextId) &&
    (forall a, b :: a in r.assets && b in r.assets && a.id == b.id ==> a == b)
  }

  function Add(r: Remote, name: string, state: AssetState, bytes: seq<byte>): Remote {
    Remote(r.assets + [Asset(r.nextId, name, state, bytes)], r.nextId + 1)
  }

  /** `gh release upload`: refused when the name is taken. */
  function Upload(r: Remote, file: File, fate: UploadFate): (Remote, bool) {
    if Named(r.assets, file.name) != [] then (r, false) else
    match fate
    case Completes => (Add(r, file.name, Uploaded, file.bytes), true)
    case Dies(Nothing) => (r, false)
    case Dies(StarterLeft) => (Add(r, file.name, Starter, []), false)
    case Dies(UploadedLeft) => (Add(r, file.name, Uploaded, file.bytes), false)
  }

  /** The DELETE call for one asset id. */
  function Delete(r: Remote, id: nat, fate: DeleteFate): (Remote, bool) {
    match fate
    case Deletes => (r.(assets := Without(r.assets, id)), true)
    case DiesDeleting(deleted) => (if deleted then r.(assets := Without(r.assets, id)) else r, false)
  }

  /** `gh release download --pattern name` followed by cmp. */
  function SameBytes(r: Remote, file: File, download: bool): bool {
    var found := Named(r.assets, file.name);
    download && |found| == 1 && found[0].bytes == file.bytes
  }

  // ----- the script -----

  /** The body of the loop over local files, deciding on the listing taken when the run started. */
  function Reconcile(r: Remote, listing: seq<Asset>, file: File, fate: Fate): (Remote, bool) {
    var found := Named(listing, file.name);
    if |found| > 1 then (r, false)
    else if found == [] then Upload(r, file, fate.upload)
    else match found[0].state
      case Uploaded => (r, SameBytes(r, file, fate.download))
      case Starter =>
        var (cleared, ok) := Delete(r, found[0].id, fate.delete);
        if ok then Upload(cleared, file, fate.upload) else (cleared, false)
      case Unexpected => (r, false)
  }

  /** The loop from the k-th file on. */
  function Process(r: Remote, listing: seq<Asset>, files: seq<File>, fates: nat -> Fate, k: nat): (Remote, bool)
    requires k <= |files|
    decreases |files| - k
  {
    if k == |files| then (r, true) else
    var (next, ok) := Reconcile(r, listing, files[k], fates(k));
    if ok then Process(next, listing, files, fates, k + 1) else (next, false)
  }

  function Run(r: Remote, files: seq<File>, attempt: Attempt): (Remote, bool) {
    if attempt.ready then Process(r, r.assets, files, attempt.fates, 0) else (r, false)
  }

  /** Any number of runs, however each of them ends. */
  function Runs(r: Remote, files: seq<File>, attempts: seq<Attempt>): Remote {
    if attempts == [] then r else
    var n := |attempts| - 1;
    Run(Runs(r, files, attempts[..n]), files, attempts[n]).0
  }

  class Release {
    var remote: Remote

    constructor (remote: Remote)
      ensures this.remote == remote
    {
      this.remote := remote;
    }

    /** The inner loop: the one record with this name, or failure on a second one. */
    static method FindMatch(listing: seq<Asset>, name: string) returns (unique: bool, matched: Option<Asset>)
      ensures unique <==> |Named(listing, name)| <= 1
      ensures unique ==> Named(listing, name) == if matched.Some? then [matched.value] else []
    {
      matched := None;
      for i := 0 to |listing|
        invariant Named(listing[..i], name) == if matched.Some? then [matched.value] else []
      {
        assert listing[..i + 1][..i] == listing[..i];
        if listing[i].name == name {
          if matched.Some? {
            NamedPrefix(listing, name, i + 1);
            return false, None;
          }
          matched := Some(listing[i]);
        }
      }
      assert listing[..|listing|] == listing;
      unique := true;
    }

    /** The case distinction on the matched record's state. */
    method Settle(matched: Option<Asset>, file: File, fate: Fate) returns (ok: bool)
      modifies this
      ensures forall listing :: Named(listing, file.name) == (if matched.Some? then [matched.value] else []) ==>
                (remote, ok) == Reconcile(old(remote), listing, file, fate)
    {
      if matched.None? {
        var (next, done) := Upload(remote, file, fate.upload);
        remote, ok := next, done;
        return;
      }
      match matched.value.state {
        case Uploaded =>
          ok := SameBytes(remote, file, fate.download);
        case Starter =>
          var (cleared, deleted) := Delete(remote, matched.value.id, fate.delete);
          remote, ok := cleared, deleted;
          if deleted {
            var (next, done) := Upload(remote, file, fate.upload);
            remote, ok := next, done;
          }
        case Unexpected =>
          ok := false;
      }
    }

    /** upload-release-assets.sh: for each local file, scan the listing, then verify, replace or upload. */
    method UploadAssets(files: seq<File>, attempt: Attempt) returns (ok: bool)
      modifies this
      ensures (remote, ok) == Run(old(remote), files, attempt)
    {
      if !attempt.ready {
        return false;
      }
      var listing := remote.assets;
      for k := 0 to |files|
        invariant Run(old(remote), files, attempt) == Process(remote, listing, files, attempt.fates, k)
      {
        var unique, matched := FindMatch(listing, files[k].name);
        if !unique {
          return false;
        }
        ok := Settle(matched, files[k], attempt.fates(k));
        if !ok {
          return;
        }
      }
      ok := true;
    }
  }

  lemma {:induction false} NamedPrefix(assets: seq<Asset>, name: string, n: nat)
    requires n <= |assets|
    ensures |Named(assets[..n], name)| <= |Named(assets, name)|
    decreases |assets|
  {
    if n < |assets| {
      assert assets[..|assets| - 1][..n] == assets[..n];
      NamedPrefix(assets[..|assets| - 1], name, n);
    } else {
      assert assets[..n] == assets;
    }
  }

  // ----- what one step keeps -----

  lemma {:induction false} NamedMembers(assets: seq<Asset>, name: string)
    ensures forall a :: a in Named(assets, name) <==> a in assets && a.name == name
  {
    if assets != [] {
      var n := |assets| - 1;
      NamedMembers(assets[..n], name);
      assert assets == assets[..n] + [assets[n]];
    }
  }

  lemma {:induction false} WithoutMembers(assets: seq<Asset>, id: nat)
    ensures forall a :: a in Without(assets, id) <==> a in assets && a.id != id
  {
    if assets != [] {
      var n := |assets| - 1;
      WithoutMembers(assets[..n], id);
      assert assets == assets[..n] + [assets[n]];
    }
  }

  lemma {:induction false} NamedWithout(assets: seq<Asset>, id: nat, name: string)
    requires forall a :: a in assets && a.id == id ==> a.name != name
    ensures Named(Without(assets, id), name) == Named(assets, name)
  {
    if assets != [] {
      var n := |assets| - 1;
      NamedWithout(assets[..n], id, name);
      assert assets[n] in assets;
    }
  }

  lemma NamedAdd(r: Remote, name: string, state: AssetState, bytes: seq<byte>, other: string)
    ensures Named(Add(r, name, state, bytes).assets, other) ==
            Named(r.assets, other) + if name == other then [Asset(r.nextId, name, state, bytes)] else []
  {
    var after := Add(r, name, state, bytes).assets;
    assert after[..|after| - 1] == r.assets;
  }

  /** The remote and the listing agree about one name. */
  ghost predicate AgreeOn(r: Remote, listing: seq<Asset>, name: string) {
    Named(r.assets, name) == Named(listing, name)
  }

  ghost predicate UploadedKept(before: Remote, after: Remote) {
    forall a :: a in before.assets && a.state == Uploaded ==> a in after.assets
  }

  /** Assets of other names stay exactly as they are. */
  ghost predicate OthersKept(before: Remote, after: Remote, name: string) {
    forall n :: n != name ==> Named(after.assets, n) == Named(before.assets, n)
  }

  lemma UploadKeeps(r: Remote, file: File, fate: UploadFate)
    requires WellFormed(r)
    ensures var after := Upload(r, file, fate).0;
            WellFormed(after) && UploadedKept(r, after) && OthersKept(r, after, file.name)
  {
    forall n | n != file.name
      ensures Named(Upload(r, file, fate).0.assets, n) == Named(r.assets, n)
    {
      NamedAdd(r, file.name, Uploaded, file.bytes, n);
      NamedAdd(r, file.name, Starter, [], n);
    }
  }

  lemma DeleteKeeps(r: Remote, victim: Asset, fate: DeleteFate)
    requires WellFormed(r) && victim in r.assets && victim.state != Uploaded
    ensures var after := Delete(r, victim.id, fate).0;
            WellFormed(after) && UploadedKept(r, after) && OthersKept(r, after, victim.name)
  {
    WithoutMembers(r.assets, victim.id);
    forall n | n != victim.name
      ensures Named(Without(r.assets, victim.id), n) == Named(r.assets, n)
    {
      NamedWithout(r.assets, victim.id, n);
    }
  }

  /** Whatever happens to one file's commands: nothing uploaded is lost, and no other name is touched. */
  lemma ReconcileKeeps(r: Remote, listing: seq<Asset>, file: File, fate: Fate)
    requires WellFormed(r) && AgreeOn(r, listing, file.name)
    ensures var after := Reconcile(r, listing, file, fate).0;
            WellFormed(after) && UploadedKept(r, after) && OthersKept(r, after, file.name)
  {
    var found := Named(listing, file.name);
    if |found| == 0 {
      UploadKeeps(r, file, fate.upload);
    } else if |found| == 1 && found[0].state == Starter {
      NamedMembers(r.assets, file.name);
      assert found[0] in Named(r.assets, file.name);
      DeleteKeeps(r, found[0], fate.delete);
      var (cleared, ok) := Delete(r, found[0].id, fate.delete);
      UploadKeeps(cleared, file, fate.upload);
    }
  }

  /** The asset of this name is uploaded with exactly the file's bytes, and is the only one of its name. */
  ghost predicate Published(r: Remote, file: File) {
    exists id :: Named(r.assets, file.name) == [Asset(id, file.name, Uploaded, file.bytes)]
  }

  lemma NamedAfterDelete(r: Remote, victim: Asset)
    requires WellFormed(r) && Named(r.assets, victim.name) == [victim]
    ensures Named(Without(r.assets, victim.id), victim.name) == []
  {
    var left := Without(r.assets, victim.id);
    NamedMembers(r.assets, victim.name);
    WithoutMembers(r.assets, victim.id);
    NamedMembers(left, victim.name);
    assert forall a :: a in Named(left, victim.name) ==> a in Named(r.assets, victim.name) && a.id != victim.id;
    HasMember(Named(left, victim.name));
  }

  lemma HasMember(s: seq<Asset>)
    ensures s != [] ==> exists a :: a in s
  {
    if s != [] {
      assert s[0] in s;
    }
  }

  lemma UploadPublishes(r: Remote, file: File, fate: UploadFate)
    requires WellFormed(r) && Upload(r, file, fate).1
    ensures Published(Upload(r, file, fate).0, file)
  {
    NamedAdd(r, file.name, Uploaded, file.bytes, file.name);
  }

  /** A file whose step succeeded is published; one already published is left alone. */
  lemma ReconcilePublishes(r: Remote, listing: seq<Asset>, file: File, fate: Fate)
    requires WellFormed(r) && AgreeOn(r, listing, file.name)
    ensures var (after, ok) := Reconcile(r, listing, file, fate);
            (ok ==> Published(after, file)) && (Published(r, file) ==> after == r && (ok <==> fate.download))
  {
    var found := Named(listing, file.name);
    if |found| == 0 {
      if Upload(r, file, fate.upload).1 { UploadPublishes(r, file, fate.upload); }
    } else if |found| == 1 {
      NamedMembers(r.assets, file.name);
      assert found[0] in found;
      if found[0].state == Starter {
        var (cleared, ok) := Delete(r, found[0].id, fate.delete);
        DeleteKeeps(r, found[0], fate.delete);
        if ok && Upload(cleared, file, fate.upload).1 { UploadPublishes(cleared, file, fate.upload); }
      } else if found[0].state == Uploaded && found[0].bytes == file.bytes {
        assert Named(r.assets, file.name) == [Asset(found[0].id, file.name, Uploaded, file.bytes)];
      }
    }
  }

  /** The records of the file's name afterwards: as before; or, if there was none or one starter, none, one new
      starter, or one new asset with the file's bytes. */
  ghost predicate Leaves(r: Remote, after: Remote, file: File) {
    var before, now := Named(r.assets, file.name), Named(after.assets, file.name);
    || after == r
    || ((before == [] || (|before| == 1 && before[0].state == Starter)) &&
        (now == [] || (|now| == 1 && now[0].id >= r.nextId &&
                       (now[0].state == Starter || (now[0].state == Uploaded && now[0].bytes == file.bytes)))))
  }

  lemma UploadLeaves(r: Remote, file: File, fate: UploadFate)
    ensures var after := Upload(r, file, fate).0;
            after == r || (Named(r.assets, file.name) == [] && Leaves(r, after, file))
  {
    NamedAdd(r, file.name, Uploaded, file.bytes, file.name);
    NamedAdd(r, file.name, Starter, [], file.name);
  }

  /** Replacing a lone starter. */
  lemma StarterLeaves(r: Remote, victim: Asset, file: File, fate: Fate)
    requires WellFormed(r) && Named(r.assets, file.name) == [victim] && victim.state == Starter
    requires victim in r.assets && victim.name == file.name
    ensures var (cleared, deleted) := Delete(r, victim.id, fate.delete);
            var (after, ok) := if deleted then Upload(cleared, file, fate.upload) else (cleared, false);
            Leaves(r, after, file) && (ok ==> Published(after, file))
  {
    var (cleared, deleted) := Delete(r, victim.id, fate.delete);
    NamedAfterDelete(r, victim);
    DeleteKeeps(r, victim, fate.delete);
    if deleted {
      hide Named, Delete;
      UploadLeaves(cleared, file, fate.upload);
      if Upload(cleared, file, fate.upload).1 { UploadPublishes(cleared, file, fate.upload); }
      hide Upload;
    }
  }

  /** Whatever happens to one file's commands, nothing is changed but a missing asset or a lone starter; two records,
      an uploaded one or one in another state stay, and fail the run unless the bytes are equal. */
  lemma ReconcileLeaves(r: Remote, listing: seq<Asset>, file: File, fate: Fate)
    requires WellFormed(r) && AgreeOn(r, listing, file.name)
    ensures var (after, ok) := Reconcile(r, listing, file, fate);
            var before := Named(r.assets, file.name);
            && Leaves(r, after, file)
            && (ok && after == r ==> |before| == 1 && before[0].state == Uploaded && before[0].bytes == file.bytes)
  {
    hide Named, Delete;
    var found := Named(listing, file.name);
    if found == [] {
      UploadLeaves(r, file, fate.upload);
      if Upload(r, file, fate.upload).1 { UploadPublishes(r, file, fate.upload); }
      hide Upload, Leaves;
    } else if |found| == 1 && found[0].state == Starter {
      NamedMembers(r.assets, file.name);
      assert found[0] in found;
      StarterLeaves(r, found[0], file, fate);
      hide Upload, Leaves;
    }
  }

  // ----- whole runs -----

  ghost predicate DistinctFiles(files: seq<File>) {
    forall i, j :: 0 <= i < j < |files| ==> files[i].name != files[j].name
  }

  ghost predicate AgreeFrom(r: Remote, listing: seq<Asset>, files: seq<File>, k: nat) {
    forall j :: k <= j < |files| ==> AgreeOn(r, listing, files[j].name)
  }

  /** No asset outside the local names differs. */
  ghost predicate StrangersKept(before: Remote, after: Remote, files: seq<File>) {
    forall n :: (forall f :: f in files ==> f.name != n) ==> Named(after.assets, n) == Named(before.assets, n)
  }

  lemma StepAgrees(r: Remote, listing: seq<Asset>, files: seq<File>, fates: nat -> Fate, k: nat)
    requires DistinctFiles(files) && k < |files| && WellFormed(r) && AgreeFrom(r, listing, files, k)
    ensures AgreeFrom(Reconcile(r, listing, files[k], fates(k)).0, listing, files, k + 1)
  {
    ReconcileKeeps(r, listing, files[k], fates(k));
  }

  lemma {:induction false} ProcessKeeps(r: Remote, listing: seq<Asset>, files: seq<File>, fates: nat -> Fate, k: nat)
    requires DistinctFiles(files) && k <= |files| && WellFormed(r) && AgreeFrom(r, listing, files, k)
    ensures var after := Process(r, listing, files, fates, k).0;
            WellFormed(after) && UploadedKept(r, after) && StrangersKept(r, after, files)
    decreases |files| - k
  {
    if k < |files| {
      ReconcileKeeps(r, listing, files[k], fates(k));
      assert files[k] in files;
      var (next, ok) := Reconcile(r, listing, files[k], fates(k));
      StepAgrees(r, listing, files, fates, k);
      if ok {
        ProcessKeeps(next, listing, files, fates, k + 1);
      }
    }
  }

  /** What happened to earlier names stays as it is while later files are processed. */
  lemma {:induction false} ProcessKeepsName(r: Remote, listing: seq<Asset>, files: seq<File>, fates: nat -> Fate,
                                            k: nat, n: string)
    requires DistinctFiles(files) && k <= |files| && WellFormed(r) && AgreeFrom(r, listing, files, k)
    requires forall j :: k <= j < |files| ==> files[j].name != n
    ensures Named(Process(r, listing, files, fates, k).0.assets, n) == Named(r.assets, n)
    decreases |files| - k
  {
    if k < |files| {
      ReconcileKeeps(r, listing, files[k], fates(k));
      var (next, ok) := Reconcile(r, listing, files[k], fates(k));
      StepAgrees(r, listing, files, fates, k);
      if ok {
        ProcessKeepsName(next, listing, files, fates, k + 1, n);
      }
    }
  }

  lemma {:induction false} ProcessPublishes(r: Remote, listing: seq<Asset>, files: seq<File>, fates: nat -> Fate,
                                            k: nat)
    requires DistinctFiles(files) && k <= |files| && WellFormed(r) && AgreeFrom(r, listing, files, k)
    requires Process(r, listing, files, fates, k).1
    ensures forall j :: k <= j < |files| ==> Published(Process(r, listing, files, fates, k).0, files[j])
    decreases |files| - k
  {
    if k < |files| {
      var next := Reconcile(r, listing, files[k], fates(k)).0;
      ReconcileKeeps(r, listing, files[k], fates(k));
      ReconcilePublishes(r, listing, files[k], fates(k));
      StepAgrees(r, listing, files, fates, k);
      ProcessPublishes(next, listing, files, fates, k + 1);
      ProcessKeepsName(next, listing, files, fates, k + 1, files[k].name);
    }
  }

  /** One run, whatever its fate, loses no uploaded asset and touches no asset outside the local names. */
  lemma RunKeeps(r: Remote, files: seq<File>, attempt: Attempt)
    requires DistinctFiles(files) && WellFormed(r)
    ensures var after := Run(r, files, attempt).0;
            WellFormed(after) && UploadedKept(r, after) && StrangersKept(r, after, files)
  {
    ProcessKeeps(r, r.assets, files, attempt.fates, 0);
  }

  /** Over any sequence of crashed and completed runs, an asset once uploaded stays as it is. */
  lemma {:induction false} RunsKeepUploaded(r: Remote, files: seq<File>, attempts: seq<Attempt>)
    requires DistinctFiles(files) && WellFormed(r)
    ensures WellFormed(Runs(r, files, attempts)) && UploadedKept(r, Runs(r, files, attempts))
    ensures StrangersKept(r, Runs(r, files, attempts), files)
  {
    if attempts != [] {
      var n := |attempts| - 1;
      RunsKeepUploaded(r, files, attempts[..n]);
      RunKeeps(Runs(r, files, attempts[..n]), files, attempts[n]);
    }
  }

  /** A completed run means every local file is on the server, uploaded, with equal bytes. */
  lemma CompletedMeansPublished(r: Remote, files: seq<File>, attempt: Attempt)
    requires DistinctFiles(files) && WellFormed(r) && Run(r, files, attempt).1
    ensures forall f :: f in files ==> Published(Run(r, files, attempt).0, f)
  {
    ProcessPublishes(r, r.assets, files, attempt.fates, 0);
  }

  lemma {:induction false} ProcessIdle(r: Remote, files: seq<File>, fates: nat -> Fate, k: nat)
    requires k <= |files| && WellFormed(r) && forall f :: f in files ==> Published(r, f)
    ensures Process(r, r.assets, files, fates, k).0 == r
    ensures Process(r, r.assets, files, fates, k).1 <==> forall j :: k <= j < |files| ==> fates(j).download
    decreases |files| - k
  {
    hide Reconcile, Published;
    if k < |files| {
      ReconcilePublishes(r, r.assets, files[k], fates(k));
      ProcessIdle(r, files, fates, k + 1);
    }
  }

  /** A run after a completed one mutates nothing, and completes exactly when its downloads work. */
  lemma RerunIsIdle(r: Remote, files: seq<File>, first: Attempt, second: Attempt)
    requires DistinctFiles(files) && WellFormed(r) && Run(r, files, first).1
    ensures var done := Run(r, files, first).0;
            Run(done, files, second).0 == done &&
            (Run(done, files, second).1 <==>
             second.ready && forall j :: 0 <= j < |files| ==> second.fates(j).download)
  {
    CompletedMeansPublished(r, files, first);
    RunKeeps(r, files, first);
    ProcessIdle(Run(r, files, first).0, files, second.fates, 0);
  }

  // ----- where a run stops -----

  /** An attempt whose checks before the loop fail is a failed run that issues no command. */
  lemma NotReadyChangesNothing(r: Remote, files: seq<File>, attempt: Attempt)
    requires !attempt.ready
    ensures Run(r, files, attempt) == (r, false)
  {
  }

  /** The steps for the first k files, all of them successful, and what they leave. */
  ghost predicate Reaches(r: Remote, files: seq<File>, attempt: Attempt, k: nat, at: Remote) {
    k <= |files| && Process(r, r.assets, files[..k], attempt.fates, 0) == (at, true)
  }

  /** A step after others that have succeeded. */
  lemma {:induction false} ProcessSplits(r: Remote, listing: seq<Asset>, files: seq<File>, fates: nat -> Fate,
                                         j: nat, k: nat)
    requires j <= k <= |files|
    ensures var (at, ok) := Process(r, listing, files[..k], fates, j);
            Process(r, listing, files, fates, j) == if ok then Process(at, listing, files, fates, k) else (at, false)
    decreases k - j
  {
    hide Reconcile;
    if j < k {
      var (next, ok) := Reconcile(r, listing, files[j], fates(j));
      if ok {
        ProcessSplits(next, listing, files, fates, j + 1, k);
      }
    }
  }

  /** The first file whose step fails ends the run: the result is a failure, and the records of all later files'
      names are those from before the run. */
  lemma FailureStopsTheRun(r: Remote, files: seq<File>, attempt: Attempt, k: nat, at: Remote)
    requires DistinctFiles(files) && WellFormed(r) && attempt.ready && k < |files|
    requires Reaches(r, files, attempt, k, at) && !Reconcile(at, r.assets, files[k], attempt.fates(k)).1
    ensures var (after, ok) := Run(r, files, attempt);
            && !ok && after == Reconcile(at, r.assets, files[k], attempt.fates(k)).0
            && forall j :: k < j < |files| ==> Named(after.assets, files[j].name) == Named(r.assets, files[j].name)
  {
    ProcessSplits(r, r.assets, files, attempt.fates, 0, k);
    var first := files[..k];
    assert DistinctFiles(first) && AgreeFrom(r, r.assets, first, 0);
    ProcessKeeps(r, r.assets, first, attempt.fates, 0);
    forall j | k <= j < |files|
      ensures Named(at.assets, files[j].name) == Named(r.assets, files[j].name)
    {
      ProcessKeepsName(r, r.assets, first, attempt.fates, 0, files[j].name);
    }
    ReconcileKeeps(at, r.assets, files[k], attempt.fates(k));
  }

  /** A run completes exactly when its checks pass and every file's step succeeds in turn. */
  lemma RunCompletesIff(r: Remote, files: seq<File>, attempt: Attempt)
    ensures Run(r, files, attempt).1 <==>
            attempt.ready &&
            forall k :: 0 <= k < |files| ==>
              var (at, ok) := Process(r, r.assets, files[..k], attempt.fates, 0);
              ok && Reconcile(at, r.assets, files[k], attempt.fates(k)).1
  {
    hide Reconcile;
    if attempt.ready {
      forall k | 0 <= k < |files|
        ensures var (at, ok) := Process(r, r.assets, files[..k], attempt.fates, 0);
                Run(r, files, attempt).1 ==> ok && Reconcile(at, r.assets, files[k], attempt.fates(k)).1
      {
        ProcessSplits(r, r.assets, files, attempt.fates, 0, k);
      }
      if files == [] {
        assert Process(r, r.assets, files, attempt.fates, 0).1;
      } else {
        var n := |files| - 1;
        ProcessSplits(r, r.assets, files, attempt.fates, 0, n);
      }
    }
  }

  // ----- resuming -----

  /** A name that a clean run can finish: absent, a lone starter, or published. */
  ghost predicate Finishable(r: Remote, file: File) {
    var found := Named(r.assets, file.name);
    found == [] || (|found| == 1 && found[0].state == Starter) || Published(r, file)
  }

  ghost predicate Resumable(r: Remote, files: seq<File>) {
    forall f :: f in files ==> Finishable(r, f)
  }

  /** Nothing goes wrong from outside. */
  ghost predicate Clean(attempt: Attempt) {
    attempt.ready && forall k: nat :: attempt.fates(k) == Fate(true, Deletes, Completes)
  }

  /** One file's commands, whatever their fate, leave its name finishable. */
  lemma ReconcileStaysFinishable(r: Remote, listing: seq<Asset>, file: File, fate: Fate)
    requires WellFormed(r) && AgreeOn(r, listing, file.name) && Finishable(r, file)
    ensures Finishable(Reconcile(r, listing, file, fate).0, file)
  {
    hide Named, Without, Upload;
    var found := Named(listing, file.name);
    if found == [] {
      UploadStaysFinishable(r, file, fate.upload);
    } else if found[0].state == Starter {
      NamedMembers(r.assets, file.name);
      assert found[0] in found;
      NamedAfterDelete(r, found[0]);
      var cleared := r.(assets := Without(r.assets, found[0].id));
      UploadStaysFinishable(cleared, file, fate.upload);
      AddedIsFinishable(cleared, file);
    } else {
      ReconcilePublishes(r, listing, file, fate);
    }
  }

  lemma UploadStaysFinishable(r: Remote, file: File, fate: UploadFate)
    requires Named(r.assets, file.name) == []
    ensures Finishable(Upload(r, file, fate).0, file)
  {
    hide Finishable;
    AddedIsFinishable(r, file);
  }

  /** With a clean fate, a file's step succeeds exactly when its name is finishable. */
  lemma CleanStepIff(r: Remote, listing: seq<Asset>, file: File)
    requires WellFormed(r) && AgreeOn(r, listing, file.name)
    ensures Reconcile(r, listing, file, Fate(true, Deletes, Completes)).1 <==> Finishable(r, file)
  {
    var found := Named(listing, file.name);
    if |found| == 1 {
      NamedMembers(r.assets, file.name);
      assert found[0] in found;
      if found[0].state == Starter {
        NamedAfterDelete(r, found[0]);
      } else if found[0].state == Uploaded && found[0].bytes == file.bytes {
        assert Named(r.assets, file.name) == [Asset(found[0].id, file.name, Uploaded, file.bytes)];
      }
    }
  }

  lemma AddedIsFinishable(r: Remote, file: File)
    requires Named(r.assets, file.name) == []
    ensures Finishable(r, file)
    ensures Finishable(Add(r, file.name, Uploaded, file.bytes), file)
    ensures Finishable(Add(r, file.name, Starter, []), file)
  {
    NamedAdd(r, file.name, Uploaded, file.bytes, file.name);
    NamedAdd(r, file.name, Starter, [], file.name);
    assert Named(Add(r, file.name, Uploaded, file.bytes).assets, file.name)
        == [Asset(r.nextId, file.name, Uploaded, file.bytes)];
  }

  lemma FinishableByName(r: Remote, after: Remote, file: File)
    requires Named(r.assets, file.name) == Named(after.assets, file.name)
    ensures Finishable(r, file) <==> Finishable(after, file)
  {
  }

  lemma {:induction false} ProcessFinishable(r: Remote, listing: seq<Asset>, files: seq<File>, fates: nat -> Fate,
                                             k: nat)
    requires DistinctFiles(files) && k <= |files| && WellFormed(r) && AgreeFrom(r, listing, files, k)
    ensures forall j :: 0 <= j < |files| && Finishable(r, files[j]) ==>
              Finishable(Process(r, listing, files, fates, k).0, files[j])
    decreases |files| - k
  {
    hide Reconcile, Finishable, Published;
    if k < |files| {
      var (next, ok) := Reconcile(r, listing, files[k], fates(k));
      ReconcileKeeps(r, listing, files[k], fates(k));
      StepAgrees(r, listing, files, fates, k);
      forall j | 0 <= j < |files| && Finishable(r, files[j])
        ensures Finishable(next, files[j])
      {
        if j == k {
          ReconcileStaysFinishable(r, listing, files[k], fates(k));
        } else {
          assert files[j].name != files[k].name;
          FinishableByName(r, next, files[j]);
        }
      }
      if ok {
        ProcessFinishable(next, listing, files, fates, k + 1);
      }
    }
  }

  lemma {:induction false} CleanProcess(r: Remote, listing: seq<Asset>, files: seq<File>, fates: nat -> Fate, k: nat)
    requires DistinctFiles(files) && k <= |files| && WellFormed(r) && AgreeFrom(r, listing, files, k)
    requires forall j: nat :: fates(j) == Fate(true, Deletes, Completes)
    ensures Process(r, listing, files, fates, k).1 <==> forall j :: k <= j < |files| ==> Finishable(r, files[j])
    decreases |files| - k
  {
    if k < |files| {
      var (next, ok) := Reconcile(r, listing, files[k], fates(k));
      ReconcileKeeps(r, listing, files[k], fates(k));
      CleanStepIff(r, listing, files[k]);
      StepAgrees(r, listing, files, fates, k);
      if ok {
        CleanProcess(next, listing, files, fates, k + 1);
        forall j | k < j < |files|
          ensures Finishable(next, files[j]) <==> Finishable(r, files[j])
        {
          FinishableByName(r, next, files[j]);
        }
      }
    }
  }

  /** A clean run completes exactly when every local name is absent, a lone starter, or already published. */
  lemma CleanRunCompletesIff(r: Remote, files: seq<File>, attempt: Attempt)
    requires DistinctFiles(files) && WellFormed(r) && Clean(attempt)
    ensures Run(r, files, attempt).1 <==> Resumable(r, files)
  {
    CleanProcess(r, r.assets, files, attempt.fates, 0);
  }

  lemma {:induction false} RunsKeepResumable(r: Remote, files: seq<File>, attempts: seq<Attempt>)
    requires DistinctFiles(files) && WellFormed(r) && Resumable(r, files)
    ensures Resumable(Runs(r, files, attempts), files)
  {
    if attempts != [] {
      var n := |attempts| - 1;
      var before := Runs(r, files, attempts[..n]);
      RunsKeepResumable(r, files, attempts[..n]);
      RunsKeepUploaded(r, files, attempts[..n]);
      if attempts[n].ready {
        ProcessFinishable(before, before.assets, files, attempts[n].fates, 0);
      }
    }
  }

  /** From a fresh draft, after any crashes whatsoever, one clean run completes the release. */
  lemma CrashesCanBeResumed(nextId: nat, files: seq<File>, attempts: seq<Attempt>, last: Attempt)
    requires DistinctFiles(files) && Clean(last)
    ensures var done := Run(Runs(Remote([], nextId), files, attempts), files, last);
            done.1 && forall f :: f in files ==> Published(done.0, f)
  {
    var r := Remote([], nextId);
    RunsKeepResumable(r, files, attempts);
    RunsKeepUploaded(r, files, attempts);
    CleanRunCompletesIff(Runs(r, files, attempts), files, last);
    CompletedMeansPublished(Runs(r, files, attempts), files, last);
  }
}
