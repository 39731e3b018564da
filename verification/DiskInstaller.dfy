/** Writing an image to a disk while the target path may be re-pointed between any two steps. */
module DiskInstaller {
  import opened Common
  import opened PathNames

  type Id = nat

  datatype Kind = RegularFile | BlockDevice | Other

  /** A file-system object: what fstat reports of it, and its bytes. */
  datatype Node = Node(kind: Kind, dev: nat, ino: nat, rdev: nat, data: seq<byte>)

  /** What sysfs says about a device number; the model may be missing or blank, and is trimmed. */
  datatype SysDisk = SysDisk(partition: bool, model: Option<string>, sectors: nat, removable: nat, diskseq: nat)

  datatype DiskIdentity = DiskIdentity(
    path: string, model: string, sizeBytes: nat, removable: bool,
    device: nat, inode: nat, rdev: nat, diskseq: nat)

  datatype Request = Request(
    target: string, allowRegularFile: bool, expected: Option<DiskIdentity>)

  datatype Outcome = Ok(bytes: nat) | Err

  const U64_LIMIT := 0x1_0000_0000_0000_0000

  /** Everything the outside decides: what the paths name at each step, and how the I/O goes. */
  datatype Env = Env(
    existsAtFirst: bool,         // the first look at the target path
    statTarget: Option<Id>,      // what fs::metadata(target) finds
    openSource: Option<Id>,      // what File::open(source) finds
    openTarget: Option<Id>,      // what the target path names when it is ready
    opens: bool,                 // permissions, exclusive use and the parent directory allow the open
    freshId: Id, freshDev: nat, freshIno: nat,
    sysfs: nat -> Option<SysDisk>,
    measured: Option<nat>,       // image size found by the first pass, None on a read error
    chunks: seq<seq<byte>>,      // what the reads of the copy return, in order
    readFails: bool,             // the read after the last chunk fails instead of reporting the end
    flushes: nat -> bool,        // after which chunks the buffered writer empties its buffer
    accepts: nat,                // bytes the target takes before a write fails
    truncates: bool,             // a file target can be emptied first
    syncs: bool)

  function Stream(chunks: seq<seq<byte>>): seq<byte> {
    if chunks == [] then [] else Stream(chunks[..|chunks| - 1]) + chunks[|chunks| - 1]
  }

  /** The facts about live objects every operating system guarantees. */
  ghost predicate Consistent(env: Env, nodes: map<Id, Node>) {
    && (env.statTarget.Some? ==> env.statTarget.value in nodes)
    && (env.openSource.Some? ==> env.openSource.value in nodes)
    && (env.openTarget.Some? ==> env.openTarget.value in nodes)
    && env.freshId !in nodes
    && (forall id :: id in nodes ==> (nodes[id].dev, nodes[id].ino) != (env.freshDev, env.freshIno))
  }

  function ModelName(model: Option<string>): string {
    if model.None? || model.value == "" then "Unknown model" else model.value
  }

  /** `disk_identity`: only whole block devices with readable, sane attributes have one. */
  function IdentityOf(path: string, node: Node, sysfs: nat -> Option<SysDisk>): Option<DiskIdentity> {
    if node.kind != BlockDevice || sysfs(node.rdev).None? then None else
    var d := sysfs(node.rdev).value;
    if d.partition || d.sectors * 512 >= U64_LIMIT || d.removable > 1 then None
    else Some(DiskIdentity(path, ModelName(d.model), d.sectors * 512, d.removable == 1,
                           node.dev, node.ino, node.rdev, d.diskseq))
  }

  // ----- the guards, declaratively -----

  /** The target was absent at the first look and regular files are allowed: create it. */
  predicate Creates(req: Request, env: Env) {
    req.allowRegularFile && !env.existsAtFirst
  }

  predicate SourceIsFile(env: Env, nodes: map<Id, Node>) {
    env.openSource.Some? && env.openSource.value in nodes && nodes[env.openSource.value].kind == RegularFile
  }

  predicate SameObject(a: Node, b: Node) {
    a.dev == b.dev && a.ino == b.ino && a.rdev == b.rdev
  }

  /** All that must hold of an existing object before a byte of it may change. */
  predicate Validated(req: Request, env: Env, nodes: map<Id, Node>, id: Id) {
    && !Creates(req, env)
    && id in nodes && env.openTarget == Some(id) && env.opens
    && env.statTarget.Some? && env.statTarget.value in nodes
    && SameObject(nodes[env.statTarget.value], nodes[id])
    && (nodes[env.statTarget.value].kind == BlockDevice <==> nodes[id].kind == BlockDevice)
    && (nodes[id].kind == BlockDevice ||
        (req.allowRegularFile && nodes[id].kind == RegularFile && nodes[env.statTarget.value].kind == RegularFile))
    && (req.expected.Some? ==> IdentityOf(req.target, nodes[id], env.sysfs) == req.expected)
    && SourceIsFile(env, nodes)
    && (nodes[env.openSource.value].dev, nodes[env.openSource.value].ino) != (nodes[id].dev, nodes[id].ino)
  }

  /** The only case in which a new object appears. */
  predicate CreatesFresh(req: Request, env: Env, nodes: map<Id, Node>) {
    Creates(req, env) && SourceIsFile(env, nodes) && env.openTarget.None? && env.opens
  }

  function FreshFile(env: Env): Node {
    Node(RegularFile, env.freshDev, env.freshIno, 0, [])
  }

  /** The object a run is about. */
  function Target(req: Request, env: Env): Id {
    if Creates(req, env) || env.openTarget.None? then env.freshId else env.openTarget.value
  }

  /** The guards before the first write have all passed. */
  predicate Cleared(req: Request, env: Env, nodes: map<Id, Node>) {
    if Creates(req, env) then CreatesFresh(req, env, nodes) && req.expected.None?
    else env.openTarget.Some? && Validated(req, env, nodes, env.openTarget.value)
  }

  /** The bytes of `data` with its first |bytes| replaced. */
  function Overlay(data: seq<byte>, bytes: seq<byte>): seq<byte> {
    if |bytes| <= |data| then bytes + data[|bytes|..] else bytes
  }

  /** The copy as a whole runs through: the reads end cleanly and the target takes every byte. */
  predicate CopyWorks(env: Env) {
    !env.readFails && |Stream(env.chunks)| <= env.accepts && env.syncs
  }

  /** Block targets: the image was measured, fits, and the copy reads exactly that many bytes. */
  predicate Fits(env: Env, capacity: nat) {
    env.measured.Some? && env.measured.value <= capacity
  }

  /** A file target is emptied before anything is written to it. */
  predicate Emptied(env: Env, node: Node) {
    node.kind != BlockDevice ==> env.truncates
  }

  /** A block target has room for the measured image, and the copy read just that many bytes. */
  predicate MeasuredExactly(env: Env, node: Node) {
    node.kind == BlockDevice ==> Fits(env, |node.data|) && |Stream(env.chunks)| == env.measured.value
  }

  /** Exactly when an installation succeeds. */
  predicate Succeeds(req: Request, env: Env, nodes: map<Id, Node>) {
    var id := Target(req, env);
    && Cleared(req, env, nodes) && CopyWorks(env)
    && (if id in nodes then Emptied(env, nodes[id]) && MeasuredExactly(env, nodes[id]) else env.truncates)
  }

  /** `Read::take`: what is left of the limit cuts the chunk. */
  function Take(limit: Option<nat>, got: nat, chunk: seq<byte>): (piece: seq<byte>)
    requires limit.Some? ==> got <= limit.value
    ensures piece <= chunk
    ensures limit.Some? ==> got + |piece| <= limit.value
    ensures piece == chunk || (limit.Some? && got + |piece| == limit.value)
  {
    if limit.Some? && |chunk| > limit.value - got then chunk[..limit.value - got] else chunk
  }

  // ----- the protocol -----

  /** The request `install_image_to_disk` makes for a confirmed disk. */
  function DiskRequest(disk: DiskIdentity): Request {
    Request(disk.path, false, Some(disk))
  }

  /** A copy in progress: `cursor` bytes of the stream are on the target, `pending` waits in the buffer. */
  ghost predicate InFlight(id: Id, before: map<Id, Node>, now: map<Id, Node>, stream: seq<byte>,
                           cursor: nat, pending: seq<byte>)
  {
    && id in before && cursor + |pending| <= |stream|
    && pending == stream[cursor..cursor + |pending|]
    && (before[id].data == [] || cursor + |pending| <= |before[id].data|)
    && now == before[id := before[id].(data := Overlay(before[id].data, stream[..cursor]))]
  }

  /** The bytes of a file after a write of `n` waiting bytes at the cursor. */
  function WrittenOn(data: seq<byte>, cursor: nat, pending: seq<byte>, n: nat): seq<byte>
    requires cursor <= |data| && n <= |pending|
  {
    data[..cursor] + Overlay(data[cursor..], pending[..n])
  }

  /** Writing the first `n` waiting bytes at the cursor keeps the copy in progress. */
  lemma FlushStep(id: Id, before: map<Id, Node>, now: map<Id, Node>, stream: seq<byte>,
                  cursor: nat, pending: seq<byte>, n: nat)
    requires InFlight(id, before, now, stream, cursor, pending) && n <= |pending|
    ensures id in now && cursor <= |now[id].data|
    ensures var data := WrittenOn(now[id].data, cursor, pending, n);
            InFlight(id, before, now[id := now[id].(data := data)], stream, cursor + n, pending[n..])
  {
    hide Overlay;
    OverlayGrows(before[id].data, stream, cursor, n);
    var data := WrittenOn(now[id].data, cursor, pending, n);
    assert data == Overlay(before[id].data, stream[..cursor + n]) by {
      RestOfSlice(stream, cursor, |pending|, n);
    }
    assert pending[n..] == stream[cursor + n..cursor + |pending|] by {
      RestOfSlice(stream, cursor, |pending|, n);
    }
    assert now[id := now[id].(data := data)] == before[id := before[id].(data := data)];
  }

  /** Taking the next piece of the stream into the buffer. */
  lemma BufferStep(id: Id, before: map<Id, Node>, now: map<Id, Node>, stream: seq<byte>,
                   cursor: nat, held: seq<byte>, piece: seq<byte>)
    requires InFlight(id, before, now, stream, cursor, held)
    requires cursor + |held| + |piece| <= |stream|
    requires stream[cursor + |held|..cursor + |held| + |piece|] == piece
    requires before[id].data == [] || cursor + |held| + |piece| <= |before[id].data|
    ensures InFlight(id, before, now, stream, cursor, held + piece)
  {
    hide Overlay;
    assert stream[cursor..cursor + |held|] + piece == stream[cursor..cursor + |held| + |piece|];
  }

  class Machine {
    var nodes: map<Id, Node>

    constructor (nodes: map<Id, Node>)
      ensures this.nodes == nodes
    {
      this.nodes := nodes;
    }

    method SetData(id: Id, data: seq<byte>)
      requires id in nodes
      modifies this
      ensures nodes == old(nodes)[id := old(nodes)[id].(data := data)]
    {
      nodes := nodes[id := nodes[id].(data := data)];
    }

    /** Empty the write buffer; the target stops taking bytes after `accepts` in all. */
    method Flush(id: Id, cursor: nat, pending: seq<byte>, accepts: nat,
                 ghost before: map<Id, Node>, ghost stream: seq<byte>)
      returns (written: nat)
      requires cursor <= accepts && InFlight(id, before, nodes, stream, cursor, pending)
      modifies this
      ensures written == if cursor + |pending| <= accepts then |pending| else accepts - cursor
      ensures InFlight(id, before, nodes, stream, cursor + written, pending[written..])
    {
      hide InFlight, WrittenOn;
      written := if cursor + |pending| <= accepts then |pending| else accepts - cursor;
      FlushStep(id, before, nodes, stream, cursor, pending, written);
      SetData(id, WrittenOn(nodes[id].data, cursor, pending, written));
    }

    /** Take one piece of the stream into the write buffer, and empty the buffer if it is time to. */
    method Buffer(id: Id, from: nat, held: seq<byte>, piece: seq<byte>, flush: bool, accepts: nat,
                  ghost before: map<Id, Node>, ghost stream: seq<byte>)
      returns (alive: bool, cursor: nat, pending: seq<byte>)
      requires from <= accepts && InFlight(id, before, nodes, stream, from, held)
      requires from + |held| + |piece| <= |stream| && stream[from + |held|..from + |held| + |piece|] == piece
      requires before[id].data == [] || from + |held| + |piece| <= |before[id].data|
      modifies this
      ensures cursor <= accepts && InFlight(id, before, nodes, stream, cursor, pending)
      ensures cursor + |pending| == from + |held| + |piece|
      ensures !alive ==> cursor == accepts && pending != []
    {
      hide InFlight;
      alive, cursor, pending := true, from, held + piece;
      BufferStep(id, before, nodes, stream, from, held, piece);
      if flush {
        var n := Flush(id, cursor, pending, accepts, before, stream);
        alive := n == |pending|;
        cursor, pending := cursor + n, pending[n..];
      }
    }

    /** The loop of io::copy: read chunks up to `limit` bytes into the write buffer, emptied now and then. */
    method Transfer(id: Id, limit: Option<nat>, env: Env) returns (alive: bool, cursor: nat, pending: seq<byte>)
      requires id in nodes
      requires if limit.Some? then limit.value <= |nodes[id].data| else nodes[id].data == []
      modifies this
      ensures InFlight(id, old(nodes), nodes, Stream(env.chunks), cursor, pending) && cursor <= env.accepts
      ensures limit.Some? ==> cursor + |pending| <= limit.value
      ensures alive ==> cursor + |pending| == |Stream(env.chunks)| || (limit.Some? && cursor + |pending| == limit.value)
      ensures !alive ==> cursor == env.accepts && pending != []
    {
      hide *;
      ghost var stream := Stream(env.chunks);
      StartCopy(id, nodes, env.chunks);
      alive, cursor, pending := true, 0, [];
      var k := 0;
      while alive && k < |env.chunks| && (limit.None? || cursor + |pending| < limit.value)
        invariant 0 <= k <= |env.chunks| && cursor <= env.accepts
        invariant InFlight(id, old(nodes), nodes, stream, cursor, pending)
        invariant limit.Some? ==> cursor + |pending| <= limit.value
        invariant cursor + |pending| == |Stream(env.chunks[..k])| || (limit.Some? && cursor + |pending| == limit.value)
        invariant !alive ==> cursor == env.accepts && pending != []
        decreases |env.chunks| - k
      {
        var chunk := env.chunks[k];
        var piece := Take(limit, cursor + |pending|, chunk);
        NextPiece(env.chunks, k, piece);
        var flush := env.flushes(k + 1);
        alive, cursor, pending := Buffer(id, cursor, pending, piece, flush, env.accepts, old(nodes), stream);
        k := k + 1;
      }
      StreamWhole(env.chunks);
    }

    /** The copy: all of the stream to a file, or exactly `limit` bytes of it to a block device. */
    method Copy(id: Id, limit: Option<nat>, env: Env) returns (result: Outcome, ghost written: nat)
      requires id in nodes
      requires if limit.Some? then limit.value <= |nodes[id].data| else nodes[id].data == []
      modifies this
      ensures written <= |Stream(env.chunks)| && (limit.Some? ==> written <= limit.value)
      ensures nodes == old(nodes)[id := old(nodes)[id].(
                data := Overlay(old(nodes)[id].data, Stream(env.chunks)[..written]))]
      ensures result.Ok? <==> CopyWorks(env) && (limit.Some? ==> |Stream(env.chunks)| == limit.value)
      ensures result.Ok? ==> result.bytes == |Stream(env.chunks)| == written
    {
      var alive, cursor, pending := Transfer(id, limit, env);
      var got := cursor + |pending|;
      // whatever happens next, the writer's buffer is flushed once more: by flush() or when it is dropped
      var n := Flush(id, cursor, pending, env.accepts, old(nodes), Stream(env.chunks));
      written := cursor + n;
      if !alive || ((limit.None? || got < limit.value) && env.readFails) {
        return Err, written;
      }
      if limit.Some? && (got != limit.value || |Stream(env.chunks)| > got || env.readFails) {
        return Err, written;
      }
      if n < |pending| || !env.syncs {
        return Err, written;
      }
      return Ok(got), written;
    }

    /** First half of install_image_inner: look at the target, open it, and compare what was ready. */
    method OpenTarget(req: Request, env: Env) returns (target: Option<Id>)
      requires Consistent(env, nodes)
      modifies this
      ensures target.Some? <==> Cleared(req, env, old(nodes))
      ensures target.Some? ==> target.value == Target(req, env)
      ensures nodes == Opened(req, env, old(nodes))
    {
      // target_metadata
      var metadata: Option<Node> := None;
      if !Creates(req, env) {
        if env.statTarget.None? {
          return None;
        }
        metadata := Some(nodes[env.statTarget.value]);
        if !(metadata.value.kind == RegularFile && req.allowRegularFile) && metadata.value.kind != BlockDevice {
          return None;
        }
      }
      if !SourceIsFile(env, nodes) {
        return None;
      }
      var source := nodes[env.openSource.value];
      var isBlock := metadata.Some? && metadata.value.kind == BlockDevice;
      // open: create_new refuses an existing path, a plain open needs one
      if !env.opens || (metadata.None? <==> env.openTarget.Some?) {
        return None;
      }
      var id := if metadata.None? then env.freshId else env.openTarget.value;
      if metadata.None? {
        nodes := nodes[id := FreshFile(env)];
      }
      var output := nodes[id];
      if req.expected.Some? && IdentityOf(req.target, output, env.sysfs) != req.expected {
        return None;
      }
      if (output.kind == BlockDevice) != isBlock ||
         (!isBlock && !(req.allowRegularFile && output.kind == RegularFile)) {
        return None;
      }
      if metadata.Some? && !SameObject(metadata.value, output) {
        return None;
      }
      if (source.dev, source.ino) == (output.dev, output.ino) {
        return None;
      }
      return Some(id);
    }

    /** Second half: measure, refuse what does not fit, or truncate; then copy. */
    method WriteImage(id: Id, env: Env) returns (result: Outcome)
      requires id in nodes
      modifies this
      ensures Written(id, env, old(nodes), nodes)
      ensures result.Ok? <==> CopyWorks(env) && Emptied(env, old(nodes)[id]) && MeasuredExactly(env, old(nodes)[id])
      ensures result.Ok? ==> Installed(id, env, old(nodes), nodes, result.bytes)
    {
      hide Stream;
      ghost var written: nat;
      if nodes[id].kind == BlockDevice {
        if env.measured.None? || env.measured.value > |nodes[id].data| {
          return Err;
        }
        result, written := Copy(id, env.measured, env);
      } else {
        if !env.truncates {
          return Err;
        }
        SetData(id, []);
        result, written := Copy(id, None, env);
      }
      assert PrefixWritten(env, Base(old(nodes)[id]), nodes[id].data, written);
      assert |Stream(env.chunks)| == written ==> Stream(env.chunks)[..written] == Stream(env.chunks);
    }

    /** `install_image_inner`. */
    method InstallImage(req: Request, env: Env) returns (result: Outcome)
      requires Consistent(env, nodes)
      modifies this
      ensures Allowed(req, env, old(nodes), nodes)
      ensures result.Ok? <==> Succeeds(req, env, old(nodes))
      ensures result.Ok? ==> Installed(Target(req, env), env, old(nodes), nodes, result.bytes)
      ensures result.Ok? && Target(req, env) in old(nodes) && old(nodes)[Target(req, env)].kind == BlockDevice ==>
                && env.measured == Some(result.bytes) && result.bytes == |Stream(env.chunks)|
                && result.bytes <= |nodes[Target(req, env)].data|
                && nodes[Target(req, env)].data[..result.bytes] == Stream(env.chunks)
    {
      hide Stream, IdentityOf, Touched, Allowed, Written, Cleared, CreatesFresh;
      ghost var before := nodes;
      var target := OpenTarget(req, env);
      OpenedIsAllowed(req, env, before);
      if target.None? {
        return Err;
      }
      ghost var ready := nodes;
      ClearedTarget(req, env, before, ready);
      result := WriteImage(target.value, env);
      WrittenIsAllowed(req, env, before, ready, nodes);
    }

    /** `install_image_to_disk`: the typed device name must be the last component of the disk's path. */
    method InstallImageToDisk(disk: DiskIdentity, confirmation: string, env: Env) returns (result: Outcome)
      requires Consistent(env, nodes)
      modifies this
      ensures FileName(disk.path, '/', '.') != Some(confirmation) ==> result == Err && nodes == old(nodes)
      ensures Allowed(DiskRequest(disk), env, old(nodes), nodes)
      ensures result.Ok? <==>
                FileName(disk.path, '/', '.') == Some(confirmation) && Succeeds(DiskRequest(disk), env, old(nodes))
      ensures result.Ok? ==> Installed(Target(DiskRequest(disk), env), env, old(nodes), nodes, result.bytes)
    {
      if FileName(disk.path, '/', '.') != Some(confirmation) {
        return Err;
      }
      result := InstallImage(DiskRequest(disk), env);
    }
  }

  // ----- what any run may leave behind -----

  ghost predicate PrefixWritten(env: Env, base: seq<byte>, data: seq<byte>, n: nat) {
    n <= |Stream(env.chunks)| && data == Overlay(base, Stream(env.chunks)[..n])
  }

  /** What a copy builds on: a block device keeps its bytes, a file is emptied first. */
  function Base(node: Node): seq<byte> {
    if node.kind == BlockDevice then node.data else []
  }

  /** The bytes a started copy leaves on an object: its base under a prefix of the stream, within the measured size. */
  ghost predicate Touched(env: Env, node: Node, data: seq<byte>) {
    && (node.kind == BlockDevice ==> Fits(env, |node.data|))
    && exists n: nat :: (node.kind == BlockDevice ==> n <= env.measured.value) &&
                        PrefixWritten(env, Base(node), data, n)
  }

  lemma FreshFileTouched(env: Env)
    ensures Touched(env, FreshFile(env), [])
  {
    assert PrefixWritten(env, Base(FreshFile(env)), [], 0);
  }

  /** The difference a run can make: bytes of a validated object, or one new file. */
  ghost predicate Allowed(req: Request, env: Env, before: map<Id, Node>, after: map<Id, Node>) {
    && (forall id :: id in before ==> id in after && after[id] == before[id].(data := after[id].data))
    && (forall id :: id in before && after[id] != before[id] ==>
          Validated(req, env, before, id) && Touched(env, before[id], after[id].data))
    && (forall id :: id in after && id !in before ==>
          id == env.freshId && CreatesFresh(req, env, before) &&
          after[id] == FreshFile(env).(data := after[id].data) && Touched(env, FreshFile(env), after[id].data))
  }

  /** What writing to one object may do to it, finished or not. */
  ghost predicate Written(id: Id, env: Env, before: map<Id, Node>, after: map<Id, Node>) {
    && id in before && id in after
    && after == before[id := before[id].(data := after[id].data)]
    && (after[id] == before[id] || Touched(env, before[id], after[id].data))
  }

  /** What opening the target leaves behind. */
  function Opened(req: Request, env: Env, before: map<Id, Node>): map<Id, Node> {
    if CreatesFresh(req, env, before) then before[env.freshId := FreshFile(env)] else before
  }

  lemma OpenedIsAllowed(req: Request, env: Env, before: map<Id, Node>)
    requires Consistent(env, before)
    ensures Allowed(req, env, before, Opened(req, env, before))
  {
    hide Touched;
    FreshFileTouched(env);
  }

  /** Past the guards, the target is there: as it was, or fresh and empty. */
  lemma ClearedTarget(req: Request, env: Env, before: map<Id, Node>, ready: map<Id, Node>)
    requires Consistent(env, before) && Cleared(req, env, before) && ready == Opened(req, env, before)
    ensures var id := Target(req, env);
            id in ready && (if id in before then ready[id] == before[id] else ready[id] == FreshFile(env))
  {
    hide Validated;
    assert env.openTarget.Some? ==> !CreatesFresh(req, env, before);
  }

  lemma WrittenIsAllowed(req: Request, env: Env, before: map<Id, Node>, ready: map<Id, Node>, after: map<Id, Node>)
    requires Consistent(env, before) && Cleared(req, env, before) && ready == Opened(req, env, before)
    requires Written(Target(req, env), env, ready, after)
    ensures Allowed(req, env, before, after)
  {
    hide Touched, Validated;
    FreshFileTouched(env);
  }

  /** A finished installation: the whole stream is on the target, and its length is what is reported. */
  ghost predicate Installed(id: Id, env: Env, before: map<Id, Node>, after: map<Id, Node>, bytes: nat) {
    var stream := Stream(env.chunks);
    && bytes == |stream| && id in after
    && after[id].data ==
       if id in before && before[id].kind == BlockDevice then Overlay(before[id].data, stream) else stream
  }

  lemma StartCopy(id: Id, nodes: map<Id, Node>, chunks: seq<seq<byte>>)
    requires id in nodes
    ensures Stream(chunks[..0]) == [] && InFlight(id, nodes, nodes, Stream(chunks), 0, [])
  {
    assert Overlay(nodes[id].data, Stream(chunks)[..0]) == nodes[id].data;
  }

  /** A piece of the next chunk is the next piece of the stream. */
  lemma NextPiece(chunks: seq<seq<byte>>, k: nat, piece: seq<byte>)
    requires k < |chunks| && piece <= chunks[k]
    ensures var seen := |Stream(chunks[..k])|;
            && |Stream(chunks[..k + 1])| == seen + |chunks[k]|
            && seen + |piece| <= |Stream(chunks)| && Stream(chunks)[seen..seen + |piece|] == piece
  {
    hide Stream;
    StreamStep(chunks, k);
    var stream, seen := Stream(chunks), Stream(chunks[..k]);
    assert stream[|seen|..|seen| + |chunks[k]|] == chunks[k];
  }

  /** The stream is the chunks one after the other. */
  lemma {:induction false} StreamAppends(xs: seq<seq<byte>>, chunk: seq<byte>, ys: seq<seq<byte>>)
    ensures Stream(xs + [chunk] + ys) == Stream(xs) + chunk + Stream(ys)
    decreases |ys|
  {
    var all := xs + [chunk] + ys;
    if ys == [] {
      assert all[..|all| - 1] == xs;
    } else {
      var n := |ys| - 1;
      assert all[..|all| - 1] == xs + [chunk] + ys[..n];
      StreamAppends(xs, chunk, ys[..n]);
    }
  }

  lemma StreamStep(chunks: seq<seq<byte>>, k: nat)
    requires k < |chunks|
    ensures Stream(chunks[..k + 1]) == Stream(chunks[..k]) + chunks[k]
    ensures Stream(chunks[..k + 1]) <= Stream(chunks)
  {
    assert chunks[..k + 1][..k] == chunks[..k];
    StreamPrefix(chunks, k + 1);
  }

  lemma {:induction false} StreamPrefix(chunks: seq<seq<byte>>, k: nat)
    requires k <= |chunks|
    ensures Stream(chunks[..k]) <= Stream(chunks)
    decreases |chunks|
  {
    if k == |chunks| {
      assert chunks[..k] == chunks;
    } else {
      var n := |chunks| - 1;
      assert chunks[..n][..k] == chunks[..k];
      StreamPrefix(chunks[..n], k);
    }
  }

  lemma StreamWhole(chunks: seq<seq<byte>>)
    ensures Stream(chunks[..|chunks|]) == Stream(chunks)
  {
    assert chunks[..|chunks|] == chunks;
  }

  /** A slice of the stream splits into the part written now and the part that still waits. */
  lemma RestOfSlice(stream: seq<byte>, from: nat, len: nat, n: nat)
    requires n <= len && from + len <= |stream|
    ensures var slice := stream[from..from + len];
            slice[..n] == stream[from..from + n] && slice[n..] == stream[from + n..from + n + (len - n)]
  {
  }

  lemma OverlayGrows(data: seq<byte>, stream: seq<byte>, cursor: nat, n: nat)
    requires cursor + n <= |stream| && (data == [] || cursor + n <= |data|)
    ensures var now := Overlay(data, stream[..cursor]);
            cursor <= |now| &&
            now[..cursor] + Overlay(now[cursor..], stream[cursor..cursor + n]) == Overlay(data, stream[..cursor + n])
  {
    var now := Overlay(data, stream[..cursor]);
    assert now[..cursor] == stream[..cursor];
    assert stream[..cursor] + stream[cursor..cursor + n] == stream[..cursor + n];
  }

  // ----- consequences for every interleaving -----

  /** On a block device nothing at or past the measured size changes, and the device keeps its size. */
  lemma BlockTailUntouched(req: Request, env: Env, before: map<Id, Node>, after: map<Id, Node>, id: Id)
    requires Allowed(req, env, before, after) && id in before && before[id].kind == BlockDevice
    ensures |after[id].data| == |before[id].data|
    ensures env.measured.Some? ==>
              forall i :: env.measured.value <= i < |before[id].data| ==> after[id].data[i] == before[id].data[i]
    ensures env.measured.None? ==> after[id] == before[id]
  {
    hide Stream, Validated;
    if after[id] != before[id] {
      var n: nat :| n <= env.measured.value && PrefixWritten(env, before[id].data, after[id].data, n);
    }
  }

  // ----- undisturbed installations -----

  /** The path names one whole disk throughout, which sysfs describes as it was confirmed, and the image is a regular
      file elsewhere. */
  ghost predicate FindsConfirmedDisk(disk: DiskIdentity, env: Env, nodes: map<Id, Node>, id: Id) {
    && env.statTarget == Some(id) && env.openTarget == Some(id) && env.opens && id in nodes
    && nodes[id].kind == BlockDevice
    && nodes[id].dev == disk.device && nodes[id].ino == disk.inode && nodes[id].rdev == disk.rdev
    && ConfirmedBySysfs(env, disk, nodes[id])
    && env.openSource.Some? && env.openSource.value in nodes
    && nodes[env.openSource.value].kind == RegularFile
    && (nodes[env.openSource.value].dev != disk.device || nodes[env.openSource.value].ino != disk.inode)
  }

  /** Nothing goes wrong while the image is copied, and it has the size it was measured to have. */
  ghost predicate CopiesUndisturbed(env: Env) {
    !env.readFails && env.syncs && env.measured == Some(|Stream(env.chunks)|) && |Stream(env.chunks)| <= env.accepts
  }

  /** If the path leads to the confirmed disk throughout, the installation succeeds exactly when the image fits and
      nothing goes wrong while it is copied. */
  lemma ConfirmedInstallSucceedsIff(disk: DiskIdentity, env: Env, nodes: map<Id, Node>, id: Id)
    requires FindsConfirmedDisk(disk, env, nodes, id)
    ensures Succeeds(DiskRequest(disk), env, nodes) <==>
            CopiesUndisturbed(env) && |Stream(env.chunks)| <= |nodes[id].data|
  {
    hide Stream;
    assert IdentityOf(disk.path, nodes[id], env.sysfs) == Some(disk);
  }

  /** A success with an expected identity never makes a file: the target was there, a block device in which sysfs
      confirmed exactly that disk. */
  lemma ExpectedIsConfirmed(req: Request, env: Env, nodes: map<Id, Node>)
    requires Succeeds(req, env, nodes) && req.expected.Some?
    ensures var id, disk := Target(req, env), req.expected.value;
            && id in nodes && nodes[id].kind == BlockDevice && disk.path == req.target
            && nodes[id].dev == disk.device && nodes[id].ino == disk.inode && nodes[id].rdev == disk.rdev
            && ConfirmedBySysfs(env, disk, nodes[id])
  {
  }

  /** The path is free at both looks, or names one regular file at both. */
  ghost predicate FindsFileOrNothing(env: Env, nodes: map<Id, Node>) {
    || (!env.existsAtFirst && env.openTarget.None?)
    || (env.existsAtFirst && env.openTarget.Some? && env.openTarget == env.statTarget &&
        env.openTarget.value in nodes && nodes[env.openTarget.value].kind == RegularFile)
  }

  /** An install to a file, if nobody re-points the path: it succeeds exactly if the source is another regular file
      and opening, emptying, reading, writing and syncing all work. */
  lemma FileInstallSucceedsIff(target: string, env: Env, nodes: map<Id, Node>)
    requires FindsFileOrNothing(env, nodes) && env.freshId !in nodes
    ensures Succeeds(Request(target, true, None), env, nodes) <==>
            && env.opens && env.truncates && !env.readFails && env.syncs && |Stream(env.chunks)| <= env.accepts
            && env.openSource.Some? && env.openSource.value in nodes
            && var source := nodes[env.openSource.value];
               source.kind == RegularFile &&
               (env.openTarget.Some? ==>
                  source.dev != nodes[env.openTarget.value].dev || source.ino != nodes[env.openTarget.value].ino)
  {
    hide Stream;
  }

  // ----- any number of attempts -----

  /** One call of the installer, with everything that happens around it. */
  datatype Attempt = Attempt(req: Request, env: Env)

  /** Each attempt, finished or not, leads from one state to the next. */
  ghost predicate History(attempts: seq<Attempt>, states: seq<map<Id, Node>>) {
    && |states| == |attempts| + 1
    && forall k :: 0 <= k < |attempts| ==>
         Consistent(attempts[k].env, states[k]) && Allowed(attempts[k].req, attempts[k].env, states[k], states[k + 1])
  }

  /** Some attempt found `id` fit to be written. */
  ghost predicate EverValidated(attempts: seq<Attempt>, states: seq<map<Id, Node>>, id: Id)
    requires |states| == |attempts| + 1
  {
    exists k :: 0 <= k < |attempts| && Validated(attempts[k].req, attempts[k].env, states[k], id)
  }

  lemma {:induction false} NatureStays(attempts: seq<Attempt>, states: seq<map<Id, Node>>, id: Id, k: nat)
    requires History(attempts, states) && id in states[0] && k < |states|
    ensures id in states[k] && states[k][id] == states[0][id].(data := states[k][id].data)
  {
    hide Validated, Touched, Consistent;
    if k > 0 {
      NatureStays(attempts, states, id, k - 1);
      assert Allowed(attempts[k - 1].req, attempts[k - 1].env, states[k - 1], states[k - 1 + 1]);
    }
  }

  /** Objects never vanish or change their nature, and an object changes only if some attempt validated it. */
  lemma {:induction false} OnlyValidatedEverChanges(attempts: seq<Attempt>, states: seq<map<Id, Node>>, id: Id)
    requires History(attempts, states) && id in states[0]
    ensures forall k :: 0 <= k < |states| ==>
              id in states[k] && states[k][id] == states[0][id].(data := states[k][id].data)
    ensures states[|attempts|][id] == states[0][id] || EverValidated(attempts, states, id)
  {
    hide Validated, Touched, Consistent;
    forall k | 0 <= k < |states|
      ensures id in states[k] && states[k][id] == states[0][id].(data := states[k][id].data)
    {
      NatureStays(attempts, states, id, k);
    }
    if attempts != [] {
      var n := |attempts| - 1;
      OnlyValidatedEverChanges(attempts[..n], states[..n + 1], id);
      assert Allowed(attempts[n].req, attempts[n].env, states[n], states[n + 1]);
      if EverValidated(attempts[..n], states[..n + 1], id) {
        var k :| 0 <= k < n && Validated(attempts[..n][k].req, attempts[..n][k].env, states[..n + 1][k], id);
        assert Validated(attempts[k].req, attempts[k].env, states[k], id);
      }
    }
  }

  /** The source image of every attempt is never written, even through another name. */
  lemma SourceNeverChanges(attempts: seq<Attempt>, states: seq<map<Id, Node>>, id: Id)
    requires History(attempts, states) && id in states[0]
    requires forall k :: 0 <= k < |attempts| ==> attempts[k].env.openSource == Some(id)
    ensures id in states[|attempts|] && states[|attempts|][id] == states[0][id]
  {
    OnlyValidatedEverChanges(attempts, states, id);
  }

  /** Live objects are told apart by device and inode number. */
  ghost predicate UniqueInodes(nodes: map<Id, Node>) {
    forall a, b :: a in nodes && b in nodes && nodes[a].dev == nodes[b].dev && nodes[a].ino == nodes[b].ino ==> a == b
  }

  /** However the path was re-pointed, only an object that some attempt inspected by path can change. */
  lemma OnlyInspectedEverChanges(attempts: seq<Attempt>, states: seq<map<Id, Node>>, id: Id)
    requires History(attempts, states) && id in states[0]
    requires forall k :: 0 <= k < |attempts| ==> UniqueInodes(states[k])
    requires forall k :: 0 <= k < |attempts| ==> attempts[k].env.statTarget != Some(id)
    ensures id in states[|attempts|] && states[|attempts|][id] == states[0][id]
  {
    OnlyValidatedEverChanges(attempts, states, id);
  }

  /** Without leave for regular files nothing but block devices ever changes; with it, nothing but those and files. */
  lemma OnlyDisksAndFilesChange(attempts: seq<Attempt>, states: seq<map<Id, Node>>, id: Id)
    requires History(attempts, states) && id in states[0] && id in states[|attempts|]
    requires states[|attempts|][id] != states[0][id]
    ensures states[0][id].kind == BlockDevice ||
            (states[0][id].kind == RegularFile && exists k :: 0 <= k < |attempts| && attempts[k].req.allowRegularFile)
  {
    OnlyValidatedEverChanges(attempts, states, id);
  }

  /** The object is the confirmed disk: same numbers, and at some attempt the same size and disk sequence, and no
      partition. */
  ghost predicate IsConfirmed(attempts: seq<Attempt>, disk: DiskIdentity, node: Node) {
    && node.kind == BlockDevice && node.dev == disk.device && node.ino == disk.inode && node.rdev == disk.rdev
    && exists k :: 0 <= k < |attempts| && ConfirmedBySysfs(attempts[k].env, disk, node)
  }

  ghost predicate ConfirmedBySysfs(env: Env, disk: DiskIdentity, node: Node) {
    var sys := env.sysfs(node.rdev);
    && sys.Some? && !sys.value.partition && sys.value.diskseq == disk.diskseq
    && sys.value.sectors * 512 == disk.sizeBytes < U64_LIMIT
    && sys.value.removable == (if disk.removable then 1 else 0)
    && (if sys.value.model.Some? && sys.value.model.value != "" then sys.value.model.value == disk.model
        else disk.model == "Unknown model")
  }

  /** However often a confirmed disk is written to, and wherever its path points meanwhile: no object appears,
      and whatever changed is that very disk. */
  lemma {:induction false} OnlyConfirmedDiskEverChanges(attempts: seq<Attempt>, states: seq<map<Id, Node>>,
                                                        disk: DiskIdentity, id: Id)
    requires History(attempts, states)
    requires forall k :: 0 <= k < |attempts| ==> attempts[k].req == DiskRequest(disk)
    ensures id in states[|attempts|] <==> id in states[0]
    ensures id in states[0] && states[|attempts|][id] != states[0][id] ==> IsConfirmed(attempts, disk, states[0][id])
  {
    hide Touched, Consistent, Allowed, Validated;
    NothingAppears(attempts, states, id);
    if id in states[0] {
      OnlyValidatedEverChanges(attempts, states, id);
      if EverValidated(attempts, states, id) {
        var k :| 0 <= k < |attempts| && Validated(attempts[k].req, attempts[k].env, states[k], id);
        ValidatedIsConfirmed(disk, attempts[k].env, states[k], id);
      }
    }
  }

  lemma ValidatedIsConfirmed(disk: DiskIdentity, env: Env, nodes: map<Id, Node>, id: Id)
    requires Validated(DiskRequest(disk), env, nodes, id)
    ensures var node := nodes[id];
            && node.kind == BlockDevice && node.dev == disk.device && node.ino == disk.inode && node.rdev == disk.rdev
            && ConfirmedBySysfs(env, disk, node)
  {
  }

  lemma {:induction false} NothingAppears(attempts: seq<Attempt>, states: seq<map<Id, Node>>, id: Id)
    requires History(attempts, states)
    requires forall k :: 0 <= k < |attempts| ==> !attempts[k].req.allowRegularFile
    ensures id in states[|attempts|] <==> id in states[0]
  {
    hide Validated, Touched, Consistent;
    if attempts != [] {
      var n := |attempts| - 1;
      NothingAppears(attempts[..n], states[..n + 1], id);
    }
  }

  /** Whatever the attempts did, a block device keeps its size and every byte at or past the largest measured image. */
  lemma {:induction false} BlockTailNeverChanges(attempts: seq<Attempt>, states: seq<map<Id, Node>>, id: Id, bound: nat)
    requires History(attempts, states) && id in states[0] && states[0][id].kind == BlockDevice
    requires forall k :: 0 <= k < |attempts| && attempts[k].env.measured.Some? ==>
               attempts[k].env.measured.value <= bound
    ensures id in states[|attempts|] && states[|attempts|][id] == states[0][id].(data := states[|attempts|][id].data)
    ensures |states[|attempts|][id].data| == |states[0][id].data|
    ensures bound <= |states[0][id].data| ==> states[|attempts|][id].data[bound..] == states[0][id].data[bound..]
  {
    hide Validated, Touched, Consistent;
    if attempts != [] {
      var n := |attempts| - 1;
      BlockTailNeverChanges(attempts[..n], states[..n + 1], id, bound);
      BlockTailUntouched(attempts[n].req, attempts[n].env, states[n], states[n + 1], id);
      assert states[..n + 1][n] == states[n];
    }
  }

  /** Failed attempts leave no residue: after any of them, an attempt that succeeds on a block device leaves exactly
      what it would have left on the untouched device, if no earlier image was measured to be larger. */
  lemma SuccessErasesFailures(attempts: seq<Attempt>, states: seq<map<Id, Node>>, bytes: nat)
    requires History(attempts, states) && attempts != []
    requires var last := attempts[|attempts| - 1];
             && !Creates(last.req, last.env) && Succeeds(last.req, last.env, states[|attempts| - 1])
             && Installed(Target(last.req, last.env), last.env, states[|attempts| - 1], states[|attempts|], bytes)
             && last.env.openTarget.value in states[0] && states[0][last.env.openTarget.value].kind == BlockDevice
    requires forall k :: 0 <= k < |attempts| && attempts[k].env.measured.Some? ==>
               attempts[k].env.measured.value <= bytes
    ensures var last := attempts[|attempts| - 1];
            var id := last.env.openTarget.value;
            id in states[|attempts|] &&
            states[|attempts|][id] == states[0][id].(data := Overlay(states[0][id].data, Stream(last.env.chunks)))
  {
    hide Stream, Validated;
    var n := |attempts| - 1;
    var last := attempts[n];
    var id := last.env.openTarget.value;
    assert forall k :: 0 <= k < n ==> attempts[..n][k] == attempts[k];
    BlockTailNeverChanges(attempts[..n], states[..n + 1], id, bytes);
    assert states[..n + 1][n] == states[n];
  }

  /** An installed image stays until some later attempt validates its disk. */
  lemma InstalledImageStays(attempts: seq<Attempt>, states: seq<map<Id, Node>>, k: nat, bytes: nat)
    requires History(attempts, states) && k < |attempts|
    requires Installed(Target(attempts[k].req, attempts[k].env), attempts[k].env, states[k], states[k + 1], bytes)
    requires forall j :: k < j < |attempts| ==>
               !Validated(attempts[j].req, attempts[j].env, states[j], Target(attempts[k].req, attempts[k].env))
    ensures var id := Target(attempts[k].req, attempts[k].env);
            id in states[|attempts|] && Stream(attempts[k].env.chunks) <= states[|attempts|][id].data
  {
    hide Stream, Validated, Touched, Consistent;
    var id := Target(attempts[k].req, attempts[k].env);
    var later, after := attempts[k + 1..], states[k + 1..];
    assert forall j :: 0 <= j < |later| ==> later[j] == attempts[k + 1 + j];
    OnlyValidatedEverChanges(later, after, id);
  }
}
