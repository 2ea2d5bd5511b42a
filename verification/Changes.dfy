/** One task's change control (packages/change-service/src/change-service.ts):
    the state, and what every operation does to it. The ChangeService class
    carries the operations out; ChangeRuns proves what they keep. */
module Changes {
  import opened Content
  import opened Documents
  import opened Storage
  import opened Utf8
  import Hunks
  import Splitting

  datatype Baseline = Baseline(path: Path, existed: bool, blobHash: Option<Digest>, mode: Option<Mode>, size: nat)

  datatype ChangeKind = Created | Modified | Deleted | Renamed
  datatype Author = Agent | User | System

  datatype Record = Record(
    path: Path,
    kind: ChangeKind,
    beforeHash: Option<Digest>,
    afterHash: Option<Digest>,
    renameTo: Option<Path>,
    author: Author)

  /** The task's view: disk and open documents, blobs, baselines in the order of
      first touch, and the append-only change log. */
  datatype Plane = Plane(world: World, blobs: Blobs, baselines: seq<Baseline>, log: seq<Record>)

  datatype Conflict = Conflict(path: Path, currentHash: Option<Digest>, expectedHash: Option<Digest>)

  datatype ChangeError =
    | TargetMissing
    | BinaryFile
    | VersionConflict
    | PatchFailed
    | AlreadyExists
    | ReviewStale
    | NoBaseline
    | BlobMissing
    | NotOnDisk
    | RollbackConflict(conflicts: seq<Conflict>)
    | DocumentFailure(error: DocError)

  type Result<+T> = Outcome<T, ChangeError>

  /** The diff library, as far as the review uses it. `undo` applies one reversed hunk. */
  datatype DiffLibrary = DiffLibrary(
    diff: (Text, Text) -> seq<Hunks.Hunk>,
    undo: (Text, Hunks.Hunk) -> Option<Text>,
    stats: (Text, Text) -> (nat, nat))

  // ----- Baselines, writes and the log -----

  function FindBaseline(baselines: seq<Baseline>, path: Path): (b: Option<Baseline>)
    ensures b.Some? ==> b.value in baselines && b.value.path == path
    ensures b.None? ==> forall other <- baselines :: other.path != path
  {
    if baselines == [] then None
    else if baselines[0].path == path then Some(baselines[0])
    else FindBaseline(baselines[1..], path)
  }

  /** Storing a baseline replaces the one of its path, else adds it at the end. */
  function WithBaseline(baselines: seq<Baseline>, b: Baseline): seq<Baseline> {
    if baselines == [] then [b]
    else if baselines[0].path == b.path then [b] + baselines[1..]
    else [baselines[0]] + WithBaseline(baselines[1..], b)
  }

  lemma {:induction false} NewBaselineGoesLast(baselines: seq<Baseline>, b: Baseline)
    requires FindBaseline(baselines, b.path).None?
    ensures WithBaseline(baselines, b) == baselines + [b]
  {
    if baselines != [] {
      NewBaselineGoesLast(baselines[1..], b);
      assert baselines == [baselines[0]] + baselines[1..];
    }
  }

  /** Whatever was stored before, a stored baseline is then found at its path, in
      the place of an earlier one, and every other path finds what it found. */
  lemma {:induction false} StoredBaselineIsFound(baselines: seq<Baseline>, b: Baseline, path: Path)
    ensures FindBaseline(WithBaseline(baselines, b), path) == if path == b.path then Some(b) else FindBaseline(baselines, path)
    ensures |WithBaseline(baselines, b)| == |baselines| + if FindBaseline(baselines, b.path).Some? then 0 else 1
  {
    if baselines != [] && baselines[0].path != b.path {
      StoredBaselineIsFound(baselines[1..], b, path);
    }
  }

  predicate Touched(s: Plane, path: Path) {
    FindBaseline(s.baselines, path).Some?
  }

  function BaselineOf(path: Path, bytes: Option<Bytes>, mode: Option<Mode>): Baseline {
    match bytes
    case None => Baseline(path, false, None, None, 0)
    case Some(content) => Baseline(path, true, Some(Sha(content)), mode, |content|)
  }

  function BytesAt(disk: Disk, path: Path): Option<Bytes> {
    if path in disk then Some(disk[path].bytes) else None
  }

  function Captured(disk: Disk, path: Path): Baseline {
    BaselineOf(path, BytesAt(disk, path), if path in disk then Some(disk[path].mode) else None)
  }

  function AddBaseline(s: Plane, path: Path, bytes: Option<Bytes>, mode: Option<Mode>): Plane {
    if Touched(s, path) then s
    else s.(blobs := if bytes.Some? then PutBlob(s.blobs, bytes.value) else s.blobs,
            baselines := s.baselines + [BaselineOf(path, bytes, mode)])
  }

  function Ensured(s: Plane, path: Path): Plane {
    var disk := s.world.disk;
    AddBaseline(s, path, BytesAt(disk, path), if path in disk then Some(disk[path].mode) else None)
  }

  /** An explicit mode wins, else the file keeps its mode, else it is a new file. */
  function WriteMode(disk: Disk, path: Path, mode: Option<Mode>, host: Host): Mode {
    if mode.Some? then mode.value
    else if path in disk then disk[path].mode
    else host.newFileMode
  }

  function SetFile(s: Plane, path: Path, file: Option<File>): Plane {
    s.(world := s.world.(disk := if file.Some? then s.world.disk[path := file.value] else s.world.disk - {path}))
  }

  function WrittenBytes(s: Plane, path: Path, bytes: Bytes, mode: Option<Mode>, host: Host): Plane {
    SetFile(s, path, Some(File(bytes, WriteMode(s.world.disk, path, mode, host))))
  }

  function Notified(s: Plane, path: Path, now: int): Plane {
    s.(world := WatchAt(s.world, path, now))
  }

  function Put(s: Plane, bytes: Bytes): Plane {
    s.(blobs := PutBlob(s.blobs, bytes))
  }

  function Logged(s: Plane, record: Record): Plane {
    s.(log := s.log + [record])
  }

  // ----- Operations -----

  function WroteThrough(s: Plane, path: Path, content: Text, now: int, host: Host): (Plane, Option<ChangeError>) {
    if path in s.world.docs then
      var edited := EditAt(s.world, path, content);
      var error := SaveError(edited.docs[path], FileAt(edited.disk, path), false);
      (s.(world := SaveAt(edited, path, false, now, host)),
       match error
       case None => None
       case Some(SaveConflict) => Some(VersionConflict)
       case Some(other) => Some(DocumentFailure(other)))
    else (WrittenBytes(s, path, Encode(content), None, host), None)
  }

  function PatchResult(s: Plane, path: Path, patch: Text -> Option<Text>, baseHash: Digest): Result<Text> {
    var current := ReadLogicalAt(s.world, path);
    if current.None? then Err(TargetMissing)
    else if current.value.binary then Err(BinaryFile)
    else if baseHash != current.value.hash then Err(VersionConflict)
    else
      var next := patch(current.value.content);
      if next.None? then Err(PatchFailed) else Ok(next.value)
  }

  function ApplyPatch(s: Plane, path: Path, patch: Text -> Option<Text>, baseHash: Digest, now: int, host: Host)
    : (Plane, Result<Digest>)
  {
    var s1 := Ensured(s, path);
    match PatchResult(s1, path, patch, baseHash)
    case Err(error) => (s1, Err(error))
    case Ok(next) =>
      var (s2, failure) := WroteThrough(s1, path, next, now, host);
      if failure.Some? then (s2, Err(failure.value))
      else (Logged(Put(s2, Encode(next)), Record(path, Modified, Some(baseHash), Some(ShaText(next)), None, Agent)),
            Ok(ShaText(next)))
  }

  function WriteFileDirect(s: Plane, path: Path, content: Bytes, author: Author, now: int, host: Host): (Plane, Digest) {
    var s1 := Ensured(s, path);
    var before := ReadLogicalAt(s1.world, path);
    var s2 := Put(Notified(WrittenBytes(s1, path, content, None, host), path, now), content);
    var record := Record(path, if before.Some? then Modified else Created,
                         if before.Some? then Some(before.value.hash) else None, Some(Sha(content)), None, author);
    (Logged(s2, record), Sha(content))
  }

  function CreateFile(s: Plane, path: Path, content: Text, host: Host): (Plane, Result<Digest>) {
    if path in s.world.disk then (s, Err(AlreadyExists))
    else
      var s1 := WrittenBytes(Ensured(s, path), path, Encode(content), None, host);
      (Logged(Put(s1, Encode(content)), Record(path, Created, None, Some(ShaText(content)), None, Agent)),
       Ok(ShaText(content)))
  }

  function DeleteFile(s: Plane, path: Path, now: int): (Plane, Result<()>) {
    var s1 := Ensured(s, path);
    if ReadLogicalAt(s1.world, path).None? then (s1, Err(TargetMissing))
    else if path !in s1.world.disk then (s1, Err(NotOnDisk))
    else
      var bytes := s1.world.disk[path].bytes;
      (Logged(Notified(SetFile(Put(s1, bytes), path, None), path, now),
              Record(path, Deleted, Some(Sha(bytes)), None, None, Agent)),
       Ok(()))
  }

  function RenameFile(s: Plane, source: Path, target: Path): (Plane, Result<()>) {
    if target in s.world.disk then (s, Err(AlreadyExists))
    else
      var s1 := Ensured(Ensured(s, source), target);
      if source !in s1.world.disk then (s1, Err(NotOnDisk))
      else
        var file := s1.world.disk[source];
        (Logged(SetFile(SetFile(Put(s1, file.bytes), source, None), target, Some(file)),
                Record(source, Renamed, Some(Sha(file.bytes)), Some(Sha(file.bytes)), Some(target), Agent)),
         Ok(()))
  }

  function BaselineText(s: Plane, b: Baseline): Text {
    var bytes := if b.blobHash.Some? then GetBlob(s.blobs, b.blobHash.value) else None;
    if b.existed && bytes.Some? then LogicalText(bytes.value) else ""
  }

  /** The text a hunk rejection would write. */
  function RejectResult(s: Plane, path: Path, key: Hunks.Key, expected: Digest, lib: DiffLibrary): Result<Text> {
    var current := ReadLogicalAt(s.world, path);
    if current.None? then Err(TargetMissing)
    else if current.value.binary then Err(BinaryFile)
    else if current.value.hash != expected then Err(ReviewStale)
    else
      var baseline := FindBaseline(s.baselines, path);
      if baseline.None? then Err(NoBaseline)
      else
        var hunks := lib.diff(BaselineText(s, baseline.value), current.value.content);
        var k := Hunks.FindKey(hunks, key);
        if k.None? then Err(ReviewStale)
        else
          var next := lib.undo(current.value.content, Hunks.ReverseHunk(hunks[k.value]));
          if next.None? then Err(ReviewStale) else Ok(next.value)
  }

  function RejectHunk(s: Plane, path: Path, key: Hunks.Key, expected: Digest, lib: DiffLibrary, now: int, host: Host)
    : (Plane, Result<Digest>)
  {
    match RejectResult(s, path, key, expected, lib)
    case Err(error) => (s, Err(error))
    case Ok(next) =>
      var (s1, hash) := WriteFileDirect(s, path, Encode(next), User, now, host);
      (s1, Ok(hash))
  }

  datatype RevertKind = Restored | Removed | Noop

  function BaselineBytes(s: Plane, b: Baseline): Option<Bytes> {
    if b.blobHash.Some? then GetBlob(s.blobs, b.blobHash.value) else None
  }

  function RevertFile(s: Plane, path: Path, expected: Option<Digest>, now: int, host: Host): (Plane, Result<RevertKind>) {
    var baseline := FindBaseline(s.baselines, path);
    if baseline.None? then (s, Err(NoBaseline))
    else
      var b := baseline.value;
      var logical := ReadLogicalAt(s.world, path);
      if expected.Some? && (logical.None? || logical.value.hash != expected.value) then (s, Err(ReviewStale))
      else if b.existed then
        var bytes := BaselineBytes(s, b);
        var before := DigestAt(s.world.disk, path);
        if bytes.None? then (s, Err(BlobMissing))
        else if before == b.blobHash then (s, Ok(Noop))
        else
          (Logged(Notified(WrittenBytes(s, path, bytes.value, b.mode, host), path, now),
                  Record(path, if before.None? then Created else Modified, before, b.blobHash, None, User)),
           Ok(Restored))
      else if path in s.world.disk then
        var existing := s.world.disk[path].bytes;
        (Logged(Notified(SetFile(Put(s, existing), path, None), path, now),
                Record(path, Deleted, Some(Sha(existing)), None, None, User)),
         Ok(Removed))
      else (s, Ok(Removed))
  }

  // ----- Rollback -----

  /** The state the log says the task left on disk, path by path. */
  function Expected(log: seq<Record>): map<Path, Option<Digest>> {
    if log == [] then map[]
    else
      var earlier, r := Expected(log[..|log| - 1]), log[|log| - 1];
      match r.kind
      case Created => earlier[r.path := r.afterHash]
      case Modified => earlier[r.path := r.afterHash]
      case Deleted => earlier[r.path := None]
      case Renamed =>
        var moved := earlier[r.path := None];
        if r.renameTo.Some? then moved[r.renameTo.value := r.afterHash] else moved
  }

  function BaselineHash(b: Baseline): Option<Digest> {
    if b.existed then b.blobHash else None
  }

  function ExpectedHash(s: Plane, path: Path): Option<Digest> {
    var expected := Expected(s.log);
    if path in expected then expected[path] else DigestAt(s.world.disk, path)
  }

  datatype Standing = AlreadyBaseline | Safe | InConflict

  function Classify(s: Plane, b: Baseline): Standing {
    var current := DigestAt(s.world.disk, b.path);
    if current == BaselineHash(b) then AlreadyBaseline
    else if current == ExpectedHash(s, b.path) then Safe
    else InConflict
  }

  datatype Preflight = Preflight(safe: seq<Path>, alreadyBaseline: seq<Path>, conflicts: seq<Conflict>)

  function PreflightOf(s: Plane, baselines: seq<Baseline>): Preflight {
    if baselines == [] then Preflight([], [], [])
    else
      var b := baselines[|baselines| - 1];
      var earlier := PreflightOf(s, baselines[..|baselines| - 1]);
      match Classify(s, b)
      case AlreadyBaseline => earlier.(alreadyBaseline := earlier.alreadyBaseline + [b.path])
      case Safe => earlier.(safe := earlier.safe + [b.path])
      case InConflict =>
        var conflict := Conflict(b.path, DigestAt(s.world.disk, b.path), ExpectedHash(s, b.path));
        earlier.(conflicts := earlier.conflicts + [conflict])
  }

  function RollbackPreflight(s: Plane): Preflight {
    PreflightOf(s, s.baselines)
  }

  datatype Verified = Verified(path: Path, ok: bool)

  datatype Restoration = Restoration(plane: Plane, restored: seq<Path>, verified: seq<Verified>)

  function RestoreOne(r: Restoration, b: Baseline, now: int, host: Host): Restoration {
    var s, path := r.plane, b.path;
    if b.existed then
      var bytes := BaselineBytes(s, b);
      if bytes.None? then r.(verified := r.verified + [Verified(path, false)])
      else
        Restoration(Notified(WrittenBytes(s, path, bytes.value, b.mode, host), path, now),
                    r.restored + [path],
                    r.verified + [Verified(path, Some(Sha(bytes.value)) == b.blobHash)])
    else
      Restoration(Notified(SetFile(s, path, None), path, now),
                  r.restored + [path],
                  r.verified + [Verified(path, true)])
  }

  function RestoreAll(s: Plane, baselines: seq<Baseline>, now: int, host: Host): Restoration {
    if baselines == [] then Restoration(s, [], [])
    else RestoreOne(RestoreAll(s, baselines[..|baselines| - 1], now, host), baselines[|baselines| - 1], now, host)
  }

  datatype RollbackReport = RollbackReport(
    ok: bool, restored: seq<Path>, verified: seq<Verified>, conflictsOverridden: seq<Path>)

  predicate AllOk(verified: seq<Verified>) {
    forall v <- verified :: v.ok
  }

  function ConflictPaths(conflicts: seq<Conflict>): seq<Path> {
    seq(|conflicts|, i requires 0 <= i < |conflicts| => conflicts[i].path)
  }

  function Rollback(s: Plane, force: bool, now: int, host: Host): (Plane, Result<RollbackReport>) {
    var conflicts := RollbackPreflight(s).conflicts;
    if conflicts != [] && !force then (s, Err(RollbackConflict(conflicts)))
    else
      var r := RestoreAll(s, s.baselines, now, host);
      (r.plane, Ok(RollbackReport(AllOk(r.verified), r.restored, r.verified, ConflictPaths(conflicts))))
  }

  // ----- Rollback to recorded states -----

  datatype Target = Target(path: Path, toHash: Option<Digest>, expectedCurrentHash: Option<Digest>)

  predicate TargetConflict(disk: Disk, t: Target) {
    var current := DigestAt(disk, t.path);
    current != t.toHash && current != t.expectedCurrentHash
  }

  function TargetConflicts(disk: Disk, targets: seq<Target>): seq<Conflict> {
    if targets == [] then []
    else
      var t := targets[|targets| - 1];
      TargetConflicts(disk, targets[..|targets| - 1])
      + (if TargetConflict(disk, t) then [Conflict(t.path, DigestAt(disk, t.path), t.expectedCurrentHash)] else [])
  }

  function MoveOne(r: Restoration, t: Target, now: int, host: Host): Restoration {
    var s, path := r.plane, t.path;
    if DigestAt(s.world.disk, path) == t.toHash then r.(verified := r.verified + [Verified(path, true)])
    else if t.toHash.None? then
      Restoration(Notified(SetFile(s, path, None), path, now), r.restored + [path], r.verified + [Verified(path, true)])
    else
      var bytes := GetBlob(s.blobs, t.toHash.value);
      if bytes.None? then r.(verified := r.verified + [Verified(path, false)])
      else
        Restoration(Notified(WrittenBytes(s, path, bytes.value, None, host), path, now),
                    r.restored + [path],
                    r.verified + [Verified(path, Sha(bytes.value) == t.toHash.value)])
  }

  function MoveAll(s: Plane, targets: seq<Target>, now: int, host: Host): Restoration {
    if targets == [] then Restoration(s, [], [])
    else MoveOne(MoveAll(s, targets[..|targets| - 1], now, host), targets[|targets| - 1], now, host)
  }

  datatype StatesReport = StatesReport(
    ok: bool, restored: seq<Path>, verified: seq<Verified>, conflicts: seq<Conflict>)

  function RollbackToStates(s: Plane, targets: seq<Target>, force: bool, now: int, host: Host): (Plane, StatesReport) {
    var conflicts := TargetConflicts(s.world.disk, targets);
    if conflicts != [] && !force then (s, StatesReport(false, [], [], conflicts))
    else
      var r := MoveAll(s, targets, now, host);
      (r.plane, StatesReport(AllOk(r.verified), r.restored, r.verified, conflicts))
  }

  // ----- Observing changes made outside -----

  type ObservedKind = k: ChangeKind | k != Renamed witness Created

  /** The task's records of one path, oldest first. */
  function History(log: seq<Record>, path: Path): (h: seq<Record>)
    ensures forall r <- h :: r.path == path
  {
    if log == [] then []
    else
      var r := log[|log| - 1];
      History(log[..|log| - 1], path) + (if r.path == path then [r] else [])
  }

  function LastHash(s: Plane, path: Path): Option<Digest> {
    var history, b := History(s.log, path), FindBaseline(s.baselines, path);
    if history != [] then history[|history| - 1].afterHash
    else if b.Some? then b.value.blobHash
    else None
  }

  function ObservedBytes(s: Plane, path: Path, kind: ObservedKind): Option<Bytes> {
    if kind == Deleted then None else BytesAt(s.world.disk, path)
  }

  function ObservedHash(s: Plane, path: Path, kind: ObservedKind): Option<Digest> {
    if kind == Deleted then None else DigestAt(s.world.disk, path)
  }

  function RecordExternal(s: Plane, path: Path, kind: ObservedKind, author: Author): (Plane, Record) {
    var bytes := ObservedBytes(s, path, kind);
    var record := Record(path, kind, LastHash(s, path), ObservedHash(s, path, kind), None, author);
    (Logged(if bytes.Some? then Put(s, bytes.value) else s, record), record)
  }

  /** The version an observation is compared with; a recorded deletion has none
      and falls back to the baseline. */
  function PreviousHash(s: Plane, path: Path): Option<Digest> {
    var history, b := History(s.log, path), FindBaseline(s.baselines, path);
    if history != [] && history[|history| - 1].afterHash.Some? then history[|history| - 1].afterHash
    else if b.Some? then b.value.blobHash
    else None
  }

  function ReconcileExternal(s: Plane, path: Path, kind: ObservedKind, baselineBytes: Option<Bytes>)
    : (Plane, Option<Record>)
  {
    var s1 := AddBaseline(s, path, baselineBytes, None);
    if PreviousHash(s1, path) == ObservedHash(s1, path, kind) then (s1, None)
    else
      var (s2, record) := RecordExternal(s1, path, kind, System);
      (s2, Some(record))
  }
}
