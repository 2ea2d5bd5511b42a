/** What holds in every reachable state, outside edits and all: recorded bytes
    stay recoverable, preflight tells foreign edits apart, and the ways of
    undoing agree with each other. */
module ChangeHistory {
  import opened Changes
  import opened ChangeRuns
  import opened Content
  import opened Documents
  import opened Storage
  import opened Utf8

  /** Everything that can happen: task steps with any document event or outside
      edit, rollbacks to recorded states, and observed outside changes. */
  datatype AnyStep =
    | ByTask(step: Step)
    | ToStates(targets: seq<Target>, force: bool, now: int)
    | Snapshot(path: Path, bytes: Option<Bytes>, mode: Option<Mode>)
    | Observe(path: Path, kind: ObservedKind, author: Author)
    | Reconcile(path: Path, kind: ObservedKind, baselineBytes: Option<Bytes>)

  function PerformAny(s: Plane, step: AnyStep, lib: DiffLibrary, host: Host): Plane {
    match step
    case ByTask(t) => Perform(s, t, lib, host)
    case ToStates(targets, force, now) => RollbackToStates(s, targets, force, now, host).0
    case Snapshot(path, bytes, mode) => AddBaseline(s, path, bytes, mode)
    case Observe(path, kind, author) => RecordExternal(s, path, kind, author).0
    case Reconcile(path, kind, bytes) => ReconcileExternal(s, path, kind, bytes).0
  }

  function RunAny(s: Plane, steps: seq<AnyStep>, lib: DiffLibrary, host: Host): Plane
    decreases |steps|
  {
    if steps == [] then s else RunAny(PerformAny(s, steps[0], lib, host), steps[1..], lib, host)
  }

  // ----- Blob closure -----

  predicate WellRecorded(blobs: Blobs, b: Baseline) {
    if b.existed then b.blobHash.Some? && b.blobHash.value in blobs else b.blobHash.None?
  }

  /** Each baseline and each logged version resolves to the bytes it names. */
  predicate Closed(s: Plane) {
    && Intact(s.blobs)
    && Unique(s.baselines)
    && (forall b <- s.baselines :: WellRecorded(s.blobs, b))
    && (forall r <- s.log :: Resolves(s.blobs, r.afterHash))
  }

  /** Nothing recorded is ever lost or altered. */
  predicate Extends(s: Plane, after: Plane) {
    s.baselines <= after.baselines && s.log <= after.log && Grows(s.blobs, after.blobs)
  }

  lemma OnDiskOnly(s: Plane, after: Plane)
    requires Closed(s) && after == s.(world := after.world)
    ensures Closed(after) && Extends(s, after)
  {
  }

  lemma AddBaselineCloses(s: Plane, path: Path, bytes: Option<Bytes>, mode: Option<Mode>)
    requires Closed(s)
    ensures Closed(AddBaseline(s, path, bytes, mode)) && Extends(s, AddBaseline(s, path, bytes, mode))
  {
    if bytes.Some? {
      PutKeepsBlobs(s.blobs, bytes.value);
    }
  }

  lemma PutCloses(s: Plane, bytes: Bytes)
    requires Closed(s)
    ensures Closed(Put(s, bytes)) && Extends(s, Put(s, bytes)) && Sha(bytes) in Put(s, bytes).blobs
  {
    PutKeepsBlobs(s.blobs, bytes);
  }

  lemma LogCloses(s: Plane, r: Record)
    requires Closed(s) && Resolves(s.blobs, r.afterHash)
    ensures Closed(Logged(s, r)) && Extends(s, Logged(s, r))
  {
  }

  lemma ExtendsTransitive(a: Plane, b: Plane, c: Plane)
    requires Extends(a, b) && Extends(b, c)
    ensures Extends(a, c)
  {
  }

  /** Write to disk, keep the bytes, log the result. */
  lemma CommitCloses(s: Plane, s1: Plane, bytes: Option<Bytes>, r: Record)
    requires Closed(s) && s1 == s.(world := s1.world)
    requires bytes.None? ==> Resolves(s.blobs, r.afterHash)
    requires bytes.Some? ==> r.afterHash.None? || r.afterHash == Some(Sha(bytes.value))
    ensures var after := Logged(if bytes.Some? then Put(s1, bytes.value) else s1, r);
            Closed(after) && Extends(s, after)
  {
    OnDiskOnly(s, s1);
    var s2 := if bytes.Some? then Put(s1, bytes.value) else s1;
    if bytes.Some? {
      PutCloses(s1, bytes.value);
    }
    LogCloses(s2, r);
    ExtendsTransitive(s, s2, Logged(s2, r));
  }

  lemma PatchCloses(s: Plane, path: Path, patch: Text -> Option<Text>, baseHash: Digest, now: int, host: Host)
    requires Closed(s)
    ensures var after := ApplyPatch(s, path, patch, baseHash, now, host).0;
            Closed(after) && Extends(s, after)
  {
    var s1, after := Ensured(s, path), ApplyPatch(s, path, patch, baseHash, now, host).0;
    EnsuredCloses(s, path);
    match PatchResult(s1, path, patch, baseHash)
    case Err(_) =>
    case Ok(next) =>
      var (s2, failure) := WroteThrough(s1, path, next, now, host);
      PatchedContent(s1, path, next, now, host);
      if failure.Some? {
        OnDiskOnly(s1, s2);
      } else {
        CommitCloses(s1, s2, Some(Encode(next)), Record(path, Modified, Some(baseHash), Some(ShaText(next)), None, Agent));
      }
      ExtendsTransitive(s, s1, after);
  }

  lemma EnsuredCloses(s: Plane, path: Path)
    requires Closed(s)
    ensures Closed(Ensured(s, path)) && Extends(s, Ensured(s, path))
  {
    var disk := s.world.disk;
    AddBaselineCloses(s, path, BytesAt(disk, path), if path in disk then Some(disk[path].mode) else None);
  }

  lemma WriteDirectCloses(s: Plane, path: Path, content: Bytes, author: Author, now: int, host: Host)
    requires Closed(s)
    ensures var after := WriteFileDirect(s, path, content, author, now, host).0;
            Closed(after) && Extends(s, after)
  {
    var s1, after := Ensured(s, path), WriteFileDirect(s, path, content, author, now, host).0;
    EnsuredCloses(s, path);
    CommitCloses(s1, Notified(WrittenBytes(s1, path, content, None, host), path, now), Some(content), after.log[|after.log| - 1]);
    ExtendsTransitive(s, s1, after);
  }

  lemma CreateCloses(s: Plane, path: Path, content: Text, host: Host)
    requires Closed(s)
    ensures Closed(CreateFile(s, path, content, host).0) && Extends(s, CreateFile(s, path, content, host).0)
  {
    if path !in s.world.disk {
      var s1, after := Ensured(s, path), CreateFile(s, path, content, host).0;
      EnsuredCloses(s, path);
      CommitCloses(s1, WrittenBytes(s1, path, Encode(content), None, host), Some(Encode(content)), after.log[|after.log| - 1]);
      ExtendsTransitive(s, s1, after);
    }
  }

  lemma DeleteCloses(s: Plane, path: Path, now: int)
    requires Closed(s)
    ensures Closed(DeleteFile(s, path, now).0) && Extends(s, DeleteFile(s, path, now).0)
  {
    var s1, after := Ensured(s, path), DeleteFile(s, path, now).0;
    EnsuredCloses(s, path);
    if after != s1 {
      var bytes := s1.world.disk[path].bytes;
      CommitCloses(s1, Notified(SetFile(s1, path, None), path, now), Some(bytes), after.log[|after.log| - 1]);
    }
    ExtendsTransitive(s, s1, after);
  }

  lemma RenameCloses(s: Plane, source: Path, target: Path)
    requires Closed(s)
    ensures Closed(RenameFile(s, source, target).0) && Extends(s, RenameFile(s, source, target).0)
  {
    if target !in s.world.disk {
      var s1 := Ensured(s, source);
      var s2, after := Ensured(s1, target), RenameFile(s, source, target).0;
      EnsuredCloses(s, source);
      EnsuredCloses(s1, target);
      ExtendsTransitive(s, s1, s2);
      if source in s2.world.disk {
        var file := s2.world.disk[source];
        CommitCloses(s2, SetFile(SetFile(s2, source, None), target, Some(file)), Some(file.bytes), after.log[|after.log| - 1]);
        ExtendsTransitive(s, s2, after);
      }
    }
  }

  lemma RevertCloses(s: Plane, path: Path, expected: Option<Digest>, now: int, host: Host)
    requires Closed(s)
    ensures var after := RevertFile(s, path, expected, now, host).0;
            Closed(after) && Extends(s, after)
  {
    var after := RevertFile(s, path, expected, now, host).0;
    if after != s {
      var b := FindBaseline(s.baselines, path).value;
      var r := after.log[|after.log| - 1];
      if b.existed {
        CommitCloses(s, after.(log := s.log), None, r);
      } else {
        CommitCloses(s, Notified(SetFile(s, path, None), path, now), Some(s.world.disk[path].bytes), r);
      }
    }
  }

  lemma {:induction false} MoveAllFrame(s: Plane, targets: seq<Target>, now: int, host: Host)
    ensures MoveAll(s, targets, now, host).plane == s.(world := MoveAll(s, targets, now, host).plane.world)
  {
    if targets != [] {
      MoveAllFrame(s, targets[..|targets| - 1], now, host);
    }
  }

  lemma RollbackCloses(s: Plane, force: bool, now: int, host: Host)
    requires Closed(s)
    ensures Closed(Rollback(s, force, now, host).0) && Extends(s, Rollback(s, force, now, host).0)
  {
    RestoreAllRestores(s, s.baselines, now, host);
    OnDiskOnly(s, Rollback(s, force, now, host).0);
  }

  lemma ObserveCloses(s: Plane, path: Path, kind: ObservedKind, author: Author)
    requires Closed(s)
    ensures Closed(RecordExternal(s, path, kind, author).0) && Extends(s, RecordExternal(s, path, kind, author).0)
  {
    CommitCloses(s, s, ObservedBytes(s, path, kind), RecordExternal(s, path, kind, author).1);
  }

  lemma TaskStepCloses(s: Plane, step: Step, lib: DiffLibrary, host: Host)
    requires Closed(s)
    ensures Closed(Perform(s, step, lib, host)) && Extends(s, Perform(s, step, lib, host))
  {
    match step
    case Patch(path, patch, baseHash, now) => PatchCloses(s, path, patch, baseHash, now, host);
    case Create(path, content) => CreateCloses(s, path, content, host);
    case WriteDirect(path, bytes, author, now) => WriteDirectCloses(s, path, bytes, author, now, host);
    case Delete(path, now) => DeleteCloses(s, path, now);
    case Rename(source, target) => RenameCloses(s, source, target);
    case Reject(path, key, expected, now) =>
      var next := RejectResult(s, path, key, expected, lib);
      if next.Ok? {
        WriteDirectCloses(s, path, Encode(next.value), User, now, host);
      }
    case Revert(path, expected, now) => RevertCloses(s, path, expected, now, host);
    case RollBack(force, now) => RollbackCloses(s, force, now, host);
    case OnDocument(doc) => OnDiskOnly(s, s.(world := Apply(s.world, doc, host)));
  }

  lemma AnyStepCloses(s: Plane, step: AnyStep, lib: DiffLibrary, host: Host)
    requires Closed(s)
    ensures Closed(PerformAny(s, step, lib, host)) && Extends(s, PerformAny(s, step, lib, host))
  {
    match step
    case ByTask(t) => TaskStepCloses(s, t, lib, host);
    case ToStates(targets, force, now) =>
      MoveAllFrame(s, targets, now, host);
      OnDiskOnly(s, RollbackToStates(s, targets, force, now, host).0);
    case Snapshot(path, bytes, mode) => AddBaselineCloses(s, path, bytes, mode);
    case Observe(path, kind, author) => ObserveCloses(s, path, kind, author);
    case Reconcile(path, kind, bytes) =>
      var s1 := AddBaseline(s, path, bytes, None);
      AddBaselineCloses(s, path, bytes, None);
      ObserveCloses(s1, path, kind, System);
      ExtendsTransitive(s, s1, RecordExternal(s1, path, kind, System).0);
  }

  /** Over every run whatsoever, each baseline and each logged version stays
      recoverable from the blob store, baselines are captured once and never
      change, the log only grows, and no blob's content ever changes. */
  lemma {:induction false} EverythingStaysRecoverable(s: Plane, steps: seq<AnyStep>, lib: DiffLibrary, host: Host)
    requires Closed(s)
    ensures Closed(RunAny(s, steps, lib, host)) && Extends(s, RunAny(s, steps, lib, host))
    decreases |steps|
  {
    if steps != [] {
      var next := PerformAny(s, steps[0], lib, host);
      AnyStepCloses(s, steps[0], lib, host);
      EverythingStaysRecoverable(next, steps[1..], lib, host);
      ExtendsTransitive(s, next, RunAny(s, steps, lib, host));
    }
  }

  // ----- Preflight with outside edits -----

  /** Preflight puts every touched path in exactly one list, in order of first touch. */
  lemma {:induction false} PreflightPartitions(s: Plane, baselines: seq<Baseline>, path: Path)
    requires Unique(baselines)
    ensures var p := PreflightOf(s, baselines);
            && |p.safe| + |p.alreadyBaseline| + |p.conflicts| == |baselines|
            && (path in p.safe <==> exists b <- baselines :: b.path == path && Classify(s, b) == Safe)
            && (path in p.alreadyBaseline <==> exists b <- baselines :: b.path == path && Classify(s, b) == AlreadyBaseline)
            && (path in ConflictPaths(p.conflicts) <==> exists b <- baselines :: b.path == path && Classify(s, b) == InConflict)
  {
    if baselines != [] {
      var n := |baselines| - 1;
      var rest, b := baselines[..n], baselines[n];
      PreflightPartitions(s, rest, path);
      assert baselines == rest + [b];
      var conflict := Conflict(b.path, DigestAt(s.world.disk, b.path), ExpectedHash(s, b.path));
      assert ConflictPaths(PreflightOf(s, rest).conflicts + [conflict]) == ConflictPaths(PreflightOf(s, rest).conflicts) + [b.path];
    }
  }

  /** A touched path is in conflict exactly when the log speaks of it and its
      disk content is neither what the log says nor the baseline. */
  lemma ConflictIff(s: Plane, path: Path)
    requires Unique(s.baselines)
    ensures path in ConflictPaths(RollbackPreflight(s).conflicts) <==>
            (Touched(s, path) && path in Expected(s.log)
             && DigestAt(s.world.disk, path) != Expected(s.log)[path]
             && DigestAt(s.world.disk, path) != BaselineHash(FindBaseline(s.baselines, path).value))
  {
    PreflightPartitions(s, s.baselines, path);
    if Touched(s, path) {
      FindUnique(s.baselines, FindBaseline(s.baselines, path).value);
      forall b <- s.baselines | b.path == path
        ensures b == FindBaseline(s.baselines, path).value
      {
        FindUnique(s.baselines, b);
      }
    }
  }

  /** In every closed state a rollback that runs restores every touched path
      and no other, and reports success for each. */
  lemma RollbackFromAnyState(s: Plane, force: bool, now: int, host: Host)
    requires Closed(s) && Rollback(s, force, now, host).1.Ok?
    ensures var (after, result) := Rollback(s, force, now, host);
            && result.value.ok
            && (forall b <- s.baselines ::
                  FileAt(after.world.disk, b.path) == RestoredFile(s, b, host) && Classify(after, b) == AlreadyBaseline)
            && (forall path | !Touched(s, path) :: FileAt(after.world.disk, path) == FileAt(s.world.disk, path))
  {
    RestoreAllRestores(s, s.baselines, now, host);
    var after := Rollback(s, force, now, host).0;
    forall b <- s.baselines
      ensures Classify(after, b) == AlreadyBaseline
    {
      assert FileAt(after.world.disk, b.path) == RestoredFile(s, b, host);
    }
    forall path | !Touched(s, path)
      ensures path !in PathsOf(s.baselines)
    {
    }
  }

  /** Somebody else's bytes at a path the log speaks of. */
  predicate Foreign(s: Plane, path: Path) {
    var current := DigestAt(s.world.disk, path);
    && Touched(s, path) && path in Expected(s.log)
    && current != Expected(s.log)[path] && current != BaselineHash(FindBaseline(s.baselines, path).value)
  }

  /** An unforced rollback is refused exactly when there are foreign bytes at a
      logged path; then nothing at all changes and exactly those paths are named.
      One that runs replaces nothing at a logged path but the task's own last
      version, or what is the baseline already. */
  lemma UnforcedRollbackSparesForeignEdits(s: Plane, now: int, host: Host)
    requires Closed(s)
    ensures var (after, result) := Rollback(s, false, now, host);
            && (result.Err? <==> exists path :: Foreign(s, path))
            && (result.Err? ==> after == s && result.error.RollbackConflict?
                                && forall path :: path in ConflictPaths(result.error.conflicts) <==> Foreign(s, path))
            && (result.Ok? ==> forall path | Touched(s, path) && path in Expected(s.log) ::
                  DigestAt(s.world.disk, path) == Expected(s.log)[path]
                  || DigestAt(s.world.disk, path) == BaselineHash(FindBaseline(s.baselines, path).value))
  {
    var conflicts := RollbackPreflight(s).conflicts;
    forall path
      ensures path in ConflictPaths(conflicts) <==> Foreign(s, path)
    {
      ConflictIff(s, path);
    }
    if conflicts != [] {
      assert ConflictPaths(conflicts)[0] in ConflictPaths(conflicts);
    } else {
      forall path | Touched(s, path) && path in Expected(s.log)
        ensures DigestAt(s.world.disk, path) == Expected(s.log)[path]
                || DigestAt(s.world.disk, path) == BaselineHash(FindBaseline(s.baselines, path).value)
      {
        assert !Foreign(s, path);
      }
    }
  }

  /** What an unforced rollback may destroy: bytes at a path are lost without
      warning exactly when the path was touched but never logged, for then
      preflight takes whatever it finds there for the task's own work. */
  lemma UnloggedPathIsUnprotected(s: Plane, path: Path)
    requires Unique(s.baselines) && Touched(s, path)
    requires DigestAt(s.world.disk, path) != BaselineHash(FindBaseline(s.baselines, path).value)
    requires path in Expected(s.log) ==> DigestAt(s.world.disk, path) != Expected(s.log)[path]
    ensures path in ConflictPaths(RollbackPreflight(s).conflicts) <==> path in Expected(s.log)
  {
    ConflictIff(s, path);
  }

  /** How a path comes to be touched and unlogged: any patch that is refused
      after its target was first captured. */
  lemma RefusedPatchTouches(s: Plane, path: Path, patch: Text -> Option<Text>, baseHash: Digest, now: int, host: Host)
    requires ApplyPatch(s, path, patch, baseHash, now, host).1.Err?
    ensures Touched(ApplyPatch(s, path, patch, baseHash, now, host).0, path)
    ensures ApplyPatch(s, path, patch, baseHash, now, host).0.log == s.log
    ensures ApplyPatch(s, path, patch, baseHash, now, host).0.world.disk == s.world.disk
    ensures ApplyPatch(s, path, patch, baseHash, now, host).0.baselines == Ensured(s, path).baselines
  {
    var s1 := Ensured(s, path);
    FindAppended(s.baselines, Captured(s.world.disk, path), path);
    var result := PatchResult(s1, path, patch, baseHash);
    if result.Ok? {
      PatchedContent(s1, path, result.value, now, host);
    }
  }

  /** A task that logged nothing is rolled back whatever the disk says. */
  lemma UnloggedTaskRollsBack(start: Disk, s: Plane, path: Path, now: int, host: Host)
    requires Closed(s) && s.log == [] && s.baselines == [Captured(start, path)]
    ensures var (after, result) := Rollback(s, false, now, host);
            result.Ok? && result.value.ok && FileAt(after.world.disk, path) == FileAt(start, path)
  {
    var b := s.baselines[0];
    UnforcedRollbackSparesForeignEdits(s, now, host);
    RollbackFromAnyState(s, false, now, host);
    assert b in s.baselines && WellRecorded(s.blobs, b);
    if b.existed {
      assert Sha(s.blobs[b.blobHash.value]) == b.blobHash.value;
    }
  }

  /** The whole accident: a task whose only act was a refused patch, somebody
      else writes the file, and an unforced rollback takes their version away
      without a warning. */
  lemma RefusedPatchCostsForeignEdit(world: World, blobs: Blobs, path: Path, patch: Text -> Option<Text>, baseHash: Digest,
                                     theirs: File, now: int, later: int, lib: DiffLibrary, host: Host)
    requires Intact(blobs) && ApplyPatch(Begin(world, blobs), path, patch, baseHash, now, host).1.Err?
    ensures var refused := ApplyPatch(Begin(world, blobs), path, patch, baseHash, now, host).0;
            var edited := Perform(refused, OnDocument(OutsideWrite(path, theirs)), lib, host);
            var (after, result) := Rollback(edited, false, later, host);
            && FileAt(edited.world.disk, path) == Some(theirs)
            && result.Ok? && result.value.ok && FileAt(after.world.disk, path) == FileAt(world.disk, path)
  {
    FirstRefusalLeaves(world, blobs, path, patch, baseHash, now, host);
    ForeignEditIsLost(world.disk, ApplyPatch(Begin(world, blobs), path, patch, baseHash, now, host).0, path, theirs, later, lib, host);
  }

  lemma FirstRefusalLeaves(world: World, blobs: Blobs, path: Path, patch: Text -> Option<Text>, baseHash: Digest, now: int, host: Host)
    requires Intact(blobs) && ApplyPatch(Begin(world, blobs), path, patch, baseHash, now, host).1.Err?
    ensures var refused := ApplyPatch(Begin(world, blobs), path, patch, baseHash, now, host).0;
            Closed(refused) && refused.log == [] && refused.baselines == [Captured(world.disk, path)]
  {
    RefusedPatchTouches(Begin(world, blobs), path, patch, baseHash, now, host);
    PatchCloses(Begin(world, blobs), path, patch, baseHash, now, host);
  }

  lemma ForeignEditIsLost(start: Disk, refused: Plane, path: Path, theirs: File, now: int, lib: DiffLibrary, host: Host)
    requires Closed(refused) && refused.log == [] && refused.baselines == [Captured(start, path)]
    ensures var edited := Perform(refused, OnDocument(OutsideWrite(path, theirs)), lib, host);
            var (after, result) := Rollback(edited, false, now, host);
            && FileAt(edited.world.disk, path) == Some(theirs)
            && result.Ok? && result.value.ok && FileAt(after.world.disk, path) == FileAt(start, path)
  {
    var edited := Perform(refused, OnDocument(OutsideWrite(path, theirs)), lib, host);
    OnDiskOnly(refused, edited);
    UnloggedTaskRollsBack(start, edited, path, now, host);
  }

  /** Where a task's first patch of a marked document leaves it: the file holds
      the new text behind a mark, the log speaks of the text alone, and the two
      are foreign to each other as soon as the patch changed anything. */
  lemma MarkedPatchIsForeign(world: World, blobs: Blobs, path: Path, patch: Text -> Option<Text>, baseHash: Digest, now: int, host: Host)
    requires Intact(blobs) && path in world.docs && world.docs[path].encoding == WithBom && path in world.disk
    requires ApplyPatch(Begin(world, blobs), path, patch, baseHash, now, host).1.Ok?
    ensures var patched := ApplyPatch(Begin(world, blobs), path, patch, baseHash, now, host).0;
            && Closed(patched) && patch(world.docs[path].content).Some?
            && var next := patch(world.docs[path].content).value;
               BytesAt(patched.world.disk, path) == Some(Encode([BOM] + next))
               && (Foreign(patched, path) <==> world.disk[path].bytes != Encode([BOM] + next))
  {
    var next := patch(world.docs[path].content).value;
    FirstPatchLeaves(world, blobs, path, patch, baseHash, now, host);
    MarkedDiffers(next);
    OneWriteIsForeign(ApplyPatch(Begin(world, blobs), path, patch, baseHash, now, host).0, Captured(world.disk, path),
                      Record(path, Modified, Some(baseHash), Some(ShaText(next)), None, Agent));
  }

  lemma OneWriteIsForeign(s: Plane, b: Baseline, r: Record)
    requires s.baselines == [b] && s.log == [] + [r] && r.kind == Modified && r.path == b.path
    ensures Foreign(s, b.path)
            <==> DigestAt(s.world.disk, b.path) != r.afterHash && DigestAt(s.world.disk, b.path) != BaselineHash(b)
  {
    ExpectedAppended([], r);
  }

  lemma FirstPatchLeaves(world: World, blobs: Blobs, path: Path, patch: Text -> Option<Text>, baseHash: Digest, now: int, host: Host)
    requires Intact(blobs) && path in world.docs && world.docs[path].encoding == WithBom && path in world.disk
    requires ApplyPatch(Begin(world, blobs), path, patch, baseHash, now, host).1.Ok?
    ensures var patched := ApplyPatch(Begin(world, blobs), path, patch, baseHash, now, host).0;
            && Closed(patched) && patch(world.docs[path].content).Some?
            && var next := patch(world.docs[path].content).value;
               && BytesAt(patched.world.disk, path) == Some(Encode([BOM] + next))
               && patched.baselines == [Captured(world.disk, path)]
               && patched.log == [] + [Record(path, Modified, Some(baseHash), Some(ShaText(next)), None, Agent)]
  {
    var s := Begin(world, blobs);
    PatchCloses(s, path, patch, baseHash, now, host);
    PatchedContent(Ensured(s, path), path, PatchResult(Ensured(s, path), path, patch, baseHash).value, now, host);
  }

  /** So a task that opened a marked file and patched it cannot be rolled back
      without force, although nobody else wrote anything. */
  lemma MarkedPatchBlocksRollback(disk: Disk, blobs: Blobs, path: Path, text: Text, next: Text, now: int, later: int, host: Host)
    requires Intact(blobs) && path in disk && disk[path].bytes == Encode([BOM] + text) && next != text
    requires !LooksBinary(disk[path].bytes) && |disk[path].bytes| <= host.maxEditableBytes
    ensures var begun := Apply(World(disk, map[]), Open(path, true), host);
            var (patched, result) := ApplyPatch(Begin(begun, blobs), path, _ => Some(next), ShaText(text), now, host);
            var (after, refused) := Rollback(patched, false, later, host);
            && result.Ok? && refused.Err? && after == patched
            && refused.error.RollbackConflict? && path in ConflictPaths(refused.error.conflicts)
  {
    DecodeEncode([BOM] + text);
    assert ([BOM] + text)[1..] == text;
    var begun := Apply(World(disk, map[]), Open(path, true), host);
    var patch := (_: Text) => Some(next);
    assert begun.docs[path].content == text && begun.docs[path].encoding == WithBom;
    PatchOfCleanDocument(Begin(begun, blobs), path, patch, now, host);
    MarkedPatchIsForeign(begun, blobs, path, patch, ShaText(text), now, host);
    var patched := ApplyPatch(Begin(begun, blobs), path, patch, ShaText(text), now, host).0;
    DecodeEncode([BOM] + next);
    assert ([BOM] + next)[1..] == next;
    UnforcedRollbackSparesForeignEdits(patched, later, host);
  }

  /** A patch made for the buffer of an undisturbed document goes through. */
  lemma PatchOfCleanDocument(s: Plane, path: Path, patch: Text -> Option<Text>, now: int, host: Host)
    requires path in s.world.docs && path in s.world.disk
    requires var doc := s.world.docs[path];
             && !doc.binary && !doc.readonly && doc.externalState == Clean
             && doc.diskHash == Some(Sha(s.world.disk[path].bytes)) && patch(doc.content).Some?
    ensures ApplyPatch(s, path, patch, s.world.docs[path].contentHash, now, host).1.Ok?
  {
    var next := patch(s.world.docs[path].content).value;
    var edited := EditAt(s.world, path, next);
    assert edited.disk == s.world.disk && edited.docs[path].diskHash == s.world.docs[path].diskHash;
  }

  // ----- Failures and stale requests -----

  function ErrorFrom(s: Plane, step: Step, lib: DiffLibrary, host: Host): Option<ChangeError> {
    match step
    case Patch(path, patch, baseHash, now) => ErrorOf(ApplyPatch(s, path, patch, baseHash, now, host).1)
    case Create(path, content) => ErrorOf(CreateFile(s, path, content, host).1)
    case Delete(path, now) => ErrorOf(DeleteFile(s, path, now).1)
    case Rename(source, target) => ErrorOf(RenameFile(s, source, target).1)
    case Reject(path, key, expected, now) => ErrorOf(RejectHunk(s, path, key, expected, lib, now, host).1)
    case Revert(path, expected, now) => ErrorOf(RevertFile(s, path, expected, now, host).1)
    case RollBack(force, now) => ErrorOf(Rollback(s, force, now, host).1)
    case _ => None
  }

  function ErrorOf<T>(r: Result<T>): Option<ChangeError> {
    if r.Err? then Some(r.error) else None
  }

  /** A step that reports an error has written nothing to disk and logged
      nothing; at most it captured a baseline or updated an open buffer. */
  lemma FailedStepWritesNothing(s: Plane, step: Step, lib: DiffLibrary, host: Host)
    requires ErrorFrom(s, step, lib, host).Some?
    ensures var after := Perform(s, step, lib, host);
            after.world.disk == s.world.disk && after.log == s.log
  {
    match step
    case Patch(path, patch, baseHash, now) =>
      var result := PatchResult(Ensured(s, path), path, patch, baseHash);
      if result.Ok? {
        PatchedContent(Ensured(s, path), path, result.value, now, host);
      }
    case _ =>
  }

  /** Patches protect newer edits: one that succeeds on a closed file was made
      for the very text it replaces, and leaves its result there. */
  lemma PatchReplacesWhatItWasMadeFor(s: Plane, path: Path, patch: Text -> Option<Text>, baseHash: Digest, now: int, host: Host)
    requires path !in s.world.docs && ApplyPatch(s, path, patch, baseHash, now, host).1.Ok?
    ensures path in s.world.disk
    ensures var text := LogicalText(s.world.disk[path].bytes);
            && baseHash == ShaText(text) && patch(text).Some?
            && FileAt(ApplyPatch(s, path, patch, baseHash, now, host).0.world.disk, path)
               == Some(File(Encode(patch(text).value), s.world.disk[path].mode))
  {
  }

  /** On an open document it was made for the buffer, and never overwrites a
      file version the document has not seen; but the file's mode is reset. */
  lemma PatchOfOpenDocument(s: Plane, path: Path, patch: Text -> Option<Text>, baseHash: Digest, now: int, host: Host)
    requires path in s.world.docs && ApplyPatch(s, path, patch, baseHash, now, host).1.Ok?
    ensures var doc, after := s.world.docs[path], ApplyPatch(s, path, patch, baseHash, now, host).0;
            && doc.contentHash == baseHash && doc.externalState != ExternallyModified
            && (path in s.world.disk && doc.diskHash.Some? ==> doc.diskHash.value == Sha(s.world.disk[path].bytes))
            && path in after.world.disk && after.world.disk[path].mode == host.newFileMode
  {
    var s1 := Ensured(s, path);
    SavedThrough(s1, path, PatchResult(s1, path, patch, baseHash).value, now, host);
  }

  lemma SavedThrough(s: Plane, path: Path, next: Text, now: int, host: Host)
    requires path in s.world.docs && WroteThrough(s, path, next, now, host).1.None?
    ensures var doc, after := s.world.docs[path], WroteThrough(s, path, next, now, host).0;
            && doc.externalState != ExternallyModified
            && (path in s.world.disk && doc.diskHash.Some? ==> doc.diskHash.value == Sha(s.world.disk[path].bytes))
            && path in after.world.disk && after.world.disk[path].mode == host.newFileMode
  {
    var doc, edited := s.world.docs[path], EditAt(s.world, path, next);
    assert edited.disk == s.world.disk;
    assert edited.docs[path].externalState == doc.externalState && edited.docs[path].diskHash == doc.diskHash;
  }

  // ----- File-by-file undo agrees with rollback -----

  function RevertEach(s: Plane, paths: seq<Path>, now: int, host: Host): Plane
    decreases |paths|
  {
    if paths == [] then s else RevertEach(RevertFile(s, paths[0], None, now, host).0, paths[1..], now, host)
  }

  /** Reverting one touched file puts its baseline bytes back and leaves every other file alone. */
  lemma RevertOne(s: Plane, path: Path, now: int, host: Host)
    requires Closed(s) && Touched(s, path)
    ensures var after := RevertFile(s, path, None, now, host).0;
            && BytesAt(after.world.disk, path) == BaselineBytes(s, FindBaseline(s.baselines, path).value)
            && (forall other | other != path :: FileAt(after.world.disk, other) == FileAt(s.world.disk, other))
            && after.baselines == s.baselines
  {
    var b := FindBaseline(s.baselines, path).value;
    assert WellRecorded(s.blobs, b);
    if b.existed {
      assert Sha(s.blobs[b.blobHash.value]) == b.blobHash.value;
    }
  }

  lemma {:induction false} RevertEachReverts(s: Plane, paths: seq<Path>, now: int, host: Host)
    requires Closed(s)
    requires forall path <- paths :: FindBaseline(s.baselines, path).Some?
    ensures var after := RevertEach(s, paths, now, host);
            && after.baselines == s.baselines && Closed(after) && Extends(s, after)
            && (forall path <- paths ::
                  BytesAt(after.world.disk, path) == BaselineBytes(s, FindBaseline(s.baselines, path).value))
            && (forall path | path !in paths :: FileAt(after.world.disk, path) == FileAt(s.world.disk, path))
    decreases |paths|
  {
    if paths != [] {
      var path, rest := paths[0], paths[1..];
      var next := RevertFile(s, path, None, now, host).0;
      assert forall p <- rest :: p in paths;
      RevertOne(s, path, now, host);
      RevertCloses(s, path, None, now, host);
      RevertEachReverts(next, rest, now, host);
      ExtendsTransitive(s, next, RevertEach(s, paths, now, host));
      forall p <- paths
        ensures BytesAt(RevertEach(s, paths, now, host).world.disk, p)
                == BaselineBytes(s, FindBaseline(s.baselines, p).value)
      {
        var b := FindBaseline(s.baselines, p).value;
        assert WellRecorded(s.blobs, b) && BaselineBytes(next, b) == BaselineBytes(s, b);
        if p !in rest {
          assert FileAt(RevertEach(next, rest, now, host).world.disk, p) == FileAt(next.world.disk, p);
        }
      }
    }
  }

  /** Confluence: reverting the touched files one at a time, in any order and
      any number of times, ends with the same contents as one rollback, and
      every path then counts as already at its baseline. */
  lemma RevertingEachEqualsRollback(s: Plane, paths: seq<Path>, now: int, host: Host)
    requires Closed(s)
    requires forall path :: path in paths <==> Touched(s, path)
    ensures var reverted, rolled := RevertEach(s, paths, now, host), Rollback(s, true, now, host).0;
            && (forall path :: BytesAt(reverted.world.disk, path) == BytesAt(rolled.world.disk, path))
            && (forall b <- reverted.baselines :: Classify(reverted, b) == AlreadyBaseline)
  {
    RevertEachReverts(s, paths, now, host);
    var reverted := RevertEach(s, paths, now, host);
    forall path
      ensures BytesAt(reverted.world.disk, path) == BytesAt(Rollback(s, true, now, host).0.world.disk, path)
    {
      RolledBackBytes(s, path, now, host);
      assert path !in paths ==> FileAt(reverted.world.disk, path) == FileAt(s.world.disk, path);
    }
    forall b <- reverted.baselines
      ensures Classify(reverted, b) == AlreadyBaseline
    {
      FindUnique(s.baselines, b);
      assert b.path in paths && WellRecorded(s.blobs, b);
      assert BytesAt(reverted.world.disk, b.path) == BaselineBytes(s, b);
    }
  }

  /** What a forced rollback leaves at a path. */
  lemma RolledBackBytes(s: Plane, path: Path, now: int, host: Host)
    requires Closed(s)
    ensures BytesAt(Rollback(s, true, now, host).0.world.disk, path)
            == if Touched(s, path) then BaselineBytes(s, FindBaseline(s.baselines, path).value) else BytesAt(s.world.disk, path)
  {
    RollbackFromAnyState(s, true, now, host);
    var rolled := Rollback(s, true, now, host).0;
    if Touched(s, path) {
      var b := FindBaseline(s.baselines, path).value;
      assert FileAt(rolled.world.disk, path) == RestoredFile(s, b, host) && WellRecorded(s.blobs, b);
    } else {
      assert FileAt(rolled.world.disk, path) == FileAt(s.world.disk, path);
    }
  }

  /** Contents agree, modes need not: a file whose content is already right is
      skipped by the revert, while rollback also restores its mode. */
  lemma RevertSkipsMode(s: Plane, path: Path, now: int, host: Host)
    requires Closed(s) && Touched(s, path) && path in s.world.disk
    ensures var b := FindBaseline(s.baselines, path).value;
            DigestAt(s.world.disk, path) == BaselineHash(b) ==>
              FileAt(RevertFile(s, path, None, now, host).0.world.disk, path) == FileAt(s.world.disk, path)
              && (FileAt(Rollback(s, true, now, host).0.world.disk, path) == FileAt(s.world.disk, path)
                  <==> (b.mode.Some? ==> b.mode.value == s.world.disk[path].mode))
  {
    var b := FindBaseline(s.baselines, path).value;
    RollbackFromAnyState(s, true, now, host);
    if DigestAt(s.world.disk, path) == BaselineHash(b) {
      assert WellRecorded(s.blobs, b);
      assert Sha(s.blobs[b.blobHash.value]) == b.blobHash.value;
    }
  }
}
