/** Safety of one task's changes over whole runs: with no outside edits every
    path stays accounted for, and rollback returns the exact starting disk. */
module ChangeRuns {
  import opened Changes
  import opened Content
  import opened Documents
  import opened Storage
  import opened Utf8
  import Hunks

  // ----- Steps of one task -----

  datatype Step =
    | Patch(path: Path, patch: Text -> Option<Text>, baseHash: Digest, now: int)
    | Create(path: Path, content: Text)
    | WriteDirect(path: Path, bytes: Bytes, author: Author, now: int)
    | Delete(path: Path, now: int)
    | Rename(source: Path, target: Path)
    | Reject(path: Path, key: Hunks.Key, expected: Digest, now: int)
    | Revert(path: Path, expectedNow: Option<Digest>, now: int)
    | RollBack(force: bool, now: int)
    | OnDocument(step: DocStep)

  function Perform(s: Plane, step: Step, lib: DiffLibrary, host: Host): Plane {
    match step
    case Patch(path, patch, baseHash, now) => ApplyPatch(s, path, patch, baseHash, now, host).0
    case Create(path, content) => CreateFile(s, path, content, host).0
    case WriteDirect(path, bytes, author, now) => WriteFileDirect(s, path, bytes, author, now, host).0
    case Delete(path, now) => DeleteFile(s, path, now).0
    case Rename(source, target) => RenameFile(s, source, target).0
    case Reject(path, key, expected, now) => RejectHunk(s, path, key, expected, lib, now, host).0
    case Revert(path, expected, now) => RevertFile(s, path, expected, now, host).0
    case RollBack(force, now) => Rollback(s, force, now, host).0
    case OnDocument(doc) => s.(world := Apply(s.world, doc, host))
  }

  /** Document events that write nothing to disk. */
  predicate Quiet(step: DocStep) {
    !step.Save? && !step.OutsideWrite? && !step.OutsideDelete?
  }

  /** No outside edit, and no patch of a document open with a byte-order mark. */
  predicate Allowed(s: Plane, step: Step) {
    match step
    case Patch(path, _, _, _) => path in s.world.docs ==> s.world.docs[path].encoding == Plain
    case OnDocument(doc) => Quiet(doc)
    case _ => true
  }

  function Run(s: Plane, steps: seq<Step>, lib: DiffLibrary, host: Host): Plane
    decreases |steps|
  {
    if steps == [] then s else Run(Perform(s, steps[0], lib, host), steps[1..], lib, host)
  }

  predicate AllowedRun(s: Plane, steps: seq<Step>, lib: DiffLibrary, host: Host)
    decreases |steps|
  {
    steps == [] || (Allowed(s, steps[0]) && AllowedRun(Perform(s, steps[0], lib, host), steps[1..], lib, host))
  }

  // ----- The run invariant -----

  predicate Unique(baselines: seq<Baseline>) {
    forall i, j | 0 <= i < j < |baselines| :: baselines[i].path != baselines[j].path
  }

  /** The disk at a path is what the log says, or the pre-task state. */
  predicate Explained(s: Plane, path: Path) {
    var current := DigestAt(s.world.disk, path);
    var expected := Expected(s.log);
    var b := FindBaseline(s.baselines, path);
    (path in expected && expected[path] == current) || (b.Some? && current == BaselineHash(b.value))
  }

  ghost predicate Accounted(start: Disk, s: Plane) {
    && Unique(s.baselines)
    && Intact(s.blobs)
    && (forall b <- s.baselines :: b == Captured(start, b.path) && Resolves(s.blobs, b.blobHash))
    && (forall path :: !Touched(s, path) ==> FileAt(s.world.disk, path) == FileAt(start, path))
    && (forall path :: Touched(s, path) ==> Explained(s, path))
    && (forall path <- Expected(s.log) :: Touched(s, path))
  }

  lemma {:induction false} FindAppended(baselines: seq<Baseline>, b: Baseline, path: Path)
    ensures FindBaseline(baselines + [b], path) ==
            if FindBaseline(baselines, path).Some? then FindBaseline(baselines, path)
            else if b.path == path then Some(b) else None
  {
    if baselines == [] {
      assert [] + [b] == [b];
    } else {
      assert (baselines + [b])[1..] == baselines[1..] + [b];
      FindAppended(baselines[1..], b, path);
    }
  }

  lemma EnsuredKeeps(start: Disk, s: Plane, path: Path)
    requires Accounted(start, s)
    ensures Accounted(start, Ensured(s, path)) && Touched(Ensured(s, path), path)
  {
    if !Touched(s, path) {
      var b, after := Captured(s.world.disk, path), Ensured(s, path);
      assert FileAt(s.world.disk, path) == FileAt(start, path);
      if path in s.world.disk {
        PutKeepsBlobs(s.blobs, s.world.disk[path].bytes);
      }
      assert after.baselines == s.baselines + [b];
      forall other
        ensures FindBaseline(after.baselines, other) == if other == path then Some(b) else FindBaseline(s.baselines, other)
      {
        FindAppended(s.baselines, b, other);
      }
      forall other | Touched(after, other)
        ensures Explained(after, other)
      {
        assert other != path ==> Touched(s, other) && Explained(s, other);
      }
    }
  }

  lemma {:induction false} FindUnique(baselines: seq<Baseline>, b: Baseline)
    requires Unique(baselines) && b in baselines
    ensures FindBaseline(baselines, b.path) == Some(b)
  {
    if baselines[0] != b {
      FindUnique(baselines[1..], b);
    }
  }

  /** A change keeps the account when it only touches baselined paths and the
      log predicts the new content of each. */
  lemma CommitKeeps(start: Disk, s: Plane, after: Plane, changed: set<Path>)
    requires Accounted(start, s)
    requires after.baselines == s.baselines
    requires Grows(s.blobs, after.blobs) && Intact(after.blobs)
    requires forall path <- changed :: Touched(s, path)
    requires forall path <- changed ::
               path in Expected(after.log) && Expected(after.log)[path] == DigestAt(after.world.disk, path)
    requires forall path | path !in changed :: FileAt(after.world.disk, path) == FileAt(s.world.disk, path)
    requires forall path | path !in changed ::
               (path in Expected(after.log) <==> path in Expected(s.log))
               && (path in Expected(s.log) ==> Expected(after.log)[path] == Expected(s.log)[path])
    ensures Accounted(start, after)
  {
    forall path
      ensures Touched(after, path) <==> Touched(s, path)
      ensures Touched(after, path) ==> Explained(after, path)
      ensures !Touched(after, path) ==> FileAt(after.world.disk, path) == FileAt(start, path)
    {
      if path !in changed {
        assert DigestAt(after.world.disk, path) == DigestAt(s.world.disk, path)
          by { assert FileAt(after.world.disk, path) == FileAt(s.world.disk, path); }
      }
    }
  }

  lemma ExpectedAppended(log: seq<Record>, r: Record)
    ensures var earlier := Expected(log);
            Expected(log + [r]) ==
            match r.kind
            case Created => earlier[r.path := r.afterHash]
            case Modified => earlier[r.path := r.afterHash]
            case Deleted => earlier[r.path := None]
            case Renamed =>
              var moved := earlier[r.path := None];
              if r.renameTo.Some? then moved[r.renameTo.value := r.afterHash] else moved
  {
    assert (log + [r])[..|log|] == log;
  }

  /** A write, a removal and their log record, on one baselined path. */
  lemma WriteKeeps(start: Disk, s: Plane, after: Plane, path: Path, r: Record)
    requires Accounted(start, s) && Touched(s, path)
    requires after.baselines == s.baselines && after.log == s.log + [r]
    requires Grows(s.blobs, after.blobs) && Intact(after.blobs)
    requires forall other | other != path :: FileAt(after.world.disk, other) == FileAt(s.world.disk, other)
    requires r.path == path && r.kind != Renamed && (r.kind == Deleted ==> r.afterHash.None?)
    requires r.afterHash == DigestAt(after.world.disk, path)
    ensures Accounted(start, after)
  {
    ExpectedAppended(s.log, r);
    CommitKeeps(start, s, after, {path});
  }

  // ----- Every operation keeps the account -----

  lemma PatchKeeps(start: Disk, s: Plane, path: Path, patch: Text -> Option<Text>, baseHash: Digest, now: int, host: Host)
    requires Accounted(start, s)
    requires path in s.world.docs ==> s.world.docs[path].encoding == Plain
    ensures Accounted(start, ApplyPatch(s, path, patch, baseHash, now, host).0)
  {
    var s1 := Ensured(s, path);
    EnsuredKeeps(start, s, path);
    match PatchResult(s1, path, patch, baseHash)
    case Err(_) =>
    case Ok(next) =>
      var (s2, failure) := WroteThrough(s1, path, next, now, host);
      var after := ApplyPatch(s, path, patch, baseHash, now, host).0;
      PutKeepsBlobs(s2.blobs, Encode(next));
      PatchedContent(s1, path, next, now, host);
      if failure.Some? {
        CommitKeeps(start, s1, s2, {});
      } else {
        WriteKeeps(start, s1, after, path, Record(path, Modified, Some(baseHash), Some(ShaText(next)), None, Agent));
      }
  }

  /** What a write through the store leaves on disk: nothing new when it fails,
      else the text, behind a byte-order mark when the document carries one. */
  lemma PatchedContent(s: Plane, path: Path, next: Text, now: int, host: Host)
    ensures var (after, failure) := WroteThrough(s, path, next, now, host);
            && (failure.Some? ==> after.world.disk == s.world.disk)
            && (failure.None? ==>
                  var marked := path in s.world.docs && s.world.docs[path].encoding == WithBom;
                  BytesAt(after.world.disk, path) == Some(Encode(if marked then [BOM] + next else next))
                  && forall other | other != path :: FileAt(after.world.disk, other) == FileAt(s.world.disk, other))
            && after == s.(world := after.world)
  {
    if path in s.world.docs {
      var edited := EditAt(s.world, path, next);
      assert edited.disk == s.world.disk;
      assert "" + next == next;
    }
  }

  lemma CreateKeeps(start: Disk, s: Plane, path: Path, content: Text, host: Host)
    requires Accounted(start, s)
    ensures Accounted(start, CreateFile(s, path, content, host).0)
  {
    if path !in s.world.disk {
      var s1 := Ensured(s, path);
      EnsuredKeeps(start, s, path);
      PutKeepsBlobs(s1.blobs, Encode(content));
      WriteKeeps(start, s1, CreateFile(s, path, content, host).0, path,
                 Record(path, Created, None, Some(ShaText(content)), None, Agent));
    }
  }

  lemma WriteDirectKeeps(start: Disk, s: Plane, path: Path, bytes: Bytes, author: Author, now: int, host: Host)
    requires Accounted(start, s)
    ensures Accounted(start, WriteFileDirect(s, path, bytes, author, now, host).0)
  {
    var s1 := Ensured(s, path);
    EnsuredKeeps(start, s, path);
    PutKeepsBlobs(s1.blobs, bytes);
    var after := WriteFileDirect(s, path, bytes, author, now, host).0;
    WriteKeeps(start, s1, after, path, after.log[|after.log| - 1]);
  }

  lemma DeleteKeeps(start: Disk, s: Plane, path: Path, now: int)
    requires Accounted(start, s)
    ensures Accounted(start, DeleteFile(s, path, now).0)
  {
    var s1 := Ensured(s, path);
    EnsuredKeeps(start, s, path);
    if ReadLogicalAt(s1.world, path).Some? && path in s1.world.disk {
      var bytes := s1.world.disk[path].bytes;
      PutKeepsBlobs(s1.blobs, bytes);
      WriteKeeps(start, s1, DeleteFile(s, path, now).0, path, Record(path, Deleted, Some(Sha(bytes)), None, None, Agent));
    }
  }

  lemma RenameKeeps(start: Disk, s: Plane, source: Path, target: Path)
    requires Accounted(start, s)
    ensures Accounted(start, RenameFile(s, source, target).0)
  {
    if target !in s.world.disk {
      var s1 := Ensured(Ensured(s, source), target);
      EnsuredKeeps(start, s, source);
      EnsuredKeeps(start, Ensured(s, source), target);
      if source in s1.world.disk {
        FindStays(Ensured(s, source), target, source);
        MoveKeeps(start, s1, source, target);
      }
    }
  }

  lemma MoveKeeps(start: Disk, s: Plane, source: Path, target: Path)
    requires Accounted(start, s) && Touched(s, source) && Touched(s, target)
    requires source in s.world.disk && target !in s.world.disk
    ensures var file := s.world.disk[source];
            var r := Record(source, Renamed, Some(Sha(file.bytes)), Some(Sha(file.bytes)), Some(target), Agent);
            Accounted(start, Logged(SetFile(SetFile(Put(s, file.bytes), source, None), target, Some(file)), r))
  {
    var file := s.world.disk[source];
    var r := Record(source, Renamed, Some(Sha(file.bytes)), Some(Sha(file.bytes)), Some(target), Agent);
    var after := Logged(SetFile(SetFile(Put(s, file.bytes), source, None), target, Some(file)), r);
    PutKeepsBlobs(s.blobs, file.bytes);
    ExpectedAppended(s.log, r);
    CommitKeeps(start, s, after, {source, target});
  }

  lemma FindStays(s: Plane, path: Path, other: Path)
    ensures Touched(s, other) ==> FindBaseline(Ensured(s, path).baselines, other) == FindBaseline(s.baselines, other)
  {
    FindAppended(s.baselines, Captured(s.world.disk, path), other);
  }

  lemma RevertKeeps(start: Disk, s: Plane, path: Path, expected: Option<Digest>, now: int, host: Host)
    requires Accounted(start, s)
    ensures Accounted(start, RevertFile(s, path, expected, now, host).0)
  {
    var after := RevertFile(s, path, expected, now, host).0;
    if after != s {
      var b := FindBaseline(s.baselines, path).value;
      if b.existed {
        WriteKeeps(start, s, after, path, after.log[|after.log| - 1]);
      } else {
        PutKeepsBlobs(s.blobs, s.world.disk[path].bytes);
        WriteKeeps(start, s, after, path, after.log[|after.log| - 1]);
      }
    }
  }

  // ----- Rollback -----

  /** The file a baseline restores over a disk, when its blob is there. */
  function RestoredFile(s: Plane, b: Baseline, host: Host): Option<File> {
    if !b.existed || BaselineBytes(s, b).None? then None
    else Some(File(BaselineBytes(s, b).value, WriteMode(s.world.disk, b.path, b.mode, host)))
  }

  predicate Restorable(blobs: Blobs, b: Baseline) {
    b.existed ==> b.blobHash.Some? && b.blobHash.value in blobs
  }

  lemma RestoreOneRestores(s: Plane, r: Restoration, b: Baseline, now: int, host: Host)
    requires r.plane == s.(world := r.plane.world) && Intact(s.blobs) && Restorable(s.blobs, b)
    requires FileAt(r.plane.world.disk, b.path) == FileAt(s.world.disk, b.path)
    ensures var next := RestoreOne(r, b, now, host);
            && next.plane == s.(world := next.plane.world)
            && FileAt(next.plane.world.disk, b.path) == RestoredFile(s, b, host)
            && (forall path | path != b.path :: FileAt(next.plane.world.disk, path) == FileAt(r.plane.world.disk, path))
            && next.restored == r.restored + [b.path]
            && next.verified == r.verified + [Verified(b.path, true)]
  {
  }

  function PathsOf(baselines: seq<Baseline>): seq<Path> {
    seq(|baselines|, i requires 0 <= i < |baselines| => baselines[i].path)
  }

  function AllVerified(baselines: seq<Baseline>): seq<Verified> {
    seq(|baselines|, i requires 0 <= i < |baselines| => Verified(baselines[i].path, true))
  }

  /** Restoring baselines with intact blobs succeeds on every path, restores
      each to its own file, leaves every other path alone, and changes nothing
      but the disk and the open documents. */
  lemma {:induction false} RestoreAllRestores(s: Plane, baselines: seq<Baseline>, now: int, host: Host)
    requires Unique(baselines) && Intact(s.blobs)
    requires forall b <- baselines :: Restorable(s.blobs, b)
    ensures var r := RestoreAll(s, baselines, now, host);
            && r.plane == s.(world := r.plane.world)
            && (forall b <- baselines :: FileAt(r.plane.world.disk, b.path) == RestoredFile(s, b, host))
            && (forall path | path !in PathsOf(baselines) :: FileAt(r.plane.world.disk, path) == FileAt(s.world.disk, path))
            && r.restored == PathsOf(baselines) && r.verified == AllVerified(baselines) && AllOk(r.verified)
  {
    if baselines != [] {
      var n := |baselines| - 1;
      var rest, b := baselines[..n], baselines[n];
      RestoreAllRestores(s, rest, now, host);
      var r := RestoreAll(s, rest, now, host);
      assert baselines == rest + [b];
      assert PathsOf(baselines) == PathsOf(rest) + [b.path];
      assert AllVerified(baselines) == AllVerified(rest) + [Verified(b.path, true)];
      assert b.path !in PathsOf(rest);
      RestoreOneRestores(s, r, b, now, host);
    }
  }

  lemma {:induction false} NoConflicts(s: Plane, baselines: seq<Baseline>)
    requires forall b <- baselines :: Classify(s, b) != InConflict
    ensures PreflightOf(s, baselines).conflicts == []
  {
    if baselines != [] {
      NoConflicts(s, baselines[..|baselines| - 1]);
      assert baselines[|baselines| - 1] in baselines;
    }
  }

  lemma AccountedHasNoConflict(start: Disk, s: Plane)
    requires Accounted(start, s)
    ensures RollbackPreflight(s).conflicts == []
  {
    forall b <- s.baselines
      ensures Classify(s, b) != InConflict
    {
      FindUnique(s.baselines, b);
      assert Touched(s, b.path) && Explained(s, b.path);
    }
    NoConflicts(s, s.baselines);
  }

  /** From any accounted state, an unforced rollback is never refused and puts
      back the whole starting disk, bytes and modes, path for path. */
  lemma RollbackRestoresStart(start: Disk, s: Plane, force: bool, now: int, host: Host)
    requires Accounted(start, s)
    ensures var (after, result) := Rollback(s, force, now, host);
            && after.world.disk == start
            && Accounted(start, after)
            && result.Ok? && result.value.ok && result.value.conflictsOverridden == []
            && result.value.restored == PathsOf(s.baselines)
  {
    AccountedHasNoConflict(start, s);
    RestoreAllRestores(s, s.baselines, now, host);
    RestoredDiskIsStart(start, s, RestoreAll(s, s.baselines, now, host).plane.world.disk, host);
    StartIsAccounted(start, s, Rollback(s, force, now, host).0);
  }

  lemma RestoredDiskIsStart(start: Disk, s: Plane, disk: Disk, host: Host)
    requires Accounted(start, s)
    requires forall b <- s.baselines :: FileAt(disk, b.path) == RestoredFile(s, b, host)
    requires forall path | path !in PathsOf(s.baselines) :: FileAt(disk, path) == FileAt(s.world.disk, path)
    ensures disk == start
  {
    forall path
      ensures FileAt(disk, path) == FileAt(start, path)
    {
      var b := FindBaseline(s.baselines, path);
      if b.Some? {
        RestoredIsCaptured(start, s, b.value, host);
      } else {
        assert path !in PathsOf(s.baselines);
      }
    }
    SameFiles(disk, start);
  }

  lemma StartIsAccounted(start: Disk, s: Plane, after: Plane)
    requires Accounted(start, s) && after == s.(world := after.world) && after.world.disk == start
    ensures Accounted(start, after)
  {
    forall path | Touched(after, path)
      ensures Explained(after, path)
    {
      var b := FindBaseline(s.baselines, path).value;
      assert b == Captured(start, path);
    }
  }

  lemma RestoredIsCaptured(start: Disk, s: Plane, b: Baseline, host: Host)
    requires Intact(s.blobs) && b == Captured(start, b.path) && Resolves(s.blobs, b.blobHash)
    ensures RestoredFile(s, b, host) == FileAt(start, b.path)
    ensures DigestAt(start, b.path) == BaselineHash(b)
  {
    if b.existed {
      assert Sha(s.blobs[b.blobHash.value]) == b.blobHash.value;
    }
  }

  lemma SameFiles(a: Disk, b: Disk)
    requires forall path :: FileAt(a, path) == FileAt(b, path)
    ensures a == b
  {
    forall path
      ensures path in a <==> path in b
      ensures path in a ==> a[path] == b[path]
    {
      assert FileAt(a, path) == FileAt(b, path);
    }
  }

  // ----- Whole runs -----

  lemma StepKeeps(start: Disk, s: Plane, step: Step, lib: DiffLibrary, host: Host)
    requires Accounted(start, s) && Allowed(s, step)
    ensures Accounted(start, Perform(s, step, lib, host))
  {
    match step
    case Patch(path, patch, baseHash, now) => PatchKeeps(start, s, path, patch, baseHash, now, host);
    case Create(path, content) => CreateKeeps(start, s, path, content, host);
    case WriteDirect(path, bytes, author, now) => WriteDirectKeeps(start, s, path, bytes, author, now, host);
    case Delete(path, now) => DeleteKeeps(start, s, path, now);
    case Rename(source, target) => RenameKeeps(start, s, source, target);
    case Reject(path, key, expected, now) =>
      var next := RejectResult(s, path, key, expected, lib);
      if next.Ok? {
        WriteDirectKeeps(start, s, path, Encode(next.value), User, now, host);
      }
    case Revert(path, expected, now) => RevertKeeps(start, s, path, expected, now, host);
    case RollBack(force, now) => RollbackRestoresStart(start, s, force, now, host);
    case OnDocument(doc) => CommitKeeps(start, s, s.(world := Apply(s.world, doc, host)), {});
  }

  lemma {:induction false} RunKeeps(start: Disk, s: Plane, steps: seq<Step>, lib: DiffLibrary, host: Host)
    requires Accounted(start, s) && AllowedRun(s, steps, lib, host)
    ensures Accounted(start, Run(s, steps, lib, host))
    decreases |steps|
  {
    if steps != [] {
      StepKeeps(start, s, steps[0], lib, host);
      RunKeeps(start, Perform(s, steps[0], lib, host), steps[1..], lib, host);
    }
  }

  /** A task that has touched nothing yet, over any disk, open documents and intact blobs. */
  function Begin(world: World, blobs: Blobs): Plane {
    Plane(world, blobs, [], [])
  }

  /** The task's promise. After any run without outside edits and without
      patches to marked documents, every path is explained by the log or its
      baseline, preflight reports no conflict, and rollback succeeds and leaves
      the disk exactly as it was before the task. */
  lemma TaskIsUndoable(world: World, blobs: Blobs, steps: seq<Step>, now: int, lib: DiffLibrary, host: Host)
    requires Intact(blobs) && AllowedRun(Begin(world, blobs), steps, lib, host)
    ensures var s := Run(Begin(world, blobs), steps, lib, host);
            var (after, result) := Rollback(s, false, now, host);
            && (forall path | Touched(s, path) :: Explained(s, path))
            && RollbackPreflight(s).conflicts == []
            && result.Ok? && result.value.ok
            && after.world.disk == world.disk
  {
    var s := Begin(world, blobs);
    assert Accounted(world.disk, s);
    RunKeeps(world.disk, s, steps, lib, host);
    AccountedHasNoConflict(world.disk, Run(s, steps, lib, host));
    RollbackRestoresStart(world.disk, Run(s, steps, lib, host), false, now, host);
  }

  lemma MarkedDiffers(text: Text)
    ensures Encode([BOM] + text) != Encode(text)
  {
    DecodeEncode([BOM] + text);
    DecodeEncode(text);
    assert |[BOM] + text| > |text|;
  }

  /** Why the guard on patches is there, and that it is exact: a successful patch
      leaves on disk what it logged unless the open document carries a mark. */
  lemma PatchLogsWhatItWrote(s: Plane, path: Path, patch: Text -> Option<Text>, baseHash: Digest, now: int, host: Host)
    requires ApplyPatch(s, path, patch, baseHash, now, host).1.Ok?
    ensures var (after, result) := ApplyPatch(s, path, patch, baseHash, now, host);
            path in Expected(after.log) && Expected(after.log)[path] == Some(result.value)
            && (DigestAt(after.world.disk, path) == Some(result.value)
                <==> (path in s.world.docs ==> s.world.docs[path].encoding == Plain))
  {
    var s1 := Ensured(s, path);
    var next := PatchResult(s1, path, patch, baseHash).value;
    PatchedContent(s1, path, next, now, host);
    ExpectedAppended(s1.log, Record(path, Modified, Some(baseHash), Some(ShaText(next)), None, Agent));
    MarkedDiffers(next);
  }
}
