/** What each operation of the change service does: when it is refused and with
    what error, and otherwise the file, the open document, the log record and
    the stored bytes it leaves. */
module ChangeEffects {
  import opened Changes
  import opened ChangeHistory
  import opened ChangeRuns
  import opened Content
  import opened Documents
  import opened DocumentEvents
  import DocumentRuns
  import Hunks
  import opened Storage
  import opened TurnRollback
  import opened Utf8

  predicate Adds(s: Plane, after: Plane, r: Record) {
    after.log == s.log + [r]
  }

  predicate Stored(after: Plane, bytes: Bytes) {
    GetBlob(after.blobs, Sha(bytes)) == Some(bytes)
  }

  /** The mode a rewritten file has: its own, or that of a new file. */
  function KeptMode(disk: Disk, path: Path, host: Host): Mode {
    if path in disk then disk[path].mode else host.newFileMode
  }

  lemma EnsuredStores(s: Plane, path: Path)
    requires Closed(s)
    ensures var s1 := Ensured(s, path);
            Closed(s1) && s1.world == s.world && s1.log == s.log && Touched(s1, path)
  {
    EnsuredCloses(s, path);
    FindAppended(s.baselines, Captured(s.world.disk, path), path);
  }

  lemma PutStores(s: Plane, bytes: Bytes)
    requires Intact(s.blobs)
    ensures Stored(Put(s, bytes), bytes)
  {
  }

  // ----- Creating, writing, deleting, renaming -----

  lemma CreateEffect(s: Plane, path: Path, content: Text, host: Host)
    requires Closed(s)
    ensures var (after, result) := CreateFile(s, path, content, host);
            && result == (if path in s.world.disk then Err(AlreadyExists) else Ok(ShaText(content)))
            && (result.Err? ==> after == s)
            && (result.Ok? ==>
                  && after.world == s.world.(disk := s.world.disk[path := File(Encode(content), host.newFileMode)])
                  && Adds(s, after, Record(path, Created, None, Some(ShaText(content)), None, Agent))
                  && Stored(after, Encode(content)) && Touched(after, path))
  {
    EnsuredStores(s, path);
    PutStores(Ensured(s, path), Encode(content));
  }

  /** A direct write never fails. The document at the path is told of it. */
  lemma WriteDirectEffect(s: Plane, path: Path, bytes: Bytes, author: Author, now: int, host: Host)
    requires Closed(s)
    ensures var (after, hash) := WriteFileDirect(s, path, bytes, author, now, host);
            var reader := ReadLogicalAt(s.world, path);
            var written := s.world.(disk := s.world.disk[path := File(bytes, KeptMode(s.world.disk, path, host))]);
            && hash == Sha(bytes)
            && after.world == Apply(written, Watch(path, now), host)
            && Adds(s, after, Record(path, if reader.Some? then Modified else Created,
                                     if reader.Some? then Some(reader.value.hash) else None, Some(Sha(bytes)), None, author))
            && Stored(after, bytes) && Touched(after, path)
  {
    EnsuredStores(s, path);
    PutStores(Ensured(s, path), bytes);
  }

  lemma DeleteEffect(s: Plane, path: Path, now: int, host: Host)
    requires Closed(s)
    ensures var (after, result) := DeleteFile(s, path, now);
            && result == (if path in s.world.disk then Ok(())
                          else if path in s.world.docs then Err(NotOnDisk) else Err(TargetMissing))
            && (result.Err? ==> after.world == s.world && after.log == s.log)
            && (result.Ok? ==>
                  var bytes := s.world.disk[path].bytes;
                  && after.world == Apply(s.world.(disk := s.world.disk - {path}), Watch(path, now), host)
                  && Adds(s, after, Record(path, Deleted, Some(Sha(bytes)), None, None, Agent))
                  && Stored(after, bytes) && Touched(after, path))
  {
    EnsuredStores(s, path);
    if path in s.world.disk {
      PutStores(Ensured(s, path), s.world.disk[path].bytes);
    }
  }

  /** The file moves with its bytes and mode; open documents are not told. */
  lemma RenameEffect(s: Plane, source: Path, target: Path)
    requires Closed(s)
    ensures var (after, result) := RenameFile(s, source, target);
            && result == (if target in s.world.disk then Err(AlreadyExists)
                          else if source !in s.world.disk then Err(NotOnDisk) else Ok(()))
            && (result.Err? ==> after.world == s.world && after.log == s.log)
            && (result.Ok? ==>
                  var file := s.world.disk[source];
                  && after.world == s.world.(disk := (s.world.disk - {source})[target := file])
                  && Adds(s, after, Record(source, Renamed, Some(Sha(file.bytes)), Some(Sha(file.bytes)), Some(target), Agent))
                  && Stored(after, file.bytes) && Touched(after, source) && Touched(after, target))
  {
    EnsuredStores(s, source);
    EnsuredStores(Ensured(s, source), target);
    FindStays(Ensured(s, source), target, source);
    if source in s.world.disk {
      PutStores(Ensured(Ensured(s, source), target), s.world.disk[source].bytes);
    }
  }

  // ----- Patching -----

  /** Why a patch is not even tried. */
  function PatchRefusal(w: World, path: Path, patch: Text -> Option<Text>, baseHash: Digest): Option<ChangeError> {
    var reader := ReadLogicalAt(w, path);
    if reader.None? then Some(TargetMissing)
    else if reader.value.binary then Some(BinaryFile)
    else if reader.value.hash != baseHash then Some(VersionConflict)
    else if patch(reader.value.content).None? then Some(PatchFailed)
    else None
  }

  lemma RefusedPatchEffect(s: Plane, path: Path, patch: Text -> Option<Text>, baseHash: Digest, now: int, host: Host)
    requires PatchRefusal(s.world, path, patch, baseHash).Some?
    ensures var (after, result) := ApplyPatch(s, path, patch, baseHash, now, host);
            && result == Err(PatchRefusal(s.world, path, patch, baseHash).value)
            && after.world == s.world && after.log == s.log
  {
  }

  predicate Patched(s: Plane, after: Plane, path: Path, baseHash: Digest, next: Text) {
    Adds(s, after, Record(path, Modified, Some(baseHash), Some(ShaText(next)), None, Agent))
    && Stored(after, Encode(next)) && Touched(after, path)
  }

  /** On a closed file a patch that is tried succeeds. */
  lemma ClosedPatchEffect(s: Plane, path: Path, patch: Text -> Option<Text>, baseHash: Digest, now: int, host: Host)
    requires Closed(s) && path !in s.world.docs && PatchRefusal(s.world, path, patch, baseHash).None?
    ensures path in s.world.disk
    ensures var (after, result) := ApplyPatch(s, path, patch, baseHash, now, host);
            var next := patch(ReadLogicalAt(s.world, path).value.content).value;
            && result == Ok(ShaText(next)) && Patched(s, after, path, baseHash, next)
            && after.world == s.world.(disk := s.world.disk[path := File(Encode(next), s.world.disk[path].mode)])
  {
    EnsuredStores(s, path);
    PutStores(Ensured(s, path), Encode(patch(ReadLogicalAt(s.world, path).value.content).value));
  }

  /** On an open document it first goes into the buffer, which is then saved
      without force. A save that is refused leaves the patched buffer unsaved. */
  lemma OpenPatchEffect(s: Plane, path: Path, patch: Text -> Option<Text>, baseHash: Digest, now: int, host: Host)
    requires Closed(s) && path in s.world.docs && DocumentRuns.DocInvariant(s.world.docs[path])
    requires PatchRefusal(s.world, path, patch, baseHash).None?
    ensures var (after, result) := ApplyPatch(s, path, patch, baseHash, now, host);
            var doc := s.world.docs[path];
            var next := patch(doc.content).value;
            && path in after.world.docs && after.world.docs[path].content == next
            && (forall other | other != path :: FileAt(after.world.disk, other) == FileAt(s.world.disk, other))
            && if DocumentEvents.Goes(s.world, path, false) then
                 && result == Ok(ShaText(next)) && Patched(s, after, path, baseHash, next)
                 && FileAt(after.world.disk, path) == Some(File(SavedBytes(doc.(content := next)), host.newFileMode))
                 && !after.world.docs[path].dirty && after.world.docs[path].externalState == Clean
               else
                 && result == Err(if doc.readonly then DocumentFailure(ReadOnlyDocument) else VersionConflict)
                 && after.world.disk == s.world.disk && after.log == s.log
                 && (after.world.docs[path].dirty <==> doc.dirty || next != doc.content)
  {
    var doc := s.world.docs[path];
    var next := patch(doc.content).value;
    EnsuredStores(s, path);
    ThroughDocument(s.world, path, next, now, host);
    PutStores(Ensured(s, path), Encode(next));
  }

  lemma BufferPatched(w: World, path: Path, next: Text, host: Host)
    requires path in w.docs && DocumentRuns.DocInvariant(w.docs[path]) && !w.docs[path].binary
    ensures var doc, edited := w.docs[path], EditAt(w, path, next);
            && edited.disk == w.disk && edited.docs[path].content == next
            && (DocumentEvents.Goes(edited, path, false) <==> DocumentEvents.Goes(w, path, false))
            && SavedBytes(edited.docs[path]) == SavedBytes(doc.(content := next))
            && edited.docs[path].readonly == doc.readonly && !edited.docs[path].binary
            && (edited.docs[path].dirty <==> doc.dirty || next != doc.content)
  {
    EditTakesText(w, path, next, host);
  }

  lemma ThroughDocument(w: World, path: Path, next: Text, now: int, host: Host)
    requires path in w.docs && DocumentRuns.DocInvariant(w.docs[path]) && !w.docs[path].binary
    ensures var edited := EditAt(w, path, next);
            var saved := SaveAt(edited, path, false, now, host);
            && edited.disk == w.disk
            && SaveError(edited.docs[path], FileAt(edited.disk, path), false)
               == (if DocumentEvents.Goes(w, path, false) then None
                   else if w.docs[path].readonly then Some(ReadOnlyDocument) else Some(SaveConflict))
            && if DocumentEvents.Goes(w, path, false) then
                 && saved.disk == w.disk[path := File(SavedBytes(w.docs[path].(content := next)), host.newFileMode)]
                 && saved.docs[path].content == next && !saved.docs[path].dirty && saved.docs[path].externalState == Clean
               else
                 saved.disk == w.disk && saved.docs[path].content == next
                 && (saved.docs[path].dirty <==> w.docs[path].dirty || next != w.docs[path].content)
  {
    var edited := EditAt(w, path, next);
    BufferPatched(w, path, next, host);
    assert SaveAt(edited, path, false, now, host) == Apply(edited, Save(path, false, now), host);
    if DocumentEvents.Goes(edited, path, false) {
      SaveWrites(edited, path, false, now, host);
    } else {
      SaveIsRefused(edited, path, false, now, host);
    }
  }

  // ----- Rejecting and reverting -----

  /** Why a rejection is refused before any hunk is looked at. */
  lemma RejectRefusals(s: Plane, path: Path, key: Hunks.Key, expected: Digest, lib: DiffLibrary, now: int, host: Host)
    ensures var (after, result) := RejectHunk(s, path, key, expected, lib, now, host);
            var reader := ReadLogicalAt(s.world, path);
            && (result.Err? ==> after == s)
            && (reader.None? ==> result == Err(TargetMissing))
            && (reader.Some? && reader.value.binary ==> result == Err(BinaryFile))
            && (reader.Some? && !reader.value.binary && reader.value.hash != expected ==> result == Err(ReviewStale))
            && (reader.Some? && !reader.value.binary && reader.value.hash == expected ==>
                  (result == Err(NoBaseline) <==> !Touched(s, path))
                  && (Touched(s, path) && result.Err? ==> result == Err(ReviewStale)))
  {
  }

  /** One that succeeds is a direct write of the user. */
  lemma RejectEffect(s: Plane, path: Path, key: Hunks.Key, expected: Digest, lib: DiffLibrary, now: int, host: Host)
    requires Closed(s) && RejectHunk(s, path, key, expected, lib, now, host).1.Ok?
    ensures var (after, result) := RejectHunk(s, path, key, expected, lib, now, host);
            && Adds(s, after, Record(path, Modified, Some(expected), Some(result.value), None, User))
            && DigestAt(after.world.disk, path) == Some(result.value)
            && after.baselines == s.baselines
  {
    var next := RejectResult(s, path, key, expected, lib).value;
    WriteDirectEffect(s, path, Encode(next), User, now, host);
  }

  lemma RevertRefusals(s: Plane, path: Path, expected: Option<Digest>, now: int, host: Host)
    requires Closed(s)
    ensures var (after, result) := RevertFile(s, path, expected, now, host);
            var reader := ReadLogicalAt(s.world, path);
            var seen := expected.None? || (reader.Some? && reader.value.hash == expected.value);
            && (result.Err? ==> after == s)
            && (result.Ok? <==> Touched(s, path) && seen)
            && (!Touched(s, path) ==> result == Err(NoBaseline))
            && (Touched(s, path) && !seen ==> result == Err(ReviewStale))
  {
    if Touched(s, path) {
      assert WellRecorded(s.blobs, FindBaseline(s.baselines, path).value);
    }
  }

  /** One that is carried out: a file that was there is written back with its mode,
      unless its content is right already; one that was not is taken away. */
  lemma RevertEffect(s: Plane, path: Path, expected: Option<Digest>, now: int, host: Host)
    requires Closed(s) && RevertFile(s, path, expected, now, host).1.Ok?
    ensures var (after, result) := RevertFile(s, path, expected, now, host);
            var b := FindBaseline(s.baselines, path).value;
            var current := DigestAt(s.world.disk, path);
            if b.existed then
              var bytes := s.blobs[b.blobHash.value];
              if current == Some(Sha(bytes)) then result == Ok(Noop) && after == s
              else
                var mode := if b.mode.Some? then b.mode.value else KeptMode(s.world.disk, path, host);
                && result == Ok(Restored)
                && after.world == Apply(s.world.(disk := s.world.disk[path := File(bytes, mode)]), Watch(path, now), host)
                && Adds(s, after, Record(path, if current.None? then Created else Modified, current, Some(Sha(bytes)), None, User))
            else
              && result == Ok(Removed)
              && if current.None? then after == s
                 else
                   && after.world == Apply(s.world.(disk := s.world.disk - {path}), Watch(path, now), host)
                   && Adds(s, after, Record(path, Deleted, current, None, None, User))
                   && Stored(after, s.world.disk[path].bytes)
  {
    var b := FindBaseline(s.baselines, path).value;
    assert WellRecorded(s.blobs, b);
    if b.existed {
      assert Sha(s.blobs[b.blobHash.value]) == b.blobHash.value;
    } else if path in s.world.disk {
      PutStores(s, s.world.disk[path].bytes);
    }
  }

  // ----- Rolling back -----

  /** A conflict says what is there and what the log expected there. */
  lemma {:induction false} ConflictsSay(s: Plane, baselines: seq<Baseline>, i: nat)
    requires i < |PreflightOf(s, baselines).conflicts|
    ensures var c := PreflightOf(s, baselines).conflicts[i];
            && c.currentHash == DigestAt(s.world.disk, c.path)
            && c.path in Expected(s.log) && c.expectedHash == Expected(s.log)[c.path]
            && c.currentHash != c.expectedHash
  {
    var n := |baselines| - 1;
    if i < |PreflightOf(s, baselines[..n]).conflicts| {
      ConflictsSay(s, baselines[..n], i);
    }
  }

  /** A forced rollback names exactly the foreign edits it overrode, and lists
      every touched path as restored and verified, in order of first touch. */
  lemma ForcedRollbackReports(s: Plane, now: int, host: Host)
    requires Closed(s)
    ensures var (after, result) := Rollback(s, true, now, host);
            && result.Ok? && result.value.ok
            && (forall path :: path in result.value.conflictsOverridden <==> Foreign(s, path))
            && result.value.restored == PathsOf(s.baselines) && result.value.verified == AllVerified(s.baselines)
            && after == s.(world := after.world)
  {
    RestoreAllRestores(s, s.baselines, now, host);
    forall path
      ensures path in Rollback(s, true, now, host).1.value.conflictsOverridden <==> Foreign(s, path)
    {
      ConflictIff(s, path);
    }
  }

  /** The document at a path as the event for its file, as it is now, leaves it. */
  function Told(docs: map<Path, Doc>, disk: Disk, path: Path, now: int, host: Host): map<Path, Doc> {
    Apply(World(disk, docs), Watch(path, now), host).docs
  }

  predicate ToldAt(s: Plane, after: Plane, path: Path, now: int, host: Host) {
    (path in after.world.docs <==> path in s.world.docs)
    && (path in s.world.docs ==> after.world.docs[path] == Told(s.world.docs, after.world.disk, path, now, host)[path])
  }

  predicate NotTold(s: Plane, after: Plane, path: Path) {
    (path in after.world.docs <==> path in s.world.docs)
    && (path in s.world.docs ==> after.world.docs[path] == s.world.docs[path])
  }

  lemma StaysTold(s: Plane, mid: Plane, after: Plane, path: Path, now: int, host: Host)
    requires NotTold(mid, after, path) && FileAt(after.world.disk, path) == FileAt(mid.world.disk, path)
    ensures ToldAt(s, mid, path, now, host) ==> ToldAt(s, after, path, now, host)
    ensures NotTold(s, mid, path) ==> NotTold(s, after, path)
  {
  }

  lemma FirstTold(s: Plane, mid: Plane, after: Plane, path: Path, now: int, host: Host)
    requires NotTold(s, mid, path) && ToldAt(mid, after, path, now, host)
    ensures ToldAt(s, after, path, now, host)
  {
  }

  /** A rollback that runs tells the open document at every touched path of its
      restored file, and no other document of anything. */
  lemma RollbackTells(s: Plane, force: bool, now: int, path: Path, host: Host)
    requires Closed(s) && Rollback(s, force, now, host).1.Ok?
    ensures var after := Rollback(s, force, now, host).0;
            if Touched(s, path) then ToldAt(s, after, path, now, host) else NotTold(s, after, path)
  {
    RestoreAllTells(s, s.baselines, now, path, host);
    FindHits(s.baselines, path);
  }

  predicate Hits(baselines: seq<Baseline>, path: Path) {
    exists i | 0 <= i < |baselines| :: baselines[i].path == path
  }

  lemma FindHits(baselines: seq<Baseline>, path: Path)
    ensures Hits(baselines, path) <==> FindBaseline(baselines, path).Some?
  {
    var b := FindBaseline(baselines, path);
    if b.Some? {
      var k :| 0 <= k < |baselines| && baselines[k] == b.value;
    }
  }

  lemma HitsSnoc(baselines: seq<Baseline>, path: Path)
    requires baselines != [] && Unique(baselines)
    ensures var rest, b := baselines[..|baselines| - 1], baselines[|baselines| - 1];
            && Unique(rest) && (Hits(baselines, path) <==> Hits(rest, path) || b.path == path)
            && !Hits(rest, b.path)
  {
    var rest := baselines[..|baselines| - 1];
    assert forall i | 0 <= i < |rest| :: rest[i] == baselines[i];
  }

  lemma {:induction false} RestoreAllTells(s: Plane, baselines: seq<Baseline>, now: int, path: Path, host: Host)
    requires Unique(baselines) && Intact(s.blobs) && forall b <- baselines :: Restorable(s.blobs, b)
    ensures var after := RestoreAll(s, baselines, now, host).plane;
            after == s.(world := after.world)
            && if Hits(baselines, path) then ToldAt(s, after, path, now, host) else NotTold(s, after, path)
  {
    if baselines != [] {
      var rest, b := baselines[..|baselines| - 1], baselines[|baselines| - 1];
      HitsSnoc(baselines, path);
      assert b in baselines && forall other <- rest :: other in baselines;
      RestoreAllTells(s, rest, now, path, host);
      var r := RestoreAll(s, rest, now, host);
      var after := RestoreOne(r, b, now, host).plane;
      RestoreOneTells(r, b, now, path, host);
      if b.path == path {
        FirstTold(s, r.plane, after, path, now, host);
      } else {
        StaysTold(s, r.plane, after, path, now, host);
      }
    }
  }

  lemma RestoreOneTells(r: Restoration, b: Baseline, now: int, path: Path, host: Host)
    requires Restorable(r.plane.blobs, b)
    ensures var after := RestoreOne(r, b, now, host).plane;
            && after == r.plane.(world := after.world)
            && (path == b.path ==> ToldAt(r.plane, after, path, now, host))
            && (path != b.path ==> NotTold(r.plane, after, path)
                                   && FileAt(after.world.disk, path) == FileAt(r.plane.world.disk, path))
  {
  }

  /** A rollback to recorded states tells the document at each path it moved, and
      no other. */
  lemma {:induction false} MoveAllTells(s: Plane, targets: seq<Target>, now: int, path: Path, host: Host)
    requires Intact(s.blobs) && DistinctTargets(targets)
    ensures var after := MoveAll(s, targets, now, host).plane;
            if exists i | 0 <= i < |targets| :: targets[i].path == path && Moved(s, targets[i])
            then ToldAt(s, after, path, now, host) else NotTold(s, after, path)
  {
    if targets != [] {
      var n := |targets| - 1;
      var rest, t := targets[..n], targets[n];
      assert forall i | 0 <= i < n :: rest[i] == targets[i];
      MoveAllTells(s, rest, now, path, host);
      MoveAllMoves(s, rest, now, host);
      var r := MoveAll(s, rest, now, host);
      var after := MoveOne(r, t, now, host).plane;
      assert FileAt(r.plane.world.disk, t.path) == FileAt(s.world.disk, t.path);
      MoveOneTells(s, r, t, now, path, host);
      if t.path == path && Moved(s, t) {
        FirstTold(s, r.plane, after, path, now, host);
      } else {
        StaysTold(s, r.plane, after, path, now, host);
      }
    }
  }

  lemma MoveOneTells(s: Plane, r: Restoration, t: Target, now: int, path: Path, host: Host)
    requires r.plane == s.(world := r.plane.world)
    requires FileAt(r.plane.world.disk, t.path) == FileAt(s.world.disk, t.path)
    ensures var after := MoveOne(r, t, now, host).plane;
            if path == t.path && Moved(s, t) then ToldAt(r.plane, after, path, now, host)
            else NotTold(r.plane, after, path) && FileAt(after.world.disk, path) == FileAt(r.plane.world.disk, path)
  {
    assert DigestAt(r.plane.world.disk, t.path) == DigestAt(s.world.disk, t.path);
  }

  // ----- Observing -----

  /** A captured baseline is what was given, and only the first one counts. */
  lemma SnapshotEffect(s: Plane, path: Path, bytes: Option<Bytes>, mode: Option<Mode>)
    requires Closed(s)
    ensures var after := AddBaseline(s, path, bytes, mode);
            && (Touched(s, path) ==> after == s)
            && (!Touched(s, path) ==>
                  && after.world == s.world && after.log == s.log
                  && FindBaseline(after.baselines, path)
                     == Some(match bytes
                             case None => Baseline(path, false, None, None, 0)
                             case Some(content) => Baseline(path, true, Some(Sha(content)), mode, |content|))
                  && (bytes.Some? ==> Stored(after, bytes.value)))
  {
    FindAppended(s.baselines, BaselineOf(path, bytes, mode), path);
    if bytes.Some? {
      PutStores(s, bytes.value);
    }
  }

  /** An observation records what is on disk, nothing for a deletion, and stores it. */
  lemma ObserveEffect(s: Plane, path: Path, kind: ObservedKind, author: Author)
    requires Closed(s)
    ensures var (after, r) := RecordExternal(s, path, kind, author);
            && Adds(s, after, r) && after.world == s.world && after.baselines == s.baselines
            && r.path == path && r.kind == kind && r.author == author && r.renameTo.None?
            && r.afterHash == (if kind == Deleted then None else DigestAt(s.world.disk, path))
            && (r.afterHash.Some? ==> Stored(after, s.world.disk[path].bytes))
  {
    if kind != Deleted && path in s.world.disk {
      PutStores(s, s.world.disk[path].bytes);
    }
  }

  /** The first reconciliation of a path records a change of the system exactly
      when what is there is not what the session found. */
  lemma FirstReconcile(s: Plane, path: Path, kind: ObservedKind, bytes: Option<Bytes>)
    requires Closed(s) && !Touched(s, path) && forall r <- s.log :: r.path != path
    ensures var (after, r) := ReconcileExternal(s, path, kind, bytes);
            var found := if bytes.Some? then Some(Sha(bytes.value)) else None;
            var there := if kind == Deleted then None else DigestAt(s.world.disk, path);
            && (r.Some? <==> found != there) && Touched(after, path)
            && after.log == s.log + (if r.Some? then [r.value] else [])
            && (r.Some? ==> r.value == Record(path, kind, found, there, None, System))
  {
    SnapshotEffect(s, path, bytes, None);
    NoHistory(s.log, path);
    var s1 := AddBaseline(s, path, bytes, None);
    assert s1.log == s.log;
    if PreviousHash(s1, path) != ObservedHash(s1, path, kind) {
      ObserveEffect(s1, path, kind, System);
    } else {
      assert s.log + [] == s.log;
    }
  }

  lemma {:induction false} NoHistory(log: seq<Record>, path: Path)
    requires forall r <- log :: r.path != path
    ensures History(log, path) == []
  {
    if log != [] {
      assert log[|log| - 1] in log && forall r <- log[..|log| - 1] :: r in log;
      NoHistory(log[..|log| - 1], path);
    }
  }
}
