/** The service itself: the same operations carried out step by step on the
    disk, the blob store, the open documents and the change repository. */
module ChangeControl {
  import opened Changes
  import opened ChangeSets
  import opened Content
  import opened Documents
  import opened Storage
  import opened Utf8
  import ChangeRuns
  import Hunks

  /** One task's part of the change repository. */
  class ChangeRepo {
    var baselines: seq<Baseline>
    var changes: seq<Record>

    constructor ()
      ensures baselines == [] && changes == []
    {
      baselines, changes := [], [];
    }

    method GetBaseline(path: Path) returns (b: Option<Baseline>)
      ensures b == FindBaseline(baselines, path)
    {
      var i := 0;
      while i < |baselines|
        invariant 0 <= i <= |baselines|
        invariant FindBaseline(baselines, path) == FindBaseline(baselines[i..], path)
      {
        if baselines[i].path == path {
          return Some(baselines[i]);
        }
        i := i + 1;
      }
      b := None;
    }

    method SaveBaseline(b: Baseline)
      modifies this
      ensures baselines == WithBaseline(old(baselines), b) && changes == old(changes)
    {
      var i := 0;
      while i < |baselines|
        invariant 0 <= i <= |baselines| && baselines == old(baselines) && changes == old(changes)
        invariant WithBaseline(baselines, b) == baselines[..i] + WithBaseline(baselines[i..], b)
      {
        assert baselines[i..][0] == baselines[i] && baselines[i..][1..] == baselines[i + 1..];
        if baselines[i].path == b.path {
          assert baselines[..i] + ([b] + baselines[i + 1..]) == baselines[i := b];
          baselines := baselines[i := b];
          return;
        }
        assert baselines[..i] + ([baselines[i]] + WithBaseline(baselines[i + 1..], b))
               == baselines[..i + 1] + WithBaseline(baselines[i + 1..], b);
        i := i + 1;
      }
      assert baselines[..i] == baselines && baselines[i..] == [];
      baselines := baselines + [b];
    }

    method RecordChange(change: Record)
      modifies this
      ensures changes == old(changes) + [change] && baselines == old(baselines)
    {
      changes := changes + [change];
    }
  }

  class ChangeService {
    const fs: FileSystem
    const blobs: BlobStore
    const repo: ChangeRepo
    const documents: DocumentStore
    const lib: DiffLibrary
    const host: Host

    constructor (fs: FileSystem, blobs: BlobStore, repo: ChangeRepo, documents: DocumentStore, lib: DiffLibrary)
      requires documents.fs == fs
      ensures this.fs == fs && this.blobs == blobs && this.repo == repo && this.documents == documents
      ensures this.lib == lib && host == documents.host && Wired()
    {
      this.fs, this.blobs, this.repo, this.documents, this.lib := fs, blobs, repo, documents, lib;
      this.host := documents.host;
    }

    predicate Wired() {
      documents.fs == fs && host == documents.host
    }

    ghost function Now(): Plane
      reads fs, blobs, repo, documents
    {
      Plane(World(fs.files, documents.docs), blobs.blobs, repo.baselines, repo.changes)
    }

    method EnsureBaseline(path: Path) returns (b: Baseline)
      requires Wired()
      modifies repo, blobs
      ensures Now() == Ensured(old(Now()), path)
      ensures FindBaseline(repo.baselines, path) == Some(b)
    {
      var existing := repo.GetBaseline(path);
      if existing.Some? {
        return existing.value;
      }
      if path in fs.files {
        var file := fs.files[path];
        var hash, size := blobs.Put(file.bytes);
        b := Baseline(path, true, Some(hash), Some(file.mode), size);
      } else {
        b := Baseline(path, false, None, None, 0);
      }
      NewBaselineGoesLast(repo.baselines, b);
      repo.SaveBaseline(b);
      ChangeRuns.FindAppended(old(repo.baselines), b, path);
    }

    /** A baseline from given bytes: the watcher only learns of a write after it landed. */
    method EnsureBaselineFromBytes(path: Path, bytes: Option<Bytes>, mode: Option<Mode>) returns (b: Baseline)
      requires Wired()
      modifies repo, blobs
      ensures Now() == AddBaseline(old(Now()), path, bytes, mode)
      ensures FindBaseline(repo.baselines, path) == Some(b)
    {
      var existing := repo.GetBaseline(path);
      if existing.Some? {
        return existing.value;
      }
      if bytes.None? {
        b := Baseline(path, false, None, None, 0);
      } else {
        var hash, size := blobs.Put(bytes.value);
        b := Baseline(path, true, Some(hash), mode, size);
      }
      NewBaselineGoesLast(repo.baselines, b);
      repo.SaveBaseline(b);
      ChangeRuns.FindAppended(old(repo.baselines), b, path);
    }

    method WriteBytes(path: Path, bytes: Bytes, mode: Option<Mode>)
      requires Wired()
      modifies fs
      ensures Now() == WrittenBytes(old(Now()), path, bytes, mode, host)
    {
      var fileMode := host.newFileMode;
      if mode.Some? {
        fileMode := mode.value;
      } else if path in fs.files {
        fileMode := fs.files[path].mode;
      }
      fs.files := fs.files[path := File(bytes, fileMode)];
    }

    method Remove(path: Path)
      requires Wired()
      modifies fs
      ensures Now() == SetFile(old(Now()), path, None)
    {
      fs.files := fs.files - {path};
    }

    method NotifyDocument(path: Path, now: int)
      requires Wired()
      modifies documents
      ensures Now() == Notified(old(Now()), path, now)
    {
      if documents.IsOpen(path) {
        var _ := documents.HandleExternalChange(path, now);
      }
    }

    /** Through the document store when open, else to disk. */
    method WriteThrough(path: Path, content: Text, now: int) returns (failure: Option<ChangeError>)
      requires Wired()
      modifies fs, documents
      ensures (Now(), failure) == WroteThrough(old(Now()), path, content, now, host)
    {
      if documents.IsOpen(path) {
        var updated := documents.UpdateBuffer(path, content);
        var saved := documents.SaveDocument(path, false, now);
        if saved.Err? {
          return Some(if saved.error == SaveConflict then VersionConflict else DocumentFailure(saved.error));
        }
        return None;
      }
      WriteBytes(path, Encode(content), None);
      return None;
    }

    method ApplyPatchTo(path: Path, patch: Text -> Option<Text>, baseHash: Digest, now: int) returns (r: Result<Digest>)
      requires Wired()
      modifies fs, blobs, repo, documents
      ensures (Now(), r) == ApplyPatch(old(Now()), path, patch, baseHash, now, host)
    {
      var _ := EnsureBaseline(path);
      var current := documents.ReadLogical(path);
      if current.None? {
        return Err(TargetMissing);
      }
      if current.value.binary {
        return Err(BinaryFile);
      }
      if baseHash != current.value.hash {
        return Err(VersionConflict);
      }
      var next := patch(current.value.content);
      if next.None? {
        return Err(PatchFailed);
      }
      var failure := WriteThrough(path, next.value, now);
      if failure.Some? {
        return Err(failure.value);
      }
      var afterHash := ShaText(next.value);
      var _, _ := blobs.Put(Encode(next.value));
      repo.RecordChange(Record(path, Modified, Some(current.value.hash), Some(afterHash), None, Agent));
      r := Ok(afterHash);
    }

    method WriteDirect(path: Path, content: Bytes, author: Author, now: int) returns (afterHash: Digest)
      requires Wired()
      modifies fs, blobs, repo, documents
      ensures (Now(), afterHash) == WriteFileDirect(old(Now()), path, content, author, now, host)
    {
      var _ := EnsureBaseline(path);
      var before := documents.ReadLogical(path);
      WriteBytes(path, content, None);
      NotifyDocument(path, now);
      afterHash := Sha(content);
      var _, _ := blobs.Put(content);
      repo.RecordChange(Record(path, if before.Some? then Modified else Created,
                               if before.Some? then Some(before.value.hash) else None, Some(afterHash), None, author));
    }

    method Create(path: Path, content: Text) returns (r: Result<Digest>)
      requires Wired()
      modifies fs, blobs, repo
      ensures (Now(), r) == CreateFile(old(Now()), path, content, host)
    {
      if path in fs.files {
        return Err(AlreadyExists);
      }
      var _ := EnsureBaseline(path);
      WriteBytes(path, Encode(content), None);
      var afterHash := ShaText(content);
      var _, _ := blobs.Put(Encode(content));
      repo.RecordChange(Record(path, Created, None, Some(afterHash), None, Agent));
      r := Ok(afterHash);
    }

    method Delete(path: Path, now: int) returns (r: Result<()>)
      requires Wired()
      modifies fs, blobs, repo, documents
      ensures (Now(), r) == DeleteFile(old(Now()), path, now)
    {
      var _ := EnsureBaseline(path);
      var current := documents.ReadLogical(path);
      if current.None? {
        return Err(TargetMissing);
      }
      if path !in fs.files {
        return Err(NotOnDisk);
      }
      var bytes := fs.files[path].bytes;
      var _, _ := blobs.Put(bytes);
      Remove(path);
      NotifyDocument(path, now);
      repo.RecordChange(Record(path, Deleted, Some(Sha(bytes)), None, None, Agent));
      r := Ok(());
    }

    method Rename(source: Path, target: Path) returns (r: Result<()>)
      requires Wired()
      modifies fs, blobs, repo
      ensures (Now(), r) == RenameFile(old(Now()), source, target)
    {
      if target in fs.files {
        return Err(AlreadyExists);
      }
      var _ := EnsureBaseline(source);
      var _ := EnsureBaseline(target);
      if source !in fs.files {
        return Err(NotOnDisk);
      }
      var file := fs.files[source];
      var _, _ := blobs.Put(file.bytes);
      fs.files := (fs.files - {source})[target := file];
      repo.RecordChange(Record(source, Renamed, Some(Sha(file.bytes)), Some(Sha(file.bytes)), Some(target), Agent));
      r := Ok(());
    }

    method Reject(path: Path, key: Hunks.Key, expected: Digest, now: int) returns (r: Result<Digest>)
      requires Wired()
      modifies fs, blobs, repo, documents
      ensures (Now(), r) == RejectHunk(old(Now()), path, key, expected, lib, now, host)
    {
      var current := documents.ReadLogical(path);
      if current.None? {
        return Err(TargetMissing);
      }
      if current.value.binary {
        return Err(BinaryFile);
      }
      if current.value.hash != expected {
        return Err(ReviewStale);
      }
      var baseline := repo.GetBaseline(path);
      if baseline.None? {
        return Err(NoBaseline);
      }
      var b := baseline.value;
      var bytes := None;
      if b.blobHash.Some? {
        bytes := blobs.Get(b.blobHash.value);
      }
      var baselineText := if b.existed && bytes.Some? then LogicalText(bytes.value) else "";
      var hunks := lib.diff(baselineText, current.value.content);
      var k := Hunks.FindKey(hunks, key);
      if k.None? {
        return Err(ReviewStale);
      }
      var next := lib.undo(current.value.content, Hunks.ReverseHunk(hunks[k.value]));
      if next.None? {
        return Err(ReviewStale);
      }
      var hash := WriteDirect(path, Encode(next.value), User, now);
      r := Ok(hash);
    }

    method Revert(path: Path, expected: Option<Digest>, now: int) returns (r: Result<RevertKind>)
      requires Wired()
      modifies fs, blobs, repo, documents
      ensures (Now(), r) == RevertFile(old(Now()), path, expected, now, host)
    {
      var baseline := repo.GetBaseline(path);
      if baseline.None? {
        return Err(NoBaseline);
      }
      var b := baseline.value;
      var logical := documents.ReadLogical(path);
      if expected.Some? && (logical.None? || logical.value.hash != expected.value) {
        return Err(ReviewStale);
      }
      if b.existed {
        var bytes := None;
        if b.blobHash.Some? {
          bytes := blobs.Get(b.blobHash.value);
        }
        if bytes.None? {
          return Err(BlobMissing);
        }
        var beforeHash := None;
        if path in fs.files {
          beforeHash := Some(Sha(fs.files[path].bytes));
        }
        if beforeHash == b.blobHash {
          return Ok(Noop);
        }
        WriteBytes(path, bytes.value, b.mode);
        NotifyDocument(path, now);
        repo.RecordChange(Record(path, if beforeHash.None? then Created else Modified, beforeHash, b.blobHash, None, User));
        return Ok(Restored);
      }
      if path in fs.files {
        var existing := fs.files[path].bytes;
        var _, _ := blobs.Put(existing);
        Remove(path);
        NotifyDocument(path, now);
        repo.RecordChange(Record(path, Deleted, Some(Sha(existing)), None, None, User));
      }
      return Ok(Removed);
    }

    method ExpectedPostTaskState() returns (expected: map<Path, Option<Digest>>)
      ensures expected == Expected(repo.changes)
    {
      expected := map[];
      for i := 0 to |repo.changes|
        invariant expected == Expected(repo.changes[..i])
      {
        var change := repo.changes[i];
        assert repo.changes[..i + 1][..i] == repo.changes[..i];
        match change.kind {
          case Created => expected := expected[change.path := change.afterHash];
          case Modified => expected := expected[change.path := change.afterHash];
          case Deleted => expected := expected[change.path := None];
          case Renamed =>
            expected := expected[change.path := None];
            if change.renameTo.Some? {
              expected := expected[change.renameTo.value := change.afterHash];
            }
        }
      }
      assert repo.changes[..|repo.changes|] == repo.changes;
    }

    method CheckRollback() returns (p: Preflight)
      requires Wired()
      ensures p == RollbackPreflight(Now())
    {
      var expected := ExpectedPostTaskState();
      var safe, alreadyBaseline, conflicts := [], [], [];
      for i := 0 to |repo.baselines|
        invariant Preflight(safe, alreadyBaseline, conflicts) == PreflightOf(Now(), repo.baselines[..i])
      {
        var baseline := repo.baselines[i];
        assert repo.baselines[..i + 1][..i] == repo.baselines[..i];
        var path := baseline.path;
        var currentHash := None;
        if path in fs.files {
          currentHash := Some(Sha(fs.files[path].bytes));
        }
        var baselineHash := if baseline.existed then baseline.blobHash else None;
        if currentHash == baselineHash {
          alreadyBaseline := alreadyBaseline + [path];
        } else {
          var expectedHash := if path in expected then expected[path] else currentHash;
          if currentHash == expectedHash {
            safe := safe + [path];
          } else {
            conflicts := conflicts + [Conflict(path, currentHash, expectedHash)];
          }
        }
      }
      assert repo.baselines[..|repo.baselines|] == repo.baselines;
      p := Preflight(safe, alreadyBaseline, conflicts);
    }

    method RollBack(force: bool, now: int) returns (r: Result<RollbackReport>)
      requires Wired()
      modifies fs, documents
      ensures (Now(), r) == Rollback(old(Now()), force, now, host)
    {
      var preflight := CheckRollback();
      if preflight.conflicts != [] && !force {
        return Err(RollbackConflict(preflight.conflicts));
      }
      var restored, verified := [], [];
      var ok := true;
      for i := 0 to |repo.baselines|
        invariant Restoration(Now(), restored, verified) == RestoreAll(old(Now()), repo.baselines[..i], now, host)
        invariant ok <==> AllOk(verified)
      {
        var baseline := repo.baselines[i];
        assert repo.baselines[..i + 1][..i] == repo.baselines[..i];
        var path := baseline.path;
        if baseline.existed {
          var bytes := None;
          if baseline.blobHash.Some? {
            bytes := blobs.Get(baseline.blobHash.value);
          }
          if bytes.None? {
            verified := verified + [Verified(path, false)];
            ok := false;
            assert !verified[|verified| - 1].ok;
          } else {
            WriteBytes(path, bytes.value, baseline.mode);
            restored := restored + [path];
            var written := fs.files[path];
            var modeOk := baseline.mode.None? || written.mode == baseline.mode.value;
            var verifiedOk := Some(Sha(written.bytes)) == baseline.blobHash && modeOk;
            verified := verified + [Verified(path, verifiedOk)];
            ok := ok && verifiedOk;
            assert verified[|verified| - 1].ok == verifiedOk;
            NotifyDocument(path, now);
          }
        } else {
          Remove(path);
          restored := restored + [path];
          verified := verified + [Verified(path, path !in fs.files)];
          NotifyDocument(path, now);
        }
      }
      assert repo.baselines[..|repo.baselines|] == repo.baselines;
      r := Ok(RollbackReport(ok, restored, verified, ConflictPaths(preflight.conflicts)));
    }

    method MoveToStates(targets: seq<Target>, force: bool, now: int) returns (report: StatesReport)
      requires Wired()
      modifies fs, documents
      ensures (Now(), report) == RollbackToStates(old(Now()), targets, force, now, host)
    {
      var conflicts := [];
      for i := 0 to |targets|
        invariant conflicts == TargetConflicts(fs.files, targets[..i])
      {
        var target := targets[i];
        assert targets[..i + 1][..i] == targets[..i];
        var currentHash := None;
        if target.path in fs.files {
          currentHash := Some(Sha(fs.files[target.path].bytes));
        }
        if currentHash != target.toHash && currentHash != target.expectedCurrentHash {
          conflicts := conflicts + [Conflict(target.path, currentHash, target.expectedCurrentHash)];
        }
      }
      assert targets[..|targets|] == targets;
      if conflicts != [] && !force {
        return StatesReport(false, [], [], conflicts);
      }
      var restored, verified := [], [];
      for i := 0 to |targets|
        invariant Restoration(Now(), restored, verified) == MoveAll(old(Now()), targets[..i], now, host)
      {
        var target := targets[i];
        assert targets[..i + 1][..i] == targets[..i];
        var path := target.path;
        var currentHash := None;
        if path in fs.files {
          currentHash := Some(Sha(fs.files[path].bytes));
        }
        if currentHash == target.toHash {
          verified := verified + [Verified(path, true)];
        } else if target.toHash.None? {
          Remove(path);
          restored := restored + [path];
          verified := verified + [Verified(path, path !in fs.files)];
          NotifyDocument(path, now);
        } else {
          var bytes := blobs.Get(target.toHash.value);
          if bytes.None? {
            verified := verified + [Verified(path, false)];
          } else {
            WriteBytes(path, bytes.value, None);
            restored := restored + [path];
            verified := verified + [Verified(path, Sha(fs.files[path].bytes) == target.toHash.value)];
            NotifyDocument(path, now);
          }
        }
      }
      assert targets[..|targets|] == targets;
      report := StatesReport(forall v <- verified :: v.ok, restored, verified, conflicts);
    }

    /** The change set over any way of reading the current files. */
    method ProjectChangeSet(read: Path -> Option<Current>) returns (r: ChangeSet)
      requires Wired()
      ensures r == Project(Now(), repo.baselines, read, lib)
    {
      var files: seq<ChangeSetFile> := [];
      var totalAdditions: nat, totalDeletions: nat := 0, 0;
      for i := 0 to |repo.baselines|
        invariant ChangeSet(files, totalAdditions, totalDeletions) == Project(Now(), repo.baselines[..i], read, lib)
      {
        var baseline := repo.baselines[i];
        assert repo.baselines[..i + 1][..i] == repo.baselines[..i];
        var current := read(baseline.path);
        var bytes := None;
        if baseline.blobHash.Some? {
          bytes := blobs.Get(baseline.blobHash.value);
        }
        var entry := DescribeChange(baseline, bytes, current);
        if entry.Some? {
          totalAdditions := totalAdditions + entry.value.additions;
          totalDeletions := totalDeletions + entry.value.deletions;
          files := files + [entry.value];
        }
      }
      assert repo.baselines[..|repo.baselines|] == repo.baselines;
      r := ChangeSet(files, totalAdditions, totalDeletions);
    }

    method DescribeChange(baseline: Baseline, bytes: Option<Bytes>, current: Option<Current>)
      returns (entry: Option<ChangeSetFile>)
      requires bytes == BaselineBytes(Now(), baseline)
      ensures entry == ProjectOne(Now(), baseline, current, lib)
    {
      var renamedTo := RenamedTo(repo.changes, baseline.path);
      var renamedFrom := RenamedFrom(repo.changes, baseline.path);
      if !baseline.existed && current.None? {
        return None;
      }
      var baselineText := if bytes.Some? then LogicalText(bytes.value) else "";
      var currentHash := if current.Some? then Some(current.value.hash) else None;
      var baselineHash := if bytes.Some? then Some(ShaText(baselineText)) else None;
      var status: ChangeKind;
      if !baseline.existed {
        status := if renamedFrom.Some? then Renamed else Created;
      } else if current.None? {
        if renamedTo.Some? {
          return None;
        }
        status := Deleted;
      } else if baselineHash != currentHash {
        status := Modified;
      } else {
        return None;
      }
      var binary := current.Some? && current.value.binary;
      if bytes.Some? {
        var baselineIsBinary := DetectBinary(bytes.value);
        binary := baselineIsBinary || binary;
      }
      var additions: nat, deletions: nat := 0, 0;
      if !binary {
        var stats := lib.stats(if status == Created then "" else baselineText,
                               if status == Deleted || current.None? then "" else current.value.content);
        additions, deletions := stats.0, stats.1;
      }
      entry := Some(ChangeSetFile(baseline.path, status, renamedFrom, binary, additions, deletions,
                                  baseline.blobHash, currentHash));
    }

    method RecordExternalChange(path: Path, kind: ObservedKind, author: Author) returns (record: Record)
      requires Wired()
      modifies blobs, repo
      ensures (Now(), record) == RecordExternal(old(Now()), path, kind, author)
    {
      var history := History(repo.changes, path);
      var baseline := repo.GetBaseline(path);
      var beforeHash := if history != [] then history[|history| - 1].afterHash
                        else if baseline.Some? then baseline.value.blobHash else None;
      var afterHash := None;
      if kind != Deleted && path in fs.files {
        var hash, _ := blobs.Put(fs.files[path].bytes);
        afterHash := Some(hash);
      }
      record := Record(path, kind, beforeHash, afterHash, None, author);
      repo.RecordChange(record);
    }

    method ReconcileExternalChange(path: Path, kind: ObservedKind, baselineBytes: Option<Bytes>) returns (r: Option<Record>)
      requires Wired()
      modifies blobs, repo
      ensures (Now(), r) == ReconcileExternal(old(Now()), path, kind, baselineBytes)
    {
      var baseline := EnsureBaselineFromBytes(path, baselineBytes, None);
      var history := History(repo.changes, path);
      var previousHash := baseline.blobHash;
      if history != [] && history[|history| - 1].afterHash.Some? {
        previousHash := history[|history| - 1].afterHash;
      }
      var currentHash := None;
      if kind != Deleted && path in fs.files {
        currentHash := Some(Sha(fs.files[path].bytes));
      }
      if previousHash == currentHash {
        return None;
      }
      var record := RecordExternalChange(path, kind, System);
      r := Some(record);
    }
  }
}
