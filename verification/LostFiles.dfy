/** Which files that are gone a change set still accounts for. */
module LostFiles {
  import opened Changes
  import opened ChangeHistory
  import opened ChangeRuns
  import opened ChangeSets
  import opened Content
  import opened Documents
  import opened Storage
  import opened Utf8

  /** Some entry stands for the path: its own, or one renamed from it. */
  predicate Represented(set': ChangeSet, path: Path) {
    exists i | 0 <= i < |set'.files| :: set'.files[i].path == path || set'.files[i].renamedFrom == Some(path)
  }

  predicate StandsFor(s: Plane, b: Baseline, current: Option<Current>, path: Path) {
    NetStatus(s, b, current).Some? && (b.path == path || RenamedFrom(s.log, b.path) == Some(path))
  }

  lemma {:induction false} RepresentedBy(s: Plane, baselines: seq<Baseline>, read: Path -> Option<Current>, lib: DiffLibrary, path: Path)
    ensures Represented(Project(s, baselines, read, lib), path)
            <==> exists i | 0 <= i < |baselines| :: StandsFor(s, baselines[i], read(baselines[i].path), path)
  {
    if baselines != [] {
      var n := |baselines| - 1;
      var rest, b := baselines[..n], baselines[n];
      RepresentedBy(s, rest, read, lib, path);
      RepresentedSnoc(s, baselines, read, lib, path);
      if i :| 0 <= i < |rest| && StandsFor(s, rest[i], read(rest[i].path), path) {
        assert StandsFor(s, baselines[i], read(baselines[i].path), path);
      }
      assert forall i | 0 <= i < n :: rest[i] == baselines[i];
    }
  }

  lemma RepresentedSnoc(s: Plane, baselines: seq<Baseline>, read: Path -> Option<Current>, lib: DiffLibrary, path: Path)
    requires baselines != []
    ensures var rest, b := baselines[..|baselines| - 1], baselines[|baselines| - 1];
            Represented(Project(s, baselines, read, lib), path)
            <==> Represented(Project(s, rest, read, lib), path) || StandsFor(s, b, read(b.path), path)
  {
    var rest, b := baselines[..|baselines| - 1], baselines[|baselines| - 1];
    var earlier, files := Project(s, rest, read, lib).files, Project(s, baselines, read, lib).files;
    var one := ProjectOne(s, b, read(b.path), lib);
    assert files == if one.None? then earlier else earlier + [one.value];
    if i :| 0 <= i < |earlier| && (earlier[i].path == path || earlier[i].renamedFrom == Some(path)) {
      assert files[i] == earlier[i];
    }
    if one.Some? {
      assert files[|earlier|] == one.value;
    }
  }

  /** A file the task found and that is gone is accounted for exactly when the
      task never renamed it, or some listed entry is renamed from it. */
  lemma MissingFileRepresentedIff(s: Plane, lib: DiffLibrary, path: Path)
    requires Closed(s) && Touched(s, path) && path !in s.world.disk
    requires FindBaseline(s.baselines, path).value.existed
    ensures Represented(ChangeSetFromDisk(s, lib), path)
            <==> RenamedTo(s.log, path).None?
                 || exists i | 0 <= i < |s.baselines| :: ListedFrom(s, s.baselines[i], path)
  {
    var disk, mine := s.world.disk, FindBaseline(s.baselines, path).value;
    var k :| 0 <= k < |s.baselines| && s.baselines[k] == mine;
    RepresentedBy(s, s.baselines, p => ReadDisk(disk, p), lib, path);
    forall i | 0 <= i < |s.baselines|
      ensures StandsFor(s, s.baselines[i], ReadDisk(disk, s.baselines[i].path), path)
              <==> ListedFrom(s, s.baselines[i], path) || (i == k && RenamedTo(s.log, path).None?)
    {
      if s.baselines[i].path == path {
        FindUnique(s.baselines, s.baselines[i]);
      }
    }
  }

  /** The entry of `b` is listed as renamed from `path`. */
  predicate ListedFrom(s: Plane, b: Baseline, path: Path) {
    RenamedFrom(s.log, b.path) == Some(path) && NetStatus(s, b, ReadDisk(s.world.disk, b.path)).Some?
  }

  /** Under its own path it is listed exactly when the task never renamed it. */
  lemma MissingFileListedUnlessRenamed(s: Plane, lib: DiffLibrary, path: Path)
    requires Closed(s) && Touched(s, path) && path !in s.world.disk
    requires FindBaseline(s.baselines, path).value.existed
    ensures Mentions(ChangeSetFromDisk(s, lib), path) <==> RenamedTo(s.log, path).None?
  {
    DiskMentions(s, lib, path);
  }

  // ----- One that is not lost -----

  /** A task that renames a text file to a free path has one entry: the new path,
      renamed from the old one, with the file's text counted against nothing. */
  lemma RenameIsListed(world: World, blobs: Blobs, source: Path, target: Path, lib: DiffLibrary)
    requires Intact(blobs) && source in world.disk && target !in world.disk
    requires !LooksBinary(world.disk[source].bytes)
    ensures var renamed := RenameFile(Begin(world, blobs), source, target).0;
            var set' := ChangeSetFromDisk(renamed, lib);
            var text := LogicalText(world.disk[source].bytes);
            && |set'.files| == 1
            && set'.files[0] == ChangeSetFile(target, Renamed, Some(source), false,
                                              lib.stats("", text).0, lib.stats("", text).1, None, Some(ShaText(text)))
            && set'.totalAdditions == lib.stats("", text).0 && set'.totalDeletions == lib.stats("", text).1
  {
    FirstMove(world, blobs, source, target);
    var renamed := RenameFile(Begin(world, blobs), source, target).0;
    RenameAlone(renamed, Captured(world.disk, source), Captured(world.disk, target), world.disk[source], lib);
  }

  lemma RenameAlone(s: Plane, b0: Baseline, b1: Baseline, file: File, lib: DiffLibrary)
    requires s.baselines == [b0, b1] && s.log == [MoveRecord(file, b0.path, b1.path)] && b0.path != b1.path
    requires b0.existed && !b1.existed && b1.blobHash.None?
    requires b0.path !in s.world.disk && FileAt(s.world.disk, b1.path) == Some(file) && !LooksBinary(file.bytes)
    ensures var set', text := ChangeSetFromDisk(s, lib), LogicalText(file.bytes);
            && set'.files == [ChangeSetFile(b1.path, Renamed, Some(b0.path), false,
                                            lib.stats("", text).0, lib.stats("", text).1, None, Some(ShaText(text)))]
            && set'.totalAdditions == lib.stats("", text).0 && set'.totalDeletions == lib.stats("", text).1
  {
    var disk := s.world.disk;
    var read := (p: Path) => ReadDisk(disk, p);
    assert [b0, b1][..1] == [b0] && [b0][..0] == [];
    assert Project(s, [b0], read, lib) == Project(s, [], read, lib);
    assert ProjectOne(s, b1, read(b1.path), lib).Some?;
  }

  // ----- Three ways to lose one -----

  lemma RenamedFresh(s: Plane, source: Path, target: Path)
    requires Closed(s) && source in s.world.disk && target !in s.world.disk
    ensures var file, after := s.world.disk[source], RenameFile(s, source, target).0;
            && Closed(after) && after.baselines == Ensured(Ensured(s, source), target).baselines
            && after.world == s.world.(disk := (s.world.disk - {source})[target := file])
            && after.log == s.log + [Record(source, Renamed, Some(Sha(file.bytes)), Some(Sha(file.bytes)), Some(target), Agent)]
  {
    RenameCloses(s, source, target);
  }

  function MoveRecord(file: File, source: Path, target: Path): Record {
    Record(source, Renamed, Some(Sha(file.bytes)), Some(Sha(file.bytes)), Some(target), Agent)
  }

  lemma FirstMove(world: World, blobs: Blobs, source: Path, target: Path)
    requires Intact(blobs) && source in world.disk && target !in world.disk
    ensures var file, after := world.disk[source], RenameFile(Begin(world, blobs), source, target).0;
            && Closed(after) && after.baselines == [Captured(world.disk, source), Captured(world.disk, target)]
            && after.world.disk == (world.disk - {source})[target := file]
            && after.log == [MoveRecord(file, source, target)]
  {
    RenamedFresh(Begin(world, blobs), source, target);
    FindAppended([], Captured(world.disk, source), target);
  }

  lemma SecondMove(s: Plane, b0: Baseline, b1: Baseline, target: Path)
    requires Closed(s) && s.baselines == [b0, b1] && b0.path != target && b1.path != target
    requires b1.path in s.world.disk && target !in s.world.disk
    ensures var file, after := s.world.disk[b1.path], RenameFile(s, b1.path, target).0;
            && Closed(after) && after.baselines == [b0, b1, Captured(s.world.disk, target)]
            && after.world.disk == (s.world.disk - {b1.path})[target := file]
            && after.log == s.log + [MoveRecord(file, b1.path, target)]
  {
    RenamedFresh(s, b1.path, target);
  }

  lemma OnlyTheMiddleIsNamed(s: Plane, source: Path, middle: Path, target: Path, file: File, lib: DiffLibrary)
    requires Closed(s) && source != middle && source != target && middle != target
    requires |s.baselines| == 3 && s.baselines[0].path == source && s.baselines[1].path == middle && s.baselines[2].path == target
    requires s.baselines[0].existed && !s.baselines[1].existed
    requires source !in s.world.disk && middle !in s.world.disk
    requires s.log == [MoveRecord(file, source, middle), MoveRecord(file, middle, target)]
    ensures !Represented(ChangeSetFromDisk(s, lib), source)
  {
    FindUnique(s.baselines, s.baselines[0]);
    MissingFileRepresentedIff(s, lib, source);
    assert s.log[1..] == [MoveRecord(file, middle, target)];
    assert RenamedFrom(s.log, middle) == Some(source) && RenamedFrom(s.log, target) == Some(middle);
    assert RenamedFrom(s.log[1..], source) == RenamedFrom([], source) == None;
  }

  /** A file moved on: the entry at its place says it came from the place in
      between, and nothing is left of the first. */
  lemma MovedTwiceIsLost(world: World, blobs: Blobs, source: Path, middle: Path, target: Path, lib: DiffLibrary)
    requires Intact(blobs) && source in world.disk && middle !in world.disk && target !in world.disk && middle != target
    ensures var moved := RenameFile(RenameFile(Begin(world, blobs), source, middle).0, middle, target).0;
            && moved.world.disk == (world.disk - {source})[target := world.disk[source]]
            && !Represented(ChangeSetFromDisk(moved, lib), source)
  {
    FirstMove(world, blobs, source, middle);
    var once := RenameFile(Begin(world, blobs), source, middle).0;
    SecondMove(once, Captured(world.disk, source), Captured(world.disk, middle), target);
    var moved := RenameFile(once, middle, target).0;
    assert moved.world.disk == (world.disk - {source})[target := world.disk[source]];
    OnlyTheMiddleIsNamed(moved, source, middle, target, world.disk[source], lib);
  }

  lemma DeletedFirst(world: World, blobs: Blobs, path: Path, now: int)
    requires Intact(blobs) && world.docs == map[] && path in world.disk
    ensures var file, after := world.disk[path], DeleteFile(Begin(world, blobs), path, now).0;
            && Closed(after) && after.baselines == [Captured(world.disk, path)]
            && after.world == World(world.disk - {path}, map[])
            && after.log == [Record(path, Deleted, Some(Sha(file.bytes)), None, None, Agent)]
            && GetBlob(after.blobs, Sha(file.bytes)) == Some(file.bytes)
  {
    DeleteCloses(Begin(world, blobs), path, now);
  }

  lemma MoveOnto(s: Plane, b0: Baseline, source: Path)
    requires Closed(s) && s.baselines == [b0] && b0.path != source
    requires source in s.world.disk && b0.path !in s.world.disk
    ensures var file, after := s.world.disk[source], RenameFile(s, source, b0.path).0;
            && Closed(after) && after.baselines == [b0, Captured(s.world.disk, source)]
            && after.world.disk == (s.world.disk - {source})[b0.path := file]
            && after.log == s.log + [MoveRecord(file, source, b0.path)]
            && Grows(s.blobs, after.blobs)
  {
    RenamedFresh(s, source, b0.path);
    PutKeepsBlobs(s.blobs, s.world.disk[source].bytes);
    FindAppended([b0], Captured(s.world.disk, source), b0.path);
  }

  lemma LikeAndMovedAreUnlisted(s: Plane, b0: Baseline, b1: Baseline, target: Path, like: Bytes, file: File, lib: DiffLibrary)
    requires s.baselines == [b0, b1] && b0.path == target && b1.path !in s.world.disk
    requires b0.existed && b0.blobHash == Some(Sha(like)) && GetBlob(s.blobs, Sha(like)) == Some(like)
    requires b1.existed && RenamedTo(s.log, b1.path) == Some(target)
    requires FileAt(s.world.disk, target) == Some(file) && !LooksBinary(file.bytes) && LogicalText(file.bytes) == LogicalText(like)
    ensures ChangeSetFromDisk(s, lib).files == []
  {
    var disk := s.world.disk;
    TwoUnlisted(s, b0, b1, path => ReadDisk(disk, path), lib);
  }

  /** A file moved onto one the task had deleted, with the same text: the target
      counts as unchanged and the source as moved, so nothing is listed. */
  lemma MovedOntoItsLikeIsLost(world: World, blobs: Blobs, source: Path, target: Path, lib: DiffLibrary, now: int)
    requires Intact(blobs) && world.docs == map[] && source != target
    requires source in world.disk && target in world.disk
    requires !LooksBinary(world.disk[source].bytes)
    requires LogicalText(world.disk[source].bytes) == LogicalText(world.disk[target].bytes)
    ensures var deleted := DeleteFile(Begin(world, blobs), target, now).0;
            var moved := RenameFile(deleted, source, target).0;
            && moved.world.disk == (world.disk - {source})[target := world.disk[source]]
            && ChangeSetFromDisk(moved, lib).files == []
  {
    DeletedFirst(world, blobs, target, now);
    var deleted := DeleteFile(Begin(world, blobs), target, now).0;
    MoveOnto(deleted, Captured(world.disk, target), source);
    var moved := RenameFile(deleted, source, target).0;
    assert moved.world.disk == (world.disk - {source})[target := world.disk[source]];
    assert moved.log[1..] == [MoveRecord(world.disk[source], source, target)];
    LikeAndMovedAreUnlisted(moved, Captured(world.disk, target), Captured(deleted.world.disk, source), target,
                            world.disk[target].bytes, world.disk[source], lib);
  }

  /** The trust is misplaced when the destination is deleted: a task that moves
      a file and then deletes it has an empty change set, and the file is gone. */
  lemma MovedThenDeletedVanishes(world: World, blobs: Blobs, source: Path, target: Path, lib: DiffLibrary, now: int)
    requires Intact(blobs) && world.docs == map[]
    requires source in world.disk && target !in world.disk
    ensures var moved := RenameFile(Begin(world, blobs), source, target).0;
            var gone := DeleteFile(moved, target, now).0;
            ChangeSetFromDisk(gone, lib).files == [] && gone.world.disk == world.disk - {source}
  {
    var s, file := Begin(world, blobs), world.disk[source];
    var b0, b1 := Captured(world.disk, source), Captured(world.disk, target);
    var s2 := Ensured(Ensured(s, source), target);
    assert Ensured(s, source).baselines == [b0];
    FindAppended([], b0, target);
    assert [] + [b0] == [b0];
    assert s2.baselines == [b0] + [b1];
    FindAppended([b0], b1, target);
    var moved := RenameFile(s, source, target).0;
    assert moved.world == World((world.disk - {source})[target := file], map[]);
    assert moved.log == [Record(source, Renamed, Some(Sha(file.bytes)), Some(Sha(file.bytes)), Some(target), Agent)];
    var gone := DeleteFile(moved, target, now).0;
    assert Ensured(moved, target) == moved;
    assert gone.world.disk == world.disk - {source};
    assert gone.baselines == [b0, b1];
    var disk := gone.world.disk;
    TwoUnlisted(gone, b0, b1, path => ReadDisk(disk, path), lib);
  }

  lemma TwoUnlisted(s: Plane, b0: Baseline, b1: Baseline, read: Path -> Option<Current>, lib: DiffLibrary)
    requires NetStatus(s, b0, read(b0.path)).None? && NetStatus(s, b1, read(b1.path)).None?
    ensures Project(s, [b0, b1], read, lib).files == []
  {
    assert [b0, b1][..1] == [b0] && [b0][..0] == [];
    assert Project(s, [b0], read, lib) == Project(s, [], read, lib);
  }
}
