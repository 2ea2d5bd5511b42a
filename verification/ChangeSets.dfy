/** The net change set of a task: baseline against current content, path by path. */
module ChangeSets {
  import opened Changes
  import opened ChangeHistory
  import opened ChangeRuns
  import opened Content
  import opened Documents
  import opened Storage
  import opened Utf8

  datatype Current = Current(content: Text, hash: Digest, binary: bool)

  function CurrentOf(bytes: Bytes): Current {
    var binary := LooksBinary(bytes);
    var content := if binary then "" else LogicalText(bytes);
    Current(content, ShaText(content), binary)
  }

  function ReadDisk(disk: Disk, path: Path): Option<Current> {
    if path in disk then Some(CurrentOf(disk[path].bytes)) else None
  }

  function ReadBuffer(w: World, path: Path): Option<Current> {
    match ReadLogicalAt(w, path)
    case None => None
    case Some(logical) => Some(Current(logical.content, logical.hash, logical.binary))
  }

  datatype ChangeSetFile = ChangeSetFile(
    path: Path, status: ChangeKind, renamedFrom: Option<Path>, binary: bool,
    additions: nat, deletions: nat, baselineHash: Option<Digest>, currentHash: Option<Digest>)

  datatype ChangeSet = ChangeSet(files: seq<ChangeSetFile>, totalAdditions: nat, totalDeletions: nat)

  function RenamedTo(log: seq<Record>, path: Path): Option<Path> {
    if log == [] then None
    else if log[0].kind == Renamed && log[0].path == path then log[0].renameTo
    else RenamedTo(log[1..], path)
  }

  function RenamedFrom(log: seq<Record>, path: Path): Option<Path> {
    if log == [] then None
    else if log[0].kind == Renamed && log[0].renameTo == Some(path) then Some(log[0].path)
    else RenamedFrom(log[1..], path)
  }

  function NetStatus(s: Plane, b: Baseline, current: Option<Current>): Option<ChangeKind> {
    var bytes := BaselineBytes(s, b);
    var baselineHash := if bytes.Some? then Some(ShaText(LogicalText(bytes.value))) else None;
    var currentHash := if current.Some? then Some(current.value.hash) else None;
    if !b.existed then
      if current.None? then None
      else if RenamedFrom(s.log, b.path).Some? then Some(Renamed)
      else Some(Created)
    else if current.None? then
      if RenamedTo(s.log, b.path).Some? then None else Some(Deleted)
    else if baselineHash != currentHash then Some(Modified)
    else None
  }

  function ProjectOne(s: Plane, b: Baseline, current: Option<Current>, lib: DiffLibrary): Option<ChangeSetFile> {
    var status := NetStatus(s, b, current);
    if status.None? then None
    else
      var bytes := BaselineBytes(s, b);
      var binary := (bytes.Some? && LooksBinary(bytes.value)) || (current.Some? && current.value.binary);
      var baselineText := if bytes.Some? && status.value != Created then LogicalText(bytes.value) else "";
      var currentText := if current.Some? && status.value != Deleted then current.value.content else "";
      var (additions, deletions) := if binary then (0, 0) else lib.stats(baselineText, currentText);
      Some(ChangeSetFile(b.path, status.value, RenamedFrom(s.log, b.path), binary, additions, deletions,
                         b.blobHash, if current.Some? then Some(current.value.hash) else None))
  }

  /** In order of first touch; the host sorts the finished list for display. */
  function Project(s: Plane, baselines: seq<Baseline>, read: Path -> Option<Current>, lib: DiffLibrary): ChangeSet {
    if baselines == [] then ChangeSet([], 0, 0)
    else
      var b := baselines[|baselines| - 1];
      var earlier := Project(s, baselines[..|baselines| - 1], read, lib);
      match ProjectOne(s, b, read(b.path), lib)
      case None => earlier
      case Some(file) =>
        ChangeSet(earlier.files + [file], earlier.totalAdditions + file.additions, earlier.totalDeletions + file.deletions)
  }

  function ChangeSetFromDisk(s: Plane, lib: DiffLibrary): ChangeSet {
    var disk := s.world.disk;
    Project(s, s.baselines, path => ReadDisk(disk, path), lib)
  }

  function ChangeSetNow(s: Plane, lib: DiffLibrary): ChangeSet {
    var w := s.world;
    Project(s, s.baselines, path => ReadBuffer(w, path), lib)
  }

  // ----- What the projection promises -----

  function SumAdditions(files: seq<ChangeSetFile>): nat {
    if files == [] then 0 else SumAdditions(files[..|files| - 1]) + files[|files| - 1].additions
  }

  function SumDeletions(files: seq<ChangeSetFile>): nat {
    if files == [] then 0 else SumDeletions(files[..|files| - 1]) + files[|files| - 1].deletions
  }

  predicate Lists(set': ChangeSet, path: Path, status: ChangeKind) {
    exists file <- set'.files :: file.path == path && file.status == status
  }

  predicate Mentions(set': ChangeSet, path: Path) {
    exists file <- set'.files :: file.path == path
  }

  lemma {:induction false} ProjectLists(s: Plane, baselines: seq<Baseline>, read: Path -> Option<Current>, lib: DiffLibrary, path: Path, status: ChangeKind)
    ensures Lists(Project(s, baselines, read, lib), path, status)
            <==> exists b <- baselines :: b.path == path && NetStatus(s, b, read(path)) == Some(status)
  {
    if baselines != [] {
      var n := |baselines| - 1;
      var rest, b := baselines[..n], baselines[n];
      ProjectLists(s, rest, read, lib, path, status);
      assert baselines == rest + [b];
      var earlier, all := Project(s, rest, read, lib), Project(s, baselines, read, lib);
      var one := ProjectOne(s, b, read(b.path), lib);
      if one.Some? {
        assert all.files == earlier.files + [one.value];
        if one.value.path == path && one.value.status == status {
          assert one.value in all.files;
        }
      }
      if Lists(earlier, path, status) {
        var file :| file in earlier.files && file.path == path && file.status == status;
        assert file in all.files;
      }
    }
  }

  /** The totals are the sums over the listed files, whatever is listed. */
  lemma {:induction false} TotalsAreSums(s: Plane, baselines: seq<Baseline>, read: Path -> Option<Current>, lib: DiffLibrary)
    ensures var all := Project(s, baselines, read, lib);
            all.totalAdditions == SumAdditions(all.files) && all.totalDeletions == SumDeletions(all.files)
  {
    if baselines != [] {
      var rest := baselines[..|baselines| - 1];
      TotalsAreSums(s, rest, read, lib);
      var earlier, all := Project(s, rest, read, lib), Project(s, baselines, read, lib);
      if all != earlier {
        assert all.files[..|all.files| - 1] == earlier.files;
      }
    }
  }

  lemma ListsTouched(s: Plane, read: Path -> Option<Current>, lib: DiffLibrary, path: Path, status: ChangeKind)
    requires Closed(s) && Touched(s, path)
    ensures Lists(Project(s, s.baselines, read, lib), path, status)
            <==> NetStatus(s, FindBaseline(s.baselines, path).value, read(path)) == Some(status)
  {
    ProjectLists(s, s.baselines, read, lib, path, status);
    forall b <- s.baselines | b.path == path
      ensures b == FindBaseline(s.baselines, path).value
    {
      FindUnique(s.baselines, b);
    }
  }

  predicate AmongBaselines(files: seq<ChangeSetFile>, baselines: seq<Baseline>) {
    forall i | 0 <= i < |files| :: FindBaseline(baselines, files[i].path).Some?
  }

  predicate DistinctFiles(files: seq<ChangeSetFile>) {
    forall i, j | 0 <= i < j < |files| :: files[i].path != files[j].path
  }

  lemma StillAmong(files: seq<ChangeSetFile>, baselines: seq<Baseline>, b: Baseline)
    requires AmongBaselines(files, baselines) && Unique(baselines + [b])
    ensures AmongBaselines(files, baselines + [b])
    ensures forall i | 0 <= i < |files| :: files[i].path != b.path
  {
    forall i | 0 <= i < |files|
      ensures FindBaseline(baselines + [b], files[i].path).Some? && files[i].path != b.path
    {
      FindAppended(baselines, b, files[i].path);
      var k :| 0 <= k < |baselines| && baselines[k] == FindBaseline(baselines, files[i].path).value;
      assert (baselines + [b])[k] == baselines[k] && (baselines + [b])[|baselines|] == b;
    }
  }

  /** A change set lists touched paths only, each at most once. */
  lemma {:induction false} ListedAreTouched(s: Plane, baselines: seq<Baseline>, read: Path -> Option<Current>, lib: DiffLibrary)
    requires Unique(baselines)
    ensures AmongBaselines(Project(s, baselines, read, lib).files, baselines)
    ensures DistinctFiles(Project(s, baselines, read, lib).files)
  {
    if baselines != [] {
      var rest, b := baselines[..|baselines| - 1], baselines[|baselines| - 1];
      assert baselines == rest + [b];
      ListedAreTouched(s, rest, read, lib);
      var earlier, one := Project(s, rest, read, lib).files, ProjectOne(s, b, read(b.path), lib);
      StillAmong(earlier, rest, b);
      if one.Some? {
        OneMoreFile(earlier, rest, b, one.value);
      }
    }
  }

  lemma OneMoreFile(files: seq<ChangeSetFile>, rest: seq<Baseline>, b: Baseline, file: ChangeSetFile)
    requires AmongBaselines(files, rest + [b]) && DistinctFiles(files) && file.path == b.path
    requires forall i | 0 <= i < |files| :: files[i].path != b.path
    ensures AmongBaselines(files + [file], rest + [b]) && DistinctFiles(files + [file])
  {
    FindAppended(rest, b, b.path);
  }

  function TextOf(bytes: Option<Bytes>): Option<Text> {
    if bytes.Some? then Some(LogicalText(bytes.value)) else None
  }

  predicate RenameFree(log: seq<Record>) {
    forall r <- log :: r.kind != Renamed
  }

  lemma {:induction false} NoRenames(log: seq<Record>, path: Path)
    requires RenameFree(log)
    ensures RenamedTo(log, path).None? && RenamedFrom(log, path).None?
  {
    if log != [] {
      NoRenames(log[1..], path);
    }
  }

  /** The status a reader expects from two versions of a text file. */
  function VisibleChange(before: Option<Text>, after: Option<Text>): Option<ChangeKind> {
    if before == after then None
    else if before.None? then Some(Created)
    else if after.None? then Some(Deleted)
    else Some(Modified)
  }

  /** Without renames, and for text, the change set lists a touched path exactly
      when its text without byte-order mark or its existence differs from the
      baseline, and under the matching status. */
  lemma NetListingIsExact(s: Plane, lib: DiffLibrary, path: Path, status: ChangeKind)
    requires Closed(s) && Touched(s, path) && RenameFree(s.log)
    requires path in s.world.disk ==> !LooksBinary(s.world.disk[path].bytes)
    ensures var before := TextOf(BaselineBytes(s, FindBaseline(s.baselines, path).value));
            var after := TextOf(BytesAt(s.world.disk, path));
            Lists(ChangeSetFromDisk(s, lib), path, status) <==> VisibleChange(before, after) == Some(status)
  {
    var b := FindBaseline(s.baselines, path).value;
    var disk := s.world.disk;
    ListsTouched(s, p => ReadDisk(disk, p), lib, path, status);
    NoRenames(s.log, path);
    assert WellRecorded(s.blobs, b);
    if b.existed && path in s.world.disk {
      var before, after := LogicalText(BaselineBytes(s, b).value), LogicalText(s.world.disk[path].bytes);
      if ShaText(before) == ShaText(after) {
        ShaTextInjective(before, after);
      }
    }
  }

  /** The change set a panel shows is taken from open buffers: it lists a touched
      path exactly when the text a reader would get differs from the baseline. */
  lemma BufferListingIsExact(s: Plane, lib: DiffLibrary, path: Path, status: ChangeKind)
    requires Closed(s) && Touched(s, path) && RenameFree(s.log)
    requires var logical := ReadLogicalAt(s.world, path);
             logical.Some? ==> !logical.value.binary && logical.value.hash == ShaText(logical.value.content)
    ensures var before := TextOf(BaselineBytes(s, FindBaseline(s.baselines, path).value));
            var logical := ReadLogicalAt(s.world, path);
            var after := if logical.Some? then Some(logical.value.content) else None;
            Lists(ChangeSetNow(s, lib), path, status) <==> VisibleChange(before, after) == Some(status)
  {
    var b, w := FindBaseline(s.baselines, path).value, s.world;
    ListsTouched(s, p => ReadBuffer(w, p), lib, path, status);
    NoRenames(s.log, path);
    assert WellRecorded(s.blobs, b);
    var logical := ReadLogicalAt(w, path);
    if b.existed && logical.Some? {
      var before := LogicalText(BaselineBytes(s, b).value);
      if ShaText(before) == ShaText(logical.value.content) {
        ShaTextInjective(before, logical.value.content);
      }
    }
  }

  lemma DiskMentions(s: Plane, lib: DiffLibrary, path: Path)
    requires Closed(s) && Touched(s, path)
    ensures Mentions(ChangeSetFromDisk(s, lib), path)
            <==> NetStatus(s, FindBaseline(s.baselines, path).value, ReadDisk(s.world.disk, path)).Some?
  {
    var all, disk := ChangeSetFromDisk(s, lib), s.world.disk;
    var status := NetStatus(s, FindBaseline(s.baselines, path).value, ReadDisk(disk, path));
    if Mentions(all, path) {
      var file :| file in all.files && file.path == path;
      assert Lists(all, path, file.status);
      ListsTouched(s, p => ReadDisk(disk, p), lib, path, file.status);
    }
    if status.Some? {
      ListsTouched(s, p => ReadDisk(disk, p), lib, path, status.value);
    }
  }

  // ----- What an entry says -----

  predicate RenamesTo(r: Record, path: Path) {
    r.kind == Renamed && r.renameTo == Some(path)
  }

  /** The origin named for a path is that of the log's first rename to it, if any. */
  lemma {:induction false} OriginIs(log: seq<Record>, path: Path) returns (i: nat)
    ensures RenamedFrom(log, path).Some? ==>
              i < |log| && RenamesTo(log[i], path) && RenamedFrom(log, path) == Some(log[i].path)
              && forall j | 0 <= j < i :: !RenamesTo(log[j], path)
    ensures RenamedFrom(log, path).None? ==> forall r <- log :: !RenamesTo(r, path)
  {
    i := 0;
    if log != [] && !RenamesTo(log[0], path) {
      var k := OriginIs(log[1..], path);
      i := k + 1;
      assert forall j | 0 < j < |log| :: log[j] == log[1..][j - 1];
    }
  }

  /** A new file is listed as renamed, from that origin, exactly when the log
      holds a rename to it, and otherwise as created. */
  lemma NewFileStatus(s: Plane, lib: DiffLibrary, path: Path)
    requires Closed(s) && Touched(s, path) && path in s.world.disk && !FindBaseline(s.baselines, path).value.existed
    ensures Lists(ChangeSetFromDisk(s, lib), path, Renamed) <==> exists r <- s.log :: RenamesTo(r, path)
    ensures Lists(ChangeSetFromDisk(s, lib), path, Created) <==> !(exists r <- s.log :: RenamesTo(r, path))
  {
    var disk := s.world.disk;
    ListsTouched(s, p => ReadDisk(disk, p), lib, path, Renamed);
    ListsTouched(s, p => ReadDisk(disk, p), lib, path, Created);
    var i := OriginIs(s.log, path);
    if RenamedFrom(s.log, path).Some? {
      assert s.log[i] in s.log;
    }
  }

  /** A file that was there and still is, whatever was renamed: it is listed, as
      modified, exactly when what is read is not the baseline's text. */
  lemma KeptFileStatus(s: Plane, lib: DiffLibrary, path: Path, status: ChangeKind)
    requires Closed(s) && Touched(s, path) && path in s.world.disk && FindBaseline(s.baselines, path).value.existed
    ensures var before := LogicalText(BaselineBytes(s, FindBaseline(s.baselines, path).value).value);
            var now := CurrentOf(s.world.disk[path].bytes).content;
            Lists(ChangeSetFromDisk(s, lib), path, status) <==> status == Modified && before != now
  {
    var disk, b := s.world.disk, FindBaseline(s.baselines, path).value;
    ListsTouched(s, p => ReadDisk(disk, p), lib, path, status);
    assert WellRecorded(s.blobs, b);
    var before, now := LogicalText(BaselineBytes(s, b).value), CurrentOf(disk[path].bytes).content;
    if ShaText(before) == ShaText(now) {
      ShaTextInjective(before, now);
    }
  }

  function TextOrEmpty(text: Option<Text>): Text {
    if text.Some? then text.value else ""
  }

  /** What an entry says of its file, given the baseline's bytes and what is read
      now: the origin, whether a side is binary, the counts of the library for the
      text before and the text after, each empty when the file was not there, and
      the hash of either side. */
  predicate EntrySays(file: ChangeSetFile, log: seq<Record>, before: Option<Bytes>, current: Option<Current>, lib: DiffLibrary) {
    && (file.renamedFrom == RenamedFrom(log, file.path))
    && (file.binary <==> (before.Some? && LooksBinary(before.value)) || (current.Some? && current.value.binary))
    && (file.additions, file.deletions) ==
       (if file.binary then (0, 0)
        else lib.stats(TextOrEmpty(TextOf(before)), if current.Some? then current.value.content else ""))
    && file.baselineHash == (if before.Some? then Some(Sha(before.value)) else None)
    && file.currentHash == (if current.Some? then Some(current.value.hash) else None)
  }

  /** Every entry of a change set, from disk or from buffers, says the truth. */
  lemma {:induction false} EntriesSay(s: Plane, baselines: seq<Baseline>, read: Path -> Option<Current>, lib: DiffLibrary, i: nat)
    returns (b: Baseline)
    requires Closed(s) && (forall b <- baselines :: b in s.baselines) && i < |Project(s, baselines, read, lib).files|
    ensures var file := Project(s, baselines, read, lib).files[i];
            && b in baselines && b.path == file.path && NetStatus(s, b, read(b.path)) == Some(file.status)
            && EntrySays(file, s.log, BaselineBytes(s, b), read(b.path), lib)
  {
    var n := |baselines| - 1;
    var rest, last := baselines[..n], baselines[n];
    var earlier := Project(s, rest, read, lib).files;
    assert baselines == rest + [last];
    if i < |earlier| {
      b := EntriesSay(s, rest, read, lib, i);
    } else {
      b := last;
      OneEntrySays(s, b, read(b.path), lib);
    }
  }

  lemma OneEntrySays(s: Plane, b: Baseline, current: Option<Current>, lib: DiffLibrary)
    requires Closed(s) && b in s.baselines && NetStatus(s, b, current).Some?
    ensures EntrySays(ProjectOne(s, b, current, lib).value, s.log, BaselineBytes(s, b), current, lib)
  {
    assert WellRecorded(s.blobs, b);
    if b.existed {
      assert Sha(s.blobs[b.blobHash.value]) == b.blobHash.value;
    }
  }

  // ----- What is listed after a rollback -----

  /** A restored file is unchanged to the projection unless it is binary. */
  lemma RestoredStatus(s: Plane, b: Baseline)
    requires Closed(s) && b in s.baselines
    requires BytesAt(s.world.disk, b.path) == BaselineBytes(s, b)
    ensures var bytes := BaselineBytes(s, b);
            NetStatus(s, b, ReadDisk(s.world.disk, b.path)).Some? <==> bytes.Some? && LooksBinary(bytes.value)
  {
    assert WellRecorded(s.blobs, b);
    if b.existed {
      var bytes := s.blobs[b.blobHash.value];
      if LooksBinary(bytes) {
        BinaryTextIsNotEmpty(bytes);
        if ShaText(LogicalText(bytes)) == ShaText("") {
          ShaTextInjective(LogicalText(bytes), "");
        }
      }
    }
  }

  /** After a rollback the change set from disk is empty except for the binary
      files the task touched: those are listed as modified although every byte
      is back, because binary content is compared as the empty text. */
  lemma AfterRollbackOnlyBinariesListed(s: Plane, path: Path, lib: DiffLibrary, force: bool, now: int, host: Host)
    requires Closed(s) && Touched(s, path) && Rollback(s, force, now, host).1.Ok?
    ensures var after := Rollback(s, force, now, host).0;
            var bytes := BaselineBytes(s, FindBaseline(s.baselines, path).value);
            Mentions(ChangeSetFromDisk(after, lib), path) <==> bytes.Some? && LooksBinary(bytes.value)
  {
    var after := Rollback(s, force, now, host).0;
    var b := FindBaseline(s.baselines, path).value;
    RollbackRestoresBytes(s, b, force, now, host);
    RollbackCloses(s, force, now, host);
    DiskMentions(after, lib, path);
    RestoredStatus(after, b);
  }

  predicate WasBinary(s: Plane, b: Baseline) {
    BaselineBytes(s, b).Some? && LooksBinary(BaselineBytes(s, b).value)
  }

  /** So the change set after a rollback is empty as a whole exactly when the
      task touched no file that was binary before. */
  lemma NothingListedAfterRollback(s: Plane, lib: DiffLibrary, force: bool, now: int, host: Host)
    requires Closed(s) && Rollback(s, force, now, host).1.Ok?
    ensures ChangeSetFromDisk(Rollback(s, force, now, host).0, lib).files == []
            <==> forall b <- s.baselines :: !WasBinary(s, b)
  {
    var after := Rollback(s, force, now, host).0;
    var all, disk := ChangeSetFromDisk(after, lib), after.world.disk;
    RollbackCloses(s, force, now, host);
    RestoreAllRestores(s, s.baselines, now, host);
    ListedAreTouched(after, after.baselines, p => ReadDisk(disk, p), lib);
    forall b <- s.baselines
      ensures Mentions(all, b.path) <==> WasBinary(s, b)
    {
      FindUnique(s.baselines, b);
      AfterRollbackOnlyBinariesListed(s, b.path, lib, force, now, host);
    }
    if all.files != [] {
      var b := FindBaseline(after.baselines, all.files[0].path).value;
      assert all.files[0] in all.files && Mentions(all, b.path);
    }
  }

  lemma RollbackRestoresBytes(s: Plane, b: Baseline, force: bool, now: int, host: Host)
    requires Closed(s) && b in s.baselines && Rollback(s, force, now, host).1.Ok?
    ensures var after := Rollback(s, force, now, host).0;
            after == s.(world := after.world) && BytesAt(after.world.disk, b.path) == BaselineBytes(s, b)
  {
    RestoreAllRestores(s, s.baselines, now, host);
    assert WellRecorded(s.blobs, b);
    assert FileAt(Rollback(s, force, now, host).0.world.disk, b.path) == RestoredFile(s, b, host);
  }

  lemma {:induction false} DecodesNul(bytes: Bytes, i: nat)
    requires i < |bytes| && bytes[i] == 0
    ensures '\0' in Decode(bytes)
    decreases |bytes|
  {
    var (c, n) := DecodeOne(bytes);
    if i >= n {
      DecodesNul(bytes[n..], i - n);
    } else {
      NulStandsAlone(bytes, i);
      assert i == 0;
    }
  }

  /** A NUL byte never belongs to a longer sequence. */
  lemma NulStandsAlone(bytes: Bytes, i: nat)
    requires i < |bytes| && bytes[i] == 0 && i < DecodeOne(bytes).1
    ensures i == 0
  {
  }

  lemma BinaryTextIsNotEmpty(bytes: Bytes)
    requires LooksBinary(bytes)
    ensures LogicalText(bytes) != ""
  {
    var i :| 0 <= i < |bytes| && bytes[i] == 0;
    DecodesNul(bytes, i);
  }
}
