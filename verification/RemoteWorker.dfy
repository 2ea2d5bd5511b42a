/** The remote worker's change plane (apps/desktop-main/src/remote-session-worker.ts),
    for the plain-files baseline: scan, capture, diff against the captured
    baseline, and the two-phase compare-then-apply. */
module RemoteWorker {
  import opened Content
  import opened Storage
  import opened Utf8

  const MAX_FILES: nat := 20_000
  const MAX_BASELINE_BYTES: nat := 256 * 1024 * 1024
  const MAX_FILE_BYTES: nat := 32 * 1024 * 1024
  const MAX_RESPONSE_BYTES: nat := 128 * 1024 * 1024
  const DEFAULT_MODE: Mode := 0x1A4 // rw-r--r--

  datatype FileMeta = FileMeta(hash: Digest, size: nat, mode: Mode)

  type Manifest = map<Path, FileMeta>

  /** The permission bits the worker carries. */
  function Perm(mode: Mode): Mode {
    mode % 0x200
  }

  function MetaOf(file: File): FileMeta {
    FileMeta(Sha(file.bytes), |file.bytes|, Perm(file.mode))
  }

  function ManifestOf(tree: Disk): Manifest {
    map path <- tree :: MetaOf(tree[path])
  }

  datatype EntryKind = Created | Modified | Deleted

  datatype ChangeEntry = ChangeEntry(
    path: Path, kind: EntryKind, beforeHash: Option<Digest>, afterHash: Option<Digest>,
    before: Option<Bytes>, after: Option<Bytes>, beforeMode: Option<Mode>, afterMode: Option<Mode>)

  datatype ApplyEntry = ApplyEntry(path: Path, expectedHash: Option<Digest>, data: Option<Bytes>, mode: Option<Mode>)

  datatype ApplyConflict = ApplyConflict(path: Path, expectedHash: Option<Digest>, actualHash: Option<Digest>)

  datatype WorkerError =
    | FileTooLarge(path: Path)
    | TooManyFiles
    | BaselineTooLarge
    | ResponseTooLarge
    | BlobMissing(path: Path)
    | IntegrityFailed(path: Path)
    | ChangedDuringCapture(path: Path)
    | TooManyEntries
    | Conflicted(conflicts: seq<ApplyConflict>)

  datatype Outcome<+T> = Ok(value: T) | Err(error: WorkerError)

  function Size(bytes: Option<Bytes>): nat {
    if bytes.Some? then |bytes.value| else 0
  }

  /** A listing of exactly these paths, each once. */
  ghost predicate Enumerates(paths: seq<Path>, keys: set<Path>) {
    && (forall i, j | 0 <= i < j < |paths| :: paths[i] != paths[j])
    && (forall path :: path in paths <==> path in keys)
  }

  // ----- Diff against the baseline -----

  function BytesIn(tree: Disk, path: Path): Option<Bytes> {
    if path in tree then Some(tree[path].bytes) else None
  }

  function ModeIn(tree: Disk, path: Path): Option<Mode> {
    if path in tree then Some(Perm(tree[path].mode)) else None
  }

  /** The entry a path gets when its content differs between two trees. */
  function EntryFor(baseline: Disk, current: Disk, path: Path): ChangeEntry {
    ChangeEntry(path,
                if path !in baseline then Created else if path !in current then Deleted else Modified,
                DigestAt(baseline, path), DigestAt(current, path),
                BytesIn(baseline, path), BytesIn(current, path),
                ModeIn(baseline, path), ModeIn(current, path))
  }

  /** An entry tells the truth about its path: what happened to it, and on either
      side the file's bytes, their hash and the permission bits, or nothing. */
  predicate Tells(e: ChangeEntry, baseline: Disk, current: Disk) {
    && (e.kind == Created <==> e.path !in baseline)
    && (e.kind == Deleted <==> e.path in baseline && e.path !in current)
    && (e.before.Some? <==> e.path in baseline) && (e.after.Some? <==> e.path in current)
    && (e.before.Some? ==> e.before.value == baseline[e.path].bytes && e.beforeHash == Some(Sha(e.before.value))
                           && e.beforeMode == Some(Perm(baseline[e.path].mode)))
    && (e.after.Some? ==> e.after.value == current[e.path].bytes && e.afterHash == Some(Sha(e.after.value))
                          && e.afterMode == Some(Perm(current[e.path].mode)))
    && (e.before.None? ==> e.beforeHash.None? && e.beforeMode.None?)
    && (e.after.None? ==> e.afterHash.None? && e.afterMode.None?)
  }

  /** A diff as a reader understands it: one entry for each path whose content
      differs, and each tells the truth. */
  ghost predicate IsDiffOf(entries: seq<ChangeEntry>, baseline: Disk, current: Disk) {
    && (forall i | 0 <= i < |entries| :: Tells(entries[i], baseline, current) && Differs(baseline, current, entries[i].path))
    && (forall path | Differs(baseline, current, path) :: exists i :: 0 <= i < |entries| && entries[i].path == path)
    && (forall i, j | 0 <= i < j < |entries| :: entries[i].path != entries[j].path)
  }

  predicate Differs(baseline: Disk, current: Disk, path: Path) {
    DigestAt(baseline, path) != DigestAt(current, path)
  }

  function EntriesFor(baseline: Disk, current: Disk, paths: seq<Path>): seq<ChangeEntry> {
    if paths == [] then []
    else
      var path := paths[|paths| - 1];
      EntriesFor(baseline, current, paths[..|paths| - 1])
      + (if Differs(baseline, current, path) then [EntryFor(baseline, current, path)] else [])
  }

  // ----- Limits -----

  function TotalBytes(tree: Disk, walk: seq<Path>): nat {
    if walk == [] then 0
    else TotalBytes(tree, walk[..|walk| - 1]) + Size(BytesIn(tree, walk[|walk| - 1]))
  }

  predicate Small(tree: Disk, path: Path) {
    Size(BytesIn(tree, path)) <= MAX_FILE_BYTES
  }

  predicate Scannable(tree: Disk, walk: seq<Path>) {
    && |walk| <= MAX_FILES
    && (forall i | 0 <= i < |walk| :: Small(tree, walk[i]))
    && TotalBytes(tree, walk) <= MAX_BASELINE_BYTES
  }

  predicate LimitExceeded(tree: Disk, walk: seq<Path>, error: WorkerError) {
    match error
    case FileTooLarge(path) => !Small(tree, path)
    case TooManyFiles => |walk| > MAX_FILES
    case BaselineTooLarge => TotalBytes(tree, walk) > MAX_BASELINE_BYTES
    case _ => false
  }

  /** The manifest of the files visited so far. */
  function ScannedFiles(tree: Disk, walk: seq<Path>): Manifest
    requires forall i | 0 <= i < |walk| :: walk[i] in tree
  {
    if walk == [] then map[]
    else ScannedFiles(tree, walk[..|walk| - 1])[walk[|walk| - 1] := MetaOf(tree[walk[|walk| - 1]])]
  }

  lemma {:induction false} ScannedFilesAre(tree: Disk, walk: seq<Path>)
    requires forall i | 0 <= i < |walk| :: walk[i] in tree
    ensures forall path :: path in ScannedFiles(tree, walk) <==> path in walk
    ensures forall path <- ScannedFiles(tree, walk) :: path in tree && ScannedFiles(tree, walk)[path] == MetaOf(tree[path])
  {
    if walk != [] {
      ScannedFilesAre(tree, walk[..|walk| - 1]);
      assert walk == walk[..|walk| - 1] + [walk[|walk| - 1]];
    }
  }

  lemma ScannedAll(tree: Disk, walk: seq<Path>)
    requires Enumerates(walk, tree.Keys)
    ensures forall i | 0 <= i < |walk| :: walk[i] in tree
    ensures ScannedFiles(tree, walk) == ManifestOf(tree)
  {
    assert forall i | 0 <= i < |walk| :: walk[i] in walk;
    ScannedFilesAre(tree, walk);
    assert ScannedFiles(tree, walk).Keys == tree.Keys;
  }

  function PayloadBytes(entries: seq<ChangeEntry>): nat {
    if entries == [] then 0
    else
      var e := entries[|entries| - 1];
      PayloadBytes(entries[..|entries| - 1]) + Size(e.before) + Size(e.after)
  }

  lemma {:induction false} TotalGrows(tree: Disk, walk: seq<Path>, n: nat)
    requires n <= |walk|
    ensures TotalBytes(tree, walk[..n]) <= TotalBytes(tree, walk)
    decreases |walk| - n
  {
    if n == |walk| {
      assert walk[..n] == walk;
    } else {
      TotalGrows(tree, walk, n + 1);
      assert walk[..n + 1][..n] == walk[..n];
    }
  }

  lemma PayloadAppend(entries: seq<ChangeEntry>, e: ChangeEntry)
    ensures PayloadBytes(entries + [e]) == PayloadBytes(entries) + Size(e.before) + Size(e.after)
  {
    assert (entries + [e])[..|entries|] == entries;
  }

  lemma EntriesForSnoc(baseline: Disk, current: Disk, paths: seq<Path>, n: nat)
    requires n < |paths|
    ensures var earlier, entries := EntriesFor(baseline, current, paths[..n]), EntriesFor(baseline, current, paths[..n + 1]);
            if Differs(baseline, current, paths[n])
            then var e := EntryFor(baseline, current, paths[n]);
              entries == earlier + [e] && PayloadBytes(entries) == PayloadBytes(earlier) + Size(e.before) + Size(e.after)
            else entries == earlier
  {
    var earlier := EntriesFor(baseline, current, paths[..n]);
    assert paths[..n + 1][..n] == paths[..n];
    PayloadAppend(earlier, EntryFor(baseline, current, paths[n]));
    assert earlier + [] == earlier;
  }

  lemma {:induction false} PayloadGrows(baseline: Disk, current: Disk, paths: seq<Path>, n: nat)
    requires n <= |paths|
    ensures PayloadBytes(EntriesFor(baseline, current, paths[..n])) <= PayloadBytes(EntriesFor(baseline, current, paths))
    decreases |paths| - n
  {
    if n == |paths| {
      assert paths[..n] == paths;
    } else {
      PayloadGrows(baseline, current, paths, n + 1);
      EntriesForSnoc(baseline, current, paths, n);
    }
  }

  predicate Kept(blobs: Blobs, baseline: Disk, current: Disk, path: Path) {
    path in baseline && Differs(baseline, current, path) ==> Sha(baseline[path].bytes) in blobs
  }

  /** Every baseline content the diff must show is still stored. */
  predicate Recoverable(blobs: Blobs, baseline: Disk, current: Disk, paths: seq<Path>) {
    forall i | 0 <= i < |paths| :: Kept(blobs, baseline, current, paths[i])
  }

  /** The diff of the first `n` paths, within the limit. */
  predicate Collected(blobs: Blobs, baseline: Disk, current: Disk, paths: seq<Path>, n: nat,
                      entries: seq<ChangeEntry>, responseBytes: nat) {
    && n <= |paths|
    && entries == EntriesFor(baseline, current, paths[..n])
    && responseBytes == PayloadBytes(entries) <= MAX_RESPONSE_BYTES
    && forall i | 0 <= i < n :: Kept(blobs, baseline, current, paths[i])
  }

  /** One path more, or the reason why the whole diff fails. */
  lemma CollectNext(blobs: Blobs, baseline: Disk, current: Disk, paths: seq<Path>, n: nat,
                    entries: seq<ChangeEntry>, responseBytes: nat)
    requires n < |paths| && Collected(blobs, baseline, current, paths, n, entries, responseBytes)
    ensures var path := paths[n];
            var e := EntryFor(baseline, current, path);
            var bytes := responseBytes + Size(e.before) + Size(e.after);
            if !Differs(baseline, current, path) then Collected(blobs, baseline, current, paths, n + 1, entries, responseBytes)
            else if !Kept(blobs, baseline, current, path) then !Recoverable(blobs, baseline, current, paths)
            else if bytes > MAX_RESPONSE_BYTES then PayloadBytes(EntriesFor(baseline, current, paths)) > MAX_RESPONSE_BYTES
            else Collected(blobs, baseline, current, paths, n + 1, entries + [e], bytes)
  {
    EntriesForSnoc(baseline, current, paths, n);
    PayloadGrows(baseline, current, paths, n + 1);
  }

  function EntriesOf(baseline: Disk, current: Disk, paths: seq<Path>): (entries: seq<ChangeEntry>)
    ensures |entries| == |paths|
  {
    seq(|paths|, i requires 0 <= i < |paths| => EntryFor(baseline, current, paths[i]))
  }

  lemma EntriesOfSnoc(baseline: Disk, current: Disk, paths: seq<Path>, n: nat)
    requires n < |paths|
    ensures EntriesOf(baseline, current, paths[..n + 1])
            == EntriesOf(baseline, current, paths[..n]) + [EntryFor(baseline, current, paths[n])]
    ensures PayloadBytes(EntriesOf(baseline, current, paths[..n + 1]))
            == PayloadBytes(EntriesOf(baseline, current, paths[..n]))
               + Size(BytesIn(baseline, paths[n])) + Size(BytesIn(current, paths[n]))
  {
    assert EntriesOf(baseline, current, paths[..n + 1])
        == EntriesOf(baseline, current, paths[..n]) + [EntryFor(baseline, current, paths[n])];
    PayloadAppend(EntriesOf(baseline, current, paths[..n]), EntryFor(baseline, current, paths[n]));
  }

  lemma {:induction false} InspectionGrows(baseline: Disk, current: Disk, paths: seq<Path>, n: nat)
    requires n <= |paths|
    ensures PayloadBytes(EntriesOf(baseline, current, paths[..n])) <= PayloadBytes(EntriesOf(baseline, current, paths))
    decreases |paths| - n
  {
    if n == |paths| {
      assert paths[..n] == paths;
    } else {
      InspectionGrows(baseline, current, paths, n + 1);
      EntriesOfSnoc(baseline, current, paths, n);
    }
  }

  // ----- Applying entries -----

  function EntryMode(e: ApplyEntry): Mode {
    if e.mode.Some? then Perm(e.mode.value) else DEFAULT_MODE
  }

  function ConflictsOf(tree: Disk, entries: seq<ApplyEntry>): seq<ApplyConflict> {
    if entries == [] then []
    else
      var e := entries[|entries| - 1];
      ConflictsOf(tree, entries[..|entries| - 1])
      + (if DigestAt(tree, e.path) == e.expectedHash then [] else [ApplyConflict(e.path, e.expectedHash, DigestAt(tree, e.path))])
  }

  function WriteEntry(tree: Disk, e: ApplyEntry): Disk {
    if e.data.None? then tree - {e.path}
    else tree[e.path := File(e.data.value, EntryMode(e))]
  }

  function WriteEntries(tree: Disk, entries: seq<ApplyEntry>): Disk {
    if entries == [] then tree
    else WriteEntry(WriteEntries(tree, entries[..|entries| - 1]), entries[|entries| - 1])
  }

  /** Entries the worker accepts at all: not too many, none too large. */
  predicate Acceptable(tree: Disk, entries: seq<ApplyEntry>) {
    && |entries| <= MAX_FILES
    && forall e <- entries :: Size(e.data) <= MAX_FILE_BYTES && Size(BytesIn(tree, e.path)) <= MAX_FILE_BYTES
  }

  /** A request that is carried out. */
  predicate Goes(tree: Disk, entries: seq<ApplyEntry>) {
    Acceptable(tree, entries) && ConflictsOf(tree, entries) == []
  }

  datatype Applied = Applied(path: Path, hash: Option<Digest>)

  function AppliedOf(entries: seq<ApplyEntry>): seq<Applied> {
    seq(|entries|, i requires 0 <= i < |entries| =>
      Applied(entries[i].path, if entries[i].data.Some? then Some(Sha(entries[i].data.value)) else None))
  }

  class Worker {
    /** The regular files below the root that a scan reaches. */
    var tree: Disk
    /** The session's captured baseline. */
    var manifest: Manifest
    var blobs: Blobs

    constructor (tree: Disk)
      ensures this.tree == tree && manifest == map[] && blobs == map[]
    {
      this.tree := tree;
      manifest, blobs := map[], map[];
    }

    /** Scan in the order the directory walk visits the files: all within the
        limits, or an error that names a limit exceeded. */
    method ScanFiles(walk: seq<Path>) returns (r: Outcome<Manifest>)
      requires Enumerates(walk, tree.Keys)
      ensures r.Ok? <==> Scannable(tree, walk)
      ensures r.Ok? ==> r.value == ManifestOf(tree)
      ensures r.Err? ==> LimitExceeded(tree, walk, r.error)
    {
      ScannedAll(tree, walk);
      r := ScanWalk(walk);
    }

    method ScanWalk(walk: seq<Path>) returns (r: Outcome<Manifest>)
      requires forall i | 0 <= i < |walk| :: walk[i] in tree
      ensures r.Ok? <==> Scannable(tree, walk)
      ensures r.Ok? ==> r.value == ScannedFiles(tree, walk)
      ensures r.Err? ==> LimitExceeded(tree, walk, r.error)
    {
      var output: Manifest := map[];
      var bytes := 0;
      for i := 0 to |walk|
        invariant i <= MAX_FILES && bytes == TotalBytes(tree, walk[..i]) <= MAX_BASELINE_BYTES
        invariant output == ScannedFiles(tree, walk[..i])
        invariant forall k | 0 <= k < i :: Small(tree, walk[k])
      {
        assert walk[..i + 1][..i] == walk[..i];
        TotalGrows(tree, walk, i + 1);
        var file := tree[walk[i]];
        if |file.bytes| > MAX_FILE_BYTES {
          assert !Small(tree, walk[i]);
          return Err(FileTooLarge(walk[i]));
        }
        bytes := bytes + |file.bytes|;
        if i + 1 > MAX_FILES {
          return Err(TooManyFiles);
        }
        if bytes > MAX_BASELINE_BYTES {
          return Err(BaselineTooLarge);
        }
        output := output[walk[i] := MetaOf(file)];
      }
      assert walk[..|walk|] == walk;
      r := Ok(output);
    }

    /** Keep the content of every file of a manifest, each distinct content once.
        It fails only on a file that is no longer as scanned. */
    method CaptureFileBaseline(scanned: Manifest, order: seq<Path>) returns (failure: Option<WorkerError>)
      requires Enumerates(order, scanned.Keys)
      requires Intact(blobs)
      modifies this
      ensures tree == old(tree) && Intact(blobs) && Grows(old(blobs), blobs)
      ensures failure.None? ==> manifest == scanned && forall path <- scanned :: scanned[path].hash in blobs
      ensures failure.Some? ==> manifest == old(manifest) && failure.value.ChangedDuringCapture?
                                && failure.value.path in scanned
                                && scanned[failure.value.path].hash !in old(blobs)
                                && DigestAt(tree, failure.value.path) != Some(scanned[failure.value.path].hash)
      ensures (forall path <- scanned :: DigestAt(tree, path) == Some(scanned[path].hash)) ==> failure.None?
    {
      for i := 0 to |order|
        invariant tree == old(tree) && manifest == old(manifest)
        invariant Intact(blobs) && Grows(old(blobs), blobs)
        invariant forall k | 0 <= k < i :: scanned[order[k]].hash in blobs
      {
        var path := order[i];
        assert path in order;
        var meta := scanned[path];
        if meta.hash !in blobs {
          if path !in tree || Sha(tree[path].bytes) != meta.hash {
            return Some(ChangedDuringCapture(path));
          }
          blobs := blobs[meta.hash := tree[path].bytes];
        }
      }
      manifest := scanned;
      forall path <- scanned
        ensures scanned[path].hash in blobs
      {
        assert path in order;
      }
      failure := None;
    }

    method ReadBaselineBlob(path: Path, meta: FileMeta) returns (r: Outcome<Bytes>)
      ensures r.Ok? <==> meta.hash in blobs && Sha(blobs[meta.hash]) == meta.hash
      ensures r.Ok? ==> r.value == blobs[meta.hash] && Sha(r.value) == meta.hash
      ensures r.Err? ==> r.error == if meta.hash !in blobs then BlobMissing(path) else IntegrityFailed(path)
    {
      if meta.hash !in blobs {
        return Err(BlobMissing(path));
      }
      var bytes := blobs[meta.hash];
      if Sha(bytes) != meta.hash {
        return Err(IntegrityFailed(path));
      }
      r := Ok(bytes);
    }

    /** What changed since the baseline, in the order of `paths`: everything, or
        an error when a limit is exceeded or a blob it needs is missing. */
    method FileChanges(walk: seq<Path>, paths: seq<Path>, ghost baseline: Disk) returns (r: Outcome<seq<ChangeEntry>>)
      requires Enumerates(walk, tree.Keys) && Enumerates(paths, manifest.Keys + tree.Keys)
      requires manifest == ManifestOf(baseline) && Intact(blobs)
      ensures r.Ok? <==> Scannable(tree, walk) && Recoverable(blobs, baseline, tree, paths)
                         && PayloadBytes(EntriesFor(baseline, tree, paths)) <= MAX_RESPONSE_BYTES
      ensures r.Ok? ==> r.value == EntriesFor(baseline, tree, paths) && IsDiffOf(r.value, baseline, tree)
    {
      DiffTells(baseline, tree, paths);
      var current := ScanFiles(walk);
      if current.Err? {
        return Err(current.error);
      }
      r := CollectChanges(current.value, paths, baseline);
    }

    method CollectChanges(current: Manifest, paths: seq<Path>, ghost baseline: Disk) returns (r: Outcome<seq<ChangeEntry>>)
      requires current == ManifestOf(tree) && manifest == ManifestOf(baseline) && Intact(blobs)
      ensures r.Ok? <==> Recoverable(blobs, baseline, tree, paths) && PayloadBytes(EntriesFor(baseline, tree, paths)) <= MAX_RESPONSE_BYTES
      ensures r.Ok? ==> r.value == EntriesFor(baseline, tree, paths)
    {
      var entries: seq<ChangeEntry> := [];
      var responseBytes: nat := 0;
      for i := 0 to |paths|
        invariant Collected(blobs, baseline, tree, paths, i, entries, responseBytes)
      {
        CollectNext(blobs, baseline, tree, paths, i, entries, responseBytes);
        var changed := HashChanged(current, paths[i], baseline);
        if changed {
          var entry := Describe(paths[i], baseline);
          if entry.Err? {
            return Err(entry.error);
          }
          responseBytes := responseBytes + Size(entry.value.before) + Size(entry.value.after);
          if responseBytes > MAX_RESPONSE_BYTES {
            return Err(ResponseTooLarge);
          }
          entries := entries + [entry.value];
        }
      }
      assert paths[..|paths|] == paths;
      r := Ok(entries);
    }

    method HashChanged(current: Manifest, path: Path, ghost baseline: Disk) returns (changed: bool)
      requires current == ManifestOf(tree) && manifest == ManifestOf(baseline)
      ensures changed <==> Differs(baseline, tree, path)
    {
      var beforeHash := if path in manifest then Some(manifest[path].hash) else None;
      var afterHash := if path in current then Some(current[path].hash) else None;
      changed := beforeHash != afterHash;
    }

    /** Both sides of one path. */
    method Describe(path: Path, ghost baseline: Disk) returns (r: Outcome<ChangeEntry>)
      requires manifest == ManifestOf(baseline) && Intact(blobs)
      ensures r.Ok? <==> (path in baseline ==> Sha(baseline[path].bytes) in blobs)
      ensures r.Ok? ==> r.value == EntryFor(baseline, tree, path)
    {
      var before: Option<Bytes>, after: Option<Bytes> := None, BytesIn(tree, path);
      if path in manifest {
        var blob := ReadBaselineBlob(path, manifest[path]);
        if blob.Err? {
          return Err(blob.error);
        }
        before := Some(blob.value);
      }
      r := Ok(ChangeEntry(path, if before.None? then Created else if after.None? then Deleted else Modified,
                          if before.None? then None else Some(Sha(before.value)),
                          if after.None? then None else Some(Sha(after.value)), before, after,
                          if path in manifest then Some(manifest[path].mode) else None, ModeIn(tree, path)));
    }

    /** First compare every entry, then write them all. */
    method ApplyChanges(entries: seq<ApplyEntry>) returns (r: Outcome<seq<Applied>>)
      modifies this
      ensures manifest == old(manifest) && blobs == old(blobs)
      ensures r.Ok? <==> Goes(old(tree), entries)
      ensures r.Err? ==> tree == old(tree)
      ensures Acceptable(old(tree), entries) ==>
                r == if ConflictsOf(old(tree), entries) != [] then Err(Conflicted(ConflictsOf(old(tree), entries)))
                     else Ok(AppliedOf(entries))
      ensures !Acceptable(old(tree), entries) ==> r.Err? && !r.error.Conflicted?
      ensures r.Ok? ==> tree == WriteEntries(old(tree), entries)
    {
      if |entries| > MAX_FILES {
        return Err(TooManyEntries);
      }
      for i := 0 to |entries|
        invariant forall k | 0 <= k < i :: Size(entries[k].data) <= MAX_FILE_BYTES
      {
        if Size(entries[i].data) > MAX_FILE_BYTES {
          assert entries[i] in entries;
          return Err(FileTooLarge(entries[i].path));
        }
      }
      var conflicts := Compare(entries);
      if conflicts.Err? {
        return Err(conflicts.error);
      }
      if conflicts.value != [] {
        return Err(Conflicted(conflicts.value));
      }
      var applied := WriteAll(entries);
      r := Ok(applied);
    }

    method Compare(entries: seq<ApplyEntry>) returns (r: Outcome<seq<ApplyConflict>>)
      ensures r.Ok? ==> r.value == ConflictsOf(tree, entries)
      ensures r.Ok? <==> forall e <- entries :: Size(BytesIn(tree, e.path)) <= MAX_FILE_BYTES
      ensures r.Err? ==> r.error.FileTooLarge?
    {
      var conflicts: seq<ApplyConflict> := [];
      for i := 0 to |entries|
        invariant conflicts == ConflictsOf(tree, entries[..i])
        invariant forall k | 0 <= k < i :: Size(BytesIn(tree, entries[k].path)) <= MAX_FILE_BYTES
      {
        var entry := entries[i];
        assert entries[..i + 1][..i] == entries[..i];
        if Size(BytesIn(tree, entry.path)) > MAX_FILE_BYTES {
          assert entry in entries;
          return Err(FileTooLarge(entry.path));
        }
        var actualHash := if entry.path in tree then Some(Sha(tree[entry.path].bytes)) else None;
        if actualHash != entry.expectedHash {
          conflicts := conflicts + [ApplyConflict(entry.path, entry.expectedHash, actualHash)];
        }
      }
      assert entries[..|entries|] == entries;
      r := Ok(conflicts);
    }

    method WriteAll(entries: seq<ApplyEntry>) returns (applied: seq<Applied>)
      modifies this
      ensures manifest == old(manifest) && blobs == old(blobs)
      ensures tree == WriteEntries(old(tree), entries) && applied == AppliedOf(entries)
    {
      applied := [];
      for i := 0 to |entries|
        invariant tree == WriteEntries(old(tree), entries[..i])
        invariant manifest == old(manifest) && blobs == old(blobs)
        invariant applied == AppliedOf(entries)[..i]
      {
        var entry := entries[i];
        assert entries[..i + 1][..i] == entries[..i];
        if entry.data.None? {
          tree := tree - {entry.path};
          applied := applied + [Applied(entry.path, None)];
        } else {
          tree := tree[entry.path := File(entry.data.value, if entry.mode.Some? then Perm(entry.mode.value) else DEFAULT_MODE)];
          applied := applied + [Applied(entry.path, Some(Sha(entry.data.value)))];
        }
      }
      assert entries[..|entries|] == entries;
    }

    predicate Inspectable(baseline: Disk, path: Path)
      reads this
    {
      (path in baseline ==> Sha(baseline[path].bytes) in blobs) && Small(tree, path)
    }

    /** Both sides of the requested paths, changed or not; `paths` lists each once. */
    method InspectPaths(requested: seq<Path>, paths: seq<Path>, ghost baseline: Disk) returns (r: Outcome<seq<ChangeEntry>>)
      requires manifest == ManifestOf(baseline) && Intact(blobs)
      requires Enumerates(paths, set path | path in requested)
      ensures r.Ok? <==>
                && |requested| <= MAX_FILES
                && (forall path <- paths :: Inspectable(baseline, path))
                && PayloadBytes(EntriesOf(baseline, tree, paths)) <= MAX_RESPONSE_BYTES
      ensures r.Ok? ==> r.value == EntriesOf(baseline, tree, paths)
      ensures r.Ok? ==> |r.value| == |paths| && forall i | 0 <= i < |paths| ::
                r.value[i].path == paths[i] && Tells(r.value[i], baseline, tree)
    {
      if |requested| > MAX_FILES {
        return Err(TooManyEntries);
      }
      var entries: seq<ChangeEntry> := [];
      var responseBytes := 0;
      for i := 0 to |paths|
        invariant entries == EntriesOf(baseline, tree, paths[..i])
        invariant responseBytes == PayloadBytes(entries) <= MAX_RESPONSE_BYTES
        invariant forall k | 0 <= k < i :: Inspectable(baseline, paths[k])
      {
        var path := paths[i];
        assert path in paths;
        EntriesOfSnoc(baseline, tree, paths, i);
        InspectionGrows(baseline, tree, paths, i + 1);
        var entry := Describe(path, baseline);
        if entry.Err? {
          return Err(entry.error);
        }
        if Size(entry.value.after) > MAX_FILE_BYTES {
          return Err(FileTooLarge(path));
        }
        responseBytes := responseBytes + Size(entry.value.before) + Size(entry.value.after);
        if responseBytes > MAX_RESPONSE_BYTES {
          return Err(ResponseTooLarge);
        }
        entries := entries + [entry.value];
      }
      assert paths[..|paths|] == paths;
      InspectionTells(baseline, tree, paths);
      r := Ok(entries);
    }
  }

  // ----- Diff and apply undo each other -----

  /** The request that carries a change over from the baseline, and the one that takes it back. */
  function Forward(e: ChangeEntry): ApplyEntry {
    ApplyEntry(e.path, e.beforeHash, e.after, e.afterMode)
  }

  function Backward(e: ChangeEntry): ApplyEntry {
    ApplyEntry(e.path, e.afterHash, e.before, e.beforeMode)
  }

  function Requests(entries: seq<ChangeEntry>, forward: bool): (requests: seq<ApplyEntry>)
    ensures |requests| == |entries|
    ensures forall i | 0 <= i < |entries| :: requests[i].path == entries[i].path
  {
    seq(|entries|, i requires 0 <= i < |entries| => if forward then Forward(entries[i]) else Backward(entries[i]))
  }

  /** The file as a request can carry it. */
  function Portable(file: Option<File>): Option<File> {
    if file.Some? then Some(File(file.value.bytes, Perm(file.value.mode))) else None
  }

  predicate SameContents(a: Disk, b: Disk) {
    a.Keys == b.Keys && forall path <- a :: a[path].bytes == b[path].bytes
  }

  predicate DistinctPaths(entries: seq<ApplyEntry>) {
    forall i, j | 0 <= i < j < |entries| :: entries[i].path != entries[j].path
  }

  function Written(e: ApplyEntry): Option<File> {
    if e.data.None? then None
    else Some(File(e.data.value, EntryMode(e)))
  }

  lemma WriteEntryEffect(tree: Disk, e: ApplyEntry)
    ensures FileAt(WriteEntry(tree, e), e.path) == Written(e)
    ensures forall path | path != e.path :: FileAt(WriteEntry(tree, e), path) == FileAt(tree, path)
  {
  }

  /** Writing entries for distinct paths puts each in place and touches nothing else. */
  lemma {:induction false} WriteEntriesEffect(tree: Disk, entries: seq<ApplyEntry>)
    requires DistinctPaths(entries)
    ensures var result := WriteEntries(tree, entries);
            && (forall e <- entries :: FileAt(result, e.path) == Written(e))
            && (forall path | forall e <- entries :: e.path != path :: FileAt(result, path) == FileAt(tree, path))
  {
    if entries != [] {
      var n := |entries| - 1;
      var rest, e := entries[..n], entries[n];
      WriteEntriesEffect(tree, rest);
      var earlier, result := WriteEntries(tree, rest), WriteEntries(tree, entries);
      WriteEntryEffect(earlier, e);
      forall other <- entries
        ensures FileAt(result, other.path) == Written(other)
      {
        var i :| 0 <= i < |entries| && entries[i] == other;
        assert i < n ==> rest[i] == other && other in rest && FileAt(result, other.path) == FileAt(earlier, other.path);
      }
      forall path | forall other <- entries :: other.path != path
        ensures FileAt(result, path) == FileAt(tree, path)
      {
        assert e in entries && forall other <- rest :: other in entries;
      }
    }
  }

  lemma {:induction false} NoConflictIff(tree: Disk, entries: seq<ApplyEntry>)
    ensures ConflictsOf(tree, entries) == [] <==> forall e <- entries :: DigestAt(tree, e.path) == e.expectedHash
  {
    if entries != [] {
      var n := |entries| - 1;
      NoConflictIff(tree, entries[..n]);
      assert entries == entries[..n] + [entries[n]];
    }
  }

  /** A refused request names exactly the entries whose file is not as expected,
      with the hash it found, in request order. */
  lemma {:induction false} ConflictsAreExact(tree: Disk, entries: seq<ApplyEntry>, c: ApplyConflict)
    ensures c in ConflictsOf(tree, entries) <==>
            exists e <- entries :: DigestAt(tree, e.path) != e.expectedHash
                                   && c == ApplyConflict(e.path, e.expectedHash, DigestAt(tree, e.path))
  {
    if entries != [] {
      var n := |entries| - 1;
      var rest, last := entries[..n], entries[n];
      ConflictsAreExact(tree, rest, c);
      assert entries == rest + [last];
      if c in ConflictsOf(tree, rest) {
        var e :| e in rest && DigestAt(tree, e.path) != e.expectedHash
                 && c == ApplyConflict(e.path, e.expectedHash, DigestAt(tree, e.path));
        assert e in entries;
      } else if c in ConflictsOf(tree, entries) {
        assert last in entries;
      }
    }
  }

  /** The diff of two trees has one entry for each path whose content differs. */
  lemma {:induction false} EntriesAre(baseline: Disk, current: Disk, paths: seq<Path>)
    requires forall i, j | 0 <= i < j < |paths| :: paths[i] != paths[j]
    ensures var entries := EntriesFor(baseline, current, paths);
            && (forall e <- entries :: e.path in paths && Differs(baseline, current, e.path) && e == EntryFor(baseline, current, e.path))
            && (forall path <- paths :: Differs(baseline, current, path) ==> EntryFor(baseline, current, path) in entries)
            && (forall i, j | 0 <= i < j < |entries| :: entries[i].path != entries[j].path)
  {
    if paths != [] {
      var n := |paths| - 1;
      EntriesAre(baseline, current, paths[..n]);
      assert paths == paths[..n] + [paths[n]];
    }
  }

  lemma EntryTells(baseline: Disk, current: Disk, path: Path)
    ensures var e := EntryFor(baseline, current, path); e.path == path && Tells(e, baseline, current)
  {
  }

  /** The diff of two trees, over any listing of their paths, is one. */
  lemma DiffTells(baseline: Disk, current: Disk, paths: seq<Path>)
    requires Enumerates(paths, baseline.Keys + current.Keys)
    ensures IsDiffOf(EntriesFor(baseline, current, paths), baseline, current)
  {
    var entries := EntriesFor(baseline, current, paths);
    EntriesAre(baseline, current, paths);
    forall i | 0 <= i < |entries|
      ensures Tells(entries[i], baseline, current) && Differs(baseline, current, entries[i].path)
    {
      assert entries[i] in entries;
      EntryTells(baseline, current, entries[i].path);
    }
    forall path | Differs(baseline, current, path)
      ensures exists i :: 0 <= i < |entries| && entries[i].path == path
    {
      assert path in paths;
      var i :| 0 <= i < |entries| && entries[i] == EntryFor(baseline, current, path);
      assert entries[i].path == path;
    }
  }

  lemma InspectionTells(baseline: Disk, current: Disk, paths: seq<Path>)
    ensures forall i | 0 <= i < |paths| ::
              EntriesOf(baseline, current, paths)[i].path == paths[i]
              && Tells(EntriesOf(baseline, current, paths)[i], baseline, current)
  {
    forall i | 0 <= i < |paths| {
      EntryTells(baseline, current, paths[i]);
    }
  }

  /** What a success reports is what is then on disk. */
  lemma AppliedIsOnDisk(tree: Disk, entries: seq<ApplyEntry>, i: nat)
    requires DistinctPaths(entries) && i < |entries|
    ensures AppliedOf(entries)[i].path == entries[i].path
    ensures AppliedOf(entries)[i].hash == DigestAt(WriteEntries(tree, entries), entries[i].path)
  {
    WriteEntriesEffect(tree, entries);
    assert entries[i] in entries;
    assert FileAt(WriteEntries(tree, entries), entries[i].path) == Written(entries[i]);
  }

  /** A manifest names exactly the files, with hash, size and permission bits. */
  lemma ManifestTells(tree: Disk, path: Path)
    ensures path in ManifestOf(tree) <==> path in tree
    ensures path in tree ==>
              ManifestOf(tree)[path] == FileMeta(Sha(tree[path].bytes), |tree[path].bytes|, tree[path].mode % 0x200)
  {
  }

  lemma SameContentsIff(a: Disk, b: Disk)
    ensures SameContents(a, b) <==> forall path :: !Differs(a, b, path)
  {
    if forall path :: !Differs(a, b, path) {
      forall path
        ensures path in a <==> path in b
        ensures path in a ==> a[path].bytes == b[path].bytes
      {
        assert !Differs(a, b, path);
      }
    }
  }

  /** Exactly the contents differ when the diff is not empty. */
  lemma EmptyDiffIff(baseline: Disk, current: Disk, paths: seq<Path>)
    requires Enumerates(paths, baseline.Keys + current.Keys)
    ensures EntriesFor(baseline, current, paths) == [] <==> SameContents(baseline, current)
  {
    var entries := EntriesFor(baseline, current, paths);
    EntriesAre(baseline, current, paths);
    SameContentsIff(baseline, current);
    if entries == [] {
      forall path
        ensures !Differs(baseline, current, path)
      {
        assert path in paths <==> path in baseline.Keys + current.Keys;
      }
    } else {
      assert entries[0] in entries && Differs(baseline, current, entries[0].path);
    }
  }

  /** A request for a differing path expects one side and writes the other. */
  predicate IsRequest(baseline: Disk, current: Disk, request: ApplyEntry, forward: bool) {
    var source, goal := if forward then baseline else current, if forward then current else baseline;
    && Differs(baseline, current, request.path)
    && request.expectedHash == DigestAt(source, request.path) && Written(request) == Portable(FileAt(goal, request.path))
  }

  lemma RequestOf(baseline: Disk, current: Disk, path: Path)
    requires Differs(baseline, current, path)
    ensures IsRequest(baseline, current, Forward(EntryFor(baseline, current, path)), true)
    ensures IsRequest(baseline, current, Backward(EntryFor(baseline, current, path)), false)
  {
  }

  /** What each request expects and writes, and that every difference has one. */
  lemma RequestsAre(baseline: Disk, current: Disk, paths: seq<Path>, requests: seq<ApplyEntry>, forward: bool)
    requires Enumerates(paths, baseline.Keys + current.Keys)
    requires requests == Requests(EntriesFor(baseline, current, paths), forward)
    ensures forall request <- requests :: IsRequest(baseline, current, request, forward)
    ensures forall path | Differs(baseline, current, path) :: exists request <- requests :: request.path == path
    ensures DistinctPaths(requests)
  {
    var entries := EntriesFor(baseline, current, paths);
    EntriesAre(baseline, current, paths);
    forall request <- requests
      ensures IsRequest(baseline, current, request, forward)
    {
      var i :| 0 <= i < |requests| && requests[i] == request;
      assert entries[i] in entries;
      RequestOf(baseline, current, request.path);
    }
    forall path | Differs(baseline, current, path)
      ensures exists request <- requests :: request.path == path
    {
      assert path in paths;
      var i :| 0 <= i < |entries| && entries[i] == EntryFor(baseline, current, path);
      assert requests[i] in requests;
    }
  }

  /** Neither what is written nor what is replaced is too large. */
  predicate FitsAt(goal: Disk, tree: Disk, path: Path) {
    Small(goal, path) && Small(tree, path)
  }

  lemma AcceptableIff(baseline: Disk, current: Disk, tree: Disk, requests: seq<ApplyEntry>, forward: bool)
    requires forall request <- requests :: IsRequest(baseline, current, request, forward)
    requires forall path | Differs(baseline, current, path) :: exists request <- requests :: request.path == path
    ensures var goal := if forward then current else baseline;
            Acceptable(tree, requests)
            <==> |requests| <= MAX_FILES && forall path | Differs(baseline, current, path) :: FitsAt(goal, tree, path)
  {
    var goal := if forward then current else baseline;
    forall request <- requests
      ensures Size(request.data) == Size(BytesIn(goal, request.path))
    {
      assert IsRequest(baseline, current, request, forward);
      assert Written(request) == Portable(FileAt(goal, request.path));
    }
    if Acceptable(tree, requests) {
      forall path | Differs(baseline, current, path)
        ensures FitsAt(goal, tree, path)
      {
        var request :| request in requests && request.path == path;
      }
    }
  }

  /** Where a diff's request leads on any tree. It is carried out exactly when it
      is not too long, no file is too large, and every differing path is as
      expected; then each goes to its other side, and all else stays. */
  lemma ApplyDiff(baseline: Disk, current: Disk, paths: seq<Path>, tree: Disk, requests: seq<ApplyEntry>, forward: bool)
    requires Enumerates(paths, baseline.Keys + current.Keys)
    requires requests == Requests(EntriesFor(baseline, current, paths), forward)
    ensures var source, goal := if forward then baseline else current, if forward then current else baseline;
            && (ConflictsOf(tree, requests) == []
                <==> forall path | Differs(baseline, current, path) :: DigestAt(tree, path) == DigestAt(source, path))
            && (Goes(tree, requests)
                <==> |requests| <= MAX_FILES && forall path | Differs(baseline, current, path) ::
                       FitsAt(goal, tree, path) && DigestAt(tree, path) == DigestAt(source, path))
            && (forall path :: FileAt(WriteEntries(tree, requests), path)
                               == if Differs(baseline, current, path) then Portable(FileAt(goal, path)) else FileAt(tree, path))
  {
    RequestsAre(baseline, current, paths, requests, forward);
    NoConflictIff(tree, requests);
    AcceptableIff(baseline, current, tree, requests, forward);
    WriteEntriesEffect(tree, requests);
  }

  /** Files both scans let through. */
  predicate AllSmall(baseline: Disk, current: Disk) {
    (forall path <- baseline :: Small(baseline, path)) && forall path <- current :: Small(current, path)
  }

  /** Carrying the diff forward onto the baseline meets no conflict and gives
      the current contents; backward onto the current tree gives the baseline's.
      Both are carried out as long as the diff has at most MAX_FILES entries,
      and refused when it has more. */
  lemma DiffAndApplyAreInverse(baseline: Disk, current: Disk, paths: seq<Path>)
    requires Enumerates(paths, baseline.Keys + current.Keys)
    ensures var entries := EntriesFor(baseline, current, paths);
            && ConflictsOf(baseline, Requests(entries, true)) == [] && ConflictsOf(current, Requests(entries, false)) == []
            && (AllSmall(baseline, current) ==>
                  (Goes(baseline, Requests(entries, true)) <==> |entries| <= MAX_FILES)
                  && (Goes(current, Requests(entries, false)) <==> |entries| <= MAX_FILES))
            && SameContents(WriteEntries(baseline, Requests(entries, true)), current)
            && SameContents(WriteEntries(current, Requests(entries, false)), baseline)
  {
    var entries := EntriesFor(baseline, current, paths);
    ApplyDiff(baseline, current, paths, baseline, Requests(entries, true), true);
    ApplyDiff(baseline, current, paths, current, Requests(entries, false), false);
    ContentsFromFiles(baseline, current, WriteEntries(baseline, Requests(entries, true)), baseline, current);
    ContentsFromFiles(baseline, current, WriteEntries(current, Requests(entries, false)), current, baseline);
  }

  /** A diff can be longer than a request may be: when files only moved, it has
      an entry for each old and each new path. */
  lemma {:induction false} MovesCountTwice(baseline: Disk, current: Disk, paths: seq<Path>)
    requires baseline.Keys !! current.Keys && forall path <- paths :: path in baseline || path in current
    ensures |EntriesFor(baseline, current, paths)| == |paths|
  {
    if paths != [] {
      var n := |paths| - 1;
      assert paths[n] in paths && forall path <- paths[..n] :: path in paths;
      MovesCountTwice(baseline, current, paths[..n]);
      assert Differs(baseline, current, paths[n]);
    }
  }

  lemma ContentsFromFiles(baseline: Disk, current: Disk, result: Disk, tree: Disk, goal: Disk)
    requires (tree == baseline && goal == current) || (tree == current && goal == baseline)
    requires forall path :: FileAt(result, path) == if Differs(baseline, current, path) then Portable(FileAt(goal, path)) else FileAt(tree, path)
    ensures SameContents(result, goal)
  {
    forall path
      ensures path in result <==> path in goal
      ensures path in result ==> result[path].bytes == goal[path].bytes
    {
      assert FileAt(result, path) == if Differs(baseline, current, path) then Portable(FileAt(goal, path)) else FileAt(tree, path);
      assert !Differs(baseline, current, path) ==> DigestAt(tree, path) == DigestAt(goal, path);
    }
  }

  /** The mode a file has after its diff was carried forward. */
  predicate ModeArrives(baseline: Disk, current: Disk, path: Path)
    requires path in current
  {
    if Differs(baseline, current, path) then current[path].mode < 0x200
    else path in baseline ==> baseline[path].mode == current[path].mode
  }

  /** Permission bits come along only where content changed, and only the lower
      nine: going forward gives the very same tree exactly when no file changed
      its mode alone and no changed file has a higher bit. */
  lemma ModesFollowContentOnly(baseline: Disk, current: Disk, paths: seq<Path>)
    requires Enumerates(paths, baseline.Keys + current.Keys)
    ensures WriteEntries(baseline, Requests(EntriesFor(baseline, current, paths), true)) == current
            <==> forall path <- current :: ModeArrives(baseline, current, path)
  {
    var result := WriteEntries(baseline, Requests(EntriesFor(baseline, current, paths), true));
    ApplyDiff(baseline, current, paths, baseline, Requests(EntriesFor(baseline, current, paths), true), true);
    forall path <- current
      ensures FileAt(result, path) == FileAt(current, path) <==> ModeArrives(baseline, current, path)
    {
      FileArrives(baseline, current, result, path);
    }
    if forall path <- current :: ModeArrives(baseline, current, path) {
      forall path
        ensures path in result <==> path in current
        ensures path in result ==> result[path] == current[path]
      {
        FileArrives(baseline, current, result, path);
      }
      assert result == current;
    }
  }

  lemma FileArrives(baseline: Disk, current: Disk, result: Disk, path: Path)
    requires FileAt(result, path) == if Differs(baseline, current, path) then Portable(FileAt(current, path)) else FileAt(baseline, path)
    ensures path in result <==> path in current
    ensures path in current ==> (result[path] == current[path] <==> ModeArrives(baseline, current, path))
  {
  }

  /** A review may be taken back after others edited unrelated files: backward
      entries restore the differing paths and keep everything else. */
  lemma TakingBackKeepsUnrelatedEdits(baseline: Disk, current: Disk, paths: seq<Path>, edited: Disk)
    requires Enumerates(paths, baseline.Keys + current.Keys)
    requires forall path | Differs(baseline, current, path) :: FileAt(edited, path) == FileAt(current, path)
    ensures var requests := Requests(EntriesFor(baseline, current, paths), false);
            && ConflictsOf(edited, requests) == []
            && (AllSmall(baseline, current) ==> (Goes(edited, requests) <==> |requests| <= MAX_FILES))
            && (forall path :: FileAt(WriteEntries(edited, requests), path)
                               == if Differs(baseline, current, path) then Portable(FileAt(baseline, path)) else FileAt(edited, path))
  {
    ApplyDiff(baseline, current, paths, edited, Requests(EntriesFor(baseline, current, paths), false), false);
    forall path | Differs(baseline, current, path)
      ensures DigestAt(edited, path) == DigestAt(current, path) && BytesIn(edited, path) == BytesIn(current, path)
    {
      assert FileAt(edited, path) == FileAt(current, path);
    }
  }
}
