/** Undoing a whole turn: the targets folded from the records of one turn, and
    what rollback to them restores (apps/desktop-main/src/services/task-service.ts
    folds them, the change service moves the files). */
module TurnUndo {
  import opened Changes
  import opened ChangeHistory
  import opened ChangeRuns
  import opened Content
  import opened Documents
  import opened Storage
  import opened TurnRollback
  import opened Utf8
  import Hunks

  // ----- The fold over a turn's records -----

  function FindTarget(targets: seq<Target>, path: Path): (t: Option<Target>)
    ensures t.Some? ==> t.value in targets && t.value.path == path
    ensures t.None? ==> forall other <- targets :: other.path != path
  {
    if targets == [] then None
    else if targets[0].path == path then Some(targets[0])
    else FindTarget(targets[1..], path)
  }

  /** The version before is noted once; the version after is always the last. */
  function Noted(targets: seq<Target>, path: Path, before: Option<Digest>, after: Option<Digest>): seq<Target> {
    if targets == [] then [Target(path, before, after)]
    else if targets[0].path == path then [targets[0].(expectedCurrentHash := after)] + targets[1..]
    else [targets[0]] + Noted(targets[1..], path, before, after)
  }

  function NoteRecord(targets: seq<Target>, r: Record): seq<Target> {
    match r.kind
    case Created => Noted(targets, r.path, None, r.afterHash)
    case Modified => Noted(targets, r.path, r.beforeHash, r.afterHash)
    case Deleted => Noted(targets, r.path, r.beforeHash, None)
    case Renamed =>
      var moved := Noted(targets, r.path, r.beforeHash, None);
      if r.renameTo.Some? then Noted(moved, r.renameTo.value, None, r.afterHash) else moved
  }

  function TargetsOf(records: seq<Record>): seq<Target> {
    if records == [] then [] else NoteRecord(TargetsOf(records[..|records| - 1]), records[|records| - 1])
  }

  lemma {:induction false} NotedFinds(targets: seq<Target>, path: Path, before: Option<Digest>, after: Option<Digest>, other: Path)
    ensures FindTarget(Noted(targets, path, before, after), other) ==
            if other != path then FindTarget(targets, other)
            else if FindTarget(targets, path).Some? then Some(FindTarget(targets, path).value.(expectedCurrentHash := after))
            else Some(Target(path, before, after))
  {
    if targets != [] && targets[0].path != path {
      NotedFinds(targets[1..], path, before, after, other);
    }
  }

  lemma {:induction false} NotedDistinct(targets: seq<Target>, path: Path, before: Option<Digest>, after: Option<Digest>)
    requires DistinctTargets(targets)
    ensures DistinctTargets(Noted(targets, path, before, after))
    ensures forall t <- Noted(targets, path, before, after) :: t.path == path || exists u <- targets :: u.path == t.path
  {
    if targets != [] && targets[0].path != path {
      var rest := Noted(targets[1..], path, before, after);
      NotedDistinct(targets[1..], path, before, after);
      forall t <- rest
        ensures t.path != targets[0].path
      {
        if t.path != path {
          var u :| u in targets[1..] && u.path == t.path;
        }
      }
      forall t <- Noted(targets, path, before, after)
        ensures t.path == path || exists u <- targets :: u.path == t.path
      {
        if t == targets[0] {
          assert targets[0] in targets;
        } else if t.path != path {
          var u :| u in targets[1..] && u.path == t.path;
          assert u in targets;
        }
      }
    }
  }

  lemma {:induction false} FindDistinct(targets: seq<Target>, t: Target)
    requires DistinctTargets(targets) && t in targets
    ensures FindTarget(targets, t.path) == Some(t)
  {
    if targets[0] != t {
      FindDistinct(targets[1..], t);
    }
  }

  /** The targets of the turn that MarkedTurnIsHalfUndone is about. */
  lemma MarkedTargetsAreFolded(marked: Path, other: Path, text: Text, next: Text, content: Text)
    requires marked != other
    ensures TargetsOf([Record(marked, Modified, Some(ShaText(text)), Some(ShaText(next)), None, Agent),
                       Record(other, Created, None, Some(ShaText(content)), None, Agent)])
            == MarkedTargets(marked, other, text, next, content)
  {
    var r, q := Record(marked, Modified, Some(ShaText(text)), Some(ShaText(next)), None, Agent),
                Record(other, Created, None, Some(ShaText(content)), None, Agent);
    var t := Target(marked, Some(ShaText(text)), Some(ShaText(next)));
    assert [r, q][..1] == [r] && [r][..0] == [] && [t][1..] == [];
    assert TargetsOf([r]) == NoteRecord([], r) == [t];
    assert Noted([t], other, None, Some(ShaText(content))) == [t] + Noted([], other, None, Some(ShaText(content)));
  }

  // ----- What the targets of a turn say -----

  predicate TellsAt(before: Disk, now: Disk, targets: seq<Target>, path: Path) {
    var t := FindTarget(targets, path);
    if t.Some? then t.value.toHash == DigestAt(before, path) && t.value.expectedCurrentHash == DigestAt(now, path)
    else FileAt(now, path) == FileAt(before, path)
  }

  /** The targets name, path by path, the version before the turn and the one on
      disk now; paths without a target are as they were. */
  ghost predicate Tells(before: Disk, now: Disk, targets: seq<Target>) {
    DistinctTargets(targets) && forall path :: TellsAt(before, now, targets, path)
  }

  /** The record of one change names the version it replaced and the one it left. */
  predicate Records(before: Disk, after: Disk, r: Record) {
    match r.kind
    case Created => DigestAt(before, r.path).None? && r.afterHash == DigestAt(after, r.path)
    case Modified => r.beforeHash == DigestAt(before, r.path) && r.afterHash == DigestAt(after, r.path)
    case Deleted => r.beforeHash == DigestAt(before, r.path) && r.path !in after
    case Renamed =>
      && r.beforeHash == DigestAt(before, r.path) && r.path !in after
      && r.renameTo.Some? && r.renameTo.value != r.path
      && r.renameTo.value !in before && r.afterHash == DigestAt(after, r.renameTo.value)
  }

  function Places(r: Record): set<Path> {
    if r.kind == Renamed && r.renameTo.Some? then {r.path, r.renameTo.value} else {r.path}
  }

  lemma NotedTells(start: Disk, before: Disk, after: Disk, targets: seq<Target>, path: Path,
                   first: Option<Digest>, last: Option<Digest>, other: Path)
    requires TellsAt(start, before, targets, other)
    requires other == path ==> first == DigestAt(before, path) && last == DigestAt(after, path)
    requires other != path ==> FileAt(after, other) == FileAt(before, other)
    ensures TellsAt(start, after, Noted(targets, path, first, last), other)
  {
    NotedFinds(targets, path, first, last, other);
    if other == path && FindTarget(targets, path).None? {
      assert FileAt(before, path) == FileAt(start, path);
    }
  }

  /** One place noted: the targets tell again, as far as the others are unchanged. */
  lemma OnePlace(start: Disk, before: Disk, after: Disk, targets: seq<Target>, path: Path,
                 first: Option<Digest>, last: Option<Digest>)
    requires Tells(start, before, targets) && first == DigestAt(before, path) && last == DigestAt(after, path)
    requires forall other | other != path :: FileAt(after, other) == FileAt(before, other)
    ensures Tells(start, after, Noted(targets, path, first, last))
  {
    NotedDistinct(targets, path, first, last);
    forall other
      ensures TellsAt(start, after, Noted(targets, path, first, last), other)
    {
      NotedTells(start, before, after, targets, path, first, last, other);
    }
  }

  lemma NoteKeepsTelling(start: Disk, before: Disk, after: Disk, targets: seq<Target>, r: Record)
    requires Tells(start, before, targets) && Records(before, after, r)
    requires forall path | path !in Places(r) :: FileAt(after, path) == FileAt(before, path)
    ensures Tells(start, after, NoteRecord(targets, r))
  {
    match r.kind
    case Created => OnePlace(start, before, after, targets, r.path, None, r.afterHash);
    case Modified => OnePlace(start, before, after, targets, r.path, r.beforeHash, r.afterHash);
    case Deleted => OnePlace(start, before, after, targets, r.path, r.beforeHash, None);
    case Renamed =>
      var between := before - {r.path};
      OnePlace(start, before, between, targets, r.path, r.beforeHash, None);
      var moved := Noted(targets, r.path, r.beforeHash, None);
      OnePlace(start, between, after, moved, r.renameTo.value, None, r.afterHash);
  }

  // ----- The steps of a turn -----

  /** What a reader gets at the path is what the disk holds there. */
  predicate ReadsDisk(w: World, path: Path) {
    var logical := ReadLogicalAt(w, path);
    if logical.Some? then Some(logical.value.hash) == DigestAt(w.disk, path) else path !in w.disk
  }

  /** For a closed file that is: valid UTF-8 text without a mark, or no file. */
  lemma ReadsDiskIff(w: World, path: Path)
    requires path !in w.docs
    ensures ReadsDisk(w, path)
            <==> (path in w.disk ==> (if LooksBinary(w.disk[path].bytes) then w.disk[path].bytes == []
                                      else Encode(Decode(w.disk[path].bytes)) == w.disk[path].bytes
                                           && !StartsWithBom(Decode(w.disk[path].bytes))))
  {
    if path in w.disk {
      var bytes := w.disk[path].bytes;
      DecodeEncode(LogicalText(bytes));
      if StartsWithBom(Decode(bytes)) {
        assert |LogicalText(bytes)| < |Decode(bytes)|;
      }
    }
  }

  /** A step of a turn: no outside edit, no rollback, and where the log takes its
      hash from what a reader gets, that is what the disk holds. */
  predicate InTurn(s: Plane, step: Step) {
    Allowed(s, step)
    && match step
       case Patch(path, _, _, _) => ReadsDisk(s.world, path)
       case WriteDirect(path, _, _, _) => ReadsDisk(s.world, path)
       case Reject(path, _, _, _) => ReadsDisk(s.world, path)
       case RollBack(_, _) => false
       case _ => true
  }

  predicate TurnRun(s: Plane, steps: seq<Step>, lib: DiffLibrary, host: Host)
    decreases |steps|
  {
    steps == [] || (InTurn(s, steps[0]) && TurnRun(Perform(s, steps[0], lib, host), steps[1..], lib, host))
  }

  /** One record tells what a step changed. */
  ghost predicate LogsOne(s: Plane, after: Plane, r: Record) {
    && after.log == s.log + [r] && Records(s.world.disk, after.world.disk, r)
    && forall path | path !in Places(r) :: FileAt(after.world.disk, path) == FileAt(s.world.disk, path)
  }

  /** A step changes nothing on disk and logs nothing, or logs one record. */
  ghost predicate Logs(s: Plane, after: Plane) {
    || (after.log == s.log && after.world.disk == s.world.disk)
    || (after.log != [] && LogsOne(s, after, after.log[|after.log| - 1]))
  }

  lemma PatchLogs(s: Plane, path: Path, patch: Text -> Option<Text>, baseHash: Digest, now: int, host: Host)
    requires ReadsDisk(s.world, path) && (path in s.world.docs ==> s.world.docs[path].encoding == Plain)
    ensures Logs(s, ApplyPatch(s, path, patch, baseHash, now, host).0)
  {
    var s1 := Ensured(s, path);
    var result := PatchResult(s1, path, patch, baseHash);
    if result.Ok? {
      PatchedContent(s1, path, result.value, now, host);
      if ApplyPatch(s, path, patch, baseHash, now, host).1.Ok? {
        OneWriteLogs(s, ApplyPatch(s, path, patch, baseHash, now, host).0,
                     Record(path, Modified, Some(baseHash), Some(ShaText(result.value)), None, Agent));
      }
    }
  }

  lemma OneWriteLogs(s: Plane, after: Plane, r: Record)
    requires after.log == s.log + [r] && r.kind == Modified
    requires r.beforeHash == DigestAt(s.world.disk, r.path) && r.afterHash == DigestAt(after.world.disk, r.path)
    requires forall path | path != r.path :: FileAt(after.world.disk, path) == FileAt(s.world.disk, path)
    ensures Logs(s, after)
  {
    assert LogsOne(s, after, r);
  }

  lemma WriteLogs(s: Plane, path: Path, bytes: Bytes, author: Author, now: int, host: Host)
    requires ReadsDisk(s.world, path)
    ensures Logs(s, WriteFileDirect(s, path, bytes, author, now, host).0)
  {
  }

  lemma StepLogs(s: Plane, step: Step, lib: DiffLibrary, host: Host)
    requires Closed(s) && InTurn(s, step)
    ensures Logs(s, Perform(s, step, lib, host))
  {
    match step
    case Patch(path, patch, baseHash, now) => PatchLogs(s, path, patch, baseHash, now, host);
    case WriteDirect(path, bytes, author, now) => WriteLogs(s, path, bytes, author, now, host);
    case Reject(path, key, expected, now) =>
      var next := RejectResult(s, path, key, expected, lib);
      if next.Ok? {
        WriteLogs(s, path, Encode(next.value), User, now, host);
      }
    case Create(path, content) => CreateLogs(s, path, content, host);
    case Delete(path, now) => DeleteLogs(s, path, now);
    case Rename(source, target) => RenameLogs(s, source, target);
    case Revert(path, expected, now) => RevertLogs(s, path, expected, now, host);
    case OnDocument(_) =>
  }

  lemma CreateLogs(s: Plane, path: Path, content: Text, host: Host)
    ensures Logs(s, CreateFile(s, path, content, host).0)
  {
  }

  lemma DeleteLogs(s: Plane, path: Path, now: int)
    ensures Logs(s, DeleteFile(s, path, now).0)
  {
  }

  lemma MoveIsRecorded(before: Disk, source: Path, target: Path)
    requires source in before && target !in before
    ensures var file, after := before[source], (before - {source})[target := before[source]];
            var r := Record(source, Renamed, Some(Sha(file.bytes)), Some(Sha(file.bytes)), Some(target), Agent);
            && Records(before, after, r)
            && forall path | path !in Places(r) :: FileAt(after, path) == FileAt(before, path)
  {
  }

  lemma RenameLogs(s: Plane, source: Path, target: Path)
    ensures Logs(s, RenameFile(s, source, target).0)
  {
    if target !in s.world.disk && source in s.world.disk {
      var file, after := s.world.disk[source], RenameFile(s, source, target).0;
      MoveIsRecorded(s.world.disk, source, target);
      assert after.log == s.log + [Record(source, Renamed, Some(Sha(file.bytes)), Some(Sha(file.bytes)), Some(target), Agent)];
      assert after.world.disk == (s.world.disk - {source})[target := file];
    }
  }

  lemma RevertLogs(s: Plane, path: Path, expected: Option<Digest>, now: int, host: Host)
    requires Closed(s)
    ensures Logs(s, RevertFile(s, path, expected, now, host).0)
  {
    var after := RevertFile(s, path, expected, now, host).0;
    if after.log != s.log {
      var b := FindBaseline(s.baselines, path).value;
      assert WellRecorded(s.blobs, b);
      if b.existed {
        assert Sha(s.blobs[b.blobHash.value]) == b.blobHash.value;
      }
    }
  }

  // ----- Undoing the turn -----

  lemma StepTells(s: Plane, start: Disk, targets: seq<Target>, step: Step, lib: DiffLibrary, host: Host)
    returns (made: seq<Record>)
    requires Closed(s) && InTurn(s, step) && Tells(start, s.world.disk, targets)
    ensures var next := Perform(s, step, lib, host);
            Closed(next) && Extends(s, next) && next.log == s.log + made
            && Tells(start, next.world.disk, NoteAll(targets, made))
  {
    var next := Perform(s, step, lib, host);
    TaskStepCloses(s, step, lib, host);
    StepLogs(s, step, lib, host);
    if next.log == s.log && next.world.disk == s.world.disk {
      made := [];
      assert s.log + [] == s.log;
    } else {
      made := [next.log[|next.log| - 1]];
      NoteKeepsTelling(start, s.world.disk, next.world.disk, targets, made[0]);
      assert made[1..] == [] && NoteAll(targets, made) == NoteAll(NoteRecord(targets, made[0]), []);
    }
  }

  /** `after` adds these records to the log, and with them noted the targets tell. */
  ghost predicate ToldBy(start: Disk, targets: seq<Target>, log: seq<Record>, after: Plane, records: seq<Record>) {
    after.log == log + records && Tells(start, after.world.disk, NoteAll(targets, records))
  }

  lemma ToldTogether(start: Disk, targets: seq<Target>, log: seq<Record>, after: Plane, made: seq<Record>, later: seq<Record>)
    requires ToldBy(start, NoteAll(targets, made), log + made, after, later)
    ensures ToldBy(start, targets, log, after, made + later)
  {
    NoteAllConcat(targets, made, later);
    Hunks.Assoc(log, made, later);
  }

  lemma {:induction false} TurnTells(s: Plane, start: Disk, targets: seq<Target>, steps: seq<Step>, lib: DiffLibrary, host: Host)
    returns (records: seq<Record>)
    requires Closed(s) && TurnRun(s, steps, lib, host) && Tells(start, s.world.disk, targets)
    ensures ToldBy(start, targets, s.log, Run(s, steps, lib, host), records)
    decreases |steps|
  {
    if steps == [] {
      records := [];
      assert s.log + [] == s.log;
    } else {
      var next := Perform(s, steps[0], lib, host);
      var made := StepTells(s, start, targets, steps[0], lib, host);
      var later := TurnTells(next, start, NoteAll(targets, made), steps[1..], lib, host);
      ToldTogether(start, targets, s.log, Run(next, steps[1..], lib, host), made, later);
      records := made + later;
    }
  }

  lemma {:induction false} NoteAllConcat(targets: seq<Target>, first: seq<Record>, second: seq<Record>)
    ensures NoteAll(targets, first + second) == NoteAll(NoteAll(targets, first), second)
    decreases |first|
  {
    if first == [] {
      assert first + second == second;
    } else {
      assert (first + second)[1..] == first[1..] + second;
      NoteAllConcat(NoteRecord(targets, first[0]), first[1..], second);
    }
  }

  function NoteAll(targets: seq<Target>, records: seq<Record>): seq<Target>
    decreases |records|
  {
    if records == [] then targets else NoteAll(NoteRecord(targets, records[0]), records[1..])
  }

  lemma {:induction false} TargetsOfAll(records: seq<Record>)
    ensures TargetsOf(records) == NoteAll([], records)
  {
    if records != [] {
      var n := |records| - 1;
      TargetsOfAll(records[..n]);
      NoteAllConcat([], records[..n], [records[n]]);
      assert records == records[..n] + [records[n]] && [records[n]][1..] == [];
    }
  }

  lemma {:induction false} RunCloses(s: Plane, steps: seq<Step>, lib: DiffLibrary, host: Host)
    requires Closed(s)
    ensures Closed(Run(s, steps, lib, host)) && Extends(s, Run(s, steps, lib, host))
    decreases |steps|
  {
    if steps != [] {
      var next := Perform(s, steps[0], lib, host);
      TaskStepCloses(s, steps[0], lib, host);
      RunCloses(next, steps[1..], lib, host);
      ExtendsTransitive(s, next, Run(s, steps, lib, host));
    }
  }

  /** The targets the log gives for what happened since `s`. */
  function TurnTargets(s: Plane, after: Plane): seq<Target> {
    if |s.log| <= |after.log| then TargetsOf(after.log[|s.log|..]) else []
  }

  /** A turn's targets tell the whole turn. */
  lemma TurnIsTold(s: Plane, steps: seq<Step>, lib: DiffLibrary, host: Host)
    requires Closed(s) && TurnRun(s, steps, lib, host)
    ensures var after := Run(s, steps, lib, host);
            Closed(after) && Extends(s, after) && Tells(s.world.disk, after.world.disk, TurnTargets(s, after))
  {
    RunCloses(s, steps, lib, host);
    var records := TurnTells(s, s.world.disk, [], steps, lib, host);
    var after := Run(s, steps, lib, host);
    assert after.log[|s.log|..] == records;
    TargetsOfAll(records);
  }

  /** Undoing a turn without outside edits is never refused, and gives back the
      contents from before the turn exactly when every target arrives; that is
      also exactly when it reports success. */
  lemma UndoneTurnRestores(s: Plane, steps: seq<Step>, now: int, lib: DiffLibrary, host: Host)
    requires Closed(s) && TurnRun(s, steps, lib, host)
    ensures var turned := Run(s, steps, lib, host);
            var targets := TurnTargets(s, turned);
               var (after, report) := RollbackToStates(turned, targets, false, now, host);
               && report.conflicts == []
               && (report.ok <==> AllArrive(turned, targets))
               && (AllArrive(turned, targets) <==>
                     forall path :: DigestAt(after.world.disk, path) == DigestAt(s.world.disk, path))
  {
    TurnIsTold(s, steps, lib, host);
    ToldTurnRestores(s.world.disk, Run(s, steps, lib, host), TurnTargets(s, Run(s, steps, lib, host)), now, host);
  }

  lemma NoConflictWhenTold(start: Disk, turned: Plane, targets: seq<Target>)
    requires Tells(start, turned.world.disk, targets)
    ensures TargetConflicts(turned.world.disk, targets) == []
  {
    forall t <- targets
      ensures !TargetConflict(turned.world.disk, t)
    {
      FindDistinct(targets, t);
      assert TellsAt(start, turned.world.disk, targets, t.path);
    }
    NoneInConflict(turned.world.disk, targets);
  }

  lemma {:induction false} NoneInConflict(disk: Disk, targets: seq<Target>)
    requires forall t <- targets :: !TargetConflict(disk, t)
    ensures TargetConflicts(disk, targets) == []
  {
    if targets != [] {
      NoneInConflict(disk, targets[..|targets| - 1]);
      assert targets[|targets| - 1] in targets;
    }
  }

  lemma ToldTurnRestores(start: Disk, turned: Plane, targets: seq<Target>, now: int, host: Host)
    requires Closed(turned) && Tells(start, turned.world.disk, targets)
    ensures var (after, report) := RollbackToStates(turned, targets, false, now, host);
            && report.conflicts == []
            && (report.ok <==> AllArrive(turned, targets))
            && (forall path :: RestoredAt(start, turned, after.world.disk, targets, path, host))
            && (AllArrive(turned, targets) <==> forall path :: DigestAt(after.world.disk, path) == DigestAt(start, path))
  {
    NoConflictWhenTold(start, turned, targets);
    StatesOutcome(turned, targets, false, now, host);
    var after := RollbackToStates(turned, targets, false, now, host).0;
    forall path
      ensures RestoredAt(start, turned, after.world.disk, targets, path, host)
    {
      assert TellsAt(start, turned.world.disk, targets, path);
      var t := FindTarget(targets, path);
      if t.Some? {
        assert Settles(turned, after.world.disk, t.value, host);
      }
    }
    RestoredIff(start, turned, after.world.disk, targets, host);
  }

  /** Where one path ends when the turn is undone. */
  predicate RestoredAt(start: Disk, turned: Plane, after: Disk, targets: seq<Target>, path: Path, host: Host) {
    var t := FindTarget(targets, path);
    if t.Some? then t.value.toHash == DigestAt(start, path) && FileAt(after, path) == SettledFile(turned, t.value, host)
    else FileAt(after, path) == FileAt(start, path)
  }

  lemma RestoredIff(start: Disk, turned: Plane, after: Disk, targets: seq<Target>, host: Host)
    requires Intact(turned.blobs) && DistinctTargets(targets)
    requires forall path :: RestoredAt(start, turned, after, targets, path, host)
    ensures AllArrive(turned, targets) <==> forall path :: DigestAt(after, path) == DigestAt(start, path)
  {
    forall t <- targets
      ensures Arrives(turned, t) <==> DigestAt(after, t.path) == DigestAt(start, t.path)
    {
      FindDistinct(targets, t);
      assert RestoredAt(start, turned, after, targets, t.path, host);
      SettledContent(turned, after, t, host);
    }
    forall path
      ensures AllArrive(turned, targets) ==> DigestAt(after, path) == DigestAt(start, path)
    {
      assert RestoredAt(start, turned, after, targets, path, host);
      var t := FindTarget(targets, path);
      assert t.None? ==> DigestAt(after, path) == DigestAt(start, path);
    }
  }

  // ----- Every turn of an undisturbed task -----

  lemma {:induction false} ExpectedResolves(log: seq<Record>, blobs: Blobs, path: Path)
    requires forall r <- log :: Resolves(blobs, r.afterHash)
    requires path in Expected(log)
    ensures Resolves(blobs, Expected(log)[path])
  {
    var n := |log| - 1;
    assert log[n] in log && forall r <- log[..n] :: r in log;
    if path in Expected(log[..n]) {
      ExpectedResolves(log[..n], blobs, path);
    }
  }

  lemma BeforeTurnResolves(start: Disk, s: Plane, turned: Plane, path: Path)
    requires Closed(s) && Accounted(start, s) && Closed(turned) && Accounted(start, turned) && Extends(s, turned)
    requires Touched(turned, path)
    ensures Resolves(turned.blobs, DigestAt(s.world.disk, path))
  {
    if Touched(s, path) {
      assert Explained(s, path);
      var expected := Expected(s.log);
      if path in expected && expected[path] == DigestAt(s.world.disk, path) {
        ExpectedResolves(s.log, s.blobs, path);
      } else {
        assert WellRecorded(s.blobs, FindBaseline(s.baselines, path).value);
      }
    } else {
      var b := FindBaseline(turned.baselines, path).value;
      assert b == Captured(start, path) && WellRecorded(turned.blobs, b);
      assert FileAt(s.world.disk, path) == FileAt(start, path);
    }
  }

  /** The mode a file has when the turn that ended in `turned` is undone. */
  function ModeAfterUndo(turned: Disk, path: Path, host: Host): Mode {
    if path in turned then turned[path].mode else host.newFileMode
  }

  lemma {:induction false} InTurnIsAllowed(s: Plane, steps: seq<Step>, lib: DiffLibrary, host: Host)
    requires TurnRun(s, steps, lib, host)
    ensures AllowedRun(s, steps, lib, host)
    decreases |steps|
  {
    if steps != [] {
      InTurnIsAllowed(Perform(s, steps[0], lib, host), steps[1..], lib, host);
    }
  }

  lemma TurnArrives(start: Disk, s: Plane, turned: Plane, targets: seq<Target>)
    requires Closed(s) && Accounted(start, s) && Closed(turned) && Accounted(start, turned) && Extends(s, turned)
    requires Tells(s.world.disk, turned.world.disk, targets)
    ensures AllArrive(turned, targets)
  {
    forall t <- targets
      ensures Arrives(turned, t)
    {
      FindDistinct(targets, t);
      assert TellsAt(s.world.disk, turned.world.disk, targets, t.path);
      if Touched(turned, t.path) {
        BeforeTurnResolves(start, s, turned, t.path);
      } else {
        if Touched(s, t.path) {
          TouchedStays(s, turned, t.path);
        }
        assert FileAt(turned.world.disk, t.path) == FileAt(start, t.path) == FileAt(s.world.disk, t.path);
      }
    }
  }

  lemma TouchedStays(s: Plane, turned: Plane, path: Path)
    requires s.baselines <= turned.baselines && Touched(s, path)
    ensures Touched(turned, path)
  {
    var b := FindBaseline(s.baselines, path).value;
    var i :| 0 <= i < |s.baselines| && s.baselines[i] == b;
    assert turned.baselines[i] == b;
  }

  lemma UndoneModes(start: Disk, turned: Plane, after: Disk, targets: seq<Target>, path: Path, host: Host)
    requires TellsAt(start, turned.world.disk, targets, path) && RestoredAt(start, turned, after, targets, path, host)
    requires DigestAt(after, path) == DigestAt(start, path) && path in start
    ensures path in after && after[path].mode == ModeAfterUndo(turned.world.disk, path, host)
  {
    if FindTarget(targets, path).None? {
      assert FileAt(after, path) == FileAt(start, path) == FileAt(turned.world.disk, path);
    }
  }

  /** Every turn of an undisturbed task can be undone. After any run without
      outside edits, a turn whose patches and writes start from what the disk
      holds is undone without a conflict, successfully, and every path has the
      very content it had before the turn. Modes are another matter: each file
      keeps the one the turn left, and one the turn took away gets the mode of
      a new file. */
  lemma EveryTurnIsUndoable(world: World, blobs: Blobs, earlier: seq<Step>, turn: seq<Step>, now: int, lib: DiffLibrary, host: Host)
    requires Intact(blobs) && AllowedRun(Begin(world, blobs), earlier, lib, host)
    requires TurnRun(Run(Begin(world, blobs), earlier, lib, host), turn, lib, host)
    ensures var s := Run(Begin(world, blobs), earlier, lib, host);
            var turned := Run(s, turn, lib, host);
            var (after, report) := RollbackToStates(turned, TurnTargets(s, turned), false, now, host);
               && report.conflicts == [] && report.ok
               && (forall path :: DigestAt(after.world.disk, path) == DigestAt(s.world.disk, path))
               && (forall path <- s.world.disk ::
                     path in after.world.disk
                     && after.world.disk[path].mode == ModeAfterUndo(turned.world.disk, path, host))
  {
    var begin := Begin(world, blobs);
    var s := Run(begin, earlier, lib, host);
    assert Accounted(world.disk, begin);
    RunKeeps(world.disk, begin, earlier, lib, host);
    RunCloses(begin, earlier, lib, host);
    AccountedTurn(world.disk, s, turn, now, lib, host);
  }

  lemma AccountedTurn(start: Disk, s: Plane, turn: seq<Step>, now: int, lib: DiffLibrary, host: Host)
    requires Closed(s) && Accounted(start, s) && TurnRun(s, turn, lib, host)
    ensures var turned := Run(s, turn, lib, host);
            var (after, report) := RollbackToStates(turned, TurnTargets(s, turned), false, now, host);
               && report.conflicts == [] && report.ok
               && (forall path :: DigestAt(after.world.disk, path) == DigestAt(s.world.disk, path))
               && (forall path <- s.world.disk ::
                     path in after.world.disk
                     && after.world.disk[path].mode == ModeAfterUndo(turned.world.disk, path, host))
  {
    var turned := Run(s, turn, lib, host);
    InTurnIsAllowed(s, turn, lib, host);
    RunKeeps(start, s, turn, lib, host);
    TurnIsTold(s, turn, lib, host);
    var targets := TurnTargets(s, turned);
    TurnArrives(start, s, turned, targets);
    ToldTurnRestores(s.world.disk, turned, targets, now, host);
    var after := RollbackToStates(turned, targets, false, now, host).0;
    forall path <- s.world.disk
      ensures path in after.world.disk && after.world.disk[path].mode == ModeAfterUndo(turned.world.disk, path, host)
    {
      assert TellsAt(s.world.disk, turned.world.disk, targets, path);
      assert RestoredAt(s.world.disk, turned, after.world.disk, targets, path, host);
      UndoneModes(s.world.disk, turned, after.world.disk, targets, path, host);
    }
  }

  // ----- All turns, newest first -----

  ghost predicate SameDigests(a: Disk, b: Disk) {
    forall path :: DigestAt(a, path) == DigestAt(b, path)
  }

  predicate TurnsRun(s: Plane, turns: seq<seq<Step>>, lib: DiffLibrary, host: Host)
    decreases |turns|
  {
    turns == [] || (TurnRun(s, turns[0], lib, host) && TurnsRun(Run(s, turns[0], lib, host), turns[1..], lib, host))
  }

  function RunTurns(s: Plane, turns: seq<seq<Step>>, lib: DiffLibrary, host: Host): Plane
    decreases |turns|
  {
    if turns == [] then s else RunTurns(Run(s, turns[0], lib, host), turns[1..], lib, host)
  }

  /** Undo the turns that followed `s`, the newest first, each by its own records;
      and whether every one went through without a conflict. */
  function Unwound(s: Plane, turns: seq<seq<Step>>, current: Plane, now: int, lib: DiffLibrary, host: Host): (Plane, bool)
    decreases |turns|
  {
    if turns == [] then (current, true)
    else
      var turned := Run(s, turns[0], lib, host);
      var (later, fine) := Unwound(turned, turns[1..], current, now, lib, host);
      var (after, report) := RollbackToStates(later, TurnTargets(s, turned), false, now, host);
      (after, fine && report.ok && report.conflicts == [])
  }

  /** A turn can be undone from any state with the same contents. */
  lemma UndoLike(s: Plane, turned: Plane, later: Plane, targets: seq<Target>, now: int, host: Host)
    requires Tells(s.world.disk, turned.world.disk, targets) && AllArrive(turned, targets)
    requires Closed(later) && Grows(turned.blobs, later.blobs) && SameDigests(later.world.disk, turned.world.disk)
    ensures var (after, report) := RollbackToStates(later, targets, false, now, host);
            && report.conflicts == [] && report.ok
            && SameDigests(after.world.disk, s.world.disk) && after == later.(world := after.world)
  {
    forall t <- targets
      ensures !TargetConflict(later.world.disk, t) && Arrives(later, t)
    {
      FindDistinct(targets, t);
      assert TellsAt(s.world.disk, turned.world.disk, targets, t.path);
      assert Arrives(turned, t);
    }
    NoneInConflict(later.world.disk, targets);
    StatesOutcome(later, targets, false, now, host);
    MoveAllFrame(later, targets, now, host);
    var after := RollbackToStates(later, targets, false, now, host).0;
    forall path
      ensures DigestAt(after.world.disk, path) == DigestAt(s.world.disk, path)
    {
      assert TellsAt(s.world.disk, turned.world.disk, targets, path);
      var t := FindTarget(targets, path);
      if t.Some? {
        assert Settles(later, after.world.disk, t.value, host) && Arrives(later, t.value);
        SettledContent(later, after.world.disk, t.value, host);
      } else {
        assert FileAt(after.world.disk, path) == FileAt(later.world.disk, path);
        assert DigestAt(later.world.disk, path) == DigestAt(turned.world.disk, path);
        assert FileAt(turned.world.disk, path) == FileAt(s.world.disk, path);
      }
    }
  }

  lemma {:induction false} TurnsUnwindFrom(start: Disk, s: Plane, turns: seq<seq<Step>>, current: Plane, now: int,
                                           lib: DiffLibrary, host: Host)
    requires Closed(s) && Accounted(start, s) && TurnsRun(s, turns, lib, host) && Closed(current)
    requires var last := RunTurns(s, turns, lib, host);
             Grows(last.blobs, current.blobs) && SameDigests(current.world.disk, last.world.disk)
    ensures Grows(s.blobs, RunTurns(s, turns, lib, host).blobs)
    ensures var (after, fine) := Unwound(s, turns, current, now, lib, host);
            fine && SameDigests(after.world.disk, s.world.disk) && after == current.(world := after.world)
    decreases |turns|
  {
    if turns != [] {
      var turned := Run(s, turns[0], lib, host);
      InTurnIsAllowed(s, turns[0], lib, host);
      RunKeeps(start, s, turns[0], lib, host);
      TurnIsTold(s, turns[0], lib, host);
      TurnsUnwindFrom(start, turned, turns[1..], current, now, lib, host);
      var later := Unwound(turned, turns[1..], current, now, lib, host).0;
      OnDiskOnly(current, later);
      TurnArrives(start, s, turned, TurnTargets(s, turned));
      UndoLike(s, turned, later, TurnTargets(s, turned), now, host);
    }
  }

  /** Turns unwind. However many turns an undisturbed task took, undoing them one
      by one, the newest first, never meets a conflict, and ends with the contents
      every path had before the task. */
  lemma TurnsUnwind(world: World, blobs: Blobs, turns: seq<seq<Step>>, now: int, lib: DiffLibrary, host: Host)
    requires Intact(blobs) && TurnsRun(Begin(world, blobs), turns, lib, host)
    ensures var s := Begin(world, blobs);
            var (after, fine) := Unwound(s, turns, RunTurns(s, turns, lib, host), now, lib, host);
            fine && SameDigests(after.world.disk, world.disk)
  {
    var s := Begin(world, blobs);
    assert Accounted(world.disk, s);
    RunTurnsCloses(s, turns, lib, host);
    TurnsUnwindFrom(world.disk, s, turns, RunTurns(s, turns, lib, host), now, lib, host);
  }

  lemma {:induction false} RunTurnsCloses(s: Plane, turns: seq<seq<Step>>, lib: DiffLibrary, host: Host)
    requires Closed(s)
    ensures Closed(RunTurns(s, turns, lib, host))
    decreases |turns|
  {
    if turns != [] {
      RunCloses(s, turns[0], lib, host);
      RunTurnsCloses(Run(s, turns[0], lib, host), turns[1..], lib, host);
    }
  }
}
