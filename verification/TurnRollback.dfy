/** Rollback to recorded states, as it undoes one turn: each target path goes to
    the version the log recorded for it. */
module TurnRollback {
  import opened Changes
  import opened ChangeHistory
  import opened ChangeRuns
  import opened Content
  import opened Documents
  import opened Storage
  import opened Utf8

  predicate DistinctTargets(targets: seq<Target>) {
    forall i, j | 0 <= i < j < |targets| :: targets[i].path != targets[j].path
  }

  /** A target that is at its version already, or whose version is stored. */
  predicate Arrives(s: Plane, t: Target) {
    DigestAt(s.world.disk, t.path) == t.toHash || Resolves(s.blobs, t.toHash)
  }

  predicate AllArrive(s: Plane, targets: seq<Target>) {
    forall t <- targets :: Arrives(s, t)
  }

  /** The file a target ends with. Its mode is the one found there; a file that
      is created anew gets the mode of new files. */
  function SettledFile(s: Plane, t: Target, host: Host): Option<File> {
    if DigestAt(s.world.disk, t.path) == t.toHash || !Arrives(s, t) then FileAt(s.world.disk, t.path)
    else if t.toHash.None? then None
    else Some(File(s.blobs[t.toHash.value], WriteMode(s.world.disk, t.path, None, host)))
  }

  predicate Settles(s: Plane, after: Disk, t: Target, host: Host) {
    FileAt(after, t.path) == SettledFile(s, t, host)
  }

  /** So its content is its version, or what it was when that is not stored. */
  lemma SettledContent(s: Plane, after: Disk, t: Target, host: Host)
    requires Intact(s.blobs) && Settles(s, after, t, host)
    ensures DigestAt(after, t.path) == if Arrives(s, t) then t.toHash else DigestAt(s.world.disk, t.path)
  {
  }

  lemma MoveOneMoves(s: Plane, r: Restoration, t: Target, now: int, host: Host)
    requires r.plane == s.(world := r.plane.world) && Intact(s.blobs)
    requires FileAt(r.plane.world.disk, t.path) == FileAt(s.world.disk, t.path)
    ensures var next := MoveOne(r, t, now, host);
            && Settles(s, next.plane.world.disk, t, host)
            && next.verified == r.verified + [Verified(t.path, Arrives(s, t))]
            && (forall path | path != t.path :: FileAt(next.plane.world.disk, path) == FileAt(r.plane.world.disk, path))
            && next.plane == s.(world := next.plane.world)
  {
    assert DigestAt(r.plane.world.disk, t.path) == DigestAt(s.world.disk, t.path);
  }

  lemma AllOkAppended(verified: seq<Verified>, v: Verified)
    ensures AllOk(verified + [v]) <==> AllOk(verified) && v.ok
  {
    assert v in verified + [v];
    if AllOk(verified + [v]) {
      assert forall other <- verified :: other in verified + [v];
    }
  }

  /** Each target ends at its version exactly when it was there already or the
      version is stored; no other path is touched; and the report is good
      exactly when every target arrives. */
  lemma {:induction false} MoveAllMoves(s: Plane, targets: seq<Target>, now: int, host: Host)
    requires Intact(s.blobs) && DistinctTargets(targets)
    ensures var r := MoveAll(s, targets, now, host);
            && r.plane == s.(world := r.plane.world)
            && (forall t <- targets :: Settles(s, r.plane.world.disk, t, host))
            && (forall path | forall t <- targets :: t.path != path :: FileAt(r.plane.world.disk, path) == FileAt(s.world.disk, path))
            && (AllOk(r.verified) <==> AllArrive(s, targets))
  {
    if targets != [] {
      var n := |targets| - 1;
      var rest, t := targets[..n], targets[n];
      assert targets == rest + [t];
      MoveAllMoves(s, rest, now, host);
      var r := MoveAll(s, rest, now, host);
      MoveOneMoves(s, r, t, now, host);
      AllOkAppended(r.verified, Verified(t.path, Arrives(s, t)));
      var next := MoveOne(r, t, now, host);
      forall other <- targets
        ensures Settles(s, next.plane.world.disk, other, host)
      {
        if other in rest {
          assert FileAt(next.plane.world.disk, other.path) == FileAt(r.plane.world.disk, other.path);
        }
      }
      forall path | forall other <- targets :: other.path != path
        ensures FileAt(next.plane.world.disk, path) == FileAt(s.world.disk, path)
      {
        assert t in targets && forall other <- rest :: other in targets;
      }
    }
  }

  /** A target that is moved: it arrives and is not there yet. */
  predicate Moved(s: Plane, t: Target) {
    DigestAt(s.world.disk, t.path) != t.toHash && Resolves(s.blobs, t.toHash)
  }

  function MovedPaths(s: Plane, targets: seq<Target>): seq<Path> {
    if targets == [] then []
    else MovedPaths(s, targets[..|targets| - 1]) + if Moved(s, targets[|targets| - 1]) then [targets[|targets| - 1].path] else []
  }

  /** The report verifies every target, in order, by whether it arrives, and names
      as restored, in order, those that were moved. */
  lemma {:induction false} MoveAllReports(s: Plane, targets: seq<Target>, now: int, host: Host)
    requires Intact(s.blobs) && DistinctTargets(targets)
    ensures var r := MoveAll(s, targets, now, host);
            && |r.verified| == |targets|
            && (forall i | 0 <= i < |targets| :: r.verified[i] == Verified(targets[i].path, Arrives(s, targets[i])))
            && r.restored == MovedPaths(s, targets)
  {
    if targets != [] {
      var n := |targets| - 1;
      var rest, t := targets[..n], targets[n];
      MoveAllReports(s, rest, now, host);
      MoveAllMoves(s, rest, now, host);
      var r := MoveAll(s, rest, now, host);
      assert forall other <- rest :: other.path != t.path;
      assert FileAt(r.plane.world.disk, t.path) == FileAt(s.world.disk, t.path);
      MoveOneMoves(s, r, t, now, host);
      MoveOneReports(s, r, t, now, host);
    }
  }

  lemma MoveOneReports(s: Plane, r: Restoration, t: Target, now: int, host: Host)
    requires r.plane == s.(world := r.plane.world)
    requires FileAt(r.plane.world.disk, t.path) == FileAt(s.world.disk, t.path)
    ensures MoveOne(r, t, now, host).restored == r.restored + if Moved(s, t) then [t.path] else []
  {
    assert DigestAt(r.plane.world.disk, t.path) == DigestAt(s.world.disk, t.path);
    assert r.restored + [] == r.restored;
  }

  lemma {:induction false} TargetConflictsIff(disk: Disk, targets: seq<Target>, path: Path)
    ensures path in ConflictPaths(TargetConflicts(disk, targets))
            <==> exists t <- targets :: t.path == path && TargetConflict(disk, t)
  {
    if targets != [] {
      var n := |targets| - 1;
      var rest, t := targets[..n], targets[n];
      TargetConflictsIff(disk, rest, path);
      assert targets == rest + [t];
      var more := if TargetConflict(disk, t) then [Conflict(t.path, DigestAt(disk, t.path), t.expectedCurrentHash)] else [];
      assert ConflictPaths(TargetConflicts(disk, rest) + more) == ConflictPaths(TargetConflicts(disk, rest)) + ConflictPaths(more);
      assert ConflictPaths(more) == if TargetConflict(disk, t) then [t.path] else [];
      if path in ConflictPaths(more) {
        assert t in targets && t.path == path && TargetConflict(disk, t);
      } else if path in ConflictPaths(TargetConflicts(disk, rest)) {
        var other :| other in rest && other.path == path && TargetConflict(disk, other);
        assert other in targets;
      }
    }
  }

  /** A conflict names what is there and what was expected there. */
  lemma {:induction false} TargetConflictsSay(disk: Disk, targets: seq<Target>, c: Conflict)
    ensures c in TargetConflicts(disk, targets) <==>
              exists t <- targets :: TargetConflict(disk, t) && c == Conflict(t.path, DigestAt(disk, t.path), t.expectedCurrentHash)
  {
    if targets != [] {
      var rest, t := targets[..|targets| - 1], targets[|targets| - 1];
      TargetConflictsSay(disk, rest, c);
      assert targets == rest + [t];
      assert t in targets && forall other <- rest :: other in targets;
    }
  }

  /** A conflict, and only a conflict, refuses an unforced request and changes
      nothing. Past that, or when forced, every target whose version is stored
      is moved, the others are left alone, and no other path is touched: so an
      unforced request reports success exactly when there is no conflict and
      every target arrives. */
  lemma StatesOutcome(s: Plane, targets: seq<Target>, force: bool, now: int, host: Host)
    requires Closed(s) && DistinctTargets(targets)
    ensures var (after, report) := RollbackToStates(s, targets, force, now, host);
            && (forall path :: path in ConflictPaths(report.conflicts)
                               <==> exists t <- targets :: t.path == path && TargetConflict(s.world.disk, t))
            && (report.ok <==> (force || report.conflicts == []) && AllArrive(s, targets))
            && (!force && report.conflicts != [] ==> after == s)
            && (force || report.conflicts == [] ==> forall t <- targets :: Settles(s, after.world.disk, t, host))
            && (forall path | forall t <- targets :: t.path != path :: FileAt(after.world.disk, path) == FileAt(s.world.disk, path))
  {
    forall path {
      TargetConflictsIff(s.world.disk, targets, path);
    }
    MoveAllMoves(s, targets, now, host);
  }

  // ----- A version that is not stored -----

  /** The hash a patch logs for the version it replaces names the text a reader
      gets: the buffer's of an open document, else the file's without mark. It
      resolves afterwards exactly when it did before, or the bytes on disk had
      that hash and were captured right now, or the patch changed nothing. */
  lemma ReplacedVersionResolvesIff(s: Plane, path: Path, patch: Text -> Option<Text>, baseHash: Digest, now: int, host: Host)
    requires ApplyPatch(s, path, patch, baseHash, now, host).1.Ok?
    ensures var after := ApplyPatch(s, path, patch, baseHash, now, host).0;
            var text := ReadLogicalAt(s.world, path);
            && text.Some? && text.value.hash == baseHash && patch(text.value.content).Some?
            && var next := patch(text.value.content).value;
               after.log == s.log + [Record(path, Modified, Some(baseHash), Some(ShaText(next)), None, Agent)]
               && (baseHash in after.blobs <==>
                     baseHash in s.blobs
                     || (!Touched(s, path) && DigestAt(s.world.disk, path) == Some(baseHash))
                     || baseHash == ShaText(next))
  {
    var s1 := Ensured(s, path);
    var next := PatchResult(s1, path, patch, baseHash).value;
    PatchedContent(s1, path, next, now, host);
    if path in s.world.disk {
      PutKeepsBlobs(s.blobs, s.world.disk[path].bytes);
    }
    PutKeepsBlobs(s1.blobs, Encode(next));
  }

  /** The targets of a turn that patched `marked` and then created `other`. */
  function MarkedTargets(marked: Path, other: Path, text: Text, next: Text, content: Text): seq<Target> {
    [Target(marked, Some(ShaText(text)), Some(ShaText(next))), Target(other, None, Some(ShaText(content)))]
  }

  /** So undoing a turn is not all or nothing. A turn that patches a file with a
      byte-order mark and creates another file meets no conflict when it is
      undone, and still stops half way: the created file is gone, the patched
      one stays patched, and failure is reported. */
  lemma MarkedTurnIsHalfUndone(marked: Path, other: Path, mode: Mode, text: Text, next: Text, content: Text,
                               now: int, host: Host)
    requires marked != other && next != text && content != text && !LooksBinary(Encode([BOM] + text))
    ensures var before := World(map[marked := File(Encode([BOM] + text), mode)], map[]);
            var (patched, result) := ApplyPatch(Begin(before, map[]), marked, _ => Some(next), ShaText(text), now, host);
            var (turned, created) := CreateFile(patched, other, content, host);
            var (after, report) := RollbackToStates(turned, MarkedTargets(marked, other, text, next, content), false, now, host);
            && result.Ok? && created.Ok?
            && report.conflicts == [] && !report.ok
            && other !in after.world.disk
            && FileAt(after.world.disk, marked) == Some(File(Encode(next), mode))
  {
    var before := World(map[marked := File(Encode([BOM] + text), mode)], map[]);
    var s := Begin(before, map[]);
    var patch := (_: Text) => Some(next);
    DecodeEncode([BOM] + text);
    assert LogicalText(Encode([BOM] + text)) == text by {
      assert ([BOM] + text)[1..] == text;
    }
    var patched := ApplyPatch(s, marked, patch, ShaText(text), now, host).0;
    ReplacedVersionResolvesIff(s, marked, patch, ShaText(text), now, host);
    MarkedDiffers(text);
    if ShaText(text) == ShaText(next) { ShaTextInjective(text, next); }
    PatchReplacesWhatItWasMadeFor(s, marked, patch, ShaText(text), now, host);
    PatchedContent(Ensured(s, marked), marked, next, now, host);
    assert other !in patched.world.disk by {
      assert FileAt(patched.world.disk, other) == FileAt(s.world.disk, other);
    }
    var turned := CreateFile(patched, other, content, host).0;
    PatchCloses(s, marked, patch, ShaText(text), now, host);
    CreateCloses(patched, other, content, host);
    TurnEndsSo(patched, turned, marked, other, text, next, content, host);
    HalfUndone(turned, marked, other, File(Encode(next), mode), text, next, content, now, host);
  }

  lemma TurnEndsSo(patched: Plane, turned: Plane, marked: Path, other: Path, text: Text, next: Text, content: Text, host: Host)
    requires marked != other && next != text && content != text
    requires ShaText(text) !in patched.blobs && other !in patched.world.disk
    requires BytesAt(patched.world.disk, marked) == Some(Encode(next))
    requires turned == CreateFile(patched, other, content, host).0
    ensures FileAt(turned.world.disk, marked) == FileAt(patched.world.disk, marked)
    ensures forall t <- MarkedTargets(marked, other, text, next, content) :: !TargetConflict(turned.world.disk, t)
    ensures !Arrives(turned, MarkedTargets(marked, other, text, next, content)[0])
  {
    if ShaText(text) == ShaText(next) { ShaTextInjective(text, next); }
    if ShaText(text) == ShaText(content) { ShaTextInjective(text, content); }
    PutKeepsBlobs(patched.blobs, Encode(content));
  }

  lemma TwoTargets(disk: Disk, t: Target, u: Target)
    requires !TargetConflict(disk, t) && !TargetConflict(disk, u)
    ensures TargetConflicts(disk, [t, u]) == []
  {
    assert [t, u][..1] == [t] && [t][..0] == [];
    assert TargetConflicts(disk, [t]) == TargetConflicts(disk, []) + [];
  }

  lemma HalfUndone(turned: Plane, marked: Path, other: Path, file: File, text: Text, next: Text, content: Text,
                   now: int, host: Host)
    requires Closed(turned) && marked != other
    requires FileAt(turned.world.disk, marked) == Some(file)
    requires forall t <- MarkedTargets(marked, other, text, next, content) :: !TargetConflict(turned.world.disk, t)
    requires !Arrives(turned, MarkedTargets(marked, other, text, next, content)[0])
    ensures var (after, report) := RollbackToStates(turned, MarkedTargets(marked, other, text, next, content), false, now, host);
            && report.conflicts == [] && !report.ok
            && other !in after.world.disk && FileAt(after.world.disk, marked) == Some(file)
  {
    var targets := MarkedTargets(marked, other, text, next, content);
    StatesOutcome(turned, targets, false, now, host);
    assert targets[0] in targets && targets[1] in targets;
    TwoTargets(turned.world.disk, targets[0], targets[1]);
  }

  /** Nothing is logged, so full rollback may later call a target a conflict
      although nobody else wrote it: exactly when the log speaks of the path and
      the version it ended at is neither the log's nor the baseline. */
  lemma StatesLookForeignLater(s: Plane, targets: seq<Target>, t: Target, force: bool, now: int, host: Host)
    requires Closed(s) && DistinctTargets(targets) && t in targets && Touched(s, t.path)
    requires force || RollbackToStates(s, targets, force, now, host).1.conflicts == []
    ensures var after := RollbackToStates(s, targets, force, now, host).0;
            var ended := if Arrives(s, t) then t.toHash else DigestAt(s.world.disk, t.path);
            t.path in ConflictPaths(RollbackPreflight(after).conflicts) <==>
            (t.path in Expected(s.log) && ended != Expected(s.log)[t.path]
             && ended != BaselineHash(FindBaseline(s.baselines, t.path).value))
  {
    var after := RollbackToStates(s, targets, force, now, host).0;
    MoveAllMoves(s, targets, now, host);
    assert Settles(s, after.world.disk, t, host);
    SettledContent(s, after.world.disk, t, host);
    ConflictIff(after, t.path);
  }
}
