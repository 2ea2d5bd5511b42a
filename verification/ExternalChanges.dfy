/** Changes observed from outside (an external session's writes): the records
    of a path form a chain of versions that can all be read back. */
module ExternalChanges {
  import opened Changes
  import opened ChangeHistory
  import opened ChangeRuns
  import opened Content
  import opened Storage
  import Documents
  import opened Utf8

  /** Each record starts from the version the one before it ended with. */
  predicate Chained(h: seq<Record>, base: Option<Digest>) {
    && (h != [] ==> h[0].beforeHash == base)
    && forall i | 0 < i < |h| :: h[i].beforeHash == h[i - 1].afterHash
  }

  /** The steps of an external session: observations, outside edits, document events. */
  predicate FromOutside(step: AnyStep) {
    match step
    case ByTask(t) => t.OnDocument?
    case _ => true
  }

  lemma HistoryAppended(log: seq<Record>, r: Record, path: Path)
    ensures History(log + [r], path) == History(log, path) + (if r.path == path then [r] else [])
  {
    assert (log + [r])[..|log|] == log;
  }

  lemma ObserveChains(s: Plane, observed: Path, kind: ObservedKind, author: Author, path: Path)
    requires Touched(s, path)
    requires Chained(History(s.log, path), FindBaseline(s.baselines, path).value.blobHash)
    ensures var after := RecordExternal(s, observed, kind, author).0;
            after.baselines == s.baselines
            && Chained(History(after.log, path), FindBaseline(s.baselines, path).value.blobHash)
  {
    var r := RecordExternal(s, observed, kind, author).1;
    HistoryAppended(s.log, r, path);
    if observed == path {
      ChainGrows(History(s.log, path), FindBaseline(s.baselines, path).value.blobHash, r);
    } else {
      assert History(s.log, path) + [] == History(s.log, path);
    }
  }

  /** A record that starts from the version last reached continues the chain. */
  lemma ChainGrows(h: seq<Record>, base: Option<Digest>, r: Record)
    requires Chained(h, base) && r.beforeHash == if h != [] then h[|h| - 1].afterHash else base
    ensures Chained(h + [r], base)
  {
  }

  lemma AddBaselineFinds(s: Plane, added: Path, bytes: Option<Bytes>, mode: Option<Mode>, path: Path)
    requires Touched(s, path)
    ensures var after := AddBaseline(s, added, bytes, mode);
            FindBaseline(after.baselines, path) == FindBaseline(s.baselines, path) && after.log == s.log
  {
    FindAppended(s.baselines, BaselineOf(added, bytes, mode), path);
  }

  lemma StepChains(s: Plane, step: AnyStep, path: Path, lib: DiffLibrary, host: Documents.Host)
    requires FromOutside(step) && Touched(s, path)
    requires Chained(History(s.log, path), FindBaseline(s.baselines, path).value.blobHash)
    ensures var after := PerformAny(s, step, lib, host);
            FindBaseline(after.baselines, path) == FindBaseline(s.baselines, path)
            && Chained(History(after.log, path), FindBaseline(s.baselines, path).value.blobHash)
  {
    match step
    case ByTask(_) =>
    case ToStates(targets, _, now) => MoveAllFrame(s, targets, now, host);
    case Snapshot(added, bytes, mode) => AddBaselineFinds(s, added, bytes, mode, path);
    case Observe(observed, kind, author) => ObserveChains(s, observed, kind, author, path);
    case Reconcile(observed, kind, bytes) =>
      ReconcileChains(s, observed, kind, bytes, path);
  }

  lemma ReconcileChains(s: Plane, observed: Path, kind: ObservedKind, bytes: Option<Bytes>, path: Path)
    requires Touched(s, path)
    requires Chained(History(s.log, path), FindBaseline(s.baselines, path).value.blobHash)
    ensures var after := ReconcileExternal(s, observed, kind, bytes).0;
            FindBaseline(after.baselines, path) == FindBaseline(s.baselines, path)
            && Chained(History(after.log, path), FindBaseline(s.baselines, path).value.blobHash)
  {
    AddBaselineFinds(s, observed, bytes, None, path);
    ObserveChains(AddBaseline(s, observed, bytes, None), observed, kind, System, path);
  }

  /** Once its baseline is captured, the observations of a path chain from the
      baseline to the latest version, over any run of an external session. */
  lemma {:induction false} ObservationsChain(s: Plane, steps: seq<AnyStep>, path: Path, lib: DiffLibrary, host: Documents.Host)
    requires Touched(s, path) && forall step <- steps :: FromOutside(step)
    requires Chained(History(s.log, path), FindBaseline(s.baselines, path).value.blobHash)
    ensures var after := RunAny(s, steps, lib, host);
            FindBaseline(after.baselines, path) == FindBaseline(s.baselines, path)
            && Chained(History(after.log, path), FindBaseline(s.baselines, path).value.blobHash)
    decreases |steps|
  {
    if steps != [] {
      StepChains(s, steps[0], path, lib, host);
      ObservationsChain(PerformAny(s, steps[0], lib, host), steps[1..], path, lib, host);
    }
  }

  /** What was on disk when a change was observed can be read back from its
      record after anything that may happen later. */
  lemma ObservedVersionStaysReadable(s: Plane, path: Path, kind: ObservedKind, author: Author, later: seq<AnyStep>,
                                     lib: DiffLibrary, host: Documents.Host)
    requires Closed(s) && kind != Deleted && path in s.world.disk
    ensures var (observed, record) := RecordExternal(s, path, kind, author);
            var after := RunAny(observed, later, lib, host);
            record in after.log && record.afterHash.Some?
            && GetBlob(after.blobs, record.afterHash.value) == Some(s.world.disk[path].bytes)
  {
    var (observed, record) := RecordExternal(s, path, kind, author);
    ObserveCloses(s, path, kind, author);
    EverythingStaysRecoverable(observed, later, lib, host);
    assert observed.log[|s.log|] == record;
    PutKeepsBlobs(s.blobs, s.world.disk[path].bytes);
  }

  lemma AddBaselineTouches(s: Plane, path: Path, bytes: Option<Bytes>, mode: Option<Mode>)
    ensures Touched(AddBaseline(s, path, bytes, mode), path)
  {
    FindAppended(s.baselines, BaselineOf(path, bytes, mode), path);
  }

  /** After an observation the previous version is the observed one, or the
      baseline when a deletion was observed. */
  lemma PreviousAfterRecord(s: Plane, path: Path, kind: ObservedKind, author: Author)
    requires Touched(s, path)
    ensures var after := RecordExternal(s, path, kind, author).0;
            && after.baselines == s.baselines
            && ObservedHash(after, path, kind) == ObservedHash(s, path, kind)
            && PreviousHash(after, path)
               == if ObservedHash(s, path, kind).Some? then ObservedHash(s, path, kind)
                  else FindBaseline(s.baselines, path).value.blobHash
  {
    HistoryAppended(s.log, RecordExternal(s, path, kind, author).1, path);
  }

  /** Reconciling again with nothing changed appends nothing, except that a
      deletion of a file that existed before is taken for news every time. */
  lemma ReconcileAgain(s: Plane, path: Path, kind: ObservedKind, baselineBytes: Option<Bytes>)
    ensures var s1 := ReconcileExternal(s, path, kind, baselineBytes).0;
            Touched(s1, path)
            && (ReconcileExternal(s1, path, kind, baselineBytes).1.Some?
                <==> ObservedHash(s, path, kind).None? && NewsEveryTime(s1, path))
  {
    var s0 := AddBaseline(s, path, baselineBytes, None);
    AddBaselineTouches(s, path, baselineBytes, None);
    PreviousAfterRecord(s0, path, kind, System);
    if PreviousHash(s0, path) != ObservedHash(s0, path, kind) {
      var s1 := RecordExternal(s0, path, kind, System).0;
      assert ReconcileExternal(s, path, kind, baselineBytes).0 == s1;
      assert Touched(s1, path);
    }
  }

  predicate NewsEveryTime(s: Plane, path: Path)
    requires Touched(s, path)
  {
    FindBaseline(s.baselines, path).value.blobHash.Some?
  }

  function ReconcileTimes(s: Plane, path: Path, baselineBytes: Option<Bytes>, n: nat): Plane {
    if n == 0 then s else ReconcileExternal(ReconcileTimes(s, path, baselineBytes, n - 1), path, Deleted, baselineBytes).0
  }

  /** So every restart with the file still gone adds one more deletion record. */
  lemma {:induction false} DeletionsPileUp(s: Plane, path: Path, baselineBytes: Option<Bytes>, n: nat)
    requires Touched(s, path) && NewsEveryTime(s, path)
    requires PreviousHash(s, path).Some?
    ensures var after := ReconcileTimes(s, path, baselineBytes, n);
            && after.baselines == s.baselines && PreviousHash(after, path).Some?
            && |History(after.log, path)| == |History(s.log, path)| + n
            && (n > 0 ==> History(after.log, path)[|History(after.log, path)| - 1].kind == Deleted)
  {
    if n > 0 {
      DeletionsPileUp(s, path, baselineBytes, n - 1);
      var before := ReconcileTimes(s, path, baselineBytes, n - 1);
      PreviousAfterRecord(before, path, Deleted, System);
      HistoryAppended(before.log, RecordExternal(before, path, Deleted, System).1, path);
    }
  }
}
