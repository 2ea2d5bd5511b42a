/** What every run of edits, saves, resolutions, watcher events and outside
    disk writes keeps in the document store. */
module DocumentRuns {
  import opened Content
  import opened Documents
  import opened LineEndings
  import opened Storage
  import opened Utf8

  // ----- Runs -----

  function Run(w: World, steps: seq<DocStep>, host: Host): World
    decreases |steps|
  {
    if steps == [] then w else Run(Apply(w, steps[0], host), steps[1..], host)
  }

  /** A save whose file reads back as the buffer. */
  predicate ReadsBack(doc: Doc) {
    doc.encoding == WithBom || !StartsWithBom(doc.content)
  }

  /** The only caution a run needs: a document opened without a byte-order mark
      is not saved while its text starts with U+FEFF. */
  predicate Careful(w: World, step: DocStep) {
    step.Save? && step.path in w.docs ==> ReadsBack(w.docs[step.path])
  }

  predicate CarefulRun(w: World, steps: seq<DocStep>, host: Host)
    decreases |steps|
  {
    steps == [] || (Careful(w, steps[0]) && CarefulRun(Apply(w, steps[0], host), steps[1..], host))
  }

  // ----- The document invariant -----

  /** Whatever bytes the disk hash names, the buffer is their text. */
  ghost predicate Describes(doc: Doc) {
    doc.diskHash.Some? && forall bytes :: Sha(bytes) == doc.diskHash.value ==> doc.content == LogicalText(bytes)
  }

  ghost predicate DocInvariant(doc: Doc) {
    && doc.contentHash == ShaText(doc.content)
    && 1 <= doc.savedRevision <= doc.bufferRevision
    && (doc.editable ==> !doc.binary)
    && (!doc.dirty ==> doc.savedRevision == doc.bufferRevision)
    && (!doc.dirty && doc.editable ==> Describes(doc))
  }

  ghost predicate Invariant(w: World) {
    forall path <- w.docs :: DocInvariant(w.docs[path])
  }

  predicate RevisionsGrow(before: Doc, after: Doc) {
    && before.diskRevision <= after.diskRevision
    && before.bufferRevision <= after.bufferRevision
    && before.savedRevision <= after.savedRevision
  }

  /** A saved file decodes to the buffer exactly when the save is careful. */
  lemma SavedFileReadsBack(doc: Doc)
    ensures LogicalText(Payload(doc)) == doc.content <==> ReadsBack(doc)
  {
    DecodeEncode((if doc.encoding == WithBom then [BOM] else "") + doc.content);
    assert [BOM] + doc.content == [BOM] + doc.content[..];
    assert ([BOM] + doc.content)[1..] == doc.content;
    assert "" + doc.content == doc.content;
  }

  lemma OpenedKeepsInvariant(file: File, writable: bool, host: Host)
    ensures DocInvariant(Opened(file, writable, host))
  {
  }

  lemma EditedKeepsInvariant(doc: Doc, text: Text)
    requires DocInvariant(doc) && !doc.binary
    ensures DocInvariant(Edited(doc, text)) && RevisionsGrow(doc, Edited(doc, text))
  {
  }

  lemma WithEolKeepsInvariant(doc: Doc, eol: Eol)
    requires DocInvariant(doc)
    ensures DocInvariant(WithEol(doc, eol)) && RevisionsGrow(doc, WithEol(doc, eol))
  {
  }

  lemma SaveKeepsInvariant(doc: Doc, file: Option<File>, force: bool, now: int)
    requires DocInvariant(doc) && ReadsBack(doc)
    ensures DocInvariant(AfterSave(doc, file, force, now)) && RevisionsGrow(doc, AfterSave(doc, file, force, now))
  {
    SavedFileReadsBack(doc);
  }

  lemma ObservedKeepsInvariant(doc: Doc, file: Option<File>, now: int)
    requires DocInvariant(doc)
    ensures DocInvariant(Observed(doc, file, now)) && RevisionsGrow(doc, Observed(doc, file, now))
  {
  }

  lemma ResolvedKeepsInvariant(doc: Doc, file: Option<File>, choice: Choice)
    requires DocInvariant(doc)
    ensures DocInvariant(Resolved(doc, file, choice)) && RevisionsGrow(doc, Resolved(doc, file, choice))
  {
  }

  /** One step keeps the invariant, and no revision of a document that stays open goes back. */
  lemma StepKeepsInvariant(w: World, step: DocStep, host: Host)
    requires Invariant(w) && Careful(w, step)
    ensures Invariant(Apply(w, step, host))
    ensures forall path | path in w.docs && step != Close(path) ::
              path in Apply(w, step, host).docs && RevisionsGrow(w.docs[path], Apply(w, step, host).docs[path])
  {
    var path := step.path;
    if path in w.docs {
      var doc, file := w.docs[path], FileAt(w.disk, path);
      match step
      case Edit(_, text) => if !doc.binary { EditedKeepsInvariant(doc, text); }
      case SetEol(_, eol) => WithEolKeepsInvariant(doc, eol);
      case Save(_, force, now) => SaveKeepsInvariant(doc, file, force, now);
      case Watch(_, now) => ObservedKeepsInvariant(doc, file, now);
      case Resolve(_, choice) => ResolvedKeepsInvariant(doc, file, choice);
      case _ =>
    } else if step.Open? && path in w.disk {
      OpenedKeepsInvariant(w.disk[path], step.writable, host);
    }
  }

  /** The document invariant holds of every open document after every careful run. */
  lemma {:induction false} RunKeepsInvariant(w: World, steps: seq<DocStep>, host: Host)
    requires Invariant(w) && CarefulRun(w, steps, host)
    ensures Invariant(Run(w, steps, host))
    decreases |steps|
  {
    if steps != [] {
      StepKeepsInvariant(w, steps[0], host);
      RunKeepsInvariant(Apply(w, steps[0], host), steps[1..], host);
    }
  }

  /** Without the caution the invariant breaks at once: the clean document no
      longer describes its own file. */
  lemma CarelessSaveBreaks(doc: Doc, file: Option<File>, force: bool, now: int)
    requires doc.editable && SaveError(doc, file, force).None? && !ReadsBack(doc)
    ensures !DocInvariant(AfterSave(doc, file, force, now))
  {
    SavedFileReadsBack(doc);
    var bytes := Payload(doc);
    assert Sha(bytes) == AfterSave(doc, file, force, now).diskHash.value;
  }

  /** No revision of a document that stays open ever goes back. */
  lemma {:induction false} RunGrowsRevisions(w: World, steps: seq<DocStep>, path: Path, host: Host)
    requires Invariant(w) && CarefulRun(w, steps, host) && path in w.docs
    requires Close(path) !in steps
    ensures path in Run(w, steps, host).docs
    ensures RevisionsGrow(w.docs[path], Run(w, steps, host).docs[path])
    decreases |steps|
  {
    if steps != [] {
      var next := Apply(w, steps[0], host);
      StepKeepsInvariant(w, steps[0], host);
      assert steps[0] in steps && Close(path) !in steps[1..];
      RunGrowsRevisions(next, steps[1..], path, host);
    }
  }

  lemma WatcherKeepsDirtyText(w: World, path: Path, other: Path, now: int, host: Host)
    requires other in w.docs && w.docs[other].dirty
    ensures var after := Apply(w, Watch(path, now), host);
            after.disk == w.disk && other in after.docs
            && after.docs[other].content == w.docs[other].content && after.docs[other].dirty
  {
  }

  /** What a user or a tool does to a document, as opposed to what happens to its file. */
  predicate Handles(step: DocStep, path: Path) {
    step.path == path && (step.Edit? || step.SetEol? || step.Save? || step.Resolve? || step.Close?)
  }

  /** Unsaved text survives anything that happens on disk: through any number of
      outside writes, deletions and watcher events, and whatever is done with
      other documents, a dirty buffer keeps its text and stays dirty. */
  lemma {:induction false} UnsavedTextSurvives(w: World, steps: seq<DocStep>, path: Path, host: Host)
    requires path in w.docs && w.docs[path].dirty
    requires forall step <- steps :: !Handles(step, path)
    ensures var after := Run(w, steps, host);
            path in after.docs && after.docs[path].content == w.docs[path].content && after.docs[path].dirty
    decreases |steps|
  {
    if steps != [] {
      assert !Handles(steps[0], path) && forall step <- steps[1..] :: step in steps;
      if steps[0].Watch? {
        WatcherKeepsDirtyText(w, steps[0].path, path, steps[0].now, host);
      }
      UnsavedTextSurvives(Apply(w, steps[0], host), steps[1..], path, host);
    }
  }

  /** Between two states of a document, the revision only grows, and names the text. */
  predicate NamesText(before: Doc, after: Doc) {
    before.bufferRevision <= after.bufferRevision
    && (before.bufferRevision == after.bufferRevision ==> before.content == after.content)
  }

  lemma EditsNameText(doc: Doc, text: Text, eol: Eol)
    ensures NamesText(doc, Edited(doc, text)) && NamesText(doc, WithEol(doc, eol))
  {
  }

  lemma EventsNameText(doc: Doc, file: Option<File>, force: bool, now: int, choice: Choice)
    ensures NamesText(doc, AfterSave(doc, file, force, now))
    ensures NamesText(doc, Observed(doc, file, now))
    ensures NamesText(doc, Resolved(doc, file, choice))
  {
  }

  lemma TextChangeIsNewRevision(w: World, step: DocStep, path: Path, host: Host)
    requires path in w.docs && step != Close(path)
    ensures path in Apply(w, step, host).docs && NamesText(w.docs[path], Apply(w, step, host).docs[path])
  {
    if step.path == path {
      var doc, file := w.docs[path], FileAt(w.disk, path);
      match step
      case Edit(_, text) => EditsNameText(doc, text, doc.eol);
      case SetEol(_, eol) => EditsNameText(doc, doc.content, eol);
      case Save(_, force, now) => EventsNameText(doc, file, force, now, Keep);
      case Watch(_, now) => EventsNameText(doc, file, false, now, Keep);
      case Resolve(_, choice) => EventsNameText(doc, file, false, 0, choice);
      case _ =>
    }
  }

  /** A buffer revision names one text: while a document stays open, seeing the
      same revision again means seeing the same text, over every run. */
  lemma {:induction false} RevisionNamesText(w: World, steps: seq<DocStep>, path: Path, host: Host)
    requires path in w.docs && Close(path) !in steps
    ensures path in Run(w, steps, host).docs
    ensures NamesText(w.docs[path], Run(w, steps, host).docs[path])
    decreases |steps|
  {
    if steps != [] {
      assert steps[0] in steps && Close(path) !in steps[1..];
      TextChangeIsNewRevision(w, steps[0], path, host);
      RevisionNamesText(Apply(w, steps[0], host), steps[1..], path, host);
    }
  }

  /** Changing the line endings keeps every line and marks the document dirty. */
  lemma SetEolKeepsLines(doc: Doc, eol: Eol)
    ensures var after := WithEol(doc, eol);
            && after.eol == eol && Lines(after.content) == Lines(doc.content)
            && (after.content != doc.content ==> after.dirty && EolOf(after.content) == eol)
  {
    if doc.eol != eol {
      NormalizeTwice(doc.content, eol, eol);
      DetectAfterNormalize(doc.content, eol);
      if |Lines(doc.content)| == 1 {
        SingleLine(doc.content);
      }
    }
  }

  lemma {:induction false} SingleLine(text: string)
    requires |Lines(text)| == 1
    ensures Lines(text)[0] == text
    decreases |text|
  {
    if text != "" {
      SingleLine(text[1..]);
      assert text == [text[0]] + text[1..];
    }
  }

  lemma MarkComesBack(text: Text)
    ensures (if StartsWithBom(text) then [BOM] else "") + StripBom(text) == text
  {
  }

  /** What a file becomes when it is opened and saved at once: its decoded text
      encoded again, but nothing at all when it was too large to edit. So a text
      file in valid UTF-8 survives exactly when it was editable. */
  lemma OpenThenSave(file: File, host: Host)
    requires !LooksBinary(file.bytes)
    ensures var doc := Opened(file, true, host);
            && Payload(doc) == (if doc.editable then Encode(Decode(file.bytes)) else [])
            && SaveError(doc, Some(file), false).None?
            && (Encode(Decode(file.bytes)) == file.bytes ==>
                  (Payload(doc) == file.bytes <==> |file.bytes| <= host.maxEditableBytes))
  {
    MarkComesBack(Decode(file.bytes));
    assert "" + "" == "";
  }

  /** The store's own save does not come back as an outside change while its window is open. */
  lemma OwnSaveIsSuppressed(w: World, path: Path, force: bool, now: int, later: int, host: Host)
    requires Saves(w, path, force) && later < now + OWN_WRITE_WINDOW_MS
    ensures var saved := Apply(w, Save(path, force, now), host);
            Apply(saved, Watch(path, later), host)
            == saved.(docs := saved.docs[path := saved.docs[path].(ownWriteUntil := 0)])
  {
  }

  // ----- No silent overwrite -----

  predicate Saves(w: World, path: Path, force: bool) {
    path in w.docs && SaveError(w.docs[path], FileAt(w.disk, path), force).None?
  }

  /** The bytes of a file the store last read, wrote or was told are gone. */
  type Seen = map<Path, Option<Bytes>>

  function BytesOf(file: Option<File>): Option<Bytes> {
    if file.Some? then Some(file.value.bytes) else None
  }

  function NextSeen(seen: Seen, w: World, step: DocStep): Seen {
    var path, file := step.path, FileAt(w.disk, step.path);
    match step
    case Open(_, _) => if path !in w.docs && file.Some? then seen[path := BytesOf(file)] else seen
    case Save(_, force, _) => if Saves(w, path, force) then seen[path := Some(Payload(w.docs[path]))] else seen
    case Watch(_, now) => if path in w.docs && !Suppressed(w.docs[path], file, now) then seen[path := BytesOf(file)] else seen
    case Resolve(_, choice) => if path in w.docs && (choice == Keep || file.Some?) then seen[path := BytesOf(file)] else seen
    case _ => seen
  }

  function SeenAfter(seen: Seen, w: World, steps: seq<DocStep>, host: Host): Seen
    decreases |steps|
  {
    if steps == [] then seen else SeenAfter(NextSeen(seen, w, steps[0]), Apply(w, steps[0], host), steps[1..], host)
  }

  predicate HashIsOf(doc: Doc, bytes: Option<Bytes>) {
    doc.diskHash == if bytes.Some? then Some(Sha(bytes.value)) else None
  }

  predicate DiskHashIsSeen(w: World, seen: Seen) {
    forall path <- w.docs :: path in seen && HashIsOf(w.docs[path], seen[path])
  }

  lemma SavedHash(doc: Doc, file: Option<File>, force: bool, now: int, seen: Option<Bytes>)
    requires HashIsOf(doc, seen)
    ensures HashIsOf(AfterSave(doc, file, force, now), if SaveError(doc, file, force).None? then Some(Payload(doc)) else seen)
  {
  }

  lemma ObservedHash(doc: Doc, file: Option<File>, now: int, seen: Option<Bytes>)
    requires HashIsOf(doc, seen)
    ensures HashIsOf(Observed(doc, file, now), if Suppressed(doc, file, now) then seen else BytesOf(file))
  {
  }

  lemma ResolvedHash(doc: Doc, file: Option<File>, choice: Choice, seen: Option<Bytes>)
    requires HashIsOf(doc, seen)
    ensures HashIsOf(Resolved(doc, file, choice), if choice == Keep || file.Some? then BytesOf(file) else seen)
  {
  }

  lemma StepKeepsSeen(w: World, seen: Seen, step: DocStep, host: Host)
    requires DiskHashIsSeen(w, seen)
    ensures DiskHashIsSeen(Apply(w, step, host), NextSeen(seen, w, step))
  {
    var path := step.path;
    if path in w.docs {
      var doc, file := w.docs[path], FileAt(w.disk, path);
      match step
      case Save(_, force, now) => SavedHash(doc, file, force, now, seen[path]);
      case Watch(_, now) => ObservedHash(doc, file, now, seen[path]);
      case Resolve(_, choice) => ResolvedHash(doc, file, choice, seen[path]);
      case _ =>
    }
  }

  lemma {:induction false} RunKeepsSeen(w: World, seen: Seen, steps: seq<DocStep>, host: Host)
    requires DiskHashIsSeen(w, seen)
    ensures DiskHashIsSeen(Run(w, steps, host), SeenAfter(seen, w, steps, host))
    decreases |steps|
  {
    if steps != [] {
      StepKeepsSeen(w, seen, steps[0], host);
      RunKeepsSeen(Apply(w, steps[0], host), NextSeen(seen, w, steps[0]), steps[1..], host);
    }
  }

  /** No silent overwrite. Over every interleaving of edits, outside writes,
      watcher events, resolutions and saves, an unforced save that goes through
      while a file is there replaces the very bytes the store last read or wrote
      there, unless, and only unless, the document has no disk hash because the
      store was last told that the file is gone; and the document was not marked. */
  lemma UnforcedSaveReplacesWhatWasSeen(disk: Disk, steps: seq<DocStep>, path: Path, host: Host)
    requires var w := Run(World(disk, map[]), steps, host); Saves(w, path, false) && path in w.disk
    ensures var w := Run(World(disk, map[]), steps, host);
            var seen := SeenAfter(map[], World(disk, map[]), steps, host);
            && path in seen
            && (w.docs[path].diskHash.Some? ==> seen[path] == Some(w.disk[path].bytes))
            && (w.docs[path].diskHash.None? ==> seen[path] == None)
            && w.docs[path].externalState != ExternallyModified
  {
    RunKeepsSeen(World(disk, map[]), map[], steps, host);
    UnforcedSaveOverwrites(Run(World(disk, map[]), steps, host), path);
  }

  lemma UnforcedSaveOverwrites(w: World, path: Path)
    requires Saves(w, path, false)
    ensures (path in w.disk && w.docs[path].diskHash != Some(Sha(w.disk[path].bytes)))
            <==> (path in w.disk && w.docs[path].diskHash.None?)
    ensures w.docs[path].externalState != ExternallyModified
  {
  }

  /** The gap in use: a file deleted under a document, reported, and written
      again by someone else is overwritten without a conflict. */
  lemma RecreatedFileIsOverwritten(w: World, path: Path, theirs: File, now: int, host: Host)
    requires path in w.docs && !w.docs[path].binary && !w.docs[path].readonly
    ensures var reported := Apply(Apply(w, OutsideDelete(path), host), Watch(path, now), host);
            var recreated := Apply(reported, OutsideWrite(path, theirs), host);
            var saved := Apply(recreated, Save(path, false, now), host);
            FileAt(recreated.disk, path) == Some(theirs)
            && FileAt(saved.disk, path) == Some(File(Payload(w.docs[path]), host.newFileMode))
  {
    var reported := Apply(Apply(w, OutsideDelete(path), host), Watch(path, now), host);
    assert reported.docs[path] == w.docs[path].(externalState := ExternallyDeleted, diskHash := None, dirty := true);
    var recreated := Apply(reported, OutsideWrite(path, theirs), host);
    assert recreated.docs == reported.docs;
  }

  /** The steps that may take a document out of the conflict state. */
  predicate Clears(w: World, step: DocStep, path: Path) {
    step.path == path
    && match step
       case Resolve(_, _) => true
       case Close(_) => true
       case Save(_, force, _) => force
       case Watch(_, now) =>
         path in w.docs && !Suppressed(w.docs[path], FileAt(w.disk, path), now)
         && (path !in w.disk || !w.docs[path].dirty)
       case _ => false
  }

  predicate NothingClears(w: World, steps: seq<DocStep>, path: Path, host: Host)
    decreases |steps|
  {
    steps == [] || (!Clears(w, steps[0], path) && NothingClears(Apply(w, steps[0], host), steps[1..], path, host))
  }

  function OutsideEffect(disk: Disk, step: DocStep): Disk {
    match step
    case OutsideWrite(path, file) => disk[path := file]
    case OutsideDelete(path) => disk - {path}
    case _ => disk
  }

  /** The disk after the outside writes of a run alone. */
  function OutsideOnly(disk: Disk, steps: seq<DocStep>): Disk
    decreases |steps|
  {
    if steps == [] then disk else OutsideOnly(OutsideEffect(disk, steps[0]), steps[1..])
  }

  lemma {:induction false} OutsideOnlyLocal(a: Disk, b: Disk, steps: seq<DocStep>, path: Path)
    requires FileAt(a, path) == FileAt(b, path)
    ensures FileAt(OutsideOnly(a, steps), path) == FileAt(OutsideOnly(b, steps), path)
    decreases |steps|
  {
    if steps != [] {
      OutsideOnlyLocal(OutsideEffect(a, steps[0]), OutsideEffect(b, steps[0]), steps[1..], path);
    }
  }

  predicate Marked(w: World, path: Path) {
    path in w.docs && w.docs[path].externalState == ExternallyModified
  }

  lemma MarkedStep(w: World, step: DocStep, path: Path, host: Host)
    requires Marked(w, path) && !Clears(w, step, path)
    ensures Marked(Apply(w, step, host), path)
    ensures FileAt(Apply(w, step, host).disk, path) == FileAt(OutsideEffect(w.disk, step), path)
  {
    if step.path == path {
      match step
      case Save(_, _, _) =>
      case Watch(_, _) =>
      case _ =>
    }
  }

  /** Once a document is marked as modified outside, it stays marked and the
      store leaves its file alone until one of the clearing steps: whatever is
      saved in between, the file holds exactly what others wrote. */
  lemma {:induction false} ConflictHoldsBack(w: World, steps: seq<DocStep>, path: Path, host: Host)
    requires Marked(w, path) && NothingClears(w, steps, path, host)
    ensures Marked(Run(w, steps, host), path)
    ensures FileAt(Run(w, steps, host).disk, path) == FileAt(OutsideOnly(w.disk, steps), path)
    ensures !Saves(Run(w, steps, host), path, false)
    decreases |steps|
  {
    if steps != [] {
      var next := Apply(w, steps[0], host);
      MarkedStep(w, steps[0], path, host);
      ConflictHoldsBack(next, steps[1..], path, host);
      OutsideOnlyLocal(next.disk, OutsideEffect(w.disk, steps[0]), steps[1..], path);
    }
  }

  /** The own-write window can swallow a change back to bytes the store wrote
      earlier, but then the next unforced save is a conflict, not an overwrite. */
  lemma SwallowedEventStillGuarded(doc: Doc, file: File, now: int)
    requires Suppressed(doc, Some(file), now)
    requires doc.diskHash.Some? && doc.diskHash.value != Sha(file.bytes)
    requires !doc.binary && !doc.readonly
    ensures Observed(doc, Some(file), now).content == doc.content
    ensures SaveError(Observed(doc, Some(file), now), Some(file), false) == Some(SaveConflict)
  {
  }

  /** A clean reload keeps the old encoding, so saving right after it rewrites
      the same bytes exactly when the byte-order mark did not come or go. */
  lemma SaveAfterCleanReload(doc: Doc, text: Text)
    ensures Payload(Reloaded(doc, Encode(text))) == Encode(text)
            <==> (doc.encoding == WithBom <==> StartsWithBom(text))
  {
    DecodeEncode(text);
    var stripped := StripBom(text);
    var written := (if doc.encoding == WithBom then [BOM] else "") + stripped;
    assert Payload(Reloaded(doc, Encode(text))) == Encode(written);
    if Encode(written) == Encode(text) {
      EncodeInjective(written, text);
    }
    if StartsWithBom(text) {
      assert [BOM] + text[1..] == text;
      assert |"" + stripped| < |text|;
    } else {
      assert |[BOM] + stripped| > |text|;
      assert "" + stripped == text;
    }
  }
}
