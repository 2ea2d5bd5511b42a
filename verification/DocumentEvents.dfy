/** What each event means for an open document: the text, its marks and the file,
    as a user of the store sees them. */
module DocumentEvents {
  import opened Content
  import opened Documents
  import opened DocumentRuns
  import opened LineEndings
  import opened Utf8

  predicate Matches(doc: Doc, bytes: Bytes) {
    doc.diskHash == Some(Sha(bytes))
  }

  /** The bytes are those of the store's own last save, and the window is open. */
  predicate OwnEvent(doc: Doc, bytes: Bytes, now: int) {
    doc.ownWriteUntil > now && doc.ownWriteHash == Some(Sha(bytes))
  }

  /** The bytes a save of the document writes. */
  function SavedBytes(doc: Doc): Bytes {
    if doc.encoding == WithBom then Encode([BOM] + doc.content) else Encode(doc.content)
  }

  /** No event at one path touches another file or another document. */
  lemma OthersUntouched(w: World, step: DocStep, other: Path, host: Host)
    requires step.path != other
    ensures var after := Apply(w, step, host);
            && FileAt(after.disk, other) == FileAt(w.disk, other)
            && (other in after.docs <==> other in w.docs)
            && (other in w.docs ==> after.docs[other] == w.docs[other])
  {
  }

  // ----- The watcher -----

  /** The news reaches a document with unsaved text: the text is kept, the document
      is marked, and an unforced save is refused and leaves the file alone. */
  lemma NewsMarksDirty(w: World, path: Path, now: int, later: int, host: Host)
    requires path in w.docs && w.docs[path].dirty && path in w.disk
    requires !Matches(w.docs[path], w.disk[path].bytes) && !OwnEvent(w.docs[path], w.disk[path].bytes, now)
    ensures var told := Apply(w, Watch(path, now), host);
            && told.disk == w.disk && Marked(told, path)
            && told.docs[path].dirty && told.docs[path].content == w.docs[path].content
            && told.docs[path].diskRevision == w.docs[path].diskRevision + 1
            && Matches(told.docs[path], w.disk[path].bytes)
            && var refused := Apply(told, Save(path, false, later), host);
               refused.disk == w.disk && refused.docs[path].content == w.docs[path].content
               && (!w.docs[path].binary && !w.docs[path].readonly ==> Marked(refused, path))
  {
  }

  /** So an outside edit under unsaved text survives: once the event was seen, the
      file holds their bytes through every run of edits, unforced saves and further
      events, whatever else is written there, until a clearing step. */
  lemma OutsideEditSurvives(w: World, path: Path, theirs: File, now: int, steps: seq<DocStep>, host: Host)
    requires path in w.docs && w.docs[path].dirty
    requires !Matches(w.docs[path], theirs.bytes) && !OwnEvent(w.docs[path], theirs.bytes, now)
    requires NothingClears(Apply(Apply(w, OutsideWrite(path, theirs), host), Watch(path, now), host), steps, path, host)
    ensures var told := Apply(Apply(w, OutsideWrite(path, theirs), host), Watch(path, now), host);
            && Marked(told, path) && FileAt(told.disk, path) == Some(theirs)
            && told.docs[path].content == w.docs[path].content && told.docs[path].dirty
            && Marked(Run(told, steps, host), path)
            && FileAt(Run(told, steps, host).disk, path) == FileAt(OutsideOnly(told.disk, steps), path)
            && ((forall step <- steps :: step.path != path || !(step.OutsideWrite? || step.OutsideDelete?)) ==>
                  FileAt(Run(told, steps, host).disk, path) == Some(theirs))
  {
    var written := Apply(w, OutsideWrite(path, theirs), host);
    NewsMarksDirty(written, path, now, now, host);
    var told := Apply(written, Watch(path, now), host);
    ConflictHoldsBack(told, steps, path, host);
    if forall step <- steps :: step.path != path || !(step.OutsideWrite? || step.OutsideDelete?) {
      OutsideOnlyElsewhere(told.disk, steps, path);
    }
  }

  lemma {:induction false} OutsideOnlyElsewhere(disk: Disk, steps: seq<DocStep>, path: Path)
    requires forall step <- steps :: step.path != path || !(step.OutsideWrite? || step.OutsideDelete?)
    ensures FileAt(OutsideOnly(disk, steps), path) == FileAt(disk, path)
    decreases |steps|
  {
    if steps != [] {
      assert steps[0] in steps && forall step <- steps[1..] :: step in steps;
      OutsideOnlyElsewhere(OutsideEffect(disk, steps[0]), steps[1..], path);
    }
  }

  /** The news reaches a document without unsaved text: it follows the file. */
  lemma NewsReloadsClean(w: World, path: Path, now: int, host: Host)
    requires path in w.docs && !w.docs[path].dirty && path in w.disk
    requires !Matches(w.docs[path], w.disk[path].bytes) && !OwnEvent(w.docs[path], w.disk[path].bytes, now)
    ensures var told := Apply(w, Watch(path, now), host);
            var doc, text := told.docs[path], LogicalText(w.disk[path].bytes);
            && told.disk == w.disk
            && doc.content == text && doc.contentHash == ShaText(text) && doc.eol == EolOf(text)
            && !doc.dirty && doc.externalState == Clean && doc.savedRevision == doc.bufferRevision
            && doc.bufferRevision == w.docs[path].bufferRevision + 1 && doc.diskRevision == w.docs[path].diskRevision + 1
            && Matches(doc, w.disk[path].bytes) && doc.sizeBytes == |w.disk[path].bytes|
  {
  }

  /** The news that the file is gone: the text is kept, unsaved, and the document
      says so; nothing on disk is left to conflict with. */
  lemma NewsOfDeletion(w: World, path: Path, now: int, host: Host)
    requires path in w.docs && path !in w.disk
    ensures var told := Apply(w, Watch(path, now), host);
            var doc := told.docs[path];
            && told.disk == w.disk
            && doc.content == w.docs[path].content && doc.dirty
            && doc.externalState == ExternallyDeleted && doc.diskHash.None?
            && doc.bufferRevision == w.docs[path].bufferRevision && doc.savedRevision == w.docs[path].savedRevision
  {
  }

  /** An event that is no news changes nothing a user sees; the store's own save
      closes its window. */
  lemma NoNews(w: World, path: Path, now: int, host: Host)
    requires path in w.docs && path in w.disk
    requires Matches(w.docs[path], w.disk[path].bytes) || OwnEvent(w.docs[path], w.disk[path].bytes, now)
    ensures var told := Apply(w, Watch(path, now), host);
            && told.disk == w.disk
            && told.docs[path].(ownWriteUntil := 0) == w.docs[path].(ownWriteUntil := 0)
            && told.docs[path].ownWriteUntil == if OwnEvent(w.docs[path], w.disk[path].bytes, now) then 0 else w.docs[path].ownWriteUntil
  {
  }

  /** A caller hears of an event exactly when it is news. */
  lemma HeardIff(w: World, path: Path, now: int)
    requires path in w.docs
    ensures Notifies(w.docs[path], FileAt(w.disk, path), now)
            <==> path !in w.disk || !(Matches(w.docs[path], w.disk[path].bytes) || OwnEvent(w.docs[path], w.disk[path].bytes, now))
  {
  }

  // ----- The user's two ways out of a conflict -----

  /** Keep: the buffer stays as it is, unsaved and free of marks, whatever is on
      disk; and of a writable text document the next unforced save writes it. */
  lemma KeepKeepsBuffer(w: World, path: Path, now: int, host: Host)
    requires path in w.docs
    ensures var kept := Apply(w, Resolve(path, Keep), host);
            var doc := kept.docs[path];
            && kept.disk == w.disk
            && doc.content == w.docs[path].content && doc.encoding == w.docs[path].encoding
            && doc.dirty && doc.externalState == Clean
            && doc.bufferRevision == w.docs[path].bufferRevision && doc.savedRevision == w.docs[path].savedRevision
            && doc.diskHash == (if path in w.disk then Some(Sha(w.disk[path].bytes)) else None)
            && (!doc.binary && !doc.readonly ==>
                  FileAt(Apply(kept, Save(path, false, now), host).disk, path)
                  == Some(File(SavedBytes(w.docs[path]), host.newFileMode)))
  {
    var kept := Apply(w, Resolve(path, Keep), host);
    if !kept.docs[path].binary && !kept.docs[path].readonly {
      SaveWrites(kept, path, false, now, host);
    }
  }

  /** Reload: the file's text replaces the buffer, and the document is clean. */
  lemma ReloadTakesFile(w: World, path: Path, host: Host)
    requires path in w.docs && path in w.disk
    ensures var reloaded := Apply(w, Resolve(path, Reload), host);
            var doc, text := reloaded.docs[path], LogicalText(w.disk[path].bytes);
            && reloaded.disk == w.disk
            && doc.content == text && doc.contentHash == ShaText(text) && doc.eol == EolOf(text)
            && !doc.dirty && doc.externalState == Clean && Matches(doc, w.disk[path].bytes)
            && doc.bufferRevision == doc.savedRevision == w.docs[path].bufferRevision + 1
            && doc.diskRevision == w.docs[path].diskRevision && doc.sizeBytes == w.docs[path].sizeBytes
  {
  }

  /** Reloading a file that is gone fails and changes nothing. */
  lemma ReloadNeedsFile(w: World, path: Path, host: Host)
    requires path in w.docs && path !in w.disk
    ensures Apply(w, Resolve(path, Reload), host) == w
  {
    assert w.docs[path := w.docs[path]] == w.docs;
  }

  // ----- Opening, editing, saving -----

  /** Opening shows the text of an editable text file and nothing of any other,
      clean, and changes no file. An open document is left as it is. */
  lemma OpenShowsFile(w: World, path: Path, writable: bool, host: Host)
    ensures var shown := Apply(w, Open(path, writable), host);
            && shown.disk == w.disk
            && (path in w.docs || path !in w.disk ==> shown == w)
            && (path !in w.docs && path in w.disk ==>
                  path in shown.docs
                  && var doc, bytes := shown.docs[path], w.disk[path].bytes;
                     && (doc.binary <==> LooksBinary(bytes))
                     && (doc.editable <==> !LooksBinary(bytes) && |bytes| <= host.maxEditableBytes)
                     && doc.content == (if doc.editable then LogicalText(bytes) else "")
                     && (doc.encoding == WithBom <==> doc.editable && StartsWithBom(Decode(bytes)))
                     && (doc.readonly <==> !writable) && (doc.largeFile <==> |bytes| > host.largeFileBytes)
                     && !doc.dirty && doc.externalState == Clean && Matches(doc, bytes)
                     && doc.eol == EolOf(doc.content) && doc.sizeBytes == |bytes|)
  {
    EmptyIsLf();
  }

  lemma EmptyIsLf()
    ensures EolOf("") == Lf
  {
  }

  /** An edit that changes the text leaves it unsaved, one that does not changes
      nothing, and no edit reaches a binary document or the disk. */
  lemma EditTakesText(w: World, path: Path, text: Text, host: Host)
    requires path in w.docs && DocInvariant(w.docs[path])
    ensures var edited := Apply(w, Edit(path, text), host);
            var doc := edited.docs[path];
            && edited.disk == w.disk
            && (w.docs[path].binary || text == w.docs[path].content ==> edited == w)
            && (!w.docs[path].binary && text != w.docs[path].content ==>
                  && doc.content == text && doc.contentHash == ShaText(text) && doc.dirty
                  && doc.bufferRevision == w.docs[path].bufferRevision + 1
                  && doc.savedRevision == w.docs[path].savedRevision
                  && doc.externalState == w.docs[path].externalState && doc.diskHash == w.docs[path].diskHash)
  {
    assert w.docs[path := w.docs[path]] == w.docs;
  }

  /** Another style of line endings keeps every line, leaves no break of another
      style, and is unsaved; the style the document has already changes nothing. */
  lemma EolChangesBreaks(w: World, path: Path, eol: Eol, host: Host)
    requires path in w.docs
    ensures var changed := Apply(w, SetEol(path, eol), host);
            var before, doc := w.docs[path], changed.docs[path];
            && changed.disk == w.disk
            && (before.eol == eol ==> changed == w)
            && (before.eol != eol ==>
                  && doc.eol == eol && doc.dirty && doc.bufferRevision == before.bufferRevision + 1
                  && Lines(doc.content) == Lines(before.content) && NormalizeToEol(doc.content, eol) == doc.content
                  && doc.contentHash == ShaText(doc.content))
  {
    NormalizeTwice(w.docs[path].content, eol, eol);
    assert w.docs[path := w.docs[path]] == w.docs;
  }

  /** Somebody else's bytes that an unforced save must not replace. */
  predicate InTheWay(w: World, path: Path)
    requires path in w.docs
  {
    var doc := w.docs[path];
    Marked(w, path) || (path in w.disk && doc.diskHash.Some? && !Matches(doc, w.disk[path].bytes))
  }

  predicate Goes(w: World, path: Path, force: bool)
    requires path in w.docs
  {
    !w.docs[path].binary && !w.docs[path].readonly && (force || !InTheWay(w, path))
  }

  lemma PayloadIs(doc: Doc)
    ensures Payload(doc) == SavedBytes(doc)
  {
    assert "" + doc.content == doc.content;
  }

  lemma GoesIff(w: World, path: Path, force: bool)
    requires path in w.docs
    ensures Goes(w, path, force) <==> Saves(w, path, force)
  {
  }

  /** A save writes exactly when the document is writable text and, unless forced,
      nothing is in the way. Then the file holds the buffer, behind a mark when
      the document carries one, and the document is clean. */
  lemma SaveWrites(w: World, path: Path, force: bool, now: int, host: Host)
    requires path in w.docs && Goes(w, path, force)
    ensures var saved := Apply(w, Save(path, force, now), host);
            var before, doc, bytes := w.docs[path], saved.docs[path], SavedBytes(w.docs[path]);
            && saved.disk == w.disk[path := File(bytes, host.newFileMode)]
            && doc.content == before.content && doc.contentHash == before.contentHash
            && !doc.dirty && doc.externalState == Clean
            && doc.savedRevision == doc.bufferRevision == before.bufferRevision
            && Matches(doc, bytes) && doc.sizeBytes == |bytes| && doc.diskRevision == before.diskRevision + 1
            && doc.ownWriteHash == Some(Sha(bytes)) && doc.ownWriteUntil == now + OWN_WRITE_WINDOW_MS
  {
    PayloadIs(w.docs[path]);
    GoesIff(w, path, force);
  }

  /** Every other save leaves the disk and the text alone; of the refusals only a
      conflict leaves a mark. */
  lemma SaveIsRefused(w: World, path: Path, force: bool, now: int, host: Host)
    requires path in w.docs && !Goes(w, path, force)
    ensures var saved := Apply(w, Save(path, force, now), host);
            var before := w.docs[path];
            && saved.disk == w.disk
            && saved.docs[path] == if before.binary || before.readonly then before else before.(externalState := ExternallyModified)
  {
    GoesIff(w, path, force);
  }

  /** A reader gets the buffer of an open document, else the file's text. */
  lemma ReaderGets(w: World, path: Path)
    ensures ReadLogicalAt(w, path).None? <==> path !in w.docs && path !in w.disk
    ensures path in w.docs ==>
              var logical := ReadLogicalAt(w, path).value;
              && logical.content == w.docs[path].content && logical.hash == w.docs[path].contentHash
              && (logical.fromBuffer <==> w.docs[path].dirty) && (logical.binary <==> w.docs[path].binary)
              && logical.eol == w.docs[path].eol && logical.sizeBytes == w.docs[path].sizeBytes
    ensures path !in w.docs && path in w.disk ==>
              var logical, bytes := ReadLogicalAt(w, path).value, w.disk[path].bytes;
              && (logical.binary <==> LooksBinary(bytes))
              && logical.content == (if LooksBinary(bytes) then "" else LogicalText(bytes))
              && logical.hash == ShaText(logical.content) && logical.eol == EolOf(logical.content)
              && !logical.fromBuffer && logical.sizeBytes == |bytes|
  {
    EmptyIsLf();
  }
}
