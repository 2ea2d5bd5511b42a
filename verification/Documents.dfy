/** Open documents (packages/document-service/src/document-store.ts): the
    transitions of one document against the file at its path, and the store
    that applies them. */
module Documents {
  import opened Content
  import opened LineEndings
  import opened Storage
  import opened Utf8

  datatype ExternalState = Clean | ExternallyModified | ExternallyDeleted
  datatype Encoding = Plain | WithBom
  datatype Choice = Reload | Keep

  datatype Doc = Doc(
    content: Text,
    editable: bool,
    diskRevision: nat,
    bufferRevision: nat,
    savedRevision: nat,
    contentHash: Digest,
    diskHash: Option<Digest>,
    dirty: bool,
    eol: Eol,
    encoding: Encoding,
    binary: bool,
    largeFile: bool,
    readonly: bool,
    externalState: ExternalState,
    sizeBytes: nat,
    ownWriteUntil: int,
    ownWriteHash: Option<Digest>)

  datatype DocError = NotOpen | BinaryDocument | ReadOnlyDocument | SaveConflict | ReadFailed

  datatype Outcome<+T, +E> = Ok(value: T) | Err(error: E)

  /** What the host decides: size limits, and the mode a new file gets. */
  datatype Host = Host(largeFileBytes: nat, maxEditableBytes: nat, newFileMode: Mode)

  const OWN_WRITE_WINDOW_MS := 2500

  function LogicalText(bytes: Bytes): Text {
    StripBom(Decode(bytes))
  }

  // ----- One document -----

  function Opened(file: File, writable: bool, host: Host): Doc {
    var bytes := file.bytes;
    var binary := LooksBinary(bytes);
    var editable := !binary && |bytes| <= host.maxEditableBytes;
    var content := if editable then LogicalText(bytes) else "";
    var encoding := if editable && StartsWithBom(Decode(bytes)) then WithBom else Plain;
    Doc(content, editable, 1, 1, 1, ShaText(content), Some(Sha(bytes)), false,
        if binary then Lf else EolOf(content), encoding, binary, |bytes| > host.largeFileBytes,
        !writable, Clean, |bytes|, 0, None)
  }

  function Edited(doc: Doc, content: Text): Doc {
    if content == doc.content then doc
    else
      doc.(content := content,
           bufferRevision := doc.bufferRevision + 1,
           contentHash := ShaText(content),
           dirty := doc.bufferRevision + 1 != doc.savedRevision)
  }

  function WithEol(doc: Doc, eol: Eol): Doc {
    if doc.eol == eol then doc
    else
      var content := NormalizeToEol(doc.content, eol);
      doc.(content := content, eol := eol, bufferRevision := doc.bufferRevision + 1,
           contentHash := ShaText(content), dirty := true)
  }

  /** Disk drift seen by an unforced save. */
  predicate Drifted(doc: Doc, file: Option<File>) {
    doc.externalState == ExternallyModified
    || (file.Some? && doc.diskHash.Some? && Sha(file.value.bytes) != doc.diskHash.value)
  }

  function Payload(doc: Doc): Bytes {
    Encode((if doc.encoding == WithBom then [BOM] else "") + doc.content)
  }

  function SaveError(doc: Doc, file: Option<File>, force: bool): Option<DocError> {
    if doc.binary then Some(BinaryDocument)
    else if doc.readonly then Some(ReadOnlyDocument)
    else if !force && Drifted(doc, file) then Some(SaveConflict)
    else None
  }

  function AfterSave(doc: Doc, file: Option<File>, force: bool, now: int): Doc {
    match SaveError(doc, file, force)
    case None =>
      doc.(savedRevision := doc.bufferRevision, dirty := false, diskRevision := doc.diskRevision + 1,
           diskHash := Some(Sha(Payload(doc))), sizeBytes := |Payload(doc)|, externalState := Clean,
           ownWriteUntil := now + OWN_WRITE_WINDOW_MS, ownWriteHash := Some(Sha(Payload(doc))))
    case Some(SaveConflict) => doc.(externalState := ExternallyModified)
    case Some(_) => doc
  }

  /** The watcher event is taken for the store's own save. */
  predicate Suppressed(doc: Doc, file: Option<File>, now: int) {
    file.Some? && doc.ownWriteUntil > now && Some(Sha(file.value.bytes)) == doc.ownWriteHash
  }

  function Reloaded(doc: Doc, bytes: Bytes): Doc {
    var content := LogicalText(bytes);
    doc.(content := content, contentHash := ShaText(content), diskHash := Some(Sha(bytes)),
         diskRevision := doc.diskRevision + 1, bufferRevision := doc.bufferRevision + 1,
         savedRevision := doc.bufferRevision + 1, eol := EolOf(content), sizeBytes := |bytes|,
         externalState := Clean)
  }

  function Observed(doc: Doc, file: Option<File>, now: int): Doc {
    if Suppressed(doc, file, now) then doc.(ownWriteUntil := 0)
    else if file.None? then doc.(externalState := ExternallyDeleted, diskHash := None, dirty := true)
    else
      var bytes := file.value.bytes;
      if doc.diskHash == Some(Sha(bytes)) then doc
      else if !doc.dirty then Reloaded(doc, bytes)
      else doc.(externalState := ExternallyModified, diskRevision := doc.diskRevision + 1, diskHash := Some(Sha(bytes)))
  }

  predicate Notifies(doc: Doc, file: Option<File>, now: int) {
    !Suppressed(doc, file, now) && (file.Some? ==> doc.diskHash != Some(Sha(file.value.bytes)))
  }

  function Resolved(doc: Doc, file: Option<File>, choice: Choice): Doc {
    match choice
    case Reload =>
      if file.None? then doc
      else Reloaded(doc, file.value.bytes).(diskRevision := doc.diskRevision, sizeBytes := doc.sizeBytes, dirty := false)
    case Keep =>
      doc.(diskHash := if file.Some? then Some(Sha(file.value.bytes)) else None,
           externalState := Clean, dirty := true)
  }

  // ----- The store: open documents over the disk -----

  datatype World = World(disk: Disk, docs: map<Path, Doc>)

  datatype DocStep =
    | Open(path: Path, writable: bool)
    | Edit(path: Path, text: Text)
    | SetEol(path: Path, eol: Eol)
    | Save(path: Path, force: bool, now: int)
    | Watch(path: Path, now: int)
    | Resolve(path: Path, choice: Choice)
    | Close(path: Path)
    | OutsideWrite(path: Path, file: File)
    | OutsideDelete(path: Path)

  function SaveAt(w: World, path: Path, force: bool, now: int, host: Host): World
    requires path in w.docs
  {
    var doc, file := w.docs[path], FileAt(w.disk, path);
    World(if SaveError(doc, file, force).None? then w.disk[path := File(Payload(doc), host.newFileMode)] else w.disk,
          w.docs[path := AfterSave(doc, file, force, now)])
  }

  function WatchAt(w: World, path: Path, now: int): World {
    if path !in w.docs then w
    else w.(docs := w.docs[path := Observed(w.docs[path], FileAt(w.disk, path), now)])
  }

  function EditAt(w: World, path: Path, text: Text): World
    requires path in w.docs
  {
    if w.docs[path].binary then w else w.(docs := w.docs[path := Edited(w.docs[path], text)])
  }

  /** One event. A call the store answers with an error may still leave a mark. */
  function Apply(w: World, step: DocStep, host: Host): World {
    var path := step.path;
    match step
    case Open(_, writable) =>
      if path in w.docs || path !in w.disk then w
      else w.(docs := w.docs[path := Opened(w.disk[path], writable, host)])
    case Edit(_, text) => if path in w.docs then EditAt(w, path, text) else w
    case SetEol(_, eol) =>
      if path in w.docs then w.(docs := w.docs[path := WithEol(w.docs[path], eol)]) else w
    case Save(_, force, now) => if path in w.docs then SaveAt(w, path, force, now, host) else w
    case Watch(_, now) => WatchAt(w, path, now)
    case Resolve(_, choice) =>
      if path in w.docs then w.(docs := w.docs[path := Resolved(w.docs[path], FileAt(w.disk, path), choice)]) else w
    case Close(_) => w.(docs := w.docs - {path})
    case OutsideWrite(_, file) => w.(disk := w.disk[path := file])
    case OutsideDelete(_) => w.(disk := w.disk - {path})
  }

  datatype Logical = Logical(content: Text, hash: Digest, fromBuffer: bool, eol: Eol, binary: bool, sizeBytes: nat)

  /** What a tool reads: the open buffer, else the decoded file. */
  function ReadLogicalAt(w: World, path: Path): Option<Logical> {
    if path in w.docs then
      var doc := w.docs[path];
      Some(Logical(doc.content, doc.contentHash, doc.dirty, doc.eol, doc.binary, doc.sizeBytes))
    else if path in w.disk then
      var bytes := w.disk[path].bytes;
      var binary := LooksBinary(bytes);
      var content := if binary then "" else LogicalText(bytes);
      Some(Logical(content, ShaText(content), false, if binary then Lf else EolOf(content), binary, |bytes|))
    else None
  }

  class DocumentStore {
    const fs: FileSystem
    const host: Host
    var docs: map<Path, Doc>

    constructor (fs: FileSystem, host: Host)
      ensures this.fs == fs && this.host == host && docs == map[]
    {
      this.fs, this.host := fs, host;
      docs := map[];
    }

    ghost function Now(): World
      reads this, fs
    {
      World(fs.files, docs)
    }

    predicate IsOpen(path: Path)
      reads this
    {
      path in docs
    }

    method OpenDocument(path: Path, writable: bool) returns (r: Outcome<Doc, DocError>)
      modifies this
      ensures Now() == Apply(old(Now()), Open(path, writable), host)
      ensures r == if path in docs then Ok(docs[path]) else Err(ReadFailed)
      ensures r.Err? <==> path !in old(docs) && path !in fs.files
    {
      if path in docs {
        return Ok(docs[path]);
      }
      if path !in fs.files {
        return Err(ReadFailed);
      }
      var buffer := fs.files[path].bytes;
      var binary := DetectBinary(buffer);
      var editable := !binary && |buffer| <= host.maxEditableBytes;
      var content: Text, encoding := "", Plain;
      if editable {
        content := Decode(buffer);
        if StartsWithBom(content) {
          encoding := WithBom;
          content := content[1..];
        }
      }
      var eol := Lf;
      if !binary {
        eol := DetectEol(content);
      }
      var doc := Doc(content, editable, 1, 1, 1, ShaText(content), Some(Sha(buffer)), false, eol, encoding,
                     binary, |buffer| > host.largeFileBytes, !writable, Clean, |buffer|, 0, None);
      docs := docs[path := doc];
      r := Ok(doc);
    }

    method UpdateBuffer(path: Path, content: Text) returns (r: Outcome<Doc, DocError>)
      modifies this
      ensures Now() == Apply(old(Now()), Edit(path, content), host)
      ensures r == if path !in docs then Err(NotOpen) else if docs[path].binary then Err(BinaryDocument) else Ok(docs[path])
    {
      if path !in docs {
        return Err(NotOpen);
      }
      var doc := docs[path];
      if doc.binary {
        return Err(BinaryDocument);
      }
      if content != doc.content {
        doc := doc.(content := content);
        doc := doc.(bufferRevision := doc.bufferRevision + 1);
        doc := doc.(contentHash := ShaText(content));
        doc := doc.(dirty := doc.bufferRevision != doc.savedRevision);
        docs := docs[path := doc];
      }
      assert docs == old(docs)[path := docs[path]];
      r := Ok(doc);
    }

    method ChangeEol(path: Path, eol: Eol) returns (r: Outcome<Doc, DocError>)
      modifies this
      ensures Now() == Apply(old(Now()), SetEol(path, eol), host)
      ensures r == if path in docs then Ok(docs[path]) else Err(NotOpen)
    {
      if path !in docs {
        return Err(NotOpen);
      }
      var doc := docs[path];
      if doc.eol != eol {
        doc := doc.(content := NormalizeToEol(doc.content, eol), eol := eol);
        doc := doc.(bufferRevision := doc.bufferRevision + 1, contentHash := ShaText(doc.content), dirty := true);
        docs := docs[path := doc];
      }
      assert docs == old(docs)[path := docs[path]];
      r := Ok(doc);
    }

    /** The temporary file and the rename are one atomic write. */
    method SaveDocument(path: Path, force: bool, now: int) returns (r: Outcome<Doc, DocError>)
      modifies this, fs
      ensures Now() == Apply(old(Now()), Save(path, force, now), host)
      ensures path !in old(docs) ==> r == Err(NotOpen)
      ensures path in old(docs) ==>
                var error := SaveError(old(docs)[path], FileAt(old(fs.files), path), force);
                path in docs && r == if error.Some? then Err(error.value) else Ok(docs[path])
    {
      if path !in docs {
        return Err(NotOpen);
      }
      var doc := docs[path];
      if doc.binary {
        assert docs == docs[path := doc];
        return Err(BinaryDocument);
      }
      if doc.readonly {
        assert docs == docs[path := doc];
        return Err(ReadOnlyDocument);
      }
      if !force {
        var currentDiskHash := None;
        if path in fs.files {
          currentDiskHash := Some(Sha(fs.files[path].bytes));
        }
        if doc.externalState == ExternallyModified
           || (currentDiskHash.Some? && doc.diskHash.Some? && currentDiskHash != doc.diskHash) {
          docs := docs[path := doc.(externalState := ExternallyModified)];
          return Err(SaveConflict);
        }
      }
      var data := Payload(doc);
      fs.files := fs.files[path := File(data, host.newFileMode)];
      doc := doc.(savedRevision := doc.bufferRevision, dirty := false, diskRevision := doc.diskRevision + 1);
      doc := doc.(diskHash := Some(Sha(data)), sizeBytes := |data|, externalState := Clean);
      doc := doc.(ownWriteUntil := now + OWN_WRITE_WINDOW_MS, ownWriteHash := doc.diskHash);
      docs := docs[path := doc];
      r := Ok(doc);
    }

    method IsOwnWrite(path: Path, now: int) returns (own: bool)
      ensures own <==> path in docs && docs[path].ownWriteUntil > now
    {
      own := path in docs && docs[path].ownWriteUntil > now;
    }

    /** Decoding without the byte-order mark, shared by both reloads. */
    method ReadText(buffer: Bytes) returns (content: Text, eol: Eol)
      ensures content == LogicalText(buffer) && eol == EolOf(content)
    {
      content := Decode(buffer);
      if StartsWithBom(content) {
        content := content[1..];
      }
      eol := DetectEol(content);
    }

    /** The watcher hook; None when the event was suppressed or changed nothing. */
    method HandleExternalChange(path: Path, now: int) returns (r: Option<Doc>)
      modifies this
      ensures Now() == WatchAt(old(Now()), path, now)
      ensures r == if path in old(docs) && Notifies(old(docs)[path], FileAt(fs.files, path), now)
                   then Some(docs[path]) else None
    {
      if path !in docs {
        return None;
      }
      var doc := docs[path];
      var own := IsOwnWrite(path, now);
      if path in fs.files && own && Some(Sha(fs.files[path].bytes)) == doc.ownWriteHash {
        docs := docs[path := doc.(ownWriteUntil := 0)];
        return None;
      }
      if path !in fs.files {
        doc := doc.(externalState := ExternallyDeleted, diskHash := None, dirty := true);
        docs := docs[path := doc];
        return Some(doc);
      }
      var buffer := fs.files[path].bytes;
      var newDiskHash := Sha(buffer);
      if doc.diskHash == Some(newDiskHash) {
        assert docs == docs[path := doc];
        return None;
      }
      if !doc.dirty {
        var content, eol := ReadText(buffer);
        doc := doc.(content := content, contentHash := ShaText(content), diskHash := Some(newDiskHash),
                    diskRevision := doc.diskRevision + 1, bufferRevision := doc.bufferRevision + 1,
                    savedRevision := doc.bufferRevision + 1, eol := eol, sizeBytes := |buffer|, externalState := Clean);
        docs := docs[path := doc];
        return Some(doc);
      }
      doc := doc.(externalState := ExternallyModified, diskRevision := doc.diskRevision + 1, diskHash := Some(newDiskHash));
      docs := docs[path := doc];
      return Some(doc);
    }

    method ResolveExternal(path: Path, choice: Choice) returns (r: Outcome<Doc, DocError>)
      modifies this
      ensures Now() == Apply(old(Now()), Resolve(path, choice), host)
      ensures r == if path !in docs then Err(NotOpen)
                   else if choice == Reload && path !in fs.files then Err(ReadFailed)
                   else Ok(docs[path])
    {
      if path !in docs {
        return Err(NotOpen);
      }
      var doc := docs[path];
      if choice == Reload {
        if path !in fs.files {
          assert docs == docs[path := doc];
          return Err(ReadFailed);
        }
        var buffer := fs.files[path].bytes;
        var content, eol := ReadText(buffer);
        doc := doc.(content := content, contentHash := ShaText(content), diskHash := Some(Sha(buffer)),
                    bufferRevision := doc.bufferRevision + 1, savedRevision := doc.bufferRevision + 1,
                    dirty := false, eol := eol, externalState := Clean);
      } else {
        doc := doc.(diskHash := if path in fs.files then Some(Sha(fs.files[path].bytes)) else None);
        doc := doc.(externalState := Clean, dirty := true);
      }
      docs := docs[path := doc];
      r := Ok(doc);
    }

    method ReadLogical(path: Path) returns (r: Option<Logical>)
      ensures r == ReadLogicalAt(Now(), path)
    {
      if path in docs {
        var doc := docs[path];
        return Some(Logical(doc.content, doc.contentHash, doc.dirty, doc.eol, doc.binary, doc.sizeBytes));
      }
      if path !in fs.files {
        return None;
      }
      var buffer := fs.files[path].bytes;
      var binary := DetectBinary(buffer);
      var content := if binary then "" else Decode(buffer);
      if StartsWithBom(content) {
        content := content[1..];
      }
      var eol := Lf;
      if !binary {
        eol := DetectEol(content);
      }
      return Some(Logical(content, ShaText(content), false, eol, binary, |buffer|));
    }

    method CloseDocument(path: Path)
      modifies this
      ensures Now() == Apply(old(Now()), Close(path), host)
    {
      docs := docs - {path};
    }
  }
}
