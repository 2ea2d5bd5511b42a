/** Rejecting hunks through the service: whole reviews of a closed text file, with
    a diff library that is only assumed to be correct and minimal, and what a
    rejection does to an open one. */
module HunkReview {
  import opened Changes
  import opened ChangeRuns
  import opened ChangeSets
  import opened Content
  import opened Documents
  import opened DocumentRuns
  import ChangeHistory
  import opened Hunks
  import opened TextHunks
  import opened Utf8

  // ----- One rejection -----

  predicate Recorded(s: Plane, b: Baseline) {
    b.blobHash.Some? ==> b.blobHash.value in s.blobs
  }

  /** A closed text file under review, and the text its baseline had. */
  predicate FileUnderReview(s: Plane, path: Path, base: Text, current: Text) {
    && path !in s.world.docs && path in s.world.disk
    && !LooksBinary(s.world.disk[path].bytes) && LogicalText(s.world.disk[path].bytes) == current && PlainText(current)
    && Touched(s, path) && Recorded(s, FindBaseline(s.baselines, path).value)
    && BaselineText(s, FindBaseline(s.baselines, path).value) == base && PlainText(base)
  }

  ghost predicate UnderReview(s: Plane, path: Path, base: Text, current: Text, lib: DiffLibrary) {
    FileUnderReview(s, path, base, current) && Faithful(lib, base)
  }

  lemma EncodedPlain(text: Text)
    requires PlainText(text)
    ensures !LooksBinary(Encode(text)) && LogicalText(Encode(text)) == text
  {
    DecodeEncode(text);
    PlainChars(text);
    if LooksBinary(Encode(text)) {
      var i :| 0 <= i < |Encode(text)| && Encode(text)[i] == 0;
      DecodesNul(Encode(text), i);
    }
  }

  /** In a task without outside edits, the text a review compares with is the one
      a reader got before the task, or nothing for a file that was not there. */
  lemma ReviewBaseIsStart(start: Disk, s: Plane, path: Path)
    requires Accounted(start, s) && Touched(s, path) && (path in start ==> !LooksBinary(start[path].bytes))
    ensures var reader := ReadLogicalAt(World(start, map[]), path);
            BaselineText(s, FindBaseline(s.baselines, path).value) == if reader.Some? then reader.value.content else ""
  {
    var b := FindBaseline(s.baselines, path).value;
    assert b == Captured(start, path);
    if b.existed {
      assert Sha(s.blobs[b.blobHash.value]) == b.blobHash.value;
    }
  }

  /** What decides over a rejection: the hash the reviewer saw, and the key. */
  predicate Current(hunks: seq<Hunk>, key: Key) {
    exists k | 0 <= k < |hunks| :: KeyOf(hunks, k) == key
  }

  lemma CurrentIsFound(hunks: seq<Hunk>, key: Key)
    ensures Current(hunks, key) <==> FindKey(hunks, key).Some?
  {
    var k := FindKey(hunks, key);
    if k.Some? {
      assert KeyOf(hunks, k.value) == key;
    }
  }

  /** For any reader's text and any recorded baseline text, a rejection is refused
      unless the hash is the text's and the key names a hunk of the current diff;
      else it leads to the baseline with exactly the other hunks. */
  lemma RejectResultIs(s: Plane, path: Path, key: Key, expected: Digest, base: Text, current: Text, lib: DiffLibrary)
    returns (next: Text, k: nat)
    requires var logical := ReadLogicalAt(s.world, path);
             logical.Some? && !logical.value.binary && logical.value.content == current && logical.value.hash == ShaText(current)
    requires Touched(s, path) && BaselineText(s, FindBaseline(s.baselines, path).value) == base
    requires Faithful(lib, base) && PlainText(base) && PlainText(current)
    ensures var hunks := lib.diff(base, current);
            var result := RejectResult(s, path, key, expected, lib);
            && (result.Ok? <==> expected == ShaText(current) && Current(hunks, key))
            && (result.Err? ==> result == Err(ReviewStale))
            && (result.Ok? ==>
                  && k < |hunks| && KeyOf(hunks, k) == key && result == Ok(next)
                  && IsDiff(TextLines(base), TextLines(next), Without(hunks, k)) && PlainText(next)
                  && ChangedLines(lib.diff(base, next)) < ChangedLines(hunks))
  {
    var hunks := lib.diff(base, current);
    next, k := current, 0;
    CurrentIsFound(hunks, key);
    if Current(hunks, key) {
      k := FindKey(hunks, key).value;
      next := RejectedText(lib, base, current, k);
    }
  }

  lemma WriteUnderReview(s: Plane, path: Path, base: Text, current: Text, next: Text, now: int, host: Host)
    requires FileUnderReview(s, path, base, current) && PlainText(next)
    ensures var after := WriteFileDirect(s, path, Encode(next), User, now, host).0;
            FileUnderReview(after, path, base, next) && after.world.disk[path].bytes == Encode(next)
            && forall other | other != path :: FileAt(after.world.disk, other) == FileAt(s.world.disk, other)
  {
    assert Ensured(s, path) == s;
    EncodedPlain(next);
    var after := WriteFileDirect(s, path, Encode(next), User, now, host).0;
    Storage.PutKeepsBlobs(s.blobs, Encode(next));
    var b := FindBaseline(s.baselines, path).value;
    assert after.baselines == s.baselines;
  }

  /** A rejection through the service succeeds exactly when the reviewer saw the
      current text and the key names a hunk of the current diff; then the file
      holds the baseline with all the other hunks, and strictly fewer lines are
      left to review. */
  lemma RejectOnce(s: Plane, path: Path, key: Key, expected: Digest, base: Text, current: Text, lib: DiffLibrary, now: int, host: Host)
    returns (next: Text, k: nat)
    requires UnderReview(s, path, base, current, lib)
    ensures var hunks := lib.diff(base, current);
            var (after, result) := RejectHunk(s, path, key, expected, lib, now, host);
            && (result.Ok? <==> expected == ShaText(current) && Current(hunks, key))
            && (result.Err? ==> after == s && result == Err(ReviewStale))
            && (result.Ok? ==>
                  && k < |hunks| && KeyOf(hunks, k) == key && result == Ok(ShaText(next))
                  && UnderReview(after, path, base, next, lib) && after.world.disk[path].bytes == Encode(next)
                  && IsDiff(TextLines(base), TextLines(next), Without(hunks, k))
                  && ChangedLines(lib.diff(base, next)) < ChangedLines(hunks)
                  && forall other | other != path :: FileAt(after.world.disk, other) == FileAt(s.world.disk, other))
  {
    next, k := RejectResultIs(s, path, key, expected, base, current, lib);
    if RejectResult(s, path, key, expected, lib).Ok? {
      WriteUnderReview(s, path, base, current, next, now, host);
    }
  }

  // ----- Rejecting until nothing is left -----

  /** Reject by the given keys, each against the text then on disk. */
  function RejectMany(s: Plane, path: Path, keys: seq<Key>, lib: DiffLibrary, now: int, host: Host): Result<Plane>
    decreases |keys|
  {
    if keys == [] then Ok(s)
    else
      var current := ReadLogicalAt(s.world, path);
      if current.None? then Err(TargetMissing)
      else
        var (after, result) := RejectHunk(s, path, keys[0], current.value.hash, lib, now, host);
        if result.Err? then Err(result.error) else RejectMany(after, path, keys[1..], lib, now, host)
  }

  /** However a reviewer picks hunks, and whatever correct diff is shown after
      each rejection, the review takes no more rejections than there were
      changed lines, and when no hunk is left the file is its baseline text. */
  lemma {:induction false} RejectingAllRestoresBaseline(s: Plane, path: Path, keys: seq<Key>, base: Text, current: Text,
                                                         lib: DiffLibrary, now: int, host: Host)
    returns (text: Text)
    requires UnderReview(s, path, base, current, lib)
    requires RejectMany(s, path, keys, lib, now, host).Ok?
    ensures var after := RejectMany(s, path, keys, lib, now, host).value;
            && UnderReview(after, path, base, text, lib)
            && |keys| + ChangedLines(lib.diff(base, text)) <= ChangedLines(lib.diff(base, current))
            && (lib.diff(base, text) == [] ==> text == base)
            && (keys != [] ==> after.world.disk[path].bytes == Encode(text))
            && forall other | other != path :: FileAt(after.world.disk, other) == FileAt(s.world.disk, other)
    decreases |keys|
  {
    if keys == [] {
      text := current;
      if lib.diff(base, text) == [] {
        EmptyDiffMeansEqual(base, text);
      }
    } else {
      var next, _ := RejectOnce(s, path, keys[0], ShaText(current), base, current, lib, now, host);
      var after := RejectHunk(s, path, keys[0], ShaText(current), lib, now, host).0;
      text := RejectingAllRestoresBaseline(after, path, keys[1..], base, next, lib, now, host);
    }
  }

  // ----- What the bytes are then -----

  /** The bytes a plain text has are the file's own exactly when the file was
      valid UTF-8 without a byte-order mark. */
  lemma PlainBytesIff(bytes: Bytes)
    requires PlainText(LogicalText(bytes))
    ensures Encode(LogicalText(bytes)) == bytes <==> Encode(Decode(bytes)) == bytes && !StartsWithBom(Decode(bytes))
  {
    DecodeEncode(LogicalText(bytes));
    PlainChars(LogicalText(bytes));
  }

  /** A finished review puts the baseline's bytes back exactly when they were
      valid UTF-8 without a byte-order mark; a mark is lost for good. A file
      the task created is left empty, not removed. */
  lemma FinishedReviewLeaves(s: Plane, path: Path, keys: seq<Key>, base: Text, current: Text,
                             lib: DiffLibrary, now: int, host: Host)
    returns (text: Text)
    requires UnderReview(s, path, base, current, lib)
    requires RejectMany(s, path, keys, lib, now, host).Ok?
    ensures var b, after := FindBaseline(s.baselines, path).value, RejectMany(s, path, keys, lib, now, host).value;
            keys != [] && lib.diff(base, text) == [] ==>
              && path in after.world.disk
              && (b.existed && BaselineBytes(s, b).Some? ==>
                    var bytes := BaselineBytes(s, b).value;
                    after.world.disk[path].bytes == bytes
                    <==> Encode(Decode(bytes)) == bytes && !StartsWithBom(Decode(bytes)))
              && (!b.existed ==> after.world.disk[path].bytes == [])
  {
    text := RejectingAllRestoresBaseline(s, path, keys, base, current, lib, now, host);
    var b := FindBaseline(s.baselines, path).value;
    if b.existed && BaselineBytes(s, b).Some? {
      PlainBytesIff(BaselineBytes(s, b).value);
    }
  }

  // ----- Reviewing an open document -----

  /** The same on an open file, against the buffer: a rejection succeeds exactly
      when the reviewer saw the buffer's text and the key names a hunk of the
      buffer's diff; then the file holds the baseline with all the other hunks. */
  lemma RejectOnceOpen(s: Plane, path: Path, key: Key, expected: Digest, base: Text, lib: DiffLibrary, now: int, host: Host)
    returns (next: Text, k: nat)
    requires path in s.world.docs && !s.world.docs[path].binary
    requires var doc := s.world.docs[path]; doc.contentHash == ShaText(doc.content) && PlainText(doc.content)
    requires Touched(s, path) && BaselineText(s, FindBaseline(s.baselines, path).value) == base && PlainText(base)
    requires Faithful(lib, base)
    ensures var hunks := lib.diff(base, s.world.docs[path].content);
            var (after, result) := RejectHunk(s, path, key, expected, lib, now, host);
            && (result.Ok? <==> expected == ShaText(s.world.docs[path].content) && Current(hunks, key))
            && (result.Err? ==> after == s && result == Err(ReviewStale))
            && (result.Ok? ==>
                  && k < |hunks| && KeyOf(hunks, k) == key && result == Ok(ShaText(next))
                  && BytesAt(after.world.disk, path) == Some(Encode(next)) && PlainText(next)
                  && IsDiff(TextLines(base), TextLines(next), Without(hunks, k))
                  && ChangedLines(lib.diff(base, next)) < ChangedLines(hunks)
                  && forall other | other != path :: FileAt(after.world.disk, other) == FileAt(s.world.disk, other))
  {
    next, k := RejectResultIs(s, path, key, expected, base, s.world.docs[path].content, lib);
    if RejectResult(s, path, key, expected, lib).Ok? {
      DirectWriteLeaves(s, path, Encode(next), User, now, host);
    }
  }

  lemma DirectWriteLeaves(s: Plane, path: Path, bytes: Bytes, author: Author, now: int, host: Host)
    ensures var after := WriteFileDirect(s, path, bytes, author, now, host).0;
            && BytesAt(after.world.disk, path) == Some(bytes)
            && forall other | other != path :: FileAt(after.world.disk, other) == FileAt(s.world.disk, other)
  {
  }

  /** What a successful rejection does when the file is open. The file always
      gets the new text. A dirty buffer keeps its own. A clean one, as the
      document invariant has it, follows exactly when the notification is not
      taken for the store's own save, or the text does not change at all. */
  lemma RejectOnOpenDocument(s: Plane, path: Path, key: Key, expected: Digest, lib: DiffLibrary, now: int, host: Host)
    requires path in s.world.docs && RejectResult(s, path, key, expected, lib).Ok?
    ensures var next := RejectResult(s, path, key, expected, lib).value;
            var doc, after := s.world.docs[path], RejectHunk(s, path, key, expected, lib, now, host).0;
            && path in after.world.docs && BytesAt(after.world.disk, path) == Some(Encode(next))
            && (doc.dirty ==> after.world.docs[path].content == doc.content && after.world.docs[path].dirty)
            && (!doc.dirty && doc.editable && DocInvariant(doc) && !StartsWithBom(next) ==>
                  (after.world.docs[path].content == next
                   <==> next == doc.content || !Suppressed(doc, FileAt(after.world.disk, path), now)))
  {
    var next := RejectResult(s, path, key, expected, lib).value;
    var doc := s.world.docs[path];
    DecodeEncode(next);
    var s1 := WrittenBytes(Ensured(s, path), path, Encode(next), None, host);
    var file := FileAt(s1.world.disk, path);
    var after := RejectHunk(s, path, key, expected, lib, now, host).0;
    assert after.world == WatchAt(s1.world, path, now);
    assert after.world.docs[path] == Observed(doc, file, now);
  }

  /** So a rejection that brings back, while the window is open, the very text
      the store saved last is not seen in the buffer. */
  lemma RejectionToSavedTextIsHidden(s: Plane, path: Path, key: Key, expected: Digest, lib: DiffLibrary, now: int, host: Host)
    requires path in s.world.docs && RejectResult(s, path, key, expected, lib).Ok?
    requires var doc, next := s.world.docs[path], RejectResult(s, path, key, expected, lib).value;
             doc.ownWriteUntil > now && doc.ownWriteHash == Some(ShaText(next)) && next != doc.content
    ensures var next := RejectResult(s, path, key, expected, lib).value;
            var after := RejectHunk(s, path, key, expected, lib, now, host).0;
            BytesAt(after.world.disk, path) == Some(Encode(next)) && after.world.docs[path].content != next
  {
    RejectOnOpenDocument(s, path, key, expected, lib, now, host);
  }

  // ----- Edits the review does not see -----

  /** What a successful rejection replaces. On a closed file, bytes that read as
      the very text that was reviewed. On an open one the disk is never asked:
      the rejection goes through just the same over whatever others wrote. */
  lemma RejectionReplaces(s: Plane, path: Path, key: Key, expected: Digest, lib: DiffLibrary, theirs: File, now: int, host: Host)
    requires RejectResult(s, path, key, expected, lib).Ok?
    ensures path !in s.world.docs ==>
              path in s.world.disk && !LooksBinary(s.world.disk[path].bytes)
              && ShaText(LogicalText(s.world.disk[path].bytes)) == expected
    ensures path in s.world.docs ==>
              var (after, result) := RejectHunk(SetFile(s, path, Some(theirs)), path, key, expected, lib, now, host);
              result.Ok? && BytesAt(after.world.disk, path) == Some(Encode(RejectResult(s, path, key, expected, lib).value))
  {
    var edited := SetFile(s, path, Some(theirs));
    assert edited.baselines == s.baselines && edited.blobs == s.blobs && edited.world.docs == s.world.docs;
    if path in s.world.docs {
      assert RejectResult(edited, path, key, expected, lib) == RejectResult(s, path, key, expected, lib);
    }
  }

  /** The same of a revert that was asked for the text a reader saw. */
  lemma RevertReplaces(s: Plane, path: Path, expected: Digest, theirs: File, now: int, host: Host)
    requires ChangeHistory.Closed(s) && RevertFile(s, path, Some(expected), now, host).1.Ok?
    ensures path !in s.world.docs ==>
              path in s.world.disk
              && expected == ShaText(if LooksBinary(s.world.disk[path].bytes) then "" else LogicalText(s.world.disk[path].bytes))
    ensures path in s.world.docs ==>
              var (after, result) := RevertFile(SetFile(s, path, Some(theirs)), path, Some(expected), now, host);
              result.Ok? && BytesAt(after.world.disk, path) == BaselineBytes(s, FindBaseline(s.baselines, path).value)
  {
    var edited, b := SetFile(s, path, Some(theirs)), FindBaseline(s.baselines, path).value;
    assert edited.baselines == s.baselines && edited.blobs == s.blobs && edited.world.docs == s.world.docs;
    assert ChangeHistory.WellRecorded(s.blobs, b);
    if b.existed {
      assert Sha(s.blobs[b.blobHash.value]) == b.blobHash.value;
    }
  }

  /** So an open file loses bytes nobody has seen exactly when the store's disk
      hash is not that of the file: then, and only then, what a successful
      rejection replaces is not what the store last read or wrote there. */
  lemma UnseenBytesAreReplaced(disk: Disk, steps: seq<DocStep>, blobs: Storage.Blobs, baselines: seq<Baseline>, log: seq<Record>,
                               path: Path, key: Key, expected: Digest, lib: DiffLibrary, host: Host)
    requires var w := DocumentRuns.Run(World(disk, map[]), steps, host);
             path in w.docs && path in w.disk && RejectResult(Plane(w, blobs, baselines, log), path, key, expected, lib).Ok?
    ensures var w := DocumentRuns.Run(World(disk, map[]), steps, host);
            var seen := SeenAfter(map[], World(disk, map[]), steps, host);
            path in seen
            && (w.docs[path].diskHash == Some(Sha(w.disk[path].bytes)) <==> seen[path] == Some(w.disk[path].bytes))
  {
    RunKeepsSeen(World(disk, map[]), map[], steps, host);
  }
}
