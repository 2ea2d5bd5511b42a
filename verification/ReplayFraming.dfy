/** Incremental reading of an append-only recording
    (apps/desktop-main/src/terminal-replay-analysis-worker.ts, processSegment). */
module ReplayFraming {
  import opened Content
  import opened Splitting
  import opened Utf8

  const NEWLINE: Byte := 0x0A
  const READ_CHUNK_BYTES: nat := 256 * 1024

  /** The lines of a recording that are terminated by a newline. */
  function CompleteLines(bytes: Bytes): seq<Bytes> {
    Split(bytes, NEWLINE)[..|Split(bytes, NEWLINE)| - 1]
  }

  datatype Reading = Reading(cursor: nat, lines: seq<Bytes>)

  /** The cursor stands just behind a complete line, and every line in front of
      it was handed on, once and in order. */
  predicate Framed(file: Bytes, r: Reading) {
    && r.cursor <= |file|
    && (r.cursor > 0 ==> file[r.cursor - 1] == NEWLINE)
    && r.lines == CompleteLines(file[..r.cursor])
  }

  /** Framed, and nothing complete is left before position `to`. */
  predicate ReadTo(file: Bytes, to: nat, r: Reading) {
    Framed(file, r) && r.cursor <= to <= |file| && NEWLINE !in file[r.cursor..to]
  }

  /** How far the reads of one call get: each asks for what is left, a chunk at
      most, and may return less; one that returns nothing ends the call. */
  function Reached(from: nat, size: nat, chunks: seq<nat>): (to: nat)
    ensures from <= to && (from <= size ==> to <= size)
    decreases |chunks|
  {
    if from >= size || chunks == [] || chunks[0] == 0 then from
    else Reached(from + Min(chunks[0], Min(READ_CHUNK_BYTES, size - from)), size, chunks[1..])
  }

  lemma {:induction false} SplitApart(head: Bytes, tail: Bytes)
    ensures Split(head + [NEWLINE] + tail, NEWLINE) == Split(head, NEWLINE) + Split(tail, NEWLINE)
  {
    var whole := head + [NEWLINE] + tail;
    if head == [] {
      assert whole[1..] == tail;
    } else {
      assert whole[1..] == head[1..] + [NEWLINE] + tail;
      SplitApart(head[1..], tail);
    }
  }

  /** Behind a newline, the complete lines go on with those of the rest. */
  lemma CompleteLinesApart(bytes: Bytes, cursor: nat)
    requires cursor <= |bytes| && (cursor > 0 ==> bytes[cursor - 1] == NEWLINE)
    ensures CompleteLines(bytes) == CompleteLines(bytes[..cursor]) + CompleteLines(bytes[cursor..])
  {
    if cursor == 0 {
      assert bytes[0..] == bytes;
    } else {
      var head, tail := bytes[..cursor - 1], bytes[cursor..];
      assert bytes == head + [NEWLINE] + tail;
      assert bytes[..cursor] == head + [NEWLINE] + [];
      SplitApart(head, tail);
      SplitApart(head, []);
    }
  }

  lemma NoneComplete(bytes: Bytes)
    requires NEWLINE !in bytes
    ensures CompleteLines(bytes) == []
  {
    SplitUnseparated(bytes, NEWLINE);
  }

  /** One more complete line. */
  lemma NextLine(file: Bytes, r: Reading, line: Bytes)
    requires Framed(file, r) && NEWLINE !in line
    requires r.cursor + |line| + 1 <= |file| && file[r.cursor..r.cursor + |line| + 1] == line + [NEWLINE]
    ensures Framed(file, Reading(r.cursor + |line| + 1, r.lines + [line]))
  {
    var next := r.cursor + |line| + 1;
    var front := file[..next];
    assert file[next - 1] == file[r.cursor..next][|line|];
    assert front[..r.cursor] == file[..r.cursor] && front[r.cursor..] == line + [NEWLINE];
    CompleteLinesApart(front, r.cursor);
    SplitApart(line, []);
    SplitUnseparated(line, NEWLINE);
    assert line + [NEWLINE] + [] == line + [NEWLINE];
  }

  lemma SomeComplete(bytes: Bytes)
    requires NEWLINE in bytes
    ensures CompleteLines(bytes) != []
  {
    var i :| 0 <= i < |bytes| && bytes[i] == NEWLINE;
    assert bytes == bytes[..i] + [NEWLINE] + bytes[i + 1..];
    SplitApart(bytes[..i], bytes[i + 1..]);
  }

  lemma NoNewlineBetween(file: Bytes, to: nat, from: nat, cursor: nat)
    requires from <= to <= |file| && NEWLINE !in file[from..to]
    requires cursor <= to && (cursor > 0 ==> file[cursor - 1] == NEWLINE)
    ensures cursor <= from
  {
    forall i | from <= i < to
      ensures file[i] != NEWLINE
    {
      assert file[from..to][i - from] == file[i];
    }
  }

  /** A reading up to a position is no matter of how the reads were cut: there
      is only one. Its lines are the complete lines before the position. */
  lemma ReadToIsUnique(file: Bytes, to: nat, r: Reading, other: Reading)
    requires ReadTo(file, to, r) && ReadTo(file, to, other)
    ensures r == other && r.lines == CompleteLines(file[..to])
  {
    NoNewlineBetween(file, to, r.cursor, other.cursor);
    NoNewlineBetween(file, to, other.cursor, r.cursor);
    var front := file[..to];
    assert front[..r.cursor] == file[..r.cursor] && front[r.cursor..] == file[r.cursor..to];
    CompleteLinesApart(front, r.cursor);
    NoneComplete(file[r.cursor..to]);
  }

  method IndexOf(bytes: Bytes, b: Byte) returns (index: int)
    ensures index < 0 ==> b !in bytes
    ensures index >= 0 ==> index < |bytes| && bytes[index] == b && b !in bytes[..index]
  {
    var i := 0;
    while i < |bytes|
      invariant 0 <= i <= |bytes|
      invariant b !in bytes[..i]
    {
      if bytes[i] == b {
        return i;
      }
      i := i + 1;
    }
    index := -1;
  }

  class SegmentState {
    var cursor: nat
    var lines: seq<Bytes>
    var finished: bool

    constructor ()
      ensures Now() == Reading(0, []) && !finished
    {
      cursor, lines, finished := 0, [], false;
    }

    function Now(): Reading
      reads this
    {
      Reading(cursor, lines)
    }

    /** One call on the recording as it is now, if it exists. `chunks` says what
        each read returns at most. */
    method ProcessSegment(recording: Option<Bytes>, chunks: seq<nat>, live: bool)
      modifies this
      ensures finished == (old(finished) || !live)
      ensures old(finished) || recording.None? ==> Now() == old(Now())
      ensures !old(finished) && recording.Some? ==> Call(old(Now()), recording.value, chunks, Now())
    {
      if !finished && recording.Some? {
        ReadLines(recording.value, chunks);
      }
      if !live && !finished {
        finished := true;
      }
    }

    method ReadLines(file: Bytes, chunks: seq<nat>)
      modifies this
      ensures finished == old(finished)
      ensures Call(old(Now()), file, chunks, Now())
    {
      var size := |file|;
      var filePosition: nat := Min(cursor, size);
      var bufferStart: nat := filePosition;
      var pending: Bytes := [];
      var r := 0;
      ghost var framed := Framed(file, Now());
      while filePosition < size
        invariant bufferStart + |pending| == filePosition <= size
        invariant pending == file[bufferStart..filePosition]
        invariant NEWLINE !in pending
        invariant finished == old(finished) && old(lines) <= lines
        invariant framed ==> Framed(file, Now()) && cursor == bufferStart
        invariant r <= |chunks|
        invariant framed ==> Reached(filePosition, size, chunks[r..]) == Reached(old(cursor), size, chunks)
        decreases size - filePosition
      {
        var length: nat := Min(READ_CHUNK_BYTES, size - filePosition);
        var bytes: nat := if r < |chunks| then Min(chunks[r], length) else 0;
        if bytes <= 0 {
          break;
        }
        assert chunks[r..][1..] == chunks[r + 1..];
        r := r + 1;
        var chunk := file[filePosition..filePosition + bytes];
        assert file[bufferStart..filePosition + bytes] == file[bufferStart..filePosition] + chunk;
        filePosition := filePosition + bytes;
        bufferStart, pending := HandLines(bufferStart, pending + chunk, file);
      }
    }

    /** Hand on every complete line of the pending bytes; what is left has none. */
    method HandLines(start: nat, buffered: Bytes, ghost file: Bytes) returns (bufferStart: nat, pending: Bytes)
      requires start + |buffered| <= |file| && buffered == file[start..start + |buffered|]
      modifies this
      ensures finished == old(finished) && old(lines) <= lines
      ensures bufferStart + |pending| == start + |buffered| && pending == file[bufferStart..start + |buffered|]
      ensures NEWLINE !in pending
      ensures old(Framed(file, Now())) && old(cursor) == start ==> Framed(file, Now()) && cursor == bufferStart
    {
      bufferStart, pending := start, buffered;
      ghost var end := start + |buffered|;
      ghost var framed := Framed(file, Now()) && cursor == start;
      while true
        invariant bufferStart + |pending| == end && pending == file[bufferStart..end]
        invariant finished == old(finished) && old(lines) <= lines
        invariant framed ==> Framed(file, Now()) && cursor == bufferStart
        decreases |pending|
      {
        var newline := IndexOf(pending, NEWLINE);
        if newline < 0 {
          break;
        }
        var line := pending[..newline];
        var nextCursor := bufferStart + newline + 1;
        assert file[bufferStart..nextCursor] == line + [NEWLINE];
        if framed {
          NextLine(file, Now(), line);
        }
        pending := pending[newline + 1..];
        bufferStart := nextCursor;
        cursor := nextCursor;
        lines := lines + [line];
      }
    }
  }

  // ----- Any number of calls -----

  /** What one call on `file` does. */
  predicate Call(before: Reading, file: Bytes, chunks: seq<nat>, after: Reading) {
    before.lines <= after.lines
    && (Framed(file, before) ==> ReadTo(file, Reached(before.cursor, |file|, chunks), after))
  }

  /** Appending to the recording leaves what was framed framed. */
  lemma FramedGrows(file: Bytes, longer: Bytes, r: Reading)
    requires Framed(file, r) && file <= longer
    ensures Framed(longer, r)
  {
    assert longer[..r.cursor] == file[..r.cursor];
  }

  /** Over any number of calls on a growing recording, in whatever chunks it was
      read and wherever a call stopped, the lines handed on after each call are
      exactly the complete lines before the position its reads reached, each
      once and in order, and the cursor stands behind the last of them. */
  lemma {:induction false} FramingOverCalls(files: seq<Bytes>, chunks: seq<seq<nat>>, readings: seq<Reading>)
    requires |readings| == |files| + 1 && |chunks| == |files| > 0
    requires readings[0] == Reading(0, [])
    requires forall i | 0 < i < |files| :: files[i - 1] <= files[i]
    requires forall i | 0 <= i < |files| :: Call(readings[i], files[i], chunks[i], readings[i + 1])
    ensures var n := |files| - 1;
            var to := Reached(readings[n].cursor, |files[n]|, chunks[n]);
            && ReadTo(files[n], to, readings[n + 1])
            && readings[n + 1].lines == CompleteLines(files[n][..to])
            && readings[n].lines <= readings[n + 1].lines
  {
    var n := |files| - 1;
    if n == 0 {
      assert files[0][..0] == [];
    } else {
      FramingOverCalls(files[..n], chunks[..n], readings[..n + 1]);
      FramedGrows(files[n - 1], files[n], readings[n]);
    }
    ReadToIsUnique(files[n], Reached(readings[n].cursor, |files[n]|, chunks[n]), readings[n + 1], readings[n + 1]);
  }

  /** The call that is not live any more is the last one to read. On the recording
      as it ends up in the end, it has handed on every complete line exactly when
      no newline lies behind the position its reads reached: what is appended
      after that call is never analyzed. */
  lemma LastCallMustReachTheEnd(file: Bytes, to: nat, r: Reading)
    requires ReadTo(file, to, r)
    ensures r.lines == CompleteLines(file) <==> NEWLINE !in file[to..]
  {
    var rest := file[r.cursor..];
    CompleteLinesApart(file, r.cursor);
    assert rest == file[r.cursor..to] + file[to..];
    if NEWLINE in file[to..] {
      SomeComplete(rest);
    } else {
      NoneComplete(rest);
    }
  }
}
