/** Hunks over texts: lines that carry their newline, the last one perhaps
    without, what is asked of a diff library, and that it can be met. */
module TextHunks {
  import opened Changes
  import opened Content
  import opened Hunks
  import opened Splitting
  import opened Utf8

  // ----- Lines with their newlines -----

  function TextLines(text: Text): seq<Line> {
    if text == "" then []
    else
      var rest := TextLines(text[1..]);
      if text[0] == '\n' || rest == [] then [[text[0]]] + rest
      else [[text[0]] + rest[0]] + rest[1..]
  }

  function Glued(lines: seq<Line>): Text {
    if lines == [] then "" else lines[0] + Glued(lines[1..])
  }

  predicate Terminated(line: Line) {
    line != "" && line[|line| - 1] == '\n' && '\n' !in line[..|line| - 1]
  }

  /** A last line without newline. */
  predicate Loose(line: Line) {
    line != "" && '\n' !in line
  }

  predicate AllTerminated(lines: seq<Line>) {
    forall i | 0 <= i < |lines| :: Terminated(lines[i])
  }

  /** The lines of some text. */
  predicate WellLines(lines: seq<Line>) {
    forall i | 0 <= i < |lines| :: Terminated(lines[i]) || (i == |lines| - 1 && Loose(lines[i]))
  }

  lemma {:induction false} TextLinesWell(text: Text)
    ensures WellLines(TextLines(text)) && Glued(TextLines(text)) == text
  {
    if text != "" {
      var rest := TextLines(text[1..]);
      TextLinesWell(text[1..]);
      assert text == [text[0]] + text[1..];
      if rest != [] && text[0] != '\n' {
        var first := [text[0]] + rest[0];
        assert first[|first| - 1] == rest[0][|rest[0]| - 1];
        assert first[..|first| - 1] == [text[0]] + rest[0][..|rest[0]| - 1];
        assert Glued(rest) == rest[0] + Glued(rest[1..]);
      }
    }
  }

  lemma {:induction false} FirstLine(line: Line, rest: Text)
    requires Terminated(line) || (Loose(line) && rest == "")
    ensures TextLines(line + rest) == [line] + TextLines(rest)
  {
    var whole := line + rest;
    assert whole[1..] == line[1..] + rest;
    if |line| > 1 {
      assert line[1..][..|line| - 2] == line[..|line| - 1][1..];
      assert line[0] == line[..|line| - 1][0];
      FirstLine(line[1..], rest);
      assert line == [line[0]] + line[1..];
    } else {
      assert whole[1..] == rest && line == [line[0]];
    }
  }

  lemma {:induction false} LinesOfGlued(lines: seq<Line>)
    requires WellLines(lines)
    ensures TextLines(Glued(lines)) == lines
  {
    if lines != [] {
      LinesOfGlued(lines[1..]);
      FirstLine(lines[0], Glued(lines[1..]));
    }
  }

  // ----- Plain text -----

  predicate CleanLine(line: Line) {
    '\0' !in line && !StartsWithBom(line)
  }

  predicate CleanLines(lines: seq<Line>) {
    forall i | 0 <= i < |lines| :: CleanLine(lines[i])
  }

  /** Text without NUL in which no line starts with a byte-order mark. */
  predicate PlainText(text: Text) {
    CleanLines(TextLines(text))
  }

  lemma {:induction false} PlainChars(text: Text)
    requires PlainText(text)
    ensures '\0' !in text && !StartsWithBom(text)
  {
    TextLinesWell(text);
    GluedClean(TextLines(text));
  }

  lemma {:induction false} GluedClean(lines: seq<Line>)
    requires CleanLines(lines) && forall i | 0 <= i < |lines| :: lines[i] != ""
    ensures '\0' !in Glued(lines) && !StartsWithBom(Glued(lines))
  {
    if lines != [] {
      GluedClean(lines[1..]);
      assert CleanLine(lines[0]);
    }
  }

  // ----- Hunks as text -----

  const NO_NEWLINE := "\\ No newline at end of file"

  function Prefix(line: DiffLine): char {
    match line
    case Context(_) => ' '
    case Added(_) => '+'
    case Removed(_) => '-'
  }

  function Body(line: Line): string {
    if Terminated(line) then line[..|line| - 1] else line
  }

  /** One line of a hunk as a patch prints it; the marker follows a loose one. */
  function PrintedLine(line: DiffLine): seq<string>
    requires line.text != ""
  {
    [[Prefix(line)] + Body(line.text)] + if Terminated(line.text) then [] else [NO_NEWLINE]
  }

  predicate Printable(lines: seq<DiffLine>) {
    forall i | 0 <= i < |lines| :: Terminated(lines[i].text) || Loose(lines[i].text)
  }

  function PrintedParts(lines: seq<DiffLine>): seq<string>
    requires Printable(lines)
  {
    if lines == [] then [] else PrintedLine(lines[0]) + PrintedParts(lines[1..])
  }

  /** The lines of a hunk as its key digests them. */
  function PrintedLines(lines: seq<DiffLine>): string
    requires Printable(lines) && lines != []
  {
    Join(PrintedParts(lines), '\n')
  }

  lemma PrintedHead(lines: seq<DiffLine>)
    requires Printable(lines) && lines != []
    ensures var parts := PrintedParts(lines);
            && parts != [] && parts[0] == [Prefix(lines[0])] + Body(lines[0].text)
            && (Terminated(lines[0].text) <==> |parts| == 1 || parts[1] != NO_NEWLINE)
            && parts[if Terminated(lines[0].text) then 1 else 2..] == PrintedParts(lines[1..])
  {
    if lines[1..] != [] {
      assert PrintedParts(lines[1..])[0][0] == Prefix(lines[1]) != NO_NEWLINE[0];
    }
  }

  lemma {:induction false} PartsDetermine(a: seq<DiffLine>, b: seq<DiffLine>)
    requires Printable(a) && Printable(b) && PrintedParts(a) == PrintedParts(b)
    ensures a == b
  {
    if a != [] && b != [] {
      PrintedHead(a);
      PrintedHead(b);
      var part := PrintedParts(a)[0];
      assert part[0] == Prefix(a[0]) == Prefix(b[0]);
      SameText(a[0].text, b[0].text, part[1..]);
      PartsDetermine(a[1..], b[1..]);
      assert a == [a[0]] + a[1..] && b == [b[0]] + b[1..];
    } else if a != [] {
      PrintedHead(a);
    } else if b != [] {
      PrintedHead(b);
    }
  }

  lemma SameText(x: Line, y: Line, body: string)
    requires x != "" && y != "" && (Terminated(x) <==> Terminated(y))
    requires body == Body(x) == Body(y)
    ensures x == y
  {
    if Terminated(x) {
      assert x == body + "\n" && y == body + "\n";
    }
  }

  lemma {:induction false} PartsAreLines(lines: seq<DiffLine>)
    requires Printable(lines)
    ensures forall part <- PrintedParts(lines) :: '\n' !in part
    ensures lines != [] ==> PrintedParts(lines) != []
  {
    if lines != [] {
      PartsAreLines(lines[1..]);
      assert '\n' !in PrintedLine(lines[0])[0];
    }
  }

  /** No two hunks print alike, so nothing is lost by handing the library, and
      the key's digest, lines rather than text. */
  lemma PrintedLinesDetermine(a: seq<DiffLine>, b: seq<DiffLine>)
    requires a != [] && b != [] && Printable(a) && Printable(b) && PrintedLines(a) == PrintedLines(b)
    ensures a == b
  {
    PartsAreLines(a);
    PartsAreLines(b);
    SplitJoin(PrintedParts(a), '\n');
    SplitJoin(PrintedParts(b), '\n');
    PartsDetermine(a, b);
  }

  // ----- What is asked of the library -----

  function ChangeCount(lines: seq<DiffLine>): nat {
    if lines == [] then 0 else (if lines[0].Context? then 0 else 1) + ChangeCount(lines[1..])
  }

  function ChangedLines(hunks: seq<Hunk>): nat {
    if hunks == [] then 0 else ChangeCount(hunks[0].lines) + ChangedLines(hunks[1..])
  }

  predicate CleanHunk(h: Hunk) {
    forall i | 0 <= i < |h.lines| :: CleanLine(h.lines[i].text)
  }

  /** A hunk that changes something and keeps newlines where they belong: only
      the last hunk reaches the end of the base, only there may a loose line
      be, and nothing is put behind a loose line that stays. */
  predicate Proper(hunks: seq<Hunk>, k: nat, base: seq<Line>)
    requires k < |hunks|
  {
    var h := hunks[k];
    && CleanHunk(h) && ChangeCount(h.lines) > 0
    && if h.oldStart - 1 + h.oldLines < |base| then AllTerminated(NewSide(h.lines))
       else k == |hunks| - 1 && WellLines(NewSide(h.lines)) && (h.oldLines == 0 ==> AllTerminated(base))
  }

  predicate ProperHunks(hunks: seq<Hunk>, base: seq<Line>) {
    forall k | 0 <= k < |hunks| :: Proper(hunks, k, base)
  }

  predicate ProperDiff(hunks: seq<Hunk>, base: Text, current: Text) {
    IsDiff(TextLines(base), TextLines(current), hunks) && ProperHunks(hunks, TextLines(base))
  }

  ghost predicate GoodDiff(hunks: seq<Hunk>, base: Text, current: Text) {
    && ProperDiff(hunks, base, current)
    && (forall other :: ProperDiff(other, base, current) ==> ChangedLines(hunks) <= ChangedLines(other))
  }

  predicate GoodUndo(undone: Option<Text>, text: Text, hunk: Hunk) {
    var lines := ApplyHunk(TextLines(text), hunk);
    lines.Some? ==> undone == Some(Glued(lines.value))
  }

  /** What the review relies on: between plain texts the library's diff is
      correct and proper and has no more changed lines than any other such
      diff; and it applies the reverse of each of its own hunks to the text it
      was shown for, wherever strict application succeeds. */
  ghost predicate Faithful(lib: DiffLibrary, base: Text) {
    && (forall current :: PlainText(current) ==> GoodDiff(lib.diff(base, current), base, current))
    && (forall current, k | PlainText(current) && 0 <= k < |lib.diff(base, current)| ::
          var reversed := ReverseHunk(lib.diff(base, current)[k]);
          GoodUndo(lib.undo(current, reversed), current, reversed))
  }

  // ----- Proper hunks lead to texts -----

  predicate ProperEdit(edits: seq<Edit>, k: nat, base: seq<Line>)
    requires k < |edits|
  {
    var e := edits[k];
    CleanLines(e.put)
    && if e.at + |e.gone| < |base| then AllTerminated(e.put)
       else k == |edits| - 1 && WellLines(e.put) && (e.gone == [] ==> AllTerminated(base))
  }

  lemma TerminatedBefore(base: seq<Line>, pos: nat, at: nat)
    requires WellLines(base) && pos <= at <= |base| && (at == |base| ==> AllTerminated(base))
    ensures AllTerminated(base[pos..at])
  {
  }

  lemma WellConcat(a: seq<Line>, b: seq<Line>)
    requires AllTerminated(a) && WellLines(b)
    ensures WellLines(a + b)
  {
  }

  /** Proper edits of the lines of a plain text give the lines of a plain text. */
  lemma {:induction false} PatchOntoWell(prefix: seq<Line>, base: seq<Line>, pos: nat, edits: seq<Edit>)
    requires Fits(base, pos, edits)
    requires AllTerminated(prefix) && CleanLines(prefix) && WellLines(base) && CleanLines(base)
    requires forall k | 0 <= k < |edits| :: ProperEdit(edits, k, base)
    ensures WellLines(PatchOnto(prefix, base, pos, edits)) && CleanLines(PatchOnto(prefix, base, pos, edits))
    decreases |edits|
  {
    if edits == [] {
      WellConcat(prefix, base[pos..]);
    } else {
      var e, rest := edits[0], edits[1..];
      assert ProperEdit(edits, 0, base);
      TerminatedBefore(base, pos, e.at);
      var next := prefix + base[pos..e.at] + e.put;
      assert CleanLines(next);
      if e.at + |e.gone| < |base| {
        assert AllTerminated(next);
        forall k | 0 <= k < |rest|
          ensures ProperEdit(rest, k, base)
        {
          assert ProperEdit(edits, k + 1, base);
        }
        PatchOntoWell(next, base, e.at + |e.gone|, rest);
      } else {
        WellConcat(prefix + base[pos..e.at], e.put);
        assert rest == [] && next + base[|base|..] == next;
      }
    }
  }

  lemma {:induction false} NewSideClean(lines: seq<DiffLine>)
    requires forall i | 0 <= i < |lines| :: CleanLine(lines[i].text)
    ensures CleanLines(NewSide(lines))
  {
    if lines != [] {
      NewSideClean(lines[1..]);
    }
  }

  lemma ProperEdits(base: seq<Line>, hunks: seq<Hunk>, k: nat)
    requires k < |hunks| && Proper(hunks, k, base) && Sized(hunks[k])
    ensures ProperEdit(EditsOf(hunks), k, base)
  {
    NewSideClean(hunks[k].lines);
  }

  lemma ProperHunksKeepPlain(base: Text, hunks: seq<Hunk>)
    requires PlainText(base) && Fits(TextLines(base), 0, EditsOf(hunks)) && ProperHunks(hunks, TextLines(base))
    requires forall k | 0 <= k < |hunks| :: Sized(hunks[k])
    ensures var lines := Patched(TextLines(base), EditsOf(hunks));
            TextLines(Glued(lines)) == lines && PlainText(Glued(lines))
  {
    TextLinesWell(base);
    forall k | 0 <= k < |EditsOf(hunks)|
      ensures ProperEdit(EditsOf(hunks), k, TextLines(base))
    {
      ProperEdits(TextLines(base), hunks, k);
    }
    PatchOntoWell([], TextLines(base), 0, EditsOf(hunks));
    LinesOfGlued(Patched(TextLines(base), EditsOf(hunks)));
  }

  lemma WithoutStaysProper(base: seq<Line>, hunks: seq<Hunk>, k: nat)
    requires k < |hunks| && ProperHunks(hunks, base)
    ensures ProperHunks(Without(hunks, k), base)
  {
    forall i | 0 <= i < |hunks| - 1
      ensures Proper(Without(hunks, k), i, base)
    {
      assert Proper(hunks, if i < k then i else i + 1, base);
    }
  }

  // ----- Counting what is left to reject -----

  lemma {:induction false} ChangesWithout(hunks: seq<Hunk>, k: nat)
    requires k < |hunks|
    ensures ChangedLines(Without(hunks, k)) == ChangedLines(hunks) - ChangeCount(hunks[k].lines)
  {
    var rest := Without(hunks, k);
    if k == 0 {
      ChangesSame(rest, hunks[1..]);
    } else {
      ChangesWithout(hunks[1..], k - 1);
      ChangesSame(rest[1..], Without(hunks[1..], k - 1));
    }
  }

  lemma {:induction false} ChangesSame(a: seq<Hunk>, b: seq<Hunk>)
    requires |a| == |b| && forall i | 0 <= i < |a| :: a[i].lines == b[i].lines
    ensures ChangedLines(a) == ChangedLines(b)
  {
    if a != [] {
      ChangesSame(a[1..], b[1..]);
    }
  }

  /** The text a rejection of hunk `k` leads to. */
  lemma RejectedText(lib: DiffLibrary, base: Text, current: Text, k: nat) returns (next: Text)
    requires Faithful(lib, base) && PlainText(base) && PlainText(current) && k < |lib.diff(base, current)|
    ensures var hunks := lib.diff(base, current);
            && lib.undo(current, ReverseHunk(hunks[k])) == Some(next)
            && IsDiff(TextLines(base), TextLines(next), Without(hunks, k))
            && PlainText(next)
            && ChangedLines(lib.diff(base, next)) < ChangedLines(hunks)
  {
    var hunks := lib.diff(base, current);
    assert GoodDiff(hunks, base, current);
    UndoOneHunk(TextLines(base), TextLines(current), hunks, k);
    WithoutStaysProper(TextLines(base), hunks, k);
    ProperHunksKeepPlain(base, Without(hunks, k));
    next := Glued(Patched(TextLines(base), EditsOf(Without(hunks, k))));
    assert GoodUndo(lib.undo(current, ReverseHunk(hunks[k])), current, ReverseHunk(hunks[k]));
    ChangesWithout(hunks, k);
    assert Proper(hunks, k, TextLines(base));
    assert GoodDiff(lib.diff(base, next), base, next);
  }

  lemma EmptyDiffMeansEqual(base: Text, current: Text)
    requires IsDiff(TextLines(base), TextLines(current), [])
    ensures base == current
  {
    assert EditsOf([]) == [];
    assert [] + TextLines(base)[0..] == TextLines(base);
    TextLinesWell(base);
    TextLinesWell(current);
  }

  // ----- A faithful library is possible -----

  function Whole(lines: seq<Line>, removed: bool): seq<DiffLine> {
    if lines == [] then []
    else [if removed then DiffLine.Removed(lines[0]) else Added(lines[0])] + Whole(lines[1..], removed)
  }

  lemma {:induction false} WholeSides(lines: seq<Line>, removed: bool)
    ensures OldSide(Whole(lines, removed)) == if removed then lines else []
    ensures NewSide(Whole(lines, removed)) == if removed then [] else lines
    ensures ChangeCount(Whole(lines, removed)) == |lines|
  {
    if lines != [] {
      WholeSides(lines[1..], removed);
      assert lines == [lines[0]] + lines[1..];
    }
  }

  lemma {:induction false} SidesConcat(a: seq<DiffLine>, b: seq<DiffLine>)
    ensures OldSide(a + b) == OldSide(a) + OldSide(b)
    ensures NewSide(a + b) == NewSide(a) + NewSide(b)
    ensures ChangeCount(a + b) == ChangeCount(a) + ChangeCount(b)
  {
    if a == [] {
      assert a + b == b;
    } else {
      assert (a + b)[1..] == a[1..] + b && (a + b)[0] == a[0];
      SidesConcat(a[1..], b);
      Assoc(if a[0].Added? then [] else [a[0].text], OldSide(a[1..]), OldSide(b));
      Assoc(if a[0].Removed? then [] else [a[0].text], NewSide(a[1..]), NewSide(b));
    }
  }

  lemma {:induction false} WholeClean(lines: seq<Line>, removed: bool)
    requires CleanLines(lines)
    ensures forall i | 0 <= i < |Whole(lines, removed)| :: CleanLine(Whole(lines, removed)[i].text)
  {
    if lines != [] {
      WholeClean(lines[1..], removed);
    }
  }

  /** Everything is replaced at once. */
  function Replacement(base: Text, current: Text): Hunk {
    var gone, put := TextLines(base), TextLines(current);
    Hunk(1, |gone|, 1, |put|, Whole(gone, true) + Whole(put, false))
  }

  lemma ReplacementSides(base: Text, current: Text)
    ensures var before, after, h := TextLines(base), TextLines(current), Replacement(base, current);
            OldSide(h.lines) == before && NewSide(h.lines) == after && ChangeCount(h.lines) == |before| + |after|
  {
    WholeSides(TextLines(base), true);
    WholeSides(TextLines(current), false);
    SidesConcat(Whole(TextLines(base), true), Whole(TextLines(current), false));
  }

  lemma ReplacementIsClean(base: Text, current: Text)
    requires PlainText(base) && PlainText(current)
    ensures CleanHunk(Replacement(base, current))
  {
    WholeClean(TextLines(base), true);
    WholeClean(TextLines(current), false);
  }

  lemma OneEdit(base: seq<Line>, e: Edit)
    requires e.at == 0 && |e.gone| <= |base| && base[..|e.gone|] == e.gone
    ensures Fits(base, 0, [e]) && Patched(base, [e]) == e.put + base[|e.gone|..]
  {
    assert [e][1..] == [] && [] + base[0..e.at] + e.put == e.put;
    assert Patched(base, [e]) == PatchOnto(e.put, base, |e.gone|, []);
  }

  lemma OneHunkIsDiff(base: seq<Line>, h: Hunk)
    requires h.oldStart == h.newStart == 1 && Sized(h)
    requires h.oldLines <= |base| && base[..h.oldLines] == OldSide(h.lines)
    ensures IsDiff(base, NewSide(h.lines) + base[h.oldLines..], [h])
  {
    assert EditsOf([h]) == [EditOf(h)];
    OneEdit(base, EditOf(h));
    assert [EditOf(h)][..0] == [];
  }

  lemma ReplacementIsDiff(base: Text, current: Text)
    requires PlainText(base) && PlainText(current) && TextLines(base) != TextLines(current)
    ensures ProperDiff([Replacement(base, current)], base, current)
  {
    var before, after, h := TextLines(base), TextLines(current), Replacement(base, current);
    ReplacementSides(base, current);
    ReplacementIsClean(base, current);
    TextLinesWell(current);
    assert |before| + |after| > 0;
    assert before[..|before|] == before && after + before[|before|..] == after;
    OneHunkIsDiff(before, h);
    ProperAlone(h, before);
  }

  lemma ProperAlone(h: Hunk, base: seq<Line>)
    requires h.oldStart == 1 && h.oldLines == |base|
    requires CleanHunk(h) && ChangeCount(h.lines) > 0 && WellLines(NewSide(h.lines))
    ensures ProperHunks([h], base)
  {
    assert Proper([h], 0, base);
  }

  lemma NoHunksIsDiff(base: Text, current: Text)
    requires TextLines(base) == TextLines(current)
    ensures ProperDiff([], base, current)
  {
    assert EditsOf([]) == [] && [] + TextLines(base)[0..] == TextLines(base);
  }

  lemma {:induction false} LeastDiff(base: Text, current: Text, hunks: seq<Hunk>) returns (least: seq<Hunk>)
    requires ProperDiff(hunks, base, current)
    ensures GoodDiff(least, base, current)
    decreases ChangedLines(hunks)
  {
    if other :| ProperDiff(other, base, current) && ChangedLines(other) < ChangedLines(hunks) {
      least := LeastDiff(base, current, other);
    } else {
      least := hunks;
    }
  }

  ghost function BestDiff(base: Text, current: Text): seq<Hunk> {
    if hunks :| GoodDiff(hunks, base, current) then hunks else []
  }

  function StrictUndo(text: Text, hunk: Hunk): Option<Text> {
    var lines := ApplyHunk(TextLines(text), hunk);
    if lines.Some? then Some(Glued(lines.value)) else None
  }

  /** What is asked of the library can be met, for every baseline at once. */
  lemma FaithfulLibrary() returns (lib: DiffLibrary)
    ensures forall base | PlainText(base) :: Faithful(lib, base)
  {
    lib := DiffLibrary((base, current) => BestDiff(base, current), StrictUndo, (base, current) => (0, 0));
    forall base, current | PlainText(base) && PlainText(current)
      ensures GoodDiff(BestDiff(base, current), base, current)
    {
      if TextLines(base) == TextLines(current) {
        NoHunksIsDiff(base, current);
        var least := LeastDiff(base, current, []);
      } else {
        ReplacementIsDiff(base, current);
        var least := LeastDiff(base, current, [Replacement(base, current)]);
      }
    }
  }
}
