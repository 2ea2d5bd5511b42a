/** Hunk review (packages/change-service/src/review.ts) over strict unified
    diffs: ordered, disjoint hunks that carry context, in the `diff -u` format
    of the POSIX `diff` utility. Line numbers are those of the parsed form,
    where an empty range starts at the line after it. */
module Hunks {
  import opened Content

  type Line = string

  datatype DiffLine = Context(text: Line) | Added(text: Line) | Removed(text: Line)

  datatype Hunk = Hunk(oldStart: int, oldLines: nat, newStart: int, newLines: nat, lines: seq<DiffLine>)

  function OldSide(lines: seq<DiffLine>): seq<Line> {
    if lines == [] then []
    else (if lines[0].Added? then [] else [lines[0].text]) + OldSide(lines[1..])
  }

  function NewSide(lines: seq<DiffLine>): seq<Line> {
    if lines == [] then []
    else (if lines[0].Removed? then [] else [lines[0].text]) + NewSide(lines[1..])
  }

  function ReverseLine(line: DiffLine): DiffLine {
    match line
    case Context(text) => Context(text)
    case Added(text) => Removed(text)
    case Removed(text) => Added(text)
  }

  function ReverseLines(lines: seq<DiffLine>): (reversed: seq<DiffLine>)
    ensures |reversed| == |lines|
  {
    seq(|lines|, i requires 0 <= i < |lines| => ReverseLine(lines[i]))
  }

  /** The patch that undoes one hunk against the current text. */
  function ReverseHunk(hunk: Hunk): Hunk {
    Hunk(hunk.newStart, hunk.newLines, hunk.oldStart, hunk.oldLines, ReverseLines(hunk.lines))
  }

  lemma {:induction false} ReversedSides(lines: seq<DiffLine>)
    ensures OldSide(ReverseLines(lines)) == NewSide(lines)
    ensures NewSide(ReverseLines(lines)) == OldSide(lines)
  {
    if lines != [] {
      assert ReverseLines(lines)[1..] == ReverseLines(lines[1..]);
      ReversedSides(lines[1..]);
    }
  }

  /** Strict application of one hunk at its stated position. */
  function ApplyHunk(source: seq<Line>, hunk: Hunk): Option<seq<Line>> {
    var at := hunk.oldStart - 1;
    if 0 <= at && at + hunk.oldLines <= |source| && source[at..at + hunk.oldLines] == OldSide(hunk.lines)
    then Some(source[..at] + NewSide(hunk.lines) + source[at + hunk.oldLines..])
    else None
  }

  // ----- A diff: ordered, disjoint edits of a base text -----

  /** What a hunk does to the base: at line index `at`, `gone` becomes `put`. */
  datatype Edit = Edit(at: int, gone: seq<Line>, put: seq<Line>)

  function EditOf(h: Hunk): Edit {
    Edit(h.oldStart - 1, OldSide(h.lines), NewSide(h.lines))
  }

  function EditsOf(hunks: seq<Hunk>): (edits: seq<Edit>)
    ensures |edits| == |hunks|
  {
    seq(|hunks|, i requires 0 <= i < |hunks| => EditOf(hunks[i]))
  }

  /** The edit lies at or after line index `pos` and its old side is the base there. */
  predicate Quotes(base: seq<Line>, pos: nat, e: Edit) {
    pos <= e.at && e.at + |e.gone| <= |base| && base[e.at..e.at + |e.gone|] == e.gone
  }

  predicate Fits(base: seq<Line>, pos: nat, edits: seq<Edit>)
    ensures Fits(base, pos, edits) ==> pos <= |base|
    decreases |edits|
  {
    if edits == [] then pos <= |base|
    else Quotes(base, pos, edits[0]) && Fits(base, edits[0].at + |edits[0].gone|, edits[1..])
  }

  /** `prefix`, then the base from line index `pos` on with every edit made. */
  function PatchOnto(prefix: seq<Line>, base: seq<Line>, pos: nat, edits: seq<Edit>): seq<Line>
    requires Fits(base, pos, edits)
    decreases |edits|
  {
    if edits == [] then prefix + base[pos..]
    else
      var e := edits[0];
      PatchOnto(prefix + base[pos..e.at] + e.put, base, e.at + |e.gone|, edits[1..])
  }

  function Patched(base: seq<Line>, edits: seq<Edit>): seq<Line>
    requires Fits(base, 0, edits)
  {
    PatchOnto([], base, 0, edits)
  }

  /** The text produced by the edits alone, and the line index of the base they reach. */
  function Produced(prefix: seq<Line>, base: seq<Line>, pos: nat, edits: seq<Edit>): seq<Line>
    requires Fits(base, pos, edits)
    decreases |edits|
  {
    if edits == [] then prefix
    else
      var e := edits[0];
      Produced(prefix + base[pos..e.at] + e.put, base, e.at + |e.gone|, edits[1..])
  }

  function Reached(base: seq<Line>, pos: nat, edits: seq<Edit>): (end: nat)
    requires Fits(base, pos, edits)
    ensures pos <= end <= |base|
    decreases |edits|
  {
    if edits == [] then pos else Reached(base, edits[0].at + |edits[0].gone|, edits[1..])
  }

  /** How many lines the edits add in all. */
  function Gain(edits: seq<Edit>): int {
    if edits == [] then 0 else |edits[0].put| - |edits[0].gone| + Gain(edits[1..])
  }

  lemma {:induction false} FitsSplit(base: seq<Line>, pos: nat, first: seq<Edit>, second: seq<Edit>)
    requires Fits(base, pos, first + second)
    ensures Fits(base, pos, first) && Fits(base, Reached(base, pos, first), second)
    decreases |first|
  {
    if first == [] {
      assert first + second == second;
    } else {
      assert (first + second)[1..] == first[1..] + second;
      FitsSplit(base, first[0].at + |first[0].gone|, first[1..], second);
    }
  }

  lemma {:induction false} FitsJoin(base: seq<Line>, pos: nat, first: seq<Edit>, second: seq<Edit>)
    requires Fits(base, pos, first) && Fits(base, Reached(base, pos, first), second)
    ensures Fits(base, pos, first + second)
    decreases |first|
  {
    if first == [] {
      assert first + second == second;
    } else {
      assert (first + second)[1..] == first[1..] + second;
      FitsJoin(base, first[0].at + |first[0].gone|, first[1..], second);
    }
  }

  /** Patching goes edit by edit: the second half continues where the first stopped. */
  lemma {:induction false} PatchSplit(prefix: seq<Line>, base: seq<Line>, pos: nat, first: seq<Edit>, second: seq<Edit>)
    requires Fits(base, pos, first + second)
    requires Fits(base, pos, first) && Fits(base, Reached(base, pos, first), second)
    ensures PatchOnto(prefix, base, pos, first + second)
            == PatchOnto(Produced(prefix, base, pos, first), base, Reached(base, pos, first), second)
    decreases |first|
  {
    if first == [] {
      assert first + second == second;
    } else {
      var e := first[0];
      assert (first + second)[1..] == first[1..] + second;
      PatchSplit(prefix + base[pos..e.at] + e.put, base, e.at + |e.gone|, first[1..], second);
    }
  }

  lemma Assoc<T>(a: seq<T>, b: seq<T>, c: seq<T>)
    ensures (a + b) + c == a + (b + c)
  {
  }

  lemma {:induction false} PatchPrefix(a: seq<Line>, b: seq<Line>, base: seq<Line>, pos: nat, edits: seq<Edit>)
    requires Fits(base, pos, edits)
    ensures PatchOnto(a + b, base, pos, edits) == a + PatchOnto(b, base, pos, edits)
    decreases |edits|
  {
    if edits == [] {
      Assoc(a, b, base[pos..]);
    } else {
      var e := edits[0];
      Assoc(a, b, base[pos..e.at]);
      Assoc(a, b + base[pos..e.at], e.put);
      PatchPrefix(a, b + base[pos..e.at] + e.put, base, e.at + |e.gone|, edits[1..]);
    }
  }

  lemma {:induction false} ProducedLength(prefix: seq<Line>, base: seq<Line>, pos: nat, edits: seq<Edit>)
    requires Fits(base, pos, edits)
    ensures |Produced(prefix, base, pos, edits)| == |prefix| + Reached(base, pos, edits) - pos + Gain(edits)
    decreases |edits|
  {
    if edits != [] {
      var e := edits[0];
      ProducedLength(prefix + base[pos..e.at] + e.put, base, e.at + |e.gone|, edits[1..]);
    }
  }

  lemma SliceSplit<T>(a: seq<T>, s: seq<T>, i: nat, j: nat, k: nat)
    requires i <= j <= k <= |s|
    ensures a + s[i..k] == (a + s[i..j]) + s[j..k]
  {
  }

  /** Edits that fit from a line on also fit from an earlier one, and the lines between are kept. */
  lemma PatchFromEarlier(prefix: seq<Line>, base: seq<Line>, pos: nat, later: nat, edits: seq<Edit>)
    requires pos <= later && Fits(base, later, edits)
    ensures Fits(base, pos, edits)
    ensures PatchOnto(prefix, base, pos, edits) == PatchOnto(prefix + base[pos..later], base, later, edits)
  {
    if edits == [] {
      SliceSplit(prefix, base, pos, later, |base|);
    } else {
      SliceSplit(prefix, base, pos, later, edits[0].at);
    }
  }

  function Drop<T>(s: seq<T>, k: nat): seq<T>
    requires k < |s|
  {
    s[..k] + s[k + 1..]
  }

  /** Around edit `k`, the patched text is some lines, the new side, and the
      rest; leaving the edit out, it is the same lines, the old side, and the rest. */
  lemma AroundEdit(base: seq<Line>, edits: seq<Edit>, k: nat)
    returns (before: seq<Line>, after: seq<Line>)
    requires Fits(base, 0, edits) && k < |edits|
    ensures Patched(base, edits) == before + edits[k].put + after
    ensures |before| == edits[k].at + Gain(edits[..k])
    ensures Fits(base, 0, Drop(edits, k))
    ensures Patched(base, Drop(edits, k)) == before + edits[k].gone + after
  {
    var first, e, rest := edits[..k], edits[k], edits[k + 1..];
    assert edits == first + ([e] + rest);
    FitsSplit(base, 0, first, [e] + rest);
    var reached := Reached(base, 0, first);
    assert ([e] + rest)[0] == e && ([e] + rest)[1..] == rest;
    before := Produced([], base, 0, first) + base[reached..e.at];
    after := PatchOnto([], base, e.at + |e.gone|, rest);
    ProducedLength([], base, 0, first);
    WithEdit(base, first, e, rest);
    WithoutEdit(base, first, e, rest);
  }

  lemma WithEdit(base: seq<Line>, first: seq<Edit>, e: Edit, rest: seq<Edit>)
    requires Fits(base, 0, first + ([e] + rest)) && Fits(base, 0, first) && Fits(base, Reached(base, 0, first), [e] + rest)
    requires Quotes(base, Reached(base, 0, first), e) && Fits(base, e.at + |e.gone|, rest)
    ensures Patched(base, first + ([e] + rest))
            == Produced([], base, 0, first) + base[Reached(base, 0, first)..e.at] + e.put + PatchOnto([], base, e.at + |e.gone|, rest)
  {
    var before := Produced([], base, 0, first) + base[Reached(base, 0, first)..e.at];
    assert ([e] + rest)[0] == e && ([e] + rest)[1..] == rest;
    PatchSplit([], base, 0, first, [e] + rest);
    PatchEmptyPrefix(before + e.put, base, e.at + |e.gone|, rest);
  }

  lemma WithoutEdit(base: seq<Line>, first: seq<Edit>, e: Edit, rest: seq<Edit>)
    requires Fits(base, 0, first)
    requires Quotes(base, Reached(base, 0, first), e) && Fits(base, e.at + |e.gone|, rest)
    ensures Fits(base, 0, first + rest)
    ensures Patched(base, first + rest)
            == Produced([], base, 0, first) + base[Reached(base, 0, first)..e.at] + e.gone + PatchOnto([], base, e.at + |e.gone|, rest)
  {
    var produced, reached, next := Produced([], base, 0, first), Reached(base, 0, first), e.at + |e.gone|;
    PatchFromEarlier(produced, base, reached, next, rest);
    FitsJoin(base, 0, first, rest);
    PatchSplit([], base, 0, first, rest);
    SliceSplit(produced, base, reached, e.at, next);
    PatchEmptyPrefix(produced + base[reached..e.at] + e.gone, base, next, rest);
  }

  lemma PatchEmptyPrefix(a: seq<Line>, base: seq<Line>, pos: nat, edits: seq<Edit>)
    requires Fits(base, pos, edits)
    ensures PatchOnto(a, base, pos, edits) == a + PatchOnto([], base, pos, edits)
  {
    PatchPrefix(a, [], base, pos, edits);
    assert a + [] == a;
  }

  // ----- Hunks of a diff -----

  predicate Sized(h: Hunk) {
    h.oldLines == |OldSide(h.lines)| && h.newLines == |NewSide(h.lines)|
  }

  /** The hunks quote the base in order, every header counts its own lines, and
      new positions are old positions shifted by what the earlier hunks added. */
  predicate IsDiff(base: seq<Line>, current: seq<Line>, hunks: seq<Hunk>) {
    && Fits(base, 0, EditsOf(hunks))
    && current == Patched(base, EditsOf(hunks))
    && forall k | 0 <= k < |hunks| ::
         Sized(hunks[k]) && hunks[k].newStart == hunks[k].oldStart + Gain(EditsOf(hunks)[..k])
  }

  /** The diff that is left when one hunk is taken back: the others, renumbered. */
  function Without(hunks: seq<Hunk>, k: nat): (rest: seq<Hunk>)
    requires k < |hunks|
    ensures |rest| == |hunks| - 1
  {
    var shift := hunks[k].oldLines - hunks[k].newLines;
    seq(|hunks| - 1, i requires 0 <= i < |hunks| - 1 =>
      if i < k then hunks[i] else hunks[i + 1].(newStart := hunks[i + 1].newStart + shift))
  }

  lemma {:induction false} GainSnoc(edits: seq<Edit>)
    requires edits != []
    ensures Gain(edits) == Gain(edits[..|edits| - 1]) + |edits[|edits| - 1].put| - |edits[|edits| - 1].gone|
  {
    if |edits| > 1 {
      GainSnoc(edits[1..]);
      assert edits[1..][..|edits| - 2] == edits[..|edits| - 1][1..];
    }
  }

  lemma {:induction false} GainDropped(edits: seq<Edit>, k: nat, n: nat)
    requires k < n <= |edits|
    ensures Gain(Drop(edits, k)[..n - 1]) == Gain(edits[..n]) - |edits[k].put| + |edits[k].gone|
    decreases n
  {
    if n == k + 1 {
      GainSnoc(edits[..n]);
      assert Drop(edits, k)[..n - 1] == edits[..n][..n - 1];
    } else {
      GainDropped(edits, k, n - 1);
      GainSnoc(edits[..n]);
      GainSnoc(Drop(edits, k)[..n - 1]);
      assert edits[..n][..n - 1] == edits[..n - 1];
      assert Drop(edits, k)[..n - 1][..n - 2] == Drop(edits, k)[..n - 2];
    }
  }

  lemma WithoutIsNumbered(hunks: seq<Hunk>, k: nat)
    requires k < |hunks|
    requires forall i | 0 <= i < |hunks| ::
               Sized(hunks[i]) && hunks[i].newStart == hunks[i].oldStart + Gain(EditsOf(hunks)[..i])
    ensures EditsOf(Without(hunks, k)) == Drop(EditsOf(hunks), k)
    ensures var rest := Without(hunks, k);
            forall i | 0 <= i < |rest| ::
              Sized(rest[i]) && rest[i].newStart == rest[i].oldStart + Gain(EditsOf(rest)[..i])
  {
    var rest, edits := Without(hunks, k), EditsOf(hunks);
    assert EditsOf(rest) == Drop(edits, k);
    forall i | 0 <= i < |rest|
      ensures Sized(rest[i]) && rest[i].newStart == rest[i].oldStart + Gain(EditsOf(rest)[..i])
    {
      if i < k {
        assert Drop(edits, k)[..i] == edits[..i];
      } else {
        GainDropped(edits, k, i + 1);
      }
    }
  }

  lemma SliceAround<T>(before: seq<T>, middle: seq<T>, after: seq<T>)
    ensures var whole := before + middle + after;
            whole[..|before|] == before && whole[|before|..|before| + |middle|] == middle
            && whole[|before| + |middle|..] == after
  {
  }

  /** Undoing one hunk at its new position gives the base with exactly the other
      hunks applied, and those are again a diff of the base. */
  lemma UndoOneHunk(base: seq<Line>, current: seq<Line>, hunks: seq<Hunk>, k: nat)
    requires IsDiff(base, current, hunks) && k < |hunks|
    ensures Fits(base, 0, EditsOf(Without(hunks, k)))
    ensures ApplyHunk(current, ReverseHunk(hunks[k])) == Some(Patched(base, EditsOf(Without(hunks, k))))
    ensures IsDiff(base, Patched(base, EditsOf(Without(hunks, k))), Without(hunks, k))
  {
    var edits := EditsOf(hunks);
    var before, after := AroundEdit(base, edits, k);
    WithoutIsNumbered(hunks, k);
    ReversedSides(hunks[k].lines);
    SliceAround(before, edits[k].put, after);
  }

  // ----- Review keys -----

  /** A digest of the hunk's lines and, for repeated content, an ordinal. */
  datatype Key = Key(lines: seq<DiffLine>, ordinal: nat)

  datatype ReviewHunk = ReviewHunk(key: Key, hunk: Hunk)

  function Repeats(hunks: seq<Hunk>, lines: seq<DiffLine>): nat {
    if hunks == [] then 0
    else Repeats(hunks[..|hunks| - 1], lines) + (if hunks[|hunks| - 1].lines == lines then 1 else 0)
  }

  function KeyOf(hunks: seq<Hunk>, i: nat): Key
    requires i < |hunks|
  {
    Key(hunks[i].lines, Repeats(hunks[..i], hunks[i].lines))
  }

  function Keyed(hunks: seq<Hunk>): seq<ReviewHunk> {
    seq(|hunks|, i requires 0 <= i < |hunks| => ReviewHunk(KeyOf(hunks, i), hunks[i]))
  }

  method ParseHunks(parsed: seq<Hunk>) returns (hunks: seq<ReviewHunk>)
    ensures hunks == Keyed(parsed)
  {
    hunks := [];
    var seen: map<seq<DiffLine>, nat> := map[];
    for i := 0 to |parsed|
      invariant hunks == Keyed(parsed)[..i]
      invariant forall lines :: (if lines in seen then seen[lines] else 0) == Repeats(parsed[..i], lines)
    {
      var lines := parsed[i].lines;
      var dup := if lines in seen then seen[lines] else 0;
      seen := seen[lines := dup + 1];
      hunks := hunks + [ReviewHunk(Key(lines, dup), parsed[i])];
      assert parsed[..i + 1][..i] == parsed[..i];
    }
  }

  function FindKey(hunks: seq<Hunk>, key: Key): (k: Option<nat>)
    ensures k.Some? ==> k.value < |hunks| && KeyOf(hunks, k.value) == key
  {
    FindKeyFrom(hunks, key, 0)
  }

  function FindKeyFrom(hunks: seq<Hunk>, key: Key, from: nat): (k: Option<nat>)
    requires from <= |hunks|
    ensures k.Some? ==> from <= k.value < |hunks| && KeyOf(hunks, k.value) == key
    ensures k.None? ==> forall i | from <= i < |hunks| :: KeyOf(hunks, i) != key
    decreases |hunks| - from
  {
    if from == |hunks| then None
    else if KeyOf(hunks, from) == key then Some(from)
    else FindKeyFrom(hunks, key, from + 1)
  }

  lemma {:induction false} RepeatsGrow(hunks: seq<Hunk>, i: nat, j: nat, lines: seq<DiffLine>)
    requires i <= j <= |hunks|
    ensures Repeats(hunks[..i], lines) <= Repeats(hunks[..j], lines)
    ensures i < j && hunks[i].lines == lines ==> Repeats(hunks[..i], lines) < Repeats(hunks[..j], lines)
    decreases j
  {
    if i < j {
      RepeatsGrow(hunks, i, j - 1, lines);
      assert hunks[..j][..j - 1] == hunks[..j - 1];
    }
  }

  /** No two hunks of one diff share a key, so a key finds its own hunk. */
  lemma KeysDistinct(hunks: seq<Hunk>, i: nat, j: nat)
    requires i < j < |hunks|
    ensures KeyOf(hunks, i) != KeyOf(hunks, j)
  {
    RepeatsGrow(hunks, i, j, hunks[j].lines);
  }

  lemma KeyFindsHunk(hunks: seq<Hunk>, k: nat)
    requires k < |hunks|
    ensures FindKey(hunks, KeyOf(hunks, k)) == Some(k)
  {
    var found := FindKey(hunks, KeyOf(hunks, k)).value;
    if found < k {
      KeysDistinct(hunks, found, k);
    } else if found > k {
      KeysDistinct(hunks, k, found);
    }
  }

  lemma {:induction false} RepeatsWithout(hunks: seq<Hunk>, k: nat, n: nat, lines: seq<DiffLine>)
    requires k < |hunks| && n <= |hunks| - 1
    ensures Repeats(Without(hunks, k)[..n], lines) ==
            if n <= k then Repeats(hunks[..n], lines)
            else Repeats(hunks[..n + 1], lines) - (if hunks[k].lines == lines then 1 else 0)
  {
    var rest := Without(hunks, k);
    if n <= k {
      RepeatsSameLines(rest[..n], hunks[..n], lines);
      if n == k {
        assert hunks[..n + 1][..n] == hunks[..n];
      }
    } else {
      RepeatsWithout(hunks, k, n - 1, lines);
      assert rest[..n][..n - 1] == rest[..n - 1];
      assert hunks[..n + 1][..n] == hunks[..n];
      assert rest[n - 1].lines == hunks[n].lines;
      if n - 1 == k {
        assert hunks[..k + 1][..k] == hunks[..k];
      }
    }
  }

  lemma {:induction false} RepeatsSameLines(a: seq<Hunk>, b: seq<Hunk>, lines: seq<DiffLine>)
    requires |a| == |b| && forall i | 0 <= i < |a| :: a[i].lines == b[i].lines
    ensures Repeats(a, lines) == Repeats(b, lines)
  {
    if a != [] {
      RepeatsSameLines(a[..|a| - 1], b[..|b| - 1], lines);
    }
  }

  /** After hunk `k` is taken back, every other hunk keeps its key, except that
      a later hunk with the very same lines moves down one ordinal. */
  lemma KeyAfterReject(hunks: seq<Hunk>, k: nat, j: nat)
    requires k < |hunks| && j < |hunks| && j != k
    ensures var there := if j < k then j else j - 1;
            var was, now := KeyOf(hunks, j), KeyOf(Without(hunks, k), there);
            Without(hunks, k)[there].lines == hunks[j].lines == now.lines
            && now.ordinal + (if k < j && hunks[j].lines == hunks[k].lines then 1 else 0) == was.ordinal
  {
    RepeatsWithout(hunks, k, if j < k then j else j - 1, hunks[j].lines);
    assert hunks[..k + 1][..k] == hunks[..k];
  }

  // ----- Rejecting hunks one after another -----

  /** One reject by key against the current diff; None when the key is stale. */
  function RejectKey(current: seq<Line>, hunks: seq<Hunk>, key: Key): Option<(seq<Line>, seq<Hunk>)> {
    var k := FindKey(hunks, key);
    if k.None? then None
    else
      var next := ApplyHunk(current, ReverseHunk(hunks[k.value]));
      if next.None? then None else Some((next.value, Without(hunks, k.value)))
  }

  function RejectKeys(current: seq<Line>, hunks: seq<Hunk>, keys: seq<Key>): Option<(seq<Line>, seq<Hunk>)>
    decreases |keys|
  {
    if keys == [] then Some((current, hunks))
    else
      var r := RejectKey(current, hunks, keys[0]);
      if r.None? then None else RejectKeys(r.value.0, r.value.1, keys[1..])
  }

  /** A reject fails exactly when its key names no hunk of the current diff. */
  lemma RejectByKey(base: seq<Line>, current: seq<Line>, hunks: seq<Hunk>, key: Key)
    requires IsDiff(base, current, hunks)
    ensures RejectKey(current, hunks, key).None? <==> forall k | 0 <= k < |hunks| :: KeyOf(hunks, k) != key
    ensures RejectKey(current, hunks, key).Some? ==>
              var (next, rest) := RejectKey(current, hunks, key).value;
              |rest| == |hunks| - 1 && IsDiff(base, next, rest)
  {
    var k := FindKey(hunks, key);
    if k.Some? {
      UndoOneHunk(base, current, hunks, k.value);
    }
  }

  /** Whatever order the hunks are rejected in, every text on the way is the
      base with the hunks still standing, and as many rejects as there are
      hunks end at the base itself. */
  lemma {:induction false} RejectAllInAnyOrder(base: seq<Line>, current: seq<Line>, hunks: seq<Hunk>, keys: seq<Key>)
    requires IsDiff(base, current, hunks)
    requires RejectKeys(current, hunks, keys).Some?
    ensures var (text, rest) := RejectKeys(current, hunks, keys).value;
            IsDiff(base, text, rest) && |rest| == |hunks| - |keys|
            && (|keys| == |hunks| ==> text == base)
    decreases |keys|
  {
    RejectByKey(base, current, hunks, if keys == [] then Key([], 0) else keys[0]);
    if keys != [] {
      var (next, rest) := RejectKey(current, hunks, keys[0]).value;
      RejectAllInAnyOrder(base, next, rest, keys[1..]);
    }
  }

  /** Such an order always exists: rejecting the first standing hunk each time
      succeeds as long as any hunk stands. */
  lemma {:induction false} RejectAllPossible(base: seq<Line>, current: seq<Line>, hunks: seq<Hunk>)
    returns (keys: seq<Key>)
    requires IsDiff(base, current, hunks)
    ensures |keys| == |hunks| && RejectKeys(current, hunks, keys) == Some((base, []))
    decreases |hunks|
  {
    if hunks == [] {
      keys := [];
      assert [] + base[0..] == base;
    } else {
      var key := KeyOf(hunks, 0);
      KeyFindsHunk(hunks, 0);
      RejectByKey(base, current, hunks, key);
      var (next, rest) := RejectKey(current, hunks, key).value;
      var later := RejectAllPossible(base, next, rest);
      keys := [key] + later;
      assert keys[1..] == later;
    }
  }
}
