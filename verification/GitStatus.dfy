/** Reading `git status --porcelain=v2 --branch -z` (packages/git-service/src/git.ts, status),
    as described in "Porcelain Format Version 2" of the git-status manual. */
module GitStatus {
  import opened Content
  import opened Numbers
  import opened Splitting

  const NUL: char := '\0'

  datatype Group = Staged | Changed | Untracked | Conflicted

  datatype Entry = Entry(
    path: string, origPath: Option<string>, indexState: Option<char>, workState: Option<char>, group: Group)

  datatype Status = Status(
    branch: Option<string>, upstream: Option<string>, ahead: nat, behind: nat, entries: seq<Entry>)

  // ----- The parser -----

  predicate StartsWith(s: string, prefix: string) {
    prefix <= s
  }

  function CharAt(s: string, i: nat): Option<char> {
    if i < |s| then Some(s[i]) else None
  }

  /** The parts from the n-th on, joined by spaces again. */
  function RestFrom(parts: seq<string>, n: nat): string {
    if n >= |parts| then "" else Join(parts[n..], ' ')
  }

  predicate DecimalDigit(c: char) {
    '0' <= c <= '9'
  }

  function DigitRun(s: string): (run: string)
    ensures forall i | 0 <= i < |run| :: '0' <= run[i] <= '9'
    ensures run <= s
  {
    if s != "" && DecimalDigit(s[0]) then [s[0]] + DigitRun(s[1..]) else ""
  }

  /** A match of `+<digits> -<digits>` at the front. */
  function AheadBehindAt(s: string): Option<(nat, nat)> {
    if s == "" || s[0] != '+' then None
    else
      var ahead := DigitRun(s[1..]);
      var rest := s[1 + |ahead|..];
      if ahead == "" || !StartsWith(rest, " -") then None
      else
        var behind := DigitRun(rest[2..]);
        if behind == "" then None else Some((Value(ahead), Value(behind)))
  }

  /** The first such match anywhere in the text. */
  function AheadBehind(s: string): Option<(nat, nat)> {
    if AheadBehindAt(s).Some? then AheadBehindAt(s)
    else if s == "" then None
    else AheadBehind(s[1..])
  }

  const HEAD_PREFIX := "# branch.head "
  const UPSTREAM_PREFIX := "# branch.upstream "
  const AHEAD_BEHIND_PREFIX := "# branch.ab "

  /** The entries of a tracked record: staged, worktree and conflict sides. */
  function TrackedEntries(path: string, origPath: Option<string>, x: Option<char>, y: Option<char>): seq<Entry> {
    var isConflict := x == Some('U') || y == Some('U');
    (if x != Some('.') && x != Some('?') then [Entry(path, origPath, x, y, if isConflict then Conflicted else Staged)] else [])
    + (if y != Some('.') && !isConflict then [Entry(path, origPath, x, y, Changed)] else [])
    + (if isConflict then [Entry(path, origPath, x, y, Conflicted)] else [])
  }

  function ParseRecord(record: string, next: Option<string>, st: Status): (Status, nat) {
    if record == "" then (st, 1)
    else if StartsWith(record, HEAD_PREFIX) then
      var value := record[|HEAD_PREFIX|..];
      (st.(branch := if value == "(detached)" then None else Some(value)), 1)
    else if StartsWith(record, UPSTREAM_PREFIX) then (st.(upstream := Some(record[|UPSTREAM_PREFIX|..])), 1)
    else if StartsWith(record, AHEAD_BEHIND_PREFIX) then
      var m := AheadBehind(record);
      (if m.Some? then st.(ahead := m.value.0, behind := m.value.1) else st, 1)
    else if StartsWith(record, "1 ") || StartsWith(record, "2 ") then
      var parts := Split(record, ' ');
      var xy := if |parts| > 1 then parts[1] else "";
      var renamed := StartsWith(record, "2 ");
      var path := RestFrom(parts, if renamed then 9 else 8);
      (st.(entries := st.entries + TrackedEntries(path, if renamed then next else None, CharAt(xy, 0), CharAt(xy, 1))),
       if renamed then 2 else 1)
    else if StartsWith(record, "u ") then
      var path := RestFrom(Split(record, ' '), 10);
      (st.(entries := st.entries + [Entry(path, None, Some('U'), Some('U'), Conflicted)]), 1)
    else if StartsWith(record, "? ") then
      (st.(entries := st.entries + [Entry(record[2..], None, Some('?'), Some('?'), Untracked)]), 1)
    else (st, 1)
  }

  function ParseFrom(records: seq<string>, i: nat, st: Status): Status
    decreases |records| - i
  {
    if i >= |records| then st
    else
      var (after, used) := ParseRecord(records[i], if i + 1 < |records| then Some(records[i + 1]) else None, st);
      ParseFrom(records, if used == 2 then i + 2 else i + 1, after)
  }

  /** Each group lists a path once: the first entry stays. */
  function Dedup(entries: seq<Entry>): seq<Entry> {
    if entries == [] then []
    else
      var rest, last := entries[..|entries| - 1], entries[|entries| - 1];
      Dedup(rest) + (if Listed(rest, last.group, last.path) then [] else [last])
  }

  predicate Listed(entries: seq<Entry>, group: Group, path: string) {
    exists i | 0 <= i < |entries| :: entries[i].group == group && entries[i].path == path
  }

  const NoStatus := Status(None, None, 0, 0, [])

  function ParseStatus(stdout: string): Status {
    var st := ParseFrom(Split(stdout, NUL), 0, NoStatus);
    st.(entries := Dedup(st.entries))
  }

  method ReadStatus(stdout: string) returns (status: Status)
    ensures status == ParseStatus(stdout)
  {
    var records := Split(stdout, NUL);
    var st := NoStatus;
    var i := 0;
    while i < |records|
      invariant ParseFrom(records, i, st) == ParseFrom(records, 0, NoStatus)
    {
      var record := records[i];
      if record == "" {
      } else if StartsWith(record, HEAD_PREFIX) {
        var value := record[|HEAD_PREFIX|..];
        st := st.(branch := if value == "(detached)" then None else Some(value));
      } else if StartsWith(record, UPSTREAM_PREFIX) {
        st := st.(upstream := Some(record[|UPSTREAM_PREFIX|..]));
      } else if StartsWith(record, AHEAD_BEHIND_PREFIX) {
        var m := AheadBehind(record);
        if m.Some? {
          st := st.(ahead := m.value.0, behind := m.value.1);
        }
      } else if StartsWith(record, "1 ") || StartsWith(record, "2 ") {
        var parts := Split(record, ' ');
        var xy := if |parts| > 1 then parts[1] else "";
        if StartsWith(record, "2 ") {
          var origPath := if i + 1 < |records| then Some(records[i + 1]) else None;
          st := st.(entries := st.entries + TrackedEntries(RestFrom(parts, 9), origPath, CharAt(xy, 0), CharAt(xy, 1)));
          i := i + 1;
        } else {
          st := st.(entries := st.entries + TrackedEntries(RestFrom(parts, 8), None, CharAt(xy, 0), CharAt(xy, 1)));
        }
      } else if StartsWith(record, "u ") {
        st := st.(entries := st.entries + [Entry(RestFrom(Split(record, ' '), 10), None, Some('U'), Some('U'), Conflicted)]);
      } else if StartsWith(record, "? ") {
        st := st.(entries := st.entries + [Entry(record[2..], None, Some('?'), Some('?'), Untracked)]);
      }
      i := i + 1;
    }
    var deduped := FirstPerGroup(st.entries);
    status := st.(entries := deduped);
  }

  method FirstPerGroup(entries: seq<Entry>) returns (deduped: seq<Entry>)
    ensures deduped == Dedup(entries)
  {
    deduped := [];
    var seen: set<(Group, string)> := {};
    for i := 0 to |entries|
      invariant deduped == Dedup(entries[..i])
      invariant forall group, path :: (group, path) in seen <==> Listed(entries[..i], group, path)
    {
      DedupSnoc(entries, i);
      var e := entries[i];
      if (e.group, e.path) !in seen {
        seen := seen + {(e.group, e.path)};
        deduped := deduped + [e];
      }
    }
    assert entries[..|entries|] == entries;
  }

  lemma DedupSnoc(entries: seq<Entry>, n: nat)
    requires n < |entries|
    ensures var e, earlier := entries[n], entries[..n];
            && Dedup(entries[..n + 1]) == Dedup(earlier) + (if Listed(earlier, e.group, e.path) then [] else [e])
            && forall group, path ::
                 Listed(entries[..n + 1], group, path) <==> Listed(earlier, group, path) || (e.group == group && e.path == path)
  {
    assert entries[..n + 1][..n] == entries[..n];
    assert entries[..n + 1] == entries[..n] + [entries[n]];
    forall group, path {
      ListedSnoc(entries[..n], entries[n], group, path);
    }
  }

  lemma ListedSnoc(entries: seq<Entry>, e: Entry, group: Group, path: string)
    ensures Listed(entries + [e], group, path) <==> Listed(entries, group, path) || (e.group == group && e.path == path)
  {
    var all := entries + [e];
    assert all[|entries|] == e && forall i | 0 <= i < |entries| :: all[i] == entries[i];
  }

  // ----- What git prints -----

  datatype Header = Header(oid: string, head: Option<string>, upstream: Option<string>, aheadBehind: Option<(nat, nat)>)

  datatype Record =
    | Ordinary(x: char, y: char, fields: seq<string>, path: string)
    | Renamed(x: char, y: char, fields: seq<string>, path: string, origPath: string)
    | Unmerged(x: char, y: char, fields: seq<string>, path: string)
    | UntrackedFile(path: string)

  function Words(tag: string, x: char, y: char, fields: seq<string>, path: string): string {
    Join([tag, [x, y]] + fields + [path], ' ')
  }

  function Lines(r: Record): seq<string> {
    match r
    case Ordinary(x, y, fields, path) => [Words("1", x, y, fields, path)]
    case Renamed(x, y, fields, path, origPath) => [Words("2", x, y, fields, path), origPath]
    case Unmerged(x, y, fields, path) => [Words("u", x, y, fields, path)]
    case UntrackedFile(path) => ["? " + path]
  }

  function AllLines(records: seq<Record>): seq<string> {
    if records == [] then [] else Lines(records[0]) + AllLines(records[1..])
  }

  function HeaderLines(h: Header): seq<string> {
    ["# branch.oid " + h.oid, HEAD_PREFIX + (if h.head.Some? then h.head.value else "(detached)")]
    + (if h.upstream.Some? then [UPSTREAM_PREFIX + h.upstream.value] else [])
    + (if h.aheadBehind.Some? then
         [AHEAD_BEHIND_PREFIX + ("+" + (Digits(h.aheadBehind.value.0, 10) + (" -" + Digits(h.aheadBehind.value.1, 10))))]
       else [])
  }

  /** Every printed line is followed by a NUL. */
  function Printed(h: Header, records: seq<Record>): string {
    Join(HeaderLines(h) + AllLines(records) + [""], NUL)
  }

  predicate Word(s: string) {
    ' ' !in s && NUL !in s
  }

  predicate State(c: char) {
    c != ' ' && c != NUL
  }

  /** The number of fields between XY and the path is fixed by the record type;
      ordinary and renamed records never carry U, untracked ones never '?'. */
  predicate WellFormed(r: Record) {
    NUL !in r.path
    && match r
       case Ordinary(x, y, fields, _) =>
         State(x) && State(y) && x != 'U' && y != 'U' && x != '?' && |fields| == 6 && forall f <- fields :: Word(f)
       case Renamed(x, y, fields, _, origPath) =>
         State(x) && State(y) && x != 'U' && y != 'U' && x != '?' && |fields| == 7 && (forall f <- fields :: Word(f))
         && NUL !in origPath
       case Unmerged(x, y, fields, _) =>
         State(x) && State(y) && |fields| == 8 && forall f <- fields :: Word(f)
       case UntrackedFile(_) => true
  }

  predicate WellFormedHeader(h: Header) {
    && NUL !in h.oid
    && (h.head.Some? ==> NUL !in h.head.value && h.head.value != "(detached)")
    && (h.upstream.Some? ==> NUL !in h.upstream.value)
  }

  /** What the state letters of a record mean for the panel. */
  function Meaning(r: Record): seq<Entry> {
    match r
    case Ordinary(x, y, _, path) => SidesOf(path, None, x, y)
    case Renamed(x, y, _, path, origPath) => SidesOf(path, Some(origPath), x, y)
    case Unmerged(_, _, _, path) => [Entry(path, None, Some('U'), Some('U'), Conflicted)]
    case UntrackedFile(path) => [Entry(path, None, Some('?'), Some('?'), Untracked)]
  }

  function SidesOf(path: string, origPath: Option<string>, x: char, y: char): seq<Entry> {
    (if x == '.' then [] else [Entry(path, origPath, Some(x), Some(y), Staged)])
    + (if y == '.' then [] else [Entry(path, origPath, Some(x), Some(y), Changed)])
  }

  function AllMeanings(records: seq<Record>): seq<Entry> {
    if records == [] then [] else Meaning(records[0]) + AllMeanings(records[1..])
  }

  // ----- The round trip -----

  lemma {:induction false} SplitFields(front: seq<string>, last: string)
    requires forall f <- front :: ' ' !in f
    ensures Split(Join(front + [last], ' '), ' ') == front + Split(last, ' ')
  {
    if front == [] {
      assert [] + [last] == [last];
    } else {
      var tail := Join(front[1..] + [last], ' ');
      assert (front + [last])[1..] == front[1..] + [last];
      assert Join(front + [last], ' ') == front[0] + [' '] + tail;
      SplitFields(front[1..], last);
      SplitAtFirst(front[0], tail, ' ');
      Assoc([front[0]], front[1..], Split(last, ' '));
      assert front == [front[0]] + front[1..];
    }
  }

  /** A path that contains spaces comes back whole. */
  lemma WordsParse(tag: string, x: char, y: char, fields: seq<string>, path: string)
    requires ' ' !in tag && State(x) && State(y) && forall f <- fields :: Word(f)
    ensures var parts := Split(Words(tag, x, y, fields, path), ' ');
            && |parts| > 2 + |fields| && parts[1] == [x, y]
            && RestFrom(parts, 2 + |fields|) == path
    ensures Words(tag, x, y, fields, path)[..|tag| + 1] == tag + " "
  {
    var front := [tag, [x, y]] + fields;
    SplitFields(front, path);
    var parts := Split(Words(tag, x, y, fields, path), ' ');
    assert parts[|front|..] == Split(path, ' ');
    JoinSplit(path, ' ');
    assert (front + [path])[0] == tag;
    assert Words(tag, x, y, fields, path) == tag + [' '] + Join((front + [path])[1..], ' ');
  }

  lemma TrackedMeaning(path: string, origPath: Option<string>, x: char, y: char)
    requires x != 'U' && y != 'U' && x != '?'
    ensures TrackedEntries(path, origPath, Some(x), Some(y)) == SidesOf(path, origPath, x, y)
  {
  }

  /** A tracked record with a conflict on either side is one entry, a conflict. */
  lemma TrackedConflictIsOne(path: string, origPath: Option<string>, x: char, y: char)
    requires x == 'U' || y == 'U'
    ensures Dedup(TrackedEntries(path, origPath, Some(x), Some(y))) == [Entry(path, origPath, Some(x), Some(y), Conflicted)]
  {
    var e := Entry(path, origPath, Some(x), Some(y), Conflicted);
    assert [e, e][..1] == [e] && [e][..0] == [];
    assert Dedup([e]) == [e] && [e][0] == e && Listed([e], e.group, e.path);
    assert Dedup([e, e]) == Dedup([e]) + [];
  }

  lemma OrdinaryParses(r: Record, next: Option<string>, st: Status)
    requires r.Ordinary? && WellFormed(r)
    ensures ParseRecord(Lines(r)[0], next, st) == (st.(entries := st.entries + Meaning(r)), 1)
  {
    WordsParse("1", r.x, r.y, r.fields, r.path);
    TagIs(Lines(r)[0], "1 ");
    TrackedMeaning(r.path, None, r.x, r.y);
  }

  lemma RenamedParses(r: Record, next: Option<string>, st: Status)
    requires r.Renamed? && WellFormed(r) && next == Some(r.origPath)
    ensures ParseRecord(Lines(r)[0], next, st) == (st.(entries := st.entries + Meaning(r)), 2)
  {
    WordsParse("2", r.x, r.y, r.fields, r.path);
    TagIs(Lines(r)[0], "2 ");
    TrackedMeaning(r.path, Some(r.origPath), r.x, r.y);
  }

  lemma RecordParses(r: Record, next: Option<string>, st: Status)
    requires WellFormed(r) && (r.Renamed? ==> next == Some(r.origPath))
    ensures ParseRecord(Lines(r)[0], next, st) == (st.(entries := st.entries + Meaning(r)), |Lines(r)|)
  {
    match r
    case Ordinary(_, _, _, _) => OrdinaryParses(r, next, st);
    case Renamed(_, _, _, _, _) => RenamedParses(r, next, st);
    case Unmerged(x, y, fields, path) =>
      WordsParse("u", x, y, fields, path);
      TagIs(Words("u", x, y, fields, path), "u ");
    case UntrackedFile(path) =>
      TagIs("? " + path, "? ");
      assert ("? " + path)[2..] == path;
  }

  lemma TagIs(record: string, tag: string)
    requires |tag| == 2 && |record| >= 2 && record[..2] == tag && tag[0] != '#'
    ensures record != "" && StartsWith(record, tag)
    ensures !StartsWith(record, HEAD_PREFIX) && !StartsWith(record, UPSTREAM_PREFIX) && !StartsWith(record, AHEAD_BEHIND_PREFIX)
    ensures forall other: string | |other| == 2 && other[0] != tag[0] :: !StartsWith(record, other)
  {
    assert record[0] == tag[0];
  }

  lemma Assoc<T>(a: seq<T>, b: seq<T>, c: seq<T>)
    ensures a + (b + c) == (a + b) + c
  {
  }

  lemma OneRecordParses(before: seq<string>, r: Record, after: seq<string>, st: Status)
    requires WellFormed(r) && after != []
    ensures var lines := before + (Lines(r) + after);
            ParseFrom(lines, |before|, st)
            == ParseFrom(lines, |before + Lines(r)|, st.(entries := st.entries + Meaning(r)))
  {
    LinesStand(before, Lines(r), after);
    RecordParsesAt(before + (Lines(r) + after), |before|, r, st);
  }

  lemma RecordParsesAt(lines: seq<string>, i: nat, r: Record, st: Status)
    requires WellFormed(r) && i + 1 < |lines| && lines[i] == Lines(r)[0]
    requires |Lines(r)| == 2 ==> lines[i + 1] == Lines(r)[1]
    ensures ParseFrom(lines, i, st) == ParseFrom(lines, i + |Lines(r)|, st.(entries := st.entries + Meaning(r)))
  {
    RecordParses(r, Some(lines[i + 1]), st);
    ParseStep(lines, i, Lines(r)[0], st);
  }

  lemma LinesStand(before: seq<string>, middle: seq<string>, after: seq<string>)
    requires 1 <= |middle| <= 2 && after != []
    ensures var lines := before + (middle + after);
            && |lines| > |before| + 1 && lines[|before|] == middle[0]
            && (|middle| == 2 ==> lines[|before| + 1] == middle[1])
  {
  }

  /** Parsing goes record by record, and never reads a rename's original path as a record. */
  lemma {:induction false} RecordsParse(before: seq<string>, records: seq<Record>, st: Status)
    requires forall r <- records :: WellFormed(r)
    ensures ParseFrom(before + (AllLines(records) + [""]), |before|, st)
            == st.(entries := st.entries + AllMeanings(records))
    decreases |records|
  {
    if records == [] {
      var lines := before + ([] + [""]);
      assert lines[|before|] == "" && |lines| == |before| + 1;
      assert st.entries + [] == st.entries;
    } else {
      var r, rest := records[0], records[1..];
      OneRecordParses(before, r, AllLines(rest) + [""], st);
      RecordsParse(before + Lines(r), rest, st.(entries := st.entries + Meaning(r)));
      Assoc(before, Lines(r), AllLines(rest) + [""]);
      Assoc(Lines(r), AllLines(rest), [""]);
      Assoc(st.entries, Meaning(r), AllMeanings(rest));
    }
  }

  lemma {:induction false} NoPlusBefore(front: string, s: string)
    requires '+' !in front
    ensures AheadBehind(front + s) == AheadBehind(s)
  {
    if front == "" {
      assert front + s == s;
    } else {
      assert (front + s)[0] == front[0] && (front + s)[1..] == front[1..] + s;
      NoPlusBefore(front[1..], s);
    }
  }

  lemma {:induction false} DigitRunStops(digits: string, rest: string)
    requires forall i | 0 <= i < |digits| :: '0' <= digits[i] <= '9'
    requires rest != "" ==> !DecimalDigit(rest[0])
    ensures DigitRun(digits + rest) == digits
  {
    if digits == "" {
      assert digits + rest == rest;
    } else {
      assert (digits + rest)[1..] == digits[1..] + rest;
      DigitRunStops(digits[1..], rest);
      assert digits == [digits[0]] + digits[1..];
    }
  }

  lemma AheadBehindAtFront(x: string, y: string)
    requires x != "" && y != ""
    requires forall i | 0 <= i < |x| :: '0' <= x[i] <= '9'
    requires forall i | 0 <= i < |y| :: '0' <= y[i] <= '9'
    ensures AheadBehindAt("+" + (x + (" -" + y))) == Some((Value(x), Value(y)))
  {
    var s := "+" + (x + (" -" + y));
    assert s[1..] == x + (" -" + y);
    DigitRunStops(x, " -" + y);
    assert s[1 + |x|..] == " -" + y;
    assert (" -" + y)[2..] == y + "";
    DigitRunStops(y, "");
    assert y + "" == y;
  }

  lemma AheadBehindParses(a: nat, b: nat)
    ensures AheadBehind(AHEAD_BEHIND_PREFIX + ("+" + (Digits(a, 10) + (" -" + Digits(b, 10))))) == Some((a, b))
  {
    var x, y := Digits(a, 10), Digits(b, 10);
    NoPlusBefore(AHEAD_BEHIND_PREFIX, "+" + (x + (" -" + y)));
    AheadBehindAtFront(x, y);
    ValueOfDigits(a);
    ValueOfDigits(b);
  }

  function WithHeader(h: Header): Status {
    Status(h.head, h.upstream, if h.aheadBehind.Some? then h.aheadBehind.value.0 else 0,
           if h.aheadBehind.Some? then h.aheadBehind.value.1 else 0, [])
  }

  lemma PrefixDecides(prefix: string, value: string)
    requires prefix in {HEAD_PREFIX, UPSTREAM_PREFIX, AHEAD_BEHIND_PREFIX}
    ensures StartsWith(prefix + value, prefix) && (prefix + value)[|prefix|..] == value
    ensures prefix != HEAD_PREFIX ==> !StartsWith(prefix + value, HEAD_PREFIX)
    ensures prefix == AHEAD_BEHIND_PREFIX ==> !StartsWith(prefix + value, UPSTREAM_PREFIX)
  {
    assert HEAD_PREFIX[9] == 'h' && UPSTREAM_PREFIX[9] == 'u' && AHEAD_BEHIND_PREFIX[9] == 'a';
    assert (prefix + value)[9] == prefix[9];
  }

  lemma OidIgnored(oid: string, next: Option<string>, st: Status)
    ensures ParseRecord("# branch.oid " + oid, next, st) == (st, 1)
  {
    var record := "# branch.oid " + oid;
    assert record[0] == '#' && record[9] == 'o';
    assert HEAD_PREFIX[9] == 'h' && UPSTREAM_PREFIX[9] == 'u' && AHEAD_BEHIND_PREFIX[9] == 'a';
  }

  lemma HeaderParses(h: Header, lines: seq<string>)
    requires WellFormedHeader(h) && HeaderLines(h) <= lines
    ensures ParseFrom(lines, 0, NoStatus) == ParseFrom(lines, |HeaderLines(h)|, WithHeader(h))
  {
    OidParses(lines, HeaderLines(h)[0], h.oid);
    HeadParses(lines, h, NoStatus);
    TrackingParses(h, lines);
  }

  lemma TrackingParses(h: Header, lines: seq<string>)
    requires WellFormedHeader(h) && HeaderLines(h) <= lines
    ensures ParseFrom(lines, 2, NoStatus.(branch := h.head)) == ParseFrom(lines, |HeaderLines(h)|, WithHeader(h))
  {
    var s1 := NoStatus.(branch := h.head);
    if h.upstream.Some? {
      UpstreamParses(lines, h.upstream.value, s1);
    }
    if h.aheadBehind.Some? {
      AheadBehindLineParses(lines, if h.upstream.Some? then 3 else 2, h.aheadBehind.value.0, h.aheadBehind.value.1,
                            s1.(upstream := h.upstream));
    }
  }

  lemma OidParses(lines: seq<string>, line: string, oid: string)
    requires lines != [] && lines[0] == line == "# branch.oid " + oid
    ensures ParseFrom(lines, 0, NoStatus) == ParseFrom(lines, 1, NoStatus)
  {
    OidIgnored(oid, if 1 < |lines| then Some(lines[1]) else None, NoStatus);
    ParseStep(lines, 0, line, NoStatus);
  }

  lemma HeadParses(lines: seq<string>, h: Header, st: Status)
    requires WellFormedHeader(h) && |lines| > 1
    requires lines[1] == HEAD_PREFIX + (if h.head.Some? then h.head.value else "(detached)")
    ensures ParseFrom(lines, 1, st) == ParseFrom(lines, 2, st.(branch := h.head))
  {
    PrefixDecides(HEAD_PREFIX, if h.head.Some? then h.head.value else "(detached)");
    ParseStep(lines, 1, lines[1], st);
  }

  lemma UpstreamParses(lines: seq<string>, upstream: string, st: Status)
    requires |lines| > 2 && lines[2] == UPSTREAM_PREFIX + upstream
    ensures ParseFrom(lines, 2, st) == ParseFrom(lines, 3, st.(upstream := Some(upstream)))
  {
    PrefixDecides(UPSTREAM_PREFIX, upstream);
    ParseStep(lines, 2, lines[2], st);
  }

  lemma AheadBehindLineParses(lines: seq<string>, k: nat, a: nat, b: nat, st: Status)
    requires k < |lines| && lines[k] == AHEAD_BEHIND_PREFIX + ("+" + (Digits(a, 10) + (" -" + Digits(b, 10))))
    ensures ParseFrom(lines, k, st) == ParseFrom(lines, k + 1, st.(ahead := a, behind := b))
  {
    PrefixDecides(AHEAD_BEHIND_PREFIX, "+" + (Digits(a, 10) + (" -" + Digits(b, 10))));
    AheadBehindParses(a, b);
    ParseStep(lines, k, lines[k], st);
  }

  lemma ParseStep(lines: seq<string>, i: nat, line: string, st: Status)
    requires i < |lines| && lines[i] == line
    ensures var next := if i + 1 < |lines| then Some(lines[i + 1]) else None;
            var (after, used) := ParseRecord(line, next, st);
            ParseFrom(lines, i, st) == ParseFrom(lines, if used == 2 then i + 2 else i + 1, after)
  {
  }

  predicate DistinctPaths(records: seq<Record>) {
    forall i, j | 0 <= i < j < |records| :: records[i].path != records[j].path
  }

  predicate Apart(entries: seq<Entry>) {
    forall i, j | 0 <= i < j < |entries| :: entries[i].path != entries[j].path || entries[i].group != entries[j].group
  }

  lemma ApartConcat(first: seq<Entry>, rest: seq<Entry>)
    requires Apart(first) && Apart(rest)
    requires forall i, j | 0 <= i < |first| && 0 <= j < |rest| :: first[i].path != rest[j].path
    ensures Apart(first + rest)
  {
  }

  lemma {:induction false} DedupKeepsDistinct(entries: seq<Entry>)
    requires Apart(entries)
    ensures Dedup(entries) == entries
  {
    if entries != [] {
      var rest, last := entries[..|entries| - 1], entries[|entries| - 1];
      DedupKeepsDistinct(rest);
      assert !Listed(rest, last.group, last.path);
      assert entries == rest + [last];
    }
  }

  lemma {:induction false} MeaningPaths(records: seq<Record>, i: nat)
    requires i < |AllMeanings(records)|
    ensures exists k :: 0 <= k < |records| && records[k].path == AllMeanings(records)[i].path
  {
    var first := Meaning(records[0]);
    if i < |first| {
      assert records[0].path == AllMeanings(records)[i].path;
    } else {
      MeaningPaths(records[1..], i - |first|);
      var k :| 0 <= k < |records[1..]| && records[1..][k].path == AllMeanings(records[1..])[i - |first|].path;
      assert records[k + 1].path == AllMeanings(records)[i].path;
    }
  }

  lemma MeaningOfOne(r: Record)
    ensures forall i | 0 <= i < |Meaning(r)| :: Meaning(r)[i].path == r.path
    ensures forall i, j | 0 <= i < j < |Meaning(r)| :: Meaning(r)[i].group != Meaning(r)[j].group
  {
  }

  lemma {:induction false} MeaningsDistinct(records: seq<Record>)
    requires DistinctPaths(records)
    ensures Apart(AllMeanings(records))
  {
    if records != [] {
      var first, rest := Meaning(records[0]), AllMeanings(records[1..]);
      MeaningOfOne(records[0]);
      MeaningsDistinct(records[1..]);
      forall i, j | 0 <= i < |first| && 0 <= j < |rest|
        ensures first[i].path != rest[j].path
      {
        MeaningPaths(records[1..], j);
        var k :| 0 <= k < |records[1..]| && records[1..][k].path == rest[j].path;
        assert records[k + 1].path == rest[j].path;
      }
      ApartConcat(first, rest);
    }
  }

  lemma {:induction false} JoinClean(parts: seq<string>, sep: char, c: char)
    requires parts != [] && c != sep && forall part <- parts :: c !in part
    ensures c !in Join(parts, sep)
  {
    if |parts| > 1 {
      JoinClean(parts[1..], sep, c);
    }
  }

  lemma {:induction false} LinesAreClean(records: seq<Record>)
    requires forall r <- records :: WellFormed(r)
    ensures forall line <- AllLines(records) :: NUL !in line
  {
    if records != [] {
      var r := records[0];
      assert r in records;
      LinesAreClean(records[1..]);
      match r
      case Ordinary(x, y, fields, path) => JoinClean(["1", [x, y]] + fields + [path], ' ', NUL);
      case Renamed(x, y, fields, path, origPath) => JoinClean(["2", [x, y]] + fields + [path], ' ', NUL);
      case Unmerged(x, y, fields, path) => JoinClean(["u", [x, y]] + fields + [path], ' ', NUL);
      case UntrackedFile(path) =>
    }
  }

  lemma HeaderIsClean(h: Header)
    requires WellFormedHeader(h)
    ensures forall line <- HeaderLines(h) :: NUL !in line
  {
  }

  /** Parsing what git printed gives back exactly the branch facts and, in order,
      the entries the state letters imply, each path once in each group, for
      paths with any characters but NUL. */
  lemma StatusRoundTrip(h: Header, records: seq<Record>)
    requires WellFormedHeader(h) && forall r <- records :: WellFormed(r)
    ensures ParseStatus(Printed(h, records)) == WithHeader(h).(entries := Dedup(AllMeanings(records)))
  {
    var header, body := HeaderLines(h), AllLines(records);
    var lines := header + body + [""];
    PrintedSplits(h, records);
    HeaderParses(h, lines);
    RecordsParse(header, records, WithHeader(h));
    Assoc(header, body, [""]);
    assert [] + AllMeanings(records) == AllMeanings(records);
  }

  /** Nothing is dropped exactly when no two entries share path and group; in
      particular when no two records share a path. */
  lemma StatusRoundTripIff(h: Header, records: seq<Record>)
    requires WellFormedHeader(h) && forall r <- records :: WellFormed(r)
    ensures ParseStatus(Printed(h, records)) == WithHeader(h).(entries := AllMeanings(records)) <==> Apart(AllMeanings(records))
    ensures DistinctPaths(records) ==> Apart(AllMeanings(records))
  {
    StatusRoundTrip(h, records);
    DedupIsApart(AllMeanings(records));
    if Apart(AllMeanings(records)) {
      DedupKeepsDistinct(AllMeanings(records));
    }
    if DistinctPaths(records) {
      MeaningsDistinct(records);
    }
  }

  /** What is kept: each path and group that occurs, once. */
  lemma {:induction false} DedupIsApart(entries: seq<Entry>)
    ensures Apart(Dedup(entries))
    ensures forall group, path :: Listed(Dedup(entries), group, path) <==> Listed(entries, group, path)
  {
    if entries != [] {
      var rest, last := entries[..|entries| - 1], entries[|entries| - 1];
      DedupIsApart(rest);
      assert entries == rest + [last] && Dedup(rest) + [] == Dedup(rest);
      assert Dedup(entries) == if Listed(rest, last.group, last.path) then Dedup(rest) else Dedup(rest) + [last];
      forall group, path
        ensures Listed(Dedup(entries), group, path) <==> Listed(entries, group, path)
      {
        ListedSnoc(rest, last, group, path);
        ListedSnoc(Dedup(rest), last, group, path);
      }
      if !Listed(rest, last.group, last.path) {
        ApartSnoc(Dedup(rest), last);
      }
    }
  }

  lemma ApartSnoc(entries: seq<Entry>, e: Entry)
    requires Apart(entries) && !Listed(entries, e.group, e.path)
    ensures Apart(entries + [e])
  {
  }

  lemma PrintedSplits(h: Header, records: seq<Record>)
    requires WellFormedHeader(h) && forall r <- records :: WellFormed(r)
    ensures Split(Printed(h, records), NUL) == HeaderLines(h) + AllLines(records) + [""]
  {
    var lines := HeaderLines(h) + AllLines(records) + [""];
    HeaderIsClean(h);
    LinesAreClean(records);
    forall line <- lines
      ensures NUL !in line
    {
      assert line in HeaderLines(h) || line in AllLines(records) || line == "";
    }
    SplitJoin(lines, NUL);
  }
}
