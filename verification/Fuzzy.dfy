/** Subsequence matching and ranking (packages/foundation/src/fuzzy.ts), for ASCII text. */
module Fuzzy {
  import opened Content
  import opened Counting
  import opened Sorting

  function LowerChar(c: char): char {
    if 'A' <= c <= 'Z' then c + ('a' - 'A') else c
  }

  function Lower(s: string): (l: string)
    ensures |l| == |s| && forall i | 0 <= i < |s| :: l[i] == LowerChar(s[i])
  {
    seq(|s|, i requires 0 <= i < |s| => LowerChar(s[i]))
  }

  datatype Match = Match(score: int, positions: seq<nat>)

  // ----- Subsequences -----

  /** `ps` are increasing positions at which `t` spells `q`, none below `from`. */
  predicate Spells(q: string, t: string, from: nat, ps: seq<nat>) {
    && |ps| == |q|
    && (forall i | 0 <= i < |ps| :: from <= ps[i] < |t| && t[ps[i]] == q[i])
    && (forall i, j | 0 <= i < j < |ps| :: ps[i] < ps[j])
  }

  ghost predicate Subsequence(q: string, t: string) {
    exists ps :: Spells(q, t, 0, ps)
  }

  function FirstFrom(t: string, c: char, from: nat): (k: Option<nat>)
    ensures k.Some? ==> from <= k.value < |t| && t[k.value] == c && forall i | from <= i < k.value :: t[i] != c
    ensures k.None? ==> forall i | from <= i < |t| :: t[i] != c
    decreases |t| - from
  {
    if from >= |t| then None
    else if t[from] == c then Some(from)
    else FirstFrom(t, c, from + 1)
  }

  function Greedy(q: string, t: string, from: nat): Option<seq<nat>> {
    if q == "" then Some([])
    else
      var k := FirstFrom(t, q[0], from);
      if k.None? then None
      else
        var rest := Greedy(q[1..], t, k.value + 1);
        if rest.None? then None else Some([k.value] + rest.value)
  }

  // ----- Scores -----

  predicate Separator(c: char) {
    c in {' ', '/', '_', '-', '.'}
  }

  function LastSlash(t: string): (k: int)
    ensures -1 <= k < |t| && (k >= 0 ==> t[k] == '/') && forall i | k < i < |t| :: t[i] != '/'
  {
    if t == "" then -1
    else if t[|t| - 1] == '/' then |t| - 1
    else LastSlash(t[..|t| - 1])
  }

  function CharScore(target: string, found: nat, lastMatch: int): int
    requires found < |target|
  {
    var t := Lower(target);
    1
    + (if found == 0 || Separator(t[found - 1]) then 8 else 0)
    + (if 'A' <= target[found] <= 'Z' && found > 0 && 'a' <= t[found - 1] <= 'z' then 6 else 0)
    + (if found == lastMatch + 1 then 5 else 0)
    + (if found > LastSlash(t) then 2 else 0)
  }

  function MatchScore(target: string, ps: seq<nat>): int
    requires forall i | 0 <= i < |ps| :: ps[i] < |target|
  {
    if ps == [] then 0
    else
      var n := |ps| - 1;
      MatchScore(target, ps[..n]) + CharScore(target, ps[n], if n > 0 then ps[n - 1] else -2)
  }

  function LengthBonus(target: string): nat {
    if 20 - |target| / 8 > 0 then 20 - |target| / 8 else 0
  }

  function ScoreOf(query: string, target: string): Option<Match> {
    if query == "" then Some(Match(0, []))
    else
      var ps := Greedy(Lower(query), Lower(target), 0);
      if ps.None? then None
      else
        GreedySpells(Lower(query), Lower(target), 0);
        Some(Match(MatchScore(target, ps.value) + LengthBonus(target), ps.value))
  }

  method FuzzyScore(query: string, target: string) returns (r: Option<Match>)
    ensures r == ScoreOf(query, target)
  {
    if |query| == 0 {
      return Some(Match(0, []));
    }
    var q, t := Lower(query), Lower(target);
    if |q| > |t| {
      TooLong(q, t);
      return None;
    }
    var found, score := MatchAll(q, t, target);
    if found.None? {
      return None;
    }
    // the length bonus
    score := score + LengthBonus(target);
    r := Some(Match(score, found.value));
  }

  method MatchAll(q: string, t: string, target: string) returns (found: Option<seq<nat>>, score: int)
    requires t == Lower(target)
    ensures found == Greedy(q, t, 0)
    ensures found.Some? ==> forall i | 0 <= i < |found.value| :: found.value[i] < |target|
    ensures found.Some? ==> score == MatchScore(target, found.value)
  {
    var positions: seq<nat> := [];
    score := 0;
    var ti: nat := 0;
    var lastMatch: int := -2;
    var lastSlash := LastSlash(t);
    assert q[0..] == q;
    PrependNothing(Greedy(q, t, 0));
    for qi := 0 to |q|
      invariant ti <= |t|
      invariant Matched(q, target, qi, ti, positions, score, lastMatch)
    {
      var ch := q[qi];
      var at := FindChar(t, ch, ti);
      if at == -1 {
        return None, 0;
      }
      var charScore := ScoreChar(target, t, at, lastMatch, lastSlash);
      MatchOneMore(q, target, qi, ti, positions, score, lastMatch, at);
      score := score + charScore;
      positions := positions + [at];
      lastMatch := at;
      ti := at + 1;
    }
    PrependNothing(Some(positions));
    found := Some(positions);
  }

  /** The first `qi` characters stand at `positions`, which score `score` so far. */
  predicate Matched(q: string, target: string, qi: nat, ti: nat, positions: seq<nat>, score: int, lastMatch: int) {
    && qi <= |q|
    && (forall i | 0 <= i < |positions| :: positions[i] < |target|)
    && Greedy(q, Lower(target), 0) == Prepend(positions, Greedy(q[qi..], Lower(target), ti))
    && score == MatchScore(target, positions)
    && lastMatch == if positions == [] then -2 else positions[|positions| - 1]
  }

  lemma MatchOneMore(q: string, target: string, qi: nat, ti: nat, positions: seq<nat>, score: int, lastMatch: int, at: nat)
    requires Matched(q, target, qi, ti, positions, score, lastMatch) && qi < |q|
    requires at < |target| && FirstFrom(Lower(target), q[qi], ti) == Some(at)
    ensures Matched(q, target, qi + 1, at + 1, positions + [at], score + CharScore(target, at, lastMatch), at)
  {
    assert q[qi..][0] == q[qi] && q[qi..][1..] == q[qi + 1..];
    ScoreContinues(target, positions, at);
    GreedyContinues(q[qi..], Lower(target), ti, at, positions);
  }

  function Prepend(ps: seq<nat>, rest: Option<seq<nat>>): Option<seq<nat>> {
    if rest.None? then None else Some(ps + rest.value)
  }

  lemma PrependNothing(ps: Option<seq<nat>>)
    ensures Prepend([], ps) == ps
    ensures ps.Some? ==> Prepend(ps.value, Some([])) == ps
  {
    if ps.Some? {
      assert [] + ps.value == ps.value && ps.value + [] == ps.value;
    }
  }

  lemma ScoreContinues(target: string, positions: seq<nat>, found: nat)
    requires found < |target| && forall i | 0 <= i < |positions| :: positions[i] < |target|
    ensures MatchScore(target, positions + [found])
            == MatchScore(target, positions)
               + CharScore(target, found, if positions == [] then -2 else positions[|positions| - 1])
  {
    assert (positions + [found])[..|positions|] == positions;
  }

  lemma GreedyContinues(q: string, t: string, from: nat, found: nat, positions: seq<nat>)
    requires q != "" && FirstFrom(t, q[0], from) == Some(found)
    ensures Prepend(positions, Greedy(q, t, from)) == Prepend(positions + [found], Greedy(q[1..], t, found + 1))
  {
    var rest := Greedy(q[1..], t, found + 1);
    if rest.Some? {
      assert positions + ([found] + rest.value) == positions + [found] + rest.value;
    }
  }

  method FindChar(t: string, ch: char, from: nat) returns (found: int)
    requires from <= |t|
    ensures found == -1 || 0 <= found < |t|
    ensures FirstFrom(t, ch, from) == if found == -1 then None else Some(found)
  {
    var ti := from;
    while ti < |t|
      invariant from <= ti <= |t|
      invariant FirstFrom(t, ch, from) == FirstFrom(t, ch, ti)
    {
      if t[ti] == ch {
        return ti;
      }
      ti := ti + 1;
    }
    found := -1;
  }

  method ScoreChar(target: string, t: string, found: nat, lastMatch: int, lastSlash: int) returns (charScore: int)
    requires t == Lower(target) && found < |t| && lastSlash == LastSlash(t)
    ensures charScore == CharScore(target, found, lastMatch)
  {
    charScore := 1;
    var isWordStart := found == 0 || Separator(t[found - 1]);
    var isCamelStart := 'A' <= target[found] <= 'Z' && found > 0 && 'a' <= t[found - 1] <= 'z';
    if isWordStart { charScore := charScore + 8; }
    if isCamelStart { charScore := charScore + 6; }
    if found == lastMatch + 1 { charScore := charScore + 5; }
    if found > lastSlash { charScore := charScore + 2; }
  }

  // ----- What a match means -----

  lemma {:induction false} GreedySpells(q: string, t: string, from: nat)
    ensures Greedy(q, t, from).Some? ==> Spells(q, t, from, Greedy(q, t, from).value)
  {
    if q != "" {
      var k := FirstFrom(t, q[0], from);
      if k.Some? {
        GreedySpells(q[1..], t, k.value + 1);
      }
    }
  }

  /** Wherever the text can spell the query, greedy finds positions no later
      than those, one by one. */
  lemma {:induction false} GreedyIsEarliest(q: string, t: string, from: nat, ps: seq<nat>)
    requires Spells(q, t, from, ps)
    ensures Greedy(q, t, from).Some? && |Greedy(q, t, from).value| == |ps|
    ensures forall i | 0 <= i < |ps| :: Greedy(q, t, from).value[i] <= ps[i]
  {
    if q != "" {
      var k := FirstFrom(t, q[0], from);
      assert k.Some? && k.value <= ps[0];
      var rest := ps[1..];
      assert Spells(q[1..], t, k.value + 1, rest);
      GreedyIsEarliest(q[1..], t, k.value + 1, rest);
      assert ps == [ps[0]] + rest;
    }
  }

  lemma {:induction false} SpellsNeedsRoom(q: string, t: string, from: nat, ps: seq<nat>)
    requires Spells(q, t, from, ps) && q != ""
    ensures from + |q| <= |t|
  {
    if |q| > 1 {
      SpellsNeedsRoom(q[1..], t, ps[0] + 1, ps[1..]);
    }
  }

  lemma TooLong(q: string, t: string)
    requires |q| > |t|
    ensures Greedy(q, t, 0).None?
  {
    GreedySpells(q, t, 0);
    if Greedy(q, t, 0).Some? {
      SpellsNeedsRoom(q, t, 0, Greedy(q, t, 0).value);
    }
  }

  lemma CharScoreBounds(target: string, found: nat, lastMatch: int)
    requires found < |target|
    ensures 1 <= CharScore(target, found, lastMatch) <= 16
  {
  }

  lemma {:induction false} MatchScoreBounds(target: string, ps: seq<nat>)
    requires forall i | 0 <= i < |ps| :: ps[i] < |target|
    ensures |ps| <= MatchScore(target, ps) <= 16 * |ps|
  {
    if ps != [] {
      var n := |ps| - 1;
      MatchScoreBounds(target, ps[..n]);
      CharScoreBounds(target, ps[n], if n > 0 then ps[n - 1] else -2);
    }
  }

  /** A match is reported exactly for subsequences, ignoring case; its positions
      spell the query as early as possible, and its score stays within bounds. */
  lemma MatchIsExact(query: string, target: string)
    ensures ScoreOf(query, target).Some? <==> Subsequence(Lower(query), Lower(target))
    ensures ScoreOf(query, target).Some? ==>
              var m := ScoreOf(query, target).value;
              && Spells(Lower(query), Lower(target), 0, m.positions)
              && (forall ps, i | Spells(Lower(query), Lower(target), 0, ps) && 0 <= i < |ps| :: m.positions[i] <= ps[i])
              && (query != "" ==> |query| <= m.score <= 16 * |query| + 20)
  {
    var q, t := Lower(query), Lower(target);
    GreedySpells(q, t, 0);
    if query == "" {
      assert Spells(q, t, 0, []);
    } else if Greedy(q, t, 0).Some? {
      assert Spells(q, t, 0, Greedy(q, t, 0).value);
      MatchScoreBounds(target, Greedy(q, t, 0).value);
    }
    forall ps | Spells(q, t, 0, ps)
      ensures Greedy(q, t, 0).Some? && |Greedy(q, t, 0).value| == |ps|
      ensures forall i | 0 <= i < |ps| :: Greedy(q, t, 0).value[i] <= ps[i]
    {
      GreedyIsEarliest(q, t, 0, ps);
    }
  }

  // ----- What a score counts -----

  predicate WordStart(target: string, p: nat)
    requires p < |target|
  {
    p == 0 || target[p - 1] in {' ', '/', '_', '-', '.'}
  }

  predicate Letter(c: char) {
    'a' <= c <= 'z' || 'A' <= c <= 'Z'
  }

  /** A capital behind a letter of either case. */
  predicate CamelStart(target: string, p: nat)
    requires p < |target|
  {
    'A' <= target[p] <= 'Z' && p > 0 && Letter(target[p - 1])
  }

  predicate InBasename(target: string, p: nat) {
    forall k | p <= k < |target| :: target[k] != '/'
  }

  predicate Adjacent(ps: seq<nat>, i: nat) {
    0 < i < |ps| && ps[i] == ps[i - 1] + 1
  }

  lemma CharScoreCounts(target: string, ps: seq<nat>, i: nat)
    requires i < |ps| && ps[i] < |target|
    ensures CharScore(target, ps[i], if i > 0 then ps[i - 1] else -2)
            == 1 + (if WordStart(target, ps[i]) then 8 else 0) + (if CamelStart(target, ps[i]) then 6 else 0)
               + (if Adjacent(ps, i) then 5 else 0) + (if InBasename(target, ps[i]) then 2 else 0)
  {
    var t := Lower(target);
    assert forall k | 0 <= k < |target| :: t[k] == '/' <==> target[k] == '/';
    if ps[i] > LastSlash(t) {
      assert InBasename(target, ps[i]);
    } else {
      assert target[LastSlash(t)] == '/' && !InBasename(target, ps[i]);
    }
  }

  function WordStarts(target: string, ps: seq<nat>): nat -> bool {
    (i: nat) => i < |ps| && ps[i] < |target| && WordStart(target, ps[i])
  }

  function CamelStarts(target: string, ps: seq<nat>): nat -> bool {
    (i: nat) => i < |ps| && ps[i] < |target| && CamelStart(target, ps[i])
  }

  function InBasenames(target: string, ps: seq<nat>): nat -> bool {
    (i: nat) => i < |ps| && InBasename(target, ps[i])
  }

  function Adjacents(ps: seq<nat>): nat -> bool {
    (i: nat) => Adjacent(ps, i)
  }

  lemma {:induction false} MatchScoreCounts(target: string, ps: seq<nat>, n: nat)
    requires n <= |ps| && forall i | 0 <= i < |ps| :: ps[i] < |target|
    ensures MatchScore(target, ps[..n])
            == n + 8 * Marks(n, WordStarts(target, ps)) + 6 * Marks(n, CamelStarts(target, ps))
               + 5 * Marks(n, Adjacents(ps)) + 2 * Marks(n, InBasenames(target, ps))
  {
    if n == 0 {
      NoMarks(WordStarts(target, ps));
      NoMarks(CamelStarts(target, ps));
      NoMarks(Adjacents(ps));
      NoMarks(InBasenames(target, ps));
    } else {
      MatchScoreCounts(target, ps, n - 1);
      CharScoreCounts(target, ps, n - 1);
      MatchScoreNext(target, ps, n - 1);
      MarksNext(n - 1, WordStarts(target, ps));
      MarksNext(n - 1, CamelStarts(target, ps));
      MarksNext(n - 1, Adjacents(ps));
      MarksNext(n - 1, InBasenames(target, ps));
    }
  }

  lemma MatchScoreNext(target: string, ps: seq<nat>, n: nat)
    requires n < |ps| && forall i | 0 <= i < |ps| :: ps[i] < |target|
    ensures MatchScore(target, ps[..n + 1])
            == MatchScore(target, ps[..n]) + CharScore(target, ps[n], if n > 0 then ps[n - 1] else -2)
  {
    assert ps[..n + 1][..n] == ps[..n];
  }

  /** The score of a match: one for each character, 8 for each at the start of a
      word, 6 for each capital behind a letter, 5 for each right behind the one
      before, 2 for each with no slash from it on; and shorter targets get up to
      20 more, one less for every 8 characters. */
  lemma ScoreCounts(query: string, target: string)
    requires query != "" && ScoreOf(query, target).Some?
    ensures var m := ScoreOf(query, target).value;
            var ps := m.positions;
            m.score == |query| + 8 * Marks(|ps|, WordStarts(target, ps)) + 6 * Marks(|ps|, CamelStarts(target, ps))
                       + 5 * Marks(|ps|, Adjacents(ps)) + 2 * Marks(|ps|, InBasenames(target, ps))
                       + if |target| < 160 then 20 - |target| / 8 else 0
  {
    var ps := ScoreOf(query, target).value.positions;
    MatchIsExact(query, target);
    assert ps[..|ps|] == ps;
    MatchScoreCounts(target, ps, |ps|);
  }

  // ----- Ranking -----

  datatype Ranked<T> = Ranked(item: T, score: int, positions: seq<nat>)

  predicate NotLower<T>(a: Ranked<T>, b: Ranked<T>) {
    a.score >= b.score
  }

  function Matches<T>(query: string, items: seq<T>, text: T -> string): seq<Ranked<T>> {
    if items == [] then []
    else
      Matches(query, items[..|items| - 1], text) + MatchOf(query, items[|items| - 1], text)
  }

  function MatchOf<T>(query: string, item: T, text: T -> string): seq<Ranked<T>> {
    var m := ScoreOf(query, text(item));
    if m.Some? then [Ranked(item, m.value.score, m.value.positions)] else []
  }

  method FuzzyFilter<T>(query: string, items: seq<T>, text: T -> string, limit: nat) returns (r: seq<Ranked<T>>)
    ensures r == TopMatches(query, items, text, limit)
  {
    var matches: seq<Ranked<T>> := [];
    for i := 0 to |items|
      invariant matches == Matches(query, items[..i], text)
    {
      assert items[..i + 1][..i] == items[..i];
      var m := FuzzyScore(query, text(items[i]));
      if m.Some? {
        matches := matches + [Ranked(items[i], m.value.score, m.value.positions)];
      }
    }
    assert items[..|items|] == items;
    var sorted := Sort(matches, NotLower);
    r := sorted[..Min(|sorted|, limit)];
  }

  function TopMatches<T>(query: string, items: seq<T>, text: T -> string, limit: nat): seq<Ranked<T>> {
    var sorted := Sort(Matches(query, items, text), NotLower);
    sorted[..Min(|sorted|, limit)]
  }

  /** The matches of one score, in order. */
  function WithScore<T>(matches: seq<Ranked<T>>, score: int): seq<Ranked<T>> {
    if matches == [] then []
    else
      var last := matches[|matches| - 1];
      WithScore(matches[..|matches| - 1], score) + (if last.score == score then [last] else [])
  }

  lemma WithScoreSnoc<T>(matches: seq<Ranked<T>>, m: Ranked<T>, score: int)
    ensures WithScore(matches + [m], score) == WithScore(matches, score) + (if m.score == score then [m] else [])
  {
    assert (matches + [m])[..|matches|] == matches;
  }

  lemma {:induction false} WithScoreConcat<T>(a: seq<Ranked<T>>, b: seq<Ranked<T>>, score: int)
    ensures WithScore(a + b, score) == WithScore(a, score) + WithScore(b, score)
  {
    if b == [] {
      assert a + b == a;
    } else {
      var n := |b| - 1;
      assert a + b == (a + b[..n]) + [b[n]];
      WithScoreConcat(a, b[..n], score);
      WithScoreSnoc(a + b[..n], b[n], score);
    }
  }

  lemma {:induction false} InsertIsStable<T>(matches: seq<Ranked<T>>, m: Ranked<T>, score: int)
    requires Sorted(matches, NotLower)
    ensures WithScore(Insert(matches, m, NotLower), score) == WithScore(matches + [m], score)
  {
    if matches != [] && !NotLower(matches[|matches| - 1], m) {
      var rest, last := matches[..|matches| - 1], matches[|matches| - 1];
      InsertIsStable(rest, m, score);
      WithScoreSnoc(Insert(rest, m, NotLower), last, score);
      WithScoreSnoc(rest, m, score);
      WithScoreSnoc(matches, m, score);
    }
  }

  /** Sorting keeps the order of matches with the same score. */
  lemma {:induction false} SortIsStable<T(!new)>(matches: seq<Ranked<T>>, score: int)
    ensures WithScore(Sort(matches, NotLower), score) == WithScore(matches, score)
  {
    if matches != [] {
      var rest, last := matches[..|matches| - 1], matches[|matches| - 1];
      SortIsStable(rest, score);
      SortSorts(rest, NotLower);
      InsertIsStable(Sort(rest, NotLower), last, score);
      WithScoreSnoc(Sort(rest, NotLower), last, score);
    }
  }

  /** The filter returns matches only, best first, as many as there are up to
      the limit; nothing it leaves out scores higher than what it returns; and
      among equal scores the items keep their order, the earlier ones first. */
  lemma FilterIsTopK<T(!new)>(query: string, items: seq<T>, text: T -> string, limit: nat)
    returns (omitted: seq<Ranked<T>>)
    ensures var r := TopMatches(query, items, text, limit);
            && multiset(r) + multiset(omitted) == multiset(Matches(query, items, text))
            && |r| == Min(|Matches(query, items, text)|, limit)
            && Sorted(r, NotLower)
            && (forall i, j | 0 <= i < |r| && 0 <= j < |omitted| :: r[i].score >= omitted[j].score)
            && forall score :: WithScore(r, score) + WithScore(omitted, score) == WithScore(Matches(query, items, text), score)
  {
    var matches := Matches(query, items, text);
    SortSorts(matches, NotLower);
    omitted := SplitSorted(Sort(matches, NotLower), Min(|matches|, limit));
    forall score {
      SplitIsStable(matches, Min(|matches|, limit), score);
    }
  }

  lemma SplitIsStable<T(!new)>(matches: seq<Ranked<T>>, n: nat, score: int)
    requires n <= |matches|
    ensures var sorted := Sort(matches, NotLower);
            WithScore(sorted[..n], score) + WithScore(sorted[n..], score) == WithScore(matches, score)
  {
    var sorted := Sort(matches, NotLower);
    SortIsStable(matches, score);
    WithScoreConcat(sorted[..n], sorted[n..], score);
    assert sorted[..n] + sorted[n..] == sorted;
  }

  lemma SplitSorted<T>(sorted: seq<Ranked<T>>, n: nat) returns (omitted: seq<Ranked<T>>)
    requires n <= |sorted| && Sorted(sorted, NotLower)
    ensures omitted == sorted[n..]
    ensures multiset(sorted[..n]) + multiset(omitted) == multiset(sorted)
    ensures Sorted(sorted[..n], NotLower)
    ensures forall i, j | 0 <= i < n && 0 <= j < |omitted| :: sorted[i].score >= omitted[j].score
  {
    omitted := sorted[n..];
    assert sorted == sorted[..n] + omitted;
    forall i, j | 0 <= i < n && 0 <= j < |omitted|
      ensures sorted[i].score >= omitted[j].score
    {
      assert NotLower(sorted[i], sorted[n + j]);
    }
  }

  predicate Ranks<T(==)>(query: string, text: T -> string, item: T, m: Ranked<T>) {
    item == m.item && ScoreOf(query, text(item)) == Some(Match(m.score, m.positions))
  }

  lemma MatchOfRanks<T>(query: string, item: T, text: T -> string, m: Ranked<T>)
    ensures m in MatchOf(query, item, text) <==> Ranks(query, text, item, m)
  {
  }

  /** The ranked matches are exactly the items that match, each with its own score. */
  lemma {:induction false} MatchesAre<T>(query: string, items: seq<T>, text: T -> string, m: Ranked<T>)
    ensures m in Matches(query, items, text) <==> exists item <- items :: Ranks(query, text, item, m)
  {
    if items != [] {
      var rest, last := items[..|items| - 1], items[|items| - 1];
      MatchesAre(query, rest, text, m);
      MatchOfRanks(query, last, text, m);
      assert items == rest + [last];
      assert m in Matches(query, items, text) <==> m in Matches(query, rest, text) || m in MatchOf(query, last, text);
    }
  }
}
