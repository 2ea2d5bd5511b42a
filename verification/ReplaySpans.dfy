/** Merging compression spans (apps/desktop-main/src/terminal-replay-analysis-worker.ts, mergeSpans). */
module ReplaySpans {
  import opened Sorting

  datatype Kind = Thinking | Progress | Idle | Motion
  datatype Confidence = High | Medium

  /** `caption` is the source's label, a word with a meaning of its own here. */
  datatype Span = Span(
    id: string, startAtMs: nat, endAtMs: nat, kind: Kind, caption: string, confidence: Confidence,
    originalDurationMs: int, suggestedDurationMs: nat, eventCount: nat, live: bool)

  const MERGE_GAP_MS := 250

  function Max(a: nat, b: nat): nat {
    if a < b then b else a
  }

  /** By start, then by end. */
  predicate Before(a: Span, b: Span) {
    a.startAtMs < b.startAtMs || (a.startAtMs == b.startAtMs && a.endAtMs <= b.endAtMs)
  }

  predicate Mergeable(previous: Span, span: Span) {
    previous.kind == span.kind && span.startAtMs <= previous.endAtMs + MERGE_GAP_MS && !previous.live
  }

  function Joined(previous: Span, span: Span): Span {
    var end := Max(previous.endAtMs, span.endAtMs);
    previous.(endAtMs := end,
              originalDurationMs := end - previous.startAtMs,
              suggestedDurationMs := Max(previous.suggestedDurationMs, span.suggestedDurationMs),
              eventCount := previous.eventCount + span.eventCount,
              confidence := if previous.confidence == High || span.confidence == High then High else Medium,
              live := span.live)
  }

  // ----- Keeping the last span of each id, in the place of the first -----

  function IndexOfId(spans: seq<Span>, id: string): (k: nat)
    ensures k <= |spans| && (k < |spans| ==> spans[k].id == id)
    ensures forall i | 0 <= i < k :: spans[i].id != id
  {
    if spans == [] || spans[0].id == id then 0 else 1 + IndexOfId(spans[1..], id)
  }

  function SetById(spans: seq<Span>, span: Span): seq<Span> {
    var k := IndexOfId(spans, span.id);
    if k < |spans| then spans[k := span] else spans + [span]
  }

  function ById(spans: seq<Span>): seq<Span> {
    if spans == [] then [] else SetById(ById(spans[..|spans| - 1]), spans[|spans| - 1])
  }

  predicate DistinctIds(spans: seq<Span>) {
    forall i, j | 0 <= i < j < |spans| :: spans[i].id != spans[j].id
  }

  /** The span a list holds last under an id. */
  predicate LastWithId(spans: seq<Span>, i: nat) {
    i < |spans| && forall j | i < j < |spans| :: spans[j].id != spans[i].id
  }

  // ----- Merging -----

  function Extend(merged: seq<Span>, span: Span): seq<Span> {
    if merged != [] && Mergeable(merged[|merged| - 1], span)
    then merged[|merged| - 1 := Joined(merged[|merged| - 1], span)]
    else merged + [span]
  }

  function MergeOrdered(ordered: seq<Span>): seq<Span> {
    if ordered == [] then [] else Extend(MergeOrdered(ordered[..|ordered| - 1]), ordered[|ordered| - 1])
  }

  function Merged(spans: seq<Span>): seq<Span> {
    MergeOrdered(Sort(ById(spans), Before))
  }

  method MergeSpans(spans: seq<Span>) returns (merged: seq<Span>)
    ensures merged == Merged(spans)
  {
    var byId := LastById(spans);
    var ordered := Sort(byId, Before);
    merged := MergeInOrder(ordered);
  }

  method LastById(spans: seq<Span>) returns (byId: seq<Span>)
    ensures byId == ById(spans)
  {
    byId := [];
    for i := 0 to |spans|
      invariant byId == ById(spans[..i])
    {
      assert spans[..i + 1][..i] == spans[..i];
      byId := SetById(byId, spans[i]);
    }
    assert spans[..|spans|] == spans;
  }

  method MergeInOrder(ordered: seq<Span>) returns (merged: seq<Span>)
    ensures merged == MergeOrdered(ordered)
  {
    merged := [];
    for i := 0 to |ordered|
      invariant merged == MergeOrdered(ordered[..i])
    {
      assert ordered[..i + 1][..i] == ordered[..i];
      merged := MergeNext(merged, ordered[i]);
    }
    assert ordered[..|ordered|] == ordered;
  }

  method MergeNext(before: seq<Span>, span: Span) returns (merged: seq<Span>)
    ensures merged == Extend(before, span)
  {
    merged := before;
    if |merged| > 0 {
      var previous := merged[|merged| - 1];
      if previous.kind == span.kind && span.startAtMs <= previous.endAtMs + MERGE_GAP_MS && !previous.live {
        var end := Max(previous.endAtMs, span.endAtMs);
        previous := previous.(endAtMs := end);
        previous := previous.(originalDurationMs := end - previous.startAtMs);
        previous := previous.(suggestedDurationMs := Max(previous.suggestedDurationMs, span.suggestedDurationMs));
        previous := previous.(eventCount := previous.eventCount + span.eventCount);
        previous := previous.(confidence := if previous.confidence == High || span.confidence == High then High else Medium);
        previous := previous.(live := span.live);
        return merged[|merged| - 1 := previous];
      }
    }
    merged := merged + [span];
  }

  // ----- Ids -----

  lemma {:induction false} ByIdIsDistinct(spans: seq<Span>)
    ensures DistinctIds(ById(spans))
  {
    if spans != [] {
      ByIdIsDistinct(spans[..|spans| - 1]);
    }
  }

  lemma {:induction false} ByIdKeepsDistinct(spans: seq<Span>)
    requires DistinctIds(spans)
    ensures ById(spans) == spans
  {
    if spans != [] {
      ByIdKeepsDistinct(spans[..|spans| - 1]);
      assert spans == spans[..|spans| - 1] + [spans[|spans| - 1]];
    }
  }

  /** Setting a span replaces the one with its id and keeps the others. */
  lemma SetByIdMembers(kept: seq<Span>, last: Span, span: Span)
    requires DistinctIds(kept)
    ensures span in SetById(kept, last) <==> span == last || (span in kept && span.id != last.id)
  {
    var k := IndexOfId(kept, last.id);
    if k < |kept| {
      var all := kept[k := last];
      assert all[k] == last;
      if span in kept && span.id != last.id {
        var at :| 0 <= at < |kept| && kept[at] == span;
        assert all[at] == span;
      }
      if span in all && span != last {
        var at :| 0 <= at < |all| && all[at] == span;
        assert at != k && kept[at] == span;
      }
    }
  }

  lemma LastWithIdSnoc(rest: seq<Span>, last: Span, i: nat)
    requires i < |rest|
    ensures LastWithId(rest + [last], i) <==> LastWithId(rest, i) && rest[i].id != last.id
  {
    var spans := rest + [last];
    assert spans[|rest|] == last;
    if LastWithId(spans, i) {
      forall j | i < j < |rest|
        ensures rest[j].id != rest[i].id
      {
        assert spans[j] == rest[j];
      }
    }
  }

  /** Exactly the last span of each id is kept. */
  lemma {:induction false} ByIdKeepsLast(spans: seq<Span>, span: Span)
    ensures span in ById(spans) <==> exists i: nat :: LastWithId(spans, i) && spans[i] == span
  {
    if spans != [] {
      var n := |spans| - 1;
      var rest, last := spans[..n], spans[n];
      ByIdKeepsLast(rest, span);
      ByIdIsDistinct(rest);
      SetByIdMembers(ById(rest), last, span);
      LastOfSnoc(rest, last, span);
      assert spans == rest + [last];
    }
  }

  lemma LastOfSnoc(rest: seq<Span>, last: Span, span: Span)
    ensures (exists i: nat :: LastWithId(rest + [last], i) && (rest + [last])[i] == span)
            <==> span == last || ((exists i: nat :: LastWithId(rest, i) && rest[i] == span) && span.id != last.id)
  {
    var spans, n := rest + [last], |rest|;
    assert spans[n] == last && LastWithId(spans, n);
    forall i: nat | i < n
      ensures spans[i] == rest[i]
      ensures LastWithId(spans, i) <==> LastWithId(rest, i) && rest[i].id != last.id
    {
      LastWithIdSnoc(rest, last, i);
    }
  }

  /** The first span of a list with an id. */
  predicate FirstWithId(spans: seq<Span>, id: string, k: nat) {
    k < |spans| && spans[k].id == id && forall i | 0 <= i < k :: spans[i].id != id
  }

  /** The spans are kept in the order in which their ids first appeared. */
  lemma {:induction false} ByIdKeepsPlace(spans: seq<Span>, i: nat, j: nat) returns (k: nat, l: nat)
    requires i < j < |ById(spans)|
    ensures k < l && FirstWithId(spans, ById(spans)[i].id, k) && FirstWithId(spans, ById(spans)[j].id, l)
  {
    var n := |spans| - 1;
    var rest, last := spans[..n], spans[n];
    var kept := ById(rest);
    assert spans == rest + [last];
    if j < |kept| {
      k, l := ByIdKeepsPlace(rest, i, j);
    } else {
      k := FirstOf(rest, i);
      l := n;
      assert IndexOfId(kept, last.id) == |kept|;
      forall m | 0 <= m < n
        ensures rest[m].id != last.id
      {
        var p := KeptId(rest, m);
      }
    }
    assert forall m | 0 <= m < n :: spans[m] == rest[m];
  }

  /** Every id of the list is kept. */
  lemma {:induction false} KeptId(spans: seq<Span>, m: nat) returns (p: nat)
    requires m < |spans|
    ensures p < |ById(spans)| && ById(spans)[p].id == spans[m].id
  {
    var n := |spans| - 1;
    if m < n {
      p := KeptId(spans[..n], m);
    } else {
      p := IndexOfId(ById(spans[..n]), spans[n].id);
    }
  }

  lemma {:induction false} FirstOf(spans: seq<Span>, i: nat) returns (k: nat)
    requires i < |ById(spans)|
    ensures FirstWithId(spans, ById(spans)[i].id, k)
  {
    var n := |spans| - 1;
    var rest, last := spans[..n], spans[n];
    assert forall m | 0 <= m < n :: spans[m] == rest[m];
    if i < |ById(rest)| {
      k := FirstOf(rest, i);
    } else {
      k := n;
      forall m | 0 <= m < n
        ensures rest[m].id != last.id
      {
        var p := KeptId(rest, m);
      }
    }
  }

  // ----- What merging promises -----

  function Events(spans: seq<Span>): nat {
    if spans == [] then 0 else Events(spans[..|spans| - 1]) + spans[|spans| - 1].eventCount
  }

  predicate Covers(cover: Span, span: Span) {
    cover.kind == span.kind && cover.startAtMs <= span.startAtMs && span.endAtMs <= cover.endAtMs
  }

  predicate Covered(merged: seq<Span>, span: Span) {
    exists i :: 0 <= i < |merged| && Covers(merged[i], span)
  }

  predicate Settled(merged: seq<Span>) {
    forall i | 0 < i < |merged| :: !Mergeable(merged[i - 1], merged[i])
  }

  lemma {:induction false} EventsUpdate(spans: seq<Span>, k: nat, span: Span)
    requires k < |spans|
    ensures Events(spans[k := span]) == Events(spans) - spans[k].eventCount + span.eventCount
  {
    var n := |spans| - 1;
    if k == n {
      assert spans[k := span][..n] == spans[..n];
    } else {
      EventsUpdate(spans[..n], k, span);
      assert spans[k := span][..n] == spans[..n][k := span];
    }
  }

  lemma EventsAppend(spans: seq<Span>, span: Span)
    ensures Events(spans + [span]) == Events(spans) + span.eventCount
  {
    assert (spans + [span])[..|spans|] == spans;
  }

  lemma {:induction false} EventsInsert(spans: seq<Span>, span: Span)
    ensures Events(Insert(spans, span, Before)) == Events(spans) + span.eventCount
  {
    EventsAppend(spans, span);
    if spans != [] && !Before(spans[|spans| - 1], span) {
      EventsInsert(spans[..|spans| - 1], span);
      EventsAppend(Insert(spans[..|spans| - 1], span, Before), spans[|spans| - 1]);
    }
  }

  lemma {:induction false} EventsSort(spans: seq<Span>)
    ensures Events(Sort(spans, Before)) == Events(spans)
  {
    if spans != [] {
      EventsSort(spans[..|spans| - 1]);
      EventsInsert(Sort(spans[..|spans| - 1], Before), spans[|spans| - 1]);
    }
  }

  lemma {:induction false} MergeKeepsEvents(ordered: seq<Span>)
    ensures Events(MergeOrdered(ordered)) == Events(ordered)
  {
    if ordered != [] {
      var n := |ordered| - 1;
      var merged := MergeOrdered(ordered[..n]);
      MergeKeepsEvents(ordered[..n]);
      EventsAppend(merged, ordered[n]);
      if merged != [] {
        EventsUpdate(merged, |merged| - 1, Joined(merged[|merged| - 1], ordered[n]));
      }
    }
  }

  /** Every span of an ordered list is covered by a merged span of its kind. */
  lemma {:induction false} MergeCovers(ordered: seq<Span>, span: Span)
    requires Sorted(ordered, Before) && span in ordered
    ensures Covered(MergeOrdered(ordered), span)
  {
    var n := |ordered| - 1;
    var earlier, merged := MergeOrdered(ordered[..n]), MergeOrdered(ordered);
    MergeShape(ordered[..n], ordered[n]);
    assert earlier != [] ==> earlier[|earlier| - 1] in earlier;
    if span in ordered[..n] {
      MergeCovers(ordered[..n], span);
      var i :| 0 <= i < |earlier| && Covers(earlier[i], span);
      assert Covers(merged[i], span);
    } else {
      assert span == ordered[n];
      assert Covers(merged[|merged| - 1], span);
    }
  }

  /** One more span leaves an ordered, settled list ordered and settled. */
  lemma ExtendShape(merged: seq<Span>, last: Span)
    requires Sorted(merged, Before) && Settled(merged) && forall span <- merged :: Before(span, last)
    ensures Sorted(Extend(merged, last), Before) && Settled(Extend(merged, last))
  {
    var all := Extend(merged, last);
    forall i, j | 0 <= i < j < |all|
      ensures Before(all[i], all[j])
    {
      if j < |merged| {
        assert Before(merged[i], merged[j]);
      }
    }
    forall i | 0 < i < |all|
      ensures !Mergeable(all[i - 1], all[i])
    {
      assert i < |merged| ==> !Mergeable(merged[i - 1], merged[i]);
    }
  }

  lemma ExtendStaysBefore(merged: seq<Span>, last: Span, next: Span)
    requires Before(last, next) && forall span <- merged :: Before(span, last) && Before(span, next)
    ensures forall span <- Extend(merged, last) :: Before(span, next)
  {
    forall span <- Extend(merged, last)
      ensures Before(span, next)
    {
      assert span in merged || span == last
             || (merged != [] && merged[|merged| - 1] in merged && span == Joined(merged[|merged| - 1], last));
    }
  }

  /** Merging an ordered list leaves it ordered and settled, and before whatever
      comes after the list. */
  lemma {:induction false} MergeShape(ordered: seq<Span>, next: Span)
    requires Sorted(ordered, Before) && forall span <- ordered :: Before(span, next)
    ensures var merged := MergeOrdered(ordered);
            && Sorted(merged, Before) && Settled(merged)
            && (forall span <- merged :: Before(span, next))
  {
    if ordered != [] {
      var n := |ordered| - 1;
      var rest, last := ordered[..n], ordered[n];
      assert last in ordered && forall span <- rest :: span in ordered;
      MergeShape(rest, last);
      MergeShape(rest, next);
      ExtendShape(MergeOrdered(rest), last);
      ExtendStaysBefore(MergeOrdered(rest), last, next);
    }
  }

  // ----- What a merged span says -----

  function Flat(blocks: seq<seq<Span>>): seq<Span> {
    if blocks == [] then [] else Flat(blocks[..|blocks| - 1]) + blocks[|blocks| - 1]
  }

  /** The span stands for a run of spans of its kind, of which only the last may be
      live: it has the first one's name and start, the last end, the sum of the
      events, the longest suggestion, high confidence if any had it, and lasts
      from start to end unless it is alone. */
  predicate StandsFor(m: Span, block: seq<Span>) {
    && block != []
    && m.id == block[0].id && m.caption == block[0].caption && m.startAtMs == block[0].startAtMs
    && (forall i | 0 <= i < |block| :: block[i].kind == m.kind)
    && (forall i | 0 <= i < |block| - 1 :: !block[i].live) && m.live == block[|block| - 1].live
    && (forall i | 0 <= i < |block| :: block[i].endAtMs <= m.endAtMs)
    && (exists i | 0 <= i < |block| :: block[i].endAtMs == m.endAtMs)
    && (forall i | 0 <= i < |block| :: block[i].suggestedDurationMs <= m.suggestedDurationMs)
    && (exists i | 0 <= i < |block| :: block[i].suggestedDurationMs == m.suggestedDurationMs)
    && (m.confidence == High <==> exists i | 0 <= i < |block| :: block[i].confidence == High)
    && m.eventCount == Events(block)
    && m.originalDurationMs == if |block| == 1 then block[0].originalDurationMs else m.endAtMs - m.startAtMs
  }

  lemma StandsForOne(span: Span)
    ensures StandsFor(span, [span])
  {
    assert [span][0] == span && [span][..0] == [];
    assert Events([span]) == Events([]) + span.eventCount;
  }

  lemma StandsForMore(m: Span, block: seq<Span>, span: Span)
    requires StandsFor(m, block) && m.kind == span.kind && !m.live
    ensures StandsFor(Joined(m, span), block + [span])
  {
    var more, joined := block + [span], Joined(m, span);
    EventsAppend(block, span);
    assert more[|block|] == span && forall i | 0 <= i < |block| :: more[i] == block[i];
    var e :| 0 <= e < |block| && block[e].endAtMs == m.endAtMs;
    assert more[if span.endAtMs > m.endAtMs then |block| else e].endAtMs == joined.endAtMs;
    var d :| 0 <= d < |block| && block[d].suggestedDurationMs == m.suggestedDurationMs;
    assert more[if span.suggestedDurationMs > m.suggestedDurationMs then |block| else d].suggestedDurationMs == joined.suggestedDurationMs;
    if c :| 0 <= c < |block| && block[c].confidence == High {
      assert more[c].confidence == High;
    }
  }

  predicate StandFor(merged: seq<Span>, blocks: seq<seq<Span>>) {
    |merged| == |blocks| && forall i | 0 <= i < |blocks| :: StandsFor(merged[i], blocks[i])
  }

  lemma FlatSnoc(blocks: seq<seq<Span>>, block: seq<Span>)
    ensures Flat(blocks + [block]) == Flat(blocks) + block
  {
    assert (blocks + [block])[..|blocks|] == blocks;
  }

  lemma OneMoreRun(merged: seq<Span>, blocks: seq<seq<Span>>, span: Span)
    requires StandFor(merged, blocks)
    ensures StandFor(merged + [span], blocks + [[span]]) && Flat(blocks + [[span]]) == Flat(blocks) + [span]
  {
    StandsForOne(span);
    FlatSnoc(blocks, [span]);
  }

  lemma LongerRun(merged: seq<Span>, blocks: seq<seq<Span>>, span: Span) returns (longer: seq<seq<Span>>)
    requires StandFor(merged, blocks) && merged != [] && Mergeable(merged[|merged| - 1], span)
    ensures StandFor(merged[|merged| - 1 := Joined(merged[|merged| - 1], span)], longer) && Flat(longer) == Flat(blocks) + [span]
  {
    var k := |blocks| - 1;
    longer := blocks[..k] + [blocks[k] + [span]];
    StandsForMore(merged[k], blocks[k], span);
    FlatSnoc(blocks[..k], blocks[k] + [span]);
    assert Flat(blocks[..k]) + (blocks[k] + [span]) == Flat(blocks) + [span];
  }

  /** An ordered list is cut into runs, in order and without rest, and the merged
      list has one span for each. */
  lemma {:induction false} MergedStandForRuns(ordered: seq<Span>) returns (blocks: seq<seq<Span>>)
    ensures Flat(blocks) == ordered && StandFor(MergeOrdered(ordered), blocks)
  {
    if ordered == [] {
      blocks := [];
    } else {
      var rest, span := ordered[..|ordered| - 1], ordered[|ordered| - 1];
      var earlier := MergedStandForRuns(rest);
      assert ordered == rest + [span];
      var merged := MergeOrdered(rest);
      if merged != [] && Mergeable(merged[|merged| - 1], span) {
        blocks := LongerRun(merged, earlier, span);
      } else {
        OneMoreRun(merged, earlier, span);
        blocks := earlier + [[span]];
      }
    }
  }

  lemma BeforeIsOrder()
    ensures TotalPreorder(Before)
  {
  }

  lemma {:induction false} LatestSpan(ordered: seq<Span>) returns (last: Span)
    requires Sorted(ordered, Before)
    ensures forall span <- ordered :: Before(span, last)
  {
    last := if ordered == [] then Span("", 0, 0, Idle, "", Medium, 0, 0, 0, false) else ordered[|ordered| - 1];
  }

  /** Merging keeps the total number of events, covers every span it was given,
      and returns an ordered list in which no two neighbours could be merged. */
  lemma MergingIsSound(spans: seq<Span>)
    ensures var merged := Merged(spans);
            && Events(merged) == Events(ById(spans))
            && (forall span <- ById(spans) :: Covered(merged, span))
            && Sorted(merged, Before) && Settled(merged)
  {
    BeforeIsOrder();
    var kept := ById(spans);
    var ordered := Sort(kept, Before);
    SortSorts(kept, Before);
    EventsSort(kept);
    MergeKeepsEvents(ordered);
    forall span <- kept
      ensures Covered(Merged(spans), span)
    {
      SortMembers(kept, Before, span);
      MergeCovers(ordered, span);
    }
    var last := LatestSpan(ordered);
    MergeShape(ordered, last);
  }

  /** A settled list is left alone. */
  lemma {:induction false} MergeKeepsSettled(merged: seq<Span>)
    requires Settled(merged)
    ensures MergeOrdered(merged) == merged
  {
    if merged != [] {
      MergeKeepsSettled(merged[..|merged| - 1]);
      assert merged == merged[..|merged| - 1] + [merged[|merged| - 1]];
    }
  }

  lemma {:induction false} MergeKeepsIdsDistinct(ordered: seq<Span>)
    requires DistinctIds(ordered)
    ensures DistinctIds(MergeOrdered(ordered))
    ensures forall span <- MergeOrdered(ordered) :: exists i :: 0 <= i < |ordered| && ordered[i].id == span.id
  {
    if ordered != [] {
      var n := |ordered| - 1;
      var rest := ordered[..n];
      MergeKeepsIdsDistinct(rest);
      var merged, all := MergeOrdered(rest), MergeOrdered(ordered);
      forall span <- all
        ensures exists i :: 0 <= i < |ordered| && ordered[i].id == span.id
      {
        if span.id == ordered[n].id {
        } else {
          var earlier := if span in merged then span else merged[|merged| - 1];
          assert earlier in merged && earlier.id == span.id;
          var i :| 0 <= i < |rest| && rest[i].id == earlier.id;
          assert ordered[i].id == span.id;
        }
      }
      forall i, j | 0 <= i < j < |all|
        ensures all[i].id != all[j].id
      {
        assert merged == [] || merged[|merged| - 1] in merged;
        if j == |merged| {
          assert merged[i] in merged;
        }
      }
    }
  }

  lemma DistinctAfterSort(spans: seq<Span>)
    requires DistinctIds(spans)
    ensures DistinctIds(Sort(spans, Before))
  {
    BeforeIsOrder();
    SortSorts(spans, Before);
    var ordered := Sort(spans, Before);
    forall i, j | 0 <= i < j < |ordered|
      ensures ordered[i].id != ordered[j].id
    {
      if ordered[i].id == ordered[j].id {
        SortMembers(spans, Before, ordered[i]);
        SortMembers(spans, Before, ordered[j]);
        assert ordered[i] == ordered[j];
        CountedTwice(ordered, i, j);
        DistinctOnce(spans, ordered[i]);
      }
    }
  }

  lemma {:induction false} DistinctOnce(spans: seq<Span>, span: Span)
    requires DistinctIds(spans)
    ensures multiset(spans)[span] <= 1
  {
    if spans != [] {
      var n := |spans| - 1;
      DistinctOnce(spans[..n], span);
      assert spans == spans[..n] + [spans[n]];
      if spans[n] == span {
        assert span !in spans[..n];
      }
    }
  }

  /** Merging twice changes nothing more. */
  lemma MergingIsIdempotent(spans: seq<Span>)
    ensures Merged(Merged(spans)) == Merged(spans)
  {
    var merged := Merged(spans);
    MergingIsSound(spans);
    ByIdIsDistinct(spans);
    DistinctAfterSort(ById(spans));
    MergeKeepsIdsDistinct(Sort(ById(spans), Before));
    ByIdKeepsDistinct(merged);
    SortKeepsSorted(merged, Before);
    MergeKeepsSettled(merged);
  }
}
