/** What redaction collects, merges and counts, over the recognisers' own findings. */
module RedactionMeaning {
  import opened Basics
  import opened Redaction
  import Sorting

  // ---------------------------------------------------------------------------------------------
  // Collecting
  // ---------------------------------------------------------------------------------------------

  /** The findings of one entity type. */
  function Findings(kind: string, recognise: Recogniser): seq<(int, int)> {
    if recognise(kind).Some? then recognise(kind).value else []
  }

  /** The first type's findings come first, then those of the other types. */
  lemma {:induction false} SpansOfFirst(kind: string, kinds: seq<string>, recognise: Recogniser)
    ensures AllSpans([kind] + kinds, recognise) == Tagged(Findings(kind, recognise), kind) + AllSpans(kinds, recognise)
  {
    var first := Tagged(Findings(kind, recognise), kind);
    if kinds == [] {
      assert ([kind] + kinds)[..0] == [];
      assert AllSpans([], recognise) == [];
    } else {
      var n := |kinds| - 1;
      SpansOfFirst(kind, kinds[..n], recognise);
      assert ([kind] + kinds)[..n + 1] == [kind] + kinds[..n];
      Regroup(first, AllSpans(kinds[..n], recognise), Tagged(Findings(kinds[n], recognise), kinds[n]));
    }
  }

  predicate FoundAt(s: Span, kinds: seq<string>, recognise: Recogniser, i: nat) {
    i < |kinds| && s.kind == kinds[i] && (s.start, s.end) in Findings(kinds[i], recognise)
  }

  lemma SpansOfLast(kinds: seq<string>, recognise: Recogniser, s: Span)
    requires kinds != []
    ensures var n := |kinds| - 1;
            s in AllSpans(kinds, recognise) <==> s in AllSpans(kinds[..n], recognise) || FoundAt(s, kinds, recognise, n)
  {
    var n := |kinds| - 1;
    TaggedMembers(Findings(kinds[n], recognise), kinds[n], s);
  }

  lemma FoundEarlier(s: Span, kinds: seq<string>, recognise: Recogniser, i: nat)
    requires kinds != [] && i < |kinds| - 1
    ensures FoundAt(s, kinds, recognise, i) <==> FoundAt(s, kinds[..|kinds| - 1], recognise, i)
  {
  }

  /** The collected spans are the findings of the requested types, each under its own type. */
  lemma {:induction false} SpansAreFindings(kinds: seq<string>, recognise: Recogniser, s: Span)
    ensures s in AllSpans(kinds, recognise) <==> exists i: nat :: FoundAt(s, kinds, recognise, i)
  {
    if kinds != [] {
      var n := |kinds| - 1;
      SpansAreFindings(kinds[..n], recognise, s);
      SpansOfLast(kinds, recognise, s);
      if i: nat :| FoundAt(s, kinds[..n], recognise, i) {
        FoundEarlier(s, kinds, recognise, i);
      }
      if i: nat :| FoundAt(s, kinds, recognise, i) {
        if i < n {
          FoundEarlier(s, kinds, recognise, i);
        }
      }
    }
  }

  lemma TaggedMembers(found: seq<(int, int)>, kind: string, s: Span)
    ensures s in Tagged(found, kind) <==> s.kind == kind && (s.start, s.end) in found
  {
    if s.kind == kind && (s.start, s.end) in found {
      var k :| 0 <= k < |found| && found[k] == (s.start, s.end);
      assert Tagged(found, kind)[k] == s;
    }
  }

  /** Exactly the non-space characters that lie in a finding of a requested type become the mask. */
  lemma MaskedExactlyWhen(text: string, kinds: seq<string>, recognise: Recogniser, i: nat)
    requires i < |text|
    ensures var found := exists s: Span, k: nat :: FoundAt(s, kinds, recognise, k) && Covers(s, i);
            && |Masked(text, AllSpans(kinds, recognise))| == |text|
            && Masked(text, AllSpans(kinds, recognise))[i]
               == if found && !Text.IsSpace(Text.Python, text[i]) then '*' else text[i]
  {
    var all := AllSpans(kinds, recognise);
    if Covered(all, i) {
      var j :| 0 <= j < |all| && Covers(all[j], i);
      SpansAreFindings(kinds, recognise, all[j]);
      var k: nat :| FoundAt(all[j], kinds, recognise, k);
    }
    if s: Span, k: nat :| FoundAt(s, kinds, recognise, k) && Covers(s, i) {
      SpansAreFindings(kinds, recognise, s);
      var j :| 0 <= j < |all| && all[j] == s;
      assert Covers(all[j], i);
    }
  }

  // ---------------------------------------------------------------------------------------------
  // Merging
  // ---------------------------------------------------------------------------------------------

  /** The interval opens with the span at `j`: start and type are that span's, and all earlier spans end before it. */
  predicate Opens(sorted: seq<Span>, j: nat, m: Span) {
    && j < |sorted| && m.start == sorted[j].start && m.kind == sorted[j].kind
    && forall i | 0 <= i < j :: sorted[i].end < m.start
  }

  ghost predicate IsOpened(sorted: seq<Span>, m: Span) {
    exists j: nat :: Opens(sorted, j, m)
  }

  predicate Lies(s: Span, m: Span) {
    m.start <= s.start && s.end <= m.end
  }

  ghost predicate LiesInSome(s: Span, ms: seq<Span>) {
    exists k :: 0 <= k < |ms| && Lies(s, ms[k])
  }

  ghost predicate EndsWith(sorted: seq<Span>, end: int) {
    exists j :: 0 <= j < |sorted| && sorted[j].end == end
  }

  predicate Forward(spans: seq<Span>) {
    forall k | 0 <= k < |spans| :: spans[k].start <= spans[k].end
  }

  ghost predicate Explained(ms: seq<Span>, sorted: seq<Span>) {
    && (forall k {:trigger IsOpened(sorted, ms[k])} | 0 <= k < |ms| :: IsOpened(sorted, ms[k]) && EndsWith(sorted, ms[k].end))
    && (forall i {:trigger LiesInSome(sorted[i], ms)} | 0 <= i < |sorted| :: LiesInSome(sorted[i], ms))
    && (ms == [] <==> sorted == [])
    && (ms != [] ==> forall i | 0 <= i < |sorted| :: sorted[i].end <= ms[|ms| - 1].end)
  }

  lemma ExplainedMore(sorted: seq<Span>, m: Span, s: Span)
    ensures IsOpened(sorted, m) ==> IsOpened(sorted + [s], m)
    ensures EndsWith(sorted, m.end) ==> EndsWith(sorted + [s], m.end)
    ensures EndsWith(sorted + [s], s.end)
  {
    if IsOpened(sorted, m) {
      var j: nat :| Opens(sorted, j, m);
      assert Opens(sorted + [s], j, m);
    }
    if EndsWith(sorted, m.end) {
      var j :| 0 <= j < |sorted| && sorted[j].end == m.end;
      assert (sorted + [s])[j].end == m.end;
    }
    assert (sorted + [s])[|sorted|] == s;
  }

  lemma AbsorbOpens(ms: seq<Span>, before: seq<Span>, s: Span)
    requires Explained(ms, before) && (before != [] ==> Before(before[|before| - 1], s))
    ensures var r := Absorb(ms, s);
            forall k | 0 <= k < |r| :: IsOpened(before + [s], r[k]) && EndsWith(before + [s], r[k].end)
  {
    var r, n := Absorb(ms, s), |ms| - 1;
    forall k | 0 <= k < |r|
      ensures IsOpened(before + [s], r[k]) && EndsWith(before + [s], r[k].end)
    {
      ExplainedMore(before, r[k], s);
      if ms == [] || k == |ms| {
        assert Opens(before + [s], |before|, s);
      } else if k == n {
        assert IsOpened(before, ms[n]);
        var j: nat :| Opens(before, j, ms[n]);
        assert Opens(before, j, r[n]);
      }
    }
  }

  /** Absorbing a span loses nothing that lay in an interval. */
  lemma AbsorbWidens(ms: seq<Span>, s: Span, t: Span)
    requires LiesInSome(t, ms)
    ensures LiesInSome(t, Absorb(ms, s))
  {
    var k :| 0 <= k < |ms| && Lies(t, ms[k]);
    assert Lies(t, Absorb(ms, s)[k]);
  }

  lemma AbsorbTakes(ms: seq<Span>, s: Span)
    requires s.start <= s.end && (ms != [] ==> ms[|ms| - 1].start <= s.start)
    ensures var r := Absorb(ms, s);
            && r != [] && LiesInSome(s, r) && s.end <= r[|r| - 1].end
            && (ms != [] ==> ms[|ms| - 1].end <= r[|r| - 1].end)
  {
    var r := Absorb(ms, s);
    assert Lies(s, r[|r| - 1]);
  }

  lemma AbsorbHolds(ms: seq<Span>, before: seq<Span>, s: Span)
    requires Explained(ms, before) && s.start <= s.end && (ms != [] ==> ms[|ms| - 1].start <= s.start)
    ensures var r := Absorb(ms, s);
            && r != []
            && (forall i | 0 <= i <= |before| :: LiesInSome((before + [s])[i], r))
            && forall i | 0 <= i <= |before| :: (before + [s])[i].end <= r[|r| - 1].end
  {
    var r, sorted := Absorb(ms, s), before + [s];
    AbsorbTakes(ms, s);
    forall i | 0 <= i <= |before|
      ensures LiesInSome(sorted[i], r) && sorted[i].end <= r[|r| - 1].end
    {
      if i < |before| {
        assert sorted[i] == before[i];
        AbsorbWidens(ms, s, before[i]);
      }
    }
  }

  lemma AbsorbExplained(ms: seq<Span>, before: seq<Span>, s: Span)
    requires Explained(ms, before) && s.start <= s.end && (before != [] ==> Before(before[|before| - 1], s))
    requires ms != [] ==> ms[|ms| - 1].start <= s.start
    ensures Explained(Absorb(ms, s), before + [s])
  {
    AbsorbOpens(ms, before, s);
    AbsorbHolds(ms, before, s);
  }

  lemma {:induction false} MergedExplained(sorted: seq<Span>)
    requires Sorting.Sorted(sorted, Before) && Forward(sorted)
    ensures Explained(Merged(sorted), sorted)
  {
    if sorted != [] {
      var n := |sorted| - 1;
      var before, ms := sorted[..n], Merged(sorted[..n]);
      MergedExplained(before);
      assert ms != [] ==> n > 0 && ms[|ms| - 1].start <= sorted[n - 1].start by {
        MergedFacts(before);
      }
      assert n > 0 ==> before[n - 1] == sorted[n - 1] && Before(sorted[n - 1], sorted[n]);
      AbsorbExplained(ms, before, sorted[n]);
      assert sorted == before + [sorted[n]];
    }
  }

  /** The span that gives an interval its start and its type: of the spans that start there the longest,
      and of several such the one found first. */
  predicate FirstLongest(spans: seq<Span>, j: nat) {
    && j < |spans|
    && (forall i | 0 <= i < |spans| && spans[i].start == spans[j].start :: spans[i].end <= spans[j].end)
    && forall i | 0 <= i < j && spans[i].start == spans[j].start :: spans[i].end < spans[j].end
  }

  /** The span that opens an interval, found in the spans as they were collected. */
  lemma OpenerIn(spans: seq<Span>, j: nat, m: Span) returns (i: nat)
    requires Opens(Sorting.Sort(spans, Before), j, m) && Forward(spans)
    ensures FirstLongest(spans, i) && m.start == spans[i].start && m.kind == spans[i].kind
  {
    var sorted := Sorting.Sort(spans, Before);
    var x := sorted[j];
    BeforeIsOrder();
    Sorting.SortSorts(spans, Before);
    Sorting.SortIsStable(spans, Before, x);
    Sorting.SortMembers(spans, Before, x);
    forall k | 0 <= k < j
      ensures !(Before(x, sorted[k]) && Before(sorted[k], x))
    {
      Sorting.SortMembers(spans, Before, sorted[k]);
    }
    Sorting.FirstTie(sorted, Before, x, j);
    i := Sorting.PlaceOfFirstTie(spans, Before, x);
    forall k | 0 <= k < |spans| && spans[k].start == spans[i].start
      ensures spans[k].end <= spans[i].end && (k < i ==> spans[k].end < spans[i].end)
    {
      Sorting.SortMembers(spans, Before, spans[k]);
      var p :| 0 <= p < |sorted| && sorted[p] == spans[k];
      assert p >= j;
      assert p == j || Before(x, sorted[p]);
    }
  }

  ghost predicate IsNamed(spans: seq<Span>, m: Span) {
    exists i: nat :: FirstLongest(spans, i) && m.start == spans[i].start && m.kind == spans[i].kind
  }

  /** No span that starts before the interval reaches it. */
  predicate IsReachedByNone(spans: seq<Span>, m: Span) {
    forall i | 0 <= i < |spans| && spans[i].start < m.start :: spans[i].end < m.start
  }

  lemma NoneReaches(spans: seq<Span>, j: nat, m: Span)
    requires Opens(Sorting.Sort(spans, Before), j, m)
    ensures IsReachedByNone(spans, m)
  {
    var sorted := Sorting.Sort(spans, Before);
    BeforeIsOrder();
    Sorting.SortSorts(spans, Before);
    forall i | 0 <= i < |spans|
      ensures spans[i].start < m.start ==> spans[i].end < m.start
    {
      Sorting.SortMembers(spans, Before, spans[i]);
      var p :| 0 <= p < |sorted| && sorted[p] == spans[i];
      assert p <= j || Before(sorted[j], sorted[p]);
    }
  }

  lemma IntervalIsNamed(spans: seq<Span>, m: Span)
    requires Forward(spans) && IsOpened(Sorting.Sort(spans, Before), m) && EndsWith(Sorting.Sort(spans, Before), m.end)
    ensures IsNamed(spans, m) && EndsWith(spans, m.end) && IsReachedByNone(spans, m)
  {
    var sorted := Sorting.Sort(spans, Before);
    var j: nat :| Opens(sorted, j, m);
    var opener := OpenerIn(spans, j, m);
    NoneReaches(spans, j, m);
    var e :| 0 <= e < |sorted| && sorted[e].end == m.end;
    Sorting.SortMembers(spans, Before, sorted[e]);
  }

  /** Each merged interval has the start and type of the first longest span that starts there, and the end of some
      span; no span that starts earlier reaches it; and every span lies inside an interval. */
  lemma IntervalsAreNamed(spans: seq<Span>)
    requires Forward(spans)
    ensures var ms := Merged(Sorting.Sort(spans, Before));
            && (forall m | m in ms :: IsNamed(spans, m) && EndsWith(spans, m.end) && IsReachedByNone(spans, m))
            && forall s | s in spans :: LiesInSome(s, ms)
  {
    var sorted := Sorting.Sort(spans, Before);
    var ms := Merged(sorted);
    BeforeIsOrder();
    Sorting.SortSorts(spans, Before);
    SortedForward(spans);
    MergedExplained(sorted);
    forall m | m in ms
      ensures IsNamed(spans, m) && EndsWith(spans, m.end) && IsReachedByNone(spans, m)
    {
      IntervalIsNamed(spans, m);
    }
    forall s | s in spans
      ensures LiesInSome(s, ms)
    {
      Sorting.SortMembers(spans, Before, s);
    }
  }

  lemma SortedForward(spans: seq<Span>)
    requires Forward(spans)
    ensures Forward(Sorting.Sort(spans, Before))
  {
    var sorted := Sorting.Sort(spans, Before);
    forall k | 0 <= k < |sorted|
      ensures sorted[k].start <= sorted[k].end
    {
      Sorting.SortMembers(spans, Before, sorted[k]);
    }
  }

  // ---------------------------------------------------------------------------------------------
  // Counting
  // ---------------------------------------------------------------------------------------------

  function Places(ms: seq<Span>, kind: string): set<nat> {
    set k: nat | k < |ms| && ms[k].kind == kind
  }

  lemma PlacesSnoc(ms: seq<Span>, kind: string)
    requires ms != []
    ensures var n := |ms| - 1;
            n !in Places(ms[..n], kind) && Places(ms, kind) == Places(ms[..n], kind) + (if ms[n].kind == kind then {n} else {})
  {
  }

  /** A type's count is the number of intervals of that type. */
  lemma {:induction false} CountMeans(ms: seq<Span>, kind: string)
    ensures CountKind(ms, kind) == |Places(ms, kind)|
  {
    if ms != [] {
      CountMeans(ms[..|ms| - 1], kind);
      PlacesSnoc(ms, kind);
    }
  }
}
