/** Redaction: merging of recognised spans and masking in place. */
module Redaction {
  import opened Basics
  import opened Text
  import Sorting
  import Counter

  const MASK_CHAR := '*'

  datatype Span = Span(start: int, end: int, kind: string)

  predicate Covers(s: Span, i: int) {
    s.start <= i < s.end
  }

  predicate Covered(spans: seq<Span>, i: int) {
    exists k :: 0 <= k < |spans| && Covers(spans[k], i)
  }

  predicate InBounds(spans: seq<Span>, n: nat) {
    forall k | 0 <= k < |spans| :: 0 <= spans[k].start && spans[k].end <= n
  }

  /** Earlier start first, then the longer span. */
  predicate Before(a: Span, b: Span) {
    a.start < b.start || (a.start == b.start && a.end - a.start >= b.end - b.start)
  }

  // ---------------------------------------------------------------------------------------------
  // Merging
  // ---------------------------------------------------------------------------------------------

  /** Extend the last interval when the span starts inside or right at its end; else append. */
  function Absorb(merged: seq<Span>, s: Span): seq<Span> {
    if merged == [] then [s]
    else
      var n := |merged| - 1;
      var last := merged[n];
      if s.start <= last.end then merged[n := Span(last.start, if last.end > s.end then last.end else s.end, last.kind)]
      else merged + [s]
  }

  function Merged(sorted: seq<Span>): seq<Span> {
    if sorted == [] then [] else Absorb(Merged(sorted[..|sorted| - 1]), sorted[|sorted| - 1])
  }

  method MergeSpans(spans: seq<Span>) returns (merged: seq<Span>)
    ensures merged == Merged(Sorting.Sort(spans, Before))
  {
    if spans == [] {
      return [];
    }
    var sorted := Sorting.Sort(spans, Before);
    merged := [sorted[0]];
    assert sorted[..1] == [sorted[0]];
    for i := 1 to |sorted|
      invariant merged == Merged(sorted[..i]) && merged != []
    {
      assert sorted[..i + 1][..i] == sorted[..i];
      var last := merged[|merged| - 1];
      if sorted[i].start <= last.end {
        var end := if last.end > sorted[i].end then last.end else sorted[i].end;
        merged := merged[|merged| - 1 := Span(last.start, end, last.kind)];
      } else {
        merged := merged + [sorted[i]];
      }
    }
    assert sorted[..|sorted|] == sorted;
  }

  /** A gap of at least one position between any two intervals. */
  predicate Separated(m: seq<Span>) {
    forall i, j | 0 <= i < j < |m| :: m[i].end < m[j].start && m[i].start <= m[j].start
  }

  lemma BeforeIsOrder()
    ensures Sorting.TotalPreorder(Before)
  {
  }

  lemma CoveredSnoc(spans: seq<Span>, i: int)
    requires spans != []
    ensures Covered(spans, i) <==> Covered(spans[..|spans| - 1], i) || Covers(spans[|spans| - 1], i)
  {
    var n := |spans| - 1;
    if Covered(spans[..n], i) {
      var k :| 0 <= k < n && Covers(spans[..n][k], i);
      assert Covers(spans[k], i);
    }
    if Covered(spans, i) && !Covers(spans[n], i) {
      var k :| 0 <= k < |spans| && Covers(spans[k], i);
      assert Covers(spans[..n][k], i);
    }
  }

  lemma AbsorbCovers(m: seq<Span>, s: Span, i: int)
    requires m != [] ==> m[|m| - 1].start <= s.start
    ensures Covered(Absorb(m, s), i) <==> Covered(m, i) || Covers(s, i)
  {
    var r := Absorb(m, s);
    CoveredSnoc(r, i);
    if m != [] {
      CoveredSnoc(m, i);
      if |r| == |m| {
        assert r[..|m| - 1] == m[..|m| - 1];
      } else {
        assert r[..|m|] == m;
      }
    }
  }

  lemma AbsorbSeparates(m: seq<Span>, s: Span)
    requires Separated(m) && (m != [] ==> m[|m| - 1].start <= s.start)
    ensures var r := Absorb(m, s);
            Separated(r) && r != [] && r[|r| - 1].start <= s.start
  {
  }

  /** Merging sorted spans gives separated intervals over the same positions. */
  lemma {:induction false} MergedFacts(sorted: seq<Span>)
    requires Sorting.Sorted(sorted, Before)
    ensures var m := Merged(sorted);
            && Separated(m)
            && (m == [] <==> sorted == [])
            && (m != [] ==> m[|m| - 1].start <= sorted[|sorted| - 1].start)
    ensures forall i :: Covered(Merged(sorted), i) <==> Covered(sorted, i)
  {
    if sorted != [] {
      var n := |sorted| - 1;
      var before := sorted[..n];
      MergedFacts(before);
      if n > 0 {
        assert Before(sorted[n - 1], sorted[n]);
        assert before[n - 1] == sorted[n - 1];
      }
      AbsorbSeparates(Merged(before), sorted[n]);
      forall i
        ensures Covered(Merged(sorted), i) <==> Covered(sorted, i)
      {
        AbsorbCovers(Merged(before), sorted[n], i);
        CoveredSnoc(sorted, i);
      }
    }
  }

  lemma CoveredPermutes(a: seq<Span>, b: seq<Span>, i: int)
    requires (forall s | s in a :: s in b) && Covered(a, i)
    ensures Covered(b, i)
  {
    var k :| 0 <= k < |a| && Covers(a[k], i);
    assert a[k] in b;
    var j :| 0 <= j < |b| && b[j] == a[k];
    assert Covers(b[j], i);
  }

  /** The merged spans of any input are separated and cover exactly the positions of the input. */
  lemma MergeSpansFacts(spans: seq<Span>)
    ensures var m := Merged(Sorting.Sort(spans, Before));
            && Separated(m)
            && (forall i :: Covered(m, i) <==> Covered(spans, i))
  {
    var sorted := Sorting.Sort(spans, Before);
    BeforeIsOrder();
    Sorting.SortSorts(spans, Before);
    MergedFacts(sorted);
    forall i
      ensures Covered(sorted, i) <==> Covered(spans, i)
    {
      forall s
        ensures s in sorted <==> s in spans
      {
        Sorting.SortMembers(spans, Before, s);
      }
      if Covered(sorted, i) {
        CoveredPermutes(sorted, spans, i);
      }
      if Covered(spans, i) {
        CoveredPermutes(spans, sorted, i);
      }
    }
  }

  predicate NonEmpty(m: seq<Span>) {
    forall k | 0 <= k < |m| :: m[k].start < m[k].end
  }

  predicate SameIntervals(m: seq<Span>, n: seq<Span>) {
    |m| == |n| && forall k | 0 <= k < |m| :: m[k].start == n[k].start && m[k].end == n[k].end
  }

  lemma CoveredTail(m: seq<Span>, i: int)
    requires Separated(m) && NonEmpty(m) && m != []
    ensures Covered(m[1..], i) <==> Covered(m, i) && i >= m[0].end
  {
    if Covered(m[1..], i) {
      var k :| 0 <= k < |m[1..]| && Covers(m[1..][k], i);
      assert Covers(m[k + 1], i);
    }
    if Covered(m, i) && i >= m[0].end {
      var k :| 0 <= k < |m| && Covers(m[k], i);
      assert Covers(m[1..][k - 1], i);
    }
  }

  lemma FirstBound(m: seq<Span>, i: int)
    requires Separated(m) && NonEmpty(m) && m != []
    ensures Covered(m, i) ==> m[0].start <= i && i != m[0].end
    ensures m[0].start <= i < m[0].end ==> Covered(m, i)
  {
    assert Covers(m[0], i) ==> Covered(m, i);
  }

  /** Non-empty separated intervals are determined by the positions they cover. */
  lemma {:induction false} IntervalsAreCanonical(m: seq<Span>, n: seq<Span>)
    requires Separated(m) && NonEmpty(m) && Separated(n) && NonEmpty(n)
    requires forall i :: Covered(m, i) <==> Covered(n, i)
    ensures SameIntervals(m, n)
    decreases |m|
  {
    if m == [] {
      if n != [] {
        FirstBound(n, n[0].start);
      }
    } else if n == [] {
      FirstBound(m, m[0].start);
    } else {
      FirstBound(m, m[0].start);
      FirstBound(m, n[0].start);
      FirstBound(n, m[0].start);
      FirstBound(n, n[0].start);
      FirstBound(m, m[0].end);
      FirstBound(m, n[0].end);
      FirstBound(n, m[0].end);
      FirstBound(n, n[0].end);
      assert m[0].start == n[0].start && m[0].end == n[0].end;
      forall i
        ensures Covered(m[1..], i) <==> Covered(n[1..], i)
      {
        CoveredTail(m, i);
        CoveredTail(n, i);
      }
      IntervalsAreCanonical(m[1..], n[1..]);
      forall k | 0 < k < |m|
        ensures m[k].start == n[k].start && m[k].end == n[k].end
      {
        assert m[k] == m[1..][k - 1] && n[k] == n[1..][k - 1];
      }
    }
  }

  lemma {:induction false} MergedNonEmpty(sorted: seq<Span>)
    requires NonEmpty(sorted)
    ensures NonEmpty(Merged(sorted))
  {
    if sorted != [] {
      MergedNonEmpty(sorted[..|sorted| - 1]);
    }
  }

  /** Two inputs of non-empty spans that cover the same positions merge into the same intervals. */
  lemma CoverageDecidesMerge(a: seq<Span>, b: seq<Span>)
    requires NonEmpty(a) && NonEmpty(b) && forall i :: Covered(a, i) <==> Covered(b, i)
    ensures SameIntervals(Merged(Sorting.Sort(a, Before)), Merged(Sorting.Sort(b, Before)))
  {
    MergeSpansFacts(a);
    MergeSpansFacts(b);
    SortedNonEmpty(a);
    SortedNonEmpty(b);
    IntervalsAreCanonical(Merged(Sorting.Sort(a, Before)), Merged(Sorting.Sort(b, Before)));
  }

  lemma SortedNonEmpty(a: seq<Span>)
    requires NonEmpty(a)
    ensures NonEmpty(Merged(Sorting.Sort(a, Before)))
  {
    var sorted := Sorting.Sort(a, Before);
    forall k | 0 <= k < |sorted|
      ensures sorted[k].start < sorted[k].end
    {
      Sorting.SortMembers(a, Before, sorted[k]);
    }
    MergedNonEmpty(sorted);
  }

  function Positions(spans: seq<Span>): (r: seq<(int, int)>)
    ensures |r| == |spans| && forall k | 0 <= k < |r| :: r[k] == (spans[k].start, spans[k].end)
  {
    seq(|spans|, k requires 0 <= k < |spans| => (spans[k].start, spans[k].end))
  }

  lemma MultisetWithout<T>(s: seq<T>, j: nat)
    requires j < |s|
    ensures multiset(s[..j] + s[j + 1..]) == multiset(s) - multiset{s[j]} && s[j] in multiset(s)
  {
    assert s == s[..j] + [s[j]] + s[j + 1..];
  }

  lemma TailsPermute<T>(s: seq<T>, t: seq<T>)
    requires s != [] && t != [] && s[0] == t[0] && multiset(s) == multiset(t)
    ensures multiset(s[1..]) == multiset(t[1..])
  {
    assert s == [s[0]] + s[1..] && t == [t[0]] + t[1..];
    assert multiset(s[1..]) == multiset(s) - multiset{s[0]};
  }

  lemma PositionsWithout(s: seq<Span>, j: nat)
    requires j < |s|
    ensures multiset(Positions(s)) == multiset(Positions(s[..j] + s[j + 1..])) + multiset{(s[j].start, s[j].end)}
  {
    var p := Positions(s);
    MultisetWithout(p, j);
    assert p[..j] + p[j + 1..] == Positions(s[..j] + s[j + 1..]);
  }

  lemma RestPermutes<T>(a: seq<T>, b: seq<T>, j: nat)
    requires a != [] && multiset(a) == multiset(b) && j < |b| && b[j] == a[0]
    ensures multiset(b[..j] + b[j + 1..]) == multiset(a[1..])
  {
    MultisetWithout(b, j);
    assert a == [a[0]] + a[1..];
  }

  /** Takes the first span of `a` out of `b`. */
  lemma MatchHead(a: seq<Span>, b: seq<Span>) returns (rest: seq<Span>)
    requires a != [] && multiset(a) == multiset(b)
    ensures multiset(rest) == multiset(a[1..])
    ensures multiset(Positions(b)) == multiset(Positions(rest)) + multiset{(a[0].start, a[0].end)}
  {
    assert a[0] in multiset(b);
    var j :| 0 <= j < |b| && b[j] == a[0];
    rest := b[..j] + b[j + 1..];
    RestPermutes(a, b, j);
    PositionsWithout(b, j);
  }

  lemma {:induction false} PositionsPermute(a: seq<Span>, b: seq<Span>)
    requires multiset(a) == multiset(b)
    ensures multiset(Positions(a)) == multiset(Positions(b))
    decreases |a|
  {
    if a == [] {
      assert |multiset(b)| == 0;
    } else {
      var rest := MatchHead(a, b);
      PositionsPermute(a[1..], rest);
      assert Positions(a) == [(a[0].start, a[0].end)] + Positions(a[1..]);
    }
  }

  lemma SortedHeadsEqual(x: seq<Span>, y: seq<Span>)
    requires x != [] && y != []
    requires Sorting.Sorted(x, Before) && Sorting.Sorted(y, Before) && multiset(Positions(x)) == multiset(Positions(y))
    ensures Positions(x)[0] == Positions(y)[0]
  {
    var p, q := Positions(x), Positions(y);
    assert p[0] in multiset(q) && q[0] in multiset(p);
    var j :| 0 <= j < |q| && q[j] == p[0];
    var i :| 0 <= i < |p| && p[i] == q[0];
    assert i == 0 || Before(x[0], x[i]);
    assert j == 0 || Before(y[0], y[j]);
  }

  /** The sort key determines start and end, so sorting leaves no choice between them. */
  lemma {:induction false} SortedPositionsEqual(x: seq<Span>, y: seq<Span>)
    requires Sorting.Sorted(x, Before) && Sorting.Sorted(y, Before) && multiset(Positions(x)) == multiset(Positions(y))
    ensures Positions(x) == Positions(y)
    decreases |x|
  {
    var p, q := Positions(x), Positions(y);
    assert |x| == |y| by {
      assert |multiset(p)| == |multiset(q)|;
    }
    if x != [] {
      SortedHeadsEqual(x, y);
      TailsPermute(p, q);
      assert Positions(x[1..]) == p[1..] && Positions(y[1..]) == q[1..];
      SortedPositionsEqual(x[1..], y[1..]);
      assert p == [p[0]] + p[1..] && q == [q[0]] + q[1..];
    }
  }

  lemma {:induction false} MergedPositionsEqual(x: seq<Span>, y: seq<Span>)
    requires SameIntervals(x, y)
    ensures SameIntervals(Merged(x), Merged(y))
    decreases |x|
  {
    if x != [] {
      MergedPositionsEqual(x[..|x| - 1], y[..|y| - 1]);
    }
  }

  /** Two orders of the same spans merge into the same intervals, spans of no length included. */
  lemma MergeIgnoresOrder(a: seq<Span>, b: seq<Span>)
    requires multiset(a) == multiset(b)
    ensures SameIntervals(Merged(Sorting.Sort(a, Before)), Merged(Sorting.Sort(b, Before)))
  {
    var x, y := Sorting.Sort(a, Before), Sorting.Sort(b, Before);
    BeforeIsOrder();
    Sorting.SortSorts(a, Before);
    Sorting.SortSorts(b, Before);
    PositionsPermute(x, y);
    SortedPositionsEqual(x, y);
    assert forall k | 0 <= k < |x| :: Positions(x)[k] == Positions(y)[k];
    MergedPositionsEqual(x, y);
  }

  // ---------------------------------------------------------------------------------------------
  // Masking
  // ---------------------------------------------------------------------------------------------

  /** The pointwise definition: a character is masked exactly when it is no space and lies in a span. */
  function Masked(text: string, spans: seq<Span>): string {
    seq(|text|, i requires 0 <= i < |text| => if Covered(spans, i) && !IsSpace(Python, text[i]) then MASK_CHAR else text[i])
  }

  lemma MaskedDependsOnCoverage(text: string, a: seq<Span>, b: seq<Span>)
    requires forall i :: Covered(a, i) <==> Covered(b, i)
    ensures Masked(text, a) == Masked(text, b)
  {
  }

  /** Masking in place, one span after another. */
  method MaskText(text: string, spans: seq<Span>) returns (masked: string)
    requires InBounds(spans, |text|)
    ensures masked == Masked(text, spans)
  {
    if spans == [] {
      assert Masked(text, spans) == text;
      return text;
    }
    var chars := new char[|text|](i requires 0 <= i < |text| => text[i]);
    for k := 0 to |spans|
      invariant chars[..] == Masked(text, spans[..k])
    {
      MaskSpan(chars, text, spans[..k], spans[k]);
      assert spans[..k + 1] == spans[..k] + [spans[k]];
    }
    assert spans[..|spans|] == spans;
    masked := chars[..];
  }

  /** The inner loop over one span. */
  method MaskSpan(chars: array<char>, ghost text: string, ghost done: seq<Span>, s: Span)
    requires chars[..] == Masked(text, done) && 0 <= s.start && s.end <= |text|
    modifies chars
    ensures chars[..] == Masked(text, done + [s])
  {
    ghost var before := Masked(text, done);
    for index := s.start to (if s.end < s.start then s.start else s.end)
      invariant chars.Length == |text|
      invariant forall i | 0 <= i < |text| ::
        chars[i] == if s.start <= i < index && !IsSpace(Python, before[i]) then MASK_CHAR else before[i]
    {
      if !IsSpace(Python, chars[index]) {
        chars[index] := MASK_CHAR;
      }
    }
    forall i | 0 <= i < |text|
      ensures chars[i] == Masked(text, done + [s])[i]
    {
      CoveredSnoc(done + [s], i);
      assert (done + [s])[..|done|] == done;
    }
  }

  // ---------------------------------------------------------------------------------------------
  // The whole redaction
  // ---------------------------------------------------------------------------------------------

  function CountKind(spans: seq<Span>, kind: string): nat {
    if spans == [] then 0
    else CountKind(spans[..|spans| - 1], kind) + (if spans[|spans| - 1].kind == kind then 1 else 0)
  }

  datatype Redaction = Redaction(text: string, counts: map<string, nat>, spanCount: nat)

  type Recogniser = string -> Option<seq<(int, int)>>

  function Tagged(found: seq<(int, int)>, kind: string): (r: seq<Span>)
    ensures |r| == |found| && forall k | 0 <= k < |r| :: r[k] == Span(found[k].0, found[k].1, kind)
  {
    seq(|found|, k requires 0 <= k < |found| => Span(found[k].0, found[k].1, kind))
  }

  function AllSpans(kinds: seq<string>, recognise: Recogniser): seq<Span> {
    if kinds == [] then []
    else
      var last := kinds[|kinds| - 1];
      AllSpans(kinds[..|kinds| - 1], recognise) + (match recognise(last) case Some(found) => Tagged(found, last) case None => [])
  }

  /** The recogniser's promise: spans lie inside the text. */
  predicate FindsInside(recognise: Recogniser, kinds: seq<string>, n: nat) {
    forall i | 0 <= i < |kinds| && recognise(kinds[i]).Some? ::
      forall k | 0 <= k < |recognise(kinds[i]).value| ::
        0 <= recognise(kinds[i]).value[k].0 && recognise(kinds[i]).value[k].1 <= n
  }

  /** The recognition loop; an unknown entity type stops it. */
  method CollectSpans(kinds: seq<string>, recognise: Recogniser, ghost n: nat) returns (r: Option<seq<Span>>)
    requires FindsInside(recognise, kinds, n)
    ensures r.None? <==> exists i :: 0 <= i < |kinds| && recognise(kinds[i]).None?
    ensures r.Some? ==> r.value == AllSpans(kinds, recognise) && InBounds(r.value, n)
  {
    var spans := [];
    for i := 0 to |kinds|
      invariant spans == AllSpans(kinds[..i], recognise) && InBounds(spans, n)
      invariant forall j | 0 <= j < i :: recognise(kinds[j]).Some?
    {
      assert kinds[..i + 1][..i] == kinds[..i];
      var found := recognise(kinds[i]);
      if found.None? {
        return None;
      }
      spans := spans + Tagged(found.value, kinds[i]);
    }
    assert kinds[..|kinds|] == kinds;
    return Some(spans);
  }

  /** The counting loop over the merged spans. */
  method CountKinds(merged: seq<Span>) returns (counts: map<string, nat>)
    ensures Counter.Total(counts) == |merged|
    ensures forall kind :: Counter.Get(counts, kind) == CountKind(merged, kind)
  {
    counts := map[];
    for i := 0 to |merged|
      invariant Counter.Total(counts) == i
      invariant forall kind :: Counter.Get(counts, kind) == CountKind(merged[..i], kind)
    {
      assert merged[..i + 1][..i] == merged[..i];
      Counter.TotalAdd(counts, merged[i].kind, 1);
      counts := Counter.Add(counts, merged[i].kind, 1);
    }
    assert merged[..|merged|] == merged;
  }

  /** An unknown entity type is refused; otherwise the text is masked over all recognised spans, and the
      merged spans are counted by type. */
  method RedactText(text: string, kinds: seq<string>, recognise: Recogniser) returns (r: Option<Redaction>)
    requires FindsInside(recognise, kinds, |text|)
    ensures r.None? <==> exists i :: 0 <= i < |kinds| && recognise(kinds[i]).None?
    ensures r.Some? ==> r.value.text == Masked(text, AllSpans(kinds, recognise))
    ensures r.Some? ==> Counter.Total(r.value.counts) == r.value.spanCount
    ensures r.Some? ==>
              var merged := Merged(Sorting.Sort(AllSpans(kinds, recognise), Before));
              r.value.spanCount == |merged| && forall kind :: Counter.Get(r.value.counts, kind) == CountKind(merged, kind)
  {
    var found := CollectSpans(kinds, recognise, |text|);
    if found.None? {
      return None;
    }
    var spans := found.value;
    var merged := MergeSpans(spans);
    MergeSpansFacts(spans);
    MergedInBounds(spans, |text|);
    var masked := MaskText(text, merged);
    MaskedDependsOnCoverage(text, merged, spans);
    var counts := CountKinds(merged);
    return Some(Redaction(masked, counts, |merged|));
  }

  lemma {:induction false} MergedStaysInBounds(sorted: seq<Span>, n: nat)
    requires InBounds(sorted, n)
    ensures InBounds(Merged(sorted), n)
  {
    if sorted != [] {
      MergedStaysInBounds(sorted[..|sorted| - 1], n);
    }
  }

  lemma MergedInBounds(spans: seq<Span>, n: nat)
    requires InBounds(spans, n)
    ensures InBounds(Merged(Sorting.Sort(spans, Before)), n)
  {
    var sorted := Sorting.Sort(spans, Before);
    forall k | 0 <= k < |sorted|
      ensures 0 <= sorted[k].start && sorted[k].end <= n
    {
      Sorting.SortMembers(spans, Before, sorted[k]);
    }
    MergedStaysInBounds(sorted, n);
  }
}
