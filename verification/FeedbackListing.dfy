/** Listing of the suggestions of a template version, with exact accounting of every reviewed edit. */
module FeedbackListing {
  import opened Basics
  import opened Results
  import opened Feedback
  import Buckets
  import Counter
  import Sorting

  /** A stored result with the readable text of its document, if there is any. */
  datatype Row = Row(id: nat, text: Option<string>, fields: seq<ExtractedResult>, reviewedAt: Option<int>)

  datatype EditRef = EditRef(result: nat, field: string)

  datatype Tally = Tally(skips: map<SkipReason, nat>, grouped: seq<Suggestion>)

  datatype Diagnostics = Diagnostics(
    reviewedEdits: nat, generated: nat, dismissed: nat, visible: nat, skips: map<SkipReason, nat>)

  // ---------------------------------------------------------------------------------------------
  // Orders
  // ---------------------------------------------------------------------------------------------

  predicate TextBefore(a: string, b: string) {
    a == "" || (b != "" && (a[0] < b[0] || (a[0] == b[0] && TextBefore(a[1..], b[1..]))))
  }

  function StartKey(f: ExtractedResult): int {
    if f.charStart.Some? then f.charStart.value else 1_000_000_000
  }

  /** Document order: by start, ungrounded fields last, then by name. */
  predicate SpanOrder(f: ExtractedResult, g: ExtractedResult) {
    StartKey(f) < StartKey(g) || (StartKey(f) == StartKey(g) && TextBefore(f.name, g.name))
  }

  /** Most frequent first, then by review time and key. Times compare as their text does. */
  predicate DisplayOrder(s: Suggestion, t: Suggestion) {
    || s.occurrences > t.occurrences
    || (s.occurrences == t.occurrences && s.lastReviewed.None? && t.lastReviewed.Some?)
    || (s.occurrences == t.occurrences && s.lastReviewed.Some? && t.lastReviewed.Some?
        && s.lastReviewed.value < t.lastReviewed.value)
    || (s.occurrences == t.occurrences && s.lastReviewed == t.lastReviewed && TextBefore(s.key, t.key))
  }

  lemma {:induction false} TextBeforeTotal(a: string, b: string)
    ensures TextBefore(a, b) || TextBefore(b, a)
  {
    if a != "" && b != "" {
      TextBeforeTotal(a[1..], b[1..]);
    }
  }

  lemma {:induction false} TextBeforeTransitive(a: string, b: string, c: string)
    requires TextBefore(a, b) && TextBefore(b, c)
    ensures TextBefore(a, c)
  {
    if a != "" && a[0] == b[0] == c[0] {
      TextBeforeTransitive(a[1..], b[1..], c[1..]);
    }
  }

  lemma SpanOrderIsOrder()
    ensures Sorting.TotalPreorder(SpanOrder)
  {
    forall f, g
      ensures SpanOrder(f, g) || SpanOrder(g, f)
    {
      TextBeforeTotal(f.name, g.name);
    }
    forall f, g, h | SpanOrder(f, g) && SpanOrder(g, h)
      ensures SpanOrder(f, h)
    {
      if StartKey(f) == StartKey(g) == StartKey(h) {
        TextBeforeTransitive(f.name, g.name, h.name);
      }
    }
  }

  lemma DisplayOrderTransitive(s: Suggestion, t: Suggestion, u: Suggestion)
    requires DisplayOrder(s, t) && DisplayOrder(t, u)
    ensures DisplayOrder(s, u)
  {
    if s.lastReviewed == t.lastReviewed == u.lastReviewed && s.occurrences == t.occurrences == u.occurrences {
      TextBeforeTransitive(s.key, t.key, u.key);
    }
  }

  lemma DisplayOrderIsOrder()
    ensures Sorting.TotalPreorder(DisplayOrder)
  {
    forall s, t
      ensures DisplayOrder(s, t) || DisplayOrder(t, s)
    {
      TextBeforeTotal(s.key, t.key);
    }
    forall s, t, u | DisplayOrder(s, t) && DisplayOrder(t, u)
      ensures DisplayOrder(s, u)
    {
      DisplayOrderTransitive(s, t, u);
    }
  }

  // ---------------------------------------------------------------------------------------------
  // Fates
  // ---------------------------------------------------------------------------------------------

  function FateOf(row: Row, e: EditRef, hooks: Hooks): Fate {
    if row.text.None? then Skipped(MissingDocumentText)
    else Candidate(row.id, row.fields, Sorting.Sort(row.fields, SpanOrder), row.reviewedAt, row.text.value, e.field, hooks)
  }

  /** `es` quotes exactly the fields that can be quoted from the window, in document order. */
  ghost predicate QuotesInOrder(
    es: seq<Extraction>, fields: seq<ExtractedResult>, doc: string, lo: nat, hi: nat, hooks: Hooks)
  {
    exists fs: seq<ExtractedResult> ::
      && Sorting.Sorted(fs, SpanOrder)
      && (forall f :: f in fs <==> f in fields && Quotable(f, doc, lo, hi))
      && |es| == |fs| && forall i | 0 <= i < |fs| :: es[i] == Quote(fs[i], hooks)
  }

  lemma SortedQuotesInOrder(
    es: seq<Extraction>, fields: seq<ExtractedResult>, doc: string, lo: nat, hi: nat, hooks: Hooks)
    requires es == Quotes(Sorting.Sort(fields, SpanOrder), doc, lo, hi, hooks)
    ensures QuotesInOrder(es, fields, doc, lo, hi, hooks)
  {
    var ordered := Sorting.Sort(fields, SpanOrder);
    var fs := QuotedFields(ordered, doc, lo, hi);
    SpanOrderIsOrder();
    Sorting.SortSorts(fields, SpanOrder);
    QuotedFieldsSorted(ordered, doc, lo, hi, SpanOrder);
    QuotesOfFields(ordered, doc, lo, hi, hooks);
    forall f
      ensures f in fs <==> f in fields && Quotable(f, doc, lo, hi)
    {
      QuotedFieldsMembers(ordered, doc, lo, hi);
      Sorting.SortMembers(fields, SpanOrder, f);
    }
    assert Sorting.Sorted(fs, SpanOrder);
  }

  /** A suggestion quotes exactly the fields that can be quoted from the window around its target, in document
      order. */
  lemma CandidateQuotesInOrder(row: Row, name: string, hooks: Hooks)
    requires row.text.Some? && FateOf(row, EditRef(row.id, name), hooks).Suggested?
    ensures var s := FateOf(row, EditRef(row.id, name), hooks).suggestion;
            var f := Target(row.fields, name).value;
            QuotesInOrder(s.extractions, row.fields, row.text.value,
                          WindowStart(f.charStart.value), WindowEnd(row.text.value, f.charEnd.value), hooks)
  {
    var f, doc := Target(row.fields, name).value, row.text.value;
    var lo, hi := WindowStart(f.charStart.value), WindowEnd(doc, f.charEnd.value);
    var es := FateOf(row, EditRef(row.id, name), hooks).suggestion.extractions;
    assert es == Quotes(Sorting.Sort(row.fields, SpanOrder), doc, lo, hi, hooks);
    SortedQuotesInOrder(es, row.fields, doc, lo, hi, hooks);
  }

  /** The candidate of one edit, computed with the loop over the fields in document order. */
  method BuildCandidate(row: Row, name: string, hooks: Hooks) returns (fate: Fate)
    requires row.text.Some?
    ensures fate == FateOf(row, EditRef(row.id, name), hooks)
  {
    var target := Target(row.fields, name);
    if target.None? {
      return Skipped(MissingTargetField);
    }
    var f, doc := target.value, row.text.value;
    if !Grounded(f) || Text.Strip(Text.Python, f.sourceText) == "" {
      return Skipped(MissingGrounding);
    }
    if HasOverride(f) {
      return Skipped(SpanOverride);
    }
    if !MatchesSpan(f, doc) {
      return Skipped(SpanMismatch);
    }
    var lo, hi := WindowStart(f.charStart.value), WindowEnd(doc, f.charEnd.value);
    var text := Text.Strip(Text.Python, doc[lo..hi]);
    if text == "" {
      return Skipped(EmptyContext);
    }
    var quotes, included := CollectQuotes(Sorting.Sort(row.fields, SpanOrder), f.name, doc, lo, hi, hooks);
    if !included || quotes == [] {
      return Skipped(NoContextualExtractions);
    }
    return Suggested(Suggestion(hooks.digest(text, quotes), text, quotes, 1, [row.id], [name], row.reviewedAt));
  }

  function RowFates(row: Row, edits: seq<EditRef>, hooks: Hooks): (fates: seq<Fate>)
    ensures |fates| == |edits|
  {
    if edits == [] then []
    else RowFates(row, edits[..|edits| - 1], hooks) + [FateOf(row, edits[|edits| - 1], hooks)]
  }

  function ResultOf(e: EditRef): nat {
    e.result
  }

  function RowIds(rows: seq<Row>): (ids: seq<nat>)
    ensures |ids| == |rows| && forall i | 0 <= i < |rows| :: ids[i] == rows[i].id
  {
    seq(|rows|, i requires 0 <= i < |rows| => rows[i].id)
  }

  /** The fates of all edits, row by row. */
  function AllFates(rows: seq<Row>, edits: seq<EditRef>, hooks: Hooks): (fates: seq<Fate>)
    ensures |fates| == Buckets.BucketTotal(RowIds(rows), edits, ResultOf)
  {
    if rows == [] then []
    else
      var n := |rows| - 1;
      assert RowIds(rows)[..n] == RowIds(rows[..n]);
      AllFates(rows[..n], edits, hooks) + RowFates(rows[n], Buckets.Bucket(edits, ResultOf, rows[n].id), hooks)
  }

  // ---------------------------------------------------------------------------------------------
  // Grouping
  // ---------------------------------------------------------------------------------------------

  function KeyIndex(grouped: seq<Suggestion>, key: string): (k: Option<nat>)
    ensures k.Some? ==> k.value < |grouped| && grouped[k.value].key == key
    ensures k.None? ==> forall i | 0 <= i < |grouped| :: grouped[i].key != key
  {
    if grouped == [] then None
    else if grouped[|grouped| - 1].key == key then Some(|grouped| - 1)
    else KeyIndex(grouped[..|grouped| - 1], key)
  }

  /** Append what is not there yet. */
  function AppendNew<T(==)>(s: seq<T>, xs: seq<T>): seq<T>
    decreases |xs|
  {
    if xs == [] then s else AppendNew(if xs[0] in s then s else s + [xs[0]], xs[1..])
  }

  function Later(a: Option<int>, b: Option<int>): Option<int> {
    if b.Some? && (a.None? || b.value > a.value) then b else a
  }

  /** A repeated suggestion adds to the count and the sources of the first one. */
  function Repeated(s: Suggestion, again: Suggestion): Suggestion {
    s.(occurrences := s.occurrences + 1,
       sourceResults := AppendNew(s.sourceResults, again.sourceResults),
       sourceFields := AppendNew(s.sourceFields, again.sourceFields),
       lastReviewed := Later(s.lastReviewed, again.lastReviewed))
  }

  function Place(grouped: seq<Suggestion>, s: Suggestion): seq<Suggestion> {
    var k := KeyIndex(grouped, s.key);
    if k.None? then grouped + [s] else grouped[k.value := Repeated(grouped[k.value], s)]
  }

  function Count(t: Tally, fate: Fate): Tally {
    match fate
    case Skipped(reason) => Tally(Counter.Add(t.skips, reason, 1), t.grouped)
    case Suggested(s) => Tally(t.skips, Place(t.grouped, s))
  }

  function TallyOf(fates: seq<Fate>): Tally {
    if fates == [] then Tally(map[], []) else Count(TallyOf(fates[..|fates| - 1]), fates[|fates| - 1])
  }

  function Occurrences(grouped: seq<Suggestion>): nat {
    if grouped == [] then 0 else Occurrences(grouped[..|grouped| - 1]) + grouped[|grouped| - 1].occurrences
  }

  function SkipCount(fates: seq<Fate>, reason: SkipReason): nat {
    if fates == [] then 0
    else SkipCount(fates[..|fates| - 1], reason) + (if fates[|fates| - 1] == Skipped(reason) then 1 else 0)
  }

  function KeyCount(fates: seq<Fate>, key: string): nat {
    if fates == [] then 0
    else
      var last := fates[|fates| - 1];
      KeyCount(fates[..|fates| - 1], key) + (if last.Suggested? && last.suggestion.key == key then 1 else 0)
  }

  predicate DistinctKeys(grouped: seq<Suggestion>) {
    forall i, j | 0 <= i < j < |grouped| :: grouped[i].key != grouped[j].key
  }

  /** A candidate as it is built. */
  predicate Single(fate: Fate) {
    fate.Suggested? ==> fate.suggestion.occurrences == 1
  }

  lemma {:induction false} OccurrencesUpdate(grouped: seq<Suggestion>, k: nat, s: Suggestion)
    requires k < |grouped|
    ensures Occurrences(grouped[k := s]) + grouped[k].occurrences == Occurrences(grouped) + s.occurrences
  {
    var n := |grouped| - 1;
    if k == n {
      assert grouped[k := s][..n] == grouped[..n];
    } else {
      OccurrencesUpdate(grouped[..n], k, s);
      assert grouped[k := s][..n] == grouped[..n][k := s];
    }
  }

  lemma PlaceCounts(grouped: seq<Suggestion>, s: Suggestion)
    requires DistinctKeys(grouped) && Single(Suggested(s))
    ensures var after := Place(grouped, s);
            && DistinctKeys(after)
            && Occurrences(after) == Occurrences(grouped) + 1
  {
    var k := KeyIndex(grouped, s.key);
    if k.None? {
      assert (grouped + [s])[..|grouped|] == grouped;
    } else {
      OccurrencesUpdate(grouped, k.value, Repeated(grouped[k.value], s));
    }
  }

  lemma PlaceKeyCount(grouped: seq<Suggestion>, s: Suggestion, i: nat)
    requires DistinctKeys(grouped) && Single(Suggested(s)) && i < |Place(grouped, s)|
    ensures var g := Place(grouped, s)[i];
            var was := KeyIndex(grouped, g.key);
            g.occurrences == (if was.Some? then grouped[was.value].occurrences else 0) + (if g.key == s.key then 1 else 0)
  {
    var k := KeyIndex(grouped, s.key);
    var g := Place(grouped, s)[i];
    if k.None? && i < |grouped| {
      assert g == grouped[i];
    }
  }

  /** Grouping conserves edits: the skip counters and the occurrence counts together count every fate
      once, each counter counts its own reason, and each suggestion the fates that share its key. */
  lemma {:induction false} TallyConserves(fates: seq<Fate>)
    requires forall i | 0 <= i < |fates| :: Single(fates[i])
    ensures var t := TallyOf(fates);
            && DistinctKeys(t.grouped)
            && Counter.Total(t.skips) + Occurrences(t.grouped) == |fates|
            && (forall r :: Counter.Get(t.skips, r) == SkipCount(fates, r))
            && (forall i | 0 <= i < |t.grouped| :: t.grouped[i].occurrences == KeyCount(fates, t.grouped[i].key))
            && (forall key | KeyIndex(t.grouped, key).None? :: KeyCount(fates, key) == 0)
  {
    if fates != [] {
      var n := |fates| - 1;
      TallyConserves(fates[..n]);
      var before := TallyOf(fates[..n]);
      match fates[n] {
        case Skipped(reason) =>
          Counter.TotalAdd(before.skips, reason, 1);
        case Suggested(s) =>
          assert Single(fates[n]);
          PlaceCounts(before.grouped, s);
          GroupedKeyCounts(fates, before.grouped, s);
      }
    }
  }

  lemma GroupedKeyCounts(fates: seq<Fate>, grouped: seq<Suggestion>, s: Suggestion)
    requires fates != [] && fates[|fates| - 1] == Suggested(s) && Single(Suggested(s)) && DistinctKeys(grouped)
    requires forall i | 0 <= i < |grouped| :: grouped[i].occurrences == KeyCount(fates[..|fates| - 1], grouped[i].key)
    requires forall key | KeyIndex(grouped, key).None? :: KeyCount(fates[..|fates| - 1], key) == 0
    ensures forall i | 0 <= i < |Place(grouped, s)| ::
              Place(grouped, s)[i].occurrences == KeyCount(fates, Place(grouped, s)[i].key)
    ensures forall key | KeyIndex(Place(grouped, s), key).None? :: KeyCount(fates, key) == 0
  {
    var after := Place(grouped, s);
    forall i | 0 <= i < |after|
      ensures after[i].occurrences == KeyCount(fates, after[i].key)
    {
      PlaceKeyCount(grouped, s, i);
    }
    forall key | KeyIndex(after, key).None?
      ensures KeyCount(fates, key) == 0
    {
      KeysStay(grouped, s, key);
    }
  }

  lemma KeysStay(grouped: seq<Suggestion>, s: Suggestion, key: string)
    ensures KeyIndex(grouped, key).Some? || key == s.key ==> KeyIndex(Place(grouped, s), key).Some?
  {
    var after := Place(grouped, s);
    if KeyIndex(grouped, key).Some? {
      var i := KeyIndex(grouped, key).value;
      assert after[i].key == key;
    }
    if KeyIndex(grouped, s.key).None? {
      assert after[|grouped|] == s;
    } else {
      assert after[KeyIndex(grouped, s.key).value].key == s.key;
    }
  }

  // ---------------------------------------------------------------------------------------------
  // Listing
  // ---------------------------------------------------------------------------------------------

  lemma {:induction false} TallyConcat(a: seq<Fate>, b: seq<Fate>)
    requires b != []
    ensures TallyOf(a + b) == Count(TallyOf(a + b[..|b| - 1]), b[|b| - 1])
  {
    assert (a + b)[..|a + b| - 1] == a + b[..|b| - 1];
  }

  /** A row without text adds one skip for each of its edits. */
  lemma {:induction false} TextlessRow(done: seq<Fate>, fates: seq<Fate>)
    requires fates != [] && forall i | 0 <= i < |fates| :: fates[i] == Skipped(MissingDocumentText)
    ensures TallyOf(done + fates)
         == Tally(Counter.Add(TallyOf(done).skips, MissingDocumentText, |fates|), TallyOf(done).grouped)
    decreases |fates|
  {
    var n := |fates| - 1;
    TallyConcat(done, fates);
    assert fates[n] == Skipped(MissingDocumentText);
    if n == 0 {
      assert done + fates[..n] == done;
    } else {
      TextlessRow(done, fates[..n]);
      Counter.AddTwice(TallyOf(done).skips, MissingDocumentText, n);
    }
  }

  lemma {:induction false} TextlessFates(row: Row, edits: seq<EditRef>, hooks: Hooks)
    requires row.text.None?
    ensures forall i | 0 <= i < |edits| :: RowFates(row, edits, hooks)[i] == Skipped(MissingDocumentText)
  {
    if edits != [] {
      TextlessFates(row, edits[..|edits| - 1], hooks);
    }
  }

  lemma {:induction false} RowFatesSingle(row: Row, edits: seq<EditRef>, hooks: Hooks)
    ensures forall i | 0 <= i < |edits| :: Single(RowFates(row, edits, hooks)[i])
  {
    if edits != [] {
      RowFatesSingle(row, edits[..|edits| - 1], hooks);
    }
  }

  lemma {:induction false} AllFatesSingle(rows: seq<Row>, edits: seq<EditRef>, hooks: Hooks)
    ensures forall i | 0 <= i < |AllFates(rows, edits, hooks)| :: Single(AllFates(rows, edits, hooks)[i])
  {
    if rows != [] {
      var n := |rows| - 1;
      AllFatesSingle(rows[..n], edits, hooks);
      RowFatesSingle(rows[n], Buckets.Bucket(edits, ResultOf, rows[n].id), hooks);
    }
  }

  lemma FateIgnoresResult(row: Row, e: EditRef, hooks: Hooks)
    ensures FateOf(row, e, hooks) == FateOf(row, EditRef(row.id, e.field), hooks)
  {
  }

  /** The inner loop over the edits of one result. */
  method TallyRow(row: Row, edits: seq<EditRef>, ghost done: seq<Fate>, start: Tally, hooks: Hooks) returns (t: Tally)
    requires row.text.Some? && start == TallyOf(done)
    ensures t == TallyOf(done + RowFates(row, edits, hooks))
  {
    t := start;
    assert done + RowFates(row, edits[..0], hooks) == done;
    for i := 0 to |edits|
      invariant t == TallyOf(done + RowFates(row, edits[..i], hooks))
    {
      assert edits[..i + 1][..i] == edits[..i];
      FateIgnoresResult(row, edits[i], hooks);
      ghost var fates := RowFates(row, edits[..i + 1], hooks);
      assert fates[..i] == RowFates(row, edits[..i], hooks);
      TallyConcat(done, fates);
      var fate := BuildCandidate(row, edits[i].field, hooks);
      match fate {
        case Skipped(reason) => t := Tally(Counter.Add(t.skips, reason, 1), t.grouped);
        case Suggested(s) => t := Tally(t.skips, Place(t.grouped, s));
      }
    }
    assert edits[..|edits|] == edits;
  }

  /** The loop over the result rows; a row without edits is passed over. */
  method TallyRows(rows: seq<Row>, edits: seq<EditRef>, hooks: Hooks) returns (t: Tally)
    ensures t == TallyOf(AllFates(rows, edits, hooks))
  {
    t := Tally(map[], []);
    for i := 0 to |rows|
      invariant t == TallyOf(AllFates(rows[..i], edits, hooks))
    {
      assert rows[..i + 1][..i] == rows[..i];
      ghost var done := AllFates(rows[..i], edits, hooks);
      var own := Buckets.Bucket(edits, ResultOf, rows[i].id);
      if own == [] {
        assert done + RowFates(rows[i], own, hooks) == done;
      } else if rows[i].text.None? {
        TextlessFates(rows[i], own, hooks);
        TextlessRow(done, RowFates(rows[i], own, hooks));
        t := Tally(Counter.Add(t.skips, MissingDocumentText, |own|), t.grouped);
      } else {
        t := TallyRow(rows[i], own, done, t, hooks);
      }
    }
    assert rows[..|rows|] == rows;
  }

  function Visible(grouped: seq<Suggestion>, dismissed: set<string>): seq<Suggestion> {
    if grouped == [] then []
    else
      var last := grouped[|grouped| - 1];
      Visible(grouped[..|grouped| - 1], dismissed) + (if last.key in dismissed then [] else [last])
  }

  function DismissedKeys(grouped: seq<Suggestion>, decisions: set<string>): set<string> {
    set i | 0 <= i < |grouped| && grouped[i].key in decisions :: grouped[i].key
  }

  lemma DismissedSnoc(grouped: seq<Suggestion>, decisions: set<string>)
    requires grouped != []
    ensures var n := |grouped| - 1;
            (DismissedKeys(grouped, decisions)
             == DismissedKeys(grouped[..n], decisions) + (if grouped[n].key in decisions then {grouped[n].key} else {}))
    ensures DistinctKeys(grouped) ==> grouped[|grouped| - 1].key !in DismissedKeys(grouped[..|grouped| - 1], decisions)
  {
    var n := |grouped| - 1;
    assert forall i | 0 <= i < n :: grouped[..n][i] == grouped[i];
  }

  lemma {:induction false} DismissedAndVisible(grouped: seq<Suggestion>, decisions: set<string>, dismissed: set<string>)
    requires DistinctKeys(grouped)
    requires forall i | 0 <= i < |grouped| :: grouped[i].key in dismissed <==> grouped[i].key in decisions
    ensures |DismissedKeys(grouped, decisions)| + |Visible(grouped, dismissed)| == |grouped|
  {
    if grouped != [] {
      var n := |grouped| - 1;
      var before, key := DismissedKeys(grouped[..n], decisions), grouped[n].key;
      DismissedAndVisible(grouped[..n], decisions, dismissed);
      DismissedSnoc(grouped, decisions);
      assert key in decisions ==> |before + {key}| == |before| + 1;
      assert before + {} == before;
    }
  }

  lemma {:induction false} VisibleIn(grouped: seq<Suggestion>, dismissed: set<string>, g: Suggestion)
    ensures g in Visible(grouped, dismissed) <==> g in grouped && g.key !in dismissed
  {
    if grouped != [] {
      var n := |grouped| - 1;
      VisibleIn(grouped[..n], dismissed, g);
      assert grouped == grouped[..n] + [grouped[n]];
    }
  }

  lemma VisibleMembers(grouped: seq<Suggestion>, decisions: set<string>, g: Suggestion)
    ensures g in Visible(grouped, DismissedKeys(grouped, decisions)) <==> g in grouped && g.key !in decisions
  {
    VisibleIn(grouped, DismissedKeys(grouped, decisions), g);
    if g in grouped && g.key in decisions {
      var i :| 0 <= i < |grouped| && grouped[i] == g;
      assert grouped[i].key in DismissedKeys(grouped, decisions);
    }
  }

  /** Edit accounting is conserved: reviewed edits are skipped or counted in a suggestion, each once, and
      generated suggestions are dismissed or visible. The rows come from a query on distinct results and
      the edits from a query on those results. */
  method ListSuggestions(rows: seq<Row>, edits: seq<EditRef>, decisions: set<string>, hooks: Hooks)
    returns (suggestions: seq<Suggestion>, d: Diagnostics, ghost grouped: seq<Suggestion>)
    requires Distinct(RowIds(rows))
    requires forall e | e in edits :: e.result in RowIds(rows)
    ensures grouped == TallyOf(AllFates(rows, edits, hooks)).grouped
    ensures d.skips == TallyOf(AllFates(rows, edits, hooks)).skips
    ensures d.reviewedEdits == |edits| == Counter.Total(d.skips) + Occurrences(grouped)
    ensures d.generated == |grouped| && d.visible == |suggestions| && d.generated == d.dismissed + d.visible
    ensures multiset(suggestions) == multiset(Visible(grouped, DismissedKeys(grouped, decisions)))
    ensures Sorting.Sorted(suggestions, DisplayOrder)
    ensures forall g :: g in suggestions <==> g in grouped && g.key !in decisions
  {
    var t := TallyRows(rows, edits, hooks);
    grouped := t.grouped;
    AllFatesSingle(rows, edits, hooks);
    TallyConserves(AllFates(rows, edits, hooks));
    NothingOutside(edits, Members(RowIds(rows)));
    Buckets.BucketsPartition(RowIds(rows), edits, ResultOf);
    var dismissed := DismissedKeys(t.grouped, decisions);
    DismissedAndVisible(t.grouped, decisions, dismissed);
    forall g
      ensures g in Sorting.Sort(Visible(t.grouped, dismissed), DisplayOrder) <==> g in t.grouped && g.key !in decisions
    {
      Sorting.SortMembers(Visible(t.grouped, dismissed), DisplayOrder, g);
      VisibleMembers(t.grouped, decisions, g);
    }
    DisplayOrderIsOrder();
    Sorting.SortSorts(Visible(t.grouped, dismissed), DisplayOrder);
    suggestions := Sorting.Sort(Visible(t.grouped, dismissed), DisplayOrder);
    d := Diagnostics(|edits|, |t.grouped|, |dismissed|, |suggestions|, t.skips);
  }

  lemma {:induction false} NothingOutside(edits: seq<EditRef>, ids: set<nat>)
    requires forall e | e in edits :: e.result in ids
    ensures Buckets.Outside(edits, ResultOf, ids) == []
  {
    if edits != [] {
      NothingOutside(edits[..|edits| - 1], ids);
    }
  }

  lemma SortedFieldsSame(row: Row)
    ensures forall f :: f in Sorting.Sort(row.fields, SpanOrder) <==> f in row.fields
  {
    forall f
      ensures f in Sorting.Sort(row.fields, SpanOrder) <==> f in row.fields
    {
      Sorting.SortMembers(row.fields, SpanOrder, f);
    }
  }

  lemma {:induction false} LateSkipsNeverHappen(rows: seq<Row>, edits: seq<EditRef>, hooks: Hooks)
    ensures var fates := AllFates(rows, edits, hooks);
            SkipCount(fates, EmptyContext) == 0 && SkipCount(fates, NoContextualExtractions) == 0
  {
    if rows != [] {
      var n := |rows| - 1;
      LateSkipsNeverHappen(rows[..n], edits, hooks);
      RowLateSkips(AllFates(rows[..n], edits, hooks), rows[n], Buckets.Bucket(edits, ResultOf, rows[n].id), hooks);
    }
  }

  lemma {:induction false} RowLateSkips(done: seq<Fate>, row: Row, edits: seq<EditRef>, hooks: Hooks)
    requires SkipCount(done, EmptyContext) == 0 && SkipCount(done, NoContextualExtractions) == 0
    ensures var fates := done + RowFates(row, edits, hooks);
            SkipCount(fates, EmptyContext) == 0 && SkipCount(fates, NoContextualExtractions) == 0
  {
    var fates := RowFates(row, edits, hooks);
    if edits == [] {
      assert done + fates == done;
    } else {
      var n := |edits| - 1;
      RowLateSkips(done, row, edits[..n], hooks);
      assert (done + fates)[..|done + fates| - 1] == done + RowFates(row, edits[..n], hooks);
      if row.text.Some? {
        SortedFieldsSame(row);
        ChecksDecide(row.id, row.fields, Sorting.Sort(row.fields, SpanOrder), row.reviewedAt, row.text.value,
                     edits[n].field, hooks);
      }
    }
  }
}
