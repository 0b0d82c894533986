/** What a suggestion says and how repeated suggestions are gathered. */
module FeedbackMeaning {
  import opened Basics
  import opened Text
  import opened Formulas
  import opened Results
  import opened Feedback
  import opened FeedbackListing
  import Buckets
  import Sorting

  // ---------------------------------------------------------------------------------------------
  // One suggestion
  // ---------------------------------------------------------------------------------------------

  /** Both offsets are there and in order. */
  predicate HasSpan(f: ExtractedResult) {
    f.charStart != None && f.charEnd != None && 0 <= f.charStart.value && f.charStart.value <= f.charEnd.value
  }

  /** A reviewer's text that is not the source text, spaces around aside. */
  predicate IsOverridden(f: ExtractedResult) {
    match f.extracted
    case Null => false
    case Str(s) => Strip(Python, s) != Strip(Python, f.sourceText)
    case _ => true
  }

  /** The document says at the span what the field claims, spaces around aside. */
  predicate IsConfirmed(f: ExtractedResult, doc: string)
    requires HasSpan(f)
  {
    f.charEnd.value <= |doc| && Strip(Python, doc[f.charStart.value..f.charEnd.value]) == Strip(Python, f.sourceText)
  }

  /** The first field of a name. */
  ghost predicate IsFirstNamed(fields: seq<ExtractedResult>, name: string, f: ExtractedResult) {
    exists i :: 0 <= i < |fields| && fields[i] == f && f.name == name && forall j | 0 <= j < i :: fields[j].name != name
  }

  lemma {:induction false} TargetIsFirst(fields: seq<ExtractedResult>, name: string)
    ensures Target(fields, name).None? <==> forall f | f in fields :: f.name != name
    ensures Target(fields, name).Some? ==> IsFirstNamed(fields, name, Target(fields, name).value)
  {
    if fields != [] {
      if fields[0].name == name {
        assert IsFirstNamed(fields, name, fields[0]);
      } else {
        TargetIsFirst(fields[1..], name);
        if Target(fields[1..], name).Some? {
          var f := Target(fields[1..], name).value;
          var i :| 0 <= i < |fields[1..]| && fields[1..][i] == f && forall j | 0 <= j < i :: fields[1..][j].name != name;
          assert fields[i + 1] == f;
          assert forall j | 0 < j < i + 1 :: fields[j] == fields[1..][j - 1];
          assert IsFirstNamed(fields, name, f);
        }
      }
    }
  }

  /** Which check an edit fails first, and what is suggested when it passes them all: the document from 160 characters before
      the span to 160 after it, stripped. */
  lemma CandidateMeans(
    result: nat, fields: seq<ExtractedResult>, ordered: seq<ExtractedResult>, reviewedAt: Option<int>,
    doc: string, name: string, hooks: Hooks)
    requires forall f :: f in ordered <==> f in fields
    ensures var fate := Candidate(result, fields, ordered, reviewedAt, doc, name, hooks);
            match Target(fields, name)
            case None => fate == Skipped(MissingTargetField)
            case Some(f) =>
              if !HasSpan(f) || Strip(Python, f.sourceText) == "" then fate == Skipped(MissingGrounding)
              else if IsOverridden(f) then fate == Skipped(SpanOverride)
              else if !IsConfirmed(f, doc) then fate == Skipped(SpanMismatch)
              else
                var lo := Max(f.charStart.value - 160, 0);
                var hi := Min(f.charEnd.value + 160, |doc|);
                && 0 <= lo <= hi <= |doc| && fate.Suggested?
                && fate.suggestion.exampleText == Strip(Python, doc[lo..hi])
                && fate.suggestion.extractions == Quotes(ordered, doc, lo, hi, hooks)
                && fate.suggestion.key == hooks.digest(fate.suggestion.exampleText, fate.suggestion.extractions)
                && fate.suggestion.occurrences == 1 && fate.suggestion.sourceResults == [result]
                && fate.suggestion.sourceFields == [name] && fate.suggestion.lastReviewed == reviewedAt
  {
    ChecksDecide(result, fields, ordered, reviewedAt, doc, name, hooks);
  }

  function Max(a: int, b: int): int {
    if a > b then a else b
  }

  function Min(a: int, b: int): int {
    if a < b then a else b
  }

  /** A field is quoted when its span lies in the window, the document confirms it, and no reviewer replaced its text. */
  lemma QuotableMeans(f: ExtractedResult, doc: string, lo: nat, hi: nat)
    ensures Quotable(f, doc, lo, hi) <==>
              && HasSpan(f) && lo <= f.charStart.value && f.charEnd.value <= hi
              && IsConfirmed(f, doc) && Strip(Python, f.sourceText) != "" && !IsOverridden(f)
  {
  }

  /** The quote of a field is its stripped source text under its name, with the attributes of its value. */
  lemma QuoteMeans(f: ExtractedResult, hooks: Hooks)
    ensures Quote(f, hooks).cls == f.name && Quote(f, hooks).text == Strip(Python, f.sourceText)
    ensures Quote(f, hooks).attributes == hooks.attributes(f.name, f.normalized)
  {
  }

  // ---------------------------------------------------------------------------------------------
  // Gathering repeated suggestions
  // ---------------------------------------------------------------------------------------------

  predicate HasKey(fates: seq<Fate>, k: nat, key: string) {
    k < |fates| && fates[k].Suggested? && fates[k].suggestion.key == key
  }

  /** The first fate with a key. */
  function FirstWith(fates: seq<Fate>, key: string): (r: Option<nat>)
    ensures r.Some? ==> HasKey(fates, r.value, key) && forall k: nat | k < r.value :: !HasKey(fates, k, key)
    ensures r.None? ==> forall k: nat :: !HasKey(fates, k, key)
  {
    if fates == [] then None
    else
      var n := |fates| - 1;
      var before := FirstWith(fates[..n], key);
      assert forall k: nat | k < n :: HasKey(fates, k, key) <==> HasKey(fates[..n], k, key);
      if before.Some? then before
      else if HasKey(fates, n, key) then Some(n)
      else None
  }

  ghost predicate SaidBy(fates: seq<Fate>, key: string, result: nat) {
    exists k: nat :: HasKey(fates, k, key) && result in fates[k].suggestion.sourceResults
  }

  ghost predicate FieldOf(fates: seq<Fate>, key: string, field: string) {
    exists k: nat :: HasKey(fates, k, key) && field in fates[k].suggestion.sourceFields
  }

  predicate NotLater(a: Option<int>, b: Option<int>) {
    a.None? || (b.Some? && a.value <= b.value)
  }

  /** The time of the latest review, if any of them has a time. */
  ghost predicate IsLatest(fates: seq<Fate>, key: string, at: Option<int>) {
    && (forall k: nat | HasKey(fates, k, key) :: NotLater(fates[k].suggestion.lastReviewed, at))
    && (at.Some? ==> exists k: nat :: HasKey(fates, k, key) && fates[k].suggestion.lastReviewed == at)
  }

  /** A gathered suggestion: text and extractions of the first one with its key, every result and field that said it, once,
      and the latest review. */
  ghost predicate Gathers(g: Suggestion, fates: seq<Fate>) {
    && FirstWith(fates, g.key).Some?
    && g.exampleText == fates[FirstWith(fates, g.key).value].suggestion.exampleText
    && g.extractions == fates[FirstWith(fates, g.key).value].suggestion.extractions
    && Distinct(g.sourceResults) && (forall r :: r in g.sourceResults <==> SaidBy(fates, g.key, r))
    && Distinct(g.sourceFields) && (forall f :: f in g.sourceFields <==> FieldOf(fates, g.key, f))
    && IsLatest(fates, g.key, g.lastReviewed)
  }

  /** As candidates are built: one result, one field. */
  predicate OneSource(fate: Fate) {
    fate.Suggested? ==> |fate.suggestion.sourceResults| == 1 && |fate.suggestion.sourceFields| == 1
  }

  lemma AppendOne<T>(s: seq<T>, x: T)
    requires Distinct(s)
    ensures AppendNew(s, [x]) == if x in s then s else s + [x]
    ensures Distinct(AppendNew(s, [x])) && forall y :: y in AppendNew(s, [x]) <==> y in s || y == x
  {
    var r := if x in s then s else s + [x];
    assert AppendNew(s, [x]) == AppendNew(r, [x][1..]) == AppendNew(r, []) == r;
  }

  lemma HasKeySnoc(fates: seq<Fate>, fate: Fate, key: string)
    ensures forall k: nat | k < |fates| :: HasKey(fates + [fate], k, key) <==> HasKey(fates, k, key)
    ensures HasKey(fates + [fate], |fates|, key) <==> fate.Suggested? && fate.suggestion.key == key
    ensures FirstWith(fates + [fate], key)
         == if FirstWith(fates, key).Some? then FirstWith(fates, key)
            else if fate.Suggested? && fate.suggestion.key == key then Some(|fates|) else None
  {
    assert (fates + [fate])[..|fates|] == fates;
  }

  lemma SourcesSnoc(fates: seq<Fate>, fate: Fate, key: string)
    ensures forall r :: SaidBy(fates + [fate], key, r) <==>
              SaidBy(fates, key, r) || (fate.Suggested? && fate.suggestion.key == key && r in fate.suggestion.sourceResults)
    ensures forall f :: FieldOf(fates + [fate], key, f) <==>
              FieldOf(fates, key, f) || (fate.Suggested? && fate.suggestion.key == key && f in fate.suggestion.sourceFields)
  {
    HasKeySnoc(fates, fate, key);
    var more := fates + [fate];
    forall r
      ensures SaidBy(more, key, r) <==>
                SaidBy(fates, key, r) || (fate.Suggested? && fate.suggestion.key == key && r in fate.suggestion.sourceResults)
    {
      if k: nat :| HasKey(fates, k, key) && r in fates[k].suggestion.sourceResults {
        assert HasKey(more, k, key) && more[k] == fates[k];
      }
      if fate.Suggested? && fate.suggestion.key == key && r in fate.suggestion.sourceResults {
        assert HasKey(more, |fates|, key) && more[|fates|] == fate;
      }
      if k: nat :| HasKey(more, k, key) && r in more[k].suggestion.sourceResults {
        assert k < |fates| ==> HasKey(fates, k, key) && fates[k] == more[k];
      }
    }
    forall f
      ensures FieldOf(more, key, f) <==>
                FieldOf(fates, key, f) || (fate.Suggested? && fate.suggestion.key == key && f in fate.suggestion.sourceFields)
    {
      if k: nat :| HasKey(fates, k, key) && f in fates[k].suggestion.sourceFields {
        assert HasKey(more, k, key) && more[k] == fates[k];
      }
      if fate.Suggested? && fate.suggestion.key == key && f in fate.suggestion.sourceFields {
        assert HasKey(more, |fates|, key) && more[|fates|] == fate;
      }
      if k: nat :| HasKey(more, k, key) && f in more[k].suggestion.sourceFields {
        assert k < |fates| ==> HasKey(fates, k, key) && fates[k] == more[k];
      }
    }
  }

  lemma LatestSnoc(fates: seq<Fate>, fate: Fate, key: string, at: Option<int>)
    requires IsLatest(fates, key, at)
    ensures fate.Suggested? && fate.suggestion.key == key ==>
              IsLatest(fates + [fate], key, Later(at, fate.suggestion.lastReviewed))
    ensures !(fate.Suggested? && fate.suggestion.key == key) ==> IsLatest(fates + [fate], key, at)
  {
    HasKeySnoc(fates, fate, key);
    var more := fates + [fate];
    assert more[|fates|] == fate && forall k | 0 <= k < |fates| :: more[k] == fates[k];
    if at.Some? {
      var k: nat :| HasKey(fates, k, key) && fates[k].suggestion.lastReviewed == at;
      assert HasKey(more, k, key) && more[k].suggestion.lastReviewed == at;
    }
    if fate.Suggested? && fate.suggestion.key == key {
      assert HasKey(more, |fates|, key);
    }
  }

  lemma OtherGroupStays(g: Suggestion, fates: seq<Fate>, fate: Fate)
    requires Gathers(g, fates) && !(fate.Suggested? && fate.suggestion.key == g.key)
    ensures Gathers(g, fates + [fate])
  {
    HasKeySnoc(fates, fate, g.key);
    SourcesSnoc(fates, fate, g.key);
    LatestSnoc(fates, fate, g.key, g.lastReviewed);
  }

  lemma RepeatedGathers(g: Suggestion, fates: seq<Fate>, s: Suggestion)
    requires Gathers(g, fates) && s.key == g.key && OneSource(Suggested(s))
    ensures Gathers(Repeated(g, s), fates + [Suggested(s)])
  {
    HasKeySnoc(fates, Suggested(s), g.key);
    SourcesSnoc(fates, Suggested(s), g.key);
    LatestSnoc(fates, Suggested(s), g.key, g.lastReviewed);
    assert s.sourceResults == [s.sourceResults[0]] && s.sourceFields == [s.sourceFields[0]];
    AppendOne(g.sourceResults, s.sourceResults[0]);
    AppendOne(g.sourceFields, s.sourceFields[0]);
  }

  lemma NewGathers(fates: seq<Fate>, s: Suggestion)
    requires FirstWith(fates, s.key).None? && OneSource(Suggested(s))
    ensures Gathers(s, fates + [Suggested(s)])
  {
    var more := fates + [Suggested(s)];
    HasKeySnoc(fates, Suggested(s), s.key);
    SourcesSnoc(fates, Suggested(s), s.key);
    assert more[|fates|] == Suggested(s);
    assert forall r :: !SaidBy(fates, s.key, r);
    assert forall f :: !FieldOf(fates, s.key, f);
    assert HasKey(more, |fates|, s.key);
  }

  /** Every key has its group. */
  ghost predicate Complete(grouped: seq<Suggestion>, fates: seq<Fate>) {
    forall key :: KeyIndex(grouped, key).Some? <==> FirstWith(fates, key).Some?
  }

  /** The groups come in the order in which their keys came up first. */
  ghost predicate InOrder(grouped: seq<Suggestion>, fates: seq<Fate>) {
    forall i, j | 0 <= i < j < |grouped| ::
      && FirstWith(fates, grouped[i].key).Some? && FirstWith(fates, grouped[j].key).Some?
      && FirstWith(fates, grouped[i].key).value < FirstWith(fates, grouped[j].key).value
  }

  ghost predicate Gathered(grouped: seq<Suggestion>, fates: seq<Fate>) {
    && DistinctKeys(grouped) && Complete(grouped, fates) && InOrder(grouped, fates)
    && forall i | 0 <= i < |grouped| :: Gathers(grouped[i], fates)
  }

  lemma SkipGathers(grouped: seq<Suggestion>, fates: seq<Fate>, reason: SkipReason)
    requires Gathered(grouped, fates)
    ensures Gathered(grouped, fates + [Skipped(reason)])
  {
    forall key
      ensures FirstWith(fates + [Skipped(reason)], key) == FirstWith(fates, key)
    {
      HasKeySnoc(fates, Skipped(reason), key);
    }
    forall i | 0 <= i < |grouped|
      ensures Gathers(grouped[i], fates + [Skipped(reason)])
    {
      OtherGroupStays(grouped[i], fates, Skipped(reason));
    }
  }

  lemma PlaceKeys(grouped: seq<Suggestion>, s: Suggestion, key: string)
    ensures KeyIndex(Place(grouped, s), key).Some? <==> KeyIndex(grouped, key).Some? || key == s.key
  {
    var after := Place(grouped, s);
    if KeyIndex(after, key).Some? {
      var i := KeyIndex(after, key).value;
      assert after[i].key == key;
      if KeyIndex(grouped, s.key).None? && i < |grouped| {
        assert grouped[i].key == key;
      }
    }
    KeysStay(grouped, s, key);
  }

  lemma PlaceDistinct(grouped: seq<Suggestion>, s: Suggestion)
    requires DistinctKeys(grouped)
    ensures DistinctKeys(Place(grouped, s))
  {
  }

  lemma PlaceComplete(grouped: seq<Suggestion>, fates: seq<Fate>, s: Suggestion)
    requires Complete(grouped, fates)
    ensures Complete(Place(grouped, s), fates + [Suggested(s)])
  {
    forall key
      ensures KeyIndex(Place(grouped, s), key).Some? <==> FirstWith(fates + [Suggested(s)], key).Some?
    {
      HasKeySnoc(fates, Suggested(s), key);
      PlaceKeys(grouped, s, key);
    }
  }

  lemma PlaceInOrder(grouped: seq<Suggestion>, fates: seq<Fate>, s: Suggestion)
    requires Complete(grouped, fates) && InOrder(grouped, fates)
    ensures InOrder(Place(grouped, s), fates + [Suggested(s)])
  {
    var after, more := Place(grouped, s), fates + [Suggested(s)];
    forall i, j | 0 <= i < j < |after|
      ensures FirstWith(more, after[i].key).Some? && FirstWith(more, after[j].key).Some?
      ensures FirstWith(more, after[i].key).value < FirstWith(more, after[j].key).value
    {
      HasKeySnoc(fates, Suggested(s), after[i].key);
      HasKeySnoc(fates, Suggested(s), after[j].key);
      if j == |grouped| {
        KeyFound(grouped, i);
      }
    }
  }

  lemma KeyFound(grouped: seq<Suggestion>, i: nat)
    requires i < |grouped|
    ensures KeyIndex(grouped, grouped[i].key).Some?
  {
  }

  lemma PlaceGathers(grouped: seq<Suggestion>, fates: seq<Fate>, s: Suggestion)
    requires Gathered(grouped, fates) && OneSource(Suggested(s))
    ensures Gathered(Place(grouped, s), fates + [Suggested(s)])
  {
    PlaceDistinct(grouped, s);
    PlaceComplete(grouped, fates, s);
    PlaceInOrder(grouped, fates, s);
    forall i | 0 <= i < |Place(grouped, s)|
      ensures Gathers(Place(grouped, s)[i], fates + [Suggested(s)])
    {
      PlacedGathers(grouped, fates, s, i);
    }
  }

  lemma PlacedGathers(grouped: seq<Suggestion>, fates: seq<Fate>, s: Suggestion, i: nat)
    requires Gathered(grouped, fates) && OneSource(Suggested(s)) && i < |Place(grouped, s)|
    ensures Gathers(Place(grouped, s)[i], fates + [Suggested(s)])
  {
    var at := KeyIndex(grouped, s.key);
    if at.Some? && i == at.value {
      RepeatedGathers(grouped[i], fates, s);
    } else if i < |grouped| {
      OtherGroupStays(grouped[i], fates, Suggested(s));
    } else {
      NewGathers(fates, s);
    }
  }

  /** The listing gathers the candidates of all edits. */
  lemma {:induction false} TallyGathers(fates: seq<Fate>)
    requires forall i | 0 <= i < |fates| :: OneSource(fates[i])
    ensures Gathered(TallyOf(fates).grouped, fates)
  {
    if fates != [] {
      var n := |fates| - 1;
      TallyGathers(fates[..n]);
      assert fates == fates[..n] + [fates[n]];
      match fates[n] {
        case Skipped(reason) => SkipGathers(TallyOf(fates[..n]).grouped, fates[..n], reason);
        case Suggested(s) => PlaceGathers(TallyOf(fates[..n]).grouped, fates[..n], s);
      }
    }
  }

  lemma {:induction false} RowFatesOneSource(row: Row, edits: seq<EditRef>, hooks: Hooks)
    ensures forall i | 0 <= i < |edits| :: OneSource(RowFates(row, edits, hooks)[i])
  {
    if edits != [] {
      RowFatesOneSource(row, edits[..|edits| - 1], hooks);
    }
  }

  lemma {:induction false} AllFatesOneSource(rows: seq<Row>, edits: seq<EditRef>, hooks: Hooks)
    ensures forall i | 0 <= i < |AllFates(rows, edits, hooks)| :: OneSource(AllFates(rows, edits, hooks)[i])
  {
    if rows != [] {
      var n := |rows| - 1;
      AllFatesOneSource(rows[..n], edits, hooks);
      RowFatesOneSource(rows[n], Buckets.Bucket(edits, ResultOf, rows[n].id), hooks);
    }
  }

  /** What is listed: the candidates of all edits, gathered. */
  lemma ListingGathers(rows: seq<Row>, edits: seq<EditRef>, hooks: Hooks)
    ensures var fates := AllFates(rows, edits, hooks);
            Gathered(TallyOf(fates).grouped, fates)
  {
    AllFatesOneSource(rows, edits, hooks);
    TallyGathers(AllFates(rows, edits, hooks));
  }

  // ---------------------------------------------------------------------------------------------
  // The order of the candidates
  // ---------------------------------------------------------------------------------------------

  /** The edits of a row are taken in their order. */
  lemma {:induction false} RowFatesCons(row: Row, first: EditRef, rest: seq<EditRef>, hooks: Hooks)
    ensures RowFates(row, [first] + rest, hooks) == [FateOf(row, first, hooks)] + RowFates(row, rest, hooks)
  {
    var edits := [first] + rest;
    if rest == [] {
      assert edits[..0] == [] && edits[0] == first;
    } else {
      var n := |rest| - 1;
      assert edits[..n + 1] == [first] + rest[..n] && edits[n + 1] == rest[n];
      RowFatesCons(row, first, rest[..n], hooks);
    }
  }

  /** The rows are taken in their order, each with its own edits. */
  lemma {:induction false} AllFatesCons(first: Row, rest: seq<Row>, edits: seq<EditRef>, hooks: Hooks)
    ensures AllFates([first] + rest, edits, hooks)
         == RowFates(first, Buckets.Bucket(edits, ResultOf, first.id), hooks) + AllFates(rest, edits, hooks)
  {
    var rows := [first] + rest;
    var own := RowFates(first, Buckets.Bucket(edits, ResultOf, first.id), hooks);
    if rest == [] {
      assert rows[..0] == [] && rows[0] == first;
      assert [] + own == own && own + [] == own;
    } else {
      var n := |rest| - 1;
      assert rows[..n + 1] == [first] + rest[..n] && rows[n + 1] == rest[n];
      AllFatesCons(first, rest[..n], edits, hooks);
      Regroup(own, AllFates(rest[..n], edits, hooks), RowFates(rest[n], Buckets.Bucket(edits, ResultOf, rest[n].id), hooks));
    }
  }

  /** A row without text skips its edits; otherwise an edit's fate is its candidate's. */
  lemma FateMeans(row: Row, e: EditRef, hooks: Hooks)
    ensures row.text.None? ==> FateOf(row, e, hooks) == Skipped(MissingDocumentText)
    ensures row.text.Some? ==>
              exists ordered :: Sorting.Sorted(ordered, SpanOrder) && multiset(ordered) == multiset(row.fields)
                && FateOf(row, e, hooks) == Candidate(row.id, row.fields, ordered, row.reviewedAt, row.text.value, e.field, hooks)
  {
    SpanOrderIsOrder();
    Sorting.SortSorts(row.fields, SpanOrder);
    assert multiset(Sorting.Sort(row.fields, SpanOrder)) == multiset(row.fields);
  }

  // ---------------------------------------------------------------------------------------------
  // What is shown
  // ---------------------------------------------------------------------------------------------

  /** The listing shows exactly the gathered suggestions that were not dismissed. */
  lemma {:induction false} VisibleMeans(grouped: seq<Suggestion>, dismissed: set<string>, g: Suggestion)
    ensures multiset(Visible(grouped, dismissed))[g] == if g.key in dismissed then 0 else multiset(grouped)[g]
  {
    if grouped != [] {
      var n := |grouped| - 1;
      VisibleMeans(grouped[..n], dismissed, g);
      assert grouped == grouped[..n] + [grouped[n]];
    }
  }

  // ---------------------------------------------------------------------------------------------
  // The orders
  // ---------------------------------------------------------------------------------------------

  /** The texts agree up to `k`, where `a` ends or has the smaller character. */
  predicate Precedes(a: string, b: string, k: nat) {
    k <= |a| && k <= |b| && a[..k] == b[..k] && (k == |a| || (k < |b| && a[k] < b[k]))
  }

  /** Texts compare at the first place where they differ. */
  lemma {:induction false} TextBeforeMeans(a: string, b: string)
    ensures TextBefore(a, b) <==> exists k: nat :: Precedes(a, b, k)
  {
    if a == "" {
      assert Precedes(a, b, 0);
    } else if b != "" && a[0] == b[0] {
      TextBeforeMeans(a[1..], b[1..]);
      if k: nat :| Precedes(a[1..], b[1..], k) {
        PrecedesCons(a, b, k);
      }
      if k: nat :| Precedes(a, b, k) {
        PrecedesCons(a, b, k - 1);
      }
    } else {
      assert b != "" && a[0] < b[0] ==> Precedes(a, b, 0);
    }
  }

  lemma PrecedesCons(a: string, b: string, k: nat)
    requires a != "" && b != "" && a[0] == b[0]
    ensures Precedes(a, b, k + 1) <==> Precedes(a[1..], b[1..], k)
  {
    if k < |a| && k < |b| {
      assert a[..k + 1] == [a[0]] + a[1..][..k] && b[..k + 1] == [b[0]] + b[1..][..k];
      assert a[1..][..k] == a[..k + 1][1..] && b[1..][..k] == b[..k + 1][1..];
    }
  }

  /** Quoted fields stand by their start and, where that ties, by their name. */
  lemma QuoteOrderMeans(f: ExtractedResult, g: ExtractedResult)
    requires f.charStart.Some? && g.charStart.Some? && SpanOrder(f, g)
    ensures f.charStart.value <= g.charStart.value
    ensures f.charStart == g.charStart ==> exists k: nat :: Precedes(f.name, g.name, k)
  {
    TextBeforeMeans(f.name, g.name);
  }

  /** A suggestion shown earlier was made at least as often; of two made equally often it was not reviewed later, one
      without a review time counting as earliest; and where these tie its key comes first. */
  lemma DisplayOrderMeans(s: Suggestion, t: Suggestion)
    requires DisplayOrder(s, t)
    ensures s.occurrences >= t.occurrences
    ensures s.occurrences == t.occurrences ==>
              (s.lastReviewed.Some? ==> t.lastReviewed.Some? && s.lastReviewed.value <= t.lastReviewed.value)
    ensures s.occurrences == t.occurrences && s.lastReviewed == t.lastReviewed ==> exists k: nat :: Precedes(s.key, t.key, k)
  {
    TextBeforeMeans(s.key, t.key);
  }
}
