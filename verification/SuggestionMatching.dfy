/** When a draft counts as an applied suggestion: the comparison of any draft with any suggestion. */
module SuggestionMatching {
  import opened Basics
  import opened Text
  import opened DraftCodec
  import opened AppliedSuggestions
  import opened DraftMeaning
  import Sorting

  // ---------------------------------------------------------------------------------------------
  // Line endings
  // ---------------------------------------------------------------------------------------------

  predicate HasCrLf(s: string) {
    exists i :: 0 <= i < |s| - 1 && s[i] == '\r' && s[i + 1] == '\n'
  }

  /** Every carriage return with its line feed becomes a line feed, and nothing else changes. */
  lemma {:induction false} UnixLinesMean(a: string, b: string)
    ensures !HasCrLf(a) ==> UnixLines(a) == a
    ensures UnixLines(a + "\r\n" + b) == UnixLines(a) + "\n" + UnixLines(b)
    decreases |a|
  {
    var s := a + "\r\n" + b;
    if a == "" {
      assert s[2..] == b && s[0] == '\r' && s[1] == '\n';
      assert ['\n'] + UnixLines(b) == "" + "\n" + UnixLines(b);
    } else if |a| >= 2 && a[0] == '\r' && a[1] == '\n' {
      UnixLinesMean(a[2..], b);
      assert s[2..] == a[2..] + "\r\n" + b && s[0] == a[0] && s[1] == a[1];
      Regroup(['\n'], UnixLines(a[2..]), "\n");
      Regroup(['\n'], UnixLines(a[2..]) + "\n", UnixLines(b));
    } else {
      UnixLinesMean(a[1..], b);
      assert s[1..] == a[1..] + "\r\n" + b && s[0] == a[0];
      assert |a| >= 2 ==> s[1] == a[1];
      assert |a| == 1 ==> s[1] == '\r';
      Regroup([a[0]], UnixLines(a[1..]), "\n");
      Regroup([a[0]], UnixLines(a[1..]) + "\n", UnixLines(b));
      CrLfInTail(a);
      assert [a[0]] + a[1..] == a;
    }
  }

  lemma CrLfInTail(a: string)
    requires a != ""
    ensures HasCrLf(a[1..]) ==> HasCrLf(a)
  {
    if i :| 0 <= i < |a[1..]| - 1 && a[1..][i] == '\r' && a[1..][i + 1] == '\n' {
      assert a[i + 1] == '\r' && a[i + 2] == '\n';
    }
  }

  // ---------------------------------------------------------------------------------------------
  // Objects in key order
  // ---------------------------------------------------------------------------------------------

  /** The collation puts any two different keys in one order. */
  ghost predicate StrictCollation(le: Collation) {
    && (forall x, y :: le(x, y) || le(y, x))
    && (forall x, y, z :: le(x, y) && le(y, z) ==> le(x, z))
    && (forall x, y :: le(x, y) && le(y, x) ==> x == y)
  }

  ghost predicate KeySorted(r: seq<Entry>, le: Collation) {
    forall i, j | 0 <= i < j < |r| :: le(r[i].key, r[j].key)
  }

  lemma SortedByKey(es: seq<Entry>, le: Collation)
    requires StrictCollation(le)
    ensures KeySorted(Sorting.Sort(es, ByKey(le)), le)
  {
    var before := ByKey(le);
    forall a, b
      ensures before(a, b) || before(b, a)
    {
      assert le(a.key, b.key) || le(b.key, a.key);
    }
    forall a, b, c | before(a, b) && before(b, c)
      ensures before(a, c)
    {
      assert le(a.key, b.key) && le(b.key, c.key);
    }
    Sorting.SortSorts(es, before);
    var sorted := Sorting.Sort(es, before);
    forall i, j | 0 <= i < j < |sorted|
      ensures le(sorted[i].key, sorted[j].key)
    {
      assert before(sorted[i], sorted[j]);
    }
  }

  lemma {:induction false} PutAllKeepsKeys(es: seq<Entry>, i: nat)
    requires i < |PutAll(es)|
    ensures exists k :: 0 <= k < |es| && es[k].key == PutAll(es)[i].key
  {
    if es != [] {
      var n := |es| - 1;
      var before := PutAll(es[..n]);
      var at := PutAt(before, es[n]);
      if i < |before| && i != at {
        PutAllKeepsKeys(es[..n], i);
        var k :| 0 <= k < n && es[..n][k].key == before[i].key;
        assert es[k].key == PutAll(es)[i].key;
      } else {
        assert PutAll(es)[i].key == es[n].key;
      }
    }
  }

  lemma {:induction false} PutAllSorted(es: seq<Entry>, le: Collation)
    requires StrictCollation(le) && KeySorted(es, le)
    ensures KeySorted(PutAll(es), le)
  {
    if es != [] {
      var n := |es| - 1;
      PutAllSorted(es[..n], le);
      var before := PutAll(es[..n]);
      var at := PutAt(before, es[n]);
      if at == |before| {
        forall i | 0 <= i < |before|
          ensures le(before[i].key, es[n].key)
        {
          PutAllKeepsKeys(es[..n], i);
          var k :| 0 <= k < n && es[..n][k].key == before[i].key;
          assert es[k].key == before[i].key;
        }
      }
    }
  }

  lemma {:induction false} GetSome(r: Record, key: string)
    ensures Get(r, key).Some? <==> exists i :: 0 <= i < |r| && r[i].key == key
  {
    if r != [] {
      GetSome(r[1..], key);
      if i :| 0 <= i < |r[1..]| && r[1..][i].key == key {
        assert r[i + 1].key == key;
      }
      if i :| 0 < i < |r| && r[i].key == key {
        assert r[1..][i - 1].key == key;
      }
    }
  }

  lemma FirstKeyLeast(r: Record, q: Record, le: Collation)
    requires StrictCollation(le) && KeySorted(r, le) && r != [] && q != []
    requires forall key :: Get(r, key) == Get(q, key)
    ensures le(r[0].key, q[0].key)
  {
    GetSome(q, q[0].key);
    GetSome(r, q[0].key);
    assert q[0].key == q[0].key;
    var i :| 0 <= i < |r| && r[i].key == q[0].key;
  }

  lemma TailGets(r: Record, key: string)
    requires r != [] && DistinctKeys(r)
    ensures Get(r[1..], key) == if key == r[0].key then None else Get(r, key)
  {
    GetSome(r[1..], key);
    if i :| 0 <= i < |r[1..]| && r[1..][i].key == key {
      assert r[i + 1].key == key;
    }
  }

  lemma FirstGets(r: Record)
    ensures r != [] ==> Get(r, r[0].key).Some?
  {
  }

  /** Objects in key order with the same values are the same. */
  lemma {:induction false} SortedObjectsEqual(r: Record, q: Record, le: Collation)
    requires StrictCollation(le) && KeySorted(r, le) && KeySorted(q, le) && DistinctKeys(r) && DistinctKeys(q)
    requires forall key :: Get(r, key) == Get(q, key)
    ensures r == q
    decreases |r|
  {
    FirstGets(r);
    FirstGets(q);
    if r != [] && q != [] {
      FirstKeyLeast(r, q, le);
      FirstKeyLeast(q, r, le);
      assert Get(r, r[0].key) == Get(q, r[0].key);
      forall key
        ensures Get(r[1..], key) == Get(q[1..], key)
      {
        TailGets(r, key);
        TailGets(q, key);
      }
      SortedObjectsEqual(r[1..], q[1..], le);
      assert r == [r[0]] + r[1..] && q == [q[0]] + q[1..];
    }
  }

  lemma ComparableSorted(es: seq<Entry>, le: Collation)
    requires StrictCollation(le)
    ensures KeySorted(Comparable(es, le), le) && DistinctKeys(Comparable(es, le))
  {
    SortedByKey(es, le);
    PutAllSorted(Sorting.Sort(es, ByKey(le)), le);
    PutAllDistinct(Sorting.Sort(es, ByKey(le)));
  }

  /** Comparable objects are equal exactly when they hold the same value under every key, in whatever order the
      attributes were typed. */
  lemma ComparableMeans(xs: seq<Entry>, ys: seq<Entry>, le: Collation)
    requires StrictCollation(le)
    ensures Comparable(xs, le) == Comparable(ys, le) <==> SameLast(xs, ys)
  {
    var r, q := Comparable(xs, le), Comparable(ys, le);
    forall key
      ensures Get(r, key) == Last(xs, key) && Get(q, key) == Last(ys, key)
    {
      ComparableGet(xs, le, key);
      ComparableGet(ys, le, key);
    }
    if SameLast(xs, ys) {
      ComparableSorted(xs, le);
      ComparableSorted(ys, le);
      SortedObjectsEqual(r, q, le);
    }
  }

  // ---------------------------------------------------------------------------------------------
  // Any draft against any suggestion
  // ---------------------------------------------------------------------------------------------

  /** The value of a suggestion's attribute as it is compared: trimmed, a list without its blank items. */
  function Offered(v: AttributeValue): AttributeValue {
    match v
    case One(text) => One(Trim(text))
    case Many(items) => Many(TrimAll(items))
  }

  function OfferedUnder(r: Record, key: string): Option<AttributeValue> {
    if r == [] then None
    else
      var last := r[|r| - 1];
      if Trim(last.key) == key then Some(Offered(last.value)) else OfferedUnder(r[..|r| - 1], key)
  }

  lemma {:induction false} SuggestionEntriesHold(r: Record, key: string)
    ensures Last(SuggestionEntries(r), key) == OfferedUnder(r, key)
  {
    if r != [] {
      var n := |r| - 1;
      SuggestionEntriesHold(r[..n], key);
      LastSnoc(SuggestionEntries(r[..n]), TrimEntry(r[n]), key);
    }
  }

  lemma {:induction false} DraftEntriesHold(attributes: seq<DraftAttribute>)
    ensures DraftEntries(attributes).Ok? <==> forall i | 0 <= i < |attributes| :: AttributeProblem(attributes[i]).None?
    ensures DraftEntries(attributes).Ok? ==>
              forall key :: Last(DraftEntries(attributes).value, key) == SavedUnder(attributes, key)
    decreases |attributes|
  {
    if attributes != [] {
      var n := |attributes| - 1;
      var before := attributes[..n];
      DraftEntriesHold(before);
      assert forall i | 0 <= i < n :: before[i] == attributes[i];
      var entry := BuildAttribute(attributes[n]);
      assert entry.Ok? <==> AttributeProblem(attributes[n]).None?;
      if DraftEntries(attributes).Ok? {
        forall key
          ensures Last(DraftEntries(attributes).value, key) == SavedUnder(attributes, key)
        {
          LastSnoc(DraftEntries(before).value, entry.value, key);
        }
      }
    }
  }

  /** A typed extraction says what the suggested one says. */
  ghost predicate SaysTheSame(d: DraftExtraction, x: Extraction) {
    && Trim(d.cls) == Trim(x.cls) && Trim(d.cls) != "" && Trim(d.text) == Trim(x.text) && Trim(d.text) != ""
    && (forall i | 0 <= i < |d.attributes| :: AttributeProblem(d.attributes[i]).None?)
    && SameUnderKeys(d.attributes, x.attributes)
  }

  ghost predicate SameUnderKeys(attributes: seq<DraftAttribute>, r: Record) {
    forall key :: SavedUnder(attributes, key) == OfferedUnder(r, key)
  }

  lemma SameUnderKeysMeans(attributes: seq<DraftAttribute>, r: Record)
    requires DraftEntries(attributes).Ok?
    ensures SameUnderKeys(attributes, r) <==> SameLast(DraftEntries(attributes).value, SuggestionEntries(r))
  {
    var ds, es := DraftEntries(attributes).value, SuggestionEntries(r);
    DraftEntriesHold(attributes);
    forall key
      ensures Last(ds, key) == SavedUnder(attributes, key) && Last(es, key) == OfferedUnder(r, key)
    {
      SuggestionEntriesHold(r, key);
    }
    if SameLast(ds, es) {
      forall key
        ensures SavedUnder(attributes, key) == OfferedUnder(r, key)
      {
        assert Last(ds, key) == Last(es, key);
      }
    }
  }

  ghost predicate AllSayTheSame(ds: seq<DraftExtraction>, xs: seq<Extraction>) {
    |ds| == |xs| && forall j | 0 <= j < |ds| :: SaysTheSame(ds[j], xs[j])
  }

  lemma FirstSays(d: DraftExtraction, x: Extraction, le: Collation)
    requires StrictCollation(le)
    ensures SaysTheSame(d, x) <==>
              && Trim(d.cls) != "" && Trim(d.text) != "" && DraftEntries(d.attributes).Ok?
              && Extraction(Trim(d.cls), Trim(d.text), Comparable(DraftEntries(d.attributes).value, le))
                 == Extraction(Trim(x.cls), Trim(x.text), Comparable(SuggestionEntries(x.attributes), le))
  {
    DraftEntriesHold(d.attributes);
    if DraftEntries(d.attributes).Ok? {
      SameUnderKeysMeans(d.attributes, x.attributes);
      ComparableMeans(DraftEntries(d.attributes).value, SuggestionEntries(x.attributes), le);
    }
  }

  lemma {:induction false} SuggestionLength(xs: seq<Extraction>, le: Collation)
    ensures |ComparableSuggestionExtractions(xs, le)| == |xs|
  {
    if xs != [] {
      SuggestionLength(xs[1..], le);
    }
  }

  lemma {:induction false} DraftLength(ds: seq<DraftExtraction>, le: Collation)
    ensures ComparableDraftExtractions(ds, le).Ok? ==> |ComparableDraftExtractions(ds, le).value| == |ds|
  {
    if ds != [] {
      DraftLength(ds[1..], le);
    }
  }

  lemma AllSayCons(ds: seq<DraftExtraction>, xs: seq<Extraction>)
    requires ds != [] && xs != []
    ensures AllSayTheSame(ds, xs) <==> SaysTheSame(ds[0], xs[0]) && AllSayTheSame(ds[1..], xs[1..])
  {
    if SaysTheSame(ds[0], xs[0]) && AllSayTheSame(ds[1..], xs[1..]) {
      forall j | 0 < j < |ds|
        ensures SaysTheSame(ds[j], xs[j])
      {
        assert ds[j] == ds[1..][j - 1] && xs[j] == xs[1..][j - 1];
      }
    }
    if AllSayTheSame(ds, xs) {
      forall j | 0 <= j < |ds[1..]|
        ensures SaysTheSame(ds[1..][j], xs[1..][j])
      {
        assert ds[1..][j] == ds[j + 1] && xs[1..][j] == xs[j + 1];
      }
    }
  }

  lemma {:induction false} ExtractionsMatch(ds: seq<DraftExtraction>, xs: seq<Extraction>, le: Collation)
    requires StrictCollation(le)
    ensures ComparableDraftExtractions(ds, le) == Ok(ComparableSuggestionExtractions(xs, le)) <==> AllSayTheSame(ds, xs)
  {
    SuggestionLength(xs, le);
    DraftLength(ds, le);
    if ds != [] && xs != [] {
      ExtractionsMatch(ds[1..], xs[1..], le);
      AllSayCons(ds, xs);
      FirstSays(ds[0], xs[0], le);
      MatchCons(ds, xs, le);
    }
  }

  lemma MatchCons(ds: seq<DraftExtraction>, xs: seq<Extraction>, le: Collation)
    requires ds != [] && xs != []
    ensures ComparableDraftExtractions(ds, le) == Ok(ComparableSuggestionExtractions(xs, le)) <==>
              && Trim(ds[0].cls) != "" && Trim(ds[0].text) != "" && DraftEntries(ds[0].attributes).Ok?
              && Extraction(Trim(ds[0].cls), Trim(ds[0].text), Comparable(DraftEntries(ds[0].attributes).value, le))
                 == Extraction(Trim(xs[0].cls), Trim(xs[0].text), Comparable(SuggestionEntries(xs[0].attributes), le))
              && ComparableDraftExtractions(ds[1..], le) == Ok(ComparableSuggestionExtractions(xs[1..], le))
  {
    var whole, all := ComparableDraftExtractions(ds, le), ComparableSuggestionExtractions(xs, le);
    var rest := ComparableDraftExtractions(ds[1..], le);
    assert all[1..] == ComparableSuggestionExtractions(xs[1..], le);
    if whole.Ok? {
      assert rest.Ok? && whole.value[1..] == rest.value;
      assert whole.value == [whole.value[0]] + whole.value[1..] && all == [all[0]] + all[1..];
    }
  }

  /** A draft counts as an applied suggestion exactly when, spaces and line endings aside, its text is the suggested one
      and its extractions say the same in the same order, each complete and with the same value under every key. */
  lemma MatchesExactlyWhen(d: DraftExample, e: Example, le: Collation)
    requires StrictCollation(le)
    ensures ComparableDraft(d, le) == Ok(ComparableSuggestion(e, le)) <==>
              && Trim(UnixLines(d.text)) == Trim(UnixLines(e.text)) && Trim(UnixLines(d.text)) != ""
              && d.extractions != [] && AllSayTheSame(d.extractions, e.extractions)
  {
    ExtractionsMatch(d.extractions, e.extractions, le);
  }
}
