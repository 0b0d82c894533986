/** What a build saves and what a reload shows, in terms of the strings that the user typed. */
module DraftMeaning {
  import opened Basics
  import opened Text
  import opened DraftCodec
  import opened AppliedSuggestions

  // ---------------------------------------------------------------------------------------------
  // Lists
  // ---------------------------------------------------------------------------------------------

  /** The lines of a text put together again are the text; none of them holds a line feed. */
  lemma {:induction false} SplitMeans(s: string)
    ensures Join(SplitAtLineFeeds(s), "\n") == s
    ensures forall i | 0 <= i < |SplitAtLineFeeds(s)| :: '\n' !in SplitAtLineFeeds(s)[i]
  {
    if s != "" {
      SplitMeans(s[1..]);
      var rest := SplitAtLineFeeds(s[1..]);
      if s[0] == '\n' {
        assert ([""] + rest)[1..] == rest;
        assert "" + "\n" + s[1..] == s;
      } else {
        JoinHead(s[0], rest);
        assert [s[0]] + s[1..] == s;
      }
    }
  }

  lemma JoinHead(c: char, lines: seq<string>)
    requires lines != []
    ensures Join([[c] + lines[0]] + lines[1..], "\n") == [c] + Join(lines, "\n")
  {
    var more := [[c] + lines[0]] + lines[1..];
    if |lines| > 1 {
      assert more[1..] == lines[1..];
      Regroup([c], lines[0], "\n");
      Regroup([c], lines[0] + "\n", Join(lines[1..], "\n"));
    }
  }

  /** The items of a list are the trimmed lines that are not blank, in their order. */
  lemma TrimAllMeans(lines: seq<string>, line: string)
    ensures TrimAll([]) == []
    ensures TrimAll(lines + [line]) == TrimAll(lines) + (if Trim(line) == "" then [] else [Trim(line)])
  {
    TrimAllConcat(lines, [line]);
    assert [line][1..] == [];
    var own := if Trim(line) == "" then [] else [Trim(line)];
    assert TrimAll([line]) == own + TrimAll([]);
    assert own + [] == own;
  }

  // ---------------------------------------------------------------------------------------------
  // What a build saves
  // ---------------------------------------------------------------------------------------------

  /** The saved form of one typed value. */
  function Saved(a: DraftAttribute): AttributeValue {
    if a.kind == ArrayKind then Many(TrimAll(SplitAtLineFeeds(a.value))) else One(Trim(a.value))
  }

  /** The value saved under a key: that of the last attribute typed with it. */
  function SavedUnder(attributes: seq<DraftAttribute>, key: string): Option<AttributeValue> {
    if attributes == [] then None
    else
      var last := attributes[|attributes| - 1];
      if Trim(last.key) == key then Some(Saved(last)) else SavedUnder(attributes[..|attributes| - 1], key)
  }

  function AddKey(keys: seq<string>, key: string): seq<string> {
    if key in keys then keys else keys + [key]
  }

  /** The trimmed keys, each where it was typed first. */
  function KeysInOrder(attributes: seq<DraftAttribute>): seq<string> {
    if attributes == [] then []
    else AddKey(KeysInOrder(attributes[..|attributes| - 1]), Trim(attributes[|attributes| - 1].key))
  }

  function KeyList(r: Record): (ks: seq<string>)
    ensures |ks| == |r| && forall i | 0 <= i < |r| :: ks[i] == r[i].key
  {
    seq(|r|, i requires 0 <= i < |r| => r[i].key)
  }

  lemma PutAddsKey(r: Record, e: Entry)
    ensures KeyList(Put(r, e)) == AddKey(KeyList(r), e.key)
  {
    var k := PutAt(r, e);
    if k < |r| {
      assert KeyList(r)[k] == e.key;
    } else {
      assert e.key !in KeyList(r);
    }
  }

  /** The object holds the saved values under the keys in their order. */
  ghost predicate HoldsSaved(r: Record, attributes: seq<DraftAttribute>) {
    && KeyList(r) == KeysInOrder(attributes)
    && forall key :: Get(r, key) == SavedUnder(attributes, key)
  }

  lemma {:induction false} AttributesSaved(attributes: seq<DraftAttribute>)
    requires BuildAttributes(attributes).Ok?
    ensures HoldsSaved(BuildAttributes(attributes).value, attributes)
  {
    if attributes != [] {
      var n := |attributes| - 1;
      AttributesSaved(attributes[..n]);
      var before := BuildAttributes(attributes[..n]).value;
      var entry := BuildAttribute(attributes[n]).value;
      assert entry == Entry(Trim(attributes[n].key), Saved(attributes[n]));
      PutAddsKey(before, entry);
      forall key
        ensures Get(Put(before, entry), key) == SavedUnder(attributes, key)
      {
        GetPut(before, entry, key);
      }
    }
  }

  ghost predicate ExtractionSaved(x: Extraction, d: DraftExtraction) {
    x.cls == Trim(d.cls) && x.text == Trim(d.text) && HoldsSaved(x.attributes, d.attributes)
  }

  ghost predicate ExampleSaved(e: Example, d: DraftExample) {
    && e.text == Trim(d.text) && |e.extractions| == |d.extractions|
    && forall j | 0 <= j < |d.extractions| :: ExtractionSaved(e.extractions[j], d.extractions[j])
  }

  lemma {:induction false} ExtractionsSaved(xs: seq<DraftExtraction>, known: set<string>)
    requires BuildExtractions(xs, known).Ok?
    ensures var ys := BuildExtractions(xs, known).value;
            |ys| == |xs| && forall j | 0 <= j < |xs| :: ExtractionSaved(ys[j], xs[j])
  {
    if xs != [] {
      ExtractionsSaved(xs[1..], known);
      AttributesSaved(xs[0].attributes);
      var ys := BuildExtractions(xs, known).value;
      assert ys[1..] == BuildExtractions(xs[1..], known).value;
      forall j | 0 < j < |xs|
        ensures ExtractionSaved(ys[j], xs[j])
      {
        assert ys[j] == ys[1..][j - 1] && xs[j] == xs[1..][j - 1];
      }
    }
  }

  lemma {:induction false} ExamplesSaved(ds: seq<DraftExample>, known: set<string>)
    requires BuildExamples(ds, known).Ok?
    ensures var es := BuildExamples(ds, known).value;
            |es| == |ds| && forall i | 0 <= i < |ds| :: ExampleSaved(es[i], ds[i])
  {
    if ds != [] {
      ExamplesSaved(ds[1..], known);
      ExtractionsSaved(ds[0].extractions, known);
      var es := BuildExamples(ds, known).value;
      assert es[1..] == BuildExamples(ds[1..], known).value;
      forall i | 0 < i < |ds|
        ensures ExampleSaved(es[i], ds[i])
      {
        assert es[i] == es[1..][i - 1] && ds[i] == ds[1..][i - 1];
      }
    }
  }

  /** A build saves what was typed, trimmed and in order: texts, classes, and under each key the value typed last. */
  lemma BuildSaves(drafts: seq<DraftExample>, valid: seq<string>, required: seq<string>)
    requires Build(drafts, valid, required).Ok?
    ensures var es := Build(drafts, valid, required).value;
            |es| == |drafts| && forall i | 0 <= i < |drafts| :: ExampleSaved(es[i], drafts[i])
  {
    ExamplesSaved(drafts, TrimmedNames(valid));
  }

  // ---------------------------------------------------------------------------------------------
  // What a failed build reports
  // ---------------------------------------------------------------------------------------------

  /** The first thing wrong with an attribute. */
  function AttributeProblem(a: DraftAttribute): Option<BuildError> {
    if Trim(a.key) == "" then Some(NeedsAttributeName)
    else if Saved(a) in {One(""), Many([])} then Some(NeedsAttributeValue)
    else None
  }

  /** The problem of the first attribute that has one. */
  function FirstProblem(attributes: seq<DraftAttribute>): Option<BuildError> {
    if attributes == [] then None
    else if AttributeProblem(attributes[0]).Some? then AttributeProblem(attributes[0])
    else FirstProblem(attributes[1..])
  }

  lemma {:induction false} FirstProblemSnoc(attributes: seq<DraftAttribute>, a: DraftAttribute)
    ensures FirstProblem(attributes + [a])
         == if FirstProblem(attributes).Some? then FirstProblem(attributes) else AttributeProblem(a)
  {
    if attributes == [] {
      assert attributes + [a] == [a];
    } else {
      FirstProblemSnoc(attributes[1..], a);
      assert (attributes + [a])[1..] == attributes[1..] + [a] && (attributes + [a])[0] == attributes[0];
    }
  }

  lemma {:induction false} AttributesReport(attributes: seq<DraftAttribute>)
    ensures match FirstProblem(attributes)
            case Some(e) => BuildAttributes(attributes) == Raise(e)
            case None => BuildAttributes(attributes).Ok?
  {
    if attributes != [] {
      var n := |attributes| - 1;
      AttributesReport(attributes[..n]);
      FirstProblemSnoc(attributes[..n], attributes[n]);
      assert attributes == attributes[..n] + [attributes[n]];
    }
  }

  function ExtractionProblem(x: DraftExtraction, known: set<string>): Option<BuildError> {
    if Trim(x.cls) == "" then Some(NeedsFieldName)
    else if known != {} && Trim(x.cls) !in known then Some(UnknownField)
    else if Trim(x.text) == "" then Some(NeedsExtractionText)
    else FirstProblem(x.attributes)
  }

  function FirstExtractionProblem(xs: seq<DraftExtraction>, known: set<string>): Option<BuildError> {
    if xs == [] then None
    else if ExtractionProblem(xs[0], known).Some? then ExtractionProblem(xs[0], known)
    else FirstExtractionProblem(xs[1..], known)
  }

  lemma {:induction false} ExtractionsReport(xs: seq<DraftExtraction>, known: set<string>)
    ensures match FirstExtractionProblem(xs, known)
            case Some(e) => BuildExtractions(xs, known) == Raise(e)
            case None => BuildExtractions(xs, known).Ok?
  {
    if xs != [] {
      AttributesReport(xs[0].attributes);
      ExtractionsReport(xs[1..], known);
    }
  }

  function ExampleProblem(d: DraftExample, known: set<string>): Option<BuildError> {
    if Trim(d.text) == "" then Some(NeedsSourceText)
    else if |d.extractions| == 0 then Some(NeedsExtraction)
    else FirstExtractionProblem(d.extractions, known)
  }

  function FirstExampleProblem(ds: seq<DraftExample>, known: set<string>): Option<BuildError> {
    if ds == [] then None
    else if ExampleProblem(ds[0], known).Some? then ExampleProblem(ds[0], known)
    else FirstExampleProblem(ds[1..], known)
  }

  lemma {:induction false} ExamplesReport(ds: seq<DraftExample>, known: set<string>)
    ensures match FirstExampleProblem(ds, known)
            case Some(e) => BuildExamples(ds, known) == Raise(e)
            case None => BuildExamples(ds, known).Ok?
  {
    if ds != [] {
      ExtractionsReport(ds[0].extractions, known);
      ExamplesReport(ds[1..], known);
    }
  }

  /** A failed build reports the first problem of the first example that has one, and a missing required field only when
      every example is sound. */
  lemma BuildReports(drafts: seq<DraftExample>, valid: seq<string>, required: seq<string>)
    requires Build(drafts, valid, required).Raise?
    ensures Build(drafts, valid, required).error
         == match FirstExampleProblem(drafts, TrimmedNames(valid)) case Some(e) => e case None => UncoveredField
  {
    ExamplesReport(drafts, TrimmedNames(valid));
  }

  // ---------------------------------------------------------------------------------------------
  // What a reload shows
  // ---------------------------------------------------------------------------------------------

  /** A stored value as it is shown: a text as it is, a list one item per line. */
  predicate ShowsEntry(a: DraftAttribute, e: Entry) {
    && a.key == e.key
    && match e.value
       case One(text) => a.kind == StringKind && a.value == text
       case Many(items) => a.kind == ArrayKind && a.value == Join(items, "\n")
  }

  predicate ShowsExtraction(d: DraftExtraction, x: Extraction) {
    && d.cls == x.cls && d.text == x.text && |d.attributes| == |x.attributes|
    && forall k | 0 <= k < |x.attributes| :: ShowsEntry(d.attributes[k], x.attributes[k])
  }

  predicate ShowsExample(d: DraftExample, e: Example) {
    && d.text == e.text && |d.extractions| == |e.extractions|
    && forall j | 0 <= j < |e.extractions| :: ShowsExtraction(d.extractions[j], e.extractions[j])
  }

  lemma {:induction false} ExtractionsShown(xs: seq<Extraction>)
    ensures var ds := DraftOfExtractions(xs);
            |ds| == |xs| && forall j | 0 <= j < |xs| :: ShowsExtraction(ds[j], xs[j])
  {
    if xs != [] {
      ExtractionsShown(xs[1..]);
      var ds := DraftOfExtractions(xs);
      assert ds[1..] == DraftOfExtractions(xs[1..]);
      forall j | 0 < j < |xs|
        ensures ShowsExtraction(ds[j], xs[j])
      {
        assert ds[j] == ds[1..][j - 1] && xs[j] == xs[1..][j - 1];
      }
    }
  }

  /** A reload shows every stored text, class and attribute in its place. */
  lemma {:induction false} ReloadShows(es: seq<Example>)
    ensures var ds := DraftOfExamples(es);
            |ds| == |es| && forall i | 0 <= i < |es| :: ShowsExample(ds[i], es[i])
  {
    if es != [] {
      ReloadShows(es[1..]);
      ExtractionsShown(es[0].extractions);
      var ds := DraftOfExamples(es);
      assert ds[1..] == DraftOfExamples(es[1..]);
      forall i | 0 < i < |es|
        ensures ShowsExample(ds[i], es[i])
      {
        assert ds[i] == ds[1..][i - 1] && es[i] == es[1..][i - 1];
      }
    }
  }

  // ---------------------------------------------------------------------------------------------
  // When a build succeeds
  // ---------------------------------------------------------------------------------------------

  /** A class is accepted when it is one of the template's fields, or the template names none. */
  predicate IsField(valid: seq<string>, cls: string) {
    || (forall i | 0 <= i < |valid| :: Trim(valid[i]) == "")
    || exists i :: 0 <= i < |valid| && Trim(valid[i]) == Trim(cls)
  }

  lemma KnownMeans(valid: seq<string>, cls: string)
    requires Trim(cls) != ""
    ensures IsKnown(Trim(cls), TrimmedNames(valid)) <==> IsField(valid, cls)
  {
    var known := TrimmedNames(valid);
    if i :| 0 <= i < |valid| && Trim(valid[i]) != "" {
      assert Trim(valid[i]) in known;
    }
  }

  /** A draft list builds exactly when every example is complete, every class is a field of the template, and every
      required field that has a name is the class of some extraction. */
  lemma BuildsExactlyWhen(drafts: seq<DraftExample>, valid: seq<string>, required: seq<string>)
    ensures Build(drafts, valid, required).Ok? <==>
              && (forall d | d in drafts :: ExampleComplete(d) && forall x | x in d.extractions :: IsField(valid, x.cls))
              && (forall r | r in required && Trim(r) != "" :: CoversField(drafts, Trim(r)))
  {
    BuildsIff(drafts, valid, required);
    forall d | d in drafts && ExampleComplete(d)
      ensures ClassesKnown(d, TrimmedNames(valid)) <==> forall x | x in d.extractions :: IsField(valid, x.cls)
    {
      forall x | x in d.extractions
        ensures IsKnown(Trim(x.cls), TrimmedNames(valid)) <==> IsField(valid, x.cls)
      {
        KnownMeans(valid, x.cls);
      }
    }
  }
}
