/** The draft codec of the schema builder: drafts are built into stored examples, and stored examples are
    turned back into drafts for editing. */
module DraftCodec {
  import opened Basics
  import opened Text

  datatype ValueKind = StringKind | ArrayKind
  datatype DraftAttribute = DraftAttribute(key: string, value: string, kind: ValueKind)
  datatype DraftExtraction = DraftExtraction(cls: string, text: string, attributes: seq<DraftAttribute>)
  datatype DraftExample = DraftExample(text: string, extractions: seq<DraftExtraction>)

  datatype AttributeValue = One(text: string) | Many(items: seq<string>)
  datatype Entry = Entry(key: string, value: AttributeValue)
  /** A JavaScript object: entries in insertion order, keys distinct. */
  type Record = seq<Entry>
  datatype Extraction = Extraction(cls: string, text: string, attributes: Record)
  datatype Example = Example(text: string, extractions: seq<Extraction>)

  datatype BuildError =
    | NeedsSourceText
    | NeedsExtraction
    | NeedsFieldName
    | UnknownField
    | NeedsExtractionText
    | NeedsAttributeName
    | NeedsAttributeValue
    | UncoveredField

  type Built<+T> = Result<T, BuildError>

  function Trim(s: string): string {
    Strip(JavaScript, s)
  }

  // ---------------------------------------------------------------------------------------------
  // Lists as lines
  // ---------------------------------------------------------------------------------------------

  /** `split("\n")`: one more piece than there are line feeds. */
  function SplitAtLineFeeds(s: string): (lines: seq<string>)
    ensures lines != []
    ensures forall i | 0 <= i < |lines| :: '\n' !in lines[i]
  {
    if s == "" then [""]
    else
      var rest := SplitAtLineFeeds(s[1..]);
      if s[0] == '\n' then [""] + rest else [[s[0]] + rest[0]] + rest[1..]
  }

  /** The trimmed, non-empty lines. */
  function TrimAll(lines: seq<string>): (items: seq<string>)
    ensures (forall i | 0 <= i < |lines| :: '\n' !in lines[i]) ==> NormalItems(items)
  {
    if lines == [] then []
    else
      TrimKeepsLine(lines[0]);
      StripIdempotent(JavaScript, lines[0]);
      (if Trim(lines[0]) == "" then [] else [Trim(lines[0])]) + TrimAll(lines[1..])
  }

  predicate NormalItems(items: seq<string>) {
    forall i | 0 <= i < |items| :: items[i] != "" && Trim(items[i]) == items[i] && '\n' !in items[i]
  }

  lemma TrimKeepsLine(s: string)
    ensures '\n' !in s ==> '\n' !in Trim(s)
  {
    var lo, hi := StripIsSpan(JavaScript, s);
  }

  lemma {:induction false} SplitPrefix(a: string, s: string)
    requires '\n' !in a
    ensures SplitAtLineFeeds(a + "\n" + s) == [a] + SplitAtLineFeeds(s)
  {
    if a == "" {
      assert (a + "\n" + s)[1..] == s;
    } else {
      SplitPrefix(a[1..], s);
      assert (a + "\n" + s)[1..] == a[1..] + "\n" + s;
      assert [a[0]] + a[1..] == a;
    }
  }

  lemma {:induction false} SplitSingle(a: string)
    requires '\n' !in a
    ensures SplitAtLineFeeds(a) == [a]
  {
    if a != "" {
      SplitSingle(a[1..]);
      assert [a[0]] + a[1..] == a;
    }
  }

  /** Joining normal items with line feeds and splitting again gives them back. */
  lemma {:induction false} SplitJoin(items: seq<string>)
    requires items != [] && NormalItems(items)
    ensures SplitAtLineFeeds(Join(items, "\n")) == items
  {
    if |items| == 1 {
      SplitSingle(items[0]);
    } else {
      SplitJoin(items[1..]);
      SplitPrefix(items[0], Join(items[1..], "\n"));
    }
  }

  lemma {:induction false} TrimAllFixes(items: seq<string>)
    requires NormalItems(items)
    ensures TrimAll(items) == items
  {
    if items != [] {
      TrimAllFixes(items[1..]);
    }
  }

  // ---------------------------------------------------------------------------------------------
  // Building
  // ---------------------------------------------------------------------------------------------

  function BuildAttribute(a: DraftAttribute): Built<Entry> {
    var key := Trim(a.key);
    if key == "" then Raise(NeedsAttributeName)
    else if a.kind.ArrayKind? then
      var items := TrimAll(SplitAtLineFeeds(a.value));
      if items == [] then Raise(NeedsAttributeValue) else Ok(Entry(key, Many(items)))
    else
      var value := Trim(a.value);
      if value == "" then Raise(NeedsAttributeValue) else Ok(Entry(key, One(value)))
  }

  predicate HasKey(r: Record, key: string) {
    exists i :: 0 <= i < |r| && r[i].key == key
  }

  /** Assignment of a property: a repeated key keeps its place and takes the new value. */
  function Put(r: Record, e: Entry): Record {
    if r == [] then [e]
    else if r[0].key == e.key then [e] + r[1..]
    else [r[0]] + Put(r[1..], e)
  }

  function BuildAttributes(attributes: seq<DraftAttribute>): Built<Record>
    decreases |attributes|
  {
    if attributes == [] then Ok([])
    else
      var before :- BuildAttributes(attributes[..|attributes| - 1]);
      var entry :- BuildAttribute(attributes[|attributes| - 1]);
      Ok(Put(before, entry))
  }

  function TrimmedNames(names: seq<string>): set<string> {
    set n | n in names && Trim(n) != "" :: Trim(n)
  }

  predicate IsKnown(cls: string, known: set<string>) {
    known == {} || cls in known
  }

  function BuildExtraction(x: DraftExtraction, known: set<string>): Built<Extraction> {
    var cls, text := Trim(x.cls), Trim(x.text);
    if cls == "" then Raise(NeedsFieldName)
    else if !IsKnown(cls, known) then Raise(UnknownField)
    else if text == "" then Raise(NeedsExtractionText)
    else
      var attributes :- BuildAttributes(x.attributes);
      Ok(Extraction(cls, text, attributes))
  }

  function BuildExtractions(xs: seq<DraftExtraction>, known: set<string>): (r: Built<seq<Extraction>>)
    ensures r.Ok? ==> |r.value| == |xs|
  {
    if xs == [] then Ok([])
    else
      var first :- BuildExtraction(xs[0], known);
      var rest :- BuildExtractions(xs[1..], known);
      Ok([first] + rest)
  }

  function BuildExample(e: DraftExample, known: set<string>): Built<Example> {
    var text := Trim(e.text);
    if text == "" then Raise(NeedsSourceText)
    else if e.extractions == [] then Raise(NeedsExtraction)
    else
      var extractions :- BuildExtractions(e.extractions, known);
      Ok(Example(text, extractions))
  }

  function BuildExamples(es: seq<DraftExample>, known: set<string>): (r: Built<seq<Example>>)
    ensures r.Ok? ==> |r.value| == |es|
  {
    if es == [] then Ok([])
    else
      var first :- BuildExample(es[0], known);
      var rest :- BuildExamples(es[1..], known);
      Ok([first] + rest)
  }

  function ClassesOf(xs: seq<Extraction>): set<string> {
    set i | 0 <= i < |xs| :: xs[i].cls
  }

  /** The field names that extractions of the examples are about. */
  function Covered(es: seq<Example>): set<string> {
    if es == [] then {} else ClassesOf(es[0].extractions) + Covered(es[1..])
  }

  /** Coverage as the source counts it: trimmed classes that are neither blank nor unknown. */
  function CoveredFields(es: seq<Example>, known: set<string>): set<string> {
    set c | c in Covered(es) && Trim(c) != "" && IsKnown(Trim(c), known) :: Trim(c)
  }

  /** The whole build: parse every example, then check coverage of the required fields. */
  function Build(drafts: seq<DraftExample>, valid: seq<string>, required: seq<string>): Built<seq<Example>> {
    var known := TrimmedNames(valid);
    var examples :- BuildExamples(drafts, known);
    if TrimmedNames(required) <= CoveredFields(examples, known) then Ok(examples) else Raise(UncoveredField)
  }

  /** The coverage loops: a set that grows over all extractions. */
  method MissingRequired(es: seq<Example>, valid: seq<string>, required: seq<string>) returns (missing: set<string>)
    ensures missing == TrimmedNames(required) - CoveredFields(es, TrimmedNames(valid))
  {
    var known := TrimmedNames(valid);
    var covered: set<string> := {};
    for i := 0 to |es|
      invariant covered == CoveredFields(es[..i], known)
    {
      CoveredSnoc(es[..i], es[i]);
      assert es[..i + 1] == es[..i] + [es[i]];
      for j := 0 to |es[i].extractions|
        invariant covered == set c | c in Covered(es[..i]) + ClassesOf(es[i].extractions[..j])
                                     && Trim(c) != "" && IsKnown(Trim(c), known) :: Trim(c)
      {
        var cls := es[i].extractions[j].cls;
        ClassesSnoc(es[i].extractions, j);
        if Trim(cls) != "" && !(known != {} && Trim(cls) !in known) {
          covered := covered + {Trim(cls)};
        }
      }
      assert es[i].extractions[..|es[i].extractions|] == es[i].extractions;
    }
    assert es[..|es|] == es;
    missing := TrimmedNames(required) - covered;
  }

  lemma ClassesSnoc(xs: seq<Extraction>, j: nat)
    requires j < |xs|
    ensures ClassesOf(xs[..j + 1]) == ClassesOf(xs[..j]) + {xs[j].cls}
  {
    assert forall i | 0 <= i < j :: xs[..j + 1][i] == xs[..j][i];
    assert xs[..j + 1][j] == xs[j];
  }

  lemma {:induction false} CoveredSnoc(es: seq<Example>, e: Example)
    ensures Covered(es + [e]) == Covered(es) + ClassesOf(e.extractions)
  {
    if es == [] {
      assert es + [e] == [e];
    } else {
      assert (es + [e])[1..] == es[1..] + [e];
      CoveredSnoc(es[1..], e);
    }
  }

  /** On built examples, whose classes are trimmed and known, that coverage is the plain one, so the
      final check of the build refuses exactly when a required field is missing. */
  lemma CoverageOfBuilt(drafts: seq<DraftExample>, valid: seq<string>)
    requires BuildExamples(drafts, TrimmedNames(valid)).Ok?
    ensures var es := BuildExamples(drafts, TrimmedNames(valid)).value;
            CoveredFields(es, TrimmedNames(valid)) == Covered(es)
  {
    BuiltClassesNormal(drafts, TrimmedNames(valid));
  }

  lemma {:induction false} BuiltClassesNormal(drafts: seq<DraftExample>, known: set<string>)
    requires BuildExamples(drafts, known).Ok?
    ensures forall c | c in Covered(BuildExamples(drafts, known).value) :: c != "" && Trim(c) == c && IsKnown(c, known)
  {
    if drafts != [] {
      BuiltClassesNormal(drafts[1..], known);
      var es := BuildExamples(drafts, known).value;
      assert es[1..] == BuildExamples(drafts[1..], known).value;
      BuiltExtractionsNormal(drafts[0].extractions, known);
    }
  }

  lemma {:induction false} BuiltExtractionsNormal(xs: seq<DraftExtraction>, known: set<string>)
    requires BuildExtractions(xs, known).Ok?
    ensures forall i | 0 <= i < |xs| ::
              var c := BuildExtractions(xs, known).value[i].cls;
              c != "" && Trim(c) == c && IsKnown(c, known) && c == Trim(xs[i].cls)
  {
    if xs != [] {
      BuiltExtractionsNormal(xs[1..], known);
      StripIdempotent(JavaScript, xs[0].cls);
      var ys := BuildExtractions(xs, known).value;
      assert ys[1..] == BuildExtractions(xs[1..], known).value;
      forall i | 0 <= i < |xs|
        ensures ys[i].cls != "" && Trim(ys[i].cls) == ys[i].cls && IsKnown(ys[i].cls, known) && ys[i].cls == Trim(xs[i].cls)
      {
        if i > 0 {
          assert ys[i] == ys[1..][i - 1] && xs[i] == xs[1..][i - 1];
        }
      }
    }
  }

  // ---------------------------------------------------------------------------------------------
  // When a draft builds
  // ---------------------------------------------------------------------------------------------

  predicate AttributeComplete(a: DraftAttribute) {
    && Trim(a.key) != ""
    && if a.kind.ArrayKind? then exists i :: 0 <= i < |SplitAtLineFeeds(a.value)| && Trim(SplitAtLineFeeds(a.value)[i]) != ""
       else Trim(a.value) != ""
  }

  predicate AllComplete(attributes: seq<DraftAttribute>) {
    forall i | 0 <= i < |attributes| :: AttributeComplete(attributes[i])
  }

  predicate ExtractionComplete(x: DraftExtraction) {
    Trim(x.cls) != "" && Trim(x.text) != "" && AllComplete(x.attributes)
  }

  predicate ExampleComplete(e: DraftExample) {
    && Trim(e.text) != "" && e.extractions != []
    && forall i | 0 <= i < |e.extractions| :: ExtractionComplete(e.extractions[i])
  }

  predicate ClassesKnown(e: DraftExample, known: set<string>) {
    forall i | 0 <= i < |e.extractions| :: IsKnown(Trim(e.extractions[i].cls), known)
  }

  predicate CoversField(drafts: seq<DraftExample>, name: string) {
    exists i, j :: 0 <= i < |drafts| && 0 <= j < |drafts[i].extractions| && Trim(drafts[i].extractions[j].cls) == name
  }

  lemma {:induction false} TrimAllEmpty(lines: seq<string>)
    ensures TrimAll(lines) == [] <==> forall i | 0 <= i < |lines| :: Trim(lines[i]) == ""
  {
    if lines != [] {
      TrimAllEmpty(lines[1..]);
      assert forall i | 0 < i < |lines| :: lines[i] == lines[1..][i - 1];
    }
  }

  lemma AttributeBuildsIff(a: DraftAttribute)
    ensures BuildAttribute(a).Ok? <==> AttributeComplete(a)
  {
    TrimAllEmpty(SplitAtLineFeeds(a.value));
  }

  lemma AllCompleteSnoc(attributes: seq<DraftAttribute>)
    requires attributes != []
    ensures AllComplete(attributes) <==>
              AllComplete(attributes[..|attributes| - 1]) && AttributeComplete(attributes[|attributes| - 1])
  {
    var n := |attributes| - 1;
    assert forall i | 0 <= i < n :: attributes[..n][i] == attributes[i];
  }

  lemma {:induction false} AttributesBuildIff(attributes: seq<DraftAttribute>)
    ensures BuildAttributes(attributes).Ok? <==> AllComplete(attributes)
  {
    if attributes != [] {
      AttributesBuildIff(attributes[..|attributes| - 1]);
      AttributeBuildsIff(attributes[|attributes| - 1]);
      AllCompleteSnoc(attributes);
    }
  }

  lemma {:induction false} ExtractionsBuildIff(xs: seq<DraftExtraction>, known: set<string>)
    ensures BuildExtractions(xs, known).Ok? <==>
              forall i | 0 <= i < |xs| :: ExtractionComplete(xs[i]) && IsKnown(Trim(xs[i].cls), known)
  {
    if xs != [] {
      ExtractionsBuildIff(xs[1..], known);
      AttributesBuildIff(xs[0].attributes);
      assert forall i | 0 < i < |xs| :: xs[i] == xs[1..][i - 1];
    }
  }

  lemma {:induction false} ExamplesBuildIff(es: seq<DraftExample>, known: set<string>)
    ensures BuildExamples(es, known).Ok? <==>
              forall i | 0 <= i < |es| :: ExampleComplete(es[i]) && ClassesKnown(es[i], known)
  {
    if es != [] {
      ExamplesBuildIff(es[1..], known);
      ExtractionsBuildIff(es[0].extractions, known);
      assert forall i | 0 < i < |es| :: es[i] == es[1..][i - 1];
    }
  }

  lemma {:induction false} CoveredIsDraftCoverage(drafts: seq<DraftExample>, known: set<string>, name: string)
    requires BuildExamples(drafts, known).Ok?
    ensures name in Covered(BuildExamples(drafts, known).value) <==> CoversField(drafts, name)
  {
    if drafts != [] {
      CoveredIsDraftCoverage(drafts[1..], known, name);
      BuiltExtractionsNormal(drafts[0].extractions, known);
      var es := BuildExamples(drafts, known).value;
      assert es[1..] == BuildExamples(drafts[1..], known).value;
      if CoversField(drafts[1..], name) {
        var i, j :| 0 <= i < |drafts[1..]| && 0 <= j < |drafts[1..][i].extractions| && Trim(drafts[1..][i].extractions[j].cls) == name;
        assert drafts[i + 1] == drafts[1..][i];
      }
      if CoversField(drafts, name) {
        var i, j :| 0 <= i < |drafts| && 0 <= j < |drafts[i].extractions| && Trim(drafts[i].extractions[j].cls) == name;
        if i > 0 {
          assert drafts[1..][i - 1] == drafts[i];
        } else {
          assert es[0].extractions[j].cls == name;
        }
      }
      if name in ClassesOf(es[0].extractions) {
        var j :| 0 <= j < |es[0].extractions| && es[0].extractions[j].cls == name;
        assert Trim(drafts[0].extractions[j].cls) == name;
      }
    }
  }

  /** A draft list builds exactly when every example is complete, every class is known, and every
      required field is covered. */
  lemma BuildsIff(drafts: seq<DraftExample>, valid: seq<string>, required: seq<string>)
    ensures Build(drafts, valid, required).Ok? <==>
              && (forall i | 0 <= i < |drafts| :: ExampleComplete(drafts[i]) && ClassesKnown(drafts[i], TrimmedNames(valid)))
              && (forall n | n in TrimmedNames(required) :: CoversField(drafts, n))
  {
    var known := TrimmedNames(valid);
    ExamplesBuildIff(drafts, known);
    if BuildExamples(drafts, known).Ok? {
      CoverageOfBuilt(drafts, valid);
      forall n | n in TrimmedNames(required)
        ensures n in Covered(BuildExamples(drafts, known).value) <==> CoversField(drafts, n)
      {
        CoveredIsDraftCoverage(drafts, known, n);
      }
    }
  }

  // ---------------------------------------------------------------------------------------------
  // Reloading
  // ---------------------------------------------------------------------------------------------

  function DraftOfEntry(e: Entry): DraftAttribute {
    match e.value
    case One(text) => DraftAttribute(e.key, text, StringKind)
    case Many(items) => DraftAttribute(e.key, Join(items, "\n"), ArrayKind)
  }

  function DraftOfRecord(r: Record): (d: seq<DraftAttribute>)
    ensures |d| == |r| && forall i | 0 <= i < |r| :: d[i] == DraftOfEntry(r[i])
  {
    seq(|r|, i requires 0 <= i < |r| => DraftOfEntry(r[i]))
  }

  function DraftOfExtractions(xs: seq<Extraction>): seq<DraftExtraction> {
    if xs == [] then []
    else [DraftExtraction(xs[0].cls, xs[0].text, DraftOfRecord(xs[0].attributes))] + DraftOfExtractions(xs[1..])
  }

  function DraftOfExamples(es: seq<Example>): seq<DraftExample> {
    if es == [] then []
    else [DraftExample(es[0].text, DraftOfExtractions(es[0].extractions))] + DraftOfExamples(es[1..])
  }

  /** What a build produces: trimmed keys and values, lists of trimmed lines, distinct keys. */
  predicate NormalEntry(e: Entry) {
    && e.key != "" && Trim(e.key) == e.key
    && match e.value
       case One(text) => text != "" && Trim(text) == text
       case Many(items) => items != [] && NormalItems(items)
  }

  predicate NormalRecord(r: Record) {
    && (forall i | 0 <= i < |r| :: NormalEntry(r[i]))
    && (forall i, j | 0 <= i < j < |r| :: r[i].key != r[j].key)
  }

  predicate NormalExtraction(x: Extraction) {
    x.cls != "" && Trim(x.cls) == x.cls && x.text != "" && Trim(x.text) == x.text && NormalRecord(x.attributes)
  }

  lemma BuiltEntryNormal(a: DraftAttribute)
    requires BuildAttribute(a).Ok?
    ensures NormalEntry(BuildAttribute(a).value)
  {
    StripIdempotent(JavaScript, a.key);
    StripIdempotent(JavaScript, a.value);
  }

  /** A property is assigned at the place of its key, or at the end. */
  lemma {:induction false} PutAt(r: Record, e: Entry) returns (k: nat)
    ensures k <= |r| && (forall i | 0 <= i < k :: r[i].key != e.key)
    ensures k < |r| ==> r[k].key == e.key && Put(r, e) == r[k := e]
    ensures k == |r| ==> Put(r, e) == r + [e]
  {
    k := 0;
    if r != [] && r[0].key != e.key {
      k := PutAt(r[1..], e);
      assert r == [r[0]] + r[1..];
      assert forall i | 0 < i < |r| :: r[i] == r[1..][i - 1];
      k := k + 1;
    }
  }

  lemma PutKeepsNormal(r: Record, e: Entry)
    requires NormalRecord(r) && NormalEntry(e)
    ensures NormalRecord(Put(r, e))
    ensures !HasKey(r, e.key) ==> Put(r, e) == r + [e]
  {
    var k := PutAt(r, e);
  }

  lemma {:induction false} BuiltRecordNormal(attributes: seq<DraftAttribute>)
    requires BuildAttributes(attributes).Ok?
    ensures NormalRecord(BuildAttributes(attributes).value)
  {
    if attributes != [] {
      var n := |attributes| - 1;
      BuiltRecordNormal(attributes[..n]);
      BuiltEntryNormal(attributes[n]);
      PutKeepsNormal(BuildAttributes(attributes[..n]).value, BuildAttribute(attributes[n]).value);
    }
  }

  lemma EntryReloads(e: Entry)
    requires NormalEntry(e)
    ensures BuildAttribute(DraftOfEntry(e)) == Ok(e)
  {
    if e.value.Many? {
      SplitJoin(e.value.items);
      TrimAllFixes(e.value.items);
    }
  }

  lemma LastPut(r: Record)
    requires NormalRecord(r) && r != []
    ensures NormalRecord(r[..|r| - 1]) && Put(r[..|r| - 1], r[|r| - 1]) == r
  {
    var n := |r| - 1;
    assert !HasKey(r[..n], r[n].key);
    PutKeepsNormal(r[..n], r[n]);
    assert r == r[..n] + [r[n]];
  }

  lemma {:induction false} RecordReloads(r: Record)
    requires NormalRecord(r)
    ensures BuildAttributes(DraftOfRecord(r)) == Ok(r)
    decreases |r|
  {
    if r != [] {
      var n := |r| - 1;
      LastPut(r);
      RecordReloads(r[..n]);
      assert DraftOfRecord(r)[..n] == DraftOfRecord(r[..n]);
      EntryReloads(r[n]);
      assert DraftOfRecord(r)[n] == DraftOfEntry(r[n]);
    }
  }

  lemma {:induction false} ExtractionsReload(xs: seq<DraftExtraction>, known: set<string>)
    requires BuildExtractions(xs, known).Ok?
    ensures BuildExtractions(DraftOfExtractions(BuildExtractions(xs, known).value), known) == BuildExtractions(xs, known)
  {
    if xs != [] {
      var ys := BuildExtractions(xs, known).value;
      assert ys[1..] == BuildExtractions(xs[1..], known).value;
      ExtractionsReload(xs[1..], known);
      StripIdempotent(JavaScript, xs[0].cls);
      StripIdempotent(JavaScript, xs[0].text);
      BuiltRecordNormal(xs[0].attributes);
      RecordReloads(ys[0].attributes);
      var again := DraftOfExtractions(ys);
      assert again[1..] == DraftOfExtractions(ys[1..]);
      assert BuildExtraction(again[0], known) == Ok(ys[0]);
    }
  }

  lemma {:induction false} ExamplesReload(es: seq<DraftExample>, known: set<string>)
    requires BuildExamples(es, known).Ok?
    ensures BuildExamples(DraftOfExamples(BuildExamples(es, known).value), known) == BuildExamples(es, known)
  {
    if es != [] {
      var built := BuildExamples(es, known).value;
      assert built[1..] == BuildExamples(es[1..], known).value;
      ExamplesReload(es[1..], known);
      StripIdempotent(JavaScript, es[0].text);
      ExtractionsReload(es[0].extractions, known);
      var again := DraftOfExamples(built);
      assert again[1..] == DraftOfExamples(built[1..]);
      assert BuildExample(again[0], known) == Ok(built[0]);
    }
  }

  /** Save, reload, save is the identity: every draft that builds gives the same examples after being
      turned back into a draft and built again. */
  lemma SaveReloadSave(drafts: seq<DraftExample>, valid: seq<string>, required: seq<string>)
    requires Build(drafts, valid, required).Ok?
    ensures Build(DraftOfExamples(Build(drafts, valid, required).value), valid, required) == Build(drafts, valid, required)
  {
    ExamplesReload(drafts, TrimmedNames(valid));
  }
}
