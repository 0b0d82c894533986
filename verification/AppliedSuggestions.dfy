/** Which suggestions a draft has applied: a suggestion and a draft example are brought into a comparable form
    and compared as text. */
module AppliedSuggestions {
  import opened Basics
  import opened Text
  import opened DraftCodec
  import Sorting

  /** `localeCompare` of the browser: whether the first key may come before the second. */
  type Collation = (string, string) -> bool

  function ByKey(le: Collation): (Entry, Entry) -> bool {
    (a: Entry, b: Entry) => le(a.key, b.key)
  }

  // ---------------------------------------------------------------------------------------------
  // Comparable forms
  // ---------------------------------------------------------------------------------------------

  function UnixLines(s: string): string {
    if |s| >= 2 && s[0] == '\r' && s[1] == '\n' then ['\n'] + UnixLines(s[2..])
    else if s == "" then ""
    else [s[0]] + UnixLines(s[1..])
  }

  /** The entries that both comparable forms hold, sorted by key and made into an object. The collation
      is the browser's. */
  function Comparable(entries: seq<Entry>, le: Collation): Record {
    PutAll(Sorting.Sort(entries, ByKey(le)))
  }

  function PutAll(entries: seq<Entry>): Record {
    if entries == [] then [] else Put(PutAll(entries[..|entries| - 1]), entries[|entries| - 1])
  }

  /** The entries of a draft, or nothing when an attribute is incomplete. */
  function DraftEntries(attributes: seq<DraftAttribute>): Built<seq<Entry>>
    decreases |attributes|
  {
    if attributes == [] then Ok([])
    else
      var before :- DraftEntries(attributes[..|attributes| - 1]);
      var entry :- BuildAttribute(attributes[|attributes| - 1]);
      Ok(before + [entry])
  }

  function TrimEntry(e: Entry): Entry {
    Entry(Trim(e.key), match e.value case One(text) => One(Trim(text)) case Many(items) => Many(TrimAll(items)))
  }

  function SuggestionEntries(r: Record): seq<Entry> {
    if r == [] then [] else SuggestionEntries(r[..|r| - 1]) + [TrimEntry(r[|r| - 1])]
  }

  function ComparableDraftExtractions(xs: seq<DraftExtraction>, le: Collation): Built<seq<Extraction>> {
    if xs == [] then Ok([])
    else if Trim(xs[0].cls) == "" then Raise(NeedsFieldName)
    else if Trim(xs[0].text) == "" then Raise(NeedsExtractionText)
    else
      var entries :- DraftEntries(xs[0].attributes);
      var rest :- ComparableDraftExtractions(xs[1..], le);
      Ok([Extraction(Trim(xs[0].cls), Trim(xs[0].text), Comparable(entries, le))] + rest)
  }

  function ComparableDraft(e: DraftExample, le: Collation): Built<Example> {
    var text := Trim(UnixLines(e.text));
    if text == "" then Raise(NeedsSourceText)
    else if e.extractions == [] then Raise(NeedsExtraction)
    else
      var xs :- ComparableDraftExtractions(e.extractions, le);
      Ok(Example(text, xs))
  }

  function ComparableSuggestionExtractions(xs: seq<Extraction>, le: Collation): seq<Extraction> {
    if xs == [] then []
    else [Extraction(Trim(xs[0].cls), Trim(xs[0].text), Comparable(SuggestionEntries(xs[0].attributes), le))]
         + ComparableSuggestionExtractions(xs[1..], le)
  }

  function ComparableSuggestion(e: Example, le: Collation): Example {
    Example(Trim(UnixLines(e.text)), ComparableSuggestionExtractions(e.extractions, le))
  }

  lemma TrimEntryFixes(e: Entry)
    requires NormalEntry(e)
    ensures TrimEntry(e) == e
  {
    if e.value.Many? {
      TrimAllFixes(e.value.items);
    }
  }

  lemma {:induction false} DraftEntriesOf(r: Record)
    requires forall i | 0 <= i < |r| :: NormalEntry(r[i])
    ensures DraftEntries(DraftOfRecord(r)) == Ok(r)
    decreases |r|
  {
    if r != [] {
      var n := |r| - 1;
      DraftEntriesOf(r[..n]);
      EntryReloads(r[n]);
      assert DraftOfRecord(r)[..n] == DraftOfRecord(r[..n]) && DraftOfRecord(r)[n] == DraftOfEntry(r[n]);
      assert r == r[..n] + [r[n]];
    }
  }

  lemma {:induction false} SuggestionEntriesOf(r: Record)
    requires forall i | 0 <= i < |r| :: NormalEntry(r[i])
    ensures SuggestionEntries(r) == r
    decreases |r|
  {
    if r != [] {
      var n := |r| - 1;
      SuggestionEntriesOf(r[..n]);
      TrimEntryFixes(r[n]);
      assert r == r[..n] + [r[n]];
    }
  }

  lemma {:induction false} ExtractionsAgree(xs: seq<Extraction>, le: Collation)
    requires forall i | 0 <= i < |xs| :: NormalExtraction(xs[i])
    ensures ComparableDraftExtractions(DraftOfExtractions(xs), le) == Ok(ComparableSuggestionExtractions(xs, le))
  {
    if xs != [] {
      ExtractionsAgree(xs[1..], le);
      DraftEntriesOf(xs[0].attributes);
      SuggestionEntriesOf(xs[0].attributes);
      assert DraftOfExtractions(xs)[1..] == DraftOfExtractions(xs[1..]);
    }
  }

  lemma {:induction false} UnixLinesKeepInk(s: string)
    requires HasInk(JavaScript, s)
    ensures HasInk(JavaScript, UnixLines(s))
    decreases |s|
  {
    var i :| 0 <= i < |s| && !IsSpace(JavaScript, s[i]);
    var skip := if |s| >= 2 && s[0] == '\r' && s[1] == '\n' then 2 else 1;
    var rest := UnixLines(s[skip..]);
    if i >= skip {
      assert !IsSpace(JavaScript, s[skip..][i - skip]);
      UnixLinesKeepInk(s[skip..]);
      var j :| 0 <= j < |rest| && !IsSpace(JavaScript, rest[j]);
      assert UnixLines(s)[j + 1] == rest[j];
    } else {
      assert UnixLines(s)[0] == s[0];
    }
  }

  lemma {:induction false} BuiltExtractionsAreNormal(xs: seq<DraftExtraction>, known: set<string>)
    requires BuildExtractions(xs, known).Ok?
    ensures forall i | 0 <= i < |xs| :: NormalExtraction(BuildExtractions(xs, known).value[i])
  {
    if xs != [] {
      BuiltExtractionsAreNormal(xs[1..], known);
      StripIdempotent(JavaScript, xs[0].cls);
      StripIdempotent(JavaScript, xs[0].text);
      BuiltRecordNormal(xs[0].attributes);
      var ys := BuildExtractions(xs, known).value;
      assert ys[1..] == BuildExtractions(xs[1..], known).value;
      assert forall i | 0 < i < |xs| :: ys[i] == ys[1..][i - 1];
    }
  }

  /** Every example that a build saves is recognised in the draft it is reloaded into: the comparable
      forms coincide, whatever the collation. */
  lemma SavedExampleRecognised(draft: DraftExample, known: set<string>, le: Collation)
    requires BuildExample(draft, known).Ok?
    ensures var saved := BuildExample(draft, known).value;
            ComparableDraft(DraftOfExamples([saved])[0], le) == Ok(ComparableSuggestion(saved, le))
  {
    var saved := BuildExample(draft, known).value;
    BuiltExtractionsAreNormal(draft.extractions, known);
    ExtractionsAgree(saved.extractions, le);
    assert !IsSpace(JavaScript, saved.text[0]);
    UnixLinesKeepInk(saved.text);
    StripEmptyIff(JavaScript, UnixLines(saved.text));
    assert DraftOfExtractions(saved.extractions) != [];
  }

  // ---------------------------------------------------------------------------------------------
  // Lists through a draft
  // ---------------------------------------------------------------------------------------------

  /** The list that a draft makes of a text. */
  function Lines(s: string): (items: seq<string>)
    ensures NormalItems(items)
  {
    TrimAll(SplitAtLineFeeds(s))
  }

  lemma {:induction false} SplitConcat(a: string, s: string)
    ensures SplitAtLineFeeds(a + "\n" + s) == SplitAtLineFeeds(a) + SplitAtLineFeeds(s)
  {
    if a == "" {
      assert (a + "\n" + s)[1..] == s;
    } else {
      SplitConcat(a[1..], s);
      assert (a + "\n" + s)[1..] == a[1..] + "\n" + s && (a + "\n" + s)[0] == a[0];
      var x, y := SplitAtLineFeeds(a[1..]), SplitAtLineFeeds(s);
      if a[0] == '\n' {
        Regroup([""], x, y);
      } else {
        assert (x + y)[0] == x[0] && (x + y)[1..] == x[1..] + y;
        Regroup([[a[0]] + x[0]], x[1..], y);
      }
    }
  }

  lemma {:induction false} TrimAllConcat(a: seq<string>, b: seq<string>)
    ensures TrimAll(a + b) == TrimAll(a) + TrimAll(b)
  {
    if a == [] {
      assert a + b == b;
    } else {
      TrimAllConcat(a[1..], b);
      assert (a + b)[1..] == a[1..] + b && (a + b)[0] == a[0];
      Regroup(if Trim(a[0]) == "" then [] else [Trim(a[0])], TrimAll(a[1..]), TrimAll(b));
    }
  }

  lemma LinesConcat(a: string, s: string)
    ensures Lines(a + "\n" + s) == Lines(a) + Lines(s)
  {
    SplitConcat(a, s);
    TrimAllConcat(SplitAtLineFeeds(a), SplitAtLineFeeds(s));
  }

  lemma {:induction false} TrimTrailing(s: string, c: char)
    requires IsSpace(JavaScript, c)
    ensures Trim(s + [c]) == Trim(s)
  {
    if s == "" {
      assert s + [c] == [c];
      assert Strip(JavaScript, [c][1..]) == "";
    } else if IsSpace(JavaScript, s[0]) {
      TrimTrailing(s[1..], c);
      assert (s + [c])[1..] == s[1..] + [c];
    } else {
      assert (s + [c])[..|s|] == s;
    }
  }

  lemma LinesLeading(s: string)
    requires s != "" && IsSpace(JavaScript, s[0])
    ensures Lines(s) == Lines(s[1..])
  {
    var rest := SplitAtLineFeeds(s[1..]);
    if s[0] == '\n' {
      assert SplitAtLineFeeds(s) == [""] + rest;
      assert ([""] + rest)[1..] == rest;
    } else {
      var first := [s[0]] + rest[0];
      assert SplitAtLineFeeds(s) == [first] + rest[1..];
      assert first[1..] == rest[0];
      assert Trim(first) == Trim(rest[0]);
    }
  }

  /** The lines with a character added to the last one. */
  function Extended(lines: seq<string>, c: char): (r: seq<string>)
    requires lines != []
    ensures |r| == |lines|
  {
    lines[|lines| - 1 := lines[|lines| - 1] + [c]]
  }

  lemma ExtendedBelow(first: string, rest: seq<string>, c: char)
    requires rest != []
    ensures [first] + Extended(rest, c) == Extended([first] + rest, c)
  {
  }

  lemma ExtendedHead(h: char, rest: seq<string>, c: char)
    requires rest != []
    ensures var more := Extended(rest, c);
            [[h] + more[0]] + more[1..] == Extended([[h] + rest[0]] + rest[1..], c)
  {
    if |rest| == 1 {
      Regroup([h], rest[0], [c]);
    } else {
      assert Extended(rest, c)[1..] == Extended(rest[1..], c);
      ExtendedBelow([h] + rest[0], rest[1..], c);
    }
  }

  lemma {:induction false} SplitTrailing(s: string, c: char)
    requires c != '\n'
    ensures SplitAtLineFeeds(s + [c]) == Extended(SplitAtLineFeeds(s), c)
  {
    if s == "" {
      assert s + [c] == [c];
      SplitSingle([c]);
      assert Extended([""], c) == [[c]];
    } else {
      SplitTrailing(s[1..], c);
      assert (s + [c])[1..] == s[1..] + [c] && (s + [c])[0] == s[0];
      var rest := SplitAtLineFeeds(s[1..]);
      if s[0] == '\n' {
        ExtendedBelow("", rest, c);
      } else {
        ExtendedHead(s[0], rest, c);
      }
    }
  }

  lemma LinesTrailing(s: string, c: char)
    requires IsSpace(JavaScript, c)
    ensures Lines(s + [c]) == Lines(s)
  {
    if c == '\n' {
      LinesConcat(s, "");
      assert s + "\n" + "" == s + [c];
    } else {
      SplitTrailing(s, c);
      TrimAllExtended(SplitAtLineFeeds(s), c);
    }
  }

  lemma TrimAllExtended(lines: seq<string>, c: char)
    requires lines != [] && IsSpace(JavaScript, c)
    ensures TrimAll(Extended(lines, c)) == TrimAll(lines)
  {
    var n := |lines| - 1;
    assert lines == lines[..n] + [lines[n]] && Extended(lines, c) == lines[..n] + [lines[n] + [c]];
    TrimAllConcat(lines[..n], [lines[n] + [c]]);
    TrimAllConcat(lines[..n], [lines[n]]);
    TrimTrailing(lines[n], c);
  }

  /** Spaces around a list item, line feeds included, leave no trace in the draft. */
  lemma {:induction false} LinesOfTrim(s: string)
    ensures Lines(s) == Lines(Trim(s))
    decreases |s|
  {
    if s != "" && IsSpace(JavaScript, s[0]) {
      LinesLeading(s);
      LinesOfTrim(s[1..]);
    } else if s != "" && IsSpace(JavaScript, s[|s| - 1]) {
      var init := s[..|s| - 1];
      LinesTrailing(init, s[|s| - 1]);
      assert s == init + [s[|s| - 1]];
      LinesOfTrim(init);
    }
  }

  lemma LinesOfLine(s: string)
    requires '\n' !in Trim(s)
    ensures Lines(s) == TrimAll([s])
  {
    LinesOfTrim(s);
    SplitSingle(Trim(s));
    StripIdempotent(JavaScript, s);
  }

  lemma {:induction false} InkInLine(s: string) returns (i: nat)
    requires HasInk(JavaScript, s)
    ensures i < |SplitAtLineFeeds(s)| && HasInk(JavaScript, SplitAtLineFeeds(s)[i])
  {
    var lines := SplitAtLineFeeds(s);
    i := 0;
    if !IsSpace(JavaScript, s[0]) {
      assert lines[0][0] == s[0];
    } else {
      var k :| 0 <= k < |s| && !IsSpace(JavaScript, s[k]);
      assert s[1..][k - 1] == s[k];
      i := InkInLine(s[1..]);
      var rest := SplitAtLineFeeds(s[1..]);
      if s[0] == '\n' {
        assert lines[i + 1] == rest[i];
        i := i + 1;
      } else if i == 0 {
        var j :| 0 <= j < |rest[0]| && !IsSpace(JavaScript, rest[0][j]);
        assert lines[0][j + 1] == rest[0][j];
      } else {
        assert lines[i] == rest[i];
      }
    }
  }

  lemma NoLinesIff(s: string)
    ensures Lines(s) == [] <==> Trim(s) == ""
  {
    StripEmptyIff(JavaScript, s);
    TrimAllEmpty(SplitAtLineFeeds(s));
    if HasInk(JavaScript, s) {
      var i := InkInLine(s);
      StripEmptyIff(JavaScript, SplitAtLineFeeds(s)[i]);
    } else {
      LinesOfTrim(s);
      SplitSingle("");
    }
  }

  /** What the draft of a list holds: the lines of its items, one after another. */
  function LinesOfAll(items: seq<string>): (lines: seq<string>)
    ensures NormalItems(lines)
  {
    if items == [] then [] else Lines(items[0]) + LinesOfAll(items[1..])
  }

  lemma {:induction false} LinesOfJoin(items: seq<string>)
    ensures Lines(Join(items, "\n")) == LinesOfAll(items)
  {
    if items == [] {
      NoLinesIff("");
    } else if |items| == 1 {
      assert Lines(items[0]) + [] == Lines(items[0]);
    } else {
      LinesOfJoin(items[1..]);
      LinesConcat(items[0], Join(items[1..], "\n"));
    }
  }

  predicate SomeFilled(items: seq<string>) {
    exists i :: 0 <= i < |items| && Trim(items[i]) != ""
  }

  lemma SomeFilledCons(items: seq<string>)
    requires items != []
    ensures SomeFilled(items) <==> Trim(items[0]) != "" || SomeFilled(items[1..])
  {
    if SomeFilled(items[1..]) {
      var i :| 0 <= i < |items[1..]| && Trim(items[1..][i]) != "";
      assert Trim(items[i + 1]) != "";
    }
    if i :| 0 < i < |items| && Trim(items[i]) != "" {
      assert Trim(items[1..][i - 1]) != "";
    }
  }

  lemma {:induction false} FilledLinesIff(items: seq<string>)
    ensures LinesOfAll(items) != [] <==> SomeFilled(items)
  {
    if items != [] {
      FilledLinesIff(items[1..]);
      NoLinesIff(items[0]);
      SomeFilledCons(items);
    }
  }

  /** No trimmed item holds a line feed. */
  predicate OneLineEach(items: seq<string>) {
    forall i | 0 <= i < |items| :: '\n' !in Trim(items[i])
  }

  lemma {:induction false} TrimmedItemsIn(items: seq<string>, i: nat)
    requires i < |items| && Trim(items[i]) != ""
    ensures Trim(items[i]) in TrimAll(items)
  {
    if i > 0 {
      TrimmedItemsIn(items[1..], i - 1);
    }
  }

  lemma {:induction false} LineEachKeeps(items: seq<string>)
    requires OneLineEach(items)
    ensures LinesOfAll(items) == TrimAll(items)
  {
    if items != [] {
      assert forall i | 0 < i < |items| :: items[i] == items[1..][i - 1];
      LineEachKeeps(items[1..]);
      LinesOfLine(items[0]);
      TrimAllConcat([items[0]], items[1..]);
      assert [items[0]] + items[1..] == items;
    }
  }

  /** A list passes through a draft unchanged, spaces aside, exactly when no trimmed item holds a line feed. */
  lemma ListKeptIff(items: seq<string>)
    ensures Lines(Join(items, "\n")) == TrimAll(items) <==> OneLineEach(items)
  {
    LinesOfJoin(items);
    if OneLineEach(items) {
      LineEachKeeps(items);
    } else {
      var i :| 0 <= i < |items| && '\n' in Trim(items[i]);
      TrimmedItemsIn(items, i);
      assert NormalItems(LinesOfAll(items));
    }
  }

  // ---------------------------------------------------------------------------------------------
  // Entries
  // ---------------------------------------------------------------------------------------------

  predicate EntryFilled(e: Entry) {
    Trim(e.key) != "" && match e.value case One(text) => Trim(text) != "" case Many(items) => SomeFilled(items)
  }

  predicate EntryKept(e: Entry) {
    e.value.Many? ==> OneLineEach(e.value.items)
  }

  lemma EntryThroughDraft(e: Entry)
    ensures BuildAttribute(DraftOfEntry(e)).Ok? <==> EntryFilled(e)
    ensures EntryFilled(e) ==>
              var d := BuildAttribute(DraftOfEntry(e)).value;
              d.key == TrimEntry(e).key == Trim(e.key) && (d == TrimEntry(e) <==> EntryKept(e))
  {
    if e.value.Many? {
      LinesOfJoin(e.value.items);
      FilledLinesIff(e.value.items);
      ListKeptIff(e.value.items);
    }
  }

  predicate AllFilled(r: Record) {
    forall i | 0 <= i < |r| :: EntryFilled(r[i])
  }

  lemma AllFilledSnoc(r: Record)
    requires r != []
    ensures AllFilled(r) <==> AllFilled(r[..|r| - 1]) && EntryFilled(r[|r| - 1])
  {
    assert forall i | 0 <= i < |r| - 1 :: r[..|r| - 1][i] == r[i];
  }

  /** The entries that a draft of `r` holds, when all are filled. */
  function Drafted(r: Record): (ds: seq<Entry>)
    requires AllFilled(r)
    ensures |ds| == |r|
  {
    seq(|r|, i requires 0 <= i < |r| => ThroughDraft(r[i]))
  }

  function ThroughDraft(e: Entry): (d: Entry)
    requires EntryFilled(e)
    ensures Ok(d) == BuildAttribute(DraftOfEntry(e))
  {
    EntryThroughDraft(e);
    BuildAttribute(DraftOfEntry(e)).value
  }

  function Trimmed(r: Record): (es: seq<Entry>)
    ensures |es| == |r|
  {
    seq(|r|, i requires 0 <= i < |r| => TrimEntry(r[i]))
  }

  lemma DraftEntriesSnoc(r: Record)
    requires r != []
    ensures var n := |r| - 1;
            var before, all := DraftEntries(DraftOfRecord(r[..n])), DraftEntries(DraftOfRecord(r));
            && (all.Ok? <==> before.Ok? && EntryFilled(r[n]))
            && (all.Ok? ==> all.value == before.value + [ThroughDraft(r[n])])
  {
    var n := |r| - 1;
    EntryThroughDraft(r[n]);
    assert DraftOfRecord(r)[..n] == DraftOfRecord(r[..n]) && DraftOfRecord(r)[n] == DraftOfEntry(r[n]);
  }

  lemma {:induction false} DraftEntriesOkIff(r: Record)
    ensures DraftEntries(DraftOfRecord(r)).Ok? <==> AllFilled(r)
    decreases |r|
  {
    if r != [] {
      DraftEntriesOkIff(r[..|r| - 1]);
      DraftEntriesSnoc(r);
      AllFilledSnoc(r);
    }
  }

  lemma DraftedSnoc(r: Record)
    requires AllFilled(r) && r != []
    ensures Drafted(r) == Drafted(r[..|r| - 1]) + [ThroughDraft(r[|r| - 1])]
  {
  }

  lemma {:induction false} DraftEntriesAre(r: Record)
    requires AllFilled(r)
    ensures DraftEntries(DraftOfRecord(r)) == Ok(Drafted(r))
    decreases |r|
  {
    DraftEntriesOkIff(r);
    if r != [] {
      var n := |r| - 1;
      DraftEntriesAre(r[..n]);
      DraftEntriesSnoc(r);
      DraftedSnoc(r);
    }
  }

  lemma {:induction false} SuggestionEntriesAre(r: Record)
    ensures SuggestionEntries(r) == Trimmed(r)
    decreases |r|
  {
    if r != [] {
      SuggestionEntriesAre(r[..|r| - 1]);
      assert Trimmed(r) == Trimmed(r[..|r| - 1]) + [TrimEntry(r[|r| - 1])];
    }
  }

  // ---------------------------------------------------------------------------------------------
  // Objects with sorted keys
  // ---------------------------------------------------------------------------------------------

  predicate SameKeys(xs: seq<Entry>, ys: seq<Entry>) {
    |xs| == |ys| && forall i | 0 <= i < |xs| :: xs[i].key == ys[i].key
  }

  predicate DistinctKeys(r: Record) {
    forall i, j | 0 <= i < j < |r| :: r[i].key != r[j].key
  }

  function Get(r: Record, key: string): Option<AttributeValue> {
    if r == [] then None else if r[0].key == key then Some(r[0].value) else Get(r[1..], key)
  }

  /** The value of the last entry with a key: the one that an object made of the entries keeps. */
  function Last(es: seq<Entry>, key: string): Option<AttributeValue> {
    if es == [] then None
    else
      var later := Last(es[1..], key);
      if later.Some? then later else if es[0].key == key then Some(es[0].value) else None
  }

  lemma {:induction false} LastSnoc(es: seq<Entry>, e: Entry, key: string)
    ensures Last(es + [e], key) == if e.key == key then Some(e.value) else Last(es, key)
  {
    if es == [] {
      assert es + [e] == [e];
    } else {
      LastSnoc(es[1..], e, key);
      assert (es + [e])[1..] == es[1..] + [e] && (es + [e])[0] == es[0];
    }
  }

  lemma {:induction false} GetPut(r: Record, e: Entry, key: string)
    ensures Get(Put(r, e), key) == if key == e.key then Some(e.value) else Get(r, key)
  {
    if r != [] {
      if r[0].key == e.key {
        assert ([e] + r[1..])[1..] == r[1..];
      } else {
        GetPut(r[1..], e, key);
        assert ([r[0]] + Put(r[1..], e))[1..] == Put(r[1..], e);
      }
    }
  }

  lemma {:induction false} GetPutAll(es: seq<Entry>, key: string)
    ensures Get(PutAll(es), key) == Last(es, key)
  {
    if es != [] {
      var n := |es| - 1;
      GetPutAll(es[..n], key);
      GetPut(PutAll(es[..n]), es[n], key);
      LastSnoc(es[..n], es[n], key);
      assert es == es[..n] + [es[n]];
    }
  }

  lemma PutKeepsDistinct(r: Record, e: Entry)
    requires DistinctKeys(r)
    ensures DistinctKeys(Put(r, e))
  {
    var k := PutAt(r, e);
  }

  lemma {:induction false} PutAllDistinct(es: seq<Entry>)
    ensures DistinctKeys(PutAll(es))
  {
    if es != [] {
      PutAllDistinct(es[..|es| - 1]);
      PutKeepsDistinct(PutAll(es[..|es| - 1]), es[|es| - 1]);
    }
  }

  lemma {:induction false} PutKeys(r: Record, q: Record, e: Entry, f: Entry)
    requires SameKeys(r, q) && e.key == f.key
    ensures SameKeys(Put(r, e), Put(q, f))
    decreases |r|
  {
    if r != [] && r[0].key != e.key {
      PutKeys(r[1..], q[1..], e, f);
    }
  }

  lemma {:induction false} PutAllKeys(xs: seq<Entry>, ys: seq<Entry>)
    requires SameKeys(xs, ys)
    ensures SameKeys(PutAll(xs), PutAll(ys))
    decreases |xs|
  {
    if xs != [] {
      var n := |xs| - 1;
      PutAllKeys(xs[..n], ys[..n]);
      PutKeys(PutAll(xs[..n]), PutAll(ys[..n]), xs[n], ys[n]);
    }
  }

  lemma {:induction false} GetAt(r: Record, i: nat)
    requires DistinctKeys(r) && i < |r|
    ensures Get(r, r[i].key) == Some(r[i].value)
  {
    if i > 0 {
      GetAt(r[1..], i - 1);
    }
  }

  lemma SameObject(r: Record, q: Record)
    requires DistinctKeys(r) && DistinctKeys(q) && SameKeys(r, q)
    requires forall i | 0 <= i < |r| :: Get(r, r[i].key) == Get(q, r[i].key)
    ensures r == q
  {
    forall i | 0 <= i < |r|
      ensures r[i] == q[i]
    {
      GetAt(r, i);
      GetAt(q, i);
    }
  }

  /** The collation finds every key equal to itself. */
  ghost predicate Reflexive(le: Collation) {
    forall key :: le(key, key)
  }

  lemma {:induction false} InsertKeys(x: Entry, y: Entry, xs: seq<Entry>, ys: seq<Entry>, le: Collation)
    requires x.key == y.key && SameKeys(xs, ys)
    ensures SameKeys(Sorting.Insert(x, xs, ByKey(le)), Sorting.Insert(y, ys, ByKey(le)))
    decreases |xs|
  {
    if xs != [] && !le(x.key, xs[0].key) {
      InsertKeys(x, y, xs[1..], ys[1..], le);
    }
  }

  lemma {:induction false} SortKeys(xs: seq<Entry>, ys: seq<Entry>, le: Collation)
    requires SameKeys(xs, ys)
    ensures SameKeys(Sorting.Sort(xs, ByKey(le)), Sorting.Sort(ys, ByKey(le)))
    decreases |xs|
  {
    if xs != [] {
      SortKeys(xs[1..], ys[1..], le);
      InsertKeys(xs[0], ys[0], Sorting.Sort(xs[1..], ByKey(le)), Sorting.Sort(ys[1..], ByKey(le)), le);
    }
  }

  lemma LastCons(e: Entry, es: seq<Entry>, key: string)
    ensures Last([e] + es, key)
         == if Last(es, key).Some? then Last(es, key) else if e.key == key then Some(e.value) else None
  {
    assert ([e] + es)[1..] == es;
  }

  lemma {:induction false} LastInsert(x: Entry, s: seq<Entry>, le: Collation, key: string)
    requires Reflexive(le)
    ensures Last(Sorting.Insert(x, s, ByKey(le)), key) == Last([x] + s, key)
  {
    if s != [] && !le(x.key, s[0].key) {
      LastInsert(x, s[1..], le, key);
      LastCons(x, s, key);
      LastCons(x, s[1..], key);
      LastCons(s[0], Sorting.Insert(x, s[1..], ByKey(le)), key);
    }
  }

  /** Sorting is stable, so it does not change which entry with a key is the last. */
  lemma {:induction false} LastSort(s: seq<Entry>, le: Collation, key: string)
    requires Reflexive(le)
    ensures Last(Sorting.Sort(s, ByKey(le)), key) == Last(s, key)
  {
    if s != [] {
      var rest := Sorting.Sort(s[1..], ByKey(le));
      LastSort(s[1..], le, key);
      LastInsert(s[0], rest, le, key);
      LastCons(s[0], rest, key);
    }
  }

  /** Objects made of the two lists hold the same values. */
  ghost predicate SameLast(xs: seq<Entry>, ys: seq<Entry>) {
    forall key :: Last(xs, key) == Last(ys, key)
  }

  lemma ComparableGet(xs: seq<Entry>, le: Collation, key: string)
    requires Reflexive(le)
    ensures Get(Comparable(xs, le), key) == Last(xs, key)
  {
    GetPutAll(Sorting.Sort(xs, ByKey(le)), key);
    LastSort(xs, le, key);
  }

  lemma ComparableShape(xs: seq<Entry>, ys: seq<Entry>, le: Collation)
    requires SameKeys(xs, ys)
    ensures SameKeys(Comparable(xs, le), Comparable(ys, le))
    ensures DistinctKeys(Comparable(xs, le)) && DistinctKeys(Comparable(ys, le))
  {
    var p, q := Sorting.Sort(xs, ByKey(le)), Sorting.Sort(ys, ByKey(le));
    SortKeys(xs, ys, le);
    PutAllKeys(p, q);
    PutAllDistinct(p);
    PutAllDistinct(q);
  }

  lemma ComparableEqualIff(xs: seq<Entry>, ys: seq<Entry>, le: Collation)
    requires Reflexive(le) && SameKeys(xs, ys)
    ensures Comparable(xs, le) == Comparable(ys, le) <==> SameLast(xs, ys)
  {
    var r, q := Comparable(xs, le), Comparable(ys, le);
    forall key
      ensures Get(r, key) == Last(xs, key) && Get(q, key) == Last(ys, key)
    {
      ComparableGet(xs, le, key);
      ComparableGet(ys, le, key);
    }
    if SameLast(xs, ys) {
      ComparableShape(xs, ys, le);
      SameObject(r, q);
    }
  }

  /** A later entry has the same key. */
  predicate Shadowed(es: seq<Entry>, i: nat)
    requires i < |es|
  {
    exists j :: i < j < |es| && es[j].key == es[i].key
  }

  lemma {:induction false} LastAt(es: seq<Entry>, key: string) returns (i: nat)
    requires Last(es, key).Some?
    ensures i < |es| && es[i].key == key && Last(es, key) == Some(es[i].value) && !Shadowed(es, i)
  {
    i := 0;
    if Last(es[1..], key).Some? {
      i := LastAt(es[1..], key);
      i := i + 1;
      forall j | i < j < |es|
        ensures es[j].key != key
      {
        assert es[1..][j - 1] == es[j];
      }
    } else {
      forall j | 0 < j < |es|
        ensures es[j].key != key
      {
        LastSome(es[1..], j - 1);
      }
    }
  }

  lemma {:induction false} LastSome(es: seq<Entry>, i: nat)
    requires i < |es|
    ensures Last(es, es[i].key).Some?
    ensures !Shadowed(es, i) ==> Last(es, es[i].key) == Some(es[i].value)
  {
    if i > 0 {
      LastSome(es[1..], i - 1);
      if Shadowed(es[1..], i - 1) {
        var j :| i - 1 < j < |es[1..]| && es[1..][j].key == es[1..][i - 1].key;
        assert es[j + 1].key == es[i].key;
      }
    } else if Last(es[1..], es[0].key).Some? {
      var j := LastAt(es[1..], es[0].key);
      assert es[j + 1].key == es[0].key;
    }
  }

  lemma SameLastMeans(xs: seq<Entry>, ys: seq<Entry>, i: nat)
    requires SameKeys(xs, ys) && SameLast(xs, ys) && i < |xs| && !Shadowed(xs, i)
    ensures xs[i] == ys[i]
  {
    LastSome(xs, i);
    LastSome(ys, i);
    assert Last(xs, xs[i].key) == Last(ys, xs[i].key);
  }

  lemma LastAgrees(xs: seq<Entry>, ys: seq<Entry>, key: string)
    requires SameKeys(xs, ys) && forall i | 0 <= i < |xs| :: Shadowed(xs, i) || xs[i] == ys[i]
    ensures Last(xs, key).Some? ==> Last(ys, key) == Last(xs, key)
  {
    if Last(xs, key).Some? {
      var i := LastAt(xs, key);
      LastSome(ys, i);
    }
  }

  lemma SameLastIff(xs: seq<Entry>, ys: seq<Entry>)
    requires SameKeys(xs, ys)
    ensures SameLast(xs, ys) <==> forall i | 0 <= i < |xs| :: Shadowed(xs, i) || xs[i] == ys[i]
  {
    if SameLast(xs, ys) {
      forall i | 0 <= i < |xs| && !Shadowed(xs, i)
        ensures xs[i] == ys[i]
      {
        SameLastMeans(xs, ys, i);
      }
    } else if forall i | 0 <= i < |xs| :: Shadowed(xs, i) || xs[i] == ys[i] {
      assert forall i | 0 <= i < |xs| :: Shadowed(ys, i) <==> Shadowed(xs, i);
      forall key
        ensures Last(xs, key) == Last(ys, key)
      {
        LastAgrees(xs, ys, key);
        LastAgrees(ys, xs, key);
      }
    }
  }

  // ---------------------------------------------------------------------------------------------
  // When an applied suggestion is recognised
  // ---------------------------------------------------------------------------------------------

  /** Every list whose key no later attribute takes over holds one line in each item. */
  predicate ListsKept(r: Record) {
    forall i | 0 <= i < |r| :: EntryKept(r[i]) || exists j :: i < j < |r| && Trim(r[j].key) == Trim(r[i].key)
  }

  lemma DraftedAgainstTrimmed(r: Record, i: nat)
    requires AllFilled(r) && i < |r|
    ensures Drafted(r)[i].key == Trimmed(r)[i].key == Trim(r[i].key)
    ensures Drafted(r)[i] == Trimmed(r)[i] <==> EntryKept(r[i])
  {
    EntryThroughDraft(r[i]);
  }

  lemma ShadowedIff(r: Record, ds: seq<Entry>, i: nat)
    requires |ds| == |r| && i < |r| && forall j | 0 <= j < |r| :: ds[j].key == Trim(r[j].key)
    ensures Shadowed(ds, i) <==> exists j :: i < j < |r| && Trim(r[j].key) == Trim(r[i].key)
  {
    if j :| i < j < |r| && Trim(r[j].key) == Trim(r[i].key) {
      assert ds[j].key == ds[i].key;
    }
  }

  lemma AttributesRecognisedIff(r: Record, le: Collation)
    requires AllFilled(r) && Reflexive(le)
    ensures Comparable(Drafted(r), le) == Comparable(Trimmed(r), le) <==> ListsKept(r)
  {
    var ds, es := Drafted(r), Trimmed(r);
    forall i | 0 <= i < |r|
      ensures ds[i].key == es[i].key == Trim(r[i].key) && (ds[i] == es[i] <==> EntryKept(r[i]))
    {
      DraftedAgainstTrimmed(r, i);
    }
    ComparableEqualIff(ds, es, le);
    SameLastIff(ds, es);
    forall i | 0 <= i < |r|
      ensures Shadowed(ds, i) <==> exists j :: i < j < |r| && Trim(r[j].key) == Trim(r[i].key)
    {
      ShadowedIff(r, ds, i);
    }
  }

  predicate ExtractionRecognisable(x: Extraction) {
    Trim(x.cls) != "" && Trim(x.text) != "" && AllFilled(x.attributes) && ListsKept(x.attributes)
  }

  lemma {:induction false} ExtractionsRecognisedIff(xs: seq<Extraction>, le: Collation)
    requires Reflexive(le)
    ensures ComparableDraftExtractions(DraftOfExtractions(xs), le) == Ok(ComparableSuggestionExtractions(xs, le)) <==>
              forall i | 0 <= i < |xs| :: ExtractionRecognisable(xs[i])
  {
    if xs != [] {
      ExtractionsRecognisedIff(xs[1..], le);
      FirstRecognisedIff(xs, le);
      assert forall i | 0 < i < |xs| :: xs[i] == xs[1..][i - 1];
    }
  }

  lemma FirstRecognisedIff(xs: seq<Extraction>, le: Collation)
    requires Reflexive(le) && xs != []
    ensures ComparableDraftExtractions(DraftOfExtractions(xs), le) == Ok(ComparableSuggestionExtractions(xs, le)) <==>
              && ExtractionRecognisable(xs[0])
              && ComparableDraftExtractions(DraftOfExtractions(xs[1..]), le) == Ok(ComparableSuggestionExtractions(xs[1..], le))
  {
    var r := xs[0].attributes;
    var drafts := DraftOfExtractions(xs);
    assert drafts[1..] == DraftOfExtractions(xs[1..]);
    DraftEntriesOkIff(r);
    SuggestionEntriesAre(r);
    if AllFilled(r) {
      DraftEntriesAre(r);
      AttributesRecognisedIff(r, le);
    }
    var all := ComparableSuggestionExtractions(xs, le);
    assert all[1..] == ComparableSuggestionExtractions(xs[1..], le);
    var whole := ComparableDraftExtractions(drafts, le);
    var rest := ComparableDraftExtractions(drafts[1..], le);
    if whole.Ok? {
      assert rest.Ok? && whole.value[1..] == rest.value;
      assert whole.value == [whole.value[0]] + rest.value && all == [all[0]] + all[1..];
    }
  }

  lemma {:induction false} UnixLinesAddNoInk(s: string)
    requires !HasInk(JavaScript, s)
    ensures !HasInk(JavaScript, UnixLines(s))
    decreases |s|
  {
    if s != "" {
      var skip := if |s| >= 2 && s[0] == '\r' && s[1] == '\n' then 2 else 1;
      assert forall i | 0 <= i < |s| - skip :: s[skip..][i] == s[i + skip];
      UnixLinesAddNoInk(s[skip..]);
      assert IsSpace(JavaScript, UnixLines(s)[0]);
      assert forall j | 0 < j < |UnixLines(s)| :: UnixLines(s)[j] == UnixLines(s[skip..])[j - 1];
    }
  }

  /** A suggestion that is turned into a draft is recognised in it exactly when nothing in it is blank, it has
      an extraction, and no item of a list that is kept holds a line feed. A list is not kept when a later
      attribute has the same trimmed key. */
  lemma SuggestionRecognisedIff(e: Example, le: Collation)
    requires Reflexive(le)
    ensures ComparableDraft(DraftOfExamples([e])[0], le) == Ok(ComparableSuggestion(e, le)) <==>
              && Trim(e.text) != "" && e.extractions != []
              && forall i | 0 <= i < |e.extractions| :: ExtractionRecognisable(e.extractions[i])
  {
    StripEmptyIff(JavaScript, e.text);
    StripEmptyIff(JavaScript, UnixLines(e.text));
    if HasInk(JavaScript, e.text) {
      UnixLinesKeepInk(e.text);
    } else {
      UnixLinesAddNoInk(e.text);
    }
    ExtractionsRecognisedIff(e.extractions, le);
    assert DraftOfExtractions(e.extractions) == [] <==> e.extractions == [];
  }
}
