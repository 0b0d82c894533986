/** Suggestions for new extraction examples, mined from reviewed results. */
module Feedback {
  import opened Basics
  import opened Text
  import opened Formulas
  import opened Results
  import Sorting

  const CONTEXT_RADIUS := 160

  datatype SkipReason =
    | MissingDocumentText
    | MissingTargetField
    | MissingGrounding
    | SpanOverride
    | SpanMismatch
    | EmptyContext
    | NoContextualExtractions

  type Attributes = map<string, seq<string>>

  datatype Extraction = Extraction(cls: string, text: string, attributes: Attributes)

  datatype Suggestion = Suggestion(
    key: string,
    exampleText: string,
    extractions: seq<Extraction>,
    occurrences: nat,
    sourceResults: seq<nat>,
    sourceFields: seq<string>,
    lastReviewed: Option<int>)

  /** What became of one edit. */
  datatype Fate = Suggested(suggestion: Suggestion) | Skipped(reason: SkipReason)

  /** Parts that this model leaves open: the attributes of a field value and the digest of a suggestion. */
  datatype Hooks = Hooks(attributes: (string, Value) -> Attributes, digest: (string, seq<Extraction>) -> string)

  // ---------------------------------------------------------------------------------------------
  // Span predicates
  // ---------------------------------------------------------------------------------------------

  predicate Grounded(f: ExtractedResult) {
    f.charStart.Some? && f.charEnd.Some? && 0 <= f.charStart.value <= f.charEnd.value
  }

  predicate HasOverride(f: ExtractedResult) {
    !f.extracted.Null? && (!f.extracted.Str? || Strip(Python, f.extracted.s) != Strip(Python, f.sourceText))
  }

  predicate MatchesSpan(f: ExtractedResult, doc: string)
    requires Grounded(f)
  {
    f.charEnd.value <= |doc| && Strip(Python, doc[f.charStart.value..f.charEnd.value]) == Strip(Python, f.sourceText)
  }

  function WindowStart(start: int): nat {
    if start - CONTEXT_RADIUS > 0 then start - CONTEXT_RADIUS else 0
  }

  function WindowEnd(doc: string, end: int): nat
    requires end >= 0
  {
    if end + CONTEXT_RADIUS < |doc| then end + CONTEXT_RADIUS else |doc|
  }

  /** A field is quoted in an example when it is grounded inside the window, matches the document there,
      and its value is the quoted text. */
  predicate Quotable(f: ExtractedResult, doc: string, lo: nat, hi: nat) {
    && Grounded(f) && lo <= f.charStart.value && f.charEnd.value <= hi
    && MatchesSpan(f, doc)
    && Strip(Python, f.sourceText) != "" && !HasOverride(f)
  }

  // ---------------------------------------------------------------------------------------------
  // One suggestion
  // ---------------------------------------------------------------------------------------------

  function Quote(f: ExtractedResult, hooks: Hooks): Extraction {
    Extraction(f.name, Strip(Python, f.sourceText), hooks.attributes(f.name, f.normalized))
  }

  function Quotes(fields: seq<ExtractedResult>, doc: string, lo: nat, hi: nat, hooks: Hooks): seq<Extraction> {
    if fields == [] then []
    else
      var last := fields[|fields| - 1];
      Quotes(fields[..|fields| - 1], doc, lo, hi, hooks) + (if Quotable(last, doc, lo, hi) then [Quote(last, hooks)] else [])
  }

  /** The fields that are quoted. */
  function QuotedFields(fields: seq<ExtractedResult>, doc: string, lo: nat, hi: nat): seq<ExtractedResult> {
    if fields == [] then []
    else
      var last := fields[|fields| - 1];
      QuotedFields(fields[..|fields| - 1], doc, lo, hi) + (if Quotable(last, doc, lo, hi) then [last] else [])
  }

  lemma {:induction false} QuotedFieldsMembers(fields: seq<ExtractedResult>, doc: string, lo: nat, hi: nat)
    ensures forall f :: f in QuotedFields(fields, doc, lo, hi) <==> f in fields && Quotable(f, doc, lo, hi)
  {
    if fields != [] {
      var n := |fields| - 1;
      QuotedFieldsMembers(fields[..n], doc, lo, hi);
      assert fields == fields[..n] + [fields[n]];
    }
  }

  lemma {:induction false} QuotedFieldsSorted(
    fields: seq<ExtractedResult>, doc: string, lo: nat, hi: nat, le: (ExtractedResult, ExtractedResult) -> bool)
    requires Sorting.Sorted(fields, le)
    ensures Sorting.Sorted(QuotedFields(fields, doc, lo, hi), le)
  {
    if fields != [] {
      var n := |fields| - 1;
      QuotedFieldsSorted(fields[..n], doc, lo, hi, le);
      QuotedFieldsMembers(fields[..n], doc, lo, hi);
      forall f | f in fields[..n]
        ensures le(f, fields[n])
      {
        var i :| 0 <= i < n && fields[i] == f;
      }
    }
  }

  lemma {:induction false} QuotesOfFields(fields: seq<ExtractedResult>, doc: string, lo: nat, hi: nat, hooks: Hooks)
    ensures var fs, es := QuotedFields(fields, doc, lo, hi), Quotes(fields, doc, lo, hi, hooks);
            |es| == |fs| && forall i | 0 <= i < |es| :: es[i] == Quote(fs[i], hooks)
  {
    if fields != [] {
      QuotesOfFields(fields[..|fields| - 1], doc, lo, hi, hooks);
    }
  }

  predicate Mentions(es: seq<Extraction>, cls: string) {
    exists i :: 0 <= i < |es| && es[i].cls == cls
  }

  /** The first field of that name. */
  function Target(fields: seq<ExtractedResult>, name: string): (t: Option<ExtractedResult>)
    ensures t.Some? ==> t.value.name == name && t.value in fields
    ensures t.None? ==> forall f | f in fields :: f.name != name
  {
    if fields == [] then None
    else if fields[0].name == name then Some(fields[0])
    else Target(fields[1..], name)
  }

  /** Grounding, override and span checks on the target. */
  predicate PassesChecks(f: ExtractedResult, doc: string) {
    Grounded(f) && Strip(Python, f.sourceText) != "" && !HasOverride(f) && MatchesSpan(f, doc)
  }

  function Candidate(
    result: nat, fields: seq<ExtractedResult>, ordered: seq<ExtractedResult>, reviewedAt: Option<int>,
    doc: string, name: string, hooks: Hooks): Fate
  {
    var target := Target(fields, name);
    if target.None? then Skipped(MissingTargetField)
    else
      var f := target.value;
      if !Grounded(f) || Strip(Python, f.sourceText) == "" then Skipped(MissingGrounding)
      else if HasOverride(f) then Skipped(SpanOverride)
      else if !MatchesSpan(f, doc) then Skipped(SpanMismatch)
      else
        var lo, hi := WindowStart(f.charStart.value), WindowEnd(doc, f.charEnd.value);
        var text := Strip(Python, doc[lo..hi]);
        var quotes := Quotes(ordered, doc, lo, hi, hooks);
        if text == "" then Skipped(EmptyContext)
        else if !Mentions(quotes, f.name) then Skipped(NoContextualExtractions)
        else Suggested(Suggestion(hooks.digest(text, quotes), text, quotes, 1, [result], [name], reviewedAt))
  }

  /** The loop of the source over the fields in document order, with its `target_included` flag. */
  method CollectQuotes(ordered: seq<ExtractedResult>, target: string, doc: string, lo: nat, hi: nat, hooks: Hooks)
    returns (quotes: seq<Extraction>, included: bool)
    ensures quotes == Quotes(ordered, doc, lo, hi, hooks)
    ensures included <==> Mentions(quotes, target)
  {
    quotes, included := [], false;
    for i := 0 to |ordered|
      invariant quotes == Quotes(ordered[..i], doc, lo, hi, hooks)
      invariant included <==> Mentions(quotes, target)
    {
      assert ordered[..i + 1][..i] == ordered[..i];
      var f := ordered[i];
      if Quotable(f, doc, lo, hi) {
        MentionsSnoc(quotes, Quote(f, hooks), target);
        quotes := quotes + [Quote(f, hooks)];
        if f.name == target {
          included := true;
        }
      }
    }
    assert ordered[..|ordered|] == ordered;
  }

  lemma MentionsSnoc(es: seq<Extraction>, e: Extraction, cls: string)
    ensures Mentions(es + [e], cls) <==> Mentions(es, cls) || e.cls == cls
  {
    if Mentions(es, cls) {
      var i :| 0 <= i < |es| && es[i].cls == cls;
      assert (es + [e])[i].cls == cls;
    }
    assert (es + [e])[|es|] == e;
  }

  /** A quotable span survives the stripping of the window that encloses it. */
  lemma QuoteIsGrounded(f: ExtractedResult, doc: string, lo: nat, hi: nat)
    requires lo <= hi <= |doc| && Quotable(f, doc, lo, hi)
    ensures Occurs(Strip(Python, f.sourceText), Strip(Python, doc[lo..hi]))
  {
    var s, e := f.charStart.value, f.charEnd.value;
    var span := doc[s..e];
    var a, b := StripIsSpan(Python, span);
    SliceOfSlice(doc, s, e, a, b);
    assert Strip(Python, span) == doc[s + a..s + b];
    assert Strip(Python, span)[0] == doc[s + a] && Strip(Python, span)[b - a - 1] == doc[s + b - 1];
    SpanSurvivesStrip(Python, doc, lo, hi, s + a, s + b);
  }

  lemma {:induction false} QuotesAreGrounded(fields: seq<ExtractedResult>, doc: string, lo: nat, hi: nat, hooks: Hooks)
    requires lo <= hi <= |doc|
    ensures forall e | e in Quotes(fields, doc, lo, hi, hooks) :: e.text != "" && Occurs(e.text, Strip(Python, doc[lo..hi]))
  {
    if fields != [] {
      var n := |fields| - 1;
      QuotesAreGrounded(fields[..n], doc, lo, hi, hooks);
      if Quotable(fields[n], doc, lo, hi) {
        QuoteIsGrounded(fields[n], doc, lo, hi);
      }
    }
  }

  lemma {:induction false} QuotableIsMentioned(fields: seq<ExtractedResult>, f: ExtractedResult, doc: string, lo: nat, hi: nat, hooks: Hooks)
    requires f in fields && Quotable(f, doc, lo, hi)
    ensures Mentions(Quotes(fields, doc, lo, hi, hooks), f.name)
  {
    var n := |fields| - 1;
    var before := Quotes(fields[..n], doc, lo, hi, hooks);
    assert fields == fields[..n] + [fields[n]];
    if f in fields[..n] {
      QuotableIsMentioned(fields[..n], f, doc, lo, hi, hooks);
    }
    if Quotable(fields[n], doc, lo, hi) {
      MentionsSnoc(before, Quote(fields[n], hooks), f.name);
    } else {
      assert before + [] == before;
    }
  }

  /** Every suggestion is grounded: each quoted text occurs in the example text, which in turn is a
      stretch of the document around the target; and the target itself is quoted. */
  lemma SuggestionIsGrounded(
    result: nat, fields: seq<ExtractedResult>, ordered: seq<ExtractedResult>, reviewedAt: Option<int>,
    doc: string, name: string, hooks: Hooks)
    requires Candidate(result, fields, ordered, reviewedAt, doc, name, hooks).Suggested?
    ensures var s := Candidate(result, fields, ordered, reviewedAt, doc, name, hooks).suggestion;
            && (forall e | e in s.extractions :: e.text != "" && Occurs(e.text, s.exampleText))
            && Occurs(s.exampleText, doc) && s.exampleText != "" && Mentions(s.extractions, name)
            && var f := Target(fields, name).value;
               |s.exampleText| <= f.charEnd.value - f.charStart.value + 2 * CONTEXT_RADIUS
  {
    var f := Target(fields, name).value;
    var lo, hi := WindowStart(f.charStart.value), WindowEnd(doc, f.charEnd.value);
    QuotesAreGrounded(ordered, doc, lo, hi, hooks);
    var a, b := StripIsSpan(Python, doc[lo..hi]);
    SliceOfSlice(doc, lo, hi, a, b);
    assert OccursAt(Strip(Python, doc[lo..hi]), doc, lo + a);
  }

  /** A suggestion is produced exactly when the edited field exists and passes its grounding, override and
      span checks. The two later skips, empty context and no contextual extractions, never happen. */
  lemma ChecksDecide(
    result: nat, fields: seq<ExtractedResult>, ordered: seq<ExtractedResult>, reviewedAt: Option<int>,
    doc: string, name: string, hooks: Hooks)
    requires forall f :: f in ordered <==> f in fields
    ensures var fate := Candidate(result, fields, ordered, reviewedAt, doc, name, hooks);
            var target := Target(fields, name);
            && (fate.Suggested? <==> target.Some? && PassesChecks(target.value, doc))
            && fate != Skipped(EmptyContext) && fate != Skipped(NoContextualExtractions)
  {
    var target := Target(fields, name);
    if target.Some? && PassesChecks(target.value, doc) {
      var f := target.value;
      var lo, hi := WindowStart(f.charStart.value), WindowEnd(doc, f.charEnd.value);
      QuoteIsGrounded(f, doc, lo, hi);
      QuotableIsMentioned(ordered, f, doc, lo, hi, hooks);
    }
  }
}
