/** Reconciliation of provider results with the field definitions of a template. */
module Reconciliation {
  import opened Basics
  import opened Formulas
  import opened Results
  import Buckets
  import Redaction

  datatype FieldDefinition = FieldDefinition(
    name: string,
    required: bool,
    allowNull: bool,
    allowedValues: seq<string>,
    hasSchema: bool,
    hasPattern: bool,
    maxLength: nat,
    citationRequired: bool)

  /** Foreign checks: the fuzzy matcher, the comparison key, JSON Schema, the pattern and the length of
      a value's text. */
  datatype Checks = Checks(
    fuzzy: (string, seq<string>) -> Option<string>,
    key: string -> string,
    schemaError: (FieldDefinition, Value) -> Option<string>,
    patternHolds: (FieldDefinition, Value) -> bool,
    textLength: Value -> nat)

  /** All that is assumed of the fuzzy matcher: it picks one of the allowed values. */
  ghost predicate PicksMembers(checks: Checks) {
    forall c: string, allowed: seq<string> :: checks.fuzzy(c, allowed).Some? ==> checks.fuzzy(c, allowed).value in allowed
  }

  // ---------------------------------------------------------------------------------------------
  // Allowed values
  // ---------------------------------------------------------------------------------------------

  function FirstWithKey(allowed: seq<string>, k: string, checks: Checks): (r: Option<string>)
    ensures r.Some? ==> r.value in allowed
  {
    if allowed == [] then None
    else if checks.key(allowed[0]) == k then Some(allowed[0])
    else FirstWithKey(allowed[1..], k, checks)
  }

  /** The replacement for a text that is not allowed as it stands, if there is one. */
  function Replacement(c: string, allowed: seq<string>, checks: Checks): Option<string> {
    if c in allowed then None
    else
      var byKey := FirstWithKey(allowed, checks.key(c), checks);
      if byKey.Some? then byKey else checks.fuzzy(c, allowed)
  }

  function CanonicalScalar(v: Value, allowed: seq<string>, checks: Checks): Value {
    if v.Str? && Replacement(v.s, allowed, checks).Some? then Str(Replacement(v.s, allowed, checks).value) else v
  }

  function ScalarNotes(v: Value, allowed: seq<string>, checks: Checks): seq<ExtractionNote> {
    if v.Str? && Replacement(v.s, allowed, checks).Some?
    then [Canonicalised(v.s, Replacement(v.s, allowed, checks).value)] else []
  }

  function CanonicalItems(items: seq<Value>, allowed: seq<string>, checks: Checks): seq<Value> {
    if items == [] then [] else [CanonicalScalar(items[0], allowed, checks)] + CanonicalItems(items[1..], allowed, checks)
  }

  function ItemNotes(items: seq<Value>, allowed: seq<string>, checks: Checks): seq<ExtractionNote> {
    if items == [] then [] else ScalarNotes(items[0], allowed, checks) + ItemNotes(items[1..], allowed, checks)
  }

  function Canonical(v: Value, allowed: seq<string>, checks: Checks): Value {
    match v
    case Str(_) => CanonicalScalar(v, allowed, checks)
    case List(items) => List(CanonicalItems(items, allowed, checks))
    case _ => v
  }

  function CanonicalNotes(v: Value, allowed: seq<string>, checks: Checks): seq<ExtractionNote> {
    match v
    case Str(_) => ScalarNotes(v, allowed, checks)
    case List(items) => ItemNotes(items, allowed, checks)
    case _ => []
  }

  predicate IsAllowed(v: Value, allowed: seq<string>) {
    v.Str? && v.s in allowed
  }

  lemma {:induction false} ItemsSettle(items: seq<Value>, allowed: seq<string>, checks: Checks)
    requires PicksMembers(checks)
    ensures var once := CanonicalItems(items, allowed, checks);
            && CanonicalItems(once, allowed, checks) == once
            && ItemNotes(once, allowed, checks) == []
    ensures ItemNotes(items, allowed, checks) == [] ==> CanonicalItems(items, allowed, checks) == items
  {
    if items != [] {
      ItemsSettle(items[1..], allowed, checks);
      var once := CanonicalItems(items, allowed, checks);
      assert once[1..] == CanonicalItems(items[1..], allowed, checks);
    }
  }

  /** Canonicalising is idempotent: a value that has been canonicalised is left alone, without a note. */
  lemma CanonicalSettles(v: Value, allowed: seq<string>, checks: Checks)
    requires PicksMembers(checks)
    ensures var once := Canonical(v, allowed, checks);
            Canonical(once, allowed, checks) == once && CanonicalNotes(once, allowed, checks) == []
    ensures CanonicalNotes(v, allowed, checks) == [] ==> Canonical(v, allowed, checks) == v
    ensures v.Str? && CanonicalNotes(v, allowed, checks) != [] ==> IsAllowed(Canonical(v, allowed, checks), allowed)
  {
    if v.List? {
      ItemsSettle(v.items, allowed, checks);
    }
  }

  // ---------------------------------------------------------------------------------------------
  // Validation of one field
  // ---------------------------------------------------------------------------------------------

  /** The value that allowed values are compared with: the `value` entry of a structured result. */
  function CandidateOf(v: Value): Value {
    if v.Dict? then (if "value" in v.entries then v.entries["value"] else Null) else v
  }

  function WithCandidate(v: Value, c: Value): Value {
    if v.Dict? && "value" in v.entries then Dict(v.entries["value" := c]) else c
  }

  predicate ChecksAllowed(d: FieldDefinition, v: Value) {
    d.allowedValues != [] && !v.Null?
  }

  function NormalizedAfter(d: FieldDefinition, v: Value, checks: Checks): Value {
    if ChecksAllowed(d, v) && CanonicalNotes(CandidateOf(v), d.allowedValues, checks) != []
    then WithCandidate(v, Canonical(CandidateOf(v), d.allowedValues, checks)) else v
  }

  function NewNotes(d: FieldDefinition, v: Value, checks: Checks): seq<ExtractionNote> {
    if ChecksAllowed(d, v) then CanonicalNotes(CandidateOf(v), d.allowedValues, checks) else []
  }

  function When(b: bool, issue: FieldIssue): seq<FieldIssue> {
    if b then [issue] else []
  }

  function FieldIssues(d: FieldDefinition, r: ExtractedResult, checks: Checks): seq<FieldIssue> {
    var v := NormalizedAfter(d, r.normalized, checks);
    var schema := if d.hasSchema && !v.Null? then checks.schemaError(d, v) else None;
    When(d.required && r.normalized.Null?, RequiredMissing)
    + When(r.normalized.Null? && !d.allowNull, NullNotAllowed)
    + When(ChecksAllowed(d, r.normalized)
           && !IsAllowed(Canonical(CandidateOf(r.normalized), d.allowedValues, checks), d.allowedValues), OutsideAllowedValues)
    + (if schema.Some? then [SchemaViolation(schema.value)] else [])
    + When(d.hasPattern && !r.extracted.Null? && !checks.patternHolds(d, r.extracted), PatternMismatch)
    + When(d.maxLength > 0 && !r.extracted.Null? && checks.textLength(r.extracted) > d.maxLength, TooLong)
  }

  /** `validate_extracted_field`. */
  function Validated(d: FieldDefinition, r: ExtractedResult, checks: Checks): ExtractedResult {
    var errors := FieldIssues(d, r, checks);
    var notes := NewNotes(d, r.normalized, checks);
    r.(normalized := NormalizedAfter(d, r.normalized, checks),
       notes := r.notes + notes,
       errors := errors,
       status := if errors == [] then Valid else Invalid,
       requiresReview := r.requiresReview || notes != [] || errors != [])
  }

  /** Validating twice is validating once. */
  lemma ValidatedIsIdempotent(d: FieldDefinition, r: ExtractedResult, checks: Checks)
    requires PicksMembers(checks)
    ensures Validated(d, Validated(d, r, checks), checks) == Validated(d, r, checks)
  {
    var v := r.normalized;
    var c := CandidateOf(v);
    CanonicalSettles(c, d.allowedValues, checks);
    var v' := NormalizedAfter(d, v, checks);
    if ChecksAllowed(d, v) && CanonicalNotes(c, d.allowedValues, checks) != [] {
      assert CandidateOf(v') == Canonical(c, d.allowedValues, checks) by {
        assert v.Dict? ==> "value" in v.entries;
        assert !v.Dict? ==> !Canonical(c, d.allowedValues, checks).Dict?;
      }
    }
    assert NewNotes(d, v', checks) == [];
    assert Validated(d, r, checks).notes + [] == Validated(d, r, checks).notes;
  }

  /** When a value passes the allowed-values check: exactly when there is nothing to check, or its candidate
      is a text that is allowed as it stands or has a replacement. */
  lemma AllowedExactlyWhen(d: FieldDefinition, r: ExtractedResult, checks: Checks)
    requires PicksMembers(checks)
    ensures var c := CandidateOf(r.normalized);
            OutsideAllowedValues !in FieldIssues(d, r, checks) <==>
              || !ChecksAllowed(d, r.normalized)
              || (c.Str? && (c.s in d.allowedValues || Replacement(c.s, d.allowedValues, checks).Some?))
  {
    CanonicalSettles(CandidateOf(r.normalized), d.allowedValues, checks);
  }

  /** The other half needs no assumption about the matcher: no list can pass, whatever its items, because the
      whole list is compared with the allowed texts after its items have been canonicalised; nor can a number,
      a boolean or a record without a text. */
  lemma OnlyTextsAllowed(d: FieldDefinition, r: ExtractedResult, checks: Checks)
    requires ChecksAllowed(d, r.normalized) && !CandidateOf(r.normalized).Str?
    ensures OutsideAllowedValues in Validated(d, r, checks).errors
    ensures Validated(d, r, checks).status == Invalid && Validated(d, r, checks).requiresReview
  {
  }

  // ---------------------------------------------------------------------------------------------
  // Choosing a candidate
  // ---------------------------------------------------------------------------------------------

  datatype Score = Score(evidence: nat, confidence: real, length: nat)

  function ScoreOf(r: ExtractedResult): Score {
    Score((if r.normalized.Null? then 0 else 1) + (if r.sourceText == "" then 0 else 1), r.confidence, |r.sourceText|)
  }

  /** Lexicographic comparison. */
  predicate Less(a: Score, b: Score) {
    || a.evidence < b.evidence
    || (a.evidence == b.evidence && a.confidence < b.confidence)
    || (a.evidence == b.evidence && a.confidence == b.confidence && a.length < b.length)
  }

  /** Nothing scores higher, and everything before it scores lower. */
  ghost predicate IsFirstMaximum(candidates: seq<ExtractedResult>, k: nat) {
    && k < |candidates|
    && (forall i | 0 <= i < |candidates| :: !Less(ScoreOf(candidates[k]), ScoreOf(candidates[i])))
    && (forall i | 0 <= i < k :: Less(ScoreOf(candidates[i]), ScoreOf(candidates[k])))
  }

  function Best(candidates: seq<ExtractedResult>): (k: nat)
    requires candidates != []
    ensures IsFirstMaximum(candidates, k)
  {
    if |candidates| == 1 then 0
    else
      var n := |candidates| - 1;
      var k := Best(candidates[..n]);
      assert forall i | 0 <= i < n :: candidates[..n][i] == candidates[i];
      if Less(ScoreOf(candidates[k]), ScoreOf(candidates[n])) then n else k
  }

  // ---------------------------------------------------------------------------------------------
  // Reconciling
  // ---------------------------------------------------------------------------------------------

  function NameOf(r: ExtractedResult): string {
    r.name
  }

  /** The provider results for one field, in order. */
  function CandidatesFor(results: seq<ExtractedResult>, name: string): seq<ExtractedResult> {
    Buckets.Bucket(results, NameOf, name)
  }

  /** The results that no definition asks for: one note each. */
  function Unexpected(results: seq<ExtractedResult>, names: set<string>): seq<ExtractedResult> {
    Buckets.Outside(results, NameOf, names)
  }

  function Missing(d: FieldDefinition): ExtractedResult {
    ExtractedResult(d.name, Null, Null, 0.0, "", None, None, Pending, [], [MissingFromResponse], true)
  }

  function Chosen(d: FieldDefinition, candidates: seq<ExtractedResult>): ExtractedResult {
    if candidates == [] then Missing(d)
    else
      var best := candidates[Best(candidates)];
      if |candidates| > 1
      then best.(requiresReview := true, notes := best.notes + [SelectedFrom(|candidates|)])
      else best
  }

  function Cited(d: FieldDefinition, r: ExtractedResult): ExtractedResult {
    if d.citationRequired && r.sourceText == ""
    then r.(errors := r.errors + [CitationRequired], status := Invalid, requiresReview := true) else r
  }

  datatype Policy = Policy(threshold: real, reviewLowConfidence: bool)

  predicate IsLow(r: ExtractedResult, policy: Policy) {
    policy.reviewLowConfidence && !r.normalized.Null? && r.confidence < policy.threshold
  }

  function Thresholded(r: ExtractedResult, policy: Policy): ExtractedResult {
    if IsLow(r, policy) then r.(requiresReview := true, notes := r.notes + [LowConfidence]) else r
  }

  function ReconciledField(
    d: FieldDefinition, candidates: seq<ExtractedResult>, checks: Checks, policy: Policy): ExtractedResult
  {
    Thresholded(Cited(d, Validated(d, Chosen(d, candidates), checks)), policy)
  }

  function NamesOf(defs: seq<FieldDefinition>): set<string> {
    set i | 0 <= i < |defs| :: defs[i].name
  }

  /** The candidates grouped under a name. */
  function Group(grouped: map<string, seq<ExtractedResult>>, name: string): seq<ExtractedResult> {
    if name in grouped then grouped[name] else []
  }

  /** The grouping loop: a dictionary of candidates by field, and one note for every other result
      (the result itself stands for the note about it). */
  method GroupResults(results: seq<ExtractedResult>, names: set<string>)
    returns (grouped: map<string, seq<ExtractedResult>>, notes: seq<ExtractedResult>)
    ensures notes == Unexpected(results, names)
    ensures forall n | n in names :: Group(grouped, n) == CandidatesFor(results, n)
  {
    grouped, notes := map[], [];
    for i := 0 to |results|
      invariant notes == Unexpected(results[..i], names)
      invariant forall n | n in names :: Group(grouped, n) == CandidatesFor(results[..i], n)
    {
      assert results[..i + 1][..i] == results[..i];
      var result := results[i];
      if result.name !in names {
        notes := notes + [result];
      } else {
        grouped := grouped[result.name := Group(grouped, result.name) + [result]];
      }
    }
    assert results[..|results|] == results;
  }

  /** The loop over the definitions, for any way of reconciling one field. */
  method ReconcileEach(
    defs: seq<FieldDefinition>, ghost results: seq<ExtractedResult>, grouped: map<string, seq<ExtractedResult>>,
    field: (FieldDefinition, seq<ExtractedResult>) -> ExtractedResult)
    returns (reconciled: seq<ExtractedResult>)
    requires forall n | n in NamesOf(defs) :: Group(grouped, n) == CandidatesFor(results, n)
    ensures |reconciled| == |defs|
    ensures forall i | 0 <= i < |defs| :: reconciled[i] == field(defs[i], CandidatesFor(results, defs[i].name))
  {
    reconciled := [];
    for i := 0 to |defs|
      invariant |reconciled| == i
      invariant forall k | 0 <= k < i :: reconciled[k] == field(defs[k], Group(grouped, defs[k].name))
    {
      reconciled := reconciled + [field(defs[i], Group(grouped, defs[i].name))];
    }
    forall i | 0 <= i < |defs|
      ensures Group(grouped, defs[i].name) == CandidatesFor(results, defs[i].name)
    {
      assert defs[i].name in NamesOf(defs);
    }
  }

  /** Groups the provider results by field, then reconciles the definitions in order. */
  method ReconcileExtractedFields(
    defs: seq<FieldDefinition>, results: seq<ExtractedResult>, checks: Checks, policy: Policy)
    returns (reconciled: seq<ExtractedResult>, notes: seq<ExtractedResult>)
    ensures notes == Unexpected(results, NamesOf(defs))
    ensures |reconciled| == |defs|
    ensures forall i | 0 <= i < |defs| ::
              reconciled[i] == ReconciledField(defs[i], CandidatesFor(results, defs[i].name), checks, policy)
  {
    var grouped;
    grouped, notes := GroupResults(results, NamesOf(defs));
    reconciled := ReconcileEach(defs, results, grouped, (d, cs) => ReconciledField(d, cs, checks, policy));
  }

  /** One result per definition, named after it; status is invalid exactly when errors are non-empty;
      the review flag is exactly the sum of its causes, so a flag that a result arrives with survives. */
  lemma ReconciledFieldFacts(
    d: FieldDefinition, results: seq<ExtractedResult>, checks: Checks, policy: Policy)
    ensures var cs := CandidatesFor(results, d.name);
            var r := ReconciledField(d, cs, checks, policy);
            && r.name == d.name
            && (r.status == Invalid <==> r.errors != [])
            && (CitationRequired in r.errors <==> d.citationRequired && r.sourceText == "")
            && (r.requiresReview <==>
                  || Chosen(d, cs).requiresReview
                  || NewNotes(d, Chosen(d, cs).normalized, checks) != []
                  || r.errors != []
                  || IsLow(r, policy))
  {
    var cs := CandidatesFor(results, d.name);
    if cs != [] {
      assert cs[Best(cs)] in cs;
    }
    var c := Chosen(d, cs);
    assert CitationRequired !in FieldIssues(d, c, checks);
  }

  /** The chosen candidate is a first maximum of the lexicographic score, unless there is none; its
      confidence and evidence are carried over unchanged, and an upstream flag is never dropped. */
  lemma ReconciledPicksMaximum(
    d: FieldDefinition, results: seq<ExtractedResult>, checks: Checks, policy: Policy)
    ensures var cs := CandidatesFor(results, d.name);
            var r := ReconciledField(d, cs, checks, policy);
            if cs == [] then r.requiresReview && r.normalized.Null? && MissingFromResponse in r.notes
            else exists k: nat ::
              && IsFirstMaximum(cs, k)
              && r.extracted == cs[k].extracted && r.confidence == cs[k].confidence
              && r.sourceText == cs[k].sourceText && r.charStart == cs[k].charStart && r.charEnd == cs[k].charEnd
              && (cs[k].requiresReview || |cs| > 1 ==> r.requiresReview)
  {
    var cs := CandidatesFor(results, d.name);
    if cs != [] {
      assert IsFirstMaximum(cs, Best(cs));
    } else {
      assert Missing(d).notes[0] == MissingFromResponse;
      assert ReconciledField(d, cs, checks, policy).notes[0] == MissingFromResponse;
    }
  }

  function DefinitionNames(defs: seq<FieldDefinition>): seq<string> {
    seq(|defs|, i requires 0 <= i < |defs| => defs[i].name)
  }

  /** With unique definition names every provider result is a candidate of exactly one definition or has
      exactly one note. */
  lemma ResultsAccountedFor(defs: seq<FieldDefinition>, results: seq<ExtractedResult>)
    requires Distinct(DefinitionNames(defs))
    ensures Buckets.BucketTotal(DefinitionNames(defs), results, NameOf) + |Unexpected(results, NamesOf(defs))| == |results|
  {
    var names := DefinitionNames(defs);
    assert Members(names) == NamesOf(defs) by {
      forall n
        ensures n in names <==> n in NamesOf(defs)
      {
        if n in NamesOf(defs) {
          var i :| 0 <= i < |defs| && defs[i].name == n;
          assert names[i] == n;
        }
      }
    }
    Buckets.BucketsPartition(names, results, NameOf);
  }

  // ---------------------------------------------------------------------------------------------
  // Redacted evidence
  // ---------------------------------------------------------------------------------------------

  predicate Masked(r: ExtractedResult) {
    Redaction.MASK_CHAR in r.sourceText || (r.extracted.Str? && Redaction.MASK_CHAR in r.extracted.s)
  }

  function Sanitised(r: ExtractedResult): ExtractedResult {
    if Masked(r) then r.(extracted := Null, normalized := Null, requiresReview := true, notes := r.notes + [RedactedEvidence])
    else r
  }

  /** The sanitising loop, in place over the provider results. */
  method SanitiseResults(a: array<ExtractedResult>)
    modifies a
    ensures forall i | 0 <= i < a.Length :: a[i] == Sanitised(old(a[i]))
  {
    for i := 0 to a.Length
      invariant forall k | 0 <= k < i :: a[k] == Sanitised(old(a[k]))
      invariant forall k | i <= k < a.Length :: a[k] == old(a[k])
    {
      if Redaction.MASK_CHAR in a[i].sourceText || (a[i].extracted.Str? && Redaction.MASK_CHAR in a[i].extracted.s) {
        a[i] := a[i].(extracted := Null, normalized := Null, requiresReview := true,
                      notes := a[i].notes + [RedactedEvidence]);
      }
    }
  }

  function SanitisedAll(raw: seq<ExtractedResult>): (r: seq<ExtractedResult>)
    ensures |r| == |raw| && forall i | 0 <= i < |r| :: r[i] == Sanitised(raw[i])
  {
    seq(|raw|, i requires 0 <= i < |raw| => Sanitised(raw[i]))
  }

  /** Sanitising and picking the results of one field commute. */
  lemma {:induction false} SanitisedCandidates(raw: seq<ExtractedResult>, name: string)
    ensures CandidatesFor(SanitisedAll(raw), name) == SanitisedAll(CandidatesFor(raw, name))
  {
    if raw != [] {
      var n := |raw| - 1;
      SanitisedCandidates(raw[..n], name);
      assert SanitisedAll(raw)[..n] == SanitisedAll(raw[..n]);
      var before := CandidatesFor(raw[..n], name);
      assert SanitisedAll(before + [raw[n]]) == SanitisedAll(before) + [Sanitised(raw[n])];
      assert before + [] == before;
    }
  }

  /** Sanitising then reconciling: if the provider result chosen for a field held a masked character, in its
      value or in its evidence, the field has no value and asks for review; the chosen one is a first maximum
      among the sanitised results. Otherwise its value is what the provider gave. */
  lemma RedactedEvidenceNeedsReview(d: FieldDefinition, raw: seq<ExtractedResult>, checks: Checks, policy: Policy)
    returns (k: nat)
    requires CandidatesFor(raw, d.name) != []
    ensures var cs := CandidatesFor(raw, d.name);
            var r := ReconciledField(d, CandidatesFor(SanitisedAll(raw), d.name), checks, policy);
            && IsFirstMaximum(SanitisedAll(cs), k)
            && r.sourceText == cs[k].sourceText && (Masked(r) ==> Masked(cs[k]))
            && if Masked(cs[k])
               then r.extracted.Null? && r.normalized.Null? && r.requiresReview && RedactedEvidence in r.notes
               else r.extracted == cs[k].extracted && r.normalized == NormalizedAfter(d, cs[k].normalized, checks)
  {
    SanitisedCandidates(raw, d.name);
    var cs := CandidatesFor(raw, d.name);
    var clean := SanitisedAll(cs);
    k := Best(clean);
    var chosen := Chosen(d, clean);
    var r := ReconciledField(d, clean, checks, policy);
    if Masked(cs[k]) {
      assert clean[k].notes[|cs[k].notes|] == RedactedEvidence;
      assert chosen.notes[|cs[k].notes|] == RedactedEvidence;
      assert r.notes[|cs[k].notes|] == RedactedEvidence;
    }
  }
}
