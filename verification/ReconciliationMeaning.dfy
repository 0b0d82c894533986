/** What reconciliation does to a field, in terms of the provider's results and the template's definitions. */
module ReconciliationMeaning {
  import opened Basics
  import opened Formulas
  import opened Results
  import opened Reconciliation
  import Buckets

  // ---------------------------------------------------------------------------------------------
  // Allowed values
  // ---------------------------------------------------------------------------------------------

  /** `r` is the first allowed value with the key. */
  predicate IsFirstWithKey(allowed: seq<string>, k: string, checks: Checks, r: string) {
    exists i :: 0 <= i < |allowed| && allowed[i] == r && checks.key(allowed[i]) == k
                && forall j | 0 <= j < i :: checks.key(allowed[j]) != k
  }

  lemma {:induction false} FirstWithKeyMeans(allowed: seq<string>, k: string, checks: Checks)
    ensures FirstWithKey(allowed, k, checks).None? <==> forall i | 0 <= i < |allowed| :: checks.key(allowed[i]) != k
    ensures FirstWithKey(allowed, k, checks).Some? ==> IsFirstWithKey(allowed, k, checks, FirstWithKey(allowed, k, checks).value)
  {
    if allowed != [] {
      if checks.key(allowed[0]) == k {
        assert allowed[0] == FirstWithKey(allowed, k, checks).value;
      } else {
        FirstWithKeyMeans(allowed[1..], k, checks);
        assert forall i | 0 < i < |allowed| :: allowed[i] == allowed[1..][i - 1];
        if FirstWithKey(allowed, k, checks).Some? {
          var r := FirstWithKey(allowed, k, checks).value;
          var i :| 0 <= i < |allowed[1..]| && allowed[1..][i] == r && checks.key(allowed[1..][i]) == k
                   && forall j | 0 <= j < i :: checks.key(allowed[1..][j]) != k;
          assert allowed[i + 1] == r;
        }
      }
    }
  }

  /** A text that is allowed is not replaced; another one becomes the first allowed value with its key, or else what the
      matcher picks. */
  lemma ReplacementMeans(c: string, allowed: seq<string>, checks: Checks)
    ensures c in allowed ==> Replacement(c, allowed, checks).None?
    ensures c !in allowed && (exists a :: a in allowed && checks.key(a) == checks.key(c)) ==>
              Replacement(c, allowed, checks).Some?
              && IsFirstWithKey(allowed, checks.key(c), checks, Replacement(c, allowed, checks).value)
    ensures c !in allowed && (forall a | a in allowed :: checks.key(a) != checks.key(c)) ==>
              Replacement(c, allowed, checks) == checks.fuzzy(c, allowed)
  {
    FirstWithKeyMeans(allowed, checks.key(c), checks);
    if a :| a in allowed && checks.key(a) == checks.key(c) {
      var i :| 0 <= i < |allowed| && allowed[i] == a;
    }
  }

  /** A value after canonicalising: texts, and the texts of a list, are replaced where there is a replacement. */
  function Replaced(v: Value, allowed: seq<string>, checks: Checks): Value {
    match v
    case Str(s) => (match Replacement(s, allowed, checks) case Some(r) => Str(r) case None => v)
    case _ => v
  }

  lemma {:induction false} CanonicalItemsMean(items: seq<Value>, allowed: seq<string>, checks: Checks)
    ensures var once := CanonicalItems(items, allowed, checks);
            |once| == |items| && forall i | 0 <= i < |items| :: once[i] == Replaced(items[i], allowed, checks)
  {
    if items != [] {
      CanonicalItemsMean(items[1..], allowed, checks);
    }
  }

  lemma CanonicalMeans(v: Value, allowed: seq<string>, checks: Checks)
    ensures !v.List? ==> Canonical(v, allowed, checks) == Replaced(v, allowed, checks)
    ensures v.List? ==>
              var once := Canonical(v, allowed, checks);
              && once.List? && |once.items| == |v.items|
              && forall i | 0 <= i < |v.items| :: once.items[i] == Replaced(v.items[i], allowed, checks)
  {
    if v.List? {
      CanonicalItemsMean(v.items, allowed, checks);
    }
  }

  /** One note for each replaced text, in order. */
  function NoteOf(v: Value, allowed: seq<string>, checks: Checks): seq<ExtractionNote> {
    match v
    case Str(s) => (match Replacement(s, allowed, checks) case Some(r) => [Canonicalised(s, r)] case None => [])
    case _ => []
  }

  lemma {:induction false} ItemNotesSnoc(items: seq<Value>, last: Value, allowed: seq<string>, checks: Checks)
    ensures ItemNotes(items + [last], allowed, checks) == ItemNotes(items, allowed, checks) + NoteOf(last, allowed, checks)
  {
    if items == [] {
      assert items + [last] == [last] && [last][1..] == [];
      assert NoteOf(last, allowed, checks) + [] == [] + NoteOf(last, allowed, checks);
    } else {
      ItemNotesSnoc(items[1..], last, allowed, checks);
      assert (items + [last])[1..] == items[1..] + [last] && (items + [last])[0] == items[0];
      Regroup(ScalarNotes(items[0], allowed, checks), ItemNotes(items[1..], allowed, checks), NoteOf(last, allowed, checks));
    }
  }

  lemma NotesMean(v: Value, allowed: seq<string>, checks: Checks)
    ensures v.List? ==> CanonicalNotes(v, allowed, checks) == ItemNotes(v.items, allowed, checks)
    ensures !v.List? ==> CanonicalNotes(v, allowed, checks) == NoteOf(v, allowed, checks)
  {
  }

  // ---------------------------------------------------------------------------------------------
  // Validation
  // ---------------------------------------------------------------------------------------------

  /** Of a record only the `value` entry is compared and replaced; without that entry there is nothing to compare. */
  lemma CandidateMeans(v: Value, c: Value)
    ensures !v.Dict? ==> CandidateOf(v) == v && WithCandidate(v, c) == c
    ensures v.Dict? && "value" in v.entries ==>
              && CandidateOf(v) == v.entries["value"]
              && WithCandidate(v, c).Dict? && WithCandidate(v, c).entries.Keys == v.entries.Keys
              && WithCandidate(v, c).entries["value"] == c
              && forall k | k in v.entries && k != "value" :: WithCandidate(v, c).entries[k] == v.entries[k]
    ensures v.Dict? && "value" !in v.entries ==> CandidateOf(v) == Null
  {
  }

  /** When a field's value is compared with allowed values at all. */
  predicate IsCompared(d: FieldDefinition, v: Value) {
    |d.allowedValues| > 0 && v != Null
  }

  /** The value after validation: replaced where the comparison replaced something. */
  lemma NormalizedMeans(d: FieldDefinition, r: ExtractedResult, checks: Checks)
    ensures var c := CandidateOf(r.normalized);
            Validated(d, r, checks).normalized
            == if IsCompared(d, r.normalized) && CanonicalNotes(c, d.allowedValues, checks) != []
               then WithCandidate(r.normalized, Canonical(c, d.allowedValues, checks)) else r.normalized
    ensures Validated(d, r, checks).notes
         == r.notes + (if IsCompared(d, r.normalized) then CanonicalNotes(CandidateOf(r.normalized), d.allowedValues, checks) else [])
  {
  }

  lemma InOneOfSix(a: seq<FieldIssue>, b: seq<FieldIssue>, c: seq<FieldIssue>, d: seq<FieldIssue>, e: seq<FieldIssue>,
                   f: seq<FieldIssue>, x: FieldIssue)
    ensures x in a + b + c + d + e + f <==> x in a || x in b || x in c || x in d || x in e || x in f
  {
  }

  /** The list of errors for given outcomes of the six checks. */
  function Listed(missing: bool, isNull: bool, outside: bool, schema: Option<string>, pattern: bool, long: bool): seq<FieldIssue> {
    When(missing, RequiredMissing) + When(isNull, NullNotAllowed) + When(outside, OutsideAllowedValues)
    + (if schema.Some? then [SchemaViolation(schema.value)] else []) + When(pattern, PatternMismatch) + When(long, TooLong)
  }

  lemma ListedMeans(missing: bool, isNull: bool, outside: bool, schema: Option<string>, pattern: bool, long: bool, x: FieldIssue)
    ensures x in Listed(missing, isNull, outside, schema, pattern, long) <==>
              match x
              case RequiredMissing => missing
              case NullNotAllowed => isNull
              case OutsideAllowedValues => outside
              case SchemaViolation(m) => schema == Some(m)
              case PatternMismatch => pattern
              case TooLong => long
              case CitationRequired => false
  {
    InOneOfSix(When(missing, RequiredMissing), When(isNull, NullNotAllowed), When(outside, OutsideAllowedValues),
               if schema.Some? then [SchemaViolation(schema.value)] else [], When(pattern, PatternMismatch), When(long, TooLong), x);
  }

  /** An error is reported exactly when its own check fails. */
  predicate Arises(d: FieldDefinition, r: ExtractedResult, v: Value, checks: Checks, issue: FieldIssue) {
    var c := CandidateOf(r.normalized);
    match issue
    case RequiredMissing => d.required && r.normalized == Null
    case NullNotAllowed => r.normalized == Null && !d.allowNull
    case OutsideAllowedValues =>
      IsCompared(d, r.normalized)
      && !(c.Str? && (c.s in d.allowedValues || Replacement(c.s, d.allowedValues, checks).Some?))
    case SchemaViolation(m) => d.hasSchema && v != Null && checks.schemaError(d, v) == Some(m)
    case PatternMismatch => d.hasPattern && r.extracted != Null && !checks.patternHolds(d, r.extracted)
    case TooLong => d.maxLength > 0 && r.extracted != Null && checks.textLength(r.extracted) > d.maxLength
    case CitationRequired => false
  }

  /** The errors by the outcome of each check, the comparison with allowed values as the source makes it. */
  lemma IssuesListed(d: FieldDefinition, r: ExtractedResult, checks: Checks, outside: bool, schema: Option<string>)
    requires outside == (ChecksAllowed(d, r.normalized)
                         && !IsAllowed(Canonical(CandidateOf(r.normalized), d.allowedValues, checks), d.allowedValues))
    requires var v := Validated(d, r, checks).normalized;
             schema == if d.hasSchema && v != Null then checks.schemaError(d, v) else None
    ensures FieldIssues(d, r, checks)
         == Listed(d.required && r.normalized == Null, r.normalized == Null && !d.allowNull, outside, schema,
                   d.hasPattern && r.extracted != Null && !checks.patternHolds(d, r.extracted),
                   d.maxLength > 0 && r.extracted != Null && checks.textLength(r.extracted) > d.maxLength)
  {
  }

  /** Exactly when each error arises; the schema is checked on the value after replacement. */
  lemma IssuesMean(d: FieldDefinition, r: ExtractedResult, checks: Checks, issue: FieldIssue)
    requires PicksMembers(checks)
    ensures issue in FieldIssues(d, r, checks) <==>
              Arises(d, r, Validated(d, r, checks).normalized, checks, issue)
  {
    var v := Validated(d, r, checks).normalized;
    var outside := ChecksAllowed(d, r.normalized)
                   && !IsAllowed(Canonical(CandidateOf(r.normalized), d.allowedValues, checks), d.allowedValues);
    var schema := if d.hasSchema && v != Null then checks.schemaError(d, v) else None;
    IssuesListed(d, r, checks, outside, schema);
    ListedMeans(d.required && r.normalized == Null, r.normalized == Null && !d.allowNull, outside, schema,
                d.hasPattern && r.extracted != Null && !checks.patternHolds(d, r.extracted),
                d.maxLength > 0 && r.extracted != Null && checks.textLength(r.extracted) > d.maxLength, issue);
    OutsideMeans(d, r, checks);
  }

  lemma OutsideMeans(d: FieldDefinition, r: ExtractedResult, checks: Checks)
    requires PicksMembers(checks)
    ensures var c := CandidateOf(r.normalized);
            ChecksAllowed(d, r.normalized) && !IsAllowed(Canonical(c, d.allowedValues, checks), d.allowedValues) <==>
              IsCompared(d, r.normalized)
              && !(c.Str? && (c.s in d.allowedValues || Replacement(c.s, d.allowedValues, checks).Some?))
  {
    CanonicalSettles(CandidateOf(r.normalized), d.allowedValues, checks);
  }

  /** Validation leaves text, evidence and confidence alone. */
  lemma ValidationKeeps(d: FieldDefinition, r: ExtractedResult, checks: Checks)
    ensures var g := Validated(d, r, checks);
            && g.name == r.name && g.extracted == r.extracted && g.confidence == r.confidence && g.sourceText == r.sourceText
            && g.charStart == r.charStart && g.charEnd == r.charEnd && g.errors == FieldIssues(d, r, checks)
            && (g.status == Valid || g.status == Invalid) && (g.status == Invalid <==> g.errors != [])
            && (r.requiresReview ==> g.requiresReview)
  {
  }

  // ---------------------------------------------------------------------------------------------
  // Choosing
  // ---------------------------------------------------------------------------------------------

  function Evidence(r: ExtractedResult): nat {
    if r.normalized != Null && r.sourceText != "" then 2
    else if r.normalized != Null || r.sourceText != "" then 1
    else 0
  }

  /** Value and source text count most, then confidence, then the longer source text. */
  predicate IsWorse(a: ExtractedResult, b: ExtractedResult) {
    if Evidence(a) != Evidence(b) then Evidence(a) < Evidence(b)
    else if a.confidence != b.confidence then a.confidence < b.confidence
    else |a.sourceText| < |b.sourceText|
  }

  /** No candidate beats the chosen one, and it beats every candidate before it. */
  lemma BestMeans(candidates: seq<ExtractedResult>)
    requires candidates != []
    ensures var k := Best(candidates);
            && k < |candidates|
            && (forall i | 0 <= i < |candidates| :: !IsWorse(candidates[k], candidates[i]))
            && (forall i | 0 <= i < k :: IsWorse(candidates[i], candidates[k]))
  {
    forall a: ExtractedResult, b: ExtractedResult
      ensures Less(ScoreOf(a), ScoreOf(b)) <==> IsWorse(a, b)
    {
    }
  }

  /** What is said of a field nobody reported. */
  lemma MissingMeans(d: FieldDefinition)
    ensures var m := Missing(d);
            && m.name == d.name && m.extracted == Null && m.normalized == Null && m.confidence == 0.0 && m.sourceText == ""
            && m.charStart == None && m.charEnd == None && m.errors == [] && m.notes == [MissingFromResponse] && m.requiresReview
  {
  }

  /** The chosen candidate: a note and a review when there was a choice, unchanged otherwise. */
  lemma ChosenMeans(d: FieldDefinition, candidates: seq<ExtractedResult>)
    requires candidates != []
    ensures var best, r := candidates[Best(candidates)], Chosen(d, candidates);
            && (|candidates| == 1 ==> r == best)
            && (|candidates| > 1 ==>
                  && r.requiresReview && r.notes == best.notes + [SelectedFrom(|candidates|)]
                  && r.name == best.name && r.extracted == best.extracted && r.normalized == best.normalized
                  && r.confidence == best.confidence && r.sourceText == best.sourceText
                  && r.charStart == best.charStart && r.charEnd == best.charEnd)
  {
  }

  /** After the choice: validation, then the citation check, then the confidence threshold. */
  lemma FieldMeans(d: FieldDefinition, candidates: seq<ExtractedResult>, checks: Checks, policy: Policy)
    ensures var v, r := Validated(d, Chosen(d, candidates), checks), ReconciledField(d, candidates, checks, policy);
            var uncited := d.citationRequired && v.sourceText == "";
            var low := policy.reviewLowConfidence && v.normalized != Null && v.confidence < policy.threshold;
            && r.name == v.name && r.extracted == v.extracted && r.normalized == v.normalized && r.confidence == v.confidence
            && r.sourceText == v.sourceText && r.charStart == v.charStart && r.charEnd == v.charEnd
            && r.errors == v.errors + (if uncited then [CitationRequired] else [])
            && r.notes == v.notes + (if low then [LowConfidence] else [])
            && (r.status == Invalid <==> v.errors != [] || uncited)
            && (r.requiresReview <==> v.requiresReview || uncited || low)
  {
    var v := Validated(d, Chosen(d, candidates), checks);
    assert v.errors + [] == v.errors && v.notes + [] == v.notes;
  }

  // ---------------------------------------------------------------------------------------------
  // Order
  // ---------------------------------------------------------------------------------------------

  /** The candidates of a field come in the order of the provider's results. */
  lemma {:induction false} CandidatesCons(first: ExtractedResult, rest: seq<ExtractedResult>, name: string)
    ensures CandidatesFor([first] + rest, name) == (if first.name == name then [first] else []) + CandidatesFor(rest, name)
  {
    var all := [first] + rest;
    var own := if first.name == name then [first] else [];
    if rest == [] {
      assert all[..0] == [] && all[0] == first && own + [] == own && [] + own == own;
    } else {
      var n := |rest| - 1;
      assert all[..n + 1] == [first] + rest[..n] && all[n + 1] == rest[n];
      CandidatesCons(first, rest[..n], name);
      Regroup(own, CandidatesFor(rest[..n], name), if rest[n].name == name then [rest[n]] else []);
    }
  }

  /** So do the notes about results that no definition asks for. */
  lemma {:induction false} UnexpectedCons(first: ExtractedResult, rest: seq<ExtractedResult>, names: set<string>)
    ensures Unexpected([first] + rest, names) == (if first.name in names then [] else [first]) + Unexpected(rest, names)
  {
    var all := [first] + rest;
    var own := if first.name in names then [] else [first];
    if rest == [] {
      assert all[..0] == [] && all[0] == first && own + [] == own && [] + own == own;
    } else {
      var n := |rest| - 1;
      assert all[..n + 1] == [first] + rest[..n] && all[n + 1] == rest[n];
      UnexpectedCons(first, rest[..n], names);
      Regroup(own, Unexpected(rest[..n], names), if rest[n].name in names then [] else [rest[n]]);
    }
  }

  /** Sanitising: a result with a masked character in its source text or its text loses both values and is flagged, with a
      note; any other result stays as it is. */
  lemma SanitisedMeans(r: ExtractedResult)
    ensures var masked := (exists i :: 0 <= i < |r.sourceText| && r.sourceText[i] == '*')
                       || (r.extracted.Str? && exists i :: 0 <= i < |r.extracted.s| && r.extracted.s[i] == '*');
            var g := Sanitised(r);
            && (!masked ==> g == r)
            && (masked ==>
                  && g.extracted == Null && g.normalized == Null && g.requiresReview && g.notes == r.notes + [RedactedEvidence]
                  && g.name == r.name && g.confidence == r.confidence && g.sourceText == r.sourceText
                  && g.charStart == r.charStart && g.charEnd == r.charEnd && g.errors == r.errors && g.status == r.status)
  {
  }
}
