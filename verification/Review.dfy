/** Review edits and the export gate. */
module Review {
  import opened Basics
  import opened Formulas
  import opened Results

  datatype Edit = Edit(name: string, value: Value, extracted: Value)

  /** A row of the edit history. */
  datatype EditRow = EditRow(name: string, previous: Value, current: Value)

  datatype Payload = Payload(edits: seq<Edit>, recalculate: bool, threshold: Option<real>)

  /** The calculated fields for given extracted fields, or nothing when job or template are gone. The
      evaluation itself may raise. */
  type Recalculation = Option<seq<ExtractedResult> -> Outcome<seq<CalculatedResult>>>

  /** A stored result: the summary, the cached list of names, the review status and the edit rows. */
  datatype Stored = Stored(
    extracted: seq<ExtractedResult>,
    calculated: seq<CalculatedResult>,
    requiring: seq<string>,
    pending: bool,
    history: seq<EditRow>)

  // ---------------------------------------------------------------------------------------------
  // The cached list
  // ---------------------------------------------------------------------------------------------

  function FlaggedExtracted(fields: seq<ExtractedResult>): seq<string> {
    if fields == [] then []
    else (if fields[0].requiresReview then [fields[0].name] else []) + FlaggedExtracted(fields[1..])
  }

  function FlaggedCalculated(fields: seq<CalculatedResult>): seq<string> {
    if fields == [] then []
    else (if fields[0].requiresReview then [fields[0].name] else []) + FlaggedCalculated(fields[1..])
  }

  predicate NoneFlagged(s: Stored) {
    && (forall i | 0 <= i < |s.extracted| :: !s.extracted[i].requiresReview)
    && (forall i | 0 <= i < |s.calculated| :: !s.calculated[i].requiresReview)
  }

  predicate CacheAgrees(s: Stored) {
    s.requiring == FlaggedExtracted(s.extracted) + FlaggedCalculated(s.calculated)
  }

  lemma {:induction false} FlaggedExtractedEmpty(fields: seq<ExtractedResult>)
    ensures FlaggedExtracted(fields) == [] <==> forall i | 0 <= i < |fields| :: !fields[i].requiresReview
  {
    if fields != [] {
      FlaggedExtractedEmpty(fields[1..]);
      assert forall i | 0 < i < |fields| :: fields[i] == fields[1..][i - 1];
    }
  }

  lemma {:induction false} FlaggedCalculatedEmpty(fields: seq<CalculatedResult>)
    ensures FlaggedCalculated(fields) == [] <==> forall i | 0 <= i < |fields| :: !fields[i].requiresReview
  {
    if fields != [] {
      FlaggedCalculatedEmpty(fields[1..]);
      assert forall i | 0 < i < |fields| :: fields[i] == fields[1..][i - 1];
    }
  }

  // ---------------------------------------------------------------------------------------------
  // One review, as a function
  // ---------------------------------------------------------------------------------------------

  function Approved(f: ExtractedResult): ExtractedResult {
    f.(status := Reviewed, requiresReview := false)
  }

  function ApprovedCalculation(f: CalculatedResult): CalculatedResult {
    f.(status := Reviewed, requiresReview := false)
  }

  predicate PassesThreshold(f: ExtractedResult, threshold: real) {
    f.requiresReview && f.status != Invalid && f.confidence >= threshold
  }

  /** No edits and no threshold: a save that approves everything. */
  predicate IsBlanket(p: Payload) {
    p.edits == [] && p.threshold.None?
  }

  /** What the two approval loops do to an extracted field. */
  function AfterApproval(f: ExtractedResult, p: Payload): ExtractedResult {
    if p.threshold.Some? && PassesThreshold(f, p.threshold.value) then Approved(f)
    else if IsBlanket(p) && f.requiresReview then Approved(f)
    else f
  }

  function ApprovalPass(fields: seq<ExtractedResult>, p: Payload): (r: seq<ExtractedResult>)
    ensures |r| == |fields|
  {
    seq(|fields|, i requires 0 <= i < |fields| => AfterApproval(fields[i], p))
  }

  function CalculationPass(fields: seq<CalculatedResult>, p: Payload): seq<CalculatedResult> {
    if IsBlanket(p)
    then seq(|fields|, i requires 0 <= i < |fields| =>
           if fields[i].requiresReview then ApprovedCalculation(fields[i]) else fields[i])
    else fields
  }

  /** The dictionary lookup by name: the last field of that name. */
  function FieldIndex(fields: seq<ExtractedResult>, name: string): (k: Option<nat>)
    ensures k.Some? ==> k.value < |fields| && fields[k.value].name == name
    ensures k.None? ==> forall i | 0 <= i < |fields| :: fields[i].name != name
  {
    if fields == [] then None
    else if fields[|fields| - 1].name == name then Some(|fields| - 1)
    else FieldIndex(fields[..|fields| - 1], name)
  }

  lemma {:induction false} FieldIndexByNames(a: seq<ExtractedResult>, b: seq<ExtractedResult>, name: string)
    requires |a| == |b| && forall i | 0 <= i < |a| :: a[i].name == b[i].name
    ensures FieldIndex(a, name) == FieldIndex(b, name)
  {
    if a != [] && a[|a| - 1].name != name {
      FieldIndexByNames(a[..|a| - 1], b[..|b| - 1], name);
    }
  }

  function Edited(f: ExtractedResult, e: Edit): ExtractedResult {
    f.(normalized := e.value,
       extracted := if e.extracted.Null? then f.extracted else e.extracted,
       status := Reviewed,
       requiresReview := false)
  }

  datatype EditResult = EditResult(fields: seq<ExtractedResult>, rows: seq<EditRow>)

  /** The edit loop; nothing when an edit names no field. */
  function EditAll(fields: seq<ExtractedResult>, edits: seq<Edit>): (r: Option<EditResult>)
    ensures r.Some? ==> |r.value.fields| == |fields| && |r.value.rows| == |edits|
    ensures r.Some? ==> forall i | 0 <= i < |fields| :: r.value.fields[i].name == fields[i].name
    decreases |edits|
  {
    if edits == [] then Some(EditResult(fields, []))
    else
      var n := |edits| - 1;
      var before := EditAll(fields, edits[..n]);
      if before.None? then None
      else
        var k := FieldIndex(before.value.fields, edits[n].name);
        if k.None? then None
        else
          var f := before.value.fields[k.value];
          Some(EditResult(before.value.fields[k.value := Edited(f, edits[n])],
                          before.value.rows + [EditRow(edits[n].name, f.normalized, edits[n].value)]))
  }

  function Settled(fields: seq<CalculatedResult>): seq<CalculatedResult> {
    seq(|fields|, i requires 0 <= i < |fields| =>
      if fields[i].requiresReview then fields[i] else fields[i].(status := Reviewed))
  }

  function Recalculated(
    extracted: seq<ExtractedResult>, calculated: seq<CalculatedResult>, p: Payload, recalc: Recalculation)
    : Option<seq<CalculatedResult>>
  {
    if !p.recalculate || recalc.None? then Some(calculated)
    else
      match recalc.value(extracted)
      case Ok(fields) => Some(Settled(fields))
      case Raise(_) => None
  }

  /** The result of a review, or nothing when it fails before the commit. */
  function ReviewedResult(s: Stored, p: Payload, recalc: Recalculation): Option<Stored> {
    var edited := EditAll(ApprovalPass(s.extracted, p), p.edits);
    if edited.None? then None
    else
      var calculated := Recalculated(edited.value.fields, CalculationPass(s.calculated, p), p, recalc);
      if calculated.None? then None
      else Some(Stored(edited.value.fields, calculated.value,
                       FlaggedExtracted(edited.value.fields) + FlaggedCalculated(calculated.value),
                       false, s.history + edited.value.rows))
  }

  // ---------------------------------------------------------------------------------------------
  // The stored row, updated in place
  // ---------------------------------------------------------------------------------------------

  class ResultRow {
    var extracted: seq<ExtractedResult>
    var calculated: seq<CalculatedResult>
    var requiring: seq<string>
    var pending: bool
    var history: seq<EditRow>

    function View(): Stored
      reads this
    {
      Stored(extracted, calculated, requiring, pending, history)
    }

    /** The first result of an extraction; a rerun of the job overwrites the row the same way. */
    method Write(extracted: seq<ExtractedResult>, calculated: seq<CalculatedResult>)
      modifies this
      ensures View() == Written(old(View()), extracted, calculated)
    {
      this.extracted := extracted;
      this.calculated := calculated;
      requiring := FlaggedExtracted(extracted) + FlaggedCalculated(calculated);
      pending := true;
    }

    /** Review: approvals, edits, recalculation, then the recomputed cache. The summary is a working copy
        until the end, so a failure leaves the row as it was. */
    method ApplyReviewEdits(p: Payload, recalc: Recalculation) returns (saved: bool)
      modifies this
      ensures saved <==> ReviewedResult(old(View()), p, recalc).Some?
      ensures View() == if saved then ReviewedResult(old(View()), p, recalc).value else old(View())
    {
      var fields := ApproveFields(extracted, p);
      var calculations := CalculationPass(calculated, p);
      var edited := EditLoop(fields, p.edits);
      if edited.None? {
        return false;
      }
      fields := edited.value.fields;
      if p.recalculate && recalc.Some? {
        var r := recalc.value(fields);
        if r.Raise? {
          return false;
        }
        calculations := Settled(r.value);
      }
      extracted := fields;
      calculated := calculations;
      requiring := FlaggedExtracted(fields) + FlaggedCalculated(calculations);
      pending := false;
      history := history + edited.value.rows;
      return true;
    }

    /** The export gate. */
    method ExportAllowed(requireCleared: bool) returns (allowed: bool)
      ensures allowed == Gate(View(), requireCleared)
    {
      allowed := !requireCleared || !(pending || requiring != []);
    }
  }

  /** The two approval loops over the extracted fields. */
  method ApproveFields(fields: seq<ExtractedResult>, p: Payload) returns (r: seq<ExtractedResult>)
    ensures r == ApprovalPass(fields, p)
  {
    r := fields;
    if p.threshold.Some? {
      for i := 0 to |fields|
        invariant |r| == |fields|
        invariant forall k | 0 <= k < i :: r[k] == AfterApproval(fields[k], p)
        invariant forall k | i <= k < |fields| :: r[k] == fields[k]
      {
        if r[i].requiresReview && r[i].status != Invalid && r[i].confidence >= p.threshold.value {
          r := r[i := Approved(r[i])];
        }
      }
    }
    if p.edits == [] && p.threshold.None? {
      for i := 0 to |fields|
        invariant |r| == |fields|
        invariant forall k | 0 <= k < i :: r[k] == AfterApproval(fields[k], p)
        invariant forall k | i <= k < |fields| :: r[k] == fields[k]
      {
        if r[i].requiresReview {
          r := r[i := Approved(r[i])];
        }
      }
    }
  }

  /** The edit loop: a history row for each edit, then the field itself. */
  method EditLoop(start: seq<ExtractedResult>, edits: seq<Edit>) returns (r: Option<EditResult>)
    ensures r == EditAll(start, edits)
  {
    var fields, rows := start, [];
    for i := 0 to |edits|
      invariant EditAll(start, edits[..i]) == Some(EditResult(fields, rows))
    {
      assert edits[..i + 1][..i] == edits[..i];
      var k := FieldIndex(fields, edits[i].name);
      if k.None? {
        EditFails(start, edits, i + 1);
        return None;
      }
      rows := rows + [EditRow(edits[i].name, fields[k.value].normalized, edits[i].value)];
      fields := fields[k.value := Edited(fields[k.value], edits[i])];
    }
    assert edits[..|edits|] == edits;
    return Some(EditResult(fields, rows));
  }

  lemma {:induction false} EditFails(fields: seq<ExtractedResult>, edits: seq<Edit>, i: nat)
    requires i <= |edits| && EditAll(fields, edits[..i]).None?
    ensures EditAll(fields, edits).None?
    decreases |edits|
  {
    if i < |edits| {
      assert edits[..|edits| - 1][..i] == edits[..i];
      EditFails(fields, edits[..|edits| - 1], i);
    } else {
      assert edits[..i] == edits;
    }
  }

  function Written(s: Stored, extracted: seq<ExtractedResult>, calculated: seq<CalculatedResult>): Stored {
    Stored(extracted, calculated, FlaggedExtracted(extracted) + FlaggedCalculated(calculated), true, s.history)
  }

  /** Under the review policy an export needs a saved review and an empty cached list. */
  predicate Gate(s: Stored, requireCleared: bool) {
    requireCleared ==> !s.pending && s.requiring == []
  }

  // ---------------------------------------------------------------------------------------------
  // Runs
  // ---------------------------------------------------------------------------------------------

  datatype Event =
    | Write(extracted: seq<ExtractedResult>, calculated: seq<CalculatedResult>)
    | Review(payload: Payload, recalc: Recalculation)

  function Next(s: Stored, e: Event): Stored {
    match e
    case Write(extracted, calculated) => Written(s, extracted, calculated)
    case Review(p, recalc) =>
      var r := ReviewedResult(s, p, recalc);
      if r.Some? then r.value else s
  }

  function After(s: Stored, events: seq<Event>): Stored {
    if events == [] then s else Next(After(s, events[..|events| - 1]), events[|events| - 1])
  }

  lemma {:induction false} CacheAgreesAlways(s: Stored, events: seq<Event>)
    requires events != [] && events[0].Write?
    ensures CacheAgrees(After(s, events))
  {
    if |events| > 1 {
      CacheAgreesAlways(s, events[..|events| - 1]);
    } else {
      assert After(s, events[..0]) == s;
    }
  }

  /** In every state reachable from a worker's write the gate, which reads the cached list, decides as if
      it looked at every field: under the policy an export passes exactly when a review has been saved
      and no extracted or calculated field is flagged. */
  lemma GateMeansCleared(s: Stored, events: seq<Event>)
    requires events != [] && events[0].Write?
    ensures var t := After(s, events);
            Gate(t, true) <==> !t.pending && NoneFlagged(t)
  {
    var t := After(s, events);
    CacheAgreesAlways(s, events);
    FlaggedExtractedEmpty(t.extracted);
    FlaggedCalculatedEmpty(t.calculated);
  }

  predicate Targets(fields: seq<ExtractedResult>, edits: seq<Edit>, i: nat) {
    exists j :: 0 <= j < |edits| && FieldIndex(fields, edits[j].name) == Some(i)
  }

  lemma TargetsSnoc(fields: seq<ExtractedResult>, edits: seq<Edit>, i: nat)
    requires edits != []
    ensures var n := |edits| - 1;
            Targets(fields, edits, i) <==> Targets(fields, edits[..n], i) || FieldIndex(fields, edits[n].name) == Some(i)
  {
    var n := |edits| - 1;
    if Targets(fields, edits[..n], i) {
      var j :| 0 <= j < n && FieldIndex(fields, edits[..n][j].name) == Some(i);
      assert edits[j] == edits[..n][j];
    }
    if Targets(fields, edits, i) && FieldIndex(fields, edits[n].name) != Some(i) {
      var j :| 0 <= j < |edits| && FieldIndex(fields, edits[j].name) == Some(i);
      assert edits[..n][j] == edits[j];
    }
  }

  lemma {:induction false} EditedFields(fields: seq<ExtractedResult>, edits: seq<Edit>, i: nat)
    requires EditAll(fields, edits).Some? && i < |fields|
    ensures var g := EditAll(fields, edits).value.fields[i];
            if Targets(fields, edits, i) then !g.requiresReview && g.status == Reviewed else g == fields[i]
    decreases |edits|
  {
    if edits != [] {
      var n := |edits| - 1;
      EditedFields(fields, edits[..n], i);
      FieldIndexByNames(fields, EditAll(fields, edits[..n]).value.fields, edits[n].name);
      TargetsSnoc(fields, edits, i);
    }
  }

  /** Exactly what a saved review does to an extracted field's flag: it is never set, and it is cleared
      by an edit, by a threshold that a field not marked invalid reaches, or by a blanket save. */
  lemma ReviewedFlag(s: Stored, p: Payload, recalc: Recalculation, i: nat)
    requires ReviewedResult(s, p, recalc).Some? && i < |s.extracted|
    ensures var f, g := s.extracted[i], ReviewedResult(s, p, recalc).value.extracted[i];
            && g.name == f.name
            && (g.requiresReview <==>
                  && f.requiresReview
                  && !Targets(s.extracted, p.edits, i)
                  && !(p.threshold.Some? && PassesThreshold(f, p.threshold.value))
                  && !IsBlanket(p))
            && (f.status == Invalid && !Targets(s.extracted, p.edits, i) && !IsBlanket(p) ==> g == f)
  {
    var fields := ApprovalPass(s.extracted, p);
    EditedFields(fields, p.edits, i);
    forall j | 0 <= j < |p.edits|
      ensures FieldIndex(fields, p.edits[j].name) == FieldIndex(s.extracted, p.edits[j].name)
    {
      FieldIndexByNames(fields, s.extracted, p.edits[j].name);
    }
    assert Targets(fields, p.edits, i) <==> Targets(s.extracted, p.edits, i);
  }

  /** A blanket save without recalculation clears everything and opens the gate. */
  lemma BlanketSaveClears(s: Stored, p: Payload, recalc: Recalculation)
    requires IsBlanket(p) && !p.recalculate
    ensures ReviewedResult(s, p, recalc).Some?
    ensures NoneFlagged(ReviewedResult(s, p, recalc).value) && Gate(ReviewedResult(s, p, recalc).value, true)
  {
    var r := ReviewedResult(s, p, recalc).value;
    FlaggedExtractedEmpty(r.extracted);
    FlaggedCalculatedEmpty(r.calculated);
  }

  // ---------------------------------------------------------------------------------------------
  // The edit history
  // ---------------------------------------------------------------------------------------------

  /** The rows of one field, replayed from a value: each must start from the value before it. */
  function Replay(rows: seq<EditRow>, name: string, start: Value): Option<Value> {
    if rows == [] then Some(start)
    else
      var last := rows[|rows| - 1];
      var before := Replay(rows[..|rows| - 1], name, start);
      if last.name != name || before.None? then before
      else if before.value == last.previous then Some(last.current)
      else None
  }

  /** The current value of a field. */
  function Current(fields: seq<ExtractedResult>, name: string): Option<Value> {
    var k := FieldIndex(fields, name);
    if k.Some? then Some(fields[k.value].normalized) else None
  }

  lemma {:induction false} ReplayConcat(a: seq<EditRow>, b: seq<EditRow>, name: string, start: Value, middle: Value)
    requires Replay(a, name, start) == Some(middle)
    ensures Replay(a + b, name, start) == Replay(b, name, middle)
    decreases |b|
  {
    if b == [] {
      assert a + b == a;
    } else {
      assert (a + b)[..|a + b| - 1] == a + b[..|b| - 1];
      ReplayConcat(a, b[..|b| - 1], name, start, middle);
    }
  }

  lemma {:induction false} EditsReplay(fields: seq<ExtractedResult>, edits: seq<Edit>, name: string)
    requires EditAll(fields, edits).Some? && Current(fields, name).Some?
    ensures Replay(EditAll(fields, edits).value.rows, name, Current(fields, name).value)
         == Current(EditAll(fields, edits).value.fields, name)
    decreases |edits|
  {
    if edits != [] {
      var n := |edits| - 1;
      EditsReplay(fields, edits[..n], name);
      var before := EditAll(fields, edits[..n]).value;
      var after := EditAll(fields, edits).value;
      assert after.rows[..|after.rows| - 1] == before.rows;
      FieldIndexByNames(before.fields, after.fields, name);
      FieldIndexByNames(before.fields, fields, name);
      if edits[n].name != name {
        assert FieldIndex(before.fields, edits[n].name) != FieldIndex(before.fields, name);
      }
    }
  }

  lemma ApprovalKeepsValues(fields: seq<ExtractedResult>, p: Payload, name: string)
    ensures Current(ApprovalPass(fields, p), name) == Current(fields, name)
  {
    FieldIndexByNames(ApprovalPass(fields, p), fields, name);
  }

  /** One saved review: the rows it adds lead from the field's value before to its value after. */
  lemma ReviewReplays(s: Stored, p: Payload, recalc: Recalculation, name: string) returns (rows: seq<EditRow>)
    requires ReviewedResult(s, p, recalc).Some? && Current(s.extracted, name).Some?
    ensures var t := ReviewedResult(s, p, recalc).value;
            && t.history == s.history + rows
            && Replay(rows, name, Current(s.extracted, name).value) == Current(t.extracted, name)
            && Current(t.extracted, name).Some?
  {
    var fields := ApprovalPass(s.extracted, p);
    rows := EditAll(fields, p.edits).value.rows;
    ApprovalKeepsValues(s.extracted, p, name);
    EditsReplay(fields, p.edits, name);
    FieldIndexByNames(fields, EditAll(fields, p.edits).value.fields, name);
  }

  predicate AllReviews(events: seq<Event>) {
    forall i | 0 <= i < |events| :: events[i].Review?
  }

  /** `added` is a chain for the field: replayed from its value in `s` it gives its value in `t`. */
  ghost predicate Chains(s: Stored, t: Stored, added: seq<EditRow>, name: string) {
    && t.history == s.history + added
    && Current(s.extracted, name).Some? && Current(t.extracted, name).Some?
    && Replay(added, name, Current(s.extracted, name).value) == Current(t.extracted, name)
  }

  lemma ChainsCompose(s: Stored, t: Stored, u: Stored, a: seq<EditRow>, b: seq<EditRow>, name: string)
    requires Chains(s, t, a, name) && Chains(t, u, b, name)
    ensures Chains(s, u, a + b, name)
  {
    ReplayConcat(a, b, name, Current(s.extracted, name).value, Current(t.extracted, name).value);
    assert s.history + (a + b) == (s.history + a) + b;
  }

  lemma EventChains(s: Stored, e: Event, name: string) returns (rows: seq<EditRow>)
    requires e.Review? && Current(s.extracted, name).Some?
    ensures Chains(s, Next(s, e), rows, name)
  {
    rows := [];
    if ReviewedResult(s, e.payload, e.recalc).Some? {
      rows := ReviewReplays(s, e.payload, e.recalc, name);
    } else {
      assert s.history + [] == s.history;
    }
  }

  /** Over any sequence of reviews the history only grows, and the rows added for a field form a chain:
      the first previous value is the value the field had, each next previous value is the last new
      value, and replaying them gives the field's current value. */
  lemma {:induction false} HistoryReplays(s: Stored, events: seq<Event>, name: string) returns (added: seq<EditRow>)
    requires AllReviews(events) && Current(s.extracted, name).Some?
    ensures Chains(s, After(s, events), added, name)
  {
    added := [];
    if events == [] {
      assert s.history + [] == s.history;
    } else {
      var n := |events| - 1;
      added := HistoryReplays(s, events[..n], name);
      var t := After(s, events[..n]);
      var rows := EventChains(t, events[n], name);
      ChainsCompose(s, t, Next(t, events[n]), added, rows, name);
      added := added + rows;
    }
  }
}
