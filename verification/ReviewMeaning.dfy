/** What a review does to each field, in terms of the stored fields and the request. */
module ReviewMeaning {
  import opened Basics
  import opened Formulas
  import opened Results
  import opened Review

  // ---------------------------------------------------------------------------------------------
  // Calculated fields
  // ---------------------------------------------------------------------------------------------

  /** No edits and no threshold: the save that approves everything. */
  predicate ApprovesAll(p: Payload) {
    |p.edits| == 0 && p.threshold == None
  }

  /** Without recalculation a calculated field changes only in a save that approves everything, and then only in
      status and flag. */
  lemma CalculatedAfterReview(s: Stored, p: Payload, recalc: Recalculation, i: nat)
    requires ReviewedResult(s, p, recalc).Some? && (!p.recalculate || recalc.None?) && i < |s.calculated|
    ensures var t := ReviewedResult(s, p, recalc).value;
            && |t.calculated| == |s.calculated|
            && var f, g := s.calculated[i], t.calculated[i];
               && (g.requiresReview <==> f.requiresReview && !ApprovesAll(p))
               && g.name == f.name && g.value == f.value && g.errors == f.errors && g.notes == f.notes
               && (if f.requiresReview && ApprovesAll(p) then g.status == Reviewed else g == f)
  {
  }

  /** With recalculation they are replaced by what was calculated from the edited fields; results that need no review
      count as reviewed. A calculation that raises fails the whole review. */
  lemma RecalculatedAfterReview(s: Stored, p: Payload, recalc: Recalculation, i: nat)
    requires ReviewedResult(s, p, recalc).Some? && p.recalculate && recalc.Some?
    ensures var t := ReviewedResult(s, p, recalc).value;
            && recalc.value(t.extracted).Ok?
            && |t.calculated| == |recalc.value(t.extracted).value|
            && (i < |t.calculated| ==>
                  var f, g := recalc.value(t.extracted).value[i], t.calculated[i];
                  && g.name == f.name && g.value == f.value && g.errors == f.errors && g.notes == f.notes
                  && g.requiresReview == f.requiresReview
                  && (if f.requiresReview then g.status == f.status else g.status == Reviewed))
  {
  }

  // ---------------------------------------------------------------------------------------------
  // Extracted fields
  // ---------------------------------------------------------------------------------------------

  /** An edit is about the last field of its name. */
  predicate IsAbout(fields: seq<ExtractedResult>, e: Edit, i: nat) {
    i < |fields| && fields[i].name == e.name && forall j | i < j < |fields| :: fields[j].name != e.name
  }

  lemma {:induction false} FieldIndexMeans(fields: seq<ExtractedResult>, e: Edit, i: nat)
    requires i < |fields|
    ensures FieldIndex(fields, e.name) == Some(i) <==> IsAbout(fields, e, i)
    decreases |fields|
  {
    var n := |fields| - 1;
    if fields[n].name == e.name {
      assert IsAbout(fields, e, i) ==> i == n;
    } else if i < n {
      FieldIndexMeans(fields[..n], e, i);
    }
  }

  /** The value of the last edit about a field. */
  function EditedValue(fields: seq<ExtractedResult>, edits: seq<Edit>, i: nat, start: Value): Value {
    if edits == [] then start
    else
      var last := edits[|edits| - 1];
      if IsAbout(fields, last, i) then last.value else EditedValue(fields, edits[..|edits| - 1], i, start)
  }

  /** The extracted text of the last edit about a field that gives one. */
  function EditedText(fields: seq<ExtractedResult>, edits: seq<Edit>, i: nat, start: Value): Value {
    if edits == [] then start
    else
      var last := edits[|edits| - 1];
      if IsAbout(fields, last, i) && last.extracted != Null then last.extracted
      else EditedText(fields, edits[..|edits| - 1], i, start)
  }

  predicate IsEdited(fields: seq<ExtractedResult>, edits: seq<Edit>, i: nat) {
    exists k :: 0 <= k < |edits| && IsAbout(fields, edits[k], i)
  }

  predicate SameEvidence(f: ExtractedResult, g: ExtractedResult) {
    && g.name == f.name && g.confidence == f.confidence && g.sourceText == f.sourceText
    && g.charStart == f.charStart && g.charEnd == f.charEnd && g.errors == f.errors && g.notes == f.notes
  }

  lemma IsEditedSnoc(fields: seq<ExtractedResult>, edits: seq<Edit>, i: nat)
    requires edits != []
    ensures IsEdited(fields, edits, i) <==>
              IsEdited(fields, edits[..|edits| - 1], i) || IsAbout(fields, edits[|edits| - 1], i)
  {
    var n := |edits| - 1;
    if IsEdited(fields, edits[..n], i) {
      var k :| 0 <= k < n && IsAbout(fields, edits[..n][k], i);
      assert edits[k] == edits[..n][k];
    }
    if k :| 0 <= k < n && IsAbout(fields, edits[k], i) {
      assert edits[..n][k] == edits[k];
    }
  }

  lemma {:induction false} EditsMean(fields: seq<ExtractedResult>, edits: seq<Edit>, i: nat)
    requires EditAll(fields, edits).Some? && i < |fields|
    ensures var f, g := fields[i], EditAll(fields, edits).value.fields[i];
            && SameEvidence(f, g)
            && g.normalized == EditedValue(fields, edits, i, f.normalized)
            && g.extracted == EditedText(fields, edits, i, f.extracted)
            && (if IsEdited(fields, edits, i) then g.status == Reviewed && !g.requiresReview
                else g.status == f.status && g.requiresReview == f.requiresReview)
    decreases |edits|
  {
    if edits != [] {
      var n := |edits| - 1;
      EditsMean(fields, edits[..n], i);
      var before := EditAll(fields, edits[..n]).value.fields;
      FieldIndexByNames(fields, before, edits[n].name);
      FieldIndexMeans(fields, edits[n], i);
      IsEditedSnoc(fields, edits, i);
    }
  }

  /** Approved without an edit: a flagged field that is not invalid and reaches the threshold, or any flagged field in a
      save that approves everything. */
  predicate IsApproved(f: ExtractedResult, p: Payload) {
    && f.requiresReview
    && if p.threshold.Some? then f.status != Invalid && f.confidence >= p.threshold.value else ApprovesAll(p)
  }

  /** Every extracted field after a saved review: its evidence stays, its value and text are those of the last edits about
      it, and it counts as reviewed exactly when it was edited or approved. */
  lemma ExtractedAfterReview(s: Stored, p: Payload, recalc: Recalculation, i: nat)
    requires ReviewedResult(s, p, recalc).Some? && i < |s.extracted|
    ensures var t := ReviewedResult(s, p, recalc).value;
            && |t.extracted| == |s.extracted|
            && var f, g := s.extracted[i], t.extracted[i];
               && SameEvidence(f, g)
               && g.normalized == EditedValue(s.extracted, p.edits, i, f.normalized)
               && g.extracted == EditedText(s.extracted, p.edits, i, f.extracted)
               && (if IsEdited(s.extracted, p.edits, i) || IsApproved(f, p)
                   then g.status == Reviewed && !g.requiresReview
                   else g.status == f.status && g.requiresReview == f.requiresReview)
  {
    var approved := ApprovalPass(s.extracted, p);
    EditsMean(approved, p.edits, i);
    AboutByNames(approved, s.extracted, p.edits, i, approved[i].normalized, approved[i].extracted);
  }

  lemma {:induction false} AboutByNames(
    a: seq<ExtractedResult>, b: seq<ExtractedResult>, edits: seq<Edit>, i: nat, value: Value, text: Value)
    requires |a| == |b| && forall j | 0 <= j < |a| :: a[j].name == b[j].name
    ensures EditedValue(a, edits, i, value) == EditedValue(b, edits, i, value)
    ensures EditedText(a, edits, i, text) == EditedText(b, edits, i, text)
    ensures IsEdited(a, edits, i) <==> IsEdited(b, edits, i)
    decreases |edits|
  {
    assert forall e: Edit :: IsAbout(a, e, i) <==> IsAbout(b, e, i);
    if edits != [] {
      AboutByNames(a, b, edits[..|edits| - 1], i, value, text);
    }
  }

  // ---------------------------------------------------------------------------------------------
  // The review as a whole
  // ---------------------------------------------------------------------------------------------

  predicate HasField(fields: seq<ExtractedResult>, name: string) {
    exists i :: 0 <= i < |fields| && fields[i].name == name
  }

  /** Every edit names a field. */
  predicate AllNamed(fields: seq<ExtractedResult>, edits: seq<Edit>) {
    forall k | 0 <= k < |edits| :: HasField(fields, edits[k].name)
  }

  lemma FieldIndexFinds(fields: seq<ExtractedResult>, name: string)
    ensures FieldIndex(fields, name).Some? <==> HasField(fields, name)
  {
    if FieldIndex(fields, name).Some? {
      assert fields[FieldIndex(fields, name).value].name == name;
    }
  }

  lemma {:induction false} EditsSucceedIff(fields: seq<ExtractedResult>, edits: seq<Edit>)
    ensures EditAll(fields, edits).Some? <==> AllNamed(fields, edits)
    decreases |edits|
  {
    if edits != [] {
      var n := |edits| - 1;
      EditsSucceedIff(fields, edits[..n]);
      AllNamedSnoc(fields, edits);
      FieldIndexFinds(fields, edits[n].name);
      if EditAll(fields, edits[..n]).Some? {
        FieldIndexByNames(fields, EditAll(fields, edits[..n]).value.fields, edits[n].name);
      }
    }
  }

  lemma AllNamedSnoc(fields: seq<ExtractedResult>, edits: seq<Edit>)
    requires edits != []
    ensures AllNamed(fields, edits) <==>
              AllNamed(fields, edits[..|edits| - 1]) && HasField(fields, edits[|edits| - 1].name)
  {
    assert forall k | 0 <= k < |edits| - 1 :: edits[..|edits| - 1][k] == edits[k];
  }

  lemma {:induction false} RowsMean(fields: seq<ExtractedResult>, edits: seq<Edit>)
    requires EditAll(fields, edits).Some?
    ensures var rows := EditAll(fields, edits).value.rows;
            |rows| == |edits| && forall k | 0 <= k < |edits| :: rows[k].name == edits[k].name && rows[k].current == edits[k].value
    decreases |edits|
  {
    if edits != [] {
      RowsMean(fields, edits[..|edits| - 1]);
    }
  }

  /** A review without recalculation fails exactly when an edit names no field; a saved one is no longer pending and adds one
      history row for each edit, in their order. */
  lemma ReviewMeans(s: Stored, p: Payload, recalc: Recalculation)
    ensures ReviewedResult(s, p, recalc).Some? ==>
              var t := ReviewedResult(s, p, recalc).value;
              && !t.pending && |t.history| == |s.history| + |p.edits| && t.history[..|s.history|] == s.history
              && forall k | 0 <= k < |p.edits| ::
                   var row := t.history[|s.history| + k]; row.name == p.edits[k].name && row.current == p.edits[k].value
    ensures !p.recalculate || recalc.None? ==> (ReviewedResult(s, p, recalc).Some? <==> AllNamed(s.extracted, p.edits))
    ensures !AllNamed(s.extracted, p.edits) ==> ReviewedResult(s, p, recalc).None?
  {
    var approved := ApprovalPass(s.extracted, p);
    EditsSucceedIff(approved, p.edits);
    SameNames(approved, s.extracted, p.edits);
    if EditAll(approved, p.edits).Some? {
      RowsMean(approved, p.edits);
    }
  }

  /** With recalculation it fails exactly when the calculation over the edited fields raises, too. */
  lemma RecalculationDecides(s: Stored, p: Payload, recalc: Recalculation)
    requires p.recalculate && recalc.Some?
    ensures var edited := ReviewedResult(s, p.(recalculate := false), recalc);
            ReviewedResult(s, p, recalc).Some? <==> edited.Some? && recalc.value(edited.value.extracted).Ok?
  {
    assert ApprovalPass(s.extracted, p) == ApprovalPass(s.extracted, p.(recalculate := false));
  }

  lemma SameNames(a: seq<ExtractedResult>, b: seq<ExtractedResult>, edits: seq<Edit>)
    requires |a| == |b| && forall j | 0 <= j < |a| :: a[j].name == b[j].name
    ensures AllNamed(a, edits) <==> AllNamed(b, edits)
  {
    forall k | 0 <= k < |edits|
      ensures HasField(a, edits[k].name) <==> HasField(b, edits[k].name)
    {
      FieldIndexByNames(a, b, edits[k].name);
      FieldIndexFinds(a, edits[k].name);
      FieldIndexFinds(b, edits[k].name);
    }
  }

  /** The cached list is in field order: a field at the end adds its name at the end, if it is flagged. */
  lemma {:induction false} FlaggedExtractedSnoc(fields: seq<ExtractedResult>, f: ExtractedResult)
    ensures FlaggedExtracted(fields + [f]) == FlaggedExtracted(fields) + (if f.requiresReview then [f.name] else [])
  {
    if fields == [] {
      assert fields + [f] == [f];
    } else {
      FlaggedExtractedSnoc(fields[1..], f);
      assert (fields + [f])[1..] == fields[1..] + [f] && (fields + [f])[0] == fields[0];
      Regroup(if fields[0].requiresReview then [fields[0].name] else [], FlaggedExtracted(fields[1..]),
              if f.requiresReview then [f.name] else []);
    }
  }

  lemma {:induction false} FlaggedCalculatedSnoc(fields: seq<CalculatedResult>, f: CalculatedResult)
    ensures FlaggedCalculated(fields + [f]) == FlaggedCalculated(fields) + (if f.requiresReview then [f.name] else [])
  {
    if fields == [] {
      assert fields + [f] == [f];
    } else {
      FlaggedCalculatedSnoc(fields[1..], f);
      assert (fields + [f])[1..] == fields[1..] + [f] && (fields + [f])[0] == fields[0];
      Regroup(if fields[0].requiresReview then [fields[0].name] else [], FlaggedCalculated(fields[1..]),
              if f.requiresReview then [f.name] else []);
    }
  }

  /** Without the policy nothing is held back; a worker's write opens a new review over exactly the given results. */
  lemma GateAndWrite(s: Stored, extracted: seq<ExtractedResult>, calculated: seq<CalculatedResult>)
    ensures Gate(s, false)
    ensures var t := Written(s, extracted, calculated);
            t.extracted == extracted && t.calculated == calculated && t.pending && t.history == s.history && !Gate(t, true)
  {
  }
}
