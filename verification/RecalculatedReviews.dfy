/** Reviews that recalculate: what the stored calculated fields mean after an edit. */
module RecalculatedReviews {
  import opened Basics
  import opened Formulas
  import opened Templates
  import opened Results
  import opened TopologicalSort
  import opened Review
  import EvaluationOrder
  import Calculations

  /** The evaluation loop of the job's template over an order that its sort may produce. */
  function Recalculate(order: seq<CalculatedDefinition>, rt: Runtime): Recalculation {
    Some(extracted => EvaluationOrder.RunAll(order, Calculations.ContextOf(extracted), StepFor(order, extracted, rt)))
  }

  /** One pass of that loop. */
  function StepFor(order: seq<CalculatedDefinition>, extracted: seq<ExtractedResult>, rt: Runtime): EvaluationOrder.Step {
    Calculations.StepOf(Calculations.AvailableTo(order, extracted), rt)
  }

  /** `f` holds the extracted values as they stand after the review, and each calculated field holds in `f`
      what its own formula yields in `f`. */
  ghost predicate SolvesTemplate(f: Context, order: seq<CalculatedDefinition>, extracted: seq<ExtractedResult>, rt: Runtime) {
    && (forall n | n !in NamesIn(order) ::
          n in f <==> n in Calculations.ContextOf(extracted))
    && (forall n | n !in NamesIn(order) && n in f && n in Calculations.ContextOf(extracted) ::
          f[n] == Calculations.ContextOf(extracted)[n])
    && (forall k | 0 <= k < |order| :: EvaluationOrder.Solves(f, order[k], StepFor(order, extracted, rt)))
  }

  /** `r` is stored for `d` as `f` determines it; a result that needs no review is marked reviewed. */
  ghost predicate StoredFrom(r: CalculatedResult, d: CalculatedDefinition, f: Context, step: EvaluationOrder.Step)
    requires EvaluationOrder.Solves(f, d, step)
  {
    var computed := step(d, f).value;
    && r.name == d.name && r.value == f[d.name]
    && r.errors == computed.errors && r.notes == computed.notes && r.requiresReview == computed.requiresReview
    && (r.status == Reviewed || r.requiresReview)
  }

  lemma LoopSolves(order: seq<CalculatedDefinition>, extracted: seq<ExtractedResult>, rt: Runtime) returns (f: Context)
    requires DistinctNames(order) && RespectsDependencies(order, NamesIn(order))
    requires Recalculate(order, rt).value(extracted).Ok?
    ensures SolvesTemplate(f, order, extracted, rt)
    ensures forall k | 0 <= k < |order| ::
              Ok(Recalculate(order, rt).value(extracted).value[k]) == StepFor(order, extracted, rt)(order[k], f)
  {
    var ctx, step := Calculations.ContextOf(extracted), StepFor(order, extracted, rt);
    Calculations.StepOfFramed(Calculations.AvailableTo(order, extracted), rt);
    assert order[0..] == order;
    f := EvaluationOrder.RunYieldsSolution(order, NamesIn(order), 0, ctx, step);
    EvaluationOrder.SolutionDrivesWholeRun(order, NamesIn(order), ctx, f, step);
  }

  /** After a saved review with recalculation the calculated fields belong to the edited fields: together
      they solve the template's equations. */
  lemma RecalculationSolves(s: Stored, p: Payload, order: seq<CalculatedDefinition>, rt: Runtime) returns (f: Context)
    requires p.recalculate && DistinctNames(order) && RespectsDependencies(order, NamesIn(order))
    requires ReviewedResult(s, p, Recalculate(order, rt)).Some?
    ensures var t := ReviewedResult(s, p, Recalculate(order, rt)).value;
            && SolvesTemplate(f, order, t.extracted, rt)
            && |t.calculated| == |order|
            && forall k | 0 <= k < |order| :: StoredFrom(t.calculated[k], order[k], f, StepFor(order, t.extracted, rt))
  {
    var t := ReviewedResult(s, p, Recalculate(order, rt)).value;
    f := LoopSolves(order, t.extracted, rt);
    var step := StepFor(order, t.extracted, rt);
    var computed := Recalculate(order, rt).value(t.extracted).value;
    forall k | 0 <= k < |order|
      ensures StoredFrom(t.calculated[k], order[k], f, step)
    {
      assert Ok(computed[k]) == step(order[k], f);
      assert EvaluationOrder.Solves(f, order[k], step);
      assert step(order[k], f).value.name == order[k].name by {
        Calculations.StepOfFramed(Calculations.AvailableTo(order, t.extracted), rt);
      }
    }
  }

  /** The gate after such a review: under the policy it is open exactly when no extracted field is flagged,
      no formula failed or left its range, and no definition asks for review by itself. */
  lemma RecalculatedGate(s: Stored, p: Payload, order: seq<CalculatedDefinition>, rt: Runtime)
    requires p.recalculate && DistinctNames(order) && RespectsDependencies(order, NamesIn(order))
    requires ReviewedResult(s, p, Recalculate(order, rt)).Some?
    ensures var t := ReviewedResult(s, p, Recalculate(order, rt)).value;
            && |t.calculated| == |order|
            && (Gate(t, true) <==>
                  && (forall i | 0 <= i < |t.extracted| :: !t.extracted[i].requiresReview)
                  && (forall k | 0 <= k < |order| :: t.calculated[k].errors == [] && !order[k].requiresReview))
  {
    var t := ReviewedResult(s, p, Recalculate(order, rt)).value;
    var f := RecalculationSolves(s, p, order, rt);
    var step := StepFor(order, t.extracted, rt);
    forall k | 0 <= k < |order|
      ensures t.calculated[k].requiresReview <==> t.calculated[k].errors != [] || order[k].requiresReview
    {
      assert StoredFrom(t.calculated[k], order[k], f, step);
      assert step(order[k], f)
          == Calculations.EvaluateDefinition(order[k], f, Calculations.AvailableTo(order, t.extracted), rt);
    }
    FlaggedExtractedEmpty(t.extracted);
    FlaggedCalculatedEmpty(t.calculated);
  }
}
