/** Evaluation of calculated fields: one loop that feeds each result back into the context. */
module Calculations {
  import opened Basics
  import opened Formulas
  import opened FormulaMeaning
  import opened Graphs
  import opened Templates
  import opened TopologicalSort
  import opened Contract
  import opened Results
  import opened EvaluationOrder

  // ---------------------------------------------------------------------------------------------
  // One definition
  // ---------------------------------------------------------------------------------------------

  /** Validation of the formula's names, then evaluation. */
  function Attempt(d: CalculatedDefinition, ctx: Context, available: set<string>, rt: Runtime): Outcome<Value> {
    if d.formula.Broken? then Raise(InvalidSyntax)
    else if !KnownNames(d.formula, available) then Raise(UnknownReference)
    else Run(d.formula, ctx, rt)
  }

  datatype Draft = Draft(value: Value, errors: seq<CalculationIssue>, notes: seq<CalculationNote>)

  function Handle(policy: Policy, issue: CalculationIssue, note: CalculationNote): Draft {
    match policy
    case ReturnNullAndFlagReview => Draft(Null, [issue], [])
    case ReturnNull => Draft(Null, [], [note])
  }

  /** The three exception handlers; anything else propagates. */
  function Settle(d: CalculatedDefinition, attempt: Outcome<Value>): Outcome<Draft> {
    match attempt
    case Ok(v) => Ok(Draft(v, [], []))
    case Raise(ZeroDivision) => Ok(Handle(d.onDivideByZero, DivisionByZero, DivisionReturnedNull))
    case Raise(TypeMismatch) => Ok(Handle(d.onMissingInput, MissingInput, MissingInputReturnedNull))
    case Raise(ScalarAttribute) => Ok(Handle(d.onMissingInput, MissingInput, MissingInputReturnedNull))
    case Raise(Uncaught) => Raise(Uncaught)
    case Raise(e) => Ok(Draft(Null, [FormulaError(e)], []))
  }

  function HalfUp(y: real): (n: int)
    ensures -0.5 < n as real - y <= 0.5
  {
    (y + 0.5).Floor
  }

  /** Rounding to cents, ties away from zero. */
  function RoundCents(x: real): real {
    if x >= 0.0 then HalfUp(x * 100.0) as real / 100.0 else -(HalfUp(-x * 100.0) as real / 100.0)
  }

  /** The rounded amount is at most half a cent away and symmetric about zero; positive ties go up. */
  lemma RoundCentsNearest(x: real)
    ensures -0.005 <= RoundCents(x) - x <= 0.005
    ensures RoundCents(-x) == -RoundCents(x)
  {
    var n := HalfUp(if x >= 0.0 then x * 100.0 else -x * 100.0);
    if x == 0.0 {
      assert n == 0;
    }
  }

  lemma RoundCentsTies(x: real, k: nat)
    requires x * 100.0 == k as real + 0.5
    ensures RoundCents(x) == (k + 1) as real / 100.0
  {
    assert HalfUp(x * 100.0) == k + 1;
  }

  /** The result is a whole number of cents, and a whole number of cents stays as it is. */
  lemma RoundCentsWhole(x: real, k: int) returns (cents: int)
    ensures RoundCents(x) == cents as real / 100.0
    ensures x == k as real / 100.0 ==> RoundCents(x) == x
  {
    if x >= 0.0 {
      cents := HalfUp(x * 100.0);
    } else {
      cents := -HalfUp(-x * 100.0);
      assert cents as real == -(HalfUp(-x * 100.0) as real);
    }
    if x == k as real / 100.0 {
      assert x * 100.0 == k as real;
      assert HalfUp(k as real) == k && HalfUp(-(k as real)) == -k;
    }
  }

  /** Currency outputs become an amount in cents with its code. A boolean counts as a number here and
      then fails decimal conversion. */
  function Normalize(d: CalculatedDefinition, v: Value): Outcome<Value> {
    if d.currency.Some? && Number(v).Some? then
      if v.Bool? then Raise(Uncaught)
      else
        var code := if d.currency.value == "" then "USD" else d.currency.value;
        Ok(Dict(map["amount" := Real(RoundCents(Number(v).value)), "currency" := Str(code)]))
    else Ok(v)
  }

  /** What a currency output stores: an amount and a code, the template's or the dollar; every other output, and a
      value that is no number, stays as it is. */
  lemma NormalizeMeans(d: CalculatedDefinition, v: Value)
    ensures d.currency.None? || Number(v).None? ==> Normalize(d, v) == Ok(v)
    ensures d.currency.Some? && Number(v).Some? && !v.Bool? ==>
              var r := Normalize(d, v);
              && r.Ok? && r.value.Dict? && r.value.entries.Keys == {"amount", "currency"}
              && r.value.entries["amount"] == Real(RoundCents(Number(v).value))
              && r.value.entries["currency"] == Str(if d.currency == Some("") then "USD" else d.currency.value)
    ensures d.currency.Some? && v.Bool? ==> Normalize(d, v) == Raise(Uncaught)
  {
  }

  /** A formula is evaluated only when it compiles and mentions nothing but helpers and available fields. */
  lemma AttemptMeans(d: CalculatedDefinition, ctx: Context, available: set<string>, rt: Runtime)
    ensures d.formula.Broken? ==> Attempt(d, ctx, available, rt) == Raise(InvalidSyntax)
    ensures d.formula.Parsed? && (exists n :: Mentions(d.formula.tree, n) && n !in ALLOWED_FUNCTIONS && n !in available) ==>
              Attempt(d, ctx, available, rt) == Raise(UnknownReference)
    ensures d.formula.Parsed? && (forall n | Mentions(d.formula.tree, n) :: n in ALLOWED_FUNCTIONS || n in available) ==>
              Attempt(d, ctx, available, rt) == Run(d.formula, ctx, rt)
  {
    ReferencesMean(d.formula, available);
  }

  function RangeIssues(d: CalculatedDefinition, v: Value): Outcome<seq<CalculationIssue>> {
    var nullIssue := if v.Null? && !d.allowNull then [NullValue] else [];
    var candidate := if v.Dict? && "amount" in v.entries then v.entries["amount"] else v;
    if candidate.Null? || (d.min.None? && d.max.None?) then Ok(nullIssue)
    else if Number(candidate).None? then Raise(Uncaught)
    else
      var x := Number(candidate).value;
      Ok(nullIssue
         + (if d.min.Some? && x < d.min.value then [BelowMinimum] else [])
         + (if d.max.Some? && x > d.max.value then [AboveMaximum] else []))
  }

  /** The result as the loop builds it, before validation. */
  function Computed(d: CalculatedDefinition, draft: Draft, value: Value): CalculatedResult {
    CalculatedResult(d.name, value, draft.errors, draft.notes, Pending, draft.errors != [] || d.requiresReview)
  }

  /** `validate_calculated_field`: adds the null and range errors, then sets the status and raises the flag. */
  function ValidatedCalculation(d: CalculatedDefinition, r: CalculatedResult): Outcome<CalculatedResult> {
    var issues :- RangeIssues(d, r.value);
    var errors := r.errors + issues;
    Ok(r.(errors := errors, status := if errors == [] then Valid else Invalid,
          requiresReview := r.requiresReview || errors != []))
  }

  /** One pass of the loop body. Status is invalid exactly when there is an error, and an error or the
      definition itself asks for review. */
  function EvaluateDefinition(d: CalculatedDefinition, ctx: Context, available: set<string>, rt: Runtime)
    : (r: Outcome<CalculatedResult>)
    ensures r.Ok? ==> r.value.name == d.name && (r.value.status == Invalid <==> r.value.errors != [])
    ensures r.Ok? ==> (r.value.requiresReview <==> r.value.errors != [] || d.requiresReview)
  {
    var draft :- Settle(d, Attempt(d, ctx, available, rt));
    var value :- Normalize(d, draft.value);
    ValidatedCalculation(d, Computed(d, draft, value))
  }

  predicate IsMissingInput(attempt: Outcome<Value>) {
    attempt == Raise(TypeMismatch) || attempt == Raise(ScalarAttribute)
  }

  /** The number that the range is about: the amount of a record, or the value itself. */
  function Amount(v: Value): Option<real> {
    if v.Dict? && "amount" in v.entries then Number(v.entries["amount"]) else Number(v)
  }

  lemma DraftExplained(d: CalculatedDefinition, attempt: Outcome<Value>)
    requires Settle(d, attempt).Ok?
    ensures var draft := Settle(d, attempt).value;
            && draft.value == (if attempt.Ok? then attempt.value else Null)
            && (DivisionByZero in draft.errors <==> attempt == Raise(ZeroDivision) && d.onDivideByZero == ReturnNullAndFlagReview)
            && (MissingInput in draft.errors <==> IsMissingInput(attempt) && d.onMissingInput == ReturnNullAndFlagReview)
            && (forall e :: FormulaError(e) in draft.errors <==>
                  attempt == Raise(e) && !e.ZeroDivision? && !IsMissingInput(attempt))
            && (DivisionReturnedNull in draft.notes <==> attempt == Raise(ZeroDivision) && d.onDivideByZero == ReturnNull)
            && (MissingInputReturnedNull in draft.notes <==> IsMissingInput(attempt) && d.onMissingInput == ReturnNull)
    ensures var errors := Settle(d, attempt).value.errors;
            NullValue !in errors && BelowMinimum !in errors && AboveMaximum !in errors
  {
  }

  lemma RangeExplained(d: CalculatedDefinition, v: Value)
    requires RangeIssues(d, v).Ok?
    ensures var issues := RangeIssues(d, v).value;
            && (NullValue in issues <==> v.Null? && !d.allowNull)
            && (BelowMinimum in issues <==> d.min.Some? && Amount(v).Some? && Amount(v).value < d.min.value)
            && (AboveMaximum in issues <==> d.max.Some? && Amount(v).Some? && Amount(v).value > d.max.value)
            && forall i | i in issues :: i.NullValue? || i.BelowMinimum? || i.AboveMaximum?
  {
  }

  /** What a definition's result says: its value, and which outcome of the formula each error and note
      stands for. */
  lemma ResultExplained(d: CalculatedDefinition, ctx: Context, available: set<string>, rt: Runtime)
    requires EvaluateDefinition(d, ctx, available, rt).Ok?
    ensures var attempt := Attempt(d, ctx, available, rt);
            var r := EvaluateDefinition(d, ctx, available, rt).value;
            && Normalize(d, if attempt.Ok? then attempt.value else Null) == Ok(r.value)
            && (DivisionByZero in r.errors <==> attempt == Raise(ZeroDivision) && d.onDivideByZero == ReturnNullAndFlagReview)
            && (MissingInput in r.errors <==> IsMissingInput(attempt) && d.onMissingInput == ReturnNullAndFlagReview)
            && (forall e :: FormulaError(e) in r.errors <==>
                  attempt == Raise(e) && !e.ZeroDivision? && !IsMissingInput(attempt))
            && (NullValue in r.errors <==> r.value.Null? && !d.allowNull)
            && (BelowMinimum in r.errors <==> d.min.Some? && Amount(r.value).Some? && Amount(r.value).value < d.min.value)
            && (AboveMaximum in r.errors <==> d.max.Some? && Amount(r.value).Some? && Amount(r.value).value > d.max.value)
            && (DivisionReturnedNull in r.notes <==> attempt == Raise(ZeroDivision) && d.onDivideByZero == ReturnNull)
            && (MissingInputReturnedNull in r.notes <==> IsMissingInput(attempt) && d.onMissingInput == ReturnNull)
  {
    var attempt := Attempt(d, ctx, available, rt);
    DraftExplained(d, attempt);
    var draft := Settle(d, attempt).value;
    var value := Normalize(d, draft.value).value;
    RangeExplained(d, value);
    assert EvaluateDefinition(d, ctx, available, rt).value.errors == draft.errors + RangeIssues(d, value).value;
  }

  /** A value on which a comparison with the bounds of `d` raises. */
  predicate Incomparable(d: CalculatedDefinition, v: Value) {
    && (d.min.Some? || d.max.Some?)
    && !v.Null? && Amount(v).None? && !(v.Dict? && "amount" in v.entries && v.entries["amount"].Null?)
  }

  /** When one definition stops the whole evaluation: the formula lets a foreign exception through, a boolean
      meets the currency conversion, or a bound meets something that is no number. */
  lemma StopsExactlyWhen(d: CalculatedDefinition, ctx: Context, available: set<string>, rt: Runtime)
    ensures var attempt := Attempt(d, ctx, available, rt);
            var r := EvaluateDefinition(d, ctx, available, rt);
            && (r.Raise? <==>
                  || attempt == Raise(Uncaught)
                  || (attempt.Ok? && attempt.value.Bool? && d.currency.Some?)
                  || (attempt.Ok? && !(d.currency.Some? && Number(attempt.value).Some?) && Incomparable(d, attempt.value)))
            && (r.Raise? ==> r.error == Uncaught)
  {
  }

  /** A definition's result depends only on the names in its formula. */
  lemma EvaluateDefinitionFrame(
    d: CalculatedDefinition, c: Context, e: Context, available: set<string>, rt: Runtime)
    requires d.formula.Parsed? ==> AgreeOn(Names(d.formula.tree), c, e)
    ensures EvaluateDefinition(d, c, available, rt) == EvaluateDefinition(d, e, available, rt)
  {
    RunFrame(d.formula, c, e, rt);
  }

  lemma NamesOfProduct(a: string, b: string, n: string)
    ensures Mentions(Binary(Mult, Name(a), Name(b)), n) <==> n == a || n == b
  {
    NamesAreMentioned(Binary(Mult, Name(a), Name(b)), n);
  }

  /** The field of a product formula holds the product of its two fields. */
  lemma ProductField(
    d: CalculatedDefinition, a: string, b: string, m: int, n: int, ctx: Context, available: set<string>, rt: Runtime)
    requires d.formula == Parsed(Binary(Mult, Name(a), Name(b))) && d.currency.None? && d.min.None? && d.max.None?
    requires a in ctx && b in ctx && ctx[a] == Int(m) && ctx[b] == Int(n) && a in available && b in available
    ensures EvaluateDefinition(d, ctx, available, rt)
         == Ok(CalculatedResult(d.name, Int(m * n), [], [], Valid, d.requiresReview))
  {
    forall x
      ensures Mentions(d.formula.tree, x) <==> x == a || x == b
    {
      NamesOfProduct(a, b, x);
    }
    AttemptMeans(d, ctx, available, rt);
    var wrapped := WrapContext(ctx);
    assert Evaluate(Name(a), wrapped, rt) == Ok(Int(m)) && Evaluate(Name(b), wrapped, rt) == Ok(Int(n));
    ArithmeticMeans(Name(a), Name(b), m, n, wrapped, rt);
    assert Attempt(d, ctx, available, rt) == Ok(Int(m * n));
  }

  // ---------------------------------------------------------------------------------------------
  // The loop
  // ---------------------------------------------------------------------------------------------

  function ContextOf(extracted: seq<ExtractedResult>): (ctx: Context)
    ensures ctx.Keys == set i | 0 <= i < |extracted| :: extracted[i].name
  {
    if extracted == [] then map[]
    else
      var n := |extracted| - 1;
      assert forall i | 0 <= i < n :: extracted[i] == extracted[..n][i];
      ContextOf(extracted[..n])[extracted[n].name := extracted[n].normalized]
  }

  /** A name is bound to the value of the last field that carries it. */
  lemma {:induction false} ContextBindsLast(extracted: seq<ExtractedResult>, i: nat)
    requires i < |extracted| && forall j | i < j < |extracted| :: extracted[j].name != extracted[i].name
    ensures extracted[i].name in ContextOf(extracted) && ContextOf(extracted)[extracted[i].name] == extracted[i].normalized
    decreases |extracted|
  {
    var n := |extracted| - 1;
    var before := extracted[..n];
    assert ContextOf(extracted) == ContextOf(before)[extracted[n].name := extracted[n].normalized];
    if i < n {
      assert forall j | 0 <= j < n :: before[j] == extracted[j];
      ContextBindsLast(before, i);
    }
  }

  function AvailableTo(defs: seq<CalculatedDefinition>, extracted: seq<ExtractedResult>): set<string> {
    ContextOf(extracted).Keys + NamesIn(defs)
  }

  /** One pass of the loop, as a function of the definition and the context. */
  function StepOf(available: set<string>, rt: Runtime): Step {
    (d, ctx) => EvaluateDefinition(d, ctx, available, rt)
  }

  lemma StepOfFramed(available: set<string>, rt: Runtime)
    ensures Framed(StepOf(available, rt))
  {
    var step := StepOf(available, rt);
    forall d: CalculatedDefinition, c, e | d.formula.Parsed? ==> AgreeOn(Names(d.formula.tree), c, e)
      ensures step(d, c) == step(d, e)
    {
      EvaluateDefinitionFrame(d, c, e, available, rt);
    }
    forall d: CalculatedDefinition, c | step(d, c).Ok?
      ensures step(d, c).value.name == d.name
    {
      assert step(d, c) == EvaluateDefinition(d, c, available, rt);
    }
  }

  /** Sort, then evaluate and rebind. The order comes out of the sort and is not determined; a sort that
      exhausts its stack of `depth` levels ends the evaluation. */
  method EvaluateCalculatedFields(
    defs: seq<CalculatedDefinition>, extracted: seq<ExtractedResult>, rt: Runtime, depth: nat)
    returns (r: Outcome<seq<CalculatedResult>>, ghost order: seq<CalculatedDefinition>)
    ensures HasCycle(DeclaredGraph(defs)) ==> r == Raise(CircularDependency)
    ensures !HasCycle(DeclaredGraph(defs)) && HasCycle(SortGraph(Items(defs))) ==> r == Raise(Uncaught)
    ensures !HasCycle(DeclaredGraph(defs)) && !HasCycle(SortGraph(Items(defs))) && depth >= |NamesIn(defs)| ==>
              && IsTopologicalOrder(order, defs)
              && r == RunAll(order, ContextOf(extracted), StepOf(AvailableTo(defs, extracted), rt))
  {
    var sorted := Sort(defs, depth);
    order := [];
    if sorted.Circular? {
      return Raise(CircularDependency), order;
    }
    if sorted.TooDeep? {
      return Raise(Uncaught), order;
    }
    order := sorted.order;
    r := RunLoop(sorted.order, ContextOf(extracted), StepOf(AvailableTo(defs, extracted), rt));
    OrderExistsIff(defs);
  }

  /** The promised determinism: whatever orders two runs of the sort produce, every calculated field
      gets the same value, errors, notes, status and review flag. */
  lemma CalculatedValuesDetermined(
    defs: seq<CalculatedDefinition>, extracted: seq<ExtractedResult>, rt: Runtime,
    o1: seq<CalculatedDefinition>, o2: seq<CalculatedDefinition>)
    requires IsTopologicalOrder(o1, defs) && IsTopologicalOrder(o2, defs)
    ensures SameResults(o1, o2, ContextOf(extracted), StepOf(AvailableTo(defs, extracted), rt))
  {
    StepOfFramed(AvailableTo(defs, extracted), rt);
    OrderIndependence(defs, o1, o2, ContextOf(extracted), StepOf(AvailableTo(defs, extracted), rt));
  }

  // ---------------------------------------------------------------------------------------------
  // Every name is bound before its formula runs
  // ---------------------------------------------------------------------------------------------

  /** The attempt at a definition does not meet an unknown name. */
  function KnowsEveryName(available: set<string>, rt: Runtime): (CalculatedDefinition, Context) -> bool {
    (d, ctx) => NoUnknown(Attempt(d, ctx, available, rt))
  }

  lemma BindsMeansKnown(t: Template, d: CalculatedDefinition, c: Context, available: set<string>, rt: Runtime)
    requires WellDeclared(d, AvailableNames(t)) && AvailableNames(t) <= available
    requires Binds(c, d, AvailableNames(t), NamesIn(t.calculated))
    ensures NoUnknown(Attempt(d, c, available, rt))
  {
    forall n | n in Names(d.formula.tree)
      ensures n in c || n in ALLOWED_FUNCTIONS
    {
      if n in NamesIn(t.calculated) {
        assert n in SortDependencies(d, NamesIn(t.calculated));
      }
    }
    BoundNeverUnknown(d.formula.tree, WrapContext(c), rt);
  }

  /** For a template that meets the contract and extracted results that hold one entry per definition, no
      step of the evaluation fails with an unknown identifier or an unknown field reference. */
  lemma ContractBindsEveryName(
    t: Template, extracted: seq<ExtractedResult>, order: seq<CalculatedDefinition>, rt: Runtime)
    requires MeetsContract(t) && IsTopologicalOrder(order, t.calculated)
    requires ContextOf(extracted).Keys == ExtractedNames(t.extracted)
    ensures var available := AvailableTo(t.calculated, extracted);
            Throughout(order, ContextOf(extracted), StepOf(available, rt), KnowsEveryName(available, rt))
  {
    var available := AvailableTo(t.calculated, extracted);
    var names := NamesIn(t.calculated);
    var ok := KnowsEveryName(available, rt);
    assert UsableNames(t) <= ExtractedNames(t.extracted);
    forall k, c | 0 <= k < |order| && Binds(c, order[k], AvailableNames(t), names)
      ensures ok(order[k], c)
    {
      assert order[k] in order && order[k] in t.calculated;
      var i :| 0 <= i < |t.calculated| && t.calculated[i] == order[k];
      assert DefinitionOk(t.calculated[i], AvailableNames(t), BlockedNames(t));
      BindsMeansKnown(t, order[k], c, available, rt);
    }
    assert order[0..] == order;
    BoundThroughout(order, names, AvailableNames(t), 0, ContextOf(extracted), StepOf(available, rt), ok);
  }
}
