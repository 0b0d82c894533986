/** The order of evaluation does not matter.

    This module is about the loop alone. What one pass computes is a parameter, `step`; all that is
    used of it is that a result depends on the names in the formula and on nothing else.
 */
module EvaluationOrder {
  import opened Basics
  import opened Formulas
  import opened Templates
  import opened TopologicalSort
  import opened Results

  type Step = (CalculatedDefinition, Context) -> Outcome<CalculatedResult>

  /** The frame of a step: the names in the formula. Results carry their definition's name. */
  ghost predicate Framed(step: Step) {
    && (forall d: CalculatedDefinition, c, e :: (d.formula.Parsed? ==> AgreeOn(Names(d.formula.tree), c, e)) ==> step(d, c) == step(d, e))
    && (forall d: CalculatedDefinition, c :: step(d, c).Ok? ==> step(d, c).value.name == d.name)
  }

  /** Evaluate in the given order, binding each result before the next definition runs. */
  function RunAll(order: seq<CalculatedDefinition>, ctx: Context, step: Step): (r: Outcome<seq<CalculatedResult>>)
    ensures r.Ok? ==> |r.value| == |order|
    decreases |order|
  {
    if order == [] then Ok([])
    else
      var first :- step(order[0], ctx);
      var rest :- RunAll(order[1..], ctx[order[0].name := first.value], step);
      Ok([first] + rest)
  }

  /** What follows once some results are known. */
  ghost function Prepend(done: seq<CalculatedResult>, rest: Outcome<seq<CalculatedResult>>): (r: Outcome<seq<CalculatedResult>>)
    ensures done == [] ==> r == rest
  {
    match rest
    case Ok(more) =>
      assert done == [] ==> done + more == more;
      Ok(done + more)
    case Raise(e) => Raise(e)
  }

  /** The loop of the source over a sorted list: evaluate, append, rebind. */
  method RunLoop(order: seq<CalculatedDefinition>, start: Context, step: Step) returns (r: Outcome<seq<CalculatedResult>>)
    ensures r == RunAll(order, start, step)
  {
    var context, results := start, [];
    assert order[0..] == order;
    for i := 0 to |order|
      invariant |results| == i
      invariant RunAll(order, start, step) == Prepend(results, RunAll(order[i..], context, step))
    {
      assert order[i..][0] == order[i] && order[i..][1..] == order[i + 1..];
      var result := step(order[i], context);
      if result.Raise? {
        return Raise(result.error);
      }
      var first := result.value;
      ghost var rest := RunAll(order[i + 1..], context[order[i].name := first.value], step);
      assert rest.Ok? ==> results + ([first] + rest.value) == (results + [first]) + rest.value;
      results := results + [first];
      context := context[order[i].name := first.value];
    }
    assert results + [] == results;
    return Ok(results);
  }

  /** `ctx` and `f` agree on everything that is not a calculated field still to come. */
  ghost predicate Settled(ctx: Context, f: Context, order: seq<CalculatedDefinition>, names: set<string>, i: nat) {
    forall n | n !in names || PlacedBefore(order, i, n) ::
      (n in ctx <==> n in f) && (n in ctx && n in f ==> ctx[n] == f[n])
  }

  /** `f` solves the equation of `d`: the field holds the value that its formula has in `f` itself.
      This says nothing about any order. */
  ghost predicate Solves(f: Context, d: CalculatedDefinition, step: Step) {
    step(d, f).Ok? && d.name in f && f[d.name] == step(d, f).value.value
  }

  lemma StepFrame(order: seq<CalculatedDefinition>, names: set<string>, i: nat, ctx: Context, f: Context, step: Step)
    requires Framed(step) && RespectsDependencies(order, names) && i < |order| && Settled(ctx, f, order, names, i)
    ensures step(order[i], ctx) == step(order[i], f)
  {
    var d := order[i];
    if d.formula.Parsed? {
      assert forall n | n in Names(d.formula.tree) && n in names :: n in SortDependencies(d, names);
    }
  }

  lemma SettledNext(ctx: Context, f: Context, order: seq<CalculatedDefinition>, names: set<string>, i: nat)
    requires i < |order| && Settled(ctx, f, order, names, i) && order[i].name in f
    ensures Settled(ctx[order[i].name := f[order[i].name]], f, order, names, i + 1)
  {
    forall n | n !in names || PlacedBefore(order, i + 1, n)
      ensures n == order[i].name || n !in names || PlacedBefore(order, i, n)
    {
    }
  }

  lemma SettledBack(ctx: Context, v: Value, f: Context, order: seq<CalculatedDefinition>, names: set<string>, i: nat)
    requires i < |order| && DistinctNames(order) && NamesIn(order) == names
    requires Settled(ctx[order[i].name := v], f, order, names, i + 1)
    ensures Settled(ctx, f, order, names, i)
  {
    forall n | n !in names || PlacedBefore(order, i, n)
      ensures n != order[i].name && (n !in names || PlacedBefore(order, i + 1, n))
    {
      assert order[i].name in NamesIn(order);
    }
  }

  /** Every dependency-respecting order computes the values of any solution. */
  lemma {:induction false} SolutionDrivesRun(
    order: seq<CalculatedDefinition>, names: set<string>, i: nat, ctx: Context, f: Context, step: Step)
    requires Framed(step) && RespectsDependencies(order, names) && i <= |order|
    requires Settled(ctx, f, order, names, i) && forall k | i <= k < |order| :: Solves(f, order[k], step)
    ensures var r := RunAll(order[i..], ctx, step);
            r.Ok? && forall k | i <= k < |order| :: Ok(r.value[k - i]) == step(order[k], f)
    decreases |order| - i
  {
    if i < |order| {
      StepFrame(order, names, i, ctx, f, step);
      SettledNext(ctx, f, order, names, i);
      assert Solves(f, order[i], step);
      assert order[i..][0] == order[i] && order[i..][1..] == order[i + 1..];
      var ctx' := ctx[order[i].name := f[order[i].name]];
      SolutionDrivesRun(order, names, i + 1, ctx', f, step);
      var rest := RunAll(order[i + 1..], ctx', step);
      var r := RunAll(order[i..], ctx, step);
      assert r == Ok([step(order[i], f).value] + rest.value);
      forall k | i <= k < |order|
        ensures Ok(r.value[k - i]) == step(order[k], f)
      {
        if k > i {
          assert r.value[k - i] == rest.value[k - (i + 1)];
        }
      }
    }
  }

  /** A run that finishes has computed a solution `f`: each result is what its formula yields in the
      final context. */
  lemma {:induction false} RunYieldsSolution(
    order: seq<CalculatedDefinition>, names: set<string>, i: nat, ctx: Context, step: Step)
    returns (f: Context)
    requires Framed(step) && RespectsDependencies(order, names) && DistinctNames(order)
    requires i <= |order| && NamesIn(order) == names && RunAll(order[i..], ctx, step).Ok?
    ensures Settled(ctx, f, order, names, i)
    ensures forall k | i <= k < |order| :: Solves(f, order[k], step)
    decreases |order| - i
  {
    f := ctx;
    if i < |order| {
      var d := order[i];
      assert order[i..][0] == d && order[i..][1..] == order[i + 1..];
      var v := step(d, ctx).value.value;
      f := RunYieldsSolution(order, names, i + 1, ctx[d.name := v], step);
      assert PlacedBefore(order, i + 1, d.name);
      SettledBack(ctx, v, f, order, names, i);
      StepFrame(order, names, i, ctx, f, step);
      assert Solves(f, d, step);
    }
  }

  lemma SolutionDrivesWholeRun(
    order: seq<CalculatedDefinition>, names: set<string>, ctx: Context, f: Context, step: Step)
    requires Framed(step) && RespectsDependencies(order, names)
    requires Settled(ctx, f, order, names, 0) && forall k | 0 <= k < |order| :: Solves(f, order[k], step)
    ensures var r := RunAll(order, ctx, step);
            r.Ok? && forall k | 0 <= k < |order| :: Ok(r.value[k]) == step(order[k], f)
  {
    assert order[0..] == order;
    SolutionDrivesRun(order, names, 0, ctx, f, step);
    var r := RunAll(order, ctx, step);
    forall k | 0 <= k < |order|
      ensures Ok(r.value[k]) == step(order[k], f)
    {
      assert Ok(r.value[k - 0]) == step(order[k], f);
    }
  }

  /** Both runs raise, or both finish and give every calculated field the same result. */
  ghost predicate SameResults(
    o1: seq<CalculatedDefinition>, o2: seq<CalculatedDefinition>, ctx: Context, step: Step)
  {
    var r1, r2 := RunAll(o1, ctx, step), RunAll(o2, ctx, step);
    && (r1.Ok? <==> r2.Ok?)
    && (r1.Ok? && r2.Ok? ==>
          forall i, j | 0 <= i < |o1| && 0 <= j < |o2| && o1[i].name == o2[j].name :: r1.value[i] == r2.value[j])
  }

  lemma SameDefinition(
    defs: seq<CalculatedDefinition>, o1: seq<CalculatedDefinition>, o2: seq<CalculatedDefinition>, i: nat, j: nat)
    requires IsTopologicalOrder(o1, defs) && IsTopologicalOrder(o2, defs)
    requires i < |o1| && j < |o2| && o1[i].name == o2[j].name
    ensures o1[i] == o2[j]
  {
    assert o1[i] in o1 && o2[j] in o2;
  }

  /** If one order finishes, every order does, with the same results. */
  lemma OneOrderDecides(
    defs: seq<CalculatedDefinition>, o1: seq<CalculatedDefinition>, o2: seq<CalculatedDefinition>, ctx: Context, step: Step)
    requires Framed(step) && IsTopologicalOrder(o1, defs) && IsTopologicalOrder(o2, defs) && RunAll(o1, ctx, step).Ok?
    ensures SameResults(o1, o2, ctx, step)
  {
    var names := NamesIn(defs);
    assert o1[0..] == o1;
    var f := RunYieldsSolution(o1, names, 0, ctx, step);
    SolutionDrivesWholeRun(o1, names, ctx, f, step);
    forall j | 0 <= j < |o2|
      ensures Solves(f, o2[j], step)
    {
      assert o2[j].name in NamesIn(o1);
      var i :| 0 <= i < |o1| && o1[i].name == o2[j].name;
      SameDefinition(defs, o1, o2, i, j);
    }
    assert Settled(ctx, f, o2, names, 0);
    SolutionDrivesWholeRun(o2, names, ctx, f, step);
    forall i, j | 0 <= i < |o1| && 0 <= j < |o2| && o1[i].name == o2[j].name
      ensures o1[i] == o2[j]
    {
      SameDefinition(defs, o1, o2, i, j);
    }
  }

  /** Any two dependency-respecting orders give the same results. */
  lemma OrderIndependence(
    defs: seq<CalculatedDefinition>, o1: seq<CalculatedDefinition>, o2: seq<CalculatedDefinition>, ctx: Context, step: Step)
    requires Framed(step) && IsTopologicalOrder(o1, defs) && IsTopologicalOrder(o2, defs)
    ensures SameResults(o1, o2, ctx, step)
  {
    if RunAll(o1, ctx, step).Ok? {
      OneOrderDecides(defs, o1, o2, ctx, step);
    } else if RunAll(o2, ctx, step).Ok? {
      OneOrderDecides(defs, o2, o1, ctx, step);
    }
  }

  /** `ok` holds at every step of the run, up to and including one that raises. */
  ghost predicate Throughout(
    order: seq<CalculatedDefinition>, ctx: Context, step: Step, ok: (CalculatedDefinition, Context) -> bool)
    decreases |order|
  {
    order == [] ||
    (&& ok(order[0], ctx)
     && (step(order[0], ctx).Ok? ==>
           Throughout(order[1..], ctx[order[0].name := step(order[0], ctx).value.value], step, ok)))
  }

  /** `c` binds the available names that `d` may use: those that are not calculated, and its calculated
      dependencies. */
  ghost predicate Binds(c: Context, d: CalculatedDefinition, available: set<string>, names: set<string>) {
    forall n | n in available && (n !in names || n in SortDependencies(d, names)) :: n in c
  }

  /** Along a dependency-respecting order every definition finds its names bound. */
  lemma {:induction false} BoundThroughout(
    order: seq<CalculatedDefinition>, names: set<string>, available: set<string>, i: nat, ctx: Context,
    step: Step, ok: (CalculatedDefinition, Context) -> bool)
    requires RespectsDependencies(order, names) && i <= |order|
    requires forall n | n in available && (n !in names || PlacedBefore(order, i, n)) :: n in ctx
    requires forall k, c | 0 <= k < |order| && Binds(c, order[k], available, names) :: ok(order[k], c)
    ensures Throughout(order[i..], ctx, step, ok)
    decreases |order| - i
  {
    if i < |order| {
      var d := order[i];
      assert order[i..][0] == d && order[i..][1..] == order[i + 1..];
      assert Binds(ctx, d, available, names);
      if step(d, ctx).Ok? {
        var ctx' := ctx[d.name := step(d, ctx).value.value];
        forall n | n in available && (n !in names || PlacedBefore(order, i + 1, n))
          ensures n in ctx'
        {
          assert n == d.name || n !in names || PlacedBefore(order, i, n);
        }
        BoundThroughout(order, names, available, i + 1, ctx', step, ok);
      }
    }
  }
}
