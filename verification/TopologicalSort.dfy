/** The dependency sort. Its recursion carries no cycle guard: it ends exactly when the formula references
    it follows have no cycle, and otherwise runs through the stack. It follows dependencies in an arbitrary
    order because the source iterates a Python set. */
module TopologicalSort {
  import opened Basics
  import opened Formulas
  import opened Graphs
  import opened Templates
  import CycleDetection

  predicate PlacedBefore(order: seq<CalculatedDefinition>, i: nat, name: string) {
    exists j :: 0 <= j < i && j < |order| && order[j].name == name
  }

  /** Every definition comes after all calculated fields that its formula mentions. */
  ghost predicate RespectsDependencies(order: seq<CalculatedDefinition>, names: set<string>) {
    forall i, n | 0 <= i < |order| && n in SortDependencies(order[i], names) :: PlacedBefore(order, i, n)
  }

  /** What the sort has produced so far is consistent: each name once, each with its definition, each
      after its dependencies. */
  ghost predicate Consistent(order: seq<CalculatedDefinition>, items: map<string, CalculatedDefinition>) {
    && DistinctNames(order)
    && (forall i | 0 <= i < |order| :: order[i].name in items && items[order[i].name] == order[i])
    && RespectsDependencies(order, items.Keys)
  }

  lemma ConsistentAppend(order: seq<CalculatedDefinition>, d: CalculatedDefinition, items: map<string, CalculatedDefinition>)
    requires Consistent(order, items) && d.name in items && items[d.name] == d && d.name !in NamesIn(order)
    requires SortDependencies(d, items.Keys) <= NamesIn(order)
    ensures Consistent(order + [d], items) && NamesIn(order + [d]) == NamesIn(order) + {d.name}
  {
    var longer := order + [d];
    assert forall i | 0 <= i < |order| :: longer[i] == order[i];
    assert longer[|order|] == d;
    forall i, n | 0 <= i < |longer| && n in SortDependencies(longer[i], items.Keys)
      ensures PlacedBefore(longer, i, n)
    {
      if i < |order| {
        assert PlacedBefore(order, i, n);
      }
      var j :| 0 <= j < i && j < |order| && order[j].name == n;
      assert longer[j].name == n;
    }
  }

  function NameList(order: seq<CalculatedDefinition>): (r: seq<string>)
    ensures |r| == |order| && forall i | 0 <= i < |r| :: r[i] == order[i].name
  {
    seq(|order|, i requires 0 <= i < |order| => order[i].name)
  }

  lemma ConsistentCloses(order: seq<CalculatedDefinition>, items: map<string, CalculatedDefinition>)
    requires Consistent(order, items)
    ensures Closes(SortGraph(items), NameList(order))
  {
    var names := NameList(order);
    forall i, b | 0 <= i < |names| && Edge(SortGraph(items), names[i], b)
      ensures Earlier(names, i, b)
    {
      assert PlacedBefore(order, i, b);
      var j :| 0 <= j < i && j < |order| && order[j].name == b;
      assert names[j] == b;
    }
  }

  lemma PlacedHasNoWayBack(
    order: seq<CalculatedDefinition>, items: map<string, CalculatedDefinition>, a: string, b: string)
    requires Consistent(order, items) && Edge(SortGraph(items), a, b)
    ensures a in NamesIn(order) ==> a !in Reach(SortGraph(items), b)
  {
    if i :| 0 <= i < |order| && order[i].name == a {
      ConsistentCloses(order, items);
      assert NameList(order)[i] == a;
      NoWayBack(SortGraph(items), NameList(order), a, b);
    }
  }

  class Sorter {
    const items: map<string, CalculatedDefinition>
    var visited: set<string>
    var ordered: seq<CalculatedDefinition>

    constructor (items: map<string, CalculatedDefinition>)
      requires forall k | k in items :: items[k].name == k
      ensures this.items == items && visited == {} && ordered == [] && Valid()
    {
      this.items := items;
      visited, ordered := {}, [];
    }

    ghost predicate Valid()
      reads this
    {
      && (forall k | k in items :: items[k].name == k)
      && visited == NamesIn(ordered)
      && Consistent(ordered, items)
    }

    /** Visits `name` with `depth` levels of recursion left. There is no cycle guard: a visit that runs out
        of levels met a cycle, or had fewer levels than names to reach. */
    method Visit(name: string, depth: nat) returns (tooDeep: bool)
      requires Valid() && name in items
      modifies this
      ensures Valid() && old(visited) <= visited
      ensures visited - old(visited) <= Reach(SortGraph(items), name)
      ensures !tooDeep ==> name in visited
      ensures tooDeep ==> HasCycle(SortGraph(items)) || depth < |Reach(SortGraph(items), name)|
      decreases depth
    {
      ghost var g := SortGraph(items);
      ReachesItself(g, name);
      if depth == 0 {
        return true;
      }
      if name in visited {
        return false;
      }
      var field := items[name];
      var all := SortDependencies(field, items.Keys);
      var pending := all;
      while pending != {}
        invariant Valid() && pending <= all && name !in visited
        invariant old(visited) <= visited && forall n | n in all - pending :: n in visited
        invariant visited - old(visited) <= Reach(g, name)
        decreases pending
      {
        var dependency :| dependency in pending;
        assert Edge(g, name, dependency);
        ReachGrows(g, name, dependency);
        var deeper := Visit(dependency, depth - 1);
        if deeper {
          return true;
        }
        PlacedHasNoWayBack(ordered, items, name, dependency);
        pending := pending - {dependency};
      }
      Append(field);
      return false;
    }

    /** The last two statements of the visit: mark the name, append the definition. */
    method Append(field: CalculatedDefinition)
      requires Valid() && field.name in items && items[field.name] == field && field.name !in visited
      requires SortDependencies(field, items.Keys) <= visited
      modifies this
      ensures Valid() && ordered == old(ordered) + [field] && visited == old(visited) + {field.name}
    {
      ConsistentAppend(ordered, field, items);
      visited := visited + {field.name};
      ordered := ordered + [field];
    }
  }

  /** `TooDeep` is Python's exception at the end of its stack. */
  datatype SortResult = Sorted(order: seq<CalculatedDefinition>) | Circular | TooDeep

  /** Every calculated name once, with its definition, after the calculated fields it mentions. */
  ghost predicate IsTopologicalOrder(order: seq<CalculatedDefinition>, defs: seq<CalculatedDefinition>) {
    && DistinctNames(order)
    && NamesIn(order) == NamesIn(defs)
    && (forall d | d in order :: d == Items(defs)[d.name])
    && RespectsDependencies(order, NamesIn(defs))
  }

  /** Detection, then the sort with a stack of `depth` levels. A stack with a level for each name decides:
      the order comes out exactly when the formula references have no cycle. On a cycle that detection
      did not see, the recursion exhausts every stack. */
  method Sort(defs: seq<CalculatedDefinition>, depth: nat) returns (r: SortResult)
    ensures r.Circular? <==> HasCycle(DeclaredGraph(defs))
    ensures r.Sorted? ==> IsTopologicalOrder(r.order, defs)
    ensures !r.Circular? && HasCycle(SortGraph(Items(defs))) ==> r.TooDeep?
    ensures depth >= |NamesIn(defs)| ==>
              (r.Sorted? <==> !HasCycle(DeclaredGraph(defs)) && !HasCycle(SortGraph(Items(defs))))
  {
    var raised := CycleDetection.DetectFormulaCycles(defs);
    if raised {
      return Circular;
    }
    var items := Items(defs);
    var tooDeep, order := VisitAll(defs, items, depth);
    if tooDeep {
      return TooDeep;
    }
    CompleteMeansTopological(order, defs);
    TopologicalMeansAcyclic(order, defs);
    return Sorted(order);
  }

  /** The outer loop of the sort. */
  method VisitAll(defs: seq<CalculatedDefinition>, items: map<string, CalculatedDefinition>, depth: nat)
    returns (tooDeep: bool, order: seq<CalculatedDefinition>)
    requires forall k | k in items :: items[k].name == k
    requires forall j | 0 <= j < |defs| :: defs[j].name in items
    ensures tooDeep ==> HasCycle(SortGraph(items)) || depth < |items.Keys|
    ensures !tooDeep ==> Consistent(order, items) && forall j | 0 <= j < |defs| :: defs[j].name in NamesIn(order)
  {
    var sorter := new Sorter(items);
    for i := 0 to |defs|
      invariant fresh(sorter) && sorter.Valid() && sorter.items == items
      invariant forall j | 0 <= j < i :: defs[j].name in sorter.visited
    {
      tooDeep := sorter.Visit(defs[i].name, depth);
      if tooDeep {
        SubsetSize(Reach(SortGraph(items), defs[i].name), items.Keys);
        return true, [];
      }
    }
    return false, sorter.ordered;
  }

  lemma CompleteMeansTopological(order: seq<CalculatedDefinition>, defs: seq<CalculatedDefinition>)
    requires Consistent(order, Items(defs)) && forall j | 0 <= j < |defs| :: defs[j].name in NamesIn(order)
    ensures IsTopologicalOrder(order, defs)
  {
    assert NamesIn(order) == NamesIn(defs);
  }

  // ---------------------------------------------------------------------------------------------
  // When there is an order at all
  // ---------------------------------------------------------------------------------------------

  lemma TopologicalMeansAcyclic(order: seq<CalculatedDefinition>, defs: seq<CalculatedDefinition>)
    requires IsTopologicalOrder(order, defs)
    ensures !HasCycle(SortGraph(Items(defs)))
  {
    var items, names := Items(defs), NameList(order);
    forall i | 0 <= i < |order|
      ensures order[i].name in items && items[order[i].name] == order[i]
    {
      assert order[i] in order && order[i].name in NamesIn(order);
    }
    ConsistentCloses(order, items);
    forall a | a in items
      ensures a in names
    {
      assert a in NamesIn(order);
      var i :| 0 <= i < |order| && order[i].name == a;
      assert names[i] == a;
    }
    ClosedOrderMeansAcyclic(SortGraph(items), names);
  }

  /** Without cycles, some name still missing has all its dependencies placed. */
  lemma {:induction false} ReadyName(order: seq<CalculatedDefinition>, items: map<string, CalculatedDefinition>, a: string)
    returns (n: string)
    requires !HasCycle(SortGraph(items)) && a in items && a !in NamesIn(order)
    ensures n in items && n !in NamesIn(order) && SortDependencies(items[n], items.Keys) <= NamesIn(order)
    decreases Reach(SortGraph(items), a)
  {
    n := a;
    if b :| b in SortDependencies(items[a], items.Keys) && b !in NamesIn(order) {
      EdgeShrinksReach(SortGraph(items), a, b);
      n := ReadyName(order, items, b);
    }
  }

  lemma {:induction false} OrderCompletes(order: seq<CalculatedDefinition>, items: map<string, CalculatedDefinition>)
    returns (full: seq<CalculatedDefinition>)
    requires (forall k | k in items :: items[k].name == k) && !HasCycle(SortGraph(items)) && Consistent(order, items)
    ensures Consistent(full, items) && items.Keys <= NamesIn(full)
    decreases items.Keys - NamesIn(order)
  {
    full := order;
    if a :| a in items && a !in NamesIn(order) {
      var n := ReadyName(order, items, a);
      ConsistentAppend(order, items[n], items);
      full := OrderCompletes(order + [items[n]], items);
    }
  }

  /** Whatever the declared lists say, the definitions can be put in order exactly when their formula
      references have no cycle. */
  lemma OrderExistsIff(defs: seq<CalculatedDefinition>)
    ensures (exists order :: IsTopologicalOrder(order, defs)) <==> !HasCycle(SortGraph(Items(defs)))
  {
    if order :| IsTopologicalOrder(order, defs) {
      TopologicalMeansAcyclic(order, defs);
    } else if !HasCycle(SortGraph(Items(defs))) {
      var order := OrderCompletes([], Items(defs));
      assert forall j | 0 <= j < |defs| :: defs[j].name in NamesIn(defs);
      CompleteMeansTopological(order, defs);
    }
  }

  /** Detection alone does not see to that: two fields that declare nothing and mention each other pass it
      and have no order, so that the sort exhausts every stack. */
  lemma UndeclaredReferencesEscapeDetection()
    ensures exists defs :: DistinctNames(defs) && !HasCycle(DeclaredGraph(defs)) && HasCycle(SortGraph(Items(defs)))
                           && forall order :: !IsTopologicalOrder(order, defs)
  {
    var f := (name: string, other: string) => CalculatedDefinition(
      name, Parsed(Name(other)), [], None, true, None, None, ReturnNull, ReturnNull, false);
    var a, b := f("a", "b"), f("b", "a");
    var defs := [a, b];
    var items := Items(defs);
    ItemsFind(defs, 0);
    ItemsFind(defs, 1);
    assert defs[0].name == "a" && defs[1].name == "b";
    assert IsCycle(SortGraph(items), ["a", "b", "a"]);
    assert Closes(DeclaredGraph(defs), ["a", "b"]);
    ClosedOrderMeansAcyclic(DeclaredGraph(defs), ["a", "b"]);
    OrderExistsIff(defs);
  }

  /** With unique names the sort is a permutation of its input. */
  lemma TopologicalOrderIsPermutation(order: seq<CalculatedDefinition>, defs: seq<CalculatedDefinition>)
    requires IsTopologicalOrder(order, defs) && DistinctNames(defs)
    ensures multiset(order) == multiset(defs)
  {
    forall d
      ensures d in order <==> d in defs
    {
      if d in defs {
        var k :| 0 <= k < |defs| && defs[k] == d;
        ItemsFind(defs, k);
        assert d.name in NamesIn(order);
        var i :| 0 <= i < |order| && order[i].name == d.name;
        assert order[i] in order;
      }
    }
    DistinctMultiplicity(order);
    DistinctMultiplicity(defs);
  }

  lemma {:induction false} DistinctMultiplicity(s: seq<CalculatedDefinition>)
    requires DistinctNames(s)
    ensures forall d :: multiset(s)[d] == if d in s then 1 else 0
  {
    if s != [] {
      var n := |s| - 1;
      assert s == s[..n] + [s[n]];
      DistinctMultiplicity(s[..n]);
      assert s[n] !in s[..n];
    }
  }
}
