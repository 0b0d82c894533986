/** Template definitions: extracted fields, calculated fields and the graphs they span. */
module Templates {
  import opened Basics
  import opened Formulas
  import opened FormulaMeaning
  import opened Graphs

  datatype ExtractedDefinition = ExtractedDefinition(name: string, usableInFormulas: bool)

  /** What to do when an input is missing or a divisor is zero. */
  datatype Policy = ReturnNullAndFlagReview | ReturnNull

  /** `currency` is set for fields whose output type is currency; the empty code means the default. */
  datatype CalculatedDefinition = CalculatedDefinition(
    name: string,
    formula: Formula,
    dependsOn: seq<string>,
    currency: Option<string>,
    allowNull: bool,
    min: Option<real>,
    max: Option<real>,
    onDivideByZero: Policy,
    onMissingInput: Policy,
    requiresReview: bool)

  datatype Template = Template(extracted: seq<ExtractedDefinition>, calculated: seq<CalculatedDefinition>)

  function NamesIn(defs: seq<CalculatedDefinition>): set<string> {
    set i | 0 <= i < |defs| :: defs[i].name
  }

  function ExtractedNames(defs: seq<ExtractedDefinition>): set<string> {
    set i | 0 <= i < |defs| :: defs[i].name
  }

  predicate DistinctNames(defs: seq<CalculatedDefinition>) {
    forall i, j | 0 <= i < j < |defs| :: defs[i].name != defs[j].name
  }

  /** The dictionary of definitions by name; a later definition replaces an earlier one. */
  function Items(defs: seq<CalculatedDefinition>): (m: map<string, CalculatedDefinition>)
    ensures m.Keys == NamesIn(defs)
    ensures forall k | k in m :: m[k].name == k && m[k] in defs
  {
    if defs == [] then map[]
    else
      var n := |defs| - 1;
      var m := Items(defs[..n]);
      assert NamesIn(defs) == NamesIn(defs[..n]) + {defs[n].name} by {
        assert forall i | 0 <= i < n :: defs[i] == defs[..n][i];
      }
      m[defs[n].name := defs[n]]
  }

  lemma ItemsFind(defs: seq<CalculatedDefinition>, i: nat)
    requires i < |defs| && DistinctNames(defs)
    ensures Items(defs)[defs[i].name] == defs[i]
  {
    var m := Items(defs);
    assert defs[i].name in m;
    var j :| 0 <= j < |defs| && defs[j] == m[defs[i].name];
  }

  /** Of several definitions with one name the last is kept. */
  lemma {:induction false} ItemsKeepLast(defs: seq<CalculatedDefinition>, i: nat)
    requires i < |defs| && forall j | i < j < |defs| :: defs[j].name != defs[i].name
    ensures defs[i].name in Items(defs) && Items(defs)[defs[i].name] == defs[i]
    decreases |defs|
  {
    var n := |defs| - 1;
    if i < n {
      ItemsKeepLast(defs[..n], i);
    }
  }

  /** The declared graph that cycle detection walks. */
  function DeclaredGraph(defs: seq<CalculatedDefinition>): Graph {
    var m := Items(defs);
    map k | k in m :: Members(m[k].dependsOn)
  }

  /** What the sort follows: formula references, or the declared list when the formula is broken. */
  function SortDependencies(d: CalculatedDefinition, calculated: set<string>): set<string> {
    match CollectReferences(d.formula, calculated)
    case Some(refs) => refs
    case None => Members(d.dependsOn) * calculated
  }

  /** A name the sort follows: a calculated one that the formula mentions, or declares when it does not compile. */
  lemma SortDependenciesMean(d: CalculatedDefinition, calculated: set<string>, n: string)
    ensures n in SortDependencies(d, calculated) <==>
              n in calculated && if d.formula.Parsed? then Mentions(d.formula.tree, n) else n in d.dependsOn
  {
    ReferencesMean(d.formula, calculated);
  }

  function SortGraph(items: map<string, CalculatedDefinition>): Graph {
    map k | k in items :: SortDependencies(items[k], items.Keys)
  }

  /** A circular chain of definitions: each declares the name of the next, and the last is the first again. */
  ghost predicate DeclaredChain(defs: seq<CalculatedDefinition>, chain: seq<CalculatedDefinition>) {
    && |chain| >= 2 && chain[0] == chain[|chain| - 1]
    && (forall d | d in chain :: d in defs)
    && forall i | 0 < i < |chain| :: chain[i].name in chain[i - 1].dependsOn
  }

  lemma DeclaredEdge(defs: seq<CalculatedDefinition>, d: CalculatedDefinition, e: CalculatedDefinition)
    requires DistinctNames(defs) && d in defs && e in defs
    ensures Edge(DeclaredGraph(defs), d.name, e.name) <==> e.name in d.dependsOn
  {
    var i :| 0 <= i < |defs| && defs[i] == d;
    var j :| 0 <= j < |defs| && defs[j] == e;
    ItemsFind(defs, i);
    ItemsFind(defs, j);
    assert d.name in NamesIn(defs) && e.name in NamesIn(defs);
  }

  function DefinitionsOf(defs: seq<CalculatedDefinition>, names: seq<string>): (chain: seq<CalculatedDefinition>)
    requires forall i | 0 <= i < |names| :: names[i] in Items(defs)
    ensures |chain| == |names|
    ensures forall i | 0 <= i < |names| :: chain[i].name == names[i] && chain[i] in defs
  {
    var m := Items(defs);
    assert forall i | 0 <= i < |names| :: m[names[i]].name == names[i] && m[names[i]] in defs;
    seq(|names|, i requires 0 <= i < |names| => m[names[i]])
  }

  function NameSeq(chain: seq<CalculatedDefinition>): (names: seq<string>)
    ensures |names| == |chain| && forall i | 0 <= i < |chain| :: names[i] == chain[i].name
  {
    seq(|chain|, i requires 0 <= i < |chain| => chain[i].name)
  }

  lemma ChainMakesCycle(defs: seq<CalculatedDefinition>, chain: seq<CalculatedDefinition>)
    requires DistinctNames(defs) && DeclaredChain(defs, chain)
    ensures HasCycle(DeclaredGraph(defs))
  {
    var p := NameSeq(chain);
    forall i | 0 < i < |p|
      ensures Edge(DeclaredGraph(defs), p[i - 1], p[i])
    {
      DeclaredEdge(defs, chain[i - 1], chain[i]);
    }
    assert Edge(DeclaredGraph(defs), p[0], p[1]);
    assert IsCycle(DeclaredGraph(defs), p);
  }

  lemma CycleMakesChain(defs: seq<CalculatedDefinition>, p: seq<string>)
    requires DistinctNames(defs) && IsCycle(DeclaredGraph(defs), p)
    ensures exists chain: seq<CalculatedDefinition> :: DeclaredChain(defs, chain)
  {
    forall i | 0 <= i < |p|
      ensures p[i] in Items(defs)
    {
      if i > 0 {
        assert Edge(DeclaredGraph(defs), p[i - 1], p[i]);
      }
    }
    var chain := DefinitionsOf(defs, p);
    forall i | 0 < i < |chain|
      ensures chain[i].name in chain[i - 1].dependsOn
    {
      assert Edge(DeclaredGraph(defs), p[i - 1], p[i]);
      DeclaredEdge(defs, chain[i - 1], chain[i]);
    }
    assert DeclaredChain(defs, chain);
  }

  /** A cycle of the declared graph is a circular chain of definitions. */
  lemma CycleMeans(defs: seq<CalculatedDefinition>)
    requires DistinctNames(defs)
    ensures HasCycle(DeclaredGraph(defs)) <==> exists chain: seq<CalculatedDefinition> :: DeclaredChain(defs, chain)
  {
    if HasCycle(DeclaredGraph(defs)) {
      var p: seq<string> :| IsCycle(DeclaredGraph(defs), p);
      CycleMakesChain(defs, p);
    }
    if chain: seq<CalculatedDefinition> :| DeclaredChain(defs, chain) {
      ChainMakesCycle(defs, chain);
    }
  }

  /** The graph of the sort recursion and the graph of cycle detection have the same edges. */
  predicate ReferencesDeclared(defs: seq<CalculatedDefinition>) {
    var names := NamesIn(defs);
    forall d | d in defs :: SortDependencies(d, names) == Members(d.dependsOn) * names
  }

  lemma DeclaredMeansSameCycles(defs: seq<CalculatedDefinition>)
    requires ReferencesDeclared(defs)
    ensures HasCycle(SortGraph(Items(defs))) <==> HasCycle(DeclaredGraph(defs))
  {
    var g, h := SortGraph(Items(defs)), DeclaredGraph(defs);
    assert g.Keys == h.Keys;
    SameEdgesSameCycles(g, h);
  }
}
