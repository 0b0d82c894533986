/** The calculated-field contract that every template passes before it is stored. */
module Contract {
  import opened Basics
  import opened Formulas
  import opened FormulaMeaning
  import opened Graphs
  import opened Templates
  import opened TopologicalSort

  function UsableNames(t: Template): set<string> {
    set i | 0 <= i < |t.extracted| && t.extracted[i].usableInFormulas :: t.extracted[i].name
  }

  function BlockedNames(t: Template): set<string> {
    set i | 0 <= i < |t.extracted| && !t.extracted[i].usableInFormulas :: t.extracted[i].name
  }

  /** What a formula may mention: usable extracted fields and calculated fields. */
  function AvailableNames(t: Template): set<string> {
    UsableNames(t) + NamesIn(t.calculated)
  }

  predicate UniqueNames(t: Template) {
    && (forall i, j | 0 <= i < j < |t.extracted| :: t.extracted[i].name != t.extracted[j].name)
    && DistinctNames(t.calculated)
    && ExtractedNames(t.extracted) !! NamesIn(t.calculated)
  }

  /** The formula compiles, mentions only helpers and available fields, and `depends_on` lists exactly
      the available fields it mentions, each once. */
  ghost predicate WellDeclared(d: CalculatedDefinition, available: set<string>) {
    && KnownNames(d.formula, available)
    && multiset(d.dependsOn) == multiset(Names(d.formula.tree) * available)
  }

  /** A formula that mentions a blocked extracted field is refused even when the blocked name shadows a
      helper. */
  ghost predicate DefinitionOk(d: CalculatedDefinition, available: set<string>, blocked: set<string>) {
    WellDeclared(d, available) && Names(d.formula.tree) !! blocked
  }

  ghost predicate DefinitionsOk(t: Template) {
    forall i | 0 <= i < |t.calculated| :: DefinitionOk(t.calculated[i], AvailableNames(t), BlockedNames(t))
  }

  /** The contract, stated without reference to how it is checked. */
  ghost predicate MeetsContract(t: Template) {
    UniqueNames(t) && DefinitionsOk(t) && !HasCycle(DeclaredGraph(t.calculated))
  }

  // ---------------------------------------------------------------------------------------------
  // The contract in the words of a template's author
  // ---------------------------------------------------------------------------------------------

  predicate IsUsable(t: Template, n: string) {
    || (exists i :: 0 <= i < |t.extracted| && t.extracted[i].name == n && t.extracted[i].usableInFormulas)
    || (exists i :: 0 <= i < |t.calculated| && t.calculated[i].name == n)
  }

  predicate IsBlocked(t: Template, n: string) {
    exists i :: 0 <= i < |t.extracted| && t.extracted[i].name == n && !t.extracted[i].usableInFormulas
  }

  /** The formula compiles and mentions only helpers and usable fields, none of them blocked; the declared list
      names each field it mentions, once. */
  ghost predicate FieldMeetsContract(t: Template, d: CalculatedDefinition) {
    && d.formula.Parsed?
    && (forall n | Mentions(d.formula.tree, n) :: (n in ALLOWED_FUNCTIONS || IsUsable(t, n)) && !IsBlocked(t, n))
    && Distinct(d.dependsOn)
    && (forall n :: n in d.dependsOn <==> Mentions(d.formula.tree, n) && IsUsable(t, n))
  }

  lemma {:induction false} DistinctCounts(s: seq<string>)
    requires Distinct(s)
    ensures forall n :: multiset(s)[n] == if n in s then 1 else 0
  {
    if s != [] {
      var last, init := s[|s| - 1], s[..|s| - 1];
      assert s == init + [last];
      DistinctCounts(init);
      assert last !in init;
    }
  }

  lemma RepeatCounts(s: seq<string>, i: nat, j: nat)
    requires i < j < |s| && s[i] == s[j]
    ensures multiset(s)[s[i]] >= 2
  {
    var later := s[i + 1..];
    assert s == s[..i] + [s[i]] + later;
    assert later[j - i - 1] == s[j];
    assert s[j] in multiset(later);
  }

  lemma ListsOnce(s: seq<string>, names: set<string>)
    ensures multiset(s) == multiset(names) <==> Distinct(s) && forall n :: n in s <==> n in names
  {
    if multiset(s) == multiset(names) {
      forall i, j | 0 <= i < j < |s|
        ensures s[i] != s[j]
      {
        if s[i] == s[j] {
          RepeatCounts(s, i, j);
          assert false;
        }
      }
      forall n
        ensures n in s <==> n in names
      {
        assert n in s <==> n in multiset(s);
      }
    }
    if Distinct(s) && forall n :: n in s <==> n in names {
      DistinctCounts(s);
      assert forall n :: multiset(s)[n] == multiset(names)[n];
    }
  }

  lemma NameSetsMean(t: Template, n: string)
    ensures n in AvailableNames(t) <==> IsUsable(t, n)
    ensures n in BlockedNames(t) <==> IsBlocked(t, n)
  {
  }

  lemma FieldContractMeans(t: Template, d: CalculatedDefinition)
    ensures DefinitionOk(d, AvailableNames(t), BlockedNames(t)) <==> FieldMeetsContract(t, d)
  {
    forall n
      ensures (n in AvailableNames(t) <==> IsUsable(t, n)) && (n in BlockedNames(t) <==> IsBlocked(t, n))
    {
      NameSetsMean(t, n);
    }
    ReferencesMean(d.formula, AvailableNames(t));
    if d.formula.Parsed? {
      var tree := d.formula.tree;
      forall n
        ensures n in Names(tree) <==> Mentions(tree, n)
      {
        NamesAreMentioned(tree, n);
      }
      ListsOnce(d.dependsOn, Names(tree) * AvailableNames(t));
    }
  }

  function AllNames(t: Template): set<string> {
    ExtractedNames(t.extracted) + NamesIn(t.calculated)
  }

  /** The names of all fields, extracted and calculated. */
  function FieldNames(t: Template): (names: seq<string>)
    ensures |names| == |t.extracted| + |t.calculated|
    ensures forall i | 0 <= i < |t.extracted| :: names[i] == t.extracted[i].name
    ensures forall i | 0 <= i < |t.calculated| :: names[|t.extracted| + i] == t.calculated[i].name
  {
    seq(|t.extracted|, i requires 0 <= i < |t.extracted| => t.extracted[i].name)
    + seq(|t.calculated|, i requires 0 <= i < |t.calculated| => t.calculated[i].name)
  }

  lemma UniqueNamesMean(t: Template)
    ensures UniqueNames(t) <==> Distinct(FieldNames(t))
  {
    var names, n := FieldNames(t), |t.extracted|;
    if Distinct(names) {
      forall i, j | 0 <= i < j < |t.calculated|
        ensures t.calculated[i].name != t.calculated[j].name
      {
        assert names[n + i] != names[n + j];
      }
      forall i, j | 0 <= i < n && 0 <= j < |t.calculated|
        ensures t.extracted[i].name != t.calculated[j].name
      {
        assert names[i] != names[n + j];
      }
    }
    if UniqueNames(t) {
      forall i, j | 0 <= i < j < |names|
        ensures names[i] != names[j]
      {
        assert i >= n ==> names[i] == t.calculated[i - n].name;
        assert j >= n ==> names[j] == t.calculated[j - n].name;
        assert i < n ==> names[i] in ExtractedNames(t.extracted);
        assert j >= n ==> names[j] in NamesIn(t.calculated);
      }
    }
  }

  /** A template is accepted exactly when its field names are unique, every calculated field meets the contract
      and no chain of declarations is circular. */
  lemma ContractMeans(t: Template)
    ensures MeetsContract(t) <==>
              && Distinct(FieldNames(t))
              && (forall d | d in t.calculated :: FieldMeetsContract(t, d))
              && !exists chain: seq<CalculatedDefinition> :: DeclaredChain(t.calculated, chain)
  {
    forall d
      ensures DefinitionOk(d, AvailableNames(t), BlockedNames(t)) <==> FieldMeetsContract(t, d)
    {
      FieldContractMeans(t, d);
    }
    UniqueNamesMean(t);
    if DistinctNames(t.calculated) {
      CycleMeans(t.calculated);
    }
  }

  datatype Verdict =
    | Accepted
    | DuplicateNames
    | InvalidFormula(field: string)
    | BlockedReference(field: string)
    | WrongDependsOn(field: string)
    | InvalidGraph

  lemma DeclaredListing(d: CalculatedDefinition, available: set<string>, calculated: set<string>)
    requires WellDeclared(d, available) && calculated <= available
    ensures SortDependencies(d, calculated) == Members(d.dependsOn) * calculated
  {
    forall x
      ensures x in d.dependsOn <==> x in Names(d.formula.tree) * available
    {
      assert x in d.dependsOn <==> x in multiset(d.dependsOn);
    }
  }

  /** Acyclicity carries over from the declared lists to the formula references. */
  lemma ContractMeansDeclared(t: Template)
    requires DefinitionsOk(t)
    ensures ReferencesDeclared(t.calculated)
    ensures HasCycle(SortGraph(Items(t.calculated))) <==> HasCycle(DeclaredGraph(t.calculated))
  {
    forall d | d in t.calculated
      ensures SortDependencies(d, NamesIn(t.calculated))
           == Members(d.dependsOn) * NamesIn(t.calculated)
    {
      DeclaredListing(d, AvailableNames(t), NamesIn(t.calculated));
    }
    DeclaredMeansSameCycles(t.calculated);
  }

  ghost predicate MentionsBlocked(d: CalculatedDefinition, blocked: set<string>) {
    d.formula.Parsed? && exists n :: n in Names(d.formula.tree) && n in blocked
  }

  /** Why a field is refused: a name unknown to the template first, then a blocked field, then a name that no formula may
      use, and last a declared list that is not what the formula mentions. */
  ghost predicate Refuses(d: CalculatedDefinition, all: set<string>, available: set<string>, blocked: set<string>, v: Verdict) {
    match v
    case InvalidFormula(field) =>
      field == d.name && (!KnownNames(d.formula, all) || (!MentionsBlocked(d, blocked) && !KnownNames(d.formula, available)))
    case BlockedReference(field) => field == d.name && KnownNames(d.formula, all) && MentionsBlocked(d, blocked)
    case WrongDependsOn(field) =>
      && field == d.name && KnownNames(d.formula, available) && !MentionsBlocked(d, blocked)
      && multiset(d.dependsOn) != multiset(Names(d.formula.tree) * available)
    case _ => false
  }

  /** The first field that is refused, and why. */
  ghost predicate RefusesFirst(
    defs: seq<CalculatedDefinition>, all: set<string>, available: set<string>, blocked: set<string>, i: nat, v: Verdict)
  {
    && i < |defs| && Refuses(defs[i], all, available, blocked, v)
    && forall j | 0 <= j < i :: DefinitionOk(defs[j], available, blocked)
  }

  /** The checks on one calculated field, in their order. */
  method CheckDefinition(d: CalculatedDefinition, all: set<string>, available: set<string>, blocked: set<string>)
    returns (v: Verdict)
    requires available <= all && blocked <= all
    ensures v.Accepted? <==> DefinitionOk(d, available, blocked)
    ensures !v.Accepted? <==> Refuses(d, all, available, blocked, v)
  {
    if !KnownNames(d.formula, all) {
      return InvalidFormula(d.name);
    }
    var names := Names(d.formula.tree);
    if names * all * blocked != {} {
      assert exists x :: x in names && x in blocked;
      return BlockedReference(d.name);
    }
    forall x | x in names
      ensures x !in blocked
    {
      assert x !in names * all * blocked;
    }
    if !KnownNames(d.formula, available) {
      return InvalidFormula(d.name);
    }
    if multiset(d.dependsOn) != multiset(names * available) {
      return WrongDependsOn(d.name);
    }
    return Accepted;
  }

  /** The loop over the calculated fields. */
  method CheckDefinitions(
    defs: seq<CalculatedDefinition>, all: set<string>, available: set<string>, blocked: set<string>) returns (v: Verdict)
    requires available <= all && blocked <= all
    ensures v.Accepted? <==> forall i | 0 <= i < |defs| :: DefinitionOk(defs[i], available, blocked)
    ensures !v.Accepted? <==> exists i: nat :: RefusesFirst(defs, all, available, blocked, i, v)
  {
    for i := 0 to |defs|
      invariant forall j | 0 <= j < i :: DefinitionOk(defs[j], available, blocked)
    {
      v := CheckDefinition(defs[i], all, available, blocked);
      if !v.Accepted? {
        assert RefusesFirst(defs, all, available, blocked, i, v);
        return v;
      }
    }
    return Accepted;
  }

  /** The two template validators, in their order. Under the field checks the sort needs no more levels of
      recursion than there are names. */
  method ValidateTemplate(t: Template) returns (v: Verdict)
    ensures v.Accepted? <==> MeetsContract(t)
    ensures v.DuplicateNames? <==> !UniqueNames(t)
    ensures v.InvalidGraph? <==> UniqueNames(t) && DefinitionsOk(t) && HasCycle(DeclaredGraph(t.calculated))
    ensures v.InvalidFormula? || v.BlockedReference? || v.WrongDependsOn? <==> UniqueNames(t) && !DefinitionsOk(t)
    ensures v.InvalidFormula? || v.BlockedReference? || v.WrongDependsOn? ==>
              exists i: nat :: RefusesFirst(t.calculated, AllNames(t), AvailableNames(t), BlockedNames(t), i, v)
  {
    if !UniqueNames(t) {
      return DuplicateNames;
    }
    v := CheckDefinitions(t.calculated, AllNames(t), AvailableNames(t), BlockedNames(t));
    if !v.Accepted? {
      return v;
    }
    ContractMeansDeclared(t);
    var sorted := Sort(t.calculated, |NamesIn(t.calculated)|);
    return if sorted.Circular? then InvalidGraph else Accepted;
  }
}
