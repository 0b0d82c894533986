/** Finite directed graphs over names: paths, cycles and reachability. */
module Graphs {
  import opened Basics

  /** Successors of each node. A successor that is not itself a node is no edge. */
  type Graph = map<string, set<string>>

  predicate Edge(g: Graph, a: string, b: string) {
    a in g && b in g && b in g[a]
  }

  predicate IsPath(g: Graph, p: seq<string>) {
    p != [] && p[0] in g && forall i | 0 < i < |p| :: Edge(g, p[i - 1], p[i])
  }

  predicate IsCycle(g: Graph, p: seq<string>) {
    |p| >= 2 && IsPath(g, p) && p[0] == p[|p| - 1]
  }

  /** Self-loops included: `[a, a]` is a cycle when `a` lists itself. */
  ghost predicate HasCycle(g: Graph) {
    exists p: seq<string> :: IsCycle(g, p)
  }

  predicate PathBetween(g: Graph, a: string, b: string, p: seq<string>) {
    IsPath(g, p) && p[0] == a && p[|p| - 1] == b
  }

  ghost predicate Reaches(g: Graph, a: string, b: string) {
    exists p: seq<string> :: PathBetween(g, a, b, p)
  }

  ghost function Reach(g: Graph, a: string): set<string> {
    set b | b in g && Reaches(g, a, b)
  }

  lemma EdgePrepends(g: Graph, a: string, b: string, c: string)
    requires Edge(g, a, b) && Reaches(g, b, c)
    ensures Reaches(g, a, c)
  {
    var p: seq<string> :| PathBetween(g, b, c, p);
    assert PathBetween(g, a, c, [a] + p);
  }

  lemma ReachesItself(g: Graph, a: string)
    requires a in g
    ensures a in Reach(g, a) && |Reach(g, a)| > 0
  {
    assert PathBetween(g, a, a, [a]);
  }

  /** Following an edge never leads to more names; without cycles it leads to fewer. */
  lemma ReachGrows(g: Graph, a: string, b: string)
    requires Edge(g, a, b)
    ensures Reach(g, b) <= Reach(g, a)
    ensures HasCycle(g) || |Reach(g, b)| < |Reach(g, a)|
  {
    forall c | c in Reach(g, b)
      ensures c in Reach(g, a)
    {
      EdgePrepends(g, a, b, c);
    }
    if !HasCycle(g) {
      EdgeShrinksReach(g, a, b);
      SubsetSize(Reach(g, b), Reach(g, a));
    }
  }

  /** In an acyclic graph following an edge strictly shrinks what can still be reached. This is what
      makes the unguarded sort recursion terminate. */
  lemma EdgeShrinksReach(g: Graph, a: string, b: string)
    requires !HasCycle(g) && Edge(g, a, b)
    ensures Reach(g, b) < Reach(g, a)
    ensures a in Reach(g, a) && a !in Reach(g, b)
  {
    forall c | c in Reach(g, b)
      ensures c in Reach(g, a)
    {
      EdgePrepends(g, a, b, c);
    }
    assert PathBetween(g, a, a, [a]);
    if Reaches(g, b, a) {
      var p: seq<string> :| PathBetween(g, b, a, p);
      assert IsCycle(g, [a] + p);
    }
    assert a in Reach(g, a) && a !in Reach(g, b);
  }

  predicate Earlier(order: seq<string>, i: nat, b: string) {
    exists j :: 0 <= j < i && j < |order| && order[j] == b
  }

  /** `order` lists every node after all of its successors. */
  ghost predicate Closes(g: Graph, order: seq<string>) {
    forall i, b | 0 <= i < |order| && Edge(g, order[i], b) :: Earlier(order, i, b)
  }

  lemma ClosesAppend(g: Graph, order: seq<string>, a: string)
    requires Closes(g, order) && forall b | Edge(g, a, b) :: b in order
    ensures Closes(g, order + [a])
  {
    var longer := order + [a];
    forall i, b | 0 <= i < |longer| && Edge(g, longer[i], b)
      ensures Earlier(longer, i, b)
    {
      if i < |order| {
        assert Earlier(order, i, b);
      }
      var j :| 0 <= j < i && j < |order| && order[j] == b;
      assert longer[j] == b;
    }
  }

  function Index(s: seq<string>, x: string): (i: nat)
    requires x in s
    ensures i < |s| && s[i] == x && forall j | 0 <= j < i :: s[j] != x
  {
    if s[0] == x then 0 else 1 + Index(s[1..], x)
  }

  lemma {:induction false} PathDescends(g: Graph, order: seq<string>, p: seq<string>, j: nat)
    requires Closes(g, order) && IsPath(g, p) && j < |p| && p[0] in order
    ensures p[j] in order && Index(order, p[j]) + j <= Index(order, p[0])
  {
    if j > 0 {
      PathDescends(g, order, p, j - 1);
      var i := Index(order, p[j - 1]);
      assert Edge(g, order[i], p[j]);
      assert Earlier(order, i, p[j]);
    }
  }

  /** From a successor of a listed node no path leads back to it. */
  lemma NoWayBack(g: Graph, order: seq<string>, a: string, b: string)
    requires Closes(g, order) && a in order && Edge(g, a, b)
    ensures a !in Reach(g, b)
  {
    if Reaches(g, b, a) {
      var p: seq<string> :| PathBetween(g, b, a, p);
      var q := [a] + p;
      assert IsPath(g, q) && q[|p|] == a;
      PathDescends(g, order, q, |p|);
    }
  }

  /** A listing that closes every node rules out cycles. */
  lemma ClosedOrderMeansAcyclic(g: Graph, order: seq<string>)
    requires Closes(g, order) && forall a | a in g :: a in order
    ensures !HasCycle(g)
  {
    forall p | IsCycle(g, p)
      ensures false
    {
      PathDescends(g, order, p, |p| - 1);
    }
  }

  /** Two graphs with the same nodes and the same edges have the same cycles. */
  lemma SameEdgesSameCycles(g: Graph, h: Graph)
    requires g.Keys == h.Keys && forall a, b :: Edge(g, a, b) <==> Edge(h, a, b)
    ensures HasCycle(g) <==> HasCycle(h)
  {
    if HasCycle(g) {
      var p: seq<string> :| IsCycle(g, p);
      assert IsCycle(h, p);
    }
    if HasCycle(h) {
      var p: seq<string> :| IsCycle(h, p);
      assert IsCycle(g, p);
    }
  }
}
