/** Depth-first cycle detection over the declared dependencies. */
module CycleDetection {
  import opened Basics
  import opened Graphs
  import opened Templates

  /** The closure state of the detector: the dictionary it walks and its two sets. */
  class Detector {
    const graph: map<string, seq<string>>
    var visited: set<string>
    var active: set<string>

    // The nodes of `active` in call order, and the nodes of `visited` in the order they finished.
    ghost var stack: seq<string>
    ghost var finished: seq<string>

    constructor (graph: map<string, seq<string>>)
      ensures this.graph == graph && visited == {} && active == {} && stack == [] && Valid()
    {
      this.graph := graph;
      visited, active, stack, finished := {}, {}, [], [];
    }

    ghost function Edges(): Graph {
      map k | k in graph :: Members(graph[k])
    }

    ghost predicate Valid()
      reads this
    {
      && active == Members(stack)
      && visited == Members(finished)
      && (stack != [] ==> IsPath(Edges(), stack))
      && Closes(Edges(), finished)
    }

    /** Raises when `node` is on the call path; otherwise finishes `node` and leaves `active` as it was. */
    method Visit(node: string) returns (raised: bool)
      requires Valid() && node in graph
      requires stack != [] ==> Edge(Edges(), stack[|stack| - 1], node)
      modifies this
      ensures raised ==> HasCycle(Edges())
      ensures !raised ==> Valid() && stack == old(stack) && active == old(active)
      ensures !raised ==> old(visited) <= visited && node in visited
      decreases graph.Keys - active
    {
      if node in active {
        ghost var i := Index(stack, node);
        assert IsCycle(Edges(), stack[i..] + [node]);
        return true;
      }
      if node in visited {
        return false;
      }
      active := active + {node};
      stack := stack + [node];
      var deps := graph[node];
      for k := 0 to |deps|
        invariant Valid() && stack == old(stack) + [node] && active == old(active) + {node}
        invariant old(visited) <= visited
        invariant forall j | 0 <= j < k && deps[j] in graph :: deps[j] in visited
      {
        if deps[k] in graph {
          var failed := Visit(deps[k]);
          if failed {
            return true;
          }
        }
      }
      active := active - {node};
      stack := stack[..|stack| - 1];
      assert stack == old(stack);
      ClosesAppend(Edges(), finished, node);
      visited := visited + {node};
      finished := finished + [node];
      return false;
    }
  }

  /** Raises exactly when the declared graph, restricted to calculated names, has a cycle. */
  method DetectFormulaCycles(defs: seq<CalculatedDefinition>) returns (raised: bool)
    ensures raised <==> HasCycle(DeclaredGraph(defs))
  {
    var items := Items(defs);
    var graph := map k | k in items :: items[k].dependsOn;
    var detector := new Detector(graph);
    assert detector.Edges() == DeclaredGraph(defs);
    // Iterating over the definitions visits the dictionary keys; a repeated name is already visited.
    for i := 0 to |defs|
      invariant detector.Valid() && detector.stack == []
      invariant fresh(detector)
      invariant forall j | 0 <= j < i :: defs[j].name in detector.visited
    {
      assert defs[i].name in NamesIn(defs);
      var failed := detector.Visit(defs[i].name);
      if failed {
        return true;
      }
    }
    forall k | k in DeclaredGraph(defs)
      ensures k in detector.finished
    {
      var j :| 0 <= j < |defs| && defs[j].name == k;
    }
    ClosedOrderMeansAcyclic(DeclaredGraph(defs), detector.finished);
    return false;
  }
}
