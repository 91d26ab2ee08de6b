/** The two depth-first cycle detectors. */
module CycleSearch {
  // The mission builder's detector keeps every entered node in `visited` and the open ones
  // in `inStack`; the supervisor's moves a node from `temp` to `perm` when it closes.

  import opened Digraph

  /** A set of finished nodes: closed under edges, and none lies on a cycle. */
  ghost predicate Finished(g: Graph, nodes: set<Node>) {
    && (forall u, v :: u in nodes && Edge(g, u, v) ==> v in nodes)
    && (forall u :: u in nodes ==> !Reaches(g, u, u))
  }

  lemma EndsInside(g: Graph, nodes: set<Node>, n: Node, p: seq<Node>)
    requires Finished(g, nodes)
    requires forall v :: Edge(g, n, v) ==> v in nodes
    requires p != [] && Leads(g, p, n, p[|p| - 1])
    ensures p[|p| - 1] in nodes
  {
    assert Edge(g, p[0], p[1]);
    ClosedUnderPaths(g, nodes, p[1..]);
    assert p[1..][|p| - 2] == p[|p| - 1];
  }

  /** A node whose dependencies are all finished can be finished too. */
  lemma FinishNode(g: Graph, nodes: set<Node>, n: Node)
    requires Finished(g, nodes) && n !in nodes
    requires forall v :: Edge(g, n, v) ==> v in nodes
    ensures Finished(g, nodes + {n})
  {
    if Reaches(g, n, n) {
      var p :| Leads(g, p, n, n);
      EndsInside(g, nodes, n, p);
      assert false;
    }
  }

  lemma AllFinishedMeansAcyclic(g: Graph, nodes: set<Node>)
    requires Finished(g, nodes) && g.Keys <= nodes
    ensures !Cyclic(g)
  {
    forall n, p | Leads(g, p, n, n) ensures n in nodes {
      assert Edge(g, p[0], p[1]);
    }
  }

  class BuilderSearch {
    const graph: Graph
    var visited: set<Node>
    var inStack: set<Node>

    constructor (graph: Graph)
      ensures this.graph == graph && visited == {} && inStack == {}
    {
      this.graph := graph;
      visited, inStack := {}, {};
    }

    ghost predicate Valid()
      reads this
    {
      && inStack <= visited <= Universe(graph)
      && Finished(graph, visited - inStack)
    }

    method Dfs(node: Node) returns (found: bool)
      requires Valid() && node in Universe(graph)
      requires forall s :: s in inStack ==> Reaches(graph, s, node)
      modifies this
      ensures found ==> Cyclic(graph)
      ensures !found ==> Valid() && inStack == old(inStack) && node in visited - inStack
      ensures old(visited) <= visited
      decreases Universe(graph) - visited
    {
      if node in inStack {
        return true;
      }
      if node in visited {
        return false;
      }
      ghost var finished := visited - inStack;
      visited := visited + {node};
      inStack := inStack + {node};
      assert visited - inStack == finished;
      var neighbours := if node in graph then graph[node] else [];
      for i := 0 to |neighbours|
        invariant Valid() && inStack == old(inStack) + {node} && old(visited) + {node} <= visited
        invariant forall k :: 0 <= k < i ==> neighbours[k] in visited - inStack
      {
        var next := neighbours[i];
        EdgeReaches(graph, node, next);
        forall s | s in inStack ensures Reaches(graph, s, next) {
          if s != node {
            ReachesThenEdge(graph, s, node, next);
          }
        }
        var deeper := Dfs(next);
        if deeper {
          return true;
        }
      }
      FinishNode(graph, visited - inStack, node);
      assert visited - (inStack - {node}) == (visited - inStack) + {node};
      inStack := inStack - {node};
      return false;
    }
  }

  /** The builder's detector answers true exactly on graphs with a cycle. `keys` is
      the order in which the graph's keys happen to be visited. */
  method BuilderHasCycle(graph: Graph, keys: seq<Node>) returns (found: bool)
    requires forall k :: k in keys <==> k in graph
    ensures found <==> Cyclic(graph)
  {
    var search := new BuilderSearch(graph);
    for i := 0 to |keys|
      invariant search.graph == graph && search.Valid() && search.inStack == {}
      invariant forall k :: 0 <= k < i ==> keys[k] in search.visited
    {
      if keys[i] !in search.visited {
        var deeper := search.Dfs(keys[i]);
        if deeper {
          return true;
        }
      }
    }
    AllFinishedMeansAcyclic(graph, search.visited - search.inStack);
    return false;
  }

  class SupervisorSearch {
    const graph: Graph
    var temp: set<Node>
    var perm: set<Node>

    constructor (graph: Graph)
      ensures this.graph == graph && temp == {} && perm == {}
    {
      this.graph := graph;
      temp, perm := {}, {};
    }

    ghost predicate Valid()
      reads this
    {
      temp !! perm && temp + perm <= Universe(graph) && Finished(graph, perm)
    }

    method Visit(n: Node) returns (found: bool)
      requires Valid() && n in Universe(graph)
      requires forall s :: s in temp ==> Reaches(graph, s, n)
      modifies this
      ensures found ==> Cyclic(graph)
      ensures !found ==> Valid() && temp == old(temp) && n in perm
      ensures old(temp + perm) <= temp + perm
      decreases Universe(graph) - (temp + perm)
    {
      if n in perm {
        return false;
      }
      if n in temp {
        return true;
      }
      temp := temp + {n};
      var neighbours := if n in graph then graph[n] else [];
      for i := 0 to |neighbours|
        invariant Valid() && temp == old(temp) + {n} && old(perm) <= perm
        invariant forall k :: 0 <= k < i ==> neighbours[k] in perm
      {
        var next := neighbours[i];
        EdgeReaches(graph, n, next);
        forall s | s in temp ensures Reaches(graph, s, next) {
          if s != n {
            ReachesThenEdge(graph, s, n, next);
          }
        }
        var deeper := Visit(next);
        if deeper {
          return true;
        }
      }
      FinishNode(graph, perm, n);
      temp := temp - {n};
      perm := perm + {n};
      return false;
    }
  }

  /** The supervisor's detector answers true exactly on graphs with a cycle. */
  method SupervisorHasCycle(graph: Graph, keys: seq<Node>) returns (found: bool)
    requires forall k :: k in keys <==> k in graph
    ensures found <==> Cyclic(graph)
  {
    var search := new SupervisorSearch(graph);
    for i := 0 to |keys|
      invariant search.graph == graph && search.Valid() && search.temp == {}
      invariant forall k :: 0 <= k < i ==> keys[k] in search.perm
    {
      var deeper := search.Visit(keys[i]);
      if deeper {
        return true;
      }
    }
    AllFinishedMeansAcyclic(graph, search.perm);
    return false;
  }
}
