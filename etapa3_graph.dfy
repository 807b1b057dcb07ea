/** The `Graph` class of `etapa3/Graph.hpp`: adjacency lists only, a constructor
    that refuses a vertex count of zero or less, an `addEdge` that ignores
    entries with an endpoint outside the graph, and a distance-only
    Floyd-Warshall whose first matrix keeps the cheapest of parallel entries. */
module Etapa3Graph {
  import opened Common
  import opened Adjacency
  import opened ShortestPaths

  /** The first matrix is symmetric. */
  ghost predicate SymmetricInit(adj: Adj)
  {
    forall a, b :: 0 <= a < |adj| && 0 <= b < |adj| ==> MinInit(adj)[a][b] == MinInit(adj)[b][a]
  }

  class Graph {
    const V: nat
    var adj: Adj
    /** No arc has been added so far: every entry has its mirror image. */
    ghost var allUndirected: bool

    ghost predicate Valid()
      reads this
    {
      V > 0 && ValidAdj(adj, V) && (allUndirected ==> SymmetricInit(adj))
    }

    /** `Graph(vertices)` for a positive count: `V` empty lists. */
    constructor(vertices: nat)
      requires vertices > 0
      ensures Valid() && V == vertices && adj == EmptyAdj(vertices) && allUndirected
    {
      V := vertices;
      adj := EmptyAdj(vertices);
      allUndirected := true;
    }

    /** `addEdge(u, v, cost, isDirected, isRequired)`: an endpoint outside
        `[0, V)` leaves the lists as they are; otherwise `u -> v` is appended,
        and for an edge also `v -> u`, both with the same cost and flag. */
    method AddEdge(u: int, v: int, cost: int, isDirected: bool, isRequired: bool)
      requires Valid()
      modifies this
      ensures Valid()
      ensures !(0 <= u < V && 0 <= v < V) ==> adj == old(adj)
      ensures 0 <= u < V && 0 <= v < V ==> adj == WithEdge(old(adj), u, v, cost, isDirected, isRequired)
      ensures 0 <= u < V && 0 <= v < V ==>
                TotalEntries(adj) == TotalEntries(old(adj)) + (if isDirected then 1 else 2)
    {
      if u < 0 || u >= V || v < 0 || v >= V {
        return;
      }
      WithEdgeEntries(adj, V, u, v, cost, isDirected, isRequired);
      if !isDirected && allUndirected {
        WithUndirectedEdgeSymmetric(adj, V, u, v, cost, isRequired);
      }
      allUndirected := allUndirected && !isDirected;
      adj := adj[u := adj[u] + [Edge(v, cost, isRequired)]];
      if !isDirected {
        adj := adj[v := adj[v] + [Edge(u, cost, isRequired)]];
      }
    }

    /** `numNodes`. */
    function NumNodes(): (n: nat)
      reads this
      requires Valid()
      ensures n == |adj| && n > 0
    {
      V
    }

    /** `floydWarshall`: the cheapest-entry first matrix, then the relaxation
        loops, which never add an infinite operand. With entry costs of at least
        zero the result is the table of cheapest walks, and a graph built from
        edges only gives a symmetric table. */
    method FloydWarshall() returns (dist: Matrix)
      requires Valid()
      ensures IsSquare(dist, V)
      ensures NonNegativeCosts(adj) ==> dist == Shortest(MinInit(adj))
      ensures NonNegativeCosts(adj) && allUndirected ==> Symmetric(dist)
    {
      var first := BuildMinInit(adj);
      if NonNegativeCosts(adj) {
        InitNonNegative(adj);
        if allUndirected {
          FwSymmetric(first, V);
        }
      }
      dist := RelaxAll(first);
    }
  }

  /** The throwing constructor: no graph for a count of zero or less. */
  method NewGraph(vertices: int) returns (r: Option<Graph>)
    ensures r.None? <==> vertices <= 0
    ensures r.Some? ==> fresh(r.value) && r.value.Valid() && r.value.V == vertices
                        && r.value.adj == EmptyAdj(vertices)
  {
    if vertices <= 0 {
      return None;
    }
    var g := new Graph(vertices);
    return Some(g);
  }
}
