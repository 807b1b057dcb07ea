/** The `Graph` class of `Graph.hpp` at the top of the repository: adjacency
    lists, required flags for nodes and for ordered node pairs, a `directed`
    flag, and a distance-only Floyd-Warshall whose first matrix keeps the
    cheapest of parallel entries. Its statistics are the shared ones of
    `GraphStats`. */
module RootGraph {
  import opened Common
  import opened Adjacency
  import opened ShortestPaths
  import opened GraphStats

  /** `required` after `required[u][v] = flag` and, for an undirected edge, also
      `required[v][u] = flag`. */
  function FlagsAfter(req: seq<seq<bool>>, u: int, v: int, isDirected: bool, flag: bool): seq<seq<bool>>
    requires 0 <= u < |req| && 0 <= v < |req| && |req[u]| == |req| && |req[v]| == |req|
  {
    var r := req[u := req[u][v := flag]];
    if isDirected then r else r[v := r[v][u := flag]]
  }

  /** A matrix of `n` by `n` false flags. */
  function NoFlags(n: nat): (r: seq<seq<bool>>)
    ensures |r| == n && forall i :: 0 <= i < n ==> r[i] == seq(n, _ => false)
  {
    seq(n, _ => seq(n, _ => false))
  }

  class Graph {
    const V: nat
    var adj: Adj
    var requiredNodes: seq<bool>
    var required: seq<seq<bool>>
    var directed: bool

    ghost predicate Valid()
      reads this
    {
      ValidAdj(adj, V) && |requiredNodes| == V && IsSquareFlags(required, V)
    }

    /** `Graph(vertices, isDirected)`: `V` empty lists, no required node, no
        required pair. A negative count makes the C++ `resize` throw, so the count
        is a `nat` here. */
    constructor(vertices: nat, isDirected: bool)
      ensures Valid() && V == vertices && directed == isDirected
      ensures adj == EmptyAdj(vertices)
      ensures requiredNodes == seq(vertices, _ => false) && required == NoFlags(vertices)
    {
      V := vertices;
      adj := EmptyAdj(vertices);
      requiredNodes := seq(vertices, _ => false);
      required := NoFlags(vertices);
      directed := isDirected;
    }

    /** `addEdge(u, v, cost, isDirected, isRequired)`: the graph becomes directed
        once an arc is added and never reverts; the entry `u -> v` is appended and
        `required[u][v]` overwritten, and an undirected edge also appends `v -> u`
        and overwrites `required[v][u]`. The C++ code does not check the
        endpoints, so they must be nodes. */
    method AddEdge(u: int, v: int, cost: int, isDirected: bool, isRequired: bool)
      requires Valid() && 0 <= u < V && 0 <= v < V
      modifies this
      ensures Valid()
      ensures directed == (old(directed) || isDirected)
      ensures adj == WithEdge(old(adj), u, v, cost, isDirected, isRequired)
      ensures required == FlagsAfter(old(required), u, v, isDirected, isRequired)
      ensures requiredNodes == old(requiredNodes)
      ensures TotalEntries(adj) == TotalEntries(old(adj)) + (if isDirected then 1 else 2)
    {
      WithEdgeEntries(adj, V, u, v, cost, isDirected, isRequired);
      directed := directed || isDirected;
      adj := adj[u := adj[u] + [Edge(v, cost, isRequired)]];
      required := required[u := required[u][v := isRequired]];
      if !isDirected {
        adj := adj[v := adj[v] + [Edge(u, cost, isRequired)]];
        required := required[v := required[v][u := isRequired]];
      }
    }

    /** `setRequiredNode(u)`: the count of required nodes grows by one exactly
        when `u` was not yet required. */
    method SetRequiredNode(u: int)
      requires Valid() && 0 <= u < V
      modifies this
      ensures Valid()
      ensures requiredNodes == old(requiredNodes)[u := true]
      ensures CountTrue(requiredNodes) == CountTrue(old(requiredNodes)) + (if old(requiredNodes)[u] then 0 else 1)
      ensures adj == old(adj) && required == old(required) && directed == old(directed)
    {
      SetRequiredNodeCount(requiredNodes, u);
      requiredNodes := requiredNodes[u := true];
    }

    /** `numNodes`. */
    function NumNodes(): (n: nat)
      reads this
      requires Valid()
      ensures n == |adj|
    {
      V
    }

    /** `floydWarshall`: the cheapest-entry first matrix, then the relaxation
        loops. With entry costs of at least zero the result is the table of
        cheapest walks. */
    method FloydWarshall() returns (dist: Matrix)
      requires Valid()
      ensures IsSquare(dist, V)
      ensures NonNegativeCosts(adj) ==> dist == Shortest(MinInit(adj))
    {
      var first := BuildMinInit(adj);
      if NonNegativeCosts(adj) {
        InitNonNegative(adj);
      }
      dist := RelaxAll(first);
    }
  }
}
