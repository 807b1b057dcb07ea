/** The integer statistics of the graph, identical in `Graph.hpp` and
    `etapa1/Graph.hpp`: edge, arc and required counts, depth-first search and
    connected components, degree bounds and diameter. Each statistic is a
    loop over the adjacency lists or the flag matrices, proved equal to a
    counting function, and the counting functions are related to the graph
    operations that change them. */
module GraphStats {
  import opened Common
  import opened Adjacency
  import opened ShortestPaths

  // ---------------------------------------------------------------------------
  // Edges and arcs

  /** Entries of the list of node `i` that `numEdges` counts: every entry of a
      directed graph, and in an undirected one only the entries `i -> to` with
      `i < to`, so each undirected edge is counted from its smaller end. */
  function EdgesIn(es: seq<Edge>, i: int, directed: bool): nat
    decreases |es|
  {
    if es == [] then 0
    else EdgesIn(es[..|es| - 1], i, directed) + (if directed || i < es[|es| - 1].to then 1 else 0)
  }

  /** What `numEdges` counts over the lists of nodes `0 .. |adj|-1`. */
  function EdgeCount(adj: Adj, directed: bool): nat
    decreases |adj|
  {
    if adj == [] then 0
    else EdgeCount(adj[..|adj| - 1], directed) + EdgesIn(adj[|adj| - 1], |adj| - 1, directed)
  }

  lemma {:induction false} EdgesInBound(es: seq<Edge>, i: int, directed: bool)
    ensures EdgesIn(es, i, directed) <= |es|
    ensures directed ==> EdgesIn(es, i, directed) == |es|
    decreases |es|
  {
    if es != [] {
      EdgesInBound(es[..|es| - 1], i, directed);
    }
  }

  /** `numEdges` never exceeds `numArcs`, and equals it in a directed graph. */
  lemma {:induction false} EdgeCountBound(adj: Adj, directed: bool)
    ensures EdgeCount(adj, directed) <= TotalEntries(adj)
    ensures directed ==> EdgeCount(adj, directed) == TotalEntries(adj)
    decreases |adj|
  {
    if adj != [] {
      EdgeCountBound(adj[..|adj| - 1], directed);
      EdgesInBound(adj[|adj| - 1], |adj| - 1, directed);
    }
  }

  lemma EdgesInAppend(es: seq<Edge>, i: int, directed: bool, e: Edge)
    ensures EdgesIn(es + [e], i, directed)
            == EdgesIn(es, i, directed) + (if directed || i < e.to then 1 else 0)
  {
    assert (es + [e])[..|es|] == es;
  }

  lemma {:induction false} EdgeCountUpdate(adj: Adj, directed: bool, u: int, l: seq<Edge>)
    requires 0 <= u < |adj|
    ensures EdgeCount(adj[u := l], directed)
            == EdgeCount(adj, directed) - EdgesIn(adj[u], u, directed) + EdgesIn(l, u, directed)
    decreases |adj|
  {
    var last := |adj| - 1;
    assert adj[u := l][..last] == if u < last then adj[..last][u := l] else adj[..last];
    if u < last {
      EdgeCountUpdate(adj[..last], directed, u, l);
    }
  }

  /** In a graph that holds no arc, `numEdges` counts every new undirected edge
      between two distinct nodes once, and a self-loop not at all. */
  lemma UndirectedEdgeCountedOnce(adj: Adj, n: nat, u: int, v: int, cost: int, required: bool)
    requires ValidAdj(adj, n) && 0 <= u < n && 0 <= v < n
    ensures EdgeCount(WithEdge(adj, u, v, cost, false, required), false)
            == EdgeCount(adj, false) + (if u != v then 1 else 0)
  {
    var eu := Edge(v, cost, required);
    var ev := Edge(u, cost, required);
    var a := adj[u := adj[u] + [eu]];
    EdgeCountUpdate(adj, false, u, adj[u] + [eu]);
    EdgesInAppend(adj[u], u, false, eu);
    EdgeCountUpdate(a, false, v, a[v] + [ev]);
    EdgesInAppend(a[v], v, false, ev);
  }

  /** In a directed graph, `numEdges` counts an arc once and an undirected edge twice. */
  lemma DirectedEdgeCount(adj: Adj, n: nat, u: int, v: int, cost: int, isDirected: bool, required: bool)
    requires ValidAdj(adj, n) && 0 <= u < n && 0 <= v < n
    ensures EdgeCount(WithEdge(adj, u, v, cost, isDirected, required), true)
            == EdgeCount(adj, true) + (if isDirected then 1 else 2)
  {
    EdgeCountBound(adj, true);
    EdgeCountBound(WithEdge(adj, u, v, cost, isDirected, required), true);
    WithEdgeEntries(adj, n, u, v, cost, isDirected, required);
  }

  /** `numEdges`: the loop over every node and every entry of its list. */
  method NumEdges(adj: Adj, directed: bool) returns (count: nat)
    ensures count == EdgeCount(adj, directed)
  {
    count := 0;
    for i := 0 to |adj|
      invariant count == EdgeCount(adj[..i], directed)
    {
      var es := adj[i];
      for t := 0 to |es|
        invariant count == EdgeCount(adj[..i], directed) + EdgesIn(es[..t], i, directed)
      {
        assert es[..t + 1][..t] == es[..t];
        if directed || i < es[t].to {
          count := count + 1;
        }
      }
      assert es[..|es|] == es;
      assert adj[..i + 1][..i] == adj[..i];
    }
    assert adj[..|adj|] == adj;
  }

  /** `numArcs`: the sum of the list sizes, which is the number of stored entries. */
  method NumArcs(adj: Adj) returns (count: nat)
    ensures count == TotalEntries(adj)
  {
    count := 0;
    for i := 0 to |adj|
      invariant count == TotalEntries(adj[..i])
    {
      assert adj[..i + 1][..i] == adj[..i];
      count := count + |adj[i]|;
    }
    assert adj[..|adj|] == adj;
  }

  // ---------------------------------------------------------------------------
  // Required nodes, edges and arcs

  /** Number of `true` flags: `count(begin, end, true)`. */
  function CountTrue(s: seq<bool>): nat
    decreases |s|
  {
    if s == [] then 0 else CountTrue(s[..|s| - 1]) + (if s[|s| - 1] then 1 else 0)
  }

  lemma {:induction false} CountTrueSet(s: seq<bool>, u: int, b: bool)
    requires 0 <= u < |s|
    ensures CountTrue(s[u := b]) == CountTrue(s) - (if s[u] then 1 else 0) + (if b then 1 else 0)
    decreases |s|
  {
    var last := |s| - 1;
    assert s[u := b][..last] == if u < last then s[..last][u := b] else s[..last];
    if u < last {
      CountTrueSet(s[..last], u, b);
    }
  }

  lemma {:induction false} CountTrueBound(s: seq<bool>)
    ensures CountTrue(s) <= |s|
    ensures CountTrue(s) == |s| <==> forall t :: 0 <= t < |s| ==> s[t]
    decreases |s|
  {
    if s != [] {
      CountTrueBound(s[..|s| - 1]);
      assert forall t :: 0 <= t < |s| - 1 ==> s[..|s| - 1][t] == s[t];
    }
  }

  /** `setRequiredNode(u)` raises the count of required nodes by one exactly
      when `u` was not yet required. */
  lemma SetRequiredNodeCount(flags: seq<bool>, u: int)
    requires 0 <= u < |flags|
    ensures CountTrue(flags[u := true]) == CountTrue(flags) + (if flags[u] then 0 else 1)
  {
    CountTrueSet(flags, u, true);
  }

  /** `numRequiredNodes`. */
  method NumRequiredNodes(flags: seq<bool>) returns (count: nat)
    ensures count == CountTrue(flags)
  {
    count := 0;
    for i := 0 to |flags|
      invariant count == CountTrue(flags[..i])
    {
      assert flags[..i + 1][..i] == flags[..i];
      if flags[i] {
        count := count + 1;
      }
    }
    assert flags[..|flags|] == flags;
  }

  ghost predicate IsSquareFlags(req: seq<seq<bool>>, n: nat)
  {
    |req| == n && forall i :: 0 <= i < n ==> |req[i]| == n
  }

  /** Required arcs in the rows `0 .. |rows|-1`: the sum of their `true` flags. */
  function RequiredArcCount(rows: seq<seq<bool>>): nat
    decreases |rows|
  {
    if rows == [] then 0 else RequiredArcCount(rows[..|rows| - 1]) + CountTrue(rows[|rows| - 1])
  }

  lemma {:induction false} RequiredArcCountUpdate(rows: seq<seq<bool>>, u: int, row: seq<bool>)
    requires 0 <= u < |rows|
    ensures RequiredArcCount(rows[u := row])
            == RequiredArcCount(rows) - CountTrue(rows[u]) + CountTrue(row)
    decreases |rows|
  {
    var last := |rows| - 1;
    assert rows[u := row][..last] == if u < last then rows[..last][u := row] else rows[..last];
    if u < last {
      RequiredArcCountUpdate(rows[..last], u, row);
    }
  }

  /** Writing one flag `required[u][v] = b` moves the required-arc count by
      exactly the change of that one cell. */
  lemma SetRequiredArcCount(req: seq<seq<bool>>, n: nat, u: int, v: int, b: bool)
    requires IsSquareFlags(req, n) && 0 <= u < n && 0 <= v < n
    ensures RequiredArcCount(req[u := req[u][v := b]])
            == RequiredArcCount(req) - (if req[u][v] then 1 else 0) + (if b then 1 else 0)
  {
    RequiredArcCountUpdate(req, u, req[u][v := b]);
    CountTrueSet(req[u], v, b);
  }

  /** `numRequiredArcs`: every ordered pair `(i, j)` whose flag is set. */
  method NumRequiredArcs(req: seq<seq<bool>>, n: nat) returns (count: nat)
    requires IsSquareFlags(req, n)
    ensures count == RequiredArcCount(req)
  {
    count := 0;
    for i := 0 to n
      invariant count == RequiredArcCount(req[..i])
    {
      for j := 0 to n
        invariant count == RequiredArcCount(req[..i]) + CountTrue(req[i][..j])
      {
        assert req[i][..j + 1][..j] == req[i][..j];
        if req[i][j] {
          count := count + 1;
        }
      }
      assert req[i][..n] == req[i];
      assert req[..i + 1][..i] == req[..i];
    }
    assert req[..n] == req;
  }

  /** Whether the unordered pair `{i, j}` is required in either direction. */
  predicate EitherWay(req: seq<seq<bool>>, i: int, j: int)
    requires 0 <= i < |req| && 0 <= j < |req| && |req[i]| == |req| && |req[j]| == |req|
  {
    req[i][j] || req[j][i]
  }

  /** Number of `j` in `[lo, hi)` with `{i, j}` required in either direction. */
  function PairsFrom(req: seq<seq<bool>>, i: nat, lo: nat, hi: nat): nat
    requires IsSquareFlags(req, |req|) && i < |req| && hi <= |req|
    decreases hi
  {
    if hi <= lo then 0 else PairsFrom(req, i, lo, hi - 1) + (if EitherWay(req, i, hi - 1) then 1 else 0)
  }

  /** Required edges among the rows `0 .. m-1`: pairs `i < j` required either way. */
  function RequiredEdgeCount(req: seq<seq<bool>>, m: nat): nat
    requires IsSquareFlags(req, |req|) && m <= |req|
    decreases m
  {
    if m == 0 then 0 else RequiredEdgeCount(req, m - 1) + PairsFrom(req, m - 1, m, |req|)
  }

  lemma {:induction false} PairsFromTranspose(req: seq<seq<bool>>, t: seq<seq<bool>>, i: nat, lo: nat, hi: nat)
    requires IsSquareFlags(req, |req|) && IsSquareFlags(t, |req|) && i < |req| && hi <= |req|
    requires forall a, b :: 0 <= a < |req| && 0 <= b < |req| ==> t[a][b] == req[b][a]
    ensures PairsFrom(t, i, lo, hi) == PairsFrom(req, i, lo, hi)
    decreases hi
  {
    if hi > lo {
      PairsFromTranspose(req, t, i, lo, hi - 1);
    }
  }

  /** `numRequiredEdges` ignores direction: the transposed flag matrix (every
      arc reversed) has the same count. */
  lemma {:induction false} RequiredEdgeCountTranspose(req: seq<seq<bool>>, t: seq<seq<bool>>, m: nat)
    requires IsSquareFlags(req, |req|) && IsSquareFlags(t, |req|) && m <= |req|
    requires forall a, b :: 0 <= a < |req| && 0 <= b < |req| ==> t[a][b] == req[b][a]
    ensures RequiredEdgeCount(t, m) == RequiredEdgeCount(req, m)
    decreases m
  {
    if m > 0 {
      RequiredEdgeCountTranspose(req, t, m - 1);
      PairsFromTranspose(req, t, m - 1, m, |req|);
    }
  }

  lemma {:induction false} PairsFromBound(req: seq<seq<bool>>, i: nat, lo: nat, hi: nat)
    requires IsSquareFlags(req, |req|) && i < |req| && hi <= |req|
    ensures PairsFrom(req, i, lo, hi) <= if hi <= lo then 0 else hi - lo
    decreases hi
  {
    if hi > lo {
      PairsFromBound(req, i, lo, hi - 1);
    }
  }

  /** `numRequiredEdges`: the pairs `i < j` with either flag set. */
  method NumRequiredEdges(req: seq<seq<bool>>, n: nat) returns (count: nat)
    requires IsSquareFlags(req, n)
    ensures count == RequiredEdgeCount(req, n)
  {
    count := 0;
    for i := 0 to n
      invariant count == RequiredEdgeCount(req, i)
    {
      for j := i + 1 to n
        invariant count == RequiredEdgeCount(req, i) + PairsFrom(req, i, i + 1, j)
      {
        if req[i][j] || req[j][i] {
          count := count + 1;
        }
      }
    }
  }

  // ---------------------------------------------------------------------------
  // Depth-first search and connected components

  /** Some entry of `a`'s list points at `b`. */
  ghost predicate Adjacent(adj: Adj, a: int, b: int)
  {
    0 <= a < |adj| && exists e :: e in adj[a] && e.to == b
  }

  /** `p` is a walk along adjacency entries, starting at a node. */
  ghost predicate IsWalk(adj: Adj, p: seq<int>)
    decreases |p|
  {
    |p| >= 1 && 0 <= p[0] < |adj| && (|p| > 1 ==> Adjacent(adj, p[0], p[1]) && IsWalk(adj, p[1..]))
  }

  /** A sequence whose consecutive nodes are adjacent is a walk. */
  lemma {:induction false} ChainIsWalk(adj: Adj, p: seq<int>)
    requires |p| >= 1 && forall t :: 0 <= t < |p| ==> 0 <= p[t] < |adj|
    requires forall t :: 0 <= t < |p| - 1 ==> Adjacent(adj, p[t], p[t + 1])
    ensures IsWalk(adj, p)
    decreases |p|
  {
    if |p| > 1 {
      assert Adjacent(adj, p[0], p[1]);
      var q := p[1..];
      forall t | 0 <= t < |q| - 1 ensures Adjacent(adj, q[t], q[t + 1]) {
        assert q[t] == p[t + 1] && q[t + 1] == p[t + 2];
      }
      assert forall t :: 0 <= t < |q| ==> q[t] == p[t + 1];
      ChainIsWalk(adj, q);
    }
  }

  /** Some walk leads from `a` to `b` (every node reaches itself). */
  ghost predicate Reaches(adj: Adj, a: int, b: int)
  {
    exists p :: IsWalk(adj, p) && p[0] == a && p[|p| - 1] == b
  }

  /** Some node of `roots` reaches `a`. */
  ghost predicate ReachedFrom(adj: Adj, roots: seq<int>, a: int)
  {
    exists r :: 0 <= r < |roots| && Reaches(adj, roots[r], a)
  }

  lemma ReachesSelf(adj: Adj, a: int)
    requires 0 <= a < |adj|
    ensures Reaches(adj, a, a)
  {
    assert IsWalk(adj, [a]);
  }

  /** A walk from `b` can be extended backwards over an entry `a -> b`. */
  lemma ReachesThroughEntry(adj: Adj, a: int, e: Edge, c: int)
    requires 0 <= a < |adj| && e in adj[a] && Reaches(adj, e.to, c)
    ensures Reaches(adj, a, c)
  {
    var p :| IsWalk(adj, p) && p[0] == e.to && p[|p| - 1] == c;
    var q := [a] + p;
    assert q[1..] == p;
    assert IsWalk(adj, q);
  }

  /** A set of marks closed under the entries contains everything reachable
      from any marked node. */
  lemma {:induction false} ClosedContainsReach(adj: Adj, marks: seq<bool>, p: seq<int>)
    requires ValidAdj(adj, |marks|) && IsWalk(adj, p) && marks[p[0]]
    requires forall a, e :: 0 <= a < |marks| && marks[a] && e in adj[a] ==> marks[e.to]
    ensures 0 <= p[|p| - 1] < |marks| && marks[p[|p| - 1]]
    decreases |p|
  {
    if |p| > 1 {
      var e :| e in adj[p[0]] && e.to == p[1];
      ClosedContainsReach(adj, marks, p[1..]);
    }
  }

  /** Number of `false` flags: the nodes not yet visited. */
  function CountFalse(s: seq<bool>): nat
    decreases |s|
  {
    if s == [] then 0 else CountFalse(s[..|s| - 1]) + (if s[|s| - 1] then 0 else 1)
  }

  /** Marking more nodes never raises the number of unvisited ones, and marking
      `u` lowers it. */
  lemma {:induction false} CountFalseShrinks(s: seq<bool>, s': seq<bool>, u: int)
    requires |s| == |s'| && 0 <= u < |s| && !s[u] && s'[u]
    requires forall a :: 0 <= a < |s| && s[a] ==> s'[a]
    ensures CountFalse(s') < CountFalse(s)
    decreases |s|
  {
    var last := |s| - 1;
    if u < last {
      CountFalseShrinks(s[..last], s'[..last], u);
    } else {
      CountFalseMono(s[..last], s'[..last]);
    }
  }

  lemma {:induction false} CountFalseMono(s: seq<bool>, s': seq<bool>)
    requires |s| == |s'|
    requires forall a :: 0 <= a < |s| && s[a] ==> s'[a]
    ensures CountFalse(s') <= CountFalse(s)
    decreases |s|
  {
    if s != [] {
      CountFalseMono(s[..|s| - 1], s'[..|s| - 1]);
    }
  }

  /** `dfs(u, visited)`: marks `u`, then recurses into every entry of `u`'s list
      whose target is still unmarked. Marks are never removed, every node it marks
      is reachable from `u`, and every node it marks has all its successors
      marked when it returns. */
  method Dfs(adj: Adj, u: int, visited: array<bool>)
    requires ValidAdj(adj, visited.Length) && 0 <= u < visited.Length
    modifies visited
    ensures visited[u]
    ensures forall a :: 0 <= a < visited.Length && old(visited[a]) ==> visited[a]
    ensures forall a :: 0 <= a < visited.Length && !old(visited[a]) && visited[a] ==> Reaches(adj, u, a)
    ensures forall a, e :: 0 <= a < visited.Length && !old(visited[a]) && visited[a] && e in adj[a]
              ==> visited[e.to]
    decreases CountFalse(visited[..]) + (if visited[u] then 1 else 0), 1
  {
    var n := visited.Length;
    ghost var init := visited[..];
    visited[u] := true;
    ReachesSelf(adj, u);
    var es := adj[u];
    for t := 0 to |es|
      invariant visited[u]
      invariant forall a :: 0 <= a < n && init[a] ==> visited[a]
      invariant forall a :: 0 <= a < n && !init[a] && visited[a] ==> Reaches(adj, u, a)
      invariant forall b :: 0 <= b < t ==> visited[es[b].to]
      invariant forall a, e :: 0 <= a < n && a != u && !init[a] && visited[a] && e in adj[a]
                  ==> visited[e.to]
    {
      assert es[t] in adj[u];
      if !init[u] {
        CountFalseShrinks(init, visited[..], u);
      } else {
        CountFalseMono(init, visited[..]);
      }
      Follow(adj, u, es[t], visited);
    }
    forall a, e | 0 <= a < n && !init[a] && visited[a] && e in adj[a] ensures visited[e.to] {
      if a == u {
        var b :| 0 <= b < |es| && es[b] == e;
      }
    }
  }

  /** One pass of the loop of `dfs` over `u`'s list: recurse into the entry's
      target when it is still unmarked. */
  method Follow(adj: Adj, u: int, e: Edge, visited: array<bool>)
    requires ValidAdj(adj, visited.Length) && 0 <= u < visited.Length && e in adj[u]
    modifies visited
    ensures visited[e.to]
    ensures forall a :: 0 <= a < visited.Length && old(visited[a]) ==> visited[a]
    ensures forall a :: 0 <= a < visited.Length && !old(visited[a]) && visited[a] ==> Reaches(adj, u, a)
    ensures forall a, e' :: 0 <= a < visited.Length && !old(visited[a]) && visited[a] && e' in adj[a]
              ==> visited[e'.to]
    decreases CountFalse(visited[..]) + 1, 0
  {
    if !visited[e.to] {
      Dfs(adj, e.to, visited);
      forall a | 0 <= a < visited.Length && !old(visited[a]) && visited[a]
        ensures Reaches(adj, u, a)
      {
        ReachesThroughEntry(adj, u, e, a);
      }
    }
  }

  /** Every entry leaving a marked node points at a marked node. */
  ghost predicate Closed(adj: Adj, marks: seq<bool>)
    requires ValidAdj(adj, |marks|)
  {
    forall a, e :: 0 <= a < |marks| && marks[a] && e in adj[a] ==> marks[e.to]
  }

  /** Search roots in increasing order, below `bound`, none reaching a later one. */
  ghost predicate RootsApart(adj: Adj, roots: seq<int>, bound: int)
  {
    (forall r :: 0 <= r < |roots| ==> 0 <= roots[r] < bound)
    && forall r, s :: 0 <= r < s < |roots| ==> roots[r] < roots[s] && !Reaches(adj, roots[r], roots[s])
  }

  /** A node left unmarked by a closed marking is not reachable from any marked root,
      so it can become the next root. */
  lemma NewRoot(adj: Adj, marks: seq<bool>, roots: seq<int>, i: int)
    requires ValidAdj(adj, |marks|) && Closed(adj, marks) && 0 <= i < |marks| && !marks[i]
    requires RootsApart(adj, roots, i)
    requires forall r :: 0 <= r < |roots| ==> marks[roots[r]]
    ensures RootsApart(adj, roots + [i], i + 1)
  {
    forall r | 0 <= r < |roots| ensures !Reaches(adj, roots[r], i) {
      if Reaches(adj, roots[r], i) {
        var p :| IsWalk(adj, p) && p[0] == roots[r] && p[|p| - 1] == i;
        ClosedContainsReach(adj, marks, p);
      }
    }
  }

  /** What one `dfs(u, visited)` call did to the marks, as `Dfs` promises it. */
  ghost predicate Searched(adj: Adj, before: seq<bool>, after: seq<bool>, u: int)
  {
    |before| == |after| == |adj| && 0 <= u < |after| && after[u]
    && (forall a :: 0 <= a < |before| && before[a] ==> after[a])
    && (forall a :: 0 <= a < |after| && !before[a] && after[a] ==> Reaches(adj, u, a))
    && (forall a, e :: 0 <= a < |after| && !before[a] && after[a] && e in adj[a]
          ==> 0 <= e.to < |after| && after[e.to])
  }

  /** The state of `connectedComponents` before node `i` is looked at. */
  ghost predicate Scanned(adj: Adj, marks: seq<bool>, roots: seq<int>, i: int)
  {
    ValidAdj(adj, |marks|) && 0 <= i <= |marks| && |roots| <= i && (i > 0 ==> |roots| >= 1)
    && RootsApart(adj, roots, i)
    && (forall a :: 0 <= a < |marks| && marks[a] ==> ReachedFrom(adj, roots, a))
    && (forall a :: 0 <= a < i ==> marks[a])
    && (forall r :: 0 <= r < |roots| ==> marks[roots[r]])
    && Closed(adj, marks)
  }

  lemma ScannedStart(adj: Adj, marks: seq<bool>)
    requires ValidAdj(adj, |marks|) && forall a :: 0 <= a < |marks| ==> !marks[a]
    ensures Scanned(adj, marks, [], 0)
  {
  }

  /** A node already marked is skipped. */
  lemma ScannedSkip(adj: Adj, marks: seq<bool>, roots: seq<int>, i: int)
    requires Scanned(adj, marks, roots, i) && i < |marks| && marks[i]
    ensures Scanned(adj, marks, roots, i + 1)
  {
    RootsApartWider(adj, roots, i, i + 1);
    forall a | 0 <= a < i + 1
      ensures marks[a]
    {
      if a < i {
        assert 0 <= a < i;
      }
    }
  }

  lemma RootsApartWider(adj: Adj, roots: seq<int>, bound: int, bound': int)
    requires RootsApart(adj, roots, bound) && bound <= bound'
    ensures RootsApart(adj, roots, bound')
  {
  }

  /** An unmarked node becomes a new root, and the search from it keeps the state. */
  lemma ScannedSearch(adj: Adj, marks: seq<bool>, marks': seq<bool>, roots: seq<int>, i: int)
    requires Scanned(adj, marks, roots, i) && i < |marks| && !marks[i]
    requires Searched(adj, marks, marks', i)
    ensures Scanned(adj, marks', roots + [i], i + 1)
  {
    NewRoot(adj, marks, roots, i);
    SearchedClosed(adj, marks, marks', i);
    var roots' := roots + [i];
    forall a | 0 <= a < |marks'| && marks'[a] ensures ReachedFrom(adj, roots', a) {
      if !marks[a] {
        assert Reaches(adj, roots'[|roots|], a);
      } else {
        var r :| 0 <= r < |roots| && Reaches(adj, roots[r], a);
        assert Reaches(adj, roots'[r], a);
      }
    }
    forall a | 0 <= a < i + 1 ensures marks'[a] {
      if a < i {
        assert marks[a];
      }
    }
    forall r | 0 <= r < |roots'| ensures marks'[roots'[r]] {
      if r < |roots| {
        assert marks[roots[r]];
      }
    }
  }

  /** A search from an unmarked node of a closed marking leaves it closed. */
  lemma SearchedClosed(adj: Adj, marks: seq<bool>, marks': seq<bool>, i: int)
    requires ValidAdj(adj, |marks|) && Closed(adj, marks) && Searched(adj, marks, marks', i)
    ensures ValidAdj(adj, |marks'|) && Closed(adj, marks')
  {
    forall a, e | 0 <= a < |marks'| && marks'[a] && e in adj[a] ensures marks'[e.to] {
      if marks[a] {
        assert marks[e.to];
      }
    }
  }

  /** A call of `dfs` from `u`, its effect stated on the contents of `visited`. */
  method Search(adj: Adj, u: int, visited: array<bool>)
    requires ValidAdj(adj, visited.Length) && visited.Length == |adj| && 0 <= u < visited.Length
    modifies visited
    ensures Searched(adj, old(visited[..]), visited[..], u)
  {
    ghost var before := visited[..];
    Dfs(adj, u, visited);
    assert forall a :: 0 <= a < |before| ==> before[a] == old(visited[a]);
  }

  /** One pass of the loop of `connectedComponents`: a search from node `i` when
      it is still unmarked, which makes `i` a new root. */
  method Visit(adj: Adj, i: int, visited: array<bool>, ghost roots: seq<int>) returns (found: bool, ghost roots': seq<int>)
    requires visited.Length == |adj| && 0 <= i < |adj| && Scanned(adj, visited[..], roots, i)
    modifies visited
    ensures found == !old(visited[i])
    ensures roots' == if found then roots + [i] else roots
    ensures Scanned(adj, visited[..], roots', i + 1)
  {
    found := !visited[i];
    if found {
      ghost var before := visited[..];
      Search(adj, i, visited);
      ScannedSearch(adj, before, visited[..], roots, i);
      roots' := roots + [i];
    } else {
      ScannedSkip(adj, visited[..], roots, i);
      roots' := roots;
    }
  }

  /** `connectedComponents`: one depth-first search from every node still unmarked,
      counting the searches. The ghost `roots` are the nodes the searches started
      from: no root reaches a later one, and every node is reachable from some root,
      so in a graph whose entries come in both directions the count is the number
      of connected components. */
  method ConnectedComponents(adj: Adj) returns (count: nat, ghost roots: seq<int>)
    requires ValidAdj(adj, |adj|)
    ensures count == |roots| && count <= |adj| && (|adj| > 0 ==> count >= 1)
    ensures forall r :: 0 <= r < |roots| ==> 0 <= roots[r] < |adj|
    ensures forall r, s :: 0 <= r < s < |roots| ==> roots[r] < roots[s] && !Reaches(adj, roots[r], roots[s])
    ensures forall a :: 0 <= a < |adj| ==> ReachedFrom(adj, roots, a)
  {
    var n := |adj|;
    var visited := new bool[n](_ => false);
    count := 0;
    roots := [];
    ScannedStart(adj, visited[..]);
    for i := 0 to n
      invariant count == |roots|
      invariant Scanned(adj, visited[..], roots, i)
    {
      var found;
      found, roots := Visit(adj, i, visited, roots);
      if found {
        count := count + 1;
      }
    }
    ScannedAll(adj, visited[..], roots);
  }

  /** After the last node, the roots are the ones the result promises. */
  lemma ScannedAll(adj: Adj, marks: seq<bool>, roots: seq<int>)
    requires Scanned(adj, marks, roots, |marks|) && |marks| == |adj|
    ensures |roots| <= |adj| && (|adj| > 0 ==> |roots| >= 1)
    ensures forall r :: 0 <= r < |roots| ==> 0 <= roots[r] < |adj|
    ensures forall r, s :: 0 <= r < s < |roots| ==> roots[r] < roots[s] && !Reaches(adj, roots[r], roots[s])
    ensures forall a :: 0 <= a < |adj| ==> ReachedFrom(adj, roots, a)
  {
  }

  // ---------------------------------------------------------------------------
  // Degrees

  /** `minDegree`: `min` folded over the list sizes from `numeric_limits<int>::max()`. */
  function MinDegreeOf(adj: Adj): (r: int)
    ensures r <= IntMax
    ensures forall u :: 0 <= u < |adj| ==> r <= |adj[u]|
    ensures r == IntMax || exists u :: 0 <= u < |adj| && r == |adj[u]|
    decreases |adj|
  {
    if adj == [] then IntMax
    else
      var m := MinDegreeOf(adj[..|adj| - 1]);
      var d := |adj[|adj| - 1]|;
      assert forall u :: 0 <= u < |adj| - 1 ==> adj[..|adj| - 1][u] == adj[u];
      if d < m then d else m
  }

  /** `maxDegree`: `max` folded over the list sizes from 0. */
  function MaxDegreeOf(adj: Adj): (r: nat)
    ensures forall u :: 0 <= u < |adj| ==> |adj[u]| <= r
    ensures r == 0 || exists u :: 0 <= u < |adj| && r == |adj[u]|
    decreases |adj|
  {
    if adj == [] then 0
    else
      var m := MaxDegreeOf(adj[..|adj| - 1]);
      var d := |adj[|adj| - 1]|;
      assert forall u :: 0 <= u < |adj| - 1 ==> adj[..|adj| - 1][u] == adj[u];
      if m < d then d else m
  }

  /** With at least one node, the minimum degree is at most the maximum degree. */
  lemma MinDegreeAtMostMax(adj: Adj)
    requires |adj| > 0
    ensures MinDegreeOf(adj) <= MaxDegreeOf(adj)
  {
    assert MinDegreeOf(adj) <= |adj[0]| <= MaxDegreeOf(adj);
  }

  method MinDegree(adj: Adj) returns (minDeg: int)
    ensures minDeg == MinDegreeOf(adj)
  {
    minDeg := IntMax;
    for i := 0 to |adj|
      invariant minDeg == MinDegreeOf(adj[..i])
    {
      assert adj[..i + 1][..i] == adj[..i];
      if |adj[i]| < minDeg {
        minDeg := |adj[i]|;
      }
    }
    assert adj[..|adj|] == adj;
  }

  method MaxDegree(adj: Adj) returns (maxDeg: nat)
    ensures maxDeg == MaxDegreeOf(adj)
  {
    maxDeg := 0;
    for i := 0 to |adj|
      invariant maxDeg == MaxDegreeOf(adj[..i])
    {
      assert adj[..i + 1][..i] == adj[..i];
      if maxDeg < |adj[i]| {
        maxDeg := |adj[i]|;
      }
    }
    assert adj[..|adj|] == adj;
  }

  // ---------------------------------------------------------------------------
  // Diameter

  /** `diameter`: the largest finite cell of a distance matrix, or 0 when no cell
      is finite or none is positive. */
  method Diameter(dist: Matrix) returns (dia: int)
    requires IsSquare(dist, |dist|)
    ensures dia >= 0
    ensures forall i, j :: 0 <= i < |dist| && 0 <= j < |dist| && dist[i][j].Fin? ==> dist[i][j].value <= dia
    ensures dia == 0 || exists i, j :: 0 <= i < |dist| && 0 <= j < |dist| && dist[i][j] == Fin(dia)
  {
    var n := |dist|;
    dia := 0;
    for i := 0 to n
      invariant dia >= 0
      invariant forall a, b :: 0 <= a < i && 0 <= b < n && dist[a][b].Fin? ==> dist[a][b].value <= dia
      invariant dia == 0 || exists a, b :: 0 <= a < n && 0 <= b < n && dist[a][b] == Fin(dia)
    {
      for j := 0 to n
        invariant dia >= 0
        invariant forall a, b :: 0 <= a < i && 0 <= b < n && dist[a][b].Fin? ==> dist[a][b].value <= dia
        invariant forall b :: 0 <= b < j && dist[i][b].Fin? ==> dist[i][b].value <= dia
        invariant dia == 0 || exists a, b :: 0 <= a < n && 0 <= b < n && dist[a][b] == Fin(dia)
      {
        if dist[i][j].Fin? && dia < dist[i][j].value {
          dia := dist[i][j].value;
        }
      }
    }
  }
}
