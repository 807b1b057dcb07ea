/** Adjacency lists, as the three generations of `Graph` keep them, and the
    first matrix each `floydWarshall` builds from them. */
module Adjacency {
  import opened Common

  /** One directed entry of an adjacency list: `{to, cost, required}`. */
  datatype Edge = Edge(to: int, cost: int, required: bool)

  /** `vector<list<Edge>>`: one list of outgoing entries per node. */
  type Adj = seq<seq<Edge>>

  /** Every entry of `adj` points at a node of `[0, n)`. */
  ghost predicate ValidAdj(adj: Adj, n: nat)
  {
    |adj| == n && forall u, e :: 0 <= u < n && e in adj[u] ==> 0 <= e.to < n
  }

  /** Every entry of `adj` has a cost of at least zero. */
  ghost predicate NonNegativeCosts(adj: Adj)
  {
    forall u, e :: 0 <= u < |adj| && e in adj[u] ==> e.cost >= 0
  }

  /** `n` empty lists: the adjacency of a freshly built graph. */
  function EmptyAdj(n: nat): (adj: Adj)
    ensures ValidAdj(adj, n) && NonNegativeCosts(adj)
    ensures forall u :: 0 <= u < n ==> adj[u] == []
  {
    seq(n, _ => [])
  }

  /** The adjacency after `addEdge(u, v, cost, isDirected, isRequired)`: the entry
      `u -> v` is appended to `adj[u]` and, for an undirected edge, the entry
      `v -> u` with the same cost and flag is appended to `adj[v]`. */
  function WithEdge(adj: Adj, u: int, v: int, cost: int, directed: bool, required: bool): Adj
    requires 0 <= u < |adj| && 0 <= v < |adj|
  {
    var a := adj[u := adj[u] + [Edge(v, cost, required)]];
    if directed then a else a[v := a[v] + [Edge(u, cost, required)]]
  }

  /** Total number of adjacency entries. */
  function TotalEntries(adj: Adj): nat
  {
    if adj == [] then 0 else TotalEntries(adj[..|adj| - 1]) + |adj[|adj| - 1]|
  }

  lemma {:induction false} TotalEntriesUpdate(adj: Adj, u: int, l: seq<Edge>)
    requires 0 <= u < |adj|
    ensures TotalEntries(adj[u := l]) == TotalEntries(adj) - |adj[u]| + |l|
    decreases |adj|
  {
    var last := |adj| - 1;
    assert adj[u := l][..last] == if u < last then adj[..last][u := l] else adj[..last];
    if u < last {
      TotalEntriesUpdate(adj[..last], u, l);
    }
  }

  /** `addEdge` stores one entry for an arc and two for an edge, and keeps every
      entry in range. */
  lemma WithEdgeEntries(adj: Adj, n: nat, u: int, v: int, cost: int, directed: bool, required: bool)
    requires ValidAdj(adj, n) && 0 <= u < n && 0 <= v < n
    ensures ValidAdj(WithEdge(adj, u, v, cost, directed, required), n)
    ensures TotalEntries(WithEdge(adj, u, v, cost, directed, required))
            == TotalEntries(adj) + (if directed then 1 else 2)
  {
    var a := adj[u := adj[u] + [Edge(v, cost, required)]];
    TotalEntriesUpdate(adj, u, adj[u] + [Edge(v, cost, required)]);
    if !directed {
      TotalEntriesUpdate(a, v, a[v] + [Edge(u, cost, required)]);
    }
  }

  /** Folding `dist[u][to] = min(cost, dist[u][to])` over the entries `es` of one
      list, for the column `v`, starting from `base`. */
  function MinOver(es: seq<Edge>, v: int, base: Cost): Cost
    decreases |es|
  {
    if es == [] then base
    else
      var c := MinOver(es[..|es| - 1], v, base);
      var e := es[|es| - 1];
      if e.to == v then Min(Fin(e.cost), c) else c
  }

  /** Folding `dist[u][to] = cost` over the entries `es`, for the column `v`:
      the last entry towards `v` wins. */
  function LastOver(es: seq<Edge>, v: int, base: Cost): Cost
    decreases |es|
  {
    if es == [] then base
    else
      var e := es[|es| - 1];
      if e.to == v then Fin(e.cost) else LastOver(es[..|es| - 1], v, base)
  }

  /** Whether some entry of `es` points at `v`. */
  predicate HasEntryTo(es: seq<Edge>, v: int)
  {
    exists e :: e in es && e.to == v
  }

  lemma HasEntryToAppend(es: seq<Edge>, e: Edge, v: int)
    ensures HasEntryTo(es + [e], v) <==> HasEntryTo(es, v) || e.to == v
  {
    if HasEntryTo(es + [e], v) && e.to != v {
      var x :| x in es + [e] && x.to == v;
      assert x in es;
    }
    if HasEntryTo(es, v) {
      var x :| x in es && x.to == v;
      assert x in es + [e];
    }
  }

  /** The cell `dist[u][v]` before any entry is read: 0 on the diagonal, infinite elsewhere. */
  function Base(u: int, v: int): Cost
  {
    if u == v then Fin(0) else Inf
  }

  /** The first matrix of `Graph.hpp` and `etapa3/Graph.hpp`: the diagonal is 0 and
      parallel entries keep the cheapest cost. */
  function MinInit(adj: Adj): seq<seq<Cost>>
  {
    seq(|adj|, u requires 0 <= u < |adj| => seq(|adj|, v => MinOver(adj[u], v, Base(u, v))))
  }

  /** The first matrix of `etapa1/Graph.hpp`: the diagonal is 0 and then every
      entry overwrites its cell, so the last parallel entry wins. */
  function LastInit(adj: Adj): seq<seq<Cost>>
  {
    seq(|adj|, u requires 0 <= u < |adj| => seq(|adj|, v => LastOver(adj[u], v, Base(u, v))))
  }

  /** The first predecessor matrix of `etapa1/Graph.hpp`: `u` on the diagonal and
      wherever an entry `u -> v` exists, -1 elsewhere. */
  function PredInit(adj: Adj): seq<seq<int>>
  {
    seq(|adj|, u requires 0 <= u < |adj| => seq(|adj|, v => if u == v || HasEntryTo(adj[u], v) then u else -1))
  }

  /** The minimum over parallel entries: the fold is never above the starting value
      nor above any entry towards `v`, and it is one of them. */
  lemma {:induction false} MinOverIsMinimum(es: seq<Edge>, v: int, base: Cost)
    ensures LessEq(MinOver(es, v, base), base)
    ensures forall e :: e in es && e.to == v ==> LessEq(MinOver(es, v, base), Fin(e.cost))
    ensures MinOver(es, v, base) == base
            || exists e :: e in es && e.to == v && MinOver(es, v, base) == Fin(e.cost)
    decreases |es|
  {
    if es != [] {
      var init := es[..|es| - 1];
      MinOverIsMinimum(init, v, base);
      assert es == init + [es[|es| - 1]];
      forall e | e in es && e.to == v
        ensures LessEq(MinOver(es, v, base), Fin(e.cost))
      {
        if e != es[|es| - 1] {
          assert e in init;
        }
      }
      var c := MinOver(init, v, base);
      if c != base {
        var e :| e in init && e.to == v && c == Fin(e.cost);
        assert e in es;
      }
    }
  }

  /** The last entry wins: with an entry towards `v` the fold is the cost of the
      last such entry, without one it is the starting value. */
  lemma {:induction false} LastOverIsLast(es: seq<Edge>, v: int, base: Cost)
    ensures !HasEntryTo(es, v) ==> LastOver(es, v, base) == base
    ensures forall i :: 0 <= i < |es| && es[i].to == v
              && (forall j :: i < j < |es| ==> es[j].to != v)
              ==> LastOver(es, v, base) == Fin(es[i].cost)
    decreases |es|
  {
    if es != [] {
      var init := es[..|es| - 1];
      LastOverIsLast(init, v, base);
      if !HasEntryTo(es, v) {
        assert !HasEntryTo(init, v) by {
          forall e | e in init ensures e.to != v { assert e in es; }
        }
      }
      forall i | 0 <= i < |es| && es[i].to == v && (forall j :: i < j < |es| ==> es[j].to != v)
        ensures LastOver(es, v, base) == Fin(es[i].cost)
      {
        if i < |es| - 1 {
          assert init[i] == es[i];
          assert forall j :: i < j < |init| ==> init[j] == es[j];
        }
      }
    }
  }

  /** The fold from the last entry is finite exactly when it starts finite or some
      entry points at `v`. */
  lemma {:induction false} LastOverFinite(es: seq<Edge>, v: int, base: Cost)
    ensures LastOver(es, v, base).Fin? <==> base.Fin? || HasEntryTo(es, v)
    decreases |es|
  {
    if es != [] {
      var init := es[..|es| - 1];
      LastOverFinite(init, v, base);
      assert es == init + [es[|es| - 1]];
      if HasEntryTo(es, v) && es[|es| - 1].to != v {
        var e :| e in es && e.to == v;
        assert e in init;
      }
      if HasEntryTo(init, v) {
        var e :| e in init && e.to == v;
        assert e in es;
      }
    }
  }

  /** With costs of at least zero, every cell of the first matrix is infinite or at least zero. */
  lemma {:induction false} MinOverNonNegative(es: seq<Edge>, v: int, base: Cost)
    requires forall e :: e in es ==> e.cost >= 0
    requires base.Fin? ==> base.value >= 0
    ensures MinOver(es, v, base).Fin? ==> MinOver(es, v, base).value >= 0
    decreases |es|
  {
    if es != [] {
      var init := es[..|es| - 1];
      assert forall e :: e in init ==> e in es;
      MinOverNonNegative(init, v, base);
    }
  }

  /** Same as MinOverNonNegative for the last-entry-wins fold. */
  lemma {:induction false} LastOverNonNegative(es: seq<Edge>, v: int, base: Cost)
    requires forall e :: e in es ==> e.cost >= 0
    requires base.Fin? ==> base.value >= 0
    ensures LastOver(es, v, base).Fin? ==> LastOver(es, v, base).value >= 0
    decreases |es|
  {
    if es != [] {
      var init := es[..|es| - 1];
      assert forall e :: e in init ==> e in es;
      LastOverNonNegative(init, v, base);
    }
  }

  /** With costs of at least zero, the diagonal of the min-fold matrix stays 0 even
      when self-loops exist. */
  lemma MinInitDiagonal(adj: Adj, u: int)
    requires NonNegativeCosts(adj) && 0 <= u < |adj|
    ensures MinInit(adj)[u][u] == Fin(0)
  {
    MinOverIsMinimum(adj[u], u, Fin(0));
    MinOverNonNegative(adj[u], u, Fin(0));
  }

  /** Folding one more entry towards `v` into both `adj[u]` and `adj[v]` with the
      same cost keeps the two folds equal: the reason undirected edges keep the
      first matrix symmetric. */
  lemma MinOverAppend(es: seq<Edge>, v: int, base: Cost, e: Edge)
    ensures MinOver(es + [e], v, base)
            == if e.to == v then Min(Fin(e.cost), MinOver(es, v, base)) else MinOver(es, v, base)
  {
    assert (es + [e])[..|es + [e]| - 1] == es;
  }

  /** A symmetric first matrix stays symmetric when an undirected edge is added. */
  lemma WithUndirectedEdgeSymmetric(adj: Adj, n: nat, u: int, v: int, cost: int, required: bool)
    requires ValidAdj(adj, n) && 0 <= u < n && 0 <= v < n
    requires forall a, b :: 0 <= a < n && 0 <= b < n ==> MinInit(adj)[a][b] == MinInit(adj)[b][a]
    ensures var adj' := WithEdge(adj, u, v, cost, false, required);
            forall a, b :: 0 <= a < n && 0 <= b < n ==> MinInit(adj')[a][b] == MinInit(adj')[b][a]
  {
    var adj' := WithEdge(adj, u, v, cost, false, required);
    var eu := Edge(v, cost, required);
    var ev := Edge(u, cost, required);
    forall a, b | 0 <= a < n && 0 <= b < n
      ensures MinInit(adj')[a][b] == MinInit(adj')[b][a]
    {
      assert MinInit(adj)[a][b] == MinInit(adj)[b][a];
      assert MinInit(adj')[a][b] == MinOver(adj'[a], b, Base(a, b));
      assert MinInit(adj')[b][a] == MinOver(adj'[b], a, Base(b, a));
      assert Base(a, b) == Base(b, a);
      if u == v {
        assert adj'[u] == adj[u] + [eu] + [ev];
        MinOverAppend(adj[u] + [eu], b, Base(u, b), ev);
        MinOverAppend(adj[u], b, Base(u, b), eu);
        MinOverAppend(adj[u] + [eu], a, Base(u, a), ev);
        MinOverAppend(adj[u], a, Base(u, a), eu);
      } else {
        assert adj'[u] == adj[u] + [eu];
        assert adj'[v] == adj[v] + [ev];
        MinOverAppend(adj[u], b, Base(u, b), eu);
        MinOverAppend(adj[v], b, Base(v, b), ev);
        MinOverAppend(adj[u], a, Base(u, a), eu);
        MinOverAppend(adj[v], a, Base(v, a), ev);
      }
    }
  }
}
