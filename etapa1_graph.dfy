/** The `Graph` class of `etapa1/Graph.hpp`: the same adjacency lists and flags
    as `Graph.hpp`, but a Floyd-Warshall whose first matrix lets the last of
    parallel entries win, which also builds a predecessor matrix, stores it in
    the object, and reconstructs paths from it. */
module Etapa1Graph {
  import opened Common
  import opened Adjacency
  import opened ShortestPaths
  import opened GraphStats
  import opened PredecessorWalk
  import RootGraph

  /** Cells of the predecessor matrix are a node or -1, and -1 exactly where the
      distance is infinite. */
  ghost predicate PredMatches(dist: Matrix, pred: seq<seq<int>>, n: nat)
    requires IsSquare(dist, n) && IsSquare(pred, n)
  {
    forall i, j :: 0 <= i < n && 0 <= j < n ==>
      -1 <= pred[i][j] < n && (pred[i][j] == -1 <==> dist[i][j].Inf?)
  }

  /** Off the diagonal, a predecessor `p` of `j` is another node with a direct
      step `p -> j` in the first matrix `w`. */
  ghost predicate PredSteps(w: Matrix, pred: seq<seq<int>>, n: nat)
    requires IsSquare(w, n) && IsSquare(pred, n)
  {
    forall i, j :: 0 <= i < n && 0 <= j < n && i != j && 0 <= pred[i][j] < n ==>
      pred[i][j] != j && w[pred[i][j]][j].Fin?
  }

  /** Off the diagonal, a predecessor `p` of `j` has an adjacency entry `p -> j`. */
  ghost predicate PredEntries(adj: Adj, pred: seq<seq<int>>, n: nat)
    requires |adj| == n && IsSquare(pred, n)
  {
    forall i, j :: 0 <= i < n && 0 <= j < n && i != j && pred[i][j] != -1 ==>
      0 <= pred[i][j] < n && HasEntryTo(adj[pred[i][j]], j)
  }

  /** A predecessor matrix that is either absent or `n` by `n` with cells that are
      a node or -1. */
  ghost predicate PredShape(pred: seq<seq<int>>, n: nat)
  {
    pred != [] ==> IsSquare(pred, n) && forall i, j :: 0 <= i < n && 0 <= j < n ==> -1 <= pred[i][j] < n
  }

  /** Appending entries keeps every recorded predecessor step an entry. */
  lemma WithEdgeKeepsPred(adj: Adj, pred: seq<seq<int>>, n: nat, u: int, v: int, cost: int, directed: bool, required: bool)
    requires ValidAdj(adj, n) && 0 <= u < n && 0 <= v < n && IsSquare(pred, n)
    requires PredEntries(adj, pred, n)
    ensures |WithEdge(adj, u, v, cost, directed, required)| == n
    ensures PredEntries(WithEdge(adj, u, v, cost, directed, required), pred, n)
  {
    var adj' := WithEdge(adj, u, v, cost, directed, required);
    forall i, j | 0 <= i < n && 0 <= j < n && i != j && pred[i][j] != -1
      ensures HasEntryTo(adj'[pred[i][j]], j)
    {
      var e: Edge :| e in adj[pred[i][j]] && e.to == j;
      assert e in adj'[pred[i][j]];
    }
  }

  /** The first loop of `floydWarshall` in `etapa1/Graph.hpp`: every cell starts
      infinite with predecessor -1; for each node `u` the diagonal cell becomes 0
      with predecessor `u`, and then every entry `u -> to` overwrites
      `dist[u][to]` with its cost and `pred[u][to]` with `u`. */
  method BuildLastInit(adj: Adj) returns (dist: Matrix, pred: seq<seq<int>>)
    requires ValidAdj(adj, |adj|)
    ensures dist == LastInit(adj) && pred == PredInit(adj)
  {
    var n := |adj|;
    dist := seq(n, _ => seq(n, _ => Inf));
    pred := seq(n, _ => seq(n, _ => -1));
    for u := 0 to n
      invariant IsSquare(dist, n) && IsSquare(pred, n)
      invariant forall a :: 0 <= a < u ==> dist[a] == LastInit(adj)[a] && pred[a] == PredInit(adj)[a]
      invariant forall a, b :: u <= a < n && 0 <= b < n ==> dist[a][b] == Inf && pred[a][b] == -1
    {
      dist := dist[u := dist[u][u := Fin(0)]];
      pred := pred[u := pred[u][u := u]];
      var es := adj[u];
      for t := 0 to |es|
        invariant IsSquare(dist, n) && IsSquare(pred, n)
        invariant forall a :: 0 <= a < u ==> dist[a] == LastInit(adj)[a] && pred[a] == PredInit(adj)[a]
        invariant forall a, b :: u < a < n && 0 <= b < n ==> dist[a][b] == Inf && pred[a][b] == -1
        invariant forall b :: 0 <= b < n ==> dist[u][b] == LastOver(es[..t], b, Base(u, b))
        invariant forall b :: 0 <= b < n ==> pred[u][b] == if u == b || HasEntryTo(es[..t], b) then u else -1
      {
        var e := es[t];
        assert e in adj[u];
        assert es[..t + 1] == es[..t] + [e];
        forall b ensures HasEntryTo(es[..t + 1], b) <==> HasEntryTo(es[..t], b) || e.to == b {
          HasEntryToAppend(es[..t], e, b);
        }
        dist := dist[u := dist[u][e.to := Fin(e.cost)]];
        pred := pred[u := pred[u][e.to := u]];
      }
      assert es[..|es|] == es;
    }
  }

  /** The first matrices agree: -1 exactly at the infinite cells, and off the
      diagonal the predecessor `u` has a finite step to the column. */
  lemma InitPredMatches(adj: Adj)
    requires ValidAdj(adj, |adj|)
    ensures IsSquare(LastInit(adj), |adj|) && IsSquare(PredInit(adj), |adj|)
    ensures PredMatches(LastInit(adj), PredInit(adj), |adj|)
    ensures PredSteps(LastInit(adj), PredInit(adj), |adj|)
  {
    forall u, v | 0 <= u < |adj| && 0 <= v < |adj|
      ensures LastInit(adj)[u][v].Fin? <==> u == v || HasEntryTo(adj[u], v)
    {
      LastOverFinite(adj[u], v, Base(u, v));
    }
  }

  /** Relaxing cell `(i, j)` through `k` rewrites it: both legs are finite and
      their sum is strictly smaller than the cell. */
  predicate Improves(m: Matrix, k: nat, i: nat, j: nat)
    requires IsSquare(m, |m|) && k < |m| && i < |m| && j < |m|
  {
    m[i][k].Fin? && m[k][j].Fin? && Less(Add(m[i][k], m[k][j]), m[i][j])
  }

  /** A relaxed cell is the sum of its legs exactly where it improves, and the
      cell itself elsewhere. */
  lemma RelaxedByImproves(m: Matrix, k: nat, i: nat, j: nat)
    requires IsSquare(m, |m|) && k < |m| && i < |m| && j < |m|
    ensures Relaxed(m, k, i, j) == if Improves(m, k, i, j) then Add(m[i][k], m[k][j]) else m[i][j]
  {
  }

  /** The predecessor of cell `(i, j)` after relaxing it through `k`: the
      predecessor of the second leg `k -> j` where the cell improves, the cell's
      own predecessor elsewhere. */
  function RelaxedPred(m: Matrix, p: seq<seq<int>>, k: nat, i: nat, j: nat): int
    requires IsSquare(m, |m|) && IsSquare(p, |m|) && k < |m| && i < |m| && j < |m|
  {
    if Improves(m, k, i, j) then p[k][j] else p[i][j]
  }

  /** Round `k` of the predecessor table, against the round's starting distances
      `m`: the companion of `Step`. */
  function PredStep(m: Matrix, p: seq<seq<int>>, k: nat): (r: seq<seq<int>>)
    requires IsSquare(m, |m|) && IsSquare(p, |m|) && k < |m|
    ensures IsSquare(r, |m|)
  {
    seq(|m|, i requires 0 <= i < |m| => seq(|m|, j requires 0 <= j < |m| => RelaxedPred(m, p, k, i, j)))
  }

  /** The predecessor table after the first `k` rounds, from the first
      predecessor matrix `p0`: the companion of `Fw`. */
  ghost function FwPred(w: Matrix, p0: seq<seq<int>>, k: nat): (r: seq<seq<int>>)
    requires IsSquare(w, |w|) && IsSquare(p0, |w|) && k <= |w|
    ensures IsSquare(r, |w|)
    decreases k
  {
    if k == 0 then p0 else PredStep(Fw(w, k - 1), FwPred(w, p0, k - 1), k - 1)
  }

  /** With a pivot cell that is infinite or at least zero, round `k` keeps the
      predecessors of the pivot row and the pivot column. */
  lemma {:induction false} PredStepKeepsPivot(m: Matrix, p: seq<seq<int>>, k: nat)
    requires IsSquare(m, |m|) && IsSquare(p, |m|) && k < |m| && PivotOk(m, k)
    ensures forall a :: 0 <= a < |m| ==> PredStep(m, p, k)[k][a] == p[k][a] && PredStep(m, p, k)[a][k] == p[a][k]
  {
    forall a | 0 <= a < |m|
      ensures !Improves(m, k, k, a) && !Improves(m, k, a, k)
    {
    }
  }

  /** The relaxation loops of `etapa1/Graph.hpp`: a cell changes only when both legs
      are finite and their sum is strictly smaller, and then its predecessor
      becomes the predecessor of the second leg. Predecessors stay -1 exactly at
      the infinite cells; with a first matrix whose cells are at least zero the
      distances are the recurrence's table, the predecessors are its companion
      table, and every off-diagonal predecessor keeps a direct step in the first
      matrix. */
  method RelaxWithPred(w: Matrix, p0: seq<seq<int>>) returns (dist: Matrix, pred: seq<seq<int>>)
    requires IsSquare(w, |w|) && IsSquare(p0, |w|) && PredMatches(w, p0, |w|)
    ensures IsSquare(dist, |w|) && IsSquare(pred, |w|) && PredMatches(dist, pred, |w|)
    ensures NonNegative(w) ==> dist == Shortest(w) && pred == FwPred(w, p0, |w|)
    ensures NonNegative(w) && PredSteps(w, p0, |w|) ==> PredSteps(w, pred, |w|)
  {
    var n := |w|;
    ghost var nn := NonNegative(w);
    ghost var steps := nn && PredSteps(w, p0, n);
    dist, pred := w, p0;
    for k := 0 to n
      invariant IsSquare(dist, n) && IsSquare(pred, n) && PredMatches(dist, pred, n)
      invariant nn ==> dist == Fw(w, k) && pred == FwPred(w, p0, k) && NonNegative(dist)
      invariant steps ==> PredSteps(w, pred, n)
    {
      ghost var d0, q0 := dist, pred;
      dist, pred := RelaxRound(w, dist, pred, n, k, nn, steps);
      if nn {
        RoundAdvances(w, p0, k, d0, q0, dist, pred);
      }
    }
  }

  /** A round that turns the tables after `k` rounds into `Step` and `PredStep`
      of them gives the tables after `k + 1` rounds, whose cells are again at
      least zero. */
  lemma RoundAdvances(w: Matrix, p0: seq<seq<int>>, k: nat, d0: Matrix, q0: seq<seq<int>>,
                      d: Matrix, q: seq<seq<int>>)
    requires IsSquare(w, |w|) && IsSquare(p0, |w|) && k < |w| && NonNegative(w)
    requires d0 == Fw(w, k) && q0 == FwPred(w, p0, k) && NonNegative(d0)
    requires PivotOk(d0, k) ==> d == Step(d0, k) && q == PredStep(d0, q0, k)
    ensures d == Fw(w, k + 1) && q == FwPred(w, p0, k + 1) && NonNegative(d)
  {
    assert PivotOk(d0, k);
    FwNonNegative(w, k + 1);
  }

  /** One round of the relaxation, pivot `k`, over every row in turn: with a
      pivot cell that is infinite or at least zero the distances become `Step`
      of the round's starting matrix and the predecessors `PredStep` of it. */
  method RelaxRound(ghost w: Matrix, dist: Matrix, pred: seq<seq<int>>, n: nat, k: nat,
                    ghost nn: bool, ghost steps: bool)
    returns (dist': Matrix, pred': seq<seq<int>>)
    requires IsSquare(dist, n) && IsSquare(pred, n) && PredMatches(dist, pred, n) && k < n
    requires nn ==> NonNegative(dist)
    requires steps ==> nn && IsSquare(w, n) && PredSteps(w, pred, n)
    ensures IsSquare(dist', n) && IsSquare(pred', n) && PredMatches(dist', pred', n)
    ensures nn ==> NonNegative(dist')
    ensures PivotOk(dist, k) ==> dist' == Step(dist, k) && pred' == PredStep(dist, pred, k)
    ensures steps ==> PredSteps(w, pred', n)
  {
    ghost var ok := PivotOk(dist, k);
    ghost var next, pnext := Step(dist, k), PredStep(dist, pred, k);
    if ok {
      StepKeepsPivot(dist, k);
      PredStepKeepsPivot(dist, pred, k);
    }
    dist', pred' := dist, pred;
    for i := 0 to n
      invariant IsSquare(dist', n) && IsSquare(pred', n) && PredMatches(dist', pred', n)
      invariant nn ==> NonNegative(dist')
      invariant steps ==> PredSteps(w, pred', n)
      invariant ok ==> forall a :: 0 <= a < i ==> dist'[a] == next[a] && pred'[a] == pnext[a]
      invariant forall a :: i <= a < n ==> dist'[a] == dist[a] && pred'[a] == pred[a]
    {
      ghost var before, pbefore := dist', pred';
      dist', pred' := RelaxRow(w, dist', pred', n, k, i, nn, steps);
      if ok {
        RowMatchesStep(dist, before, dist', k, i);
        PredRowMatches(dist, pred, before, pbefore, pred', k, i);
      }
    }
    if ok {
      assert dist' == next;
      assert pred' == pnext;
    }
  }

  /** The predecessor row `i` relaxed against the matrices midway through round
      `k` is row `i` of `PredStep`: the pivot row and column, and row `i`
      itself, still hold the round's starting values. */
  lemma PredRowMatches(prev: Matrix, pprev: seq<seq<int>>, before: Matrix, pbefore: seq<seq<int>>,
                       pred: seq<seq<int>>, k: nat, i: nat)
    requires IsSquare(prev, |prev|) && IsSquare(before, |prev|) && k < |prev| && i < |prev|
    requires IsSquare(pprev, |prev|) && IsSquare(pbefore, |prev|) && IsSquare(pred, |prev|)
    requires PivotOk(prev, k)
    requires forall a :: 0 <= a < |prev| ==> Step(prev, k)[a][k] == prev[a][k] && Step(prev, k)[k][a] == prev[k][a]
    requires forall a :: 0 <= a < |prev| ==> PredStep(prev, pprev, k)[k][a] == pprev[k][a]
    requires forall a :: 0 <= a < i ==> before[a] == Step(prev, k)[a] && pbefore[a] == PredStep(prev, pprev, k)[a]
    requires forall a :: i <= a < |prev| ==> before[a] == prev[a] && pbefore[a] == pprev[a]
    requires PivotOk(before, k) ==> forall j :: 0 <= j < |prev| ==> pred[i][j] == RelaxedPred(before, pbefore, k, i, j)
    ensures pred[i] == PredStep(prev, pprev, k)[i]
  {
    var n := |prev|;
    assert before[k] == prev[k] && pbefore[k] == pprev[k] by {
      if k < i {
        assert before[k] == Step(prev, k)[k];
        assert pbefore[k] == PredStep(prev, pprev, k)[k];
      }
    }
    assert before[i] == prev[i] && pbefore[i] == pprev[i];
    forall j | 0 <= j < n
      ensures pred[i][j] == PredStep(prev, pprev, k)[i][j]
    {
      assert pred[i][j] == RelaxedPred(before, pbefore, k, i, j);
    }
  }

  /** The innermost loop of the relaxation, for row `i` and pivot `k`: only row
      `i` changes, and with a pivot cell that is infinite or at least zero each
      of its cells ends relaxed through `k` against the row as it was, with the
      matching predecessor. */
  method RelaxRow(ghost w: Matrix, dist: Matrix, pred: seq<seq<int>>, n: nat, k: nat, i: nat,
                  ghost nn: bool, ghost steps: bool)
    returns (dist': Matrix, pred': seq<seq<int>>)
    requires IsSquare(dist, n) && IsSquare(pred, n) && PredMatches(dist, pred, n) && k < n && i < n
    requires nn ==> NonNegative(dist)
    requires steps ==> nn && IsSquare(w, n) && PredSteps(w, pred, n)
    ensures IsSquare(dist', n) && IsSquare(pred', n) && PredMatches(dist', pred', n)
    ensures forall a :: 0 <= a < n && a != i ==> dist'[a] == dist[a] && pred'[a] == pred[a]
    ensures PivotOk(dist, k) ==> forall j :: 0 <= j < n ==>
              dist'[i][j] == Relaxed(dist, k, i, j) && pred'[i][j] == RelaxedPred(dist, pred, k, i, j)
    ensures nn ==> NonNegative(dist')
    ensures steps ==> PredSteps(w, pred', n)
  {
    ghost var ok := PivotOk(dist, k);
    dist', pred' := dist, pred;
    for j := 0 to n
      invariant IsSquare(dist', n) && IsSquare(pred', n) && PredMatches(dist', pred', n)
      invariant forall a :: 0 <= a < n && a != i ==> dist'[a] == dist[a] && pred'[a] == pred[a]
      invariant forall b :: j <= b < n ==> dist'[i][b] == dist[i][b] && pred'[i][b] == pred[i][b]
      invariant ok ==> forall b :: 0 <= b < j ==>
                  dist'[i][b] == Relaxed(dist, k, i, b) && pred'[i][b] == RelaxedPred(dist, pred, k, i, b)
      invariant nn ==> NonNegative(dist')
      invariant steps ==> PredSteps(w, pred', n)
    {
      assert pred'[k][j] == pred[k][j] by {
        if k != i {
          assert pred'[k] == pred[k];
        }
      }
      if ok {
        RowCellsKept(dist, dist', k, i, j);
        RelaxedByImproves(dist, k, i, j);
      }
      if dist'[i][k].Fin? && dist'[k][j].Fin? && Less(Add(dist'[i][k], dist'[k][j]), dist'[i][j]) {
        var c := Add(dist'[i][k], dist'[k][j]);
        var p := pred'[k][j];
        UpdateKeepsMatches(dist', pred', n, i, j, c, p);
        if nn {
          UpdateKeepsNonNegative(dist', n, i, j, c);
        }
        if steps {
          assert k != j;
          UpdateKeepsSteps(w, pred', n, i, j, p);
        }
        dist' := dist'[i := dist'[i][j := c]];
        pred' := pred'[i := pred'[i][j := p]];
      }
    }
  }

  lemma UpdateKeepsMatches(dist: Matrix, pred: seq<seq<int>>, n: nat, i: nat, j: nat, c: Cost, p: int)
    requires IsSquare(dist, n) && IsSquare(pred, n) && PredMatches(dist, pred, n)
    requires i < n && j < n && c.Fin? && 0 <= p < n
    ensures IsSquare(dist[i := dist[i][j := c]], n) && IsSquare(pred[i := pred[i][j := p]], n)
    ensures PredMatches(dist[i := dist[i][j := c]], pred[i := pred[i][j := p]], n)
  {
  }

  lemma UpdateKeepsSteps(w: Matrix, pred: seq<seq<int>>, n: nat, i: nat, j: nat, p: int)
    requires IsSquare(w, n) && IsSquare(pred, n) && PredSteps(w, pred, n)
    requires i < n && j < n && 0 <= p < n && (i != j ==> p != j && w[p][j].Fin?)
    ensures IsSquare(pred[i := pred[i][j := p]], n) && PredSteps(w, pred[i := pred[i][j := p]], n)
  {
  }

  lemma UpdateKeepsNonNegative(dist: Matrix, n: nat, i: nat, j: nat, c: Cost)
    requires IsSquare(dist, n) && NonNegative(dist) && i < n && j < n && (c.Fin? ==> c.value >= 0)
    ensures NonNegative(dist[i := dist[i][j := c]])
  {
  }

  /** The walk back from `v` along `row` meets `u` after `m` hops, every earlier
      node being a node other than `u`. */
  ghost predicate ReachesAfter(row: seq<int>, v: int, u: int, m: nat)
  {
    Nth(row, v, m) == u && forall t :: 0 <= t < m ==> 0 <= Nth(row, v, t) < |row| && Nth(row, v, t) != u
  }

  /** What the loop of `reconstructPath` does on row `row`: `Some(p)` with `p`
      the reversed walk up to the first `u`; `Some([])` when the walk meets -1
      before `u`; `None` when it meets neither, so the C++ loop never stops. */
  ghost predicate WalkOutcome(row: seq<int>, u: int, v: int, r: Option<seq<int>>)
  {
    match r
    case None =>
      forall m: nat :: 0 <= Nth(row, v, m) < |row| && Nth(row, v, m) != u
    case Some(p) =>
      if p == [] then
        exists m: nat :: ReachesAfter(row, v, -1, m) && u != -1
      else
        ReachesAfter(row, v, u, |p| - 1) && p == Reversed(Trail(row, v, |p|))
  }

  /** The loop of `reconstructPath`: from `at = v`, push `at` and step to
      `row[at]` until `at == u`, answering empty on -1, then append `u` and
      reverse. The C++ loop has no step bound; here the walk stops after `n + 1`
      nodes that are neither `u` nor -1 and answers `None`, which by the
      pigeonhole principle happens only on a walk that goes on forever. */
  method WalkBack(row: seq<int>, n: nat, u: int, v: int) returns (r: Option<seq<int>>)
    requires |row| == n && 0 <= u < n && 0 <= v < n
    requires forall a :: 0 <= a < n ==> -1 <= row[a] < n
    ensures WalkOutcome(row, u, v, r)
    ensures r.Some? && r.value != [] ==>
              var p := r.value;
              p[0] == u && p[|p| - 1] == v
              && (forall t :: 0 <= t < |p| ==> 0 <= p[t] < n)
              && (forall t :: 1 <= t < |p| ==> p[t] != u)
              && (forall t :: 0 <= t < |p| - 1 ==> p[t] == row[p[t + 1]])
  {
    var at := v;
    var path: seq<int> := [];
    var steps: nat := 0;
    while at != u
      invariant steps <= n
      invariant at == Nth(row, v, steps) && -1 <= at < n
      invariant path == Trail(row, v, steps)
      invariant forall t :: 0 <= t < steps ==> 0 <= Nth(row, v, t) < n && Nth(row, v, t) != u
      decreases n - steps
    {
      if at == -1 {
        assert ReachesAfter(row, v, -1, steps);
        return Some([]);
      }
      if steps == n {
        WalkNeverEnds(row, v, u, n);
        return None;
      }
      path := path + [at];
      at := row[at];
      steps := steps + 1;
    }
    assert path + [u] == Trail(row, v, steps + 1);
    WalkArrives(row, n, u, v, steps);
    r := Some(Reversed(Trail(row, v, steps + 1)));
  }

  /** A walk that meets `u` after `m` steps through other nodes gives, reversed,
      the answer `WalkBack` promises. */
  lemma WalkArrives(row: seq<int>, n: nat, u: int, v: int, m: nat)
    requires |row| == n && 0 <= u < n && 0 <= v < n
    requires Nth(row, v, m) == u
    requires forall t :: 0 <= t < m ==> 0 <= Nth(row, v, t) < n && Nth(row, v, t) != u
    ensures var p := Reversed(Trail(row, v, m + 1));
            WalkOutcome(row, u, v, Some(p))
            && p[0] == u && p[|p| - 1] == v
            && (forall t :: 0 <= t < |p| ==> 0 <= p[t] < n)
            && (forall t :: 1 <= t < |p| ==> p[t] != u)
            && (forall t :: 0 <= t < |p| - 1 ==> p[t] == row[p[t + 1]])
  {
    ReversedTrailIsChain(row, v, u, m);
    var p := Reversed(Trail(row, v, m + 1));
    assert ReachesAfter(row, v, u, |p| - 1);
    forall t | 0 <= t < |p| ensures 0 <= p[t] < n && (t >= 1 ==> p[t] != u) {
      assert p[t] == Nth(row, v, m - t);
    }
  }

  /** A chain of predecessors from row `u` whose inner nodes differ from `u`
      follows adjacency entries when every off-diagonal predecessor has one. */
  lemma PathAlongEntries(adj: Adj, pred: seq<seq<int>>, n: nat, u: int, p: seq<int>)
    requires |adj| == n && IsSquare(pred, n) && PredEntries(adj, pred, n) && 0 <= u < n
    requires |p| >= 1 && p[0] == u && forall t :: 0 <= t < |p| ==> 0 <= p[t] < n
    requires forall t :: 1 <= t < |p| ==> p[t] != u
    requires forall t :: 0 <= t < |p| - 1 ==> p[t] == pred[u][p[t + 1]]
    ensures IsWalk(adj, p)
  {
    forall t | 0 <= t < |p| - 1 ensures Adjacent(adj, p[t], p[t + 1]) {
      assert p[t] == pred[u][p[t + 1]] && 0 <= p[t] < n;
      assert p[t + 1] != u && pred[u][p[t + 1]] != -1;
    }
    ChainIsWalk(adj, p);
  }

  class Graph {
    const V: nat
    var adj: Adj
    var requiredNodes: seq<bool>
    var required: seq<seq<bool>>
    var directed: bool
    /** The stored predecessor matrix; empty until `floydWarshall` has run. */
    var predecessor: seq<seq<int>>
    /** Whether the stored matrix was built from entry costs of at least zero. */
    ghost var predFromNonNegative: bool

    ghost predicate Valid()
      reads this
    {
      ValidAdj(adj, V) && |requiredNodes| == V && IsSquareFlags(required, V)
      && PredShape(predecessor, V)
      && (predFromNonNegative ==> predecessor != [] && PredEntries(adj, predecessor, V))
    }

    /** `Graph(vertices, isDirected)`, as in `Graph.hpp`, with no predecessor matrix. */
    constructor(vertices: nat, isDirected: bool)
      ensures Valid() && V == vertices && directed == isDirected
      ensures adj == EmptyAdj(vertices) && predecessor == []
      ensures requiredNodes == seq(vertices, _ => false) && required == RootGraph.NoFlags(vertices)
    {
      V := vertices;
      adj := EmptyAdj(vertices);
      requiredNodes := seq(vertices, _ => false);
      required := RootGraph.NoFlags(vertices);
      directed := isDirected;
      predecessor := [];
      predFromNonNegative := false;
    }

    /** `addEdge`: the same update as in `Graph.hpp`. Appending entries keeps every
        recorded predecessor step an entry. */
    method AddEdge(u: int, v: int, cost: int, isDirected: bool, isRequired: bool)
      requires Valid() && 0 <= u < V && 0 <= v < V
      modifies this
      ensures Valid()
      ensures directed == (old(directed) || isDirected)
      ensures adj == WithEdge(old(adj), u, v, cost, isDirected, isRequired)
      ensures required == RootGraph.FlagsAfter(old(required), u, v, isDirected, isRequired)
      ensures requiredNodes == old(requiredNodes) && predecessor == old(predecessor)
      ensures predFromNonNegative == old(predFromNonNegative)
    {
      WithEdgeEntries(adj, V, u, v, cost, isDirected, isRequired);
      if predFromNonNegative {
        WithEdgeKeepsPred(adj, predecessor, V, u, v, cost, isDirected, isRequired);
      }
      var adj', required' := adj[u := adj[u] + [Edge(v, cost, isRequired)]], required[u := required[u][v := isRequired]];
      if !isDirected {
        adj' := adj'[v := adj'[v] + [Edge(u, cost, isRequired)]];
        required' := required'[v := required'[v][u := isRequired]];
      }
      assert adj' == WithEdge(adj, u, v, cost, isDirected, isRequired);
      directed := directed || isDirected;
      adj, required := adj', required';
    }

    /** `setRequiredNode(u)`. */
    method SetRequiredNode(u: int)
      requires Valid() && 0 <= u < V
      modifies this
      ensures Valid()
      ensures requiredNodes == old(requiredNodes)[u := true]
      ensures adj == old(adj) && required == old(required) && directed == old(directed)
      ensures predecessor == old(predecessor) && predFromNonNegative == old(predFromNonNegative)
    {
      requiredNodes := requiredNodes[u := true];
    }

    function NumNodes(): (n: nat)
      reads this
      requires Valid()
      ensures n == |adj|
    {
      V
    }

    /** `floydWarshall`: the last-entry-wins first matrices, then the relaxation
        loops; the predecessor matrix is stored in the object and returned with
        the distances. With entry costs of at least zero the distances are the
        recurrence's table and the predecessors its companion table. */
    method FloydWarshall() returns (dist: Matrix, pred: seq<seq<int>>)
      requires Valid()
      modifies this
      ensures Valid() && predecessor == pred
      ensures adj == old(adj) && requiredNodes == old(requiredNodes)
      ensures required == old(required) && directed == old(directed)
      ensures IsSquare(dist, V) && IsSquare(pred, V) && PredMatches(dist, pred, V)
      ensures NonNegativeCosts(adj) ==> dist == Shortest(LastInit(adj))
      ensures NonNegativeCosts(adj) ==> pred == FwPred(LastInit(adj), PredInit(adj), V)
      ensures predFromNonNegative <==> NonNegativeCosts(adj) && V > 0
    {
      var w, p0 := BuildLastInit(adj);
      InitPredMatches(adj);
      if NonNegativeCosts(adj) {
        InitNonNegative(adj);
      }
      dist, pred := RelaxWithPred(w, p0);
      predecessor := pred;
      predFromNonNegative := NonNegativeCosts(adj) && V > 0;
      if predFromNonNegative {
        forall i, j | 0 <= i < V && 0 <= j < V && i != j && pred[i][j] != -1
          ensures HasEntryTo(adj[pred[i][j]], j)
        {
          var p := pred[i][j];
          LastOverFinite(adj[p], j, Base(p, j));
        }
      }
    }
    /** `reconstructPath(u, v)`: the result is empty when no predecessor matrix
        is stored or when `predecessor[u][v]` is -1; otherwise it is the walk of
        `WalkBack` on row `u`. A non-empty result starts at `u`, ends at `v`, and
        each node is the stored predecessor of the next; when the matrix was
        built from entry costs of at least zero it is a walk along adjacency
        entries. */
    method ReconstructPath(u: int, v: int) returns (r: Option<seq<int>>)
      requires Valid()
      requires predecessor != [] ==> 0 <= u < V && 0 <= v < V
      ensures predecessor == [] || predecessor[u][v] == -1 ==> r == Some([])
      ensures predecessor != [] && predecessor[u][v] != -1 ==> WalkOutcome(predecessor[u], u, v, r)
      ensures r.Some? && r.value != [] ==>
                var p := r.value;
                p[0] == u && p[|p| - 1] == v
                && (forall t :: 0 <= t < |p| ==> 0 <= p[t] < V)
                && (forall t :: 0 <= t < |p| - 1 ==> p[t] == predecessor[u][p[t + 1]])
      ensures r.Some? && r.value != [] && predFromNonNegative ==> IsWalk(adj, r.value)
    {
      if predecessor == [] || predecessor[u][v] == -1 {
        return Some([]);
      }
      r := WalkBack(predecessor[u], V, u, v);
      if r.Some? && r.value != [] && predFromNonNegative {
        PathAlongEntries(adj, predecessor, V, u, r.value);
      }
    }
  }
}
