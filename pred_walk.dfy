/** Walking a row of a predecessor matrix backwards from a target node, as
    `reconstructPath` (etapa1/Graph.hpp) and `getPath` (etapa2/Solver.hpp) do. */
module PredecessorWalk {
  import opened Common

  /** The node reached after `m` hops from `v` along `row` (`at = row[at]`); a
      hop from a node outside `row` gives -1. */
  function Nth(row: seq<int>, v: int, m: nat): int
    decreases m
  {
    if m == 0 then v
    else
      var a := Nth(row, v, m - 1);
      if 0 <= a < |row| then row[a] else -1
  }

  /** The first `m` nodes of the walk: `[Nth(0), ..., Nth(m-1)]`. */
  function Trail(row: seq<int>, v: int, m: nat): (r: seq<int>)
    ensures |r| == m && forall t :: 0 <= t < m ==> r[t] == Nth(row, v, t)
  {
    if m == 0 then [] else Trail(row, v, m - 1) + [Nth(row, v, m - 1)]
  }

  /** A reversed trail that ends at `u` is a chain of predecessors: it starts at
      `u`, ends at `v`, and every node is the predecessor of the next one. */
  lemma {:induction false} ReversedTrailIsChain(row: seq<int>, v: int, u: int, m: nat)
    requires Nth(row, v, m) == u
    requires forall t :: 0 <= t < m ==> 0 <= Nth(row, v, t) < |row|
    ensures var path := Reversed(Trail(row, v, m + 1));
            path[0] == u && path[|path| - 1] == v
            && forall t :: 0 <= t < |path| - 1 ==> path[t] == row[path[t + 1]]
  {
    var tr := Trail(row, v, m + 1);
    var path := Reversed(tr);
    assert path[0] == tr[m] == u;
    assert path[m] == tr[0] == v;
    forall t | 0 <= t < |path| - 1 ensures path[t] == row[path[t + 1]] {
      var a := Nth(row, v, m - t - 1);
      assert path[t + 1] == tr[m - t - 1] == a;
      assert 0 <= a < |row|;
      assert path[t] == tr[m - t] == Nth(row, v, m - t) == row[a];
    }
  }

  // ---------------------------------------------------------------------------
  // A walk that visits more nodes than exist never ends

  /** The set `{0, ..., n-1}`. */
  function Range(n: nat): (r: set<int>)
    ensures forall x :: x in r <==> 0 <= x < n
    ensures |r| == n
  {
    if n == 0 then {} else Range(n - 1) + {n - 1}
  }

  function Elements(s: seq<int>): (r: set<int>)
    ensures forall x :: x in r <==> x in s
  {
    if s == [] then {} else Elements(s[..|s| - 1]) + {s[|s| - 1]}
  }

  lemma SubsetCard(a: set<int>, b: set<int>)
    requires a <= b
    ensures |a| <= |b|
  {
    assert b == a + (b - a);
    assert a * (b - a) == {};
  }

  lemma DistinctCard(s: seq<int>)
    requires forall i, j :: 0 <= i < j < |s| ==> s[i] != s[j]
    ensures |Elements(s)| == |s|
  {
    if s != [] {
      var init := s[..|s| - 1];
      DistinctCard(init);
      assert s[|s| - 1] !in init;
    }
  }

  /** More than `n` values drawn from `[0, n)` repeat one of them. */
  lemma Pigeonhole(s: seq<int>, n: nat) returns (i: nat, j: nat)
    requires |s| > n && forall t :: 0 <= t < |s| ==> 0 <= s[t] < n
    ensures i < j < |s| && s[i] == s[j]
  {
    if forall i, j :: 0 <= i < j < |s| ==> s[i] != s[j] {
      DistinctCard(s);
      SubsetCard(Elements(s), Range(n));
      assert false;
    }
    i, j :| 0 <= i < j < |s| && s[i] == s[j];
  }

  /** Once the walk repeats a node it repeats forever with the same period. */
  lemma {:induction false} Periodic(row: seq<int>, v: int, i: nat, j: nat, t: nat)
    requires Nth(row, v, i) == Nth(row, v, j)
    ensures Nth(row, v, i + t) == Nth(row, v, j + t)
    decreases t
  {
    if t > 0 {
      Periodic(row, v, i, j, t - 1);
    }
  }

  /** The walk's first `n + 1` nodes all lie in `[0, n)` and avoid `u`: then it
      never reaches `u` and never reaches -1, so a loop that stops only at one of
      them runs forever. */
  lemma WalkNeverEnds(row: seq<int>, v: int, u: int, n: nat)
    requires |row| == n
    requires forall t :: 0 <= t <= n ==> 0 <= Nth(row, v, t) < n && Nth(row, v, t) != u
    ensures forall m: nat :: 0 <= Nth(row, v, m) < n && Nth(row, v, m) != u
  {
    var i, j := Pigeonhole(Trail(row, v, n + 1), n);
    assert Nth(row, v, i) == Nth(row, v, j);
    forall m: nat ensures 0 <= Nth(row, v, m) < n && Nth(row, v, m) != u {
      FarNode(row, v, u, n, i, j, m);
    }
  }

  lemma {:induction false} FarNode(row: seq<int>, v: int, u: int, n: nat, i: nat, j: nat, m: nat)
    requires |row| == n && i < j <= n && Nth(row, v, i) == Nth(row, v, j)
    requires forall t :: 0 <= t <= n ==> 0 <= Nth(row, v, t) < n && Nth(row, v, t) != u
    ensures 0 <= Nth(row, v, m) < n && Nth(row, v, m) != u
    decreases m
  {
    if m > n {
      Periodic(row, v, i, j, m - j);
      FarNode(row, v, u, n, i, j, i + (m - j));
    }
  }
}
