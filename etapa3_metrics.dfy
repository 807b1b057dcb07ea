/** What `recalculateSolutionMetrics` in `etapa3/Solver.hpp` makes of a list of
    routes: each route's demand and cost are recomputed from its services in
    order; at the first route that cannot be driven the total becomes infinite
    and the routes after it are left as they were; otherwise the total is the
    sum of the route costs and the routes without services are removed. A
    solution whose caches already hold these values is "settled". */
module Etapa3Metrics {
  import opened Common
  import opened ShortestPaths
  import opened Etapa3Solution
  import opened Etapa3RouteCost

  /** The route with its demand and cost recomputed; id and services kept. */
  function Refresh(d: Matrix, depot: int, r: Route): Route
  {
    r.(totalDemand := DemandSum(r.services), totalCost := RouteCost(d, depot, r.services))
  }

  function RefreshAll(d: Matrix, depot: int, rs: seq<Route>): (r: seq<Route>)
    ensures |r| == |rs| && forall i :: 0 <= i < |rs| ==> r[i] == Refresh(d, depot, rs[i])
  {
    seq(|rs|, i requires 0 <= i < |rs| => Refresh(d, depot, rs[i]))
  }

  /** The index of the first route that cannot be driven, or `|rs|`. */
  function FirstInf(d: Matrix, depot: int, rs: seq<Route>): (k: nat)
    ensures k <= |rs|
    ensures forall t :: 0 <= t < k ==> RouteCost(d, depot, rs[t].services).Fin?
    ensures k < |rs| ==> RouteCost(d, depot, rs[k].services).Inf?
    decreases |rs|
  {
    if rs == [] then 0
    else if RouteCost(d, depot, rs[0].services).Inf? then 0
    else 1 + FirstInf(d, depot, rs[1..])
  }

  /** The cached cost of a route as a number (0 when infinite). */
  function Cached(r: Route): int
  {
    if r.totalCost.Fin? then r.totalCost.value else 0
  }

  /** The sum of the finite cached costs, front to back. */
  function CostSum(rs: seq<Route>): int
  {
    if rs == [] then 0 else CostSum(rs[..|rs| - 1]) + Cached(rs[|rs| - 1])
  }

  /** `erase(remove_if(..., services.empty()))`: the routes with services, in
      their order. */
  function DropEmpty(rs: seq<Route>): (r: seq<Route>)
    ensures |r| <= |rs|
    ensures forall i :: 0 <= i < |r| ==> r[i].services != []
    decreases |rs|
  {
    if rs == [] then []
    else DropEmpty(rs[..|rs| - 1]) + (if rs[|rs| - 1].services == [] then [] else [rs[|rs| - 1]])
  }

  /** The characterization of `FirstInf` determines it. */
  lemma FirstInfAt(d: Matrix, depot: int, rs: seq<Route>, i: int)
    requires 0 <= i <= |rs|
    requires forall t :: 0 <= t < i ==> RouteCost(d, depot, rs[t].services).Fin?
    requires i < |rs| ==> RouteCost(d, depot, rs[i].services).Inf?
    ensures FirstInf(d, depot, rs) == i
  {
  }

  datatype Metrics = Metrics(routes: seq<Route>, total: Cost)

  /** The routes and total that `recalculateSolutionMetrics` leaves behind. */
  function Recalculated(d: Matrix, depot: int, rs: seq<Route>): Metrics
  {
    var k := FirstInf(d, depot, rs);
    if k < |rs| then Metrics(RefreshAll(d, depot, rs[..k + 1]) + rs[k + 1..], Inf)
    else
      var renewed := RefreshAll(d, depot, rs);
      Metrics(DropEmpty(renewed), Fin(CostSum(renewed)))
  }

  /** A route whose caches are current, with at least one service and a
      finite cost. */
  ghost predicate Current(d: Matrix, depot: int, r: Route)
  {
    r.services != [] && r.totalDemand == DemandSum(r.services)
    && r.totalCost == RouteCost(d, depot, r.services) && r.totalCost.Fin?
  }

  /** Every route is current and the finite total is the sum of their costs. */
  ghost predicate Settled(d: Matrix, depot: int, rs: seq<Route>, total: Cost)
  {
    total.Fin? && (forall i :: 0 <= i < |rs| ==> Current(d, depot, rs[i])) && total.value == CostSum(rs)
  }

  // ---------------------------------------------------------------------------
  // Facts about the pieces

  lemma {:induction false} FlattenRefreshAll(d: Matrix, depot: int, rs: seq<Route>)
    ensures Flatten(RefreshAll(d, depot, rs)) == Flatten(rs)
    decreases |rs|
  {
    if rs != [] {
      FlattenRefreshAll(d, depot, rs[1..]);
      assert RefreshAll(d, depot, rs)[1..] == RefreshAll(d, depot, rs[1..]);
    }
  }

  lemma {:induction false} FlattenDropEmpty(rs: seq<Route>)
    ensures Flatten(DropEmpty(rs)) == Flatten(rs)
    decreases |rs|
  {
    if rs != [] {
      var init := rs[..|rs| - 1];
      var last := rs[|rs| - 1];
      FlattenDropEmpty(init);
      assert rs == init + [last];
      FlattenConcat(init, [last]);
      FlattenConcat(DropEmpty(init), if last.services == [] then [] else [last]);
      assert Flatten([last]) == last.services + Flatten([]);
    }
  }

  lemma {:induction false} CostSumDropEmpty(rs: seq<Route>)
    requires forall i :: 0 <= i < |rs| ==> rs[i].services == [] ==> rs[i].totalCost == Fin(0)
    ensures CostSum(DropEmpty(rs)) == CostSum(rs)
    decreases |rs|
  {
    if rs != [] {
      var init := rs[..|rs| - 1];
      CostSumDropEmpty(init);
      var last := rs[|rs| - 1];
      if last.services != [] {
        var x := DropEmpty(init) + [last];
        assert x[..|x| - 1] == DropEmpty(init);
      } else {
        assert DropEmpty(rs) == DropEmpty(init) + [];
        assert DropEmpty(init) + [] == DropEmpty(init);
      }
    }
  }

  /** A list of routes whose members all have services is its own `DropEmpty`. */
  lemma {:induction false} DropEmptyNone(rs: seq<Route>)
    requires forall i :: 0 <= i < |rs| ==> rs[i].services != []
    ensures DropEmpty(rs) == rs
    decreases |rs|
  {
    if rs != [] {
      DropEmptyNone(rs[..|rs| - 1]);
      assert rs[..|rs| - 1] + [rs[|rs| - 1]] == rs;
    }
  }

  lemma {:induction false} DropEmptyMembers(rs: seq<Route>)
    ensures forall r :: r in DropEmpty(rs) <==> r in rs && r.services != []
    decreases |rs|
  {
    if rs != [] {
      DropEmptyMembers(rs[..|rs| - 1]);
      assert rs == rs[..|rs| - 1] + [rs[|rs| - 1]];
    }
  }

  // ---------------------------------------------------------------------------
  // What a recomputation yields

  /** The total is infinite exactly when some route cannot be driven. */
  lemma RecalculatedInfIff(d: Matrix, depot: int, rs: seq<Route>)
    ensures Recalculated(d, depot, rs).total.Inf?
            <==> exists t :: 0 <= t < |rs| && RouteCost(d, depot, rs[t].services).Inf?
  {
  }

  /** When every route can be driven, nothing stops the recomputation early. */
  lemma RecalculatedAllFinite(d: Matrix, depot: int, rs: seq<Route>)
    requires forall k :: 0 <= k < |rs| ==> RouteCost(d, depot, rs[k].services).Fin?
    ensures Recalculated(d, depot, rs)
            == Metrics(DropEmpty(RefreshAll(d, depot, rs)), Fin(CostSum(RefreshAll(d, depot, rs))))
  {
  }

  /** Recomputing never adds, removes or reorders services. */
  lemma RecalculatedKeepsServices(d: Matrix, depot: int, rs: seq<Route>)
    ensures Flatten(Recalculated(d, depot, rs).routes) == Flatten(rs)
  {
    var k := FirstInf(d, depot, rs);
    if k < |rs| {
      FlattenConcat(RefreshAll(d, depot, rs[..k + 1]), rs[k + 1..]);
      FlattenRefreshAll(d, depot, rs[..k + 1]);
      FlattenConcat(rs[..k + 1], rs[k + 1..]);
      assert rs[..k + 1] + rs[k + 1..] == rs;
    } else {
      FlattenDropEmpty(RefreshAll(d, depot, rs));
      FlattenRefreshAll(d, depot, rs);
    }
  }

  /** A finite recomputation leaves only current routes, in their old order
      (ids kept), and a total that is the sum of their costs. */
  lemma RecalculatedFinite(d: Matrix, depot: int, rs: seq<Route>)
    requires Recalculated(d, depot, rs).total.Fin?
    ensures var m := Recalculated(d, depot, rs);
            (forall i :: 0 <= i < |m.routes| ==> Current(d, depot, m.routes[i]))
            && m.total.value == CostSum(m.routes)
            && m.routes == DropEmpty(RefreshAll(d, depot, rs))
  {
    var renewed := RefreshAll(d, depot, rs);
    DropEmptyMembers(renewed);
    var m := Recalculated(d, depot, rs);
    forall i | 0 <= i < |m.routes| ensures Current(d, depot, m.routes[i]) {
      assert m.routes[i] in renewed;
    }
    CostSumDropEmpty(renewed);
  }

  /** Settled solutions are exactly the fixpoints of a recomputation with a
      finite total. */
  lemma SettledIff(d: Matrix, depot: int, rs: seq<Route>, total: Cost)
    ensures Settled(d, depot, rs, total) <==> total.Fin? && Recalculated(d, depot, rs) == Metrics(rs, total)
  {
    if total.Fin? && Recalculated(d, depot, rs) == Metrics(rs, total) {
      RecalculatedFinite(d, depot, rs);
    }
    if Settled(d, depot, rs, total) {
      assert RefreshAll(d, depot, rs) == rs;
      DropEmptyNone(rs);
    }
  }

  /** Recomputing twice is recomputing once: a finite recomputation settles. */
  lemma RecalculatedSettles(d: Matrix, depot: int, rs: seq<Route>)
    requires Recalculated(d, depot, rs).total.Fin?
    ensures Settled(d, depot, Recalculated(d, depot, rs).routes, Recalculated(d, depot, rs).total)
  {
    RecalculatedFinite(d, depot, rs);
  }

  // ---------------------------------------------------------------------------
  // Sums under a change of one route

  /** Replacing one route changes the sum by the difference of the two costs. */
  lemma {:induction false} CostSumUpdate(rs: seq<Route>, i: int, r: Route)
    requires 0 <= i < |rs|
    ensures CostSum(rs[i := r]) == CostSum(rs) - Cached(rs[i]) + Cached(r)
    decreases |rs|
  {
    var n := |rs| - 1;
    var rs' := rs[i := r];
    assert rs'[..n] == if i < n then rs[..n][i := r] else rs[..n];
    if i < n {
      CostSumUpdate(rs[..n], i, r);
    }
  }

  /** The routes of a finite recomputation carry the demands of the routes
      they come from, so a bound on every route's demand carries over. */
  lemma RecalculatedCapacity(d: Matrix, depot: int, rs: seq<Route>, cap: int)
    requires Recalculated(d, depot, rs).total.Fin?
    requires forall i :: 0 <= i < |rs| ==> DemandSum(rs[i].services) <= cap
    ensures forall i :: 0 <= i < |Recalculated(d, depot, rs).routes| ==>
              Recalculated(d, depot, rs).routes[i].totalDemand <= cap
  {
    var renewed := RefreshAll(d, depot, rs);
    DropEmptyMembers(renewed);
    var m := Recalculated(d, depot, rs);
    forall i | 0 <= i < |m.routes| ensures m.routes[i].totalDemand <= cap {
      assert m.routes[i] in renewed;
    }
  }

  /** Current routes cost at least, per service, one term and two legs at the
      floors. */
  lemma {:induction false} CostSumFloor(d: Matrix, depot: int, rs: seq<Route>, dl: int, tl: int)
    requires forall i :: 0 <= i < |rs| ==> Current(d, depot, rs[i])
    requires DistFloor(d, dl) && TermFloor(Flatten(rs), tl)
    ensures CostSum(rs) >= |Flatten(rs)| * (tl + 2 * dl)
    decreases |rs|
  {
    if rs != [] {
      var init := rs[..|rs| - 1];
      var last := rs[|rs| - 1];
      assert rs == init + [last];
      FlattenConcat(init, [last]);
      assert Flatten([last]) == last.services + Flatten([]);
      assert Flatten(rs) == Flatten(init) + last.services;
      assert TermFloor(Flatten(init), tl) && TermFloor(last.services, tl) by {
        forall s | s in Flatten(init) || s in last.services ensures Term(s) >= tl {
          assert s in Flatten(rs);
        }
      }
      assert forall i :: 0 <= i < |init| ==> init[i] == rs[i];
      CostSumFloor(d, depot, init, dl, tl);
      RouteCostFloor(d, depot, last.services, dl, tl);
      Distribute(|Flatten(init)|, |last.services|, tl + 2 * dl);
    }
  }

  lemma Distribute(a: int, b: int, c: int)
    ensures (a + b) * c == a * c + b * c
  {
  }
}
