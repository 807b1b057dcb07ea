/** The `Solver` class of `etapa3/Solver.hpp`: the checked constructor, the
    accumulator loop of `calculateRouteCost`, the in-place recomputation of a
    solution's metrics, the one-route-per-service construction, the three
    first-improvement moves and the local search that applies them until none
    improves, and `solve`, which ties them together. Each method is proved
    against the functions of `Etapa3RouteCost`, `Etapa3Metrics` and
    `Etapa3Moves`. */
module Etapa3Solver {
  import opened Common
  import opened Adjacency
  import opened ShortestPaths
  import opened Etapa3Graph
  import opened Etapa3Solution
  import opened Etapa3RouteCost
  import opened Etapa3Metrics
  import opened Etapa3Moves

  // ---------------------------------------------------------------------------
  // The construction, as values

  /** A service can open a route of its own: it fits in a vehicle and its
      depot-service-depot tour can be driven. */
  predicate Admissible(d: Matrix, depot: int, cap: int, s: Service)
  {
    s.demand <= cap && RouteCost(d, depot, [s]).Fin?
  }

  /** The first service `constructInitialSolution` rejects, or `|ss|`. */
  function FirstBad(d: Matrix, depot: int, cap: int, ss: seq<Service>): (k: nat)
    ensures k <= |ss|
    ensures forall t :: 0 <= t < k ==> Admissible(d, depot, cap, ss[t])
    ensures k < |ss| ==> !Admissible(d, depot, cap, ss[k])
    decreases |ss|
  {
    if ss == [] then 0
    else if !Admissible(d, depot, cap, ss[0]) then 0
    else 1 + FirstBad(d, depot, cap, ss[1..])
  }

  /** One default route per service, in catalog order, with ids `1..|ss|`. */
  function Singles(ss: seq<Service>): (rs: seq<Route>)
    ensures |rs| == |ss|
    ensures forall i :: 0 <= i < |ss| ==> rs[i] == NewRoute(i + 1).(services := [ss[i]])
  {
    seq(|ss|, i requires 0 <= i < |ss| => NewRoute(i + 1).(services := [ss[i]]))
  }

  /** The routes with ids `1..|rs|` and nothing else changed. */
  function Renumbered(rs: seq<Route>): (r: seq<Route>)
    ensures |r| == |rs|
    ensures forall i :: 0 <= i < |rs| ==> r[i] == rs[i].(id := i + 1)
  {
    seq(|rs|, i requires 0 <= i < |rs| => rs[i].(id := i + 1))
  }

  /** `saveSolution` writes "inviavel" for an infinite total, or for no route
      at all while there are services to serve. */
  predicate Infeasible(total: Cost, rs: seq<Route>, services: seq<Service>)
  {
    total.Inf? || (rs == [] && services != [])
  }

  lemma {:induction false} FlattenSingles(ss: seq<Service>)
    ensures Flatten(Singles(ss)) == ss
    decreases |ss|
  {
    if ss != [] {
      FlattenSingles(ss[1..]);
      FlattenOnlyServices(Singles(ss)[1..], Singles(ss[1..]));
    }
  }

  /** Flattening reads nothing but the services of each route. */
  lemma {:induction false} FlattenOnlyServices(a: seq<Route>, b: seq<Route>)
    requires |a| == |b| && forall i :: 0 <= i < |a| ==> a[i].services == b[i].services
    ensures Flatten(a) == Flatten(b)
    decreases |a|
  {
    if a != [] {
      FlattenOnlyServices(a[1..], b[1..]);
    }
  }

  /** When no service is rejected, the recomputed single routes form a settled,
      finite solution that serves every service once, one per route, within
      capacity. */
  lemma InitialSolutionFeasible(d: Matrix, depot: int, cap: int, ss: seq<Service>)
    requires FirstBad(d, depot, cap, ss) == |ss|
    ensures var m := Recalculated(d, depot, Singles(ss));
            m.total.Fin? && Settled(d, depot, m.routes, m.total)
            && Flatten(m.routes) == ss && |m.routes| == |ss|
            && (forall i :: 0 <= i < |m.routes| ==> |m.routes[i].services| == 1)
            && WithinCapacity(m.routes, cap)
  {
    var rs := Singles(ss);
    SinglesFinite(d, depot, cap, ss);
    RecalculatedSettles(d, depot, rs);
    RecalculatedKeepsServices(d, depot, rs);
    FlattenSingles(ss);
    SinglesKeptWhole(d, depot, ss);
    SinglesWithinCapacity(d, depot, cap, ss);
  }

  lemma SinglesFinite(d: Matrix, depot: int, cap: int, ss: seq<Service>)
    requires FirstBad(d, depot, cap, ss) == |ss|
    ensures Recalculated(d, depot, Singles(ss)).total.Fin?
    ensures forall k :: 0 <= k < |ss| ==> RouteCost(d, depot, Singles(ss)[k].services).Fin?
  {
    var rs := Singles(ss);
    forall k | 0 <= k < |rs| ensures RouteCost(d, depot, rs[k].services).Fin? {
      assert Admissible(d, depot, cap, ss[k]);
    }
    RecalculatedAllFinite(d, depot, rs);
  }

  /** No single route is empty, so none is dropped. */
  lemma SinglesKeptWhole(d: Matrix, depot: int, ss: seq<Service>)
    requires forall k :: 0 <= k < |ss| ==> RouteCost(d, depot, Singles(ss)[k].services).Fin?
    ensures Recalculated(d, depot, Singles(ss)).routes == RefreshAll(d, depot, Singles(ss))
  {
    var rs := Singles(ss);
    FirstInfAt(d, depot, rs, |rs|);
    DropEmptyNone(RefreshAll(d, depot, rs));
  }

  lemma SinglesWithinCapacity(d: Matrix, depot: int, cap: int, ss: seq<Service>)
    requires FirstBad(d, depot, cap, ss) == |ss|
    requires Recalculated(d, depot, Singles(ss)).total.Fin?
    ensures WithinCapacity(Recalculated(d, depot, Singles(ss)).routes, cap)
  {
    var rs := Singles(ss);
    forall i | 0 <= i < |rs| ensures DemandSum(rs[i].services) <= cap {
      assert Admissible(d, depot, cap, ss[i]);
      assert [ss[i]][..0] == [];
    }
    RecalculatedCapacity(d, depot, rs, cap);
  }

  /** A rejected service makes the catalog infeasible: either its demand is
      over the capacity or its own tour cannot be driven. */
  lemma FirstBadIff(d: Matrix, depot: int, cap: int, ss: seq<Service>)
    ensures FirstBad(d, depot, cap, ss) < |ss| <==> exists s :: s in ss && !Admissible(d, depot, cap, s)
  {
    if exists s :: s in ss && !Admissible(d, depot, cap, s) {
      var s :| s in ss && !Admissible(d, depot, cap, s);
      var t :| 0 <= t < |ss| && ss[t] == s;
    }
  }

  // ---------------------------------------------------------------------------
  // Facts the local search needs

  /** The floor of the terms depends only on which services there are. */
  lemma SameServicesFloor(a: seq<Service>, b: seq<Service>, tl: int)
    requires multiset(a) == multiset(b) && TermFloor(a, tl)
    ensures TermFloor(b, tl)
  {
    forall s | s in b ensures Term(s) >= tl {
      assert s in multiset(b);
    }
  }

  /** The moves read services, cached demands and cached costs, never ids. */
  lemma OptimumIgnoresIds(e: Setting, rs: seq<Route>)
    requires LocalOptimum(e, rs)
    ensures LocalOptimum(e, Renumbered(rs))
  {
    RelocateIgnoresIds(e, rs);
    SwapIgnoresIds(e, rs);
    TwoOptIgnoresIds(e, rs);
  }

  lemma RelocateIgnoresIds(e: Setting, rs: seq<Route>)
    requires NoRelocate(e, rs)
    ensures NoRelocate(e, Renumbered(rs))
  {
    var rn := Renumbered(rs);
    NoRelocateMeansNone(e, rs);
    NoRelocateMeansNone(e, rn);
    forall m | RelocationIn(rn, m) ensures !RelocateImproves(e, rn, m.r1, m.s, m.r2, m.pos) {
      assert RelocationIn(rs, m);
      SameRelocateTest(e, rs, rn, m);
    }
  }

  /** The relocation test reads only the services and caches of its routes. */
  lemma SameRelocateTest(e: Setting, rs: seq<Route>, rn: seq<Route>, m: Relocation)
    requires RelocationIn(rs, m) && |rn| == |rs|
    requires rn[m.r1] == rs[m.r1].(id := rn[m.r1].id) && rn[m.r2] == rs[m.r2].(id := rn[m.r2].id)
    ensures RelocateImproves(e, rn, m.r1, m.s, m.r2, m.pos) == RelocateImproves(e, rs, m.r1, m.s, m.r2, m.pos)
  {
  }

  lemma SwapIgnoresIds(e: Setting, rs: seq<Route>)
    requires NoSwap(e, rs)
    ensures NoSwap(e, Renumbered(rs))
  {
    var rn := Renumbered(rs);
    NoSwapMeansNone(e, rs);
    NoSwapMeansNone(e, rn);
    forall m | ExchangeIn(rn, m) ensures !SwapImproves(e, rn, m.r1, m.r2, m.s1, m.s2) {
      assert ExchangeIn(rs, m);
      assert rn[m.r1].services == rs[m.r1].services && rn[m.r2].services == rs[m.r2].services;
    }
  }

  lemma TwoOptIgnoresIds(e: Setting, rs: seq<Route>)
    requires NoTwoOpt(e, rs)
    ensures NoTwoOpt(e, Renumbered(rs))
  {
    var rn := Renumbered(rs);
    NoTwoOptMeansNone(e, rs);
    NoTwoOptMeansNone(e, rn);
    forall m | ReversalIn(rn, m) ensures !TwoOptImproves(e, rn, m.r, m.i, m.j) {
      assert ReversalIn(rs, m);
      assert rn[m.r].services == rs[m.r].services;
    }
  }

  /** Renumbering keeps a settled solution settled, with the same services. */
  lemma RenumberedSettled(d: Matrix, depot: int, rs: seq<Route>, total: Cost, cap: int)
    requires Settled(d, depot, rs, total)
    ensures Settled(d, depot, Renumbered(rs), total)
    ensures Flatten(Renumbered(rs)) == Flatten(rs)
    ensures WithinCapacity(rs, cap) ==> WithinCapacity(Renumbered(rs), cap)
  {
    FlattenOnlyServices(Renumbered(rs), rs);
    CostSumOnlyCaches(Renumbered(rs), rs);
  }

  /** The state of the loop of `recalculateSolutionMetrics` after `i` routes:
      those are refreshed, the rest untouched, all of them drivable, and `sum`
      is their cost. */
  ghost predicate Refreshing(d: Matrix, depot: int, rs: seq<Route>, i: int, routes: seq<Route>, sum: int)
  {
    0 <= i <= |rs| && i <= FirstInf(d, depot, rs)
    && routes == RefreshAll(d, depot, rs[..i]) + rs[i..]
    && sum == CostSum(RefreshAll(d, depot, rs[..i]))
  }

  /** Refreshing route `i`: a drivable one extends the loop state; one that
      cannot be driven is where the recomputation stops. */
  lemma RefreshStep(d: Matrix, depot: int, rs: seq<Route>, i: int, routes: seq<Route>, sum: int, renewed: Route)
    requires Refreshing(d, depot, rs, i, routes, sum) && i < |rs|
    requires renewed == Refresh(d, depot, rs[i])
    ensures renewed.totalCost.Fin? ==>
              Refreshing(d, depot, rs, i + 1, routes[i := renewed], sum + renewed.totalCost.value)
    ensures renewed.totalCost.Inf? ==> Recalculated(d, depot, rs) == Metrics(routes[i := renewed], Inf)
  {
    var before := RefreshAll(d, depot, rs[..i]);
    var after := RefreshAll(d, depot, rs[..i + 1]);
    assert after == before + [renewed];
    assert after[..i] == before;
    assert routes[i := renewed] == after + rs[i + 1..];
  }

  lemma RefreshStart(d: Matrix, depot: int, rs: seq<Route>)
    ensures Refreshing(d, depot, rs, 0, rs, 0)
  {
    assert rs[..0] == [];
  }

  /** After every route: the copy holds all of them refreshed, and the total is
      the sum of their costs. */
  lemma RefreshDone(d: Matrix, depot: int, rs: seq<Route>, routes: seq<Route>, sum: int)
    requires Refreshing(d, depot, rs, |rs|, routes, sum)
    ensures Recalculated(d, depot, rs) == Metrics(DropEmpty(routes), Fin(sum))
  {
    assert rs[..|rs|] == rs;
    assert routes == RefreshAll(d, depot, rs);
  }

  /** The sum of the cached costs reads nothing but the cached costs. */
  lemma {:induction false} CostSumOnlyCaches(a: seq<Route>, b: seq<Route>)
    requires |a| == |b| && forall i :: 0 <= i < |a| ==> a[i].totalCost == b[i].totalCost
    ensures CostSum(a) == CostSum(b)
    decreases |a|
  {
    if a != [] {
      CostSumOnlyCaches(a[..|a| - 1], b[..|b| - 1]);
    }
  }

  // ---------------------------------------------------------------------------
  // The solver

  class Solver {
    /** The graph the solver was built on; its edges may still be added to
        until the distance table is filled. */
    const graph: Graph
    const depot: int
    const capacity: int
    var allServices: seq<Service>
    /** The cached table of `floydWarshall`, meaningful once `areDistancesCalculated`. */
    var distances: Matrix
    var areDistancesCalculated: bool

    /** The fixed inputs of every cost and move. */
    function Env(): Setting
      reads this
    {
      Setting(distances, depot, capacity)
    }

    /** Once filled, the cached table is `V` by `V`. */
    ghost predicate Valid()
      reads this
    {
      areDistancesCalculated ==> IsSquare(distances, graph.V)
    }

    /** `Solver(g, depotNode, vehicleCapacity, name)` for arguments that pass the
        checks: nothing is computed yet, the distance cache is empty. */
    constructor(g: Graph, depotNode: int, vehicleCapacity: int)
      requires 0 <= depotNode < g.V && vehicleCapacity > 0
      ensures graph == g && depot == depotNode && capacity == vehicleCapacity && allServices == []
      ensures Valid() && !areDistancesCalculated && distances == []
    {
      graph := g;
      depot := depotNode;
      capacity := vehicleCapacity;
      allServices := [];
      distances := [];
      areDistancesCalculated := false;
    }

    /** `ensureDistancesCalculated`: the first call fills the cache with the
        table of the graph as it stands then; later calls keep the cached
        table, whatever edges the graph has gained since. */
    method EnsureDistancesCalculated()
      requires Valid() && graph.Valid()
      modifies this
      ensures areDistancesCalculated && allServices == old(allServices)
      ensures Valid() && IsSquare(distances, graph.V)
      ensures old(areDistancesCalculated) ==> distances == old(distances)
      ensures !old(areDistancesCalculated) && NonNegativeCosts(graph.adj) ==> distances == Shortest(MinInit(graph.adj))
    {
      if !areDistancesCalculated {
        distances := graph.FloydWarshall();
        areDistancesCalculated := true;
      }
    }

    /** `getDistance(from, to)`: fills the cache if needed, then infinity for an
        index outside the table and the table's entry otherwise. */
    method GetDistance(from: int, to: int) returns (d: Cost)
      requires Valid() && graph.Valid()
      modifies this
      ensures areDistancesCalculated && allServices == old(allServices)
      ensures Valid() && IsSquare(distances, graph.V)
      ensures old(areDistancesCalculated) ==> distances == old(distances)
      ensures !old(areDistancesCalculated) && NonNegativeCosts(graph.adj) ==> distances == Shortest(MinInit(graph.adj))
      ensures !(0 <= from < graph.V && 0 <= to < graph.V) ==> d == Inf
      ensures 0 <= from < graph.V && 0 <= to < graph.V ==> d == distances[from][to]
    {
      EnsureDistancesCalculated();
      d := Dist(distances, from, to);
    }

    /** `addService`: appended as given. */
    method AddService(s: Service)
      modifies this
      ensures allServices == old(allServices) + [s]
    {
      allServices := allServices + [s];
    }

    /** `calculateRouteCost`: the accumulator loop computes the route cost, and
        returns infinity at the first leg that cannot be driven. */
    method CalculateRouteCost(ss: seq<Service>) returns (c: Cost)
      ensures c == RouteCost(distances, depot, ss)
    {
      if ss == [] {
        return Fin(0);
      }
      var current := 0;
      var last := depot;
      var i := 0;
      while i < |ss|
        invariant 0 <= i <= |ss|
        invariant Add(Fin(current), RouteCostFrom(distances, depot, last, ss[i..])) == RouteCostFrom(distances, depot, depot, ss)
      {
        assert ss[i..][0] == ss[i] && ss[i..][1..] == ss[i + 1..];
        var travel := Dist(distances, last, ss[i].u);
        if travel.Inf? {
          return Inf;
        }
        current := current + travel.value + ss[i].serviceCost;
        if ss[i].kind != 'N' {
          current := current + ss[i].travelCost;
        }
        last := ss[i].v;
        i := i + 1;
      }
      var back := Dist(distances, last, depot);
      if back.Inf? {
        return Inf;
      }
      current := current + back.value;
      return Fin(current);
    }

    /** The inner loop of `recalculateSolutionMetrics`: the route's demand. */
    method SumDemands(ss: seq<Service>) returns (total: int)
      ensures total == DemandSum(ss)
    {
      total := 0;
      var i := 0;
      while i < |ss|
        invariant 0 <= i <= |ss| && total == DemandSum(ss[..i])
      {
        assert ss[..i + 1][..i] == ss[..i];
        total := total + ss[i].demand;
        i := i + 1;
      }
      assert ss[..|ss|] == ss;
    }

    /** The body of the loop of `recalculateSolutionMetrics`: the route's
        demand and cost recomputed from its services. */
    method RefreshRoute(r: Route) returns (renewed: Route)
      ensures renewed == Refresh(distances, depot, r)
    {
      var demand := SumDemands(r.services);
      var cost := CalculateRouteCost(r.services);
      renewed := r.(totalDemand := demand, totalCost := cost);
    }

    /** The loop of `recalculateSolutionMetrics` over a copy of the routes:
        each route is refreshed in turn; at the first that cannot be driven
        the total becomes infinite and the rest is left alone; otherwise the
        total is the sum of the route costs and the empty routes are dropped. */
    method RecalculateRoutes(rs: seq<Route>) returns (routes: seq<Route>, total: Cost)
      ensures Metrics(routes, total) == Recalculated(distances, depot, rs)
    {
      routes := rs;
      var sum := 0;
      var i := 0;
      RefreshStart(distances, depot, rs);
      while i < |rs|
        invariant 0 <= i <= |rs|
        invariant Refreshing(distances, depot, rs, i, routes, sum)
        decreases |rs| - i
      {
        var renewed := RefreshRoute(rs[i]);
        RefreshStep(distances, depot, rs, i, routes, sum, renewed);
        routes := routes[i := renewed];
        if renewed.totalCost.Inf? {
          return routes, Inf;
        }
        sum := sum + renewed.totalCost.value;
        i := i + 1;
      }
      RefreshDone(distances, depot, rs, routes, sum);
      routes := DropEmpty(routes);
      total := Fin(sum);
    }

    /** `recalculateSolutionMetrics`: the routes and total become those of
        `Recalculated`; the time is untouched. */
    method RecalculateSolutionMetrics(sol: Solution)
      modifies sol
      ensures Metrics(sol.routes, sol.totalCost) == Recalculated(distances, depot, old(sol.routes))
      ensures sol.executionTimeMicroseconds == old(sol.executionTimeMicroseconds)
    {
      var routes, total := RecalculateRoutes(sol.routes);
      sol.routes := routes;
      sol.totalCost := total;
    }

    /** `constructInitialSolution`: one route per service in catalog order;
        at the first rejected service the routes built so far are kept with
        their default caches and the total is infinite; otherwise the metrics
        of all single routes are recomputed. */
    method ConstructInitialSolution() returns (sol: Solution)
      ensures fresh(sol) && sol.executionTimeMicroseconds == 0
      ensures FirstBad(distances, depot, capacity, allServices) < |allServices| ==>
                sol.totalCost == Inf
                && sol.routes == Singles(allServices)[..FirstBad(distances, depot, capacity, allServices)]
      ensures FirstBad(distances, depot, capacity, allServices) == |allServices| ==>
                Metrics(sol.routes, sol.totalCost) == Recalculated(distances, depot, Singles(allServices))
    {
      sol := new Solution();
      var i := 0;
      while i < |allServices|
        invariant 0 <= i <= |allServices|
        invariant i <= FirstBad(distances, depot, capacity, allServices)
        invariant fresh(sol) && |sol.routes| == i
        invariant forall k :: 0 <= k < i ==> sol.routes[k] == Singles(allServices)[k]
        invariant sol.totalCost == Fin(0) && sol.executionTimeMicroseconds == 0
      {
        var service := allServices[i];
        if service.demand > capacity {
          assert sol.routes == Singles(allServices)[..i];
          sol.totalCost := Inf;
          return;
        }
        var newRoute := NewRoute(i + 1).(services := [service]);
        var cost := CalculateRouteCost(newRoute.services);
        if cost.Inf? {
          assert sol.routes == Singles(allServices)[..i];
          sol.totalCost := Inf;
          return;
        }
        sol.routes := sol.routes + [newRoute];
        i := i + 1;
      }
      assert sol.routes == Singles(allServices);
      RecalculateSolutionMetrics(sol);
    }

    // -------------------------------------------------------------------------
    // tryRelocate

    /** The innermost loop of `tryRelocate`: the first insertion position that
        improves, with `c1` the cost of the shortened route. */
    method FindRelocateAt(rs: seq<Route>, r1: int, s: int, r2: int, c1: Cost) returns (m: Option<Relocation>)
      requires 0 <= r1 < |rs| && 0 <= s < |rs[r1].services| && 0 <= r2 < |rs| && r1 != r2
      requires rs[r2].totalDemand + rs[r1].services[s].demand <= capacity
      requires c1 == CostIn(Env(), Remove(rs[r1].services, s))
      ensures m.None? ==> NoRelocateAt(Env(), rs, r1, s, r2, |rs[r2].services| + 1)
      ensures m.Some? ==> m.value.r1 == r1 && m.value.s == s && m.value.r2 == r2 && RelocationIn(rs, m.value)
                          && RelocateImproves(Env(), rs, r1, s, r2, m.value.pos)
                          && NoRelocateAt(Env(), rs, r1, s, r2, m.value.pos)
    {
      var x := rs[r1].services[s];
      var pos := 0;
      while pos <= |rs[r2].services|
        invariant 0 <= pos <= |rs[r2].services| + 1
        invariant NoRelocateAt(Env(), rs, r1, s, r2, pos)
      {
        var c2 := CalculateRouteCost(Insert(rs[r2].services, pos, x));
        if c1.Fin? && c2.Fin? && Less(Fin(c1.value + c2.value), Add(rs[r1].totalCost, rs[r2].totalCost)) {
          return Some(Relocation(r1, s, r2, pos));
        }
        assert !RelocateImproves(Env(), rs, r1, s, r2, pos);
        NoRelocateAtStep(Env(), rs, r1, s, r2, pos);
        pos := pos + 1;
      }
      return None;
    }

    /** The loop over receiving routes: skips the own route and every route
        whose cached demand leaves no room. */
    method FindRelocateInto(rs: seq<Route>, r1: int, s: int) returns (m: Option<Relocation>)
      requires 0 <= r1 < |rs| && 0 <= s < |rs[r1].services|
      ensures m.None? ==> NoRelocateInto(Env(), rs, r1, s, |rs|)
      ensures m.Some? ==> m.value.r1 == r1 && m.value.s == s && RelocationIn(rs, m.value)
                          && RelocateImproves(Env(), rs, r1, s, m.value.r2, m.value.pos)
                          && NoRelocateInto(Env(), rs, r1, s, m.value.r2)
                          && NoRelocateAt(Env(), rs, r1, s, m.value.r2, m.value.pos)
    {
      var x := rs[r1].services[s];
      var r2 := 0;
      while r2 < |rs|
        invariant 0 <= r2 <= |rs|
        invariant NoRelocateInto(Env(), rs, r1, s, r2)
      {
        if r1 == r2 || rs[r2].totalDemand + x.demand > capacity {
          RelocateSkipped(Env(), rs, r1, s, r2);
          NoRelocateIntoStep(Env(), rs, r1, s, r2);
          r2 := r2 + 1;
          continue;
        }
        var c1 := CalculateRouteCost(Remove(rs[r1].services, s));
        m := FindRelocateAt(rs, r1, s, r2, c1);
        if m.Some? {
          return;
        }
        NoRelocateIntoStep(Env(), rs, r1, s, r2);
        r2 := r2 + 1;
      }
      return None;
    }

    /** The loop over the services of route `r1`. */
    method FindRelocateOf(rs: seq<Route>, r1: int) returns (m: Option<Relocation>)
      requires 0 <= r1 < |rs|
      ensures m.None? ==> NoRelocateOf(Env(), rs, r1, |rs[r1].services|)
      ensures m.Some? ==> m.value.r1 == r1 && RelocationIn(rs, m.value)
                          && RelocateImproves(Env(), rs, r1, m.value.s, m.value.r2, m.value.pos)
                          && NoRelocateOf(Env(), rs, r1, m.value.s)
                          && NoRelocateInto(Env(), rs, r1, m.value.s, m.value.r2)
                          && NoRelocateAt(Env(), rs, r1, m.value.s, m.value.r2, m.value.pos)
    {
      var s := 0;
      while s < |rs[r1].services|
        invariant 0 <= s <= |rs[r1].services|
        invariant NoRelocateOf(Env(), rs, r1, s)
      {
        m := FindRelocateInto(rs, r1, s);
        if m.Some? {
          return;
        }
        NoRelocateOfStep(Env(), rs, r1, s);
        s := s + 1;
      }
      return None;
    }

    /** The outer loop of `tryRelocate`: the first improving relocation in
        loop order, or none when no relocation improves. */
    method FindRelocate(rs: seq<Route>) returns (m: Option<Relocation>)
      ensures m.None? ==> NoRelocate(Env(), rs)
      ensures m.Some? ==> FirstRelocate(Env(), rs, m.value)
    {
      var r1 := 0;
      while r1 < |rs|
        invariant 0 <= r1 <= |rs|
        invariant NoRelocateBefore(Env(), rs, r1)
      {
        m := FindRelocateOf(rs, r1);
        if m.Some? {
          return;
        }
        NoRelocateBeforeStep(Env(), rs, r1);
        r1 := r1 + 1;
      }
      return None;
    }

    /** `tryRelocate`: commits the first improving relocation and recomputes
        the metrics; without one the solution is unchanged and no relocation
        improves it. */
    method TryRelocate(sol: Solution) returns (improved: bool)
      modifies sol
      ensures sol.executionTimeMicroseconds == old(sol.executionTimeMicroseconds)
      ensures !improved ==> sol.routes == old(sol.routes) && sol.totalCost == old(sol.totalCost)
                            && NoRelocate(Env(), sol.routes)
      ensures improved ==> exists m :: FirstRelocate(Env(), old(sol.routes), m)
                                       && Metrics(sol.routes, sol.totalCost)
                                          == Recalculated(distances, depot, ApplyRelocate(old(sol.routes), m))
    {
      var found := FindRelocate(sol.routes);
      if found.None? {
        return false;
      }
      var m := found.value;
      ghost var before := sol.routes;
      var x := sol.routes[m.r1].services[m.s];
      sol.routes := sol.routes[m.r1 := sol.routes[m.r1].(services := Remove(sol.routes[m.r1].services, m.s))];
      sol.routes := sol.routes[m.r2 := sol.routes[m.r2].(services := Insert(sol.routes[m.r2].services, m.pos, x))];
      assert sol.routes == ApplyRelocate(before, m);
      RecalculateSolutionMetrics(sol);
      return true;
    }

    // -------------------------------------------------------------------------
    // trySwap

    /** The innermost loop of `trySwap`: the first partner in route `r2` for
        service `s1` of route `r1`. */
    method FindSwapAt(rs: seq<Route>, r1: int, r2: int, s1: int) returns (m: Option<Exchange>)
      requires 0 <= r1 < r2 < |rs| && 0 <= s1 < |rs[r1].services|
      ensures m.None? ==> NoSwapAt(Env(), rs, r1, r2, s1, |rs[r2].services|)
      ensures m.Some? ==> m.value.r1 == r1 && m.value.r2 == r2 && m.value.s1 == s1 && ExchangeIn(rs, m.value)
                          && SwapImproves(Env(), rs, r1, r2, s1, m.value.s2)
                          && NoSwapAt(Env(), rs, r1, r2, s1, m.value.s2)
    {
      var s2 := 0;
      while s2 < |rs[r2].services|
        invariant 0 <= s2 <= |rs[r2].services|
        invariant NoSwapAt(Env(), rs, r1, r2, s1, s2)
      {
        var a := rs[r1].services[s1];
        var b := rs[r2].services[s2];
        if rs[r1].totalDemand - a.demand + b.demand <= capacity && rs[r2].totalDemand - b.demand + a.demand <= capacity {
          var c1 := CalculateRouteCost(rs[r1].services[s1 := b]);
          var c2 := CalculateRouteCost(rs[r2].services[s2 := a]);
          if c1.Fin? && c2.Fin? && Less(Fin(c1.value + c2.value), Add(rs[r1].totalCost, rs[r2].totalCost)) {
            return Some(Exchange(r1, r2, s1, s2));
          }
        }
        s2 := s2 + 1;
      }
      return None;
    }

    /** The loop over the services of route `r1` against route `r2`. */
    method FindSwapOf(rs: seq<Route>, r1: int, r2: int) returns (m: Option<Exchange>)
      requires 0 <= r1 < r2 < |rs|
      ensures m.None? ==> NoSwapOf(Env(), rs, r1, r2, |rs[r1].services|)
      ensures m.Some? ==> m.value.r1 == r1 && m.value.r2 == r2 && ExchangeIn(rs, m.value)
                          && SwapImproves(Env(), rs, r1, r2, m.value.s1, m.value.s2)
                          && NoSwapOf(Env(), rs, r1, r2, m.value.s1)
                          && NoSwapAt(Env(), rs, r1, r2, m.value.s1, m.value.s2)
    {
      var s1 := 0;
      while s1 < |rs[r1].services|
        invariant 0 <= s1 <= |rs[r1].services|
        invariant NoSwapOf(Env(), rs, r1, r2, s1)
      {
        m := FindSwapAt(rs, r1, r2, s1);
        if m.Some? {
          return;
        }
        NoSwapOfStep(Env(), rs, r1, r2, s1);
        s1 := s1 + 1;
      }
      return None;
    }

    /** The loop over the routes after `r1`. */
    method FindSwapWith(rs: seq<Route>, r1: int) returns (m: Option<Exchange>)
      requires 0 <= r1 < |rs|
      ensures m.None? ==> NoSwapWith(Env(), rs, r1, |rs|)
      ensures m.Some? ==> m.value.r1 == r1 && ExchangeIn(rs, m.value)
                          && SwapImproves(Env(), rs, r1, m.value.r2, m.value.s1, m.value.s2)
                          && NoSwapWith(Env(), rs, r1, m.value.r2)
                          && NoSwapOf(Env(), rs, r1, m.value.r2, m.value.s1)
                          && NoSwapAt(Env(), rs, r1, m.value.r2, m.value.s1, m.value.s2)
    {
      var r2 := r1 + 1;
      while r2 < |rs|
        invariant r1 < r2 <= |rs|
        invariant NoSwapWith(Env(), rs, r1, r2)
      {
        m := FindSwapOf(rs, r1, r2);
        if m.Some? {
          return;
        }
        NoSwapWithStep(Env(), rs, r1, r2);
        r2 := r2 + 1;
      }
      return None;
    }

    /** The outer loop of `trySwap`. */
    method FindSwap(rs: seq<Route>) returns (m: Option<Exchange>)
      ensures m.None? ==> NoSwap(Env(), rs)
      ensures m.Some? ==> FirstSwap(Env(), rs, m.value)
    {
      var r1 := 0;
      while r1 < |rs|
        invariant 0 <= r1 <= |rs|
        invariant NoSwapBefore(Env(), rs, r1)
      {
        m := FindSwapWith(rs, r1);
        if m.Some? {
          return;
        }
        NoSwapBeforeStep(Env(), rs, r1);
        r1 := r1 + 1;
      }
      return None;
    }

    /** `trySwap`: commits the first improving exchange and recomputes the
        metrics; without one the solution is unchanged and no exchange
        improves it. */
    method TrySwap(sol: Solution) returns (improved: bool)
      modifies sol
      ensures sol.executionTimeMicroseconds == old(sol.executionTimeMicroseconds)
      ensures !improved ==> sol.routes == old(sol.routes) && sol.totalCost == old(sol.totalCost)
                            && NoSwap(Env(), sol.routes)
      ensures improved ==> exists m :: FirstSwap(Env(), old(sol.routes), m)
                                       && Metrics(sol.routes, sol.totalCost)
                                          == Recalculated(distances, depot, ApplySwap(old(sol.routes), m))
    {
      var found := FindSwap(sol.routes);
      if found.None? {
        return false;
      }
      var m := found.value;
      ghost var before := sol.routes;
      var a := sol.routes[m.r1].services[m.s1];
      var b := sol.routes[m.r2].services[m.s2];
      sol.routes := sol.routes[m.r1 := sol.routes[m.r1].(services := sol.routes[m.r1].services[m.s1 := b])];
      sol.routes := sol.routes[m.r2 := sol.routes[m.r2].(services := sol.routes[m.r2].services[m.s2 := a])];
      assert sol.routes == ApplySwap(before, m);
      RecalculateSolutionMetrics(sol);
      return true;
    }

    // -------------------------------------------------------------------------
    // try2Opt

    /** The inner loop of `try2Opt`: the first end `j` of a reversal from `i`. */
    method FindTwoOptAt(rs: seq<Route>, r: int, i: int) returns (m: Option<Reversal>)
      requires 0 <= r < |rs| && 0 <= i < |rs[r].services|
      ensures m.None? ==> NoTwoOptAt(Env(), rs, r, i, |rs[r].services|)
      ensures m.Some? ==> m.value.r == r && m.value.i == i && ReversalIn(rs, m.value)
                          && TwoOptImproves(Env(), rs, r, i, m.value.j)
                          && NoTwoOptAt(Env(), rs, r, i, m.value.j)
    {
      var j := i + 1;
      while j < |rs[r].services|
        invariant i < j <= |rs[r].services|
        invariant NoTwoOptAt(Env(), rs, r, i, j)
      {
        var renewed := ReverseRange(rs[r].services, i, j);
        var cost := CalculateRouteCost(renewed);
        if Less(cost, rs[r].totalCost) {
          return Some(Reversal(r, i, j));
        }
        NoTwoOptAtStep(Env(), rs, r, i, j);
        j := j + 1;
      }
      return None;
    }

    /** The loop over the start `i` of a reversal in route `r`; a route with
        fewer than two services is skipped. */
    method FindTwoOptIn(rs: seq<Route>, r: int) returns (m: Option<Reversal>)
      requires 0 <= r < |rs|
      ensures m.None? ==> NoTwoOptIn(Env(), rs, r, |rs[r].services|)
      ensures m.Some? ==> m.value.r == r && ReversalIn(rs, m.value)
                          && TwoOptImproves(Env(), rs, r, m.value.i, m.value.j)
                          && NoTwoOptIn(Env(), rs, r, m.value.i)
                          && NoTwoOptAt(Env(), rs, r, m.value.i, m.value.j)
    {
      var n := |rs[r].services|;
      if n < 2 {
        NoTwoOptInLast(Env(), rs, r);
        return None;
      }
      var i := 0;
      while i < n - 1
        invariant 0 <= i <= n - 1
        invariant NoTwoOptIn(Env(), rs, r, i)
      {
        m := FindTwoOptAt(rs, r, i);
        if m.Some? {
          return;
        }
        NoTwoOptInStep(Env(), rs, r, i);
        i := i + 1;
      }
      NoTwoOptInLast(Env(), rs, r);
      return None;
    }

    /** The outer loop of `try2Opt`. */
    method FindTwoOpt(rs: seq<Route>) returns (m: Option<Reversal>)
      ensures m.None? ==> NoTwoOpt(Env(), rs)
      ensures m.Some? ==> FirstTwoOpt(Env(), rs, m.value)
    {
      var r := 0;
      while r < |rs|
        invariant 0 <= r <= |rs|
        invariant NoTwoOptBefore(Env(), rs, r)
      {
        m := FindTwoOptIn(rs, r);
        if m.Some? {
          return;
        }
        NoTwoOptBeforeStep(Env(), rs, r);
        r := r + 1;
      }
      return None;
    }

    /** `try2Opt`: commits the first improving reversal and recomputes the
        metrics; without one the solution is unchanged and no reversal
        improves it. */
    method Try2Opt(sol: Solution) returns (improved: bool)
      modifies sol
      ensures sol.executionTimeMicroseconds == old(sol.executionTimeMicroseconds)
      ensures !improved ==> sol.routes == old(sol.routes) && sol.totalCost == old(sol.totalCost)
                            && NoTwoOpt(Env(), sol.routes)
      ensures improved ==> exists m :: FirstTwoOpt(Env(), old(sol.routes), m)
                                       && Metrics(sol.routes, sol.totalCost)
                                          == Recalculated(distances, depot, ApplyTwoOpt(old(sol.routes), m))
    {
      var found := FindTwoOpt(sol.routes);
      if found.None? {
        return false;
      }
      var m := found.value;
      ghost var before := sol.routes;
      sol.routes := sol.routes[m.r := sol.routes[m.r].(services := ReverseRange(sol.routes[m.r].services, m.i, m.j))];
      assert sol.routes == ApplyTwoOpt(before, m);
      RecalculateSolutionMetrics(sol);
      return true;
    }

    // -------------------------------------------------------------------------
    // localSearch and solve

    /** `localSearch` on a settled solution: it stops, at a local optimum, with
        a settled solution that serves the same services, at a total no larger
        than before; routes stay within capacity (for relocation this needs
        demands of at least zero). */
    method LocalSearch(sol: Solution)
      requires Settled(distances, depot, sol.routes, sol.totalCost)
      modifies sol
      ensures Settled(distances, depot, sol.routes, sol.totalCost)
      ensures LocalOptimum(Env(), sol.routes)
      ensures multiset(Flatten(sol.routes)) == multiset(Flatten(old(sol.routes)))
      ensures sol.totalCost.value <= old(sol.totalCost.value)
      ensures WithinCapacity(old(sol.routes), capacity) && NonNegativeDemands(Flatten(old(sol.routes)))
              ==> WithinCapacity(sol.routes, capacity)
      ensures sol.executionTimeMicroseconds == old(sol.executionTimeMicroseconds)
    {
      ghost var e := Env();
      ghost var start := Flatten(sol.routes);
      ghost var fits := WithinCapacity(sol.routes, capacity) && NonNegativeDemands(start);
      ghost var dl := SomeDistFloor(distances);
      ghost var tl := SomeTermFloor(start);
      ghost var floor := |start| * (tl + 2 * dl);
      CostSumFloor(distances, depot, sol.routes, dl, tl);
      var improvement := true;
      while improvement
        invariant Settled(distances, depot, sol.routes, sol.totalCost)
        invariant multiset(Flatten(sol.routes)) == multiset(start)
        invariant sol.totalCost.value >= floor
        invariant sol.totalCost.value <= old(sol.totalCost.value)
        invariant fits ==> WithinCapacity(sol.routes, capacity)
        invariant !improvement ==> LocalOptimum(e, sol.routes)
        invariant sol.executionTimeMicroseconds == old(sol.executionTimeMicroseconds)
        decreases 2 * (sol.totalCost.value - floor) + (if improvement then 1 else 0)
      {
        if fits {
          SameDemands(start, Flatten(sol.routes));
        }
        improvement := ImproveOnce(sol);
        Progress(sol.routes, start, tl, dl);
      }
    }

    /** One pass of the `localSearch` loop body: the first improving
        relocation, else the first improving swap, else the first improving
        reversal, committed and recomputed. An improvement lowers the total;
        no improvement leaves the solution as it is, at a local optimum. */
    method ImproveOnce(sol: Solution) returns (improvement: bool)
      requires Settled(distances, depot, sol.routes, sol.totalCost)
      modifies sol
      ensures Settled(distances, depot, sol.routes, sol.totalCost)
      ensures multiset(Flatten(sol.routes)) == multiset(Flatten(old(sol.routes)))
      ensures improvement ==> sol.totalCost.value < old(sol.totalCost.value)
      ensures !improvement ==> sol.routes == old(sol.routes) && sol.totalCost == old(sol.totalCost)
                               && LocalOptimum(Env(), sol.routes)
      ensures WithinCapacity(old(sol.routes), capacity) && NonNegativeDemands(Flatten(old(sol.routes)))
              ==> WithinCapacity(sol.routes, capacity)
      ensures sol.executionTimeMicroseconds == old(sol.executionTimeMicroseconds)
    {
      ghost var e := Env();
      ghost var before := sol.routes;
      ghost var total := sol.totalCost;
      var relocated := TryRelocate(sol);
      if relocated {
        ghost var m :| FirstRelocate(e, before, m)
                       && Metrics(sol.routes, sol.totalCost) == Recalculated(distances, depot, ApplyRelocate(before, m));
        RelocateEffect(e, before, total, m);
        return true;
      }
      var swapped := TrySwap(sol);
      if swapped {
        ghost var m :| FirstSwap(e, before, m)
                       && Metrics(sol.routes, sol.totalCost) == Recalculated(distances, depot, ApplySwap(before, m));
        SwapEffect(e, before, total, m);
        return true;
      }
      var reversed := Try2Opt(sol);
      if reversed {
        ghost var m :| FirstTwoOpt(e, before, m)
                       && Metrics(sol.routes, sol.totalCost) == Recalculated(distances, depot, ApplyTwoOpt(before, m));
        TwoOptEffect(e, before, total, m);
        return true;
      }
      return false;
    }

    /** Services with the same multiset carry the same demands. */
    static lemma SameDemands(a: seq<Service>, b: seq<Service>)
      requires multiset(a) == multiset(b) && NonNegativeDemands(a)
      ensures NonNegativeDemands(b)
    {
      forall s | s in b ensures s.demand >= 0 {
        assert s in multiset(b);
      }
    }

    /** The floor of a settled solution with the services `start` is reached
        again after a move: the same services have the same floor. */
    lemma Progress(rs: seq<Route>, start: seq<Service>, tl: int, dl: int)
      requires multiset(Flatten(rs)) == multiset(start) && TermFloor(start, tl) && DistFloor(distances, dl)
      requires forall i :: 0 <= i < |rs| ==> Current(distances, depot, rs[i])
      ensures CostSum(rs) >= |start| * (tl + 2 * dl)
    {
      SameServicesFloor(start, Flatten(rs), tl);
      CostSumFloor(distances, depot, rs, dl, tl);
      assert |multiset(Flatten(rs))| == |multiset(start)|;
    }

    /** `solve` with the elapsed time given: the distance cache is filled first,
        from the graph as it stands unless it already holds a table; then the
        initial solution is improved by the local search unless its total is
        infinite, and the routes are renumbered `1..k`. Against that table,
        the result is infeasible exactly when some service is rejected by the
        construction, and then holds the single routes built before it;
        otherwise it is settled, locally optimal, serves every service exactly
        once and, with demands of at least zero, keeps every route within
        capacity. */
    method Solve(elapsed: int) returns (sol: Solution)
      requires Valid() && graph.Valid()
      modifies this
      ensures Valid() && IsSquare(distances, graph.V)
      ensures areDistancesCalculated && allServices == old(allServices)
      ensures old(areDistancesCalculated) ==> distances == old(distances)
      ensures !old(areDistancesCalculated) && NonNegativeCosts(graph.adj) ==> distances == Shortest(MinInit(graph.adj))
      ensures fresh(sol) && sol.executionTimeMicroseconds == elapsed
      ensures forall i :: 0 <= i < |sol.routes| ==> sol.routes[i].id == i + 1
      ensures Infeasible(sol.totalCost, sol.routes, allServices)
              <==> FirstBad(distances, depot, capacity, allServices) < |allServices|
      ensures FirstBad(distances, depot, capacity, allServices) < |allServices| ==>
                sol.totalCost == Inf
                && sol.routes == Singles(allServices)[..FirstBad(distances, depot, capacity, allServices)]
      ensures FirstBad(distances, depot, capacity, allServices) == |allServices| ==>
                Solved(Env(), sol.routes, sol.totalCost, allServices)
    {
      EnsureDistancesCalculated();
      sol := SolveCached(elapsed);
    }

    /** The part of `solve` after `ensureDistancesCalculated`, against the
        cached table. */
    method SolveCached(elapsed: int) returns (sol: Solution)
      requires areDistancesCalculated
      ensures fresh(sol) && sol.executionTimeMicroseconds == elapsed
      ensures forall i :: 0 <= i < |sol.routes| ==> sol.routes[i].id == i + 1
      ensures Infeasible(sol.totalCost, sol.routes, allServices)
              <==> FirstBad(distances, depot, capacity, allServices) < |allServices|
      ensures FirstBad(distances, depot, capacity, allServices) < |allServices| ==>
                sol.totalCost == Inf
                && sol.routes == Singles(allServices)[..FirstBad(distances, depot, capacity, allServices)]
      ensures FirstBad(distances, depot, capacity, allServices) == |allServices| ==>
                Solved(Env(), sol.routes, sol.totalCost, allServices)
    {
      sol := ConstructInitialSolution();
      ghost var k := FirstBad(distances, depot, capacity, allServices);
      if k == |allServices| {
        InitialSolutionFeasible(distances, depot, capacity, allServices);
      }
      if sol.totalCost.Fin? {
        LocalSearch(sol);
      }
      ghost var searched := sol.routes;
      if k == |allServices| {
        RenumberedSolved(Env(), searched, sol.totalCost, allServices);
      } else {
        SinglesNumbered(allServices, k);
      }
      sol.executionTimeMicroseconds := elapsed;
      RenumberRoutes(sol);
    }
  }

  /** The solution `solve` promises for a catalog the construction accepts:
      settled, locally optimal, serving every service exactly once and, with
      demands of at least zero, every route within capacity. */
  ghost predicate Solved(e: Setting, rs: seq<Route>, total: Cost, ss: seq<Service>)
  {
    Settled(e.dist, e.depot, rs, total) && LocalOptimum(e, rs)
    && multiset(Flatten(rs)) == multiset(ss)
    && (NonNegativeDemands(ss) ==> WithinCapacity(rs, e.capacity))
  }

  /** Renumbering keeps a solved solution solved, and a solved solution is
      never reported infeasible. */
  lemma RenumberedSolved(e: Setting, rs: seq<Route>, total: Cost, ss: seq<Service>)
    requires Solved(e, rs, total, ss)
    ensures Solved(e, Renumbered(rs), total, ss)
    ensures !Infeasible(total, Renumbered(rs), ss)
  {
    RenumberedSettled(e.dist, e.depot, rs, total, e.capacity);
    OptimumIgnoresIds(e, rs);
  }

  /** The routes built before a rejected service already carry ids `1..k`. */
  lemma SinglesNumbered(ss: seq<Service>, k: int)
    requires 0 <= k <= |ss|
    ensures Renumbered(Singles(ss)[..k]) == Singles(ss)[..k]
  {
  }

  /** The renumbering loop at the end of `solve`. */
  method RenumberRoutes(sol: Solution)
    modifies sol
    ensures sol.routes == Renumbered(old(sol.routes))
    ensures sol.totalCost == old(sol.totalCost)
    ensures sol.executionTimeMicroseconds == old(sol.executionTimeMicroseconds)
  {
    ghost var rs := sol.routes;
    var i := 0;
    while i < |sol.routes|
      invariant 0 <= i <= |sol.routes| == |rs|
      invariant forall k :: 0 <= k < i ==> sol.routes[k] == rs[k].(id := k + 1)
      invariant forall k :: i <= k < |rs| ==> sol.routes[k] == rs[k]
      invariant sol.totalCost == old(sol.totalCost)
      invariant sol.executionTimeMicroseconds == old(sol.executionTimeMicroseconds)
    {
      sol.routes := sol.routes[i := sol.routes[i].(id := i + 1)];
      i := i + 1;
    }
    assert sol.routes == Renumbered(rs);
  }

  /** The throwing constructor: no solver for a missing graph, a depot outside
      the graph, or a capacity of zero or less. */
  method NewSolver(g: Graph?, depotNode: int, vehicleCapacity: int) returns (r: Option<Solver>)
    requires g != null ==> g.Valid()
    ensures r.None? <==> g == null || depotNode < 0 || depotNode >= g.V || vehicleCapacity <= 0
    ensures r.Some? ==> fresh(r.value) && r.value.graph == g && r.value.depot == depotNode
                        && r.value.capacity == vehicleCapacity && r.value.allServices == []
                        && r.value.Valid() && !r.value.areDistancesCalculated
  {
    if g == null || depotNode < 0 || depotNode >= g.V || vehicleCapacity <= 0 {
      return None;
    }
    var s := new Solver(g, depotNode, vehicleCapacity);
    return Some(s);
  }
}
