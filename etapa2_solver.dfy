/** The `Solver` of `etapa2/Solver.hpp`: a catalog of required services, a
    greedy constructive that fills one vehicle after another with the first
    unserved service that still fits, and a rough cost estimate of the routes it
    builds (service costs plus a flat 50 per service). */
module Etapa2Solver {
  import opened Common
  import opened ShortestPaths
  import opened PredecessorWalk
  import Adjacency
  import GraphStats
  import Etapa1Graph
  import Etapa3Solution
  import Etapa3RouteCost

  /** A required service. The C++ struct also carries a `served` flag that starts
      false and is never read; the constructive keeps its own flags instead. */
  datatype Service = Service(id: int, kind: char, u: int, v: int, demand: int, serviceCost: int, travelCost: int)

  /** A vehicle route: the ids of its services in visiting order, the nodes
      pushed for them, their total demand, a cost and the depot. The C++ field
      `totalCost` is an `int` compared with `INF`; here it is a `Cost`. */
  datatype Route = Route(serviceIds: seq<int>, nodePath: seq<int>, totalDemand: int, totalCost: Cost, depot: int)

  /** A default-constructed `Route` whose `depot` has been set. */
  function NewRoute(depot: int): Route
  {
    Route([], [], 0, Fin(0), depot)
  }

  /** `Route::clear`: forgets services, nodes, demand and cost, and keeps the depot. */
  function Cleared(r: Route): (c: Route)
    ensures c == NewRoute(r.depot)
  {
    r.(serviceIds := [], nodePath := [], totalDemand := 0, totalCost := Fin(0))
  }

  /** What `addService` accepts: both end nodes inside the graph and no negative
      demand or cost. */
  predicate WellFormed(s: Service, n: int)
  {
    0 <= s.u < n && 0 <= s.v < n && s.demand >= 0 && s.serviceCost >= 0 && s.travelCost >= 0
  }

  /** The cost a service adds besides driving: its service cost, plus its
      traversal cost unless it is a node. */
  function Term(s: Service): int
  {
    s.serviceCost + (if s.kind != 'N' then s.travelCost else 0)
  }

  /** The nodes pushed onto a route's path for a service: `u`, then `v` for an
      edge or an arc whose ends differ. */
  function ServiceNodes(s: Service): (r: seq<int>)
    ensures 1 <= |r| <= 2 && r[0] == s.u && r[|r| - 1] == (if s.kind != 'N' then s.v else s.u)
  {
    if s.kind != 'N' && s.u != s.v then [s.u, s.v] else [s.u]
  }

  /** The route after serving `s`: its id and nodes appended, its demand and its
      term added. */
  function Extend(r: Route, s: Service): Route
    requires r.totalCost.Fin?
  {
    r.(serviceIds := r.serviceIds + [s.id], nodePath := r.nodePath + ServiceNodes(s),
       totalDemand := r.totalDemand + s.demand, totalCost := Fin(r.totalCost.value + Term(s)))
  }

  // ---------------------------------------------------------------------------
  // A route built from catalog positions

  predicate InBounds(p: seq<nat>, n: nat)
  {
    forall i :: 0 <= i < |p| ==> p[i] < n
  }

  function IdsOf(ss: seq<Service>, p: seq<nat>): (r: seq<int>)
    requires InBounds(p, |ss|)
    ensures |r| == |p| && forall i :: 0 <= i < |p| ==> r[i] == ss[p[i]].id
  {
    if p == [] then [] else IdsOf(ss, p[..|p| - 1]) + [ss[p[|p| - 1]].id]
  }

  function NodesOf(ss: seq<Service>, p: seq<nat>): seq<int>
    requires InBounds(p, |ss|)
  {
    if p == [] then [] else NodesOf(ss, p[..|p| - 1]) + ServiceNodes(ss[p[|p| - 1]])
  }

  function DemandOf(ss: seq<Service>, p: seq<nat>): int
    requires InBounds(p, |ss|)
  {
    if p == [] then 0 else DemandOf(ss, p[..|p| - 1]) + ss[p[|p| - 1]].demand
  }

  function TermSum(ss: seq<Service>, p: seq<nat>): int
    requires InBounds(p, |ss|)
  {
    if p == [] then 0 else TermSum(ss, p[..|p| - 1]) + Term(ss[p[|p| - 1]])
  }

  /** The route the constructive builds from the services at positions `p`, in
      this order, before its cost is re-estimated. */
  function RouteFor(ss: seq<Service>, depot: int, p: seq<nat>): Route
    requires InBounds(p, |ss|)
  {
    Route(IdsOf(ss, p), NodesOf(ss, p), DemandOf(ss, p), Fin(TermSum(ss, p)), depot)
  }

  /** Serving one more position extends the route by that service. */
  lemma RouteForSnoc(ss: seq<Service>, depot: int, p: seq<nat>, k: nat)
    requires InBounds(p, |ss|) && k < |ss|
    ensures InBounds(p + [k], |ss|)
    ensures RouteFor(ss, depot, p + [k]) == Extend(RouteFor(ss, depot, p), ss[k])
  {
    assert (p + [k])[..|p|] == p;
  }

  lemma InBoundsSnoc(p: seq<nat>, k: nat, n: nat)
    requires InBounds(p, n) && k < n
    ensures InBounds(p + [k], n)
  {
    forall i | 0 <= i < |p| + 1 ensures (p + [k])[i] < n {
      if i < |p| {
        assert (p + [k])[i] == p[i];
      }
    }
  }

  /** Demand is additive at the front as well. */
  lemma {:induction false} DemandOfCons(ss: seq<Service>, k: nat, p: seq<nat>)
    requires k < |ss| && InBounds(p, |ss|)
    ensures InBounds([k] + p, |ss|)
    ensures DemandOf(ss, [k] + p) == ss[k].demand + DemandOf(ss, p)
    decreases |p|
  {
    if p != [] {
      var init := p[..|p| - 1];
      assert ([k] + p)[..|p|] == [k] + init;
      DemandOfCons(ss, k, init);
    }
  }

  // ---------------------------------------------------------------------------
  // The first-fit packing the constructive performs

  function NoneServed(n: nat): seq<bool>
  {
    seq(n, _ => false)
  }

  predicate AllServed(served: seq<bool>)
  {
    forall t :: 0 <= t < |served| ==> served[t]
  }

  /** The first position at or after `from` whose service is unserved and fits
      on top of `load`, or `|ss|` when there is none. */
  function NextFit(ss: seq<Service>, cap: int, served: seq<bool>, load: int, from: nat): (k: nat)
    requires |served| == |ss| && from <= |ss|
    ensures from <= k <= |ss|
    ensures forall t :: from <= t < k ==> served[t] || load + ss[t].demand > cap
    ensures k < |ss| ==> !served[k] && load + ss[k].demand <= cap
    decreases |ss| - from
  {
    if from == |ss| then |ss|
    else if !served[from] && load + ss[from].demand <= cap then from
    else NextFit(ss, cap, served, load, from + 1)
  }

  /** One route of the constructive, starting on `load`: take the first unserved
      service that fits, mark it, and repeat until none fits. Answers the
      positions taken, in order, and the flags afterwards. */
  function Fill(ss: seq<Service>, cap: int, served: seq<bool>, load: int): (r: (seq<nat>, seq<bool>))
    requires |served| == |ss|
    ensures InBounds(r.0, |ss|) && |r.1| == |ss|
    ensures forall a :: 0 <= a < |ss| && served[a] ==> r.1[a]
    ensures r.0 != [] ==> r.0[0] < |ss| && !served[r.0[0]] && r.1[r.0[0]]
    decreases GraphStats.CountFalse(served)
  {
    var k := NextFit(ss, cap, served, load, 0);
    if k == |ss| then ([], served)
    else
      var marked := served[k := true];
      GraphStats.CountFalseShrinks(served, marked, k);
      var rest := Fill(ss, cap, marked, load + ss[k].demand);
      ([k] + rest.0, rest.1)
  }

  /** `gs` in front of the groups of `rest`, when there are any. */
  function Cons(gs: seq<seq<nat>>, rest: Option<seq<seq<nat>>>): Option<seq<seq<nat>>>
  {
    match rest
    case None => None
    case Some(hs) => Some(gs + hs)
  }

  /** The routes of the constructive from the flags `served`, as groups of
      positions: `Some` of the groups when every service ends up on a route, and
      `None` when a route comes out empty while services remain, which makes the
      C++ outer loop repeat the same empty round forever. */
  function Pack(ss: seq<Service>, cap: int, served: seq<bool>): Option<seq<seq<nat>>>
    requires |served| == |ss|
    decreases GraphStats.CountFalse(served)
  {
    if AllServed(served) then Some([])
    else
      var f := Fill(ss, cap, served, 0);
      if f.0 == [] then None
      else
        GraphStats.CountFalseShrinks(served, f.1, f.0[0]);
        Cons([f.0], Pack(ss, cap, f.1))
  }

  predicate Distinct(p: seq<nat>)
  {
    forall i, j :: 0 <= i < j < |p| ==> p[i] != p[j]
  }

  /** What one route takes: positions inside the catalog, each unserved before,
      none twice; afterwards exactly those are newly marked. */
  lemma {:induction false} FillTakes(ss: seq<Service>, cap: int, served: seq<bool>, load: int)
    requires |served| == |ss|
    ensures var r := Fill(ss, cap, served, load);
            Distinct(r.0)
            && (forall i :: 0 <= i < |r.0| ==> !served[r.0[i]])
            && (forall a :: 0 <= a < |ss| ==> (r.1[a] <==> served[a] || a in r.0))
    decreases GraphStats.CountFalse(served)
  {
    var r := Fill(ss, cap, served, load);
    var k := NextFit(ss, cap, served, load, 0);
    if k < |ss| {
      var marked := served[k := true];
      var load' := load + ss[k].demand;
      GraphStats.CountFalseShrinks(served, marked, k);
      FillTakes(ss, cap, marked, load');
      var rest := Fill(ss, cap, marked, load');
      assert r.0 == [k] + rest.0 && r.1 == rest.1;
      forall i, j | 0 <= i < j < |r.0| ensures r.0[i] != r.0[j] {
        if i == 0 {
          assert !marked[rest.0[j - 1]];
        }
      }
      forall i | 0 <= i < |r.0| ensures !served[r.0[i]] {
        if i > 0 {
          assert !marked[rest.0[i - 1]];
        }
      }
      forall a | 0 <= a < |ss| ensures r.1[a] <==> served[a] || a in r.0 {
        assert a in r.0 <==> a == k || a in rest.0;
      }
    }
  }

  /** The load of one route stays within the capacity, and once the route
      closes no unserved service fits on top of it (first fit). With demands of
      at least zero every taken service fits on top of the starting load. */
  lemma {:induction false} FillLoad(ss: seq<Service>, cap: int, served: seq<bool>, load: int)
    requires |served| == |ss|
    ensures var r := Fill(ss, cap, served, load);
            (r.0 != [] ==> load + DemandOf(ss, r.0) <= cap)
            && (forall a :: 0 <= a < |ss| && !r.1[a] ==> load + DemandOf(ss, r.0) + ss[a].demand > cap)
    decreases GraphStats.CountFalse(served)
  {
    var r := Fill(ss, cap, served, load);
    var k := NextFit(ss, cap, served, load, 0);
    if k < |ss| {
      var marked := served[k := true];
      var load' := load + ss[k].demand;
      GraphStats.CountFalseShrinks(served, marked, k);
      FillLoad(ss, cap, marked, load');
      var rest := Fill(ss, cap, marked, load');
      assert r.0 == [k] + rest.0 && r.1 == rest.1;
      DemandOfCons(ss, k, rest.0);
      assert load + DemandOf(ss, r.0) == load' + DemandOf(ss, rest.0);
    }
  }

  /** With demands of at least zero, every service a route takes fits on top of
      the load it started from. */
  lemma {:induction false} FillEachFits(ss: seq<Service>, cap: int, served: seq<bool>, load: int)
    requires |served| == |ss| && forall a :: 0 <= a < |ss| ==> ss[a].demand >= 0
    ensures AllFit(ss, cap, Fill(ss, cap, served, load).0, load)
    decreases GraphStats.CountFalse(served)
  {
    var r := Fill(ss, cap, served, load);
    var k := NextFit(ss, cap, served, load, 0);
    if k < |ss| {
      var marked := served[k := true];
      var load' := load + ss[k].demand;
      GraphStats.CountFalseShrinks(served, marked, k);
      FillEachFits(ss, cap, marked, load');
      var rest := Fill(ss, cap, marked, load');
      assert r.0 == [k] + rest.0;
      assert AllFit(ss, cap, rest.0, load');
      forall i | 0 <= i < |r.0| ensures load + ss[r.0[i]].demand <= cap {
        if i > 0 {
          assert r.0[i] == rest.0[i - 1];
        }
      }
    }
  }

  /** Every position in `p` fits on top of `load`. */
  predicate AllFit(ss: seq<Service>, cap: int, p: seq<nat>, load: int)
    requires InBounds(p, |ss|)
  {
    forall i :: 0 <= i < |p| ==> load + ss[p[i]].demand <= cap
  }

  /** The flattened groups, in order. */
  function Concat(gs: seq<seq<nat>>): seq<nat>
  {
    if gs == [] then [] else gs[0] + Concat(gs[1..])
  }

  /** Every group lies inside the catalog. */
  predicate GroupsInBounds(gs: seq<seq<nat>>, n: nat)
  {
    forall g :: g in gs ==> InBounds(g, n)
  }

  /** A finished packing covers the unserved services exactly once: every route
      is non-empty and within the capacity, no position occurs twice, and the
      positions that occur are exactly the unserved ones. */
  lemma {:induction false} PackCovers(ss: seq<Service>, cap: int, served: seq<bool>)
    requires |served| == |ss| && Pack(ss, cap, served).Some?
    ensures var gs := Pack(ss, cap, served).value;
            GroupsInBounds(gs, |ss|)
            && (forall g :: g in gs ==> g != [] && DemandOf(ss, g) <= cap)
            && Distinct(Concat(gs))
            && (forall a :: a in Concat(gs) <==> 0 <= a < |ss| && !served[a])
    decreases GraphStats.CountFalse(served)
  {
    var gs := Pack(ss, cap, served).value;
    if !AllServed(served) {
      var f := Fill(ss, cap, served, 0);
      GraphStats.CountFalseShrinks(served, f.1, f.0[0]);
      FillTakes(ss, cap, served, 0);
      FillLoad(ss, cap, served, 0);
      PackCovers(ss, cap, f.1);
      var hs := Pack(ss, cap, f.1).value;
      assert gs == [f.0] + hs;
      assert ([f.0] + hs)[1..] == hs;
      assert Concat(gs) == f.0 + Concat(hs);
      forall i, j | 0 <= i < j < |Concat(gs)| ensures Concat(gs)[i] != Concat(gs)[j] {
        if i < |f.0| && j >= |f.0| {
          assert Concat(gs)[j] in Concat(hs);
        }
      }
    }
  }

  /** The constructive finishes exactly when no unserved service is heavier
      than a whole vehicle (demands being at least zero): the C++ code has no
      other way out of a round that builds an empty route. */
  lemma {:induction false} PackFinishes(ss: seq<Service>, cap: int, served: seq<bool>)
    requires |served| == |ss| && forall a :: 0 <= a < |ss| ==> ss[a].demand >= 0
    ensures Pack(ss, cap, served).None? <==> exists a :: 0 <= a < |ss| && !served[a] && ss[a].demand > cap
    decreases GraphStats.CountFalse(served)
  {
    if !AllServed(served) {
      var f := Fill(ss, cap, served, 0);
      FillTakes(ss, cap, served, 0);
      FillLoad(ss, cap, served, 0);
      if f.0 == [] {
        var a :| 0 <= a < |ss| && !served[a];
        assert !f.1[a];
      } else {
        GraphStats.CountFalseShrinks(served, f.1, f.0[0]);
        FillEachFits(ss, cap, served, 0);
        PackFinishes(ss, cap, f.1);
        if a :| 0 <= a < |ss| && !served[a] && ss[a].demand > cap {
          assert !f.1[a];
        }
      }
    }
  }

  // ---------------------------------------------------------------------------
  // The cost estimate of `calculateRouteCost`

  /** The position of the first service with this id, or `|ss|`. */
  function FirstId(ss: seq<Service>, id: int): (k: nat)
    ensures k <= |ss| && (forall t :: 0 <= t < k ==> ss[t].id != id)
    ensures k < |ss| ==> ss[k].id == id
  {
    if ss == [] then 0 else if ss[0].id == id then 0 else 1 + FirstId(ss[1..], id)
  }

  /** What one id adds: the term of the first service with this id, nothing
      when there is none. */
  function TermOf(ss: seq<Service>, id: int): int
  {
    var k := FirstId(ss, id);
    if k < |ss| then Term(ss[k]) else 0
  }

  function TermsOf(ss: seq<Service>, ids: seq<int>): int
  {
    if ids == [] then 0 else TermsOf(ss, ids[..|ids| - 1]) + TermOf(ss, ids[|ids| - 1])
  }

  /** The estimate of `calculateRouteCost`: 0 for a route without services,
      else the terms of its services plus 50 per service. */
  function RouteEstimate(ss: seq<Service>, ids: seq<int>): int
  {
    if ids == [] then 0 else TermsOf(ss, ids) + 50 * |ids|
  }

  /** An `int` cost stored in a route, read against the `INF` sentinel: the
      value `INT_MAX` is the infinite cost. */
  function AsCost(v: int): Cost
  {
    if v == IntMax then Inf else Fin(v)
  }

  /** A route whose cost has been re-estimated. */
  function Reestimated(ss: seq<Service>, r: Route): Route
  {
    r.(totalCost := AsCost(RouteEstimate(ss, r.serviceIds)))
  }

  /** The total of `recalculateAllCosts`: the sum of the estimates, leaving out
      an estimate that collides with the `INF` sentinel. */
  function EstimateTotal(ss: seq<Service>, rs: seq<Route>): int
  {
    if rs == [] then 0
    else
      var e := RouteEstimate(ss, rs[|rs| - 1].serviceIds);
      EstimateTotal(ss, rs[..|rs| - 1]) + (if e == IntMax then 0 else e)
  }

  predicate DistinctIds(ss: seq<Service>)
  {
    forall i, j :: 0 <= i < j < |ss| ==> ss[i].id != ss[j].id
  }

  /** When ids are unique, the estimate of a route built from positions `p` is
      the cost the constructive accumulated for it plus 50 per service. */
  lemma {:induction false} EstimateOfBuilt(ss: seq<Service>, p: seq<nat>)
    requires DistinctIds(ss) && InBounds(p, |ss|)
    ensures TermsOf(ss, IdsOf(ss, p)) == TermSum(ss, p)
    ensures RouteEstimate(ss, IdsOf(ss, p)) == if p == [] then 0 else TermSum(ss, p) + 50 * |p|
    decreases |p|
  {
    if p != [] {
      var init := p[..|p| - 1];
      var k := p[|p| - 1];
      EstimateOfBuilt(ss, init);
      assert IdsOf(ss, p)[..|p| - 1] == IdsOf(ss, init);
      assert FirstId(ss, ss[k].id) == k;
    }
  }

  /** The estimate is at least 50 per service when no cost is negative. */
  lemma {:induction false} EstimateAtLeast(ss: seq<Service>, ids: seq<int>, n: int)
    requires forall a :: 0 <= a < |ss| ==> WellFormed(ss[a], n)
    ensures TermsOf(ss, ids) >= 0
    ensures RouteEstimate(ss, ids) >= 50 * |ids|
    decreases |ids|
  {
    if ids != [] {
      EstimateAtLeast(ss, ids[..|ids| - 1], n);
    }
  }

  // ---------------------------------------------------------------------------
  // The solver object

  class Solver {
    const graph: Etapa1Graph.Graph
    const depot: int
    const capacity: int
    const distances: Matrix
    const predecessors: seq<seq<int>>
    var services: seq<Service>
    var routes: seq<Route>
    var totalCost: int

    /** The tables are square over the graph's nodes, the depot is a node, the
        capacity is positive, and every stored service passed `addService`. */
    ghost predicate Valid()
      reads this
    {
      IsSquare(distances, graph.V) && IsSquare(predecessors, graph.V)
      && 0 <= depot < graph.V && capacity > 0
      && forall a :: 0 <= a < |services| ==> WellFormed(services[a], graph.V)
    }

    /** `Solver(g, depotNode, vehicleCapacity)` once its argument checks have
        passed: the tables come from the graph's `floydWarshall`. */
    constructor(g: Etapa1Graph.Graph, depotNode: int, vehicleCapacity: int)
      requires g.Valid() && 0 <= depotNode < g.V && vehicleCapacity > 0
      modifies g
      ensures Valid() && graph == g && depot == depotNode && capacity == vehicleCapacity
      ensures services == [] && routes == [] && totalCost == 0
      ensures predecessors == g.predecessor && Etapa1Graph.PredMatches(distances, predecessors, g.V)
      ensures Adjacency.NonNegativeCosts(g.adj) ==> distances == Shortest(Adjacency.LastInit(g.adj))
    {
      var dist, pred := g.FloydWarshall();
      graph := g;
      depot := depotNode;
      capacity := vehicleCapacity;
      distances := dist;
      predecessors := pred;
      services := [];
      routes := [];
      totalCost := 0;
    }

    /** `addService`: appends the service when it passes the checks, and leaves
        the catalog unchanged otherwise. */
    method AddService(id: int, kind: char, u: int, v: int, demand: int, serviceCost: int, travelCost: int)
      requires Valid()
      modifies this
      ensures Valid() && routes == old(routes) && totalCost == old(totalCost)
      ensures var s := Service(id, kind, u, v, demand, serviceCost, travelCost);
              services == old(services) + (if WellFormed(s, graph.V) then [s] else [])
    {
      var numNodes := graph.V;
      if u < 0 || u >= numNodes || v < 0 || v >= numNodes {
        return;
      }
      if demand < 0 || serviceCost < 0 || travelCost < 0 {
        return;
      }
      services := services + [Service(id, kind, u, v, demand, serviceCost, travelCost)];
    }

    /** `getDistance(from, to)`: infinite outside the table. */
    function GetDistance(from: int, to: int): (c: Cost)
      ensures !(0 <= from < |distances| && 0 <= to < |distances|) ==> c == Inf
      ensures (IsSquare(distances, |distances|) && 0 <= from < |distances| && 0 <= to < |distances|)
                ==> c == distances[from][to]
    {
      if from < 0 || to < 0 || from >= |distances| || to >= |distances| then Inf
      else if |distances| == 0 || |distances[from]| == 0 then Inf
      else if to < |distances[from]| then distances[from][to]
      else Inf
    }

    /** `calculateInsertion(route, service, position)`. Into a route without
        nodes: the round trip depot, service, depot, infinite with an empty path
        when either leg cannot be driven. Into any other route: the service's
        term plus a flat 100. The path is always the route's path followed by
        the service's nodes. */
    function Insertion(route: Route, s: Service): (r: (Cost, seq<int>))
      ensures r.0.Inf? ==> route.nodePath == [] && r.1 == []
      ensures r.0.Fin? ==> r.1 == route.nodePath + ServiceNodes(s)
      ensures route.nodePath != [] ==> r.0 == Fin(Term(s) + 100)
    {
      if route.nodePath == [] then
        var toService := GetDistance(depot, s.u);
        if toService.Inf? then (Inf, [])
        else
          var last := if s.kind == 'N' then s.u else s.v;
          var toDepot := GetDistance(last, depot);
          if toDepot.Inf? then (Inf, [])
          else (Fin(toService.value + Term(s) + toDepot.value), route.nodePath + ServiceNodes(s))
      else
        (Fin(Term(s) + 100), route.nodePath + ServiceNodes(s))
    }

    /** Inserting into a route without nodes costs what the route cost of
        `etapa3/Solver.hpp` charges for a route of that one service. */
    lemma InsertionIsTour(route: Route, s: Service)
      requires Valid() && route.nodePath == [] && (s.kind == 'N' ==> s.u == s.v)
      ensures Insertion(route, s).0
              == Etapa3RouteCost.RouteCost(distances, depot,
                   [Etapa3Solution.Service(s.id, s.kind, s.u, s.v, s.demand, s.serviceCost, s.travelCost)])
    {
      var t := Etapa3Solution.Service(s.id, s.kind, s.u, s.v, s.demand, s.serviceCost, s.travelCost);
      assert Etapa3RouteCost.Term(t) == Term(s);
      assert [t][1..] == [];
      var toService := GetDistance(depot, s.u);
      var toDepot := GetDistance(s.v, depot);
      assert toService == Etapa3RouteCost.Dist(distances, depot, s.u);
      assert toDepot == Etapa3RouteCost.Dist(distances, s.v, depot);
      assert Etapa3RouteCost.RouteCostFrom(distances, depot, s.v, []) == toDepot;
      assert Etapa3RouteCost.RouteCost(distances, depot, [t])
             == Etapa3RouteCost.RouteCostFrom(distances, depot, depot, [t])
             == Add(Add(toService, Fin(Term(s))), toDepot);
    }

    /** `getPath(from, to)`: `[from]` when both are equal; empty outside the
        table or when `to` has no predecessor in row `from`; otherwise the walk
        back along row `from`, for at most `2 * n` steps. The step bound never
        cuts a walk that arrives: the path is non-empty exactly when the walk
        back from `to` meets `from`, and then it is that walk reversed. */
    method GetPath(from: int, to: int) returns (path: seq<int>)
      requires Valid()
      ensures from == to ==> path == [from]
      ensures from != to && !(0 <= from < graph.V && 0 <= to < graph.V) ==> path == []
      ensures from != to && 0 <= from < graph.V && 0 <= to < graph.V ==>
                (path != [] <==> exists m: nat :: Etapa1Graph.ReachesAfter(predecessors[from], to, from, m))
      ensures from != to && path != [] ==>
                0 <= from < graph.V && 0 <= to < graph.V
                && path == Reversed(Trail(predecessors[from], to, |path|))
                && Etapa1Graph.ReachesAfter(predecessors[from], to, from, |path| - 1)
                && path[0] == from && path[|path| - 1] == to
                && forall t :: 0 <= t < |path| - 1 ==> path[t] == predecessors[from][path[t + 1]]
    {
      if from == to {
        return [from];
      }
      if from < 0 || to < 0 || from >= |predecessors| || to >= |predecessors| {
        return [];
      }
      var n := |predecessors|;
      if n == 0 || |predecessors[from]| == 0 || predecessors[from][to] == -1 {
        NoArrival(predecessors[from], n, from, to, 1);
        return [];
      }
      path := WalkTo(predecessors[from], n, from, to);
    }

    /** The loop of `getPath`: follows the predecessor row back from `to` for
        at most `2 * n` steps and returns the path from `from`, or `[]`. */
    static method WalkTo(row: seq<int>, n: nat, from: int, to: int) returns (path: seq<int>)
      requires |row| == n && 0 <= from < n && 0 <= to < n && from != to
      ensures path != [] <==> exists m: nat :: Etapa1Graph.ReachesAfter(row, to, from, m)
      ensures path != [] ==>
                path == Reversed(Trail(row, to, |path|))
                && Etapa1Graph.ReachesAfter(row, to, from, |path| - 1)
                && path[0] == from && path[|path| - 1] == to
                && forall t :: 0 <= t < |path| - 1 ==> path[t] == row[path[t + 1]]
    {
      path := [];
      var current := to;
      var iterations := 0;
      var maxIterations := n * 2;
      while current != from && iterations < maxIterations
        invariant 0 <= iterations <= maxIterations
        invariant current == Nth(row, to, iterations) && path == Trail(row, to, iterations)
        invariant forall t :: 0 <= t < iterations ==> 0 <= Nth(row, to, t) < n && Nth(row, to, t) != from
        decreases maxIterations - iterations
      {
        if current < 0 || current >= n {
          break;
        }
        path := path + [current];
        current := row[current];
        iterations := iterations + 1;
      }
      if current == from {
        assert path + [from] == Trail(row, to, iterations + 1);
        path := Reversed(path + [from]);
        Etapa1Graph.WalkArrives(row, n, from, to, iterations);
        return path;
      }
      NoArrival(row, n, from, to, iterations);
      return [];
    }

    /** Once the walk back from `to` has left the row's nodes, or has taken
        `2 * n` steps, without meeting `from`, it never meets `from`. */
    static lemma NoArrival(row: seq<int>, n: nat, from: int, to: int, m: nat)
      requires |row| == n && 0 <= from < n && 0 <= to < n && from != to
      requires forall t :: 0 <= t < m ==> 0 <= Nth(row, to, t) < n && Nth(row, to, t) != from
      requires Nth(row, to, m) != from
      requires m >= 2 * n || !(0 <= Nth(row, to, m) < n)
      ensures !exists k: nat :: Etapa1Graph.ReachesAfter(row, to, from, k)
    {
      if k: nat :| Etapa1Graph.ReachesAfter(row, to, from, k) {
        assert k > m && 0 <= Nth(row, to, m) < n;
        WalkNeverEnds(row, to, from, n);
        assert false;
      }
    }

    /** The loop of `simplifiedConstructive` that looks for the first unserved
        service: its position, or -1 when all are served. */
    static method FirstUnserved(served: seq<bool>) returns (k: int)
      ensures k == -1 <==> AllServed(served)
      ensures k != -1 ==> 0 <= k < |served| && !served[k] && forall t :: 0 <= t < k ==> served[t]
    {
      k := -1;
      var i := 0;
      while i < |served|
        invariant 0 <= i <= |served| && forall t :: 0 <= t < i ==> served[t]
      {
        if !served[i] {
          k := i;
          return;
        }
        i := i + 1;
      }
    }

    /** The loop that looks, after a service that does not fit, for the next
        unserved one that does: the position `NextFit` names, or -1. */
    method Alternative(served: seq<bool>, load: int, from: nat) returns (k: int)
      requires |served| == |services| && from <= |services|
      ensures var f := NextFit(services, capacity, served, load, from);
              k == if f == |services| then -1 else f
    {
      k := -1;
      var i := from;
      while i < |services|
        invariant from <= i <= |services|
        invariant NextFit(services, capacity, served, load, from) == NextFit(services, capacity, served, load, i)
      {
        if !served[i] && load + services[i].demand <= capacity {
          k := i;
          return;
        }
        i := i + 1;
      }
    }

    /** The inner loop of `simplifiedConstructive`: one route, filled from the
        first unserved position `first` on, as `Fill` describes from an empty
        load. */
    method FillRoute(served: seq<bool>, first: int) returns (route: Route, ghost picked: seq<nat>, marked: seq<bool>)
      requires Valid() && |served| == |services|
      requires 0 <= first < |services| && !served[first] && forall t :: 0 <= t < first ==> served[t]
      ensures InBounds(picked, |services|) && (picked, marked) == Fill(services, capacity, served, 0)
      ensures route == RouteFor(services, depot, Fill(services, capacity, served, 0).0)
      ensures marked == Fill(services, capacity, served, 0).1
    {
      var ss := services;
      route := NewRoute(depot);
      marked := served;
      picked := [];
      var next := first;
      ghost var start := Fill(ss, capacity, served, 0);
      assert [] + start.0 == start.0;
      while next != -1
        invariant InBounds(picked, |ss|) && route == RouteFor(ss, depot, picked)
        invariant Filling(ss, capacity, served, picked, marked, route.totalDemand, next)
        decreases GraphStats.CountFalse(marked), if next != -1 && route.totalDemand + ss[next].demand > capacity then 1 else 0
      {
        if route.totalDemand + ss[next].demand > capacity {
          var alternative := Alternative(marked, route.totalDemand, next + 1);
          if alternative == -1 {
            NoneFits(ss, capacity, marked, route.totalDemand, next);
            break;
          }
          next := alternative;
        } else {
          route, picked, marked, next := Serve(ss, capacity, depot, served, route, picked, marked, next);
        }
      }
      assert Fill(ss, capacity, marked, route.totalDemand) == ([], marked);
      assert picked + [] == picked;
      assert start == (picked, marked);
    }

    /** One pass of the inner loop on a service that fits: push it onto the
        route, mark it, and look again for the first unserved service. */
    static method Serve(ss: seq<Service>, cap: int, depot: int, ghost served: seq<bool>, route: Route,
                        ghost picked: seq<nat>, marked: seq<bool>, next: int)
      returns (route': Route, ghost picked': seq<nat>, marked': seq<bool>, next': int)
      requires InBounds(picked, |ss|) && route == RouteFor(ss, depot, picked)
      requires Filling(ss, cap, served, picked, marked, route.totalDemand, next)
      requires next != -1 && route.totalDemand + ss[next].demand <= cap
      ensures InBounds(picked', |ss|) && route' == RouteFor(ss, depot, picked')
      ensures Filling(ss, cap, served, picked', marked', route'.totalDemand, next')
      ensures |marked'| == |marked| && GraphStats.CountFalse(marked') < GraphStats.CountFalse(marked)
    {
      RouteForSnoc(ss, depot, picked, next);
      route' := Extend(route, ss[next]);
      marked' := marked[next := true];
      picked' := picked + [next];
      GraphStats.CountFalseShrinks(marked, marked', next);
      next' := FirstUnserved(marked');
      ServeKeeps(ss, cap, served, picked, marked, route.totalDemand, next, picked', marked', route'.totalDemand, next');
    }

    /** Serving `next` and moving on to the first unserved position `next'`
        keeps the invariant of the inner loop. */
    static lemma ServeKeeps(ss: seq<Service>, cap: int, served: seq<bool>, picked: seq<nat>, marked: seq<bool>,
                            load: int, next: int, picked': seq<nat>, marked': seq<bool>, load': int, next': int)
      requires Filling(ss, cap, served, picked, marked, load, next)
      requires next != -1 && load + ss[next].demand <= cap
      requires picked' == picked + [next] && marked' == marked[next := true] && load' == load + ss[next].demand
      requires next' == -1 ==> AllServed(marked')
      requires next' != -1 ==> 0 <= next' < |ss| && !marked'[next'] && forall t :: 0 <= t < next' ==> marked'[t]
      ensures Filling(ss, cap, served, picked', marked', load', next')
    {
      InBoundsSnoc(picked, next, |ss|);
      assert picked'[..|picked|] == picked;
      assert DemandOf(ss, picked') == load';
      ServeTracks(ss, cap, served, picked, marked, load, next);
      ServeScans(ss, cap, marked', load', next');
    }

    static lemma ServeTracks(ss: seq<Service>, cap: int, served: seq<bool>, picked: seq<nat>,
                             marked: seq<bool>, load: int, next: nat)
      requires Tracks(ss, cap, served, picked, marked, load)
      requires next < |ss| && !marked[next] && load + ss[next].demand <= cap
      requires forall t :: 0 <= t < next ==> marked[t] || load + ss[t].demand > cap
      ensures Tracks(ss, cap, served, picked + [next], marked[next := true], load + ss[next].demand)
    {
      FillAdvances(ss, cap, served, picked, marked, load, next);
    }

    static lemma ServeScans(ss: seq<Service>, cap: int, marked: seq<bool>, load: int, next: int)
      requires |marked| == |ss|
      requires next == -1 ==> AllServed(marked)
      requires next != -1 ==> 0 <= next < |ss| && !marked[next] && forall t :: 0 <= t < next ==> marked[t]
      ensures Scans(ss, cap, marked, load, next)
    {
      if next == -1 {
        var k := NextFit(ss, cap, marked, load, 0);
        assert k == |ss|;
      }
    }

    /** No position fits when none before `next`, `next` itself, nor any after
        it does. */
    static lemma NoneFits(ss: seq<Service>, cap: int, served: seq<bool>, load: int, next: nat)
      requires |served| == |ss| && next < |ss| && load + ss[next].demand > cap
      requires forall t :: 0 <= t < next ==> served[t] || load + ss[t].demand > cap
      requires NextFit(ss, cap, served, load, next + 1) == |ss|
      ensures NextFit(ss, cap, served, load, 0) == |ss|
    {
    }

    /** Serving the chosen `next` moves it from what `Fill` still takes to the
        positions already taken. */
    static lemma FillAdvances(ss: seq<Service>, cap: int, served: seq<bool>, picked: seq<nat>,
                              marked: seq<bool>, load: int, next: nat)
      requires |served| == |ss| && |marked| == |ss|
      requires Fill(ss, cap, served, 0) == (picked + Fill(ss, cap, marked, load).0, Fill(ss, cap, marked, load).1)
      requires next < |ss| && !marked[next] && load + ss[next].demand <= cap
      requires forall t :: 0 <= t < next ==> marked[t] || load + ss[t].demand > cap
      ensures var f := Fill(ss, cap, marked[next := true], load + ss[next].demand);
              Fill(ss, cap, served, 0) == ((picked + [next]) + f.0, f.1)
    {
      Chosen(ss, cap, marked, load, next);
      var f := Fill(ss, cap, marked[next := true], load + ss[next].demand);
      AppendAssoc(picked, [next], f.0);
    }

    static lemma AppendAssoc(a: seq<nat>, b: seq<nat>, c: seq<nat>)
      ensures a + (b + c) == (a + b) + c
    {
    }

    static lemma Chosen(ss: seq<Service>, cap: int, served: seq<bool>, load: int, next: nat)
      requires |served| == |ss| && next < |ss| && !served[next] && load + ss[next].demand <= cap
      requires forall t :: 0 <= t < next ==> served[t] || load + ss[t].demand > cap
      ensures var f := Fill(ss, cap, served[next := true], load + ss[next].demand);
              Fill(ss, cap, served, load) == ([next] + f.0, f.1)
    {
      var k := NextFit(ss, cap, served, load, 0);
      assert k <= next;
      assert k == next;
    }

    /** `simplifiedConstructive`. With no services it changes nothing. Otherwise
        it packs the services as `Pack` describes and re-estimates every route.
        `diverges` reports a round that builds an empty route, where the C++
        loop would repeat that round forever; this happens exactly when some
        service is heavier than a whole vehicle. */
    method SimplifiedConstructive() returns (diverges: bool)
      requires Valid()
      modifies this
      ensures Valid() && services == old(services)
      ensures services == [] ==> !diverges && routes == old(routes) && totalCost == old(totalCost)
      ensures services != [] ==>
                var packed := Pack(services, capacity, NoneServed(|services|));
                diverges == packed.None?
                && (packed.Some? ==>
                      GroupsInBounds(packed.value, |services|)
                      && routes == Built(services, depot, packed.value, true)
                      && totalCost == EstimateTotal(services, Built(services, depot, packed.value, false)))
    {
      if services == [] {
        return false;
      }
      var served := NoneServed(|services|);
      routes := [];
      ghost var groups: seq<seq<nat>> := [];
      ConsNil(Pack(services, capacity, served));
      while true
        invariant Valid() && services == old(services) && |served| == |services|
        invariant GroupsInBounds(groups, |services|)
        invariant Pack(services, capacity, NoneServed(|services|)) == Cons(groups, Pack(services, capacity, served))
        invariant routes == Built(services, depot, groups, false)
        decreases GraphStats.CountFalse(served)
      {
        var next := FirstUnserved(served);
        if next == -1 {
          break;
        }
        var route, picked, marked := FillRoute(served, next);
        if route.serviceIds == [] {
          return true;
        }
        Advance(services, capacity, served, groups, picked, marked);
        BuiltSnoc(services, depot, groups, picked);
        routes := routes + [route];
        groups := groups + [picked];
        served := marked;
      }
      assert groups + [] == groups;
      RecalculateAllCosts();
      BuiltReestimated(services, depot, groups);
      return false;
    }

    /** `recalculateAllCosts`: every route's cost becomes its estimate, read as
        `INF` when it equals `INT_MAX`, and the total becomes the sum of the
        estimates other than that one. */
    method RecalculateAllCosts()
      requires Valid()
      modifies this
      ensures Valid() && services == old(services) && |routes| == |old(routes)|
      ensures forall i :: 0 <= i < |routes| ==> routes[i] == Reestimated(services, old(routes)[i])
      ensures totalCost == EstimateTotal(services, old(routes))
    {
      ghost var rs := routes;
      totalCost := 0;
      var i := 0;
      while i < |routes|
        invariant services == old(services) && |routes| == |rs| && 0 <= i <= |rs|
        invariant forall t :: 0 <= t < i ==> routes[t] == Reestimated(services, rs[t])
        invariant forall t :: i <= t < |rs| ==> routes[t] == rs[t]
        invariant totalCost == EstimateTotal(services, rs[..i])
      {
        var c := CalculateRouteCost(routes[i]);
        routes := routes[i := routes[i].(totalCost := AsCost(c))];
        if c != IntMax {
          totalCost := totalCost + c;
        }
        assert rs[..i + 1][..i] == rs[..i];
        i := i + 1;
      }
      assert rs[..i] == rs;
    }

    /** `calculateRouteCost(route)`: the estimate of its services. */
    method CalculateRouteCost(route: Route) returns (c: int)
      ensures c == RouteEstimate(services, route.serviceIds)
    {
      var ids := route.serviceIds;
      if ids == [] {
        return 0;
      }
      var cost := 0;
      var i := 0;
      while i < |ids|
        invariant 0 <= i <= |ids| && cost == TermsOf(services, ids[..i])
      {
        var j := 0;
        while j < |services| && services[j].id != ids[i]
          invariant 0 <= j <= |services| && forall t :: 0 <= t < j ==> services[t].id != ids[i]
        {
          j := j + 1;
        }
        assert j == FirstId(services, ids[i]);
        if j < |services| {
          cost := cost + Term(services[j]);
        }
        assert ids[..i + 1][..i] == ids[..i];
        i := i + 1;
      }
      assert ids[..i] == ids;
      cost := cost + |ids| * 50;
      return cost;
    }
  }

  /** The throwing constructor: no solver for a missing graph, a depot outside
      the graph, or a capacity of zero or less; otherwise the solver the checked
      constructor builds, which runs the graph's `floydWarshall`. */
  method NewSolver(g: Etapa1Graph.Graph?, depotNode: int, vehicleCapacity: int) returns (r: Option<Solver>)
    requires g != null ==> g.Valid()
    modifies g
    ensures r.None? <==> g == null || depotNode < 0 || depotNode >= g.V || vehicleCapacity <= 0
    ensures r.None? ==> g == null || unchanged(g)
    ensures r.Some? ==> fresh(r.value) && r.value.Valid() && r.value.graph == g
                        && r.value.depot == depotNode && r.value.capacity == vehicleCapacity
                        && r.value.services == [] && r.value.routes == [] && r.value.totalCost == 0
                        && r.value.predecessors == g.predecessor
                        && (Adjacency.NonNegativeCosts(g.adj) ==> r.value.distances == Shortest(Adjacency.LastInit(g.adj)))
  {
    if g == null || depotNode < 0 || depotNode >= g.V || vehicleCapacity <= 0 {
      return None;
    }
    var s := new Solver(g, depotNode, vehicleCapacity);
    return Some(s);
  }

  /** The invariant of the inner loop of `simplifiedConstructive`: `picked`
      followed by what `Fill` takes from the current flags, on top of the load of
      `picked`, is what `Fill` takes from `served`; `next` is unserved and no
      position before it can be served now, or -1 when no unserved service fits. */
  ghost predicate Filling(ss: seq<Service>, cap: int, served: seq<bool>, picked: seq<nat>, marked: seq<bool>,
                          load: int, next: int)
  {
    InBounds(picked, |ss|) && load == DemandOf(ss, picked)
    && Tracks(ss, cap, served, picked, marked, load)
    && Scans(ss, cap, marked, load, next)
  }

  /** `picked` followed by what `Fill` still takes from `marked` on top of
      `load` is what `Fill` takes from `served` on an empty vehicle. */
  ghost predicate Tracks(ss: seq<Service>, cap: int, served: seq<bool>, picked: seq<nat>, marked: seq<bool>, load: int)
  {
    |served| == |ss| && |marked| == |ss|
    && Fill(ss, cap, served, 0) == (picked + Fill(ss, cap, marked, load).0, Fill(ss, cap, marked, load).1)
  }

  /** `next` is unserved and nothing before it can be served on top of `load`,
      or `next` is -1 and nothing at all can. */
  ghost predicate Scans(ss: seq<Service>, cap: int, marked: seq<bool>, load: int, next: int)
  {
    |marked| == |ss|
    && (next != -1 ==>
          0 <= next < |ss| && !marked[next]
          && forall t :: 0 <= t < next ==> marked[t] || load + ss[t].demand > cap)
    && (next == -1 ==> NextFit(ss, cap, marked, load, 0) == |ss|)
  }

  /** The routes built from `gs`, with their costs re-estimated when `estimated`. */
  function Built(ss: seq<Service>, depot: int, gs: seq<seq<nat>>, estimated: bool): (r: seq<Route>)
    requires GroupsInBounds(gs, |ss|)
    ensures |r| == |gs|
  {
    seq(|gs|, i requires 0 <= i < |gs| =>
      var route := RouteFor(ss, depot, gs[i]);
      if estimated then Reestimated(ss, route) else route)
  }

  lemma BuiltReestimated(ss: seq<Service>, depot: int, gs: seq<seq<nat>>)
    requires GroupsInBounds(gs, |ss|)
    ensures forall i :: 0 <= i < |gs| ==> Built(ss, depot, gs, true)[i] == Reestimated(ss, Built(ss, depot, gs, false)[i])
  {
  }

  /** One round of the outer loop keeps the packing invariant. */
  lemma Advance(ss: seq<Service>, cap: int, served: seq<bool>, groups: seq<seq<nat>>, picked: seq<nat>, marked: seq<bool>)
    requires |served| == |ss| && !AllServed(served)
    requires (picked, marked) == Fill(ss, cap, served, 0) && picked != []
    ensures GraphStats.CountFalse(marked) < GraphStats.CountFalse(served)
    ensures Cons(groups, Pack(ss, cap, served)) == Cons(groups + [picked], Pack(ss, cap, marked))
  {
    GraphStats.CountFalseShrinks(served, marked, picked[0]);
    assert Pack(ss, cap, served) == Cons([picked], Pack(ss, cap, marked));
    match Pack(ss, cap, marked)
    case None =>
    case Some(hs) => assert groups + ([picked] + hs) == (groups + [picked]) + hs;
  }

  /** One more group adds its route at the end. */
  lemma BuiltSnoc(ss: seq<Service>, depot: int, groups: seq<seq<nat>>, picked: seq<nat>)
    requires GroupsInBounds(groups, |ss|) && InBounds(picked, |ss|)
    ensures GroupsInBounds(groups + [picked], |ss|)
    ensures Built(ss, depot, groups + [picked], false) == Built(ss, depot, groups, false) + [RouteFor(ss, depot, picked)]
  {
  }

  lemma ConsNil(o: Option<seq<seq<nat>>>)
    ensures Cons([], o) == o
  {
    match o
    case None =>
    case Some(hs) => assert [] + hs == hs;
  }
}
