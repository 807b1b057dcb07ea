/** The data model of `etapa3/Solution.hpp`: a required service, a vehicle's
    route, and a whole solution, with the sums the solver keeps in them. */
module Etapa3Solution {
  import opened Common

  /** A required service: a node (`'N'`), an edge (`'E'`) or an arc (`'A'`) with
      its demand, its service cost and, for edges and arcs, the cost of
      traversing it. The service is entered at `u` and left at `v`. */
  datatype Service = Service(id: int, kind: char, u: int, v: int, demand: int, serviceCost: int, travelCost: int)

  /** One vehicle: its services in visiting order and the cached sums
      `totalDemand` and `totalCost` (`long long` in C++, infinite when some leg
      cannot be driven). */
  datatype Route = Route(id: int, services: seq<Service>, totalDemand: int, totalCost: Cost)

  /** A route as default-constructed, with its id set: no service, demand 0,
      cost 0. */
  function NewRoute(id: int): (r: Route)
    ensures r.id == id && r.services == [] && r.totalDemand == 0 && r.totalCost == Fin(0)
  {
    Route(id, [], 0, Fin(0))
  }

  /** A whole solution. The solver changes its fields in place. */
  class Solution {
    var totalCost: Cost
    var routes: seq<Route>
    var executionTimeMicroseconds: int

    /** A default-constructed solution: cost 0, no route, time 0. */
    constructor()
      ensures totalCost == Fin(0) && routes == [] && executionTimeMicroseconds == 0
    {
      totalCost := Fin(0);
      routes := [];
      executionTimeMicroseconds := 0;
    }
  }

  // ---------------------------------------------------------------------------
  // Sums over services and routes

  /** The services of all routes, route after route. */
  function Flatten(rs: seq<Route>): (r: seq<Service>)
    ensures rs == [] ==> r == []
  {
    if rs == [] then [] else rs[0].services + Flatten(rs[1..])
  }

  /** The sum of the demands, added front to back as the C++ loops do. */
  function DemandSum(ss: seq<Service>): int
  {
    if ss == [] then 0 else DemandSum(ss[..|ss| - 1]) + ss[|ss| - 1].demand
  }

  /** Flattening distributes over concatenation of route lists. */
  lemma {:induction false} FlattenConcat(a: seq<Route>, b: seq<Route>)
    ensures Flatten(a + b) == Flatten(a) + Flatten(b)
    decreases |a|
  {
    if a != [] {
      assert (a + b)[1..] == a[1..] + b;
      FlattenConcat(a[1..], b);
    } else {
      assert a + b == b;
    }
  }

  /** The demand of a concatenation is the sum of the demands. */
  lemma {:induction false} DemandSumConcat(a: seq<Service>, b: seq<Service>)
    ensures DemandSum(a + b) == DemandSum(a) + DemandSum(b)
    decreases |b|
  {
    if b != [] {
      var b' := b[..|b| - 1];
      assert (a + b)[..|a + b| - 1] == a + b';
      DemandSumConcat(a, b');
    } else {
      assert a + b == a;
    }
  }

  /** The demand depends only on the multiset of services, so no reordering of
      services changes it. */
  lemma {:induction false} DemandSumPermutation(a: seq<Service>, b: seq<Service>)
    requires multiset(a) == multiset(b)
    ensures DemandSum(a) == DemandSum(b)
    decreases |a|
  {
    if a != [] {
      var x := a[|a| - 1];
      var a' := a[..|a| - 1];
      assert x in multiset(b) by {
        assert a == a' + [x];
      }
      var i :| 0 <= i < |b| && b[i] == x;
      var b' := b[..i] + b[i + 1..];
      MultisetRemove(a, b, i);
      DemandSumPermutation(a', b');
      DemandSumRemove(a, |a| - 1);
      DemandSumRemove(b, i);
      assert a[..|a| - 1] + a[|a|..] == a';
    }
  }

  lemma MultisetRemove(a: seq<Service>, b: seq<Service>, i: int)
    requires multiset(a) == multiset(b) && a != [] && 0 <= i < |b| && b[i] == a[|a| - 1]
    ensures multiset(a[..|a| - 1]) == multiset(b[..i] + b[i + 1..])
  {
    var x := b[i];
    assert a == a[..|a| - 1] + [x];
    assert b == b[..i] + [x] + b[i + 1..];
    assert multiset(b) == multiset(b[..i]) + multiset{x} + multiset(b[i + 1..]);
    assert multiset(a) == multiset(a[..|a| - 1]) + multiset{x};
    assert multiset(b[..i] + b[i + 1..]) == multiset(b[..i]) + multiset(b[i + 1..]);
    assert multiset(a[..|a| - 1]) == multiset(a) - multiset{x};
    assert multiset(b[..i] + b[i + 1..]) == multiset(b) - multiset{x};
  }

  /** Taking one service out of a route takes its demand out of the sum. */
  lemma DemandSumRemove(b: seq<Service>, i: int)
    requires 0 <= i < |b|
    ensures DemandSum(b) == DemandSum(b[..i] + b[i + 1..]) + b[i].demand
  {
    var x := b[i];
    assert b == b[..i] + [x] + b[i + 1..];
    DemandSumConcat(b[..i], [x]);
    DemandSumConcat(b[..i] + [x], b[i + 1..]);
    DemandSumConcat(b[..i], b[i + 1..]);
    assert DemandSum([x]) == x.demand by {
      assert [x][..0] == [];
    }
  }
}
