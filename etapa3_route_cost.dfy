/** The cost of a route in `etapa3/Solver.hpp`: drive from the depot to the
    first service's `u`, pay its service cost and, for an edge or an arc, its
    traversal cost, leave from its `v` towards the next service, and finally
    drive back to the depot. Any leg that cannot be driven makes the route
    infinite. Two definitions are given: the leg-by-leg fold the C++ loop
    follows, and a reference sum over the numbered legs; they agree. */
module Etapa3RouteCost {
  import opened Common
  import opened ShortestPaths
  import opened Etapa3Solution

  /** `getDistance(from, to)`: infinite outside the table, else the table entry. */
  function Dist(d: Matrix, from: int, to: int): (c: Cost)
    ensures !(0 <= from < |d| && 0 <= to < |d|) ==> c == Inf
    ensures IsSquare(d, |d|) && 0 <= from < |d| && 0 <= to < |d| ==> c == d[from][to]
  {
    if 0 <= from < |d| && 0 <= to < |d| && to < |d[from]| then d[from][to] else Inf
  }

  /** What a service adds besides driving to it: its service cost, plus its
      traversal cost unless it is a node. */
  function Term(s: Service): int
  {
    s.serviceCost + (if s.kind != 'N' then s.travelCost else 0)
  }

  /** The cost of serving `ss` when the vehicle stands at `last`, then returning
      to the depot: the loop of `calculateRouteCost` from that point on. */
  function RouteCostFrom(d: Matrix, depot: int, last: int, ss: seq<Service>): Cost
    decreases |ss|
  {
    if ss == [] then Dist(d, last, depot)
    else Add(Add(Dist(d, last, ss[0].u), Fin(Term(ss[0]))), RouteCostFrom(d, depot, ss[0].v, ss[1..]))
  }

  /** `calculateRouteCost(services)`: 0 for an empty route, else the tour from
      the depot through every service and back. */
  function RouteCost(d: Matrix, depot: int, ss: seq<Service>): Cost
  {
    if ss == [] then Fin(0) else RouteCostFrom(d, depot, depot, ss)
  }

  // ---------------------------------------------------------------------------
  // The reference definition: numbered legs

  /** Leg `t` (for `0 <= t <= |ss|`) starts at `start` when `t == 0`, else
      where service `t - 1` is left... */
  function LegFrom(start: int, ss: seq<Service>, t: int): int
    requires 0 <= t <= |ss|
  {
    if t == 0 then start else ss[t - 1].v
  }

  /** ... and ends where service `t` is entered, or at the depot for the last. */
  function LegTo(depot: int, ss: seq<Service>, t: int): int
    requires 0 <= t <= |ss|
  {
    if t == |ss| then depot else ss[t].u
  }

  function Leg(d: Matrix, depot: int, start: int, ss: seq<Service>, t: int): Cost
    requires 0 <= t <= |ss|
  {
    Dist(d, LegFrom(start, ss, t), LegTo(depot, ss, t))
  }

  /** Every one of the `|ss| + 1` legs can be driven. */
  ghost predicate LegsFinite(d: Matrix, depot: int, start: int, ss: seq<Service>)
  {
    forall t :: 0 <= t <= |ss| ==> Leg(d, depot, start, ss, t).Fin?
  }

  /** The length of the first `m` legs, all of which can be driven. */
  function LegSum(d: Matrix, depot: int, start: int, ss: seq<Service>, m: nat): int
    requires m <= |ss| + 1
    requires forall t :: 0 <= t < m ==> Leg(d, depot, start, ss, t).Fin?
  {
    if m == 0 then 0 else LegSum(d, depot, start, ss, m - 1) + Leg(d, depot, start, ss, m - 1).value
  }

  /** The terms of all services. */
  function TermSum(ss: seq<Service>): int
  {
    if ss == [] then 0 else TermSum(ss[..|ss| - 1]) + Term(ss[|ss| - 1])
  }

  lemma {:induction false} TermSumCons(s: Service, ss: seq<Service>)
    ensures TermSum([s] + ss) == Term(s) + TermSum(ss)
    decreases |ss|
  {
    if ss == [] {
      assert ([s] + ss)[..0] == [];
    } else {
      var init := ss[..|ss| - 1];
      assert ([s] + ss)[..|[s] + ss| - 1] == [s] + init;
      TermSumCons(s, init);
    }
  }

  /** Dropping the first service shifts the legs after the first by one. */
  lemma {:induction false} LegSumShift(d: Matrix, depot: int, start: int, ss: seq<Service>, m: nat)
    requires ss != [] && m <= |ss|
    requires forall t :: 0 <= t <= m ==> Leg(d, depot, start, ss, t).Fin?
    ensures forall t :: 0 <= t < m ==> Leg(d, depot, ss[0].v, ss[1..], t) == Leg(d, depot, start, ss, t + 1)
    ensures LegSum(d, depot, start, ss, m + 1)
            == Leg(d, depot, start, ss, 0).value + LegSum(d, depot, ss[0].v, ss[1..], m)
    decreases m
  {
    forall t | 0 <= t < m
      ensures Leg(d, depot, ss[0].v, ss[1..], t) == Leg(d, depot, start, ss, t + 1)
    {
      assert LegFrom(ss[0].v, ss[1..], t) == LegFrom(start, ss, t + 1);
      assert LegTo(depot, ss[1..], t) == LegTo(depot, ss, t + 1);
    }
    if m > 0 {
      LegSumShift(d, depot, start, ss, m - 1);
    }
  }

  /** The fold and the reference agree: the cost from `start` is finite exactly
      when every leg can be driven, and it then is the sum of the legs plus the
      sum of the terms. */
  lemma {:induction false} RouteCostFromByLegs(d: Matrix, depot: int, start: int, ss: seq<Service>)
    ensures RouteCostFrom(d, depot, start, ss).Fin? <==> LegsFinite(d, depot, start, ss)
    ensures LegsFinite(d, depot, start, ss) ==>
              RouteCostFrom(d, depot, start, ss).value
              == LegSum(d, depot, start, ss, |ss| + 1) + TermSum(ss)
    decreases |ss|
  {
    if ss == [] {
      assert Leg(d, depot, start, ss, 0) == Dist(d, start, depot);
    } else {
      var s := ss[0];
      var rest := ss[1..];
      RouteCostFromByLegs(d, depot, s.v, rest);
      assert Leg(d, depot, start, ss, 0) == Dist(d, start, s.u);
      forall t | 0 <= t <= |rest|
        ensures Leg(d, depot, s.v, rest, t) == Leg(d, depot, start, ss, t + 1)
      {
        assert LegFrom(s.v, rest, t) == LegFrom(start, ss, t + 1);
        assert LegTo(depot, rest, t) == LegTo(depot, ss, t + 1);
      }
      if LegsFinite(d, depot, start, ss) {
        LegSumShift(d, depot, start, ss, |rest| + 1);
        assert [s] + rest == ss;
        TermSumCons(s, rest);
      }
      if RouteCostFrom(d, depot, start, ss).Fin? {
        forall t | 0 <= t <= |ss| ensures Leg(d, depot, start, ss, t).Fin? {
          if t > 0 {
            assert Leg(d, depot, s.v, rest, t - 1).Fin?;
          }
        }
      }
    }
  }

  /** The same agreement for a whole route: an empty route costs 0; otherwise
      the route is infinite exactly when some leg from or to the depot, or
      between two services, cannot be driven, and else costs its legs plus its
      terms. */
  lemma RouteCostByLegs(d: Matrix, depot: int, ss: seq<Service>)
    ensures ss == [] ==> RouteCost(d, depot, ss) == Fin(0)
    ensures ss != [] ==> (RouteCost(d, depot, ss).Inf? <==> exists t :: 0 <= t <= |ss| && Leg(d, depot, depot, ss, t).Inf?)
    ensures ss != [] && LegsFinite(d, depot, depot, ss) ==>
              RouteCost(d, depot, ss) == Fin(LegSum(d, depot, depot, ss, |ss| + 1) + TermSum(ss))
  {
    RouteCostFromByLegs(d, depot, depot, ss);
  }

  // ---------------------------------------------------------------------------
  // A lower bound, used for the termination of the local search

  /** `lo` is at most zero and at most every finite table entry. */
  ghost predicate DistFloor(d: Matrix, lo: int)
  {
    lo <= 0 && forall i, j :: 0 <= i < |d| && 0 <= j < |d[i]| && d[i][j].Fin? ==> d[i][j].value >= lo
  }

  /** `lo` is at most zero and at most the term of every service of `ss`. */
  ghost predicate TermFloor(ss: seq<Service>, lo: int)
  {
    lo <= 0 && forall s :: s in ss ==> Term(s) >= lo
  }

  /** A finite cost from any position is at least `|ss|` terms and `|ss| + 1`
      legs at their floors. */
  lemma {:induction false} RouteCostFromFloor(d: Matrix, depot: int, last: int, ss: seq<Service>, dl: int, tl: int)
    requires DistFloor(d, dl) && TermFloor(ss, tl) && RouteCostFrom(d, depot, last, ss).Fin?
    ensures RouteCostFrom(d, depot, last, ss).value >= |ss| * tl + (|ss| + 1) * dl
    decreases |ss|
  {
    if ss != [] {
      var rest := ss[1..];
      assert forall s :: s in rest ==> s in ss;
      RouteCostFromFloor(d, depot, ss[0].v, rest, dl, tl);
      var head := Dist(d, last, ss[0].u);
      var tail := RouteCostFrom(d, depot, ss[0].v, rest);
      assert RouteCostFrom(d, depot, last, ss) == Fin(head.value + Term(ss[0]) + tail.value);
      assert Term(ss[0]) >= tl;
      assert head.value >= dl;
      FloorStep(|rest|, tl, dl, head.value, Term(ss[0]), tail.value);
    }
  }

  /** One more service adds one term and one leg to the floor. */
  lemma FloorStep(k: nat, tl: int, dl: int, leg: int, term: int, tail: int)
    requires tail >= k * tl + (k + 1) * dl && term >= tl && leg >= dl
    ensures leg + term + tail >= (k + 1) * tl + (k + 2) * dl
  {
    assert (k + 1) * tl == k * tl + tl;
    assert (k + 2) * dl == (k + 1) * dl + dl;
  }

  /** A non-empty finite route costs at least `|ss| * (tl + 2 * dl)`. */
  lemma RouteCostFloor(d: Matrix, depot: int, ss: seq<Service>, dl: int, tl: int)
    requires DistFloor(d, dl) && TermFloor(ss, tl) && ss != [] && RouteCost(d, depot, ss).Fin?
    ensures RouteCost(d, depot, ss).value >= |ss| * (tl + 2 * dl)
  {
    RouteCostFromFloor(d, depot, depot, ss, dl, tl);
    assert (|ss| + 1) * dl >= 2 * |ss| * dl;
    assert |ss| * (tl + 2 * dl) == |ss| * tl + 2 * |ss| * dl;
  }

  /** Some floor exists for every table. */
  lemma {:induction false} SomeDistFloor(d: Matrix) returns (lo: int)
    ensures DistFloor(d, lo)
    decreases |d|
  {
    if d == [] {
      lo := 0;
    } else {
      var lo' := SomeDistFloor(d[..|d| - 1]);
      var row := d[|d| - 1];
      var rl := SomeRowFloor(row);
      lo := if lo' < rl then lo' else rl;
      forall i, j | 0 <= i < |d| && 0 <= j < |d[i]| && d[i][j].Fin? ensures d[i][j].value >= lo {
        if i < |d| - 1 {
          assert d[i] == d[..|d| - 1][i];
        }
      }
    }
  }

  lemma {:induction false} SomeRowFloor(row: seq<Cost>) returns (lo: int)
    ensures lo <= 0 && forall j :: 0 <= j < |row| && row[j].Fin? ==> row[j].value >= lo
    decreases |row|
  {
    if row == [] {
      lo := 0;
    } else {
      var lo' := SomeRowFloor(row[..|row| - 1]);
      var last := row[|row| - 1];
      lo := if last.Fin? && last.value < lo' then last.value else lo';
      forall j | 0 <= j < |row| && row[j].Fin? ensures row[j].value >= lo {
        if j < |row| - 1 {
          assert row[j] == row[..|row| - 1][j];
        }
      }
    }
  }

  /** Some floor exists for every list of services. */
  lemma {:induction false} SomeTermFloor(ss: seq<Service>) returns (lo: int)
    ensures TermFloor(ss, lo)
    decreases |ss|
  {
    if ss == [] {
      lo := 0;
    } else {
      var lo' := SomeTermFloor(ss[1..]);
      lo := if Term(ss[0]) < lo' then Term(ss[0]) else lo';
      forall s | s in ss ensures Term(s) >= lo {
        if s != ss[0] {
          assert s in ss[1..];
        }
      }
    }
  }
}
