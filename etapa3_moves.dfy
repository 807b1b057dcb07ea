/** The three neighbourhood moves of the local search in `etapa3/Solver.hpp`,
    as values: when a move counts as an improvement (reading the cached route
    sums, as the C++ code does), what it does to the routes, which improving
    move the nested loops meet first, and what every committed move keeps:
    the services, the capacity, and a strictly smaller total. */
module Etapa3Moves {
  import opened Common
  import opened ShortestPaths
  import opened Etapa3Solution
  import opened Etapa3RouteCost
  import opened Etapa3Metrics

  /** The solver's fixed inputs: the distance table, the depot, the capacity. */
  datatype Setting = Setting(dist: Matrix, depot: int, capacity: int)

  function CostIn(e: Setting, ss: seq<Service>): Cost
  {
    RouteCost(e.dist, e.depot, ss)
  }

  // ---------------------------------------------------------------------------
  // Editing a list of services

  /** `erase(begin() + i)`. */
  function Remove(ss: seq<Service>, i: int): (r: seq<Service>)
    requires 0 <= i < |ss|
    ensures multiset(r) == multiset(ss) - multiset{ss[i]}
  {
    assert ss == ss[..i] + [ss[i]] + ss[i + 1..];
    ss[..i] + ss[i + 1..]
  }

  /** `insert(begin() + pos, x)`. */
  function Insert(ss: seq<Service>, pos: int, x: Service): (r: seq<Service>)
    requires 0 <= pos <= |ss|
    ensures multiset(r) == multiset(ss) + multiset{x}
  {
    assert ss == ss[..pos] + ss[pos..];
    ss[..pos] + [x] + ss[pos..]
  }

  lemma {:induction false} ReversedMultiset<T>(s: seq<T>)
    ensures multiset(Reversed(s)) == multiset(s)
    decreases |s|
  {
    if s != [] {
      ReversedMultiset(s[1..]);
      assert s == [s[0]] + s[1..];
    }
  }

  /** `reverse(begin() + i, begin() + j + 1)`: the same services, with the
      segment `i..j` in reverse order. */
  function ReverseRange(ss: seq<Service>, i: int, j: int): (r: seq<Service>)
    requires 0 <= i <= j < |ss|
    ensures |r| == |ss| && multiset(r) == multiset(ss)
  {
    var mid := ss[i..j + 1];
    ReversedMultiset(mid);
    assert ss == ss[..i] + mid + ss[j + 1..];
    assert multiset(ss) == multiset(ss[..i]) + multiset(mid) + multiset(ss[j + 1..]);
    ss[..i] + Reversed(mid) + ss[j + 1..]
  }

  lemma ReverseRangeAt(ss: seq<Service>, i: int, j: int)
    requires 0 <= i <= j < |ss|
    ensures forall t :: 0 <= t < |ss| ==>
              ReverseRange(ss, i, j)[t] == if i <= t <= j then ss[i + j - t] else ss[t]
  {
    var r := ReverseRange(ss, i, j);
    var mid := Reversed(ss[i..j + 1]);
    assert r == ss[..i] + mid + ss[j + 1..];
    forall t | 0 <= t < |ss| ensures r[t] == if i <= t <= j then ss[i + j - t] else ss[t] {
      if t < i {
        assert r[t] == ss[..i][t];
      } else if t <= j {
        assert r[t] == mid[t - i];
      } else {
        assert r[t] == ss[j + 1..][t - j - 1];
      }
    }
  }

  // ---------------------------------------------------------------------------
  // Relocate: move service `s` of route `r1` to position `pos` of route `r2`

  datatype Relocation = Relocation(r1: int, s: int, r2: int, pos: int)

  ghost predicate RelocationIn(rs: seq<Route>, m: Relocation)
  {
    0 <= m.r1 < |rs| && 0 <= m.s < |rs[m.r1].services| && 0 <= m.r2 < |rs| && 0 <= m.pos <= |rs[m.r2].services|
  }

  /** The test of `tryRelocate`: another route, whose cached demand leaves room
      for the service, and two finite new costs whose sum is below the sum of
      the two cached costs. */
  predicate RelocateImproves(e: Setting, rs: seq<Route>, r1: int, s: int, r2: int, pos: int)
    requires 0 <= r1 < |rs| && 0 <= s < |rs[r1].services| && 0 <= r2 < |rs| && 0 <= pos <= |rs[r2].services|
  {
    var x := rs[r1].services[s];
    r1 != r2 && rs[r2].totalDemand + x.demand <= e.capacity
    && var c1 := CostIn(e, Remove(rs[r1].services, s));
       var c2 := CostIn(e, Insert(rs[r2].services, pos, x));
       c1.Fin? && c2.Fin? && Less(Fin(c1.value + c2.value), Add(rs[r1].totalCost, rs[r2].totalCost))
  }

  /** The routes after the move, before the metrics are recomputed. */
  function ApplyRelocate(rs: seq<Route>, m: Relocation): (r: seq<Route>)
    requires RelocationIn(rs, m)
    ensures |r| == |rs|
  {
    var x := rs[m.r1].services[m.s];
    rs[m.r1 := rs[m.r1].(services := Remove(rs[m.r1].services, m.s))]
      [m.r2 := rs[m.r2].(services := Insert(rs[m.r2].services, m.pos, x))]
  }

  /** No improving relocation with a position below `upTo`. */
  ghost predicate NoRelocateAt(e: Setting, rs: seq<Route>, r1: int, s: int, r2: int, upTo: int)
    requires 0 <= r1 < |rs| && 0 <= s < |rs[r1].services| && 0 <= r2 < |rs|
  {
    forall pos :: 0 <= pos < upTo && pos <= |rs[r2].services| ==> !RelocateImproves(e, rs, r1, s, r2, pos)
  }

  /** ... nor into a route below `upTo` ... */
  ghost predicate NoRelocateInto(e: Setting, rs: seq<Route>, r1: int, s: int, upTo: int)
    requires 0 <= r1 < |rs| && 0 <= s < |rs[r1].services|
  {
    forall r2 :: 0 <= r2 < upTo && r2 < |rs| ==> NoRelocateAt(e, rs, r1, s, r2, |rs[r2].services| + 1)
  }

  /** ... nor of a service below `upTo` ... */
  ghost predicate NoRelocateOf(e: Setting, rs: seq<Route>, r1: int, upTo: int)
    requires 0 <= r1 < |rs|
  {
    forall s :: 0 <= s < upTo && s < |rs[r1].services| ==> NoRelocateInto(e, rs, r1, s, |rs|)
  }

  /** ... nor out of a route below `upTo`. */
  ghost predicate NoRelocateBefore(e: Setting, rs: seq<Route>, upTo: int)
  {
    forall r1 :: 0 <= r1 < upTo && r1 < |rs| ==> NoRelocateOf(e, rs, r1, |rs[r1].services|)
  }

  ghost predicate NoRelocate(e: Setting, rs: seq<Route>)
  {
    NoRelocateBefore(e, rs, |rs|)
  }

  /** The improving relocation the loops of `tryRelocate` meet first. */
  ghost predicate FirstRelocate(e: Setting, rs: seq<Route>, m: Relocation)
  {
    RelocationIn(rs, m) && RelocateImproves(e, rs, m.r1, m.s, m.r2, m.pos)
    && NoRelocateBefore(e, rs, m.r1) && NoRelocateOf(e, rs, m.r1, m.s)
    && NoRelocateInto(e, rs, m.r1, m.s, m.r2) && NoRelocateAt(e, rs, m.r1, m.s, m.r2, m.pos)
  }

  // Each loop of the search extends its layer by one index.

  lemma RelocateSkipped(e: Setting, rs: seq<Route>, r1: int, s: int, r2: int)
    requires 0 <= r1 < |rs| && 0 <= s < |rs[r1].services| && 0 <= r2 < |rs|
    requires r1 == r2 || rs[r2].totalDemand + rs[r1].services[s].demand > e.capacity
    ensures NoRelocateAt(e, rs, r1, s, r2, |rs[r2].services| + 1)
  {
  }

  lemma NoRelocateAtStep(e: Setting, rs: seq<Route>, r1: int, s: int, r2: int, pos: int)
    requires 0 <= r1 < |rs| && 0 <= s < |rs[r1].services| && 0 <= r2 < |rs| && 0 <= pos <= |rs[r2].services|
    requires NoRelocateAt(e, rs, r1, s, r2, pos) && !RelocateImproves(e, rs, r1, s, r2, pos)
    ensures NoRelocateAt(e, rs, r1, s, r2, pos + 1)
  {
  }

  lemma NoRelocateIntoStep(e: Setting, rs: seq<Route>, r1: int, s: int, r2: int)
    requires 0 <= r1 < |rs| && 0 <= s < |rs[r1].services| && 0 <= r2 < |rs|
    requires NoRelocateInto(e, rs, r1, s, r2) && NoRelocateAt(e, rs, r1, s, r2, |rs[r2].services| + 1)
    ensures NoRelocateInto(e, rs, r1, s, r2 + 1)
  {
  }

  lemma NoRelocateOfStep(e: Setting, rs: seq<Route>, r1: int, s: int)
    requires 0 <= r1 < |rs| && 0 <= s < |rs[r1].services|
    requires NoRelocateOf(e, rs, r1, s) && NoRelocateInto(e, rs, r1, s, |rs|)
    ensures NoRelocateOf(e, rs, r1, s + 1)
  {
  }

  lemma NoRelocateBeforeStep(e: Setting, rs: seq<Route>, r1: int)
    requires 0 <= r1 < |rs|
    requires NoRelocateBefore(e, rs, r1) && NoRelocateOf(e, rs, r1, |rs[r1].services|)
    ensures NoRelocateBefore(e, rs, r1 + 1)
  {
  }

  /** Taken together, the layers say that no relocation improves. */
  lemma NoRelocateMeansNone(e: Setting, rs: seq<Route>)
    ensures NoRelocate(e, rs) <==> forall m :: RelocationIn(rs, m) ==> !RelocateImproves(e, rs, m.r1, m.s, m.r2, m.pos)
  {
    if NoRelocate(e, rs) {
      NoRelocateExcludes(e, rs);
    }
    if forall m :: RelocationIn(rs, m) ==> !RelocateImproves(e, rs, m.r1, m.s, m.r2, m.pos) {
      forall r1, s, r2, pos | 0 <= r1 < |rs| && 0 <= s < |rs[r1].services| && 0 <= r2 < |rs| && 0 <= pos <= |rs[r2].services|
        ensures !RelocateImproves(e, rs, r1, s, r2, pos)
      {
        assert RelocationIn(rs, Relocation(r1, s, r2, pos));
      }
    }
  }

  /** The layers, when complete, exclude every improving relocation. */
  lemma NoRelocateExcludes(e: Setting, rs: seq<Route>)
    requires NoRelocate(e, rs)
    ensures forall m :: RelocationIn(rs, m) ==> !RelocateImproves(e, rs, m.r1, m.s, m.r2, m.pos)
  {
    forall m | RelocationIn(rs, m) ensures !RelocateImproves(e, rs, m.r1, m.s, m.r2, m.pos) {
      assert NoRelocateOf(e, rs, m.r1, |rs[m.r1].services|);
      assert NoRelocateInto(e, rs, m.r1, m.s, |rs|);
      assert NoRelocateAt(e, rs, m.r1, m.s, m.r2, |rs[m.r2].services| + 1);
    }
  }

  // ---------------------------------------------------------------------------
  // Swap: exchange service `s1` of route `r1` with service `s2` of route `r2 > r1`

  datatype Exchange = Exchange(r1: int, r2: int, s1: int, s2: int)

  ghost predicate ExchangeIn(rs: seq<Route>, m: Exchange)
  {
    0 <= m.r1 < m.r2 < |rs| && 0 <= m.s1 < |rs[m.r1].services| && 0 <= m.s2 < |rs[m.r2].services|
  }

  /** The test of `trySwap`: both cached demands, adjusted by the exchanged
      demands, stay within capacity, and two finite new costs sum below the two
      cached costs. */
  predicate SwapImproves(e: Setting, rs: seq<Route>, r1: int, r2: int, s1: int, s2: int)
    requires 0 <= r1 < r2 < |rs| && 0 <= s1 < |rs[r1].services| && 0 <= s2 < |rs[r2].services|
  {
    var a := rs[r1].services[s1];
    var b := rs[r2].services[s2];
    rs[r1].totalDemand - a.demand + b.demand <= e.capacity
    && rs[r2].totalDemand - b.demand + a.demand <= e.capacity
    && var c1 := CostIn(e, rs[r1].services[s1 := b]);
       var c2 := CostIn(e, rs[r2].services[s2 := a]);
       c1.Fin? && c2.Fin? && Less(Fin(c1.value + c2.value), Add(rs[r1].totalCost, rs[r2].totalCost))
  }

  function ApplySwap(rs: seq<Route>, m: Exchange): (r: seq<Route>)
    requires ExchangeIn(rs, m)
    ensures |r| == |rs|
  {
    var a := rs[m.r1].services[m.s1];
    var b := rs[m.r2].services[m.s2];
    rs[m.r1 := rs[m.r1].(services := rs[m.r1].services[m.s1 := b])]
      [m.r2 := rs[m.r2].(services := rs[m.r2].services[m.s2 := a])]
  }

  ghost predicate NoSwapAt(e: Setting, rs: seq<Route>, r1: int, r2: int, s1: int, upTo: int)
    requires 0 <= r1 < r2 < |rs| && 0 <= s1 < |rs[r1].services|
  {
    forall s2 :: 0 <= s2 < upTo && s2 < |rs[r2].services| ==> !SwapImproves(e, rs, r1, r2, s1, s2)
  }

  ghost predicate NoSwapOf(e: Setting, rs: seq<Route>, r1: int, r2: int, upTo: int)
    requires 0 <= r1 < r2 < |rs|
  {
    forall s1 :: 0 <= s1 < upTo && s1 < |rs[r1].services| ==> NoSwapAt(e, rs, r1, r2, s1, |rs[r2].services|)
  }

  ghost predicate NoSwapWith(e: Setting, rs: seq<Route>, r1: int, upTo: int)
    requires 0 <= r1 < |rs|
  {
    forall r2 :: r1 < r2 < upTo && r2 < |rs| ==> NoSwapOf(e, rs, r1, r2, |rs[r1].services|)
  }

  ghost predicate NoSwapBefore(e: Setting, rs: seq<Route>, upTo: int)
  {
    forall r1 :: 0 <= r1 < upTo && r1 < |rs| ==> NoSwapWith(e, rs, r1, |rs|)
  }

  ghost predicate NoSwap(e: Setting, rs: seq<Route>)
  {
    NoSwapBefore(e, rs, |rs|)
  }

  /** The improving exchange the loops of `trySwap` meet first. */
  ghost predicate FirstSwap(e: Setting, rs: seq<Route>, m: Exchange)
  {
    ExchangeIn(rs, m) && SwapImproves(e, rs, m.r1, m.r2, m.s1, m.s2)
    && NoSwapBefore(e, rs, m.r1) && NoSwapWith(e, rs, m.r1, m.r2)
    && NoSwapOf(e, rs, m.r1, m.r2, m.s1) && NoSwapAt(e, rs, m.r1, m.r2, m.s1, m.s2)
  }

  lemma NoSwapOfStep(e: Setting, rs: seq<Route>, r1: int, r2: int, s1: int)
    requires 0 <= r1 < r2 < |rs| && 0 <= s1 < |rs[r1].services|
    requires NoSwapOf(e, rs, r1, r2, s1) && NoSwapAt(e, rs, r1, r2, s1, |rs[r2].services|)
    ensures NoSwapOf(e, rs, r1, r2, s1 + 1)
  {
  }

  lemma NoSwapWithStep(e: Setting, rs: seq<Route>, r1: int, r2: int)
    requires 0 <= r1 < r2 < |rs|
    requires NoSwapWith(e, rs, r1, r2) && NoSwapOf(e, rs, r1, r2, |rs[r1].services|)
    ensures NoSwapWith(e, rs, r1, r2 + 1)
  {
  }

  lemma NoSwapBeforeStep(e: Setting, rs: seq<Route>, r1: int)
    requires 0 <= r1 < |rs|
    requires NoSwapBefore(e, rs, r1) && NoSwapWith(e, rs, r1, |rs|)
    ensures NoSwapBefore(e, rs, r1 + 1)
  {
  }

  lemma NoSwapMeansNone(e: Setting, rs: seq<Route>)
    ensures NoSwap(e, rs) <==> forall m :: ExchangeIn(rs, m) ==> !SwapImproves(e, rs, m.r1, m.r2, m.s1, m.s2)
  {
    if NoSwap(e, rs) {
      forall m | ExchangeIn(rs, m) ensures !SwapImproves(e, rs, m.r1, m.r2, m.s1, m.s2) {
        assert NoSwapWith(e, rs, m.r1, |rs|);
        assert NoSwapOf(e, rs, m.r1, m.r2, |rs[m.r1].services|);
        assert NoSwapAt(e, rs, m.r1, m.r2, m.s1, |rs[m.r2].services|);
      }
    }
    if forall m :: ExchangeIn(rs, m) ==> !SwapImproves(e, rs, m.r1, m.r2, m.s1, m.s2) {
      forall r1, r2, s1, s2 | 0 <= r1 < r2 < |rs| && 0 <= s1 < |rs[r1].services| && 0 <= s2 < |rs[r2].services|
        ensures !SwapImproves(e, rs, r1, r2, s1, s2)
      {
        assert ExchangeIn(rs, Exchange(r1, r2, s1, s2));
      }
    }
  }

  // ---------------------------------------------------------------------------
  // 2-opt: reverse services `i..j` (`i < j`) of route `r`

  datatype Reversal = Reversal(r: int, i: int, j: int)

  ghost predicate ReversalIn(rs: seq<Route>, m: Reversal)
  {
    0 <= m.r < |rs| && 0 <= m.i < m.j < |rs[m.r].services|
  }

  /** The test of `try2Opt`: the new cost is below the cached one (an infinite
      new cost never is). */
  predicate TwoOptImproves(e: Setting, rs: seq<Route>, r: int, i: int, j: int)
    requires 0 <= r < |rs| && 0 <= i < j < |rs[r].services|
  {
    Less(CostIn(e, ReverseRange(rs[r].services, i, j)), rs[r].totalCost)
  }

  function ApplyTwoOpt(rs: seq<Route>, m: Reversal): (r: seq<Route>)
    requires ReversalIn(rs, m)
    ensures |r| == |rs|
  {
    rs[m.r := rs[m.r].(services := ReverseRange(rs[m.r].services, m.i, m.j))]
  }

  ghost predicate NoTwoOptAt(e: Setting, rs: seq<Route>, r: int, i: int, upTo: int)
    requires 0 <= r < |rs| && 0 <= i < |rs[r].services|
  {
    forall j :: i < j < upTo && j < |rs[r].services| ==> !TwoOptImproves(e, rs, r, i, j)
  }

  ghost predicate NoTwoOptIn(e: Setting, rs: seq<Route>, r: int, upTo: int)
    requires 0 <= r < |rs|
  {
    forall i :: 0 <= i < upTo && i < |rs[r].services| ==> NoTwoOptAt(e, rs, r, i, |rs[r].services|)
  }

  ghost predicate NoTwoOptBefore(e: Setting, rs: seq<Route>, upTo: int)
  {
    forall r :: 0 <= r < upTo && r < |rs| ==> NoTwoOptIn(e, rs, r, |rs[r].services|)
  }

  ghost predicate NoTwoOpt(e: Setting, rs: seq<Route>)
  {
    NoTwoOptBefore(e, rs, |rs|)
  }

  /** The improving reversal the loops of `try2Opt` meet first. */
  ghost predicate FirstTwoOpt(e: Setting, rs: seq<Route>, m: Reversal)
  {
    ReversalIn(rs, m) && TwoOptImproves(e, rs, m.r, m.i, m.j)
    && NoTwoOptBefore(e, rs, m.r) && NoTwoOptIn(e, rs, m.r, m.i) && NoTwoOptAt(e, rs, m.r, m.i, m.j)
  }

  lemma NoTwoOptAtStep(e: Setting, rs: seq<Route>, r: int, i: int, j: int)
    requires 0 <= r < |rs| && 0 <= i < j < |rs[r].services|
    requires NoTwoOptAt(e, rs, r, i, j) && !TwoOptImproves(e, rs, r, i, j)
    ensures NoTwoOptAt(e, rs, r, i, j + 1)
  {
    forall t | i < t < j + 1 && t < |rs[r].services|
      ensures !TwoOptImproves(e, rs, r, i, t)
    {
      if t < j {
        assert i < t < j && t < |rs[r].services|;
      }
    }
  }

  lemma NoTwoOptInStep(e: Setting, rs: seq<Route>, r: int, i: int)
    requires 0 <= r < |rs| && 0 <= i < |rs[r].services|
    requires NoTwoOptIn(e, rs, r, i) && NoTwoOptAt(e, rs, r, i, |rs[r].services|)
    ensures NoTwoOptIn(e, rs, r, i + 1)
  {
  }

  /** A route with fewer than two services, or whose last start has no end
      after it, has nothing left to reverse. */
  lemma NoTwoOptInLast(e: Setting, rs: seq<Route>, r: int)
    requires 0 <= r < |rs|
    requires |rs[r].services| < 2 || NoTwoOptIn(e, rs, r, |rs[r].services| - 1)
    ensures NoTwoOptIn(e, rs, r, |rs[r].services|)
  {
    if |rs[r].services| >= 2 {
      assert NoTwoOptAt(e, rs, r, |rs[r].services| - 1, |rs[r].services|);
    }
  }

  lemma NoTwoOptBeforeStep(e: Setting, rs: seq<Route>, r: int)
    requires 0 <= r < |rs|
    requires NoTwoOptBefore(e, rs, r) && NoTwoOptIn(e, rs, r, |rs[r].services|)
    ensures NoTwoOptBefore(e, rs, r + 1)
  {
  }

  lemma NoTwoOptMeansNone(e: Setting, rs: seq<Route>)
    ensures NoTwoOpt(e, rs) <==> forall m :: ReversalIn(rs, m) ==> !TwoOptImproves(e, rs, m.r, m.i, m.j)
  {
    if NoTwoOpt(e, rs) {
      forall m | ReversalIn(rs, m) ensures !TwoOptImproves(e, rs, m.r, m.i, m.j) {
        assert NoTwoOptIn(e, rs, m.r, |rs[m.r].services|);
        assert NoTwoOptAt(e, rs, m.r, m.i, |rs[m.r].services|);
      }
    }
    if forall m :: ReversalIn(rs, m) ==> !TwoOptImproves(e, rs, m.r, m.i, m.j) {
      forall r, i, j | 0 <= r < |rs| && 0 <= i < j < |rs[r].services|
        ensures !TwoOptImproves(e, rs, r, i, j)
      {
        assert ReversalIn(rs, Reversal(r, i, j));
      }
    }
  }

  /** A local optimum: no move of any of the three kinds improves. */
  ghost predicate LocalOptimum(e: Setting, rs: seq<Route>)
  {
    NoRelocate(e, rs) && NoSwap(e, rs) && NoTwoOpt(e, rs)
  }

  // ---------------------------------------------------------------------------
  // What a committed move keeps

  /** Every route's cached demand is within the capacity. */
  ghost predicate WithinCapacity(rs: seq<Route>, cap: int)
  {
    forall i :: 0 <= i < |rs| ==> rs[i].totalDemand <= cap
  }

  ghost predicate NonNegativeDemands(ss: seq<Service>)
  {
    forall s :: s in ss ==> s.demand >= 0
  }

  /** Replacing one route changes the services by the old and new route's
      services. */
  lemma FlattenReplace(rs: seq<Route>, i: int, r: Route)
    requires 0 <= i < |rs|
    ensures multiset(Flatten(rs[i := r])) + multiset(rs[i].services) == multiset(Flatten(rs)) + multiset(r.services)
  {
    var pre := rs[..i];
    var post := rs[i + 1..];
    assert rs == pre + [rs[i]] + post;
    assert rs[i := r] == pre + [r] + post;
    FlattenConcat(pre + [rs[i]], post);
    FlattenConcat(pre, [rs[i]]);
    FlattenConcat(pre + [r], post);
    FlattenConcat(pre, [r]);
    assert Flatten([rs[i]]) == rs[i].services + Flatten([]);
    assert Flatten([r]) == r.services + Flatten([]);
  }

  /** After a recomputation of routes that differ from settled ones at `i` and
      `j` only, with finite costs there, the total moves by the differences of
      the costs at those routes. */
  lemma RecalculatedAfterEdit(d: Matrix, depot: int, rs: seq<Route>, total: Cost, rs': seq<Route>, i: int, j: int)
    requires Settled(d, depot, rs, total)
    requires |rs'| == |rs| && 0 <= i < |rs| && 0 <= j < |rs|
    requires forall k :: 0 <= k < |rs| && k != i && k != j ==> rs'[k] == rs[k]
    requires RouteCost(d, depot, rs'[i].services).Fin? && RouteCost(d, depot, rs'[j].services).Fin?
    ensures Recalculated(d, depot, rs').total
            == Fin(total.value + (RouteCost(d, depot, rs'[i].services).value - Cached(rs[i]))
                   + (if i != j then RouteCost(d, depot, rs'[j].services).value - Cached(rs[j]) else 0))
  {
    var a, b := Refresh(d, depot, rs'[i]), Refresh(d, depot, rs'[j]);
    EditedTotal(d, depot, rs, total, rs', i, j);
    TwoUpdates(rs, i, j, a, b);
    assert Cached(a) == RouteCost(d, depot, rs'[i].services).value;
    assert Cached(b) == RouteCost(d, depot, rs'[j].services).value;
  }

  /** Routes edited at `i` and `j` only, with finite costs there, recompute to
      the settled routes with those two refreshed. */
  lemma EditedTotal(d: Matrix, depot: int, rs: seq<Route>, total: Cost, rs': seq<Route>, i: int, j: int)
    requires Settled(d, depot, rs, total)
    requires |rs'| == |rs| && 0 <= i < |rs| && 0 <= j < |rs|
    requires forall k :: 0 <= k < |rs| && k != i && k != j ==> rs'[k] == rs[k]
    requires RouteCost(d, depot, rs'[i].services).Fin? && RouteCost(d, depot, rs'[j].services).Fin?
    ensures Recalculated(d, depot, rs').total
            == Fin(CostSum(rs[i := Refresh(d, depot, rs'[i])][j := Refresh(d, depot, rs'[j])]))
  {
    EditedFinite(d, depot, rs, total, rs', i, j);
    RecalculatedAllFinite(d, depot, rs');
    EditedRefresh(d, depot, rs, total, rs', i, j);
  }

  /** Overwriting two positions, possibly the same one, moves the sum by the
      differences of the cached costs. */
  lemma TwoUpdates(rs: seq<Route>, i: int, j: int, a: Route, b: Route)
    requires 0 <= i < |rs| && 0 <= j < |rs|
    ensures CostSum(rs[i := a][j := b])
            == CostSum(rs) - Cached(rs[i]) + (if i == j then Cached(b) else Cached(a) + Cached(b) - Cached(rs[j]))
  {
    var mid := rs[i := a];
    CostSumUpdate(rs, i, a);
    CostSumUpdate(mid, j, b);
    assert mid[j] == if i == j then a else rs[j];
  }

  /** Routes edited at `i` and `j` only, with finite costs there, all have
      finite costs. */
  lemma EditedFinite(d: Matrix, depot: int, rs: seq<Route>, total: Cost, rs': seq<Route>, i: int, j: int)
    requires Settled(d, depot, rs, total)
    requires |rs'| == |rs| && 0 <= i < |rs| && 0 <= j < |rs|
    requires forall k :: 0 <= k < |rs| && k != i && k != j ==> rs'[k] == rs[k]
    requires RouteCost(d, depot, rs'[i].services).Fin? && RouteCost(d, depot, rs'[j].services).Fin?
    ensures forall k :: 0 <= k < |rs'| ==> RouteCost(d, depot, rs'[k].services).Fin?
  {
    forall k | 0 <= k < |rs'| ensures RouteCost(d, depot, rs'[k].services).Fin? {
      if k != i && k != j {
        assert Current(d, depot, rs[k]);
      }
    }
  }

  /** Refreshing routes edited at `i` and `j` only refreshes those two. */
  lemma EditedRefresh(d: Matrix, depot: int, rs: seq<Route>, total: Cost, rs': seq<Route>, i: int, j: int)
    requires Settled(d, depot, rs, total)
    requires |rs'| == |rs| && 0 <= i < |rs| && 0 <= j < |rs|
    requires forall k :: 0 <= k < |rs| && k != i && k != j ==> rs'[k] == rs[k]
    ensures RefreshAll(d, depot, rs') == rs[i := Refresh(d, depot, rs'[i])][j := Refresh(d, depot, rs'[j])]
  {
    var mid := rs[i := Refresh(d, depot, rs'[i])][j := Refresh(d, depot, rs'[j])];
    forall k | 0 <= k < |rs| ensures RefreshAll(d, depot, rs')[k] == mid[k] {
      if k != i && k != j {
        assert Current(d, depot, rs[k]);
      }
    }
  }

  /** Overwriting one service changes the demand by the difference. */
  lemma SwapDemand(ss: seq<Service>, i: int, y: Service)
    requires 0 <= i < |ss|
    ensures DemandSum(ss[i := y]) == DemandSum(ss) - ss[i].demand + y.demand
  {
    var p := ss[..i];
    var q := ss[i + 1..];
    assert ss == p + [ss[i]] + q;
    assert ss[i := y] == p + [y] + q;
    DemandSumConcat(p + [ss[i]], q);
    DemandSumConcat(p, [ss[i]]);
    DemandSumConcat(p + [y], q);
    DemandSumConcat(p, [y]);
    assert [ss[i]][..0] == [] && [y][..0] == [];
  }

  /** Relocation: the total drops. */
  lemma RelocateLowers(e: Setting, rs: seq<Route>, total: Cost, m: Relocation)
    requires Settled(e.dist, e.depot, rs, total) && RelocationIn(rs, m)
    requires RelocateImproves(e, rs, m.r1, m.s, m.r2, m.pos)
    ensures Recalculated(e.dist, e.depot, ApplyRelocate(rs, m)).total.Fin?
    ensures Recalculated(e.dist, e.depot, ApplyRelocate(rs, m)).total.value < total.value
  {
    assert Current(e.dist, e.depot, rs[m.r1]) && Current(e.dist, e.depot, rs[m.r2]);
    RecalculatedAfterEdit(e.dist, e.depot, rs, total, ApplyRelocate(rs, m), m.r1, m.r2);
  }

  /** Relocation to another route: the same services. */
  lemma RelocateKeepsServices(rs: seq<Route>, m: Relocation)
    requires RelocationIn(rs, m) && m.r1 != m.r2
    ensures multiset(Flatten(ApplyRelocate(rs, m))) == multiset(Flatten(rs))
  {
    var x := rs[m.r1].services[m.s];
    var s1 := Remove(rs[m.r1].services, m.s);
    var s2 := Insert(rs[m.r2].services, m.pos, x);
    var mid := rs[m.r1 := rs[m.r1].(services := s1)];
    FlattenReplace(rs, m.r1, rs[m.r1].(services := s1));
    FlattenReplace(mid, m.r2, rs[m.r2].(services := s2));
    assert mid[m.r2 := rs[m.r2].(services := s2)] == ApplyRelocate(rs, m);
    assert mid[m.r2] == rs[m.r2];
    Rebalance(multiset(Flatten(rs)), multiset(Flatten(mid)), multiset(Flatten(ApplyRelocate(rs, m))),
              multiset(rs[m.r1].services), multiset(rs[m.r2].services), multiset{x});
  }

  /** Moving `x` from one bag to another leaves the union unchanged. */
  lemma Rebalance<T>(f0: multiset<T>, f1: multiset<T>, f2: multiset<T>, s1: multiset<T>, s2: multiset<T>, x: multiset<T>)
    requires x <= s1
    requires f1 + s1 == f0 + (s1 - x)
    requires f2 + s2 == f1 + (s2 + x)
    ensures f2 == f0
  {
    forall z ensures f2[z] == f0[z] {
      assert (f1 + s1)[z] == (f0 + (s1 - x))[z];
      assert (f2 + s2)[z] == (f1 + (s2 + x))[z];
      assert x[z] <= s1[z];
    }
  }

  /** Exchanging `a` of one bag with `b` of another leaves the union unchanged. */
  lemma Exchanged<T>(f0: multiset<T>, f1: multiset<T>, f2: multiset<T>, s1: multiset<T>, s2: multiset<T>,
                     a: multiset<T>, b: multiset<T>)
    requires a <= s1 && b <= s2
    requires f1 + s1 == f0 + (s1 - a + b)
    requires f2 + s2 == f1 + (s2 - b + a)
    ensures f2 == f0
  {
    forall z ensures f2[z] == f0[z] {
      assert (f1 + s1)[z] == (f0 + (s1 - a + b))[z];
      assert (f2 + s2)[z] == (f1 + (s2 - b + a))[z];
      assert a[z] <= s1[z] && b[z] <= s2[z];
    }
  }

  /** Relocation: with no negative demand, every new route's demand is within
      the capacity; the receiving route was tested against its cached demand. */
  lemma RelocateKeepsCapacity(e: Setting, rs: seq<Route>, total: Cost, m: Relocation)
    requires Settled(e.dist, e.depot, rs, total) && RelocationIn(rs, m)
    requires RelocateImproves(e, rs, m.r1, m.s, m.r2, m.pos)
    requires WithinCapacity(rs, e.capacity) && NonNegativeDemands(rs[m.r1].services)
    ensures forall k :: 0 <= k < |rs| ==> DemandSum(ApplyRelocate(rs, m)[k].services) <= e.capacity
  {
    var rs' := ApplyRelocate(rs, m);
    var x := rs[m.r1].services[m.s];
    forall k | 0 <= k < |rs'| ensures DemandSum(rs'[k].services) <= e.capacity {
      assert Current(e.dist, e.depot, rs[k]);
      if k == m.r2 {
        assert rs'[k].services == Insert(rs[m.r2].services, m.pos, x);
        InsertDemand(rs[m.r2].services, m.pos, x);
      } else if k == m.r1 {
        assert rs'[k].services == Remove(rs[m.r1].services, m.s);
        RemoveDemand(rs[m.r1].services, m.s);
        assert x in rs[m.r1].services;
      } else {
        assert rs'[k] == rs[k];
      }
    }
  }

  lemma RemoveDemand(ss: seq<Service>, i: int)
    requires 0 <= i < |ss|
    ensures DemandSum(Remove(ss, i)) == DemandSum(ss) - ss[i].demand
  {
    var r := Remove(ss, i);
    assert ss[i] in multiset(ss);
    assert multiset(r + [ss[i]]) == multiset(ss);
    DemandSumPermutation(r + [ss[i]], ss);
    DemandSumSnoc(r, ss[i]);
  }

  lemma DemandSumSnoc(p: seq<Service>, x: Service)
    ensures DemandSum(p + [x]) == DemandSum(p) + x.demand
  {
    assert (p + [x])[..|p|] == p;
  }

  lemma InsertDemand(ss: seq<Service>, pos: int, x: Service)
    requires 0 <= pos <= |ss|
    ensures DemandSum(Insert(ss, pos, x)) == DemandSum(ss) + x.demand
  {
    DemandSumPermutation(Insert(ss, pos, x), ss + [x]);
    DemandSumSnoc(ss, x);
  }

  /** Adding the same multiset to both sides can be undone. */
  lemma Cancel<T>(a: multiset<T>, b: multiset<T>, x: multiset<T>)
    requires a + x == b + x
    ensures a == b
  {
    forall z ensures a[z] == b[z] {
      assert (a + x)[z] == (b + x)[z];
    }
  }

  /** A committed relocation keeps the services, lowers the total, leaves a
      settled solution, and keeps every route within capacity when no demand
      is negative (the route that loses the service shrinks by its demand). */
  lemma RelocateEffect(e: Setting, rs: seq<Route>, total: Cost, m: Relocation)
    requires Settled(e.dist, e.depot, rs, total) && RelocationIn(rs, m)
    requires RelocateImproves(e, rs, m.r1, m.s, m.r2, m.pos)
    ensures var n := Recalculated(e.dist, e.depot, ApplyRelocate(rs, m));
            n.total.Fin? && n.total.value < total.value
            && Settled(e.dist, e.depot, n.routes, n.total)
            && multiset(Flatten(n.routes)) == multiset(Flatten(rs))
            && (WithinCapacity(rs, e.capacity) && NonNegativeDemands(Flatten(rs)) ==> WithinCapacity(n.routes, e.capacity))
  {
    var rs' := ApplyRelocate(rs, m);
    RelocateLowers(e, rs, total, m);
    RecalculatedSettles(e.dist, e.depot, rs');
    RecalculatedKeepsServices(e.dist, e.depot, rs');
    RelocateKeepsServices(rs, m);
    if WithinCapacity(rs, e.capacity) && NonNegativeDemands(Flatten(rs)) {
      RelocateWithinCapacity(e, rs, total, m);
    }
  }

  /** Relocation keeps every recomputed route within the capacity. */
  lemma RelocateWithinCapacity(e: Setting, rs: seq<Route>, total: Cost, m: Relocation)
    requires Settled(e.dist, e.depot, rs, total) && RelocationIn(rs, m)
    requires RelocateImproves(e, rs, m.r1, m.s, m.r2, m.pos)
    requires WithinCapacity(rs, e.capacity) && NonNegativeDemands(Flatten(rs))
    requires Recalculated(e.dist, e.depot, ApplyRelocate(rs, m)).total.Fin?
    ensures WithinCapacity(Recalculated(e.dist, e.depot, ApplyRelocate(rs, m)).routes, e.capacity)
  {
    FlattenHas(rs, m.r1);
    RelocateKeepsCapacity(e, rs, total, m);
    RecalculatedCapacity(e.dist, e.depot, ApplyRelocate(rs, m), e.capacity);
  }

  /** The services of a route are among the services of the solution. */
  lemma {:induction false} FlattenHas(rs: seq<Route>, i: int)
    requires 0 <= i < |rs|
    ensures forall s :: s in rs[i].services ==> s in Flatten(rs)
    decreases i
  {
    if i > 0 {
      FlattenHas(rs[1..], i - 1);
    }
  }

  /** Exchange: the total drops. */
  lemma SwapLowers(e: Setting, rs: seq<Route>, total: Cost, m: Exchange)
    requires Settled(e.dist, e.depot, rs, total) && ExchangeIn(rs, m)
    requires SwapImproves(e, rs, m.r1, m.r2, m.s1, m.s2)
    ensures Recalculated(e.dist, e.depot, ApplySwap(rs, m)).total.Fin?
    ensures Recalculated(e.dist, e.depot, ApplySwap(rs, m)).total.value < total.value
  {
    assert Current(e.dist, e.depot, rs[m.r1]) && Current(e.dist, e.depot, rs[m.r2]);
    RecalculatedAfterEdit(e.dist, e.depot, rs, total, ApplySwap(rs, m), m.r1, m.r2);
  }

  /** Overwriting position `i` trades the old service for the new one. */
  lemma OverwriteMultiset(ss: seq<Service>, i: int, y: Service)
    requires 0 <= i < |ss|
    ensures multiset(ss[i := y]) == multiset(ss) - multiset{ss[i]} + multiset{y}
    ensures multiset{ss[i]} <= multiset(ss)
  {
    var p := ss[..i];
    var q := ss[i + 1..];
    assert ss == p + [ss[i]] + q;
    assert ss[i := y] == p + [y] + q;
  }

  /** Exchange: the same services. */
  lemma SwapKeepsServices(rs: seq<Route>, m: Exchange)
    requires ExchangeIn(rs, m)
    ensures multiset(Flatten(ApplySwap(rs, m))) == multiset(Flatten(rs))
  {
    var a := rs[m.r1].services[m.s1];
    var b := rs[m.r2].services[m.s2];
    var s1 := rs[m.r1].services[m.s1 := b];
    var s2 := rs[m.r2].services[m.s2 := a];
    var mid := rs[m.r1 := rs[m.r1].(services := s1)];
    FlattenReplace(rs, m.r1, rs[m.r1].(services := s1));
    FlattenReplace(mid, m.r2, rs[m.r2].(services := s2));
    assert mid[m.r2 := rs[m.r2].(services := s2)] == ApplySwap(rs, m);
    assert mid[m.r2] == rs[m.r2];
    OverwriteMultiset(rs[m.r1].services, m.s1, b);
    OverwriteMultiset(rs[m.r2].services, m.s2, a);
    Exchanged(multiset(Flatten(rs)), multiset(Flatten(mid)), multiset(Flatten(ApplySwap(rs, m))),
              multiset(rs[m.r1].services), multiset(rs[m.r2].services), multiset{a}, multiset{b});
  }

  /** Exchange: both new demands were tested against the capacity. */
  lemma SwapKeepsCapacity(e: Setting, rs: seq<Route>, total: Cost, m: Exchange)
    requires Settled(e.dist, e.depot, rs, total) && ExchangeIn(rs, m)
    requires SwapImproves(e, rs, m.r1, m.r2, m.s1, m.s2) && WithinCapacity(rs, e.capacity)
    ensures forall k :: 0 <= k < |rs| ==> DemandSum(ApplySwap(rs, m)[k].services) <= e.capacity
  {
    var rs' := ApplySwap(rs, m);
    SwapDemand(rs[m.r1].services, m.s1, rs[m.r2].services[m.s2]);
    SwapDemand(rs[m.r2].services, m.s2, rs[m.r1].services[m.s1]);
    forall k | 0 <= k < |rs'| ensures DemandSum(rs'[k].services) <= e.capacity {
      assert Current(e.dist, e.depot, rs[k]);
    }
  }

  /** A committed exchange keeps the services, lowers the total, leaves a
      settled solution, and keeps every route within capacity. */
  lemma SwapEffect(e: Setting, rs: seq<Route>, total: Cost, m: Exchange)
    requires Settled(e.dist, e.depot, rs, total) && ExchangeIn(rs, m)
    requires SwapImproves(e, rs, m.r1, m.r2, m.s1, m.s2)
    ensures var n := Recalculated(e.dist, e.depot, ApplySwap(rs, m));
            n.total.Fin? && n.total.value < total.value
            && Settled(e.dist, e.depot, n.routes, n.total)
            && multiset(Flatten(n.routes)) == multiset(Flatten(rs))
            && (WithinCapacity(rs, e.capacity) ==> WithinCapacity(n.routes, e.capacity))
  {
    var rs' := ApplySwap(rs, m);
    SwapLowers(e, rs, total, m);
    RecalculatedSettles(e.dist, e.depot, rs');
    RecalculatedKeepsServices(e.dist, e.depot, rs');
    SwapKeepsServices(rs, m);
    if WithinCapacity(rs, e.capacity) {
      SwapWithinCapacity(e, rs, total, m);
    }
  }

  /** Exchange keeps every recomputed route within the capacity. */
  lemma SwapWithinCapacity(e: Setting, rs: seq<Route>, total: Cost, m: Exchange)
    requires Settled(e.dist, e.depot, rs, total) && ExchangeIn(rs, m)
    requires SwapImproves(e, rs, m.r1, m.r2, m.s1, m.s2)
    requires WithinCapacity(rs, e.capacity)
    requires Recalculated(e.dist, e.depot, ApplySwap(rs, m)).total.Fin?
    ensures WithinCapacity(Recalculated(e.dist, e.depot, ApplySwap(rs, m)).routes, e.capacity)
  {
    SwapKeepsCapacity(e, rs, total, m);
    RecalculatedCapacity(e.dist, e.depot, ApplySwap(rs, m), e.capacity);
  }

  /** Reversal: the total drops. */
  lemma TwoOptLowers(e: Setting, rs: seq<Route>, total: Cost, m: Reversal)
    requires Settled(e.dist, e.depot, rs, total) && ReversalIn(rs, m)
    requires TwoOptImproves(e, rs, m.r, m.i, m.j)
    ensures Recalculated(e.dist, e.depot, ApplyTwoOpt(rs, m)).total.Fin?
    ensures Recalculated(e.dist, e.depot, ApplyTwoOpt(rs, m)).total.value < total.value
  {
    assert Current(e.dist, e.depot, rs[m.r]);
    RecalculatedAfterEdit(e.dist, e.depot, rs, total, ApplyTwoOpt(rs, m), m.r, m.r);
  }

  /** Reversal: the same services. */
  lemma TwoOptKeepsServices(rs: seq<Route>, m: Reversal)
    requires ReversalIn(rs, m)
    ensures multiset(Flatten(ApplyTwoOpt(rs, m))) == multiset(Flatten(rs))
  {
    var s' := ReverseRange(rs[m.r].services, m.i, m.j);
    FlattenReplace(rs, m.r, rs[m.r].(services := s'));
    Cancel(multiset(Flatten(ApplyTwoOpt(rs, m))), multiset(Flatten(rs)), multiset(s'));
  }

  /** Reversal: the same demand on the route. */
  lemma TwoOptKeepsDemand(rs: seq<Route>, m: Reversal)
    requires ReversalIn(rs, m)
    ensures DemandSum(ApplyTwoOpt(rs, m)[m.r].services) == DemandSum(rs[m.r].services)
  {
    var s' := ReverseRange(rs[m.r].services, m.i, m.j);
    DemandSumPermutation(s', rs[m.r].services);
  }

  /** A committed reversal keeps the services, lowers the total, leaves a
      settled solution, and keeps every route within capacity. */
  lemma TwoOptEffect(e: Setting, rs: seq<Route>, total: Cost, m: Reversal)
    requires Settled(e.dist, e.depot, rs, total) && ReversalIn(rs, m)
    requires TwoOptImproves(e, rs, m.r, m.i, m.j)
    ensures var n := Recalculated(e.dist, e.depot, ApplyTwoOpt(rs, m));
            n.total.Fin? && n.total.value < total.value
            && Settled(e.dist, e.depot, n.routes, n.total)
            && multiset(Flatten(n.routes)) == multiset(Flatten(rs))
            && (WithinCapacity(rs, e.capacity) ==> WithinCapacity(n.routes, e.capacity))
  {
    var rs' := ApplyTwoOpt(rs, m);
    TwoOptLowers(e, rs, total, m);
    RecalculatedSettles(e.dist, e.depot, rs');
    RecalculatedKeepsServices(e.dist, e.depot, rs');
    TwoOptKeepsServices(rs, m);
    if WithinCapacity(rs, e.capacity) {
      TwoOptWithinCapacity(e, rs, total, m);
    }
  }

  /** Reversal keeps every recomputed route within the capacity. */
  lemma TwoOptWithinCapacity(e: Setting, rs: seq<Route>, total: Cost, m: Reversal)
    requires Settled(e.dist, e.depot, rs, total) && ReversalIn(rs, m)
    requires WithinCapacity(rs, e.capacity)
    requires Recalculated(e.dist, e.depot, ApplyTwoOpt(rs, m)).total.Fin?
    ensures WithinCapacity(Recalculated(e.dist, e.depot, ApplyTwoOpt(rs, m)).routes, e.capacity)
  {
    var rs' := ApplyTwoOpt(rs, m);
    TwoOptKeepsDemand(rs, m);
    forall k | 0 <= k < |rs'| ensures DemandSum(rs'[k].services) <= e.capacity {
      assert Current(e.dist, e.depot, rs[k]);
    }
    RecalculatedCapacity(e.dist, e.depot, rs', e.capacity);
  }
}
