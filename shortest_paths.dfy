/** The all-pairs shortest-path computation shared by the three `Graph` classes:
    the Floyd-Warshall recurrence over a first matrix `w`, what its cells mean
    (cheapest walks of at least one step in `w`), and the in-place triple loop
    that computes it. */
module ShortestPaths {
  import opened Common
  import opened Adjacency

  type Matrix = seq<seq<Cost>>

  ghost predicate IsSquare<T>(m: seq<seq<T>>, n: nat)
  {
    |m| == n && forall i :: 0 <= i < n ==> |m[i]| == n
  }

  /** Every finite cell is at least zero. */
  ghost predicate NonNegative(m: Matrix)
  {
    forall i, j :: 0 <= i < |m| && 0 <= j < |m[i]| && m[i][j].Fin? ==> m[i][j].value >= 0
  }

  ghost predicate Symmetric(m: Matrix)
    requires IsSquare(m, |m|)
  {
    forall i, j :: 0 <= i < |m| && 0 <= j < |m| ==> m[i][j] == m[j][i]
  }

  /** The cell `(i, j)` after relaxing it through `k`: only when both legs are
      finite, and only to a strictly smaller sum. */
  function Relaxed(m: Matrix, k: nat, i: nat, j: nat): Cost
    requires IsSquare(m, |m|) && k < |m| && i < |m| && j < |m|
  {
    if m[i][k].Fin? && m[k][j].Fin? then Min(m[i][j], Add(m[i][k], m[k][j])) else m[i][j]
  }

  /** One round of the recurrence: every cell relaxed through `k`. */
  function Step(m: Matrix, k: nat): (r: Matrix)
    requires IsSquare(m, |m|) && k < |m|
    ensures IsSquare(r, |m|)
  {
    seq(|m|, i requires 0 <= i < |m| => seq(|m|, j requires 0 <= j < |m| => Relaxed(m, k, i, j)))
  }

  /** The matrix after the rounds `0 .. k-1` of the recurrence. */
  function Fw(w: Matrix, k: nat): (r: Matrix)
    requires IsSquare(w, |w|) && k <= |w|
    ensures IsSquare(r, |w|)
    decreases k
  {
    if k == 0 then w else Step(Fw(w, k - 1), k - 1)
  }

  /** The all-pairs table: every node allowed as an intermediate. */
  function Shortest(w: Matrix): (r: Matrix)
    requires IsSquare(w, |w|)
    ensures IsSquare(r, |w|)
  {
    Fw(w, |w|)
  }

  // ---------------------------------------------------------------------------
  // Walks in the first matrix

  /** A walk of at least one step whose every step is a finite cell of `w`. */
  ghost predicate IsPath(w: Matrix, p: seq<int>)
    requires IsSquare(w, |w|)
  {
    |p| >= 2
    && (forall t :: 0 <= t < |p| ==> 0 <= p[t] < |w|)
    && (forall t :: 0 <= t < |p| - 1 ==> w[p[t]][p[t + 1]].Fin?)
  }

  ghost predicate Connects(p: seq<int>, i: int, j: int)
  {
    |p| >= 1 && p[0] == i && p[|p| - 1] == j
  }

  /** Every node strictly inside the walk is below `k`. */
  ghost predicate Through(p: seq<int>, k: int)
  {
    forall t :: 0 < t < |p| - 1 ==> p[t] < k
  }

  /** A piece `p[a..b+1]` of a walk, with at least one step, is a walk. */
  lemma SubPath(w: Matrix, p: seq<int>, a: int, b: int)
    requires IsSquare(w, |w|) && IsPath(w, p) && 0 <= a < b < |p|
    ensures IsPath(w, p[a..b + 1])
  {
    var q := p[a..b + 1];
    assert forall t :: 0 <= t < |q| ==> q[t] == p[a + t];
    forall t | 0 <= t < |q| - 1 ensures w[q[t]][q[t + 1]].Fin? {
      assert q[t] == p[a + t] && q[t + 1] == p[a + t + 1];
    }
  }

  ghost function PathCost(w: Matrix, p: seq<int>): int
    requires IsSquare(w, |w|) && IsPath(w, p)
    decreases |p|
  {
    var c := w[p[0]][p[1]].value;
    if |p| == 2 then c
    else
      SubPath(w, p, 1, |p| - 1);
      assert p[1..|p|] == p[1..];
      c + PathCost(w, p[1..])
  }

  lemma {:induction false} PathConcat(w: Matrix, p: seq<int>, q: seq<int>)
    requires IsSquare(w, |w|) && IsPath(w, p) && IsPath(w, q) && p[|p| - 1] == q[0]
    ensures IsPath(w, p + q[1..])
    ensures PathCost(w, p + q[1..]) == PathCost(w, p) + PathCost(w, q)
    decreases |p|
  {
    var r := p + q[1..];
    assert forall t :: 0 <= t < |p| ==> r[t] == p[t];
    assert forall t :: |p| <= t < |r| ==> r[t] == q[t - |p| + 1];
    assert IsPath(w, r) by {
      forall t | 0 <= t < |r| - 1 ensures w[r[t]][r[t + 1]].Fin? {
        if t < |p| - 1 {
        } else {
          assert r[t] == q[t - |p| + 1];
        }
      }
    }
    if |p| == 2 {
      assert r[1..] == q;
    } else {
      SubPath(w, p, 1, |p| - 1);
      assert p[1..|p|] == p[1..];
      PathConcat(w, p[1..], q);
      assert r[1..] == p[1..] + q[1..];
    }
  }

  /** Cutting a walk at an inner node gives two walks whose costs add up. */
  lemma PathSplit(w: Matrix, p: seq<int>, a: int)
    requires IsSquare(w, |w|) && IsPath(w, p) && 0 < a < |p| - 1
    ensures IsPath(w, p[..a + 1]) && IsPath(w, p[a..])
    ensures PathCost(w, p) == PathCost(w, p[..a + 1]) + PathCost(w, p[a..])
  {
    var pre, post := p[..a + 1], p[a..];
    SubPath(w, p, 0, a);
    assert p[0..a + 1] == pre;
    SubPath(w, p, a, |p| - 1);
    assert p[a..|p|] == post;
    Rejoin(p, a);
    PathConcat(w, pre, post);
  }

  /** Two pieces of a walk that share the node at `a` join back into it. */
  lemma Rejoin(p: seq<int>, a: int)
    requires 0 <= a < |p|
    ensures p[..a + 1] + p[a..][1..] == p
  {
    assert p[a..][1..] == p[a + 1..];
  }

  lemma {:induction false} PathCostNonNegative(w: Matrix, p: seq<int>)
    requires IsSquare(w, |w|) && NonNegative(w) && IsPath(w, p)
    ensures PathCost(w, p) >= 0
    decreases |p|
  {
    if |p| > 2 {
      SubPath(w, p, 1, |p| - 1);
      assert p[1..|p|] == p[1..];
      PathCostNonNegative(w, p[1..]);
    }
  }

  // ---------------------------------------------------------------------------
  // Soundness: every finite cell is the cost of a walk

  /** A walk that realises the finite cell `(i, j)` of `Fw(w, k)`, with inner
      nodes below `k`. */
  lemma {:induction false} Witness(w: Matrix, k: nat, i: nat, j: nat) returns (p: seq<int>)
    requires IsSquare(w, |w|) && k <= |w| && i < |w| && j < |w| && Fw(w, k)[i][j].Fin?
    ensures IsPath(w, p) && Connects(p, i, j) && Through(p, k)
    ensures PathCost(w, p) == Fw(w, k)[i][j].value
    decreases k
  {
    if k == 0 {
      OneStep(w, i, j);
      p := [i, j];
    } else if Fw(w, k)[i][j] == Fw(w, k - 1)[i][j] {
      p := Witness(w, k - 1, i, j);
      ThroughMore(p, k - 1);
    } else {
      RelaxedThrough(w, k - 1, i, j);
      var pre := Witness(w, k - 1, i, k - 1);
      var post := Witness(w, k - 1, k - 1, j);
      JoinAtPivot(w, pre, post, k - 1);
      p := pre + post[1..];
    }
  }

  /** A cell that round `x` changed is the sum of two finite legs through `x`. */
  lemma RelaxedThrough(w: Matrix, x: nat, i: nat, j: nat)
    requires IsSquare(w, |w|) && x < |w| && i < |w| && j < |w|
    requires Fw(w, x + 1)[i][j].Fin? && Fw(w, x + 1)[i][j] != Fw(w, x)[i][j]
    ensures Fw(w, x)[i][x].Fin? && Fw(w, x)[x][j].Fin?
    ensures Fw(w, x + 1)[i][j].value == Fw(w, x)[i][x].value + Fw(w, x)[x][j].value
  {
    assert Fw(w, x + 1)[i][j] == Relaxed(Fw(w, x), x, i, j);
  }

  /** A finite cell of `w` is a walk of one step at that cost. */
  lemma OneStep(w: Matrix, i: int, j: int)
    requires IsSquare(w, |w|) && 0 <= i < |w| && 0 <= j < |w| && w[i][j].Fin?
    ensures IsPath(w, [i, j]) && Connects([i, j], i, j) && Through([i, j], 0)
    ensures PathCost(w, [i, j]) == w[i][j].value
  {
  }

  lemma ThroughMore(p: seq<int>, k: int)
    requires Through(p, k)
    ensures Through(p, k + 1)
  {
  }

  /** Two walks that meet at the node `x`, with inner nodes below `x`, join
      into one walk between their outer ends with inner nodes below `x + 1`,
      at the sum of their costs. */
  lemma JoinAtPivot(w: Matrix, p: seq<int>, q: seq<int>, x: int)
    requires IsSquare(w, |w|) && IsPath(w, p) && IsPath(w, q)
    requires p[|p| - 1] == x == q[0] && Through(p, x) && Through(q, x)
    ensures IsPath(w, p + q[1..]) && Connects(p + q[1..], p[0], q[|q| - 1]) && Through(p + q[1..], x + 1)
    ensures PathCost(w, p + q[1..]) == PathCost(w, p) + PathCost(w, q)
  {
    PathConcat(w, p, q);
    JoinEnds(p, q);
    JoinThrough(p, q, x);
  }

  /** The ends of a joined walk are the outer ends of its pieces. */
  lemma JoinEnds(p: seq<int>, q: seq<int>)
    requires |p| >= 1 && |q| >= 2
    ensures Connects(p + q[1..], p[0], q[|q| - 1])
  {
    var r := p + q[1..];
    assert r[|r| - 1] == q[1..][|q| - 2];
  }

  /** Joining at `x` two walks whose inner nodes are below `x` leaves only
      nodes below `x + 1` inside. */
  lemma JoinThrough(p: seq<int>, q: seq<int>, x: int)
    requires |p| >= 1 && |q| >= 1 && p[|p| - 1] == x && Through(p, x) && Through(q, x)
    ensures Through(p + q[1..], x + 1)
  {
    var r := p + q[1..];
    forall t | 0 < t < |r| - 1 ensures r[t] < x + 1 {
      if t < |p| - 1 {
        assert r[t] == p[t];
      } else if t == |p| - 1 {
        assert r[t] == x;
      } else {
        assert r[t] == q[t - |p| + 1];
      }
    }
  }

  // ---------------------------------------------------------------------------
  // Optimality: no walk is cheaper than its cell

  function FirstIndex(p: seq<int>, x: int): (a: nat)
    requires x in p
    ensures a < |p| && p[a] == x && forall t :: 0 <= t < a ==> p[t] != x
  {
    if p[0] == x then 0 else 1 + FirstIndex(p[1..], x)
  }

  function LastIndex(p: seq<int>, x: int): (b: nat)
    requires x in p
    ensures b < |p| && p[b] == x && forall t :: b < t < |p| ==> p[t] != x
    decreases |p|
  {
    if p[|p| - 1] == x then |p| - 1 else LastIndex(p[..|p| - 1], x)
  }

  /** Cutting the closed piece `p[a..b+1]` (which starts and ends at the same
      node) out of a walk does not make it dearer. */
  lemma DropLoop(w: Matrix, p: seq<int>, a: int, b: int)
    requires IsSquare(w, |w|) && NonNegative(w) && IsPath(w, p)
    requires 0 < a <= b < |p| - 1
    ensures IsPath(w, p[..a + 1]) && IsPath(w, p[b..])
    ensures PathCost(w, p[..a + 1]) + PathCost(w, p[b..]) <= PathCost(w, p)
  {
    PathSplit(w, p, a);
    if a < b {
      DropBetween(w, p, a, b);
    }
  }

  /** The walk from position `b` costs no more than the walk from an earlier
      position `a`. */
  lemma DropBetween(w: Matrix, p: seq<int>, a: int, b: int)
    requires IsSquare(w, |w|) && NonNegative(w) && 0 <= a < b < |p| - 1 && IsPath(w, p[a..])
    ensures IsPath(w, p[b..]) && PathCost(w, p[b..]) <= PathCost(w, p[a..])
  {
    DropHead(w, p[a..], b - a);
    TailCost(w, p, a, b);
  }

  /** Dropping the first `m` steps of a walk leaves a walk that costs no more. */
  lemma DropHead(w: Matrix, p: seq<int>, m: int)
    requires IsSquare(w, |w|) && NonNegative(w) && IsPath(w, p) && 0 < m < |p| - 1
    ensures IsPath(w, p[m..]) && PathCost(w, p[m..]) <= PathCost(w, p)
  {
    PathSplit(w, p, m);
    PathCostNonNegative(w, p[..m + 1]);
  }

  /** The tail of a tail is a tail, at the same cost. */
  lemma TailCost(w: Matrix, p: seq<int>, a: int, b: int)
    requires IsSquare(w, |w|) && 0 <= a <= b <= |p| && IsPath(w, p[a..][b - a..])
    ensures IsPath(w, p[b..]) && PathCost(w, p[a..][b - a..]) == PathCost(w, p[b..])
  {
    assert p[a..][b - a..] == p[b..];
  }

  /** A walk whose inner nodes are below `x + 1` and which passes through `x`
      yields, by cutting out everything between the first and the last visit of
      `x`, a walk to `x` and a walk from `x` whose inner nodes are below `x` and
      whose costs together are not above the whole walk's. */
  lemma CutAtPivot(w: Matrix, p: seq<int>, x: int) returns (pre: seq<int>, post: seq<int>)
    requires IsSquare(w, |w|) && NonNegative(w) && IsPath(w, p) && Through(p, x + 1)
    requires exists t :: 0 < t < |p| - 1 && p[t] == x
    ensures IsPath(w, pre) && Connects(pre, p[0], x) && Through(pre, x)
    ensures IsPath(w, post) && Connects(post, x, p[|p| - 1]) && Through(post, x)
    ensures PathCost(w, pre) + PathCost(w, post) <= PathCost(w, p)
  {
    var a, b := PivotVisits(p, x);
    DropLoop(w, p, a, b);
    pre := p[..a + 1];
    post := p[b..];
  }

  /** The first and the last inner visit of `x` in a walk whose inner nodes are
      below `x + 1`: the walk up to the first and the walk from the last have
      their inner nodes below `x`. */
  lemma PivotVisits(p: seq<int>, x: int) returns (a: int, b: int)
    requires |p| >= 2 && Through(p, x + 1)
    requires exists t :: 0 < t < |p| - 1 && p[t] == x
    ensures 0 < a <= b < |p| - 1
    ensures Connects(p[..a + 1], p[0], x) && Through(p[..a + 1], x)
    ensures Connects(p[b..], x, p[|p| - 1]) && Through(p[b..], x)
  {
    var t0 :| 0 < t0 < |p| - 1 && p[t0] == x;
    var inner := p[1..|p| - 1];
    assert inner[t0 - 1] == x;
    a := 1 + FirstIndex(inner, x);
    b := 1 + LastIndex(inner, x);
    BeforeFirstVisit(p, x, a);
    AfterLastVisit(p, x, b);
  }

  lemma BeforeFirstVisit(p: seq<int>, x: int, a: int)
    requires 0 < a < |p| - 1 && Through(p, x + 1)
    requires x in p[1..|p| - 1] && a - 1 == FirstIndex(p[1..|p| - 1], x)
    ensures Connects(p[..a + 1], p[0], x) && Through(p[..a + 1], x)
  {
    var inner := p[1..|p| - 1];
    var pre := p[..a + 1];
    forall t | 0 < t < |pre| - 1 ensures pre[t] < x {
      assert pre[t] == p[t] == inner[t - 1];
    }
  }

  lemma AfterLastVisit(p: seq<int>, x: int, b: int)
    requires 0 < b < |p| - 1 && Through(p, x + 1)
    requires x in p[1..|p| - 1] && b - 1 == LastIndex(p[1..|p| - 1], x)
    ensures Connects(p[b..], x, p[|p| - 1]) && Through(p[b..], x)
  {
    var inner := p[1..|p| - 1];
    var post := p[b..];
    forall t | 0 < t < |post| - 1 ensures post[t] < x {
      assert post[t] == p[t + b] == inner[t + b - 1];
    }
  }

  lemma {:induction false} FwOptimal(w: Matrix, k: nat, p: seq<int>)
    requires IsSquare(w, |w|) && NonNegative(w) && k <= |w|
    requires IsPath(w, p) && Through(p, k)
    ensures LessEq(Fw(w, k)[p[0]][p[|p| - 1]], Fin(PathCost(w, p)))
    decreases k, 1
  {
    var i, j := p[0], p[|p| - 1];
    if k == 0 {
      OptimalOneStep(w, p);
    } else if Through(p, k - 1) {
      FwCell(w, k, i, j);
      FwOptimal(w, k - 1, p);
      RelaxedBelowCell(Fw(w, k - 1), k - 1, i, j);
    } else {
      FwOptimalAtPivot(w, k, p);
    }
  }

  /** The case of `FwOptimal` where the walk passes through the new pivot
      `k - 1`: the two legs around it bound the relaxed cell. */
  lemma {:induction false} FwOptimalAtPivot(w: Matrix, k: nat, p: seq<int>)
    requires IsSquare(w, |w|) && NonNegative(w) && 0 < k <= |w|
    requires IsPath(w, p) && Through(p, k) && !Through(p, k - 1)
    ensures LessEq(Fw(w, k)[p[0]][p[|p| - 1]], Fin(PathCost(w, p)))
    decreases k, 0
  {
    var i, j := p[0], p[|p| - 1];
    var m, cell, c := Fw(w, k - 1), Fw(w, k)[i][j], PathCost(w, p);
    FwCell(w, k, i, j);
    PivotInside(p, k - 1);
    var pre, post := CutAtPivot(w, p, k - 1);
    var c1, c2 := PathCost(w, pre), PathCost(w, post);
    FwOptimal(w, k - 1, pre);
    FwOptimal(w, k - 1, post);
    assert pre[0] == i && pre[|pre| - 1] == k - 1;
    assert post[0] == k - 1 && post[|post| - 1] == j;
    RelaxedBelowLegs(m, k - 1, i, j, c1, c2, c, cell);
  }

  /** A cell of round `k` is the previous round's cell relaxed through `k - 1`. */
  lemma FwCell(w: Matrix, k: nat, i: nat, j: nat)
    requires IsSquare(w, |w|) && 0 < k <= |w| && i < |w| && j < |w|
    ensures Fw(w, k)[i][j] == Relaxed(Fw(w, k - 1), k - 1, i, j)
  {
  }

  /** A walk whose inner nodes are below `x + 1` but not all below `x` passes
      through `x`. */
  lemma PivotInside(p: seq<int>, x: int)
    requires Through(p, x + 1) && !Through(p, x)
    ensures exists t :: 0 < t < |p| - 1 && p[t] == x
  {
  }

  /** A walk with no inner node is a single step, at the cost of its cell. */
  lemma OptimalOneStep(w: Matrix, p: seq<int>)
    requires IsSquare(w, |w|) && IsPath(w, p) && Through(p, 0)
    ensures LessEq(w[p[0]][p[|p| - 1]], Fin(PathCost(w, p)))
  {
    assert p[1] >= 0;
  }

  /** Relaxing a cell never raises it. */
  lemma RelaxedBelowCell(m: Matrix, x: nat, i: nat, j: nat)
    requires IsSquare(m, |m|) && x < |m| && i < |m| && j < |m|
    ensures forall c :: LessEq(m[i][j], c) ==> LessEq(Relaxed(m, x, i, j), c)
  {
  }

  /** A relaxed cell is at most the sum of any bounds on its two legs. */
  lemma RelaxedBelowLegs(m: Matrix, x: nat, i: nat, j: nat, c1: int, c2: int, c: int, cell: Cost)
    requires IsSquare(m, |m|) && x < |m| && i < |m| && j < |m|
    requires LessEq(m[i][x], Fin(c1)) && LessEq(m[x][j], Fin(c2)) && c1 + c2 <= c
    requires cell == Relaxed(m, x, i, j)
    ensures LessEq(cell, Fin(c))
  {
  }

  // ---------------------------------------------------------------------------
  // What the table means

  /** The table entry is never above the cost of any walk between the two nodes. */
  lemma ShortestIsOptimal(w: Matrix, p: seq<int>)
    requires IsSquare(w, |w|) && NonNegative(w) && IsPath(w, p)
    ensures LessEq(Shortest(w)[p[0]][p[|p| - 1]], Fin(PathCost(w, p)))
  {
    FwOptimal(w, |w|, p);
  }

  /** A finite table entry is the cost of some walk; an infinite one means no walk
      exists at all. */
  lemma ShortestInfIffNoPath(w: Matrix, i: nat, j: nat)
    requires IsSquare(w, |w|) && NonNegative(w) && i < |w| && j < |w|
    ensures Shortest(w)[i][j].Inf? <==> !exists p :: IsPath(w, p) && Connects(p, i, j)
    ensures Shortest(w)[i][j].Fin? ==>
              exists p :: IsPath(w, p) && Connects(p, i, j) && PathCost(w, p) == Shortest(w)[i][j].value
  {
    if Shortest(w)[i][j].Fin? {
      var p := Witness(w, |w|, i, j);
    } else {
      forall p | IsPath(w, p) && Connects(p, i, j) ensures false {
        FwOptimal(w, |w|, p);
      }
    }
  }

  /** The table satisfies the triangle inequality over finite legs. */
  lemma ShortestTriangle(w: Matrix, i: nat, k: nat, j: nat)
    requires IsSquare(w, |w|) && NonNegative(w) && i < |w| && k < |w| && j < |w|
    requires Shortest(w)[i][k].Fin? && Shortest(w)[k][j].Fin?
    ensures LessEq(Shortest(w)[i][j], Add(Shortest(w)[i][k], Shortest(w)[k][j]))
  {
    var p := Witness(w, |w|, i, k);
    var q := Witness(w, |w|, k, j);
    PathConcat(w, p, q);
    FwOptimal(w, |w|, p + q[1..]);
  }

  /** A diagonal cell that starts at 0 stays 0. */
  lemma ShortestDiagonal(w: Matrix, u: nat)
    requires IsSquare(w, |w|) && NonNegative(w) && u < |w| && w[u][u] == Fin(0)
    ensures Shortest(w)[u][u] == Fin(0)
  {
    assert PathCost(w, [u, u]) == 0;
    FwOptimal(w, |w|, [u, u]);
    var p := Witness(w, |w|, u, u);
    PathCostNonNegative(w, p);
  }

  /** A symmetric first matrix gives a symmetric table. */
  lemma {:induction false} FwSymmetric(w: Matrix, k: nat)
    requires IsSquare(w, |w|) && Symmetric(w) && k <= |w|
    ensures Symmetric(Fw(w, k))
    decreases k
  {
    if k > 0 {
      FwSymmetric(w, k - 1);
      var m := Fw(w, k - 1);
      forall i, j | 0 <= i < |w| && 0 <= j < |w| ensures Fw(w, k)[i][j] == Fw(w, k)[j][i] {
        assert Fw(w, k)[i][j] == Relaxed(m, k - 1, i, j);
        assert Fw(w, k)[j][i] == Relaxed(m, k - 1, j, i);
        assert m[i][k - 1] == m[k - 1][i] && m[k - 1][j] == m[j][k - 1] && m[i][j] == m[j][i];
      }
    }
  }

  /** Each round keeps finite cells at least zero. */
  lemma {:induction false} FwNonNegative(w: Matrix, k: nat)
    requires IsSquare(w, |w|) && NonNegative(w) && k <= |w|
    ensures NonNegative(Fw(w, k))
    decreases k
  {
    if k > 0 {
      FwNonNegative(w, k - 1);
    }
  }

  /** Relaxing through `k` leaves row `k` and column `k` unchanged when the pivot
      cell is infinite or at least zero: the reason the in-place loop may read
      cells it has already updated in the same round. */
  lemma StepKeepsPivot(m: Matrix, k: nat)
    requires IsSquare(m, |m|) && k < |m|
    requires m[k][k].Fin? ==> m[k][k].value >= 0
    ensures forall i :: 0 <= i < |m| ==> Step(m, k)[i][k] == m[i][k] && Step(m, k)[k][i] == m[k][i]
  {
  }

  /** Entry costs of at least zero give first matrices whose finite cells are at
      least zero, whichever way parallel entries are folded. */
  lemma InitNonNegative(adj: Adj)
    requires NonNegativeCosts(adj)
    ensures IsSquare(MinInit(adj), |adj|) && NonNegative(MinInit(adj))
    ensures IsSquare(LastInit(adj), |adj|) && NonNegative(LastInit(adj))
  {
    forall u, v | 0 <= u < |adj| && 0 <= v < |adj|
      ensures MinInit(adj)[u][v].Fin? ==> MinInit(adj)[u][v].value >= 0
      ensures LastInit(adj)[u][v].Fin? ==> LastInit(adj)[u][v].value >= 0
    {
      assert forall e :: e in adj[u] ==> e.cost >= 0;
      MinOverNonNegative(adj[u], v, Base(u, v));
      LastOverNonNegative(adj[u], v, Base(u, v));
    }
  }

  // ---------------------------------------------------------------------------
  // The in-place loops

  /** The relaxation loops of `floydWarshall`, updating `dist` in place:
      `for k, for i, for j: if both legs are finite, dist[i][j] = min(dist[i][j], dist[i][k] + dist[k][j])`.
      With a first matrix whose cells are at least zero, the result is the
      recurrence's table. */
  method RelaxAll(w: Matrix) returns (dist: Matrix)
    requires IsSquare(w, |w|)
    ensures IsSquare(dist, |w|)
    ensures NonNegative(w) ==> dist == Shortest(w)
  {
    var n := |w|;
    ghost var nn := NonNegative(w);
    dist := w;
    for k := 0 to n
      invariant IsSquare(dist, n)
      invariant nn ==> dist == Fw(w, k)
    {
      ghost var prev := dist;
      ghost var next := Step(prev, k);
      if nn {
        FwNonNegative(w, k);
        StepKeepsPivot(prev, k);
      }
      for i := 0 to n
        invariant IsSquare(dist, n)
        invariant nn ==> forall a :: 0 <= a < i ==> dist[a] == next[a]
        invariant nn ==> forall a :: i <= a < n ==> dist[a] == prev[a]
      {
        ghost var before := dist;
        dist := RelaxRow(dist, k, i);
        if nn {
          RowMatchesStep(prev, before, dist, k, i);
        }
      }
      if nn {
        assert dist == next;
      }
    }
  }

  /** The pivot cell is infinite or at least zero. */
  ghost predicate PivotOk(m: Matrix, k: nat)
    requires IsSquare(m, |m|) && k < |m|
  {
    m[k][k].Fin? ==> m[k][k].value >= 0
  }

  /** The innermost loop of `floydWarshall` for row `i` of round `k`: only row
      `i` changes, and with a pivot cell that is infinite or at least zero every
      cell of it ends relaxed through `k` against the row as it was. */
  method RelaxRow(dist: Matrix, k: nat, i: nat) returns (d: Matrix)
    requires IsSquare(dist, |dist|) && k < |dist| && i < |dist|
    ensures IsSquare(d, |dist|)
    ensures forall a :: 0 <= a < |dist| && a != i ==> d[a] == dist[a]
    ensures PivotOk(dist, k) ==> forall j :: 0 <= j < |dist| ==> d[i][j] == Relaxed(dist, k, i, j)
  {
    var n := |dist|;
    d := dist;
    for j := 0 to n
      invariant IsSquare(d, n)
      invariant forall a :: 0 <= a < n && a != i ==> d[a] == dist[a]
      invariant PivotOk(dist, k) ==> forall b :: 0 <= b < j ==> d[i][b] == Relaxed(dist, k, i, b)
      invariant forall b :: j <= b < n ==> d[i][b] == dist[i][b]
    {
      if PivotOk(dist, k) {
        RowCellsKept(dist, d, k, i, j);
      }
      if d[i][k].Fin? && d[k][j].Fin? {
        d := d[i := d[i][j := Min(d[i][j], Add(d[i][k], d[k][j]))]];
      }
    }
  }

  /** Midway through row `i` of round `k`, at cell `j`, the cells the update
      reads still hold the values they had when the row started. */
  lemma RowCellsKept(dist: Matrix, d: Matrix, k: nat, i: nat, j: nat)
    requires IsSquare(dist, |dist|) && IsSquare(d, |dist|) && k < |dist| && i < |dist| && j < |dist|
    requires PivotOk(dist, k)
    requires forall a :: 0 <= a < |dist| && a != i ==> d[a] == dist[a]
    requires forall b :: 0 <= b < j ==> d[i][b] == Relaxed(dist, k, i, b)
    requires forall b :: j <= b < |dist| ==> d[i][b] == dist[i][b]
    ensures d[i][k] == dist[i][k] && d[k][j] == dist[k][j] && d[i][j] == dist[i][j]
  {
    if k < j {
      assert d[i][k] == Relaxed(dist, k, i, k);
    }
    if k == i {
      assert d[k][j] == d[i][j];
    } else {
      assert d[k] == dist[k];
    }
  }

  /** Row `i` relaxed against the matrix midway through round `k` is row `i` of
      the round's result: the rows already done differ from the previous matrix
      only outside the pivot row and column. */
  lemma RowMatchesStep(prev: Matrix, before: Matrix, dist: Matrix, k: nat, i: nat)
    requires IsSquare(prev, |prev|) && IsSquare(before, |prev|) && IsSquare(dist, |prev|)
    requires k < |prev| && i < |prev| && PivotOk(prev, k)
    requires forall a :: 0 <= a < |prev| ==> Step(prev, k)[a][k] == prev[a][k] && Step(prev, k)[k][a] == prev[k][a]
    requires forall a :: 0 <= a < i ==> before[a] == Step(prev, k)[a]
    requires forall a :: i <= a < |prev| ==> before[a] == prev[a]
    requires PivotOk(before, k) ==> forall j :: 0 <= j < |prev| ==> dist[i][j] == Relaxed(before, k, i, j)
    ensures dist[i] == Step(prev, k)[i]
  {
    var n := |prev|;
    assert before[k][k] == prev[k][k] by {
      if k < i {
        assert before[k] == Step(prev, k)[k];
      }
    }
    assert before[i] == prev[i];
    forall j | 0 <= j < n
      ensures dist[i][j] == Step(prev, k)[i][j]
    {
      assert before[k][j] == prev[k][j] by {
        if k < i {
          assert before[k] == Step(prev, k)[k];
        }
      }
      assert dist[i][j] == Relaxed(before, k, i, j);
    }
  }

  /** The first loop of `floydWarshall` in `Graph.hpp` and `etapa3/Graph.hpp`:
      every cell starts infinite, then for each node `u` the diagonal cell becomes
      0 and each entry `u -> to` lowers `dist[u][to]` to its cost when cheaper. */
  method BuildMinInit(adj: Adj) returns (dist: Matrix)
    requires ValidAdj(adj, |adj|)
    ensures dist == MinInit(adj)
  {
    var n := |adj|;
    dist := seq(n, _ => seq(n, _ => Inf));
    for u := 0 to n
      invariant IsSquare(dist, n)
      invariant forall a :: 0 <= a < u ==> dist[a] == MinInit(adj)[a]
      invariant forall a, b :: u <= a < n && 0 <= b < n ==> dist[a][b] == Inf
    {
      dist := dist[u := dist[u][u := Fin(0)]];
      var es := adj[u];
      for t := 0 to |es|
        invariant IsSquare(dist, n)
        invariant forall a :: 0 <= a < u ==> dist[a] == MinInit(adj)[a]
        invariant forall a, b :: u < a < n && 0 <= b < n ==> dist[a][b] == Inf
        invariant forall b :: 0 <= b < n ==> dist[u][b] == MinOver(es[..t], b, Base(u, b))
      {
        var e := es[t];
        assert e in adj[u];
        assert es[..t + 1][..t] == es[..t];
        dist := dist[u := dist[u][e.to := Min(Fin(e.cost), dist[u][e.to])]];
      }
      assert es[..|es|] == es;
    }
  }
}
