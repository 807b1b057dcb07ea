/** Values shared by every generation of the graph and of the solver. */
module Common {

  /** An optional value; `None` stands for "no result". */
  datatype Option<T> = None | Some(value: T)

  /** A distance or a cost. The C++ code keeps "infinite" as the largest value of
      its integer type (`numeric_limits<int>::max()` in the older graphs,
      `numeric_limits<long long>::max()` in the last one); here it is a separate
      constructor, and finite costs are unbounded integers. */
  datatype Cost = Inf | Fin(value: int)

  /** The largest `int` of the C++ code: the starting value of `minDegree`. */
  const IntMax: int := 0x7fff_ffff

  /** Guarded addition: an infinite operand makes the sum infinite, so
      "infinite plus finite" can never wrap into a small number. */
  function Add(a: Cost, b: Cost): Cost
  {
    if a.Fin? && b.Fin? then Fin(a.value + b.value) else Inf
  }

  /** Strict order on costs with `Inf` above every finite cost. */
  predicate Less(a: Cost, b: Cost)
  {
    a.Fin? && (b.Inf? || a.value < b.value)
  }

  /** Non-strict order on costs with `Inf` above every finite cost. */
  predicate LessEq(a: Cost, b: Cost)
  {
    b.Inf? || (a.Fin? && a.value <= b.value)
  }

  /** `std::min(a, b)`: the second operand only when it is strictly smaller. */
  function Min(a: Cost, b: Cost): Cost
  {
    if Less(b, a) then b else a
  }

  /** The elements of `s` in reverse order. */
  function Reversed<T>(s: seq<T>): (r: seq<T>)
    ensures |r| == |s| && forall t :: 0 <= t < |s| ==> r[t] == s[|s| - 1 - t]
  {
    if s == [] then [] else Reversed(s[1..]) + [s[0]]
  }
}
