/** Python's numeric built-ins as the display script uses them: `int()`
    applied to a float, `abs`, and the descending `range(start, stop, -1)`.
    Floats are modelled as `real`. */
module PyNum {

  /** `int(x)` for a float `x`: truncation toward zero. */
  function Trunc(x: real): (n: int)
    ensures 0.0 <= x ==> 0 <= n && n as real <= x < n as real + 1.0
    ensures x < 0.0 ==> n <= 0 && n as real - 1.0 < x <= n as real
  {
    if x >= 0.0 then x.Floor else -((-x).Floor)
  }

  /** `abs(x)`. */
  function Abs(x: real): (a: real)
    ensures 0.0 <= a && (a == x || a == -x)
  {
    if x < 0.0 then -x else x
  }

  /** The elements of `range(start, stop, -1)`, in iteration order. */
  function RangeDown(start: int, stop: int): (r: seq<int>)
    ensures |r| == if stop < start then start - stop else 0
    ensures forall k :: 0 <= k < |r| ==> r[k] == start - k
    decreases start - stop
  {
    if stop < start then [start] + RangeDown(start - 1, stop) else []
  }
}
