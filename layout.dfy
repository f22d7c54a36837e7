/** Where one frame's bars go on the 104-pixel strip. The left half holds
    the battery charge bar, anchored at pixel 52 and growing toward pixel 0.
    The right half holds three chained segments (solar, battery flow, grid),
    starting at pixel 53, each as long as its power's share of the maximum
    consumption. */
module Layout {
  import opened PyNum

  const LedCount: int := 104
  /** `LED_COUNT // 2`: the battery bar's anchor and the full bar length. */
  const HalfCount: int := LedCount / 2
  /** `mid = LED_COUNT//2 + 1`, where the solar segment starts. */
  const RightAnchor: int := HalfCount + 1
  /** `mid - 1`, the pixel the marker is drawn on. */
  const MarkerPixel: int := RightAnchor - 1
  /** `max_consumption`, in watts. */
  const MaxConsumption: real := 10000.0

  /** One run's telemetry after averaging: grid power (positive while
      importing), solar power, consumption, battery power (positive while
      charging), all in watts, and the charge as a fraction. */
  datatype Reading = Reading(grid: int, solar: int, consumption: real, batChange: int, percentage: real)

  /** While exporting (`grid < 0`) the exported power is taken off the
      consumption; otherwise the consumption is kept. */
  function AdjustConsumption(consumption: real, grid: int): (c: real)
    ensures grid < 0 ==> c == consumption - Abs(grid as real)
    ensures grid >= 0 ==> c == consumption
    ensures c < consumption <==> grid < 0
  {
    if grid < 0 then consumption + grid as real else consumption
  }

  /** What the right half shows: the solar value and the battery flow. */
  datatype Display = Display(solar: real, batChange: int)

  /** When consumption exceeds solar, solar and the battery flow are shown;
      otherwise the consumption is shown in the solar slot and the battery
      flow is suppressed. The solar value shown is the smaller of the two. */
  function SelectDisplay(consumption: real, solar: int, batChange: int): (d: Display)
    ensures d.solar <= consumption && d.solar <= solar as real
    ensures d.solar == consumption || d.solar == solar as real
    ensures consumption > solar as real ==> d.batChange == batChange
    ensures consumption <= solar as real ==> d.batChange == 0
  {
    if consumption > solar as real then Display(solar as real, batChange)
    else Display(consumption, 0)
  }

  /** The share `v / m * 52` of half the strip: non-negative for a
      non-negative `v`, at most 52 within the maximum, exactly 52 at it, and
      non-positive for a non-positive `v`. */
  lemma ShareOfHalf(v: real, m: real)
    requires 0.0 < m
    ensures 0.0 <= v ==> 0.0 <= v / m * HalfCount as real
    ensures v <= 0.0 ==> v / m * HalfCount as real <= 0.0
    ensures v <= m ==> v / m * HalfCount as real <= HalfCount as real
    ensures v == m ==> v / m * HalfCount as real == HalfCount as real
  {
    assert v <= m ==> v / m <= 1.0;
    if v == m {
      var q := v / m;
      assert q * m == v;
      assert (q - 1.0) * m == 0.0;
      if q > 1.0 {
        MulPositive(q - 1.0, m);
      } else if q < 1.0 {
        MulPositive(1.0 - q, m);
      }
    }
  }

  lemma MulPositive(a: real, b: real)
    requires 0.0 < a && 0.0 < b
    ensures 0.0 < a * b
  {
  }

  /** `get_grid_length`: the grid power's share of the maximum, as a pixel
      count rounded down; never negative, at most half the strip while the
      power is within the maximum, and exactly half at the maximum. */
  function GridLength(grid: int, maxConsumption: real): (n: int)
    requires 0.0 < maxConsumption
    ensures 0 <= n
    ensures n as real <= Abs(grid as real) / maxConsumption * HalfCount as real < n as real + 1.0
    ensures Abs(grid as real) <= maxConsumption ==> n <= HalfCount
    ensures Abs(grid as real) == maxConsumption ==> n == HalfCount
  {
    ShareOfHalf(Abs(grid as real), maxConsumption);
    Trunc(Abs(grid as real) / maxConsumption * HalfCount as real)
  }

  /** `get_solar_length`. It applies no `abs`: a negative value gives a
      non-positive length, so its segment is empty. */
  function SolarLength(solar: real, maxConsumption: real): (n: int)
    requires 0.0 < maxConsumption
    ensures solar <= 0.0 ==> n <= 0
    ensures 0.0 <= solar ==> n as real <= solar / maxConsumption * HalfCount as real < n as real + 1.0
    ensures 0.0 <= solar <= maxConsumption ==> 0 <= n <= HalfCount
    ensures solar == maxConsumption ==> n == HalfCount
  {
    ShareOfHalf(solar, maxConsumption);
    Trunc(solar / maxConsumption * HalfCount as real)
  }

  /** `get_bat_length`. The source names its parameter differently from the
      global it reads; both hold the battery flow to display, which is taken
      here as the argument. */
  function BatLength(batChange: int, maxConsumption: real): (n: int)
    requires 0.0 < maxConsumption
    ensures 0 <= n
    ensures n as real <= Abs(batChange as real) / maxConsumption * HalfCount as real < n as real + 1.0
    ensures Abs(batChange as real) <= maxConsumption ==> n <= HalfCount
    ensures Abs(batChange as real) == maxConsumption ==> n == HalfCount
  {
    ShareOfHalf(Abs(batChange as real), maxConsumption);
    Trunc(Abs(batChange as real) / maxConsumption * HalfCount as real)
  }

  /** `get_bat_coverage`: `range(52, int(52 - 52 * p), -1)`. The indices
      start at 52 and fall by one. For a charge in [0, 1] they lie in
      [1, 52] and there are ceil(52 * p) of them, so an empty battery
      lights no pixel. */
  function BatCoverage(percentage: real): (r: seq<int>)
    ensures forall k :: 0 <= k < |r| ==> r[k] == HalfCount - k
    ensures 0.0 <= percentage <= 1.0 ==> forall k :: 0 <= k < |r| ==> 1 <= r[k] <= HalfCount
    ensures 0.0 <= percentage <= 1.0 ==>
              (|r| - 1) as real < HalfCount as real * percentage <= |r| as real
    ensures percentage <= 0.0 ==> r == []
  {
    assert HalfCount == 52;
    var x := HalfCount as real - HalfCount as real * percentage;
    var stop := Trunc(x);
    assert 0.0 <= percentage <= 1.0 ==>
      0.0 <= x && stop as real <= x < stop as real + 1.0 && 0 <= stop <= HalfCount;
    RangeDown(HalfCount, stop)
  }

  /** A pixel is lit by the battery bar exactly when it lies in the bar's
      run of pixels ending at 52. */
  lemma CoverageMembers(percentage: real, x: int)
    ensures x in BatCoverage(percentage) <==> HalfCount - |BatCoverage(percentage)| < x <= HalfCount
  {
    var r := BatCoverage(percentage);
    if HalfCount - |r| < x <= HalfCount {
      assert r[HalfCount - x] == x;
    }
  }

  /** `for v in range(start, start + len)`; a non-positive `len` writes
      nothing. */
  datatype Segment = Segment(start: int, len: int)

  predicate Covers(s: Segment, x: int) { s.start <= x < s.start + s.len }

  /** The value a `for` loop over `s` leaves in its loop variable: the last
      index written, or `fallback` when the loop body never ran. */
  function LastIndexOr(s: Segment, fallback: int): (last: int)
    ensures s.len > 0 ==> Covers(s, last) && !Covers(s, last + 1)
    ensures s.len <= 0 ==> last == fallback
  {
    if s.len > 0 then s.start + s.len - 1 else fallback
  }

  datatype Segments = Segments(solar: Segment, battery: Segment, grid: Segment)

  /** The chaining of the three right-hand segments: the battery segment
      starts on the last solar pixel (or at 53), the grid segment on the
      last battery pixel (or where the battery segment would have
      started). All three stay right of the marker. */
  function Chain(solarLen: int, batLen: int, gridLen: int): (c: Segments)
    ensures c.solar.len == solarLen && c.battery.len == batLen && c.grid.len == gridLen
    ensures RightAnchor == c.solar.start <= c.battery.start <= c.grid.start
    ensures forall x :: Covers(c.solar, x) || Covers(c.battery, x) || Covers(c.grid, x) ==> RightAnchor <= x
  {
    var solar := Segment(RightAnchor, solarLen);
    var battery := Segment(LastIndexOr(solar, RightAnchor), batLen);
    Segments(solar, battery, Segment(LastIndexOr(battery, battery.start), gridLen))
  }

  /** Adjacent non-empty segments share one pixel, which the later segment
      paints; an empty segment passes its start on to the next. */
  lemma ChainSharesOnePixel(solarLen: int, batLen: int, gridLen: int)
    ensures var c := Chain(solarLen, batLen, gridLen);
      (solarLen > 0 && batLen > 0 ==>
         Covers(c.solar, c.battery.start) && !Covers(c.solar, c.battery.start + 1)) &&
      (batLen > 0 && gridLen > 0 ==>
         Covers(c.battery, c.grid.start) && !Covers(c.battery, c.grid.start + 1)) &&
      (solarLen > 0 && batLen <= 0 && gridLen > 0 ==>
         Covers(c.solar, c.grid.start) && !Covers(c.solar, c.grid.start + 1)) &&
      (solarLen <= 0 && batLen <= 0 ==> c.grid.start == RightAnchor)
  {
  }

  function Positive(n: int): nat { if n > 0 then n else 0 }

  /** How far right of pixel 53 the chained segments reach: the sum of the
      non-empty lengths, less one shared pixel per pair of neighbouring
      non-empty segments. */
  function Extent(solarLen: int, batLen: int, gridLen: int): nat
  {
    var nonEmpty := (if solarLen > 0 then 1 else 0) + (if batLen > 0 then 1 else 0) + (if gridLen > 0 then 1 else 0);
    if nonEmpty == 0 then 0
    else Positive(solarLen) + Positive(batLen) + Positive(gridLen) - (nonEmpty - 1)
  }

  /** The chained segments cover one gap-free run of pixels from 53. */
  lemma ChainIsContiguous(solarLen: int, batLen: int, gridLen: int, x: int)
    ensures var c := Chain(solarLen, batLen, gridLen);
      Covers(c.solar, x) || Covers(c.battery, x) || Covers(c.grid, x)
      <==> RightAnchor <= x < RightAnchor + Extent(solarLen, batLen, gridLen)
  {
  }

  /** With no solar, five battery pixels and three grid pixels, the battery
      segment is [53, 58) and the grid segment [57, 60): they share 57. */
  lemma ChainWithoutSolar()
    ensures Chain(0, 5, 3) == Segments(Segment(53, 0), Segment(53, 5), Segment(57, 3))
  {
  }
}
