/** Writing pixels on the strip, modelled as an array of colours. The
    driver's write, show and delay calls are not modelled; a write outside
    the strip changes nothing. */
module Frame {
  import opened PyNum
  import opened Colors
  import opened Layout

  /** `strip.setPixelColor(x, c)`; a write outside the strip is dropped. */
  method SetPixel(strip: array<Rgb>, x: int, c: Rgb)
    modifies strip
    ensures forall y :: 0 <= y < strip.Length ==> strip[y] == if y == x then c else old(strip[y])
  {
    if 0 <= x < strip.Length {
      strip[x] := c;
    }
  }

  /** Sets every pixel to 0, as after the rainbow animation. */
  method Blank(strip: array<Rgb>)
    modifies strip
    ensures forall y :: 0 <= y < strip.Length ==> strip[y] == Off
  {
    for i := 0 to strip.Length
      invariant forall y :: 0 <= y < i ==> strip[y] == Off
    {
      SetPixel(strip, i, Off);
    }
  }

  /** One step of `rainbowCycle`: every pixel takes the wheel colour of its
      position shifted by the step. */
  method RainbowFrame(strip: array<Rgb>, step: int)
    modifies strip
    ensures forall y :: 0 <= y < strip.Length ==> strip[y] == Wheel(RainbowPos(y, step, strip.Length))
  {
    var n := strip.Length;
    for i := 0 to n
      invariant forall y :: 0 <= y < i ==> strip[y] == Wheel(RainbowPos(y, step, n))
    {
      SetPixel(strip, i, Wheel(RainbowPos(i, step, n)));
    }
  }

  /** `rainbowCycle` without its delays: `iterations` rounds of 256 steps.
      Since the wheel repeats every 256 steps, the strip is left showing the
      frame of step 255, in which every pixel is a full-brightness wheel
      colour. */
  method RainbowCycle(strip: array<Rgb>, iterations: nat)
    modifies strip
    ensures iterations > 0 ==> forall y :: 0 <= y < strip.Length ==>
              strip[y] == Wheel(RainbowPos(y, 255, strip.Length)) && IsColor(strip[y])
    ensures iterations == 0 ==> strip[..] == old(strip[..])
  {
    if iterations == 0 {
      return;
    }
    var n := strip.Length;
    for step := 0 to 256 * iterations
      invariant step > 0 ==> forall y :: 0 <= y < n ==> strip[y] == Wheel(RainbowPos(y, step - 1, n))
    {
      RainbowFrame(strip, step);
    }
    forall y | 0 <= y < n
      ensures strip[y] == Wheel(RainbowPos(y, 255, n)) && IsColor(strip[y])
    {
      RainbowPeriodic(y, 255, n, iterations - 1);
    }
  }

  /** Everything one frame is drawn from: the battery bar's pixels and
      colour, the three chained right-hand segments, the grid colour and the
      brightness. */
  datatype Plan = Plan(coverage: seq<int>, batColor: Rgb, segments: Segments, gridColor: Rgb, dim: real)

  /** The plan for a reading whose consumption is already adjusted;
      `gradient` is the battery colour below full charge. The battery-flow
      segment is empty whenever consumption does not exceed solar, and the
      solar segment stays within half the strip while consumption is within
      the maximum. */
  function PlanFor(r: Reading, dim: real, gradient: Rgb): (p: Plan)
    ensures r.consumption <= r.solar as real ==> p.segments.battery.len == 0
    ensures r.consumption <= MaxConsumption ==> p.segments.solar.len <= HalfCount
    ensures p.segments.solar.start == RightAnchor && 0 <= p.segments.grid.len
  {
    var d := SelectDisplay(r.consumption, r.solar, r.batChange);
    Plan(BatCoverage(r.percentage), BatColor(r.percentage, dim, gradient),
         Chain(SolarLength(d.solar, MaxConsumption), BatLength(d.batChange, MaxConsumption),
               GridLength(r.grid, MaxConsumption)),
         GridColor(r.grid, dim), dim)
  }

  /** The colour pixel `x` ends with: that of the last write covering it,
      in drawing order battery bar, solar, battery flow, grid, marker; or
      `before` when nothing covers it. */
  function FramePixel(p: Plan, x: int, before: Rgb): Rgb
  {
    if x == MarkerPixel then MarkerColor(p.dim)
    else if Covers(p.segments.grid, x) then p.gridColor
    else if Covers(p.segments.battery, x) then BatteryFlowColor(p.dim)
    else if Covers(p.segments.solar, x) then SolarColor(p.dim)
    else if x in p.coverage then p.batColor
    else before
  }

  /** Drawing one frame: the battery bar over its coverage, then the solar,
      battery-flow and grid segments, each starting where the previous `for`
      loop's variable was left, then the marker at `mid - 1`. */
  method DrawFrame(strip: array<Rgb>, r: Reading, dim: real, gradient: Rgb)
    requires strip.Length == LedCount
    modifies strip
    ensures forall x :: 0 <= x < LedCount ==>
              strip[x] == FramePixel(PlanFor(r, dim, gradient), x, old(strip[x]))
  {
    ghost var s0 := strip[..];
    var batColor := BatColor(r.percentage, dim, gradient);
    var coverage := BatCoverage(r.percentage);
    for t := 0 to |coverage|
      invariant forall y :: 0 <= y < strip.Length ==>
                  strip[y] == if y in coverage[..t] then batColor else s0[y]
    {
      SetPixel(strip, coverage[t], batColor);
      assert coverage[..t + 1] == coverage[..t] + [coverage[t]];
    }
    assert coverage[..|coverage|] == coverage;
    ghost var s1 := strip[..];

    var d := SelectDisplay(r.consumption, r.solar, r.batChange);
    var i, j, k := 0, 0, 0;
    var mid := LedCount / 2 + 1;

    var solarLen := SolarLength(d.solar, MaxConsumption);
    var x := mid;
    while x < mid + solarLen
      invariant mid <= x && (x == mid || x <= mid + solarLen)
      invariant i == if x == mid then 0 else x - 1
      invariant forall y :: 0 <= y < strip.Length ==>
                  strip[y] == if mid <= y < x then SolarColor(dim) else s1[y]
    {
      SetPixel(strip, x, SolarColor(dim));
      i := x;
      x := x + 1;
    }
    ghost var s2 := strip[..];
    if i == 0 {
      i := mid;
    }

    var batLen := BatLength(d.batChange, MaxConsumption);
    x := i;
    while x < i + batLen
      invariant i <= x && (x == i || x <= i + batLen)
      invariant j == if x == i then 0 else x - 1
      invariant forall y :: 0 <= y < strip.Length ==>
                  strip[y] == if i <= y < x then BatteryFlowColor(dim) else s2[y]
    {
      SetPixel(strip, x, BatteryFlowColor(dim));
      j := x;
      x := x + 1;
    }
    ghost var s3 := strip[..];
    if j == 0 {
      if i == 0 {
        j := mid;
      } else {
        j := i;
      }
    }

    var gridLen := GridLength(r.grid, MaxConsumption);
    var gridColor := GridColor(r.grid, dim);
    x := j;
    while x < j + gridLen
      invariant j <= x && (x == j || x <= j + gridLen)
      invariant forall y :: 0 <= y < strip.Length ==>
                  strip[y] == if j <= y < x then gridColor else s3[y]
    {
      SetPixel(strip, x, gridColor);
      k := x;
      x := x + 1;
    }

    SetPixel(strip, mid - 1, MarkerColor(dim));

    ghost var c := Chain(solarLen, batLen, gridLen);
    assert c.battery.start == i && c.grid.start == j;
    assert PlanFor(r, dim, gradient) == Plan(coverage, batColor, c, gridColor, dim);
  }

  /** Pixel 52 always ends as the marker; whenever the battery holds any
      charge the bar covers that pixel too, so the marker overrides it. */
  lemma MarkerOverridesBar(r: Reading, dim: real, gradient: Rgb, before: Rgb)
    requires 0.0 < r.percentage <= 1.0
    ensures MarkerPixel in PlanFor(r, dim, gradient).coverage
    ensures FramePixel(PlanFor(r, dim, gradient), MarkerPixel, before) == MarkerColor(dim)
  {
    var cov := BatCoverage(r.percentage);
    assert |cov| > 0;
    assert cov[0] == MarkerPixel;
  }

  /** Left of the marker only the battery bar draws: a pixel there shows
      the battery colour exactly when it lies in the bar's run of pixels
      ending at the anchor (ceil(52 * charge) of them for a charge in
      [0, 1]), and is otherwise left as it was. */
  lemma LeftHalfIsBatteryBar(r: Reading, dim: real, gradient: Rgb, x: int, before: Rgb)
    requires x < MarkerPixel
    ensures var p := PlanFor(r, dim, gradient);
      FramePixel(p, x, before) == if HalfCount - |p.coverage| < x then p.batColor else before
  {
    CoverageMembers(r.percentage, x);
  }

  /** Right of the marker only the chained segments draw: a pixel beyond
      their reach keeps its colour, and one within it takes one of the
      segment colours (which one is settled by `SharedPixelShowsLater`). */
  lemma RightHalfIsSegments(r: Reading, dim: real, gradient: Rgb, x: int, before: Rgb)
    requires RightAnchor <= x
    ensures var p := PlanFor(r, dim, gradient);
      var s := p.segments;
      var reach := RightAnchor + Extent(s.solar.len, s.battery.len, s.grid.len);
      (reach <= x ==> FramePixel(p, x, before) == before) &&
      (x < reach ==>
         FramePixel(p, x, before) in {p.gridColor, BatteryFlowColor(dim), SolarColor(dim)})
  {
    var p := PlanFor(r, dim, gradient);
    var s := p.segments;
    ChainIsContiguous(s.solar.len, s.battery.len, s.grid.len, x);
    CoverageMembers(r.percentage, x);
  }

  /** A pixel two neighbouring segments share shows the later one: the
      last solar pixel turns battery green when the battery segment is drawn
      and no grid segment follows, and the last battery pixel takes the grid
      colour. */
  lemma SharedPixelShowsLater(r: Reading, dim: real, gradient: Rgb, before: Rgb)
    ensures var p := PlanFor(r, dim, gradient);
      var s := p.segments;
      (s.solar.len > 0 && s.battery.len > 0 && s.grid.len <= 0 ==>
         Covers(s.solar, s.battery.start) &&
         FramePixel(p, s.battery.start, before) == BatteryFlowColor(dim)) &&
      (s.battery.len > 0 && s.grid.len > 0 ==>
         Covers(s.battery, s.grid.start) &&
         FramePixel(p, s.grid.start, before) == p.gridColor)
  {
    var p := PlanFor(r, dim, gradient);
    var s := p.segments;
    ChainSharesOnePixel(s.solar.len, s.battery.len, s.grid.len);
  }
}
