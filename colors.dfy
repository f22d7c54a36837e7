/** Pixel colours: the rainbow colour wheel used by the full-charge
    animation, and the fixed colours the frame is drawn with, each scaled by
    the brightness factor `dim` (0.3 by day, 0.1 at night). */
module Colors {
  import opened PyNum

  /** A pixel colour as the driver's `Color(r, g, b)` receives it. */
  datatype Rgb = Rgb(r: int, g: int, b: int)

  /** The colour 0 that blanks a pixel. */
  const Off: Rgb := Rgb(0, 0, 0)

  predicate IsChannel(v: int) { 0 <= v <= 255 }

  predicate IsColor(c: Rgb) { IsChannel(c.r) && IsChannel(c.g) && IsChannel(c.b) }

  /** `wheel(pos)`: a three-piece hue wheel over positions 0..255 that fades
      green to red, red to blue, then blue back to green. */
  function Wheel(pos: int): (c: Rgb)
    ensures 0 <= pos <= 255 ==> IsColor(c) && c.r + c.g + c.b == 255
    ensures 0 <= pos <= 255 ==> c.r == 0 || c.g == 0 || c.b == 0
  {
    if pos < 85 then Rgb(pos * 3, 255 - pos * 3, 0)
    else if pos < 170 then Rgb(255 - (pos - 85) * 3, 0, (pos - 85) * 3)
    else Rgb(0, (pos - 170) * 3, 255 - (pos - 170) * 3)
  }

  /** Neighbouring wheel positions differ by at most 3 in every channel, and
      the wheel closes: its last position repeats its first colour. */
  lemma WheelIsSmoothCycle(pos: int)
    requires 0 <= pos < 255
    ensures -3 <= Wheel(pos + 1).r - Wheel(pos).r <= 3
    ensures -3 <= Wheel(pos + 1).g - Wheel(pos).g <= 3
    ensures -3 <= Wheel(pos + 1).b - Wheel(pos).b <= 3
    ensures Wheel(255) == Wheel(0)
  {
  }

  /** The wheel position `rainbowCycle` gives pixel `i` of `n` at step `j`:
      `(int(i * 256 / n) + j) & 255`. For Python integers `x & 255` is
      `x mod 256` with a non-negative remainder, which is Dafny's `%`. */
  function RainbowPos(i: int, j: int, n: int): (pos: int)
    requires 0 < n
    ensures 0 <= pos <= 255
  {
    (Trunc((i * 256) as real / n as real) + j) % 256
  }

  /** The rainbow repeats itself every 256 steps, so `iterations` full
      cycles of 256 steps each end on the same frame. */
  lemma RainbowPeriodic(i: int, j: int, n: int, cycles: nat)
    requires 0 < n
    ensures RainbowPos(i, j + 256 * cycles, n) == RainbowPos(i, j, n)
  {
    var t := Trunc((i * 256) as real / n as real);
    assert (t + j + 256 * cycles) % 256 == (t + j) % 256 by {
      var x := t + j;
      assert x == 256 * (x / 256) + x % 256;
      assert x + 256 * cycles == 256 * (x / 256 + cycles) + x % 256;
    }
  }

  /** `int(level * dim)`: one channel at brightness `dim`. */
  function Scale(level: int, dim: real): (v: int)
    ensures 0 <= level && 0.0 <= dim <= 1.0 ==> 0 <= v <= level
    ensures 0 <= level && 1.0 <= level as real * dim ==> 1 <= v
  {
    ScaleBounds(level as real, dim);
    Trunc(level as real * dim)
  }

  lemma ScaleBounds(level: real, dim: real)
    ensures 0.0 <= level && 0.0 <= dim <= 1.0 ==> 0.0 <= level * dim <= level
  {
    if 0.0 <= level && 0.0 <= dim <= 1.0 {
      assert level * (1.0 - dim) >= 0.0;
    }
  }

  /** The solar segment's yellow: a valid colour for any brightness in
      [0, 1], with no blue, and with both red and green lit once one scaled
      step is visible. */
  function SolarColor(dim: real): (c: Rgb)
    ensures 0.0 <= dim <= 1.0 ==> IsColor(c)
    ensures c.b == 0
    ensures 1.0 / 255.0 <= dim ==> c.r > 0 && c.g > 0
  {
    Rgb(Scale(255, dim), Scale(255, dim), 0)
  }

  /** The battery-flow segment's green: a valid colour for any brightness
      in [0, 1], with no red or blue, and with green lit once one scaled step
      is visible. */
  function BatteryFlowColor(dim: real): (c: Rgb)
    ensures 0.0 <= dim <= 1.0 ==> IsColor(c)
    ensures c.r == 0 && c.b == 0
    ensures 1.0 / 255.0 <= dim ==> c.g > 0
  {
    Rgb(0, Scale(255, dim), 0)
  }

  /** The white midpoint marker: a valid grey for any brightness in [0, 1],
      lit in every channel once one scaled step is visible. */
  function MarkerColor(dim: real): (c: Rgb)
    ensures 0.0 <= dim <= 1.0 ==> IsColor(c)
    ensures c.r == c.g == c.b
    ensures 1.0 / 255.0 <= dim ==> c.r > 0
  {
    Rgb(Scale(255, dim), Scale(255, dim), Scale(255, dim))
  }

  /** `get_grid_color`: red while importing from the grid (`grid > 0`), blue
      otherwise, including `grid == 0`. */
  function GridColor(grid: int, dim: real): (c: Rgb)
    ensures c.g == 0
    ensures grid > 0 ==> c.r == Scale(255, dim) && c.b == 0
    ensures grid <= 0 ==> c.b == Scale(255, dim) && c.r == 0
  {
    if grid > 0 then Rgb(Scale(255, dim), 0, 0) else Rgb(0, 0, Scale(255, dim))
  }

  /** Once the scaled level is visible, the grid colour shows red exactly
      when power is drawn from the grid and blue exactly when it is not. */
  lemma GridColorRedIffImport(grid: int, dim: real)
    requires 1.0 / 255.0 <= dim <= 1.0
    ensures GridColor(grid, dim).r > 0 <==> grid > 0
    ensures GridColor(grid, dim).b > 0 <==> grid <= 0
  {
    assert Scale(255, dim) >= 1;
  }

  /** The fixed colour of the battery bar at full charge: a cool colour
      with no red and at least as much blue as green. */
  function FullChargeColor(dim: real): (c: Rgb)
    ensures c.r == 0
    ensures 0.0 <= dim <= 1.0 ==> IsColor(c) && c.g <= c.b
  {
    assert 0.0 <= dim ==> 100.0 * dim <= 255.0 * dim;
    Rgb(0, Scale(100, dim), Scale(255, dim))
  }

  /** `get_bat_color`. Above 98% charge the bar takes the fixed full-charge
      colour whatever the battery flow; otherwise it takes `gradient`, the
      colour the HLS mapping of the battery flow yields (that mapping is not
      part of this model). */
  function BatColor(percentage: real, dim: real, gradient: Rgb): (c: Rgb)
    ensures percentage > 0.98 ==> c == FullChargeColor(dim)
    ensures percentage <= 0.98 ==> c == gradient
  {
    if percentage > 0.98 then FullChargeColor(dim) else gradient
  }

  /** Every colour the frame is drawn with is a valid colour for any
      brightness in [0, 1]; once one scaled step is visible, the solar,
      battery-flow, marker and both grid colours are pairwise different, so
      the segments can be told apart. */
  lemma FrameColorsDistinct(dim: real)
    requires 1.0 / 255.0 <= dim <= 1.0
    ensures IsColor(SolarColor(dim)) && IsColor(BatteryFlowColor(dim)) && IsColor(MarkerColor(dim))
    ensures IsColor(GridColor(1, dim)) && IsColor(GridColor(0, dim)) && IsColor(FullChargeColor(dim))
    ensures SolarColor(dim) != BatteryFlowColor(dim) && SolarColor(dim) != MarkerColor(dim)
    ensures BatteryFlowColor(dim) != MarkerColor(dim)
    ensures forall g: int :: GridColor(g, dim) != SolarColor(dim) && GridColor(g, dim) != BatteryFlowColor(dim)
    ensures forall g: int :: GridColor(g, dim) != MarkerColor(dim)
  {
    assert Scale(255, dim) >= 1;
  }
}
