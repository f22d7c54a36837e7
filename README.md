# Solar telemetry LED display: a Dafny model of one run

The script `energy-stats-with-0-0-coordiantes.py` shows a home solar system's power flow on a strip of 104 addressable LEDs. One run reads grid, solar, consumption and battery values from the inverter. It then does four things:

1. It keeps a fixed-length history of battery charge samples, newest first, that survives across runs. A rainbow animation plays the first time the battery is seen above 98%.
2. It draws a battery charge bar that grows left from pixel 52.
3. It draws three chained segments from pixel 53: solar, battery flow and grid.
4. It draws a marker on pixel 52.

This project models that logic in six modules:

- `PyNum` (numeric.dfy): Python's `int()` on floats (truncation toward zero), `abs`, and `range(start, stop, -1)`.
- `Colors` (colors.dfy): the rainbow colour wheel, the wheel position of each pixel during the animation, and the colours of the bar, the segments and the marker. Each colour is scaled by the brightness factor `dim`.
- `History` (history.dfy): the full-charge trigger and the in-place shift-and-insert of the history list (an `array<real>`). It also holds lemmas about several runs in a row.
- `Layout` (layout.dfy):
  - the export adjustment of consumption;
  - the choice of what the right half shows;
  - the segment lengths;
  - the battery bar's pixel range;
  - the chaining of the segment start positions.
- `Frame` (frame.dfy): the pixel-writing loops on the strip (an `array<Rgb>`).
  - `DrawFrame` keeps the script's `for` loop variables `i`, `j` and `k`. Their last values decide where the next segment starts.
  - `DrawFrame` is proved against `FramePixel`, a last-writer-wins description of the finished frame.
- `Run` (run.dfy): one run, from the telemetry values to the drawn frame.

Floats are modelled as `real`, and `int()` is modelled exactly as truncation toward zero.

## Behaviour the model pins down

- The battery bar lights the pixels from 52 down to `int(52 - 52*p)`, exclusive. For a charge `p` in [0, 1] that is ceil(52·p) pixels, not a rounded count.
- The right-hand segments start at 53 (`mid = LED_COUNT//2 + 1`). Each later segment starts on the last pixel the previous loop wrote, so two neighbouring non-empty segments share one pixel, and the later colour wins. For example, with no solar, 5 battery pixels and 3 grid pixels, the battery segment is [53, 58) and the grid segment is [57, 60).
- The marker is written last, on pixel 52. That is also the battery bar's first pixel, so the marker replaces the bar colour there.
- The trigger is evaluated on the history as loaded, before the new sample is inserted. For a non-empty history it never fires on two runs in a row, and it fires again only after as many non-full samples as the history has entries. An empty history passes the `all` test every time, but that run then fails before the history is saved.

## Model

| member | source | states |
|---|---|---|
| `PyNum.Trunc` | energy-stats-with-0-0-coordiantes.py:123 | `int()` of a float truncates toward zero: the result is within one of the argument, on the argument's side of zero |
| `PyNum.RangeDown` | energy-stats-with-0-0-coordiantes.py:112 | `range(start, stop, -1)` has `start - stop` elements (none when `stop >= start`), the k-th being `start - k` |
| `Colors.Wheel` | energy-stats-with-0-0-coordiantes.py:67-76 | for positions 0..255 every channel is in [0, 255], the channels sum to 255, and at least one channel is 0 |
| `Colors.WheelIsSmoothCycle` | energy-stats-with-0-0-coordiantes.py:67-76 | neighbouring positions differ by at most 3 per channel, and position 255 has the same colour as position 0 |
| `Colors.RainbowPos` | energy-stats-with-0-0-coordiantes.py:82 | the `& 255` keeps the wheel position passed by `rainbowCycle` in [0, 255] for every pixel and step |
| `Colors.RainbowPeriodic` | energy-stats-with-0-0-coordiantes.py:80-82 | adding a multiple of 256 to the step gives every pixel the same wheel position |
| `Colors.Scale` | energy-stats-with-0-0-coordiantes.py:132-133 | `int(level*dim)` is in [0, level] for dim in [0, 1], and at least 1 once `level*dim >= 1` |
| `Colors.SolarColor` | energy-stats-with-0-0-coordiantes.py:131-135 | for dim in [0, 1] the solar colour is valid; it never has blue, and once one scaled step is visible both red and green are lit (yellow) |
| `Colors.BatteryFlowColor` | energy-stats-with-0-0-coordiantes.py:258 | for dim in [0, 1] the battery-flow colour is valid; it never has red or blue, and once one scaled step is visible green is lit |
| `Colors.MarkerColor` | energy-stats-with-0-0-coordiantes.py:270 | for dim in [0, 1] the marker colour is valid; it is a grey (equal channels), lit once one scaled step is visible |
| `Colors.GridColor` | energy-stats-with-0-0-coordiantes.py:116-120 | red with no blue when `grid > 0`; blue with no red otherwise, including `grid == 0`; never green |
| `Colors.GridColorRedIffImport` | energy-stats-with-0-0-coordiantes.py:116-120 | with a visible brightness, the grid colour has red iff `grid > 0` and blue iff `grid <= 0` |
| `Colors.FullChargeColor` | energy-stats-with-0-0-coordiantes.py:89-90 | the full-charge bar colour has no red, and for dim in [0, 1] it is a valid colour with at least as much blue as green |
| `Colors.BatColor` | energy-stats-with-0-0-coordiantes.py:88-90 | above 0.98 charge the bar colour is the fixed full-charge colour whatever the battery flow; at or below 0.98 it is the flow-dependent colour |
| `Colors.FrameColorsDistinct` | energy-stats-with-0-0-coordiantes.py:116-135 | for dim in [1/255, 1], every drawing colour is valid, and the solar, battery-flow, marker and grid colours are pairwise different |
| `History.AllBelow` | energy-stats-with-0-0-coordiantes.py:220 | `all(h < 0.98 for h in history)` holds iff every stored sample is below 0.98 (vacuously for an empty history) |
| `History.FullChargeTrigger` | energy-stats-with-0-0-coordiantes.py:220 | fires iff every stored sample is below 0.98 and the new sample is above 0.98; any stored sample at or above 0.98 prevents it; an empty history leaves only the sample test |
| `History.Shifted` | energy-stats-with-0-0-coordiantes.py:226-228 | the updated history has the same length, the new sample at index 0, and old entry k at index k+1 |
| `History.ShiftedDropsOldest` | energy-stats-with-0-0-coordiantes.py:226-228 | as a multiset, the update removes exactly the oldest entry and adds exactly the new sample |
| `History.PushFront` | energy-stats-with-0-0-coordiantes.py:226-228 | the downward shift loop followed by the write at index 0 turns the array into `Shifted(old, sample)`; on an empty list the write fails (`ok == false`) and the list is unchanged |
| `History.StoredFullSampleDisarms` | energy-stats-with-0-0-coordiantes.py:220-228 | once a sample at or above 0.98 has been stored, the next run cannot fire the trigger |
| `History.TriggerNotTwiceInARow` | energy-stats-with-0-0-coordiantes.py:220-228 | for a non-empty history, a run that fires the trigger keeps the next run from firing it |
| `History.PushAll` | energy-stats-with-0-0-coordiantes.py:226-228 | several runs' updates keep the history's length |
| `History.PushAllAt` | energy-stats-with-0-0-coordiantes.py:226-228 | after several runs, entry k is the k-th newest sample, or, past the number of runs, the old entry k minus the number of runs |
| `History.TriggerRearms` | energy-stats-with-0-0-coordiantes.py:220-228 | after at least as many below-0.98 samples as the history has entries, a sample above 0.98 fires the trigger again |
| `History.TriggerNeedsWindow` | energy-stats-with-0-0-coordiantes.py:220-228 | if the trigger fires after several runs, every one of those runs' samples still held in the history was below 0.98 |
| `Layout.AdjustConsumption` | energy-stats-with-0-0-coordiantes.py:202-203 | consumption drops by `abs(grid)` when `grid < 0` and is unchanged otherwise; it drops at all iff `grid < 0` |
| `Layout.SelectDisplay` | energy-stats-with-0-0-coordiantes.py:240-245 | the solar value shown is the smaller of consumption and solar; the battery flow is kept iff consumption exceeds solar, and is 0 otherwise |
| `Layout.GridLength` | energy-stats-with-0-0-coordiantes.py:122-123 | the length is `abs(grid)/max*52` rounded down; it is never negative, at most 52 when `abs(grid) <= max`, and exactly 52 at the maximum |
| `Layout.SolarLength` | energy-stats-with-0-0-coordiantes.py:125-126 | a non-positive value gives a non-positive length (an empty segment); a non-negative one gives `v/max*52` rounded down, within [0, 52] up to the maximum and exactly 52 at it |
| `Layout.BatLength` | energy-stats-with-0-0-coordiantes.py:128-129 | the length is `abs(flow)/max*52` rounded down; it is never negative, at most 52 within the maximum, and exactly 52 at it |
| `Layout.BatCoverage` | energy-stats-with-0-0-coordiantes.py:110-112 | the indices start at 52 and fall by one; for a charge in [0, 1] they lie in [1, 52] and number ceil(52·charge); no charge gives no pixels |
| `Layout.CoverageMembers` | energy-stats-with-0-0-coordiantes.py:110-112 | a pixel is in the bar's coverage iff it lies in the run of coverage-count pixels ending at 52 |
| `Layout.Chain` | energy-stats-with-0-0-coordiantes.py:247-266 | the segments keep their lengths, start in order solar ≤ battery ≤ grid from pixel 53, and never reach left of 53 |
| `Layout.ChainSharesOnePixel` | energy-stats-with-0-0-coordiantes.py:253-266 | neighbouring non-empty segments share exactly one pixel (the last of the earlier one); when solar and battery are both empty the grid starts at 53 |
| `Layout.LastIndexOr` | energy-stats-with-0-0-coordiantes.py:253-264 | the value a `for` variable keeps after its loop: for a non-empty range, the last pixel the range covers (the next one is outside it); for an empty range, the fallback value the variable had |
| `Layout.ChainIsContiguous` | energy-stats-with-0-0-coordiantes.py:253-267 | the segments together cover exactly the gap-free run from 53 whose length, `Extent`, is the sum of non-empty lengths minus one per shared pixel |
| `Layout.ChainWithoutSolar` | energy-stats-with-0-0-coordiantes.py:256-266 | with lengths 0, 5 and 3 the battery segment is [53, 58) and the grid segment [57, 60) |
| `Frame.SetPixel` | energy-stats-with-0-0-coordiantes.py:237-238 | a write changes exactly the addressed pixel when it is on the strip, and nothing otherwise |
| `Frame.Blank` | energy-stats-with-0-0-coordiantes.py:222-223 | after the loop every pixel is 0 |
| `Frame.RainbowFrame` | energy-stats-with-0-0-coordiantes.py:81-82 | after one step every pixel holds the wheel colour of its rainbow position at that step |
| `Frame.RainbowCycle` | energy-stats-with-0-0-coordiantes.py:78-84 | after one or more rounds of 256 steps the strip holds step 255's frame, every pixel a valid wheel colour; zero rounds change nothing |
| `Frame.PlanFor` | energy-stats-with-0-0-coordiantes.py:235-266 | the frame's plan wires the displayed solar value, the displayed battery flow and the grid into the three segments: the battery-flow segment is empty whenever consumption does not exceed solar, the solar segment starts at 53 and stays within 52 pixels while consumption is within the maximum, and the grid segment's length is never negative |
| `Frame.DrawFrame` | energy-stats-with-0-0-coordiantes.py:235-271 | the bar loop, three chained loops steered by the leaked loop variables, and the marker write leave every pixel as `FramePixel` of `PlanFor` says: the last write covering it, or its old colour |
| `Frame.MarkerOverridesBar` | energy-stats-with-0-0-coordiantes.py:237-271 | for a charge in (0, 1] pixel 52 is in the bar's coverage, and after drawing it holds the marker colour |
| `Frame.LeftHalfIsBatteryBar` | energy-stats-with-0-0-coordiantes.py:235-238 | left of pixel 52 a pixel shows the bar colour iff it is in the bar's run, and keeps its colour otherwise |
| `Frame.RightHalfIsSegments` | energy-stats-with-0-0-coordiantes.py:247-267 | from pixel 53, pixels beyond the segments' reach keep their colour, and pixels within it show a segment colour |
| `Frame.SharedPixelShowsLater` | energy-stats-with-0-0-coordiantes.py:253-266 | a pixel shared by two neighbouring segments shows the later one: the last solar pixel is battery green when no grid segment follows, and the last battery pixel takes the grid colour |
| `Run.Adjusted` | energy-stats-with-0-0-coordiantes.py:202-203 | the reading keeps every value except the consumption, which gets the export adjustment |
| `Run.RunOnce` | energy-stats-with-0-0-coordiantes.py:202-271 | the trigger is decided on the loaded history; the history becomes `Shifted(old, sample)`, or stays unchanged and no frame is drawn when it is empty; the strip ends as `FramePixel` of the adjusted reading over the old strip, or over an all-off strip after the rainbow |

## Left out

- Fetching telemetry over HTTP and reading the JSON (`get_bat`, `get_grid_solar_and_consumption`): these are network I/O. The grid, solar and consumption values, `int(Voltage_DC * Current_DC)` and `StateOfCharge_Relative / 100` are inputs to `Run.RunOnce`.
- The averaging loop: with `get_times = 1` its body never runs and the divisions by 1 change nothing. The model starts from the single sample.
- The time zone, the night cutoff (which blanks only pixel 0 before `exit(0)`) and the sunrise/sunset choice of brightness: these are wall-clock state and library calls. The chosen brightness `dim` is a parameter.
- Loading and saving the history file: file I/O. The history is the in-memory list. A missing or corrupt file is not modelled.
- The HLS-to-RGB conversion in `get_bat_color`: it is float colour math in a library. The colour it yields below full charge is the parameter `gradient`.
- Packing a colour into one integer by the driver's `Color`: a colour is an (r, g, b) triple.
- `show`, the animation delays and `colorWipe`: these are driver calls and timing, and `colorWipe` is never called.
- `fake`: it returns its arguments unchanged.
- The keyboard-interrupt handler and the `print` calls: these are process control and logging.
- IEEE double rounding: products and quotients are exact reals, so a float result that rounds across an integer before `int()` is not captured.
- Frame.SetPixel: the driver's behaviour for an index off the strip is not part of this model; the model drops such writes. Long segments and a charge above 1 can produce them.
- Layout.GridLength, Layout.SolarLength, Layout.BatLength: they require a positive `max_consumption`. The script always passes 10000, so its division by zero is never reached.
- Layout.BatCoverage: the pixel count and the bound of [1, 52] are stated only for a charge in [0, 1]. Outside that range only the shape of the indices (52 and falling by one) is stated.
- Colors.RainbowPos: it states the range of the position, not that `int(i * 256 / n)` equals `i * 256 // n`.
