/** One invocation of the display script from the point where the
    telemetry has been read: adjust the consumption, test the history for the
    full-charge transition (running the rainbow and blanking the strip when
    it fires), update the history, and draw the frame. */
module Run {
  import opened Colors
  import opened Layout
  import opened History
  import opened Frame

  /** `rainbowCycle(strip, wait_ms=5, iterations=10)`. */
  const RainbowIterations: nat := 10

  /** The reading with the export adjustment applied to its consumption. */
  function Adjusted(r: Reading): (a: Reading)
    ensures a.grid == r.grid && a.solar == r.solar && a.batChange == r.batChange
    ensures a.percentage == r.percentage
    ensures a.consumption == AdjustConsumption(r.consumption, r.grid)
  {
    r.(consumption := AdjustConsumption(r.consumption, r.grid))
  }

  /** One run. `dim` is the brightness the daylight check chose and
      `gradient` the battery colour below full charge. `fired` reports the
      full-charge trigger. `ok` is false when the history is empty: the
      source then fails writing its first entry, so nothing is saved and no
      frame is drawn. */
  method RunOnce(strip: array<Rgb>, history: array<real>, reading: Reading, dim: real, gradient: Rgb)
    returns (ok: bool, fired: bool)
    requires strip.Length == LedCount
    modifies strip, history
    ensures fired == FullChargeTrigger(old(history[..]), reading.percentage)
    ensures ok <==> history.Length > 0
    ensures ok ==> history[..] == Shifted(old(history[..]), reading.percentage)
    ensures !ok ==> history[..] == old(history[..])
    ensures ok ==> forall x :: 0 <= x < LedCount ==>
              strip[x] == FramePixel(PlanFor(Adjusted(reading), dim, gradient), x,
                                     if fired then Off else old(strip[x]))
    ensures !ok ==> forall x :: 0 <= x < LedCount ==>
              strip[x] == if fired then Off else old(strip[x])
  {
    var r := Adjusted(reading);
    fired := FullChargeTrigger(history[..], r.percentage);
    if fired {
      RainbowCycle(strip, RainbowIterations);
      Blank(strip);
    }
    ok := PushFront(history, r.percentage);
    if !ok {
      return;
    }
    DrawFrame(strip, r, dim, gradient);
  }
}
