/** The persisted battery-percentage history: a fixed-length list, most
    recent sample first, that one run updates by shifting every entry one
    place toward the old end and writing the new sample at index 0. Before
    the update, the history decides whether the battery has just become full,
    which starts the rainbow animation. */
module History {

  /** Charge fraction above which the battery counts as full. */
  const FullThreshold: real := 0.98

  /** `all(h < 0.98 for h in history)`. */
  function AllBelow(h: seq<real>): (r: bool)
    ensures r <==> forall k :: 0 <= k < |h| ==> h[k] < FullThreshold
  {
    if h == [] then true else h[0] < FullThreshold && AllBelow(h[1..])
  }

  /** The full-charge trigger, evaluated on the history as loaded: no stored
      sample is full and the new sample is. */
  function FullChargeTrigger(h: seq<real>, sample: real): (fire: bool)
    ensures fire <==> (forall k :: 0 <= k < |h| ==> h[k] < FullThreshold) && sample > FullThreshold
    ensures (exists k :: 0 <= k < |h| && h[k] >= FullThreshold) ==> !fire
    ensures h == [] ==> (fire <==> sample > FullThreshold)
  {
    AllBelow(h) && sample > FullThreshold
  }

  /** The history after one update: the new sample first, then every old
      entry but the oldest, each one place further back. */
  function Shifted(h: seq<real>, sample: real): (r: seq<real>)
    requires |h| > 0
    ensures |r| == |h| && r[0] == sample
    ensures forall k :: 0 <= k < |h| - 1 ==> r[k + 1] == h[k]
  {
    [sample] + h[..|h| - 1]
  }

  /** The update keeps the length, drops exactly the oldest entry and adds
      exactly the new sample. */
  lemma ShiftedDropsOldest(h: seq<real>, sample: real)
    requires |h| > 0
    ensures multiset(Shifted(h, sample)) == multiset(h) - multiset{h[|h| - 1]} + multiset{sample}
  {
    var n := |h|;
    assert h == h[..n - 1] + [h[n - 1]];
    assert multiset(h) == multiset(h[..n - 1]) + multiset{h[n - 1]};
  }

  /** Writing the history in place: the loop
      `for i in range(len(history)-2, -1, -1): history[i+1] = history[i]`
      followed by `history[0] = sample`. On an empty list the final write
      raises `IndexError`; here that is `ok == false` with the list
      untouched. */
  method PushFront(history: array<real>, sample: real) returns (ok: bool)
    modifies history
    ensures ok <==> history.Length > 0
    ensures ok ==> history[..] == Shifted(old(history[..]), sample)
    ensures !ok ==> history[..] == old(history[..])
  {
    var n := history.Length;
    var i := n - 2;
    while i >= 0
      invariant n == 0 ==> i == -2
      invariant n > 0 ==> -1 <= i <= n - 2
      invariant forall x :: 0 <= x < n && x <= i + 1 ==> history[x] == old(history[x])
      invariant forall x :: i + 1 < x < n ==> history[x] == old(history[x - 1])
      decreases i
    {
      history[i + 1] := history[i];
      i := i - 1;
    }
    if n == 0 {
      return false;
    }
    history[0] := sample;
    ok := true;
  }

  /** A sample at or above the threshold, once stored, keeps the trigger
      from firing on the next run whatever that run's sample is: the
      trigger fires once per transition to full. */
  lemma StoredFullSampleDisarms(h: seq<real>, sample: real, next: real)
    requires |h| > 0 && sample >= FullThreshold
    ensures !FullChargeTrigger(Shifted(h, sample), next)
  {
    assert Shifted(h, sample)[0] == sample;
  }

  /** In particular the trigger never fires on two runs in a row. */
  lemma TriggerNotTwiceInARow(h: seq<real>, sample: real, next: real)
    requires |h| > 0 && FullChargeTrigger(h, sample)
    ensures !FullChargeTrigger(Shifted(h, sample), next)
  {
    StoredFullSampleDisarms(h, sample, next);
  }

  /** The history after one update per sample, first sample first. */
  function PushAll(h: seq<real>, samples: seq<real>): (r: seq<real>)
    requires |h| > 0
    ensures |r| == |h|
    decreases |samples|
  {
    if samples == [] then h else PushAll(Shifted(h, samples[0]), samples[1..])
  }

  /** After several runs the history holds the latest samples, newest first,
      followed by what is left of the old history. */
  lemma {:induction false} PushAllAt(h: seq<real>, samples: seq<real>, k: int)
    requires |h| > 0 && 0 <= k < |h|
    ensures PushAll(h, samples)[k] ==
            if k < |samples| then samples[|samples| - 1 - k] else h[k - |samples|]
    decreases |samples|
  {
    if samples != [] {
      var h' := Shifted(h, samples[0]);
      PushAllAt(h', samples[1..], k);
    }
  }

  /** The trigger re-arms: once the history has seen at least as many
      non-full samples as it has entries, every earlier full sample has been
      pushed out and a full sample fires the trigger again. */
  lemma {:induction false} TriggerRearms(h: seq<real>, samples: seq<real>, sample: real)
    requires |h| > 0 && |samples| >= |h|
    requires forall k :: 0 <= k < |samples| ==> samples[k] < FullThreshold
    requires sample > FullThreshold
    ensures FullChargeTrigger(PushAll(h, samples), sample)
  {
    var r := PushAll(h, samples);
    forall k | 0 <= k < |r|
      ensures r[k] < FullThreshold
    {
      PushAllAt(h, samples, k);
    }
  }

  /** The converse: if the trigger fires after several runs, each of the
      latest samples still held in the history was below the threshold, so
      the trigger cannot fire again until a full history's worth of non-full
      samples has gone by. */
  lemma {:induction false} TriggerNeedsWindow(h: seq<real>, samples: seq<real>, sample: real, m: int)
    requires |h| > 0 && FullChargeTrigger(PushAll(h, samples), sample)
    requires 0 <= m < |samples| && m < |h|
    ensures samples[|samples| - 1 - m] < FullThreshold
  {
    PushAllAt(h, samples, m);
  }
}
