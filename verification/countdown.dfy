/** The countdown of a single interval: one progress update at the start,
    then a sleep of min(1, remaining) seconds and an update while time is
    left. Sleeps are abstract steps; cancellation is the index of the sleep
    during which the task's cancellation is delivered. */
module Countdown {
  import opened Basics

  /** Seconds between progress updates. */
  const UpdateInterval: int := 1

  function Min(a: int, b: int): int
  {
    if a <= b then a else b
  }

  function Sum(s: seq<int>): int
  {
    if |s| == 0 then 0 else Sum(s[..|s| - 1]) + s[|s| - 1]
  }

  lemma SumAppend(s: seq<int>, x: int)
    ensures Sum(s + [x]) == Sum(s) + x
  {
    assert (s + [x])[..|s|] == s;
  }

  /** The progress values of a full countdown from d: d, d-1, ..., 1. */
  function Descending(d: int): (s: seq<int>)
    ensures |s| == if d <= 0 then 0 else d
    ensures forall i :: 0 <= i < |s| ==> s[i] == d - i
    decreases d
  {
    if d <= 0 then [] else [d] + Descending(d - 1)
  }

  datatype Outcome = Completed | Cancelled

  /** Runs the countdown of a duration-second interval. `shown` lists the
      remaining values sent as progress updates, `sleeps` the lengths of the
      sleeps that finished. */
  method RunTimer(duration: int, cancelAt: Option<nat>)
    returns (shown: seq<int>, sleeps: seq<int>, remaining: int, outcome: Outcome)
    ensures outcome == Completed <==> cancelAt.None? || cancelAt.value >= duration
    ensures remaining == duration - Sum(sleeps)
    ensures duration >= 0 ==> remaining >= 0
    ensures forall i :: 0 <= i < |sleeps| ==> sleeps[i] == 1
    ensures duration <= 0 ==> shown == [duration] && sleeps == [] && remaining == duration
    ensures duration > 0 && outcome == Completed ==>
              && remaining == 0
              && |sleeps| == duration
              && Sum(sleeps) == duration
              && shown == Descending(duration)
    ensures outcome == Cancelled ==>
              && |sleeps| == cancelAt.value
              && remaining == duration - cancelAt.value > 0
              && shown == Descending(duration)[..cancelAt.value + 1]
  {
    remaining := duration;
    shown := [remaining];
    sleeps := [];
    while remaining > 0
      invariant duration > 0 ==> 0 <= remaining <= duration
      invariant duration <= 0 ==> remaining == duration && sleeps == []
      invariant remaining == duration - |sleeps|
      invariant Sum(sleeps) == |sleeps|
      invariant forall i :: 0 <= i < |sleeps| ==> sleeps[i] == 1
      invariant cancelAt.None? || cancelAt.value >= |sleeps|
      invariant remaining > 0 ==> shown == Descending(duration)[..|sleeps| + 1]
      invariant duration > 0 && remaining == 0 ==> shown == Descending(duration)
      invariant duration <= 0 ==> shown == [duration]
      decreases remaining
    {
      if cancelAt == Some(|sleeps|) {
        outcome := Cancelled;
        return;
      }
      var step := Min(UpdateInterval, remaining);
      SumAppend(sleeps, step);
      sleeps := sleeps + [step];
      remaining := remaining - step;
      if remaining > 0 {
        assert Descending(duration)[..|sleeps| + 1] == Descending(duration)[..|sleeps|] + [remaining];
        shown := shown + [remaining];
      } else {
        assert Descending(duration)[..|sleeps|] == Descending(duration);
      }
    }
    outcome := Completed;
  }
}
