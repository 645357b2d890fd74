/** The render loop's frame pacing: each iteration measures the time spent
    since its start and, when that is below the target frame time, sleeps
    for the difference. A late frame is not compensated by later ones.
    Durations are natural numbers of nanoseconds, the resolution of Rust's
    `Duration`, so comparisons and subtraction are exact. */
module Pacer {

  const NANOS_PER_MILLI: nat := 1_000_000

  /** Frames per second aimed at. */
  const TARGET_FPS: nat := 16

  /** `Duration::from_millis(1000 / 16)`: the integer division truncates to
      62 ms, so the loop aims at slightly more than 16 frames per second. */
  const TARGET_FRAME_TIME: nat := (1000 / TARGET_FPS) * NANOS_PER_MILLI

  /** The sleep after a frame whose timed part took `elapsed`. */
  function SleepTime(elapsed: nat): (sleep: nat)
    ensures elapsed < TARGET_FRAME_TIME ==> elapsed + sleep == TARGET_FRAME_TIME
    ensures elapsed >= TARGET_FRAME_TIME ==> sleep == 0
  {
    if elapsed < TARGET_FRAME_TIME then TARGET_FRAME_TIME - elapsed else 0
  }

  /** The time by which a timed frame overran the target. */
  function Overrun(elapsed: nat): nat {
    if elapsed > TARGET_FRAME_TIME then elapsed - TARGET_FRAME_TIME else 0
  }

  /** A frame's timed window and sleep add up to the target, or more when
      its work took longer, never less; exactly the target plus the frame's
      own overrun. It sleeps exactly when it finished early. */
  lemma FramePeriod(elapsed: nat)
    ensures elapsed + SleepTime(elapsed) >= TARGET_FRAME_TIME
    ensures SleepTime(elapsed) == 0 <==> elapsed >= TARGET_FRAME_TIME
    ensures elapsed + SleepTime(elapsed) == TARGET_FRAME_TIME + Overrun(elapsed)
    ensures SleepTime(elapsed) <= TARGET_FRAME_TIME
  {
  }

  lemma TargetIs62Millis()
    ensures TARGET_FRAME_TIME == 62 * NANOS_PER_MILLI
    ensures TARGET_FPS * TARGET_FRAME_TIME < 1000 * NANOS_PER_MILLI
  {
  }

  /** The timed windows of a run of frames plus the sleeps after them; the
      untimed steps between windows and any sleep overshoot are not in it. */
  function Paced(work: seq<nat>): nat {
    if work == [] then 0 else Paced(work[..|work| - 1]) + work[|work| - 1] + SleepTime(work[|work| - 1])
  }

  function Sum(xs: seq<nat>): nat {
    if xs == [] then 0 else Sum(xs[..|xs| - 1]) + xs[|xs| - 1]
  }

  /** The overruns of a run of frames, added up. */
  function Overruns(work: seq<nat>): nat {
    if work == [] then 0 else Overruns(work[..|work| - 1]) + Overrun(work[|work| - 1])
  }

  /** No catch-up: the timed windows and sleeps of a run of frames add up
      to exactly one target per frame plus every overrun, so time lost to a
      slow frame is never made up. */
  lemma {:induction false} PacedIsTargetPlusOverruns(work: seq<nat>)
    ensures Paced(work) == |work| * TARGET_FRAME_TIME + Overruns(work)
  {
    if work != [] {
      PacedIsTargetPlusOverruns(work[..|work| - 1]);
      FramePeriod(work[|work| - 1]);
    }
  }

  /** The timed windows and sleeps of a run of frames add up to at least
      one target per frame, and to at least the timed work itself. */
  lemma {:induction false} PacedBounds(work: seq<nat>)
    ensures Paced(work) >= |work| * TARGET_FRAME_TIME
    ensures Paced(work) >= Sum(work)
  {
    if work != [] {
      PacedBounds(work[..|work| - 1]);
      FramePeriod(work[|work| - 1]);
    }
  }

  /** The render loop's pacing over frames whose timed windows took `work`:
      the sleep chosen after each frame, and the timed windows and sleeps
      added up. */
  method RunFrames(work: seq<nat>) returns (sleeps: seq<nat>, clock: nat)
    ensures |sleeps| == |work|
    ensures forall k :: 0 <= k < |work| ==>
      (work[k] < TARGET_FRAME_TIME ==> work[k] + sleeps[k] == TARGET_FRAME_TIME) &&
      (work[k] >= TARGET_FRAME_TIME ==> sleeps[k] == 0)
    ensures clock == |work| * TARGET_FRAME_TIME + Overruns(work)
  {
    sleeps, clock := [], 0;
    var k := 0;
    while k < |work|
      invariant 0 <= k <= |work| && |sleeps| == k
      invariant forall j :: 0 <= j < k ==> sleeps[j] == SleepTime(work[j])
      invariant clock == Paced(work[..k])
    {
      var elapsed := work[k];
      var sleep := 0;
      if elapsed < TARGET_FRAME_TIME {
        sleep := TARGET_FRAME_TIME - elapsed;
      }
      assert work[..k + 1][..k] == work[..k];
      clock := clock + elapsed + sleep;
      sleeps := sleeps + [sleep];
      k := k + 1;
    }
    assert work[..k] == work;
    PacedIsTargetPlusOverruns(work);
  }
}
