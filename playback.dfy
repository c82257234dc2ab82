/** The control logic of `render_webp`: the choice between a static and an
    animated display, the schedule of frames and pauses of each animation
    cycle, the abort when a frame has no duration, and the stop rule checked
    after each complete cycle. Decoding and the display are reduced to "show
    frame i", sleeping to "pause for ms", and the wall clock to the elapsed
    time read after each cycle. */
module Rendering {
  import opened LittleEndian
  import opened Streams
  import opened WebpFrames

  datatype Option<T> = None | Some(value: T)

  /** One observable step: a frame committed to the display, or a pause. */
  datatype Event = Show(frame: nat) | Sleep(ms: nat)

  /** `Aborted`: indexing past the durations raised an error that ended the
      playback, caught by the handler around it. */
  datatype Outcome = Finished | Aborted

  datatype Playback = Playback(events: seq<Event>, outcome: Outcome)

  /** The mode test: animated when the image has a frame count above 1, so an
      image without a frame count, or with 0 or 1 frames, is shown static. */
  predicate IsAnimated(nFrames: Option<nat>): (b: bool)
    ensures b <==> nFrames !in {None, Some(0), Some(1)}
  {
    nFrames.Some? && nFrames.value > 1
  }

  /** The total of the durations, in milliseconds; no term exceeds it. */
  function Sum(d: seq<nat>): (s: nat)
    ensures forall i :: 0 <= i < |d| ==> d[i] <= s
  {
    if d == [] then 0 else Sum(d[..|d| - 1]) + d[|d| - 1]
  }

  /** How long playback must have lasted before it may stop: the update
      interval or the animation's own total length, whichever is longer. */
  function Threshold(intervalMs: nat, d: seq<nat>): (t: nat)
    ensures t >= intervalMs && t >= Sum(d)
    ensures t == intervalMs || t == Sum(d)
  {
    if intervalMs >= Sum(d) then intervalMs else Sum(d)
  }

  /** Frames 0 .. k-1 in order, each shown and then held for its duration. */
  function Schedule(d: seq<nat>, k: nat): (ev: seq<Event>)
    requires k <= |d|
    ensures |ev| == 2 * k
  {
    if k == 0 then [] else Schedule(d, k - 1) + [Show(k - 1), Sleep(d[k - 1])]
  }

  /** The j-th event of a schedule: frame j / 2 shown at even j, and its
      duration slept at odd j. */
  lemma {:induction false} ScheduleAt(d: seq<nat>, k: nat)
    requires k <= |d|
    ensures forall j :: 0 <= j < 2 * k ==> Schedule(d, k)[j] == if j % 2 == 0 then Show(j / 2) else Sleep(d[j / 2])
  {
    if k > 0 {
      ScheduleAt(d, k - 1);
      var ev := Schedule(d, k);
      forall j | 0 <= j < 2 * k
        ensures ev[j] == if j % 2 == 0 then Show(j / 2) else Sleep(d[j / 2])
      {
        if j < 2 * (k - 1) {
          assert ev[j] == Schedule(d, k - 1)[j];
        }
      }
    }
  }

  /** One animation cycle of `n` frames: each frame in order, shown and then
      held for its duration; when the durations run out first, frame `|d|` is
      shown and the indexing error aborts the playback. */
  function Cycle(n: nat, d: seq<nat>): (c: Playback)
    ensures c.outcome == Finished <==> n <= |d|
    ensures |c.events| == if n <= |d| then 2 * n else 2 * |d| + 1
  {
    if n <= |d| then Playback(Schedule(d, n), Finished)
    else Playback(Schedule(d, |d|) + [Show(|d|)], Aborted)
  }

  /** A cycle shows frames 0, 1, ... in order, each followed by a sleep of its
      own duration. */
  lemma CycleShape(n: nat, d: seq<nat>)
    ensures forall j :: 0 <= j < |Cycle(n, d).events| ==>
              Cycle(n, d).events[j] == if j % 2 == 0 then Show(j / 2) else Sleep(d[j / 2])
  {
    if n <= |d| {
      ScheduleAt(d, n);
    } else {
      ScheduleAt(d, |d|);
      var ev := Cycle(n, d).events;
      forall j | 0 <= j < |ev|
        ensures ev[j] == if j % 2 == 0 then Show(j / 2) else Sleep(d[j / 2])
      {
        if j < 2 * |d| {
          assert ev[j] == Schedule(d, |d|)[j];
        }
      }
    }
  }

  /** `ev` played `k` times over. */
  function Repeat(ev: seq<Event>, k: nat): (r: seq<Event>)
    ensures |r| == k * |ev|
    ensures k > 0 && ev != [] ==> r[0] == ev[0]
  {
    if k == 0 then [] else Repeat(ev, k - 1) + ev
  }

  /** Some elapsed-time reading reaches `threshold`. */
  predicate ClockReaches(readings: seq<nat>, threshold: nat)
  {
    exists k :: 0 <= k < |readings| && readings[k] >= threshold
  }

  /** The first reading that reaches `threshold`. */
  function FirstReaching(readings: seq<nat>, threshold: nat): (k: nat)
    requires ClockReaches(readings, threshold)
    ensures k < |readings| && readings[k] >= threshold
    ensures forall j :: 0 <= j < k ==> readings[j] < threshold
  {
    if readings[0] >= threshold then 0
    else
      assert ClockReaches(readings[1..], threshold) by {
        var k :| 0 <= k < |readings| && readings[k] >= threshold;
        assert readings[1..][k - 1] == readings[k];
      }
      FirstReaching(readings[1..], threshold) + 1
  }

  /** The loop ends: once cycles complete, some reading of the elapsed time
      taken after a cycle reaches the threshold. */
  predicate PlaybackEnds(n: nat, d: seq<nat>, intervalMs: nat, readings: seq<nat>)
  {
    n <= |d| ==> ClockReaches(readings, Threshold(intervalMs, d))
  }

  /** The animated path of `n` frames with durations `d`, where `readings[k]`
      is the elapsed time since `start_time` (taken just after the image is
      opened) read after cycle k + 1: cycles repeat until the
      first reading that reaches the threshold; a missing duration aborts in
      the first cycle. */
  function Animate(n: nat, d: seq<nat>, intervalMs: nat, readings: seq<nat>): (pb: Playback)
    requires PlaybackEnds(n, d, intervalMs, readings)
    ensures pb.outcome == Aborted <==> |d| < n
    ensures pb.outcome == Aborted ==> pb.events == Schedule(d, |d|) + [Show(|d|)]
    ensures pb.outcome == Finished ==>
              |pb.events| == (FirstReaching(readings, Threshold(intervalMs, d)) + 1) * (2 * n)
  {
    var c := Cycle(n, d);
    if c.outcome == Aborted then c
    else Playback(Repeat(c.events, FirstReaching(readings, Threshold(intervalMs, d)) + 1), Finished)
  }

  /** `render_webp` on an image of `nFrames` frames (None: no frame count)
      whose bytes are `data`. */
  function Render(nFrames: Option<nat>, data: seq<Byte>, intervalMs: nat, readings: seq<nat>): (pb: Playback)
    requires IsAnimated(nFrames) ==> PlaybackEnds(nFrames.value, FrameDurations(data), intervalMs, readings)
    ensures pb.events != [] && pb.events[0] == Show(0)
    ensures pb.outcome == Aborted <==> IsAnimated(nFrames) && |FrameDurations(data)| < nFrames.value
    ensures !IsAnimated(nFrames) ==> pb.events == [Show(0), Sleep(intervalMs)]
  {
    if IsAnimated(nFrames) then
      CycleShape(nFrames.value, FrameDurations(data));
      Animate(nFrames.value, FrameDurations(data), intervalMs, readings)
    else Playback([Show(0), Sleep(intervalMs)], Finished)
  }

  /** The time slept over `ev`, in milliseconds. */
  function SleepTotal(ev: seq<Event>): nat
  {
    if ev == [] then 0 else (if ev[0].Sleep? then ev[0].ms else 0) + SleepTotal(ev[1..])
  }

  lemma {:induction false} SleepTotalAppend(a: seq<Event>, b: seq<Event>)
    ensures SleepTotal(a + b) == SleepTotal(a) + SleepTotal(b)
  {
    if a != [] {
      assert (a + b)[1..] == a[1..] + b;
      SleepTotalAppend(a[1..], b);
    } else {
      assert a + b == b;
    }
  }

  /** A schedule of the first k frames sleeps for exactly their durations. */
  lemma {:induction false} ScheduleSleeps(d: seq<nat>, k: nat)
    requires k <= |d|
    ensures SleepTotal(Schedule(d, k)) == Sum(d[..k])
  {
    if k > 0 {
      ScheduleSleeps(d, k - 1);
      SleepTotalAppend(Schedule(d, k - 1), [Show(k - 1), Sleep(d[k - 1])]);
      var last := [Show(k - 1), Sleep(d[k - 1])];
      assert last[1..] == [Sleep(d[k - 1])] && [Sleep(d[k - 1])][1..] == [];
      assert SleepTotal([Sleep(d[k - 1])]) == d[k - 1];
      assert SleepTotal(last) == d[k - 1];
      assert d[..k][..k - 1] == d[..k - 1] && d[..k][k - 1] == d[k - 1];
    }
  }

  lemma {:induction false} RepeatSleeps(ev: seq<Event>, k: nat)
    ensures SleepTotal(Repeat(ev, k)) == k * SleepTotal(ev)
  {
    if k > 0 {
      RepeatSleeps(ev, k - 1);
      SleepTotalAppend(Repeat(ev, k - 1), ev);
      calc {
        SleepTotal(Repeat(ev, k));
        SleepTotal(Repeat(ev, k - 1)) + SleepTotal(ev);
        (k - 1) * SleepTotal(ev) + SleepTotal(ev);
        k * SleepTotal(ev);
      }
    }
  }

  /** A completed playback sleeps, in all, the number of cycles it played times
      the durations of the `n` frames: the same clock readings give the same
      total. */
  lemma AnimationSleeps(n: nat, d: seq<nat>, intervalMs: nat, readings: seq<nat>)
    requires PlaybackEnds(n, d, intervalMs, readings) && n <= |d|
    ensures SleepTotal(Animate(n, d, intervalMs, readings).events)
            == (FirstReaching(readings, Threshold(intervalMs, d)) + 1) * Sum(d[..n])
  {
    ScheduleSleeps(d, n);
    RepeatSleeps(Schedule(d, n), FirstReaching(readings, Threshold(intervalMs, d)) + 1);
  }

  /** The stop rule: a playback whose cycles complete consists of exactly
      `cycles` whole cycles if and only if `cycles` is at least 1, the elapsed
      time read after cycle `cycles` reaches max(interval, total duration),
      and no reading after an earlier cycle does. */
  lemma AnimationStopRule(n: nat, d: seq<nat>, intervalMs: nat, readings: seq<nat>, cycles: nat)
    requires PlaybackEnds(n, d, intervalMs, readings) && 0 < n <= |d|
    ensures Animate(n, d, intervalMs, readings) == Playback(Repeat(Schedule(d, n), cycles), Finished)
            <==> 1 <= cycles <= |readings| && readings[cycles - 1] >= Threshold(intervalMs, d)
                 && forall j :: 0 <= j < cycles - 1 ==> readings[j] < Threshold(intervalMs, d)
  {
    var stop := FirstReaching(readings, Threshold(intervalMs, d));
    if Animate(n, d, intervalMs, readings) == Playback(Repeat(Schedule(d, n), cycles), Finished) {
      RepeatCountUnique(Schedule(d, n), stop + 1, cycles);
    }
    if 1 <= cycles <= |readings| && readings[cycles - 1] >= Threshold(intervalMs, d)
       && forall j :: 0 <= j < cycles - 1 ==> readings[j] < Threshold(intervalMs, d)
    {
      assert stop == cycles - 1;
    }
  }

  /** A non-empty cycle repeated a different number of times gives a
      different sequence of events. */
  lemma {:induction false} RepeatCountUnique(ev: seq<Event>, a: nat, b: nat)
    requires ev != [] && Repeat(ev, a) == Repeat(ev, b)
    ensures a == b
  {
    if a > 0 && b > 0 {
      var ra, rb := Repeat(ev, a), Repeat(ev, b);
      assert Repeat(ev, a - 1) == ra[..|ra| - |ev|];
      assert Repeat(ev, b - 1) == rb[..|rb| - |ev|];
      RepeatCountUnique(ev, a - 1, b - 1);
    }
  }

  /** An animation at least as long as the update interval, with a duration
      for every frame, plays exactly once: the clock read after the first cycle
      has passed at least the cycle's own sleeps. */
  lemma LongAnimationPlaysOnce(n: nat, d: seq<nat>, intervalMs: nat, readings: seq<nat>)
    requires n == |d| && intervalMs <= Sum(d)
    requires |readings| > 0 && readings[0] >= Sum(d)
    ensures PlaybackEnds(n, d, intervalMs, readings)
    ensures Animate(n, d, intervalMs, readings) == Playback(Schedule(d, n), Finished)
  {
  }

  /** The animated loop: cycle after cycle, show each frame and sleep for its
      duration, and after each complete cycle stop once the elapsed time
      reaches the threshold. */
  method AnimationLoop(n: nat, frameDurations: seq<nat>, intervalMs: nat, elapsedAfterCycle: seq<nat>)
    returns (events: seq<Event>, outcome: Outcome)
    requires PlaybackEnds(n, frameDurations, intervalMs, elapsedAfterCycle)
    ensures Playback(events, outcome) == Animate(n, frameDurations, intervalMs, elapsedAfterCycle)
  {
    var totalDuration := Sum(frameDurations);
    events := [];
    var animationCount := 0;
    while true
      invariant animationCount <= |elapsedAfterCycle|
      invariant n <= |frameDurations| ==> animationCount < |elapsedAfterCycle|
      invariant forall j :: 0 <= j < animationCount ==> elapsedAfterCycle[j] < Threshold(intervalMs, frameDurations)
      invariant animationCount > 0 ==> n <= |frameDurations| && events == Repeat(Schedule(frameDurations, n), animationCount)
      invariant animationCount == 0 ==> events == []
      decreases |elapsedAfterCycle| - animationCount
    {
      ghost var before := events;
      animationCount := animationCount + 1;
      var frame := 0;
      while frame < n
        invariant frame <= n && frame <= |frameDurations|
        invariant events == before + Schedule(frameDurations, frame)
      {
        events := events + [Show(frame)];
        if frame >= |frameDurations| {
          // frame_durations[frame] raises; the error ends the whole playback
          outcome := Aborted;
          assert animationCount == 1 && before == [];
          assert Cycle(n, frameDurations) == Playback(events, Aborted);
          return;
        }
        events := events + [Sleep(frameDurations[frame])];
        frame := frame + 1;
      }
      var elapsed := elapsedAfterCycle[animationCount - 1];
      assert events == Repeat(Schedule(frameDurations, n), animationCount);
      if elapsed >= Max(intervalMs, totalDuration) {
        outcome := Finished;
        assert FirstReaching(elapsedAfterCycle, Threshold(intervalMs, frameDurations)) == animationCount - 1;
        break;
      }
      ghost var stop := FirstReaching(elapsedAfterCycle, Threshold(intervalMs, frameDurations));
      assert animationCount <= stop;
    }
  }

  /** `render_webp`: a static image is shown once and held for the update
      interval without reading the durations; an animation has its stream
      rewound, its durations extracted and is then played. */
  method RenderWebp(webp: ByteStream, nFrames: Option<nat>, intervalMs: nat, elapsedAfterCycle: seq<nat>)
    returns (events: seq<Event>, outcome: Outcome)
    requires IsAnimated(nFrames) ==> PlaybackEnds(nFrames.value, FrameDurations(webp.data), intervalMs, elapsedAfterCycle)
    modifies webp
    ensures Playback(events, outcome) == Render(nFrames, webp.data, intervalMs, elapsedAfterCycle)
    ensures webp.pos == if IsAnimated(nFrames) then Walk(webp.data, RiffHeaderSize).cursor else old(webp.pos)
  {
    var isAnimated := nFrames.Some? && nFrames.value > 1;
    if isAnimated {
      webp.Seek(0);
      var frameDurations := ExtractFrameDurations(webp);
      events, outcome := AnimationLoop(nFrames.value, frameDurations, intervalMs, elapsedAfterCycle);
    } else {
      events, outcome := [Show(0), Sleep(intervalMs)], Finished;
    }
  }
}
