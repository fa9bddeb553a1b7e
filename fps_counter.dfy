/**
 * A frames-per-second counter (convcomm/engine/util/FPSCounter.java): every
 * update counts one frame and takes the elapsed milliseconds off a one-second
 * timer; when the timer runs out, the frames counted so far become the
 * reported rate and the timer is wound up by another second. The frame
 * counts are Java ints (32-bit, wrapping); the timer is a long, modelled
 * without overflow.
 */
module FPSCounters {
  import opened Int32

  const SECOND: int := 1000

  /** The counter's fields: the last reported rate, the frames since, and the time left in this second. */
  datatype Counter = Counter(lastFPS: int32, frames: int32, timer: int)

  /** The state the constructor and reset give. */
  const Start: Counter := Counter(0, 0, SECOND)

  /** update(time): one more frame; on running out of time, report the frames and start the next second. */
  function Tick(c: Counter, time: int): Counter
  {
    var frames := Add(c.frames, 1);
    var timer := c.timer - time;
    if timer <= 0 then Counter(frames, 0, timer + SECOND) else Counter(c.lastFPS, frames, timer)
  }

  /** A sequence of updates, oldest first. */
  function Run(c: Counter, times: seq<int>): Counter
    decreases |times|
  {
    if times == [] then c else Tick(Run(c, times[..|times| - 1]), times[|times| - 1])
  }

  /** The time the updates took, in milliseconds. */
  function Elapsed(times: seq<int>): int
    decreases |times|
  {
    if times == [] then 0 else Elapsed(times[..|times| - 1]) + times[|times| - 1]
  }

  /** The timer holds part of a second, and each frame took at most a second. */
  predicate InSecond(c: Counter)
  {
    0 < c.timer <= SECOND
  }

  predicate FrameTimes(times: seq<int>)
  {
    forall k :: 0 <= k < |times| ==> 0 <= times[k] <= SECOND
  }

  class FPSCounter {
    var lastFPS: int32
    var frames: int32
    var timer: int

    function Snapshot(): Counter
      reads this
    {
      Counter(lastFPS, frames, timer)
    }

    constructor ()
      ensures Snapshot() == Start
    {
      lastFPS := 0;
      frames := 0;
      timer := SECOND;
    }

    method Reset()
      modifies this
      ensures Snapshot() == Start
    {
      lastFPS := 0;
      frames := 0;
      timer := SECOND;
    }

    method Update(time: int)
      modifies this
      ensures Snapshot() == Tick(old(Snapshot()), time)
      ensures old(InSecond(Snapshot())) && 0 <= time <= SECOND ==> InSecond(Snapshot())
    {
      frames := Add(frames, 1);
      timer := timer - time;
      if timer <= 0 {
        lastFPS := frames;
        frames := 0;
        timer := timer + SECOND;
      }
    }

    function GetLastFPS(): int32
      reads this
    {
      lastFPS
    }
  }

  /**
   * One update from inside a second: it rolls over exactly when the elapsed
   * time uses up the timer, reporting the frames counted including this one;
   * otherwise the report stays and the frame is counted.
   */
  lemma TickRollsOver(c: Counter, time: int)
    requires InSecond(c) && 0 <= time <= SECOND && c.frames as int < MAX
    ensures InSecond(Tick(c, time))
    ensures time >= c.timer ==> Tick(c, time) == Counter((c.frames as int + 1) as int32, 0, c.timer - time + SECOND)
    ensures time < c.timer ==> Tick(c, time) == Counter(c.lastFPS, (c.frames as int + 1) as int32, c.timer - time)
  {
  }

  /** Updates that each take at most a second keep the timer within a second. */
  lemma {:induction false} RunInSecond(c: Counter, times: seq<int>)
    requires InSecond(c) && FrameTimes(times)
    ensures InSecond(Run(c, times))
    decreases |times|
  {
    if times != [] {
      RunInSecond(c, times[..|times| - 1]);
    }
  }

  /**
   * Until the elapsed times add up to the time left, no rate is reported: the
   * frames are counted one per update and the timer goes down by their sum.
   */
  lemma {:induction false} RunWithinSecond(c: Counter, times: seq<int>)
    requires FrameTimes(times) && Elapsed(times) < c.timer
    requires c.frames as int + |times| <= MAX
    ensures Run(c, times) == Counter(c.lastFPS, (c.frames as int + |times|) as int32, c.timer - Elapsed(times))
    decreases |times|
  {
    if times != [] {
      var init := times[..|times| - 1];
      ElapsedNonNegative(init);
      RunWithinSecond(c, init);
    }
  }

  lemma {:induction false} ElapsedNonNegative(times: seq<int>)
    requires FrameTimes(times)
    ensures Elapsed(times) >= 0
    decreases |times|
  {
    if times != [] {
      ElapsedNonNegative(times[..|times| - 1]);
    }
  }
}
