/**
 * A looping frame animation (convcomm/engine/graphics/Animation.java): frames
 * are appended with a display duration, each frame records the running total
 * as its end time, and update advances the clock, wrapping at the total, and
 * moves to the frame whose time span holds the clock. The image type is left
 * abstract; Java's long arithmetic is modelled without overflow.
 */
module Animations {
  import opened Options

  datatype AnimFrame<Image> = AnimFrame(image: Image, endTime: int)

  /** The sum of a sequence of durations. */
  function Sum(ds: seq<int>): int
    decreases |ds|
  {
    if ds == [] then 0 else Sum(ds[..|ds| - 1]) + ds[|ds| - 1]
  }

  /** Frame k ends at the total of the first k + 1 durations. */
  ghost predicate PrefixSums<Image>(frames: seq<AnimFrame<Image>>, durations: seq<int>)
  {
    |frames| == |durations| && forall k :: 0 <= k < |frames| ==> frames[k].endTime == Sum(durations[..k + 1])
  }

  /**
   * The frame the clock t is on when the search starts at frame `from`: the
   * first frame from there whose end time is not before t.
   */
  function FrameFrom<Image>(frames: seq<AnimFrame<Image>>, t: int, from: int): (k: int)
    requires 0 <= from < |frames| && t <= frames[|frames| - 1].endTime
    ensures from <= k < |frames| && t <= frames[k].endTime
    ensures forall j :: from <= j < k ==> frames[j].endTime < t
    decreases |frames| - from
  {
    if t <= frames[from].endTime then from else FrameFrom(frames, t, from + 1)
  }

  /** The clock is inside the loop and the current frame is the first one that has not ended. */
  predicate OnFrame<Image>(frames: seq<AnimFrame<Image>>, t: int, k: int, total: int)
  {
    && 0 <= t < total
    && 0 <= k < |frames| && t <= frames[k].endTime
    && forall j :: 0 <= j < k ==> frames[j].endTime < t
  }

  /** A frame added with a duration ends at the old total plus that duration, keeping the end times running totals. */
  lemma PrefixSumsSnoc<Image>(frames: seq<AnimFrame<Image>>, durations: seq<int>, image: Image, duration: int)
    requires PrefixSums(frames, durations)
    ensures PrefixSums(frames + [AnimFrame(image, Sum(durations) + duration)], durations + [duration])
  {
    var fs, ds := frames + [AnimFrame(image, Sum(durations) + duration)], durations + [duration];
    assert ds[..|ds| - 1] == durations;
    forall k | 0 <= k < |fs|
      ensures fs[k].endTime == Sum(ds[..k + 1])
    {
      if k < |fs| - 1 {
        assert ds[..k + 1] == durations[..k + 1];
      } else {
        assert ds[..k + 1] == ds;
      }
    }
  }

  class Animation<Image> {
    var frames: seq<AnimFrame<Image>>
    var currFrameIndex: int
    var animTime: int
    var totalDuration: int
    /** The durations frames were added with. */
    ghost var durations: seq<int>

    /** End times are the running totals of the durations, and the current frame exists when any does. */
    ghost predicate Valid()
      reads this
    {
      && PrefixSums(frames, durations)
      && totalDuration == Sum(durations)
      && (frames != [] ==> frames[|frames| - 1].endTime == totalDuration)
      && (if frames == [] then currFrameIndex == 0 else 0 <= currFrameIndex < |frames|)
    }

    constructor ()
      ensures Valid() && frames == [] && totalDuration == 0
      ensures animTime == 0 && currFrameIndex == 0
    {
      frames := [];
      durations := [];
      totalDuration := 0;
      animTime := 0;
      currFrameIndex := 0;
    }

    /** Restarts the clock on the first frame. */
    method Start()
      requires Valid()
      modifies this
      ensures Valid() && animTime == 0 && currFrameIndex == 0
      ensures frames == old(frames) && totalDuration == old(totalDuration) && durations == old(durations)
    {
      animTime := 0;
      currFrameIndex := 0;
    }

    /** Appends a frame shown for `duration` milliseconds; its end time is the new total. */
    method AddFrame(image: Image, duration: int)
      requires Valid()
      modifies this
      ensures Valid()
      ensures totalDuration == old(totalDuration) + duration
      ensures frames == old(frames) + [AnimFrame(image, totalDuration)]
      ensures durations == old(durations) + [duration]
      ensures currFrameIndex == old(currFrameIndex) && animTime == old(animTime)
    {
      PrefixSumsSnoc(frames, durations, image, duration);
      totalDuration := totalDuration + duration;
      frames := frames + [AnimFrame(image, totalDuration)];
      durations := durations + [duration];
    }

    /**
     * Advances the clock by elapsedTime: with more than one frame the clock
     * wraps to the start of the loop once it reaches the total (restarting the
     * frame search from frame 0), and the current frame moves on to the first
     * one, from there, that has not ended. A division by a zero total in the
     * Java code is excluded by requiring a positive total.
     */
    method Update(elapsedTime: int)
      requires Valid() && (|frames| > 1 ==> totalDuration > 0)
      modifies this
      ensures Valid() && frames == old(frames) && totalDuration == old(totalDuration)
      ensures |frames| <= 1 ==> animTime == old(animTime) && currFrameIndex == old(currFrameIndex)
      ensures |frames| > 1 ==> animTime < totalDuration
      ensures |frames| > 1 ==>
        var t := old(animTime) + elapsedTime;
        var wrapped := t >= totalDuration;
        && animTime == (if wrapped then t % totalDuration else t)
        && currFrameIndex == FrameFrom(frames, animTime, if wrapped then 0 else old(currFrameIndex))
      ensures |frames| > 1 && elapsedTime >= 0 && old(OnFrame(frames, animTime, currFrameIndex, totalDuration)) ==>
        OnFrame(frames, animTime, currFrameIndex, totalDuration)
    {
      if |frames| > 1 {
        animTime := animTime + elapsedTime;
        if animTime >= totalDuration {
          animTime := animTime % totalDuration;
          currFrameIndex := 0;
        }
        SeekFrame();
      }
    }

    /** The search loop of update: steps the current frame on until the clock is within it. */
    method SeekFrame()
      requires Valid() && frames != [] && animTime < totalDuration
      modifies this`currFrameIndex
      ensures Valid() && currFrameIndex == FrameFrom(frames, animTime, old(currFrameIndex))
    {
      ghost var from := currFrameIndex;
      while animTime > frames[currFrameIndex].endTime
        invariant Valid()
        invariant from <= currFrameIndex < |frames|
        invariant FrameFrom(frames, animTime, from) == FrameFrom(frames, animTime, currFrameIndex)
        decreases |frames| - currFrameIndex
      {
        currFrameIndex := currFrameIndex + 1;
      }
    }

    /** The current frame's image, or None (null) when there are no frames. */
    function GetImage(): (r: Option<Image>)
      reads this
      requires Valid()
      ensures r.None? <==> frames == []
      ensures r.Some? ==> r.value == frames[currFrameIndex].image
    {
      if |frames| == 0 then None else Some(frames[currFrameIndex].image)
    }
  }

  /** With non-negative durations the end times never decrease, and the last one is the total. */
  lemma {:induction false} EndTimesOrdered<Image>(frames: seq<AnimFrame<Image>>, durations: seq<int>)
    requires PrefixSums(frames, durations)
    requires forall k :: 0 <= k < |durations| ==> durations[k] >= 0
    ensures forall i, j :: 0 <= i <= j < |frames| ==> 0 <= frames[i].endTime <= frames[j].endTime
    ensures frames != [] ==> frames[|frames| - 1].endTime == Sum(durations)
  {
    forall i, j | 0 <= i <= j < |frames|
      ensures 0 <= frames[i].endTime <= frames[j].endTime
    {
      SumMonotone(durations[..j + 1], i + 1);
      assert durations[..j + 1][..i + 1] == durations[..i + 1];
    }
    if frames != [] {
      assert durations[..|frames|] == durations;
    }
  }

  /** A prefix of non-negative durations sums to at most the whole, and at least 0. */
  lemma {:induction false} SumMonotone(ds: seq<int>, n: int)
    requires 0 <= n <= |ds| && forall k :: 0 <= k < |ds| ==> ds[k] >= 0
    ensures 0 <= Sum(ds[..n]) <= Sum(ds)
    decreases |ds|
  {
    if n < |ds| {
      var init := ds[..|ds| - 1];
      assert init[..n] == ds[..n];
      SumMonotone(init, n);
    } else {
      assert ds[..n] == ds;
      if ds != [] {
        SumMonotone(ds[..|ds| - 1], |ds| - 1);
        assert ds[..|ds| - 1][..|ds| - 1] == ds[..|ds| - 1];
      }
    }
  }
}
