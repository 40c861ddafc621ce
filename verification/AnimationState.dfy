/** `AnimationState` of `FrameAnimator.h`: where an animation is, updated in place. */
module AnimationState {
  import opened Geometry
  import opened Animation
  import opened Wrappers
  import opened AnimationClock

  /** What a refresh did, merged over its steps. */
  datatype RefreshResult = RefreshResult(dirty: IntRect, advanced: bool, finished: bool) {
    function Accumulate(other: RefreshResult): RefreshResult {
      RefreshResult(dirty.Union(other.dirty), advanced || other.advanced, finished || other.finished)
    }
  }

  const NOTHING := RefreshResult(IntRect(0, 0, 0, 0), false, false)

  class State {
    var firstFrameRefreshArea: IntRect
    var time: int
    var frameCount: nat
    var index: nat
    var loopRemaining: int
    var loopCount: int
    var loopLength: Option<Timeout>
    var mode: Mode
    var done: bool
    /** How often the animation has gone back to its first frame by itself, how often it did so before it
        counted, and from what count it counts down. */
    ghost var wraps: nat
    ghost var uncounted: nat
    ghost var counted: nat

    constructor (m: Mode)
      ensures Valid() && mode == m && frameCount == 0 && index == 0 && wraps == uncounted == 0 && !done &&
              loopRemaining == -1
      ensures loopCount == -1 && loopLength == None && time == 0 && firstFrameRefreshArea == IntRect(0, 0, 0, 0)
    {
      firstFrameRefreshArea, time, frameCount, index := IntRect(0, 0, 0, 0), 0, 0, 0;
      loopRemaining, loopCount, loopLength, mode, done := -1, -1, None, m, false;
      wraps, uncounted, counted := 0, 0, 0;
    }

    /** The index is one of a known frame, and once the animation counts it wraps no more often than the count
        says. Wraps go uncounted only while the loop count is endless. */
    ghost predicate Valid()
      reads this
    {
      && index < Max(1, frameCount)
      && -1 <= loopRemaining
      && (if loopRemaining < 0 then wraps == uncounted else wraps + loopRemaining <= uncounted + counted)
      && (loopLength.Some? ==> loopLength.value.Positive())
    }

    function View(): Clock
      reads this
    {
      Clock(index, time, loopRemaining)
    }

    function FrameCount(): Option<nat>
      reads this
    {
      if done then Some(frameCount) else None
    }

    /** Decides which frame comes next, counting a loop down at its end. */
    method TakeTurn() returns (nextFrameIndex: nat, finished: bool)
      requires Valid()
      modifies this`loopRemaining, this`counted
      ensures Valid()
      ensures Turn(nextFrameIndex, loopRemaining, finished) ==
              NextTurn(done, frameCount, loopCount, mode, index, old(loopRemaining))
      ensures counted == if old(loopRemaining) < 0 && loopRemaining >= 0 then loopCount else old(counted)
      ensures nextFrameIndex == 0 && !finished ==> MayWrap()
      ensures old(Counts()) ==> Counts()
    {
      nextFrameIndex, finished := index + 1, false;
      if FrameCount() == Some(nextFrameIndex) {
        if loopRemaining < 0 && loopCount >= 0 {
          loopRemaining := loopCount;
          counted := loopCount;
        }
        if mode == LoopOnce || loopRemaining == 0 {
          finished := true;
        }
        nextFrameIndex := 0;
        if loopRemaining > 0 {
          loopRemaining := loopRemaining - 1;
        }
      }
    }

    /** A wrap was just counted down, or need not be. */
    ghost predicate MayWrap()
      reads this`loopRemaining, this`loopCount, this`wraps, this`uncounted, this`counted
    {
      if loopRemaining < 0 then loopCount < 0 else wraps + 1 + loopRemaining <= uncounted + counted
    }

    /** Moves to a frame at the time the last one ended, nearer to `t` by whole loops where they fit. */
    method Arrive(nextFrameIndex: nat, end: int, t: int, loopTime: Timeout)
      requires Valid() && nextFrameIndex < frameCount && loopTime.Positive()
      requires nextFrameIndex == 0 ==> MayWrap()
      modifies this`time, this`index, this`wraps, this`uncounted
      ensures Valid() && index == nextFrameIndex && time == end + WholeLoops(loopTime, t - end)
      ensures wraps == old(wraps) + if nextFrameIndex == 0 then 1 else 0
      ensures uncounted == old(uncounted) + if nextFrameIndex == 0 && loopRemaining < 0 then 1 else 0
      ensures old(Counts()) ==> Counts()
    {
      time := end;
      if loopTime != Forever {
        var delay := t - time;
        if delay > loopTime.ms {
          var loops := delay / loopTime.ms;
          time := time + loops * loopTime.ms;
        }
      }
      index := nextFrameIndex;
      if nextFrameIndex == 0 {
        wraps := wraps + 1;
        if loopRemaining < 0 {
          uncounted := uncounted + 1;
        }
      }
    }

    method SetDoneDecoding(d: bool)
      modifies this`done
      ensures done == d
    {
      done := d;
    }

    /** Restarts from the first frame; loops already counted stay counted. */
    method ResetAnimation()
      requires Valid()
      modifies this`index
      ensures Valid() && index == 0
    {
      index := 0;
    }

    /** A count seen before changes nothing, since a redecode reports the same frames again. */
    method UpdateKnownFrameCount(count: nat)
      requires Valid()
      requires count > frameCount ==> !done && count == frameCount + 1
      modifies this`frameCount
      ensures Valid() && frameCount == Max(old(frameCount), count)
    {
      if count <= frameCount {
        return;
      }
      frameCount := count;
    }

    /** The count matters until counting starts; a count reported later changes nothing any more. */
    method SetLoopCount(count: int)
      requires Valid()
      modifies this`loopCount
      ensures Valid() && loopCount == count
      ensures count >= 0 && old(uncounted == 0 && (loopRemaining < 0 || (Counts() && count == loopCount))) ==> Counts()
    {
      loopCount := count;
    }

    /** The animation was given its loop count before it ever wrapped. */
    ghost predicate Counts()
      reads this`loopRemaining, this`loopCount, this`uncounted, this`counted
    {
      loopCount >= 0 && uncounted == 0 && (loopRemaining >= 0 ==> counted == loopCount)
    }

    /** Then it goes back to its first frame at most that often. */
    lemma {:induction false} WrapsAreBounded()
      requires Valid() && Counts()
      ensures wraps <= loopCount
    {
    }

    method SetLoopLength(length: Timeout)
      requires Valid() && length.Positive()
      modifies this`loopLength
      ensures Valid() && loopLength == Some(length)
    {
      loopLength := Some(length);
    }

    method SetFirstFrameRefreshArea(area: IntRect)
      modifies this`firstFrameRefreshArea
      ensures firstFrameRefreshArea == area
    {
      firstFrameRefreshArea := area;
    }

    method SetAnimationFrameTime(t: int)
      requires Valid()
      modifies this`time
      ensures Valid() && time == t
    {
      time := t;
    }
  }
}
