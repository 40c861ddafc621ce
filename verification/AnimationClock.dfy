/** The animation clock of `FrameAnimator::AdvanceFrame` as a function on clock values, and how its
    whole-loop jump relates to stepping one frame at a time. */
module AnimationClock {
  import opened Animation
  import opened Wrappers

  datatype Mode = Normal | DontAnimate | LoopOnce

  /** What stays fixed while one refresh runs: the frames known to the state, the timeouts of all
      frames, and how many finished frames the surface cache can supply. */
  datatype Schedule = Schedule(known: nat, done: bool, loopCount: int, loopLength: Option<Timeout>, mode: Mode,
                               timeouts: seq<Timeout>, cached: nat) {

    ghost predicate Valid() {
      && known <= |timeouts| && cached <= |timeouts|
      && (loopLength.Some? ==> done && loopLength.value.Positive())
      && forall i :: 0 <= i < |timeouts| ==> timeouts[i].Positive()
    }

    /** A frame that cannot be supplied counts as 100 milliseconds. */
    function TimeoutOf(i: nat): (t: Timeout)
      requires Valid()
      ensures t.Positive()
    {
      if i < cached then timeouts[i] else Ms(100)
    }

    function LoopLength(): Timeout {
      if loopLength == None || mode != Normal then Forever else loopLength.value
    }
  }

  datatype Clock = Clock(index: nat, time: int, remaining: int)

  const YEAR := 31_536_000_000

  /** When the current frame ends. An endless frame ends a year from now, which no refresh reaches. */
  function EndTime(s: Schedule, c: Clock, now: int): int
    requires s.Valid()
  {
    match s.TimeoutOf(c.index)
    case Forever => now + YEAR
    case Ms(ms) => c.time + ms
  }

  datatype Outcome = Outcome(clock: Clock, moved: bool, finished: bool)

  /** As many whole loops as fit strictly inside the delay. */
  function WholeLoops(loop: Timeout, delay: int): int
    requires loop.Positive()
  {
    if loop.Ms? && delay > loop.ms then delay / loop.ms * loop.ms else 0
  }

  /** The frame that comes next, the loops then left, and whether the animation is over. */
  datatype Turn = Turn(next: nat, remaining: int, stop: bool)

  function NextTurn(done: bool, known: nat, loopCount: int, mode: Mode, index: nat, remaining: int): Turn {
    if done && known == index + 1 then
      var rem := if remaining < 0 && loopCount >= 0 then loopCount else remaining;
      Turn(0, if rem > 0 then rem - 1 else rem, mode == LoopOnce || rem == 0)
    else Turn(index + 1, remaining, false)
  }

  /** One call of `AdvanceFrame` for the refresh time `t`. */
  function Advance(s: Schedule, c: Clock, t: int, now: int): Outcome
    requires s.Valid()
  {
    var turn := NextTurn(s.done, s.known, s.loopCount, s.mode, c.index, c.remaining);
    if turn.stop then Outcome(c.(remaining := turn.remaining), false, true)
    else if turn.next >= s.known then Outcome(Clock(c.index, t, turn.remaining), false, false)
    else if turn.next >= s.cached then Outcome(c.(remaining := turn.remaining), false, false)
    else
      var end := EndTime(s, c, now);
      Outcome(Clock(turn.next, end + WholeLoops(s.LoopLength(), t - end), turn.remaining), true,
              s.TimeoutOf(turn.next) == Forever)
  }

  /** A refresh may run `Advance` again: the frame moved, or its end time did. */
  ghost predicate Due(s: Schedule, c: Clock, t: int, now: int) {
    s.Valid() && t <= now && EndTime(s, c, now) <= t
  }

  /** Every turn of the refresh loop that is not the last brings the frame time nearer to `t`. */
  lemma {:induction false} AdvanceMakesProgress(s: Schedule, c: Clock, t: int, now: int)
    requires Due(s, c, t, now)
    ensures c.time < t
    ensures var o := Advance(s, c, t, now);
            o.moved || EndTime(s, o.clock, now) != EndTime(s, c, now) ==> c.time < o.clock.time <= t
  {
    var loop, delay := s.LoopLength(), t - EndTime(s, c, now);
    if loop.Ms? && delay > loop.ms {
      LoopsFit(delay, loop.ms);
    }
  }

  lemma {:induction false} LoopsFit(delay: int, loop: int)
    requires 0 < loop < delay
    ensures 0 < delay / loop * loop <= delay
  {
  }

  /** The refresh goes to another frame: the current one has ended, is not the last one to be shown, and the next is
      known and at hand. */
  ghost predicate MovesOn(s: Schedule, c: Clock, t: int, now: int)
    requires s.Valid()
  {
    var wrap := s.done && s.known == c.index + 1;
    var next := if wrap then 0 else c.index + 1;
    && EndTime(s, c, now) <= t && next < s.known && next < s.cached
    && (wrap ==> s.mode != LoopOnce && (if c.remaining < 0 then s.loopCount else c.remaining) != 0)
  }

  // Single stepping

  /** A forever-looping animation whose frames are all decoded and all end, with the loop length that
      the decoder adds up. */
  ghost predicate Endless(s: Schedule) {
    && s.Valid() && s.done && s.mode == Normal && s.loopCount < 0
    && 0 < |s.timeouts| == s.known == s.cached
    && (forall i :: 0 <= i < |s.timeouts| ==> s.timeouts[i].Ms?)
    && s.loopLength == Some(Ms(Sum(s, 0, |s.timeouts|)))
  }

  /** The time from the start of frame `i` to the start of frame `j`. */
  ghost function Sum(s: Schedule, i: nat, j: nat): nat
    requires i <= j <= |s.timeouts| && forall k :: 0 <= k < |s.timeouts| ==> s.timeouts[k].Ms?
    decreases j - i
  {
    if i == j then 0 else s.timeouts[i].ms + Sum(s, i + 1, j)
  }

  /** Where one frame after another leads by time `t`. */
  ghost function Settle(s: Schedule, i: nat, time: int, t: int): (nat, int)
    requires Endless(s) && i < |s.timeouts|
    decreases t - time
  {
    var end := time + s.timeouts[i].ms;
    if end > t then (i, time)
    else Settle(s, if i + 1 == |s.timeouts| then 0 else i + 1, end, t)
  }

  /** Stepping from frame `i` on to frame `j` without passing the end, when all of it is due. */
  lemma {:induction false} SettleWalk(s: Schedule, i: nat, j: nat, time: int, t: int)
    requires Endless(s) && i < |s.timeouts| && i <= j <= |s.timeouts| && time + Sum(s, i, j) <= t
    ensures Settle(s, i, time, t) ==
            Settle(s, if j == |s.timeouts| then 0 else j, time + Sum(s, i, j), t)
    decreases j - i
  {
    if i < j {
      if i + 1 < |s.timeouts| {
        SettleWalk(s, i + 1, j, time + s.timeouts[i].ms, t);
      } else {
        assert Sum(s, i + 1, j) == 0;
      }
    }
  }

  lemma {:induction false} SumSplit(s: Schedule, i: nat, j: nat, k: nat)
    requires i <= j <= k <= |s.timeouts| && forall k :: 0 <= k < |s.timeouts| ==> s.timeouts[k].Ms?
    ensures Sum(s, i, k) == Sum(s, i, j) + Sum(s, j, k)
    decreases j - i
  {
    if i < j {
      SumSplit(s, i + 1, j, k);
    }
  }

  /** Starting later by whole loops that are due anyway leads to the same frame at the same time. */
  lemma {:induction false} SettleLoops(s: Schedule, i: nat, time: int, t: int, loops: nat)
    requires Endless(s) && i < |s.timeouts| && time + loops * s.loopLength.value.ms <= t
    ensures Settle(s, i, time, t) == Settle(s, i, time + loops * s.loopLength.value.ms, t)
    decreases loops
  {
    if loops > 0 {
      var n, length := |s.timeouts|, s.loopLength.value.ms;
      assert loops * length == (loops - 1) * length + length;
      assert (loops - 1) * length >= 0;
      SumSplit(s, 0, i, n);
      SettleWalk(s, i, n, time, t);
      SettleWalk(s, 0, i, time + Sum(s, i, n), t);
      SettleLoops(s, i, time + length, t, loops - 1);
    }
  }

  /** Jumping whole loops agrees with single stepping. */
  lemma {:induction false} AdvanceSettles(s: Schedule, c: Clock, t: int, now: int)
    requires Endless(s) && Due(s, c, t, now) && c.index < s.known && c.remaining < 0
    ensures var o := Advance(s, c, t, now);
            o.moved && o.clock.index < s.known && o.clock.remaining == c.remaining &&
            Settle(s, o.clock.index, o.clock.time, t) == Settle(s, c.index, c.time, t)
  {
    var o := Advance(s, c, t, now);
    var loop, end := s.loopLength.value.ms, EndTime(s, c, now);
    var next := if c.index + 1 == s.known then 0 else c.index + 1;
    assert Settle(s, c.index, c.time, t) == Settle(s, next, end, t);
    if t - end > loop {
      LoopsFit(t - end, loop);
      SettleLoops(s, next, end, t, (t - end) / loop);
    }
  }

  /** With nothing more due, stepping stays where it is. */
  lemma {:induction false} SettledAtEnd(s: Schedule, c: Clock, t: int, now: int)
    requires Endless(s) && c.index < s.known && t <= now && EndTime(s, c, now) > t
    ensures Settle(s, c.index, c.time, t) == (c.index, c.time)
  {
  }

  /** All of one refresh: advance until the current frame lasts past `t` or nothing moves any more. */
  ghost function Refresh(s: Schedule, c: Clock, t: int, now: int): Clock
    requires s.Valid() && t <= now
    decreases t - c.time
  {
    if EndTime(s, c, now) > t then c
    else
      AdvanceMakesProgress(s, c, t, now);
      var o := Advance(s, c, t, now);
      if !o.moved && EndTime(s, o.clock, now) == EndTime(s, c, now) then o.clock else Refresh(s, o.clock, t, now)
  }

  /** A refresh with its whole-loop jumps ends where single stepping ends. */
  lemma {:induction false} RefreshSettles(s: Schedule, c: Clock, t: int, now: int)
    requires Endless(s) && c.index < s.known && c.remaining < 0 && t <= now
    ensures var r := Refresh(s, c, t, now);
            (r.index, r.time) == Settle(s, c.index, c.time, t) && r.index < s.known
    ensures !Finishes(s, c, t, now)
    decreases t - c.time
  {
    if EndTime(s, c, now) > t {
      SettledAtEnd(s, c, t, now);
    } else {
      AdvanceSettles(s, c, t, now);
      AdvanceMakesProgress(s, c, t, now);
      RefreshSettles(s, Advance(s, c, t, now).clock, t, now);
    }
  }

  // Counted loops

  /** All frames are decoded and can be supplied, and all of them end. */
  ghost predicate Complete(s: Schedule) {
    && s.Valid() && s.done && 0 < |s.timeouts| == s.known == s.cached
    && (forall i :: 0 <= i < |s.timeouts| ==> s.timeouts[i].Ms?)
    && s.loopLength == Some(Ms(Sum(s, 0, |s.timeouts|)))
  }

  /** Something limits how often the animation may still go back to its first frame. */
  ghost predicate Limited(s: Schedule, remaining: int) {
    s.mode == LoopOnce || s.loopCount >= 0 || remaining >= 0
  }

  /** How often it still may: never in the mode that plays once, the loop count before the first time, and after
      that what is left of it. */
  function Left(s: Schedule, remaining: int): int {
    if s.mode == LoopOnce then 0 else if remaining < 0 then s.loopCount else remaining
  }

  /** Where the animation is, how often it may still go back, and whether it is over. */
  datatype Stop = Stop(index: nat, time: int, left: int, over: bool)

  /** Playing one frame after another until time `t`, and ending with the last frame when no pass is left. */
  ghost function PlayThrough(s: Schedule, i: nat, time: int, left: int, t: int): Stop
    requires Complete(s) && i < |s.timeouts| && left >= 0
    decreases t - time
  {
    var end := time + s.timeouts[i].ms;
    if end > t then Stop(i, time, left, false)
    else if i + 1 < |s.timeouts| then PlayThrough(s, i + 1, end, left, t)
    else if left > 0 then PlayThrough(s, 0, end, left - 1, t)
    else Stop(i, time, 0, true)
  }

  /** Whether a refresh reports that the animation has ended. */
  ghost predicate Finishes(s: Schedule, c: Clock, t: int, now: int)
    requires s.Valid() && t <= now
    decreases t - c.time
  {
    EndTime(s, c, now) <= t &&
    (AdvanceMakesProgress(s, c, t, now);
     var o := Advance(s, c, t, now);
     o.finished || ((o.moved || EndTime(s, o.clock, now) != EndTime(s, c, now)) && Finishes(s, o.clock, t, now)))
  }

  /** The current frame is the last one of the last pass. */
  ghost predicate Ending(s: Schedule, c: Clock) {
    c.index + 1 == |s.timeouts| && Left(s, c.remaining) == 0
  }

  /** What a late refresh skips: whole loops beyond the first delay, which are not counted. */
  ghost function Skipped(s: Schedule, c: Clock, t: int): int
    requires Complete(s) && c.index < |s.timeouts|
  {
    var late := t - (c.time + s.timeouts[c.index].ms);
    if late < 0 || Ending(s, c) then 0 else WholeLoops(s.LoopLength(), late)
  }

  lemma {:induction false} LoopIsPositive(s: Schedule, i: nat)
    requires Complete(s) && i <= |s.timeouts|
    ensures i < |s.timeouts| ==> Sum(s, i, |s.timeouts|) > 0
  {
    if i < |s.timeouts| {
      assert s.timeouts[i].Positive();
    }
  }

  /** After whole loops were skipped no whole loop is due any more. */
  lemma {:induction false} SkipsOnce(loop: Timeout, delay: int)
    requires loop.Ms? && loop.ms > 0 && delay >= 0
    ensures 0 <= WholeLoops(loop, delay) <= delay && delay - WholeLoops(loop, delay) <= loop.ms
  {
    if delay > loop.ms {
      var k := delay / loop.ms;
      assert delay == k * loop.ms + delay % loop.ms;
    }
  }

  /** One turn of the clock plays one frame, later by what it skips. */
  lemma {:induction false} AdvancePlays(s: Schedule, c: Clock, t: int, now: int)
    requires Complete(s) && Limited(s, c.remaining) && c.index < |s.timeouts| && Due(s, c, t, now)
    ensures var o := Advance(s, c, t, now); var k := Skipped(s, c, t);
            && Limited(s, o.clock.remaining) && o.finished == Ending(s, c) && o.moved == !Ending(s, c)
            && (Ending(s, c) ==> o.clock.index == c.index && o.clock.time == c.time && Left(s, o.clock.remaining) == 0)
            && (!Ending(s, c) ==>
                  && o.clock.index == (if c.index + 1 < |s.timeouts| then c.index + 1 else 0)
                  && o.clock.time == c.time + s.timeouts[c.index].ms + k
                  && Left(s, o.clock.remaining) == Left(s, c.remaining) - (if o.clock.index == 0 then 1 else 0)
                  && k >= 0 && o.clock.time <= t
                  && (s.mode == Normal ==> t - o.clock.time <= s.loopLength.value.ms))
  {
    if s.mode == Normal {
      LoopIsPositive(s, 0);
      var late := t - (c.time + s.timeouts[c.index].ms);
      SkipsOnce(s.LoopLength(), late);
    }
    hide WholeLoops;
  }

  /** A pass is to begin, and the first frame cannot be supplied just then. */
  ghost predicate LosesPass(s: Schedule, c: Clock) {
    s.mode != LoopOnce && s.done && s.known == c.index + 1 && Left(s, c.remaining) > 0 && s.cached == 0
  }

  /** Every pass counted down is one that begins, unless the first frame cannot be supplied when it should. */
  lemma {:induction false} PassesAreCountedIff(s: Schedule, c: Clock, t: int, now: int)
    requires s.Valid() && Limited(s, c.remaining)
    ensures var o := Advance(s, c, t, now);
            && Limited(s, o.clock.remaining)
            && (Left(s, o.clock.remaining) + (if o.moved && o.clock.index == 0 then 1 else 0) ==
                Left(s, c.remaining) <==>
                !LosesPass(s, c))
  {
  }

  /** At the end of the first of two passes, with no frame at hand: the second pass is counted and not begun. */
  lemma {:induction false} PassIsLost()
    ensures var s := SHOWN_TWICE.(cached := 0);
            s.Valid() && Advance(s, Clock(1, 100, -1), 200, 200) == Outcome(Clock(1, 100, 0), false, false)
  {
  }

  lemma {:induction false} NothingSkipped(s: Schedule, c: Clock, t: int)
    requires Complete(s) && c.index < |s.timeouts| && (s.mode == Normal ==> t - c.time <= s.loopLength.value.ms)
    ensures Skipped(s, c, t) == 0
  {
    assert s.timeouts[c.index].Positive();
  }

  /** A refresh of a limited animation plays one frame after another, from as much later as it skips, and reports the
      end exactly when that ends. */
  lemma {:induction false} RefreshPlays(s: Schedule, c: Clock, t: int, now: int)
    requires Complete(s) && Limited(s, c.remaining) && c.index < |s.timeouts| && t <= now
    ensures var r := Refresh(s, c, t, now);
            var stop := PlayThrough(s, c.index, c.time + Skipped(s, c, t), Left(s, c.remaining), t);
            && stop == Stop(r.index, r.time, Left(s, r.remaining), Finishes(s, c, t, now))
            && Limited(s, r.remaining)
    decreases t - c.time
  {
    if EndTime(s, c, now) <= t {
      AdvancePlays(s, c, t, now);
      AdvanceMakesProgress(s, c, t, now);
      var next := Advance(s, c, t, now).clock;
      if !Ending(s, c) {
        RefreshPlays(s, next, t, now);
        NothingSkipped(s, next, t);
      }
    }
    hide Advance;
    hide WholeLoops;
  }

  /** Playing on stops in a frame that lasts past `t`, or else is over, with the last frame and no pass left. */
  lemma {:induction false} OverIff(s: Schedule, i: nat, time: int, left: int, t: int)
    requires Complete(s) && i < |s.timeouts| && left >= 0
    ensures var stop := PlayThrough(s, i, time, left, t);
            && stop.index < |s.timeouts| && 0 <= stop.left <= left
            && (stop.over <==> stop.time + s.timeouts[stop.index].ms <= t)
            && (stop.over ==> stop.index + 1 == |s.timeouts| && stop.left == 0)
    decreases t - time
  {
    var end := time + s.timeouts[i].ms;
    assert s.timeouts[i].Positive();
    if end <= t {
      if i + 1 < |s.timeouts| {
        OverIff(s, i + 1, end, left, t);
      } else if left > 0 {
        OverIff(s, 0, end, left - 1, t);
      }
    }
  }

  /** How long playing on takes is settled by the frames and passes it goes through. */
  lemma {:induction false} PlayTakes(s: Schedule, i: nat, time: int, left: int, t: int)
    requires Complete(s) && i < |s.timeouts| && left >= 0
    ensures var stop := PlayThrough(s, i, time, left, t);
            && stop.index < |s.timeouts|
            && stop.time == time + (left - stop.left) * s.loopLength.value.ms + Sum(s, 0, stop.index) - Sum(s, 0, i)
    decreases t - time
  {
    var end := time + s.timeouts[i].ms;
    assert s.timeouts[i].Positive();
    SumSplit(s, 0, i, i + 1);
    if end <= t {
      if i + 1 < |s.timeouts| {
        PlayTakes(s, i + 1, end, left, t);
      } else if left > 0 {
        PlayTakes(s, 0, end, left - 1, t);
        var stop := PlayThrough(s, 0, end, left - 1, t);
        var length := s.loopLength.value.ms;
        assert (left - stop.left) * length == (left - 1 - stop.left) * length + length;
      }
    }
  }

  /** The animation keeps to its loop count in time exactly when no refresh comes later than a whole loop, or the
      last pass is over anyway. */
  lemma {:induction false} RefreshIsOnTimeIff(s: Schedule, c: Clock, t: int, now: int)
    requires Complete(s) && Limited(s, c.remaining) && c.index < |s.timeouts| && t <= now
    ensures var r := Refresh(s, c, t, now);
            PlayThrough(s, c.index, c.time, Left(s, c.remaining), t) ==
            Stop(r.index, r.time, Left(s, r.remaining), Finishes(s, c, t, now)) <==>
            || s.mode != Normal || Ending(s, c)
            || t - (c.time + s.timeouts[c.index].ms) <= s.loopLength.value.ms
  {
    RefreshPlays(s, c, t, now);
    PlayTakes(s, c.index, c.time, Left(s, c.remaining), t);
    PlayTakes(s, c.index, c.time + Skipped(s, c, t), Left(s, c.remaining), t);
    LoopIsPositive(s, 0);
    var late, length := t - (c.time + s.timeouts[c.index].ms), s.loopLength.value.ms;
    if s.mode == Normal && late > length {
      LoopsFit(late, length);
    }
    hide Refresh;
    hide Finishes;
    hide PlayThrough;
  }

  /** Two frames of 100 milliseconds, to be shown twice. */
  const SHOWN_TWICE := Schedule(2, true, 1, Some(Ms(200)), Normal, [Ms(100), Ms(100)], 2)

  lemma {:induction false} ShownTwice(time: int, t: int)
    ensures var s := SHOWN_TWICE;
            && Complete(s)
            && (time + 400 <= t ==> PlayThrough(s, 0, time, 1, t) == Stop(1, time + 300, 0, true))
            && (time + 200 <= t < time + 300 ==> PlayThrough(s, 0, time, 1, t) == Stop(0, time + 200, 0, false))
  {
    var s := SHOWN_TWICE;
    assert Sum(s, 1, 2) == 100;
    if time + 200 <= t {
      assert PlayThrough(s, 0, time, 1, t) == PlayThrough(s, 1, time + 100, 1, t) ==
             PlayThrough(s, 0, time + 200, 0, t);
    }
  }

  /** Played on time they are over after 400 milliseconds; refreshed after 1000 for the first time, they have just
      begun their second pass. */
  lemma {:induction false} LateRefreshPlaysOn()
    ensures var s := SHOWN_TWICE;
            && Complete(s)
            && PlayThrough(s, 0, 0, 1, 1000) == Stop(1, 300, 0, true)
            && Refresh(s, Clock(0, 0, -1), 1000, 1000) == Clock(0, 1000, 0)
            && !Finishes(s, Clock(0, 0, -1), 1000, 1000)
  {
    ShownTwice(0, 1000);
    ShownTwice(800, 1000);
    RefreshPlays(SHOWN_TWICE, Clock(0, 0, -1), 1000, 1000);
    hide PlayThrough;
    hide Refresh;
    hide Finishes;
    hide Complete;
  }

  // Frames that are not there yet, and frames without an end

  /** While the next frame is not known the current one is held, and starts anew at every refresh after its end. */
  lemma {:induction false} WaitsForFrame(s: Schedule, c: Clock, t: int, now: int)
    requires Due(s, c, t, now) && c.index + 1 >= s.known && !(s.done && c.index + 1 == s.known)
    ensures Refresh(s, c, t, now) == c.(time := t) && !Finishes(s, c, t, now)
  {
    AdvanceMakesProgress(s, c, t, now);
    assert EndTime(s, c.(time := t), now) > t;
  }

  /** A known frame that cannot be supplied yet is waited for without touching the clock. */
  lemma {:induction false} WaitsForSupply(s: Schedule, c: Clock, t: int, now: int)
    requires Due(s, c, t, now) && s.cached <= c.index + 1 < s.known
    ensures Refresh(s, c, t, now) == c && !Finishes(s, c, t, now)
  {
    AdvanceMakesProgress(s, c, t, now);
  }

  /** An endless frame is never left, and reaching one ends the animation. */
  lemma {:induction false} EndlessFrameStays(s: Schedule, c: Clock, t: int, now: int)
    requires s.Valid() && t <= now
    ensures s.TimeoutOf(c.index) == Forever ==> Refresh(s, c, t, now) == c && !Finishes(s, c, t, now)
    ensures EndTime(s, c, now) <= t && c.index + 1 < s.known && c.index + 1 < s.cached &&
            s.TimeoutOf(c.index + 1) == Forever && s.LoopLength() == Forever ==>
              Refresh(s, c, t, now) == Clock(c.index + 1, EndTime(s, c, now), c.remaining) && Finishes(s, c, t, now)
  {
    if EndTime(s, c, now) <= t {
      AdvanceMakesProgress(s, c, t, now);
    }
  }
}
