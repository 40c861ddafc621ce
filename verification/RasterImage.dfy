/** An animated image as `RasterImage.cpp` runs it: the compositor and the animation state are made together,
    told about frames as they are decoded, refreshed, reset, and asked for the picture to draw. */
module RasterImage {
  import opened Geometry
  import opened Animation
  import opened Wrappers
  import opened Replay
  import opened Compositor
  import opened AnimationClock
  import opened AnimationState
  import opened RefreshArea
  import opened FrameAnimator
  import opened Decoder

  /** What the image is told, in order. */
  datatype Command =
    | Start(t: int)
    | Refresh(t: int, now: int, cached: nat)
    | Reset
    | FrameDecoded(count: nat)
    | DecodeComplete

  /** What is known of the animation, and where it is. */
  datatype Playback = Playback(plan: Schedule, clock: Clock)

  /** A decode of all frames that has ended; `img` has the frames it counted. */
  ghost predicate Decodes(d: FrameDecoder, img: Image)
    reads d
  {
    && d.Valid() && d.decodeDone && !d.firstFrameDecode && d.frames[..d.frameCount] == img.frames
    && img.Playable() && forall i :: 0 <= i < |img.frames| ==> img.frames[i].timeout.Positive()
  }

  /** Going back from frame `k` leaves nothing saved that the first frame could restore. */
  ghost predicate MayReset(img: Image, k: nat)
    requires k < |img.frames|
  {
    img.frames[0].disposal == RestorePrevious ==> k == 0 || IgnoresSaved(img) || !SavedAfter(img, k)
  }

  /** What the notifications assert: frames are reported one by one, and none after the last. */
  ghost predicate Permitted(img: Image, p: Playback, c: Command)
    requires img.frames != []
  {
    match c
    case Start(_) => true
    case Refresh(t, now, cached) => t <= now && cached <= |img.frames|
    case Reset => p.clock.index < |img.frames| && MayReset(img, p.clock.index)
    case FrameDecoded(count) =>
      count <= |img.frames| && (count > p.plan.known ==> !p.plan.done && count == p.plan.known + 1)
    case DecodeComplete =>
      LoopsClean(img) && (p.plan.known == |img.frames| || (!p.plan.done && p.plan.known + 1 == |img.frames|))
  }

  /** The playback after one command, without any picture. */
  ghost function Next(img: Image, loopCount: int, p: Playback, c: Command): Playback
    requires img.Allocated() && Permitted(img, p, c) && p.plan.Valid() && |p.plan.timeouts| == |img.frames|
  {
    match c
    case Start(t) => p.(clock := p.clock.(time := t))
    case Refresh(t, now, cached) => p.(clock := AnimationClock.Refresh(p.plan.(cached := cached), p.clock, t, now))
    case Reset => p.(clock := p.clock.(index := 0))
    case FrameDecoded(count) => p.(plan := p.plan.(known := Max(p.plan.known, count)))
    case DecodeComplete =>
      p.(plan := p.plan.(known := |img.frames|, done := true, loopCount := loopCount,
                         loopLength := Some(Total(img.frames))))
  }

  /** Before the first command. */
  ghost function Fresh(img: Image, mode: Mode): Playback {
    Playback(Schedule(0, false, -1, None, mode,
                      seq(|img.frames|, i requires 0 <= i < |img.frames| => img.frames[i].timeout), 0), Clock(0, 0, -1))
  }

  lemma {:induction false} TotalIsPositive(frames: seq<Frame>)
    requires frames != [] && forall i :: 0 <= i < |frames| ==> frames[i].timeout.Positive()
    ensures Total(frames).Positive()
  {
    var n := |frames| - 1;
    if n > 0 {
      TotalIsPositive(frames[..n]);
    }
  }

  /** At a refresh the first frame is at hand, unless it is not needed again. */
  predicate Supplied(c: Command, mode: Mode) {
    c.Refresh? ==> c.cached > 0 || mode == LoopOnce
  }

  /** Once all frames are decoded and all of them end, the loop is as long as single stepping takes. */
  lemma {:induction false} DecodedIsComplete(frames: seq<Frame>, s: Schedule)
    requires s.Valid() && s.done && s.loopLength == Some(Total(frames)) &&
             0 < |frames| == |s.timeouts| == s.known == s.cached
    requires forall i :: 0 <= i < |frames| ==> s.timeouts[i] == frames[i].timeout && frames[i].timeout.Ms?
    ensures Complete(s) && (s.mode == Normal && s.loopCount < 0 ==> Endless(s))
  {
    TotalIsLoopLength(frames, s, |frames|);
    assert frames[..|frames|] == frames;
  }

  /** Where a refresh of a complete animation leaves it, and whether that is the end. */
  lemma {:induction false} WhereRefreshEnds(s: Schedule, c: Clock, t: int, now: int)
    requires Complete(s) && c.index < |s.timeouts| && t <= now
    ensures var r := AnimationClock.Refresh(s, c, t, now);
            && (Endless(s) && c.remaining < 0 ==> !Finishes(s, c, t, now))
            && (Limited(s, c.remaining) ==>
                  && r.index < |s.timeouts|
                  && (Finishes(s, c, t, now) <==> r.time + s.timeouts[r.index].ms <= t)
                  && (Finishes(s, c, t, now) ==> r.index + 1 == |s.timeouts| && Left(s, r.remaining) == 0))
  {
    if Endless(s) && c.remaining < 0 {
      RefreshSettles(s, c, t, now);
    }
    if Limited(s, c.remaining) {
      RefreshPlays(s, c, t, now);
      OverIff(s, c.index, c.time + Skipped(s, c, t), Left(s, c.remaining), t);
    }
    hide AnimationClock.Refresh;
    hide Finishes;
    hide PlayThrough;
    hide Skipped;
  }

  class AnimatedImage {
    const animator: Animator
    const state: State

    ghost predicate Valid()
      reads this, animator, animator.comp, animator.saved, state
    {
      animator.Playing(state, 0) && Reported()
    }

    /** The loop length and the area to redraw on going back are known exactly once decoding is done. */
    ghost predicate Reported()
      reads state
    {
      if state.done then state.loopLength == Some(Total(animator.image.frames))
      else state.firstFrameRefreshArea == IntRect(0, 0, 0, 0)
    }

    /** Nothing has wrapped before the loop count was known, and since then wraps are counted if they have to be. */
    ghost predicate Counted()
      reads state
    {
      && (!state.done ==> state.wraps == state.uncounted == 0)
      && (!state.done || state.loopCount < 0 ==> state.loopRemaining < 0)
      && (state.done && state.loopCount >= 0 ==> state.Counts())
    }

    /** The wraps made and those still allowed make up the loop count, and an animation played once never wraps. */
    ghost predicate Accounted()
      reads state
    {
      && (state.mode == LoopOnce ==> state.wraps == 0)
      && (state.done && state.mode != LoopOnce && state.loopCount >= 0 ==>
            state.wraps + (if state.loopRemaining < 0 then state.loopCount else state.loopRemaining) == state.loopCount)
    }

    /** All frames are decoded and can be supplied, and all of them end. */
    ghost predicate AllEnd(cached: nat)
      reads state
    {
      && state.done && cached == |animator.image.frames|
      && forall i :: 0 <= i < |animator.image.frames| ==> animator.image.frames[i].timeout.Ms?
    }

    /** How many wraps there will be. */
    ghost function Wraps(): int
      reads state
    {
      if state.mode == LoopOnce then 0 else state.loopCount
    }

    ghost function View(): Playback
      reads this, animator, state
    {
      Playback(animator.Plan(state, 0), state.View())
    }

    /** Becoming animated: a fresh compositor and a fresh state show the first frame. */
    constructor (img: Image, mode: Mode)
      requires img.Playable() && forall i :: 0 <= i < |img.frames| ==> img.frames[i].timeout.Positive()
      ensures Valid() && Counted() && Accounted() && animator.image == img && fresh(animator) && fresh(state)
      ensures animator.comp == null && animator.saved == null && View() == Fresh(img, mode)
    {
      animator := new Animator(img);
      state := new State(mode);
      new;
      forall x, y | img.InBounds(x, y) ensures Right(img, 0, x, y, animator.At(x, y)) {
        Compositor.Start(img, x, y, animator.At(x, y));
      }
    }

    method StartAnimation(t: int)
      requires Valid()
      modifies state`time
      ensures Valid() && View() == Next(animator.image, 0, old(View()), Start(t))
    {
      state.SetAnimationFrameTime(t);
    }

    method RequestRefresh(t: int, now: int, cached: nat) returns (ret: RefreshResult)
      requires Valid() && t <= now && cached <= |animator.image.frames|
      modifies animator, animator.comp, animator.saved, state
      ensures Valid() && Kept(old(animator.comp), old(animator.saved))
      ensures View() == Next(animator.image, 0, old(View()), Refresh(t, now, cached))
      ensures animator.SameOutside(ret.dirty, old(state.index), state.index)
      ensures !ret.advanced ==> state.index == old(state.index) && state.wraps == old(state.wraps)
      ensures old(Counted()) ==> Counted()
      ensures old(Accounted()) && (state.mode == LoopOnce || (old(Counted()) && cached > 0)) ==> Accounted()
      ensures old(Counted() && AllEnd(cached)) && state.mode == Normal && state.loopCount < 0 ==>
                !ret.finished && Endless(animator.Plan(state, cached)) &&
                (state.index, state.time) == Settle(animator.Plan(state, cached), old(state.index), old(state.time), t)
      ensures old(Counted() && Accounted() && AllEnd(cached)) && (state.mode == LoopOnce || state.loopCount >= 0) ==>
                (ret.finished <==> state.wraps == Wraps() && state.index + 1 == |animator.image.frames| &&
                                   state.time + animator.image.frames[state.index].timeout.ms <= t)
    {
      hide Animator.Showing;
      hide Image.Playable;
      hide LoopsClean;
      hide CoversLoop;
      hide AnimationClock.Refresh;
      hide Finishes;
      hide Complete;
      hide Endless;
      hide Settle;
      hide Animator.SameOutside;
      ghost var s, c := animator.Plan(state, cached), state.View();
      if AllEnd(cached) {
        DecodedIsComplete(animator.image.frames, s);
        WhereRefreshEnds(s, c, t, now);
      }
      ret := animator.RequestRefresh(state, t, now, cached);
    }

    /** The buffers are the ones there were, or new. */
    twostate predicate Kept(comp: array2?<Pixel>, saved: array2?<Pixel>)
      reads animator
    {
      && (animator.comp == comp || (animator.comp != null && fresh(animator.comp)))
      && (animator.saved == null || animator.saved == saved || fresh(animator.saved))
    }

    /** Back to the first frame, reporting the area that changes. Before decoding is done that area is empty. */
    method ResetAnimation() returns (dirty: IntRect)
      requires Valid() && Permitted(animator.image, View(), Reset)
      modifies state`index
      ensures Valid() && View() == Next(animator.image, 0, old(View()), Reset)
      ensures dirty == if old(state.index) == 0 then IntRect(0, 0, 0, 0) else state.firstFrameRefreshArea
      ensures animator.SameOutside(dirty, old(state.index), 0) <==>
              state.done || animator.SameOutside(IntRect(0, 0, 0, 0), old(state.index), 0)
    {
      dirty := IntRect(0, 0, 0, 0);
      if state.index == 0 {
        return;
      }
      animator.Reset(state, 0);
      dirty := state.firstFrameRefreshArea;
    }

    method NotifyProgress(count: nat)
      requires Valid() && Permitted(animator.image, View(), FrameDecoded(count))
      modifies state`frameCount
      ensures Valid() && View() == Next(animator.image, 0, old(View()), FrameDecoded(count))
    {
      animator.FrameDecoded(state, count, 0);
    }

    /** What the decoder found out about the whole image. */
    method SetMetadata(d: FrameDecoder)
      requires state.Valid() && Decodes(d, animator.image)
      modifies state`loopCount, state`loopLength, state`firstFrameRefreshArea
      ensures state.Valid() && state.loopCount == d.metadata.loopCount
      ensures d.metadata.loopCount >= 0 && old(state.uncounted) == 0 &&
              (old(state.loopRemaining) < 0 || old(state.Counts() && d.metadata.loopCount == state.loopCount)) ==>
                state.Counts()
      ensures state.loopLength == Some(Total(animator.image.frames)) && d.frameCount == |animator.image.frames|
      ensures CoversLoop(animator.image, |animator.image.frames|, state.firstFrameRefreshArea)
    {
      ReportedAreaCoversLoop(d, animator.image);
      TotalIsPositive(animator.image.frames);
      state.SetLoopCount(d.metadata.loopCount);
      if d.metadata.loopLength.Some? {
        state.SetLoopLength(d.metadata.loopLength.value);
      }
      if d.metadata.refreshArea.Some? {
        state.SetFirstFrameRefreshArea(d.metadata.refreshArea.value);
      }
    }

    /** No more frames come. */
    method NotifyDecodeComplete(d: FrameDecoder)
      requires Valid() && Decodes(d, animator.image) && Permitted(animator.image, View(), DecodeComplete)
      modifies state
      ensures Valid() && View() == Next(animator.image, d.metadata.loopCount, old(View()), DecodeComplete)
      ensures old(Counted() && (state.done ==> state.loopCount == d.metadata.loopCount)) ==>
                Counted() && (old(Accounted()) ==> Accounted())
    {
      hide Image.Plausible;
      hide Animator.Showing;
      hide CoversLoop;
      hide LoopsClean;
      hide FrameDecoder.Valid;
      SetMetadata(d);
      state.UpdateKnownFrameCount(d.frameCount);
      state.SetDoneDecoding(true);
    }

    method Do(d: FrameDecoder, c: Command)
      requires Valid() && Decodes(d, animator.image) && Permitted(animator.image, View(), c)
      modifies animator, animator.comp, animator.saved, state
      ensures Valid() && Kept(old(animator.comp), old(animator.saved))
      ensures View() == Next(animator.image, d.metadata.loopCount, old(View()), c) && state.mode == old(state.mode)
      ensures old(Counted() && (state.done ==> state.loopCount == d.metadata.loopCount)) ==>
                Counted() && (old(Accounted()) && Supplied(c, state.mode) ==> Accounted())
      ensures state.done && (old(state.done) ==> old(state.loopCount) == d.metadata.loopCount) ==>
                state.loopCount == d.metadata.loopCount
    {
      match c
      case Start(t) => StartAnimation(t);
      case Refresh(t, now, cached) => var _ := RequestRefresh(t, now, cached);
      case Reset => var _ := ResetAnimation();
      case FrameDecoded(count) => NotifyProgress(count);
      case DecodeComplete => NotifyDecodeComplete(d);
    }
  }

  ghost predicate AllPermitted(img: Image, loopCount: int, p: Playback, commands: seq<Command>)
    requires img.Allocated()
    decreases commands
  {
    commands != [] ==>
      && p.plan.Valid() && |p.plan.timeouts| == |img.frames| && Permitted(img, p, commands[0])
      && AllPermitted(img, loopCount, Next(img, loopCount, p, commands[0]), commands[1..])
  }

  /** The playback after a list of commands. */
  ghost function Final(img: Image, loopCount: int, p: Playback, commands: seq<Command>): Playback
    requires img.Allocated() && AllPermitted(img, loopCount, p, commands)
    decreases commands
  {
    if commands == [] then p else Final(img, loopCount, Next(img, loopCount, p, commands[0]), commands[1..])
  }

  /** From nothing, over any run of starts, refreshes, resets and decode notifications, the picture handed out is the
      replay of frames 0 to k, where k is the frame at which the clock alone arrives. */
  method Play(img: Image, mode: Mode, d: FrameDecoder, commands: seq<Command>, cached: nat)
      returns (a: AnimatedImage, r: LookupResult)
    requires Decodes(d, img) && cached <= |img.frames|
    requires AllPermitted(img, d.metadata.loopCount, Fresh(img, mode), commands)
    ensures fresh(a) && a.Valid() && a.animator.image == img
    ensures !a.state.done ==> a.state.wraps == 0
    ensures a.state.done && a.state.loopCount >= 0 ==> a.state.wraps <= a.state.loopCount
    ensures (forall i :: 0 <= i < |commands| ==> Supplied(commands[i], mode)) ==> a.Accounted()
    ensures a.View() == Final(img, d.metadata.loopCount, Fresh(img, mode), commands)
    ensures var k := Final(img, d.metadata.loopCount, Fresh(img, mode), commands).clock.index;
            && k < |img.frames|
            && (r == NotFound <==> a.animator.last != k && k >= cached)
            && (r != NotFound ==> forall x, y :: img.InBounds(x, y) ==>
                a.animator.Pixel(r, x, y) == Some(After(img, k, x, y)))
  {
    hide Image.Plausible;
    hide Next;
    hide After;
    hide CoversLoop;
    hide Animator.Showing;
    hide Image.Playable;
    hide State.Counts;
    hide LoopsClean;
    a := new AnimatedImage(img, mode);
    ghost var loopCount := d.metadata.loopCount;
    ghost var final := Final(img, loopCount, Fresh(img, mode), commands);
    assert commands[0..] == commands;
    for i := 0 to |commands|
      invariant fresh(a) && fresh(a.animator) && fresh(a.state)
      invariant (a.animator.comp == null || fresh(a.animator.comp)) &&
                (a.animator.saved == null || fresh(a.animator.saved))
      invariant a.Valid() && a.animator.image == img && Decodes(d, img) && d.metadata.loopCount == loopCount
      invariant (forall k :: 0 <= k < i ==> Supplied(commands[k], mode)) ==> a.Accounted()
      invariant a.state.mode == mode && a.Counted() && (a.state.done ==> a.state.loopCount == loopCount)
      invariant AllPermitted(img, loopCount, a.View(), commands[i..])
      invariant Final(img, loopCount, a.View(), commands[i..]) == final
    {
      assert commands[i..][0] == commands[i] && commands[i..][1..] == commands[i + 1..];
      a.Do(d, commands[i]);
    }
    if a.state.done && a.state.loopCount >= 0 {
      a.state.WrapsAreBounded();
    }
    r := a.animator.GetCompositedFrame(a.state.index, cached);
  }

  function TwoDots(): Image {
    Image(IntSize(1, 1), [Dot(7, false, Keep), Dot(5, false, Keep)], PLAIN)
  }

  lemma {:induction false} TwoDotsPlayable()
    ensures var img := TwoDots();
            img.Playable() && LoopsClean(img) && After(img, 0, 0, 0) == 7 && After(img, 1, 0, 0) == 5
  {
    var img := TwoDots();
    DotHonest(img, 7, false, Keep);
    DotHonest(img, 5, false, Keep);
    OneTurn(img, 1, 0, 0);
    hide Image.Honest;
    hide Frame.Allocated;
  }

  lemma {:induction false} SecondDotAt150(s: Schedule)
    requires s == Schedule(2, false, -1, None, Normal, [Ms(100), Ms(100)], 2)
    ensures s.Valid() && AnimationClock.Refresh(s, Clock(0, 0, -1), 150, 150) == Clock(1, 100, -1)
  {
    assert Advance(s, Clock(0, 0, -1), 150, 150) == Outcome(Clock(1, 100, -1), true, false);
    assert EndTime(s, Clock(1, 100, -1), 150) == 200;
  }

  /** Two frames are known and more may come: a reset from the second to the first changes the one pixel, and
      reports no area. */
  method ResetIsMissed() returns (a: AnimatedImage, shown: nat, dirty: IntRect)
    ensures a.Valid() && a.animator.image == TwoDots() && shown == 1 && a.state.index == 0 && dirty.IsEmpty()
    ensures !a.animator.SameOutside(dirty, shown, a.state.index)
  {
    hide Image.Playable;
    TwoDotsPlayable();
    a := new AnimatedImage(TwoDots(), Normal);
    a.NotifyProgress(1);
    a.NotifyProgress(2);
    ghost var s := a.animator.Plan(a.state, 2);
    assert s.timeouts == [Ms(100), Ms(100)];
    SecondDotAt150(s);
    var _ := a.RequestRefresh(150, 150, 2);
    shown := a.state.index;
    dirty := a.ResetAnimation();
  }
}
