/** The compositor of `FrameAnimator.cpp`: two pixel buffers rewritten in place and the index of the
    frame the first one was last built for. */
module FrameAnimator {
  import opened Geometry
  import opened Animation
  import opened Wrappers
  import opened Replay
  import opened Compositor
  import opened AnimationClock
  import opened AnimationState
  import opened RefreshArea

  /** Rows by columns. */
  type Buffer = array2<Pixel>

  class Animator {
    const image: Image
    var comp: array2?<Pixel>
    var saved: array2?<Pixel>
    var last: int

    constructor (img: Image)
      ensures image == img && comp == null && saved == null && last == -1
    {
      image := img;
      comp, saved, last := null, null, -1;
    }

    ghost predicate Sized(b: Buffer) {
      b.Length0 == image.size.height && b.Length1 == image.size.width
    }

    ghost predicate Ready()
      reads this
    {
      && image.Allocated()
      && (comp != null ==> Sized(comp))
      && (saved != null ==> Sized(saved))
      && (comp != null && saved != null ==> comp != saved)
      && (comp == null ==> last == -1)
    }

    /** Both buffers at one position. */
    ghost function At(x: int, y: int): Buffers
      requires Ready() && image.InBounds(x, y)
      reads this, comp, saved
    {
      Buffers(if comp == null then None else Some(comp[y, x]), if saved == null then None else Some(saved[y, x]), last)
    }

    method ClearFrame(dst: Buffer)
      modifies dst
      ensures forall r, c :: 0 <= r < dst.Length0 && 0 <= c < dst.Length1 ==> dst[r, c] == BLANK
    {
      forall r, c | 0 <= r < dst.Length0 && 0 <= c < dst.Length1 {
        dst[r, c] := BLANK;
      }
    }

    /** Blanks a rectangle row by row, clipped to the buffer. */
    method ClearRect(dst: Buffer, rect: IntRect)
      modifies dst
      ensures forall r, c :: 0 <= r < dst.Length0 && 0 <= c < dst.Length1 ==>
                dst[r, c] == if rect.Has(c, r) then BLANK else old(dst[r, c])
    {
      var toClear := IntRect(0, 0, dst.Length1, dst.Length0).Intersect(rect);
      if rect.width <= 0 || rect.height <= 0 || toClear.IsEmpty() {
        NothingToClear(rect, toClear, dst.Length1, dst.Length0);
        return;
      }
      var row := toClear.y;
      while row < toClear.y + toClear.height
        invariant toClear.y <= row <= toClear.y + toClear.height
        invariant forall r, c :: 0 <= r < dst.Length0 && 0 <= c < dst.Length1 ==>
                    dst[r, c] == if toClear.Has(c, r) && r < row then BLANK else old(dst[r, c])
      {
        forall c | toClear.x <= c < toClear.x + toClear.width {
          dst[row, c] := BLANK;
        }
        row := row + 1;
      }
    }

    lemma {:induction false} NothingToClear(rect: IntRect, toClear: IntRect, w: int, h: int)
      requires toClear == IntRect(0, 0, w, h).Intersect(rect)
      requires rect.IsEmpty() || toClear.IsEmpty()
      ensures forall x, y :: 0 <= x < w && 0 <= y < h ==> !rect.Has(x, y)
    {
      forall x, y | 0 <= x < w && 0 <= y < h ensures !rect.Has(x, y) {
        assert toClear.Has(x, y) <==> IntRect(0, 0, w, h).Has(x, y) && rect.Has(x, y);
      }
    }

    method CopyFrameImage(src: Buffer, dst: Buffer)
      requires src != dst && src.Length0 == dst.Length0 && src.Length1 == dst.Length1
      modifies dst
      ensures forall r, c :: 0 <= r < dst.Length0 && 0 <= c < dst.Length1 ==> dst[r, c] == src[r, c]
    {
      forall r, c | 0 <= r < dst.Length0 && 0 <= c < dst.Length1 {
        dst[r, c] := src[r, c];
      }
    }

    /** Copies the stored pixels of a frame that covers the image. */
    method CopyRaw(f: Frame, dst: Buffer)
      requires f.Allocated(image.size) && !f.Paletted() && Sized(dst)
      modifies dst
      ensures forall x, y :: image.InBounds(x, y) ==> dst[y, x] == f.Colour(image.size, x, y)
    {
      forall r, c | 0 <= r < dst.Length0 && 0 <= c < dst.Length1 {
        dst[r, c] := f.data[r][c];
      }
    }

    method DrawFrameTo(f: Frame, dst: Buffer)
      requires f.Allocated(image.size) && Sized(dst)
      modifies dst
      ensures forall x, y :: image.InBounds(x, y) ==> dst[y, x] == DrawFrameAt(image, f, x, y, old(dst[y, x]))
    {
      if f.rect.x > image.size.width || f.rect.y > image.size.height {
        return;
      }
      if f.Paletted() {
        DrawPaletted(f, dst);
      } else if f.blend == Over || f.blendRect == None || f.rect == f.blendRect.value {
        Composite(f, f.blend, f.rect, dst);
      } else {
        Composite(f, Over, f.rect, dst);
        Composite(f, Source, f.blendRect.value, dst);
      }
    }

    /** The pixel library drawing the part of a whole-image frame inside `rect`, clipped to the image. */
    method Composite(f: Frame, op: BlendMethod, rect: IntRect, dst: Buffer)
      requires f.Allocated(image.size) && !f.Paletted() && Sized(dst)
      modifies dst
      ensures forall x, y :: image.InBounds(x, y) ==>
                dst[y, x] == if rect.Has(x, y) then Composited(f, op, x, y, old(dst[y, x])) else old(dst[y, x])
    {
      forall r, c | 0 <= r < dst.Length0 && 0 <= c < dst.Length1 && rect.Has(c, r) {
        dst[r, c] := Composited(f, op, c, r, dst[r, c]);
      }
    }

    function Composited(f: Frame, op: BlendMethod, x: int, y: int, under: Pixel): Pixel
      requires f.Allocated(image.size) && !f.Paletted() && image.InBounds(x, y)
    {
      var c := f.data[y][x];
      var s := if f.hasAlpha then c else image.pixels.solid(c);
      if op == Source then s else image.pixels.over(s, under)
    }

    method DrawPaletted(f: Frame, dst: Buffer)
      requires f.Allocated(image.size) && f.Paletted() && Sized(dst)
      requires f.rect.x <= image.size.width && f.rect.y <= image.size.height
      modifies dst
      ensures forall x, y :: image.InBounds(x, y) ==> dst[y, x] == DrawFrameAt(image, f, x, y, old(dst[y, x]))
    {
      var width := Min(f.rect.width, image.size.width - f.rect.x);
      var height := Min(f.rect.height, image.size.height - f.rect.y);
      for r := 0 to height
        invariant forall x, y :: image.InBounds(x, y) ==>
                    dst[y, x] == if y < f.rect.y + r
                    then DrawFrameAt(image, f, x, y, old(dst[y, x])) else old(dst[y, x])
      {
        for c := 0 to width
          invariant forall x, y :: image.InBounds(x, y) ==>
                      dst[y, x] == if y < f.rect.y + r || (y == f.rect.y + r && x < f.rect.x + c)
                                   then DrawFrameAt(image, f, x, y, old(dst[y, x])) else old(dst[y, x])
        {
          var colour := f.palette[f.data[r][c]];
          if !f.hasAlpha || colour != BLANK {
            dst[f.rect.y + r, f.rect.x + c] := colour;
          }
        }
      }
    }

    /** What the buffers become at one position: a compositing step, whatever a new buffer held. */
    ghost predicate Steps(n: nat, x: int, y: int, before: Buffers, after: Buffers)
      requires image.Allocated() && 0 < n < |image.frames| && image.InBounds(x, y)
    {
      exists junk: Pixel :: after == Blend(image, n, x, y, before, junk)
    }

    /** Composites frame `nextIndex` over its predecessor where that is needed, and reports what changed. */
    method DoBlend(prevIndex: nat, nextIndex: nat) returns (dirty: IntRect)
      requires Ready() && nextIndex == prevIndex + 1 < |image.frames|
      modifies this, comp, saved
      ensures Ready() && (comp == old(comp) || fresh(comp)) && (saved == null || saved == old(saved) || fresh(saved))
      ensures dirty == BlendDirty(image, nextIndex, old(saved) != null)
      ensures forall x, y :: image.InBounds(x, y) ==> Steps(nextIndex, x, y, old(At(x, y)), At(x, y))
    {
      hide DisposeAt;
      hide DrawFrameAt;
      hide Effective;
      hide ShowsRaw;
      var prev, next := image.frames[prevIndex], image.frames[nextIndex];
      var disposal := Effective(image, prev, saved != null);
      var prevRect, nextRect := prev.Area(), next.Area();

      if ShowsRaw(image, next, disposal) {
        dirty := WholeRect(image.size);
        assert forall x, y :: image.InBounds(x, y) ==> At(x, y) == Blend(image, nextIndex, x, y, old(At(x, y)), BLANK);
        return;
      }

      match disposal {
        case Clear => dirty := nextRect.Union(prevRect);
        case ClearAll => dirty := WholeRect(image.size);
        case RestorePrevious => dirty := WholeRect(image.size);
        case _ => dirty := nextRect;
      }

      if last == nextIndex {
        assert forall x, y :: image.InBounds(x, y) ==> At(x, y) == Blend(image, nextIndex, x, y, old(At(x, y)), BLANK);
        return;
      }

      Recomposite(nextIndex, disposal);
    }

    /** Builds the compositing buffer for frame `nextIndex`: dispose, save, draw. */
    method Recomposite(nextIndex: nat, disposal: Disposal)
      requires Ready() && 0 < nextIndex < |image.frames| && last != nextIndex
      requires disposal == Effective(image, image.frames[nextIndex - 1], saved != null)
      requires !ShowsRaw(image, image.frames[nextIndex], disposal)
      modifies this, comp, saved
      ensures Ready() && (comp == old(comp) || fresh(comp)) && (saved == null || saved == old(saved) || fresh(saved))
      ensures forall x, y :: image.InBounds(x, y) ==> Steps(nextIndex, x, y, old(At(x, y)), At(x, y))
    {
      hide DisposeAt;
      hide DrawFrameAt;
      hide Effective;
      hide ShowsRaw;
      var prev, next := image.frames[nextIndex - 1], image.frames[nextIndex];
      var prevRect, nextRect := prev.Area(), next.Area();
      var needToBlank := false;
      if comp == null {
        comp := new Pixel[image.size.height, image.size.width];
        needToBlank := true;
      } else if nextIndex != last + 1 {
        needToBlank := true;
      }
      ghost var hadComp := old(comp) != null;
      label ready:

      var doDisposal := true;
      if !next.hasAlpha && next.disposal != RestorePrevious {
        if image.IsFull(next) {
          doDisposal := false;
          needToBlank := false;
        } else if prevRect.x >= nextRect.x && prevRect.y >= nextRect.y &&
                  prevRect.x + prevRect.width <= nextRect.x + nextRect.width &&
                  prevRect.y + prevRect.height <= nextRect.y + nextRect.height {
          doDisposal := false;
        }
      }
      Dispose(nextIndex, disposal, doDisposal, needToBlank, hadComp);

      if next.disposal == RestorePrevious && disposal != RestorePrevious {
        Save();
      }

      DrawFrameTo(next, comp);
      last := nextIndex;

      forall x, y | image.InBounds(x, y) ensures Steps(nextIndex, x, y, old(At(x, y)), At(x, y)) {
        ghost var junk := old@ready(comp[y, x]);
        assert At(x, y) == Blend(image, nextIndex, x, y, old(At(x, y)), junk);
      }
    }

    /** Remembers the picture under a frame that wants it back. */
    method Save()
      requires Ready() && comp != null
      modifies this`saved, saved
      ensures Ready() && saved != null && (saved == old(saved) || fresh(saved))
      ensures forall x, y :: image.InBounds(x, y) ==> saved[y, x] == comp[y, x]
    {
      if saved == null {
        saved := new Pixel[image.size.height, image.size.width];
      }
      CopyFrameImage(comp, saved);
    }

    /** The disposal part of `DoBlend`. `hadComp` says that the compositing buffer is not brand new. */
    method Dispose(n: nat, disposal: Disposal, doDisposal: bool, needToBlank: bool, ghost hadComp: bool)
      requires Ready() && comp != null && 0 < n < |image.frames| && last != n
      requires disposal == Effective(image, image.frames[n - 1], saved != null)
      requires doDisposal == !SkipsDisposal(image, image.frames[n - 1], image.frames[n])
      requires var next := image.frames[n];
               needToBlank == ((!hadComp || n != last + 1) &&
                               !(!next.hasAlpha && next.disposal != RestorePrevious && image.IsFull(next)))
      modifies this`saved, comp
      ensures Ready() && (saved == null || saved == old(saved))
      ensures forall x, y :: image.InBounds(x, y) ==>
                var st := old(At(x, y));
                (At(x, y).comp.value, At(x, y).saved) ==
                DisposeAt(image, n, x, y, if hadComp then st else st.(comp := None), st.comp.value)
    {
      var prev, next := image.frames[n - 1], image.frames[n];
      if !doDisposal {
        if needToBlank {
          ClearFrame(comp);
        }
        return;
      }
      match disposal {
        case Clear =>
          if needToBlank {
            ClearFrame(comp);
          } else {
            ClearRect(comp, prev.Area());
          }
        case ClearAll =>
          ClearFrame(comp);
        case RestorePrevious =>
          if saved != null {
            CopyFrameImage(saved, comp);
            if next.disposal != RestorePrevious {
              saved := null;
            }
          } else {
            assert false;  // with nothing saved the disposal is not a restore
          }
        case _ =>
          if last != n - 1 {
            if image.IsFull(prev) && !prev.Paletted() {
              CopyRaw(prev, comp);
            } else {
              if needToBlank && (prev.hasAlpha || !image.IsFull(prev)) {
                ClearFrame(comp);
              }
              DrawFrameTo(prev, comp);
            }
          }
      }
    }

    // Running the animation

    /** The buffers are right for the current frame `k` at every position; and where the first frame restores,
        nothing is saved beyond what the first loop saves. */
    ghost predicate Showing(k: nat)
      requires Ready() && k < |image.frames|
      reads this, comp, saved
    {
      && (forall x, y :: image.InBounds(x, y) ==> Right(image, k, x, y, At(x, y)))
      && (RestoresFirst() ==> Tidy(image, k, saved != null, last))
    }

    /** Going back to the first frame would restore what happens to be saved. */
    predicate RestoresFirst()
      requires image.frames != []
    {
      image.frames[0].disposal == RestorePrevious && !IgnoresSaved(image)
    }

    /** What the state says about the frames is true of the image, and once decoding is done the
        refresh area covers all that a loop changes and a loop leaves nothing that a first frame could restore. */
    ghost predicate Tracks(state: State)
      requires image.Allocated()
      reads state
    {
      && state.Valid() && state.frameCount <= |image.frames|
      && (state.loopLength.Some? ==> state.done)
      && (state.done ==> state.frameCount == |image.frames| && LoopsClean(image) &&
                         CoversLoop(image, state.frameCount, state.firstFrameRefreshArea))
      && forall i :: 0 <= i < |image.frames| ==> image.frames[i].timeout.Positive()
    }

    /** `cached` is how many finished frames the surface cache can supply. */
    function Plan(state: State, cached: nat): (s: Schedule)
      reads state
      ensures image.Allocated() && Tracks(state) && cached <= |image.frames| ==> s.Valid()
    {
      Schedule(state.frameCount, state.done, state.loopCount, state.loopLength, state.mode,
               seq(|image.frames|, i requires 0 <= i < |image.frames| => image.frames[i].timeout), cached)
    }

    ghost predicate Playing(state: State, cached: nat)
      reads this, comp, saved, state
    {
      && Ready() && image.Playable() && Tracks(state) && cached <= |image.frames| && Showing(state.index)
    }

    /** Outside `dirty` the pictures of the two frames are the same. */
    ghost predicate SameOutside(dirty: IntRect, j: nat, k: nat)
      requires image.Allocated() && j < |image.frames| && k < |image.frames|
    {
      forall x, y :: image.InBounds(x, y) && !dirty.Has(x, y) ==> After(image, j, x, y) == After(image, k, x, y)
    }

    lemma {:induction false} Rewound(k: nat)
      requires Ready() && image.Playable() && k < |image.frames| && Showing(k)
      requires RestoresFirst() ==> saved == null
      ensures Showing(0)
    {
      forall x, y | image.InBounds(x, y) ensures Right(image, 0, x, y, At(x, y)) {
        Rewind(image, k, x, y, At(x, y));
      }
    }

    /** Blending from the frame on show to the next one shows the next one. */
    method BlendShown(k: nat, next: nat) returns (dirty: IntRect)
      requires Ready() && image.Playable() && next == k + 1 < |image.frames| && Showing(k)
      modifies this, comp, saved
      ensures Ready() && (comp == old(comp) || fresh(comp)) && (saved == null || saved == old(saved) || fresh(saved))
      ensures Showing(next) && SameOutside(dirty, k, next)
    {
      hide Right;
      hide After;
      hide Blend;
      hide Tidy;
      hide BlendDirty;
      hide Image.Plausible;
      dirty := DoBlend(k, next);
      forall x, y | image.InBounds(x, y) ensures Right(image, next, x, y, At(x, y)) {
        assert Steps(next, x, y, old(At(x, y)), At(x, y));
        ghost var junk: Pixel :| At(x, y) == Blend(image, next, x, y, old(At(x, y)), junk);
        BlendKeepsRight(image, next, x, y, old(At(x, y)), junk);
      }
      if RestoresFirst() {
        assert Steps(next, 0, 0, old(At(0, 0)), At(0, 0));
        ghost var junk: Pixel :| At(0, 0) == Blend(image, next, 0, 0, old(At(0, 0)), junk);
        BlendKeepsTidy(image, next, 0, 0, old(At(0, 0)), junk);
      }
      forall x, y | image.InBounds(x, y) && !dirty.Has(x, y) ensures After(image, k, x, y) == After(image, next, x, y) {
        BlendDirtyIsSound(image, next, x, y, old(At(x, y)));
      }
    }

    lemma {:induction false} Same(k: nat)
      requires image.Allocated() && k < |image.frames|
      ensures forall dirty :: SameOutside(dirty, k, k)
    {
    }

    /** Moves to the next frame when that is possible. */
    method AdvanceFrame(state: State, t: int, now: int, cached: nat) returns (ret: RefreshResult)
      requires Playing(state, cached) && Due(Plan(state, cached), state.View(), t, now)
      modifies this, comp, saved, state
      ensures Playing(state, cached) && Plan(state, cached) == old(Plan(state, cached))
      ensures (comp == old(comp) || fresh(comp)) && (saved == null || saved == old(saved) || fresh(saved))
      ensures state.firstFrameRefreshArea == old(state.firstFrameRefreshArea)
      ensures var o := Advance(old(Plan(state, cached)), old(state.View()), t, now);
              state.View() == o.clock && ret.advanced == o.moved && ret.finished == o.finished
      ensures old(state.Counts()) ==> state.Counts()
      ensures state.wraps == old(state.wraps) + if ret.advanced && state.index == 0 then 1 else 0
      ensures !state.done ==> state.wraps == old(state.wraps) && state.uncounted == old(state.uncounted)
      ensures !state.done || state.loopCount < 0 ==> old(state.loopRemaining) < 0 ==> state.loopRemaining < 0
      ensures SameOutside(ret.dirty, old(state.index), state.index)
    {
      hide Image.Playable;
      hide Right;
      hide After;
      hide CoversLoop;
      hide SameOutside;
      hide EndTime;
      hide WholeLoops;
      hide LoopsClean;
      hide Tidy;
      hide State.Counts;
      hide State.MayWrap;
      hide Animator.RestoresFirst;
      hide Animator.Showing;
      Same(state.index);
      ret := NOTHING;
      var currentFrameIndex, end := state.index, EndTime(Plan(state, cached), state.View(), now);
      var nextFrameIndex, finished := state.TakeTurn();
      if finished {
        ret := ret.(finished := true);
        return;
      }
      if nextFrameIndex >= state.frameCount {
        state.time := t;
        return;
      }
      if nextFrameIndex >= cached {
        return;
      }
      ret := MoveOn(state, nextFrameIndex, end, t, cached);
    }

    /** Puts the next frame on show at the time the current one ends. */
    method MoveOn(state: State, next: nat, end: int, t: int, cached: nat) returns (ret: RefreshResult)
      requires Playing(state, cached) && next < state.frameCount && next < cached
      requires next == state.index + 1 ||
               (next == 0 && state.done && state.index + 1 == state.frameCount && state.MayWrap())
      modifies this, comp, saved, state`time, state`index, state`wraps, state`uncounted
      ensures Playing(state, cached) && Plan(state, cached) == old(Plan(state, cached))
      ensures (comp == old(comp) || fresh(comp)) && (saved == null || saved == old(saved) || fresh(saved))
      ensures state.index == next && state.time == end + WholeLoops(Plan(state, cached).LoopLength(), t - end)
      ensures old(state.Counts()) ==> state.Counts()
      ensures state.wraps == old(state.wraps) + if next == 0 then 1 else 0
      ensures next != 0 ==> state.uncounted == old(state.uncounted)
      ensures SameOutside(ret.dirty, old(state.index), next)
      ensures ret.advanced && ret.finished == (Plan(state, cached).TimeoutOf(next) == Forever)
    {
      hide Image.Playable;
      hide Right;
      hide After;
      hide CoversLoop;
      hide SameOutside;
      hide WholeLoops;
      hide LoopsClean;
      hide Tidy;
      hide State.Counts;
      hide State.MayWrap;
      hide Animator.RestoresFirst;
      hide Animator.Showing;
      ret := ShowFrame(state, state.index, next);
      state.Arrive(next, end, t, Plan(state, cached).LoopLength());
      ret := ret.(advanced := true, finished := Plan(state, cached).TimeoutOf(next) == Forever);
    }

    /** Puts the next frame on show: the first frame as it is, any other by compositing. */
    method ShowFrame(state: State, k: nat, next: nat) returns (ret: RefreshResult)
      requires Ready() && image.Playable() && Tracks(state) && k < state.frameCount && Showing(k)
      requires next == k + 1 < |image.frames| || (next == 0 && state.done && k + 1 == state.frameCount)
      modifies this, comp, saved
      ensures Ready() && (comp == old(comp) || fresh(comp)) && (saved == null || saved == old(saved) || fresh(saved))
      ensures Showing(next) && SameOutside(ret.dirty, k, next)
      ensures ret == NOTHING.(dirty := ret.dirty)
    {
      ret := NOTHING;
      if next == 0 {
        ret := ret.(dirty := state.firstFrameRefreshArea);
        Rewound(k);
      } else {
        var dirty := BlendShown(k, next);
        ret := ret.(dirty := dirty);
      }
    }

    /** The loops are limited, and the first frame can be supplied where it is needed to go back to it. */
    static ghost predicate Keeps(s: Schedule, c: Clock) {
      s.Valid() && Limited(s, c.remaining) && (s.mode == LoopOnce || s.cached > 0)
    }

    /** What the turns of a refresh so far, from `start` to `c`, leave to the others. */
    static ghost predicate Onward(s: Schedule, start: Clock, c: Clock, wraps: int, ret: RefreshResult, t: int, now: int)
      requires s.Valid() && t <= now
    {
      && Refresh(s, c, t, now) == Refresh(s, start, t, now)
      && (Finishes(s, start, t, now) <==> ret.finished || Finishes(s, c, t, now))
      && (MovesOn(s, start, t, now) <==> ret.advanced || MovesOn(s, c, t, now))
      && (!ret.advanced ==> c.index == start.index && wraps == 0)
      && (Keeps(s, start) ==> Keeps(s, c) && wraps + Left(s, c.remaining) == Left(s, start.remaining))
    }

    /** What all its turns come to. */
    static ghost predicate Settled(s: Schedule, start: Clock, c: Clock, wraps: int, ret: RefreshResult, t: int,
                                   now: int)
      requires s.Valid() && t <= now
    {
      && Refresh(s, start, t, now) == c
      && (Finishes(s, start, t, now) <==> ret.finished) && (MovesOn(s, start, t, now) <==> ret.advanced)
      && (!ret.advanced ==> c.index == start.index && wraps == 0)
      && (Keeps(s, start) ==> wraps + Left(s, c.remaining) == Left(s, start.remaining))
    }

    static lemma {:induction false} OneTurn(s: Schedule, start: Clock, c: Clock, wraps: int, ret: RefreshResult,
                                            turn: RefreshResult, t: int, now: int)
      requires Due(s, c, t, now) && Onward(s, start, c, wraps, ret, t, now)
      requires var o := Advance(s, c, t, now); turn.advanced == o.moved && turn.finished == o.finished
      ensures var o := Advance(s, c, t, now);
              var more := o.moved || EndTime(s, o.clock, now) != EndTime(s, c, now);
              var sum, all := wraps + (if o.moved && o.clock.index == 0 then 1 else 0), ret.Accumulate(turn);
              && (more ==> Onward(s, start, o.clock, sum, all, t, now))
              && (!more || EndTime(s, o.clock, now) > t ==> Settled(s, start, o.clock, sum, all, t, now))
    {
      AdvanceMakesProgress(s, c, t, now);
      if Keeps(s, c) {
        PassesAreCountedIff(s, c, t, now);
      }
    }

    static lemma {:induction false} NoTurn(s: Schedule, c: Clock, t: int, now: int)
      requires s.Valid() && t <= now
      ensures Onward(s, c, c, 0, NOTHING, t, now)
      ensures EndTime(s, c, now) > t ==> Settled(s, c, c, 0, NOTHING, t, now)
    {
    }

    lemma {:induction false} StillSame(first: IntRect, second: IntRect, i: nat, j: nat, k: nat)
      requires image.Allocated() && i < |image.frames| && j < |image.frames| && k < |image.frames|
      requires SameOutside(first, i, j) && SameOutside(second, j, k)
      ensures SameOutside(first.Union(second), i, k)
    {
    }

    /** How often the animation has gone back to its first frame and still may. */
    ghost function Passes(state: State, cached: nat): int
      reads state
    {
      state.wraps + Left(Plan(state, cached), state.loopRemaining)
    }

    /** Catches up with time `t`. */
    method RequestRefresh(state: State, t: int, now: int, cached: nat) returns (ret: RefreshResult)
      requires Playing(state, cached) && t <= now
      modifies this, comp, saved, state
      ensures Playing(state, cached)
      ensures Plan(state, cached) == old(Plan(state, cached))
      ensures state.View() == Refresh(old(Plan(state, cached)), old(state.View()), t, now)
      ensures Endless(Plan(state, cached)) && old(state.loopRemaining) < 0 ==>
                (state.index, state.time) == Settle(Plan(state, cached), old(state.index), old(state.time), t)
      ensures ret.finished <==> Finishes(old(Plan(state, cached)), old(state.View()), t, now)
      ensures ret.advanced <==> MovesOn(old(Plan(state, cached)), old(state.View()), t, now)
      ensures !ret.advanced ==> state.index == old(state.index) && state.wraps == old(state.wraps)
      ensures Keeps(Plan(state, cached), old(state.View())) ==> Passes(state, cached) == old(Passes(state, cached))
      ensures old(state.Counts()) ==> state.Counts()
      ensures !state.done ==> state.wraps == old(state.wraps) && state.uncounted == old(state.uncounted)
      ensures !state.done || state.loopCount < 0 ==> old(state.loopRemaining) < 0 ==> state.loopRemaining < 0
      ensures state.firstFrameRefreshArea == old(state.firstFrameRefreshArea)
      ensures (comp == old(comp) || fresh(comp)) && (saved == null || saved == old(saved) || fresh(saved))
      ensures SameOutside(ret.dirty, old(state.index), state.index)
    {
      hide Image.Playable;
      hide Right;
      hide After;
      hide CoversLoop;
      hide Advance;
      hide LoopsClean;
      hide Tidy;
      hide State.Counts;
      hide Animator.RestoresFirst;
      hide Animator.Showing;
      hide Refresh;
      hide Finishes;
      hide MovesOn;
      hide Keeps;
      hide Left;
      hide Animator.Onward;
      hide EndTime;
      hide SameOutside;
      var s := Plan(state, cached);
      var currentFrameEndTime := EndTime(s, state.View(), now);
      Same(state.index);
      ret := NOTHING;
      NoTurn(s, state.View(), t, now);
      while currentFrameEndTime <= t
        invariant Playing(state, cached) && Plan(state, cached) == s
        invariant comp == old(comp) || fresh(comp)
        invariant saved == null || saved == old(saved) || fresh(saved)
        invariant currentFrameEndTime == EndTime(s, state.View(), now)
        invariant Onward(s, old(state.View()), state.View(), state.wraps - old(state.wraps), ret, t, now)
        invariant currentFrameEndTime > t ==>
                    Settled(s, old(state.View()), state.View(), state.wraps - old(state.wraps), ret, t, now)
        invariant SameOutside(ret.dirty, old(state.index), state.index)
        invariant old(state.Counts()) ==> state.Counts()
        invariant !state.done ==> state.wraps == old(state.wraps) && state.uncounted == old(state.uncounted)
        invariant !state.done || state.loopCount < 0 ==> old(state.loopRemaining) < 0 ==> state.loopRemaining < 0
        invariant state.firstFrameRefreshArea == old(state.firstFrameRefreshArea)
        decreases t - state.time
      {
        var oldFrameEndTime := currentFrameEndTime;
        ghost var was, c, wraps := state.index, state.View(), state.wraps - old(state.wraps);
        AdvanceMakesProgress(s, c, t, now);
        var frameRes := AdvanceFrame(state, t, now, cached);
        OneTurn(s, old(state.View()), c, wraps, ret, frameRes, t, now);
        StillSame(ret.dirty, frameRes.dirty, old(state.index), was, state.index);
        ret := ret.Accumulate(frameRes);
        currentFrameEndTime := EndTime(s, state.View(), now);
        if !frameRes.advanced && currentFrameEndTime == oldFrameEndTime {
          break;
        }
      }
      if Endless(s) && old(state.loopRemaining) < 0 {
        RefreshSettles(s, old(state.View()), t, now);
      }
    }

    /** Restarting keeps the picture right without touching a buffer. */
    method Reset(state: State, ghost cached: nat)
      requires Playing(state, cached) && (RestoresFirst() ==> saved == null)
      modifies state`index
      ensures Playing(state, cached) && Plan(state, cached) == old(Plan(state, cached))
      ensures state.View() == old(state.View()).(index := 0) && (old(state.Counts()) ==> state.Counts())
    {
      Rewound(state.index);
      state.ResetAnimation();
    }

    /** Hearing of one more decoded frame changes no picture. */
    method FrameDecoded(state: State, count: nat, ghost cached: nat)
      requires Playing(state, cached) && count <= |image.frames|
      requires count > state.frameCount ==> !state.done && count == state.frameCount + 1
      modifies state`frameCount
      ensures Playing(state, cached) && state.View() == old(state.View()) && (old(state.Counts()) ==> state.Counts())
      ensures Plan(state, cached) == old(Plan(state, cached)).(known := Max(old(state.frameCount), count))
    {
      state.UpdateKnownFrameCount(count);
    }

    /** The picture for a frame: the compositing buffer when it was built for that frame, else the raw frame. */
    method GetCompositedFrame(k: nat, cached: nat) returns (r: LookupResult)
      requires Ready() && image.Playable() && k < |image.frames| && cached <= |image.frames| && Showing(k)
      ensures r == NotFound <==> last != k && k >= cached
      ensures r != NotFound ==> forall x, y :: image.InBounds(x, y) ==> Pixel(r, x, y) == Some(After(image, k, x, y))
    {
      if last == k {
        r := FromBuffer(comp);
      } else if k >= cached {
        r := NotFound;
      } else {
        r := FromFrame(image.frames[k]);
      }
    }

    ghost function Pixel(r: LookupResult, x: int, y: int): Option<Pixel>
      requires image.Allocated() && image.InBounds(x, y)
      reads if r.FromBuffer? then {r.buffer} else {}
    {
      match r
      case NotFound => None
      case FromFrame(f) =>
        if f.Allocated(image.size) && f.rect.Has(x, y) then Some(f.Colour(image.size, x, y)) else None
      case FromBuffer(b) => if Sized(b) then Some(b[y, x]) else None
    }
  }

  datatype LookupResult = NotFound | FromBuffer(buffer: Buffer) | FromFrame(frame: Frame)
}
