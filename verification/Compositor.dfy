/** One compositing step of `FrameAnimator::DoBlend` seen at a single image position, with all its
    shortcuts, and the proof that over any run it shows what the replay shows. */
module Compositor {
  import opened Geometry
  import opened Animation
  import opened Wrappers
  import opened Replay

  /** The two buffers at one position, `None` while unallocated, and the frame the compositing buffer
      was last built for, -1 before the first. */
  datatype Buffers = Buffers(comp: Option<Pixel>, saved: Option<Pixel>, last: int)

  /** The disposal the compositor acts on: nothing saved turns a restore into a clear, and clearing a
      full-size frame clears everything. */
  function Effective(img: Image, f: Frame, hasSaved: bool): Disposal {
    var d := if f.disposal == RestorePrevious && !hasSaved then Clear else f.disposal;
    if d == Clear && img.IsFull(f) then ClearAll else d
  }

  /** The raw frame can be shown as it stands. */
  predicate ShowsRaw(img: Image, next: Frame, prevDisposal: Disposal) {
    !next.Paletted() &&
    (prevDisposal == ClearAll || (img.IsFull(next) && next.disposal != RestorePrevious && !next.hasAlpha))
  }

  /** The next frame hides all that disposing of the previous one could change. */
  predicate SkipsDisposal(img: Image, prev: Frame, next: Frame) {
    var p, n := prev.Area(), next.Area();
    !next.hasAlpha && next.disposal != RestorePrevious &&
    (img.IsFull(next) ||
     (n.x <= p.x && n.y <= p.y && p.x + p.width <= n.x + n.width && p.y + p.height <= n.y + n.height))
  }

  /** One pixel of `DrawFrameTo`. */
  function DrawFrameAt(img: Image, f: Frame, x: int, y: int, under: Pixel): Pixel
    requires f.Allocated(img.size)
  {
    if !f.rect.Has(x, y) then under
    else
      var c := f.Colour(img.size, x, y);
      if f.Paletted() then (if f.hasAlpha && c == BLANK then under else c)
      else
        var s := if f.hasAlpha then c else img.pixels.solid(c);
        if f.blend == Over then img.pixels.over(s, under)
        else if f.blendRect == None || f.blendRect.value == f.rect || f.blendRect.value.Has(x, y) then s
        else img.pixels.over(s, under)
  }

  /** The compositing buffer once frame `n - 1` is disposed of, if that was needed, together with what
      is left in the buffer that remembers the picture to restore. `old` is what the buffer held. */
  function DisposeAt(img: Image, n: nat, x: int, y: int, st: Buffers, old_: Pixel): (Pixel, Option<Pixel>)
    requires img.Allocated() && 0 < n < |img.frames| && img.InBounds(x, y)
  {
    var prev, next := img.frames[n - 1], img.frames[n];
    var blank := (st.comp == None || n != st.last + 1) &&
                 !(!next.hasAlpha && next.disposal != RestorePrevious && img.IsFull(next));
    if SkipsDisposal(img, prev, next) then (if blank then BLANK else old_, st.saved)
    else
      match Effective(img, prev, st.saved.Some?)
      case Clear => (if blank || prev.Area().Has(x, y) then BLANK else old_, st.saved)
      case ClearAll => (BLANK, st.saved)
      case RestorePrevious =>
        (if st.saved.Some? then st.saved.value else BLANK, if next.disposal == RestorePrevious then st.saved else None)
      case _ =>
        if st.last == n - 1 then (old_, st.saved)
        else if img.IsFull(prev) && !prev.Paletted() then (prev.Colour(img.size, x, y), st.saved)
        else
          var under := if blank && (prev.hasAlpha || !img.IsFull(prev)) then BLANK else old_;
          (DrawFrameAt(img, prev, x, y, under), st.saved)
  }

  /** `DoBlend` from frame `n - 1` to frame `n`. `junk` is what a new buffer happens to hold. */
  function Blend(img: Image, n: nat, x: int, y: int, st: Buffers, junk: Pixel): Buffers
    requires img.Allocated() && 0 < n < |img.frames| && img.InBounds(x, y)
  {
    var prev, next := img.frames[n - 1], img.frames[n];
    var disposal := Effective(img, prev, st.saved.Some?);
    if ShowsRaw(img, next, disposal) || st.last == n then st
    else
      var (under, saved) := DisposeAt(img, n, x, y, st, if st.comp.Some? then st.comp.value else junk);
      var saved' := if next.disposal == RestorePrevious && disposal != RestorePrevious then Some(under) else saved;
      Buffers(Some(DrawFrameAt(img, next, x, y, under)), saved', n)
  }

  /** What `GetCompositedFrame` hands out for frame `k`. */
  function Shown(img: Image, k: nat, x: int, y: int, st: Buffers): Pixel
    requires img.Allocated() && k < |img.frames| && img.InBounds(x, y)
    requires st.last == k ==> st.comp.Some?
    requires st.last != k ==> !img.frames[k].Paletted()
  {
    if st.last == k then st.comp.value else img.frames[k].Colour(img.size, x, y)
  }

  /** What composing the second frame makes of the first one's picture never shows, so a picture saved earlier
      does not matter to it. */
  predicate IgnoresSaved(img: Image)
    requires img.frames != []
  {
    |img.frames| > 1 ==>
      ShowsRaw(img, img.frames[1], RestorePrevious) || SkipsDisposal(img, img.frames[0], img.frames[1])
  }

  /** Disposing of frame `k` by restoring, or by clearing when nothing is saved, brings back the picture under it. */
  ghost predicate Restores(img: Image, k: nat, x: int, y: int, saved: Option<Pixel>)
    requires img.Allocated() && k < |img.frames|
  {
    || saved == Some(Before(img, k, x, y))
    || (saved == None && Before(img, k, x, y) == BLANK)
    || (k == 0 && IgnoresSaved(img))
  }

  /** The buffers are right for some earlier frame, and the current frame `k` can be shown. */
  ghost predicate Right(img: Image, k: nat, x: int, y: int, st: Buffers)
    requires img.Allocated() && k < |img.frames| && img.InBounds(x, y)
  {
    && (st.last == -1 || (0 < st.last < |img.frames| && st.comp == Some(After(img, st.last, x, y))))
    && (st.last > 0 && img.frames[st.last].disposal == RestorePrevious ==>
          st.saved == Some(Before(img, st.last, x, y)))
    && (st.last == k || (!img.frames[k].Paletted() && img.frames[k].Colour(img.size, x, y) == After(img, k, x, y)))
    && (img.frames[k].disposal == RestorePrevious ==> Restores(img, k, x, y, st.saved))
  }

  /** On honest frames the blend-then-recopy trick of `DrawFrameTo` is plain drawing inside the area. */
  lemma {:induction false} DrawFrameIsDrawn(img: Image, f: Frame, x: int, y: int, under: Pixel)
    requires f.Allocated(img.size) && img.pixels.Lawful() && img.Honest(f) && img.InBounds(x, y)
    ensures DrawFrameAt(img, f, x, y, under) == Drawn(img, f, x, y, under)
  {
  }

  /** The whole picture of a frame that stores colours is what drawing it on nothing gives. */
  lemma {:induction false} RawIsDrawnOnBlank(img: Image, f: Frame, x: int, y: int)
    requires f.Allocated(img.size) && img.pixels.Lawful() && img.Honest(f) && img.InBounds(x, y)
    requires !f.Paletted()
    ensures Drawn(img, f, x, y, BLANK) == f.Colour(img.size, x, y)
    ensures img.IsFull(f) && !f.hasAlpha ==> forall under :: Drawn(img, f, x, y, under) == f.Colour(img.size, x, y)
  {
  }

  /** One turn of the replay, from the picture under frame `n - 1` to the picture of frame `n`. */
  lemma {:induction false} OneTurn(img: Image, n: nat, x: int, y: int)
    requires img.Allocated() && 0 < n < |img.frames|
    ensures After(img, n, x, y) == Drawn(img, img.frames[n], x, y, Before(img, n, x, y))
    ensures Before(img, n, x, y) == Disposed(img, n - 1, x, y)
    ensures After(img, n - 1, x, y) == Drawn(img, img.frames[n - 1], x, y, Before(img, n - 1, x, y))
  {
  }

  lemma {:induction false} Start(img: Image, x: int, y: int, st: Buffers)
    requires img.Plausible() && img.InBounds(x, y)
    requires st == Buffers(None, None, -1)
    ensures Right(img, 0, x, y, st)
  {
    RawIsDrawnOnBlank(img, img.frames[0], x, y);
  }

  /** Going back to the first frame, at the end of a loop or on a reset, needs no compositing; but a first
      frame that restores must find nothing saved that shows. */
  lemma {:induction false} Rewind(img: Image, k: nat, x: int, y: int, st: Buffers)
    requires img.Plausible() && k < |img.frames| && img.InBounds(x, y) && Right(img, k, x, y, st)
    requires img.frames[0].disposal == RestorePrevious ==> Restores(img, 0, x, y, st.saved)
    ensures Right(img, 0, x, y, st)
  {
    RawIsDrawnOnBlank(img, img.frames[0], x, y);
  }

  lemma {:induction false} ShownIsReplay(img: Image, k: nat, x: int, y: int, st: Buffers)
    requires img.Plausible() && k < |img.frames| && img.InBounds(x, y) && Right(img, k, x, y, st)
    ensures Shown(img, k, x, y, st) == After(img, k, x, y)
  {
  }

  /** A full-size opaque frame, or one that follows a clear, needs no compositing. */
  lemma {:induction false} RawIsRight(img: Image, n: nat, x: int, y: int, st: Buffers)
    requires img.Plausible() && 0 < n < |img.frames| && img.InBounds(x, y) && Right(img, n - 1, x, y, st)
    requires ShowsRaw(img, img.frames[n], Effective(img, img.frames[n - 1], st.saved.Some?))
    ensures img.frames[n].Colour(img.size, x, y) == After(img, n, x, y)
  {
    OneTurn(img, n, x, y);
    RawIsDrawnOnBlank(img, img.frames[n], x, y);
  }

  /** Disposing, or skipping it, leaves what the next frame must be drawn on, at least where the next
      frame does not hide it. */
  lemma {:induction false} DisposeIsRight(img: Image, n: nat, x: int, y: int, st: Buffers, old_: Pixel)
    requires img.Plausible() && 0 < n < |img.frames| && img.InBounds(x, y) && Right(img, n - 1, x, y, st)
    requires st.comp.Some? ==> old_ == st.comp.value
    requires st.last != n && !ShowsRaw(img, img.frames[n], Effective(img, img.frames[n - 1], st.saved.Some?))
    ensures var (under, _) := DisposeAt(img, n, x, y, st, old_);
            Drawn(img, img.frames[n], x, y, under) == After(img, n, x, y)
    ensures !SkipsDisposal(img, img.frames[n - 1], img.frames[n]) ==>
              DisposeAt(img, n, x, y, st, old_).0 == Before(img, n, x, y)
  {
    var prev, next := img.frames[n - 1], img.frames[n];
    OneTurn(img, n, x, y);
    if !prev.Paletted() {
      DrawFrameIsDrawn(img, prev, x, y, BLANK);
      RawIsDrawnOnBlank(img, prev, x, y);
    }
    if SkipsDisposal(img, prev, next) {
      SkippedDisposalIsHidden(img, n, x, y, st, old_);
    }
  }

  lemma {:induction false} SkippedDisposalIsHidden(img: Image, n: nat, x: int, y: int, st: Buffers, old_: Pixel)
    requires img.Plausible() && 0 < n < |img.frames| && img.InBounds(x, y) && Right(img, n - 1, x, y, st)
    requires st.comp.Some? ==> old_ == st.comp.value
    requires st.last != n && !ShowsRaw(img, img.frames[n], Effective(img, img.frames[n - 1], st.saved.Some?))
    requires SkipsDisposal(img, img.frames[n - 1], img.frames[n])
    ensures var (under, _) := DisposeAt(img, n, x, y, st, old_);
            Drawn(img, img.frames[n], x, y, under) == After(img, n, x, y)
  {
    var prev, next := img.frames[n - 1], img.frames[n];
    OneTurn(img, n, x, y);
    if !prev.Paletted() {
      RawIsDrawnOnBlank(img, prev, x, y);
    }
  }

  /** A frame is shown as it is stored although it wants the previous picture back, so that none is saved for it. */
  predicate ForgetsToSave(img: Image, n: nat, hasSaved: bool)
    requires 0 < n < |img.frames|
  {
    ShowsRaw(img, img.frames[n], Effective(img, img.frames[n - 1], hasSaved)) &&
    img.frames[n].disposal == RestorePrevious
  }

  /** The main step: advancing keeps the buffers right, unless it forgets to save and the picture left from an
      earlier save is not the one to restore. */
  lemma {:induction false} BlendRightIff(img: Image, n: nat, x: int, y: int, st: Buffers, junk: Pixel)
    requires img.Plausible() && 0 < n < |img.frames| && img.InBounds(x, y) && Right(img, n - 1, x, y, st)
    ensures Right(img, n, x, y, Blend(img, n, x, y, st, junk)) <==>
            (ForgetsToSave(img, n, st.saved.Some?) ==> Restores(img, n, x, y, st.saved))
  {
    var prev, next := img.frames[n - 1], img.frames[n];
    var disposal := Effective(img, prev, st.saved.Some?);
    if ShowsRaw(img, next, disposal) {
      RawIsRight(img, n, x, y, st);
    } else if st.last != n {
      var old_ := if st.comp.Some? then st.comp.value else junk;
      DisposeIsRight(img, n, x, y, st, old_);
      DrawFrameIsDrawn(img, next, x, y, DisposeAt(img, n, x, y, st, old_).0);
    }
  }

  /** On playable images nothing is forgotten that matters. */
  lemma {:induction false} BlendKeepsRight(img: Image, n: nat, x: int, y: int, st: Buffers, junk: Pixel)
    requires img.Playable() && 0 < n < |img.frames| && img.InBounds(x, y) && Right(img, n - 1, x, y, st)
    ensures Right(img, n, x, y, Blend(img, n, x, y, st, junk))
  {
    BlendRightIff(img, n, x, y, st, junk);
    OneTurn(img, n, x, y);
    hide Blend;
    hide After;
  }

  /** The rectangle `DoBlend` reports as changed. */
  function BlendDirty(img: Image, n: nat, hasSaved: bool): IntRect
    requires 0 < n < |img.frames|
  {
    var prev, next := img.frames[n - 1], img.frames[n];
    var disposal := Effective(img, prev, hasSaved);
    if ShowsRaw(img, next, disposal) then WholeRect(img.size)
    else
      match disposal
      case Clear => next.Area().Union(prev.Area())
      case ClearAll => WholeRect(img.size)
      case RestorePrevious => WholeRect(img.size)
      case _ => next.Area()
  }

  /** Outside the reported rectangle the two pictures are the same. */
  lemma {:induction false} BlendDirtyIsSound(img: Image, n: nat, x: int, y: int, st: Buffers)
    requires img.Plausible() && 0 < n < |img.frames| && img.InBounds(x, y) && Right(img, n - 1, x, y, st)
    requires !BlendDirty(img, n, st.saved.Some?).Has(x, y)
    ensures After(img, n, x, y) == After(img, n - 1, x, y)
  {
    OneTurn(img, n, x, y);
  }

  /** A frame that stores colours and is shown raw right after a clear saves no picture, so restoring
      after it is right exactly when nothing, or a blank, is left from an earlier save. */
  lemma {:induction false} RestoreAfterClearAll(img: Image, n: nat, x: int, y: int, st: Buffers, old_: Pixel)
    requires img.Plausible() && 1 < n < |img.frames| && img.InBounds(x, y)
    requires var f := img.frames[n - 1]; !f.Paletted() && f.disposal == RestorePrevious
    requires img.ClearsAll(img.frames[n - 2])
    requires st.last == n - 1 ==> st.comp == Some(After(img, n - 1, x, y)) && old_ == st.comp.value
    requires !SkipsDisposal(img, img.frames[n - 1], img.frames[n])
    ensures DisposeAt(img, n, x, y, st, old_).0 == Before(img, n, x, y) <==>
            st.saved == None || st.saved == Some(BLANK)
  {
    OneTurn(img, n, x, y);
    OneTurn(img, n - 1, x, y);
  }

  // A first frame that restores

  /** Restoring under the first frame, once some other frame was composited, is right exactly when nothing, or
      a blank, is left from an earlier save. */
  lemma {:induction false} RestoreFirst(img: Image, x: int, y: int, st: Buffers, old_: Pixel)
    requires img.Plausible() && 1 < |img.frames| && img.InBounds(x, y) && img.frames[0].disposal == RestorePrevious
    requires st.last == -1 || st.last > 1
    requires !SkipsDisposal(img, img.frames[0], img.frames[1])
    ensures DisposeAt(img, 1, x, y, st, old_).0 == Before(img, 1, x, y) <==>
            st.saved == None || st.saved == Some(BLANK)
  {
    OneTurn(img, 1, x, y);
  }

  /** Whether a picture is saved once frame `k` is reached for the first time. */
  function SavedAfter(img: Image, k: nat): bool
    requires k < |img.frames|
  {
    if k == 0 then false
    else
      var had, prev, next := SavedAfter(img, k - 1), img.frames[k - 1], img.frames[k];
      var disposal := Effective(img, prev, had);
      if ShowsRaw(img, next, disposal) then had
      else if next.disposal == RestorePrevious then true
      else had && (disposal != RestorePrevious || SkipsDisposal(img, prev, next))
  }

  /** Every loop finds the saved picture as the first one did. */
  ghost predicate Tidy(img: Image, k: nat, hasSaved: bool, last: int)
    requires k < |img.frames|
  {
    hasSaved == SavedAfter(img, k) && (last > k ==> !hasSaved)
  }

  /** The last frame of a loop leaves nothing saved that the first frame could restore. */
  predicate LoopsClean(img: Image)
    requires img.frames != []
  {
    img.frames[0].disposal == RestorePrevious ==> IgnoresSaved(img) || !SavedAfter(img, |img.frames| - 1)
  }

  lemma {:induction false} BlendKeepsTidy(img: Image, n: nat, x: int, y: int, st: Buffers, junk: Pixel)
    requires img.Plausible() && 0 < n < |img.frames| && img.InBounds(x, y) && Right(img, n - 1, x, y, st)
    requires Tidy(img, n - 1, st.saved.Some?, st.last)
    ensures var after := Blend(img, n, x, y, st, junk); Tidy(img, n, after.saved.Some?, after.last)
  {
    hide DrawFrameAt;
    hide Before;
    hide After;
    hide Image.Playable;
  }

  /** The buffers after the first `k` steps, whatever new buffers held. */
  ghost function Played(img: Image, k: nat, x: int, y: int, junk: nat -> Pixel): Buffers
    requires img.Allocated() && k < |img.frames| && img.InBounds(x, y)
  {
    if k == 0 then Buffers(None, None, -1) else Blend(img, k, x, y, Played(img, k - 1, x, y, junk), junk(k))
  }

  /** The first loop shows the replay, also when the first frame restores. */
  lemma {:induction false} FirstLoopIsRight(img: Image, k: nat, x: int, y: int, junk: nat -> Pixel)
    requires img.Playable() && k < |img.frames| && img.InBounds(x, y)
    ensures var st := Played(img, k, x, y, junk);
            && Right(img, k, x, y, st) && Tidy(img, k, st.saved.Some?, st.last)
            && Shown(img, k, x, y, st) == After(img, k, x, y)
  {
    if k == 0 {
      Start(img, x, y, Played(img, 0, x, y, junk));
    } else {
      FirstLoopIsRight(img, k - 1, x, y, junk);
      hide Blend;
      BlendKeepsRight(img, k, x, y, Played(img, k - 1, x, y, junk), junk(k));
      BlendKeepsTidy(img, k, x, y, Played(img, k - 1, x, y, junk), junk(k));
    }
    hide Image.Playable;
    ShownIsReplay(img, k, x, y, Played(img, k, x, y, junk));
  }

  /** After a wrap, disposing of a first frame that restores is right exactly when the loop ended with nothing
      saved or with a blank. */
  lemma {:induction false} WrapIsRightIff(img: Image, x: int, y: int, st: Buffers, old_: Pixel)
    requires img.Plausible() && 1 < |img.frames| && img.InBounds(x, y)
    requires img.frames[0].disposal == RestorePrevious && !IgnoresSaved(img) && st.last != 1
    requires Right(img, |img.frames| - 1, x, y, st) && Tidy(img, |img.frames| - 1, st.saved.Some?, st.last)
    ensures DisposeAt(img, 1, x, y, st, old_).0 == Before(img, 1, x, y) <==>
            !SavedAfter(img, |img.frames| - 1) || st.saved == Some(BLANK)
  {
    RestoreFirst(img, x, y, st, old_);
    hide DisposeAt;
    hide After;
  }

  /** One pixel, four frames: the first restores, the last saves picture 3. In the second loop the second frame,
      see-through, shows 3 where the replay shows nothing. */
  lemma {:induction false} StaleFirstIsShown()
    ensures var img := StaleFirstImage();
            img.Playable() && !LoopsClean(img) && After(img, 1, 0, 0) == BLANK &&
            var s3 := Played(img, 3, 0, 0, _ => BLANK);
            Shown(img, 3, 0, 0, s3) == After(img, 3, 0, 0) == 3 &&
            var s1 := Blend(img, 1, 0, 0, s3, BLANK);
            s1.last == 1 && Shown(img, 1, 0, 0, s1) == 3
  {
    var img := StaleFirstImage();
    DotHonest(img, 7, false, RestorePrevious);
    DotHonest(img, 0, true, Keep);
    DotHonest(img, 3, false, Keep);
    DotHonest(img, 0, true, RestorePrevious);
    StaleFirstRun();
    OneTurn(img, 1, 0, 0);
    FirstLoopIsRight(img, 3, 0, 0, _ => BLANK);
    hide Image.Honest;
    hide Frame.Allocated;
  }

  lemma {:induction false} StaleFirstRun()
    ensures var img := StaleFirstImage();
            img.Allocated() &&
            var start, s3 := Buffers(None, None, -1), Buffers(Some(3), Some(3), 3);
            && Blend(img, 1, 0, 0, start, BLANK) == start && Blend(img, 2, 0, 0, start, BLANK) == start
            && Blend(img, 3, 0, 0, start, BLANK) == s3
            && Blend(img, 1, 0, 0, s3, BLANK) == Buffers(Some(3), None, 1)
            && !LoopsClean(img)
  {
  }

  function StaleFirstImage(): Image {
    Image(IntSize(1, 1), [Dot(7, false, RestorePrevious), Dot(0, true, Keep), Dot(3, false, Keep),
                          Dot(0, true, RestorePrevious)], PLAIN)
  }

  /** One pixel, five frames: the second saves picture 7, the third clears, the fourth restores
      without having saved, and the fifth, see-through, shows 7 where the replay shows nothing. */
  lemma {:induction false} StalePictureIsShown()
    ensures var img := StaleImage();
            img.Plausible() && After(img, 4, 0, 0) == BLANK &&
            var s1 := Blend(img, 1, 0, 0, Buffers(None, None, -1), BLANK);
            var s2 := Blend(img, 2, 0, 0, s1, BLANK);
            var s3 := Blend(img, 3, 0, 0, s2, BLANK);
            var s4 := Blend(img, 4, 0, 0, s3, BLANK);
            s4.last == 4 && Shown(img, 4, 0, 0, s4) == 7
  {
    var img := StaleImage();
    StaleImagePlausible();
    StaleReplay();
    StaleRun();
    hide After;
    hide StaleImage;
  }

  lemma {:induction false} DotHonest(img: Image, c: Pixel, hasAlpha: bool, disposal: Disposal)
    requires img.size == IntSize(1, 1) && disposal != ClearAll && (hasAlpha || img.pixels.opaque_(c))
    ensures Dot(c, hasAlpha, disposal).Allocated(img.size) && img.Honest(Dot(c, hasAlpha, disposal))
  {
  }

  lemma {:induction false} StaleImagePlausible()
    ensures StaleImage().Plausible()
  {
    var img := StaleImage();
    DotHonest(img, 7, false, Keep);
    DotHonest(img, 0, true, RestorePrevious);
    DotHonest(img, 5, false, Clear);
    DotHonest(img, 0, true, Keep);
    hide Image.Honest;
    hide Frame.Allocated;
  }

  lemma {:induction false} StaleReplay()
    ensures StaleImage().Allocated() && After(StaleImage(), 4, 0, 0) == BLANK
  {
    OneTurn(StaleImage(), 4, 0, 0);
    OneTurn(StaleImage(), 3, 0, 0);
  }

  lemma {:induction false} StaleRun()
    ensures var img := StaleImage(); img.Allocated() && var s1 := Buffers(Some(7), Some(7), 1);
            && Blend(img, 1, 0, 0, Buffers(None, None, -1), BLANK) == s1
            && Blend(img, 2, 0, 0, s1, BLANK) == s1 && Blend(img, 3, 0, 0, s1, BLANK) == s1
            && Blend(img, 4, 0, 0, s1, BLANK) == Buffers(Some(7), None, 4)
  {
  }

  function StaleImage(): Image {
    Image(IntSize(1, 1), [Dot(7, false, Keep), Dot(0, true, RestorePrevious), Dot(5, false, Clear),
                          Dot(0, true, RestorePrevious), Dot(0, true, Keep)], PLAIN)
  }

  /** Colours that hide what is under them, except the blank. */
  const PLAIN := Blender((s, d) => if s == BLANK then d else s, s => s != BLANK, s => s)

  function Dot(c: Pixel, hasAlpha: bool, disposal: Disposal): Frame {
    Frame(Ms(100), IntRect(0, 0, 1, 1), None, [], hasAlpha, disposal, Over, [[c]])
  }
}
