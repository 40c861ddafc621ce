/** The area that must be redrawn when an animation goes back to its first frame. */
module RefreshArea {
  import opened Geometry
  import opened Animation
  import opened Replay

  /** Outside `area`, no frame up to `known` changes the first picture. */
  ghost predicate CoversLoop(img: Image, known: nat, area: IntRect)
    requires img.Allocated()
  {
    forall k, x, y :: 0 <= k < known && k < |img.frames| && img.InBounds(x, y) && !area.Has(x, y) ==>
      After(img, k, x, y) == After(img, 0, x, y)
  }

  /** What disposing of the first frame can change. */
  function FirstDisposalArea(f: Frame): IntRect {
    if f.disposal == Clear || f.disposal == ClearAll || f.disposal == RestorePrevious then f.rect
    else IntRect(0, 0, 0, 0)
  }

  /** `area` takes in the first frame's disposal and the rectangles of all later frames below `known`. */
  ghost predicate TakesIn(frames: seq<Frame>, known: nat, area: IntRect)
    requires known <= |frames|
  {
    && (known > 1 ==> forall x, y :: FirstDisposalArea(frames[0]).Has(x, y) ==> area.Has(x, y))
    && (forall k, x, y :: 0 < k < known && frames[k].rect.Has(x, y) ==> area.Has(x, y))
  }

  /** And nothing smaller does. */
  ghost predicate Least(frames: seq<Frame>, known: nat, area: IntRect)
    requires known <= |frames|
  {
    forall outer :: TakesIn(frames, known, outer) ==> Inside(area, outer)
  }

  /** The first frame alone needs no redrawing. */
  lemma {:induction false} NothingTakenIn(frames: seq<Frame>, area: IntRect)
    requires |frames| == 1 && Least(frames, 1, area)
    ensures area.IsEmpty()
  {
    var nothing := IntRect(0, 0, 0, 0);
    assert TakesIn(frames, 1, nothing);
    assert area.Has(area.x, area.y) ==> nothing.Has(area.x, area.y);
  }

  /** Finishing the last frame, or the first one while it is alone, changes nothing. */
  lemma {:induction false} LeastStays(frames: seq<Frame>, area: IntRect, f: Frame)
    requires frames != [] && TakesIn(frames, |frames|, area) && Least(frames, |frames|, area)
    requires f.rect == frames[|frames| - 1].rect
    ensures var after := frames[|frames| - 1 := f];
            TakesIn(after, |after|, area) && Least(after, |after|, area)
  {
    var after := frames[|frames| - 1 := f];
    assert forall k :: 0 < k < |frames| ==> after[k].rect == frames[k].rect;
    forall outer | TakesIn(after, |after|, outer) ensures Inside(area, outer) {
      assert TakesIn(frames, |frames|, outer);
    }
  }

  /** One frame more. */
  lemma {:induction false} LeastGrows(frames: seq<Frame>, area: IntRect, f: Frame)
    requires TakesIn(frames, |frames|, area) && Least(frames, |frames|, area)
    requires |frames| == 1 ==> area.IsEmpty()
    ensures var first := if |frames| == 1 then FirstDisposalArea(frames[0]) else area;
            var grown := if |frames| > 0 then first.Union(f.rect) else area;
            |frames| + 1 <= |frames + [f]| && TakesIn(frames + [f], |frames| + 1, grown) &&
            Least(frames + [f], |frames| + 1, grown)
  {
    var more, n := frames + [f], |frames|;
    assert forall k :: 0 <= k < n ==> more[k] == frames[k];
    var first := if n == 1 then FirstDisposalArea(frames[0]) else area;
    var grown := if n > 0 then first.Union(f.rect) else area;
    forall outer | TakesIn(more, n + 1, outer) ensures Inside(grown, outer) {
      if n > 0 {
        assert more[n] == f && Inside(f.rect, outer);
        assert n > 1 ==> TakesIn(frames, n, outer);
        UnionIsLeast(first, f.rect, outer);
      } else {
        assert TakesIn(frames, 0, IntRect(0, 0, 0, 0));
        assert Inside(area, IntRect(0, 0, 0, 0));
      }
    }
  }

  lemma {:induction false} TakesInCovers(img: Image, known: nat, area: IntRect)
    requires img.Plausible() && known <= |img.frames| && TakesIn(img.frames, known, area)
    ensures CoversLoop(img, known, area)
  {
    forall k, x, y | 0 <= k < known && img.InBounds(x, y) && !area.Has(x, y)
      ensures After(img, k, x, y) == After(img, 0, x, y)
    {
      Untouched(img, known, area, k, x, y);
    }
  }

  /** Outside the area every frame is drawn on the first picture and leaves it as it is. */
  lemma {:induction false} Untouched(img: Image, known: nat, area: IntRect, k: nat, x: int, y: int)
    requires img.Plausible() && known <= |img.frames| && TakesIn(img.frames, known, area)
    requires k < known && img.InBounds(x, y) && !area.Has(x, y)
    ensures After(img, k, x, y) == After(img, 0, x, y)
    ensures k > 0 ==> Before(img, k, x, y) == After(img, 0, x, y)
    decreases k
  {
    if k > 0 {
      Untouched(img, known, area, k - 1, x, y);
      assert !img.frames[k].rect.Has(x, y);
      assert k > 1 ==> !img.frames[k - 1].rect.Has(x, y);
      assert k == 1 ==> !FirstDisposalArea(img.frames[0]).Has(x, y);
      assert Before(img, k, x, y) == Disposed(img, k - 1, x, y);
    }
  }
}
