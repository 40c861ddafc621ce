/** The meaning of an animation: replay every frame from the first, disposing of each before drawing
    the next. Pixels do not influence one another, so the replay follows a single image position. */
module Replay {
  import opened Animation

  /** Drawing a frame over what is there. A paletted frame stores its colours, except that colour zero
      is see-through when it has alpha; other frames blend inside their area and leave the rest alone. */
  function Drawn(img: Image, f: Frame, x: int, y: int, under: Pixel): Pixel
    requires f.Allocated(img.size)
  {
    if !f.rect.Has(x, y) || !f.Area().Has(x, y) then under
    else
      var c := f.Colour(img.size, x, y);
      if f.Paletted() then (if f.hasAlpha && c == BLANK then under else c)
      else if f.blend == Source then c
      else img.pixels.over(c, under)
  }

  /** The picture on which frame `k` is drawn. */
  function Before(img: Image, k: nat, x: int, y: int): Pixel
    requires img.Allocated() && k < |img.frames|
    decreases k, 0
  {
    if k == 0 then BLANK else Disposed(img, k - 1, x, y)
  }

  /** The picture with frames `0..k` played. */
  function After(img: Image, k: nat, x: int, y: int): Pixel
    requires img.Allocated() && k < |img.frames|
    decreases k, 1
  {
    Drawn(img, img.frames[k], x, y, Before(img, k, x, y))
  }

  /** The picture once frame `k` has been shown and disposed of. */
  function Disposed(img: Image, k: nat, x: int, y: int): Pixel
    requires img.Allocated() && k < |img.frames|
    decreases k, 2
  {
    var f := img.frames[k];
    match f.disposal
    case ClearAll => BLANK
    case Clear => if f.Area().Has(x, y) then BLANK else After(img, k, x, y)
    case RestorePrevious => Before(img, k, x, y)
    case NotSpecified => After(img, k, x, y)
    case Keep => After(img, k, x, y)
  }
}
