/** The frames of an animated image as the surface cache hands them to the compositor. */
module Animation {
  import opened Geometry
  import opened Wrappers

  /** A frame timeout in milliseconds, or no end at all. */
  datatype Timeout = Forever | Ms(ms: nat) {

    /** The normalisation every timeout read from an image file goes through. */
    static function FromRaw(raw: int): (t: Timeout)
      ensures t.Positive()
      ensures raw < 0 <==> t == Forever
      ensures raw >= 0 ==> t == Ms(if raw > 10 then raw else 100)
    {
      if raw < 0 then Forever else if raw <= 10 then Ms(100) else Ms(raw)
    }

    predicate Positive() {
      Ms? ==> ms > 0
    }

    /** Adding anything to an endless timeout, or an endless one to anything, is endless. */
    function Plus(other: Timeout): Timeout {
      if Forever? || other.Forever? then Forever else Ms(ms + other.ms)
    }
  }

  datatype Disposal = ClearAll | NotSpecified | Keep | Clear | RestorePrevious
  datatype BlendMethod = Source | Over

  /** A 32-bit premultiplied colour; the blank pixel is all zero bits. */
  type Pixel = p: int | 0 <= p < 0x1_0000_0000 witness 0
  const BLANK: Pixel := 0

  /** What the pixel library does with two colours. `solid` is how it reads a source that is said to
      have no alpha channel. */
  datatype Blender = Blender(over: (Pixel, Pixel) -> Pixel, opaque_: Pixel -> bool, solid: Pixel -> Pixel) {
    ghost predicate Lawful() {
      && (forall d :: over(BLANK, d) == d)
      && (forall s :: over(s, BLANK) == s)
      && (forall s, d :: opaque_(s) ==> over(s, d) == s)
      && (forall s :: opaque_(s) ==> solid(s) == s)
    }
  }

  /** `palette` is empty for a frame that stores colours; otherwise `data` holds palette indices. */
  datatype Frame = Frame(timeout: Timeout, rect: IntRect, blendRect: Option<IntRect>, palette: seq<Pixel>,
                         hasAlpha: bool, disposal: Disposal, blend: BlendMethod, data: seq<seq<Pixel>>) {

    predicate Paletted() {
      palette != []
    }

    /** The memory layout `imgFrame::InitForDecoder` and `Decoder::AllocateFrameInternal` set up. */
    ghost predicate Allocated(size: IntSize) {
      && 0 <= rect.x && 0 <= rect.y && 0 < rect.width && 0 < rect.height
      && |data| == rect.height && (forall r :: 0 <= r < |data| ==> |data[r]| == rect.width)
      && (!Paletted() ==> rect.IsWhole(size))
      && (Paletted() ==> forall r, c :: 0 <= r < |data| && 0 <= c < |data[r]| ==> data[r][c] < |palette|)
    }

    /** The colour stored for an image position inside the frame's rectangle. */
    function Colour(size: IntSize, x: int, y: int): Pixel
      requires Allocated(size) && rect.Has(x, y)
    {
      var raw := data[y - rect.y][x - rect.x];
      if Paletted() then palette[raw] else raw
    }

    /** The part of the image the frame changes: its rectangle, cut down to its blend rectangle. */
    function Area(): IntRect {
      if blendRect.Some? then rect.Intersect(blendRect.value) else rect
    }
  }

  datatype Image = Image(size: IntSize, frames: seq<Frame>, pixels: Blender) {

    ghost predicate Allocated() {
      && 0 < size.width && 0 < size.height && frames != []
      && forall i :: 0 <= i < |frames| ==> frames[i].Allocated(size)
    }

    predicate InBounds(x: int, y: int) {
      0 <= x < size.width && 0 <= y < size.height
    }

    predicate IsFull(f: Frame) {
      f.Area().IsWhole(size)
    }

    /** What decoders promise about a frame's contents. A blend rectangle is only set on frames that
        store colours, whose decoder left everything outside it blank; a frame without alpha has no
        see-through pixel; no decoder asks for the whole image to be cleared unless the frame covers it. */
    ghost predicate Honest(f: Frame)
      requires f.Allocated(size)
    {
      && (f.Paletted() ==> f.blendRect == None)
      && (!f.Paletted() ==> forall x, y :: f.rect.Has(x, y) && !f.Area().Has(x, y) ==> f.Colour(size, x, y) == BLANK)
      && (!f.Paletted() && !f.hasAlpha ==> forall x, y :: f.rect.Has(x, y) ==> pixels.opaque_(f.Colour(size, x, y)))
      && (f.disposal == ClearAll ==> IsFull(f))
    }

    /** Disposing of the frame blanks the whole image. */
    predicate ClearsAll(f: Frame) {
      f.disposal == ClearAll || (f.disposal == Clear && IsFull(f))
    }

    /** Honest frames over a first picture that stores its colours, as decoders deliver them. */
    ghost predicate Plausible() {
      && Allocated() && pixels.Lawful()
      && (forall i :: 0 <= i < |frames| ==> Honest(frames[i]))
      && !frames[0].Paletted()
    }

    /** What the compositor also relies on: a frame that stores colours and wants the previous picture
        back does not follow one that clears everything. */
    ghost predicate Playable() {
      && Plausible()
      && forall i :: 0 < i < |frames| && !frames[i].Paletted() && frames[i].disposal == RestorePrevious ==>
           !ClearsAll(frames[i - 1])
    }
  }
}
