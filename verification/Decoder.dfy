/** The frame bookkeeping of `Decoder.cpp`: frames are started in order and finished one at a time,
    while the decoder adds up the loop length and the first frame's refresh area. */
module Decoder {
  import opened Geometry
  import opened Animation
  import opened Wrappers
  import opened AnimationClock
  import opened RefreshArea

  /** The sum of the timeouts, endless as soon as one of them is. */
  function Total(frames: seq<Frame>): Timeout {
    if frames == [] then Ms(0) else Total(frames[..|frames| - 1]).Plus(frames[|frames| - 1].timeout)
  }

  /** What the decoder reports about the whole image once it is done. */
  datatype Metadata = Metadata(loopCount: int, loopLength: Option<Timeout>, refreshArea: Option<IntRect>)

  class FrameDecoder {
    const outputSize: IntSize
    const firstFrameDecode: bool
    /** Every frame started, the last one unfinished while `inFrame`. */
    var frames: seq<Frame>
    var frameCount: nat
    var inFrame: bool
    var hasError: bool
    var decodeDone: bool
    var loopLength: Timeout
    var firstFrameRefreshArea: IntRect
    var metadata: Metadata

    constructor (size: IntSize, firstFrameOnly: bool)
      requires 0 < size.width && 0 < size.height
      ensures Valid() && frameCount == 0 && !inFrame && !hasError && !decodeDone
    {
      outputSize, firstFrameDecode := size, firstFrameOnly;
      frames, frameCount, inFrame, hasError, decodeDone := [], 0, false, false, false;
      loopLength, firstFrameRefreshArea := Ms(0), IntRect(0, 0, 0, 0);
      metadata := Metadata(-1, None, None);
    }

    function CompleteFrameCount(): nat
      reads this
      requires inFrame ==> frameCount > 0
    {
      if inFrame then frameCount - 1 else frameCount
    }

    ghost predicate Valid()
      reads this
    {
      && (inFrame ==> frameCount > 0)
      && |frames| >= frameCount && (inFrame ==> !hasError && |frames| == frameCount) &&
         (!hasError ==> |frames| == frameCount)
      && (forall i :: 0 <= i < |frames| && !frames[i].Paletted() ==> frames[i].rect.IsWhole(outputSize))
      && loopLength == Total(frames[..CompleteFrameCount()])
      && TakesIn(frames, |frames|, firstFrameRefreshArea) && Least(frames, |frames|, firstFrameRefreshArea)
      && (decodeDone ==> !inFrame)
      && (decodeDone && !firstFrameDecode ==>
            TakesIn(frames, frameCount, metadata.refreshArea.GetOr(firstFrameRefreshArea)) &&
            metadata.refreshArea.Some? && metadata.loopLength == Some(Total(frames[..frameCount])))
    }

    /** Starts frame `frameNum`. Frames out of order, frames with no area, and frames that store colours
        without covering the image are refused. */
    method AllocateFrame(frameNum: nat, f: Frame) returns (ok: bool)
      requires Valid() && !inFrame && !decodeDone
      modifies this
      ensures Valid() && hasError == old(hasError) && loopLength == old(loopLength) && !decodeDone
      ensures ok == (!old(hasError) && frameNum == old(frameCount) && 0 < outputSize.width && 0 < outputSize.height &&
                     0 < f.rect.width && 0 < f.rect.height && (!f.Paletted() ==> f.rect.IsWhole(outputSize)))
      ensures if ok then inFrame && frames == old(frames) + [f] && frameCount == old(frameCount) + 1
              else !inFrame && frames == old(frames) && frameCount == old(frameCount)
    {
      if hasError || frameNum != frameCount {
        return false;
      }
      if outputSize.width <= 0 || outputSize.height <= 0 || f.rect.width <= 0 || f.rect.height <= 0 {
        return false;
      }
      if !f.Paletted() && !f.rect.IsWhole(outputSize) {
        return false;
      }
      if |frames| == 1 {
        NothingTakenIn(frames, firstFrameRefreshArea);
      }
      LeastGrows(frames, firstFrameRefreshArea, f);
      if frameNum == 1 {
        var previous := frames[frameNum - 1];
        if previous.disposal == Clear || previous.disposal == ClearAll || previous.disposal == RestorePrevious {
          firstFrameRefreshArea := previous.rect;
        }
      }
      if frameNum > 0 {
        firstFrameRefreshArea := firstFrameRefreshArea.Union(f.rect);
      }
      assert frames[..frameCount] == frames == (frames + [f])[..frameCount];
      frames := frames + [f];
      frameCount := frameCount + 1;
      inFrame := true;
      return true;
    }

    /** Finishes the frame in progress. */
    method PostFrameStop(disposal: Disposal, timeout: Timeout, blend: BlendMethod, blendRect: Option<IntRect>)
      requires Valid() && inFrame && !decodeDone
      modifies this
      ensures Valid() && !inFrame && frameCount == old(frameCount) && hasError == old(hasError) && !decodeDone
      ensures frames == old(frames)[frameCount - 1 := old(frames)[frameCount - 1].(
                          disposal := disposal, timeout := timeout, blend := blend, blendRect := blendRect)]
      ensures loopLength == old(loopLength).Plus(timeout)
    {
      var f := frames[frameCount - 1].(disposal := disposal, timeout := timeout, blend := blend,
                                       blendRect := blendRect);
      ghost var before := frames;
      LeastStays(frames, firstFrameRefreshArea, f);
      frames := frames[frameCount - 1 := f];
      inFrame := false;
      loopLength := loopLength.Plus(timeout);
      assert frames[..frameCount][..frameCount - 1] == before[..frameCount - 1];
      assert forall k :: 0 < k < frameCount ==> frames[k].rect == before[k].rect;
    }

    /** An error drops the frame in progress. */
    method PostError()
      requires Valid()
      modifies this
      ensures Valid() && hasError && !inFrame && frames == old(frames) && decodeDone == old(decodeDone)
      ensures frameCount == old(CompleteFrameCount()) && loopLength == old(loopLength)
    {
      hasError := true;
      if inFrame {
        inFrame := false;
        frameCount := frameCount - 1;
      }
    }

    /** Records what is known about the whole image, unless only the first frame was wanted. */
    method PostDecodeDone(loopCount: int)
      requires Valid() && !inFrame && !decodeDone
      modifies this
      ensures Valid() && decodeDone && frames == old(frames) && frameCount == old(frameCount)
      ensures metadata.loopCount == loopCount
      ensures if firstFrameDecode
              then metadata.loopLength == old(metadata.loopLength) && metadata.refreshArea == old(metadata.refreshArea)
              else metadata.loopLength == Some(loopLength) && metadata.refreshArea == Some(firstFrameRefreshArea)
    {
      decodeDone := true;
      metadata := metadata.(loopCount := loopCount);
      if !firstFrameDecode {
        metadata := metadata.(loopLength := Some(loopLength), refreshArea := Some(firstFrameRefreshArea));
      }
    }

    /** Ends the decode. A frame still in progress is finished as an endless one, and an image with at
        least one complete frame counts as decoded. The flags say whether the format's own clean-up failed. */
    method CompleteDecode(beforeFinishFails: bool, finishFails: bool)
      requires Valid()
      modifies this
      ensures Valid() && !inFrame
      ensures decodeDone <==> old(decodeDone) || frameCount > 0
      ensures frameCount == if beforeFinishFails || finishFails then old(CompleteFrameCount()) else old(frameCount)
      ensures old(inFrame) && !beforeFinishFails && !finishFails ==>
                loopLength == Forever && frames == old(frames)[frameCount - 1 := old(frames)[frameCount - 1].(
                              disposal := Keep, timeout := Forever, blend := Over, blendRect := None)]
      ensures !(old(inFrame) && !beforeFinishFails && !finishFails) ==> frames == old(frames)
      ensures !old(decodeDone) && decodeDone && !firstFrameDecode ==> metadata.loopLength == Some(loopLength)
    {
      if beforeFinishFails {
        PostError();
      }
      if finishFails {
        PostError();
      }
      if inFrame {
        PostFrameStop(Keep, Forever, Over, None);
      }
      if !decodeDone {
        if CompleteFrameCount() > 0 {
          PostDecodeDone(0);
        }
      }
    }
  }

  /** When every frame ends, the decoder's total is the loop length the clock counts with. */
  lemma {:induction false} TotalIsLoopLength(frames: seq<Frame>, s: Schedule, n: nat)
    requires n <= |frames| == |s.timeouts|
    requires forall i :: 0 <= i < |frames| ==> s.timeouts[i] == frames[i].timeout && frames[i].timeout.Ms?
    ensures Total(frames[..n]) == Ms(Sum(s, 0, n))
  {
    if n > 0 {
      TotalIsLoopLength(frames, s, n - 1);
      assert frames[..n][..n - 1] == frames[..n - 1];
      SumSplit(s, 0, n - 1, n);
      assert Sum(s, n - 1, n) == s.timeouts[n - 1].ms;
    }
  }

  /** One endless frame makes the loop endless. */
  lemma {:induction false} EndlessFrameEndlessLoop(frames: seq<Frame>)
    ensures Total(frames).Forever? <==> exists i :: 0 <= i < |frames| && frames[i].timeout.Forever?
  {
    if frames != [] {
      var n := |frames| - 1;
      EndlessFrameEndlessLoop(frames[..n]);
      if frames[n].timeout.Ms? && exists i :: 0 <= i < |frames| && frames[i].timeout.Forever? {
        var i :| 0 <= i < |frames| && frames[i].timeout.Forever?;
        assert frames[..n][i].timeout.Forever?;
      }
    }
  }

  /** What a finished decode reports is what going back to the first frame needs. */
  lemma {:induction false} ReportedAreaCoversLoop(d: FrameDecoder, img: Image)
    requires d.Valid() && d.decodeDone && !d.firstFrameDecode
    requires img.Plausible() && img.frames == d.frames[..d.frameCount]
    ensures CoversLoop(img, d.frameCount, d.metadata.refreshArea.value)
    ensures d.metadata.loopLength == Some(Total(img.frames))
  {
    TakesInCovers(img, d.frameCount, d.metadata.refreshArea.value);
  }
}
