/** The frame downscaler of `Downscaler.cpp`. The frame's data may cover only some rows of the original
    image; rows above and below it are committed blank, and output rows go straight to a buffer. */
module Downscaler {
  import opened Geometry
  import opened Filters

  function Blanks(blank: Line, n: nat): (r: seq<Line>)
    ensures |r| == n && forall k :: 0 <= k < n ==> r[k] == blank
  {
    seq(n, _ => blank)
  }

  /** Rows `lo` to `hi` of `n`, scaled to `m` rows: the least whole range of rows around the exact one. */
  function ScaleRoundOut(lo: nat, hi: nat, n: nat, m: nat): (r: (int, int))
    requires lo <= hi <= n && 0 < n
    ensures r.0 * n <= lo * m < (r.0 + 1) * n && (r.1 - 1) * n < hi * m <= r.1 * n
    ensures 0 <= r.0 <= r.1 <= m
  {
    var top, bottom := lo * m / n, (hi * m + n - 1) / n;
    Rounding(lo * m, n);
    Rounding(hi * m + n - 1, n);
    assert lo * m <= hi * m <= m * n by { InOrder(lo, hi, n, m); }
    assert top <= bottom <= m by { RoundedInOrder(lo * m, hi * m, n, m, top, bottom); }
    (top, bottom)
  }

  lemma {:induction false} Rounding(a: nat, n: nat)
    requires 0 < n
    ensures a / n * n <= a < (a / n + 1) * n && 0 <= a / n
  {
    assert a == n * (a / n) + a % n;
  }

  lemma {:induction false} InOrder(lo: nat, hi: nat, n: nat, m: nat)
    requires lo <= hi <= n
    ensures lo * m <= hi * m <= m * n
  {
  }

  lemma {:induction false} RoundedInOrder(a: nat, b: nat, n: nat, m: nat, top: int, bottom: int)
    requires 0 < n && a <= b <= m * n && top * n <= a && (bottom - 1) * n < b <= bottom * n
    ensures top <= bottom <= m
  {
    assert (bottom - 1) * n < m * n;
    assert top * n <= bottom * n;
  }

  class FrameScaler {
    const scaler: Scaler
    const frameRect: IntRect
    const flipVertically: bool
    const blank: Line
    const outputBuffer: array<Line>
    const window: array<Row>
    ghost const rows: set<Row>
    var rowBuffer: Line
    var linesInBuffer: int
    var currentOutLine: int
    var currentInLine: int
    var prevInvalidatedLine: int
    /** The rows committed so far. */
    ghost var fed: seq<Line>

    /** Takes freshly allocated buffers for the window. The frame rectangle lies inside the image. */
    constructor (s: Scaler, rect: IntRect, flip: bool, zeros: Line, out: array<Line>, w: array<Row>,
                 ghost buffers: set<Row>)
      requires s.Valid() && s.inputHeight > 0 && out.Length == |s.filters|
      requires w.Length == s.MaxLength() && Distinct(w) && forall i :: 0 <= i < w.Length ==> w[i] in buffers
      requires 0 <= rect.y && 0 <= rect.height && rect.y + rect.height <= s.inputHeight
      ensures Valid() && fed == [] && scaler == s && frameRect == rect && flipVertically == flip && blank == zeros
      ensures outputBuffer == out && window == w && rows == buffers && currentOutLine == prevInvalidatedLine == 0
    {
      scaler, frameRect, flipVertically, blank, outputBuffer, window, rows := s, rect, flip, zeros, out, w, buffers;
      rowBuffer, linesInBuffer, currentOutLine, currentInLine, prevInvalidatedLine, fed := [], 0, 0, 0, 0, [];
    }

    /** Where output row `o` is stored. */
    function Slot(o: int): int {
      if flipVertically then |scaler.filters| - (o + 1) else o
    }

    ghost predicate Written()
      reads this`currentOutLine, this`fed, outputBuffer
    {
      && outputBuffer.Length == |scaler.filters| && 0 <= currentOutLine <= |scaler.filters|
      && forall o :: 0 <= o < currentOutLine ==>
           scaler.filters[o].End() <= |fed| && outputBuffer[Slot(o)] == scaler.Batch(fed, o)
    }

    ghost predicate Buffered()
      reads this`currentOutLine, this`fed, this`linesInBuffer, window, rows, outputBuffer
      requires Written()
    {
      && window.Length == scaler.MaxLength() && Distinct(window)
      && (forall i :: 0 <= i < window.Length ==> window[i] in rows)
      && (currentOutLine < |scaler.filters| ==>
            var f := scaler.filters[currentOutLine];
            && 0 <= linesInBuffer <= f.length && |fed| <= f.offset + linesInBuffer
            && (linesInBuffer > 0 ==> |fed| == f.offset + linesInBuffer &&
                                      Holds(scaler, window, rows, linesInBuffer, fed, f.offset)))
    }

    ghost predicate Valid()
      reads this, window, rows, outputBuffer
    {
      && scaler.Valid() && scaler.inputHeight > 0 && Written() && Buffered()
      && 0 <= frameRect.y && 0 <= frameRect.height && FrameEnd() <= scaler.inputHeight
      && currentInLine == |fed| <= scaler.inputHeight
      && 0 <= prevInvalidatedLine <= currentOutLine
      && (currentOutLine < |scaler.filters| ==> linesInBuffer < scaler.filters[currentOutLine].length)
    }

    function FrameEnd(): int {
      frameRect.y + frameRect.height
    }

    method FillRow(line: Line)
      requires Valid()
      modifies this`rowBuffer
      ensures Valid() && rowBuffer == line
    {
      rowBuffer := line;
    }

    /** Commits the row in the row buffer; past the frame's last row, blank rows follow at once. */
    method CommitRow()
      requires Valid() && currentInLine < scaler.inputHeight
      modifies this, rows, window, outputBuffer
      ensures Valid() && old(|fed|) < |fed| && old(currentOutLine) <= currentOutLine
      ensures prevInvalidatedLine == old(prevInvalidatedLine) && (rowBuffer == old(rowBuffer) || rowBuffer == blank)
      ensures |fed| == if old(|fed|) + 1 == FrameEnd() then Max(FrameEnd(), scaler.inputHeight - 1) else old(|fed|) + 1
      ensures fed == old(fed) + [old(rowBuffer)] + Blanks(blank, |fed| - old(|fed|) - 1)
      decreases scaler.inputHeight - currentInLine, 0
    {
      hide Holds;
      hide FrameScaler.Written;
      hide FrameScaler.Buffered;
      PutRow();
      ghost var committed := fed;
      if currentInLine == FrameEnd() {
        SkipToRow(scaler.inputHeight - 1);
      }
      assert fed == committed + Blanks(blank, |fed| - |committed|);
    }

    /** Takes one row and writes every output row it completes. */
    method PutRow()
      requires Valid() && currentInLine < scaler.inputHeight
      modifies this`linesInBuffer, this`fed, this`currentOutLine, this`currentInLine, rows, window, outputBuffer
      ensures Valid() && fed == old(fed) + [rowBuffer] && old(currentOutLine) <= currentOutLine
    {
      hide Holds;
      hide FrameScaler.Buffered;
      hide FrameScaler.Written;
      OutputIsSized();
      if currentOutLine < |scaler.filters| {
        TakeLine();
        WriteComplete();
        OutputIsSized();
      } else {
        PassLine();
      }
      currentInLine := currentInLine + 1;
    }

    /** With every output row written, a row changes nothing. */
    method PassLine()
      requires Valid() && currentOutLine == |scaler.filters|
      modifies this`fed
      ensures Written() && Buffered() && fed == old(fed) + [rowBuffer]
    {
      hide Holds;
      ghost var before := fed;
      fed := fed + [rowBuffer];
      StillWritten(before);
    }

    /** Writes the output rows that need no row beyond those in the window. */
    method WriteComplete()
      requires scaler.Valid() && Written() && Buffered()
      modifies this`linesInBuffer, this`currentOutLine, window, outputBuffer
      ensures Written() && Buffered() && old(currentOutLine) <= currentOutLine
      ensures currentOutLine < |scaler.filters| ==> linesInBuffer < scaler.filters[currentOutLine].length
    {
      while currentOutLine < |scaler.filters| && linesInBuffer >= scaler.filters[currentOutLine].length
        invariant Written() && Buffered() && old(currentOutLine) <= currentOutLine
        decreases |scaler.filters| - currentOutLine
      {
        DownscaleInputLine();
      }
    }

    /** Commits blank rows until `row` is the next one. */
    method SkipToRow(row: int)
      requires Valid() && row < scaler.inputHeight
      modifies this, rows, window, outputBuffer
      ensures Valid() && old(currentOutLine) <= currentOutLine && prevInvalidatedLine == old(prevInvalidatedLine)
      ensures rowBuffer == old(rowBuffer) || rowBuffer == blank
      ensures |fed| == if row <= old(|fed|) then old(|fed|)
                       else if old(|fed|) < FrameEnd() <= row then scaler.inputHeight - 1 else row
      ensures fed == old(fed) + Blanks(blank, |fed| - old(|fed|))
      decreases scaler.inputHeight - currentInLine, 1
    {
      hide Holds;
      hide FrameScaler.Written;
      hide FrameScaler.Buffered;
      if currentInLine < row {
        FillRow(blank);
        while currentInLine < row
          invariant Valid() && rowBuffer == blank && old(|fed|) <= |fed|
          invariant old(currentOutLine) <= currentOutLine && prevInvalidatedLine == old(prevInvalidatedLine)
          invariant fed == old(fed) + Blanks(blank, |fed| - old(|fed|))
          invariant (|fed| <= row && !(old(|fed|) < FrameEnd() <= |fed|)) ||
                    (|fed| == scaler.inputHeight - 1 && old(|fed|) < FrameEnd() <= row)
          decreases scaler.inputHeight - currentInLine
        {
          CommitRow();
        }
      }
    }

    /** Downscales the row horizontally into the window if the next output row needs it. */
    method TakeLine()
      requires Valid() && currentInLine < scaler.inputHeight && currentOutLine < |scaler.filters|
      modifies this`linesInBuffer, this`fed, rows
      ensures Written() && Buffered() && fed == old(fed) + [rowBuffer]
    {
      var f := scaler.filters[currentOutLine];
      ghost var before := fed;
      if currentInLine == f.offset + linesInBuffer {
        assert linesInBuffer < window.Length;
        window[linesInBuffer].pixels := scaler.horizontal(rowBuffer);
        linesInBuffer := linesInBuffer + 1;
      }
      fed := fed + [rowBuffer];
      StillWritten(before);
    }

    lemma {:induction false} StillWritten(before: seq<Line>)
      requires outputBuffer.Length == |scaler.filters| && 0 <= currentOutLine <= |scaler.filters| && before <= fed
      requires forall o :: 0 <= o < currentOutLine ==>
                 scaler.filters[o].End() <= |before| && outputBuffer[Slot(o)] == scaler.Batch(before, o)
      ensures Written()
    {
      forall o | 0 <= o < currentOutLine ensures scaler.Batch(before, o) == scaler.Batch(fed, o) {
        scaler.BatchIgnoresLaterRows(before, fed, o);
      }
    }

    method WriteLine()
      requires scaler.Valid() && Written() && Buffered()
      requires currentOutLine < |scaler.filters| && linesInBuffer == scaler.filters[currentOutLine].length
      modifies this`currentOutLine, outputBuffer
      ensures Written() && currentOutLine == old(currentOutLine) + 1
    {
      var f := scaler.filters[currentOutLine];
      WindowIsInput(scaler, window, rows, f.length, fed, f.offset);
      hide WindowRows;
      hide Holds;
      outputBuffer[Slot(currentOutLine)] := scaler.vertical(currentOutLine, WindowRows(window, f.length, rows));
      currentOutLine := currentOutLine + 1;
    }

    lemma {:induction false} OutputIsSized()
      requires Written()
      ensures 0 <= currentOutLine <= |scaler.filters|
    {
    }

    method DownscaleInputLine()
      requires scaler.Valid() && Written() && Buffered()
      requires currentOutLine < |scaler.filters| && linesInBuffer == scaler.filters[currentOutLine].length
      modifies this`currentOutLine, this`linesInBuffer, window, outputBuffer
      ensures Written() && Buffered() && currentOutLine == old(currentOutLine) + 1
    {
      hide Holds;
      hide FrameScaler.Written;
      OutputIsSized();
      WriteLine();
      if currentOutLine == |scaler.filters| {
        return;
      }
      linesInBuffer := Slide(scaler, window, currentOutLine - 1, rows, fed);
    }

    method Restart()
      requires Valid()
      modifies this`prevInvalidatedLine, this`currentOutLine, this`currentInLine, this`linesInBuffer, this`fed
      ensures Valid() && fed == [] && prevInvalidatedLine == 0
    {
      prevInvalidatedLine, currentOutLine, currentInLine, linesInBuffer := 0, 0, 0, 0;
      fed := [];
    }

    /** Starts a pass over the frame by committing the blank rows above its data. */
    method ResetForNextProgressivePass()
      requires Valid()
      modifies this, rows, window, outputBuffer
      ensures Valid() && prevInvalidatedLine == 0
      ensures fed == Blanks(blank, if frameRect.IsEmpty() then scaler.inputHeight - 1 else frameRect.y)
    {
      Restart();
      hide Holds;
      hide FrameScaler.Written;
      hide FrameScaler.Buffered;
      if frameRect.IsEmpty() {
        SkipToRow(scaler.inputHeight - 1);
      } else {
        SkipToRow(frameRect.y);
      }
    }

    /** Takes the output rows written since the last call, as a row range of the target and, scaled and rounded
        outwards, of the original image. */
    method TakeInvalidRect() returns (y: int, height: int, originalY: int, originalHeight: int)
      requires Valid()
      modifies this`prevInvalidatedLine
      ensures Valid() && prevInvalidatedLine == currentOutLine
      ensures !flipVertically ==> forall o {:trigger scaler.filters[o]} :: 0 <= o < |scaler.filters| ==>
                (y <= o < y + height <==> old(prevInvalidatedLine) <= o < currentOutLine)
      ensures flipVertically ==> forall o {:trigger scaler.filters[o]} :: 0 <= o < |scaler.filters| ==>
                (y <= |scaler.filters| - 1 - o < y + height <==> old(prevInvalidatedLine) <= o < currentOutLine)
      ensures 0 <= y <= y + height <= |scaler.filters|
      ensures if old(prevInvalidatedLine) < currentOutLine
              then (originalY, originalY + originalHeight) ==
                   ScaleRoundOut(y, y + height, |scaler.filters|, scaler.inputHeight)
              else height == originalHeight == 0
    {
      hide ScaleRoundOut;
      hide Holds;
      if currentOutLine <= prevInvalidatedLine {
        return 0, 0, 0, 0;
      }
      y := if flipVertically then |scaler.filters| - currentOutLine else prevInvalidatedLine;
      height := currentOutLine - prevInvalidatedLine;
      prevInvalidatedLine := currentOutLine;
      var (top, bottom) := ScaleRoundOut(y, y + height, |scaler.filters|, scaler.inputHeight);
      originalY, originalHeight := top, bottom - top;
    }

    /** An output row has been written exactly when its last input row has been committed. */
    lemma {:induction false} WrittenWhenCommitted(o: nat)
      requires Valid() && o < |scaler.filters|
      ensures o < currentOutLine <==> scaler.filters[o].End() <= |fed|
    {
      if currentOutLine < o {
        assert scaler.filters[currentOutLine].End() <= scaler.filters[o].End();
      }
    }

    /** After a whole frame, all but possibly the last row of the image have been committed. */
    ghost predicate FrameDone(lines: seq<Line>)
      requires Valid()
      reads this, rows, window, outputBuffer
    {
      && |lines| == frameRect.height
      && |fed| == Max(FrameEnd(), scaler.inputHeight - 1)
      && fed == Blanks(blank, frameRect.y) + lines + Blanks(blank, |fed| - FrameEnd())
    }

    /** All output rows are written exactly when the frame's data reaches the bottom of the image, or no
        output row needs the last input row. */
    lemma {:induction false} AllWrittenIff(lines: seq<Line>)
      requires Valid() && FrameDone(lines) && scaler.filters != []
      ensures currentOutLine == |scaler.filters| <==>
              FrameEnd() == scaler.inputHeight || scaler.filters[|scaler.filters| - 1].End() < scaler.inputHeight
    {
      WrittenWhenCommitted(|scaler.filters| - 1);
    }

    /** The frame's data with blank rows above and below. */
    function Padded(lines: seq<Line>): (r: seq<Line>)
      requires 0 <= frameRect.y && |lines| == frameRect.height && FrameEnd() <= scaler.inputHeight
      ensures |r| == scaler.inputHeight && r[frameRect.y..FrameEnd()] == lines
    {
      Blanks(blank, frameRect.y) + lines + Blanks(blank, scaler.inputHeight - FrameEnd())
    }

    /** What is written is the whole-image downscale of the padded frame, from the first row of the output down,
        or from the last one up when it is flipped. */
    lemma {:induction false} WrittenIsBatch(lines: seq<Line>, o: nat)
      requires Valid() && FrameDone(lines) && o < currentOutLine
      ensures !flipVertically ==> outputBuffer[o] == scaler.Batch(Padded(lines), o)
      ensures flipVertically ==> outputBuffer[|scaler.filters| - 1 - o] == scaler.Batch(Padded(lines), o)
    {
      assert fed <= Padded(lines);
      scaler.BatchIgnoresLaterRows(fed, Padded(lines), o);
    }
  }

  /** Decodes one frame: a reset, then one commit per row of the frame's data. */
  method DownscaleFrame(d: FrameScaler, lines: seq<Line>)
    requires d.Valid() && |lines| == d.frameRect.height && !d.frameRect.IsEmpty()
    modifies d, d.rows, d.window, d.outputBuffer
    ensures d.Valid() && d.FrameDone(lines)
    ensures !d.flipVertically ==> forall o :: 0 <= o < d.currentOutLine ==>
              d.outputBuffer[o] == d.scaler.Batch(d.Padded(lines), o)
    ensures d.flipVertically ==> forall o :: 0 <= o < d.currentOutLine ==>
              d.outputBuffer[|d.scaler.filters| - 1 - o] == d.scaler.Batch(d.Padded(lines), o)
  {
    DecodeFrame(d, lines);
    forall o | 0 <= o < d.currentOutLine
      ensures !d.flipVertically ==> d.outputBuffer[o] == d.scaler.Batch(d.Padded(lines), o)
      ensures d.flipVertically ==>
                d.outputBuffer[|d.scaler.filters| - 1 - o] == d.scaler.Batch(d.Padded(lines), o)
    {
      d.WrittenIsBatch(lines, o);
    }
  }

  method DecodeFrame(d: FrameScaler, lines: seq<Line>)
    requires d.Valid() && |lines| == d.frameRect.height && !d.frameRect.IsEmpty()
    modifies d, d.rows, d.window, d.outputBuffer
    ensures d.Valid() && d.FrameDone(lines)
  {
    hide Holds;
    hide FrameScaler.Written;
    hide FrameScaler.Buffered;
    d.ResetForNextProgressivePass();
    var y := d.frameRect.y;
    ghost var above := d.fed;
    for i := 0 to |lines|
      invariant d.Valid()
      invariant i < |lines| ==> d.fed == above + lines[..i]
      invariant i == |lines| ==> d.FrameDone(lines)
    {
      d.FillRow(lines[i]);
      ghost var before := d.fed;
      d.CommitRow();
      assert lines[..i + 1] == lines[..i] + [lines[i]];
      assert i + 1 == |lines| ==> lines[..i + 1] == lines;
      assert before + [lines[i]] == above + lines[..i + 1];
    }
  }

  /** A frame of one row in an image of two, whose only output row needs both: it is never written. */
  method LastRowIsMissing() returns (d: FrameScaler)
    ensures d.Valid() && d.FrameDone([[7]])
    ensures d.scaler.inputHeight == 2 && d.FrameEnd() == 1 && d.scaler.filters == [Filter(0, 2)] &&
            d.currentOutLine == 0
  {
    var s := Scaler(2, [Filter(0, 2)], line => line, (_, lines) => if lines == [] then [] else lines[0]);
    var a := new Row();
    var b := new Row();
    var window := new Row[] [a, b];
    var output := new Line[] [[]];
    d := new FrameScaler(s, IntRect(0, 0, 1, 1), false, [0], output, window, {a, b});
    DownscaleFrame(d, [[7]]);
    d.AllWrittenIff([[7]]);
  }
}
