/** The streaming downscaler of `DownscalingFilter.h`: input rows come one at a time, the window keeps
    the last few of them downscaled horizontally, and output rows go to the next filter when complete. */
module DownscalingFilter {
  import opened Filters

  class Stream {
    const scaler: Scaler
    var rowBuffer: Line
    const window: array<Row>
    ghost const rows: set<Row>
    var rowsInWindow: int
    var inputRow: int
    var outputRow: int
    /** The rows written to the next filter. */
    var output: seq<Line>
    /** The rows fed so far. */
    ghost var fed: seq<Line>

    /** Takes freshly allocated buffers for the window, as many as the widest filter has rows. */
    constructor (s: Scaler, w: array<Row>, ghost buffers: set<Row>)
      requires s.Valid() && w.Length == s.MaxLength() && Distinct(w)
      requires forall i :: 0 <= i < w.Length ==> w[i] in buffers
      ensures Valid() && scaler == s && window == w && rows == buffers && fed == [] && output == []
    {
      scaler, window, rows := s, w, buffers;
      rowBuffer, rowsInWindow, inputRow, outputRow, output, fed := [], 0, 0, 0, [], [];
    }

    /** The rows written are the first rows of the whole-image downscale of what was fed. */
    ghost predicate Written()
      reads this`outputRow, this`output, this`fed
    {
      && 0 <= outputRow <= |scaler.filters| && |output| == outputRow
      && forall o :: 0 <= o < outputRow ==>
           scaler.filters[o].End() <= |fed| && output[o] == scaler.Batch(fed, o)
    }

    /** The window holds the rows the next output row needs that have been fed already. */
    ghost predicate Buffered()
      reads this`outputRow, this`output, this`fed, this`rowsInWindow, window, rows
      requires Written()
    {
      && window.Length == scaler.MaxLength() && Distinct(window)
      && (forall i :: 0 <= i < window.Length ==> window[i] in rows)
      && (outputRow < |scaler.filters| ==>
            var f := scaler.filters[outputRow];
            && 0 <= rowsInWindow <= f.length && |fed| <= f.offset + rowsInWindow
            && (rowsInWindow > 0 ==> |fed| == f.offset + rowsInWindow &&
                                     Holds(scaler, window, rows, rowsInWindow, fed, f.offset)))
    }

    ghost predicate Valid()
      reads this, window, rows
    {
      && scaler.Valid() && Written() && Buffered()
      && inputRow == |fed| <= scaler.inputHeight
      && (outputRow < |scaler.filters| ==> rowsInWindow < scaler.filters[outputRow].length)
    }

    /** Starts over at the first row. */
    method ResetToFirstRow()
      requires Valid()
      modifies this
      ensures Valid() && fed == [] && output == []
    {
      inputRow, outputRow, rowsInWindow := 0, 0, 0;
      output, fed := [], [];
    }

    /** The caller writes the next input row into the row buffer. */
    method FillRow(line: Line)
      requires Valid()
      modifies this`rowBuffer
      ensures Valid() && rowBuffer == line
    {
      rowBuffer := line;
    }

    /** Takes the row in the row buffer; says whether another one is wanted. */
    method AdvanceRow() returns (more: bool)
      requires Valid()
      modifies this, rows, window
      ensures Valid() && rowBuffer == old(rowBuffer)
      ensures if old(|fed|) < scaler.inputHeight && old(outputRow) < |scaler.filters|
              then fed == old(fed) + [rowBuffer] && more == (|fed| < scaler.inputHeight)
              else fed == old(fed) && output == old(output) && !more
      ensures old(output) <= output
    {
      if inputRow >= scaler.inputHeight {
        return false;
      }
      if outputRow >= |scaler.filters| {
        return false;
      }
      TakeRow();
      while outputRow < |scaler.filters| && rowsInWindow >= scaler.filters[outputRow].length
        invariant Written() && Buffered() && fed == old(fed) + [rowBuffer] && inputRow == old(inputRow)
        invariant old(output) <= output && rowBuffer == old(rowBuffer)
        decreases |scaler.filters| - outputRow
      {
        DownscaleInputRow();
      }
      inputRow := inputRow + 1;
      return inputRow < scaler.inputHeight;
    }

    /** Downscales the row horizontally into the window if the next output row needs it. */
    method TakeRow()
      requires Valid() && inputRow < scaler.inputHeight && outputRow < |scaler.filters|
      modifies this`rowsInWindow, this`fed, rows
      ensures Written() && Buffered() && fed == old(fed) + [rowBuffer]
    {
      var f := scaler.filters[outputRow];
      var inputRowToRead := f.offset + rowsInWindow;
      assert inputRow <= inputRowToRead;
      ghost var old_ := fed;
      if inputRow == inputRowToRead {
        // the release assertion: the window has room
        assert rowsInWindow < window.Length;
        window[rowsInWindow].pixels := scaler.horizontal(rowBuffer);
        rowsInWindow := rowsInWindow + 1;
      }
      fed := fed + [rowBuffer];
      StillWritten(old_);
    }

    /** Feeding another row does not change what was written from the earlier ones. */
    lemma {:induction false} StillWritten(before: seq<Line>)
      requires 0 <= outputRow <= |scaler.filters| && |output| == outputRow && before <= fed
      requires forall o :: 0 <= o < outputRow ==>
                 scaler.filters[o].End() <= |before| && output[o] == scaler.Batch(before, o)
      ensures Written()
    {
      forall o | 0 <= o < outputRow ensures scaler.Batch(before, o) == scaler.Batch(fed, o) {
        scaler.BatchIgnoresLaterRows(before, fed, o);
      }
    }

    method WriteRow()
      requires scaler.Valid() && Written() && Buffered()
      requires outputRow < |scaler.filters| && rowsInWindow == scaler.filters[outputRow].length
      modifies this`output, this`outputRow
      ensures Written() && outputRow == old(outputRow) + 1 && old(output) <= output
    {
      var f := scaler.filters[outputRow];
      WindowIsInput(scaler, window, rows, f.length, fed, f.offset);
      output := output + [scaler.vertical(outputRow, WindowRows(window, f.length, rows))];
      outputRow := outputRow + 1;
    }

    /** Writes one output row and moves the window on to the next filter. */
    method DownscaleInputRow()
      requires scaler.Valid() && Written() && Buffered()
      requires outputRow < |scaler.filters| && rowsInWindow == scaler.filters[outputRow].length
      modifies this`output, this`outputRow, this`rowsInWindow, window
      ensures Written() && Buffered() && outputRow == old(outputRow) + 1 && old(output) <= output
    {
      WriteRow();
      if outputRow == |scaler.filters| {
        return;
      }
      rowsInWindow := Slide(scaler, window, outputRow - 1, rows, fed);
    }

    /** An output row is written as soon as its last input row has been fed, and not before. */
    lemma {:induction false} WrittenWhenComplete(o: nat)
      requires Valid() && o < |scaler.filters|
      ensures o < outputRow <==> scaler.filters[o].End() <= |fed|
    {
      if outputRow < o {
        assert scaler.filters[outputRow].End() <= scaler.filters[o].End();
      }
    }

    /** With the whole image fed, every output row has been written. */
    lemma {:induction false} AllWritten()
      requires Valid()
      ensures |fed| == scaler.inputHeight ==> outputRow == |scaler.filters|
    {
    }
  }

  /** Feeding a whole image row by row writes its whole-image downscale. */
  method Downscale(stream: Stream, input: seq<Line>)
    requires stream.Valid() && stream.fed == [] && |input| == stream.scaler.inputHeight
    modifies stream, stream.rows, stream.window
    ensures stream.Valid() && |stream.output| == |stream.scaler.filters|
    ensures forall o :: 0 <= o < |stream.output| ==> stream.output[o] == stream.scaler.Batch(input, o)
  {
    hide Holds;
    hide Stream.Buffered;
    ghost var n := |stream.scaler.filters|;
    for i := 0 to |input|
      invariant stream.Valid() && stream.fed <= input
      invariant stream.outputRow == n || stream.fed == input[..i]
    {
      stream.FillRow(input[i]);
      assert input[..i + 1] == input[..i] + [input[i]];
      var _ := stream.AdvanceRow();
    }
    stream.AllWritten();
    forall o | 0 <= o < n ensures stream.scaler.Batch(stream.fed, o) == stream.scaler.Batch(input, o) {
      stream.scaler.BatchIgnoresLaterRows(stream.fed, input, o);
    }
  }
}
