/** Vertical downscaling filters and the whole-image downscale they define. The filter table and both
    convolutions come from the Skia library and stay uninterpreted. */
module Filters {
  import opened Geometry

  type Line = seq<int>

  /** Output row `o` is computed from `length` input rows starting at `offset`. */
  datatype Filter = Filter(offset: nat, length: nat) {
    function End(): nat {
      offset + length
    }
  }

  datatype Scaler = Scaler(inputHeight: nat, filters: seq<Filter>, horizontal: Line -> Line,
                           vertical: (nat, seq<Line>) -> Line) {

    /** Filters read at least one row, no row past the input, and never step back at either end. */
    ghost predicate Valid() {
      && (forall o :: 0 <= o < |filters| ==> 1 <= filters[o].length && filters[o].End() <= inputHeight)
      && (forall o, p :: 0 <= o < p < |filters| ==>
            filters[o].offset <= filters[p].offset && filters[o].End() <= filters[p].End())
    }

    /** The widest filter. */
    function MaxLength(): (m: nat)
      ensures forall o :: 0 <= o < |filters| ==> filters[o].length <= m
      ensures filters != [] ==> exists o :: 0 <= o < |filters| && filters[o].length == m
    {
      MaxOf(filters)
    }

    /** Output row `o` of the whole-image downscale. */
    function Batch(input: seq<Line>, o: nat): Line
      requires o < |filters| && filters[o].End() <= |input|
    {
      vertical(o, Shrunk(input, filters[o].offset, filters[o].length))
    }

    /** An output row depends on no input past its filter. */
    lemma {:induction false} BatchIgnoresLaterRows(a: seq<Line>, b: seq<Line>, o: nat)
      requires o < |filters| && filters[o].End() <= |a| && a <= b
      ensures Batch(a, o) == Batch(b, o)
    {
      var f := filters[o];
      assert Shrunk(a, f.offset, f.length) == Shrunk(b, f.offset, f.length);
    }

    /** `n` input rows from `first` on, downscaled horizontally. */
    function Shrunk(input: seq<Line>, first: nat, n: nat): (r: seq<Line>)
      requires first + n <= |input|
      ensures |r| == n && forall k :: 0 <= k < n ==> r[k] == horizontal(input[first + k])
    {
      seq(n, k requires 0 <= k < n => horizontal(input[first + k]))
    }
  }

  function MaxOf(filters: seq<Filter>): (m: nat)
    ensures forall o :: 0 <= o < |filters| ==> filters[o].length <= m
    ensures filters != [] ==> exists o :: 0 <= o < |filters| && filters[o].length == m
  {
    if filters == [] then 0
    else
      var n := |filters| - 1;
      var m := MaxOf(filters[..n]);
      if m < filters[n].length then filters[n].length
      else
        assert n > 0 ==> exists o :: 0 <= o < n && filters[..n][o].length == m && filters[o].length == m;
        assert n == 0 ==> filters[0].length == m;
        m
  }

  /** One buffer of the sliding window, known by its address. */
  class Row {
    var pixels: Line

    constructor () {
      pixels := [];
    }
  }

  /** The first `n` rows of the window hold `input[first..first + n]`, downscaled horizontally. */
  ghost predicate Holds(s: Scaler, window: array<Row>, rows: set<Row>, n: nat, input: seq<Line>, first: nat)
    reads window, rows
  {
    && n <= window.Length && first + n <= |input|
    && (forall i :: 0 <= i < window.Length ==> window[i] in rows)
    && (forall k :: 0 <= k < n ==> window[k].pixels == s.horizontal(input[first + k]))
  }

  /** What the first `n` rows of the window hold. */
  function WindowRows(window: array<Row>, n: nat, ghost rows: set<Row>): (r: seq<Line>)
    requires n <= window.Length && forall i :: 0 <= i < window.Length ==> window[i] in rows
    reads window, rows
    ensures |r| == n && forall k :: 0 <= k < n ==> r[k] == window[k].pixels
  {
    if n == 0 then [] else WindowRows(window, n - 1, rows) + [window[n - 1].pixels]
  }

  lemma {:induction false} WindowIsInput(s: Scaler, window: array<Row>, rows: set<Row>, n: nat, input: seq<Line>,
                                         first: nat)
    requires Holds(s, window, rows, n, input, first)
    ensures WindowRows(window, n, rows) == s.Shrunk(input, first, n)
  {
  }

  /** No two slots of the window share a buffer. */
  ghost predicate Distinct(window: array<Row>)
    reads window
  {
    forall i, j :: 0 <= i < j < window.Length ==> window[i] != window[j]
  }

  /** Brings the last `keep` of the first `filterLength` buffers to the front by swapping pointers. */
  method KeepLast(window: array<Row>, filterLength: nat, keep: nat, ghost rows: set<Row>)
    requires keep < filterLength <= window.Length && Distinct(window)
    requires forall i :: 0 <= i < window.Length ==> window[i] in rows
    modifies window
    ensures Distinct(window)
    ensures forall i :: 0 <= i < window.Length ==> window[i] in rows
    ensures forall k :: 0 <= k < keep ==> window[k] == old(window[filterLength - keep + k])
  {
    var shift := filterLength - keep;
    for i := 0 to keep
      invariant Distinct(window)
      invariant forall i :: 0 <= i < window.Length ==> window[i] in rows
      invariant forall k :: 0 <= k < i ==> window[k] == old(window[shift + k])
      invariant forall k :: shift + i <= k < filterLength ==> window[k] == old(window[k])
    {
      window[i], window[shift + i] := window[shift + i], window[i];
    }
  }

  /** Moves the window from the rows of one filter to those of the next, keeping the rows both need.
      `inWindow` rows are left, and what is missing of the next filter is still to be fed. */
  method Slide(s: Scaler, window: array<Row>, o: nat, ghost rows: set<Row>, ghost fed: seq<Line>)
      returns (inWindow: nat)
    requires s.Valid() && o + 1 < |s.filters| && window.Length == s.MaxLength() && Distinct(window)
    requires |fed| == s.filters[o].End() && Holds(s, window, rows, s.filters[o].length, fed, s.filters[o].offset)
    modifies window
    ensures Distinct(window) && forall i :: 0 <= i < window.Length ==> window[i] in rows
    ensures inWindow <= s.filters[o + 1].length && |fed| <= s.filters[o + 1].offset + inWindow
    ensures inWindow > 0 ==> |fed| == s.filters[o + 1].offset + inWindow &&
                             Holds(s, window, rows, inWindow, fed, s.filters[o + 1].offset)
  {
    var f, g := s.filters[o], s.filters[o + 1];
    var diff := g.offset - f.offset;
    inWindow := Min(Max(f.length - diff, 0), window.Length);
    if f.length > inWindow {
      KeepLast(window, f.length, inWindow, rows);
    }
  }
}
