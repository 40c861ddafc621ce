/** The outlines `draw` prints: each line hangs under a header that includes it, and each header of a component is
    expanded in just one line. */
module Outlines {
  import opened Graph

  datatype Line = Heading | Header(name: Name, indent: nat) | Blank

  ghost function Named(lines: seq<Line>): set<Name> {
    set l | l in lines && l.Header? :: l.name
  }

  lemma {:induction false} NamedAppend(a: seq<Line>, b: seq<Line>)
    ensures Named(a + b) == Named(a) + Named(b)
  {
  }

  /** What was printed since `start` is what was printed before a call and what the call printed. */
  lemma {:induction false} PrintedSince(start: seq<Line>, before: seq<Line>, now: seq<Line>)
    requires start <= before <= now
    ensures now[|start|..] == before[|start|..] + now[|before|..]
    ensures Named(now[|start|..]) == Named(before[|start|..]) + Named(now[|before|..])
  {
    NamedAppend(before[|start|..], now[|before|..]);
  }

  /** Line `j` is the line that line `k` is indented under, and includes it. */
  ghost predicate Parent(e: Edges, lines: seq<Line>, j: nat, k: nat) {
    && j < k < |lines| && lines[j].Header? && lines[k].Header?
    && lines[j].indent + 1 == lines[k].indent && Edge(e, lines[j].name, lines[k].name)
    && forall m :: j < m < k ==> lines[m].Header? && lines[m].indent >= lines[k].indent
  }

  /** The drawing of `v`: its own line, and below it lines that each hang under the header including them. */
  ghost predicate Outline(e: Edges, lines: seq<Line>, v: Name, indent: nat) {
    && lines != [] && lines[0] == Header(v, indent)
    && forall k :: 0 < k < |lines| ==> lines[k].Header? && lines[k].indent > indent && HangsUnderOne(e, lines, k)
  }

  ghost predicate HangsUnderOne(e: Edges, lines: seq<Line>, k: nat) {
    exists j: nat :: Parent(e, lines, j, k)
  }

  lemma {:induction false} ParentBefore(e: Edges, a: seq<Line>, b: seq<Line>, j: nat, k: nat)
    requires Parent(e, a, j, k)
    ensures Parent(e, a + b, j, k)
  {
    hide Edge;
  }

  lemma {:induction false} ParentAfter(e: Edges, a: seq<Line>, b: seq<Line>, j: nat, k: nat)
    requires Parent(e, b, j, k)
    ensures Parent(e, a + b, |a| + j, |a| + k)
  {
    hide Edge;
    forall m | |a| + j < m < |a| + k ensures (a + b)[m].Header? && (a + b)[m].indent >= b[k].indent {
      assert (a + b)[m] == b[m - |a|];
    }
  }

  lemma {:induction false} ParentOfCall(e: Edges, lines: seq<Line>, v: Name, indent: nat, sub: seq<Line>, w: Name)
    requires Outline(e, lines, v, indent) && Outline(e, sub, w, indent + 1) && Edge(e, v, w)
    ensures Parent(e, lines + sub, 0, |lines|)
  {
    hide Edge;
    hide Parent;
    assert forall m :: 0 < m < |lines| ==> (lines + sub)[m].Header? && (lines + sub)[m].indent >= indent + 1;
    assert (lines + sub)[|lines|] == Header(w, indent + 1);
    IsParent(e, lines + sub, 0, |lines|, v, w, indent);
  }

  lemma {:induction false} IsParent(e: Edges, lines: seq<Line>, j: nat, k: nat, v: Name, w: Name, indent: nat)
    requires j < k < |lines| && lines[j] == Header(v, indent) && lines[k] == Header(w, indent + 1) && Edge(e, v, w)
    requires forall m :: j < m < k ==> lines[m].Header? && lines[m].indent >= indent + 1
    ensures Parent(e, lines, j, k)
  {
  }

  lemma {:induction false} OutlineGrows(e: Edges, lines: seq<Line>, v: Name, indent: nat, sub: seq<Line>, w: Name)
    requires Outline(e, lines, v, indent) && Outline(e, sub, w, indent + 1) && Edge(e, v, w)
    ensures Outline(e, lines + sub, v, indent)
  {
    FrontHangs(e, lines, sub, v, indent);
    BackHangs(e, lines, sub, w, indent + 1);
    ParentOfCall(e, lines, v, indent, sub, w);
    assert HangsUnderOne(e, lines + sub, |lines|);
    hide HangsUnderOne;
  }

  lemma {:induction false} FrontHangs(e: Edges, lines: seq<Line>, sub: seq<Line>, v: Name, indent: nat)
    requires Outline(e, lines, v, indent)
    ensures forall k :: 0 < k < |lines| ==> (lines + sub)[k] == lines[k] && HangsUnderOne(e, lines + sub, k)
  {
    hide Parent;
    forall k | 0 < k < |lines| ensures HangsUnderOne(e, lines + sub, k) {
      assert HangsUnderOne(e, lines, k);
      var j: nat :| Parent(e, lines, j, k);
      ParentBefore(e, lines, sub, j, k);
    }
  }

  lemma {:induction false} BackHangs(e: Edges, lines: seq<Line>, sub: seq<Line>, w: Name, indent: nat)
    requires Outline(e, sub, w, indent)
    ensures forall k :: |lines| < k < |lines + sub| ==>
              (lines + sub)[k].Header? && (lines + sub)[k].indent > indent && HangsUnderOne(e, lines + sub, k)
  {
    hide Parent;
    forall k | |lines| < k < |lines + sub|
      ensures (lines + sub)[k].Header? && (lines + sub)[k].indent > indent && HangsUnderOne(e, lines + sub, k)
    {
      var i := k - |lines|;
      assert (lines + sub)[k] == sub[i] && HangsUnderOne(e, sub, i);
      var j: nat :| Parent(e, sub, j, i);
      ParentAfter(e, lines, sub, j, i);
    }
  }

  // Which includes are drawn

  /** Line `k` hangs under line `j` and is of `w`. */
  ghost predicate Under(e: Edges, lines: seq<Line>, j: nat, k: nat, w: Name) {
    Parent(e, lines, j, k) && lines[k].name == w
  }

  ghost predicate HasUnder(e: Edges, lines: seq<Line>, j: nat, w: Name) {
    exists k: nat :: Under(e, lines, j, k, w)
  }

  /** Under line `j` hangs one line for each of the names, and no other. */
  ghost predicate Shows(e: Edges, lines: seq<Line>, j: nat, names: set<Name>) {
    && (forall k: nat, w :: Under(e, lines, j, k, w) ==> w in names)
    && (forall w :: w in names ==> HasUnder(e, lines, j, w))
    && (forall k: nat, l: nat, w :: Under(e, lines, j, k, w) && Under(e, lines, j, l, w) ==> k == l)
  }

  /** Line `j` is of `x`, and under it hangs everything in the component that `x` includes. */
  ghost predicate Expands(e: Edges, lines: seq<Line>, part: set<Name>, j: nat, x: Name) {
    x in e && j < |lines| && lines[j].Header? && lines[j].name == x && Shows(e, lines, j, e[x] * part)
  }

  ghost predicate Expanded(e: Edges, lines: seq<Line>, part: set<Name>, from: nat, x: Name) {
    exists j: nat :: from <= j && Expands(e, lines, part, j, x)
  }

  ghost predicate ShowsAllOrNone(e: Edges, lines: seq<Line>, part: set<Name>, names: set<Name>, j: nat) {
    Shows(e, lines, j, {}) || exists x :: x in names && Expands(e, lines, part, j, x)
  }

  /** From line `from` on, each of the names is expanded in one line, and nothing hangs under any other line. */
  ghost predicate ExpandedOnce(e: Edges, lines: seq<Line>, part: set<Name>, names: set<Name>, from: nat) {
    && (forall j: nat :: from <= j < |lines| ==> ShowsAllOrNone(e, lines, part, names, j))
    && (forall x :: x in names ==> Expanded(e, lines, part, from, x))
    && (forall i: nat, j: nat, x :: from <= i && from <= j && Opens(e, lines, part, i, x) && Opens(e, lines, part, j, x)
          ==> i == j)
  }

  ghost predicate Opens(e: Edges, lines: seq<Line>, part: set<Name>, j: nat, x: Name) {
    Expands(e, lines, part, j, x) && !Shows(e, lines, j, {})
  }

  /** Moving lines to another place changes nothing below them. */
  lemma {:induction false} ShowsMoved(e: Edges, a: seq<Line>, j: nat, b: seq<Line>, i: nat, d: nat, names: set<Name>)
    requires forall k: nat, w :: Under(e, a, j, k, w) ==> Under(e, b, i, k + d, w)
    requires forall k: nat, w :: Under(e, b, i, k, w) ==> k >= d && Under(e, a, j, k - d, w)
    ensures Shows(e, b, i, names) <==> Shows(e, a, j, names)
  {
    hide Under;
    forall w ensures HasUnder(e, b, i, w) <==> HasUnder(e, a, j, w) {
      if k: nat :| Under(e, a, j, k, w) {
        assert Under(e, b, i, k + d, w);
      }
      if k: nat :| Under(e, b, i, k, w) {
        assert Under(e, a, j, k - d, w);
      }
    }
    if Shows(e, a, j, names) {
      forall k: nat, l: nat, w | Under(e, b, i, k, w) && Under(e, b, i, l, w) ensures k == l {
        assert Under(e, a, j, k - d, w) && Under(e, a, j, l - d, w);
      }
    }
    if Shows(e, b, i, names) {
      forall k: nat, l: nat, w | Under(e, a, j, k, w) && Under(e, a, j, l, w) ensures k == l {
        assert Under(e, b, i, k + d, w) && Under(e, b, i, l + d, w);
      }
    }
  }

  /** The same for the lines of a drawing before a deeper one is added. */
  lemma {:induction false} ShowsInFront(e: Edges, lines: seq<Line>, v: Name, indent: nat, sub: seq<Line>, w: Name,
                                        j: nat, names: set<Name>)
    requires Outline(e, lines, v, indent) && Outline(e, sub, w, indent + 1) && Edge(e, v, w) && 0 < j < |lines|
    ensures Shows(e, lines + sub, j, names) <==> Shows(e, lines, j, names)
  {
    hide Under;
    hide Shows;
    hide Outline;
    hide Edge;
    var all := lines + sub;
    forall k: nat, x ensures Under(e, all, j, k, x) <==> Under(e, lines, j, k, x) {
      UnderInFront(e, lines, v, indent, sub, w, j, k, x);
    }
    ShowsMoved(e, lines, j, all, j, 0, names);
  }

  lemma {:induction false} UnderInFront(e: Edges, lines: seq<Line>, v: Name, indent: nat, sub: seq<Line>, w: Name,
                                        j: nat, k: nat, x: Name)
    requires Outline(e, lines, v, indent) && Outline(e, sub, w, indent + 1) && Edge(e, v, w) && 0 < j < |lines|
    ensures Under(e, lines + sub, j, k, x) <==> Under(e, lines, j, k, x)
  {
    ParentOfJoin(e, lines, v, indent, sub, w, j, k);
    hide Outline;
  }

  /** And for the lines of the deeper one. */
  lemma {:induction false} ShowsBehind(e: Edges, lines: seq<Line>, v: Name, indent: nat, sub: seq<Line>, w: Name,
                                       j: nat, names: set<Name>)
    requires Outline(e, lines, v, indent) && Outline(e, sub, w, indent + 1) && Edge(e, v, w)
    ensures Shows(e, lines + sub, j + |lines|, names) <==> Shows(e, sub, j, names)
  {
    hide Under;
    hide Shows;
    hide Outline;
    hide Edge;
    var all, n, i := lines + sub, |lines|, j + |lines|;
    forall k: nat, x | Under(e, sub, j, k, x) ensures Under(e, all, i, k + n, x) {
      UnderBehind(e, lines, v, indent, sub, w, j, k + n, x);
    }
    forall k: nat, x | Under(e, all, i, k, x) ensures k >= n && Under(e, sub, j, k - n, x) {
      UnderBehind(e, lines, v, indent, sub, w, j, k, x);
    }
    ShowsMoved(e, sub, j, all, i, n, names);
  }

  lemma {:induction false} UnderBehind(e: Edges, lines: seq<Line>, v: Name, indent: nat, sub: seq<Line>, w: Name,
                                       j: nat, k: nat, x: Name)
    requires Outline(e, lines, v, indent) && Outline(e, sub, w, indent + 1) && Edge(e, v, w)
    ensures Under(e, lines + sub, j + |lines|, k, x) <==> k >= |lines| && Under(e, sub, j, k - |lines|, x)
  {
    ParentOfJoin(e, lines, v, indent, sub, w, j + |lines|, k);
    hide Outline;
  }

  /** The header at the top gets one line more below it. */
  lemma {:induction false} ShowsOneMore(e: Edges, lines: seq<Line>, v: Name, indent: nat, sub: seq<Line>, w: Name,
                                        names: set<Name>)
    requires Outline(e, lines, v, indent) && Outline(e, sub, w, indent + 1) && Edge(e, v, w)
    requires Shows(e, lines, 0, names) && w !in names
    ensures Shows(e, lines + sub, 0, names + {w})
  {
    var all := lines + sub;
    forall k: nat, x
      ensures Under(e, all, 0, k, x) <==> Under(e, lines, 0, k, x) || (k == |lines| && x == w)
    {
      ParentOfJoin(e, lines, v, indent, sub, w, 0, k);
    }
    hide Under;
    hide Outline;
    forall x | x in names + {w} ensures HasUnder(e, all, 0, x) {
      if x == w {
        assert Under(e, all, 0, |lines|, w);
      } else {
        assert HasUnder(e, lines, 0, x);
        var k: nat :| Under(e, lines, 0, k, x);
        assert Under(e, all, 0, k, x);
      }
    }
  }

  /** One included header more has been drawn below the one at the top. */
  lemma {:induction false} ExpandsMore(e: Edges, lines: seq<Line>, v: Name, indent: nat, sub: seq<Line>, w: Name,
                                       part: set<Name>, names: set<Name>, more: set<Name>)
    requires Outline(e, lines, v, indent) && Outline(e, sub, w, indent + 1) && Edge(e, v, w)
    requires ExpandedOnce(e, lines, part, names, 1) && ExpandedOnce(e, sub, part, more, 0) && names !! more
    ensures ExpandedOnce(e, lines + sub, part, names + more, 1)
  {
    hide Expands;
    hide Opens;
    hide Shows;
    hide Outline;
    hide Edge;
    var all, n := lines + sub, |lines|;
    forall j: nat, x | j > 0
      ensures Expands(e, all, part, j, x) <==>
              if j < n then Expands(e, lines, part, j, x) else Expands(e, sub, part, j - n, x)
      ensures Opens(e, all, part, j, x) <==>
              if j < n then Opens(e, lines, part, j, x) else Opens(e, sub, part, j - n, x)
    {
      ExpandsInJoin(e, lines, v, indent, sub, w, part, j, x);
    }
    forall j: nat | 1 <= j < |all| ensures ShowsAllOrNone(e, all, part, names + more, j) {
      if j < n {
        assert ShowsAllOrNone(e, lines, part, names, j);
        ShowsInFront(e, lines, v, indent, sub, w, j, {});
      } else {
        assert ShowsAllOrNone(e, sub, part, more, j - n);
        ShowsBehind(e, lines, v, indent, sub, w, j - n, {});
      }
    }
    forall x | x in names + more ensures Expanded(e, all, part, 1, x) {
      if x in names {
        assert Expanded(e, lines, part, 1, x);
        var j: nat :| 1 <= j && Expands(e, lines, part, j, x);
        ExpandsInJoin(e, lines, v, indent, sub, w, part, j, x);
        IsInside(e, lines, part, j, x);
      } else {
        assert Expanded(e, sub, part, 0, x);
        var j: nat :| Expands(e, sub, part, j, x);
        FrontNotEmpty(e, lines, v, indent);
        ExpandsInJoin(e, lines, v, indent, sub, w, part, j + n, x);
        assert Expands(e, all, part, j + n, x);
      }
    }
    forall i: nat, j: nat, x | 1 <= i && 1 <= j && Opens(e, all, part, i, x) &&
           Opens(e, all, part, j, x) ensures i == j {
      OpenOnce(e, lines, v, indent, sub, w, part, names, more, i, x);
      OpenOnce(e, lines, v, indent, sub, w, part, names, more, j, x);
    }
  }

  /** An open line in front is of one of the first names, and one behind of the others. */
  lemma {:induction false} OpenOnce(e: Edges, lines: seq<Line>, v: Name, indent: nat, sub: seq<Line>, w: Name,
                                    part: set<Name>, names: set<Name>, more: set<Name>, j: nat, x: Name)
    requires Outline(e, lines, v, indent) && Outline(e, sub, w, indent + 1) && Edge(e, v, w)
    requires ExpandedOnce(e, lines, part, names, 1) && ExpandedOnce(e, sub, part, more, 0)
    requires j > 0 && Opens(e, lines + sub, part, j, x)
    ensures j < |lines| ==> x in names && Opens(e, lines, part, j, x)
    ensures j >= |lines| ==> x in more && Opens(e, sub, part, j - |lines|, x)
  {
    hide Shows;
    hide Outline;
    hide Edge;
    ExpandsInJoin(e, lines, v, indent, sub, w, part, j, x);
    if j < |lines| {
      assert ShowsAllOrNone(e, lines, part, names, j);
    } else {
      assert ShowsAllOrNone(e, sub, part, more, j - |lines|);
    }
  }

  lemma {:induction false} IsInside(e: Edges, lines: seq<Line>, part: set<Name>, j: nat, x: Name)
    requires Expands(e, lines, part, j, x)
    ensures j < |lines|
  {
    hide Shows;
  }

  lemma {:induction false} FrontNotEmpty(e: Edges, lines: seq<Line>, v: Name, indent: nat)
    requires Outline(e, lines, v, indent)
    ensures |lines| > 0
  {
  }

  lemma {:induction false} ExpandsInJoin(e: Edges, lines: seq<Line>, v: Name, indent: nat, sub: seq<Line>, w: Name,
                                         part: set<Name>, j: nat, x: Name)
    requires Outline(e, lines, v, indent) && Outline(e, sub, w, indent + 1) && Edge(e, v, w) && j > 0
    ensures Expands(e, lines + sub, part, j, x) <==>
            if j < |lines| then Expands(e, lines, part, j, x) else Expands(e, sub, part, j - |lines|, x)
    ensures Opens(e, lines + sub, part, j, x) <==>
            if j < |lines| then Opens(e, lines, part, j, x) else Opens(e, sub, part, j - |lines|, x)
  {
    hide Shows;
    hide Outline;
    hide Edge;
    var all, n, names := lines + sub, |lines|, if x in e then e[x] * part else {};
    if j < n {
      assert all[j] == lines[j];
      ShowsInFront(e, lines, v, indent, sub, w, j, names);
      ShowsInFront(e, lines, v, indent, sub, w, j, {});
    } else {
      var i := j - n;
      assert j < |all| ==> all[j] == sub[i];
      assert i + n == j;
      ShowsBehind(e, lines, v, indent, sub, w, i, names);
      ShowsBehind(e, lines, v, indent, sub, w, i, {});
    }
  }

  /** What hangs where once a deeper drawing is added. */
  lemma {:induction false} ParentOfJoin(e: Edges, lines: seq<Line>, v: Name, indent: nat, sub: seq<Line>, w: Name,
                                        j: nat, k: nat)
    requires Outline(e, lines, v, indent) && Outline(e, sub, w, indent + 1) && Edge(e, v, w)
    ensures Parent(e, lines + sub, j, k) <==>
            || Parent(e, lines, j, k)
            || (j == 0 && k == |lines|)
            || (j >= |lines| && k >= |lines| && Parent(e, sub, j - |lines|, k - |lines|))
  {
    if Parent(e, lines, j, k) {
      ParentBefore(e, lines, sub, j, k);
    }
    ParentOfCall(e, lines, v, indent, sub, w);
    if j >= |lines| && k >= |lines| && Parent(e, sub, j - |lines|, k - |lines|) {
      ParentAfter(e, lines, sub, j - |lines|, k - |lines|);
    }
    if Parent(e, lines + sub, j, k) {
      OnlyThese(e, lines, v, indent, sub, w, j, k);
    }
    hide Parent;
    hide Outline;
  }

  lemma {:induction false} OnlyThese(e: Edges, lines: seq<Line>, v: Name, indent: nat, sub: seq<Line>, w: Name,
                                     j: nat, k: nat)
    requires Outline(e, lines, v, indent) && Outline(e, sub, w, indent + 1) && Parent(e, lines + sub, j, k)
    ensures || Parent(e, lines, j, k)
            || (j == 0 && k == |lines|)
            || (j >= |lines| && k >= |lines| && Parent(e, sub, j - |lines|, k - |lines|))
  {
    hide Edge;
    hide HangsUnderOne;
    var all := lines + sub;
    var n := |lines|;
    assert all[n] == Header(w, indent + 1);
    if k < n {
      assert forall m :: 0 <= m < n ==> all[m] == lines[m];
    } else if k == n {
      assert all[j] == lines[j];
    } else {
      assert all[k] == sub[k - n] && all[k].indent > indent + 1;
      assert j >= n;
      assert forall m :: j - n <= m < k - n ==> sub[m] == all[m + n];
    }
  }

  /** A line alone. */
  lemma {:induction false} NothingUnder(e: Edges, line: Line, part: set<Name>)
    ensures Shows(e, [line], 0, {}) && ExpandedOnce(e, [line], part, {}, 0) && ExpandedOnce(e, [line], part, {}, 1)
  {
    assert forall j: nat, k: nat, w :: !Under(e, [line], j, k, w);
  }

  /** Once everything it includes hangs under it, the header at the top is expanded too. */
  lemma {:induction false} TopExpanded(e: Edges, lines: seq<Line>, v: Name, indent: nat, part: set<Name>,
                                       names: set<Name>)
    requires Outline(e, lines, v, indent) && v in e && Shows(e, lines, 0, e[v] * part)
    requires ExpandedOnce(e, lines, part, names, 1) && v !in names
    ensures ExpandedOnce(e, lines, part, names + {v}, 0)
  {
    hide Shows;
    hide Parent;
    assert Expands(e, lines, part, 0, v);
    forall j: nat | j < |lines| ensures ShowsAllOrNone(e, lines, part, names + {v}, j) {
      if j > 0 {
        assert ShowsAllOrNone(e, lines, part, names, j);
      }
    }
    forall x | x in names + {v} ensures Expanded(e, lines, part, 0, x) {
      if x in names {
        assert Expanded(e, lines, part, 1, x);
        var j: nat :| 1 <= j && Expands(e, lines, part, j, x);
      }
    }
    forall i: nat, j: nat, x | Opens(e, lines, part, i, x) && Opens(e, lines, part, j, x) ensures i == j {
      assert i > 0 ==> ShowsAllOrNone(e, lines, part, names, i);
      assert j > 0 ==> ShowsAllOrNone(e, lines, part, names, j);
    }
  }

  lemma {:induction false} FirstLine(e: Edges, start: seq<Line>, v: Name, indent: nat)
    ensures var output := start + [Header(v, indent)];
            && start < output && output[|start|..] == [Header(v, indent)]
            && Outline(e, output[|start|..], v, indent) && Heading !in output[|start|..]
            && Named(output[|start|..]) == {v}
  {
    var line := Header(v, indent);
    assert (start + [line])[|start|..] == [line] && line in [line];
  }

  /** One component as it is printed: an outline from one of its members that names all of them and nothing else,
      and a blank line. */
  ghost predicate Drawing(e: Edges, lines: seq<Line>, part: set<Name>) {
    exists root :: IsDrawing(e, lines, part, root)
  }

  ghost predicate IsDrawing(e: Edges, lines: seq<Line>, part: set<Name>, root: Name) {
    && root in part && lines != [] && lines[|lines| - 1] == Blank && Outline(e, lines[..|lines| - 1], root, 0)
    && Named(lines) == part && Heading !in lines && ExpandedOnce(e, lines[..|lines| - 1], part, part, 0)
  }

  lemma {:induction false} BlankAfter(e: Edges, start: seq<Line>, lines: seq<Line>, part: set<Name>, root: Name)
    requires start <= lines && root in part && Outline(e, lines[|start|..], root, 0)
    requires Named(lines[|start|..]) == part && Heading !in lines[|start|..]
    requires ExpandedOnce(e, lines[|start|..], part, part, 0)
    ensures start <= lines + [Blank] && Drawing(e, (lines + [Blank])[|start|..], part)
  {
    hide Outline;
    hide ExpandedOnce;
    var drawing := lines[|start|..];
    assert (lines + [Blank])[|start|..] == drawing + [Blank] && (drawing + [Blank])[..|drawing|] == drawing;
    NamedAppend(drawing, [Blank]);
    assert IsDrawing(e, drawing + [Blank], part, root);
  }

  /** In the drawing of a component every include inside it is drawn: some line of the included header hangs under a
      line of the including one, and all that hang there hang under the same line, each header once. */
  lemma {:induction false} EveryEdgeDrawn(e: Edges, lines: seq<Line>, part: set<Name>, u: Name, w: Name)
      returns (j: nat, k: nat)
    requires Drawing(e, lines, part) && u in part && w in part && Edge(e, u, w)
    ensures var drawing := lines[..|lines| - 1];
            && Parent(e, drawing, j, k) && drawing[j].name == u && drawing[k].name == w
            && forall i: nat, l: nat, x :: Under(e, drawing, i, l, x) && drawing[i].name == u ==>
                 i == j && x in e[u] * part && (x == w ==> l == k)
  {
    var root :| IsDrawing(e, lines, part, root);
    var drawing := lines[..|lines| - 1];
    assert Expanded(e, drawing, part, 0, u);
    j :| Expands(e, drawing, part, j, u);
    assert HasUnder(e, drawing, j, w);
    k :| Under(e, drawing, j, k, w);
    forall i: nat, l: nat, x | Under(e, drawing, i, l, x) && drawing[i].name == u
      ensures i == j && x in e[u] * part && (x == w ==> l == k)
    {
      assert ShowsAllOrNone(e, drawing, part, part, i);
      assert !Shows(e, drawing, i, {}) && !Shows(e, drawing, j, {});
      assert Opens(e, drawing, part, i, u) && Opens(e, drawing, part, j, u);
    }
  }
}
