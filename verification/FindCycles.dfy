/** The cycle report of `check_spidermonkey_style.py`: `find_cycles` names an error when the include
    graph has a component of two or more headers, and `draw_SCC` prints every such component. */
module FindCycles {
  import opened Graph
  import opened Tarjan
  import opened Outlines

  function Members(c: seq<Name>): set<Name> {
    set x | x in c
  }

  /** Inside `within`, everything an already expanded vertex includes has been drawn. */
  ghost predicate Followed(e: Edges, within: set<Name>, drawn: set<Name>, busy: set<Name>) {
    forall x, y :: x in drawn && x !in busy && y in within && Edge(e, x, y) ==> y in drawn
  }

  lemma {:induction false} NotInEarlierPart(sccs: seq<seq<Name>>, i: nat, y: Name)
    requires Disjoint(sccs) && i < |sccs| && y in sccs[i]
    ensures !Settled(sccs, i, y)
  {
    var d :| 0 <= d < |sccs[i]| && sccs[i][d] == y;
    assert forall h, c :: 0 <= h < i && 0 <= c < |sccs[h]| ==> sccs[h][c] != sccs[i][d];
  }

  /** Paths between members of a component stay inside it, so what is drawn from one member is all of it. */
  lemma {:induction false} DrawnIsWholePart(e: Edges, sccs: seq<seq<Name>>, i: nat, drawn: set<Name>, root: Name)
    requires Closed(e) && Decomposes(e, sccs) && i < |sccs|
    requires root in sccs[i] && root in drawn && (forall x :: x in drawn ==> x in sccs[i])
    requires Followed(e, Members(sccs[i]), drawn, {})
    ensures drawn == Members(sccs[i])
  {
    hide Reach;
    forall y | y in sccs[i] ensures y in drawn {
      var earlier := set z | z in e && Settled(sccs, i, z);
      forall a, b | a in drawn + earlier && Edge(e, a, b) ensures b in drawn + earlier {
        if a in earlier {
          SettledStep(e, sccs, i, a, b);
        } else {
          assert Settled(sccs, i + 1, b);
        }
      }
      ClosedSetTraps(e, drawn + earlier, root, y);
      NotInEarlierPart(sccs, i, y);
    }
  }

  /** A vertex lies on a cycle through two headers exactly when its component is not a single vertex. */
  lemma {:induction false} OnCycleIffLargePart(e: Edges, sccs: seq<seq<Name>>, i: nat, v: Name)
    requires Closed(e) && Decomposes(e, sccs) && i < |sccs| && v in sccs[i]
    ensures OnCycle(e, v) <==> |sccs[i]| != 1
  {
    hide Reach;
    OnCycleIffMutual(e, v);
    hide OnCycle;
    var c := sccs[i];
    var a :| 0 <= a < |c| && c[a] == v;
    if |c| != 1 {
      var b := if a == 0 then 1 else 0;
      assert c[b] != v;
      assert Settled(sccs, |sccs|, c[b]);
      SamePartIffMutual(e, sccs, i, i, c[b], v);
    }
    if OnCycle(e, v) {
      var u :| u in e && u != v && Mutual(e, u, v);
      assert Settled(sccs, |sccs|, u);
      var j :| 0 <= j < |sccs| && u in sccs[j];
      SamePartIffMutual(e, sccs, j, i, u, v);
    }
  }

  /** The headers that include one another, directly or not, with `root`. */
  ghost function PartOf(e: Edges, root: Name): set<Name> {
    set u | u in e && Mutual(e, u, root)
  }

  lemma {:induction false} Starts(e: Edges, within: set<Name>, drawn: set<Name>, busy: set<Name>, v: Name)
    requires Followed(e, within, drawn, busy)
    ensures Followed(e, within, drawn + {v}, busy + {v})
  {
  }

  lemma {:induction false} Finishes(e: Edges, within: set<Name>, drawn: set<Name>, busy: set<Name>, v: Name)
    requires Followed(e, within, drawn, busy + {v}) && v in e
    requires forall y :: y in e[v] && y in within ==> y in drawn
    ensures Followed(e, within, drawn, busy)
  {
  }

  class Report {
    const edges: Edges
    var output: seq<Line>
    var drawn: set<Name>

    constructor (e: Edges)
      ensures edges == e && output == [] && drawn == {}
    {
      edges := e;
      output, drawn := [], {};
    }

    method Draw(v: Name, indent: nat, cset: set<Name>, ghost busy: set<Name>)
      requires Closed(edges) && cset <= edges.Keys && v in cset && drawn <= cset
      requires Followed(edges, cset, drawn, busy)
      modifies this
      ensures old(drawn) + {v} <= drawn <= cset && Followed(edges, cset, drawn, busy)
      ensures old(output) < output && Outline(edges, output[|old(output)|..], v, indent)
      ensures Heading !in output[|old(output)|..]
      ensures drawn - old(drawn) + {v} <= Named(output[|old(output)|..]) <= cset
      ensures ExpandedOnce(edges, output[|old(output)|..], cset, drawn - old(drawn), 0)
      decreases cset - drawn
    {
      hide Named;
      hide Outline;
      hide Followed;
      hide Shows;
      hide ExpandedOnce;
      FirstLine(edges, output, v, indent);
      NothingUnder(edges, Header(v, indent), cset);
      output := output + [Header(v, indent)];
      if v in drawn {
        assert drawn - old(drawn) == {};
        return;
      }
      Starts(edges, cset, drawn, busy, v);
      drawn := drawn + {v};
      var todo := edges[v];
      assert (edges[v] - todo) * cset == {} == drawn - old(drawn) - {v};
      while todo != {}
        invariant todo <= edges[v] && old(drawn) + {v} <= drawn <= cset
        invariant Followed(edges, cset, drawn, busy + {v})
        invariant forall y :: y in edges[v] && y in cset && y !in todo ==> y in drawn
        invariant old(output) < output && Outline(edges, output[|old(output)|..], v, indent)
        invariant Heading !in output[|old(output)|..]
        invariant drawn - old(drawn) + {v} <= Named(output[|old(output)|..]) <= cset
        invariant Shows(edges, output[|old(output)|..], 0, (edges[v] - todo) * cset)
        invariant ExpandedOnce(edges, output[|old(output)|..], cset, drawn - old(drawn) - {v}, 1)
        decreases todo
      {
        var w :| w in todo;
        ghost var shown, before, had := (edges[v] - todo) * cset, output, drawn;
        todo := todo - {w};
        if w in cset {
          Draw(w, indent + 1, cset, busy + {v});
          PrintedSince(old(output), before, output);
          ghost var lines, sub := before[|old(output)|..], output[|before|..];
          OutlineGrows(edges, lines, v, indent, sub, w);
          ShowsOneMore(edges, lines, v, indent, sub, w, shown);
          ExpandsMore(edges, lines, v, indent, sub, w, cset, had - old(drawn) - {v}, drawn - had);
          assert shown + {w} == (edges[v] - todo) * cset;
          assert had - old(drawn) - {v} + (drawn - had) == drawn - old(drawn) - {v};
        } else {
          assert shown == (edges[v] - todo) * cset;
        }
      }
      Finishes(edges, cset, drawn, busy, v);
      assert (edges[v] - todo) * cset == edges[v] * cset;
      assert drawn - old(drawn) - {v} + {v} == drawn - old(drawn);
      TopExpanded(edges, output[|old(output)|..], v, indent, cset, drawn - old(drawn) - {v});
    }

    /** Draws one component from one of its members, then a blank line. */
    method DrawScc(ghost sccs: seq<seq<Name>>, ghost i: nat, c: seq<Name>)
      requires Closed(edges) && Decomposes(edges, sccs) && i < |sccs| && c == sccs[i]
      modifies this
      ensures old(output) <= output && Drawing(edges, output[|old(output)|..], Members(c))
    {
      hide ExpandedOnce;
      hide Outline;
      hide Named;
      hide Drawing;
      drawn := {};
      var cset := Members(c);
      assert cset <= edges.Keys by {
        forall x | x in c ensures x in edges { assert Settled(sccs, |sccs|, x); }
      }
      assert c[0] in c;
      var root :| root in c;
      Draw(root, 0, cset, {});
      DrawnIsWholePart(edges, sccs, i, drawn, root);
      assert drawn - {} == drawn;
      BlankAfter(edges, old(output), output, cset, root);
      output := output + [Blank];
    }
  }

  function Joined(drawings: seq<seq<Line>>): seq<Line> {
    if drawings == [] then [] else Joined(drawings[..|drawings| - 1]) + drawings[|drawings| - 1]
  }

  ghost predicate DrawsCycle(e: Edges, drawing: seq<Line>) {
    exists v :: v in e && OnCycle(e, v) && Drawing(e, drawing, PartOf(e, v))
  }

  /** Each drawing shows, whole and alone, the component of some header that lies on a cycle, and no two of them the
      same one. */
  ghost predicate DrawsCycles(e: Edges, drawings: seq<seq<Line>>) {
    && (forall k :: 0 <= k < |drawings| ==> DrawsCycle(e, drawings[k]))
    && (forall j, k :: 0 <= j < k < |drawings| ==> Named(drawings[j]) !! Named(drawings[k]))
  }

  /** The report is empty unless some cycle passes through two or more headers. Then it is the one error line and a
      drawing of every component with such a cycle, and it names exactly the headers on such cycles. */
  method Find(names: set<Name>, e: Edges) returns (output: seq<Line>, ghost drawings: seq<seq<Line>>)
    requires Closed(e) && names == e.Keys
    ensures output != [] <==> exists v :: v in e && OnCycle(e, v)
    ensures output == if drawings == [] then [] else [Heading] + Joined(drawings)
    ensures output != [] ==> Heading !in output[1..]
    ensures Named(output) == set v | v in e && OnCycle(e, v)
    ensures DrawsCycles(e, drawings)
  {
    hide Components;
    hide Settled;
    hide OnCycle;
    hide Drawing;
    hide Printed;
    hide DrawsCycles;
    hide Named;
    hide Joined;
    var sccs := Tarjan.Run(names, e);
    var report := new Report(e);
    var todo := set i {:trigger sccs[i]} | 0 <= i < |sccs|;
    ghost var order: seq<int> := [];
    drawings := [];
    NothingPrinted(e, sccs, todo);
    while todo != {}
      invariant fresh(report) && report.edges == e
      invariant forall i :: i in todo ==> 0 <= i < |sccs|
      invariant Printed(e, sccs, todo, report.output, drawings, order)
      decreases todo
    {
      var i :| i in todo;
      ghost var before, output0 := todo, report.output;
      todo := todo - {i};
      if |sccs[i]| != 1 {
        if report.output == [] {
          report.output := report.output + [Heading];
        }
        ghost var start := report.output;
        report.DrawScc(sccs, i, sccs[i]);
        ghost var drawing := report.output[|start|..];
        PrintedMore(e, sccs, before, output0, drawings, order, i, drawing);
        assert start == if output0 == [] then [Heading] else output0;
        assert report.output == start + drawing;
        drawings, order := drawings + [drawing], order + [i];
      } else {
        PrintedNoMore(e, sccs, before, output0, drawings, order, i);
      }
    }
    output := report.output;
    assert todo == {};
    AllPrinted(e, sccs, output, drawings, order);
  }

  /** The loop over the components: what is printed so far is the error line and the drawings made. */
  ghost predicate Printed(e: Edges, sccs: seq<seq<Name>>, todo: set<int>, output: seq<Line>,
                          drawings: seq<seq<Line>>, order: seq<int>) {
    && output == (if drawings == [] then [] else [Heading] + Joined(drawings)) && Heading !in Joined(drawings)
    && Named(output) == PrintedParts(sccs, todo) && (output != [] <==> PrintedParts(sccs, todo) != {})
    && Drawn(e, sccs, todo, drawings, order)
  }

  lemma {:induction false} NothingPrinted(e: Edges, sccs: seq<seq<Name>>, todo: set<int>)
    requires forall i :: 0 <= i < |sccs| ==> i in todo
    ensures Printed(e, sccs, todo, [], [], [])
  {
  }

  lemma {:induction false} PrintedNoMore(e: Edges, sccs: seq<seq<Name>>, todo: set<int>, output: seq<Line>,
                                         drawings: seq<seq<Line>>, order: seq<int>, i: nat)
    requires Printed(e, sccs, todo, output, drawings, order) && i in todo && i < |sccs| && |sccs[i]| == 1
    ensures Printed(e, sccs, todo - {i}, output, drawings, order)
  {
    hide Named;
    hide Drawn;
    PrintedStep(sccs, todo, i);
    StillDrawn(e, sccs, todo, todo - {i}, drawings, order);
  }

  lemma {:induction false} PrintedMore(e: Edges, sccs: seq<seq<Name>>, todo: set<int>, output: seq<Line>,
                                       drawings: seq<seq<Line>>, order: seq<int>, i: nat, drawing: seq<Line>)
    requires Printed(e, sccs, todo, output, drawings, order) && i in todo && i < |sccs| && |sccs[i]| != 1
    requires Components(e, sccs) && Drawing(e, drawing, Members(sccs[i]))
    ensures Printed(e, sccs, todo - {i}, (if output == [] then [Heading] else output) + drawing, drawings + [drawing],
                    order + [i])
  {
    PartNotEmpty(e, sccs, i);
    StillDrawn(e, sccs, todo, todo - {i}, drawings, order);
    OneMoreDrawn(e, sccs, todo - {i}, drawings, order, i, drawing);
    DrawingNames(e, drawing, Members(sccs[i]));
    hide Named;
    hide Drawn;
    hide Components;
    hide Drawing;
    hide PrintedParts;
    hide Members;
    MoreNames(sccs, todo, output, i, drawing);
    MoreText(output, drawings, drawing);
    hide Joined;
  }

  lemma {:induction false} MoreNames(sccs: seq<seq<Name>>, todo: set<int>, output: seq<Line>, i: nat,
                                     drawing: seq<Line>)
    requires i in todo && i < |sccs| && |sccs[i]| != 1 && Members(sccs[i]) != {}
    requires Named(output) == PrintedParts(sccs, todo) && Named(drawing) == Members(sccs[i])
    ensures Named((if output == [] then [Heading] else output) + drawing) == PrintedParts(sccs, todo - {i}) != {}
  {
    assert Named([Heading]) == Named([]) == {};
    NamedAppend(if output == [] then [Heading] else output, drawing);
    PrintedStep(sccs, todo, i);
    hide Named;
    hide PrintedParts;
    hide Members;
  }

  lemma {:induction false} MoreText(output: seq<Line>, drawings: seq<seq<Line>>, drawing: seq<Line>)
    requires output == (if drawings == [] then [] else [Heading] + Joined(drawings))
    requires Heading !in Joined(drawings) && Heading !in drawing
    ensures (if output == [] then [Heading] else output) + drawing == [Heading] + Joined(drawings + [drawing])
    ensures Heading !in Joined(drawings + [drawing])
  {
    JoinedMore(drawings, drawing);
    var text := Joined(drawings);
    if drawings == [] {
      assert text == [] && [Heading] + text == [Heading];
    }
    Assembled([Heading], text, drawing);
    hide Joined;
  }

  lemma {:induction false} Assembled(heading: seq<Line>, text: seq<Line>, drawing: seq<Line>)
    ensures heading + text + drawing == heading + (text + drawing)
    ensures Heading !in text && Heading !in drawing ==> Heading !in text + drawing
  {
  }

  lemma {:induction false} AllPrinted(e: Edges, sccs: seq<seq<Name>>, output: seq<Line>, drawings: seq<seq<Line>>,
                                      order: seq<int>)
    requires Closed(e) && Decomposes(e, sccs) && Printed(e, sccs, {}, output, drawings, order)
    ensures output != [] <==> exists v :: v in e && OnCycle(e, v)
    ensures output == if drawings == [] then [] else [Heading] + Joined(drawings)
    ensures output != [] ==> Heading !in output[1..]
    ensures Named(output) == (set v | v in e && OnCycle(e, v)) && DrawsCycles(e, drawings)
  {
    PrintedIsOnCycle(e, sccs);
    DrawnIsCycles(e, sccs, {}, drawings, order);
    hide Drawn;
    hide Named;
    hide OnCycle;
    hide DrawsCycles;
  }

  /** The drawings made so far and the components, no longer to do, that they show. */
  ghost predicate Drawn(e: Edges, sccs: seq<seq<Name>>, todo: set<int>, drawings: seq<seq<Line>>, order: seq<int>) {
    && |order| == |drawings|
    && (forall k :: 0 <= k < |order| ==>
          0 <= order[k] < |sccs| && order[k] !in todo && |sccs[order[k]]| != 1 &&
          Drawing(e, drawings[k], Members(sccs[order[k]])))
    && (forall j, k :: 0 <= j < k < |order| ==> order[j] != order[k])
  }

  lemma {:induction false} StillDrawn(e: Edges, sccs: seq<seq<Name>>, before: set<int>, todo: set<int>,
                                      drawings: seq<seq<Line>>, order: seq<int>)
    requires Drawn(e, sccs, before, drawings, order) && todo <= before
    ensures Drawn(e, sccs, todo, drawings, order)
    ensures forall i :: i in before ==> i !in order
  {
    hide Drawing;
  }

  lemma {:induction false} OneMoreDrawn(e: Edges, sccs: seq<seq<Name>>, todo: set<int>, drawings: seq<seq<Line>>,
                                        order: seq<int>, i: int, drawing: seq<Line>)
    requires Drawn(e, sccs, todo, drawings, order) && i !in todo && i !in order && 0 <= i < |sccs| && |sccs[i]| != 1
    requires Drawing(e, drawing, Members(sccs[i]))
    ensures Drawn(e, sccs, todo, drawings + [drawing], order + [i])
  {
    hide Drawing;
  }

  lemma {:induction false} JoinedMore(drawings: seq<seq<Line>>, drawing: seq<Line>)
    ensures Joined(drawings + [drawing]) == Joined(drawings) + drawing
  {
    assert (drawings + [drawing])[..|drawings|] == drawings;
  }

  lemma {:induction false} DrawingNames(e: Edges, lines: seq<Line>, part: set<Name>)
    requires Drawing(e, lines, part)
    ensures Named(lines) == part && Heading !in lines
  {
  }

  lemma {:induction false} DrawnIsCycles(e: Edges, sccs: seq<seq<Name>>, todo: set<int>, drawings: seq<seq<Line>>,
                                         order: seq<int>)
    requires Closed(e) && Decomposes(e, sccs) && Drawn(e, sccs, todo, drawings, order)
    ensures DrawsCycles(e, drawings)
  {
    hide Drawing;
    hide OnCycle;
    forall k | 0 <= k < |drawings| ensures DrawsCycle(e, drawings[k]) {
      var v := MemberOf(e, sccs, order[k]);
      assert Drawing(e, drawings[k], PartOf(e, v));
    }
    forall j, k | 0 <= j < k < |drawings| ensures Named(drawings[j]) !! Named(drawings[k]) {
      DrawingNames(e, drawings[j], Members(sccs[order[j]]));
      DrawingNames(e, drawings[k], Members(sccs[order[k]]));
      PartsApart(sccs, order[j], order[k]);
    }
  }

  /** A large component is what is mutually reachable with any of its members. */
  lemma {:induction false} MemberOf(e: Edges, sccs: seq<seq<Name>>, i: nat) returns (v: Name)
    requires Closed(e) && Decomposes(e, sccs) && i < |sccs| && |sccs[i]| != 1
    ensures v in e && OnCycle(e, v) && Members(sccs[i]) == PartOf(e, v)
  {
    hide Reach;
    PartNotEmpty(e, sccs, i);
    v :| v in sccs[i];
    assert Settled(sccs, |sccs|, v);
    OnCycleIffLargePart(e, sccs, i, v);
    forall u ensures u in Members(sccs[i]) <==> u in PartOf(e, v) {
      if u in sccs[i] {
        assert Settled(sccs, |sccs|, u);
        SamePartIffMutual(e, sccs, i, i, u, v);
      }
      if u in PartOf(e, v) {
        assert Settled(sccs, |sccs|, u);
        var j :| 0 <= j < |sccs| && u in sccs[j];
        SamePartIffMutual(e, sccs, j, i, u, v);
      }
    }
  }

  lemma {:induction false} PartsApart(sccs: seq<seq<Name>>, i: nat, j: nat)
    requires Disjoint(sccs) && i < |sccs| && j < |sccs| && i != j
    ensures Members(sccs[i]) !! Members(sccs[j])
  {
    var lo, hi := if i < j then i else j, if i < j then j else i;
    forall y | y in sccs[hi] ensures y !in sccs[lo] {
      NotInEarlierPart(sccs, hi, y);
    }
  }

  /** The members of the parts that are not single vertices, leaving out those still to come. */
  ghost function PrintedParts(sccs: seq<seq<Name>>, todo: set<int>): set<Name> {
    set i, x | 0 <= i < |sccs| && i !in todo && |sccs[i]| != 1 && x in sccs[i] :: x
  }

  lemma {:induction false} PrintedStep(sccs: seq<seq<Name>>, todo: set<int>, i: int)
    requires i in todo && 0 <= i < |sccs|
    ensures PrintedParts(sccs, todo - {i}) ==
            PrintedParts(sccs, todo) + if |sccs[i]| != 1 then Members(sccs[i]) else {}
  {
  }

  lemma {:induction false} PartNotEmpty(e: Edges, sccs: seq<seq<Name>>, i: nat)
    requires Components(e, sccs) && i < |sccs|
    ensures Members(sccs[i]) != {}
  {
    assert sccs[i][0] in Members(sccs[i]);
  }

  lemma {:induction false} PrintedIsOnCycle(e: Edges, sccs: seq<seq<Name>>)
    requires Closed(e) && Decomposes(e, sccs)
    ensures PrintedParts(sccs, {}) == set v | v in e && OnCycle(e, v)
    ensures PrintedParts(sccs, {}) != {} <==> exists v :: v in e && OnCycle(e, v)
  {
    hide OnCycle;
    hide Components;
    forall v ensures v in PrintedParts(sccs, {}) <==> v in e && OnCycle(e, v) {
      if v in PrintedParts(sccs, {}) {
        var i :| 0 <= i < |sccs| && |sccs[i]| != 1 && v in sccs[i];
        assert Settled(sccs, |sccs|, v);
        OnCycleIffLargePart(e, sccs, i, v);
      }
      if v in e && OnCycle(e, v) {
        assert Settled(sccs, |sccs|, v);
        var i :| 0 <= i < |sccs| && v in sccs[i];
        OnCycleIffLargePart(e, sccs, i, v);
      }
    }
    if PrintedParts(sccs, {}) != {} {
      var v :| v in PrintedParts(sccs, {});
      assert v in e && OnCycle(e, v);
    }
  }
}
