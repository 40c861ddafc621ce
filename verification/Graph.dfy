/** Directed graphs over names, as `check_spidermonkey_style.py` builds them from header names: a map from
    every known name to the set of known names it includes. */
module Graph {

  type Name = string
  type Edges = map<Name, set<Name>>

  /** Every edge leads to a vertex that has an entry of its own: only known names are recorded. */
  ghost predicate Closed(e: Edges) {
    forall u :: u in e ==> e[u] <= e.Keys
  }

  ghost predicate Edge(e: Edges, u: Name, v: Name) {
    u in e && v in e[u]
  }

  ghost predicate IsPath(e: Edges, p: seq<Name>) {
    p != [] && forall i :: 0 <= i < |p| - 1 ==> Edge(e, p[i], p[i + 1])
  }

  /** A path from `u` to `v` with zero or more edges. */
  ghost predicate Reach(e: Edges, u: Name, v: Name) {
    exists p :: IsPath(e, p) && p[0] == u && p[|p| - 1] == v
  }

  ghost predicate Mutual(e: Edges, u: Name, v: Name) {
    Reach(e, u, v) && Reach(e, v, u)
  }

  lemma {:induction false} ReachSelf(e: Edges, u: Name)
    ensures Reach(e, u, u)
  {
    assert IsPath(e, [u]);
  }

  lemma {:induction false} ReachTrans(e: Edges, u: Name, v: Name, w: Name)
    requires Reach(e, u, v) && Reach(e, v, w)
    ensures Reach(e, u, w)
  {
    var p :| IsPath(e, p) && p[0] == u && p[|p| - 1] == v;
    var q :| IsPath(e, q) && q[0] == v && q[|q| - 1] == w;
    var r := p + q[1..];
    assert forall i :: |p| - 1 <= i < |r| ==> r[i] == q[i - |p| + 1];
    assert IsPath(e, r) && r[0] == u && r[|r| - 1] == w;
  }

  lemma {:induction false} ReachStep(e: Edges, u: Name, v: Name, w: Name)
    requires Reach(e, u, v) && Edge(e, v, w)
    ensures Reach(e, u, w)
  {
    assert IsPath(e, [v, w]);
    assert [v, w][0] == v && [v, w][|[v, w]| - 1] == w;
    ReachTrans(e, u, v, w);
  }

  lemma {:induction false} EdgeReach(e: Edges, v: Name, w: Name)
    requires Edge(e, v, w)
    ensures Reach(e, v, w)
  {
    ReachSelf(e, v);
    ReachStep(e, v, v, w);
  }

  /** A set with no edge leaving it is never left by a path. */
  lemma {:induction false} ClosedSetTrapsPath(e: Edges, a: set<Name>, p: seq<Name>)
    requires IsPath(e, p) && p[0] in a
    requires forall x, y :: x in a && Edge(e, x, y) ==> y in a
    ensures forall x :: x in p ==> x in a
  {
    if |p| > 1 {
      assert Edge(e, p[0], p[1]);
      assert IsPath(e, p[1..]) by {
        forall i | 0 <= i < |p[1..]| - 1 ensures Edge(e, p[1..][i], p[1..][i + 1]) {
          assert Edge(e, p[i + 1], p[i + 1 + 1]);
        }
      }
      ClosedSetTrapsPath(e, a, p[1..]);
    }
  }

  lemma {:induction false} ClosedSetTraps(e: Edges, a: set<Name>, u: Name, v: Name)
    requires Reach(e, u, v) && u in a
    requires forall x, y :: x in a && Edge(e, x, y) ==> y in a
    ensures v in a
  {
    var p :| IsPath(e, p) && p[0] == u && p[|p| - 1] == v;
    ClosedSetTrapsPath(e, a, p);
  }

  /** Both halves of a path at a chosen vertex. */
  lemma {:induction false} SplitPath(e: Edges, p: seq<Name>, k: nat)
    requires IsPath(e, p) && k < |p|
    ensures Reach(e, p[0], p[k]) && Reach(e, p[k], p[|p| - 1])
  {
    var l, r := p[..k + 1], p[k..];
    assert IsPath(e, l) && l[0] == p[0] && l[|l| - 1] == p[k];
    assert IsPath(e, r) by {
      forall i | 0 <= i < |r| - 1 ensures Edge(e, r[i], r[i + 1]) {
        assert Edge(e, p[k + i], p[k + i + 1]);
      }
    }
    assert r[0] == p[k] && r[|r| - 1] == p[|p| - 1];
  }

  /** A path with at least one edge that ends where it began. */
  ghost predicate IsCycle(e: Edges, p: seq<Name>) {
    IsPath(e, p) && |p| > 1 && p[0] == p[|p| - 1]
  }

  /** Some cycle passes through `v` and through another vertex. */
  ghost predicate OnCycle(e: Edges, v: Name) {
    exists p, u :: IsCycle(e, p) && v in p && u in p && u != v
  }

  lemma {:induction false} OnCycleIfMutual(e: Edges, u: Name, v: Name)
    requires Mutual(e, u, v) && u != v
    ensures OnCycle(e, v)
  {
    var p :| IsPath(e, p) && p[0] == u && p[|p| - 1] == v;
    var q :| IsPath(e, q) && q[0] == v && q[|q| - 1] == u;
    var r := p + q[1..];
    assert forall i :: |p| - 1 <= i < |r| ==> r[i] == q[i - |p| + 1];
    assert r[0] == u && r[|p| - 1] == v;
    assert IsCycle(e, r) && v in r && u in r;
  }

  /** Going round the cycle leads from every vertex on it to every other. */
  lemma {:induction false} CycleIsMutual(e: Edges, p: seq<Name>, u: Name, v: Name)
    requires IsCycle(e, p) && u in p && v in p
    ensures Mutual(e, u, v) && u in e
  {
    var i, j :| 0 <= i < |p| && 0 <= j < |p| && p[i] == u && p[j] == v;
    assert Edge(e, p[0], p[1]) && (i < |p| - 1 ==> Edge(e, p[i], p[i + 1]));
    SplitPath(e, p, i);
    SplitPath(e, p, j);
    ReachTrans(e, u, p[0], v);
    ReachTrans(e, v, p[0], u);
  }

  /** A vertex is on such a cycle exactly when it and some other vertex reach each other. */
  lemma {:induction false} OnCycleIffMutual(e: Edges, v: Name)
    ensures OnCycle(e, v) <==> exists u :: u in e && u != v && Mutual(e, u, v)
  {
    if OnCycle(e, v) {
      var p, u :| IsCycle(e, p) && v in p && u in p && u != v;
      CycleIsMutual(e, p, u, v);
    }
    if u :| u in e && u != v && Mutual(e, u, v) {
      OnCycleIfMutual(e, u, v);
    }
  }
}
