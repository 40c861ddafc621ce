/** Tarjan's strongly connected components, as `tarjan` in `check_spidermonkey_style.py` runs it:
    two dictionaries, an explicit stack and a list of finished components, all changed in place by
    a recursive `strongconnect`. */
module Tarjan {
  import opened Graph

  /** `x` belongs to one of the first `k` components. */
  ghost predicate Settled(sccs: seq<seq<Name>>, k: nat, x: Name) {
    exists j :: 0 <= j < k && j < |sccs| && x in sccs[j]
  }

  /** No vertex is listed twice, in one component or in two. */
  ghost predicate Disjoint(sccs: seq<seq<Name>>) {
    forall i, j, a, b :: 0 <= i < |sccs| && 0 <= j < |sccs| && 0 <= a < |sccs[i]| && 0 <= b < |sccs[j]| ==>
      sccs[i][a] == sccs[j][b] ==> i == j && a == b
  }

  /** Every listed part is a non-empty set of mutually reachable vertices, and no edge leads from a
      part to a later one. */
  ghost predicate Components(e: Edges, sccs: seq<seq<Name>>) {
    && Disjoint(sccs)
    && (forall i :: 0 <= i < |sccs| ==> sccs[i] != [])
    && (forall i, x, y :: 0 <= i < |sccs| && x in sccs[i] && y in sccs[i] ==> Reach(e, x, y))
    && (forall i, x, y :: 0 <= i < |sccs| && x in sccs[i] && Edge(e, x, y) ==> Settled(sccs, i + 1, y))
  }

  /** How the dictionaries, the stack and the finished components fit together.
      `gray` holds the vertices whose `strongconnect` call is still running. */
  ghost predicate Shape(index: map<Name, nat>, s: seq<Name>, sccs: seq<seq<Name>>, gray: set<Name>, n: nat) {
    && (forall x :: x in index ==> index[x] < n)
    && (forall x :: x in index <==> x in s || Settled(sccs, |sccs|, x))
    && (forall x :: x in s ==> !Settled(sccs, |sccs|, x))
    && (forall i, j :: 0 <= i < j < |s| ==> index[s[i]] < index[s[j]])
    && (forall g :: g in gray ==> g in s)
  }

  /** A vertex whose call has returned has all its successors indexed. */
  ghost predicate Finished(e: Edges, index: map<Name, nat>, gray: set<Name>) {
    forall x, y :: x in index && x !in gray && Edge(e, x, y) ==> y in index
  }

  /** A running vertex reaches everything above it on the stack. */
  ghost predicate Up(e: Edges, index: map<Name, nat>, s: seq<Name>, gray: set<Name>) {
    forall g, y :: g in gray && y in s && g in index && y in index && index[g] <= index[y] ==> Reach(e, g, y)
  }

  ghost predicate Anchor(e: Edges, index: map<Name, nat>, gray: set<Name>, y: Name, g: Name) {
    g in gray && g in index && y in index && index[g] <= index[y] && Reach(e, y, g)
  }

  ghost predicate Anchored(e: Edges, index: map<Name, nat>, gray: set<Name>, y: Name) {
    exists g :: Anchor(e, index, gray, y, g)
  }

  /** Everything on the stack reaches a running vertex at or below it. */
  ghost predicate Down(e: Edges, index: map<Name, nat>, s: seq<Name>, gray: set<Name>) {
    forall y {:trigger Anchored(e, index, gray, y)} :: y in s ==> Anchored(e, index, gray, y)
  }

  ghost predicate Inv(e: Edges, index: map<Name, nat>, s: seq<Name>, sccs: seq<seq<Name>>, gray: set<Name>, n: nat) {
    && Shape(index, s, sccs, gray, n) && Components(e, sccs)
    && Finished(e, index, gray) && Up(e, index, s, gray) && Down(e, index, s, gray)
  }

  /** The stack is sorted by index, so no vertex stands on it twice. */
  lemma {:induction false} StackDistinct(index: map<Name, nat>, s: seq<Name>, sccs: seq<seq<Name>>, gray: set<Name>,
                                         n: nat, k: nat)
    requires k <= |s| && Shape(index, s, sccs, gray, n)
    ensures forall i, j :: 0 <= i < |s| && 0 <= j < |s| && s[i] == s[j] ==> i == j
    ensures forall x :: x in s[..k] ==> x !in s[k..]
    ensures forall x :: x in s <==> x in s[..k] || x in s[k..]
  {
    hide Settled;
    forall i, j | 0 <= i < |s| && 0 <= j < |s| && i != j ensures s[i] != s[j] {
      if i < j {
        assert index[s[i]] < index[s[j]];
      } else {
        assert index[s[j]] < index[s[i]];
      }
    }
    assert s == s[..k] + s[k..];
  }

  lemma {:induction false} Push(e: Edges, index: map<Name, nat>, s: seq<Name>, sccs: seq<seq<Name>>, gray: set<Name>,
                                n: nat, v: Name)
    requires Inv(e, index, s, sccs, gray, n) && v !in index
    requires forall g :: g in gray ==> Reach(e, g, v)
    ensures Inv(e, index[v := n], s + [v], sccs, gray + {v}, n + 1)
  {
    PushShape(index, s, sccs, gray, n, v);
    PushLinks(e, index, s, sccs, gray, n, v);
    hide Shape;
    hide Components;
    hide Up;
    hide Down;
  }

  lemma {:induction false} PushShape(index: map<Name, nat>, s: seq<Name>, sccs: seq<seq<Name>>, gray: set<Name>, n: nat,
                                     v: Name)
    requires Shape(index, s, sccs, gray, n) && v !in index
    ensures Shape(index[v := n], s + [v], sccs, gray + {v}, n + 1)
  {
    hide Settled;
    assert forall x :: x in s + [v] <==> x in s || x == v;
    assert forall i :: 0 <= i < |s| ==> s[i] in index;
  }

  lemma {:induction false} PushLinks(e: Edges, index: map<Name, nat>, s: seq<Name>, sccs: seq<seq<Name>>,
                                     gray: set<Name>, n: nat, v: Name)
    requires Shape(index, s, sccs, gray, n) && v !in index
    requires Up(e, index, s, gray) && Down(e, index, s, gray)
    requires forall g :: g in gray ==> Reach(e, g, v)
    ensures Up(e, index[v := n], s + [v], gray + {v}) && Down(e, index[v := n], s + [v], gray + {v})
  {
    hide Reach;
    hide Settled;
    ReachSelf(e, v);
    var index', gray' := index[v := n], gray + {v};
    forall y | y in s + [v] ensures Anchored(e, index', gray', y) {
      if y == v {
        assert Anchor(e, index', gray', v, v);
      } else {
        assert Anchored(e, index, gray, y);
        var g :| Anchor(e, index, gray, y, g);
        assert Anchor(e, index', gray', y, g);
      }
    }
    hide Down;
    assert forall y :: y in s ==> index[y] < n;
    assert Up(e, index', s + [v], gray');
  }

  /** A finished vertex that reaches a lower stack entry stays on the stack. */
  lemma {:induction false} Keep(e: Edges, index: map<Name, nat>, s: seq<Name>, sccs: seq<seq<Name>>, gray: set<Name>,
                                n: nat, v: Name, low: Name)
    requires Inv(e, index, s, sccs, gray + {v}, n) && v !in gray
    requires v in index && forall y :: Edge(e, v, y) ==> y in index
    requires low in s && low in index && index[low] < index[v] && Reach(e, v, low)
    ensures Inv(e, index, s, sccs, gray, n)
  {
    hide Reach;
    hide Settled;
    hide Components;
    KeepDown(e, index, s, gray, v, low);
    hide Down;
    hide Anchored;
    assert forall g :: g in gray ==> g in gray + {v};
    assert Shape(index, s, sccs, gray, n);
    assert Up(e, index, s, gray);
  }

  lemma {:induction false} KeepDown(e: Edges, index: map<Name, nat>, s: seq<Name>, gray: set<Name>, v: Name, low: Name)
    requires Down(e, index, s, gray + {v}) && v in index
    requires low in s && low in index && index[low] < index[v] && Reach(e, v, low)
    ensures Down(e, index, s, gray)
  {
    hide Reach;
    assert Anchored(e, index, gray + {v}, low);
    var h :| Anchor(e, index, gray + {v}, low, h);
    forall y | y in s ensures Anchored(e, index, gray, y) {
      assert Anchored(e, index, gray + {v}, y);
      var g :| Anchor(e, index, gray + {v}, y, g);
      if g == v {
        ReachTrans(e, y, v, low);
        ReachTrans(e, y, low, h);
        assert Anchor(e, index, gray, y, h);
      } else {
        assert Anchor(e, index, gray, y, g);
      }
    }
  }

  /** A root with no edge below it on the stack closes a component. */
  lemma {:induction false} PopRoot(e: Edges, index: map<Name, nat>, s: seq<Name>, sccs: seq<seq<Name>>, gray: set<Name>,
                                   n: nat, k: nat)
    requires k < |s| && Inv(e, index, s, sccs, gray + {s[k]}, n)
    requires forall g :: g in gray ==> g in s[..k]
    requires forall y :: Edge(e, s[k], y) ==> y in index
    requires forall x, y :: x in s[k..] && Edge(e, x, y) ==> y !in s[..k]
    ensures Inv(e, index, s[..k], sccs + [s[k..]], gray, n)
  {
    hide Reach;
    hide Settled;
    StackDistinct(index, s, sccs, gray + {s[k]}, n, k);
    assert forall x, y :: x in s[k..] && Edge(e, x, y) ==> y in s[k..] || Settled(sccs, |sccs|, y);
    PopShape(index, s, sccs, gray, n, k);
    PopComponents(e, index, s, sccs, gray, n, k);
    PopDown(e, index, s, sccs, gray, n, k);
    hide Components;
    hide Down;
    assert Up(e, index, s[..k], gray);
    assert Finished(e, index, gray);
  }

  lemma {:induction false} PopDown(e: Edges, index: map<Name, nat>, s: seq<Name>, sccs: seq<seq<Name>>, gray: set<Name>,
                                   n: nat, k: nat)
    requires k < |s| && Shape(index, s, sccs, gray + {s[k]}, n) && Down(e, index, s, gray + {s[k]})
    ensures Down(e, index, s[..k], gray)
  {
    hide Reach;
    hide Settled;
    forall y | y in s[..k] ensures Anchored(e, index, gray, y) {
      assert Anchored(e, index, gray + {s[k]}, y);
      var g :| Anchor(e, index, gray + {s[k]}, y, g);
      var a :| 0 <= a < k && s[a] == y;
      assert index[s[a]] < index[s[k]];
      assert Anchor(e, index, gray, y, g);
    }
  }

  lemma {:induction false} SettledAppend(sccs: seq<seq<Name>>, scc: seq<Name>, x: Name)
    ensures Settled(sccs + [scc], |sccs| + 1, x) <==> Settled(sccs, |sccs|, x) || x in scc
    ensures forall k :: 0 <= k <= |sccs| ==> (Settled(sccs + [scc], k, x) <==> Settled(sccs, k, x))
  {
    var sccs' := sccs + [scc];
    assert forall j :: 0 <= j < |sccs| ==> sccs'[j] == sccs[j];
    assert sccs'[|sccs|] == scc;
  }

  lemma {:induction false} PopShape(index: map<Name, nat>, s: seq<Name>, sccs: seq<seq<Name>>, gray: set<Name>, n: nat,
                                    k: nat)
    requires k < |s| && Shape(index, s, sccs, gray + {s[k]}, n)
    requires forall g :: g in gray ==> g in s[..k]
    ensures Shape(index, s[..k], sccs + [s[k..]], gray, n)
  {
    hide Settled;
    StackDistinct(index, s, sccs, gray + {s[k]}, n, k);
    forall x ensures Settled(sccs + [s[k..]], |sccs| + 1, x) <==> Settled(sccs, |sccs|, x) || x in s[k..] {
      SettledAppend(sccs, s[k..], x);
    }
  }

  lemma {:induction false} PopComponents(e: Edges, index: map<Name, nat>, s: seq<Name>, sccs: seq<seq<Name>>,
                                         gray: set<Name>, n: nat, k: nat)
    requires k < |s| && Inv(e, index, s, sccs, gray + {s[k]}, n)
    requires forall g :: g in gray ==> g in s[..k]
    requires forall x, y :: x in s[k..] && Edge(e, x, y) ==> y in s[k..] || Settled(sccs, |sccs|, y)
    ensures Components(e, sccs + [s[k..]])
  {
    hide Reach;
    hide Up;
    hide Down;
    hide Finished;
    var sccs' := sccs + [s[k..]];
    PopDisjoint(index, s, sccs, gray + {s[k]}, n, k);
    PopConnected(e, index, s, sccs, gray, n, k);
    hide Settled;
    hide Disjoint;
    hide Shape;
    forall i, x, y | 0 <= i < |sccs'| && x in sccs'[i] && Edge(e, x, y) ensures Settled(sccs', i + 1, y) {
      SettledAppend(sccs, s[k..], y);
    }
  }

  lemma {:induction false} PopDisjoint(index: map<Name, nat>, s: seq<Name>, sccs: seq<seq<Name>>, gray: set<Name>,
                                       n: nat, k: nat)
    requires k < |s| && Shape(index, s, sccs, gray, n) && Disjoint(sccs)
    ensures Disjoint(sccs + [s[k..]])
  {
    StackDistinct(index, s, sccs, gray, n, k);
    var scc, sccs' := s[k..], sccs + [s[k..]];
    forall i, j, a, b | 0 <= i < |sccs'| && 0 <= j < |sccs'| && 0 <= a < |sccs'[i]| && 0 <= b < |sccs'[j]| &&
                        sccs'[i][a] == sccs'[j][b]
      ensures i == j && a == b
    {
      var x := sccs'[i][a];
      assert i < |sccs| || j < |sccs| ==> Settled(sccs, |sccs|, x);
      assert i == |sccs| ==> s[k + a] == x;
      assert j == |sccs| ==> s[k + b] == x;
    }
  }

  /** Everything from the root upwards on the stack is mutually reachable through the root. */
  lemma {:induction false} PopConnected(e: Edges, index: map<Name, nat>, s: seq<Name>, sccs: seq<seq<Name>>,
                                        gray: set<Name>, n: nat, k: nat)
    requires k < |s| && Inv(e, index, s, sccs, gray + {s[k]}, n)
    requires forall g :: g in gray ==> g in s[..k]
    requires forall x, y :: x in s[k..] && Edge(e, x, y) ==> y in s[k..] || Settled(sccs, |sccs|, y)
    ensures forall x, y :: x in s[k..] && y in s[k..] ==> Reach(e, x, y)
  {
    hide Reach;
    var v, scc := s[k], s[k..];
    StackDistinct(index, s, sccs, gray + {v}, n, k);
    forall x | x in scc ensures Reach(e, x, v) && Reach(e, v, x) {
      var a :| 0 <= a < |scc| && scc[a] == x;
      assert s[k + a] == x;
      assert index[v] <= index[x] by { assert 0 < a ==> index[s[k]] < index[s[k + a]]; }
      assert Anchored(e, index, gray + {v}, x);
      var g :| Anchor(e, index, gray + {v}, x, g);
      StaysInside(e, index, s, sccs, gray + {v}, n, k, x, g);
      assert g == v;
    }
    forall x, y | x in scc && y in scc ensures Reach(e, x, y) {
      ReachTrans(e, x, v, y);
    }
  }

  lemma {:induction false} StaysInside(e: Edges, index: map<Name, nat>, s: seq<Name>, sccs: seq<seq<Name>>,
                                       gray: set<Name>, n: nat, k: nat, x: Name, y: Name)
    requires k < |s| && Shape(index, s, sccs, gray, n) && Components(e, sccs)
    requires forall x, y :: x in s[k..] && Edge(e, x, y) ==> y in s[k..] || Settled(sccs, |sccs|, y)
    requires x in s[k..] && y in s && Reach(e, x, y)
    ensures y in s[k..]
  {
    hide Reach;
    hide Disjoint;
    var inside := set z | z in index && (z in s[k..] || Settled(sccs, |sccs|, z));
    forall x, y | x in inside && Edge(e, x, y) ensures y in inside {
      if x !in s[k..] {
        SettledStep(e, sccs, |sccs|, x, y);
      }
    }
    ClosedSetTraps(e, inside, x, y);
  }

  lemma {:induction false} SettledStep(e: Edges, sccs: seq<seq<Name>>, k: nat, x: Name, y: Name)
    requires Components(e, sccs) && Settled(sccs, k, x) && Edge(e, x, y)
    ensures Settled(sccs, k, y)
  {
    var i :| 0 <= i < k && i < |sccs| && x in sccs[i];
    assert Settled(sccs, i + 1, y);
  }

  /** The lowlink of `v` is the index of a stack entry that `v` reaches. */
  ghost predicate LowReached(e: Edges, index: map<Name, nat>, s: seq<Name>, v: Name, low: nat) {
    exists y :: y in s && y in index && index[y] == low && Reach(e, v, y)
  }

  /** `low` bounds the index of every entry of `base` that an edge from above `base` leads to,
      except for the edges of `v` still to be looked at. */
  ghost predicate LowBound(e: Edges, index: map<Name, nat>, s: seq<Name>, base: seq<Name>, v: Name, todo: set<Name>,
                           low: nat) {
    forall x, y :: x in s && x !in base && y in base && y in index && Edge(e, x, y) ==>
      (x == v && y in todo) || low <= index[y]
  }

  lemma {:induction false} GrayOnStack(e: Edges, index: map<Name, nat>, s: seq<Name>, sccs: seq<seq<Name>>,
                                       gray: set<Name>, n: nat)
    requires Inv(e, index, s, sccs, gray, n)
    ensures forall g :: g in gray ==> g in s && g in index
  {
  }

  /** Every entry of `m0` stands unchanged in `m`. */
  ghost predicate Within(m0: map<Name, nat>, m: map<Name, nat>) {
    forall x :: x in m0 ==> x in m && m[x] == m0[x]
  }

  lemma {:induction false} WithinPut(m0: map<Name, nat>, m: map<Name, nat>, v: Name, n: nat)
    requires Within(m0, m) && v !in m0
    ensures Within(m0, m[v := n])
  {
  }

  lemma {:induction false} WithinTrans(m0: map<Name, nat>, m1: map<Name, nat>, m2: map<Name, nat>, v: Name)
    requires Within(m0, m1) && Within(m1, m2) && v in m1
    ensures Within(m0, m2) && v in m2 && m2[v] == m1[v]
  {
  }

  /** Folding in a successor whose own call has just returned. */
  lemma {:induction false} LowAfterCall(e: Edges, index0: map<Name, nat>, index: map<Name, nat>, mid: seq<Name>,
                                        sccs0: seq<seq<Name>>, gray: set<Name>, n0: nat, s: seq<Name>, base: seq<Name>,
                                        v: Name, w: Name, todo: set<Name>, low: nat, lowW: nat)
    requires base <= mid <= s && w !in index0
    requires Within(index0, index)
    requires Inv(e, index0, mid, sccs0, gray, n0)
    requires LowBound(e, index0, mid, base, v, todo + {w}, low) && LowReached(e, index0, mid, v, low)
    requires LowBound(e, index, s, mid, w, {}, lowW)
    requires LowReached(e, index, s, w, lowW) || lowW == n0
    requires v in index0 && low <= index0[v]
    requires Edge(e, v, w)
    ensures LowBound(e, index, s, base, v, todo, if lowW < low then lowW else low)
    ensures LowReached(e, index, s, v, if lowW < low then lowW else low)
  {
    hide Reach;
    hide Edge;
    hide Settled;
    hide Components;
    hide Up;
    hide Down;
    hide Finished;
    assert forall x :: x in base ==> x in mid;
    if lowW < low {
      var y :| y in s && y in index && index[y] == lowW && Reach(e, w, y);
      EdgeReach(e, v, w);
      ReachTrans(e, v, w, y);
    }
  }

  lemma {:induction false} LowAfterStackEntry(e: Edges, index: map<Name, nat>, s: seq<Name>, base: seq<Name>, v: Name,
                                              w: Name, todo: set<Name>, low: nat)
    requires LowBound(e, index, s, base, v, todo + {w}, low) && LowReached(e, index, s, v, low)
    requires w in s && w in index && Edge(e, v, w)
    ensures LowBound(e, index, s, base, v, todo, if index[w] < low then index[w] else low)
    ensures LowReached(e, index, s, v, if index[w] < low then index[w] else low)
  {
    EdgeReach(e, v, w);
  }

  lemma {:induction false} LowSkips(e: Edges, index: map<Name, nat>, s: seq<Name>, base: seq<Name>, v: Name, w: Name,
                                    todo: set<Name>, low: nat)
    requires LowBound(e, index, s, base, v, todo + {w}, low) && base <= s && w !in s
    ensures LowBound(e, index, s, base, v, todo, low)
  {
  }

  lemma {:induction false} LowNone(e: Edges, index: map<Name, nat>, s: seq<Name>, v: Name, low: nat)
    ensures LowBound(e, index, s, s, v, {}, low)
  {
  }

  lemma {:induction false} Begin(e: Edges, index: map<Name, nat>, lowlink: map<Name, nat>, base: seq<Name>, v: Name,
                                 n: nat)
    requires v in e && v !in index && v !in lowlink
    ensures LowBound(e, index[v := n], base + [v], base, v, e[v], n)
    ensures LowReached(e, index[v := n], base + [v], v, n)
    ensures Within(index, index[v := n]) && Within(lowlink, lowlink[v := n])
  {
    ReachSelf(e, v);
  }

  lemma {:induction false} KeysGrow(m0: map<Name, nat>, m: map<Name, nat>)
    requires Within(m0, m)
    ensures m0.Keys <= m.Keys
  {
  }

  lemma {:induction false} ReachEach(e: Edges, gray: set<Name>, v: Name, w: Name)
    requires Edge(e, v, w) && forall g :: g in gray ==> Reach(e, g, v)
    ensures forall g :: g in gray + {v} ==> Reach(e, g, w)
  {
    hide Reach;
    ReachSelf(e, v);
    forall g | g in gray + {v} ensures Reach(e, g, w) {
      ReachStep(e, g, v, w);
    }
  }

  /** Once every edge of the top call's vertex is done, a lowlink equal to its index means that no
      edge leads below it, so it closes a component. */
  lemma {:induction false} CloseRoot(e: Edges, index: map<Name, nat>, s: seq<Name>, sccs: seq<seq<Name>>,
                                     gray: set<Name>, n: nat, k: nat)
    requires k < |s| && Inv(e, index, s, sccs, gray + {s[k]}, n) && s[k] !in gray
    requires s[k] in index && forall y :: Edge(e, s[k], y) ==> y in index
    requires forall g :: g in gray ==> g in s[..k]
    requires LowBound(e, index, s, s[..k], s[k], {}, index[s[k]])
    ensures Inv(e, index, s[..k], sccs + [s[k..]], gray, n)
    ensures forall i :: 0 <= i < |s| && s[i] == s[k] ==> i == k
    ensures s[k] !in s[..k]
  {
    hide Reach;
    hide Settled;
    hide Components;
    hide Up;
    hide Down;
    hide Finished;
    StackDistinct(index, s, sccs, gray + {s[k]}, n, k);
    assert s[k] == s[k..][0];
    forall x, y | x in s[k..] && y in s[..k] ensures !Edge(e, x, y) {
      var b :| 0 <= b < k && s[b] == y;
      assert index[s[b]] < index[s[k]];
    }
    PopRoot(e, index, s, sccs, gray, n, k);
  }

  lemma {:induction false} LowestIsBelow(e: Edges, index: map<Name, nat>, s: seq<Name>, sccs: seq<seq<Name>>,
                                         gray: set<Name>, n: nat, v: Name, low: nat)
    requires Inv(e, index, s, sccs, gray + {v}, n) && v !in gray
    requires v in index && forall y :: Edge(e, v, y) ==> y in index
    requires LowReached(e, index, s, v, low) && low < index[v]
    ensures Inv(e, index, s, sccs, gray, n)
  {
    var y :| y in s && y in index && index[y] == low && Reach(e, v, y);
    Keep(e, index, s, sccs, gray, n, v, y);
  }

  class Search {
    const edges: Edges
    var index: map<Name, nat>
    var lowlink: map<Name, nat>
    var stack: seq<Name>
    var sccs: seq<seq<Name>>

    constructor (e: Edges)
      ensures edges == e && index == map[] && lowlink == map[] && stack == [] && sccs == []
    {
      edges := e;
      index, lowlink, stack, sccs := map[], map[], [], [];
    }

    ghost predicate Running(gray: set<Name>, n: nat)
      reads this
    {
      && Closed(edges)
      && index.Keys == lowlink.Keys && index.Keys <= edges.Keys
      && Inv(edges, index, stack, sccs, gray, n)
    }

    /** The state of the loop over the successors of `v`, with those in `todo` still to come.
        `base` is the stack below `v`. */
    ghost predicate Scanning(v: Name, n: nat, base: seq<Name>, todo: set<Name>, gray: set<Name>, next: nat)
      reads this
    {
      && Running(gray + {v}, next)
      && v in edges && todo <= edges[v] && (forall y :: y in edges[v] && y !in todo ==> y in index)
      && v in index && index[v] == n && lowlink[v] <= n && base + [v] <= stack
      && LowReached(edges, index, stack, v, lowlink[v])
      && LowBound(edges, index, stack, base, v, todo, lowlink[v])
    }

    method StrongConnect(v: Name, n: nat, ghost gray: set<Name>) returns (next: nat)
      requires Running(gray, n) && v in edges && v !in index
      requires forall g :: g in gray ==> Reach(edges, g, v)
      modifies this
      ensures Running(gray, next) && v in index && index[v] == n
      ensures Within(old(index), index) && Within(old(lowlink), lowlink)
      ensures old(stack) <= stack && old(sccs) <= sccs
      ensures if v in stack then LowReached(edges, index, stack, v, lowlink[v]) else lowlink[v] == n
      ensures LowBound(edges, index, stack, old(stack), v, {}, lowlink[v])
      decreases edges.Keys - index.Keys, 0
    {
      hide Inv;
      hide Reach;
      hide LowBound;
      hide LowReached;
      hide Within;
      ghost var k := |stack|;
      GrayOnStack(edges, index, stack, sccs, gray, n);
      Push(edges, index, stack, sccs, gray, n, v);
      Begin(edges, index, lowlink, stack, v, n);
      index := index[v := n];
      lowlink := lowlink[v := n];
      next := n + 1;
      stack := stack + [v];
      var todo := edges[v];
      while todo != {}
        invariant Scanning(v, n, old(stack), todo, gray, next)
        invariant Within(old(index), index) && Within(old(lowlink), lowlink)
        invariant old(sccs) <= sccs && old(index).Keys <= index.Keys
        decreases todo
      {
        var w :| w in todo;
        assert todo == todo - {w} + {w};
        todo := todo - {w};
        next := Consider(v, w, n, next, old(stack), todo, gray, old(index), old(lowlink));
      }
      assert stack[k] == v && stack[..k] == old(stack);
      if lowlink[v] == index[v] {
        CloseRoot(edges, index, stack, sccs, gray, next, k);
        var i :| 0 <= i < |stack| && stack[i] == v;
        sccs := sccs + [stack[i..]];
        stack := stack[..i];
        LowNone(edges, index, stack, v, lowlink[v]);
      } else {
        LowestIsBelow(edges, index, stack, sccs, gray, next, v, lowlink[v]);
      }
    }

    /** One round of the loop over the successors of `v`. */
    method Consider(v: Name, w: Name, ghost n: nat, n0: nat, ghost base: seq<Name>, ghost todo: set<Name>,
                    ghost gray: set<Name>, ghost index0: map<Name, nat>, ghost lowlink0: map<Name, nat>)
        returns (next: nat)
      requires Scanning(v, n, base, todo + {w}, gray, n0)
      requires forall g :: g in gray ==> Reach(edges, g, v)
      requires Within(index0, index) && Within(lowlink0, lowlink) && v !in lowlink0
      modifies this
      ensures Scanning(v, n, base, todo, gray, next)
      ensures Within(index0, index) && Within(lowlink0, lowlink)
      ensures old(sccs) <= sccs && old(index).Keys <= index.Keys
      decreases edges.Keys - index.Keys, 1
    {
      hide Inv;
      hide Reach;
      hide LowBound;
      hide LowReached;
      hide Within;
      next := n0;
      if w !in index {
        ReachEach(edges, gray, v, w);
        next := StrongConnect(w, n0, gray + {v});
        WithinTrans(index0, old(index), index, v);
        WithinTrans(lowlink0, old(lowlink), lowlink, v);
        KeysGrow(old(index), index);
        LowAfterCall(edges, old(index), index, old(stack), old(sccs), gray + {v}, n0, stack, base, v, w, todo,
                     lowlink[v], lowlink[w]);
        SetLow(v, if lowlink[w] < lowlink[v] then lowlink[w] else lowlink[v], lowlink0);
      } else if w in stack {
        LowAfterStackEntry(edges, index, stack, base, v, w, todo, lowlink[v]);
        SetLow(v, if index[w] < lowlink[v] then index[w] else lowlink[v], lowlink0);
      } else {
        LowSkips(edges, index, stack, base, v, w, todo, lowlink[v]);
      }
    }

    method SetLow(v: Name, low: nat, ghost lowlink0: map<Name, nat>)
      requires Within(lowlink0, lowlink) && v in lowlink && v !in lowlink0
      modifies this`lowlink
      ensures lowlink == old(lowlink)[v := low] && Within(lowlink0, lowlink)
    {
      WithinPut(lowlink0, lowlink, v, low);
      lowlink := lowlink[v := low];
    }
  }

  /** The components partition the vertices. */
  ghost predicate Decomposes(e: Edges, sccs: seq<seq<Name>>) {
    && Components(e, sccs)
    && (forall x :: x in e <==> Settled(sccs, |sccs|, x))
  }

  method Run(vertices: set<Name>, e: Edges) returns (all: seq<seq<Name>>)
    requires Closed(e) && vertices == e.Keys
    ensures Decomposes(e, all)
  {
    var search := new Search(e);
    EmptyInv(e);
    var n := 0;
    var todo := vertices;
    while todo != {}
      invariant todo <= vertices && search.edges == e && fresh(search)
      invariant search.Running({}, n)
      invariant forall v :: v in vertices && v !in todo ==> v in search.index
      decreases todo
    {
      hide Inv;
      hide LowBound;
      hide LowReached;
      var v :| v in todo;
      todo := todo - {v};
      if v !in search.index {
        n := search.StrongConnect(v, n, {});
      }
    }
    NothingLeft(e, search.index, search.stack, search.sccs, n);
    all := search.sccs;
  }

  lemma {:induction false} EmptyInv(e: Edges)
    ensures Inv(e, map[], [], [], {}, 0)
  {
  }

  /** With no call running the stack is empty: every entry would need a running vertex below it. */
  lemma {:induction false} NothingLeft(e: Edges, index: map<Name, nat>, s: seq<Name>, sccs: seq<seq<Name>>, n: nat)
    requires Inv(e, index, s, sccs, {}, n)
    ensures s == []
    ensures index.Keys == e.Keys ==> Decomposes(e, sccs)
  {
    hide Reach;
    assert s != [] ==> s[0] in s;
    forall y ensures y !in s {
      assert !Anchored(e, index, {}, y);
    }
  }

  /** Paths never lead to a later component. */
  lemma {:induction false} ReverseTopological(e: Edges, sccs: seq<seq<Name>>, i: nat, j: nat, x: Name, y: Name)
    requires Closed(e) && Decomposes(e, sccs)
    requires i < |sccs| && x in sccs[i] && j < |sccs| && y in sccs[j] && Reach(e, x, y)
    ensures j <= i
  {
    hide Reach;
    var upTo := set z | z in e && Settled(sccs, i + 1, z);
    assert Settled(sccs, i + 1, x) && Settled(sccs, |sccs|, x);
    forall a, b | a in upTo && Edge(e, a, b) ensures b in upTo {
      SettledStep(e, sccs, i + 1, a, b);
    }
    ClosedSetTraps(e, upTo, x, y);
    var h :| 0 <= h < i + 1 && h < |sccs| && y in sccs[h];
    var c :| 0 <= c < |sccs[h]| && sccs[h][c] == y;
    var d :| 0 <= d < |sccs[j]| && sccs[j][d] == y;
  }

  /** Two vertices share a component exactly when each reaches the other. */
  lemma {:induction false} SamePartIffMutual(e: Edges, sccs: seq<seq<Name>>, i: nat, j: nat, x: Name, y: Name)
    requires Closed(e) && Decomposes(e, sccs)
    requires i < |sccs| && x in sccs[i] && j < |sccs| && y in sccs[j]
    ensures Mutual(e, x, y) <==> i == j
  {
    if Mutual(e, x, y) {
      ReverseTopological(e, sccs, i, j, x, y);
      ReverseTopological(e, sccs, j, i, y, x);
    }
  }
}
