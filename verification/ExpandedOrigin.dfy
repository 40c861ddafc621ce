/** The canonical origin of expanded principals (`nsExpandedPrincipal` in `nsPrincipal.cpp`): the whitelist
    is kept sorted by origin, so that its order does not show. */
module ExpandedOrigin {
  import opened Wrappers
  import opened OriginAttributes
  import opened Principals

  /** What other principals answer, and how attributes are printed. */
  datatype Origins = Origins(internal: Principal -> Option<string>, suffix: Attributes -> string)

  /** The order of byte strings. */
  predicate Less(a: string, b: string) {
    b != "" && (a == "" || a[0] < b[0] || (a[0] == b[0] && Less(a[1..], b[1..])))
  }

  predicate AtMost(a: string, b: string) {
    !Less(b, a)
  }

  function Join(parts: seq<string>): string {
    if parts == [] then ""
    else Join(parts[..|parts| - 1]) + (if |parts| > 1 then ", " else "") + parts[|parts| - 1]
  }

  ghost function Origin(o: Origins, p: Principal): Option<string>
    decreases p, 1
  {
    var origin := OriginInternal(o, p);
    if origin.None? then None else Some(origin.value + o.suffix(p.OriginAttributesRef()))
  }

  ghost function OriginInternal(o: Origins, p: Principal): Option<string>
    decreases p, 0
  {
    if !p.ExpandedPrincipal? then o.internal(p)
    else if exists i :: 0 <= i < |p.principals| && Origin(o, p.principals[i]).None? then None
    else
      var parts := seq(|p.principals|, i requires 0 <= i < |p.principals| => Origin(o, p.principals[i]).GetOr(""));
      Some("[Expanded Principal [" + Join(parts) + "]]")
  }

  ghost predicate AllHaveOrigins(o: Origins, principals: seq<Principal>) {
    forall p <- principals :: Origin(o, p).Some?
  }

  ghost function Parts(o: Origins, principals: seq<Principal>): (r: seq<string>)
    ensures |r| == |principals| && forall i :: 0 <= i < |r| ==> r[i] == Origin(o, principals[i]).GetOr("")
  {
    seq(|principals|, i requires 0 <= i < |principals| => Origin(o, principals[i]).GetOr(""))
  }

  // What an origin looks like

  /** A comma and a space stand between every two parts, and nowhere else. */
  lemma {:induction false} JoinOfTwo(a: seq<string>, b: seq<string>)
    ensures Join([]) == "" && (|a| == 1 ==> Join(a) == a[0])
    ensures a != [] && b != [] ==> Join(a + b) == Join(a) + ", " + Join(b)
  {
    if |a| == 1 {
      JoinOneMore([], a[0]);
      assert [] + [a[0]] == a;
    }
    if a != [] && b != [] {
      var n := |b| - 1;
      assert b == b[..n] + [b[n]] && a + b == a + b[..n] + [b[n]];
      JoinOneMore(a + b[..n], b[n]);
      JoinOneMore(b[..n], b[n]);
      hide Join;
      if n == 0 {
        assert a + b[..0] == a;
      } else {
        JoinOfTwo(a, b[..n]);
      }
    }
  }

  lemma {:induction false} JoinOneMore(parts: seq<string>, last: string)
    ensures Join(parts + [last]) == if parts == [] then last else Join(parts) + ", " + last
  {
    assert (parts + [last])[..|parts|] == parts;
    assert parts == [] ==> "" + "" + last == last;
  }

  /** A principal has no origin exactly when some part of it, at whatever depth, has none. */
  lemma {:induction false} NoOriginIff(o: Origins, p: Principal)
    ensures Origin(o, p).None? <==> exists l <- Leaves(p) :: o.internal(l).None?
    decreases p
  {
    if p.ExpandedPrincipal? {
      forall i | 0 <= i < |p.principals|
        ensures Origin(o, p.principals[i]).None? <==> exists l <- Leaves(p.principals[i]) :: o.internal(l).None?
      {
        NoOriginIff(o, p.principals[i]);
      }
    } else {
      assert Leaves(p) == {p};
    }
  }

  /** The origin of an expanded principal spells out the whole origins of its parts, suffixes included, inside a fixed
      frame, and its own suffix follows. */
  lemma {:induction false} OriginOfExpanded(o: Origins, p: Principal, parts: seq<string>)
    requires p.ExpandedPrincipal? && |parts| == |p.principals|
    requires forall i :: 0 <= i < |parts| ==> Origin(o, p.principals[i]) == Some(parts[i])
    ensures Origin(o, p) == Some("[Expanded Principal [" + Join(parts) + "]]" + o.suffix(p.attrs))
  {
    assert parts == seq(|p.principals|, i requires 0 <= i < |p.principals| => Origin(o, p.principals[i]).GetOr(""));
  }

  lemma {:induction false} OriginOfLeaf(o: Origins, p: Principal)
    requires !p.ExpandedPrincipal?
    ensures o.internal(p).Some? ==> Origin(o, p) == Some(o.internal(p).value + o.suffix(p.OriginAttributesRef()))
    ensures o.internal(p).None? ==> Origin(o, p) == None
  {
  }

  ghost predicate Sorted(parts: seq<string>) {
    forall i, j :: 0 <= i < j < |parts| ==> AtMost(parts[i], parts[j])
  }

  /** A list the constructor may keep for a whitelist. */
  ghost predicate KeptFor(o: Origins, principals: seq<Principal>, whitelist: seq<Principal>) {
    && multiset(principals) == multiset(whitelist)
    && (AllHaveOrigins(o, whitelist) ==> Sorted(Parts(o, principals)))
  }

  lemma {:induction false} LessIsTotal(a: string, b: string)
    ensures Less(a, b) || Less(b, a) || a == b
    ensures !(Less(a, b) && Less(b, a))
  {
    if a != "" && b != "" && a[0] == b[0] {
      LessIsTotal(a[1..], b[1..]);
      assert a == [a[0]] + a[1..] && b == [b[0]] + b[1..];
    }
  }

  predicate DifferAt(a: string, b: string, i: nat) {
    i < |b| && i <= |a| && a[..i] == b[..i] && (i == |a| || a[i] < b[i])
  }

  /** The order is that of the bytes where the origins first differ, a prefix coming first. */
  lemma {:induction false} LessIff(a: string, b: string)
    ensures Less(a, b) <==> exists i: nat :: DifferAt(a, b, i)
  {
    if Less(a, b) {
      LessDiffers(a, b);
    }
    if i: nat :| DifferAt(a, b, i) {
      DifferIsLess(a, b, i);
    }
  }

  lemma {:induction false} LessDiffers(a: string, b: string)
    requires Less(a, b)
    ensures exists i: nat :: DifferAt(a, b, i)
  {
    if a == "" || a[0] < b[0] {
      assert DifferAt(a, b, 0);
    } else {
      LessDiffers(a[1..], b[1..]);
      var i: nat :| DifferAt(a[1..], b[1..], i);
      DifferLater(a, b, i);
    }
  }

  lemma {:induction false} DifferIsLess(a: string, b: string, i: nat)
    requires DifferAt(a, b, i)
    ensures Less(a, b)
  {
    if i > 0 {
      DifferLater(a, b, i - 1);
      DifferIsLess(a[1..], b[1..], i - 1);
    }
  }

  lemma {:induction false} DifferLater(a: string, b: string, i: nat)
    requires a != "" && b != ""
    ensures DifferAt(a, b, i + 1) <==> a[0] == b[0] && DifferAt(a[1..], b[1..], i)
  {
    if i + 1 <= |a| && i + 1 <= |b| {
      assert a[..i + 1] == [a[0]] + a[1..][..i] && b[..i + 1] == [b[0]] + b[1..][..i];
    }
  }

  lemma {:induction false} AtMostTransitive(a: string, b: string, c: string)
    requires AtMost(a, b) && AtMost(b, c)
    ensures AtMost(a, c)
  {
    if c != "" && a != "" && b != "" && a[0] == c[0] {
      if b[0] == a[0] {
        AtMostTransitive(a[1..], b[1..], c[1..]);
      }
    }
  }

  lemma {:induction false} FirstIsLeast(a: seq<string>, b: seq<string>)
    requires a != [] && Sorted(a) && multiset(a) == multiset(b)
    ensures b != [] && AtMost(a[0], b[0])
  {
    assert a[0] in multiset(b);
    assert b[0] in multiset(a);
    var j :| 0 <= j < |a| && a[j] == b[0];
    LessIsTotal(a[0], b[0]);
  }

  /** Two sorted lists of the same strings are the same list. */
  lemma {:induction false} SortedIsUnique(a: seq<string>, b: seq<string>)
    requires Sorted(a) && Sorted(b) && multiset(a) == multiset(b)
    ensures a == b
  {
    hide Less;
    if a == [] {
      assert |multiset(b)| == |b|;
    } else {
      FirstIsLeast(a, b);
      FirstIsLeast(b, a);
      LessIsTotal(a[0], b[0]);
      assert a == [a[0]] + a[1..] && b == [b[0]] + b[1..];
      assert multiset(a[1..]) == multiset(a) - multiset{a[0]};
      assert multiset(b[1..]) == multiset(b) - multiset{b[0]};
      SortedIsUnique(a[1..], b[1..]);
    }
  }

  lemma {:induction false} WithoutOne<T>(s: seq<T>, j: nat)
    requires j < |s|
    ensures multiset(s) == multiset(s[..j] + s[j + 1..]) + multiset{s[j]}
  {
    assert s == s[..j] + [s[j]] + s[j + 1..];
  }

  lemma {:induction false} RestsPermute<T>(s: seq<T>, t: seq<T>, j: nat)
    requires multiset(s) == multiset(t) && s != [] && j < |t| && t[j] == s[0]
    ensures multiset(s[1..]) == multiset(t[..j] + t[j + 1..])
  {
    WithoutOne(s, 0);
    WithoutOne(t, j);
    assert s[..0] + s[1..] == s[1..];
    var x, y := multiset(s[1..]), multiset(t[..j] + t[j + 1..]);
    assert x + multiset{s[0]} == y + multiset{s[0]};
    assert x == x + multiset{s[0]} - multiset{s[0]};
    assert y == y + multiset{s[0]} - multiset{s[0]};
  }

  lemma {:induction false} PartsWithoutOne(o: Origins, ps: seq<Principal>, j: nat)
    requires j < |ps|
    ensures multiset(Parts(o, ps)) == multiset(Parts(o, ps[..j] + ps[j + 1..])) + multiset{Origin(o, ps[j]).GetOr("")}
  {
    hide Origin;
    WithoutOne(Parts(o, ps), j);
    assert Parts(o, ps[..j] + ps[j + 1..]) == Parts(o, ps)[..j] + Parts(o, ps)[j + 1..];
  }

  /** Permuting principals permutes their origins. */
  lemma {:induction false} PartsPermute(o: Origins, xs: seq<Principal>, ys: seq<Principal>)
    requires multiset(xs) == multiset(ys)
    ensures multiset(Parts(o, xs)) == multiset(Parts(o, ys))
    decreases |xs|
  {
    hide Origin;
    hide Parts;
    if xs == [] {
      EmptyToo(ys);
    } else {
      var j := PlaceOf(xs, ys);
      var rest := ys[..j] + ys[j + 1..];
      RestsPermute(xs, ys, j);
      PartsPermute(o, xs[1..], rest);
      PartsWithoutFirst(o, xs);
      PartsWithoutOne(o, ys, j);
    }
  }

  lemma {:induction false} EmptyToo<T>(s: seq<T>)
    requires multiset(s) == multiset([])
    ensures s == []
  {
    assert |multiset(s)| == |s|;
  }

  lemma {:induction false} PlaceOf<T>(s: seq<T>, t: seq<T>) returns (j: nat)
    requires multiset(s) == multiset(t) && s != []
    ensures j < |t| && t[j] == s[0]
  {
    assert s[0] in multiset(t);
    j :| 0 <= j < |t| && t[j] == s[0];
  }

  lemma {:induction false} PartsWithoutFirst(o: Origins, ps: seq<Principal>)
    requires ps != []
    ensures multiset(Parts(o, ps)) == multiset(Parts(o, ps[1..])) + multiset{Origin(o, ps[0]).GetOr("")}
  {
    PartsWithoutOne(o, ps, 0);
    assert ps[..0] + ps[1..] == ps[1..];
  }

  /** The origin of an expanded principal depends only on what its whitelist holds, not on the order. */
  lemma {:induction false} OriginIsCanonical(o: Origins, p: Principal, q: Principal, first: seq<Principal>,
                                             second: seq<Principal>)
    requires p.ExpandedPrincipal? && q.ExpandedPrincipal?
    requires KeptFor(o, p.principals, first) && KeptFor(o, q.principals, second)
    requires multiset(first) == multiset(second)
    ensures OriginInternal(o, p) == OriginInternal(o, q)
  {
    hide Origin;
    hide Less;
    hide Sorted;
    var xs, ys := p.principals, q.principals;
    SameMembers(first, second);
    SameMembers(first, xs);
    SameMembers(second, ys);
    if AllHaveOrigins(o, xs) {
      PartsPermute(o, xs, ys);
      SortedIsUnique(Parts(o, xs), Parts(o, ys));
      JoinedParts(o, p);
      JoinedParts(o, q);
    } else {
      var x :| x in xs && Origin(o, x).None?;
      var i :| 0 <= i < |xs| && xs[i] == x;
      assert x in ys;
      var j :| 0 <= j < |ys| && ys[j] == x;
    }
  }

  lemma {:induction false} SameMembers(s: seq<Principal>, t: seq<Principal>)
    requires multiset(s) == multiset(t)
    ensures forall p :: p in s <==> p in t
  {
    forall p ensures p in s <==> p in t {
      assert p in s <==> p in multiset(s);
      assert p in t <==> p in multiset(t);
    }
  }

  lemma {:induction false} JoinedParts(o: Origins, p: Principal)
    requires p.ExpandedPrincipal? && AllHaveOrigins(o, p.principals)
    ensures OriginInternal(o, p) == Some("[Expanded Principal [" + Join(Parts(o, p.principals)) + "]]")
  {
    assert Parts(o, p.principals) ==
           seq(|p.principals|, i requires 0 <= i < |p.principals| => Origin(o, p.principals[i]).GetOr(""));
  }

  method GetOrigin(o: Origins, p: Principal) returns (origin: Option<string>)
    ensures origin == Origin(o, p)
    decreases p, 1
  {
    origin := GetOriginInternal(o, p);
    if origin.Some? {
      origin := Some(origin.value + o.suffix(p.OriginAttributesRef()));
    }
  }

  method GetOriginInternal(o: Origins, p: Principal) returns (origin: Option<string>)
    ensures origin == OriginInternal(o, p)
    decreases p, 0
  {
    if !p.ExpandedPrincipal? {
      return o.internal(p);
    }
    ghost var parts := Parts(o, p.principals);
    var joined := "";
    for i := 0 to |p.principals|
      invariant forall j :: 0 <= j < i ==> Origin(o, p.principals[j]).Some?
      invariant joined == Join(parts[..i])
    {
      var sub := GetOrigin(o, p.principals[i]);
      if sub.None? {
        return None;
      }
      assert parts[..i + 1][..i] == parts[..i];
      joined := joined + (if i != 0 then ", " else "") + sub.value;
    }
    assert parts[..|parts|] == parts;
    JoinedParts(o, p);
    origin := Some("[Expanded Principal [" + joined + "]]");
  }

  method LessThan(o: Origins, a: Principal, b: Principal) returns (less: bool)
    ensures less == (Origin(o, a).Some? && Origin(o, b).Some? && Less(Origin(o, a).value, Origin(o, b).value))
  {
    var originA := GetOrigin(o, a);
    if originA.None? {
      return false;
    }
    var originB := GetOrigin(o, b);
    if originB.None? {
      return false;
    }
    less := Less(originA.value, originB.value);
  }

  /** The comparator's equality is identity, once both origins are known. */
  method SameObject(o: Origins, a: Principal, b: Principal) returns (same: bool)
    ensures same == (Origin(o, a).Some? && Origin(o, b).Some? && a == b)
  {
    var originA := GetOrigin(o, a);
    if originA.None? {
      return false;
    }
    var originB := GetOrigin(o, b);
    same := originB.Some? && a == b;
  }

  /** Below `low` nothing sorts after the item, from `high` on nothing before it. */
  ghost predicate Between(parts: seq<string>, part: string, low: nat, high: nat) {
    && low <= high <= |parts|
    && (forall j :: 0 <= j < low ==> AtMost(parts[j], part))
    && (forall j :: high <= j < |parts| ==> AtMost(part, parts[j]))
  }

  /** The binary search for the place of an item. */
  method IndexOfFirstElementGt(o: Origins, principals: seq<Principal>, item: Principal) returns (low: nat)
    ensures low <= |principals|
    ensures Orderly(o, principals, item) ==> Between(Parts(o, principals), Origin(o, item).value, low, low)
  {
    hide Origin;
    hide AtMost;
    hide Sorted;
    ghost var parts, part := Parts(o, principals), Origin(o, item).GetOr("");
    low := 0;
    var high := |principals|;
    while high != low
      invariant low <= high <= |principals|
      invariant Orderly(o, principals, item) ==> Between(parts, part, low, high)
    {
      var middle := low + (high - low) / 2;
      var less := LessThan(o, principals[middle], item);
      var same := SameObject(o, principals[middle], item);
      if Orderly(o, principals, item) {
        Narrow(parts, part, low, high, middle);
      }
      if less || same {
        low := middle + 1;
      } else {
        high := middle;
      }
    }
  }

  ghost predicate Orderly(o: Origins, principals: seq<Principal>, item: Principal) {
    AllHaveOrigins(o, principals) && Origin(o, item).Some? && Sorted(Parts(o, principals))
  }

  method InsertElementSorted(o: Origins, principals: seq<Principal>, item: Principal) returns (r: seq<Principal>)
    ensures multiset(r) == multiset(principals) + multiset{item}
    ensures Orderly(o, principals, item) ==> Sorted(Parts(o, r))
  {
    hide Origin;
    hide Parts;
    hide Sorted;
    hide Between;
    hide AllHaveOrigins;
    var index := IndexOfFirstElementGt(o, principals, item);
    Inserted(principals, index, item);
    r := principals[..index] + [item] + principals[index..];
    if Orderly(o, principals, item) {
      InsertKeepsSorted(Parts(o, principals), Origin(o, item).value, index);
      PartsInserted(o, principals, index, item);
    }
  }

  lemma {:induction false} Inserted<T>(s: seq<T>, i: nat, x: T)
    requires i <= |s|
    ensures multiset(s[..i] + [x] + s[i..]) == multiset(s) + multiset{x}
  {
    assert s == s[..i] + s[i..];
  }

  lemma {:induction false} PartsInserted(o: Origins, ps: seq<Principal>, i: nat, item: Principal)
    requires i <= |ps|
    ensures Parts(o, ps[..i] + [item] + ps[i..]) == Parts(o, ps)[..i] + [Origin(o, item).GetOr("")] + Parts(o, ps)[i..]
  {
    hide Origin;
  }

  /** What one comparison says about everything on one side. */
  lemma {:induction false} Narrow(parts: seq<string>, part: string, low: nat, high: nat, middle: nat)
    requires Sorted(parts) && Between(parts, part, low, high) && low <= middle < high
    ensures Less(parts[middle], part) || parts[middle] == part ==> Between(parts, part, middle + 1, high)
    ensures !Less(parts[middle], part) ==> Between(parts, part, low, middle)
  {
    hide Less;
    LessIsTotal(parts[middle], part);
    forall j | 0 <= j <= middle && (Less(parts[middle], part) || parts[middle] == part) ensures AtMost(parts[j], part) {
      if j < middle {
        AtMostTransitive(parts[j], parts[middle], part);
      }
    }
    forall j | middle <= j < |parts| && !Less(parts[middle], part) ensures AtMost(part, parts[j]) {
      if middle < j {
        AtMostTransitive(part, parts[middle], parts[j]);
      }
    }
  }

  lemma {:induction false} InsertKeepsSorted(parts: seq<string>, part: string, at: nat)
    requires Sorted(parts) && Between(parts, part, at, at)
    ensures Sorted(parts[..at] + [part] + parts[at..])
  {
    hide AtMost;
  }

  /** The constructor. */
  method NewExpandedPrincipal(o: Origins, id: nat, whitelist: seq<Principal>, attrs: Attributes) returns (p: Principal)
    ensures p.ExpandedPrincipal? && p.id == id && p.attrs == attrs
    ensures KeptFor(o, p.principals, whitelist)
  {
    hide Origin;
    hide OriginInternal;
    hide Less;
    var principals: seq<Principal> := [];
    for i := 0 to |whitelist|
      invariant KeptFor(o, principals, whitelist[..i])
    {
      assert whitelist[..i + 1] == whitelist[..i] + [whitelist[i]];
      SameMembers(principals, whitelist[..i]);
      principals := InsertElementSorted(o, principals, whitelist[i]);
    }
    assert whitelist[..|whitelist|] == whitelist;
    p := ExpandedPrincipal(id, principals, attrs);
  }
}
