/** Relative paths between directories (`pathsub.c`). A C string is a sequence without its terminator, and a
    pointer into it an index. */
module PathSub {
  import opened Wrappers

  // Names in a path

  function NameEnd(s: string): (r: nat)
    ensures r <= |s| && '/' !in s[..r] && (r < |s| ==> s[r] == '/')
  {
    if s == "" || s[0] == '/' then 0 else
      var r := NameEnd(s[1..]);
      assert s[..r + 1] == [s[0]] + s[1..][..r];
      1 + r
  }

  /** The names along a path; repeated slashes do not matter. */
  function Components(s: string): (r: seq<string>)
    decreases |s|
  {
    if s == "" then []
    else if s[0] == '/' then Components(s[1..])
    else [s[..NameEnd(s)]] + Components(s[NameEnd(s)..])
  }

  function SkipSlashes(s: string): (r: string)
    ensures |r| <= |s| && (r != "" ==> r[0] != '/') && (s != "" && s[0] == '/' ==> |r| < |s|)
  {
    if s == "" || s[0] != '/' then s else SkipSlashes(s[1..])
  }

  /** What `getcomponent` copies, and what it leaves. */
  function FirstName(s: string): string {
    if s != "" && s[0] == '/' then "/" else s[..NameEnd(s)]
  }

  function AfterName(s: string): (r: string)
    ensures s != "" ==> |r| < |s|
  {
    SkipSlashes(s[NameEnd(s)..])
  }

  /** The names `getcomponent` yields one after the other. */
  function Names(s: string): seq<string>
    decreases |s|
  {
    if s == "" then [] else [FirstName(s)] + Names(AfterName(s))
  }

  // What a relative path means

  /** Following names from a directory. */
  function Follow(dir: seq<string>, names: seq<string>): seq<string>
    decreases names
  {
    if names == [] then dir else Follow(Step(dir, names[0]), names[1..])
  }

  function Step(dir: seq<string>, name: string): seq<string> {
    if name == "." then dir
    else if name == ".." then (if dir == [] then [] else dir[..|dir| - 1])
    else dir + [name]
  }

  /** Following a path from a directory; an absolute one starts from the root. */
  function Resolve(dir: seq<string>, path: string): seq<string> {
    Follow(if path != "" && path[0] == '/' then [] else dir, Components(path))
  }

  // What `relatepaths` writes

  /** How far the two paths agree. */
  function Agree(from: string, to: string): (r: nat)
    ensures r <= |from| && r <= |to| && from[..r] == to[..r]
    ensures r < |from| && r < |to| ==> from[r] != to[r]
  {
    if from == "" || to == "" || from[0] != to[0] then 0
    else
      var r := Agree(from[1..], to[1..]);
      assert from[..r + 1] == [from[0]] + from[1..][..r];
      assert to[..r + 1] == [to[0]] + to[1..][..r];
      1 + r
  }

  /** Just after the last slash before a position. */
  function AfterSlash(s: string, i: nat): (r: nat)
    requires i <= |s|
    ensures r <= i && (r > 0 ==> s[r - 1] == '/') && forall k :: r <= k < i ==> s[k] != '/'
  {
    if i == 0 || s[i - 1] == '/' then i else AfterSlash(s, i - 1)
  }

  /** Where the names start that differ: the closest common ancestor comes before. */
  function Parting(from: string, to: string): (r: nat)
    ensures r <= |from| && r <= |to| && from[..r] == to[..r] && (r > 0 ==> from[r - 1] == '/')
  {
    var r := AfterSlash(from, Agree(from, to));
    assert from[..r] == from[..Agree(from, to)][..r];
    r
  }

  function Repeat(s: string, n: nat): string {
    if n == 0 then "" else s + Repeat(s, n - 1)
  }

  function EachWithSlash(names: seq<string>): string {
    if names == [] then "" else names[0] + "/" + EachWithSlash(names[1..])
  }

  function Relative(from: string, to: string): string {
    var at := Parting(from, to);
    if at == 1 then to + "/"
    else Repeat("../", |Names(from[at..])|) + EachWithSlash(Names(to[at..]))
  }

  // Splitting and joining

  lemma {:induction false} SplitAtSlash(a: string, b: string)
    ensures Components(a + "/" + b) == Components(a) + Components(b)
    decreases |a|
  {
    var s := a + "/" + b;
    if a == "" {
      assert s[1..] == b;
    } else if a[0] == '/' {
      assert s[1..] == a[1..] + "/" + b;
      SplitAtSlash(a[1..], b);
    } else {
      var e := NameEnd(a);
      NameEndBefore(a, b);
      assert s[..e] == a[..e] && s[e..] == a[e..] + "/" + b;
      SplitAtSlash(a[e..], b);
    }
  }

  lemma {:induction false} NameEndBefore(a: string, b: string)
    ensures NameEnd(a + "/" + b) == NameEnd(a)
  {
    if a != "" && a[0] != '/' {
      assert (a + "/" + b)[1..] == a[1..] + "/" + b;
      NameEndBefore(a[1..], b);
    }
  }

  lemma {:induction false} ComponentsOfName(name: string)
    requires '/' !in name && name != ""
    ensures Components(name) == [name]
  {
    assert name[NameEnd(name)..] == "";
    assert name[..|name|] == name;
  }

  lemma {:induction false} ComponentsSkip(s: string)
    ensures Components(SkipSlashes(s)) == Components(s)
  {
    if s != "" && s[0] == '/' {
      ComponentsSkip(s[1..]);
    }
  }

  /** Going through a path with `getcomponent` yields its names; only a slash at the very start shows up as
      a name of its own. */
  lemma {:induction false} NamesAreComponents(s: string)
    ensures Names(s) == (if s != "" && s[0] == '/' then ["/"] else []) + Components(s)
    decreases |s|
  {
    if s != "" {
      var rest := AfterName(s);
      NamesAreComponents(rest);
      ComponentsSkip(s[NameEnd(s)..]);
      assert [] + Components(rest) == Components(rest);
    }
  }

  lemma {:induction false} ComponentsOfNames(s: string)
    ensures Components(EachWithSlash(Names(s))) == Components(s)
    decreases |s|
  {
    if s != "" {
      var rest := AfterName(s);
      ComponentsOfNames(rest);
      ComponentsSkip(s[NameEnd(s)..]);
      SplitAtSlash(FirstName(s), EachWithSlash(Names(rest)));
      if s[0] == '/' {
        assert "/"[1..] == "";
        assert Components("/") == [];
      } else {
        ComponentsOfName(FirstName(s));
      }
    }
  }

  function Ups(n: nat): seq<string> {
    if n == 0 then [] else [".."] + Ups(n - 1)
  }

  lemma {:induction false} OneUp(n: nat, rest: string)
    requires n > 0
    ensures Repeat("../", n) + rest == ".." + "/" + (Repeat("../", n - 1) + rest)
  {
  }

  lemma {:induction false} ComponentsOfUps(n: nat, rest: string)
    ensures Components(Repeat("../", n) + rest) == Ups(n) + Components(rest)
  {
    if n == 0 {
      assert "" + rest == rest;
    } else {
      OneUp(n, rest);
      hide Repeat;
      ComponentsOfName("..");
      hide Components;
      SplitAtSlash("..", Repeat("../", n - 1) + rest);
      ComponentsOfUps(n - 1, rest);
      assert [".."] + (Ups(n - 1) + Components(rest)) == [".."] + Ups(n - 1) + Components(rest);
    }
  }

  // Where the result leads

  predicate NoDots(names: seq<string>) {
    "." !in names && ".." !in names
  }

  /** How far above its start a list of names climbs. */
  function Rise(names: seq<string>): (r: nat)
    ensures r <= |names|
  {
    if names == [] then 0
    else
      var r := Rise(names[1..]);
      if names[0] == "." then r else if names[0] == ".." then r + 1 else if r > 0 then r - 1 else 0
  }

  /** The names it then leads down to. */
  function Landing(names: seq<string>): (r: seq<string>)
    ensures |r| <= |names|
  {
    if names == [] then []
    else
      var r := Landing(names[1..]);
      if names[0] == "." || names[0] == ".." || Rise(names[1..]) > 0 then r else [names[0]] + r
  }

  /** A directory `n` levels up; the root is its own parent. */
  function Up(dir: seq<string>, n: nat): seq<string> {
    if n <= |dir| then dir[..|dir| - n] else []
  }

  /** Following any list of names is going up and then down. */
  lemma {:induction false} FollowIs(dir: seq<string>, names: seq<string>)
    ensures Follow(dir, names) == Up(dir, Rise(names)) + Landing(names)
    decreases names
  {
    if names == [] {
      assert dir + [] == dir;
    } else if names[0] == "." {
      FollowIs(dir, names[1..]);
    } else if names[0] == ".." {
      var parent := if dir == [] then [] else dir[..|dir| - 1];
      FollowIs(parent, names[1..]);
      assert Up(parent, Rise(names[1..])) == Up(dir, Rise(names));
    } else {
      FollowIs(dir + [names[0]], names[1..]);
      var r := Rise(names[1..]);
      if r > 0 {
        assert Up(dir + [names[0]], r) == Up(dir, r - 1);
      } else {
        assert Up(dir + [names[0]], 0) == dir + [names[0]];
        assert dir + [names[0]] + Landing(names[1..]) == dir + ([names[0]] + Landing(names[1..]));
      }
    }
  }

  /** Only without dots does every name lead down. */
  lemma {:induction false} DotsAreShort(names: seq<string>)
    ensures |Landing(names)| == |names| <==> NoDots(names)
    ensures NoDots(names) ==> Rise(names) == 0 && Landing(names) == names
  {
    if names != [] {
      DotsAreShort(names[1..]);
      assert names == [names[0]] + names[1..];
    }
  }

  lemma {:induction false} FollowConcat(dir: seq<string>, a: seq<string>, b: seq<string>)
    ensures Follow(dir, a + b) == Follow(Follow(dir, a), b)
    decreases a
  {
    if a == [] {
      assert a + b == b;
    } else {
      assert (a + b)[0] == a[0] && (a + b)[1..] == a[1..] + b;
      FollowConcat(Step(dir, a[0]), a[1..], b);
    }
  }

  lemma {:induction false} FollowUps(dir: seq<string>, n: nat)
    ensures Follow(dir, Ups(n)) == Up(dir, n)
  {
    if n > 0 {
      assert Ups(n)[1..] == Ups(n - 1);
      var parent := if dir == [] then [] else dir[..|dir| - 1];
      FollowUps(parent, n - 1);
      assert Up(parent, n - 1) == Up(dir, n);
    }
  }

  /** The paths part in the middle of repeated slashes. */
  predicate PartsInSlashes(from: string, to: string) {
    var at := Parting(from, to);
    if at < |from| then from[at] == '/' else at < |to| && to[at] == '/'
  }

  lemma {:induction false} ComponentsPart(s: string, at: nat)
    requires 0 < at <= |s| && s[at - 1] == '/'
    ensures Components(s) == Components(s[..at]) + Components(s[at..])
  {
    SplitAtSlash(s[..at - 1], s[at..]);
    SplitAtSlash(s[..at - 1], "");
    assert s[..at - 1] + "/" + s[at..] == s;
    assert s[..at - 1] + "/" + "" == s[..at];
    assert Components(s[..at - 1]) + [] == Components(s[..at - 1]);
  }

  lemma {:induction false} PartingIsInside(from: string, to: string)
    requires from != "" && to != "" && from[0] == to[0] == '/'
    ensures Parting(from, to) > 0
  {
    assert Agree(from, to) > 0;
    assert AfterSlash(from, Agree(from, to)) > 0;
  }

  lemma {:induction false} NamesOfText(s: string)
    ensures EachWithSlash(Names(s)) == "" <==> s == ""
    ensures s != "" ==> EachWithSlash(Names(s))[0] == s[0]
    ensures Names(s) == [] <==> s == ""
  {
    if s != "" && s[0] != '/' {
      assert FirstName(s)[0] == s[0];
    }
  }

  /** From where the paths part, `to` climbs all the way back to the root. */
  predicate ClimbsToRoot(from: string, to: string) {
    var at := Parting(from, to);
    |Resolve([], to[..at])| <= Rise(Components(to[at..]))
  }

  /** Followed from the directory `from` denotes, the relative path leads to the one `to` denotes exactly when `to`
      climbs to the root anyway, or what is left of `from` has no dot names and the paths do not part in the middle
      of repeated slashes. */
  lemma {:induction false} RelativeIsRightIff(from: string, to: string)
    requires from != "" && to != "" && from[0] == to[0] == '/'
    ensures Resolve(Resolve([], from), Relative(from, to)) == Resolve([], to) <==>
            || ClimbsToRoot(from, to)
            || (NoDots(Components(from[Parting(from, to)..])) && !PartsInSlashes(from, to))
  {
    var at := Parting(from, to);
    PartingIsInside(from, to);
    assert to[..at] == from[..at] && to[at - 1] == from[..at][at - 1] && to[..at][0] == '/';
    ComponentsPart(from, at);
    ComponentsPart(to, at);
    var above, below, down := Components(to[..at]), Components(from[at..]), Components(to[at..]);
    if at == 1 {
      SplitAtSlash(to, "");
      assert to + "/" + "" == to + "/" && Components(to) + [] == Components(to);
      assert to[..1] == "/" && "/"[1..] == "";
    } else {
      FollowConcat([], above, below);
      FollowConcat([], above, down);
      RelativeLeads(from, to, at, Follow([], above), below, down);
    }
  }

  lemma {:induction false} RelativeLeads(from: string, to: string, at: nat, above: seq<string>, below: seq<string>,
                                         down: seq<string>)
    requires at == Parting(from, to) != 1 && below == Components(from[at..]) && down == Components(to[at..])
    ensures Resolve(Follow(above, below), Relative(from, to)) == Follow(above, down) <==>
            |above| <= Rise(down) || (NoDots(below) && !PartsInSlashes(from, to))
  {
    var n, tail := |Names(from[at..])|, EachWithSlash(Names(to[at..]));
    ComponentsOfUps(n, tail);
    ComponentsOfNames(to[at..]);
    NamesAreComponents(from[at..]);
    NamesOfText(from[at..]);
    NamesOfText(to[at..]);
    assert n == |below| + if at < |from| && from[at] == '/' then 1 else 0;
    hide Components;
    hide Names;
    hide EachWithSlash;
    FollowConcat(Follow(above, below), Ups(n), down);
    hide Follow;
    if n == 0 {
      assert "" + tail == tail && Ups(0) + down == down;
      StartsAt(above, if tail != "" && tail[0] == '/' then 0 else |above|, down);
      assert above[..|above|] == above && above[..0] == [];
      FollowIs(above, below);
      assert above + [] == above;
    } else {
      UpThenDown(above, below, n, down);
    }
  }

  /** Starting further up leads to the same place only for names that climb to the root. */
  lemma {:induction false} StartsAt(dir: seq<string>, k: nat, names: seq<string>)
    requires k <= |dir|
    ensures Follow(dir[..k], names) == Follow(dir, names) <==> k == |dir| || |dir| <= Rise(names)
  {
    FollowIs(dir[..k], names);
    FollowIs(dir, names);
    assert dir[..|dir|] == dir;
    assert |Follow(dir, names)| == |Up(dir, Rise(names))| + |Landing(names)|;
    assert |Follow(dir[..k], names)| == |Up(dir[..k], Rise(names))| + |Landing(names)|;
  }

  /** Going up at least as often as there are names below leads into `above`, and back to it only if each of them
      led down and there is no step more. */
  lemma {:induction false} UpThenDown(above: seq<string>, below: seq<string>, n: nat, down: seq<string>)
    requires |below| <= n
    ensures Follow(Follow(Follow(above, below), Ups(n)), down) == Follow(above, down) <==>
            |above| <= Rise(down) || (NoDots(below) && n == |below|)
  {
    FollowIs(above, below);
    FollowUps(Follow(above, below), n);
    DotsAreShort(below);
    var start := Up(above, Rise(below));
    var k := |Up(start + Landing(below), n)|;
    assert k <= |start| <= |above|;
    assert Up(start + Landing(below), n) == start[..k] == above[..k];
    StartsAt(above, k, down);
  }

  lemma {:induction false} TwoNames(a: string, c: string)
    requires a != "" && c != "" && '/' !in a && '/' !in c
    ensures Components("/" + a + "/" + c) == [a, c] && Components("/" + a + "/") == [a]
  {
    SplitAtSlash("/" + a, c);
    SplitAtSlash("/" + a, "");
    SplitAtSlash("", a);
    assert "" + "/" + a == "/" + a && "/" + a + "/" + "" == "/" + a + "/";
    ComponentsOfName(a);
    ComponentsOfName(c);
  }

  /** From /a//b the way to /a/c is one step up too many. */
  lemma {:induction false} RepeatedSlashMisleads()
    ensures Resolve(Resolve([], "/a//b"), Relative("/a//b", "/a/c")) != Resolve([], "/a/c") == ["a", "c"]
  {
    PartAfterA("/b");
    assert "/a/" + "/b" == "/a//b";
  }

  /** From /a/../b, which is /b, it leads to /c. */
  lemma {:induction false} DotsMislead()
    ensures Resolve([], "/a/../b") == ["b"]
    ensures Resolve(["b"], Relative("/a/../b", "/a/c")) != Resolve([], "/a/c") == ["a", "c"]
  {
    DotsAfterA();
    hide Relative;
    hide Components;
    PartAfterA("../b");
    assert "/a/" + "../b" == "/a/../b";
    assert Follow([], ["a", "..", "b"]) == Follow(["a"], ["..", "b"]) == Follow([], ["b"]) == ["b"];
  }

  lemma {:induction false} DotsAfterA()
    ensures Components("../b") == ["..", "b"] && Components("/a/../b") == ["a", "..", "b"]
  {
    assert "/a" + "/" + "../b" == "/a/../b" && "" + "/" + "a" == "/a" && ".." + "/" + "b" == "../b";
    ComponentsOfName("a");
    ComponentsOfName("..");
    ComponentsOfName("b");
    SplitAtSlash("/a", "../b");
    SplitAtSlash("", "a");
    SplitAtSlash("..", "b");
  }

  lemma {:induction false} PartAfterA(rest: string)
    requires rest != "" && rest[0] != 'c' && (rest[0] == '/' || !NoDots(Components(rest)))
    ensures Resolve(Resolve([], "/a/" + rest), Relative("/a/" + rest, "/a/c")) != Resolve([], "/a/c") == ["a", "c"]
  {
    var from, to := "/a/" + rest, "/a/c";
    TwoNames("a", "c");
    ComponentsOfName("c");
    assert "/" + "a" + "/" + "c" == to && "/" + "a" + "/" == to[..3] == from[..3] && from[3..] == rest &&
           to[3..] == "c";
    AgreeIs(from, to, 3);
    assert Parting(from, to) == 3;
    assert Follow([], ["a"]) == ["a"] && Rise(["c"]) == 0;
    hide Components;
    hide Relative;
    hide Parting;
    RelativeIsRightIff(from, to);
  }

  ghost predicate NoRepeatedSlash(s: string) {
    forall i :: 0 < i < |s| ==> !(s[i - 1] == '/' && s[i] == '/')
  }

  /** In particular it is right for paths without repeated slashes when no name of `from` is a dot name. */
  lemma {:induction false} RelativeIsRight(from: string, to: string)
    requires from != "" && to != "" && from[0] == to[0] == '/' && NoDots(Components(from))
    requires NoRepeatedSlash(from) && NoRepeatedSlash(to)
    ensures Resolve(Components(from), Relative(from, to)) == Resolve([], to)
  {
    var at := Parting(from, to);
    PartingIsInside(from, to);
    assert to[at - 1] == from[..at][at - 1];
    RelativeIsRightIff(from, to);
    ComponentsPart(from, at);
    FollowDown(Components(from));
    assert forall n :: n in Components(from[at..]) ==> n in Components(from);
    hide Components;
    hide Relative;
    hide ClimbsToRoot;
  }

  lemma {:induction false} FollowDown(names: seq<string>)
    requires NoDots(names)
    ensures Follow([], names) == names
  {
    FollowIs([], names);
    DotsAreShort(names);
  }

  // The program

  /** The character a pointer sees; the terminator at the end. */
  function At(s: string, i: nat): char {
    if i < |s| then s[i] else '\0'
  }

  method GetComponent(path: string, at: nat) returns (next: Option<nat>, name: string)
    requires at <= |path| && '\0' !in path
    ensures next.None? <==> at == |path|
    ensures next.Some? ==> at < next.value <= |path|
    ensures next.Some? ==> name == FirstName(path[at..]) && path[next.value..] == AfterName(path[at..])
  {
    name := "";
    if At(path, at) == '\0' {
      return None, name;
    }
    var p := at;
    if At(path, p) == '/' {
      name := "/";
    } else {
      name, p := CopyName(path, at);
    }
    ghost var rest := path[p..];
    while At(path, p) == '/'
      invariant at <= p <= |path| && SkipSlashes(rest) == SkipSlashes(path[p..])
      invariant at < p || At(path, p) == '/'
      decreases |path| - p
    {
      assert path[p..][1..] == path[p + 1..];
      p := p + 1;
    }
    assert rest == path[at..][NameEnd(path[at..])..];
    next := Some(p);
  }

  /** The loop that copies a name up to the next slash. */
  method CopyName(path: string, at: nat) returns (name: string, p: nat)
    requires at < |path| && '\0' !in path && path[at] != '/'
    ensures at < p <= |path| && name == path[at..][..NameEnd(path[at..])] && p == at + NameEnd(path[at..])
  {
    name, p := [path[at]], at + 1;
    while At(path, p) != '/' && At(path, p) != '\0'
      invariant at < p <= |path| && name == path[at..p] && '/' !in name
      decreases |path| - p
    {
      name, p := name + [path[p]], p + 1;
    }
    assert path[at..][..p - at] == name;
    NameEndIs(path[at..], p - at);
  }

  lemma {:induction false} NameEndIs(s: string, e: nat)
    requires e <= |s| && '/' !in s[..e] && (e < |s| ==> s[e] == '/')
    ensures NameEnd(s) == e
  {
    if e > 0 {
      assert s[0] == s[..e][0];
      assert s[..e] == [s[0]] + s[1..][..e - 1];
      NameEndIs(s[1..], e - 1);
    }
  }

  lemma {:induction false} AgreeIs(from: string, to: string, n: nat)
    requires n <= |from| && n <= |to| && from[..n] == to[..n]
    requires n < |from| && n < |to| ==> from[n] != to[n]
    ensures Agree(from, to) == n
  {
    if n > 0 {
      assert from[0] == from[..n][0] == to[..n][0] == to[0];
      assert from[1..][..n - 1] == from[..n][1..] && to[1..][..n - 1] == to[..n][1..];
      AgreeIs(from[1..], to[1..], n - 1);
    }
  }

  /** The two pointer walks: forward while the paths agree, and back to a slash. */
  method FindParting(from: string, to: string) returns (cp: nat)
    requires from != "" && to != "" && from[0] == to[0] == '/' && '\0' !in from && '\0' !in to
    ensures cp == Parting(from, to) && 0 < cp <= |to|
  {
    cp := 0;
    var cp2 := 0;
    while At(to, cp) == At(from, cp2)
      invariant cp == cp2 <= |from| && cp <= |to| && from[..cp] == to[..cp]
      decreases |to| - cp
    {
      if At(to, cp) == '\0' {
        break;
      }
      assert from[..cp + 1] == from[..cp] + [from[cp]] && to[..cp + 1] == to[..cp] + [to[cp]];
      cp, cp2 := cp + 1, cp2 + 1;
    }
    AgreeIs(from, to, cp);
    ghost var agree := cp;
    PartingIsInside(from, to);
    hide Agree;
    while to[cp - 1] != '/'
      invariant 0 < cp == cp2 <= agree && AfterSlash(from, cp) == Parting(from, to)
      decreases cp
    {
      assert to[cp - 1] == from[..agree][cp - 1];
      cp, cp2 := cp - 1, cp2 - 1;
    }
    assert to[cp - 1] == from[..agree][cp - 1];
  }

  /** One step up for every name left in `from`. */
  method Climb(from: string, start: nat) returns (outpath: string, len: nat)
    requires start <= |from| && '\0' !in from
    ensures outpath == Repeat("../", |Names(from[start..])|) && len == |outpath|
  {
    hide Names;
    hide AfterName;
    hide FirstName;
    hide Repeat;
    outpath, len := "", 0;
    var cp2 := start;
    var next, name := GetComponent(from, cp2);
    RepeatsStart(|Names(from[start..])|);
    while next.Some?
      invariant cp2 <= |from| && (next.None? <==> cp2 == |from|)
      invariant next.Some? ==> cp2 < next.value <= |from| && from[next.value..] == AfterName(from[cp2..])
      invariant outpath + Repeat("../", |Names(from[cp2..])|) == Repeat("../", |Names(from[start..])|) &&
                len == |outpath|
      decreases |from| - cp2
    {
      OneMoreUp(outpath, from[cp2..]);
      outpath, len, cp2 := outpath + "../", len + 3, next.value;
      next, name := GetComponent(from, cp2);
    }
    NothingMore(outpath, from[cp2..]);
  }

  /** And every name left in `to` on the way down. */
  method Descend(to: string, start: nat, climbed: string) returns (outpath: string, len: nat)
    requires start <= |to| && '\0' !in to
    ensures outpath == climbed + EachWithSlash(Names(to[start..])) && len == |outpath|
  {
    hide Names;
    hide AfterName;
    hide FirstName;
    hide EachWithSlash;
    outpath, len := climbed, |climbed|;
    var cp := start;
    var next, name := GetComponent(to, cp);
    while next.Some?
      invariant cp <= |to| && (next.None? <==> cp == |to|)
      invariant next.Some? ==> cp < next.value <= |to|
      invariant next.Some? ==> name == FirstName(to[cp..]) && to[next.value..] == AfterName(to[cp..])
      invariant outpath + EachWithSlash(Names(to[cp..])) == climbed + EachWithSlash(Names(to[start..])) &&
                len == |outpath|
      decreases |to| - cp
    {
      OneMoreName(outpath, to[cp..]);
      outpath, len, cp := outpath + name + "/", len + |name| + 1, next.value;
      next, name := GetComponent(to, cp);
    }
    NothingMore(outpath, to[cp..]);
  }

  method RelatePaths(from: string, to: string) returns (outpath: string, len: nat)
    requires from != "" && to != "" && from[0] == to[0] == '/' && '\0' !in from && '\0' !in to
    ensures outpath == Relative(from, to) && len == |outpath|
  {
    var cp := FindParting(from, to);
    if cp - 1 == 0 {
      outpath := to;
      len := |outpath|;
      if At(outpath, len) != '/' {
        outpath, len := outpath + "/", len + 1;
      }
    } else {
      outpath, len := Climb(from, cp);
      outpath, len := Descend(to, cp, outpath);
    }
  }

  lemma {:induction false} RepeatsStart(n: nat)
    ensures "" + Repeat("../", n) == Repeat("../", n)
  {
  }

  lemma {:induction false} NothingMore(out: string, s: string)
    requires s == ""
    ensures out + Repeat("../", |Names(s)|) == out && out + EachWithSlash(Names(s)) == out
  {
  }

  lemma {:induction false} OneMoreUp(out: string, s: string)
    requires s != ""
    ensures out + Repeat("../", |Names(s)|) == out + "../" + Repeat("../", |Names(AfterName(s))|)
  {
    var more := Repeat("../", |Names(AfterName(s))|);
    assert |Names(s)| == 1 + |Names(AfterName(s))|;
    assert out + ("../" + more) == out + "../" + more;
  }

  lemma {:induction false} OneMoreName(out: string, s: string)
    requires s != ""
    ensures out + EachWithSlash(Names(s)) == out + FirstName(s) + "/" + EachWithSlash(Names(AfterName(s)))
  {
    var more := EachWithSlash(Names(AfterName(s)));
    assert Names(s)[1..] == Names(AfterName(s));
    assert out + (FirstName(s) + "/" + more) == out + FirstName(s) + "/" + more;
  }
}
