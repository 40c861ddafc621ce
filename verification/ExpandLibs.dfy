/** Expansion of library descriptors (`expandlibs.py`): a depth-first walk over descriptor files, which may
    refer to each other in cycles. */
module ExpandLibs {
  import opened Graph
  import opened Wrappers

  /** `expandlibs_config`. */
  datatype Conf = Conf(libPrefix: string, libSuffix: string, dllPrefix: string, dllSuffix: string,
                       importLibSuffix: string, libsDescSuffix: string)

  datatype LibDescriptor = LibDescriptor(objs: seq<string>, libs: seq<string>)

  /** The file system as far as expansion looks at it: which paths exist, and what the descriptor files say. */
  datatype World = World(conf: Conf, exists_: string -> bool, descriptors: map<string, LibDescriptor>,
                         abspath: string -> string, relativize: string -> string)

  // Paths

  function LastIndex(s: string, c: char): (r: int)
    ensures -1 <= r < |s| && (r >= 0 ==> s[r] == c) && forall i :: r < i < |s| ==> s[i] != c
  {
    if s == "" then -1 else if s[|s| - 1] == c then |s| - 1 else LastIndex(s[..|s| - 1], c)
  }

  function Basename(path: string): string {
    path[LastIndex(path, '/') + 1..]
  }

  /** `os.path.splitext`: the last dot of the file name, unless only dots precede it. */
  function SplitExt(path: string): (r: (string, string))
    ensures r.0 + r.1 == path
    ensures r.1 != "" ==> r.1[0] == '.' && '.' !in r.1[1..] && '/' !in r.1
  {
    var dot, slash := LastIndex(path, '.'), LastIndex(path, '/');
    if dot > slash && exists i :: slash < i < dot && path[i] != '.' then (path[..dot], path[dot..]) else (path, "")
  }

  /** A path has an extension exactly when in its file name something other than a dot comes before some dot. */
  lemma {:induction false} ExtensionIff(path: string)
    ensures SplitExt(path).1 != "" <==>
            exists i, j :: 0 <= i < j < |path| && path[i] != '.' && path[j] == '.' && '/' !in path[i..]
  {
    var slash := LastIndex(path, '/');
    assert forall i :: slash < i < |path| ==> '/' !in path[i..];
  }

  /** `s.replace(what, with_, 1)`. */
  function ReplaceFirst(s: string, what: string, with_: string): string {
    if what <= s then with_ + s[|what|..]
    else if s == "" then s
    else [s[0]] + ReplaceFirst(s[1..], what, with_)
  }

  predicate Occurs(s: string, what: string, i: nat) {
    i + |what| <= |s| && s[i..i + |what|] == what
  }

  lemma {:induction false} OccursLater(s: string, what: string, k: nat)
    requires s != ""
    ensures Occurs(s[1..], what, k) <==> Occurs(s, what, k + 1)
  {
    if k + |what| < |s| {
      assert s[1..][k..k + |what|] == s[k + 1..k + 1 + |what|];
    }
  }

  /** The first occurrence is replaced, and text without one stays as it is. */
  lemma {:induction false} ReplaceFirstIs(s: string, what: string, with_: string, i: nat)
    requires forall k: nat :: k < i ==> !Occurs(s, what, k)
    ensures Occurs(s, what, i) ==> ReplaceFirst(s, what, with_) == s[..i] + with_ + s[i + |what|..]
    ensures i > |s| ==> ReplaceFirst(s, what, with_) == s
  {
    assert Occurs(s, what, 0) <==> what <= s;
    hide Occurs;
    if i > 0 && s != "" {
      var tail := s[1..];
      forall k: nat | k < i - 1 ensures !Occurs(tail, what, k) {
        OccursLater(s, what, k);
      }
      OccursLater(s, what, i - 1);
      ReplaceFirstIs(tail, what, with_, i - 1);
      Later(s, what, with_, i);
    }
  }

  lemma {:induction false} Later(s: string, what: string, with_: string, i: nat)
    requires 0 < i && s != ""
    ensures [s[0]] + s[1..] == s
    ensures Occurs(s, what, i) ==>
              s[..i] + with_ + s[i + |what|..] == [s[0]] + (s[1..][..i - 1] + with_ + s[1..][i - 1 + |what|..])
  {
  }

  // What an argument stands for

  datatype Target = Plain(text: string) | Described(desc: string)

  function DllName(conf: Conf, root: string): string {
    (if conf.libPrefix != "" then ReplaceFirst(root, conf.libPrefix, conf.dllPrefix) else root) + conf.dllSuffix
  }

  lemma {:induction false} FirstOccurrence(s: string, what: string, i: nat) returns (k: nat)
    requires Occurs(s, what, i)
    ensures k <= i && Occurs(s, what, k) && forall j: nat :: j < k ==> !Occurs(s, what, j)
  {
    k := 0;
    while !Occurs(s, what, k)
      invariant k <= i && forall j: nat :: j < k ==> !Occurs(s, what, j)
      decreases i - k
    {
      k := k + 1;
    }
  }

  /** Text without a slash that occurs across the end of a directory does not begin inside it. */
  lemma {:induction false} OccursInside(dir: string, rest: string, what: string, k: nat)
    requires dir != "" && dir[|dir| - 1] == '/' && '/' !in what && what != ""
    ensures Occurs(dir, what, k) <==> k < |dir| && Occurs(dir + rest, what, k)
  {
    var s := dir + rest;
    if k < |dir| && Occurs(s, what, k) {
      OccursAt(s, what, k);
      assert s[|dir| - 1] == '/';
    }
    assert k + |what| <= |dir| ==> s[k..k + |what|] == dir[k..k + |what|];
  }

  lemma {:induction false} OccursAt(s: string, what: string, k: nat)
    requires Occurs(s, what, k)
    ensures forall j :: k <= j < k + |what| ==> s[j] in what
  {
    forall j | k <= j < k + |what| ensures s[j] in what {
      assert what[j - k] == s[k..k + |what|][j - k];
    }
  }

  /** Where slashes tell the places apart, the two prefixes can change places only if they are the same. */
  lemma {:induction false} SwapMeansSame(a: string, q: string, b: string)
    requires '/' !in a && '/' !in b && '/' in q && a + q + b == b + q + a
    ensures a == b
  {
    FirstSlash(a, q, b);
    FirstSlash(b, q, a);
    assert |a| == |b|;
    assert (a + q + b)[..|a|] == a && (b + q + a)[..|b|] == b;
  }

  lemma {:induction false} FirstSlash(a: string, q: string, b: string)
    requires '/' !in a && '/' in q
    ensures var s := a + q + b;
            s[|a| + NameStop(q)] == '/' && forall k :: 0 <= k < |a| + NameStop(q) ==> s[k] != '/'
  {
    hide NameStop;
  }

  function NameStop(q: string): (f: nat)
    requires '/' in q
    ensures f < |q| && q[f] == '/' && forall k :: 0 <= k < f ==> q[k] != '/'
  {
    if q[0] == '/' then 0 else NameStop(q[1..]) + 1
  }

  /** The dynamic library looked for is the one beside the static one, its prefix and suffix exchanged, exactly when
      the prefixes are the same or the directory has no prefix in its own name, which would be replaced instead. */
  lemma {:induction false} DllNameIsRightIff(conf: Conf, dir: string, name: string)
    requires conf.libPrefix != "" && '/' !in conf.libPrefix && '/' !in conf.dllPrefix
    requires dir == "" || dir[|dir| - 1] == '/'
    ensures DllName(conf, dir + conf.libPrefix + name) == dir + conf.dllPrefix + name + conf.dllSuffix <==>
            conf.libPrefix == conf.dllPrefix || forall i: nat :: !Occurs(dir, conf.libPrefix, i)
  {
    var lib := conf.libPrefix;
    var root := dir + lib + name;
    assert root[|dir|..|dir| + |lib|] == lib;
    var i := FirstOccurrence(root, lib, |dir|);
    ReplaceFirstIs(root, lib, conf.dllPrefix, i);
    NotAfterEnd(dir, lib);
    hide ReplaceFirst;
    hide Occurs;
    assert root == dir + (lib + name);
    if i == |dir| {
      assert root[..i] == dir && root[i + |lib|..] == name;
      forall k: nat ensures !Occurs(dir, lib, k) {
        if k < |dir| {
          OccursInside(dir, lib + name, lib, k);
        }
      }
    } else {
      OccursInside(dir, lib + name, lib, i);
      ReplacedInside(conf, dir, name, i);
    }
  }

  lemma {:induction false} NotAfterEnd(s: string, what: string)
    requires what != ""
    ensures forall k: nat :: k >= |s| ==> !Occurs(s, what, k)
  {
  }

  lemma {:induction false} ReplacedInside(conf: Conf, dir: string, name: string, i: nat)
    requires conf.libPrefix != "" && '/' !in conf.libPrefix && '/' !in conf.dllPrefix
    requires dir != "" && dir[|dir| - 1] == '/' && Occurs(dir, conf.libPrefix, i)
    ensures var lib, dll := conf.libPrefix, conf.dllPrefix; var root := dir + lib + name;
            root[..i] + dll + root[i + |lib|..] + conf.dllSuffix == dir + dll + name + conf.dllSuffix <==> lib == dll
  {
    var lib, dll := conf.libPrefix, conf.dllPrefix;
    var root := dir + lib + name;
    SplitAt(dir, lib, i);
    hide Occurs;
    var p, q := dir[..i], dir[i + |lib|..];
    InTheDirectory(p, lib, dll, q, name, conf.dllSuffix);
    assert root[..i] == p && root[i + |lib|..] == q + lib + name;
  }

  lemma {:induction false} SplitAt(dir: string, lib: string, i: nat)
    requires Occurs(dir, lib, i) && dir != "" && dir[|dir| - 1] == '/' && '/' !in lib && lib != ""
    ensures i + |lib| <= |dir| && dir == dir[..i] + lib + dir[i + |lib|..] && '/' in dir[i + |lib|..]
  {
    OccursAt(dir, lib, i);
    var q := dir[i + |lib|..];
    assert |q| > 0 && q[|q| - 1] == dir[|dir| - 1];
  }

  lemma {:induction false} InTheDirectory(p: string, lib: string, dll: string, q: string, name: string, end: string)
    requires '/' !in lib && '/' !in dll && '/' in q
    ensures p + dll + (q + lib + name) + end == p + lib + q + dll + name + end <==> lib == dll
  {
    var one, two := p + dll + (q + lib + name) + end, p + lib + q + dll + name + end;
    var n := |p| + |dll| + |q| + |lib|;
    assert one[|p|..n] == dll + q + lib && two[|p|..n] == lib + q + dll;
    if one == two {
      SwapMeansSame(dll, q, lib);
    }
  }

  /** In a directory called lib the prefix of the directory is replaced. */
  lemma {:induction false} DirectoryMisleads()
    ensures var conf := Conf("lib", ".a", "", ".dll", "", ".desc");
            DllName(conf, "lib/libx") == "/libx.dll"
  {
    assert "lib" <= "lib/libx" && "lib/libx"[3..] == "/libx";
  }

  /** A library with a dynamic counterpart is replaced by that; one with a descriptor by what it says. */
  function Resolve(w: World, arg: string): Target {
    var (root, ext) := SplitExt(arg);
    if ext != w.conf.libSuffix || !(w.conf.libPrefix <= Basename(root)) then Plain(w.relativize(arg))
    else
      var dll := DllName(w.conf, root);
      if w.exists_(dll) then
        Plain(w.relativize(if w.conf.importLibSuffix != "" then root + w.conf.importLibSuffix else dll))
      else
        var desc := w.abspath(arg + w.conf.libsDescSuffix);
        if desc in w.descriptors then Described(desc) else Plain(w.relativize(arg))
  }

  predicate IsDirectory(dir: string) {
    dir == "" || dir[|dir| - 1] == '/'
  }

  /** The path is that of the static library `name` in the directory. */
  predicate IsLibrary(conf: Conf, arg: string, dir: string, name: string) {
    arg == dir + conf.libPrefix + name + conf.libSuffix && IsDirectory(dir) && '/' !in conf.libPrefix + name
  }

  lemma {:induction false} SplitLast(root: string, ext: string)
    requires ext != "" && ext[0] == '.' && '.' !in ext[1..] && '/' !in ext
    requires exists i :: 0 <= i < |root| && root[i] != '.' && '/' !in root[i..]
    ensures SplitExt(root + ext) == (root, ext)
  {
    var path := root + ext;
    var i :| 0 <= i < |root| && root[i] != '.' && '/' !in root[i..];
    assert forall j :: i <= j < |root| ==> path[j] == root[i..][j - i];
    assert forall j :: |root| < j < |path| ==> path[j] == ext[1..][j - |root| - 1];
    assert LastIndex(path, '/') < i && path[i] != '.';
    assert path[|root|] == '.' && LastIndex(path, '.') == |root|;
    assert path[..|root|] == root && path[|root|..] == ext;
  }

  lemma {:induction false} BaseIs(dir: string, base: string)
    requires IsDirectory(dir) && '/' !in base
    ensures Basename(dir + base) == base
  {
    assert forall i :: |dir| <= i < |dir| + |base| ==> (dir + base)[i] in base;
    assert dir != "" ==> (dir + base)[|dir| - 1] == '/';
    assert LastIndex(dir + base, '/') == |dir| - 1;
  }

  /** Suffixes as the tools write them, in paths whose names are not made of dots alone. */
  predicate IsExtension(ext: string) {
    ext != "" && ext[0] == '.' && '.' !in ext[1..] && '/' !in ext
  }

  lemma {:induction false} LibrarySplits(conf: Conf, arg: string, dir: string, name: string)
    requires IsLibrary(conf, arg, dir, name) && IsExtension(conf.libSuffix)
    requires exists c :: c in conf.libPrefix + name && c != '.'
    ensures var root := dir + conf.libPrefix + name;
            SplitExt(arg) == (root, conf.libSuffix) && conf.libPrefix <= Basename(root)
  {
    var base := conf.libPrefix + name;
    var root := dir + base;
    assert dir + conf.libPrefix + name == root && arg == root + conf.libSuffix;
    var k :| 0 <= k < |base| && base[k] != '.';
    assert root[|dir| + k] == base[k] && root[|dir| + k..] == base[k..];
    SplitLast(root, conf.libSuffix);
    BaseIs(dir, base);
  }

  lemma {:induction false} DllNameIs(conf: Conf, dir: string, name: string)
    requires IsDirectory(dir) && '/' !in conf.libPrefix && '/' !in conf.dllPrefix
    requires conf.libPrefix == "" || conf.libPrefix == conf.dllPrefix ||
             forall i: nat :: !Occurs(dir, conf.libPrefix, i)
    ensures DllName(conf, dir + conf.libPrefix + name) ==
            dir + (if conf.libPrefix == "" then "" else conf.dllPrefix) + name + conf.dllSuffix
  {
    if conf.libPrefix == "" {
      assert dir + "" == dir;
    } else {
      hide DllName;
      hide Occurs;
      DllNameIsRightIff(conf, dir, name);
    }
  }

  /** A static library stands for the dynamic one beside it, or for its import library, when that exists, else for what
      its descriptor says, else for itself. */
  lemma {:induction false} ResolveIs(w: World, arg: string, dir: string, name: string)
    requires IsLibrary(w.conf, arg, dir, name) && IsExtension(w.conf.libSuffix) && '/' !in w.conf.dllPrefix
    requires exists c :: c in w.conf.libPrefix + name && c != '.'
    requires w.conf.libPrefix == "" || w.conf.libPrefix == w.conf.dllPrefix ||
             forall i: nat :: !Occurs(dir, w.conf.libPrefix, i)
    ensures var dll := dir + (if w.conf.libPrefix == "" then "" else w.conf.dllPrefix) + name + w.conf.dllSuffix;
            var importLib := dir + w.conf.libPrefix + name + w.conf.importLibSuffix;
            var desc := w.abspath(arg + w.conf.libsDescSuffix);
            && (w.exists_(dll) ==>
                  Resolve(w, arg) == Plain(w.relativize(if w.conf.importLibSuffix != "" then importLib else dll)))
            && (!w.exists_(dll) && desc in w.descriptors ==> Resolve(w, arg) == Described(desc))
            && (!w.exists_(dll) && desc !in w.descriptors ==> Resolve(w, arg) == Plain(w.relativize(arg)))
  {
    LibrarySplits(w.conf, arg, dir, name);
    DllNameIs(w.conf, dir, name);
    hide SplitExt;
    hide Basename;
    hide DllName;
    hide Occurs;
  }

  lemma {:induction false} PathParts(path: string)
    ensures var dir := path[..LastIndex(path, '/') + 1];
            path == dir + Basename(path) && IsDirectory(dir) && '/' !in Basename(path)
  {
  }

  lemma {:induction false} LibraryFound(conf: Conf, arg: string) returns (dir: string, name: string)
    requires var (root, ext) := SplitExt(arg); ext == conf.libSuffix && conf.libPrefix <= Basename(root)
    ensures IsLibrary(conf, arg, dir, name)
  {
    var (root, _) := SplitExt(arg);
    PathParts(root);
    hide SplitExt;
    hide Basename;
    dir, name := root[..LastIndex(root, '/') + 1], Basename(root)[|conf.libPrefix|..];
    assert Basename(root) == conf.libPrefix + name;
    assert dir + conf.libPrefix + name == root;
  }

  /** Whatever is not the path of a static library is taken as it is. */
  lemma {:induction false} OthersPass(w: World, arg: string)
    requires forall dir, name :: !IsLibrary(w.conf, arg, dir, name)
    ensures Resolve(w, arg) == Plain(w.relativize(arg))
  {
    var (root, ext) := SplitExt(arg);
    if ext == w.conf.libSuffix && w.conf.libPrefix <= Basename(root) {
      var dir, name := LibraryFound(w.conf, arg);
    }
  }

  /** Which descriptor refers to which. */
  ghost function References(w: World): Edges {
    map d | d in w.descriptors :: Targets(w, w.descriptors[d].libs)
  }

  ghost function Targets(w: World, args: seq<string>): set<string> {
    set k | 0 <= k < |args| && Resolve(w, args[k]).Described? :: Resolve(w, args[k]).desc
  }

  // The walk

  /** A piece of the result: the objects of a descriptor, or the `index`-th entry of the arguments or of some
      descriptor, taken as it is. */
  datatype Piece = Objs(desc: string) | Entry(owner: Option<string>, index: nat, text: string)

  function Walk(w: World, owner: Option<string>, args: seq<string>, from: nat,
                seen: set<string>): (r: (seq<Piece>, set<string>))
    requires from <= |args| && seen <= w.descriptors.Keys
    ensures seen <= r.1 <= w.descriptors.Keys
    decreases w.descriptors.Keys - seen, 0, |args| - from
  {
    if from == |args| then ([], seen)
    else
      var first := WalkOne(w, owner, from, args[from], seen);
      assert first.1 != seen ==> w.descriptors.Keys - first.1 < w.descriptors.Keys - seen;
      var rest := Walk(w, owner, args, from + 1, first.1);
      (first.0 + rest.0, rest.1)
  }

  function WalkOne(w: World, owner: Option<string>, index: nat, arg: string,
                   seen: set<string>): (r: (seq<Piece>, set<string>))
    requires seen <= w.descriptors.Keys
    ensures seen <= r.1 <= w.descriptors.Keys
    decreases w.descriptors.Keys - seen, 0, 0
  {
    match Resolve(w, arg)
    case Plain(text) => ([Entry(owner, index, text)], seen)
    case Described(desc) =>
      if desc in seen then ([], seen)
      else
        assert desc in w.descriptors.Keys - seen;
        var rest := Walk(w, Some(desc), w.descriptors[desc].libs, 0, seen + {desc});
        ([Objs(desc)] + rest.0, rest.1)
  }

  /** The text the pieces stand for. */
  function Text(w: World, pieces: seq<Piece>): seq<string> {
    if pieces == [] then []
    else
      (match pieces[0]
       case Objs(desc) => if desc in w.descriptors then Relativized(w, w.descriptors[desc].objs) else []
       case Entry(_, _, text) => [text]) + Text(w, pieces[1..])
  }

  function Relativized(w: World, objs: seq<string>): seq<string> {
    seq(|objs|, i requires 0 <= i < |objs| => w.relativize(objs[i]))
  }

  // What the walk must yield

  /** The entries of a list that are taken as they are. */
  ghost function Entries(w: World, owner: Option<string>, args: seq<string>, from: nat): set<Piece> {
    set k | from <= k < |args| && Resolve(w, args[k]).Plain? :: Entry(owner, k, Resolve(w, args[k]).text)
  }

  /** All that a set of descriptors contributes: of each, its objects and its plain entries. */
  ghost function Contributions(w: World, descs: set<string>): set<Piece>
    requires descs <= w.descriptors.Keys
  {
    set d, p | d in descs && p in Entries(w, Some(d), w.descriptors[d].libs, 0) + {Objs(d)} :: p
  }

  ghost predicate ExactlyOnce(pieces: seq<Piece>, expected: set<Piece>) {
    multiset(pieces) == multiset(expected)
  }

  function Owner(p: Piece): Option<string> {
    match p
    case Objs(d) => Some(d)
    case Entry(owner, _, _) => owner
  }

  /** From the roots on, everything newly seen is reachable, and leads only to what has been seen. */
  ghost predicate Explored(w: World, roots: set<string>, before: set<string>, after: set<string>) {
    && before <= after <= w.descriptors.Keys && roots <= after
    && (forall d :: d in after - before ==> References(w)[d] <= after)
    && (forall d :: d in after - before ==> ReachedFrom(w, roots, d))
  }

  ghost predicate ReachedFrom(w: World, roots: set<string>, d: string) {
    exists t :: t in roots && Reach(References(w), t, d)
  }

  lemma {:induction false} JoinOnce(a: seq<Piece>, x: set<Piece>, b: seq<Piece>, y: set<Piece>)
    requires ExactlyOnce(a, x) && ExactlyOnce(b, y) && x !! y
    ensures ExactlyOnce(a + b, x + y)
  {
  }

  lemma {:induction false} OwnersOfContributions(w: World, descs: set<string>)
    requires descs <= w.descriptors.Keys
    ensures forall p <- Contributions(w, descs) :: Owner(p).Some? && Owner(p).value in descs
  {
  }

  lemma {:induction false} ContributionsJoin(w: World, x: set<string>, y: set<string>)
    requires x <= w.descriptors.Keys && y <= w.descriptors.Keys
    ensures Contributions(w, x + y) == Contributions(w, x) + Contributions(w, y)
    ensures x !! y ==> Contributions(w, x) !! Contributions(w, y)
  {
    OwnersOfContributions(w, x);
    OwnersOfContributions(w, y);
    if x !! y {
      forall p | p in Contributions(w, x) && p in Contributions(w, y) ensures false {
      }
    }
  }

  lemma {:induction false} ExploredThen(w: World, first: set<string>, rest: set<string>, before: set<string>,
                                        middle: set<string>, after: set<string>)
    requires Explored(w, first, before, middle) && Explored(w, rest, middle, after)
    ensures Explored(w, first + rest, before, after)
  {
    assert References(w).Keys == w.descriptors.Keys;
    hide References;
    hide Reach;
    forall d | d in after - before ensures References(w)[d] <= after && ReachedFrom(w, first + rest, d) {
      if d in middle {
        assert d in middle - before && ReachedFrom(w, first, d);
      } else {
        assert d in after - middle && ReachedFrom(w, rest, d);
      }
    }
  }

  /** Following one reference. */
  lemma {:induction false} ExploredInto(w: World, desc: string, before: set<string>, after: set<string>)
    requires desc in w.descriptors && desc !in before && before <= w.descriptors.Keys
    requires Explored(w, References(w)[desc], before + {desc}, after)
    ensures Explored(w, {desc}, before, after)
  {
    var e := References(w);
    assert e.Keys == w.descriptors.Keys;
    hide References;
    hide Reach;
    forall d | d in after - before ensures e[d] <= after && ReachedFrom(w, {desc}, d) {
      if d == desc {
        ReachSelf(e, desc);
      } else {
        assert d in after - (before + {desc}) && ReachedFrom(w, e[desc], d);
        var t :| t in e[desc] && Reach(e, t, d);
        EdgeReach(e, desc, t);
        ReachTrans(e, desc, t, d);
      }
    }
  }

  lemma {:induction false} WalkIsRight(w: World, owner: Option<string>, args: seq<string>, from: nat, seen: set<string>)
    requires from <= |args| && seen <= w.descriptors.Keys && (owner.Some? ==> owner.value in seen)
    ensures var r := Walk(w, owner, args, from, seen);
            && Explored(w, Targets(w, args[from..]), seen, r.1)
            && ExactlyOnce(r.0, Entries(w, owner, args, from) + Contributions(w, r.1 - seen))
    decreases w.descriptors.Keys - seen, 0, |args| - from
  {
    if from < |args| {
      var first := WalkOne(w, owner, from, args[from], seen);
      assert first.1 != seen ==> w.descriptors.Keys - first.1 < w.descriptors.Keys - seen;
      var rest := Walk(w, owner, args, from + 1, first.1);
      WalkOneIsRight(w, owner, from, args[from], seen);
      WalkIsRight(w, owner, args, from + 1, first.1);
      ExploredThen(w, Targets(w, [args[from]]), Targets(w, args[from + 1..]), seen, first.1, rest.1);
      TargetsSplit(w, args, from);
      JoinWalks(w, owner, args, from, seen, first, rest);
    }
  }

  lemma {:induction false} TargetsSplit(w: World, args: seq<string>, from: nat)
    requires from < |args|
    ensures Targets(w, args[from..]) == Targets(w, [args[from]]) + Targets(w, args[from + 1..])
  {
    hide Resolve;
    var all, one, more := args[from..], [args[from]], args[from + 1..];
    assert all == one + more;
    forall t ensures t in Targets(w, all) <==> t in Targets(w, one) + Targets(w, more) {
      if t in Targets(w, one) {
        assert all[0] == one[0];
      }
      if t in Targets(w, more) {
        var k :| 0 <= k < |more| && Resolve(w, more[k]).Described? && Resolve(w, more[k]).desc == t;
        assert all[k + 1] == more[k];
      }
      if t in Targets(w, all) {
        var k :| 0 <= k < |all| && Resolve(w, all[k]).Described? && Resolve(w, all[k]).desc == t;
        assert k > 0 ==> more[k - 1] == all[k];
        assert k == 0 ==> one[0] == all[k];
      }
    }
  }

  lemma {:induction false} JoinWalks(w: World, owner: Option<string>, args: seq<string>, from: nat, seen: set<string>,
                                     first: (seq<Piece>, set<string>), rest: (seq<Piece>, set<string>))
    requires from < |args| && seen <= first.1 <= rest.1 <= w.descriptors.Keys && (owner.Some? ==> owner.value in seen)
    requires ExactlyOnce(first.0, EntryAt(w, owner, from, args[from]) + Contributions(w, first.1 - seen))
    requires ExactlyOnce(rest.0, Entries(w, owner, args, from + 1) + Contributions(w, rest.1 - first.1))
    ensures ExactlyOnce(first.0 + rest.0, Entries(w, owner, args, from) + Contributions(w, rest.1 - seen))
  {
    var c, d := Contributions(w, first.1 - seen), Contributions(w, rest.1 - first.1);
    var x, y := EntryAt(w, owner, from, args[from]), Entries(w, owner, args, from + 1);
    ContributionsJoin(w, first.1 - seen, rest.1 - first.1);
    assert rest.1 - seen == (first.1 - seen) + (rest.1 - first.1);
    EntriesSplit(w, owner, args, from);
    DisjointByOwner(w, seen, first.1, rest.1, owner, x, y);
    hide Contributions;
    hide Entries;
    hide EntryAt;
    hide ExactlyOnce;
    JoinOnce(first.0, x + c, rest.0, y + d);
    assert x + c + (y + d) == x + y + (c + d);
  }

  /** Pieces of different owners are different pieces. */
  lemma {:induction false} DisjointByOwner(w: World, seen: set<string>, middle: set<string>, after: set<string>,
                                           owner: Option<string>, x: set<Piece>, y: set<Piece>)
    requires seen <= middle <= after <= w.descriptors.Keys && (owner.Some? ==> owner.value in seen)
    requires x !! y && (forall p <- x :: Owner(p) == owner) && (forall p <- y :: Owner(p) == owner)
    ensures x + Contributions(w, middle - seen) !! y + Contributions(w, after - middle)
  {
    OwnersOfContributions(w, middle - seen);
    OwnersOfContributions(w, after - middle);
    hide Contributions;
  }

  ghost function EntryAt(w: World, owner: Option<string>, index: nat, arg: string): set<Piece> {
    match Resolve(w, arg)
    case Plain(text) => {Entry(owner, index, text)}
    case Described(_) => {}
  }

  lemma {:induction false} EntriesSplit(w: World, owner: Option<string>, args: seq<string>, from: nat)
    requires from < |args|
    ensures Entries(w, owner, args, from) == EntryAt(w, owner, from, args[from]) + Entries(w, owner, args, from + 1)
    ensures EntryAt(w, owner, from, args[from]) !! Entries(w, owner, args, from + 1)
    ensures forall p <- Entries(w, owner, args, from) :: Owner(p) == owner
  {
    hide Resolve;
  }

  /** With nothing new seen, nothing is contributed. */
  lemma {:induction false} NothingNew(w: World, seen: set<string>, x: set<Piece>, pieces: seq<Piece>)
    requires seen <= w.descriptors.Keys && multiset(pieces) == multiset(x)
    ensures ExactlyOnce(pieces, x + Contributions(w, seen - seen))
  {
    assert Contributions(w, seen - seen) == {};
    assert x + {} == x;
  }

  lemma {:induction false} WalkOneIsRight(w: World, owner: Option<string>, index: nat, arg: string, seen: set<string>)
    requires seen <= w.descriptors.Keys && (owner.Some? ==> owner.value in seen)
    ensures var r := WalkOne(w, owner, index, arg, seen);
            && Explored(w, Targets(w, [arg]), seen, r.1)
            && ExactlyOnce(r.0, EntryAt(w, owner, index, arg) + Contributions(w, r.1 - seen))
    decreases w.descriptors.Keys - seen, 0, 0
  {
    hide Contributions;
    hide Entries;
    hide Targets;
    hide References;
    hide Reach;
    hide ExactlyOnce;
    hide Resolve;
    match Resolve(w, arg)
    case Plain(text) =>
      NoTargets(w, arg);
      NothingNew(w, seen, {Entry(owner, index, text)}, [Entry(owner, index, text)]);
    case Described(desc) =>
      OneTarget(w, arg);
      DescribedIsKnown(w, arg);
      if desc in seen {
        NothingNew(w, seen, {}, []);
      } else {
        assert desc in w.descriptors.Keys - seen;
        var libs := w.descriptors[desc].libs;
        var rest := Walk(w, Some(desc), libs, 0, seen + {desc});
        WalkIsRight(w, Some(desc), libs, 0, seen + {desc});
        ReferencesOf(w, desc);
        ExploredInto(w, desc, seen, rest.1);
        JoinOwn(w, desc, seen, rest);
        assert {} + Contributions(w, rest.1 - seen) == Contributions(w, rest.1 - seen);
      }
  }

  lemma {:induction false} ReferencesOf(w: World, desc: string)
    requires desc in w.descriptors
    ensures desc in References(w) && References(w)[desc] == Targets(w, w.descriptors[desc].libs[0..])
  {
    assert w.descriptors[desc].libs[0..] == w.descriptors[desc].libs;
  }

  lemma {:induction false} DescribedIsKnown(w: World, arg: string)
    ensures Resolve(w, arg).Described? ==> Resolve(w, arg).desc in w.descriptors
  {
  }

  lemma {:induction false} NoTargets(w: World, arg: string)
    requires Resolve(w, arg).Plain?
    ensures Targets(w, [arg]) == {}
  {
  }

  lemma {:induction false} OneTarget(w: World, arg: string)
    requires Resolve(w, arg).Described?
    ensures Targets(w, [arg]) == {Resolve(w, arg).desc}
  {
    assert [arg][0] == arg;
  }

  lemma {:induction false} ContributionsOfOne(w: World, desc: string)
    requires desc in w.descriptors
    ensures var own := Entries(w, Some(desc), w.descriptors[desc].libs, 0);
            Contributions(w, {desc}) == own + {Objs(desc)} && Objs(desc) !in own
  {
    hide Resolve;
  }

  lemma {:induction false} JoinOwn(w: World, desc: string, seen: set<string>, rest: (seq<Piece>, set<string>))
    requires desc in w.descriptors && desc !in seen && seen + {desc} <= rest.1 <= w.descriptors.Keys
    requires ExactlyOnce(rest.0, Entries(w, Some(desc), w.descriptors[desc].libs, 0) +
                         Contributions(w, rest.1 - (seen + {desc})))
    ensures ExactlyOnce([Objs(desc)] + rest.0, Contributions(w, rest.1 - seen))
  {
    hide Contributions;
    hide Entries;
    var later := rest.1 - (seen + {desc});
    var own := Entries(w, Some(desc), w.descriptors[desc].libs, 0);
    assert rest.1 - seen == {desc} + later;
    ContributionsJoin(w, {desc}, later);
    OwnersOfContributions(w, later);
    ContributionsOfOne(w, desc);
    assert ExactlyOnce([Objs(desc)], {Objs(desc)});
    hide ExactlyOnce;
    JoinOnce([Objs(desc)], {Objs(desc)}, rest.0, own + Contributions(w, later));
    assert {Objs(desc)} + (own + Contributions(w, later)) == own + {Objs(desc)} + Contributions(w, later);
  }

  /** The expansion of an argument list: whatever the cycles, each descriptor that can be reached without
      passing a dynamic library contributes its objects and its other entries exactly once, and nothing else does. */
  lemma {:induction false} EachReachedOnce(w: World, args: seq<string>)
    ensures var (pieces, seen) := Walk(w, None, args, 0, {});
            && (forall d :: d in seen <==> ReachedFrom(w, Targets(w, args), d))
            && ExactlyOnce(pieces, Entries(w, None, args, 0) + Contributions(w, seen))
  {
    var (pieces, seen) := Walk(w, None, args, 0, {});
    WalkIsRight(w, None, args, 0, {});
    assert args[0..] == args && seen - {} == seen;
    var e := References(w);
    forall d | ReachedFrom(w, Targets(w, args), d) ensures d in seen {
      var t :| t in Targets(w, args) && Reach(e, t, d);
      ClosedSetTraps(e, seen, t, d);
    }
  }

  // The order of the pieces

  /** An entry before the objects of its descriptor, or before an earlier entry of the same list. */
  predicate Misplaced(first: Piece, second: Piece) {
    Owner(first) == Owner(second) && first.Entry? && (second.Objs? || second.index <= first.index)
  }

  ghost predicate InOrder(pieces: seq<Piece>) {
    forall j, k :: 0 <= j < k < |pieces| ==> !Misplaced(pieces[j], pieces[k])
  }

  /** An entry of the list itself, or a piece of one of the descriptors. */
  ghost predicate Placed(p: Piece, owner: Option<string>, from: nat, descs: set<string>) {
    || (p.Entry? && p.owner == owner && p.index >= from)
    || (Owner(p).Some? && Owner(p).value in descs)
  }

  lemma {:induction false} OnceIsIn(pieces: seq<Piece>, expected: set<Piece>)
    requires ExactlyOnce(pieces, expected)
    ensures forall p <- pieces :: p in expected
  {
    forall p | p in pieces ensures p in expected {
      assert p in multiset(pieces);
    }
  }

  lemma {:induction false} WalkPlaces(w: World, owner: Option<string>, args: seq<string>, from: nat, seen: set<string>)
    requires from <= |args| && seen <= w.descriptors.Keys && (owner.Some? ==> owner.value in seen)
    ensures var r := Walk(w, owner, args, from, seen); forall p <- r.0 :: Placed(p, owner, from, r.1 - seen)
  {
    var r := Walk(w, owner, args, from, seen);
    WalkIsRight(w, owner, args, from, seen);
    OnceIsIn(r.0, Entries(w, owner, args, from) + Contributions(w, r.1 - seen));
    OwnersOfContributions(w, r.1 - seen);
  }

  lemma {:induction false} WalkOnePlaces(w: World, owner: Option<string>, index: nat, arg: string, seen: set<string>)
    requires seen <= w.descriptors.Keys && (owner.Some? ==> owner.value in seen)
    ensures var r := WalkOne(w, owner, index, arg, seen);
            forall p <- r.0 :: (p.Entry? && p.owner == owner && p.index == index) ||
                               (Owner(p).Some? && Owner(p).value in r.1 - seen)
  {
    hide Resolve;
    var r := WalkOne(w, owner, index, arg, seen);
    WalkOneIsRight(w, owner, index, arg, seen);
    OnceIsIn(r.0, EntryAt(w, owner, index, arg) + Contributions(w, r.1 - seen));
    OwnersOfContributions(w, r.1 - seen);
  }

  lemma {:induction false} JoinInOrder(a: seq<Piece>, b: seq<Piece>)
    requires InOrder(a) && InOrder(b) && forall x, y :: x in a && y in b ==> !Misplaced(x, y)
    ensures InOrder(a + b)
  {
    hide Misplaced;
  }

  /** The objects of a descriptor come before the libraries it lists, and what is taken as it is stays in the order
      in which it is listed. */
  lemma {:induction false} WalkIsInOrder(w: World, owner: Option<string>, args: seq<string>, from: nat,
                                         seen: set<string>)
    requires from <= |args| && seen <= w.descriptors.Keys && (owner.Some? ==> owner.value in seen)
    ensures InOrder(Walk(w, owner, args, from, seen).0)
    decreases w.descriptors.Keys - seen, 0, |args| - from
  {
    hide WalkOne;
    if from < |args| {
      var first := WalkOne(w, owner, from, args[from], seen);
      assert first.1 != seen ==> w.descriptors.Keys - first.1 < w.descriptors.Keys - seen;
      WalkOneIsInOrder(w, owner, from, args[from], seen);
      WalkIsInOrder(w, owner, args, from + 1, first.1);
      WalkOnePlaces(w, owner, from, args[from], seen);
      WalkPlaces(w, owner, args, from + 1, first.1);
      var rest := Walk(w, owner, args, from + 1, first.1);
      JoinInOrder(first.0, rest.0);
    }
  }

  lemma {:induction false} WalkOneIsInOrder(w: World, owner: Option<string>, index: nat, arg: string, seen: set<string>)
    requires seen <= w.descriptors.Keys && (owner.Some? ==> owner.value in seen)
    ensures InOrder(WalkOne(w, owner, index, arg, seen).0)
    decreases w.descriptors.Keys - seen, 0, 0
  {
    hide Resolve;
    hide Walk;
    match Resolve(w, arg)
    case Plain(text) =>
    case Described(desc) =>
      DescribedIsKnown(w, arg);
      if desc !in seen {
        assert desc in w.descriptors.Keys - seen;
        WalkIsInOrder(w, Some(desc), w.descriptors[desc].libs, 0, seen + {desc});
        JoinInOrder([Objs(desc)], Walk(w, Some(desc), w.descriptors[desc].libs, 0, seen + {desc}).0);
      }
  }

  // The program

  class ExpandArgs {
    const w: World
    var items: seq<string>
    var descs: set<string>

    constructor (w: World, args: seq<string>)
      ensures this.w == w
      ensures items == Text(w, Walk(w, None, args, 0, {}).0) && descs == Walk(w, None, args, 0, {}).1
    {
      hide Walk;
      this.w := w;
      items, descs := [], {};
      new;
      ghost var whole := Walk(w, None, args, 0, {});
      ghost var sofar: seq<Piece> := [];
      for i := 0 to |args|
        invariant this.w == w && descs <= w.descriptors.Keys
        invariant whole.0 == sofar + Walk(w, None, args, i, descs).0 && whole.1 == Walk(w, None, args, i, descs).1
        invariant items == Text(w, sofar)
      {
        ghost var first := WalkOne(w, None, i, args[i], descs);
        WalkNext(w, None, args, i, descs, sofar);
        TextJoins(w, sofar, first.0);
        var more := Expand(None, i, args[i]);
        items := items + more;
        sofar := sofar + first.0;
      }
      WalkEnds(w, None, args, descs, sofar);
    }

    method Expand(ghost owner: Option<string>, ghost index: nat, arg: string) returns (r: seq<string>)
      requires descs <= w.descriptors.Keys
      modifies `descs
      ensures r == Text(w, WalkOne(w, owner, index, arg, old(descs)).0)
      ensures descs == WalkOne(w, owner, index, arg, old(descs)).1
      decreases w.descriptors.Keys - descs, 2
    {
      hide Walk;
      hide WalkOne;
      hide Text;
      hide DllName;
      hide SplitExt;
      hide Basename;
      if Resolve(w, arg).Plain? {
        WalkOnePlain(w, owner, index, arg, descs);
      }
      var (root, ext) := SplitExt(arg);
      if ext != w.conf.libSuffix || !(w.conf.libPrefix <= Basename(root)) {
        return [w.relativize(arg)];
      }
      var dll := DllName(w.conf, root);
      if w.exists_(dll) {
        if w.conf.importLibSuffix != "" {
          return [w.relativize(root + w.conf.importLibSuffix)];
        } else {
          return [w.relativize(dll)];
        }
      }
      r := ExpandDesc(owner, index, arg);
    }

    method ExpandDesc(ghost owner: Option<string>, ghost index: nat, arg: string) returns (r: seq<string>)
      requires descs <= w.descriptors.Keys
      requires Resolve(w, arg) == (var desc := w.abspath(arg + w.conf.libsDescSuffix);
                                   if desc in w.descriptors then Described(desc) else Plain(w.relativize(arg)))
      modifies `descs
      ensures r == Text(w, WalkOne(w, owner, index, arg, old(descs)).0)
      ensures descs == WalkOne(w, owner, index, arg, old(descs)).1
      decreases w.descriptors.Keys - descs, 1
    {
      hide Walk;
      hide Resolve;
      hide Text;
      hide Relativized;
      var desc := w.abspath(arg + w.conf.libsDescSuffix);
      if desc in w.descriptors {
        TextOfFew(w, Entry(owner, index, ""));
        if desc in descs {
          return [];
        }
        assert desc in w.descriptors.Keys - descs;
        descs := descs + {desc};
        ghost var start := descs;
        var libs := w.descriptors[desc].libs;
        r := Relativized(w, w.descriptors[desc].objs);
        ghost var whole := Walk(w, Some(desc), libs, 0, start);
        ghost var sofar: seq<Piece> := [];
        for i := 0 to |libs|
          invariant start <= descs <= w.descriptors.Keys
          invariant whole.0 == sofar + Walk(w, Some(desc), libs, i, descs).0 &&
                    whole.1 == Walk(w, Some(desc), libs, i, descs).1
          invariant r == Relativized(w, w.descriptors[desc].objs) + Text(w, sofar)
        {
          hide WalkOne;
          ghost var first := WalkOne(w, Some(desc), i, libs[i], descs);
          WalkNext(w, Some(desc), libs, i, descs, sofar);
          TextJoins(w, sofar, first.0);
          var more := Expand(Some(desc), i, libs[i]);
          r := r + more;
          sofar := sofar + first.0;
        }
        WalkEnds(w, Some(desc), libs, descs, sofar);
        TextOfDescriptor(w, desc, whole.0);
        return;
      }
      TextOfFew(w, Entry(owner, index, w.relativize(arg)));
      r := [w.relativize(arg)];
    }
  }

  lemma {:induction false} WalkOnePlain(w: World, owner: Option<string>, index: nat, arg: string, seen: set<string>)
    requires seen <= w.descriptors.Keys && Resolve(w, arg).Plain?
    ensures Text(w, WalkOne(w, owner, index, arg, seen).0) == [Resolve(w, arg).text]
    ensures WalkOne(w, owner, index, arg, seen).1 == seen
  {
    hide Resolve;
  }

  lemma {:induction false} WalkNext(w: World, owner: Option<string>, args: seq<string>, i: nat, seen: set<string>,
                                    sofar: seq<Piece>)
    requires i < |args| && seen <= w.descriptors.Keys
    ensures var first := WalkOne(w, owner, i, args[i], seen);
            && sofar + Walk(w, owner, args, i, seen).0 == sofar + first.0 + Walk(w, owner, args, i + 1, first.1).0
            && Walk(w, owner, args, i, seen).1 == Walk(w, owner, args, i + 1, first.1).1
  {
    hide WalkOne;
  }

  lemma {:induction false} WalkEnds(w: World, owner: Option<string>, args: seq<string>, seen: set<string>,
                                    sofar: seq<Piece>)
    requires seen <= w.descriptors.Keys
    ensures sofar + Walk(w, owner, args, |args|, seen).0 == sofar && Walk(w, owner, args, |args|, seen).1 == seen
  {
  }

  lemma {:induction false} TextJoins(w: World, a: seq<Piece>, b: seq<Piece>)
    ensures Text(w, a + b) == Text(w, a) + Text(w, b)
  {
    if a == [] {
      assert a + b == b;
    } else {
      assert (a + b)[1..] == a[1..] + b;
      TextJoins(w, a[1..], b);
    }
  }

  lemma {:induction false} TextOfFew(w: World, p: Piece)
    ensures Text(w, []) == [] && (p.Entry? ==> Text(w, [p]) == [p.text])
  {
  }

  lemma {:induction false} TextOfDescriptor(w: World, desc: string, pieces: seq<Piece>)
    requires desc in w.descriptors
    ensures Text(w, [Objs(desc)] + pieces) == Relativized(w, w.descriptors[desc].objs) + Text(w, pieces)
  {
    assert ([Objs(desc)] + pieces)[1..] == pieces;
  }
}
