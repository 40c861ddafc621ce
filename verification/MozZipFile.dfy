/** `ZipFile` of `MozZipFile.py`: an archive whose entries can be written again. An entry is overwritten
    in place, or cut off the end, or left behind as garbage that `close` squeezes out. */
module MozZipFile {
  import opened ZipLayout

  /** Writing bytes over a file from a position inside it. */
  function Overwrite(d: Data, at: nat, b: Data): (r: Data)
    requires at <= |d|
    ensures |r| >= at + |b| && r[..at] == d[..at] && r[at..at + |b|] == b
    ensures at + |b| <= |d| ==> |r| == |d| && r[at + |b|..] == d[at + |b|..]
  {
    d[..at] + b + if at + |b| <= |d| then d[at + |b|..] else []
  }

  ghost predicate NamesAre(files: seq<Info>, contents: map<string, Content>) {
    && (forall i, j :: 0 <= i < j < |files| ==> files[i].name != files[j].name)
    && (forall i :: 0 <= i < |files| ==> files[i].name in contents)
    && (forall n :: n in contents ==> exists i :: 0 <= i < |files| && files[i].name == n)
  }

  /** The file holds, for each name, the bytes last written under it, and entries do not overlap. */
  ghost predicate Consistent(format: Format, d: Data, layout: seq<Entry>, end: nat, contents: map<string, Content>) {
    && Layered(layout, end) && end <= |d|
    && NamesAre(Kept(layout), contents)
    && (forall e :: e in Kept(layout) ==> Holds(format, d, e, contents))
  }

  lemma {:induction false} SliceOfRest(d: Data, k: nat, lo: nat, hi: nat)
    requires k <= lo <= hi <= |d|
    ensures d[lo..hi] == d[k..][lo - k..hi - k]
  {
  }

  /** An entry survives a write that stays clear of it. */
  lemma {:induction false} HoldsApart(format: Format, d: Data, at: nat, b: Data, e: Info,
                                      contents: map<string, Content>)
    requires at <= |d| && Holds(format, d, e, contents)
    requires e.offset + e.Length() <= at || at + |b| <= e.offset
    ensures Holds(format, Overwrite(d, at, b), e, contents)
  {
    var r, lo, hi := Overwrite(d, at, b), e.offset, e.offset + e.Length();
    if hi <= at {
      assert r[lo..hi] == r[..at][lo..hi] == d[lo..hi];
    } else {
      SliceOfRest(r, at + |b|, lo, hi);
      SliceOfRest(d, at + |b|, lo, hi);
    }
  }

  lemma {:induction false} HoldsElsewhere(format: Format, d: Data, at: nat, b: Data, e: Info,
                                          contents: map<string, Content>, name: string, c: Content)
    requires at <= |d| && Holds(format, d, e, contents) && e.name != name
    requires e.offset + e.Length() <= at || (at + |b| <= e.offset)
    ensures Holds(format, Overwrite(d, at, b), e, contents[name := c])
  {
    HoldsApart(format, d, at, b, e, contents);
  }

  lemma {:induction false} Append(format: Format, d: Data, layout: seq<Entry>, end: nat, contents: map<string, Content>,
               name: string, c: Content, e: Info)
    requires format.Lawful() && Consistent(format, d, layout, end, contents) && name !in contents
    requires e == Info(name, end, |format.record(name, c)| - 30 - |name|)
    ensures Consistent(format, Overwrite(d, end, format.record(name, c)), layout + [Entry(e, true)],
                       end + e.Length(), contents[name := c])
    ensures Kept(layout + [Entry(e, true)]) == Kept(layout) + [e]
    ensures Dropped(layout + [Entry(e, true)]) == Dropped(layout)
  {
    var layout', contents' := layout + [Entry(e, true)], contents[name := c];
    var d' := Overwrite(d, end, format.record(name, c));
    assert layout'[..|layout|] == layout;
    assert Kept(layout') == Kept(layout) + [e];
    forall f | f in Kept(layout') ensures Holds(format, d', f, contents') {
      if f != e {
        KeptMember(layout, f);
        HoldsElsewhere(format, d, end, format.record(name, c), f, contents, name, c);
      }
    }
    AppendNames(Kept(layout), contents, e, c);
  }

  lemma {:induction false} AppendNames(files: seq<Info>, contents: map<string, Content>, e: Info, c: Content)
    requires NamesAre(files, contents) && e.name !in contents
    ensures NamesAre(files + [e], contents[e.name := c])
  {
    var files' := files + [e];
    var contents' := contents[e.name := c];
    forall n | n in contents' ensures exists i :: 0 <= i < |files'| && files'[i].name == n {
      if n == e.name {
        assert files'[|files|].name == n;
      } else {
        var i :| 0 <= i < |files| && files[i].name == n;
        assert files'[i].name == n;
      }
    }
  }

  lemma {:induction false} RemoveName(a: seq<Info>, e: Info, b: seq<Info>, contents: map<string, Content>)
    requires NamesAre(a + [e] + b, contents)
    ensures NamesAre(a + b, contents - {e.name})
    ensures forall f :: f in a + b ==> f.name != e.name
  {
    NamesDiffer(a, e, b);
    var contents' := contents - {e.name};
    forall i | 0 <= i < |a + b| ensures (a + b)[i].name in contents' {
      assert (a + b)[i] == (a + [e] + b)[if i < |a| then i else i + 1];
    }
    forall n | n in contents' ensures exists i :: 0 <= i < |a + b| && (a + b)[i].name == n {
      FoundElsewhere(a, e, b, n);
    }
  }

  lemma {:induction false} FoundElsewhere(a: seq<Info>, e: Info, b: seq<Info>, n: string)
    requires n != e.name && exists i :: 0 <= i < |a + [e] + b| && (a + [e] + b)[i].name == n
    ensures exists i :: 0 <= i < |a + b| && (a + b)[i].name == n
  {
    var i :| 0 <= i < |a + [e] + b| && (a + [e] + b)[i].name == n;
    assert (a + [e] + b)[|a|] == e;
    assert (a + b)[if i < |a| then i else i - 1] == (a + [e] + b)[i];
  }

  lemma {:induction false} NamesDiffer(a: seq<Info>, e: Info, b: seq<Info>)
    requires forall i, j :: 0 <= i < j < |a + [e] + b| ==> (a + [e] + b)[i].name != (a + [e] + b)[j].name
    ensures forall i, j :: 0 <= i < j < |a + b| ==> (a + b)[i].name != (a + b)[j].name
    ensures forall i :: 0 <= i < |a + b| ==> (a + b)[i].name != e.name
  {
    var old_, new_ := a + [e] + b, a + b;
    assert old_[|a|] == e;
    assert forall i :: 0 <= i < |new_| ==> new_[i] == old_[if i < |a| then i else i + 1];
  }

  /** Dropping an entry's claim leaves the others as they were. */
  lemma {:induction false} HoldsWithoutName(format: Format, d: Data, e: Info, contents: map<string, Content>,
                                            name: string)
    requires Holds(format, d, e, contents) && e.name != name
    ensures Holds(format, d, e, contents - {name})
  {
  }

  /** Every entry before a place in the file lies within what is left when the file is cut there. */
  lemma {:induction false} HoldsBeforeCut(format: Format, d: Data, cut: nat, e: Info, contents: map<string, Content>,
                                          name: string)
    requires Holds(format, d, e, contents) && e.name != name && e.offset + e.Length() <= cut <= |d|
    ensures Holds(format, d[..cut], e, contents - {name})
  {
    assert d[..cut][e.offset..e.offset + e.Length()] == d[e.offset..e.offset + e.Length()];
  }

  /** Cutting the file at its last entry spares everything before it. */
  lemma {:induction false} CutLast(format: Format, d: Data, layout: seq<Entry>, end: nat,
                                   contents: map<string, Content>)
    requires Consistent(format, d, layout, end, contents) && layout != [] && layout[|layout| - 1].keep
    ensures var n := |layout| - 1; var e := layout[n].info;
            && Consistent(format, d[..e.offset], layout[..n], e.offset, contents - {e.name})
            && Kept(layout) == Kept(layout[..n]) + [e] && Dropped(layout) == Dropped(layout[..n])
  {
    var n := |layout| - 1;
    var e := layout[n].info;
    var before := Kept(layout[..n]);
    LastIsKept(layout);
    hide Kept;
    hide Dropped;
    RemoveLastName(before, e, contents);
    hide NamesAre;
    forall f | f in before ensures Holds(format, d[..e.offset], f, contents - {e.name}) {
      KeptBefore(layout, end, f);
      assert Holds(format, d, f, contents);
      HoldsBeforeCut(format, d, e.offset, f, contents, e.name);
    }
    hide Holds;
  }

  lemma {:induction false} LastIsKept(layout: seq<Entry>)
    requires layout != [] && layout[|layout| - 1].keep
    ensures var n := |layout| - 1;
            Kept(layout) == Kept(layout[..n]) + [layout[n].info] && Dropped(layout) == Dropped(layout[..n])
  {
  }

  lemma {:induction false} KeptBefore(layout: seq<Entry>, end: nat, f: Info)
    requires Layered(layout, end) && layout != [] && f in Kept(layout[..|layout| - 1])
    ensures f.offset + f.Length() <= layout[|layout| - 1].info.offset
  {
    KeptMember(layout[..|layout| - 1], f);
  }

  lemma {:induction false} RemoveLastName(a: seq<Info>, e: Info, contents: map<string, Content>)
    requires NamesAre(a + [e], contents)
    ensures NamesAre(a, contents - {e.name})
    ensures forall f :: f in a ==> f.name != e.name
  {
    assert a + [e] + [] == a + [e] && a + [] == a;
    RemoveName(a, e, [], contents);
  }

  /** Marking an entry as removed takes it out of the directory and nothing else. */
  lemma {:induction false} DropFromDirectory(layout: seq<Entry>, j: nat)
    requires j < |layout| && layout[j].keep
    ensures var e, layout' := layout[j].info, layout[j := Entry(layout[j].info, false)];
            && Kept(layout) == Kept(layout[..j]) + [e] + Kept(layout[j + 1..])
            && Kept(layout') == Kept(layout[..j]) + Kept(layout[j + 1..])
            && multiset(Dropped(layout')) == multiset(Dropped(layout)) + multiset{e}
  {
    var e, layout' := layout[j].info, layout[j := Entry(layout[j].info, false)];
    KeptAround(layout, j);
    KeptAround(layout', j);
    assert layout'[..j] == layout[..j] && layout'[j + 1..] == layout[j + 1..];
    hide Kept;
    hide Dropped;
    assert Kept(layout[..j]) + [] + Kept(layout[j + 1..]) == Kept(layout[..j]) + Kept(layout[j + 1..]);
  }

  lemma {:induction false} LayeredIgnoresKeep(layout: seq<Entry>, end: nat, j: nat)
    requires Layered(layout, end) && j < |layout|
    ensures Layered(layout[j := Entry(layout[j].info, false)], end)
  {
    var layout' := layout[j := Entry(layout[j].info, false)];
    assert forall i :: 0 <= i < |layout| ==> layout'[i].info == layout[i].info;
  }

  lemma {:induction false} Drop(format: Format, d: Data, layout: seq<Entry>, end: nat, contents: map<string, Content>,
                                j: nat)
    requires Consistent(format, d, layout, end, contents) && j < |layout| && layout[j].keep
    ensures Consistent(format, d, layout[j := Entry(layout[j].info, false)], end, contents - {layout[j].info.name})
  {
    var e := layout[j].info;
    var a, b := Kept(layout[..j]), Kept(layout[j + 1..]);
    LayeredIgnoresKeep(layout, end, j);
    DropFromDirectory(layout, j);
    hide Kept;
    hide Layered;
    RemoveName(a, e, b, contents);
    hide NamesAre;
    forall f | f in a + b ensures Holds(format, d, f, contents - {e.name}) {
      assert f in a + [e] + b;
      HoldsWithoutName(format, d, f, contents, e.name);
    }
  }

  lemma {:induction false} SameNames(files: seq<Info>, contents: map<string, Content>, e: Info, c: Content)
    requires NamesAre(files, contents) && e in files
    ensures NamesAre(files, contents[e.name := c])
    ensures forall f :: f in files && f != e ==> f.name != e.name
  {
    var i :| 0 <= i < |files| && files[i] == e;
    var contents' := contents[e.name := c];
    forall n | n in contents' ensures exists k :: 0 <= k < |files| && files[k].name == n {
      if n == e.name {
        assert files[i].name == n;
      }
    }
  }

  lemma {:induction false} ApartFrom(layout: seq<Entry>, end: nat, e: Info, f: Info)
    requires Layered(layout, end) && e in Kept(layout) && f in Kept(layout) && e != f
    ensures f.offset + f.Length() <= e.offset || e.offset + e.Length() <= f.offset
    ensures e.offset + e.Length() <= end
  {
    KeptMember(layout, e);
    KeptMember(layout, f);
  }

  lemma {:induction false} HoldsNew(format: Format, d: Data, e: Info, contents: map<string, Content>, c: Content)
    requires e.offset + e.Length() <= |d| && |format.record(e.name, c)| == e.Length()
    ensures Holds(format, Overwrite(d, e.offset, format.record(e.name, c)), e, contents[e.name := c])
  {
  }

  /** Writing over an entry with a record of the same length. */
  lemma {:induction false} Replace(format: Format, d: Data, layout: seq<Entry>, end: nat,
                                   contents: map<string, Content>, e: Info, c: Content)
    requires Consistent(format, d, layout, end, contents) && e in Kept(layout)
    requires |format.record(e.name, c)| == e.Length()
    ensures Consistent(format, Overwrite(d, e.offset, format.record(e.name, c)), layout, end, contents[e.name := c])
  {
    var b := format.record(e.name, c);
    var files := Kept(layout);
    assert Holds(format, d, e, contents);
    KeptMember(layout, e);
    SameNames(files, contents, e, c);
    HoldsNew(format, d, e, contents, c);
    forall f | f in files ensures Holds(format, Overwrite(d, e.offset, b), f, contents[e.name := c]) {
      if f != e {
        ApartFrom(layout, end, e, f);
        HoldsElsewhere(format, d, e.offset, b, f, contents, e.name, c);
      }
    }
    hide Holds;
    hide Kept;
    hide NamesAre;
  }

  function AllKept(files: seq<Info>): (r: seq<Entry>)
    ensures |r| == |files| && forall i :: 0 <= i < |files| ==> r[i] == Entry(files[i], true)
  {
    seq(|files|, i requires 0 <= i < |files| => Entry(files[i], true))
  }

  lemma {:induction false} KeptOfAll(files: seq<Info>)
    ensures Kept(AllKept(files)) == files && Dropped(AllKept(files)) == []
  {
    if files != [] {
      var n := |files| - 1;
      KeptOfAll(files[..n]);
      assert AllKept(files)[..n] == AllKept(files[..n]);
    }
  }

  /** The name index the base class builds from a directory. */
  function Index(files: seq<Info>): (m: map<string, Info>)
    ensures forall n :: n in m <==> exists i :: 0 <= i < |files| && files[i].name == n
  {
    if files == [] then map[]
    else
      var k := |files| - 1;
      assert files == files[..k] + [files[k]];
      Index(files[..k])[files[k].name := files[k]]
  }

  /** A directory read from a file: it lists each name once, in file order, and everything below `start`. */
  ghost predicate InFileOrder(f: Format, file: Data, files: seq<Info>, start: nat, held: map<string, Content>) {
    && start <= |file| && Archive(f, file, files, held)
    && forall i :: 0 <= i < |files| ==> files[i].offset + files[i].Length() <= start
  }

  lemma {:induction false} OpenListed(f: Format, file: Data, files: seq<Info>, start: nat, held: map<string, Content>)
    requires InFileOrder(f, file, files, start, held)
    ensures Index(files).Keys == held.Keys
    ensures Listed(f, file, AllKept(files), start, held, files, []) && EndsKept(AllKept(files))
  {
    hide Holds;
    hide Kept;
    hide Dropped;
    hide Layered;
    hide NamesAre;
    IndexHasNames(files, held);
    OpenLayered(files, start);
    KeptOfAll(files);
    hide Index;
    hide AllKept;
  }

  lemma {:induction false} OpenLayered(files: seq<Info>, start: nat)
    requires forall i :: 0 <= i < |files| ==> files[i].offset + files[i].Length() <= start
    requires forall i, j :: 0 <= i < j < |files| ==> files[i].offset + files[i].Length() <= files[j].offset
    ensures Layered(AllKept(files), start)
  {
  }

  lemma {:induction false} IndexHasNames(files: seq<Info>, held: map<string, Content>)
    requires NamesAre(files, held)
    ensures Index(files).Keys == held.Keys
  {
    forall n ensures n in Index(files) <==> n in held {
    }
  }

  lemma {:induction false} TightIgnoresKeep(layout: seq<Entry>, end: nat, j: nat)
    requires j < |layout|
    ensures Tight(layout[j := Entry(layout[j].info, false)], end) == Tight(layout, end)
  {
    var layout' := layout[j := Entry(layout[j].info, false)];
    var n := |layout| - 1;
    if j < n {
      TightIgnoresKeep(layout[..n], layout[n].info.offset, j);
      assert layout'[..n] == layout[..n][j := Entry(layout[j].info, false)];
    } else {
      assert layout'[..n] == layout[..n];
    }
  }

  lemma {:induction false} TightAppend(layout: seq<Entry>, end: nat, e: Info)
    requires e.offset == end
    ensures Tight(layout, end) ==> Tight(layout + [Entry(e, true)], end + e.Length())
  {
    assert (layout + [Entry(e, true)])[..|layout|] == layout;
  }

  /** Writing over an entry with a record of the same length gives the same entry, and the directory
      lists the same places. */
  lemma {:induction false} Rewritten(format: Format, d: Data, layout: seq<Entry>, end: nat,
                                     contents: map<string, Content>, slot: nat, c: Content)
    requires format.Lawful() && Consistent(format, d, layout, end, contents) && slot < |Kept(layout)|
    requires c.stored && Kept(layout)[slot].compressSize == |c.bytes|
    ensures Kept(layout)[slot].offset <= |d|
    ensures var e := Kept(layout)[slot]; var rec := format.record(e.name, c);
            && e == Info(e.name, e.offset, |rec| - 30 - |e.name|)
            && Consistent(format, Overwrite(d, e.offset, rec), layout, end, contents[e.name := c])
            && multiset(Kept(layout)[..slot] + Kept(layout)[slot + 1..] + [e]) == multiset(Kept(layout))
            && Sorted(Kept(layout))
  {
    hide Kept;
    hide Layered;
    hide NamesAre;
    var files := Kept(layout);
    var e := files[slot];
    assert Holds(format, d, e, contents);
    Replace(format, d, layout, end, contents, e, c);
    KeptSorted(layout, end);
    MovedToEnd(files, slot);
    hide Consistent;
    hide Holds;
    hide Overwrite;
  }

  lemma {:induction false} MovedToEnd(files: seq<Info>, slot: nat)
    requires slot < |files|
    ensures multiset(files[..slot] + files[slot + 1..] + [files[slot]]) == multiset(files)
  {
    assert files == files[..slot] + [files[slot]] + files[slot + 1..];
  }

  /** The directory lists the kept entries, and the list of removed entries has the rest. */
  ghost predicate Listed(format: Format, d: Data, layout: seq<Entry>, end: nat, contents: map<string, Content>,
                         filelist: seq<Info>, remove: seq<Info>) {
    && Consistent(format, d, layout, end, contents)
    && filelist == Kept(layout) && multiset(remove) == multiset(Dropped(layout))
  }

  ghost predicate EndsKept(layout: seq<Entry>) {
    layout != [] ==> layout[|layout| - 1].keep
  }

  ghost predicate NoGaps(d: Data, layout: seq<Entry>, end: nat) {
    Tight(layout, end) && |d| == end
  }

  function Without(files: seq<Info>, i: nat): seq<Info>
    requires i < |files|
  {
    files[..i] + files[i + 1..]
  }

  /** The last entry of the directory is the last of the file, so cutting the file there loses nothing else. */
  lemma {:induction false} CutStep(format: Format, d: Data, layout: seq<Entry>, end: nat,
                                   contents: map<string, Content>, filelist: seq<Info>, remove: seq<Info>)
    requires Listed(format, d, layout, end, contents, filelist, remove) && EndsKept(layout) && filelist != []
    ensures filelist[|filelist| - 1].offset <= |d|
    ensures var zi := filelist[|filelist| - 1]; var n := |layout| - 1;
            && layout != []
            && Listed(format, d[..zi.offset], layout[..n], zi.offset, contents - {zi.name},
                      Without(filelist, |filelist| - 1), remove)
            && (NoGaps(d, layout, end) ==> NoGaps(d[..zi.offset], layout[..n], zi.offset))
  {
    hide Dropped;
    hide Holds;
    hide NamesAre;
    hide Layered;
    hide Kept;
    hide Tight;
    KeptOfNone(layout);
    LastIsAtEnd(d, layout, end);
    hide NoGaps;
    CutLast(format, d, layout, end, contents);
    WithoutLast(Kept(layout[..|layout| - 1]), layout[|layout| - 1].info);
  }

  lemma {:induction false} KeptOfNone(layout: seq<Entry>)
    ensures Kept(layout) != [] ==> layout != []
  {
  }

  lemma {:induction false} LastIsAtEnd(d: Data, layout: seq<Entry>, end: nat)
    requires Layered(layout, end) && layout != [] && end <= |d|
    ensures var n := |layout| - 1; var offset := layout[n].info.offset;
            offset <= end && (NoGaps(d, layout, end) ==> NoGaps(d[..offset], layout[..n], offset))
  {
  }

  lemma {:induction false} WithoutLast(a: seq<Info>, e: Info)
    ensures Without(a + [e], |a|) == a
  {
  }

  /** Leaving an entry behind moves it from the directory to the removed ones. */
  lemma {:induction false} DropStep(format: Format, d: Data, layout: seq<Entry>, end: nat,
                                    contents: map<string, Content>, filelist: seq<Info>, remove: seq<Info>, i: nat)
      returns (layout': seq<Entry>)
    requires Listed(format, d, layout, end, contents, filelist, remove) && i < |filelist|
    ensures Listed(format, d, layout', end, contents - {filelist[i].name}, Without(filelist, i), remove + [filelist[i]])
    ensures NoGaps(d, layout, end) ==> NoGaps(d, layout', end)
    ensures end <= |d|
  {
    var j := FindInLayout(layout, i);
    layout' := layout[j := Entry(layout[j].info, false)];
    Drop(format, d, layout, end, contents, j);
    DropFromDirectory(layout, j);
    TightIgnoresKeep(layout, end, j);
    WithoutMiddle(Kept(layout[..j]), layout[j].info, Kept(layout[j + 1..]));
    hide Consistent;
    hide Kept;
    hide Dropped;
    hide Tight;
  }

  lemma {:induction false} WithoutMiddle(a: seq<Info>, e: Info, b: seq<Info>)
    ensures Without(a + [e] + b, |a|) == a + b
  {
  }

  /** A list in file order is what sorting makes of it. */
  lemma {:induction false} ListedIsSorted(format: Format, d: Data, layout: seq<Entry>, end: nat,
                                          contents: map<string, Content>)
    requires Consistent(format, d, layout, end, contents)
    ensures SortByOffset(Kept(layout)) == Kept(layout)
  {
    KeptSorted(layout, end);
    SortByOffsetFinds(Kept(layout), Kept(layout));
  }

  lemma {:induction false} AppendTight(d: Data, layout: seq<Entry>, end: nat, e: Info, b: Data)
    requires e.offset == end <= |d| && |b| == e.Length() && NoGaps(d, layout, end)
    ensures NoGaps(Overwrite(d, end, b), layout + [Entry(e, true)], end + e.Length())
  {
    TightAppend(layout, end, e);
  }

  /** A new record at the end is listed last. */
  lemma {:induction false} AppendStep(format: Format, d: Data, layout: seq<Entry>, end: nat,
                                      contents: map<string, Content>, filelist: seq<Info>, remove: seq<Info>,
                                      name: string, c: Content, e: Info)
    requires format.Lawful() && Listed(format, d, layout, end, contents, filelist, remove) && name !in contents
    requires e == Info(name, end, |format.record(name, c)| - 30 - |name|)
    ensures var d', layout', end' := Overwrite(d, end, format.record(name, c)), layout + [Entry(e, true)],
            end + e.Length();
            && Listed(format, d', layout', end', contents[name := c], filelist + [e], remove)
            && EndsKept(layout') && (NoGaps(d, layout, end) ==> NoGaps(d', layout', end'))
    ensures SortByOffset(filelist + [e]) == filelist + [e]
  {
    hide Kept;
    hide Dropped;
    hide Tight;
    hide Holds;
    hide NamesAre;
    hide Layered;
    hide SortByOffset;
    Append(format, d, layout, end, contents, name, c, e);
    if NoGaps(d, layout, end) {
      AppendTight(d, layout, end, e, format.record(name, c));
    }
    hide NoGaps;
    hide Overwrite;
    ListedIsSorted(format, Overwrite(d, end, format.record(name, c)), layout + [Entry(e, true)], end + e.Length(),
                   contents[name := c]);
    hide Consistent;
  }

  /** A record of the same length written over the old one is listed in the same place. */
  lemma {:induction false} ReplaceStep(format: Format, d: Data, layout: seq<Entry>, end: nat,
                                       contents: map<string, Content>, filelist: seq<Info>, remove: seq<Info>, i: nat,
                                       c: Content)
    requires format.Lawful() && Listed(format, d, layout, end, contents, filelist, remove) && i < |filelist|
    requires c.stored && filelist[i].compressSize == |c.bytes|
    ensures filelist[i].offset <= |d|
    ensures var e := filelist[i]; var rec := format.record(e.name, c); var d' := Overwrite(d, e.offset, rec);
            && e == Info(e.name, e.offset, |rec| - 30 - |e.name|)
            && Listed(format, d', layout, end, contents[e.name := c], filelist, remove)
            && (NoGaps(d, layout, end) ==> NoGaps(d', layout, end))
            && SortByOffset(Without(filelist, i) + [e]) == filelist
  {
    Rewritten(format, d, layout, end, contents, i, c);
    assert Holds(format, d, filelist[i], contents);
    KeptMember(layout, filelist[i]);
    SortByOffsetFinds(Without(filelist, i) + [filelist[i]], filelist);
  }

  lemma {:induction false} NameIsListed(format: Format, d: Data, layout: seq<Entry>, end: nat,
                                        contents: map<string, Content>, filelist: seq<Info>, remove: seq<Info>,
                                        name: string)
    requires Listed(format, d, layout, end, contents, filelist, remove) && name in contents
    ensures exists k :: 0 <= k < |filelist| && filelist[k].name == name
  {
  }

  lemma {:induction false} PlaceIsInFile(format: Format, d: Data, layout: seq<Entry>, end: nat,
                                         contents: map<string, Content>, filelist: seq<Info>, remove: seq<Info>)
    requires Listed(format, d, layout, end, contents, filelist, remove)
    ensures end <= |d| && forall e :: e in filelist ==> e.offset <= |d|
  {
    hide NamesAre;
    hide Layered;
  }

  // What `writestr` makes of an archive

  datatype Files = Files(data: Data, end: nat, filelist: seq<Info>, remove: seq<Info>)

  /** A record more where the records stop, listed in offset order. */
  function Appended(format: Format, f: Files, name: string, c: Content): Files
    requires format.Lawful() && f.end <= |f.data|
  {
    var rec := format.record(name, c);
    Files(Overwrite(f.data, f.end, rec), f.end + |rec|,
          SortByOffset(f.filelist + [Info(name, f.end, |rec| - 30 - |name|)]), f.remove)
  }

  /** Entry `i` written again: cut off and appended if it is listed last, overwritten if it is stored in as many
      bytes, and otherwise left behind for removal and appended. */
  function Replaced(format: Format, f: Files, i: nat, c: Content): Files
    requires format.Lawful() && f.end <= |f.data| && i < |f.filelist| && f.filelist[i].offset <= |f.data|
  {
    var zi, rest := f.filelist[i], Without(f.filelist, i);
    if i + 1 == |f.filelist| then
      Appended(format, Files(f.data[..zi.offset], zi.offset, rest, f.remove), zi.name, c)
    else if c.stored && zi.compressSize == |c.bytes| then
      var rec := format.record(zi.name, c);
      f.(data := Overwrite(f.data, zi.offset, rec),
         filelist := SortByOffset(rest + [Info(zi.name, zi.offset, |rec| - 30 - |zi.name|)]))
    else
      Appended(format, f.(filelist := rest, remove := f.remove + [zi]), zi.name, c)
  }

  /** The three ways differ in where the record goes, what is left of the file, and where the records then stop. */
  lemma {:induction false} ReplacedIs(format: Format, f: Files, i: nat, c: Content)
    requires format.Lawful() && f.end <= |f.data| && i < |f.filelist| && f.filelist[i].offset <= |f.data|
    ensures var zi, cut := f.filelist[i], i + 1 == |f.filelist|; var same := c.stored && zi.compressSize == |c.bytes|;
            var d, at := if cut then f.data[..zi.offset] else f.data, if cut || same then zi.offset else f.end;
            var rec := format.record(zi.name, c);
            Replaced(format, f, i, c) ==
            Files(Overwrite(d, at, rec), if same && !cut then f.end else at + |rec|,
                  SortByOffset(Without(f.filelist, i) + [Info(zi.name, at, |rec| - 30 - |zi.name|)]),
                  f.remove + if cut || same then [] else [zi])
  {
    hide Overwrite;
    hide SortByOffset;
    hide Without;
    assert f.remove + [] == f.remove;
  }

  lemma {:induction false} AppendedIsListed(format: Format, f: Files, layout: seq<Entry>,
                                            contents: map<string, Content>, name: string, c: Content)
      returns (layout': seq<Entry>)
    requires format.Lawful() && Listed(format, f.data, layout, f.end, contents, f.filelist, f.remove) &&
             name !in contents
    ensures f.end <= |f.data|
    ensures var f' := Appended(format, f, name, c);
            && Listed(format, f'.data, layout', f'.end, contents[name := c], f'.filelist, f'.remove) &&
               EndsKept(layout')
            && (NoGaps(f.data, layout, f.end) ==> NoGaps(f'.data, layout', f'.end))
  {
    hide Listed;
    hide NoGaps;
    hide EndsKept;
    hide Overwrite;
    hide SortByOffset;
    PlaceIsInFile(format, f.data, layout, f.end, contents, f.filelist, f.remove);
    var e := Info(name, f.end, |format.record(name, c)| - 30 - |name|);
    AppendStep(format, f.data, layout, f.end, contents, f.filelist, f.remove, name, c, e);
    layout' := layout + [Entry(e, true)];
  }

  /** Writing an entry again gives its name the new bytes and keeps every other entry. */
  lemma {:induction false} ReplacedIsListed(format: Format, f: Files, layout: seq<Entry>,
                                            contents: map<string, Content>, i: nat, c: Content)
      returns (layout': seq<Entry>)
    requires format.Lawful() && Listed(format, f.data, layout, f.end, contents, f.filelist, f.remove)
    requires EndsKept(layout) && i < |f.filelist|
    ensures f.end <= |f.data| && f.filelist[i].offset <= |f.data|
    ensures var f' := Replaced(format, f, i, c);
            && Listed(format, f'.data, layout', f'.end, contents[f.filelist[i].name := c], f'.filelist, f'.remove)
            && EndsKept(layout') && (NoGaps(f.data, layout, f.end) ==> NoGaps(f'.data, layout', f'.end))
  {
    hide Listed;
    hide NoGaps;
    hide EndsKept;
    hide Overwrite;
    hide SortByOffset;
    hide Without;
    hide Appended;
    PlaceIsInFile(format, f.data, layout, f.end, contents, f.filelist, f.remove);
    var zi := f.filelist[i];
    var others := contents - {zi.name};
    assert others[zi.name := c] == contents[zi.name := c];
    if i + 1 == |f.filelist| {
      CutStep(format, f.data, layout, f.end, contents, f.filelist, f.remove);
      layout' := AppendedIsListed(format, Files(f.data[..zi.offset], zi.offset, Without(f.filelist, i), f.remove),
                                  layout[..|layout| - 1], others, zi.name, c);
    } else if c.stored && zi.compressSize == |c.bytes| {
      ReplaceStep(format, f.data, layout, f.end, contents, f.filelist, f.remove, i, c);
      layout' := layout;
    } else {
      var dropped := DropStep(format, f.data, layout, f.end, contents, f.filelist, f.remove, i);
      layout' := AppendedIsListed(format, f.(filelist := Without(f.filelist, i), remove := f.remove + [zi]), dropped,
                                  others, zi.name, c);
    }
  }

  // An archive whose directory is not in file order

  /** The entries of a directory, read from a file in which they lie below `start` and do not overlap. */
  ghost predicate AllHeld(format: Format, d: Data, files: seq<Info>, start: nat, contents: map<string, Content>) {
    && start <= |d|
    && (forall i :: 0 <= i < |files| ==>
        Holds(format, d, files[i], contents) && files[i].offset + files[i].Length() <= start)
    && (forall i, j :: 0 <= i < |files| && 0 <= j < |files| && i != j ==>
          files[i].offset + files[i].Length() <= files[j].offset ||
          files[j].offset + files[j].Length() <= files[i].offset)
  }

  ghost predicate OthersHeld(format: Format, d: Data, files: seq<Info>, i: nat, contents: map<string, Content>) {
    forall k :: 0 <= k < |files| && k != i ==> Holds(format, d, files[k], contents)
  }

  lemma {:induction false} CutKeeps(format: Format, d: Data, cut: nat, b: Data, e: Info, contents: map<string, Content>)
    requires Holds(format, d, e, contents) && e.offset + e.Length() <= cut <= |d|
    ensures Holds(format, Overwrite(d[..cut], cut, b), e, contents)
  {
    assert d[..cut][e.offset..e.offset + e.Length()] == d[e.offset..e.offset + e.Length()];
    HoldsApart(format, d[..cut], cut, b, e, contents);
  }

  /** The first write after opening an archive, whatever its bytes, spares the other entries exactly when the entry
      is not the one listed last, or lies behind all others in the file, which a directory need not say. */
  lemma {:induction false} FirstWriteIsSafeIff(format: Format, f: Files, contents: map<string, Content>, i: nat)
    requires format.Lawful() && AllHeld(format, f.data, f.filelist, f.end, contents) && i < |f.filelist|
    ensures f.end <= |f.data| && f.filelist[i].offset <= |f.data|
    ensures (forall c :: OthersHeld(format, Replaced(format, f, i, c).data, f.filelist, i, contents)) <==>
            i + 1 < |f.filelist| || forall k :: 0 <= k < i ==> f.filelist[k].offset < f.filelist[i].offset
  {
    assert Holds(format, f.data, f.filelist[i], contents);
    if i + 1 < |f.filelist| || forall k :: 0 <= k < i ==> f.filelist[k].offset < f.filelist[i].offset {
      forall c ensures OthersHeld(format, Replaced(format, f, i, c).data, f.filelist, i, contents) {
        SafeWrite(format, f, contents, i, c);
      }
    } else {
      var k :| 0 <= k < i && f.filelist[k].offset >= f.filelist[i].offset;
      CutOff(format, f, contents, i, k);
    }
    hide Replaced;
    hide Holds;
  }

  lemma {:induction false} SafeWrite(format: Format, f: Files, contents: map<string, Content>, i: nat, c: Content)
    requires format.Lawful() && AllHeld(format, f.data, f.filelist, f.end, contents) && i < |f.filelist|
    requires i + 1 < |f.filelist| || forall k :: 0 <= k < i ==> f.filelist[k].offset < f.filelist[i].offset
    ensures f.filelist[i].offset <= |f.data|
    ensures OthersHeld(format, Replaced(format, f, i, c).data, f.filelist, i, contents)
  {
    var zi := f.filelist[i];
    var rec := format.record(zi.name, c);
    assert Holds(format, f.data, zi, contents);
    forall k | 0 <= k < |f.filelist| && k != i
      ensures Holds(format, Replaced(format, f, i, c).data, f.filelist[k], contents)
    {
      var e := f.filelist[k];
      assert Holds(format, f.data, e, contents);
      if i + 1 == |f.filelist| {
        CutKeeps(format, f.data, zi.offset, rec, e, contents);
      } else if c.stored && zi.compressSize == |c.bytes| {
        HoldsApart(format, f.data, zi.offset, rec, e, contents);
      } else {
        HoldsApart(format, f.data, f.end, rec, e, contents);
      }
    }
    hide Holds;
  }

  /** Cutting at the last listed entry takes away one that lies behind it, unless the new bytes reach there. */
  lemma {:induction false} CutOff(format: Format, f: Files, contents: map<string, Content>, i: nat, k: nat)
    requires format.Lawful() && AllHeld(format, f.data, f.filelist, f.end, contents)
    requires k < i == |f.filelist| - 1 && f.filelist[k].offset >= f.filelist[i].offset
    ensures f.filelist[i].offset <= |f.data|
    ensures !OthersHeld(format, Replaced(format, f, i, Content(true, [])).data, f.filelist, i, contents)
  {
    var zi, e, c := f.filelist[i], f.filelist[k], Content(true, []);
    assert Holds(format, f.data, zi, contents);
    assert zi.offset + zi.Length() <= e.offset;
    assert |Replaced(format, f, i, c).data| == zi.offset + 30 + |zi.name|;
    assert !Holds(format, Replaced(format, f, i, c).data, f.filelist[k], contents);
  }

  /** The last listed entry has another name, or lies behind all others. */
  ghost predicate SafeToWrite(files: seq<Info>, name: string) {
    files != [] && files[|files| - 1].name == name ==>
      forall k :: 0 <= k < |files| - 1 ==> files[k].offset < files[|files| - 1].offset
  }

  lemma {:induction false} OnceEach(s: seq<Info>, e: Info)
    requires forall i, j :: 0 <= i < j < |s| ==> s[i].name != s[j].name
    ensures multiset(s)[e] <= 1
  {
    if s != [] {
      var n := |s| - 1;
      OnceEach(s[..n], e);
      LastCount(s, e);
      assert e in s[..n] ==> s[n] != e;
    }
  }

  lemma {:induction false} TwiceMeans<T>(s: seq<T>, i: nat, j: nat)
    requires i < j < |s| && s[i] == s[j]
    ensures multiset(s)[s[i]] >= 2
  {
    assert s == s[..j] + [s[j]] + s[j + 1..];
    assert s[i] in s[..j];
  }

  /** The same entries in another order have the same names. */
  lemma {:induction false} NamesInAnyOrder(files: seq<Info>, sorted: seq<Info>, contents: map<string, Content>)
    requires NamesAre(files, contents) && multiset(sorted) == multiset(files)
    ensures NamesAre(sorted, contents)
  {
    forall i, j | 0 <= i < j < |sorted| ensures sorted[i].name != sorted[j].name {
      assert sorted[i] in multiset(files) && sorted[j] in multiset(files);
      if sorted[i] == sorted[j] {
        TwiceMeans(sorted, i, j);
        OnceEach(files, sorted[i]);
      }
    }
    forall i | 0 <= i < |sorted| ensures sorted[i].name in contents {
      assert sorted[i] in multiset(files);
    }
    forall n | n in contents ensures exists i :: 0 <= i < |sorted| && sorted[i].name == n {
      var k :| 0 <= k < |files| && files[k].name == n;
      assert files[k] in multiset(sorted);
    }
  }

  /** Sorting a directory puts it in file order. */
  lemma {:induction false} SortedIsInOrder(format: Format, f: Files, contents: map<string, Content>)
    requires AllHeld(format, f.data, f.filelist, f.end, contents) && NamesAre(f.filelist, contents)
    ensures InFileOrder(format, f.data, SortByOffset(f.filelist), f.end, contents)
    ensures multiset(SortByOffset(f.filelist)) == multiset(f.filelist)
  {
    hide AllHeld;
    hide Holds;
    var files, sorted := f.filelist, SortByOffset(f.filelist);
    SortedOffsets(files);
    hide SortByOffset;
    NamesInAnyOrder(files, sorted, contents);
    assert f.end <= |f.data| by { StartInFile(format, f, contents); }
    forall i | 0 <= i < |sorted| ensures Holds(format, f.data, sorted[i], contents)
      ensures sorted[i].offset + sorted[i].Length() <= f.end
    {
      assert sorted[i] in multiset(files);
      HeldMember(format, f, contents, sorted[i]);
    }
    forall i, j | 0 <= i < j < |sorted| ensures sorted[i].offset + sorted[i].Length() <= sorted[j].offset {
      assert sorted[i] in multiset(files) && sorted[j] in multiset(files);
      NeverOverlap(format, f, contents, sorted[i], sorted[j]);
    }
  }

  lemma {:induction false} SortedOffsets(files: seq<Info>)
    ensures multiset(SortByOffset(files)) == multiset(files)
    ensures forall i, j :: 0 <= i < j < |SortByOffset(files)| ==>
            SortByOffset(files)[i].offset <= SortByOffset(files)[j].offset
  {
    var key := (e: Info) => e.offset;
    SortOrders(files, key);
    var sorted := SortBy(files, key);
    assert forall i, j :: 0 <= i < j < |sorted| ==> key(sorted[i]) <= key(sorted[j]);
  }

  lemma {:induction false} StartInFile(format: Format, f: Files, contents: map<string, Content>)
    requires AllHeld(format, f.data, f.filelist, f.end, contents)
    ensures f.end <= |f.data|
  {
  }

  lemma {:induction false} HeldMember(format: Format, f: Files, contents: map<string, Content>, e: Info)
    requires AllHeld(format, f.data, f.filelist, f.end, contents) && e in f.filelist
    ensures Holds(format, f.data, e, contents) && e.offset + e.Length() <= f.end
  {
    hide Holds;
  }

  lemma {:induction false} NeverOverlap(format: Format, f: Files, contents: map<string, Content>, a: Info, b: Info)
    requires AllHeld(format, f.data, f.filelist, f.end, contents) && a in f.filelist && b in f.filelist
    requires a.name != b.name && a.offset <= b.offset
    ensures a.offset + a.Length() <= b.offset
  {
    hide Holds;
  }

  lemma {:induction false} WithoutCount(s: seq<Info>, i: nat)
    requires i < |s|
    ensures multiset(Without(s, i)) == multiset(s) - multiset{s[i]}
  {
    assert s == s[..i] + [s[i]] + s[i + 1..];
  }

  /** Appending sorts the directory, whatever order it was in. */
  lemma {:induction false} SameAppended(format: Format, f: Files, sorted: seq<Info>, name: string, c: Content)
    requires format.Lawful() && f.end <= |f.data| && multiset(f.filelist) == multiset(sorted)
    requires Sorted(sorted) && forall e :: e in sorted ==> e.offset < f.end
    ensures Appended(format, f, name, c) == Appended(format, f.(filelist := sorted), name, c)
  {
    hide Sorted;
    hide Overwrite;
    hide SortByOffset;
    SameSorted(f.filelist, sorted, Info(name, f.end, |format.record(name, c)| - 30 - |name|));
  }

  lemma {:induction false} ListedBelow(format: Format, d: Data, layout: seq<Entry>, end: nat,
                                       contents: map<string, Content>, files: seq<Info>, remove: seq<Info>)
    requires Listed(format, d, layout, end, contents, files, remove)
    ensures end <= |d| && Sorted(files) && forall e :: e in files ==> e.offset < end
  {
    KeptSorted(layout, end);
    hide Kept;
    hide Layered;
    hide NamesAre;
    hide Holds;
  }

  lemma {:induction false} SameSorted(files: seq<Info>, sorted: seq<Info>, e: Info)
    requires multiset(files) == multiset(sorted) && Sorted(sorted) && forall f :: f in sorted ==> f.offset < e.offset
    ensures SortByOffset(files + [e]) == SortByOffset(sorted + [e])
  {
    assert Sorted(sorted + [e]);
    hide Sorted;
    hide SortByOffset;
    SortByOffsetFinds(sorted + [e], sorted + [e]);
    SortByOffsetFinds(files + [e], sorted + [e]);
  }

  lemma {:induction false} AppendedAnyOrder(format: Format, f: Files, sorted: seq<Info>, layout: seq<Entry>,
                                            contents: map<string, Content>, name: string, c: Content)
      returns (layout': seq<Entry>)
    requires format.Lawful() && Listed(format, f.data, layout, f.end, contents, sorted, f.remove) && name !in contents
    requires multiset(f.filelist) == multiset(sorted)
    ensures f.end <= |f.data|
    ensures var f' := Appended(format, f, name, c);
            && Listed(format, f'.data, layout', f'.end, contents[name := c], f'.filelist, f'.remove)
            && EndsKept(layout')
  {
    hide Listed;
    hide EndsKept;
    hide Appended;
    hide Sorted;
    ListedBelow(format, f.data, layout, f.end, contents, sorted, f.remove);
    SameAppended(format, f, sorted, name, c);
    layout' := AppendedIsListed(format, f.(filelist := sorted), layout, contents, name, c);
  }

  /** Where an entry of a directory is in file order. */
  lemma {:induction false} PlaceInOrder(files: seq<Info>, i: nat, sorted: seq<Info>) returns (j: nat)
    requires multiset(files) == multiset(sorted) && i < |files| && Sorted(sorted)
    requires i + 1 == |files| ==> SafeToWrite(files, files[i].name)
    ensures j < |sorted| && sorted[j] == files[i] && (i + 1 == |files| ==> j + 1 == |sorted|)
    ensures multiset(Without(files, i)) == multiset(Without(sorted, j))
    ensures multiset(Without(files, i) + [files[i]]) == multiset(sorted)
  {
    assert files[i] in multiset(sorted);
    j :| 0 <= j < |sorted| && sorted[j] == files[i];
    WithoutCount(files, i);
    WithoutCount(sorted, j);
    hide Without;
    assert multiset(files)[files[i]] > 0;
    if i + 1 == |files| {
      LastInFile(files, sorted, j);
    }
  }

  /** Writing an entry of such a directory again, when that is safe, sorts it and keeps every other entry. */
  lemma {:induction false} ReplacedAnyOrder(format: Format, f: Files, sorted: seq<Info>, layout: seq<Entry>,
                                            contents: map<string, Content>, i: nat, c: Content)
      returns (layout': seq<Entry>)
    requires format.Lawful() && Listed(format, f.data, layout, f.end, contents, sorted, f.remove) && EndsKept(layout)
    requires multiset(f.filelist) == multiset(sorted) && i < |f.filelist|
    requires i + 1 == |f.filelist| ==> SafeToWrite(f.filelist, f.filelist[i].name)
    ensures f.end <= |f.data| && f.filelist[i].offset <= |f.data|
    ensures var f' := Replaced(format, f, i, c);
            && Listed(format, f'.data, layout', f'.end, contents[f.filelist[i].name := c], f'.filelist, f'.remove)
            && EndsKept(layout')
  {
    ListedBelow(format, f.data, layout, f.end, contents, sorted, f.remove);
    hide Listed;
    hide EndsKept;
    hide Sorted;
    hide SafeToWrite;
    hide Without;
    hide Overwrite;
    hide Appended;
    hide SortByOffset;
    hide NoGaps;
    PlaceIsInFile(format, f.data, layout, f.end, contents, sorted, f.remove);
    var zi := f.filelist[i];
    var j := PlaceInOrder(f.filelist, i, sorted);
    assert f.filelist[i] in sorted;
    if i + 1 == |f.filelist| {
      layout' := CutAnyOrder(format, f, sorted, layout, contents, i, c);
    } else if c.stored && zi.compressSize == |c.bytes| {
      ReplaceStep(format, f.data, layout, f.end, contents, sorted, f.remove, j, c);
      SortByOffsetFinds(Without(f.filelist, i) + [zi], sorted);
      layout' := layout;
    } else {
      layout' := DropAnyOrder(format, f, sorted, layout, contents, i, j, c);
    }
  }

  lemma {:induction false} CutAnyOrder(format: Format, f: Files, sorted: seq<Info>, layout: seq<Entry>,
                                       contents: map<string, Content>, i: nat, c: Content)
      returns (layout': seq<Entry>)
    requires format.Lawful() && Listed(format, f.data, layout, f.end, contents, sorted, f.remove) && EndsKept(layout)
    requires i < |f.filelist| && sorted != [] && sorted[|sorted| - 1] == f.filelist[i] &&
             f.filelist[i].offset <= |f.data|
    requires multiset(Without(f.filelist, i)) == multiset(Without(sorted, |sorted| - 1))
    ensures var zi := f.filelist[i];
            var f' := Appended(format, Files(f.data[..zi.offset], zi.offset, Without(f.filelist, i), f.remove),
                               zi.name, c);
            && Listed(format, f'.data, layout', f'.end, contents[zi.name := c], f'.filelist, f'.remove)
            && EndsKept(layout')
  {
    hide NoGaps;
    hide EndsKept;
    hide Listed;
    hide Without;
    hide Appended;
    var zi := f.filelist[i];
    var others := contents - {zi.name};
    assert others[zi.name := c] == contents[zi.name := c];
    CutStep(format, f.data, layout, f.end, contents, sorted, f.remove);
    layout' := AppendedAnyOrder(format, Files(f.data[..zi.offset], zi.offset, Without(f.filelist, i), f.remove),
                                Without(sorted, |sorted| - 1), layout[..|layout| - 1], others, zi.name, c);
  }

  lemma {:induction false} DropAnyOrder(format: Format, f: Files, sorted: seq<Info>, layout: seq<Entry>,
                                        contents: map<string, Content>, i: nat, j: nat, c: Content)
      returns (layout': seq<Entry>)
    requires format.Lawful() && Listed(format, f.data, layout, f.end, contents, sorted, f.remove)
    requires i < |f.filelist| && j < |sorted| && sorted[j] == f.filelist[i] && f.end <= |f.data|
    requires multiset(Without(f.filelist, i)) == multiset(Without(sorted, j))
    ensures var zi := f.filelist[i];
            var rest := f.(filelist := Without(f.filelist, i), remove := f.remove + [zi]);
            var f' := Appended(format, rest, zi.name, c);
            && Listed(format, f'.data, layout', f'.end, contents[zi.name := c], f'.filelist, f'.remove)
            && EndsKept(layout')
  {
    hide NoGaps;
    hide EndsKept;
    hide Listed;
    hide Without;
    hide Appended;
    var zi := f.filelist[i];
    var others := contents - {zi.name};
    assert others[zi.name := c] == contents[zi.name := c];
    var dropped := DropStep(format, f.data, layout, f.end, contents, sorted, f.remove, j);
    layout' := AppendedAnyOrder(format, f.(filelist := Without(f.filelist, i), remove := f.remove + [zi]),
                                Without(sorted, j), dropped, others, zi.name, c);
  }

  /** After the first write to an archive listed in any order, if it is safe, everything is in order. */
  lemma {:induction false} FirstWritten(format: Format, f: Files, contents: map<string, Content>, last: nat,
                                        name: string, c: Content) returns (layout': seq<Entry>)
    requires format.Lawful() && f.remove == []
    requires NamesAre(f.filelist, contents) && AllHeld(format, f.data, f.filelist, f.end, contents)
    requires name in contents ==> IsLastNamed(f.filelist, name, last) && SafeToWrite(f.filelist, name)
    ensures f.end <= |f.data| && (name in contents ==> f.filelist[last].offset <= |f.data|)
    ensures var f' := if name in contents then Replaced(format, f, last, c) else Appended(format, f, name, c);
            && Listed(format, f'.data, layout', f'.end, contents[name := c], f'.filelist, f'.remove)
            && EndsKept(layout')
  {
    SortedIsInOrder(format, f, contents);
    var sorted := SortByOffset(f.filelist);
    hide SortByOffset;
    hide NamesAre;
    hide AllHeld;
    hide Listed;
    hide EndsKept;
    hide SafeToWrite;
    OpenListed(format, f.data, sorted, f.end, contents);
    hide InFileOrder;
    hide Replaced;
    hide Appended;
    if name in contents {
      layout' := ReplacedAnyOrder(format, f, sorted, AllKept(sorted), contents, last, c);
    } else {
      layout' := AppendedAnyOrder(format, f, sorted, AllKept(sorted), contents, name, c);
    }
  }

  lemma {:induction false} LastInFile(files: seq<Info>, sorted: seq<Info>, j: nat)
    requires files != [] && multiset(files) == multiset(sorted) && Sorted(sorted)
    requires j < |sorted| && sorted[j] == files[|files| - 1] && SafeToWrite(files, sorted[j].name)
    ensures j == |sorted| - 1
  {
    var last := sorted[|sorted| - 1];
    assert last in multiset(files);
  }

  /** Where entry `i` starts, or where the records stop. */
  function Bound(all: seq<Entry>, end: nat, i: nat): nat
    requires i <= |all|
  {
    if i < |all| then all[i].info.offset else end
  }

  /** One entry more of the squeezed file. */
  lemma {:induction false} SqueezeStep(d: Data, all: seq<Entry>, end: nat, i: nat)
    requires Layered(all, end) && end <= |d| && i < |all|
    requires Layered(all[..i], Bound(all, end, i))
    ensures var e := all[i].info; var next := Bound(all, end, i + 1);
            && e.offset <= next <= end && Layered(all[..i + 1], next)
            && Squeezed(d, all[..i + 1], next) ==
               Squeezed(d, all[..i], e.offset) + (if all[i].keep then d[e.offset..next] else [])
            && Moved(d, all[..i + 1], next) == Moved(d, all[..i], e.offset) +
               (if all[i].keep then [e.(offset := |Squeezed(d, all[..i], e.offset)|)] else [])
    ensures Kept(all[i..]) == (if all[i].keep then [all[i].info] else []) + Kept(all[i + 1..])
  {
    assert all[..i + 1][..i] == all[..i];
    assert Layered(all[..i + 1], Bound(all, end, i + 1));
    KeptAround(all[i..], 0);
    assert all[i..][1..] == all[i + 1..];
  }

  /** Copying a stretch of the file down to a place at or before it leaves everything behind it alone. */
  lemma {:induction false} CopiedDown(d: Data, before: Data, to: nat, from: nat, length: nat)
    requires to <= from && from + length <= |d| == |before| && before[from..] == d[from..]
    ensures var after := Overwrite(before, to, before[from..from + length]);
            && |after| == |d| && after[..to + length] == before[..to] + d[from..from + length]
            && after[from + length..] == d[from + length..]
  {
    var content := before[from..from + length];
    var after := Overwrite(before, to, content);
    assert content == before[from..][..length] == d[from..][..length] == d[from..from + length];
    assert after == before[..to] + content + before[to + length..];
    assert after[from + length..] == before[from + length..];
    assert before[from + length..] == before[from..][length..] == d[from..][length..] == d[from + length..];
  }

  /** The file in the compaction loop before entry `i`: the kept entries so far lie below `toPos`, and
      from entry `i` on nothing has changed. */
  ghost predicate Copied(d: Data, all: seq<Entry>, end: nat, i: nat, now: Data, toPos: nat)
    requires i <= |all|
  {
    var bound := Bound(all, end, i);
    && Layered(all, end) && end <= |d| == |now| && Layered(all[..i], bound) && bound <= end && toPos <= bound
    && now[..toPos] == Squeezed(d, all[..i], bound) && now[bound..] == d[bound..]
  }

  /** The directory in the compaction loop: the first `k` entries have their new places. */
  ghost predicate Relisted(d: Data, all: seq<Entry>, end: nat, i: nat, files: seq<Info>, k: nat)
    requires i <= |all|
  {
    var bound := Bound(all, end, i);
    && Layered(all, end) && Layered(all[..i], bound) && bound <= end <= |d|
    && files == Moved(d, all[..i], bound) + Kept(all[i..]) && k == |Moved(d, all[..i], bound)|
  }

  ghost predicate Compacting(d: Data, all: seq<Entry>, end: nat, i: nat, now: Data, toPos: nat, files: seq<Info>,
                             k: nat)
    requires i <= |all|
  {
    Copied(d, all, end, i, now, toPos) && Relisted(d, all, end, i, files, k)
  }

  lemma {:induction false} SkipRemoved(d: Data, all: seq<Entry>, end: nat, i: nat, now: Data, toPos: nat,
                                       files: seq<Info>, k: nat)
    requires i < |all| && Compacting(d, all, end, i, now, toPos, files, k) && !all[i].keep
    ensures Compacting(d, all, end, i + 1, now, toPos, files, k)
  {
    var bound, next := Bound(all, end, i), Bound(all, end, i + 1);
    SqueezeStep(d, all, end, i);
    assert now[next..] == now[bound..][next - bound..] == d[bound..][next - bound..] == d[next..];
    hide Squeezed;
    hide Moved;
    hide Kept;
    hide Layered;
  }

  lemma {:induction false} CopyBytes(d: Data, all: seq<Entry>, end: nat, i: nat, now: Data, toPos: nat)
    requires i < |all| && Copied(d, all, end, i, now, toPos) && all[i].keep
    ensures all[i].info.offset <= Bound(all, end, i + 1) <= |now|
    ensures var content := now[all[i].info.offset..Bound(all, end, i + 1)];
            Copied(d, all, end, i + 1, Overwrite(now, toPos, content), toPos + |content|)
  {
    hide Squeezed;
    hide Moved;
    hide Kept;
    hide Layered;
    hide Overwrite;
    var e, next := all[i].info, Bound(all, end, i + 1);
    SqueezeStep(d, all, end, i);
    CopiedDown(d, now, toPos, e.offset, next - e.offset);
  }

  lemma {:induction false} RelistKept(d: Data, all: seq<Entry>, end: nat, i: nat, files: seq<Info>, k: nat)
    requires i < |all| && Relisted(d, all, end, i, files, k) && all[i].keep
    ensures k < |files|
    ensures Relisted(d, all, end, i + 1,
                     files[k := all[i].info.(offset := |Squeezed(d, all[..i], all[i].info.offset)|)], k + 1)
  {
    var e, next := all[i].info, Bound(all, end, i + 1);
    SqueezeStep(d, all, end, i);
    var m, rest, f := Moved(d, all[..i], e.offset), Kept(all[i + 1..]), e.(offset := |Squeezed(d, all[..i], e.offset)|);
    SwapMiddle(m, e, f, rest);
    hide Squeezed;
    hide Moved;
    hide Kept;
    hide Layered;
  }

  lemma {:induction false} CopyKept(d: Data, all: seq<Entry>, end: nat, i: nat, now: Data, toPos: nat, files: seq<Info>,
                                    k: nat)
    requires i < |all| && Compacting(d, all, end, i, now, toPos, files, k) && all[i].keep
    ensures all[i].info.offset <= Bound(all, end, i + 1) <= |now| && k < |files|
    ensures var content := now[all[i].info.offset..Bound(all, end, i + 1)];
            Compacting(d, all, end, i + 1, Overwrite(now, toPos, content), toPos + |content|,
                       files[k := all[i].info.(offset := toPos)], k + 1)
  {
    CopyBytes(d, all, end, i, now, toPos);
    RelistKept(d, all, end, i, files, k);
    assert |Squeezed(d, all[..i], all[i].info.offset)| == toPos;
    hide Relisted;
    hide Overwrite;
  }

  lemma {:induction false} SwapMiddle(a: seq<Info>, e: Info, f: Info, b: seq<Info>)
    ensures (a + ([e] + b))[|a| := f] == a + [f] + b
  {
  }

  lemma {:induction false} CompactStart(d: Data, all: seq<Entry>, end: nat)
    requires Layered(all, end) && end <= |d|
    ensures Compacting(d, all, end, 0, d, 0, Kept(all), 0)
  {
    assert all[..0] == [] && all[0..] == all;
  }

  lemma {:induction false} InFile(d: Data, all: seq<Entry>, end: nat, i: nat, now: Data, toPos: nat, files: seq<Info>,
                                  k: nat)
    requires i <= |all| && Compacting(d, all, end, i, now, toPos, files, k)
    ensures toPos <= |now| == |d|
  {
  }

  lemma {:induction false} CompactEnd(d: Data, all: seq<Entry>, end: nat, now: Data, toPos: nat, files: seq<Info>,
                                      k: nat)
    requires Compacting(d, all, end, |all|, now, toPos, files, k)
    ensures Layered(all, end) && end <= |d| && toPos <= |now|
    ensures now[..toPos] == Squeezed(d, all, end) && files == Moved(d, all, end)
  {
    assert all[..|all|] == all && all[|all|..] == [];
  }

  function Tag(files: seq<Info>, keep: bool): (r: seq<Entry>)
    ensures |r| == |files|
  {
    if files == [] then [] else Tag(files[..|files| - 1], keep) + [Entry(files[|files| - 1], keep)]
  }

  lemma {:induction false} TagCount(files: seq<Info>, keep: bool, en: Entry)
    ensures multiset(Tag(files, keep))[en] == if en.keep == keep then multiset(files)[en.info] else 0
  {
    if files != [] {
      var n := |files| - 1;
      TagCount(files[..n], keep, en);
      LastCount(files, en.info);
      CountPlus(Tag(files[..n], keep), Entry(files[n], keep), true, en);
      assert Tag(files, keep) == Tag(files[..n], keep) + if true then [Entry(files[n], keep)] else [];
      hide Tag;
    }
  }

  lemma {:induction false} CountPlus<T>(s: seq<T>, x: T, more: bool, y: T)
    ensures multiset(s + if more then [x] else [])[y] == multiset(s)[y] + if more && x == y then 1 else 0
  {
  }

  lemma {:induction false} ListsStep(layout: seq<Entry>, e: Info)
    requires layout != []
    ensures var n := |layout| - 1; var last := layout[n];
            && multiset(Kept(layout))[e] ==
               multiset(Kept(layout[..n]))[e] + (if last.keep && last.info == e then 1 else 0)
            && multiset(Dropped(layout))[e] ==
               multiset(Dropped(layout[..n]))[e] + (if !last.keep && last.info == e then 1 else 0)
  {
    var n := |layout| - 1;
    var last := layout[n];
    CountPlus(Kept(layout[..n]), last.info, last.keep, e);
    CountPlus(Dropped(layout[..n]), last.info, !last.keep, e);
    assert Dropped(layout) == Dropped(layout[..n]) + if !last.keep then [last.info] else [];
  }

  lemma {:induction false} LastCount<T>(s: seq<T>, y: T)
    requires s != []
    ensures multiset(s)[y] == multiset(s[..|s| - 1])[y] + if s[|s| - 1] == y then 1 else 0
  {
    assert s == s[..|s| - 1] + [s[|s| - 1]];
  }

  lemma {:induction false} LayoutCount(layout: seq<Entry>, en: Entry)
    ensures multiset(layout)[en] ==
            if en.keep then multiset(Kept(layout))[en.info] else multiset(Dropped(layout))[en.info]
  {
    if layout == [] {
      assert Kept(layout) == [] && Dropped(layout) == [];
    } else {
      LayoutCount(layout[..|layout| - 1], en);
      ListsStep(layout, en.info);
      LastCount(layout, en);
      hide Kept;
      hide Dropped;
    }
  }

  function SortEntries(s: seq<Entry>): seq<Entry> {
    SortBy(s, (en: Entry) => en.info.offset)
  }

  /** Kept and removed entries together, sorted by offset, are the entries of the file in order. */
  lemma {:induction false} AllIsLayout(format: Format, d: Data, layout: seq<Entry>, end: nat,
                                       contents: map<string, Content>, filelist: seq<Info>, remove: seq<Info>)
    requires Listed(format, d, layout, end, contents, filelist, remove) && EndsKept(layout) && remove != []
    ensures SortEntries(Tag(filelist, true) + Tag(remove, false)) == layout
    ensures layout != [] && layout[|layout| - 1].keep && filelist == Kept(layout) && Layered(layout, end) && end <= |d|
  {
    var all := Tag(filelist, true) + Tag(remove, false);
    forall en ensures multiset(all)[en] == multiset(layout)[en] {
      LayoutCount(layout, en);
      TagCount(filelist, true, en);
      TagCount(remove, false, en);
    }
    assert remove[0] in multiset(Dropped(layout));
    SortFinds(all, layout, (en: Entry) => en.info.offset);
  }

  /** What a finished archive file is made of. */
  ghost predicate Archive(format: Format, d: Data, files: seq<Info>, contents: map<string, Content>) {
    && NamesAre(files, contents)
    && (forall i :: 0 <= i < |files| ==> Holds(format, d, files[i], contents))
    && (forall i, j :: 0 <= i < j < |files| ==> files[i].offset + files[i].Length() <= files[j].offset)
  }

  /** Writing the directory behind the records of an archive with nothing removed finishes it. */
  lemma {:induction false} ClosedInPlace(format: Format, d: Data, layout: seq<Entry>, end: nat,
                                         contents: map<string, Content>, files: seq<Info>)
    requires Listed(format, d, layout, end, contents, files, [])
    ensures end <= |d|
    ensures Archive(format, Overwrite(d, end, format.directory(files)), files, contents)
    ensures NoGaps(d, layout, end) ==>
              Overwrite(d, end, format.directory(files)) == Records(format, files, contents) + format.directory(files)
  {
    hide Kept;
    hide Dropped;
    hide Layered;
    hide NamesAre;
    var dir := format.directory(files);
    KeptSorted(layout, end);
    forall i | 0 <= i < |files| ensures Holds(format, Overwrite(d, end, dir), files[i], contents) {
      assert Holds(format, d, files[i], contents);
      HoldsApart(format, d, end, dir, files[i], contents);
    }
    hide Holds;
    if NoGaps(d, layout, end) {
      assert |Dropped(layout)| == |multiset(Dropped(layout))|;
      SqueezedAllKept(d, layout, end);
      SqueezedTight(format, d, layout, end, contents);
      AtEnd(d, dir);
      assert d[..end] == d;
    }
  }

  /** So does writing it behind the squeezed records. */
  lemma {:induction false} ClosedCompact(format: Format, d: Data, layout: seq<Entry>, end: nat,
                                         contents: map<string, Content>, files: seq<Info>, remove: seq<Info>)
    requires Listed(format, d, layout, end, contents, files, remove)
    ensures Layered(layout, end) && end <= |d|
    ensures var moved := Moved(d, layout, end);
            && |moved| == |files| && (forall i :: 0 <= i < |moved| ==> SameFile(moved[i], files[i]))
            && Archive(format, Squeezed(d, layout, end) + format.directory(moved), moved, contents)
            && (NoGaps(d, layout, end) ==> Squeezed(d, layout, end) == Records(format, moved, contents))
  {
    var moved, squeezed := Moved(d, layout, end), Squeezed(d, layout, end);
    MovedKeepsRecords(format, d, layout, end, contents);
    assert forall i :: 0 <= i < |moved| ==> SameFile(moved[i], files[i]);
    forall i | 0 <= i < |moved| ensures Holds(format, squeezed + format.directory(moved), moved[i], contents) {
      HoldsInLonger(format, squeezed, format.directory(moved), moved[i], contents);
    }
    MovedNames(moved, files, contents);
    if NoGaps(d, layout, end) {
      SqueezedTight(format, d, layout, end, contents);
      RecordsByName(format, moved, files, contents);
    }
  }

  lemma {:induction false} AtEnd(d: Data, b: Data)
    ensures Overwrite(d, |d|, b) == d + b
  {
  }

  lemma {:induction false} MovedNames(moved: seq<Info>, files: seq<Info>, contents: map<string, Content>)
    requires NamesAre(files, contents) && |moved| == |files|
    requires forall i :: 0 <= i < |moved| ==> SameFile(moved[i], files[i])
    ensures NamesAre(moved, contents)
  {
    forall n | n in contents ensures exists i :: 0 <= i < |moved| && moved[i].name == n {
      var i :| 0 <= i < |files| && files[i].name == n;
      assert SameFile(moved[i], files[i]) && moved[i].name == n;
    }
  }

  predicate IsLastNamed(files: seq<Info>, name: string, i: int) {
    0 <= i < |files| && files[i].name == name && forall k :: i < k < |files| ==> files[k].name != name
  }

  class ZipFile {
    const format: Format
    var data: Data
    var pos: nat
    /** Where the records stop; a directory read from disk may still lie behind it. */
    var end: nat
    var filelist: seq<Info>
    var remove: seq<Info>
    var nameToInfo: map<string, Info>
    /** All entries in file order, wanted or not. */
    ghost var layout: seq<Entry>
    /** What was last written under each name. */
    ghost var contents: map<string, Content>

    ghost predicate Valid()
      reads this
    {
      && format.Lawful() && pos == end && EndsKept(layout)
      && Listed(format, data, layout, end, contents, filelist, remove)
      && nameToInfo.Keys == contents.Keys
    }

    ghost function State(): Files
      reads this`data, this`end, this`filelist, this`remove
    {
      Files(data, end, filelist, remove)
    }

    /** Names are found in the directory, and entries in the file. */
    ghost predicate Usable()
      reads this`data, this`pos, this`end, this`filelist, this`nameToInfo
    {
      && format.Lawful() && pos == end <= |data|
      && (forall n :: n in nameToInfo ==> exists k :: 0 <= k < |filelist| && filelist[k].name == n)
      && (forall e :: e in filelist ==> e.offset <= |data|)
    }

    lemma {:induction false} ValidIsUsable()
      requires Valid()
      ensures Usable()
    {
      hide Listed;
      PlaceIsInFile(format, data, layout, end, contents, filelist, remove);
      forall n | n in nameToInfo ensures exists k :: 0 <= k < |filelist| && filelist[k].name == n {
        NameIsListed(format, data, layout, end, contents, filelist, remove, n);
      }
    }

    /** An archive just opened, whose directory may list its entries in any order. */
    ghost predicate Unsorted()
      reads this
    {
      && format.Lawful() && pos == end && remove == [] && nameToInfo.Keys == contents.Keys
      && NamesAre(filelist, contents) && AllHeld(format, data, filelist, end, contents)
    }

    constructor Create(f: Format)
      requires f.Lawful()
      ensures Valid() && format == f && contents == map[] && layout == [] && data == [] && remove == [] && end == 0
    {
      format := f;
      data, pos, end, filelist, remove, nameToInfo := [], 0, 0, [], [], map[];
      layout, contents := [], map[];
    }

    /** Opens an archive for appending: `start` is where the records stop. The directory may list entries in any
        order. */
    constructor Open(f: Format, file: Data, files: seq<Info>, start: nat, ghost held: map<string, Content>)
      requires f.Lawful() && start <= |file| && forall e :: e in files ==> e.offset <= start
      ensures Usable() && format == f && State() == Files(file, start, files, [])
      ensures forall n :: n in nameToInfo <==> exists k :: 0 <= k < |files| && files[k].name == n
      ensures InFileOrder(f, file, files, start, held) ==> Valid() && contents == held
      ensures NamesAre(files, held) && AllHeld(f, file, files, start, held) ==> Unsorted() && contents == held
    {
      hide InFileOrder;
      hide Listed;
      hide EndsKept;
      hide Format.Lawful;
      hide NamesAre;
      hide AllHeld;
      format := f;
      data, pos, end, filelist, remove := file, start, start, files, [];
      nameToInfo := Index(files);
      layout, contents := AllKept(files), held;
      if InFileOrder(f, file, files, start, held) {
        OpenListed(f, file, files, start, held);
      }
      if NamesAre(files, held) {
        IndexHasNames(files, held);
      }
    }

    /** The position of the last entry with a name, as the directory lists it. */
    method FindLast(name: string) returns (i: nat)
      requires exists k :: 0 <= k < |filelist| && filelist[k].name == name
      ensures IsLastNamed(filelist, name, i)
    {
      i := |filelist|;
      while i > 0
        invariant i <= |filelist| && forall k :: i <= k < |filelist| ==> filelist[k].name != name
      {
        i := i - 1;
        if filelist[i].name == name {
          break;
        }
      }
    }

    /** The base class writes a record at the current position and lists it. */
    method BaseWriteStr(name: string, c: Content) returns (zinfo: Info)
      requires format.Lawful() && pos <= |data|
      modifies this`data, this`pos, this`filelist, this`nameToInfo
      ensures zinfo == Info(name, old(pos), |format.record(name, c)| - 30 - |name|)
      ensures data == Overwrite(old(data), old(pos), format.record(name, c))
      ensures pos == old(pos) + zinfo.Length() && filelist == old(filelist) + [zinfo]
      ensures nameToInfo == old(nameToInfo)[name := zinfo] && nameToInfo.Keys == old(nameToInfo.Keys) + {name}
    {
      zinfo := Info(name, pos, |format.record(name, c)| - 30 - |name|);
      data := Overwrite(data, pos, format.record(name, c));
      pos := pos + |format.record(name, c)|;
      filelist := filelist + [zinfo];
      nameToInfo := nameToInfo[name := zinfo];
    }

    /** Writes a file under a name, replacing what was there. An entry overwritten by as many
        uncompressed bytes keeps its place; the last entry is cut off first; any other is left behind. */
    method WriteStr(name: string, c: Content)
      requires Usable()
      modifies this
      ensures pos == end && nameToInfo.Keys == old(nameToInfo.Keys) + {name}
      ensures name !in old(nameToInfo) ==> State() == Appended(format, old(State()), name, c)
      ensures name in old(nameToInfo) ==>
                forall i :: IsLastNamed(old(filelist), name, i) ==> State() == Replaced(format, old(State()), i, c)
      ensures old(Valid()) ==> Valid() && contents == old(contents)[name := c]
      ensures old(Valid() && NoGaps(data, layout, end)) ==> NoGaps(data, layout, end)
      ensures old(Unsorted() && SafeToWrite(filelist, name)) ==> Valid() && contents == old(contents)[name := c]
    {
      hide Listed;
      hide NoGaps;
      hide EndsKept;
      hide Replaced;
      hide Appended;
      hide NamesAre;
      hide AllHeld;
      ghost var valid, f := Valid(), State();
      ghost var safe := Unsorted() && SafeToWrite(filelist, name);
      hide SafeToWrite;
      ghost var last := Rewrite(name, c);
      if valid {
        Noted(f, last, name, c);
      } else if safe {
        NotedFirst(f, last, name, c);
      }
    }

    /** What the archive holds after a safe first write to one whose directory was in any order. */
    ghost method NotedFirst(f: Files, last: nat, name: string, c: Content)
      requires format.Lawful() && pos == end && nameToInfo.Keys == contents.Keys + {name} && f.remove == []
      requires NamesAre(f.filelist, contents) && AllHeld(format, f.data, f.filelist, f.end, contents)
      requires name in contents ==> IsLastNamed(f.filelist, name, last) && SafeToWrite(f.filelist, name)
      requires f.end <= |f.data| && (name in contents ==> f.filelist[last].offset <= |f.data|)
      requires State() == if name in contents then Replaced(format, f, last, c) else Appended(format, f, name, c)
      modifies this`layout, this`contents
      ensures Valid() && contents == old(contents)[name := c]
    {
      hide Listed;
      hide EndsKept;
      hide Replaced;
      hide Appended;
      hide NamesAre;
      hide AllHeld;
      hide SafeToWrite;
      layout := FirstWritten(format, f, contents, last, name, c);
      contents := contents[name := c];
    }

    /** The write to the file and to the directory. */
    method Rewrite(name: string, c: Content) returns (ghost last: nat)
      requires Usable()
      modifies this`data, this`pos, this`end, this`filelist, this`remove, this`nameToInfo
      ensures pos == end && nameToInfo.Keys == old(nameToInfo.Keys) + {name}
      ensures name !in old(nameToInfo) ==> State() == Appended(format, old(State()), name, c)
      ensures name in old(nameToInfo) ==>
              IsLastNamed(old(filelist), name, last) && State() == Replaced(format, old(State()), last, c)
    {
      hide Without;
      hide Overwrite;
      hide SortByOffset;
      hide IsLastNamed;
      var doSeek := false;
      last := 0;
      if name in nameToInfo {
        ghost var f := State();
        doSeek, last := Unhook(name, c);
        ReplacedIs(format, f, last, c);
      }
      hide Replaced;
      var _ := BaseWriteStr(name, c);
      filelist := SortByOffset(filelist);
      if doSeek {
        pos := end;
      }
      end := pos;
    }

    /** Takes the last entry of a name out of the directory and goes to where the new record belongs. */
    method Unhook(name: string, c: Content) returns (doSeek: bool, ghost last: nat)
      requires Usable() && name in nameToInfo
      modifies this`data, this`pos, this`filelist, this`remove, this`nameToInfo
      ensures last < |old(filelist)| && IsLastNamed(old(filelist), name, last) &&
              filelist == Without(old(filelist), last)
      ensures nameToInfo.Keys + {name} == old(nameToInfo.Keys) && pos <= |data|
      ensures var zi, cut := old(filelist)[last], last + 1 == |old(filelist)|;
              var same := c.stored && zi.compressSize == |c.bytes|;
              && zi.name == name && zi.offset <= |old(data)| && doSeek == (same && !cut)
              && data == (if cut then old(data)[..zi.offset] else old(data)) &&
                 pos == (if cut || same then zi.offset else old(pos))
              && remove == old(remove) + if cut || same then [] else [zi]
    {
      hide Without;
      doSeek := false;
      var i := FindLast(name);
      last := i;
      var zi := filelist[i];
      if (c.stored && zi.compressSize == |c.bytes|) || i + 1 == |filelist| {
        pos := zi.offset;
        if i + 1 == |filelist| {
          data := data[..pos];
        } else {
          doSeek := true;
        }
        filelist := Without(filelist, i);
        nameToInfo := nameToInfo - {name};
      } else {
        remove := remove + [zi];
        filelist := Without(filelist, i);
      }
    }

    /** What the archive holds after a write to one that was in order. */
    ghost method Noted(f: Files, last: nat, name: string, c: Content)
      requires format.Lawful() && EndsKept(layout) && pos == end && nameToInfo.Keys == contents.Keys + {name}
      requires Listed(format, f.data, layout, f.end, contents, f.filelist, f.remove)
      requires name in contents ==> last < |f.filelist| && f.filelist[last].name == name
      requires f.end <= |f.data| && (name in contents ==> f.filelist[last].offset <= |f.data|)
      requires State() == if name in contents then Replaced(format, f, last, c) else Appended(format, f, name, c)
      modifies this`layout, this`contents
      ensures Valid() && contents == old(contents)[name := c]
      ensures old(NoGaps(f.data, layout, f.end)) ==> NoGaps(data, layout, end)
    {
      hide Listed;
      hide NoGaps;
      hide EndsKept;
      hide Replaced;
      hide Appended;
      if name in contents {
        layout := ReplacedIsListed(format, f, layout, contents, last, c);
      } else {
        layout := AppendedIsListed(format, f, layout, contents, name, c);
      }
      contents := contents[name := c];
    }

    /** The base class writes the central directory at the current position. */
    method BaseClose()
      requires pos <= |data|
      modifies this`data, this`pos
      ensures data == Overwrite(old(data), old(pos), format.directory(filelist))
      ensures pos == old(pos) + |format.directory(filelist)|
    {
      data := Overwrite(data, pos, format.directory(filelist));
      pos := pos + |format.directory(filelist)|;
    }

    /** Moves the kept records down over the removed ones, inside the file. */
    method Compact(all: seq<Entry>)
      requires Layered(all, end) && end <= |data| && all != [] && all[|all| - 1].keep && filelist == Kept(all)
      modifies this`data, this`pos, this`filelist
      ensures data == Squeezed(old(data), all, end) && filelist == Moved(old(data), all, end) && pos == |data|
    {
      hide Overwrite;
      hide Compacting;
      ghost var d := data;
      var toPos: nat, k: nat := 0, 0;
      CompactStart(d, all, end);
      for i := 0 to |all|
        invariant Compacting(d, all, end, i, data, toPos, filelist, k)
        invariant i > 0 && all[i - 1].keep ==> pos == toPos
      {
        var oldoff, length := all[i].info.offset, Bound(all, end, i + 1) - all[i].info.offset;
        if all[i].keep {
          CopyKept(d, all, end, i, data, toPos, filelist, k);
          InFile(d, all, end, i, data, toPos, filelist, k);
          var content := data[oldoff..oldoff + length];
          data := Overwrite(data, toPos, content);
          pos := toPos + |content|;
          filelist := filelist[k := all[i].info.(offset := toPos)];
          k := k + 1;
          toPos := toPos + length;
        } else {
          SkipRemoved(d, all, end, i, data, toPos, filelist, k);
        }
      }
      CompactEnd(d, all, end, data, toPos, filelist, k);
      data := data[..pos];
    }

    /** Ends the archive: squeezes out removed entries, if there are any, and writes the directory. */
    method Close()
      requires Valid()
      modifies this
      ensures contents == old(contents) && remove == [] && Archive(format, data, filelist, contents)
      ensures |filelist| == old(|filelist|) && forall i :: 0 <= i < |filelist| ==>
              SameFile(filelist[i], old(filelist)[i])
      ensures if old(remove) == [] then data == Overwrite(old(data), old(end), format.directory(filelist))
              else data == Squeezed(old(data), old(layout), old(end)) + format.directory(filelist)
      ensures old(NoGaps(data, layout, end)) ==>
                data == Records(format, filelist, contents) + format.directory(filelist)
    {
      hide NoGaps;
      hide Archive;
      hide Listed;
      hide EndsKept;
      hide Overwrite;
      PlaceIsInFile(format, data, layout, end, contents, filelist, remove);
      if remove == [] {
        ClosedInPlace(format, data, layout, end, contents, filelist);
        BaseClose();
      } else {
        CloseSqueezing();
      }
    }

    method CloseSqueezing()
      requires Valid() && remove != []
      modifies this`data, this`pos, this`filelist, this`remove
      ensures remove == [] && Archive(format, data, filelist, contents)
      ensures data == Squeezed(old(data), layout, end) + format.directory(filelist)
      ensures |filelist| == old(|filelist|) && forall i :: 0 <= i < |filelist| ==>
              SameFile(filelist[i], old(filelist)[i])
      ensures old(NoGaps(data, layout, end)) ==>
                data == Records(format, filelist, contents) + format.directory(filelist)
    {
      hide NoGaps;
      hide Archive;
      hide Listed;
      hide EndsKept;
      hide Overwrite;
      hide SortEntries;
      ClosedCompact(format, data, layout, end, contents, filelist, remove);
      AllIsLayout(format, data, layout, end, contents, filelist, remove);
      var all := SortEntries(Tag(filelist, true) + Tag(remove, false));
      remove := [];
      hide Kept;
      hide Layered;
      hide Squeezed;
      hide Moved;
      Compact(all);
      AtEnd(data, format.directory(filelist));
      BaseClose();
    }
  }

  /** What a run of writes leaves under each name. */
  function LastWritten(writes: seq<(string, Content)>): map<string, Content> {
    if writes == [] then map[]
    else LastWritten(writes[..|writes| - 1])[writes[|writes| - 1].0 := writes[|writes| - 1].1]
  }

  /** A new archive, written any number of times and closed, is just one record per name, each with the
      bytes last written under it, and then the directory. */
  method Build(format: Format, writes: seq<(string, Content)>) returns (z: ZipFile)
    requires format.Lawful()
    ensures fresh(z) && z.contents == LastWritten(writes) && Archive(format, z.data, z.filelist, LastWritten(writes))
    ensures z.data == Records(format, z.filelist, LastWritten(writes)) + format.directory(z.filelist)
  {
    hide Listed;
    hide Archive;
    z := new ZipFile.Create(format);
    for i := 0 to |writes|
      invariant fresh(z) && z.format == format && z.Valid() && NoGaps(z.data, z.layout, z.end)
      invariant z.contents == LastWritten(writes[..i])
    {
      assert writes[..i + 1][..i] == writes[..i];
      z.ValidIsUsable();
      z.WriteStr(writes[i].0, writes[i].1);
    }
    assert writes[..|writes|] == writes;
    z.Close();
  }

  /** The directory lists `a` before `b`, and the file has `b` first. */
  function OutOfOrder(format: Format): Files {
    var c := Content(true, []);
    Files(format.record("b", c) + format.record("a", c), 62, [Info("a", 31, 0), Info("b", 0, 0)], [])
  }

  lemma {:induction false} TwoRecords(format: Format, ra: Data, rb: Data, c: Content)
    requires ra == format.record("a", c) && rb == format.record("b", c) && |ra| == |rb| == 31
    ensures AllHeld(format, rb + ra, [Info("a", 31, 0), Info("b", 0, 0)], 62, map["a" := c, "b" := c])
  {
    var d := rb + ra;
    assert d[31..62] == ra && d[0..31] == rb;
  }

  lemma {:induction false} CutOffRun(format: Format)
    requires format.Lawful()
    ensures var c, f := Content(true, []), OutOfOrder(format);
            && AllHeld(format, f.data, f.filelist, f.end, map["a" := c, "b" := c])
            && |Replaced(format, f, 1, c).data| == 31 && f.filelist[0] in Replaced(format, f, 1, c).filelist
  {
    var c, f := Content(true, []), OutOfOrder(format);
    var ra, rb := format.record("a", c), format.record("b", c);
    assert |ra| == |rb| == 31;
    hide Format.Lawful;
    TwoRecords(format, ra, rb, c);
    hide AllHeld;
    hide Holds;
    var a, b := f.filelist[0], f.filelist[1];
    var rest := Without(f.filelist, 1) + [b];
    assert rest == [a, b];
    assert a in multiset(SortByOffset(rest));
    hide SortByOffset;
    assert Replaced(format, f, 1, c).filelist == SortByOffset(rest);
  }

  /** Two files listed against their order in the archive: writing the one listed last again cuts off the other. */
  method CutOffByWriting(format: Format) returns (z: ZipFile)
    requires format.Lawful()
    ensures AllHeld(format, OutOfOrder(format).data, OutOfOrder(format).filelist, 62,
                    map["a" := Content(true, []), "b" := Content(true, [])])
    ensures Info("a", 31, 0) in z.filelist && |z.data| == 31
  {
    CutOffRun(format);
    hide Replaced;
    hide AllHeld;
    hide InFileOrder;
    var c, f := Content(true, []), OutOfOrder(format);
    z := new ZipFile.Open(format, f.data, f.filelist, 62, map["a" := c, "b" := c]);
    assert IsLastNamed(f.filelist, "b", 1);
    z.WriteStr("b", c);
  }

  /** An archive listed in any order, opened, written to once where that is safe, and closed, has every other entry as
      it was. */
  method Update(format: Format, file: Data, files: seq<Info>, start: nat, ghost held: map<string, Content>,
                name: string, c: Content)
      returns (z: ZipFile)
    requires format.Lawful() && NamesAre(files, held) && AllHeld(format, file, files, start, held)
    requires SafeToWrite(files, name)
    ensures Archive(format, z.data, z.filelist, held[name := c])
  {
    hide NamesAre;
    hide SafeToWrite;
    hide Archive;
    hide InFileOrder;
    z := new ZipFile.Open(format, file, files, start, held);
    z.WriteStr(name, c);
    z.Close();
  }
}
