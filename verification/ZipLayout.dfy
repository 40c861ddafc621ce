/** How the records of an overwritable zip archive lie in its file, and what squeezing out the removed
    ones does to them. */
module ZipLayout {

  type Data = seq<int>

  /** What the archive is to hold under a name: the bytes last written and whether uncompressed. */
  datatype Content = Content(stored: bool, bytes: Data)

  datatype Info = Info(name: string, offset: nat, compressSize: nat) {
    /** A local file header takes 30 bytes and the name (section 4.3.7 of the PKWARE APPNOTE). */
    function Length(): nat {
      30 + |name| + compressSize
    }
  }

  /** The base class's encodings: the record of a file, and the central directory that closes the archive. */
  datatype Format = Format(record: (string, Content) -> Data, directory: seq<Info> -> Data) {
    /** A record is a header and the stored bytes; uncompressed bytes are stored as they are. */
    ghost predicate Lawful() {
      forall n, c :: |record(n, c)| >= 30 + |n| && (c.stored ==> |record(n, c)| == 30 + |n| + |c.bytes|)
    }
  }

  /** An entry of the file, still wanted or overwritten since. */
  datatype Entry = Entry(info: Info, keep: bool)

  /** The entries follow one another without overlap, all below `end`. */
  ghost predicate Layered(layout: seq<Entry>, end: nat) {
    && (forall i :: 0 <= i < |layout| ==> layout[i].info.offset + layout[i].info.Length() <= end)
    && (forall i, j :: 0 <= i < j < |layout| ==>
          layout[i].info.offset + layout[i].info.Length() <= layout[j].info.offset)
  }

  /** The file holds the wanted bytes at an entry's place. */
  ghost predicate Holds(format: Format, d: Data, e: Info, contents: map<string, Content>) {
    && e.name in contents && e.offset + e.Length() <= |d|
    && d[e.offset..e.offset + e.Length()] == format.record(e.name, contents[e.name])
  }

  function Kept(layout: seq<Entry>): seq<Info> {
    if layout == [] then []
    else
      var n := |layout| - 1;
      Kept(layout[..n]) + if layout[n].keep then [layout[n].info] else []
  }

  function Dropped(layout: seq<Entry>): seq<Info> {
    if layout == [] then []
    else
      var n := |layout| - 1;
      Dropped(layout[..n]) + if layout[n].keep then [] else [layout[n].info]
  }

  lemma {:induction false} KeptLast(layout: seq<Entry>, e: Entry)
    ensures Kept(layout + [e]) == Kept(layout) + if e.keep then [e.info] else []
    ensures Dropped(layout + [e]) == Dropped(layout) + if e.keep then [] else [e.info]
  {
    assert (layout + [e])[..|layout|] == layout;
  }

  lemma {:induction false} KeptConcat(a: seq<Entry>, b: seq<Entry>)
    ensures Kept(a + b) == Kept(a) + Kept(b) && Dropped(a + b) == Dropped(a) + Dropped(b)
  {
    if b == [] {
      assert a + b == a;
    } else {
      hide Kept;
      hide Dropped;
      var n := |b| - 1;
      assert b == b[..n] + [b[n]] && a + b == a + b[..n] + [b[n]];
      KeptConcat(a, b[..n]);
      KeptLast(a + b[..n], b[n]);
      KeptLast(b[..n], b[n]);
    }
  }

  /** The directory around one entry of the file. */
  lemma {:induction false} KeptAround(layout: seq<Entry>, j: nat)
    requires j < |layout|
    ensures Kept(layout) == Kept(layout[..j]) + (if layout[j].keep then [layout[j].info] else []) +
            Kept(layout[j + 1..])
    ensures Dropped(layout) == Dropped(layout[..j]) + (if layout[j].keep then [] else [layout[j].info]) +
            Dropped(layout[j + 1..])
  {
    assert layout == layout[..j + 1] + layout[j + 1..];
    KeptConcat(layout[..j + 1], layout[j + 1..]);
    assert layout[..j + 1][..j] == layout[..j];
  }

  /** The position in the file of an entry of the directory. */
  lemma {:induction false} FindInLayout(layout: seq<Entry>, i: nat) returns (j: nat)
    requires i < |Kept(layout)|
    ensures j < |layout| && layout[j] == Entry(Kept(layout)[i], true) && |Kept(layout[..j])| == i
  {
    var n := |layout| - 1;
    if layout[n].keep && i == |Kept(layout)| - 1 {
      j := n;
    } else {
      j := FindInLayout(layout[..n], i);
      assert layout[..n][..j] == layout[..j];
    }
  }

  lemma {:induction false} KeptMember(layout: seq<Entry>, e: Info)
    ensures e in Kept(layout) <==> Entry(e, true) in layout
    ensures e in Dropped(layout) <==> Entry(e, false) in layout
  {
    if layout != [] {
      var n := |layout| - 1;
      KeptMember(layout[..n], e);
      assert layout == layout[..n] + [layout[n]];
    }
  }

  /** The kept entries are in the order of the file. */
  lemma {:induction false} KeptSorted(layout: seq<Entry>, end: nat)
    requires Layered(layout, end)
    ensures Sorted(Kept(layout))
    ensures forall i, j :: 0 <= i < j < |Kept(layout)| ==>
              Kept(layout)[i].offset + Kept(layout)[i].Length() <= Kept(layout)[j].offset
    ensures forall i :: 0 <= i < |Kept(layout)| ==> Kept(layout)[i].offset + Kept(layout)[i].Length() <= end
  {
    if layout != [] {
      var n := |layout| - 1;
      KeptSorted(layout[..n], layout[n].info.offset);
    }
  }

  ghost predicate Sorted(s: seq<Info>) {
    forall i, j :: 0 <= i < j < |s| ==> s[i].offset < s[j].offset
  }

  // Sorting, as the list type of the language does it: a permutation that never decreases

  ghost predicate Rising<T>(s: seq<T>, key: T -> nat) {
    forall i, j :: 0 <= i < j < |s| ==> key(s[i]) < key(s[j])
  }

  ghost predicate NotFalling<T>(s: seq<T>, key: T -> nat) {
    forall i, j :: 0 <= i < j < |s| ==> key(s[i]) <= key(s[j])
  }

  /** Puts an element in its place among sorted ones. */
  function Insert<T>(s: seq<T>, e: T, key: T -> nat): (r: seq<T>)
    ensures multiset(r) == multiset(s) + multiset{e}
  {
    if s == [] || key(s[|s| - 1]) <= key(e) then s + [e]
    else
      var n := |s| - 1;
      assert s == s[..n] + [s[n]];
      Insert(s[..n], e, key) + [s[n]]
  }

  lemma {:induction false} InsertKeepsOrder<T>(s: seq<T>, e: T, key: T -> nat, top: nat)
    requires NotFalling(s, key) && key(e) <= top && forall i :: 0 <= i < |s| ==> key(s[i]) <= top
    ensures NotFalling(Insert(s, e, key), key)
    ensures forall i :: 0 <= i < |Insert(s, e, key)| ==> key(Insert(s, e, key)[i]) <= top
  {
    if s != [] && key(s[|s| - 1]) > key(e) {
      var n := |s| - 1;
      var r := Insert(s[..n], e, key);
      InsertKeepsOrder(s[..n], e, key, key(s[n]));
      assert Insert(s, e, key) == r + [s[n]];
      hide Insert;
    }
  }

  function SortBy<T>(s: seq<T>, key: T -> nat): (r: seq<T>)
    ensures multiset(r) == multiset(s)
  {
    if s == [] then []
    else
      var n := |s| - 1;
      assert s == s[..n] + [s[n]];
      Insert(SortBy(s[..n], key), s[n], key)
  }

  lemma {:induction false} SortOrders<T>(s: seq<T>, key: T -> nat)
    ensures NotFalling(SortBy(s, key), key)
  {
    if s != [] {
      var n := |s| - 1;
      SortOrders(s[..n], key);
      var r := SortBy(s[..n], key);
      var top := if r == [] || key(r[|r| - 1]) <= key(s[n]) then key(s[n]) else key(r[|r| - 1]);
      InsertKeepsOrder(r, s[n], key, top);
    }
  }

  /** Sorting finds the one list in which the keys rise. */
  lemma {:induction false} SortFinds<T>(s: seq<T>, t: seq<T>, key: T -> nat)
    requires Rising(t, key) && multiset(s) == multiset(t)
    ensures SortBy(s, key) == t
  {
    SortOrders(s, key);
    SortedUnique(SortBy(s, key), t, key);
  }

  lemma {:induction false} SameLength<T>(a: seq<T>, b: seq<T>)
    requires multiset(a) == multiset(b)
    ensures |a| == |b|
  {
    assert |a| == |multiset(a)| == |multiset(b)| == |b|;
  }

  lemma {:induction false} ButLast<T>(a: seq<T>, b: seq<T>)
    requires multiset(a) == multiset(b) && |a| == |b| > 0 && a[|a| - 1] == b[|b| - 1]
    ensures multiset(a[..|a| - 1]) == multiset(b[..|b| - 1])
  {
    var n := |a| - 1;
    assert a == a[..n] + [a[n]] && b == b[..n] + [b[n]];
    assert multiset(a[..n]) == multiset(a) - multiset{a[n]};
    assert multiset(b[..n]) == multiset(b) - multiset{b[n]};
  }

  lemma {:induction false} SortedUnique<T>(a: seq<T>, b: seq<T>, key: T -> nat)
    requires NotFalling(a, key) && Rising(b, key) && multiset(a) == multiset(b)
    ensures a == b
  {
    SameLength(a, b);
    if a != [] {
      var n := |a| - 1;
      LastIsLargest(a, b, key);
      ButLast(a, b);
      StaysSorted(a, b, n, key);
      hide NotFalling;
      hide Rising;
      SortedUnique(a[..n], b[..n], key);
      assert a == a[..n] + [a[n]] && b == b[..n] + [b[n]];
    }
  }

  lemma {:induction false} StaysSorted<T>(a: seq<T>, b: seq<T>, n: nat, key: T -> nat)
    requires NotFalling(a, key) && Rising(b, key) && n <= |a| && n <= |b|
    ensures NotFalling(a[..n], key) && Rising(b[..n], key)
  {
  }

  lemma {:induction false} LastIsLargest<T>(a: seq<T>, b: seq<T>, key: T -> nat)
    requires NotFalling(a, key) && Rising(b, key) && multiset(a) == multiset(b) && |a| == |b| > 0
    ensures a[|a| - 1] == b[|b| - 1]
  {
    var n := |a| - 1;
    assert a[n] in multiset(b) && b[n] in multiset(a);
    var i :| 0 <= i <= n && b[i] == a[n];
    var j :| 0 <= j <= n && a[j] == b[n];
  }

  function SortByOffset(s: seq<Info>): seq<Info> {
    SortBy(s, (e: Info) => e.offset)
  }

  lemma {:induction false} SortByOffsetFinds(s: seq<Info>, t: seq<Info>)
    requires Sorted(t) && multiset(s) == multiset(t)
    ensures SortByOffset(s) == t
  {
    SortFinds(s, t, (e: Info) => e.offset);
  }

  // Squeezing out removed entries

  /** The bytes from one entry's start to the next one's, for the kept entries in order. */
  function Squeezed(d: Data, layout: seq<Entry>, end: nat): (r: Data)
    requires Layered(layout, end) && end <= |d|
  {
    if layout == [] then []
    else
      var n := |layout| - 1;
      var start := layout[n].info.offset;
      Squeezed(d, layout[..n], start) + if layout[n].keep then d[start..end] else []
  }

  /** The kept entries at their new places. */
  function Moved(d: Data, layout: seq<Entry>, end: nat): seq<Info>
    requires Layered(layout, end) && end <= |d|
  {
    if layout == [] then []
    else
      var n := |layout| - 1;
      var start := layout[n].info.offset;
      Moved(d, layout[..n], start) +
      if layout[n].keep then [layout[n].info.(offset := |Squeezed(d, layout[..n], start)|)] else []
  }

  /** Squeezing never needs more room than the entries had. */
  lemma {:induction false} SqueezedFits(d: Data, layout: seq<Entry>, end: nat)
    requires Layered(layout, end) && end <= |d|
    ensures |Squeezed(d, layout, end)| <= end
  {
    if layout != [] {
      var n := |layout| - 1;
      SqueezedFits(d, layout[..n], layout[n].info.offset);
    }
  }

  lemma {:induction false} HoldsInLonger(format: Format, d: Data, more: Data, e: Info, contents: map<string, Content>)
    requires Holds(format, d, e, contents)
    ensures Holds(format, d + more, e, contents)
  {
    assert (d + more)[e.offset..e.offset + e.Length()] == d[e.offset..e.offset + e.Length()];
  }

  lemma {:induction false} HoldsWhenMoved(format: Format, d: Data, end: nat, e: Info, front: Data,
                                          contents: map<string, Content>)
    requires Holds(format, d, e, contents) && e.offset + e.Length() <= end <= |d|
    ensures Holds(format, front + d[e.offset..end], e.(offset := |front|), contents)
  {
    var part := d[e.offset..end];
    assert (front + part)[|front|..|front| + e.Length()] == part[..e.Length()];
    assert part[..e.Length()] == d[e.offset..e.offset + e.Length()];
  }

  /** A moved entry is an entry in its new place. */
  ghost predicate SameFile(a: Info, b: Info) {
    a.name == b.name && a.compressSize == b.compressSize
  }

  /** The files are the kept ones at other places, in the same order and without overlap, with their records. */
  ghost predicate Relocated(format: Format, d: Data, files: seq<Info>, kept: seq<Info>,
                            contents: map<string, Content>) {
    && |files| == |kept|
    && (forall i :: 0 <= i < |files| ==> SameFile(files[i], kept[i]) && Holds(format, d, files[i], contents))
    && (forall i, j :: 0 <= i < j < |files| ==> files[i].offset + files[i].Length() <= files[j].offset)
  }

  lemma {:induction false} OneMoreRelocated(format: Format, d: Data, more: Data, files: seq<Info>, kept: seq<Info>,
                                            moved: Info, e: Info, contents: map<string, Content>)
    requires Relocated(format, d, files, kept, contents) && SameFile(moved, e) && moved.offset == |d|
    requires Holds(format, d + more, moved, contents)
    ensures Relocated(format, d + more, files + [moved], kept + [e], contents)
  {
    EntriesBelow(format, d, files, contents);
    hide Holds;
    forall i | 0 <= i < |files| ensures Holds(format, d + more, files[i], contents) {
      HoldsInLonger(format, d, more, files[i], contents);
    }
  }

  /** Moved entries keep their names, order and records, and come to lie below the squeezed length. */
  lemma {:induction false} MovedKeepsRecords(format: Format, d: Data, layout: seq<Entry>, end: nat,
                                             contents: map<string, Content>)
    requires Layered(layout, end) && end <= |d|
    requires forall e :: e in Kept(layout) ==> Holds(format, d, e, contents)
    ensures Relocated(format, Squeezed(d, layout, end), Moved(d, layout, end), Kept(layout), contents)
  {
    if layout != [] {
      var n := |layout| - 1;
      var e := layout[n].info;
      var front, m0 := Squeezed(d, layout[..n], e.offset), Moved(d, layout[..n], e.offset);
      hide Holds;
      hide Relocated;
      MovedKeepsRecords(format, d, layout[..n], e.offset, contents);
      if layout[n].keep {
        assert Kept(layout)[|Kept(layout)| - 1] == e;
        HoldsWhenMoved(format, d, end, e, front, contents);
        OneMoreRelocated(format, front, d[e.offset..end], m0, Kept(layout[..n]), e.(offset := |front|), e, contents);
      } else {
        assert Squeezed(d, layout, end) == front && Moved(d, layout, end) == m0 && Kept(layout) == Kept(layout[..n]);
      }
    }
  }

  lemma {:induction false} EntriesBelow(format: Format, d: Data, files: seq<Info>, contents: map<string, Content>)
    requires forall i :: 0 <= i < |files| ==> Holds(format, d, files[i], contents)
    ensures forall i :: 0 <= i < |files| ==> files[i].offset + files[i].Length() <= |d|
  {
  }

  // Gap-free files

  /** The entries fill the file from its start up to `end`. */
  ghost predicate Tight(layout: seq<Entry>, end: nat) {
    if layout == [] then end == 0
    else
      var n := |layout| - 1;
      layout[n].info.offset + layout[n].info.Length() == end && Tight(layout[..n], layout[n].info.offset)
  }

  /** The records of a directory, one after another. */
  function Records(format: Format, files: seq<Info>, contents: map<string, Content>): Data {
    if files == [] then []
    else
      var n := |files| - 1;
      Records(format, files[..n], contents) +
      if files[n].name in contents then format.record(files[n].name, contents[files[n].name]) else []
  }

  /** Squeezing a gap-free file leaves just the kept records, one after another from the start. */
  lemma {:induction false} SqueezedTight(format: Format, d: Data, layout: seq<Entry>, end: nat,
                                         contents: map<string, Content>)
    requires Layered(layout, end) && end <= |d| && Tight(layout, end)
    requires forall e :: e in Kept(layout) ==> Holds(format, d, e, contents)
    ensures Squeezed(d, layout, end) == Records(format, Kept(layout), contents)
  {
    if layout != [] {
      var n := |layout| - 1;
      var e := layout[n].info;
      hide Records;
      hide Holds;
      SqueezedTight(format, d, layout[..n], e.offset, contents);
      if layout[n].keep {
        assert Kept(layout) == Kept(layout[..n]) + [e];
        RecordIs(format, d, e, contents);
        OneMoreRecord(format, Kept(layout[..n]), e, contents);
      } else {
        assert Kept(layout) == Kept(layout[..n]);
        assert Squeezed(d, layout, end) == Squeezed(d, layout[..n], e.offset);
      }
    }
  }

  lemma {:induction false} RecordIs(format: Format, d: Data, e: Info, contents: map<string, Content>)
    requires Holds(format, d, e, contents)
    ensures e.name in contents && e.offset + e.Length() <= |d|
    ensures d[e.offset..e.offset + e.Length()] == format.record(e.name, contents[e.name])
  {
  }

  lemma {:induction false} OneMoreRecord(format: Format, files: seq<Info>, e: Info, contents: map<string, Content>)
    requires e.name in contents
    ensures Records(format, files + [e], contents) ==
            Records(format, files, contents) + format.record(e.name, contents[e.name])
  {
    assert (files + [e])[..|files|] == files;
  }

  lemma {:induction false} RecordsByName(format: Format, a: seq<Info>, b: seq<Info>, contents: map<string, Content>)
    requires |a| == |b| && forall i :: 0 <= i < |a| ==> SameFile(a[i], b[i])
    ensures Records(format, a, contents) == Records(format, b, contents)
  {
    if a != [] {
      var n := |a| - 1;
      RecordsByName(format, a[..n], b[..n], contents);
    }
  }

  /** With nothing removed there is nothing to squeeze out of a gap-free file. */
  lemma {:induction false} SqueezedAllKept(d: Data, layout: seq<Entry>, end: nat)
    requires Layered(layout, end) && end <= |d| && Tight(layout, end) && Dropped(layout) == []
    ensures Squeezed(d, layout, end) == d[..end]
  {
    if layout != [] {
      var n := |layout| - 1;
      SqueezedAllKept(d, layout[..n], layout[n].info.offset);
    }
  }
}
