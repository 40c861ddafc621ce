/** The structured-clone form of principals in `nsJSPrincipals.cpp`: a recursive writer and its reader. */
module PrincipalClone {
  import opened Wrappers
  import opened OriginAttributes

  const NULL_TAG: uint32 := 0xFFFF800B
  const SYSTEM_TAG: uint32 := 0xFFFF800C
  const CONTENT_TAG: uint32 := 0xFFFF800D
  const EXPANDED_TAG: uint32 := 0xFFFF8012

  /** What a principal is serialized from. */
  datatype Info =
    | NullInfo(attrs: Attributes)
    | SystemInfo
    | ContentInfo(attrs: Attributes, originNoSuffix: Option<string>, spec: string)
    | ExpandedInfo(attrs: Attributes, whitelist: seq<Info>)

  /** The clone stream: pairs of 32-bit numbers and single bytes. */
  datatype Item = Pair(a: uint32, b: uint32) | Byte(c: char)

  function Tag(info: Info): uint32 {
    match info
    case NullInfo(_) => NULL_TAG
    case SystemInfo => SYSTEM_TAG
    case ContentInfo(_, _, _) => CONTENT_TAG
    case ExpandedInfo(_, _) => EXPANDED_TAG
  }

  /** Every attribute string is made of bytes and may be serialized, and every length fits 32 bits. */
  ghost predicate Representable(numbers: Numbers, info: Info)
    requires numbers.Lawful()
  {
    match info
    case NullInfo(attrs) => AttributesFit(numbers, attrs)
    case SystemInfo => true
    case ContentInfo(attrs, _, spec) => AttributesFit(numbers, attrs) && |spec| < UINT32
    case ExpandedInfo(_, whitelist) =>
      |whitelist| < UINT32 && forall i :: 0 <= i < |whitelist| ==> Representable(numbers, whitelist[i])
  }

  ghost predicate AttributesFit(numbers: Numbers, a: Attributes)
    requires numbers.Lawful()
  {
    AttributesAreBytes(a) && MaySerialize(a) && |Suffix(numbers, a)| < UINT32
  }

  function Bytes(s: string): (r: seq<Item>)
    ensures |r| == |s| && forall i :: 0 <= i < |s| ==> r[i] == Byte(s[i])
  {
    seq(|s|, i requires 0 <= i < |s| => Byte(s[i]))
  }

  ghost function EncodeSuffixAndSpec(numbers: Numbers, attrs: Attributes, spec: string): seq<Item>
    requires numbers.Lawful() && AttributesFit(numbers, attrs) && |spec| < UINT32
  {
    var suffix := Suffix(numbers, attrs);
    [Pair(|suffix|, |spec|)] + Bytes(suffix) + Bytes(spec)
  }

  /** What the writer emits. */
  ghost function Encode(numbers: Numbers, info: Info): seq<Item>
    requires numbers.Lawful() && Representable(numbers, info)
    decreases info, 1
  {
    [Pair(Tag(info), 0)] + Body(numbers, info)
  }

  ghost function Body(numbers: Numbers, info: Info): seq<Item>
    requires numbers.Lawful() && Representable(numbers, info)
    decreases info, 0
  {
    match info
    case NullInfo(attrs) => EncodeSuffixAndSpec(numbers, attrs, "")
    case SystemInfo => []
    case ContentInfo(attrs, _, spec) => EncodeSuffixAndSpec(numbers, attrs, spec)
    case ExpandedInfo(_, whitelist) => [Pair(|whitelist|, 0)] + EncodeList(numbers, whitelist)
  }

  ghost function EncodeList(numbers: Numbers, list: seq<Info>): seq<Item>
    requires numbers.Lawful() && forall i :: 0 <= i < |list| ==> Representable(numbers, list[i])
    decreases list
  {
    if list == [] then [] else Encode(numbers, list[0]) + EncodeList(numbers, list[1..])
  }

  /** What reading yields: a value and the rest of the stream. */
  type Read<T> = Outcome<(T, seq<Item>)>

  /** The next `n` bytes. */
  function TakeBytes(items: seq<Item>, n: nat): (r: Option<string>)
    ensures r.Some? ==> n <= |items| && |r.value| == n && items[..n] == Bytes(r.value)
    decreases n
  {
    if n == 0 then Some("")
    else if items == [] || !items[0].Byte? then None
    else
      var rest := TakeBytes(items[1..], n - 1);
      if rest.None? then None
      else
        assert items[..n] == [items[0]] + items[1..][..n - 1];
        Some([items[0].c] + rest.value)
  }

  function ReadSuffixAndSpec(numbers: Numbers, items: seq<Item>): (r: Read<(Attributes, string)>)
    ensures r.Done? ==> |r.value.1| < |items|
  {
    if items == [] || !items[0].Pair? then Rejected
    else
      var suffix := TakeBytes(items[1..], items[0].a);
      if suffix.None? then Rejected
      else
        match Populated(numbers, DEFAULTS, suffix.value)
        case Rejected => Rejected
        case Crashed => Crashed
        case Done(attrs) =>
          var rest := items[1 + items[0].a..];
          var spec := TakeBytes(rest, items[0].b);
          if spec.None? then Rejected else Done(((attrs, spec.value), rest[items[0].b..]))
  }

  /** What the reader makes of a stream after the tag. */
  function ReadInfo(numbers: Numbers, tag: uint32, items: seq<Item>): (r: Read<Info>)
    ensures r.Done? ==> |r.value.1| <= |items|
    decreases |items|, 1
  {
    if tag == SYSTEM_TAG then Done((SystemInfo, items))
    else if tag == NULL_TAG then
      match ReadSuffixAndSpec(numbers, items)
      case Rejected => Rejected
      case Crashed => Crashed
      case Done(v) => Done((NullInfo(v.0.0), v.1))
    else if tag == EXPANDED_TAG then
      if items == [] || !items[0].Pair? then Rejected
      else
        match ReadList(numbers, items[0].a, items[1..])
        case Rejected => Rejected
        case Crashed => Crashed
        case Done(v) => Done((ExpandedInfo(DEFAULTS, v.0), v.1))
    else if tag == CONTENT_TAG then
      match ReadSuffixAndSpec(numbers, items)
      case Rejected => Rejected
      case Crashed => Crashed
      case Done(v) => Done((ContentInfo(v.0.0, None, v.0.1), v.1))
    else Crashed
  }

  function ReadList(numbers: Numbers, n: nat, items: seq<Item>): (r: Read<seq<Info>>)
    ensures r.Done? ==> |r.value.1| <= |items|
    decreases |items|, 0
  {
    if n == 0 then Done(([], items))
    else if items == [] || !items[0].Pair? then Rejected
    else
      match ReadInfo(numbers, items[0].a, items[1..])
      case Rejected => Rejected
      case Crashed => Crashed
      case Done(first) =>
        match ReadList(numbers, n - 1, first.1)
        case Rejected => Rejected
        case Crashed => Crashed
        case Done(v) => Done(([first.0] + v.0, v.1))
  }

  /** `ReadPrincipals` also reads the tag, and refuses an unknown one. */
  function ReadPrincipal(numbers: Numbers, items: seq<Item>): Read<Info> {
    if items == [] || !items[0].Pair? then Rejected
    else if items[0].a !in {NULL_TAG, SYSTEM_TAG, CONTENT_TAG, EXPANDED_TAG} then Rejected
    else ReadInfo(numbers, items[0].a, items[1..])
  }

  /** What survives: the attributes of an expanded principal and a stored origin are not written. */
  function Surviving(info: Info): Info {
    match info
    case NullInfo(_) => info
    case SystemInfo => info
    case ContentInfo(attrs, _, spec) => ContentInfo(attrs, None, spec)
    case ExpandedInfo(_, whitelist) =>
      ExpandedInfo(DEFAULTS, seq(|whitelist|, i requires 0 <= i < |whitelist| => Surviving(whitelist[i])))
  }

  /** No expanded principal, at any depth, has attributes of its own, and no origin is stored. */
  predicate NothingToLose(info: Info) {
    match info
    case NullInfo(_) => true
    case SystemInfo => true
    case ContentInfo(_, origin, _) => origin == None
    case ExpandedInfo(attrs, whitelist) =>
      attrs == DEFAULTS && forall i :: 0 <= i < |whitelist| ==> NothingToLose(whitelist[i])
  }

  lemma {:induction false} SurvivesIff(info: Info)
    ensures Surviving(info) == info <==> NothingToLose(info)
  {
    match info
    case ExpandedInfo(attrs, whitelist) =>
      forall i | 0 <= i < |whitelist| ensures Surviving(whitelist[i]) == whitelist[i] <==> NothingToLose(whitelist[i]) {
        SurvivesIff(whitelist[i]);
      }
      var s := Surviving(info);
      assert |s.whitelist| == |whitelist| && forall i :: 0 <= i < |whitelist| ==>
             s.whitelist[i] == Surviving(whitelist[i]);
      assert s == info <==> attrs == DEFAULTS && s.whitelist == whitelist;
    case _ =>
  }

  lemma {:induction false} TakeWritten(s: string, rest: seq<Item>)
    ensures TakeBytes(Bytes(s) + rest, |s|) == Some(s) && (Bytes(s) + rest)[|s|..] == rest
  {
    if s != "" {
      var more := Bytes(s[1..]) + rest;
      assert Bytes(s) + rest == [Byte(s[0])] + more;
      hide Bytes;
      TakeWritten(s[1..], rest);
      assert s == [s[0]] + s[1..];
    }
  }

  // A stream cut short

  lemma {:induction false} TakeCut(items: seq<Item>, n: nat, k: nat)
    requires TakeBytes(items, n).Some? && k <= |items|
    ensures TakeBytes(items[..k], n) == if k < n then None else TakeBytes(items, n)
  {
    if n > 0 && k > 0 {
      TakeCut(items[1..], n - 1, k - 1);
      assert items[..k][1..] == items[1..][..k - 1];
    }
  }

  /** What is read of the first `k` items when all of them give a value with `left` items to follow. */
  function Cut<T>(r: Read<T>, items: seq<Item>, k: nat): Read<T>
    requires r.Done? && |r.value.1| <= |items| && k <= |items|
  {
    var used := |items| - |r.value.1|;
    if k < used then Rejected else Done((r.value.0, items[used..k]))
  }

  lemma {:induction false} SuffixAndSpecCut(numbers: Numbers, items: seq<Item>, k: nat)
    requires ReadSuffixAndSpec(numbers, items).Done? && k <= |items|
    ensures var r := ReadSuffixAndSpec(numbers, items);
            r.value.1 == items[|items| - |r.value.1|..] && ReadSuffixAndSpec(numbers, items[..k]) == Cut(r, items, k)
  {
    hide Populated;
    if k > 0 {
      var m, n := items[0].a, items[0].b;
      TakeCut(items[1..], m, k - 1);
      assert items[..k][1..] == items[1..][..k - 1];
      if k - 1 >= m {
        TakeCut(items[1 + m..], n, k - 1 - m);
        assert items[..k][1 + m..] == items[1 + m..][..k - 1 - m];
      }
    }
  }

  lemma {:induction false} InfoCut(numbers: Numbers, tag: uint32, items: seq<Item>, k: nat)
    requires ReadInfo(numbers, tag, items).Done? && k <= |items|
    ensures var r := ReadInfo(numbers, tag, items);
            r.value.1 == items[|items| - |r.value.1|..] && ReadInfo(numbers, tag, items[..k]) == Cut(r, items, k)
    decreases |items|, 1
  {
    hide ReadSuffixAndSpec;
    hide ReadList;
    if tag == NULL_TAG || tag == CONTENT_TAG {
      SuffixAndSpecCut(numbers, items, k);
    } else if tag == EXPANDED_TAG {
      ListCut(numbers, items[0].a, items[1..], if k > 0 then k - 1 else 0);
      assert k > 0 ==> items[..k][1..] == items[1..][..k - 1];
    }
  }

  lemma {:induction false} ListCut(numbers: Numbers, n: nat, items: seq<Item>, k: nat)
    requires ReadList(numbers, n, items).Done? && k <= |items|
    ensures var r := ReadList(numbers, n, items);
            r.value.1 == items[|items| - |r.value.1|..] && ReadList(numbers, n, items[..k]) == Cut(r, items, k)
    decreases |items|, 0
  {
    hide ReadInfo;
    if n > 0 {
      var first := ReadInfo(numbers, items[0].a, items[1..]).value;
      InfoCut(numbers, items[0].a, items[1..], if k > 0 then k - 1 else 0);
      var used := |items| - |first.1|;
      assert k > 0 ==> items[..k][1..] == items[1..][..k - 1];
      ListCut(numbers, n - 1, first.1, if k >= used then k - used else 0);
      assert k >= used ==> first.1[..k - used] == items[1..][used - 1..k - 1];
    }
  }

  lemma {:induction false} BodyCut(numbers: Numbers, info: Info, k: nat)
    requires numbers.Lawful() && Representable(numbers, info) && k < |Body(numbers, info)|
    ensures ReadInfo(numbers, Tag(info), Body(numbers, info)[..k]) == Rejected
  {
    hide Body;
    hide ReadInfo;
    hide Representable;
    var body := Body(numbers, info);
    assert body + [] == body;
    ReadWritten(numbers, info, []);
    InfoCut(numbers, Tag(info), body, k);
  }

  /** However little is missing at its end, a stream that was cut short is refused and gives no principal. */
  lemma {:induction false} CutShortIsRejected(numbers: Numbers, info: Info, k: nat)
    requires numbers.Lawful() && Representable(numbers, info) && k < |Encode(numbers, info)|
    ensures ReadPrincipal(numbers, Encode(numbers, info)[..k]) == Rejected
  {
    hide Body;
    hide ReadInfo;
    hide Representable;
    if k > 0 {
      var body := Body(numbers, info);
      BodyCut(numbers, info, k - 1);
      assert Encode(numbers, info)[..k] == [Pair(Tag(info), 0)] + body[..k - 1];
    }
  }

  lemma {:induction false} ReadTwoStrings(numbers: Numbers, suffix: string, attrs: Attributes, spec: string,
                                          rest: seq<Item>)
    requires |suffix| < UINT32 && |spec| < UINT32 && Populated(numbers, DEFAULTS, suffix) == Done(attrs)
    ensures ReadSuffixAndSpec(numbers, [Pair(|suffix|, |spec|)] + (Bytes(suffix) + (Bytes(spec) + rest))) ==
            Done(((attrs, spec), rest))
  {
    hide Populated;
    hide TakeBytes;
    var after := Bytes(suffix) + (Bytes(spec) + rest);
    var items := [Pair(|suffix|, |spec|)] + after;
    TakeWritten(suffix, Bytes(spec) + rest);
    TakeWritten(spec, rest);
    assert items[1..] == after && items[1 + |suffix|..] == after[|suffix|..];
  }

  lemma {:induction false} ReadWrittenSuffixAndSpec(numbers: Numbers, attrs: Attributes, spec: string, rest: seq<Item>)
    requires numbers.Lawful() && AttributesFit(numbers, attrs) && |spec| < UINT32
    ensures ReadSuffixAndSpec(numbers, EncodeSuffixAndSpec(numbers, attrs, spec) + rest) == Done(((attrs, spec), rest))
  {
    var suffix := Suffix(numbers, attrs);
    SuffixRoundTrip(numbers, attrs);
    ReadTwoStrings(numbers, suffix, attrs, spec, rest);
    hide Suffix;
    hide Populated;
    hide ReadSuffixAndSpec;
    Regroup(Pair(|suffix|, |spec|), Bytes(suffix), Bytes(spec), rest);
    hide Bytes;
    hide AttributesFit;
  }

  lemma {:induction false} Regroup(p: Item, x: seq<Item>, y: seq<Item>, rest: seq<Item>)
    ensures [p] + x + y + rest == [p] + (x + (y + rest))
  {
  }

  /** Reading what was written gives back what survives, and leaves the rest of the stream alone. */
  lemma {:induction false} ReadWritten(numbers: Numbers, info: Info, rest: seq<Item>)
    requires numbers.Lawful() && Representable(numbers, info)
    ensures ReadInfo(numbers, Tag(info), Body(numbers, info) + rest) == Done((Surviving(info), rest))
    decreases info, 0
  {
    hide ReadSuffixAndSpec;
    hide EncodeSuffixAndSpec;
    hide Suffix;
    match info
    case NullInfo(attrs) => ReadWrittenSuffixAndSpec(numbers, attrs, "", rest);
    case SystemInfo => assert [] + rest == rest;
    case ContentInfo(attrs, _, spec) => ReadWrittenSuffixAndSpec(numbers, attrs, spec, rest);
    case ExpandedInfo(_, whitelist) =>
      var items := Body(numbers, info) + rest;
      assert items[1..] == EncodeList(numbers, whitelist) + rest;
      ReadWrittenList(numbers, whitelist, rest);
      assert Surviving(info).whitelist == SurvivingAll(whitelist);
  }

  function SurvivingAll(list: seq<Info>): seq<Info> {
    seq(|list|, i requires 0 <= i < |list| => Surviving(list[i]))
  }

  lemma {:induction false} SurvivingFirst(list: seq<Info>)
    requires list != []
    ensures SurvivingAll(list) == [Surviving(list[0])] + SurvivingAll(list[1..])
  {
    hide Surviving;
  }

  /** Putting what was read already in front of what is still to come. */
  function Prepend(list: seq<Info>, r: Read<seq<Info>>): Read<seq<Info>> {
    match r
    case Done(v) => Done((list + v.0, v.1))
    case Rejected => Rejected
    case Crashed => Crashed
  }

  lemma {:induction false} PrependNothing(r: Read<seq<Info>>)
    ensures Prepend([], r) == r
  {
    match r
    case Done(v) => assert [] + v.0 == v.0;
    case _ =>
  }

  /** One turn of the reading loop. */
  lemma {:induction false} ReadOneMore(numbers: Numbers, list: seq<Info>, n: nat, items: seq<Item>)
    requires n > 0 && items != [] && items[0].Pair?
    ensures match ReadInfo(numbers, items[0].a, items[1..])
            case Done(first) =>
              Prepend(list, ReadList(numbers, n, items)) == Prepend(list + [first.0], ReadList(numbers, n - 1, first.1))
            case Rejected => ReadList(numbers, n, items) == Rejected
            case Crashed => ReadList(numbers, n, items) == Crashed
  {
    hide ReadInfo;
    match ReadInfo(numbers, items[0].a, items[1..])
    case Done(first) =>
      match ReadList(numbers, n - 1, first.1) {
        case Done(v) => assert list + ([first.0] + v.0) == list + [first.0] + v.0;
        case _ =>
      }
    case _ =>
  }

  lemma {:induction false} ReadWrittenList(numbers: Numbers, list: seq<Info>, rest: seq<Item>)
    requires numbers.Lawful() && forall i :: 0 <= i < |list| ==> Representable(numbers, list[i])
    ensures ReadList(numbers, |list|, EncodeList(numbers, list) + rest) == Done((SurvivingAll(list), rest))
    decreases list
  {
    if list == [] {
      assert [] + rest == rest && SurvivingAll(list) == [];
    } else {
      hide ReadInfo;
      hide ReadList;
      hide Surviving;
      hide SurvivingAll;
      hide Representable;
      hide Body;
      hide EncodeList;
      var tail := EncodeList(numbers, list[1..]) + rest;
      EncodedFirst(numbers, list, rest);
      ReadWritten(numbers, list[0], tail);
      ReadWrittenList(numbers, list[1..], rest);
      SurvivingFirst(list);
      var items := [Pair(Tag(list[0]), 0)] + (Body(numbers, list[0]) + tail);
      assert items[1..] == Body(numbers, list[0]) + tail;
      PrependNothing(ReadList(numbers, |list|, items));
      ReadOneMore(numbers, [], |list|, items);
      assert [] + [Surviving(list[0])] == [Surviving(list[0])];
    }
  }

  lemma {:induction false} EncodedFirst(numbers: Numbers, list: seq<Info>, rest: seq<Item>)
    requires numbers.Lawful() && list != [] && forall i :: 0 <= i < |list| ==> Representable(numbers, list[i])
    ensures EncodeList(numbers, list) + rest ==
            [Pair(Tag(list[0]), 0)] + (Body(numbers, list[0]) + (EncodeList(numbers, list[1..]) + rest))
  {
    hide Body;
    hide Representable;
    assert Encode(numbers, list[0]) == [Pair(Tag(list[0]), 0)] + Body(numbers, list[0]);
  }

  /** The round trip: writing and reading gives the same principal back exactly when there is nothing
      to lose, and never touches the rest of the stream. */
  lemma {:induction false} RoundTripIff(numbers: Numbers, info: Info, rest: seq<Item>)
    requires numbers.Lawful() && Representable(numbers, info)
    ensures ReadPrincipal(numbers, Encode(numbers, info) + rest) == Done((Surviving(info), rest))
    ensures ReadPrincipal(numbers, Encode(numbers, info) + rest) == Done((info, rest)) <==> NothingToLose(info)
  {
    hide Suffix;
    hide Populated;
    hide Representable;
    var tail := Body(numbers, info) + rest;
    assert Encode(numbers, info) + rest == [Pair(Tag(info), 0)] + tail;
    hide Body;
    hide Encode;
    ReadTag(numbers, info, tail);
    ReadWritten(numbers, info, rest);
    SurvivesIff(info);
    hide ReadInfo;
    hide ReadPrincipal;
    hide Surviving;
    hide NothingToLose;
  }

  /** An expanded principal with attributes of its own comes back without them, and a stored origin is lost. */
  lemma {:induction false} SomethingIsLost(numbers: Numbers)
    requires numbers.Lawful()
    ensures var info := ExpandedInfo(DEFAULTS.(appId := 1), []);
            Representable(numbers, info) &&
            ReadPrincipal(numbers, Encode(numbers, info)) == Done((ExpandedInfo(DEFAULTS, []), []))
    ensures var info := ExpandedInfo(DEFAULTS, [ContentInfo(DEFAULTS, Some("o"), "s")]);
            Representable(numbers, info) &&
            ReadPrincipal(numbers, Encode(numbers, info)) ==
            Done((ExpandedInfo(DEFAULTS, [ContentInfo(DEFAULTS, None, "s")]), []))
  {
    var first, second := ExpandedInfo(DEFAULTS.(appId := 1), []),
        ExpandedInfo(DEFAULTS, [ContentInfo(DEFAULTS, Some("o"), "s")]);
    assert Representable(numbers, first);
    assert Encode(numbers, first) + [] == Encode(numbers, first);
    RoundTripIff(numbers, first, []);
    assert Surviving(first) == ExpandedInfo(DEFAULTS, []);
    SuffixShape(numbers, DEFAULTS);
    hide Suffix;
    assert Representable(numbers, second.whitelist[0]);
    assert Representable(numbers, second);
    assert Encode(numbers, second) + [] == Encode(numbers, second);
    RoundTripIff(numbers, second, []);
    assert Surviving(second).whitelist == [ContentInfo(DEFAULTS, None, "s")];
  }

  lemma {:induction false} ReadTag(numbers: Numbers, info: Info, tail: seq<Item>)
    ensures ReadPrincipal(numbers, [Pair(Tag(info), 0)] + tail) == ReadInfo(numbers, Tag(info), tail)
  {
    hide ReadInfo;
    assert ([Pair(Tag(info), 0)] + tail)[1..] == tail;
  }

  // The writer and the reader at work on their streams

  class Writer {
    var items: seq<Item>

    constructor ()
      ensures items == []
    {
      items := [];
    }

    method WriteUint32Pair(a: uint32, b: uint32)
      modifies this
      ensures items == old(items) + [Pair(a, b)]
    {
      items := items + [Pair(a, b)];
    }

    method WriteBytes(s: string)
      modifies this
      ensures items == old(items) + Bytes(s)
    {
      items := items + Bytes(s);
    }
  }

  method WriteSuffixAndSpec(numbers: Numbers, w: Writer, attrs: Attributes, spec: string)
    requires numbers.Lawful() && AttributesFit(numbers, attrs) && |spec| < UINT32
    modifies w
    ensures w.items == old(w.items) + EncodeSuffixAndSpec(numbers, attrs, spec)
  {
    hide Suffix;
    var store := new Store(numbers);
    store.attributes := attrs;
    var suffix := store.CreateSuffix();
    w.WriteUint32Pair(|suffix.value|, |spec|);
    w.WriteBytes(suffix.value);
    w.WriteBytes(spec);
  }

  method WritePrincipalInfo(numbers: Numbers, w: Writer, info: Info)
    requires numbers.Lawful() && Representable(numbers, info)
    modifies w
    ensures w.items == old(w.items) + Encode(numbers, info)
    decreases info
  {
    hide EncodeSuffixAndSpec;
    hide AttributesFit;
    assert Encode(numbers, info) == [Pair(Tag(info), 0)] + Body(numbers, info);
    w.WriteUint32Pair(Tag(info), 0);
    match info {
      case NullInfo(attrs) =>
        WriteSuffixAndSpec(numbers, w, attrs, "");
      case SystemInfo =>
      case ExpandedInfo(_, whitelist) =>
        w.WriteUint32Pair(|whitelist|, 0);
        for i := 0 to |whitelist|
          invariant w.items + EncodeList(numbers, whitelist[i..]) == old(w.items) + Encode(numbers, info)
        {
          assert whitelist[i..][0] == whitelist[i] && whitelist[i..][1..] == whitelist[i + 1..];
          WritePrincipalInfo(numbers, w, whitelist[i]);
        }
      case ContentInfo(attrs, _, spec) =>
        WriteSuffixAndSpec(numbers, w, attrs, spec);
    }
  }

  class Reader {
    const items: seq<Item>
    var pos: nat

    constructor (s: seq<Item>)
      ensures items == s && pos == 0
    {
      items, pos := s, 0;
    }

    /** What is still to be read. */
    function Rest(): seq<Item>
      requires pos <= |items|
      reads this
    {
      items[pos..]
    }

    method ReadUint32Pair() returns (ok: bool, a: uint32, b: uint32)
      requires pos <= |items|
      modifies this
      ensures old(pos) <= pos <= |items| && (ok ==> old(pos) < pos)
      ensures ok == (old(Rest()) != [] && old(Rest())[0].Pair?)
      ensures if ok then Pair(a, b) == old(Rest())[0] && Rest() == old(Rest())[1..] else Rest() == old(Rest())
    {
      if pos == |items| || !items[pos].Pair? {
        return false, 0, 0;
      }
      ok, a, b := true, items[pos].a, items[pos].b;
      pos := pos + 1;
    }

    method ReadBytes(n: nat) returns (s: Option<string>)
      requires pos <= |items|
      modifies this
      ensures old(pos) <= pos <= |items| && s == TakeBytes(old(Rest()), n)
      ensures if s.Some? then Rest() == old(Rest())[n..] else Rest() == old(Rest())
    {
      s := TakeBytes(Rest(), n);
      if s.Some? {
        pos := pos + n;
      }
    }
  }

  /** A reader's result and position are what the specification says about the stream it started on. */
  ghost predicate Agrees<T(!new)>(r: Reader, o: Outcome<T>, spec: Read<T>)
    reads r
  {
    && r.pos <= |r.items|
    && match spec
       case Done(v) => o == Done(v.0) && r.Rest() == v.1
       case Rejected => o == Rejected
       case Crashed => o == Crashed
  }

  method ReadSuffixAndSpecFrom(numbers: Numbers, r: Reader) returns (o: Outcome<(Attributes, string)>)
    requires r.pos <= |r.items|
    modifies r
    ensures Agrees(r, o, ReadSuffixAndSpec(numbers, old(r.Rest()))) && old(r.pos) <= r.pos
  {
    hide TakeBytes;
    hide Populated;
    var ok, suffixLength, specLength := r.ReadUint32Pair();
    if !ok {
      return Rejected;
    }
    var suffix := r.ReadBytes(suffixLength);
    if suffix.None? {
      return Rejected;
    }
    var store := new Store(numbers);
    var populated := store.PopulateFromSuffix(suffix.value);
    if populated.Crashed? {
      return Crashed;
    }
    if populated.Rejected? {
      return Rejected;
    }
    var spec := r.ReadBytes(specLength);
    if spec.None? {
      return Rejected;
    }
    o := Done((store.attributes, spec.value));
  }

  /** The loop over the whitelist. */
  method ReadWhitelist(numbers: Numbers, r: Reader, length: uint32) returns (o: Outcome<seq<Info>>)
    requires r.pos <= |r.items|
    modifies r
    ensures Agrees(r, o, ReadList(numbers, length, old(r.Rest()))) && old(r.pos) <= r.pos
    decreases |r.items| - r.pos, 0
  {
    hide ReadList;
    hide ReadInfo;
    hide Prepend;
    ghost var start := r.Rest();
    ghost var whole := ReadList(numbers, length, start);
    var whitelist: seq<Info> := [];
    PrependNothing(whole);
    for i := 0 to length
      invariant old(r.pos) <= r.pos <= |r.items|
      invariant Prepend(whitelist, ReadList(numbers, length - i, r.Rest())) == whole
    {
      ghost var rest := r.Rest();
      var ok, tag, _ := r.ReadUint32Pair();
      if !ok {
        FailsAt(numbers, whitelist, length - i, rest);
        return Rejected;
      }
      ReadOneMore(numbers, whitelist, length - i, rest);
      var sub := ReadPrincipalInfo(numbers, r, tag);
      match sub {
        case Done(info) => whitelist := whitelist + [info];
        case Rejected =>
          PrependFailure(whitelist);
          return Rejected;
        case Crashed =>
          PrependFailure(whitelist);
          return Crashed;
      }
    }
    PrependEnd(numbers, whitelist, r.Rest());
    o := Done(whitelist);
  }

  lemma {:induction false} PrependFailure(list: seq<Info>)
    ensures Prepend(list, Rejected) == Rejected && Prepend(list, Crashed) == Crashed
  {
  }

  lemma {:induction false} PrependEnd(numbers: Numbers, list: seq<Info>, items: seq<Item>)
    ensures Prepend(list, ReadList(numbers, 0, items)) == Done((list, items))
  {
    assert list + [] == list;
  }

  lemma {:induction false} FailsAt(numbers: Numbers, list: seq<Info>, n: nat, items: seq<Item>)
    requires n > 0 && (items == [] || !items[0].Pair?)
    ensures Prepend(list, ReadList(numbers, n, items)) == Rejected
  {
  }

  method ReadPrincipalInfo(numbers: Numbers, r: Reader, tag: uint32) returns (o: Outcome<Info>)
    requires r.pos <= |r.items|
    modifies r
    ensures Agrees(r, o, ReadInfo(numbers, tag, old(r.Rest()))) && old(r.pos) <= r.pos
    decreases |r.items| - r.pos, 1
  {
    hide ReadSuffixAndSpec;
    hide ReadList;
    if tag == SYSTEM_TAG {
      return Done(SystemInfo);
    } else if tag == NULL_TAG {
      var attrs := ReadSuffixAndSpecFrom(numbers, r);
      o := match attrs case Done(v) => Done(NullInfo(v.0)) case Rejected => Rejected case Crashed => Crashed;
    } else if tag == EXPANDED_TAG {
      var ok, length, _ := r.ReadUint32Pair();
      if !ok {
        return Rejected;
      }
      var whitelist := ReadWhitelist(numbers, r, length);
      o := match whitelist case Done(v) => Done(ExpandedInfo(DEFAULTS, v)) case Rejected => Rejected
           case Crashed => Crashed;
    } else if tag == CONTENT_TAG {
      var content := ReadSuffixAndSpecFrom(numbers, r);
      o := match content case Done(v) => Done(ContentInfo(v.0, None, v.1)) case Rejected => Rejected
           case Crashed => Crashed;
    } else {
      return Crashed;
    }
  }
}
