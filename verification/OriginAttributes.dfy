/** `OriginAttributes` of `BasePrincipal.cpp`: the suffix that spells out a principal's non-default
    attributes, and the reader that fills attributes in from one. */
module OriginAttributes {
  import opened UrlParams
  import opened Wrappers

  const UINT32: int := 0x1_0000_0000
  type uint32 = n: int | 0 <= n < UINT32

  datatype Attributes = Attributes(appId: uint32, inIsolatedMozBrowser: bool, addonId: string,
                                   userContextId: uint32, privateBrowsingId: uint32, firstPartyDomain: string)

  const DEFAULTS := Attributes(0, false, "", 0, 0, "")

  /** Printing an unsigned number and reading a signed one, as the string library does them. */
  datatype Numbers = Numbers(print_: uint32 -> string, read: string -> Option<int>) {
    ghost predicate Lawful() {
      forall n: uint32 :: IsBytes(print_(n)) && read(print_(n)) == Some(n)
    }
  }

  /** Characters that would break file names made from a suffix. */
  predicate IsReplaceChar(c: char) {
    1 as char <= c <= 31 as char || c == '/' || c == ':' || c == '*' || c == '?' || c == '"' || c == '<' || c == '>' ||
    c == '|' || c == '\\'
  }

  predicate IsClean(s: string) {
    forall i :: 0 <= i < |s| ==> !IsReplaceChar(s[i])
  }

  ghost predicate AttributesAreBytes(a: Attributes) {
    IsBytes(a.addonId) && IsBytes(a.firstPartyDomain)
  }

  predicate MaySerialize(a: Attributes) {
    IsClean(a.addonId) && IsClean(a.firstPartyDomain)
  }

  function NumberParam(numbers: Numbers, name: string, n: uint32): seq<Param> {
    if n != 0 then [(name, numbers.print_(n))] else []
  }

  function FlagParam(name: string, on: bool): seq<Param> {
    if on then [(name, "1")] else []
  }

  function TextParam(name: string, text: string): seq<Param> {
    if text != "" then [(name, text)] else []
  }

  /** The attributes that are not at their default, in the order they are written. */
  function Params(numbers: Numbers, a: Attributes): seq<Param> {
    NumberParam(numbers, "appId", a.appId) + FlagParam("inBrowser", a.inIsolatedMozBrowser) +
    TextParam("addonId", a.addonId) + NumberParam(numbers, "userContextId", a.userContextId) +
    NumberParam(numbers, "privateBrowsingId", a.privateBrowsingId) + TextParam("firstPartyDomain", a.firstPartyDomain)
  }

  lemma {:induction false} NumberParamIsBytes(numbers: Numbers, name: string, n: uint32)
    requires numbers.Lawful() && IsBytes(name)
    ensures AreBytes(NumberParam(numbers, name, n))
  {
  }

  lemma {:induction false} AreBytesConcat(p: seq<Param>, q: seq<Param>)
    requires AreBytes(p) && AreBytes(q)
    ensures AreBytes(p + q)
  {
  }

  lemma {:induction false} ParamsAreBytes(numbers: Numbers, a: Attributes)
    requires numbers.Lawful() && AttributesAreBytes(a)
    ensures AreBytes(Params(numbers, a))
  {
    var p1, p2 := NumberParam(numbers, "appId", a.appId), FlagParam("inBrowser", a.inIsolatedMozBrowser);
    var p3, p4 := TextParam("addonId", a.addonId), NumberParam(numbers, "userContextId", a.userContextId);
    var p5, p6 := NumberParam(numbers, "privateBrowsingId", a.privateBrowsingId),
        TextParam("firstPartyDomain", a.firstPartyDomain);
    NumberParamIsBytes(numbers, "appId", a.appId);
    NumberParamIsBytes(numbers, "userContextId", a.userContextId);
    NumberParamIsBytes(numbers, "privateBrowsingId", a.privateBrowsingId);
    assert AreBytes(p2) && AreBytes(p3) && AreBytes(p6);
    hide IsBytes;
    AreBytesConcat(p1, p2);
    AreBytesConcat(p1 + p2, p3);
    AreBytesConcat(p1 + p2 + p3, p4);
    AreBytesConcat(p1 + p2 + p3 + p4, p5);
    AreBytesConcat(p1 + p2 + p3 + p4 + p5, p6);
    hide AreBytes;
  }

  /** What `CreateSuffix` produces. */
  function Suffix(numbers: Numbers, a: Attributes): string
    requires numbers.Lawful() && AttributesAreBytes(a)
  {
    ParamsAreBytes(numbers, a);
    var text := Serialize(Params(numbers, a));
    if text == "" then "" else "^" + text
  }

  /** What one name and value do to the attributes. */
  function Applied(numbers: Numbers, a: Attributes, p: Param): Outcome<Attributes> {
    match p.0
    case "appId" =>
      var v := numbers.read(p.1);
      if v.Some? && v.value < UINT32 then Done(a.(appId := v.value % UINT32)) else Rejected
    case "inBrowser" => if p.1 == "1" then Done(a.(inIsolatedMozBrowser := true)) else Rejected
    case "addonId" => if a.addonId == "" then Done(a.(addonId := p.1)) else Crashed
    case "userContextId" =>
      var v := numbers.read(p.1);
      if v.Some? && v.value < UINT32 then Done(a.(userContextId := v.value % UINT32)) else Rejected
    case "privateBrowsingId" =>
      var v := numbers.read(p.1);
      if v.Some? && 0 <= v.value < UINT32 then Done(a.(privateBrowsingId := v.value)) else Rejected
    case "firstPartyDomain" => if a.firstPartyDomain == "" then Done(a.(firstPartyDomain := p.1)) else Crashed
    case _ => Rejected
  }

  /** Applying a list from the front, up to the first failure. */
  function AppliedAll(numbers: Numbers, a: Attributes, params: seq<Param>): Outcome<Attributes>
    decreases |params|
  {
    if params == [] then Done(a)
    else
      var r := Applied(numbers, a, params[0]);
      if r.Done? then AppliedAll(numbers, r.value, params[1..]) else r
  }

  /** Which entries are taken, which one stops the program, and what one that is taken changes. A negative number wraps
      around for two of the attributes and is refused for the third. */
  lemma {:induction false} TakenIff(numbers: Numbers, a: Attributes, name: string, text: string)
    ensures var o := Applied(numbers, a, (name, text)); var v := numbers.read(text);
            && (o.Done? <==>
                  || ((name == "appId" || name == "userContextId") && v.Some? && v.value < UINT32)
                  || (name == "privateBrowsingId" && v.Some? && 0 <= v.value < UINT32)
                  || (name == "inBrowser" && text == "1")
                  || (name == "addonId" && a.addonId == "") || (name == "firstPartyDomain" && a.firstPartyDomain == ""))
            && (o.Crashed? <==> (name == "addonId" && a.addonId != "") ||
                                (name == "firstPartyDomain" && a.firstPartyDomain != ""))
            && (o.Done? ==>
                  && o.value.appId == (if name == "appId" then v.value % UINT32 else a.appId)
                  && o.value.inIsolatedMozBrowser == (name == "inBrowser" || a.inIsolatedMozBrowser)
                  && o.value.addonId == (if name == "addonId" then text else a.addonId)
                  && o.value.userContextId == (if name == "userContextId" then v.value % UINT32 else a.userContextId)
                  && o.value.privateBrowsingId ==
                     (if name == "privateBrowsingId" then v.value else a.privateBrowsingId)
                  && o.value.firstPartyDomain == (if name == "firstPartyDomain" then text else a.firstPartyDomain))
  {
  }

  /** What `PopulateFromSuffix` makes of attributes. */
  function Populated(numbers: Numbers, a: Attributes, s: string): Outcome<Attributes> {
    if s == "" then Done(a)
    else if s[0] != '^' then Rejected
    else AppliedAll(numbers, a.(privateBrowsingId := 0), Parse(s[1..]))
  }

  lemma {:induction false} ApplyAppend(numbers: Numbers, a: Attributes, p: seq<Param>, q: seq<Param>)
    ensures AppliedAll(numbers, a, p + q) ==
            var r := AppliedAll(numbers, a, p); if r.Done? then AppliedAll(numbers, r.value, q) else r
    decreases |p|
  {
    if p == [] {
      assert p + q == q;
    } else {
      assert (p + q)[0] == p[0] && (p + q)[1..] == p[1..] + q;
      var r := Applied(numbers, a, p[0]);
      if r.Done? { ApplyAppend(numbers, r.value, p[1..], q); }
    }
  }

  /** Attributes with whatever others do not leave at its default. */
  function Over(a: Attributes, b: Attributes): Attributes {
    Attributes(if b.appId != 0 then b.appId else a.appId,
               a.inIsolatedMozBrowser || b.inIsolatedMozBrowser,
               if b.addonId != "" then b.addonId else a.addonId,
               if b.userContextId != 0 then b.userContextId else a.userContextId,
               if b.privateBrowsingId != 0 then b.privateBrowsingId else a.privateBrowsingId,
               if b.firstPartyDomain != "" then b.firstPartyDomain else a.firstPartyDomain)
  }

  /** A text would be filled in where there is one already. */
  predicate Clash(a: Attributes, b: Attributes) {
    (a.addonId != "" && b.addonId != "") || (a.firstPartyDomain != "" && b.firstPartyDomain != "")
  }

  lemma {:induction false} ParamsApply(numbers: Numbers, a: Attributes, b: Attributes)
    requires numbers.Lawful()
    ensures AppliedAll(numbers, a, Params(numbers, b)) == if Clash(a, b) then Crashed else Done(Over(a, b))
  {
    var p1, p2 := NumberParam(numbers, "appId", b.appId), FlagParam("inBrowser", b.inIsolatedMozBrowser);
    var p3, p4 := TextParam("addonId", b.addonId), NumberParam(numbers, "userContextId", b.userContextId);
    var p5, p6 := NumberParam(numbers, "privateBrowsingId", b.privateBrowsingId),
        TextParam("firstPartyDomain", b.firstPartyDomain);
    var o := Over(a, b);
    var a1 := a.(appId := o.appId);
    var a2 := a1.(inIsolatedMozBrowser := o.inIsolatedMozBrowser);
    var a3 := a2.(addonId := o.addonId);
    var a4 := a3.(userContextId := o.userContextId);
    var a5 := a4.(privateBrowsingId := o.privateBrowsingId);
    OneNumber(numbers, a, b.appId);
    OneNumber(numbers, a3, b.userContextId);
    OneNumber(numbers, a4, b.privateBrowsingId);
    OneFlag(numbers, a1, b.inIsolatedMozBrowser);
    OneText(numbers, a2, b.addonId);
    OneText(numbers, a5, b.firstPartyDomain);
    hide Applied;
    hide AppliedAll;
    hide NumberParam;
    hide FlagParam;
    hide TextParam;
    ApplyAppend(numbers, a, p1, p2);
    ApplyAppend(numbers, a, p1 + p2, p3);
    ApplyAppend(numbers, a, p1 + p2 + p3, p4);
    ApplyAppend(numbers, a, p1 + p2 + p3 + p4, p5);
    ApplyAppend(numbers, a, p1 + p2 + p3 + p4 + p5, p6);
  }

  lemma {:induction false} OneNumber(numbers: Numbers, a: Attributes, n: uint32)
    requires numbers.Lawful()
    ensures AppliedAll(numbers, a, NumberParam(numbers, "appId", n)) == Done(if n == 0 then a else a.(appId := n))
    ensures AppliedAll(numbers, a, NumberParam(numbers, "userContextId", n)) ==
            Done(if n == 0 then a else a.(userContextId := n))
    ensures AppliedAll(numbers, a, NumberParam(numbers, "privateBrowsingId", n)) ==
            Done(if n == 0 then a else a.(privateBrowsingId := n))
  {
  }

  lemma {:induction false} OneFlag(numbers: Numbers, a: Attributes, on: bool)
    ensures AppliedAll(numbers, a, FlagParam("inBrowser", on)) ==
            Done(if on then a.(inIsolatedMozBrowser := true) else a)
  {
  }

  lemma {:induction false} OneText(numbers: Numbers, a: Attributes, text: string)
    ensures AppliedAll(numbers, a, TextParam("addonId", text)) ==
            if text == "" then Done(a) else if a.addonId == "" then Done(a.(addonId := text)) else Crashed
    ensures AppliedAll(numbers, a, TextParam("firstPartyDomain", text)) ==
            if text == "" then Done(a)
            else if a.firstPartyDomain == "" then Done(a.(firstPartyDomain := text)) else Crashed
  {
  }

  /** Filling any attributes in from a suffix: what the suffix leaves out stays, except the private browsing id, which
      is the suffix's, and the program stops at a text that is there already. */
  lemma {:induction false} SuffixFills(numbers: Numbers, a: Attributes, b: Attributes)
    requires numbers.Lawful() && AttributesAreBytes(b)
    ensures Populated(numbers, a, Suffix(numbers, b)) ==
            if b == DEFAULTS then Done(a)
            else if Clash(a, b) then Crashed
            else Done(Over(a, b).(privateBrowsingId := b.privateBrowsingId))
  {
    ParamsAreBytes(numbers, b);
    var params := Params(numbers, b);
    ParseSerialize(params);
    var text := Serialize(params);
    if text == "" {
      assert params == [];
    } else {
      assert ("^" + text)[1..] == text;
      ParamsApply(numbers, a.(privateBrowsingId := 0), b);
    }
  }

  /** The suffix round trip: filling defaults in from a suffix gives the attributes back. */
  lemma {:induction false} SuffixRoundTrip(numbers: Numbers, a: Attributes)
    requires numbers.Lawful() && AttributesAreBytes(a)
    ensures Populated(numbers, DEFAULTS, Suffix(numbers, a)) == Done(a)
  {
    hide Populated;
    hide Suffix;
    SuffixFills(numbers, DEFAULTS, a);
  }

  /** Every pair with an ampersand in front of it. */
  function Amped(params: seq<Param>): string
    requires AreBytes(params)
  {
    if params == [] then "" else "&" + EncodeParam(params[0]) + Amped(params[1..])
  }

  lemma {:induction false} AmpedIsSerialized(params: seq<Param>)
    requires AreBytes(params)
    ensures Amped(params) == if params == [] then "" else "&" + Serialize(params)
  {
    hide EncodeParam;
    if params != [] {
      AmpedIsSerialized(params[1..]);
    }
  }

  lemma {:induction false} AmpedJoin(p: seq<Param>, q: seq<Param>)
    requires AreBytes(p) && AreBytes(q)
    ensures AreBytes(p + q) && Amped(p + q) == Amped(p) + Amped(q)
  {
    hide EncodeParam;
    if p == [] {
      assert p + q == q;
    } else {
      assert (p + q)[0] == p[0] && (p + q)[1..] == p[1..] + q;
      AmpedJoin(p[1..], q);
    }
  }

  lemma {:induction false} SuffixIsText(numbers: Numbers, a: Attributes)
    requires numbers.Lawful() && AttributesAreBytes(a)
    ensures var params := Params(numbers, a);
            && AreBytes(params) && (params == [] <==> a == DEFAULTS)
            && Suffix(numbers, a) == (if params == [] then "" else "^" + Amped(params)[1..])
  {
    var params := Params(numbers, a);
    ParamsAreBytes(numbers, a);
    ParamsApply(numbers, DEFAULTS, a);
    assert Params(numbers, DEFAULTS) == [];
    AmpedIsSerialized(params);
    ParseSerialize(params);
    assert params != [] ==> Serialize(params) != "" && ("&" + Serialize(params))[1..] == Serialize(params);
    hide Serialize;
    hide Parse;
    hide AppliedAll;
    hide IsBytes;
  }

  /** One attribute in a suffix. */
  function Spelled(name: string, present: bool, text: string): string
    requires IsBytes(text)
  {
    if present then "&" + name + "=" + Encode(text) else ""
  }

  predicate AllPlain(name: string) {
    forall i :: 0 <= i < |name| ==> IsPlain(name[i])
  }

  lemma {:induction false} OneIsSpelled(name: string, present: bool, text: string)
    requires IsBytes(name) && IsBytes(text) && AllPlain(name)
    ensures var p := if present then [(name, text)] else []; AreBytes(p) && Amped(p) == Spelled(name, present, text)
  {
    EncodeIsPlain(name);
    hide Encode;
  }

  lemma {:induction false} SixAmped(p1: seq<Param>, p2: seq<Param>, p3: seq<Param>, p4: seq<Param>, p5: seq<Param>,
                                    p6: seq<Param>)
    requires AreBytes(p1) && AreBytes(p2) && AreBytes(p3) && AreBytes(p4) && AreBytes(p5) && AreBytes(p6)
    ensures AreBytes(p1 + p2 + p3 + p4 + p5 + p6)
    ensures Amped(p1 + p2 + p3 + p4 + p5 + p6) ==
            Amped(p1) + Amped(p2) + Amped(p3) + Amped(p4) + Amped(p5) + Amped(p6)
  {
    hide AreBytes;
    hide Amped;
    AmpedJoin(p1, p2);
    AmpedJoin(p1 + p2, p3);
    AmpedJoin(p1 + p2 + p3, p4);
    AmpedJoin(p1 + p2 + p3 + p4, p5);
    AmpedJoin(p1 + p2 + p3 + p4 + p5, p6);
  }

  lemma {:induction false} NumberSpelled(numbers: Numbers, name: string, n: uint32)
    requires numbers.Lawful() && IsBytes(name) && AllPlain(name)
    ensures IsBytes(numbers.print_(n)) && AreBytes(NumberParam(numbers, name, n))
    ensures Amped(NumberParam(numbers, name, n)) == Spelled(name, n != 0, numbers.print_(n))
  {
    OneIsSpelled(name, n != 0, numbers.print_(n));
    hide Amped;
    hide Spelled;
  }

  lemma {:induction false} NumbersSpelled(numbers: Numbers, a: Attributes)
    requires numbers.Lawful()
    ensures AreBytes(NumberParam(numbers, "appId", a.appId))
    ensures AreBytes(NumberParam(numbers, "userContextId", a.userContextId))
    ensures AreBytes(NumberParam(numbers, "privateBrowsingId", a.privateBrowsingId))
    ensures Amped(NumberParam(numbers, "appId", a.appId)) == Spelled("appId", a.appId != 0, numbers.print_(a.appId))
    ensures Amped(NumberParam(numbers, "userContextId", a.userContextId)) ==
            Spelled("userContextId", a.userContextId != 0, numbers.print_(a.userContextId))
    ensures Amped(NumberParam(numbers, "privateBrowsingId", a.privateBrowsingId)) ==
            Spelled("privateBrowsingId", a.privateBrowsingId != 0, numbers.print_(a.privateBrowsingId))
  {
    hide Amped;
    hide Spelled;
    hide NumberParam;
    NumberSpelled(numbers, "appId", a.appId);
    NumberSpelled(numbers, "userContextId", a.userContextId);
    NumberSpelled(numbers, "privateBrowsingId", a.privateBrowsingId);
  }

  lemma {:induction false} TextsSpelled(a: Attributes)
    requires AttributesAreBytes(a)
    ensures AreBytes(FlagParam("inBrowser", a.inIsolatedMozBrowser))
    ensures AreBytes(TextParam("addonId", a.addonId)) && AreBytes(TextParam("firstPartyDomain", a.firstPartyDomain))
    ensures Amped(FlagParam("inBrowser", a.inIsolatedMozBrowser)) == Spelled("inBrowser", a.inIsolatedMozBrowser, "1")
    ensures Amped(TextParam("addonId", a.addonId)) == Spelled("addonId", a.addonId != "", a.addonId)
    ensures Amped(TextParam("firstPartyDomain", a.firstPartyDomain)) ==
            Spelled("firstPartyDomain", a.firstPartyDomain != "", a.firstPartyDomain)
  {
    hide Amped;
    hide Spelled;
    OneIsSpelled("inBrowser", a.inIsolatedMozBrowser, "1");
    OneIsSpelled("addonId", a.addonId != "", a.addonId);
    OneIsSpelled("firstPartyDomain", a.firstPartyDomain != "", a.firstPartyDomain);
  }

  /** What follows the caret of a suffix, with an ampersand in front. */
  function SpelledOut(numbers: Numbers, a: Attributes): string
    requires numbers.Lawful() && AttributesAreBytes(a)
  {
    Spelled("appId", a.appId != 0, numbers.print_(a.appId)) +
    Spelled("inBrowser", a.inIsolatedMozBrowser, "1") +
    Spelled("addonId", a.addonId != "", a.addonId) +
    Spelled("userContextId", a.userContextId != 0, numbers.print_(a.userContextId)) +
    Spelled("privateBrowsingId", a.privateBrowsingId != 0, numbers.print_(a.privateBrowsingId)) +
    Spelled("firstPartyDomain", a.firstPartyDomain != "", a.firstPartyDomain)
  }

  /** The text of a suffix: a caret, and then the attributes that are not at their defaults, by name, in this order. */
  lemma {:induction false} SuffixSpelled(numbers: Numbers, a: Attributes)
    requires numbers.Lawful() && AttributesAreBytes(a)
    ensures SpelledOut(numbers, a) == "" <==> a == DEFAULTS
    ensures Suffix(numbers, a) == if a == DEFAULTS then "" else "^" + SpelledOut(numbers, a)[1..]
  {
    hide Amped;
    hide Spelled;
    hide Serialize;
    hide Suffix;
    hide NumberParam;
    hide FlagParam;
    hide TextParam;
    hide IsBytes;
    hide AreBytes;
    hide Numbers.Lawful;
    NumbersSpelled(numbers, a);
    TextsSpelled(a);
    SixAmped(NumberParam(numbers, "appId", a.appId), FlagParam("inBrowser", a.inIsolatedMozBrowser),
             TextParam("addonId", a.addonId), NumberParam(numbers, "userContextId", a.userContextId),
             NumberParam(numbers, "privateBrowsingId", a.privateBrowsingId),
             TextParam("firstPartyDomain", a.firstPartyDomain));
    SuffixIsText(numbers, a);
    AmpedIsSerialized(Params(numbers, a));
  }

  /** So different attributes have different suffixes. */
  lemma {:induction false} SuffixInjective(numbers: Numbers, a: Attributes, b: Attributes)
    requires numbers.Lawful() && AttributesAreBytes(a) && AttributesAreBytes(b)
    requires Suffix(numbers, a) == Suffix(numbers, b)
    ensures a == b
  {
    SuffixRoundTrip(numbers, a);
    SuffixRoundTrip(numbers, b);
  }

  /** The last caret of a string, if it has one. */
  function LastCaret(s: string): (r: Option<nat>)
    ensures match r
            case None => '^' !in s
            case Some(i) => i < |s| && s[i] == '^' && '^' !in s[i + 1..]
  {
    if s == "" then None
    else
      var n := |s| - 1;
      if s[n] == '^' then Some(n)
      else
        var r := LastCaret(s[..n]);
        assert s == s[..n] + [s[n]];
        assert r.Some? ==> s[r.value + 1..] == s[..n][r.value + 1..] + [s[n]];
        r
  }

  /** What `PopulateFromOrigin` makes of an origin: the part before the suffix, and the attributes. */
  function Split(numbers: Numbers, a: Attributes, origin: string): (string, Outcome<Attributes>) {
    match LastCaret(origin)
    case None => (origin, Done(a))
    case Some(i) => (origin[..i], Populated(numbers, a, origin[i..]))
  }

  /** An origin with its suffix splits back exactly when the bare origin has no caret or some attribute
      is not at its default. */
  lemma {:induction false} OriginSplitsIff(numbers: Numbers, base: string, a: Attributes)
    requires numbers.Lawful() && AttributesAreBytes(a)
    ensures Split(numbers, DEFAULTS, base + Suffix(numbers, a)) == (base, Done(a)) <==> '^' !in base || a != DEFAULTS
  {
    var suffix := Suffix(numbers, a);
    SuffixRoundTrip(numbers, a);
    SuffixShape(numbers, a);
    if suffix == "" {
      assert base + suffix == base;
    } else {
      CaretAtSuffix(base, suffix);
      assert (base + suffix)[..|base|] == base && (base + suffix)[|base|..] == suffix;
    }
    hide Suffix;
    hide Populated;
    hide LastCaret;
  }

  /** With default attributes nothing is appended, and what follows a caret of the bare origin is read as a suffix. */
  lemma {:induction false} CaretMisleads(numbers: Numbers)
    requires numbers.Lawful()
    ensures Split(numbers, DEFAULTS, "a^b" + Suffix(numbers, DEFAULTS)) == ("a", Rejected)
  {
    SuffixShape(numbers, DEFAULTS);
    CaretBeforeText("a", "b");
    OneUnknownName(numbers);
    hide Suffix;
    hide LastCaret;
    hide Populated;
    var origin := "a" + "^" + "b";
    assert "a^b" + Suffix(numbers, DEFAULTS) == origin;
    assert origin[..1] == "a" && origin[1..] == "^b";
  }

  lemma {:induction false} OneUnknownName(numbers: Numbers)
    ensures Populated(numbers, DEFAULTS, "^b") == Rejected
  {
    var s := "b";
    assert "^b"[1..] == s;
    assert Find(s, '&') == 1 && Find(s, '=') == 1 && s[..1] == s;
    assert ParseParam(s).0 == Decode(s) == "b";
    assert Parse(s) == [ParseParam(s)];
    assert Applied(numbers, DEFAULTS, ParseParam(s)) == Rejected;
  }

  /** Entries have been taken in one by one, up to the first that cannot be, if there is one. */
  ghost predicate Filled(numbers: Numbers, a: Attributes, params: seq<Param>, filled: Attributes, r: Outcome<()>) {
    exists n: nat :: FilledUpTo(numbers, a, params, n, filled, r)
  }

  ghost predicate FilledUpTo(numbers: Numbers, a: Attributes, params: seq<Param>, n: nat, filled: Attributes,
                             r: Outcome<()>) {
    && n <= |params| && (n < |params| <==> !r.Done?)
    && AppliedAll(numbers, a, params[..n]) == Done(filled)
    && (n < |params| ==> r == Verdict(Applied(numbers, filled, params[n])))
  }

  function Verdict(o: Outcome<Attributes>): Outcome<()> {
    match o case Done(_) => Done(()) case Rejected => Rejected case Crashed => Crashed
  }

  lemma {:induction false} CaretAtSuffix(base: string, suffix: string)
    requires suffix != "" && suffix[0] == '^' && '^' !in suffix[1..]
    ensures LastCaret(base + suffix) == Some(|base|)
  {
    CaretBeforeText(base, suffix[1..]);
    assert base + "^" + suffix[1..] == base + suffix;
  }

  /** A suffix is empty for default attributes only, and otherwise has one caret, in front. */
  lemma {:induction false} SuffixShape(numbers: Numbers, a: Attributes)
    requires numbers.Lawful() && AttributesAreBytes(a)
    ensures Suffix(numbers, a) == "" <==> a == DEFAULTS
    ensures Suffix(numbers, a) != "" ==> Suffix(numbers, a)[0] == '^' && '^' !in Suffix(numbers, a)[1..]
  {
    ParamsAreBytes(numbers, a);
    SuffixRoundTrip(numbers, a);
    ParseSerialize(Params(numbers, a));
    var text := Serialize(Params(numbers, a));
    assert ("^" + text)[1..] == text;
    assert Params(numbers, DEFAULTS) == [];
  }

  lemma {:induction false} CaretBeforeText(base: string, text: string)
    requires '^' !in text
    ensures LastCaret(base + "^" + text) == Some(|base|)
  {
    var s := base + "^" + text;
    if text == "" {
      assert s[|s| - 1] == '^';
    } else {
      var n := |text| - 1;
      assert s[..|s| - 1] == base + "^" + text[..n] && s[|s| - 1] == text[n];
      CaretBeforeText(base, text[..n]);
    }
  }

  class Store {
    const numbers: Numbers
    var attributes: Attributes

    constructor (n: Numbers)
      ensures numbers == n && attributes == DEFAULTS
    {
      numbers, attributes := n, DEFAULTS;
    }

    /** Writes the suffix; refuses strings that would break file names. */
    method CreateSuffix() returns (r: Outcome<string>)
      requires numbers.Lawful() && AttributesAreBytes(attributes)
      ensures r == if MaySerialize(attributes) then Done(Suffix(numbers, attributes)) else Crashed
    {
      hide IsBytes;
      var params: seq<Param> := [];
      var a := attributes;
      ghost var p1, p2 := NumberParam(numbers, "appId", a.appId), FlagParam("inBrowser", a.inIsolatedMozBrowser);
      ghost var p3, p4 := TextParam("addonId", a.addonId), NumberParam(numbers, "userContextId", a.userContextId);
      ghost var p5 := NumberParam(numbers, "privateBrowsingId", a.privateBrowsingId);
      if a.appId != 0 {
        params := params + [("appId", numbers.print_(a.appId))];
      }
      assert params == p1;
      if a.inIsolatedMozBrowser {
        params := params + [("inBrowser", "1")];
      }
      assert params == p1 + p2;
      if a.addonId != "" {
        if !IsClean(a.addonId) {
          return Crashed;
        }
        params := params + [("addonId", a.addonId)];
      }
      assert params == p1 + p2 + p3;
      if a.userContextId != 0 {
        params := params + [("userContextId", numbers.print_(a.userContextId))];
      }
      assert params == p1 + p2 + p3 + p4;
      if a.privateBrowsingId != 0 {
        params := params + [("privateBrowsingId", numbers.print_(a.privateBrowsingId))];
      }
      assert params == p1 + p2 + p3 + p4 + p5;
      if a.firstPartyDomain != "" {
        if !IsClean(a.firstPartyDomain) {
          return Crashed;
        }
        params := params + [("firstPartyDomain", a.firstPartyDomain)];
      }
      assert params == Params(numbers, a);
      ParamsAreBytes(numbers, a);
      var value := Serialize(params);
      r := Done(if value != "" then "^" + value else "");
    }

    /** Takes one name and value in; an unknown name or a bad value is refused. */
    method Take(p: Param) returns (r: Outcome<()>)
      modifies this
      ensures var o := Applied(numbers, old(attributes), p);
              attributes == (if o.Done? then o.value else old(attributes)) &&
              r == Verdict(o)
    {
      r := Rejected;
      var v := numbers.read(p.1);
      if p.0 == "appId" {
        if v.None? || v.value >= UINT32 { return; }
        attributes := attributes.(appId := v.value % UINT32);
      } else if p.0 == "inBrowser" {
        if p.1 != "1" { return; }
        attributes := attributes.(inIsolatedMozBrowser := true);
      } else if p.0 == "addonId" {
        if attributes.addonId != "" { return Crashed; }
        attributes := attributes.(addonId := p.1);
      } else if p.0 == "userContextId" {
        if v.None? || v.value >= UINT32 { return; }
        attributes := attributes.(userContextId := v.value % UINT32);
      } else if p.0 == "privateBrowsingId" {
        if v.None? || v.value < 0 || v.value >= UINT32 { return; }
        attributes := attributes.(privateBrowsingId := v.value);
      } else if p.0 == "firstPartyDomain" {
        if attributes.firstPartyDomain != "" { return Crashed; }
        attributes := attributes.(firstPartyDomain := p.1);
      } else {
        return;
      }
      r := Done(());
    }

    /** Fills the attributes in from a suffix, stopping at the first entry it cannot take. */
    method PopulateFromSuffix(s: string) returns (r: Outcome<()>)
      modifies this
      ensures var o := Populated(numbers, old(attributes), s);
              r == Verdict(o) && (o.Done? ==> attributes == o.value)
      ensures s == "" || s[0] != '^' ==> attributes == old(attributes)
      ensures s != "" && s[0] == '^' ==>
                Filled(numbers, old(attributes).(privateBrowsingId := 0), Parse(s[1..]), attributes, r)
    {
      if s == "" {
        return Done(());
      }
      if s[0] != '^' {
        return Rejected;
      }
      var params := Parse(s[1..]);
      attributes := attributes.(privateBrowsingId := 0);
      ghost var a := attributes;
      for i := 0 to |params|
        invariant AppliedAll(numbers, attributes, params[i..]) == Populated(numbers, old(attributes), s)
        invariant AppliedAll(numbers, a, params[..i]) == Done(attributes)
      {
        assert params[i..][0] == params[i] && params[i..][1..] == params[i + 1..];
        ghost var before := attributes;
        r := Take(params[i]);
        if !r.Done? {
          assert FilledUpTo(numbers, a, params, i, attributes, r);
          return;
        }
        ApplyAppend(numbers, a, params[..i], [params[i]]);
        assert AppliedAll(numbers, before, [params[i]]) == Done(attributes);
        assert params[..i + 1] == params[..i] + [params[i]];
      }
      r := Done(());
      assert params[..|params|] == params;
      assert FilledUpTo(numbers, a, params, |params|, attributes, r);
    }

    /** Splits an origin at its last caret and takes the attributes from what follows. */
    method PopulateFromOrigin(origin: string) returns (originNoSuffix: string, r: Outcome<()>)
      modifies this
      ensures var (base, o) := Split(numbers, old(attributes), origin);
              originNoSuffix == base && r == Verdict(o) && (o.Done? ==> attributes == o.value)
      ensures var pos := LastCaret(origin);
              if pos.None? then attributes == old(attributes)
              else Filled(numbers, old(attributes).(privateBrowsingId := 0), Parse(origin[pos.value + 1..]),
                          attributes, r)
    {
      var pos := LastCaret(origin);
      if pos.None? {
        return origin, Done(());
      }
      originNoSuffix := origin[..pos.value];
      assert origin[pos.value..][1..] == origin[pos.value + 1..];
      r := PopulateFromSuffix(origin[pos.value..]);
    }
  }
}
