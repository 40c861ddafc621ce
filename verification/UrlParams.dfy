/** `URLParams`: the application/x-www-form-urlencoded form of a list of names and values (section 5
    of the WHATWG URL Standard). Strings stand for their UTF-8 bytes, one character a byte. */
module UrlParams {

  type Param = (string, string)

  ghost predicate IsBytes(s: string) {
    forall i :: 0 <= i < |s| ==> s[i] < 256 as char
  }

  ghost predicate AreBytes(params: seq<Param>) {
    forall i :: 0 <= i < |params| ==> IsBytes(params[i].0) && IsBytes(params[i].1)
  }

  /** Letters, digits and four marks stand for themselves. */
  predicate IsPlain(c: char) {
    c == '*' || c == '-' || c == '.' || '0' <= c <= '9' || 'A' <= c <= 'Z' || c == '_' || 'a' <= c <= 'z'
  }

  function HexChar(d: nat): (c: char)
    requires d < 16
    ensures IsHex(c) && HexValue(c) == d && IsPlain(c)
  {
    if d < 10 then '0' + d as char else 'A' + (d - 10) as char
  }

  predicate IsHex(c: char) {
    '0' <= c <= '9' || 'A' <= c <= 'F' || 'a' <= c <= 'f'
  }

  function HexValue(c: char): nat
    requires IsHex(c)
  {
    if c <= '9' then (c - '0') as int else if c <= 'F' then (c - 'A') as int + 10 else (c - 'a') as int + 10
  }

  function EncodeByte(c: char): (s: string)
    requires c < 256 as char
    ensures s != ""
  {
    if c == ' ' then "+" else if IsPlain(c) then [c] else ['%', HexChar(c as int / 16), HexChar(c as int % 16)]
  }

  function Encode(s: string): string
    requires IsBytes(s)
  {
    if s == "" then "" else EncodeByte(s[0]) + Encode(s[1..])
  }

  /** A `%` not followed by two hexadecimal digits stands for itself. */
  function Decode(s: string): string {
    if s == "" then ""
    else if s[0] == '+' then " " + Decode(s[1..])
    else if s[0] == '%' && |s| >= 3 && IsHex(s[1]) && IsHex(s[2]) then
      [(HexValue(s[1]) * 16 + HexValue(s[2])) as char] + Decode(s[3..])
    else [s[0]] + Decode(s[1..])
  }

  lemma {:induction false} DecodeEncode(s: string)
    requires IsBytes(s)
    ensures Decode(Encode(s)) == s
  {
    if s != "" {
      var e, rest := EncodeByte(s[0]), Encode(s[1..]);
      DecodeEncode(s[1..]);
      assert (e + rest)[|e|..] == rest;
      assert s == [s[0]] + s[1..];
    }
  }

  /** No separator survives encoding. */
  lemma {:induction false} EncodeHasNoSeparator(s: string, c: char)
    requires IsBytes(s) && (c == '&' || c == '=' || c == '^')
    ensures c !in Encode(s)
  {
    if s != "" {
      EncodeHasNoSeparator(s[1..], c);
    }
  }

  // What the two directions do to each character

  /** Encoded text has no characters but plain ones, `+` and `%`; and text stays as it is exactly when it is plain. */
  lemma {:induction false} EncodeIsPlain(s: string)
    requires IsBytes(s)
    ensures forall c :: c in Encode(s) ==> IsPlain(c) || c == '+' || c == '%'
    ensures Encode(s) == s <==> forall c :: c in s ==> IsPlain(c)
    ensures |Encode(s)| >= |s|
  {
    if s != "" {
      var e, rest := EncodeByte(s[0]), Encode(s[1..]);
      EncodeIsPlain(s[1..]);
      assert s == [s[0]] + s[1..];
      if IsPlain(s[0]) {
        assert Encode(s) == [s[0]] + rest && ([s[0]] + rest)[1..] == rest;
      } else {
        assert s[0] != ' ' ==> |e| == 3;
        assert s[0] == ' ' ==> (e + rest)[0] == '+';
      }
    }
  }

  /** A space becomes `+`, and any other byte that is not plain three characters that spell it in hexadecimal. */
  lemma {:induction false} EncodeSpells(c: char, rest: string)
    requires c < 256 as char && !IsPlain(c) && IsBytes(rest)
    ensures c == ' ' ==> Encode([c] + rest) == "+" + Encode(rest)
    ensures c != ' ' ==>
              exists high, low :: Encode([c] + rest) == ['%', high, low] + Encode(rest) && IsUpperHex(high) &&
                IsUpperHex(low) && HexValue(high) * 16 + HexValue(low) == c as int
  {
    assert ([c] + rest)[1..] == rest;
    var high, low := HexChar(c as int / 16), HexChar(c as int % 16);
    assert c != ' ' ==> EncodeByte(c) == ['%', high, low];
  }

  predicate IsUpperHex(c: char) {
    '0' <= c <= '9' || 'A' <= c <= 'F'
  }

  /** A `%` with two hexadecimal digits behind it. */
  predicate EscapeAt(s: string, i: nat) {
    i + 2 < |s| && s[i] == '%' && IsHex(s[i + 1]) && IsHex(s[i + 2])
  }

  /** Decoding leaves text alone exactly when it has no `+` and no complete escape: a `%` by itself is no error. */
  lemma {:induction false} DecodeIsIdentityIff(s: string)
    ensures |Decode(s)| <= |s|
    ensures Decode(s) == s <==> '+' !in s && forall i: nat :: !EscapeAt(s, i)
  {
    if s != "" {
      var tail := s[1..];
      DecodeIsIdentityIff(tail);
      assert s == [s[0]] + tail;
      if EscapeAt(s, 0) {
        DecodeIsIdentityIff(s[3..]);
      } else {
        EscapesLater(s);
        if s[0] == '+' {
          assert Decode(s)[0] == ' ';
        } else {
          assert Decode(s) == [s[0]] + Decode(tail) && ([s[0]] + Decode(tail))[1..] == Decode(tail);
        }
      }
    }
  }

  lemma {:induction false} EscapesLater(s: string)
    requires s != "" && !EscapeAt(s, 0)
    ensures (forall i: nat :: !EscapeAt(s, i)) <==> (forall i: nat :: !EscapeAt(s[1..], i))
  {
    var tail := s[1..];
    if i: nat :| EscapeAt(s, i) {
      assert EscapeAt(tail, i - 1);
    }
    if i: nat :| EscapeAt(tail, i) {
      assert EscapeAt(s, i + 1);
    }
  }

  function EncodeParam(p: Param): (s: string)
    requires IsBytes(p.0) && IsBytes(p.1)
    ensures s != ""
  {
    Encode(p.0) + "=" + Encode(p.1)
  }

  function Serialize(params: seq<Param>): string
    requires AreBytes(params)
  {
    if params == [] then ""
    else if |params| == 1 then EncodeParam(params[0])
    else EncodeParam(params[0]) + "&" + Serialize(params[1..])
  }

  /** The position of the first `c`, or the length of the string. */
  function Find(s: string, c: char): (i: nat)
    ensures i <= |s| && c !in s[..i] && (i < |s| ==> s[i] == c)
  {
    if s == "" || s[0] == c then 0 else
      var i := Find(s[1..], c) + 1;
      assert s[..i] == [s[0]] + s[1..][..i - 1];
      i
  }

  lemma {:induction false} FindAt(a: string, c: char, b: string)
    requires c !in a
    ensures Find(a + [c] + b, c) == |a| && Find(a, c) == |a|
  {
    if a == "" {
      assert (a + [c] + b)[0] == c;
    } else {
      FindAt(a[1..], c, b);
      assert (a + [c] + b)[0] == a[0] && (a + [c] + b)[1..] == a[1..] + [c] + b;
    }
  }

  function ParseParam(piece: string): Param {
    var j := Find(piece, '=');
    (Decode(piece[..j]), if j < |piece| then Decode(piece[j + 1..]) else "")
  }

  /** Pieces between ampersands; empty ones are skipped. */
  function Parse(s: string): seq<Param>
    decreases |s|
  {
    if s == "" then []
    else
      var i := Find(s, '&');
      var rest := if i < |s| then Parse(s[i + 1..]) else [];
      (if i == 0 then [] else [ParseParam(s[..i])]) + rest
  }

  lemma {:induction false} ParseEncodedParam(p: Param)
    requires IsBytes(p.0) && IsBytes(p.1)
    ensures ParseParam(EncodeParam(p)) == p && '&' !in EncodeParam(p) && '^' !in EncodeParam(p)
  {
    var n, v := Encode(p.0), Encode(p.1);
    EncodeHasNoSeparator(p.0, '=');
    EncodeHasNoSeparator(p.0, '&');
    EncodeHasNoSeparator(p.1, '&');
    EncodeHasNoSeparator(p.0, '^');
    EncodeHasNoSeparator(p.1, '^');
    FindAt(n, '=', v);
    var s := n + ['='] + v;
    assert EncodeParam(p) == s && s[..|n|] == n && s[|n| + 1..] == v;
    DecodeEncode(p.0);
    DecodeEncode(p.1);
  }

  lemma {:induction false} ParseCut(piece: string, rest: string)
    requires '&' !in piece
    ensures Parse(piece + "&" + rest) == Parse(piece) + Parse(rest)
    ensures Parse(piece) == if piece == "" then [] else [ParseParam(piece)]
  {
    var s := piece + ['&'] + rest;
    assert piece + "&" + rest == s;
    FindAt(piece, '&', rest);
    assert s[..|piece|] == piece && s[|piece| + 1..] == rest && piece[..|piece|] == piece;
  }

  /** Parsing goes piece by piece between ampersands, and an empty piece yields nothing. */
  lemma {:induction false} ParseJoin(a: string, b: string)
    ensures Parse(a + "&" + b) == Parse(a) + Parse(b)
    decreases |a|
  {
    hide Parse;
    var i := Find(a, '&');
    hide Find;
    if i < |a| {
      var piece, rest := a[..i], a[i + 1..];
      CutAtSign(a, i, b);
      ParseCut(piece, rest);
      ParseCut(piece, rest + "&" + b);
      ParseJoin(rest, b);
      Grouped(Parse(piece), Parse(rest), Parse(b));
    } else {
      assert a[..i] == a;
      ParseCut(a, b);
    }
  }

  lemma {:induction false} CutAtSign(a: string, i: nat, b: string)
    requires i < |a| && a[i] == '&'
    ensures a == a[..i] + "&" + a[i + 1..]
    ensures a + "&" + b == a[..i] + "&" + (a[i + 1..] + "&" + b)
  {
  }

  lemma {:induction false} Grouped<T>(a: seq<T>, b: seq<T>, c: seq<T>)
    ensures a + b + c == a + (b + c)
  {
  }

  /** Parsing what was serialized gives the list back, and the text has no caret. */
  lemma {:induction false} ParseSerialize(params: seq<Param>)
    requires AreBytes(params)
    ensures Parse(Serialize(params)) == params && '^' !in Serialize(params)
  {
    if params != [] {
      var e := EncodeParam(params[0]);
      ParseEncodedParam(params[0]);
      assert params == [params[0]] + params[1..];
      if |params| == 1 {
        ParseCut(e, "");
      } else {
        ParseSerialize(params[1..]);
        ParseCut(e, Serialize(params[1..]));
      }
      hide Parse;
      hide ParseParam;
      hide EncodeParam;
    }
  }

  /** A piece is a name, and what follows its first `=` is the value; without one the value is empty. */
  lemma {:induction false} ParsePiece(name: string, value: string)
    requires '&' !in name && '&' !in value && '=' !in name
    ensures Parse(name + "=" + value) == [(Decode(name), Decode(value))]
    ensures name != "" ==> Parse(name) == [(Decode(name), "")]
    ensures Parse("") == []
  {
    var s := name + ['='] + value;
    assert name + "=" + value == s;
    FindAt(name, '=', value);
    FindAt(s, '&', "");
    FindAt(name, '&', "");
    assert s[..|name|] == name && s[|name| + 1..] == value && s[..|s|] == s && name[..|name|] == name;
  }
}
