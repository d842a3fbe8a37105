/**
 * The parts of the WHATWG URL Standard that the authorize handler relies on:
 * the percent-encode sets and "percent-encode after encoding" (section 1.3),
 * the application/x-www-form-urlencoded serializer and parser (sections 5.1 and 5.2,
 * as used by URLSearchParams), and the URL `search` setter for a URL that has
 * no query yet (section 6.1, with the query state of the basic URL parser).
 */
module UrlEncoding {
  import opened Wrappers
  import opened Utf8

  const Space: byte := 0x20
  const Percent: byte := 0x25
  const Ampersand: byte := 0x26
  const Plus: byte := 0x2B
  const EqualsSign: byte := 0x3D

  /** A name/value pair of a URLSearchParams list. */
  type Pair = (string, string)

  // ---------------------------------------------------------------------------
  // Percent-encode sets (URL Standard, section 1.3), each built on the previous one.
  // They are stated on bytes: every byte above 0x7E is in the C0 control set, as
  // every non-ASCII code point is.

  predicate InC0ControlSet(b: byte) {
    b <= 0x1F || b > 0x7E
  }

  predicate InQuerySet(b: byte) {
    InC0ControlSet(b) || b == 0x20 || b == 0x22 || b == 0x23 || b == 0x3C || b == 0x3E
  }

  /** Used for the query of a URL with a special scheme such as https. */
  predicate InSpecialQuerySet(b: byte) {
    InQuerySet(b) || b == 0x27
  }

  predicate InPathSet(b: byte) {
    InQuerySet(b) || b == 0x3F || b == 0x60 || b == 0x7B || b == 0x7D
  }

  predicate InUserinfoSet(b: byte) {
    InPathSet(b) || b == 0x2F || b == 0x3A || b == 0x3B || b == 0x3D || b == 0x40
    || (0x5B <= b <= 0x5E) || b == 0x7C
  }

  predicate InComponentSet(b: byte) {
    InUserinfoSet(b) || (0x24 <= b <= 0x26) || b == 0x2B || b == 0x2C
  }

  predicate InFormUrlencodedSet(b: byte) {
    InComponentSet(b) || b == 0x21 || (0x27 <= b <= 0x29) || b == 0x7E
  }

  predicate IsAsciiAlphanumeric(b: byte) {
    (0x30 <= b <= 0x39) || (0x41 <= b <= 0x5A) || (0x61 <= b <= 0x7A)
  }

  /** The bytes the form serializer writes as themselves. */
  predicate IsFormUnreserved(b: byte) {
    IsAsciiAlphanumeric(b) || b == 0x2A || b == 0x2D || b == 0x2E || b == 0x5F
  }

  /** The form-urlencoded set leaves exactly the ASCII alphanumerics and `*-._` unencoded. */
  lemma FormSetComplement(b: byte)
    ensures !InFormUrlencodedSet(b) <==> IsFormUnreserved(b)
  {
  }

  datatype EncodeSet = SpecialQuery | FormUrlencoded

  predicate InEncodeSet(encodeSet: EncodeSet, b: byte) {
    match encodeSet
    case SpecialQuery => InSpecialQuerySet(b)
    case FormUrlencoded => InFormUrlencodedSet(b)
  }

  // ---------------------------------------------------------------------------
  // Hexadecimal digits

  predicate IsAsciiHexDigit(b: byte) {
    (0x30 <= b <= 0x39) || (0x41 <= b <= 0x46) || (0x61 <= b <= 0x66)
  }

  /** The ASCII upper hex digit for a nibble. */
  function UpperHex(n: nat): (d: byte)
    requires n < 16
    ensures IsAsciiHexDigit(d) && IsAsciiAlphanumeric(d)
  {
    if n < 10 then (0x30 + n) as byte else (0x41 + n - 10) as byte
  }

  /** The value of an ASCII hex digit, either case. */
  function HexValue(d: byte): (n: nat)
    requires IsAsciiHexDigit(d)
    ensures n < 16
  {
    if d <= 0x39 then d as int - 0x30
    else if d <= 0x46 then d as int - 0x41 + 10
    else d as int - 0x61 + 10
  }

  lemma HexValueUpperHex(n: nat)
    requires n < 16
    ensures HexValue(UpperHex(n)) == n
  {
  }

  // ---------------------------------------------------------------------------
  // Percent-encoding (URL Standard, section 1.3)

  /** What "percent-encode after encoding" writes for one byte of the UTF-8 encoding. */
  function PercentEncodeByte(b: byte, encodeSet: EncodeSet, spaceAsPlus: bool): (r: seq<byte>)
  {
    if spaceAsPlus && b == Space then [Plus]
    else if InEncodeSet(encodeSet, b) then [Percent, UpperHex(b as int / 16), UpperHex(b as int % 16)]
    else [b]
  }

  function PercentEncodeBytes(bs: seq<byte>, encodeSet: EncodeSet, spaceAsPlus: bool): (r: seq<byte>)
  {
    if bs == [] then [] else PercentEncodeByte(bs[0], encodeSet, spaceAsPlus) + PercentEncodeBytes(bs[1..], encodeSet, spaceAsPlus)
  }

  /** Bytes read as code points of the same value (the standard's "isomorphic decode"). */
  function IsomorphicDecode(bs: seq<byte>): (s: string)
    ensures |s| == |bs| && forall i | 0 <= i < |bs| :: s[i] as int == bs[i] as int
  {
    seq(|bs|, i requires 0 <= i < |bs| => bs[i] as int as char)
  }

  /** Percent-encode after encoding, with UTF-8 as the encoding. */
  function PercentEncodeAfterEncoding(s: string, encodeSet: EncodeSet, spaceAsPlus: bool): string {
    IsomorphicDecode(PercentEncodeBytes(Encode(s), encodeSet, spaceAsPlus))
  }

  /** Percent-decode a byte sequence: `%` and two hex digits stand for one byte; any
      other `%` is kept as it is. */
  function PercentDecode(input: seq<byte>): (r: seq<byte>)
    ensures |r| <= |input|
    decreases |input|
  {
    if input == [] then []
    else if input[0] == Percent && |input| >= 3 && IsAsciiHexDigit(input[1]) && IsAsciiHexDigit(input[2]) then
      [(HexValue(input[1]) * 16 + HexValue(input[2])) as byte] + PercentDecode(input[3..])
    else
      [input[0]] + PercentDecode(input[1..])
  }

  // ---------------------------------------------------------------------------
  // application/x-www-form-urlencoded serializing (URL Standard, section 5.2)

  /** The bytes the form serializer may write inside a name or a value. */
  predicate IsFormComponentOutput(b: byte) {
    IsFormUnreserved(b) || b == Plus || b == Percent
  }

  /** A name or a value: UTF-8, then percent-encoded with the form set, space as `+`. */
  function FormEncode(s: string): (r: seq<byte>)
    ensures forall i | 0 <= i < |r| :: IsFormComponentOutput(r[i])
  {
    FormEncodeAlphabet(Encode(s));
    PercentEncodeBytes(Encode(s), FormUrlencoded, true)
  }

  /** Form percent-encoding writes only ASCII alphanumerics, `*-._`, `+` and `%`. */
  lemma {:induction false} FormEncodeAlphabet(bs: seq<byte>)
    ensures forall i | 0 <= i < |PercentEncodeBytes(bs, FormUrlencoded, true)| ::
              IsFormComponentOutput(PercentEncodeBytes(bs, FormUrlencoded, true)[i])
  {
    if bs != [] {
      var head := PercentEncodeByte(bs[0], FormUrlencoded, true);
      var tail := PercentEncodeBytes(bs[1..], FormUrlencoded, true);
      FormSetComplement(bs[0]);
      FormEncodeAlphabet(bs[1..]);
      assert forall i | 0 <= i < |head| :: IsFormComponentOutput(head[i]);
      assert PercentEncodeBytes(bs, FormUrlencoded, true) == head + tail;
    }
  }

  function SerializePair(p: Pair): (r: seq<byte>) {
    FormEncode(p.0) + [EqualsSign] + FormEncode(p.1)
  }

  /** The serializer's output, `name=value` pairs joined by `&`, as bytes. */
  function SerializeBytes(pairs: seq<Pair>): (r: seq<byte>)
    ensures r == [] <==> pairs == []
  {
    if pairs == [] then []
    else if |pairs| == 1 then SerializePair(pairs[0])
    else SerializePair(pairs[0]) + [Ampersand] + SerializeBytes(pairs[1..])
  }

  /** The bytes the serializer may write anywhere in its output. */
  predicate IsFormOutput(b: byte) {
    IsFormComponentOutput(b) || b == Ampersand || b == EqualsSign
  }

  /** The serializer writes only ASCII alphanumerics, `*-._+%`, `=` and `&`. */
  lemma {:induction false} SerializeBytesAlphabet(pairs: seq<Pair>)
    ensures forall i | 0 <= i < |SerializeBytes(pairs)| :: IsFormOutput(SerializeBytes(pairs)[i])
    decreases |pairs|
  {
    if pairs != [] {
      SerializePairAlphabet(pairs[0]);
      if |pairs| > 1 {
        SerializeBytesAlphabet(pairs[1..]);
        FormOutputJoin(SerializePair(pairs[0]), SerializeBytes(pairs[1..]));
      }
    }
  }

  lemma SerializePairAlphabet(p: Pair)
    ensures forall i | 0 <= i < |SerializePair(p)| :: IsFormOutput(SerializePair(p)[i])
  {
    var n, v := FormEncode(p.0), FormEncode(p.1);
    assert SerializePair(p) == n + [EqualsSign] + v;
  }

  lemma FormOutputJoin(x: seq<byte>, y: seq<byte>)
    requires forall i | 0 <= i < |x| :: IsFormOutput(x[i])
    requires forall i | 0 <= i < |y| :: IsFormOutput(y[i])
    ensures forall i | 0 <= i < |x + [Ampersand] + y| :: IsFormOutput((x + [Ampersand] + y)[i])
  {
  }

  /** The application/x-www-form-urlencoded serializer (URLSearchParams' `toString`). */
  function Serialize(pairs: seq<Pair>): (r: string)
    ensures r == [] <==> pairs == []
    ensures forall i | 0 <= i < |r| :: r[i] as int < 0x80 && !InSpecialQuerySet(r[i] as int as byte)
  {
    SerializeBytesAlphabet(pairs);
    IsomorphicDecode(SerializeBytes(pairs))
  }

  // ---------------------------------------------------------------------------
  // application/x-www-form-urlencoded parsing (URL Standard, section 5.1)

  /** The first position of `x` in `bs`, or |bs| when there is none. */
  function IndexOf(bs: seq<byte>, x: byte): (i: nat)
    ensures i <= |bs|
    ensures i < |bs| ==> bs[i] == x
    ensures forall j | 0 <= j < i :: bs[j] != x
  {
    if bs == [] then 0
    else if bs[0] == x then 0
    else 1 + IndexOf(bs[1..], x)
  }

  function ReplacePlus(bs: seq<byte>): (r: seq<byte>)
    ensures |r| == |bs|
  {
    if bs == [] then [] else [if bs[0] == Plus then Space else bs[0]] + ReplacePlus(bs[1..])
  }

  /** A name or a value: `+` to space, percent-decode, then UTF-8 decode. Decoding here
      fails where the standard would substitute U+FFFD. */
  function FormDecode(bs: seq<byte>): Option<string> {
    Decode(PercentDecode(ReplacePlus(bs)))
  }

  /** One non-empty `&`-separated piece: name before the first `=`, value after it. */
  function ParsePiece(piece: seq<byte>): Option<Pair> {
    var i := IndexOf(piece, EqualsSign);
    var name := piece[..i];
    var value := if i < |piece| then piece[i + 1..] else [];
    match FormDecode(name)
    case None => None
    case Some(n) =>
      match FormDecode(value)
      case None => None
      case Some(v) => Some((n, v))
  }

  /** The form-urlencoded parser over bytes: split on `&`, skip empty pieces. */
  function ParseBytes(input: seq<byte>): Option<seq<Pair>>
    decreases |input|
  {
    var i := IndexOf(input, Ampersand);
    var piece := input[..i];
    var rest := if i < |input| then ParseBytes(input[i + 1..]) else Some([]);
    if piece == [] then rest
    else
      match ParsePiece(piece)
      case None => None
      case Some(p) =>
        match rest
        case None => None
        case Some(ps) => Some([p] + ps)
  }

  /** The form-urlencoded string parser: UTF-8 encode, then parse. */
  function Parse(input: string): Option<seq<Pair>> {
    ParseBytes(Encode(input))
  }

  // ---------------------------------------------------------------------------
  // The round trip: parsing what the serializer wrote gives back the same list.

  lemma PercentDecodeEncodedByte(b: byte, rest: seq<byte>)
    ensures PercentDecode(ReplacePlus(PercentEncodeByte(b, FormUrlencoded, true)) + rest)
            == [b] + PercentDecode(rest)
  {
    var e := PercentEncodeByte(b, FormUrlencoded, true);
    if b == Space {
      assert ReplacePlus(e) == [Space];
      assert ([Space] + rest)[1..] == rest;
    } else if InFormUrlencodedSet(b) {
      var hi, lo := UpperHex(b as int / 16), UpperHex(b as int % 16);
      assert e == [Percent, hi, lo];
      ReplacePlusWithoutPlus(e);
      HexValueUpperHex(b as int / 16);
      HexValueUpperHex(b as int % 16);
      assert (e + rest)[3..] == rest;
    } else {
      assert e == [b] && b != Plus && b != Percent;
      assert ReplacePlus(e) == e;
      assert (e + rest)[1..] == rest;
    }
  }

  lemma {:induction false} ReplacePlusWithoutPlus(s: seq<byte>)
    requires forall i | 0 <= i < |s| :: s[i] != Plus
    ensures ReplacePlus(s) == s
  {
    if s != [] {
      ReplacePlusWithoutPlus(s[1..]);
    }
  }

  lemma {:induction false} ReplacePlusAppend(a: seq<byte>, b: seq<byte>)
    ensures ReplacePlus(a + b) == ReplacePlus(a) + ReplacePlus(b)
  {
    if a == [] {
      assert a + b == b;
    } else {
      assert (a + b)[0] == a[0];
      assert (a + b)[1..] == a[1..] + b;
      ReplacePlusAppend(a[1..], b);
    }
  }

  /** `+` to space and percent-decoding undo the form percent-encoding of any bytes. */
  lemma {:induction false} DecodeFormEncodeBytes(bs: seq<byte>)
    ensures PercentDecode(ReplacePlus(PercentEncodeBytes(bs, FormUrlencoded, true))) == bs
  {
    if bs != [] {
      var e := PercentEncodeByte(bs[0], FormUrlencoded, true);
      var tail := PercentEncodeBytes(bs[1..], FormUrlencoded, true);
      ReplacePlusAppend(e, tail);
      PercentDecodeEncodedByte(bs[0], ReplacePlus(tail));
      DecodeFormEncodeBytes(bs[1..]);
    }
  }

  /** A name or value decodes back to the string that was encoded, whatever characters
      it holds (space, `&`, `=`, `+`, `%`, non-ASCII). */
  lemma FormDecodeEncode(s: string)
    ensures FormDecode(FormEncode(s)) == Some(s)
  {
    DecodeFormEncodeBytes(Encode(s));
    DecodeEncode(s);
  }

  lemma IndexOfAfter(a: seq<byte>, x: byte, b: seq<byte>)
    requires forall i | 0 <= i < |a| :: a[i] != x
    ensures IndexOf(a + [x] + b, x) == |a|
  {
    var s := a + [x] + b;
    assert forall j | 0 <= j < |a| :: s[j] == a[j];
    assert s[|a|] == x;
  }

  lemma IndexOfAbsent(a: seq<byte>, x: byte)
    requires forall i | 0 <= i < |a| :: a[i] != x
    ensures IndexOf(a, x) == |a|
  {
  }

  lemma ParseSerializedPair(p: Pair)
    ensures ParsePiece(SerializePair(p)) == Some(p)
  {
    var n, v := FormEncode(p.0), FormEncode(p.1);
    IndexOfAfter(n, EqualsSign, v);
    assert SerializePair(p)[..|n|] == n;
    assert SerializePair(p)[|n| + 1..] == v;
    FormDecodeEncode(p.0);
    FormDecodeEncode(p.1);
  }

  lemma SerializePairShape(p: Pair)
    ensures SerializePair(p) != []
    ensures forall i | 0 <= i < |SerializePair(p)| :: SerializePair(p)[i] != Ampersand
  {
    var n, v := FormEncode(p.0), FormEncode(p.1);
    assert SerializePair(p) == n + [EqualsSign] + v;
  }

  lemma ParseLastPiece(piece: seq<byte>, p: Pair)
    requires piece != [] && forall i | 0 <= i < |piece| :: piece[i] != Ampersand
    requires ParsePiece(piece) == Some(p)
    ensures ParseBytes(piece) == Some([p])
  {
    IndexOfAbsent(piece, Ampersand);
    assert piece[..|piece|] == piece;
    assert [p] + [] == [p];
  }

  lemma ParseFirstPiece(piece: seq<byte>, p: Pair, tail: seq<byte>, ps: seq<Pair>)
    requires piece != [] && forall i | 0 <= i < |piece| :: piece[i] != Ampersand
    requires ParsePiece(piece) == Some(p) && ParseBytes(tail) == Some(ps)
    ensures ParseBytes(piece + [Ampersand] + tail) == Some([p] + ps)
  {
    var input := piece + [Ampersand] + tail;
    IndexOfAfter(piece, Ampersand, tail);
    assert input[..|piece|] == piece;
    assert input[|piece| + 1..] == tail;
  }

  lemma {:induction false} ParseSerializeBytes(pairs: seq<Pair>)
    ensures ParseBytes(SerializeBytes(pairs)) == Some(pairs)
    decreases |pairs|
  {
    if |pairs| == 1 {
      SerializePairShape(pairs[0]);
      ParseSerializedPair(pairs[0]);
      ParseLastPiece(SerializePair(pairs[0]), pairs[0]);
      assert [pairs[0]] == pairs;
    } else if pairs != [] {
      var head, tail := SerializePair(pairs[0]), SerializeBytes(pairs[1..]);
      ParseSerializeBytes(pairs[1..]);
      SerializePairShape(pairs[0]);
      ParseSerializedPair(pairs[0]);
      assert SerializeBytes(pairs) == head + [Ampersand] + tail;
      ParseJoin(head, tail, pairs);
    }
  }

  /** One step of the induction: a first piece that parses to the first pair, then
      `&` and a tail that parses to the rest. */
  lemma ParseJoin(head: seq<byte>, tail: seq<byte>, pairs: seq<Pair>)
    requires pairs != [] && head != [] && forall i | 0 <= i < |head| :: head[i] != Ampersand
    requires ParsePiece(head) == Some(pairs[0]) && ParseBytes(tail) == Some(pairs[1..])
    ensures ParseBytes(head + [Ampersand] + tail) == Some(pairs)
  {
    ParseFirstPiece(head, pairs[0], tail, pairs[1..]);
    assert [pairs[0]] + pairs[1..] == pairs;
  }

  lemma EncodeIsomorphicDecode(bs: seq<byte>)
    requires forall i | 0 <= i < |bs| :: bs[i] < 0x80
    ensures Encode(IsomorphicDecode(bs)) == bs
  {
  }

  /** Parsing the serializer's output gives back exactly the list that was serialized:
      the same names and values, in the same order. */
  lemma ParseSerialize(pairs: seq<Pair>)
    ensures Parse(Serialize(pairs)) == Some(pairs)
  {
    var bs := SerializeBytes(pairs);
    SerializeBytesAlphabet(pairs);
    assert forall i | 0 <= i < |bs| :: bs[i] < 0x80;
    EncodeIsomorphicDecode(bs);
    assert Parse(Serialize(pairs)) == ParseBytes(bs);
    ParseSerializeBytes(pairs);
  }

  /** The serializer never writes two different lists the same way. */
  lemma SerializeInjective(a: seq<Pair>, b: seq<Pair>)
    requires Serialize(a) == Serialize(b)
    ensures a == b
  {
    ParseSerialize(a);
    ParseSerialize(b);
  }

  // ---------------------------------------------------------------------------
  // The `search` setter (URL Standard, section 6.1)

  function RemoveTabAndNewline(s: string): (r: string)
    ensures |r| <= |s|
  {
    if s == [] then []
    else if s[0] == '\t' || s[0] == '\n' || s[0] == '\r' then RemoveTabAndNewline(s[1..])
    else [s[0]] + RemoveTabAndNewline(s[1..])
  }

  /**
   * The serialization of a URL with an https scheme and no query or fragment after
   * its `search` is set to `value`: an empty value leaves it without a query;
   * otherwise one leading `?` is dropped, tabs and newlines are removed and the rest is
   * percent-encoded with the special-query set.
   */
  function WithSearch(href: string, value: string): (r: string)
    ensures value == [] <==> r == href
    ensures value != [] ==> |r| > |href| && r[..|href| + 1] == href + "?"
  {
    if value == [] then href
    else
      var input := if value[0] == '?' then value[1..] else value;
      href + "?" + PercentEncodeAfterEncoding(RemoveTabAndNewline(input), SpecialQuery, false)
  }

  lemma {:induction false} PercentEncodeBytesIdentity(bs: seq<byte>)
    requires forall i | 0 <= i < |bs| :: !InSpecialQuerySet(bs[i])
    ensures PercentEncodeBytes(bs, SpecialQuery, false) == bs
  {
    if bs != [] {
      PercentEncodeBytesIdentity(bs[1..]);
    }
  }

  lemma {:induction false} RemoveTabAndNewlineIdentity(s: string)
    requires forall i | 0 <= i < |s| :: s[i] != '\t' && s[i] != '\n' && s[i] != '\r'
    ensures RemoveTabAndNewline(s) == s
  {
    if s != [] {
      RemoveTabAndNewlineIdentity(s[1..]);
    }
  }

  /** Setting `search` to the serializer's output stores it exactly: `?` followed by
      the serialized list, with nothing re-encoded. */
  lemma SearchKeepsSerialization(href: string, pairs: seq<Pair>)
    requires pairs != []
    ensures WithSearch(href, Serialize(pairs)) == href + "?" + Serialize(pairs)
  {
    var bs := SerializeBytes(pairs);
    var s := Serialize(pairs);
    SerializeBytesAlphabet(pairs);
    assert forall i | 0 <= i < |bs| :: bs[i] < 0x80 && !InSpecialQuerySet(bs[i]);
    assert forall i | 0 <= i < |s| :: s[i] != '\t' && s[i] != '\n' && s[i] != '\r' && s[i] != '?';
    RemoveTabAndNewlineIdentity(s);
    EncodeIsomorphicDecode(bs);
    PercentEncodeBytesIdentity(bs);
  }
}
