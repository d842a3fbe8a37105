/**
 * UTF-8, as the URL Standard uses it. "UTF-8 encode" turns a string of Unicode
 * scalar values into bytes. For the way back the form parser uses "UTF-8 decode
 * without BOM", which substitutes U+FFFD for ill-formed input; here the strict
 * "UTF-8 decode without BOM or fail" stands in for it, failing on any ill-formed
 * sequence (overlong forms, surrogates, values above U+10FFFF, truncated or stray
 * continuation bytes). The two agree on every well-formed input.
 */
module Utf8 {
  import opened Wrappers

  newtype byte = x: int | 0 <= x < 0x100

  predicate IsContinuation(b: byte) {
    0x80 <= b < 0xC0
  }

  /** The bytes of one scalar value: one to four bytes, shortest form. */
  function EncodeScalar(c: char): (r: seq<byte>)
    ensures 1 <= |r| <= 4
    ensures |r| == 1 <==> c as int < 0x80
    ensures |r| == 1 ==> r[0] as int == c as int
    ensures forall i | 1 <= i < |r| :: IsContinuation(r[i])
  {
    var n := c as int;
    if n < 0x80 then
      [n as byte]
    else if n < 0x800 then
      [(0xC0 + n / 0x40) as byte, (0x80 + n % 0x40) as byte]
    else if n < 0x1_0000 then
      [(0xE0 + n / 0x1000) as byte, (0x80 + (n / 0x40) % 0x40) as byte, (0x80 + n % 0x40) as byte]
    else
      [(0xF0 + n / 0x4_0000) as byte, (0x80 + (n / 0x1000) % 0x40) as byte,
       (0x80 + (n / 0x40) % 0x40) as byte, (0x80 + n % 0x40) as byte]
  }

  /** UTF-8 encode. A string of ASCII characters encodes to the same code units, one byte each. */
  function Encode(s: string): (r: seq<byte>)
    ensures |r| >= |s|
    ensures (forall i | 0 <= i < |s| :: s[i] as int < 0x80) ==>
              |r| == |s| && forall i | 0 <= i < |s| :: r[i] as int == s[i] as int
  {
    if s == [] then [] else EncodeScalar(s[0]) + Encode(s[1..])
  }

  /**
   * Reads one scalar value from the front of `b`: the value and the number of bytes
   * it took, or None when the front of `b` is not a well-formed UTF-8 sequence.
   */
  function DecodeScalar(b: seq<byte>): (r: Option<(char, nat)>)
    ensures r.Some? ==> 1 <= r.value.1 <= |b| && r.value.1 <= 4
  {
    if |b| == 0 then None
    else if b[0] < 0x80 then Some((b[0] as int as char, 1))
    else if 0xC2 <= b[0] <= 0xDF then
      if |b| >= 2 && IsContinuation(b[1]) then
        var n := (b[0] as int - 0xC0) * 0x40 + (b[1] as int - 0x80);
        Some((n as char, 2))
      else None
    else if 0xE0 <= b[0] <= 0xEF then
      if |b| >= 3 && IsContinuation(b[1]) && IsContinuation(b[2]) then
        var n := (b[0] as int - 0xE0) * 0x1000 + (b[1] as int - 0x80) * 0x40 + (b[2] as int - 0x80);
        if 0x800 <= n && !(0xD800 <= n <= 0xDFFF) then Some((n as char, 3)) else None
      else None
    else if 0xF0 <= b[0] <= 0xF4 then
      if |b| >= 4 && IsContinuation(b[1]) && IsContinuation(b[2]) && IsContinuation(b[3]) then
        var n := (b[0] as int - 0xF0) * 0x4_0000 + (b[1] as int - 0x80) * 0x1000
                 + (b[2] as int - 0x80) * 0x40 + (b[3] as int - 0x80);
        if 0x1_0000 <= n <= 0x10_FFFF then Some((n as char, 4)) else None
      else None
    else None
  }

  /** UTF-8 decode without BOM or fail. */
  function Decode(b: seq<byte>): (r: Option<string>)
    decreases |b|
  {
    if b == [] then Some([])
    else match DecodeScalar(b)
      case None => None
      case Some((c, k)) =>
        match Decode(b[k..])
        case None => None
        case Some(rest) => Some([c] + rest)
  }

  /** Splitting a value into its low six bits and the rest. */
  lemma SixBits(n: int)
    requires 0 <= n
    ensures n == (n / 0x40) * 0x40 + n % 0x40 && 0 <= n % 0x40 < 0x40
  {
  }

  lemma Digits3(n: int)
    requires 0 <= n
    ensures n == (n / 0x1000) * 0x1000 + ((n / 0x40) % 0x40) * 0x40 + n % 0x40
  {
    SixBits(n);
    SixBits(n / 0x40);
    assert n / 0x40 / 0x40 == n / 0x1000;
  }

  lemma Digits4(n: int)
    requires 0 <= n
    ensures n == (n / 0x4_0000) * 0x4_0000 + ((n / 0x1000) % 0x40) * 0x1000
                 + ((n / 0x40) % 0x40) * 0x40 + n % 0x40
  {
    Digits3(n);
    SixBits(n / 0x1000);
    assert n / 0x1000 / 0x40 == n / 0x4_0000;
  }

  lemma DecodeEncodeScalar2(c: char, rest: seq<byte>)
    requires 0x80 <= c as int < 0x800
    ensures DecodeScalar(EncodeScalar(c) + rest) == Some((c, 2))
  {
    var n := c as int;
    SixBits(n);
    var b := EncodeScalar(c) + rest;
    assert b[0] as int - 0xC0 == n / 0x40 && b[1] as int - 0x80 == n % 0x40;
  }

  lemma DecodeEncodeScalar3(c: char, rest: seq<byte>)
    requires 0x800 <= c as int < 0x1_0000
    ensures DecodeScalar(EncodeScalar(c) + rest) == Some((c, 3))
  {
    var n := c as int;
    Digits3(n);
    var b := EncodeScalar(c) + rest;
    assert b[0] as int - 0xE0 == n / 0x1000;
    assert b[1] as int - 0x80 == (n / 0x40) % 0x40;
    assert b[2] as int - 0x80 == n % 0x40;
  }

  lemma DecodeEncodeScalar4(c: char, rest: seq<byte>)
    requires 0x1_0000 <= c as int
    ensures DecodeScalar(EncodeScalar(c) + rest) == Some((c, 4))
  {
    var n := c as int;
    Digits4(n);
    var b := EncodeScalar(c) + rest;
    assert b[0] as int - 0xF0 == n / 0x4_0000;
    assert b[1] as int - 0x80 == (n / 0x1000) % 0x40;
    assert b[2] as int - 0x80 == (n / 0x40) % 0x40;
    assert b[3] as int - 0x80 == n % 0x40;
  }

  /** The decoder reads back exactly the scalar value the encoder wrote, and no further. */
  lemma DecodeEncodeScalar(c: char, rest: seq<byte>)
    ensures DecodeScalar(EncodeScalar(c) + rest) == Some((c, |EncodeScalar(c)|))
  {
    var n := c as int;
    if n < 0x80 {
    } else if n < 0x800 {
      DecodeEncodeScalar2(c, rest);
    } else if n < 0x1_0000 {
      DecodeEncodeScalar3(c, rest);
    } else {
      DecodeEncodeScalar4(c, rest);
    }
  }

  /** Decoding what was encoded gives the string back. */
  lemma {:induction false} DecodeEncode(s: string)
    ensures Decode(Encode(s)) == Some(s)
  {
    if s != [] {
      var e := EncodeScalar(s[0]);
      var tail := Encode(s[1..]);
      assert Encode(s) == e + tail;
      DecodeEncodeScalar(s[0], tail);
      assert (e + tail)[|e|..] == tail;
      DecodeEncode(s[1..]);
      assert [s[0]] + s[1..] == s;
    }
  }

  lemma EncodeDecodeScalar2(b: seq<byte>)
    requires |b| >= 2 && 0xC2 <= b[0] <= 0xDF && IsContinuation(b[1])
    ensures DecodeScalar(b).Some? && EncodeScalar(DecodeScalar(b).value.0) == b[..2]
  {
    var n := (b[0] as int - 0xC0) * 0x40 + (b[1] as int - 0x80);
    assert n / 0x40 == b[0] as int - 0xC0 && n % 0x40 == b[1] as int - 0x80;
  }

  lemma EncodeDecodeScalar3(b: seq<byte>)
    requires |b| >= 3 && 0xE0 <= b[0] <= 0xEF && IsContinuation(b[1]) && IsContinuation(b[2])
    requires DecodeScalar(b).Some?
    ensures EncodeScalar(DecodeScalar(b).value.0) == b[..3]
  {
    var hi, mid, lo := b[0] as int - 0xE0, b[1] as int - 0x80, b[2] as int - 0x80;
    var n := hi * 0x1000 + mid * 0x40 + lo;
    assert n / 0x40 == hi * 0x40 + mid && n % 0x40 == lo;
    assert (hi * 0x40 + mid) % 0x40 == mid && (hi * 0x40 + mid) / 0x40 == hi;
    assert n / 0x1000 == hi;
  }

  lemma EncodeDecodeScalar4(b: seq<byte>)
    requires |b| >= 4 && 0xF0 <= b[0] <= 0xF4
    requires IsContinuation(b[1]) && IsContinuation(b[2]) && IsContinuation(b[3])
    requires DecodeScalar(b).Some?
    ensures EncodeScalar(DecodeScalar(b).value.0) == b[..4]
  {
    var d3, d2, d1, d0 := b[0] as int - 0xF0, b[1] as int - 0x80, b[2] as int - 0x80, b[3] as int - 0x80;
    var n := d3 * 0x4_0000 + d2 * 0x1000 + d1 * 0x40 + d0;
    var q := d3 * 0x1000 + d2 * 0x40 + d1;
    var p := d3 * 0x40 + d2;
    assert n / 0x40 == q && n % 0x40 == d0;
    assert q / 0x40 == p && q % 0x40 == d1;
    assert p / 0x40 == d3 && p % 0x40 == d2;
    assert n / 0x1000 == p;
    assert n / 0x4_0000 == d3;
  }

  /** A well-formed sequence at the front of `b` is the encoding of the scalar value read. */
  lemma EncodeDecodeScalar(b: seq<byte>)
    requires DecodeScalar(b).Some?
    ensures EncodeScalar(DecodeScalar(b).value.0) == b[..DecodeScalar(b).value.1]
  {
    if b[0] < 0x80 {
    } else if b[0] <= 0xDF {
      EncodeDecodeScalar2(b);
    } else if b[0] <= 0xEF {
      EncodeDecodeScalar3(b);
    } else {
      EncodeDecodeScalar4(b);
    }
  }

  /** Decoding succeeds only on the encoding of its result: the decoder accepts no
      alternative (overlong or otherwise) spelling of a string. */
  lemma {:induction false} EncodeDecode(b: seq<byte>)
    requires Decode(b).Some?
    ensures Encode(Decode(b).value) == b
    decreases |b|
  {
    if b != [] {
      var k := DecodeScalar(b).value.1;
      var c := DecodeScalar(b).value.0;
      DecodeCons(b);
      EncodeDecodeScalar(b);
      EncodeDecode(b[k..]);
      EncodeDecodeStep(b, c, k, Decode(b[k..]).value);
    }
  }

  /** The encodings of a first character and of the rest, each matching its part of
      `b`, make up `b`. */
  lemma EncodeDecodeStep(b: seq<byte>, c: char, k: nat, rest: string)
    requires k <= |b| && EncodeScalar(c) == b[..k] && Encode(rest) == b[k..]
    ensures Encode([c] + rest) == b
  {
    EncodeCons(c, rest);
    assert b[..k] + b[k..] == b;
  }

  /** Decoding a non-empty sequence reads one scalar value and decodes the rest. */
  lemma DecodeCons(b: seq<byte>)
    requires b != [] && Decode(b).Some?
    ensures DecodeScalar(b).Some? && Decode(b[DecodeScalar(b).value.1..]).Some?
    ensures Decode(b).value == [DecodeScalar(b).value.0] + Decode(b[DecodeScalar(b).value.1..]).value
  {
  }

  /** Encoding a string encodes its first character, then the rest. */
  lemma EncodeCons(c: char, s: string)
    ensures Encode([c] + s) == EncodeScalar(c) + Encode(s)
  {
    assert ([c] + s)[1..] == s;
  }
}
