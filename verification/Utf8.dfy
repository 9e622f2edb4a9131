/** UTF-8 as RFC 3629 defines it, for the strings of the binary codec. A `char` is a Unicode scalar
    value. */
module Utf8 {
  import opened Bytes

  function EncodeChar(c: char): (bs: seq<byte>)
    ensures 1 <= |bs| <= 4
  {
    var n := c as int;
    if n < 0x80 then [n]
    else if n < 0x800 then [0xC0 + n / 0x40, 0x80 + n % 0x40]
    else if n < 0x1_0000 then [0xE0 + n / 0x1000, 0x80 + n / 0x40 % 0x40, 0x80 + n % 0x40]
    else [0xF0 + n / 0x4_0000, 0x80 + n / 0x1000 % 0x40, 0x80 + n / 0x40 % 0x40, 0x80 + n % 0x40]
  }

  predicate Continuation(b: byte) {
    0x80 <= b < 0xC0
  }

  predicate Scalar(n: int) {
    0 <= n < 0xD800 || 0xE000 <= n < 0x11_0000
  }

  /** The first character of a byte string and how many bytes it takes; none if the bytes are not the
      shortest form of a scalar value. */
  function DecodeChar(bs: seq<byte>): (r: Option<(char, nat)>)
    ensures r.Some? ==> 1 <= r.value.1 <= |bs|
  {
    if |bs| >= 1 && bs[0] < 0x80 then Some((bs[0] as char, 1))
    else if |bs| >= 2 && 0xC2 <= bs[0] < 0xE0 && Continuation(bs[1]) then
      var n: int := (bs[0] - 0xC0) as int * 0x40 + (bs[1] - 0x80);
      Some((n as char, 2))
    else if |bs| >= 3 && 0xE0 <= bs[0] < 0xF0 && Continuation(bs[1]) && Continuation(bs[2]) then
      var n: int := (bs[0] - 0xE0) as int * 0x1000 + (bs[1] - 0x80) as int * 0x40 + (bs[2] - 0x80);
      if n >= 0x800 && Scalar(n) then Some((n as char, 3)) else None
    else if |bs| >= 4 && 0xF0 <= bs[0] < 0xF5 && Continuation(bs[1]) && Continuation(bs[2]) && Continuation(bs[3]) then
      var n: int := (bs[0] - 0xF0) as int * 0x4_0000 + (bs[1] - 0x80) as int * 0x1000
                    + (bs[2] - 0x80) as int * 0x40 + (bs[3] - 0x80);
      if n >= 0x1_0000 && Scalar(n) then Some((n as char, 4)) else None
    else None
  }

  function Encode(s: string): seq<byte> {
    if s == "" then [] else EncodeChar(s[0]) + Encode(s[1..])
  }

  function Decode(bs: seq<byte>): Option<string>
    decreases |bs|
  {
    if bs == [] then Some("")
    else
      match DecodeChar(bs)
      case None => None
      case Some((c, n)) =>
        match Decode(bs[n..])
        case None => None
        case Some(t) => Some([c] + t)
  }

  lemma DecodeEncodedChar(c: char, rest: seq<byte>)
    ensures DecodeChar(EncodeChar(c) + rest) == Some((c, |EncodeChar(c)|))
  {
    var n := c as int;
    if n >= 0x1_0000 {
      DecodeEncodedFour(c, rest);
    } else if n >= 0x800 {
      DecodeEncodedThree(c, rest);
    } else {
      assert n == n / 0x40 * 0x40 + n % 0x40;
    }
  }

  /** The digits of n to the base 64. */
  lemma Digits(n: nat)
    ensures n == n / 0x1000 * 0x1000 + n / 0x40 % 0x40 * 0x40 + n % 0x40
    ensures n == n / 0x4_0000 * 0x4_0000 + n / 0x1000 % 0x40 * 0x1000 + n / 0x40 % 0x40 * 0x40 + n % 0x40
  {
    var a, b := n / 0x40, n / 0x40 / 0x40;
    TwoDigits(a, n % 0x40);
    TwoDigits(b, a % 0x40);
    assert n == a * 0x40 + n % 0x40;
    assert a == b * 0x40 + a % 0x40;
    assert b == b / 0x40 * 0x40 + b % 0x40;
  }

  lemma DecodeEncodedThree(c: char, rest: seq<byte>)
    requires 0x800 <= c as int < 0x1_0000
    ensures DecodeChar(EncodeChar(c) + rest) == Some((c, 3))
  {
    Digits(c as int);
    var s := EncodeChar(c) + rest;
    assert s[0] == 0xE0 + c as int / 0x1000 && s[1] == 0x80 + c as int / 0x40 % 0x40 && s[2] == 0x80 + c as int % 0x40;
  }

  lemma DecodeEncodedFour(c: char, rest: seq<byte>)
    requires 0x1_0000 <= c as int
    ensures DecodeChar(EncodeChar(c) + rest) == Some((c, 4))
  {
    Digits(c as int);
    var s := EncodeChar(c) + rest;
    assert s[0] == 0xF0 + c as int / 0x4_0000 && s[1] == 0x80 + c as int / 0x1000 % 0x40;
    assert s[2] == 0x80 + c as int / 0x40 % 0x40 && s[3] == 0x80 + c as int % 0x40;
  }

  lemma EncodeDecodedChar(bs: seq<byte>)
    requires DecodeChar(bs).Some?
    ensures var (c, n) := DecodeChar(bs).value; EncodeChar(c) == bs[..n]
  {
    var n := DecodeChar(bs).value.1;
    if n == 2 {
      TwoDigits((bs[0] - 0xC0) as int, bs[1] - 0x80);
    } else if n == 3 {
      TwoDigits((bs[0] - 0xE0) as int * 0x40 + (bs[1] - 0x80), bs[2] - 0x80);
      TwoDigits((bs[0] - 0xE0) as int, bs[1] - 0x80);
    } else if n == 4 {
      EncodeDecodedFour(bs);
    }
  }

  lemma EncodeDecodedFour(bs: seq<byte>)
    requires DecodeChar(bs).Some? && DecodeChar(bs).value.1 == 4
    ensures EncodeChar(DecodeChar(bs).value.0) == bs[..4]
  {
    var top := (bs[0] - 0xF0) as int * 0x40 + (bs[1] - 0x80);
    TwoDigits(top * 0x40 + (bs[2] - 0x80), bs[3] - 0x80);
    TwoDigits(top, bs[2] - 0x80);
    TwoDigits((bs[0] - 0xF0) as int, bs[1] - 0x80);
  }

  lemma TwoDigits(high: int, low: int)
    requires high >= 0 && 0 <= low < 0x40
    ensures (high * 0x40 + low) / 0x40 == high && (high * 0x40 + low) % 0x40 == low
    ensures (high * 0x40 + low) / 0x1000 == high / 0x40
    ensures (high * 0x40 + low) / 0x4_0000 == high / 0x1000
  {
  }

  lemma {:induction false} RoundTrip(s: string)
    ensures Decode(Encode(s)) == Some(s)
  {
    hide EncodeChar, DecodeChar;
    if s == "" {
    } else {
      DecodeEncodedChar(s[0], Encode(s[1..]));
      RoundTrip(s[1..]);
      assert Encode(s)[|EncodeChar(s[0])|..] == Encode(s[1..]);
      assert s == [s[0]] + s[1..];
    }
  }

  /** Only the encoding of a string decodes to it. */
  lemma {:induction false} Inverse(bs: seq<byte>)
    requires Decode(bs).Some?
    ensures Encode(Decode(bs).value) == bs
    decreases |bs|
  {
    hide EncodeChar, DecodeChar;
    if bs == [] {
    } else {
      var (c, n) := DecodeChar(bs).value;
      EncodeDecodedChar(bs);
      Inverse(bs[n..]);
      assert Decode(bs).value[1..] == Decode(bs[n..]).value;
      assert bs == bs[..n] + bs[n..];
    }
  }

  /** The examples of section 7 of RFC 3629, character by character, with ASCII for what it is. */
  lemma RfcExamples(c: char)
    ensures c as int < 0x80 ==> EncodeChar(c) == [c as int]
    ensures EncodeChar('\U{2262}') == [0xE2, 0x89, 0xA2] && EncodeChar('\U{0391}') == [0xCE, 0x91]
    ensures EncodeChar('\U{65E5}') == [0xE6, 0x97, 0xA5] && EncodeChar('\U{233B4}') == [0xF0, 0xA3, 0x8E, 0xB4]
  {
  }
}
