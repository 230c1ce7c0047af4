/**
 * UTF-8 (RFC 3629) as Python's strict codec applies it. A `char` here is a Unicode
 * scalar value, so every string is encodable; decoding may fail.
 */
module Utf8 {
  import opened Wrappers
  import opened ByteStrings

  function EncodeChar(c: char): (bytes: Bytes)
    ensures 1 <= |bytes| <= 4
  {
    var n := c as int;
    if n < 0x80 then [n]
    else if n < 0x800 then [0xC0 + n / 0x40, 0x80 + n % 0x40]
    else if n < 0x10000 then [0xE0 + n / 0x1000, 0x80 + n / 0x40 % 0x40, 0x80 + n % 0x40]
    else [0xF0 + n / 0x40000, 0x80 + n / 0x1000 % 0x40, 0x80 + n / 0x40 % 0x40, 0x80 + n % 0x40]
  }

  function Encode(s: string): Bytes {
    if s == [] then [] else EncodeChar(s[0]) + Encode(s[1..])
  }

  predicate IsTail(b: Byte) { 0x80 <= b < 0xC0 }

  function Tail(b: Byte): int { b as int - 0x80 }

  datatype Step = Char(c: char, size: nat) | Bad

  function ScalarStep(n: int, least: int, size: nat): (r: Step)
    ensures r.Char? ==> r.size == size
  {
    if least <= n && (0 <= n < 0xD800 || 0xE000 <= n < 0x110000) then Char(n as char, size) else Bad
  }

  /** The first character, rejecting overlong forms, surrogates and values past U+10FFFF. */
  function DecodeStep(b: Bytes): (r: Step)
    requires b != []
    ensures r.Char? ==> 1 <= r.size <= |b|
  {
    var lead: int := b[0];
    if lead < 0x80 then Char(lead as char, 1)
    else if 0xC0 <= lead < 0xE0 && |b| >= 2 && IsTail(b[1]) then
      ScalarStep((lead - 0xC0) * 0x40 + Tail(b[1]), 0x80, 2)
    else if 0xE0 <= lead < 0xF0 && |b| >= 3 && IsTail(b[1]) && IsTail(b[2]) then
      ScalarStep((lead - 0xE0) * 0x1000 + Tail(b[1]) * 0x40 + Tail(b[2]), 0x800, 3)
    else if 0xF0 <= lead < 0xF8 && |b| >= 4 && IsTail(b[1]) && IsTail(b[2]) && IsTail(b[3]) then
      ScalarStep((lead - 0xF0) * 0x40000 + Tail(b[1]) * 0x1000 + Tail(b[2]) * 0x40 + Tail(b[3]),
                 0x10000, 4)
    else Bad
  }

  function Decode(b: Bytes): Option<string> {
    if b == [] then Some([]) else
      match DecodeStep(b)
      case Bad => None
      case Char(c, size) =>
        match Decode(b[size..])
        case None => None
        case Some(rest) => Some([c] + rest)
  }

  lemma DecodesOneChar(c: char, rest: Bytes)
    ensures DecodeStep(EncodeChar(c) + rest) == Char(c, |EncodeChar(c)|)
  {
    var n := c as int;
    assert n == n / 0x40 * 0x40 + n % 0x40;
    assert n / 0x40 == n / 0x1000 * 0x40 + n / 0x40 % 0x40;
    assert n / 0x1000 == n / 0x40000 * 0x40 + n / 0x1000 % 0x40;
  }

  lemma DecodeUnfolds(head: Bytes, rest: Bytes, c: char, tail: string)
    requires head != [] && DecodeStep(head + rest) == Char(c, |head|)
    requires Decode(rest) == Some(tail)
    ensures Decode(head + rest) == Some([c] + tail)
  {
    assert (head + rest)[|head|..] == rest;
  }

  lemma {:induction false} DecodeEncode(s: string)
    ensures Decode(Encode(s)) == Some(s)
  {
    if s != [] {
      var head, rest := EncodeChar(s[0]), Encode(s[1..]);
      DecodesOneChar(s[0], rest);
      DecodeEncode(s[1..]);
      DecodeUnfolds(head, rest, s[0], s[1..]);
      assert s == [s[0]] + s[1..];
    }
  }

  lemma EncodeIsInjective(s: string, t: string)
    requires Encode(s) == Encode(t)
    ensures s == t
  {
    DecodeEncode(s);
    DecodeEncode(t);
  }

  /** A decoded character was written in its one valid form. */
  lemma StepIsShortest(b: Bytes)
    requires b != [] && DecodeStep(b).Char?
    ensures EncodeChar(DecodeStep(b).c) == b[..DecodeStep(b).size]
  {
    var c, size := DecodeStep(b).c, DecodeStep(b).size;
    var n := c as int;
    if size == 2 {
      Digits64(b[0] - 0xC0, Tail(b[1]));
    } else if size == 3 {
      Digits64((b[0] - 0xE0) * 0x40 + Tail(b[1]), Tail(b[2]));
      Digits64(b[0] - 0xE0, Tail(b[1]));
    } else if size == 4 {
      Digits64((b[0] - 0xF0) * 0x1000 + Tail(b[1]) * 0x40 + Tail(b[2]), Tail(b[3]));
      Digits64((b[0] - 0xF0) * 0x40 + Tail(b[1]), Tail(b[2]));
      Digits64(b[0] - 0xF0, Tail(b[1]));
    }
  }

  lemma Digits64(high: int, low: int)
    requires 0 <= low < 0x40
    ensures (high * 0x40 + low) / 0x40 == high && (high * 0x40 + low) % 0x40 == low
  {
  }

  /** Strict decoding accepts nothing but encodings: overlong and surrogate forms are refused. */
  lemma {:induction false} EncodeDecode(b: Bytes)
    requires Decode(b).Some?
    ensures Encode(Decode(b).value) == b
  {
    hide EncodeChar, DecodeStep;
    if b != [] {
      var size := DecodeStep(b).size;
      StepIsShortest(b);
      EncodeDecode(b[size..]);
      var s := Decode(b).value;
      assert s[1..] == Decode(b[size..]).value;
      assert b == b[..size] + b[size..];
    }
  }

  predicate IsAscii(s: string) { forall k :: 0 <= k < |s| ==> s[k] as int < 0x80 }

  /** ASCII text is its own UTF-8 encoding. */
  lemma {:induction false} AsciiEncode(s: string)
    requires IsAscii(s)
    ensures |Encode(s)| == |s|
    ensures forall k :: 0 <= k < |s| ==> Encode(s)[k] == s[k] as int
  {
    if s != [] { AsciiEncode(s[1..]); }
  }
}
