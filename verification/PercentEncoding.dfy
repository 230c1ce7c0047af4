/** Percent-encoding (RFC 3986, sections 2.1 and 2.3) as Python's urllib.parse does it. */
module PercentEncoding {
  import opened Wrappers
  import opened ByteStrings
  import Utf8

  const PERCENT: Byte := 37
  const UPPER: string := "0123456789ABCDEF"

  /** The unreserved characters: letters, digits and `_.-~`. */
  predicate IsUnreserved(c: char) {
    'a' <= c <= 'z' || 'A' <= c <= 'Z' || '0' <= c <= '9' || c == '_' || c == '.' || c == '-' || c == '~'
  }

  function QuoteByte(b: Byte): (r: string)
    ensures |r| == 1 || |r| == 3
  {
    if IsUnreserved(b as char) then [b as char] else ['%', UPPER[b / 16], UPPER[b % 16]]
  }

  /** `quote_from_bytes(bytes, safe="")`. */
  function Quote(bytes: Bytes): string {
    if bytes == [] then "" else QuoteByte(bytes[0]) + Quote(bytes[1..])
  }

  function HexValue(b: Byte): Option<Byte> {
    if 48 <= b <= 57 then Some(b - 48)
    else if 97 <= b <= 102 then Some(b - 87)
    else if 65 <= b <= 70 then Some(b - 55)
    else None
  }

  /** The byte that `%xy` stands for at the front of b, if it is one. */
  function Escape(b: Bytes): (r: Option<Byte>)
    ensures r.Some? ==> |b| >= 3 && b[0] == PERCENT
  {
    if |b| >= 3 && b[0] == PERCENT && HexValue(b[1]).Some? && HexValue(b[2]).Some?
       && HexValue(b[1]).value < 16 && HexValue(b[2]).value < 16
    then Some(HexValue(b[1]).value * 16 + HexValue(b[2]).value) else None
  }

  /** `unquote_to_bytes` on encoded text; a `%` that starts no escape stays. */
  function Unquote(b: Bytes): Bytes {
    if b == [] then []
    else if Escape(b).Some? then [Escape(b).value] + Unquote(b[3..])
    else [b[0]] + Unquote(b[1..])
  }

  /** The characters of percent-encoded text, numbers and event names. */
  predicate IsQuoted(s: string) { forall k :: 0 <= k < |s| ==> IsUnreserved(s[k]) || s[k] == '%' }

  /** Bytes that stand for unreserved characters are left as they are. */
  lemma {:induction false} QuoteKeepsUnreserved(bytes: Bytes)
    requires forall k :: 0 <= k < |bytes| ==> IsUnreserved(bytes[k] as char)
    ensures |Quote(bytes)| == |bytes|
    ensures forall k :: 0 <= k < |bytes| ==> Quote(bytes)[k] == bytes[k] as char
  {
    hide IsUnreserved;
    if bytes != [] {
      QuoteKeepsUnreserved(bytes[1..]);
      assert QuoteByte(bytes[0]) == [bytes[0] as char];
    }
  }

  /** An escape may be written with hexadecimal digits of either case, and with no others. */
  lemma EscapeDigits(b: Byte, n: Byte)
    ensures HexValue(b) == Some(n) <==>
      n < 16 && (b as char == "0123456789abcdef"[n] || b as char == "0123456789ABCDEF"[n])
  {
    var lower, upper := "0123456789abcdef", "0123456789ABCDEF";
    assert lower == ['0','1','2','3','4','5','6','7','8','9','a','b','c','d','e','f'];
    assert upper == ['0','1','2','3','4','5','6','7','8','9','A','B','C','D','E','F'];
  }

  lemma UpperDigit(n: nat)
    requires n < 16
    ensures UPPER[n] as int < 128 && IsUnreserved(UPPER[n]) && HexValue(UPPER[n] as int) == Some(n)
  {
    assert UPPER == ['0','1','2','3','4','5','6','7','8','9','A','B','C','D','E','F'];
  }

  lemma {:induction false} QuoteIsQuoted(bytes: Bytes)
    ensures IsQuoted(Quote(bytes)) && Utf8.IsAscii(Quote(bytes))
  {
    hide IsUnreserved, QuoteByte;
    if bytes != [] {
      QuoteIsQuoted(bytes[1..]);
      ByteIsQuoted(bytes[0]);
    }
  }

  lemma ByteIsQuoted(b: Byte)
    ensures IsQuoted(QuoteByte(b)) && Utf8.IsAscii(QuoteByte(b))
  {
    hide HexValue;
    UpperDigit(b / 16);
    UpperDigit(b % 16);
  }

  lemma UnquoteStep(b: Byte, rest: Bytes)
    ensures Utf8.IsAscii(QuoteByte(b))
    ensures Unquote(Utf8.Encode(QuoteByte(b)) + rest) == [b] + Unquote(rest)
  {
    hide IsUnreserved, HexValue, Unquote, Escape, Utf8.Encode;
    var text := QuoteByte(b);
    ByteIsQuoted(b);
    Utf8.AsciiEncode(text);
    var code := Utf8.Encode(text);
    if IsUnreserved(b as char) {
      PercentIsReserved();
      assert code == [b];
      PlainStep(b, rest);
    } else {
      var high, low := UPPER[b / 16] as int, UPPER[b % 16] as int;
      UpperDigit(b / 16);
      UpperDigit(b % 16);
      assert code == [PERCENT, high, low];
      EscapeStep(high, low, rest);
    }
  }

  lemma PercentIsReserved()
    ensures !IsUnreserved(PERCENT as char)
  {
  }

  lemma PlainStep(b: Byte, rest: Bytes)
    requires b != PERCENT
    ensures Unquote([b] + rest) == [b] + Unquote(rest)
  {
    assert ([b] + rest)[1..] == rest;
  }

  lemma EscapeStep(high: Byte, low: Byte, rest: Bytes)
    requires HexValue(high).Some? && HexValue(low).Some? && HexValue(high).value < 16 && HexValue(low).value < 16
    ensures Unquote([PERCENT, high, low] + rest) == [HexValue(high).value * 16 + HexValue(low).value] + Unquote(rest)
  {
    hide HexValue;
    var b := [PERCENT, high, low] + rest;
    assert b[3..] == rest;
  }

  lemma {:induction false} EncodeAppend(s: string, t: string)
    ensures Utf8.Encode(s + t) == Utf8.Encode(s) + Utf8.Encode(t)
  {
    hide Utf8.EncodeChar;
    if s == "" {
      assert s + t == t;
    } else {
      EncodeAppend(s[1..], t);
      assert (s + t)[1..] == s[1..] + t;
    }
  }

  /** Unquoting undoes quoting, for all bytes. */
  lemma {:induction false} UnquoteQuote(bytes: Bytes)
    ensures Unquote(Utf8.Encode(Quote(bytes))) == bytes
  {
    if bytes != [] {
      EncodeAppend(QuoteByte(bytes[0]), Quote(bytes[1..]));
      UnquoteStep(bytes[0], Utf8.Encode(Quote(bytes[1..])));
      UnquoteQuote(bytes[1..]);
    }
  }

  /** Text without `%` is left as it is. */
  lemma {:induction false} UnquotePlain(b: Bytes)
    requires PERCENT !in b
    ensures Unquote(b) == b
  {
    if b != [] { UnquotePlain(b[1..]); }
  }
}
