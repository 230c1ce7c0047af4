/** Hexadecimal text of byte strings, and the 20-byte digests that SHA-1 produces. */
module HexText {
  import opened Wrappers
  import opened ByteStrings
  import PyText

  const ALPHABET: string := "0123456789abcdef"

  type Digest = d: Bytes | |d| == 20 witness seq(20, _ => 0)

  /** SHA-1 is a parameter of the model: nothing but its output length is assumed. */
  type Hash = Bytes -> Digest

  /** `data.hex()`: two lower-case digits a byte. */
  function Hex(data: Bytes): (text: string)
    ensures |text| == 2 * |data|
  {
    if data == [] then "" else [ALPHABET[data[0] / 16], ALPHABET[data[0] % 16]] + Hex(data[1..])
  }

  function DigitOf(c: char): Option<nat> {
    if '0' <= c <= '9' then Some(c as int - '0' as int)
    else if 'a' <= c <= 'f' then Some(c as int - 'a' as int + 10)
    else if 'A' <= c <= 'F' then Some(c as int - 'A' as int + 10)
    else None
  }

  predicate IsAsciiSpace(c: char) { c == ' ' || 9 <= c as int <= 13 }

  /** `bytes.fromhex(text)`, which skips ASCII whitespace between bytes; None is ValueError. */
  function FromHex(text: string): Option<Bytes> {
    if text == "" then Some([])
    else if IsAsciiSpace(text[0]) then FromHex(text[1..])
    else if |text| >= 2 && DigitOf(text[0]).Some? && DigitOf(text[1]).Some? &&
            DigitOf(text[0]).value < 16 && DigitOf(text[1]).value < 16 then
      match FromHex(text[2..])
      case None => None
      case Some(rest) => Some([DigitOf(text[0]).value * 16 + DigitOf(text[1]).value] + rest)
    else None
  }

  lemma FromHexStep(a: char, b: char, rest: string)
    requires DigitOf(a).Some? && DigitOf(b).Some? && DigitOf(a).value < 16 && DigitOf(b).value < 16
    requires !IsAsciiSpace(a) && FromHex(rest).Some?
    ensures FromHex([a, b] + rest) == Some([DigitOf(a).value * 16 + DigitOf(b).value] + FromHex(rest).value)
  {
    hide DigitOf, IsAsciiSpace;
    assert ([a, b] + rest)[2..] == rest;
  }

  /** `bytes.fromhex` undoes `hex`. */
  lemma {:induction false} FromHexOfHex(data: Bytes)
    ensures FromHex(Hex(data)) == Some(data)
  {
    hide FromHex, DigitOf, IsAsciiSpace;
    if data == [] {
      assert FromHex("") == Some([]) by { NoText(); }
    } else {
      FromHexOfHex(data[1..]);
      AlphabetDigit(data[0] / 16);
      AlphabetDigit(data[0] % 16);
      FromHexStep(ALPHABET[data[0] / 16], ALPHABET[data[0] % 16], Hex(data[1..]));
      assert data == [data[0]] + data[1..];
    }
  }

  lemma NoText()
    ensures FromHex("") == Some([])
  {
  }

  lemma AlphabetDigit(n: nat)
    requires n < 16
    ensures DigitOf(ALPHABET[n]) == Some(n) && !IsAsciiSpace(ALPHABET[n])
    ensures ALPHABET[n] as int < 128 && !('A' <= ALPHABET[n] <= 'Z')
  {
    assert ALPHABET == ['0','1','2','3','4','5','6','7','8','9','a','b','c','d','e','f'];
  }

  lemma HexIsInjective(a: Bytes, b: Bytes)
    requires Hex(a) == Hex(b)
    ensures a == b
  {
    FromHexOfHex(a);
    FromHexOfHex(b);
  }

  /** `bytes.fromhex` reads letters of either case. */
  lemma {:induction false} FromHexIgnoresCase(text: string)
    ensures FromHex(PyText.Lower(text)) == FromHex(text)
  {
    hide DigitOf, IsAsciiSpace, PyText.LowerChar;
    var lower := PyText.Lower(text);
    if text != "" {
      SameDigit(text[0]);
      assert lower[1..] == PyText.Lower(text[1..]);
      FromHexIgnoresCase(text[1..]);
      if |text| >= 2 {
        SameDigit(text[1]);
        assert lower[2..] == PyText.Lower(text[2..]);
        FromHexIgnoresCase(text[2..]);
      }
    }
  }

  lemma SameDigit(c: char)
    ensures DigitOf(PyText.LowerChar(c)) == DigitOf(c) && IsAsciiSpace(PyText.LowerChar(c)) == IsAsciiSpace(c)
  {
  }

  /** `hex` writes lower-case letters, so lowering its text changes nothing. */
  lemma {:induction false} HexIsLower(data: Bytes)
    ensures PyText.Lower(Hex(data)) == Hex(data)
  {
    if data != [] {
      AlphabetDigit(data[0] / 16);
      AlphabetDigit(data[0] % 16);
      HexIsLower(data[1..]);
      var text := Hex(data);
      assert text == [ALPHABET[data[0] / 16], ALPHABET[data[0] % 16]] + Hex(data[1..]);
      forall k | 0 <= k < |text| ensures PyText.LowerChar(text[k]) == text[k] {
        if k >= 2 { assert text[k] == Hex(data[1..])[k - 2] == PyText.Lower(Hex(data[1..]))[k - 2]; }
      }
    }
  }
}
