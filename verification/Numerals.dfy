/** Decimal numerals: Python's `str(n)` and `int(raw)` on ASCII byte strings. */
module Numerals {
  import opened Wrappers
  import opened ByteStrings

  const ZERO: Byte := 48
  const PLUS: Byte := 43
  const MINUS: Byte := 45
  const UNDERSCORE: Byte := 95

  predicate IsDigit(b: Byte) { 48 <= b <= 57 }

  predicate AllDigits(s: Bytes) { forall k :: 0 <= k < |s| ==> IsDigit(s[k]) }

  /** `str(n)` for n >= 0. */
  function Digits(n: nat): (s: Bytes)
    ensures s != [] && AllDigits(s)
  {
    if n < 10 then [ZERO + n] else Digits(n / 10) + [ZERO + n % 10]
  }

  function DigitsValue(s: Bytes): (n: int)
    requires AllDigits(s)
    ensures n >= 0
  {
    if s == [] then 0 else DigitsValue(s[..|s| - 1]) * 10 + (s[|s| - 1] - ZERO)
  }

  /** `str(n)`. */
  function Render(n: int): Bytes {
    if n < 0 then [MINUS] + Digits(-n) else Digits(n)
  }

  lemma {:induction false} ValueOfDigits(n: nat)
    ensures DigitsValue(Digits(n)) == n
  {
    if n >= 10 {
      ValueOfDigits(n / 10);
      assert Digits(n)[..|Digits(n)| - 1] == Digits(n / 10);
    } else {
      assert Digits(n)[..0] == [];
    }
  }

  lemma {:induction false} NoLeadingZero(n: nat)
    ensures Digits(n)[0] == ZERO <==> n == 0
    ensures n == 0 ==> Digits(n) == [ZERO]
  {
    if n >= 10 { NoLeadingZero(n / 10); }
  }

  lemma {:induction false} DigitsOfValue(s: Bytes)
    requires s != [] && AllDigits(s)
    requires s[0] == ZERO ==> |s| == 1
    ensures Digits(DigitsValue(s)) == s
    ensures s[0] != ZERO ==> DigitsValue(s) > 0
  {
    var front := s[..|s| - 1];
    assert s == front + [s[|s| - 1]];
    if front == [] {
      assert DigitsValue(front) == 0;
    } else {
      DigitsOfValue(front);
    }
  }

  // ---- Python's int() on bytes -------------------------------------------------

  /** The six bytes that C's isspace accepts. */
  predicate IsSpaceByte(b: Byte) { b == 32 || 9 <= b <= 13 }

  function TrimLeft(s: Bytes): Bytes {
    if s != [] && IsSpaceByte(s[0]) then TrimLeft(s[1..]) else s
  }

  function TrimRight(s: Bytes): Bytes {
    if s != [] && IsSpaceByte(s[|s| - 1]) then TrimRight(s[..|s| - 1]) else s
  }

  /** Digits, with single underscores allowed between two digits. */
  predicate Grouped(s: Bytes) {
    && s != [] && IsDigit(s[0]) && IsDigit(s[|s| - 1])
    && (forall k :: 0 <= k < |s| ==> IsDigit(s[k]) || s[k] == UNDERSCORE)
    && (forall k :: 0 <= k < |s| - 1 && s[k] == UNDERSCORE ==> s[k + 1] != UNDERSCORE)
  }

  function DropUnderscores(s: Bytes): (r: Bytes)
    ensures (forall k :: 0 <= k < |s| ==> IsDigit(s[k]) || s[k] == UNDERSCORE) ==> AllDigits(r)
  {
    if s == [] then []
    else if s[0] == UNDERSCORE then DropUnderscores(s[1..])
    else [s[0]] + DropUnderscores(s[1..])
  }

  /** The value of a grouped digit string, None if it is not one. */
  function Unsigned(s: Bytes): (r: Option<int>)
    ensures r.Some? ==> r.value >= 0
  {
    if Grouped(s) then Some(DigitsValue(DropUnderscores(s))) else None
  }

  function Negated(r: Option<int>): Option<int> {
    match r
    case None => None
    case Some(n) => Some(-n)
  }

  function Signed(s: Bytes): Option<int> {
    if s != [] && s[0] == MINUS then Negated(Unsigned(s[1..]))
    else if s != [] && s[0] == PLUS then Unsigned(s[1..])
    else Unsigned(s)
  }

  /** `int(raw)`; None is ValueError. */
  function PyInt(raw: Bytes): Option<int> {
    Signed(TrimRight(TrimLeft(raw)))
  }

  /** The textual form `str` prints: an optional minus and digits, no padding. */
  predicate PlainNumeral(raw: Bytes) {
    var digits := if raw != [] && raw[0] == MINUS then raw[1..] else raw;
    digits != [] && AllDigits(digits)
  }

  /** The leading-zero checks that the decoder makes before calling `int`. */
  predicate NoZeroPadding(raw: Bytes) {
    && raw != [] && raw != [MINUS, ZERO]
    && (raw[0] == ZERO ==> raw == [ZERO])
    && !(|raw| >= 2 && raw[0] == MINUS && raw[1] == ZERO)
  }

  lemma {:induction false} NothingToDrop(s: Bytes)
    requires AllDigits(s)
    ensures DropUnderscores(s) == s
  {
    if s != [] { NothingToDrop(s[1..]); assert s == [s[0]] + s[1..]; }
  }

  lemma DigitsAreUnsigned(s: Bytes)
    requires s != [] && AllDigits(s)
    ensures Unsigned(s) == Some(DigitsValue(s))
  {
    NothingToDrop(s);
    assert IsDigit(s[0]) && IsDigit(s[|s| - 1]);
  }

  lemma NothingToTrim(s: Bytes)
    requires s != [] && !IsSpaceByte(s[0]) && !IsSpaceByte(s[|s| - 1])
    ensures TrimRight(TrimLeft(s)) == s
  {
  }

  lemma PlainUnsigned(digits: Bytes)
    requires digits != [] && AllDigits(digits)
    ensures PyInt(digits) == Some(DigitsValue(digits))
  {
    assert IsDigit(digits[0]) && IsDigit(digits[|digits| - 1]);
    NothingToTrim(digits);
    DigitsAreUnsigned(digits);
  }

  lemma PlainNegative(digits: Bytes)
    requires digits != [] && AllDigits(digits)
    ensures PyInt([MINUS] + digits) == Some(-DigitsValue(digits))
  {
    hide TrimLeft, TrimRight, Unsigned, DigitsValue;
    var raw := [MINUS] + digits;
    assert raw[1..] == digits && raw[|raw| - 1] == digits[|digits| - 1];
    assert IsDigit(digits[|digits| - 1]);
    NothingToTrim(raw);
    DigitsAreUnsigned(digits);
  }

  // ---- The other forms that int() takes ----------------------------------------

  predicate AllSpaces(s: Bytes) { forall k :: 0 <= k < |s| ==> IsSpaceByte(s[k]) }

  /** Spaces around a numeral that has none at its ends. */
  lemma TrimmedAround(left: Bytes, s: Bytes, right: Bytes)
    requires AllSpaces(left) && AllSpaces(right)
    requires s != [] && !IsSpaceByte(s[0]) && !IsSpaceByte(s[|s| - 1])
    ensures TrimRight(TrimLeft(left + s + right)) == s
  {
    LeftTrimmed(left, s + right);
    assert left + s + right == left + (s + right);
    RightTrimmed(s, right);
  }

  lemma {:induction false} LeftTrimmed(left: Bytes, rest: Bytes)
    requires AllSpaces(left) && rest != [] && !IsSpaceByte(rest[0])
    ensures TrimLeft(left + rest) == rest
  {
    hide IsSpaceByte;
    if left == [] {
      assert left + rest == rest;
    } else {
      LeftTrimmed(left[1..], rest);
      assert (left + rest)[1..] == left[1..] + rest;
    }
  }

  lemma {:induction false} RightTrimmed(rest: Bytes, right: Bytes)
    requires AllSpaces(right) && rest != [] && !IsSpaceByte(rest[|rest| - 1])
    ensures TrimRight(rest + right) == rest
  {
    hide IsSpaceByte;
    var n := |right|;
    if right == [] {
      assert rest + right == rest;
    } else {
      RightTrimmed(rest, right[..n - 1]);
      assert (rest + right)[..|rest| + n - 1] == rest + right[..n - 1];
    }
  }

  lemma {:induction false} DropBetween(a: Bytes, b: Bytes)
    requires AllDigits(a) && AllDigits(b)
    ensures DropUnderscores(a + [UNDERSCORE] + b) == a + b
  {
    var s := a + [UNDERSCORE] + b;
    if a == [] {
      assert s[1..] == b && a + b == b;
      NothingToDrop(b);
    } else {
      DropBetween(a[1..], b);
      assert s[1..] == a[1..] + [UNDERSCORE] + b;
      assert a + b == [a[0]] + (a[1..] + b);
    }
  }

  /**
   * Besides what `str` prints, `int` takes a plus sign, spaces around the numeral, and single
   * underscores between digits; an underscore at an end, or two in a row, it refuses.
   */
  lemma OtherNumerals(left: Bytes, a: Bytes, b: Bytes, right: Bytes)
    requires AllSpaces(left) && AllSpaces(right)
    requires a != [] && AllDigits(a) && b != [] && AllDigits(b)
    ensures PyInt(left + a + right) == Some(DigitsValue(a))
    ensures PyInt(left + ([PLUS] + a) + right) == Some(DigitsValue(a))
    ensures PyInt(left + ([MINUS] + a) + right) == Some(-DigitsValue(a))
    ensures PyInt(left + (a + [UNDERSCORE] + b) + right) == Some(DigitsValue(a + b))
    ensures PyInt(a + [UNDERSCORE, UNDERSCORE] + b) == None
    ensures PyInt([UNDERSCORE] + a) == None && PyInt(a + [UNDERSCORE]) == None
    ensures PyInt([PLUS, PLUS] + a) == None && PyInt(left) == None
  {
    hide PyInt, DigitsValue, AllSpaces, AllDigits;
    SignedForms(left, a, right);
    UnderscoredForm(left, a, b, right);
    RefusedForms(left, a, b);
  }

  lemma SignedForms(left: Bytes, a: Bytes, right: Bytes)
    requires AllSpaces(left) && AllSpaces(right) && a != [] && AllDigits(a)
    ensures PyInt(left + a + right) == Some(DigitsValue(a))
    ensures PyInt(left + ([PLUS] + a) + right) == Some(DigitsValue(a))
    ensures PyInt(left + ([MINUS] + a) + right) == Some(-DigitsValue(a))
  {
    hide TrimLeft, TrimRight, DigitsValue, AllDigits, AllSpaces, IsSpaceByte, Unsigned;
    TightNumerals(a, a);
    TrimmedAround(left, a, right);
    TrimmedAround(left, [PLUS] + a, right);
    TrimmedAround(left, [MINUS] + a, right);
    assert ([PLUS] + a)[1..] == a && ([MINUS] + a)[1..] == a;
    DigitsAreUnsigned(a);
  }

  lemma UnderscoredForm(left: Bytes, a: Bytes, b: Bytes, right: Bytes)
    requires AllSpaces(left) && AllSpaces(right)
    requires a != [] && AllDigits(a) && b != [] && AllDigits(b)
    ensures AllDigits(a + b)
    ensures PyInt(left + (a + [UNDERSCORE] + b) + right) == Some(DigitsValue(a + b))
  {
    hide TrimLeft, TrimRight, DigitsValue, AllDigits, AllSpaces, IsSpaceByte, Unsigned, Grouped;
    TightNumerals(a, b);
    UnderscoreForms(a, b);
    TrimmedAround(left, a + [UNDERSCORE] + b, right);
  }

  lemma RefusedForms(left: Bytes, a: Bytes, b: Bytes)
    requires AllSpaces(left)
    requires a != [] && AllDigits(a) && b != [] && AllDigits(b)
    ensures PyInt(a + [UNDERSCORE, UNDERSCORE] + b) == None
    ensures PyInt([UNDERSCORE] + a) == None && PyInt(a + [UNDERSCORE]) == None
    ensures PyInt([PLUS, PLUS] + a) == None && PyInt(left) == None
  {
    hide TrimLeft, TrimRight, DigitsValue, DropUnderscores, Grouped, AllDigits, AllSpaces, IsSpaceByte;
    TightNumerals(a, b);
    UnderscoreForms(a, b);
    NothingToTrim(a + [UNDERSCORE, UNDERSCORE] + b);
    NothingToTrim([UNDERSCORE] + a);
    NothingToTrim(a + [UNDERSCORE]);
    NothingToTrim([PLUS, PLUS] + a);
    OnlySpaces(left);
    assert ([PLUS, PLUS] + a)[1..] == [PLUS] + a;
  }

  /** None of these forms has a space at its ends, and only the signed ones begin with a sign. */
  lemma TightNumerals(a: Bytes, b: Bytes)
    requires a != [] && AllDigits(a) && b != [] && AllDigits(b)
    ensures !IsSpaceByte(a[0]) && !IsSpaceByte(a[|a| - 1]) && !IsSpaceByte(b[|b| - 1])
    ensures a[0] != PLUS && a[0] != MINUS
    ensures !IsSpaceByte(PLUS) && !IsSpaceByte(MINUS) && !IsSpaceByte(UNDERSCORE)
    ensures !Grouped([PLUS] + a) && !Grouped([])
  {
    assert IsDigit(a[0]) && IsDigit(a[|a| - 1]) && IsDigit(b[|b| - 1]);
    assert !IsDigit(([PLUS] + a)[0]);
  }

  lemma UnderscoreForms(a: Bytes, b: Bytes)
    requires a != [] && AllDigits(a) && b != [] && AllDigits(b)
    ensures AllDigits(a + b)
    ensures Unsigned(a + [UNDERSCORE] + b) == Some(DigitsValue(a + b))
    ensures !Grouped(a + [UNDERSCORE, UNDERSCORE] + b) && !Grouped([UNDERSCORE] + a) && !Grouped(a + [UNDERSCORE])
  {
    hide DigitsValue, DropUnderscores;
    var s, t := a + [UNDERSCORE] + b, a + [UNDERSCORE, UNDERSCORE] + b;
    DropBetween(a, b);
    assert IsDigit(s[0]) && IsDigit(s[|s| - 1]);
    assert forall k :: |a| < k < |s| ==> s[k] == b[k - |a| - 1];
    assert t[|a|] == UNDERSCORE && t[|a| + 1] == UNDERSCORE;
    assert !IsDigit(([UNDERSCORE] + a)[0]);
    assert !IsDigit((a + [UNDERSCORE])[|a|]);
  }

  lemma {:induction false} OnlySpaces(s: Bytes)
    requires AllSpaces(s)
    ensures TrimRight(TrimLeft(s)) == []
  {
    hide IsSpaceByte;
    if s != [] { OnlySpaces(s[1..]); }
  }

  /** Printing then parsing gives the number back, and passes the decoder's zero checks. */
  lemma RenderParses(n: int)
    ensures PlainNumeral(Render(n)) && NoZeroPadding(Render(n))
    ensures PyInt(Render(n)) == Some(n)
  {
    var m: nat := if n < 0 then -n else n;
    var digits := Digits(m);
    var raw := Render(n);
    NoLeadingZero(m);
    ValueOfDigits(m);
    assert IsDigit(digits[0]);
    if n < 0 {
      assert raw[1..] == digits && raw[1] == digits[0];
      PlainNegative(digits);
    } else {
      PlainUnsigned(digits);
    }
  }

  /**
   * Of the numerals the decoder accepts, exactly the plain ones print back to the same
   * bytes; `+5`, `1_0` and ` 7` are accepted too and do not.
   */
  lemma PrintsBackIffPlain(raw: Bytes)
    requires NoZeroPadding(raw) && PyInt(raw).Some?
    ensures Render(PyInt(raw).value) == raw <==> PlainNumeral(raw)
  {
    RenderParses(PyInt(raw).value);
    if PlainNumeral(raw) {
      var digits := if raw[0] == MINUS then raw[1..] else raw;
      assert IsDigit(digits[0]);
      if raw[0] == MINUS {
        assert raw == [MINUS] + digits && raw[1] == digits[0];
        PlainNegative(digits);
      } else {
        PlainUnsigned(digits);
      }
      DigitsOfValue(digits);
    }
  }
}
