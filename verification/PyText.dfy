/** The parts of Python's `str` that validation uses. */
module PyText {
  /** `c.isspace()`. */
  predicate IsSpace(c: char) {
    var n := c as int;
    9 <= n <= 13 || 0x1C <= n <= 0x20 || n == 0x85 || n == 0xA0 || n == 0x1680 ||
    0x2000 <= n <= 0x200A || n == 0x2028 || n == 0x2029 || n == 0x202F || n == 0x205F || n == 0x3000
  }

  /** `s.strip()`. */
  function Strip(s: string): string {
    if s != "" && IsSpace(s[0]) then Strip(s[1..])
    else if s != "" && IsSpace(s[|s| - 1]) then Strip(s[..|s| - 1])
    else s
  }

  predicate IsBlank(s: string) { Strip(s) == "" }

  predicate AllSpace(s: string) { forall k :: 0 <= k < |s| ==> IsSpace(s[k]) }

  /** Neither the first nor the last character is a space. */
  predicate Tight(s: string) { s != "" ==> !IsSpace(s[0]) && !IsSpace(s[|s| - 1]) }

  /** Stripping takes away exactly the spaces at both ends. */
  lemma {:induction false} StripMeaning(s: string) returns (i: nat, j: nat)
    ensures i <= j <= |s| && Strip(s) == s[i..j] && Tight(Strip(s))
    ensures AllSpace(s[..i]) && AllSpace(s[j..])
  {
    hide IsSpace;
    if s != "" && IsSpace(s[0]) {
      i, j := StripMeaning(s[1..]);
      i, j := i + 1, j + 1;
      assert s[..i] == [s[0]] + s[1..][..i - 1];
      assert s[j..] == s[1..][j - 1..] && s[i..j] == s[1..][i - 1..j - 1];
    } else if s != "" && IsSpace(s[|s| - 1]) {
      var front := s[..|s| - 1];
      i, j := StripMeaning(front);
      assert s[j..] == front[j..] + [s[|s| - 1]];
      assert s[..i] == front[..i] && s[i..j] == front[i..j];
    } else {
      i, j := 0, |s|;
      assert s[0..|s|] == s;
    }
  }

  /** Text that is already tight is left alone, and nothing else is; blank text is all spaces. */
  lemma StripKeeps(s: string)
    ensures Strip(s) == s <==> Tight(s)
    ensures IsBlank(s) <==> AllSpace(s)
  {
    hide IsSpace;
    var i, j := StripMeaning(s);
    assert i < j ==> Strip(s)[0] == s[i];
    if IsBlank(s) {
      assert s == s[..i] + s[j..];
      forall k | 0 <= k < |s| ensures IsSpace(s[k]) {
        if k < i { assert s[..i][k] == s[k]; } else { assert s[j..][k - j] == s[k]; }
      }
    }
  }

  /** `c.lower()` on ASCII; a hexadecimal digit has no other form that lowers to it. */
  function LowerChar(c: char): char {
    if 'A' <= c <= 'Z' then (c as int + 32) as char else c
  }

  function Lower(s: string): (r: string)
    ensures |r| == |s|
    ensures forall k :: 0 <= k < |s| ==> r[k] == LowerChar(s[k])
  {
    seq(|s|, k requires 0 <= k < |s| => LowerChar(s[k]))
  }
}
