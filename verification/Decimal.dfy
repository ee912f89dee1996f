/** Decimal numbers as text: zero-padded formatting and integer parsing. */
module Decimal {
  import opened Text

  const U32_MAX := 0xFFFF_FFFF

  predicate IsDigit(c: char) {
    '0' <= c <= '9'
  }

  predicate AllDigits(s: string) {
    forall i | 0 <= i < |s| :: IsDigit(s[i])
  }

  function DigitChar(n: nat): char
    requires n < 10
  {
    '0' + n as char
  }

  /** The number written by a string of digits. */
  function Value(s: string): nat
    requires AllDigits(s)
  {
    if s == "" then 0 else 10 * Value(s[..|s| - 1]) + (s[|s| - 1] - '0') as nat
  }

  function Pow10(w: nat): nat {
    if w == 0 then 1 else 10 * Pow10(w - 1)
  }

  function FormatNat(n: nat): (s: string)
    ensures s != "" && AllDigits(s)
    ensures Value(s) == n
    ensures forall w: nat :: w >= 1 && n < Pow10(w) ==> |s| <= w
  {
    if n < 10 then
      assert [DigitChar(n)][..0] == "";
      [DigitChar(n)]
    else
      var s := FormatNat(n / 10) + [DigitChar(n % 10)];
      assert s[..|s| - 1] == FormatNat(n / 10);
      assert forall w: nat | w >= 1 && n < Pow10(w) :: w >= 2 && n / 10 < Pow10(w - 1);
      s
  }

  /** `s` with zeros in front up to width `w`. */
  function ZeroPad(s: string, w: nat): (r: string)
    decreases w - |s|
  {
    if |s| >= w then s else ZeroPad("0" + s, w)
  }

  /** The source's `{:0w}` for a number that is not negative. */
  function Pad(n: nat, w: nat): string {
    ZeroPad(FormatNat(n), w)
  }

  lemma {:induction false} LeadingZero(s: string)
    requires AllDigits(s)
    ensures AllDigits("0" + s) && Value("0" + s) == Value(s)
  {
    var t := "0" + s;
    if s == "" {
      assert t[..|t| - 1] == "";
    } else {
      LeadingZero(s[..|s| - 1]);
      assert t[..|t| - 1] == "0" + s[..|s| - 1];
    }
  }

  lemma {:induction false} ZeroPadKeepsValue(s: string, w: nat)
    requires AllDigits(s)
    ensures var r := ZeroPad(s, w);
            AllDigits(r) && Value(r) == Value(s) && |r| == if |s| >= w then |s| else w
    decreases w - |s|
  {
    if |s| < w {
      LeadingZero(s);
      ZeroPadKeepsValue("0" + s, w);
    }
  }

  /** Padded text is digits only, keeps the value, and has the width whenever the number fits it. */
  lemma PadIsDigits(n: nat, w: nat)
    ensures var s := Pad(n, w); s != "" && AllDigits(s) && Value(s) == n && |s| >= w
    ensures w >= 1 && n < Pow10(w) ==> |Pad(n, w)| == w
  {
    ZeroPadKeepsValue(FormatNat(n), w);
  }

  /** Integer parsing with the range of the target type: an optional sign, then digits. */
  function ParseInt(s: string, lo: int, hi: int): Option<int> {
    var signed := s != "" && (s[0] == '+' || (s[0] == '-' && lo < 0));
    var digits := if signed then s[1..] else s;
    if digits == "" || !AllDigits(digits) then None
    else
      var v := if signed && s[0] == '-' then -(Value(digits) as int) else Value(digits);
      if lo <= v <= hi then Some(v) else None
  }

  /** Parsing inverts padded formatting. */
  lemma ParsePad(n: nat, w: nat, lo: int, hi: int)
    requires lo <= n <= hi
    ensures ParseInt(Pad(n, w), lo, hi) == Some(n)
  {
    PadIsDigits(n, w);
    assert IsDigit(Pad(n, w)[0]);
  }

  /** A plus sign may stand in front, and a minus sign where negative numbers are read; a number out of range and a sign
      alone are refused. */
  lemma ParseSigned(n: nat, w: nat, lo: int, hi: int)
    requires lo <= 0 <= hi
    ensures ParseInt("+" + Pad(n, w), lo, hi) == if n <= hi then Some(n as int) else None
    ensures ParseInt("-" + Pad(n, w), lo, hi) == if lo < 0 && lo + n <= 0 then Some(-(n as int)) else None
    ensures ParseInt(Pad(n, w), lo, hi) == if n <= hi then Some(n as int) else None
    ensures ParseInt("", lo, hi) == ParseInt("+", lo, hi) == ParseInt("-", lo, hi) == None
  {
    hide Pad, Value;
    PadIsDigits(n, w);
    var digits := Pad(n, w);
    assert IsDigit(digits[0]);
    assert ("+" + digits)[1..] == digits && ("-" + digits)[1..] == digits;
    assert "+"[1..] == "" && "-"[1..] == "";
    assert !IsDigit(("-" + digits)[0]) && !IsDigit("-"[0]);
  }
}
