/**
  Decimal numerals as Python writes and reads them: `str(n)`, the
  zero-padded `f"{n:0Nd}"` field, and `int(s)` on a string.
*/
module Numerals {
  import opened Wrappers
  import opened Text

  predicate IsDigit(c: char) {
    '0' <= c <= '9'
  }

  /** A non-empty run of decimal digits (`s.isdigit()` for ASCII text). */
  predicate AllDigits(s: string) {
    s != [] && forall i :: 0 <= i < |s| ==> IsDigit(s[i])
  }

  function DigitChar(d: nat): (c: char)
    requires d < 10
    ensures IsDigit(c)
  {
    (d + '0' as int) as char
  }

  function DigitValue(c: char): (d: nat)
    requires IsDigit(c)
    ensures d < 10 && DigitChar(d) == c
  {
    c as int - '0' as int
  }

  /** Digit characters are ordered like the digits. */
  lemma DigitCharOrder(d: nat, e: nat)
    requires d < 10 && e < 10
    ensures DigitChar(d) < DigitChar(e) <==> d < e
    ensures DigitChar(d) == DigitChar(e) <==> d == e
  {
  }

  /** `str(n)` for a non-negative `n`: no leading zeros. */
  function NatToString(n: nat): (s: string)
    ensures AllDigits(s)
    ensures |s| == 1 <==> n < 10
    decreases n
  {
    if n < 10 then [DigitChar(n)] else NatToString(n / 10) + [DigitChar(n % 10)]
  }

  /** `str(n)` */
  function IntToString(n: int): string {
    if n < 0 then "-" + NatToString(-n) else NatToString(n)
  }

  /** The value of a string of decimal digits, most significant first. */
  function DigitsValue(s: string): nat
    requires forall i :: 0 <= i < |s| ==> IsDigit(s[i])
    decreases |s|
  {
    if s == [] then 0 else DigitsValue(s[..|s| - 1]) * 10 + DigitValue(s[|s| - 1])
  }

  /** `str(n)` is digits after an optional minus sign, so it holds no other character. */
  lemma IntToStringChars(n: int, c: char)
    requires !IsDigit(c) && c != '-'
    ensures !HasChar(IntToString(n), c)
  {
    var s := IntToString(n);
    var d := NatToString(if n < 0 then -n else n);
    forall i | 0 <= i < |s| ensures s[i] != c {
      if n < 0 && i > 0 { assert s[i] == d[i - 1]; }
    }
  }

  /** Reading back what `NatToString` writes gives the number. */
  lemma {:induction false} NatToStringValue(n: nat)
    ensures DigitsValue(NatToString(n)) == n
    decreases n
  {
    if n >= 10 {
      var s := NatToString(n);
      NatToStringValue(n / 10);
      assert s[..|s| - 1] == NatToString(n / 10);
      assert DigitValue(DigitChar(n % 10)) == n % 10;
    }
  }

  /** `k` zeros; none when `k` is not positive, like `"0" * k`. */
  function Zeros(k: int): (z: string)
    ensures |z| == if k <= 0 then 0 else k
    ensures forall i :: 0 <= i < |z| ==> z[i] == '0'
    decreases k
  {
    if k <= 0 then "" else "0" + Zeros(k - 1)
  }

  /**
    `f"{n:0{width}d}"`: the sign, then zeros, then the digits, at least
    `width` characters in all.
  */
  function PadInt(n: int, width: nat): string {
    if n < 0 then "-" + Zeros(width - 1 - |NatToString(-n)|) + NatToString(-n)
    else Zeros(width - |NatToString(n)|) + NatToString(n)
  }

  /** Below 100, the two-character field is the tens digit and the units digit. */
  lemma Pad2(n: int)
    requires 0 <= n < 100
    ensures PadInt(n, 2) == [DigitChar(n / 10), DigitChar(n % 10)]
  {
    if n >= 10 {
      assert NatToString(n) == NatToString(n / 10) + [DigitChar(n % 10)];
      assert NatToString(n / 10) == [DigitChar(n / 10)];
    } else {
      assert Zeros(1) == "0";
    }
  }

  /** Two digits: `str(n)` for `10 <= n < 100`. */
  lemma TwoDigits(n: nat)
    requires 10 <= n < 100
    ensures NatToString(n) == [DigitChar(n / 10), DigitChar(n % 10)]
  {
    assert NatToString(n / 10) == [DigitChar(n / 10)];
  }

  /** Three digits: `str(n)` for `100 <= n < 1000`. */
  lemma ThreeDigits(n: nat)
    requires 100 <= n < 1000
    ensures NatToString(n) == [DigitChar(n / 100), DigitChar(n / 10 % 10), DigitChar(n % 10)]
  {
    var m := n / 10;
    assert 10 <= m < 100 && m / 10 == n / 100;
    TwoDigits(m);
    assert NatToString(n) == NatToString(m) + [DigitChar(n % 10)];
  }

  /** Below 1000, the three-character field is the three digits. */
  lemma Pad3(n: int)
    requires 0 <= n < 1000
    ensures PadInt(n, 3) == [DigitChar(n / 100), DigitChar(n / 10 % 10), DigitChar(n % 10)]
  {
    if n >= 100 {
      ThreeDigits(n);
    } else if n >= 10 {
      TwoDigits(n);
      assert n / 100 == 0 && n / 10 % 10 == n / 10;
      assert Zeros(1) == "0";
    } else {
      assert n / 100 == 0 && n / 10 % 10 == 0;
      assert Zeros(2) == "00";
    }
  }

  /** A padded field is never empty and holds only digits after an optional minus sign. */
  lemma PadIntShape(n: int, width: nat)
    ensures |PadInt(n, width)| >= 1
    ensures IsDigit(PadInt(n, width)[|PadInt(n, width)| - 1])
    ensures forall i :: 0 <= i < |PadInt(n, width)| ==> IsDigit(PadInt(n, width)[i]) || (i == 0 && PadInt(n, width)[i] == '-')
  {
    var d := NatToString(if n < 0 then -n else n);
    var s := PadInt(n, width);
    if n < 0 {
      var z := Zeros(width - 1 - |d|);
      assert s == "-" + z + d;
      forall i | 0 < i < |s| ensures IsDigit(s[i]) {
        if i <= |z| { assert s[i] == z[i - 1]; } else { assert s[i] == d[i - 1 - |z|]; }
      }
    } else {
      var z := Zeros(width - |d|);
      assert s == z + d;
      forall i | 0 <= i < |s| ensures IsDigit(s[i]) {
        if i < |z| { assert s[i] == z[i]; } else { assert s[i] == d[i - |z|]; }
      }
    }
  }

  /**
    The digits that Python's `int()` accepts after the sign: decimal digits,
    with single underscores allowed between two digits.
  */
  predicate DigitGroups(t: string) {
    && t != []
    && IsDigit(t[0]) && IsDigit(t[|t| - 1])
    && (forall i :: 0 <= i < |t| ==> IsDigit(t[i]) || t[i] == '_')
    && (forall i :: 0 < i < |t| - 1 && t[i] == '_' ==> IsDigit(t[i - 1]) && IsDigit(t[i + 1]))
  }

  /** The digits of `t` with its underscores taken out. */
  function DropUnderscores(t: string): (d: string)
    ensures |d| <= |t|
    ensures (forall i :: 0 <= i < |t| ==> IsDigit(t[i]) || t[i] == '_') ==> forall i :: 0 <= i < |d| ==> IsDigit(d[i])
    decreases |t|
  {
    if t == [] then [] else (if t[0] == '_' then [] else [t[0]]) + DropUnderscores(t[1..])
  }

  lemma {:induction false} DropUnderscoresNone(t: string)
    requires forall i :: 0 <= i < |t| ==> IsDigit(t[i])
    ensures DropUnderscores(t) == t
    decreases |t|
  {
    if t != [] {
      DropUnderscoresNone(t[1..]);
      assert t == [t[0]] + t[1..];
    }
  }

  /** `int(s)` for base 10; `None` where Python raises `ValueError`. */
  function ParseInt(s: string): Option<int> {
    ParseSigned(Strip(s))
  }

  /** `int()` after the surrounding whitespace is gone: an optional sign, then digit groups. */
  function ParseSigned(t: string): Option<int> {
    if t != [] && (t[0] == '-' || t[0] == '+') then
      if DigitGroups(t[1..]) then
        var v: int := DigitsValue(DropUnderscores(t[1..]));
        Some(if t[0] == '-' then -v else v)
      else None
    else if DigitGroups(t) then Some(DigitsValue(DropUnderscores(t)))
    else None
  }

  lemma PlainDigitGroups(d: string)
    requires AllDigits(d)
    ensures DigitGroups(d) && DropUnderscores(d) == d
  {
    DropUnderscoresNone(d);
  }

  lemma NumeralStripped(n: int)
    ensures Stripped(IntToString(n))
  {
    var s := IntToString(n);
    var d := NatToString(if n < 0 then -n else n);
    assert s[|s| - 1] == d[|d| - 1];
    assert IsDigit(s[|s| - 1]);
    assert IsDigit(s[0]) || s[0] == '-';
  }

  /** The sign-free branch of `int()` on a numeral. */
  lemma DigitsParse(d: string, v: nat)
    requires AllDigits(d) && DigitsValue(d) == v
    ensures ParseSigned(d) == Some(v)
  {
    PlainDigitGroups(d);
  }

  /** The minus branch of `int()` on a numeral. */
  lemma NegativeDigitsParse(d: string, v: nat)
    requires AllDigits(d) && DigitsValue(d) == v
    ensures ParseSigned("-" + d) == Some(-(v as int))
  {
    PlainDigitGroups(d);
    var t := "-" + d;
    assert t[0] == '-' && t[1..] == d;
  }

  /** Stripping a numeral leaves it as it is. */
  lemma NumeralUnstripped(n: int)
    ensures Strip(IntToString(n)) == IntToString(n)
  {
    NumeralStripped(n);
    StripStripped(IntToString(n));
  }

  /** `int(str(n)) == n` */
  lemma IntToStringParses(n: int)
    ensures ParseInt(IntToString(n)) == Some(n)
  {
    NumeralUnstripped(n);
    if n < 0 {
      NatToStringValue(-n);
      NegativeDigitsParse(NatToString(-n), -n);
    } else {
      NatToStringValue(n);
      DigitsParse(NatToString(n), n);
    }
  }
}
