/**
 Decimal numerals: printing, zero-padding and parsing.

 A numeral is the shortest string of digits for a number. Padding puts zeros in
 front up to a width and never cuts, so a number that does not fit is printed
 longer. Parsing follows the standard library's for unsigned types: one plus
 sign may come first, there must be a digit, and the value must not be above
 the type's maximum. Printing and padding keep the value, which parsing gives
 back.
 */
module Decimal {
  import opened Common
  import opened ModularPower

  function DigitChar(d: nat): char
    requires d < 10
  {
    (d + 48) as char
  }

  predicate IsDigit(c: char) {
    '0' <= c <= '9'
  }

  ghost predicate AllDigits(s: string) {
    forall i :: 0 <= i < |s| ==> IsDigit(s[i])
  }

  function Numeral(n: nat): (s: string)
    ensures s != [] && AllDigits(s)
  {
    if n < 10 then [DigitChar(n)] else Numeral(n / 10) + [DigitChar(n % 10)]
  }

  /** `{:0width$}` and `padStart(width, '0')`. */
  function ZeroPadded(n: nat, width: nat): string {
    var s := Numeral(n);
    seq(if |s| < width then width - |s| else 0, _ => '0') + s
  }

  function Value(s: string): nat
    requires AllDigits(s)
  {
    if s == [] then 0 else Value(s[..|s| - 1]) * 10 + (s[|s| - 1] as int - 48)
  }

  predicate Digits(s: string) {
    s == [] || (IsDigit(s[0]) && Digits(s[1..]))
  }

  lemma {:induction false} DigitsAll(s: string)
    ensures Digits(s) <==> AllDigits(s)
  {
    if s != [] {
      DigitsAll(s[1..]);
      assert s == [s[0]] + s[1..];
    }
  }

  /** Rust's `parse` for an unsigned type with this maximum: a plus sign may come first. */
  function Parse(s: string, max: nat): Option<nat> {
    var digits := if s != [] && s[0] == '+' then s[1..] else s;
    DigitsAll(digits);
    if digits == [] || !Digits(digits) then None
    else if Value(digits) > max then None
    else Some(Value(digits))
  }

  lemma {:induction false} NumeralValue(n: nat)
    ensures Value(Numeral(n)) == n
  {
    if n >= 10 {
      NumeralValue(n / 10);
      assert Numeral(n)[..|Numeral(n)| - 1] == Numeral(n / 10);
    } else {
      assert Numeral(n)[..0] == [];
    }
  }

  /** Later digits count less. */
  lemma {:induction false} ValueIsPositional(a: string, b: string, c: char)
    requires AllDigits(a) && AllDigits(b) && IsDigit(c)
    ensures Value([c]) == c as int - '0' as int
    ensures AllDigits(a + b) && Value(a + b) == Value(a) * Pow(10, |b|) + Value(b)
    decreases |b|
  {
    assert [c][..0] == [];
    if b == [] {
      assert a + b == a;
    } else {
      var front, last := b[..|b| - 1], b[|b| - 1];
      ValueIsPositional(a, front, c);
      assert (a + b)[..|a + b| - 1] == a + front;
      ShiftedSum(Value(a), Pow(10, |front|), Value(front), last as int - 48);
    }
  }

  lemma ShiftedSum(x: nat, p: nat, y: nat, d: int)
    ensures (x * p + y) * 10 + d == x * (10 * p) + (y * 10 + d)
  {
  }

  /** The numeral of a number has no zero in front, but zero's own. */
  lemma {:induction false} NoLeadingZero(n: nat)
    ensures Numeral(n)[0] == '0' <==> n == 0
    ensures n == 0 ==> Numeral(n) == "0"
  {
    if n >= 10 {
      NoLeadingZero(n / 10);
      assert Numeral(n)[0] == Numeral(n / 10)[0];
    }
  }

  /** A number is read from at least one digit, after one plus sign or none, if it is not above the maximum. */
  lemma ParseMeaning(s: string, max: nat, n: nat)
    ensures Parse(s, max) == Some(n) <==>
            exists body :: (s == body || s == "+" + body) && body != "" && AllDigits(body) && Value(body) == n <= max
  {
    hide Value;
    var digits := if s != [] && s[0] == '+' then s[1..] else s;
    DigitsAll(digits);
    assert digits == s || s == "+" + digits;
    forall body | (s == body || s == "+" + body) && body != "" && AllDigits(body) ensures body == digits {
      if s == body {
        assert IsDigit(s[0]);
      } else {
        assert s[1..] == body;
      }
    }
  }

  lemma ParsePrinted(n: nat, max: nat)
    requires n <= max
    ensures Parse(Numeral(n), max) == Some(n)
  {
    NumeralValue(n);
    DigitsAll(Numeral(n));
    assert IsDigit(Numeral(n)[0]);
  }

  lemma {:induction false} NumeralLength(n: nat, width: nat)
    requires width > 0 && n < Pow(10, width)
    ensures |Numeral(n)| <= width
  {
    assert Pow(10, 1) == 10 * Pow(10, 0);
    if n >= 10 {
      NumeralLength(n / 10, width - 1);
    }
  }

  lemma {:induction false} LeadingZeros(k: nat, s: string)
    requires AllDigits(s)
    ensures AllDigits(seq(k, _ => '0') + s) && Value(seq(k, _ => '0') + s) == Value(s)
    decreases |s|, k
  {
    var zeros := seq(k, _ => '0');
    var all := zeros + s;
    if s != [] {
      assert all[..|all| - 1] == zeros + s[..|s| - 1];
      LeadingZeros(k, s[..|s| - 1]);
    } else if k > 0 {
      assert all[..|all| - 1] == seq(k - 1, _ => '0') + s;
      LeadingZeros(k - 1, s);
    }
  }

  lemma {:induction false} NumeralLonger(n: nat, width: nat)
    requires n >= Pow(10, width)
    ensures |Numeral(n)| > width
  {
    if width > 0 {
      NumeralLonger(n / 10, width - 1);
    }
  }

  /** Padding never changes the value, and gives exactly `width` digits to the numbers that fit. */
  lemma PaddedValue(n: nat, width: nat)
    requires width > 0
    ensures AllDigits(ZeroPadded(n, width)) && Value(ZeroPadded(n, width)) == n
    ensures |ZeroPadded(n, width)| >= width
    ensures |ZeroPadded(n, width)| == width <==> n < Pow(10, width)
  {
    hide Pow, Value, Numeral, AllDigits;
    NumeralValue(n);
    var s := Numeral(n);
    LeadingZeros(if |s| < width then width - |s| else 0, s);
    if n < Pow(10, width) {
      NumeralLength(n, width);
    } else {
      NumeralLonger(n, width);
    }
  }

  /** A number that fits has exactly `width` digits when padded, and keeps its value. */
  lemma PaddedExact(n: nat, width: nat)
    requires width > 0 && n < Pow(10, width)
    ensures |ZeroPadded(n, width)| == width
    ensures AllDigits(ZeroPadded(n, width)) && Value(ZeroPadded(n, width)) == n
  {
    NumeralLength(n, width);
    NumeralValue(n);
    LeadingZeros(width - |Numeral(n)|, Numeral(n));
  }
}
