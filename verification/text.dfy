/** The decimal renderings the services interpolate into their messages:
    integers as JavaScript prints them, and an amount in cents as the
    JavaScript `Number` it stands for (`8.5`, `20`, `0.05`). */
module Text {

  predicate IsDigit(c: char) {
    '0' <= c <= '9'
  }

  function DigitChar(d: nat): (c: char)
    requires d < 10
    ensures IsDigit(c)
  {
    "0123456789"[d]
  }

  function DigitValue(c: char): nat
    requires IsDigit(c)
  {
    (c as int - '0' as int) as nat
  }

  /** Decimal digits of `n`, most significant first, no leading zero. */
  function NatToString(n: nat): (s: string)
    ensures |s| > 0
    ensures forall i :: 0 <= i < |s| ==> IsDigit(s[i])
    ensures |s| > 1 ==> s[0] != '0'
    decreases n
  {
    if n < 10 then [DigitChar(n)] else NatToString(n / 10) + [DigitChar(n % 10)]
  }

  /** Reads a string of decimal digits back into a number. */
  function ParseNat(s: string): nat
    requires forall i :: 0 <= i < |s| ==> IsDigit(s[i])
  {
    if |s| == 0 then 0 else ParseNat(s[..|s| - 1]) * 10 + DigitValue(s[|s| - 1])
  }

  lemma DigitRoundTrip(d: nat)
    requires d < 10
    ensures DigitValue(DigitChar(d)) == d
  {
  }

  /** Printing a number and reading it back gives the number. */
  lemma {:induction false} NatToStringRoundTrip(n: nat)
    ensures ParseNat(NatToString(n)) == n
    decreases n
  {
    var s := NatToString(n);
    if n < 10 {
      DigitRoundTrip(n);
    } else {
      NatToStringRoundTrip(n / 10);
      DigitRoundTrip(n % 10);
      assert s[..|s| - 1] == NatToString(n / 10);
    }
  }

  /** JavaScript's rendering of an integer: a minus sign, then the digits. */
  function IntToString(i: int): (s: string)
    ensures i >= 0 ==> s == NatToString(i)
    ensures i < 0 ==> s == "-" + NatToString(-i)
  {
    if i < 0 then "-" + NatToString(-i) else NatToString(i)
  }

  predicate AllDigits(s: string) {
    forall i :: 0 <= i < |s| ==> IsDigit(s[i])
  }

  /** Text that reads as an integer: an optional minus sign, then at least
      one digit. */
  predicate IsIntText(s: string) {
    if |s| > 0 && s[0] == '-' then |s| > 1 && AllDigits(s[1..]) else |s| > 0 && AllDigits(s)
  }

  /** Reads an integer back from its text. */
  function ParseInt(s: string): int
    requires IsIntText(s)
  {
    if s[0] == '-' then -(ParseNat(s[1..]) as int) else ParseNat(s)
  }

  /** A minus sign in front of digits negates their value. */
  lemma ReadNegatedInt(t: string)
    requires |t| > 0 && AllDigits(t)
    ensures IsIntText("-" + t) && ParseInt("-" + t) == -(ParseNat(t) as int)
  {
    assert ("-" + t)[1..] == t;
  }

  /** Printing an integer and reading it back gives the integer, whatever
      its sign. */
  lemma IntToStringRoundTrip(i: int)
    ensures IsIntText(IntToString(i)) && ParseInt(IntToString(i)) == i
  {
    if i < 0 {
      NatToStringRoundTrip(-i);
      ReadNegatedInt(NatToString(-i));
    } else {
      NatToStringRoundTrip(i);
      assert IntToString(i)[0] != '-';
    }
  }

  /** The number of digits after the decimal point: one or two when the
      point is second or third from the end, none otherwise. */
  function FractionLength(s: string): (f: nat)
    ensures f <= 2
  {
    if |s| >= 2 && s[|s| - 2] == '.' then 1
    else if |s| >= 3 && s[|s| - 3] == '.' then 2
    else 0
  }

  /** Where the whole part ends: at the point, or at the end of the text. */
  function WholeLength(s: string): int {
    if FractionLength(s) == 0 then |s| else |s| - FractionLength(s) - 1
  }

  /** Text that reads as a non-negative amount: digits, then optionally a
      point and one or two digits. */
  predicate IsUnsignedAmount(s: string) {
    var p := WholeLength(s);
    && 0 < p <= |s| && AllDigits(s[..p])
    && AllDigits(s[|s| - FractionLength(s)..])
  }

  /** Reads a non-negative amount back into cents. */
  function ParseUnsignedAmount(s: string): nat
    requires IsUnsignedAmount(s)
  {
    var whole := ParseNat(s[..WholeLength(s)]);
    var f := FractionLength(s);
    if f == 0 then whole * 100
    else if f == 1 then whole * 100 + DigitValue(s[|s| - 1]) * 10
    else whole * 100 + DigitValue(s[|s| - 2]) * 10 + DigitValue(s[|s| - 1])
  }

  /** Text that reads as an amount: an optional minus sign, then a
      non-negative amount. */
  predicate IsAmount(s: string) {
    if |s| > 0 && s[0] == '-' then IsUnsignedAmount(s[1..]) else IsUnsignedAmount(s)
  }

  /** Reads an amount back into cents. */
  function ParseAmount(s: string): int
    requires IsAmount(s)
  {
    if |s| > 0 && s[0] == '-' then -(ParseUnsignedAmount(s[1..]) as int) else ParseUnsignedAmount(s)
  }

  /** An amount in cents rendered as the JavaScript number `cents / 100`:
      no trailing zeros in the fraction and no fraction at all for whole
      amounts. */
  function FormatCents(cents: int): (s: string)
    ensures cents >= 0 && cents % 100 == 0 ==> s == NatToString(cents / 100)
    ensures cents < 0 ==> |s| > 0 && s[0] == '-'
  {
    if cents < 0 then "-" + FormatNonNegativeCents(-cents) else FormatNonNegativeCents(cents)
  }

  function FormatNonNegativeCents(cents: nat): (s: string)
    ensures |s| > 0 && IsDigit(s[0])
  {
    var whole := NatToString(cents / 100);
    var frac := cents % 100;
    if frac == 0 then whole
    else if frac % 10 == 0 then whole + "." + [DigitChar(frac / 10)]
    else whole + "." + [DigitChar(frac / 10), DigitChar(frac % 10)]
  }

  /** Digits alone read back as a whole amount. */
  lemma ReadWhole(whole: string)
    requires |whole| > 0 && AllDigits(whole)
    ensures IsUnsignedAmount(whole) && ParseUnsignedAmount(whole) == ParseNat(whole) * 100
    ensures FractionLength(whole) == 0
  {
    assert whole[..|whole|] == whole;
    if |whole| >= 2 {
      assert IsDigit(whole[|whole| - 2]);
    }
    if |whole| >= 3 {
      assert IsDigit(whole[|whole| - 3]);
    }
  }

  /** Digits, a point and one digit read back as the whole part in cents
      plus ten times the digit. */
  lemma ReadTenths(whole: string, d: char)
    requires |whole| > 0 && AllDigits(whole) && IsDigit(d)
    ensures var s := whole + "." + [d];
            && IsUnsignedAmount(s) && FractionLength(s) == 1
            && ParseUnsignedAmount(s) == ParseNat(whole) * 100 + DigitValue(d) * 10
  {
    var s := whole + "." + [d];
    assert s[|s| - 2] == '.';
    assert s[..|whole|] == whole;
    assert s[|s| - 1..] == [d];
  }

  /** Digits, a point and two digits read back as the whole part in cents
      plus the two digits. */
  lemma ReadHundredths(whole: string, d1: char, d2: char)
    requires |whole| > 0 && AllDigits(whole) && IsDigit(d1) && IsDigit(d2)
    ensures var s := whole + "." + [d1, d2];
            && IsUnsignedAmount(s) && FractionLength(s) == 2
            && ParseUnsignedAmount(s) == ParseNat(whole) * 100 + DigitValue(d1) * 10 + DigitValue(d2)
  {
    var s := whole + "." + [d1, d2];
    assert s[|s| - 2] == d1;
    assert s[|s| - 3] == '.';
    assert s[..|whole|] == whole;
    assert s[|s| - 2..] == [d1, d2];
  }

  /** The rendering of a non-negative amount reads back as that amount, and
      its fraction, when there is one, does not end in zero. */
  lemma FormatNonNegativeCentsRoundTrip(cents: nat)
    ensures var s := FormatNonNegativeCents(cents);
            && IsUnsignedAmount(s) && ParseUnsignedAmount(s) == cents
            && (FractionLength(s) > 0 ==> s[|s| - 1] != '0')
  {
    var whole := NatToString(cents / 100);
    var frac := cents % 100;
    assert ParseNat(whole) == cents / 100 by {
      NatToStringRoundTrip(cents / 100);
    }
    if frac == 0 {
      ReadWhole(whole);
    } else if frac % 10 == 0 {
      ReadTenths(whole, DigitChar(frac / 10));
      DigitRoundTrip(frac / 10);
    } else {
      ReadHundredths(whole, DigitChar(frac / 10), DigitChar(frac % 10));
      DigitRoundTrip(frac / 10);
      DigitRoundTrip(frac % 10);
    }
  }

  /** A minus sign in front of a non-negative amount negates it. */
  lemma ReadNegated(t: string)
    requires IsUnsignedAmount(t)
    ensures IsAmount("-" + t) && ParseAmount("-" + t) == -(ParseUnsignedAmount(t) as int)
  {
    assert ("-" + t)[1..] == t;
  }

  /** A non-negative amount that starts with a digit reads as itself. */
  lemma ReadUnsigned(t: string)
    requires IsUnsignedAmount(t) && |t| > 0 && IsDigit(t[0])
    ensures IsAmount(t) && ParseAmount(t) == ParseUnsignedAmount(t) as int
  {
  }

  /** Every amount, negative ones included, reads back from its rendering:
      no two amounts print alike. */
  lemma FormatCentsRoundTrip(cents: int)
    ensures IsAmount(FormatCents(cents)) && ParseAmount(FormatCents(cents)) == cents
  {
    var s := FormatCents(cents);
    if cents < 0 {
      var n: nat := -cents;
      var t := FormatNonNegativeCents(n);
      assert s == "-" + t;
      assert IsUnsignedAmount(t) && ParseUnsignedAmount(t) == n by {
        FormatNonNegativeCentsRoundTrip(n);
      }
      ReadNegated(t);
    } else {
      var t := FormatNonNegativeCents(cents);
      assert s == t;
      assert IsUnsignedAmount(t) && ParseUnsignedAmount(t) == cents by {
        FormatNonNegativeCentsRoundTrip(cents);
      }
      ReadUnsigned(t);
    }
  }

  /** Whole amounts print without a fraction. */
  lemma FormatWholeExample()
    ensures FormatCents(2000) == "20"
  {
    assert NatToString(20) == "20";
  }

  /** A fraction with one significant digit prints one digit. */
  lemma FormatTenthsExamples()
    ensures FormatCents(850) == "8.5"
    ensures FormatCents(1150) == "11.5"
  {
    assert NatToString(8) == "8";
    assert NatToString(11) == "11";
  }

  /** Amounts under one keep the leading zero and both digits. */
  lemma FormatCentsExample()
    ensures FormatCents(5) == "0.05"
  {
    assert NatToString(0) == "0";
  }

  /** Negative amounts carry a minus sign. */
  lemma FormatNegativeExample()
    ensures FormatCents(-250) == "-2.5"
  {
    assert NatToString(2) == "2";
  }
}
