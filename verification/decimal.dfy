/**
 Decimal digit strings: the zero-padded fixed-width fields that `strftime` and
 `strptime` use for dates, and the canonical `str(n)` rendering of a natural number
 that the organiser uses for the year folder and the collision counter.
 */
module Decimal {

  /** An ASCII decimal digit. */
  predicate IsDigit(c: char) {
    '0' <= c <= '9'
  }

  predicate AllDigits(s: string) {
    forall i :: 0 <= i < |s| ==> IsDigit(s[i])
  }

  function DigitChar(d: nat): (c: char)
    requires d < 10
    ensures IsDigit(c) && c as int - '0' as int == d
  {
    ('0' as int + d) as char
  }

  function DigitValue(c: char): (d: nat)
    requires IsDigit(c)
    ensures d < 10 && DigitChar(d) == c
  {
    c as int - '0' as int
  }

  function Pow10(n: nat): (p: nat)
    ensures p >= 1
  {
    if n == 0 then 1 else 10 * Pow10(n - 1)
  }

  /** The number a digit string denotes, most significant digit first; leading zeros are allowed. */
  function Value(s: string): (v: nat)
    requires AllDigits(s)
    ensures v < Pow10(|s|)
  {
    if |s| == 0 then 0
    else
      var v' := Value(s[..|s| - 1]);
      assert v' * 10 <= (Pow10(|s| - 1) - 1) * 10;
      v' * 10 + DigitValue(s[|s| - 1])
  }

  /** The last `width` decimal digits of `x`, zero-padded on the left (`%02d`, `%04d`). */
  function Fixed(x: nat, width: nat): (s: string)
    ensures |s| == width && AllDigits(s)
  {
    if width == 0 then [] else Fixed(x / 10, width - 1) + [DigitChar(x % 10)]
  }

  /** Reading back a padded rendering gives the number, when it fits the width. */
  lemma {:induction false} ValueOfFixed(x: nat, width: nat)
    requires x < Pow10(width)
    ensures Value(Fixed(x, width)) == x
  {
    if width > 0 {
      var s := Fixed(x, width);
      assert s[..|s| - 1] == Fixed(x / 10, width - 1);
      ValueOfFixed(x / 10, width - 1);
    }
  }

  /** Every digit string is the padded rendering of its own value. */
  lemma {:induction false} FixedOfValue(s: string)
    requires AllDigits(s)
    ensures Fixed(Value(s), |s|) == s
  {
    if |s| > 0 {
      var init := s[..|s| - 1];
      FixedOfValue(init);
      assert Value(s) / 10 == Value(init);
      assert Value(s) % 10 == DigitValue(s[|s| - 1]);
      assert s == init + [s[|s| - 1]];
    }
  }

  lemma FixedInjective(x: nat, y: nat, width: nat)
    requires x < Pow10(width) && y < Pow10(width)
    requires Fixed(x, width) == Fixed(y, width)
    ensures x == y
  {
    ValueOfFixed(x, width);
    ValueOfFixed(y, width);
  }

  /** Python's `str(n)` for a natural number: shortest decimal rendering, "0" for zero. */
  function NatToString(n: nat): (s: string)
    ensures |s| >= 1 && AllDigits(s) && Value(s) == n
    ensures s[0] == '0' <==> n == 0
  {
    if n < 10 then [DigitChar(n)]
    else
      var s := NatToString(n / 10) + [DigitChar(n % 10)];
      assert s[..|s| - 1] == NatToString(n / 10);
      s
  }

  /** A digit string without a superfluous leading zero is the rendering of its value. */
  predicate IsCanonical(s: string) {
    |s| >= 1 && AllDigits(s) && (s[0] == '0' ==> |s| == 1)
  }

  lemma {:induction false} NatToStringOfValue(s: string)
    requires IsCanonical(s)
    ensures NatToString(Value(s)) == s
  {
    if |s| > 1 {
      var init := s[..|s| - 1];
      assert init[0] == s[0];
      if Value(init) == 0 {
        NatToStringOfValue(init);
        assert false;
      }
      NatToStringOfValue(init);
      assert Value(s) / 10 == Value(init);
      assert s == init + [s[|s| - 1]];
    } else {
      assert Value(s) == DigitValue(s[0]);
    }
  }

  lemma NatToStringInjective(m: nat, n: nat)
    requires NatToString(m) == NatToString(n)
    ensures m == n
  {
  }
}
