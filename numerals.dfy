/**
 Signed numerals in a radix between 2 and 16, written most significant digit
 first with the digit characters of `HEX_DIGITS`: the text the converter
 produces (bases 2 and 16) and the text Python's `str` gives an `int`
 (base 10). `Numeral` is the reference definition, `ParseNumeral` the
 reading of a signed numeral back into an integer; the lemmas show the two
 are inverse to each other on every integer and on every canonical numeral.
 */
module Numerals {
  import opened Wrappers

  /** `HEX_DIGITS`: the digit for each remainder 0..15, upper case. */
  const HexDigits: string := "0123456789ABCDEF"

  /** A radix the tools write numbers in. */
  predicate IsBase(base: int) {
    2 <= base <= 16
  }

  /** The value of a digit character, -1 for a character that is not one. */
  function DigitValue(c: char): (d: int)
    ensures -1 <= d < 16
    ensures d >= 0 <==> ('0' <= c <= '9' || 'A' <= c <= 'F')
  {
    if '0' <= c <= '9' then (c as int) - ('0' as int)
    else if 'A' <= c <= 'F' then (c as int) - ('A' as int) + 10
    else -1
  }

  /** The character of digit `d`: '0'..'9', then upper-case 'A'..'F'. */
  function DigitChar(d: nat): (c: char)
    requires d < 16
    ensures DigitValue(c) == d
  {
    if d < 10 then ('0' as int + d) as char else ('A' as int + d - 10) as char
  }

  /** Every character of `t` is a digit of the radix `base`. */
  predicate AllDigits(t: string, base: int) {
    forall k :: 0 <= k < |t| ==> 0 <= DigitValue(t[k]) < base
  }

  function Pow(base: nat, e: nat): nat {
    if e == 0 then 1 else base * Pow(base, e - 1)
  }

  /** The digits of `n`, most significant first, with no leading zero ("" for 0). */
  function Magnitude(n: nat, base: nat): string
    requires IsBase(base)
    decreases n
  {
    if n == 0 then "" else Magnitude(n / base, base) + [DigitChar(n % base)]
  }

  /** The minimal signed numeral of `n`: "0", or an optional "-" and the digits of |n|. */
  function Numeral(n: int, base: nat): string
    requires IsBase(base)
  {
    if n == 0 then "0"
    else if n < 0 then "-" + Magnitude(-n, base)
    else Magnitude(n, base)
  }

  /** The value of a digit string, read most significant digit first. */
  function DigitsValue(t: string, base: nat): nat
    requires IsBase(base) && AllDigits(t, base)
  {
    if t == [] then 0
    else DigitsValue(t[..|t| - 1], base) * base + DigitValue(t[|t| - 1])
  }

  /** Reads a signed numeral: an optional "-" then at least one digit of the radix. */
  function ParseNumeral(s: string, base: nat): Option<int>
    requires IsBase(base)
  {
    if |s| > 0 && s[0] == '-' then
      if |s| > 1 && AllDigits(s[1..], base) then Some(0 - DigitsValue(s[1..], base)) else None
    else if |s| > 0 && AllDigits(s, base) then Some(DigitsValue(s, base))
    else None
  }

  /** A numeral of minimal length: "0", or an optional "-" then digits whose first is not '0'. */
  predicate Canonical(s: string, base: nat) {
    s == "0" ||
    (var t := if |s| > 0 && s[0] == '-' then s[1..] else s;
     |t| > 0 && t[0] != '0' && AllDigits(t, base))
  }

  /** Each entry of `HEX_DIGITS` is the character of the digit whose value is its index. */
  lemma HexDigitValue(d: nat)
    requires d < 16
    ensures HexDigits[d] == DigitChar(d) && DigitValue(HexDigits[d]) == d
  {
    if d == 0 {} else if d == 1 {} else if d == 2 {} else if d == 3 {}
    else if d == 4 {} else if d == 5 {} else if d == 6 {} else if d == 7 {}
    else if d == 8 {} else if d == 9 {} else if d == 10 {} else if d == 11 {}
    else if d == 12 {} else if d == 13 {} else if d == 14 {} else {}
  }

  /** A digit character is the character of its value. */
  lemma DigitCharOf(c: char)
    requires DigitValue(c) >= 0
    ensures DigitChar(DigitValue(c)) == c
  {}

  lemma DivMod(n: nat, base: nat)
    requires IsBase(base)
    ensures n == (n / base) * base + n % base && 0 <= n % base < base
    ensures n > 0 ==> n / base < n
  {}

  lemma DivModOf(x: nat, d: nat, base: nat)
    requires IsBase(base) && d < base
    ensures (x * base + d) / base == x && (x * base + d) % base == d
  {}

  /** Appending a digit multiplies the value by the radix and adds the digit. */
  lemma DigitsValueSnoc(t: string, c: char, base: nat)
    requires IsBase(base) && AllDigits(t, base) && 0 <= DigitValue(c) < base
    ensures AllDigits(t + [c], base)
    ensures DigitsValue(t + [c], base) == DigitsValue(t, base) * base + DigitValue(c)
  {
    var s := t + [c];
    assert s[..|s| - 1] == t && s[|s| - 1] == c;
    forall k | 0 <= k < |s| ensures 0 <= DigitValue(s[k]) < base {
      if k < |t| { assert s[k] == t[k]; }
    }
  }

  /**
   The digits of `n` are digits of the radix and read back as `n`; for
   `n > 0` there is at least one and the first is not '0'.
   */
  lemma {:induction false} MagnitudeDigits(n: nat, base: nat)
    requires IsBase(base)
    ensures AllDigits(Magnitude(n, base), base)
    ensures DigitsValue(Magnitude(n, base), base) == n
    ensures n > 0 ==> |Magnitude(n, base)| > 0 && Magnitude(n, base)[0] != '0'
    decreases n
  {
    if n > 0 {
      var q: nat, d: nat := n / base, n % base;
      DivMod(n, base);
      var t := Magnitude(q, base);
      var c := DigitChar(d);
      MagnitudeDigits(q, base);
      assert Magnitude(n, base) == t + [c];
      DigitsValueSnoc(t, c, base);
      if q == 0 {
        assert t == "";
        assert DigitValue('0') == 0 && DigitValue(c) == n;
      } else {
        assert (t + [c])[0] == t[0];
      }
    } else {
      assert Magnitude(n, base) == "";
    }
  }

  /**
   For `n > 0` the digit string has the minimal length:
   base^(len-1) <= n < base^len.
   */
  lemma {:induction false} MagnitudeLength(n: nat, base: nat)
    requires IsBase(base) && n > 0
    ensures var len := |Magnitude(n, base)|;
      len >= 1 && Pow(base, len - 1) <= n < Pow(base, len)
    decreases n
  {
    var q, d := n / base, n % base;
    DivMod(n, base);
    var len := |Magnitude(n, base)|;
    assert Magnitude(n, base) == Magnitude(q, base) + [DigitChar(d)];
    if q == 0 {
      assert Magnitude(q, base) == "";
      assert Pow(base, 1) == base * Pow(base, 0);
    } else {
      MagnitudeLength(q, base);
      var p := Pow(base, len - 2);
      assert Pow(base, len - 1) == base * p;
      assert Pow(base, len) == base * Pow(base, len - 1);
      LengthStep(base, n, q, d, p);
    }
  }

  /** One step of `MagnitudeLength`: base^k <= q < base^(k+1) carries over to q * base + d. */
  lemma LengthStep(base: nat, n: nat, q: nat, d: nat, p: nat)
    requires 2 <= base && n == q * base + d && d < base && p <= q < base * p
    ensures base * p <= n < base * (base * p)
  {
    assert base * p <= base * q;
    assert q + 1 <= base * p;
    assert base * (q + 1) <= base * (base * p);
  }

  /** "0" reads as zero in every radix. */
  lemma ParseZero(base: nat)
    requires IsBase(base)
    ensures AllDigits("0", base) && DigitsValue("0", base) == 0
    ensures ParseNumeral("0", base) == Some(0)
  {
    assert DigitValue('0') == 0;
    assert "0"[..0] == "";
  }

  /** A digit string without a sign reads as its value. */
  lemma ParseUnsigned(t: string, base: nat)
    requires IsBase(base) && AllDigits(t, base) && |t| > 0
    ensures ParseNumeral(t, base) == Some(DigitsValue(t, base))
  {
    assert DigitValue(t[0]) >= 0;
  }

  /** Round trip: reading the numeral of `n` back gives `n`, for every integer. */
  lemma NumeralRoundTrip(n: int, base: nat)
    requires IsBase(base)
    ensures ParseNumeral(Numeral(n, base), base) == Some(n)
  {
    if n == 0 {
      ParseZero(base);
    } else if n < 0 {
      MinusMagnitude(-n, base);
    } else {
      MagnitudeDigits(n, base);
      ParseUnsigned(Magnitude(n, base), base);
    }
  }

  /** The negative case of `NumeralRoundTrip`: "-" then the digits of `m` reads as `-m`. */
  lemma MinusMagnitude(m: nat, base: nat)
    requires IsBase(base) && m > 0
    ensures ParseNumeral("-" + Magnitude(m, base), base) == Some(0 - m)
  {
    var t := Magnitude(m, base);
    MagnitudeDigits(m, base);
    var s := "-" + t;
    assert s[1..] == t && s[1] == t[0];
    ParseNegative(s, base);
  }

  /** The numeral is "0" exactly for zero. */
  lemma NumeralZero(n: int, base: nat)
    requires IsBase(base)
    ensures Numeral(n, base) == "0" <==> n == 0
  {
    if n < 0 {
      assert Numeral(n, base)[0] == '-';
    } else if n > 0 {
      MagnitudeDigits(n, base);
      assert Numeral(n, base) == Magnitude(n, base);
    }
  }

  /** The numeral of every integer is canonical: no leading zeros, no "-0". */
  lemma NumeralCanonical(n: int, base: nat)
    requires IsBase(base)
    ensures Canonical(Numeral(n, base), base)
  {
    if n < 0 {
      MinusCanonical(-n, base);
    } else if n > 0 {
      MagnitudeCanonical(n, base);
    }
  }

  /** The positive case of `NumeralCanonical`. */
  lemma MagnitudeCanonical(m: nat, base: nat)
    requires IsBase(base) && m > 0
    ensures Canonical(Magnitude(m, base), base)
  {
    var t := Magnitude(m, base);
    MagnitudeDigits(m, base);
    assert DigitValue(t[0]) >= 0 && t[0] != '-';
  }

  /** The negative case of `NumeralCanonical`. */
  lemma MinusCanonical(m: nat, base: nat)
    requires IsBase(base) && m > 0
    ensures Canonical("-" + Magnitude(m, base), base)
  {
    var t := Magnitude(m, base);
    MagnitudeDigits(m, base);
    var s := "-" + t;
    assert s[0] == '-' && s[1..] == t;
  }

  /** A digit string that does not start with '0' has a positive value. */
  lemma {:induction false} LeadingDigitPositive(t: string, base: nat)
    requires IsBase(base) && AllDigits(t, base)
    requires |t| > 0 && t[0] != '0'
    ensures DigitsValue(t, base) > 0
    decreases |t|
  {
    var init, c := t[..|t| - 1], t[|t| - 1];
    assert AllDigits(init, base);
    var x: nat := DigitsValue(init, base);
    assert DigitsValue(t, base) == x * base + DigitValue(c);
    if |init| == 0 {
      assert x == 0 && c == t[0];
      assert DigitValue(c) != 0;
    } else {
      assert init[0] == t[0];
      LeadingDigitPositive(init, base);
      MulPositive(x, base);
    }
  }

  lemma MulPositive(x: nat, base: nat)
    requires x > 0 && base > 0
    ensures x * base > 0
  {}

  /** Appending a digit to a positive value appends its character to the digits. */
  lemma MagnitudeSnoc(x: nat, d: nat, base: nat)
    requires IsBase(base) && d < base && (x > 0 || d > 0)
    ensures Magnitude(x * base + d, base) == Magnitude(x, base) + [DigitChar(d)]
  {
    var v := x * base + d;
    DivModOf(x, d, base);
    if x > 0 { MulPositive(x, base); }
    assert v > 0;
  }

  /** The digits of the value of a digit string without leading zero are that string. */
  lemma {:induction false} MagnitudeOfDigits(t: string, base: nat)
    requires IsBase(base) && AllDigits(t, base)
    requires |t| > 0 && t[0] != '0'
    ensures Magnitude(DigitsValue(t, base), base) == t
    decreases |t|
  {
    var init, c := t[..|t| - 1], t[|t| - 1];
    var d: nat := DigitValue(c);
    assert AllDigits(init, base);
    var x: nat := DigitsValue(init, base);
    assert DigitsValue(t, base) == x * base + d by {
      DigitsValueSnoc(init, c, base);
      assert init + [c] == t;
    }
    assert Magnitude(x, base) == init && (x > 0 || d > 0) by {
      if |init| == 0 {
        assert c == t[0];
      } else {
        assert init[0] == t[0];
        LeadingDigitPositive(init, base);
        MagnitudeOfDigits(init, base);
      }
    }
    DigitCharOf(c);
    MagnitudeSnoc(x, d, base);
    assert init + [c] == t;
  }

  /** A "-" and digits without leading zero read as a negative number whose numeral they are. */
  lemma ParseNegative(s: string, base: nat)
    requires IsBase(base) && |s| > 1 && s[0] == '-' && AllDigits(s[1..], base) && s[1] != '0'
    ensures ParseNumeral(s, base) == Some(0 - DigitsValue(s[1..], base))
    ensures Numeral(0 - DigitsValue(s[1..], base), base) == s
  {
    var t := s[1..];
    var v: nat := DigitsValue(t, base);
    LeadingDigitPositive(t, base);
    MagnitudeOfDigits(t, base);
    assert Numeral(0 - v, base) == "-" + Magnitude(v, base);
    assert s == "-" + t;
  }

  /** The other direction: a canonical numeral is the numeral of the value it reads as. */
  lemma ParseCanonical(s: string, base: nat)
    requires IsBase(base) && Canonical(s, base)
    ensures ParseNumeral(s, base).Some?
    ensures Numeral(ParseNumeral(s, base).value, base) == s
  {
    if s == "0" {
      ParseZero(base);
    } else if s[0] == '-' {
      ParseNegative(s, base);
    } else {
      ParseUnsigned(s, base);
      LeadingDigitPositive(s, base);
      MagnitudeOfDigits(s, base);
    }
  }
}
