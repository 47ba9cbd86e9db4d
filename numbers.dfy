/** Python's `int()` and `float()` on text, restricted to plain decimal
    literals, the ceiling of an exact decimal, and zero-padded formatting. */
module Numbers {
  import opened Wrappers
  import opened Text

  function DigitValue(c: char): (d: nat)
    requires IsDigit(c)
    ensures d < 10
  {
    c as int - '0' as int
  }

  function DigitChar(d: nat): (c: char)
    requires d < 10
    ensures IsDigit(c) && DigitValue(c) == d
  {
    ('0' as int + d) as char
  }

  predicate AllDigits(s: string) { forall i :: 0 <= i < |s| ==> IsDigit(s[i]) }

  /** The value of a string of decimal digits (0 for the empty string). */
  function DigitsValue(s: string): nat
    requires AllDigits(s)
    decreases |s|
  {
    if s == [] then 0 else 10 * DigitsValue(s[..|s| - 1]) + DigitValue(s[|s| - 1])
  }

  lemma DigitsValueSnoc(s: string, c: char)
    requires AllDigits(s) && IsDigit(c)
    ensures AllDigits(s + [c]) && DigitsValue(s + [c]) == 10 * DigitsValue(s) + DigitValue(c)
  {
    assert (s + [c])[..|s|] == s;
  }

  function Pow10(n: nat): (p: nat)
    ensures p >= 1
  {
    if n == 0 then 1 else 10 * Pow10(n - 1)
  }

  /** The shortest decimal representation of n (`str(n)`). */
  function NatToString(n: nat): (s: string)
    ensures s != [] && AllDigits(s) && DigitsValue(s) == n
    decreases n
  {
    if n < 10 then
      assert DigitsValue([DigitChar(n)]) == DigitsValue([]) * 10 + n by {
        assert [DigitChar(n)][..0] == [];
      }
      [DigitChar(n)]
    else
      var prefix := NatToString(n / 10);
      DigitsValueSnoc(prefix, DigitChar(n % 10));
      prefix + [DigitChar(n % 10)]
  }

  function Zeros(k: nat): (z: string)
    ensures |z| == k && AllDigits(z)
  {
    if k == 0 then [] else ['0'] + Zeros(k - 1)
  }

  /** Leading zeros do not change the value of a digit string. */
  lemma {:induction false} DigitsValueZeros(k: nat, s: string)
    requires AllDigits(s)
    ensures AllDigits(Zeros(k) + s) && DigitsValue(Zeros(k) + s) == DigitsValue(s)
    decreases |s|, k
  {
    var z := Zeros(k);
    if s == [] {
      assert z + s == z;
      if k > 0 {
        assert z[..k - 1] == Zeros(k - 1) by {
          assert z == Zeros(k - 1) + ['0'] by { ZerosSnoc(k - 1); }
        }
        DigitsValueZeros(k - 1, []);
        assert Zeros(k - 1) + [] == Zeros(k - 1);
      }
    } else {
      var init := s[..|s| - 1];
      DigitsValueZeros(k, init);
      assert (z + s)[..|z + s| - 1] == z + init;
      assert (z + s)[|z + s| - 1] == s[|s| - 1];
    }
  }

  lemma {:induction false} ZerosSnoc(k: nat)
    ensures Zeros(k + 1) == Zeros(k) + ['0']
  {
    if k > 0 {
      ZerosSnoc(k - 1);
    }
  }

  /** Python's `f"{n:0{width}d}"` for a non-negative n: its digits, padded
      on the left with zeros to at least `width` characters. */
  function ZeroPad(n: nat, width: nat): (s: string)
    ensures AllDigits(s) && DigitsValue(s) == n
    ensures |s| == if |NatToString(n)| < width then width else |NatToString(n)|
  {
    var digits := NatToString(n);
    var k := if |digits| < width then width - |digits| else 0;
    DigitsValueZeros(k, digits);
    Zeros(k) + digits
  }

  /** Python's `int(s)`: optional surrounding white space, an optional sign
      and at least one decimal digit. */
  function ParseInt(s: string): (r: Option<int>)
  {
    var t := Strip(s);
    if t == [] then None
    else
      var negative := t[0] == '-';
      var body := if t[0] == '-' || t[0] == '+' then t[1..] else t;
      if body != [] && AllDigits(body) then
        Some(if negative then -(DigitsValue(body) as int) else DigitsValue(body))
      else None
  }

  /** A digit string needs no stripping and parses to its value. */
  lemma ParseIntDigits(s: string)
    requires s != [] && AllDigits(s)
    ensures ParseInt(s) == Some(DigitsValue(s) as int)
  {
    StripTrimmed(s);
  }

  /** `int()` reads back what `ZeroPad` writes. */
  lemma ParseZeroPad(n: nat, width: nat)
    ensures ParseInt(ZeroPad(n, width)) == Some(n as int)
  {
    ParseIntDigits(ZeroPad(n, width));
  }

  /** A character that may occur in a plain decimal literal. */
  predicate NumeralChar(c: char) { IsDigit(c) || c == '.' || c == '+' || c == '-' }

  /** The exact value of `whole.fraction`: the fraction's digits count in
      tenths, hundredths and so on. */
  function DecimalValue(whole: string, fraction: string): (x: real)
    requires AllDigits(whole) && AllDigits(fraction)
    ensures x >= DigitsValue(whole) as real
  {
    DigitsValue(whole) as real + DigitsValue(fraction) as real / Pow10(|fraction|) as real
  }

  /** The unsigned part of a decimal literal: digits with at most one
      decimal point and at least one digit. */
  function Magnitude(body: string): (r: Option<real>)
    ensures r.Some? ==> body != [] && forall i :: 0 <= i < |body| ==> IsDigit(body[i]) || body[i] == '.'
  {
    match FindChar(body, '.')
    case None =>
      if body != [] && AllDigits(body) then Some(DigitsValue(body) as real) else None
    case Some(k) =>
      var whole, fraction := body[..k], body[k + 1..];
      if AllDigits(whole) && AllDigits(fraction) && |whole| + |fraction| > 0 then
        assert forall i :: 0 <= i < |body| ==> IsDigit(body[i]) || body[i] == '.' by {
          forall i | 0 <= i < |body| ensures IsDigit(body[i]) || body[i] == '.' {
            if i < k { assert body[i] == whole[i]; }
            else if i > k { assert body[i] == fraction[i - k - 1]; }
          }
        }
        Some(DecimalValue(whole, fraction))
      else None
  }

  /** Python's `float(s)` (and `pd.to_numeric`) on text that is already
      stripped: an optional sign, digits with at most one decimal point, at
      least one digit; the value is the exact decimal. */
  function ParseDecimal(s: string): (r: Option<real>)
    ensures r.Some? ==> s != [] && forall i :: 0 <= i < |s| ==> NumeralChar(s[i])
  {
    if s == [] then None
    else
      var signed := s[0] == '-' || s[0] == '+';
      var body := if signed then s[1..] else s;
      match Magnitude(body)
      case None => None
      case Some(m) =>
        assert forall i :: 0 <= i < |s| ==> NumeralChar(s[i]) by {
          forall i | 0 <= i < |s| ensures NumeralChar(s[i]) {
            if signed && i > 0 { assert s[i] == body[i - 1]; }
            else if !signed { assert s[i] == body[i]; }
          }
        }
        Some(if s[0] == '-' then -m else m)
  }

  /** Text with a character that cannot occur in a decimal literal is not a number. */
  lemma ParseDecimalNeedsNumerals(s: string, i: nat)
    requires i < |s| && !NumeralChar(s[i])
    ensures ParseDecimal(s) == None
  {
  }

  /** A digit string holds no character other than digits. */
  lemma DigitsLack(s: string, c: char)
    requires AllDigits(s) && !IsDigit(c)
    ensures c !in s
  {
    forall i | 0 <= i < |s| ensures s[i] != c {
      assert IsDigit(s[i]);
    }
  }

  /** `float()` reads a digit string as its value. */
  lemma ParseDecimalDigits(s: string)
    requires s != [] && AllDigits(s)
    ensures ParseDecimal(s) == Some(DigitsValue(s) as real)
  {
    assert IsDigit(s[0]);
    DigitsLack(s, '.');
  }

  /** `float()` reads digits, a point and digits as the whole part plus the
      fraction's value scaled down by ten per fraction digit. */
  lemma ParseDecimalFraction(whole: string, fraction: string)
    requires AllDigits(whole) && AllDigits(fraction) && |whole| + |fraction| > 0
    ensures ParseDecimal(whole + ['.'] + fraction) == Some(DecimalValue(whole, fraction))
  {
    var s := whole + ['.'] + fraction;
    DigitsLack(whole, '.');
    FindCharAfter(whole, '.', fraction);
    assert s[..|whole|] == whole;
    assert s[|whole| + 1..] == fraction;
    assert s[0] != '-' && s[0] != '+' by {
      if whole != [] {
        assert s[0] == whole[0] && IsDigit(whole[0]);
      } else {
        assert s[0] == '.';
      }
    }
  }

  /** "2.5" reads as two and a half. */
  lemma TwoAndAHalf()
    ensures ParseDecimal("2.5") == Some(2.5)
  {
    SplitTwoAndAHalf();
    ParseDecimalFraction("2", "5");
    DecimalTwoAndAHalf();
  }

  lemma SplitTwoAndAHalf()
    ensures "2" + ['.'] + "5" == "2.5"
  {
  }

  lemma DecimalTwoAndAHalf()
    ensures DecimalValue("2", "5") == 2.5
  {
    assert DigitsValue("2") == 2 && DigitsValue("5") == 5 && Pow10(1) == 10;
  }

  /** A whole number written with a trailing `%` reads back as that number
      once the `%` is deleted and the text stripped. */
  lemma CleanPercentWhole(n: nat)
    ensures ParseDecimal(Strip(RemoveAll(NatToString(n) + "%", "%"))) == Some(n as real)
  {
    var d := NatToString(n);
    DigitsLack(d, '%');
    RemoveAllTrailing(d, '%');
    assert IsDigit(d[0]) && IsDigit(d[|d| - 1]);
    StripTrimmed(d);
    ParseDecimalDigits(d);
  }

  /** `math.ceil` of an exact value: the least integer not below it. */
  function Ceil(x: real): (c: int)
    ensures (c - 1) as real < x <= c as real
  {
    -((-x).Floor)
  }
}
