/**
 * Decimal numerals as JavaScript and the validator library read and write them:
 * `n.toString()`, `Number(s)`, `parseInt(s, 10)`, and the `isNumeric` / `isInt` checks.
 */
module Numbers {
  import opened Strings

  predicate IsDigit(c: char)
  {
    '0' <= c <= '9'
  }

  predicate AllDigits(s: string)
  {
    forall i :: 0 <= i < |s| ==> IsDigit(s[i])
  }

  function DigitChar(d: nat): (c: char)
    requires d < 10
    ensures IsDigit(c)
  {
    ('0' as int + d) as char
  }

  function DigitValue(c: char): (d: nat)
    requires IsDigit(c)
    ensures d < 10 && DigitChar(d) == c
  {
    c as int - '0' as int
  }

  /** The value of a string of decimal digits (0 for the empty string). */
  function DigitsValue(s: string): nat
    requires AllDigits(s)
  {
    if |s| == 0 then 0 else DigitsValue(s[..|s| - 1]) * 10 + DigitValue(s[|s| - 1])
  }

  /** `n.toString()` for a non-negative integer: decimal digits, no leading zero. */
  function NatToDecimal(n: nat): (r: string)
    ensures |r| >= 1 && AllDigits(r)
    ensures r[0] == '0' ==> n == 0
  {
    if n < 10 then [DigitChar(n)] else NatToDecimal(n / 10) + [DigitChar(n % 10)]
  }

  /** Reading back the decimal numeral of `n` gives `n`. */
  lemma {:induction false} DecimalRoundTrip(n: nat)
    ensures DigitsValue(NatToDecimal(n)) == n
  {
    if n >= 10 {
      DecimalRoundTrip(n / 10);
      var r := NatToDecimal(n);
      assert r[..|r| - 1] == NatToDecimal(n / 10);
    }
  }

  function Pow10(k: nat): (p: nat)
    ensures p >= 1
  {
    if k == 0 then 1 else 10 * Pow10(k - 1)
  }

  /** A number with exactly `k` decimal digits prints as `k` characters. */
  lemma {:induction false} DecimalLength(n: nat, k: nat)
    requires k >= 1 && n < Pow10(k) && (k == 1 || Pow10(k - 1) <= n)
    ensures |NatToDecimal(n)| == k
  {
    if k > 1 {
      if k == 2 {
        assert n / 10 < 10;
      } else {
        assert Pow10(k - 2) <= n / 10;
      }
      DecimalLength(n / 10, k - 1);
    }
  }

  // ---------------------------------------------------------------------------
  // JavaScript numbers

  /** A JavaScript number as the model keeps it: an integer, or NaN. */
  datatype Num = Int(v: int) | NaN {
    /** JavaScript truthiness: NaN and 0 are falsy. */
    predicate Truthy()
    {
      Int? && v != 0
    }
  }

  /** `i.toString()` for an integer. */
  function IntToDecimal(i: int): (r: string)
    ensures |r| >= 1
  {
    if i < 0 then "-" + NatToDecimal(-i) else NatToDecimal(i)
  }

  /** An optional sign followed by the rest of the numeral. */
  function SignOf(s: string): (sign: int)
  {
    if |s| > 0 && s[0] == '-' then -1 else 1
  }

  function Unsigned(s: string): (r: string)
    ensures |r| <= |s|
  {
    if |s| > 0 && (s[0] == '-' || s[0] == '+') then s[1..] else s
  }

  /** `Number(s)` for a string: surrounding whitespace ignored, the empty string is 0, an
      optionally signed run of decimal digits is its value, anything else is NaN. */
  function NumberOf(s: string): (x: Num)
    ensures Trim(s) == "" ==> x == Int(0)
  {
    var t := Trim(s);
    var body := Unsigned(t);
    if t == "" then Int(0)
    else if |body| > 0 && AllDigits(body) then Int(SignOf(t) * DigitsValue(body))
    else NaN
  }

  /** Text without surrounding whitespace that opens with a lower-case letter reads as NaN. */
  lemma LetterReadsNaN(s: string)
    requires IsTrimmed(s) && |s| > 0 && 'a' <= s[0] <= 'z'
    ensures NumberOf(s).NaN?
  {
    TrimOfTrimmed(s);
    assert !IsDigit(Unsigned(s)[0]);
  }

  /** The longest prefix of `s` made of decimal digits. */
  function DigitPrefix(s: string): (r: string)
    ensures |r| <= |s| && r == s[..|r|] && AllDigits(r)
    ensures |r| < |s| ==> !IsDigit(s[|r|])
  {
    if |s| > 0 && IsDigit(s[0]) then [s[0]] + DigitPrefix(s[1..]) else ""
  }

  /** `parseInt(s, 10)`: leading whitespace skipped, an optional sign, then the longest run of
      digits; NaN when that run is empty. Trailing text after the digits is ignored. */
  function ParseInt(s: string): (x: Num)
  {
    var t := TrimStart(s);
    var digits := DigitPrefix(Unsigned(t));
    if |digits| == 0 then NaN else Int(SignOf(t) * DigitsValue(digits))
  }

  lemma AllDigitsPrefix(s: string)
    requires AllDigits(s)
    ensures DigitPrefix(s) == s
  {
  }

  lemma DigitNotSpace(c: char)
    requires IsDigit(c)
    ensures !IsSpace(c)
  {
  }

  lemma DecimalHasNoSpace(n: nat)
    ensures var r := NatToDecimal(n); !IsSpace(r[0]) && !IsSpace(r[|r| - 1])
  {
    var r := NatToDecimal(n);
    DigitNotSpace(r[0]);
    DigitNotSpace(r[|r| - 1]);
  }

  /** The numeral of `i` is its sign followed by the digits of its magnitude, with no
      whitespace at either end. */
  lemma DecimalParts(i: int)
    ensures var s := IntToDecimal(i); var n: nat := if i < 0 then -i else i;
      && Unsigned(s) == NatToDecimal(n)
      && SignOf(s) == (if i < 0 then -1 else 1)
      && IsTrimmed(s)
  {
    var s := IntToDecimal(i);
    var n: nat := if i < 0 then -i else i;
    var d := NatToDecimal(n);
    DecimalHasNoSpace(n);
    if i < 0 {
      assert s == "-" + d;
      assert s[|s| - 1] == d[|d| - 1];
      assert !IsSpace('-');
    } else {
      assert IsDigit(d[0]);
    }
  }

  /** `Number(i.toString())` is `i`. */
  lemma NumberOfRoundTrip(i: int)
    ensures NumberOf(IntToDecimal(i)) == Int(i)
  {
    var s := IntToDecimal(i);
    var n: nat := if i < 0 then -i else i;
    DecimalParts(i);
    DecimalRoundTrip(n);
    TrimOfTrimmed(s);
  }

  /** `parseInt(i.toString(), 10)` is `i`. */
  lemma ParseIntRoundTrip(i: int)
    ensures ParseInt(IntToDecimal(i)) == Int(i)
  {
    var s := IntToDecimal(i);
    var n: nat := if i < 0 then -i else i;
    var d := NatToDecimal(n);
    DecimalParts(i);
    DecimalRoundTrip(n);
    TrimStartOfTrimmed(s);
    AllDigitsPrefix(d);
  }

  // ---------------------------------------------------------------------------
  // validator.js checks

  /** validator.js `isNumeric` with its defaults: `^[+-]?([0-9]*[.])?[0-9]+$`. */
  predicate IsNumeric(s: string)
  {
    var b := if |s| > 0 && (s[0] == '+' || s[0] == '-') then s[1..] else s;
    var parts := Split(b, '.');
    || (|parts| == 1 && |parts[0]| > 0 && AllDigits(parts[0]))
    || (|parts| == 2 && AllDigits(parts[0]) && |parts[1]| > 0 && AllDigits(parts[1]))
  }

  /** validator.js `isInt({min: lo, max: hi})` with its defaults: `^[-+]?[0-9]+$` (leading
      zeros allowed) and a value within `[lo, hi]`. */
  predicate IsIntInRange(s: string, lo: int, hi: int)
  {
    var b := Unsigned(s);
    |b| > 0 && AllDigits(b) && lo <= SignOf(s) * DigitsValue(b) <= hi
  }

  /** Every string `isInt` accepts is also accepted by `isNumeric`, and `parseInt` reads the
      value `isInt` checked. */
  lemma IntIsNumeric(s: string, lo: int, hi: int)
    requires IsIntInRange(s, lo, hi)
    ensures IsNumeric(s)
    ensures ParseInt(s).Int? && lo <= ParseInt(s).v <= hi
  {
    var b := Unsigned(s);
    assert b == (if |s| > 0 && (s[0] == '+' || s[0] == '-') then s[1..] else s);
    var parts := Split(b, '.');
    assert '.' !in b;
    SplitNoSep(b, '.');
    assert IsDigit(s[0]) || s[0] == '+' || s[0] == '-';
    assert !IsSpace(s[0]);
    assert TrimStart(s) == s;
    AllDigitsPrefix(b);
  }

  /** An optionally signed run of digits has no surrounding whitespace, and `Number` reads it
      as its value. */
  lemma SignedDigitsNumber(s: string)
    requires |Unsigned(s)| > 0 && AllDigits(Unsigned(s))
    ensures Trim(s) == s
    ensures NumberOf(s) == Int(SignOf(s) * DigitsValue(Unsigned(s)))
  {
    var b := Unsigned(s);
    assert b[|b| - 1] == s[|s| - 1] && IsDigit(b[|b| - 1]);
    assert IsDigit(s[0]) || s[0] == '+' || s[0] == '-';
    assert !IsSpace(s[0]) && !IsSpace(s[|s| - 1]);
    assert TrimStart(s) == s;
  }
}
