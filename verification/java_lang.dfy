/**
 * The two `java.lang` calls the range parser is built on: `String.split` with
 * a one-character, non-metacharacter pattern, and `Long.parseLong`, together
 * with `Long.toString` as the printer that `parseLong` inverts.
 */
module JavaLang {
  import opened Common
  import opened Text

  /** Bounds of Java's signed 64-bit `long`. */
  const LONG_MIN: int := -0x8000_0000_0000_0000
  const LONG_MAX: int := 0x7FFF_FFFF_FFFF_FFFF

  predicate InLongRange(n: int) {
    LONG_MIN <= n <= LONG_MAX
  }

  // ---------------------------------------------------------------------
  // String.split
  // ---------------------------------------------------------------------

  /** `fields` without its trailing run of empty strings. */
  function DropTrailingEmpty(fields: seq<string>): (r: seq<string>)
    ensures r <= fields
    ensures |r| > 0 ==> r[|r| - 1] != ""
    ensures forall k :: |r| <= k < |fields| ==> fields[k] == ""
    decreases |fields|
  {
    if |fields| > 0 && fields[|fields| - 1] == "" then DropTrailingEmpty(fields[..|fields| - 1])
    else fields
  }

  /**
   * Java `s.split(String.valueOf(sep))` for a separator that is not a regular
   * expression metacharacter: the fields between separators, leading empty
   * fields kept, trailing empty fields removed; a string without the
   * separator is returned whole, even when it is empty.
   */
  function JavaSplit(s: string, sep: char): (fields: seq<string>)
    ensures forall k :: 0 <= k < |fields| ==> sep !in fields[k]
    ensures sep in s ==> |fields| == 0 || fields[|fields| - 1] != ""
  {
    if sep !in s then [s] else DropTrailingEmpty(Split(s, sep))
  }

  /** Two fields with a separator between them split into exactly those two fields. */
  lemma JavaSplitTwo(a: string, sep: char, b: string)
    requires sep !in a && sep !in b && b != ""
    ensures JavaSplit(a + [sep] + b, sep) == [a, b]
  {
    var s := a + [sep] + b;
    assert s[|a|] == sep;
    SplitAppend(a, sep, b);
    SplitNoSeparator(a, sep);
    SplitNoSeparator(b, sep);
  }

  /** A trailing separator after two fields is discarded with the empty field it closes. */
  lemma JavaSplitTwoTrailing(a: string, sep: char, b: string)
    requires sep !in a && sep !in b && b != ""
    ensures JavaSplit(a + [sep] + b + [sep], sep) == [a, b]
  {
    var s := a + [sep] + b + [sep];
    assert s[|a|] == sep;
    assert s == (a + [sep] + b) + [sep] + "";
    SplitAppend(a + [sep] + b, sep, "");
    SplitAppend(a, sep, b);
    SplitNoSeparator(a, sep);
    SplitNoSeparator(b, sep);
    SplitNoSeparator("", sep);
    assert Split(s, sep) == [a, b, ""];
  }

  /** One non-empty field followed by a separator splits into that field alone. */
  lemma JavaSplitOneTrailing(a: string, sep: char)
    requires sep !in a && a != ""
    ensures JavaSplit(a + [sep], sep) == [a]
  {
    var s := a + [sep];
    assert s[|a|] == sep;
    assert s == a + [sep] + "";
    SplitAppend(a, sep, "");
    SplitNoSeparator(a, sep);
    SplitNoSeparator("", sep);
    assert Split(s, sep) == [a, ""];
  }

  // ---------------------------------------------------------------------
  // Long.parseLong and Long.toString
  // ---------------------------------------------------------------------

  /** An ASCII decimal digit. Other Unicode digits are not modelled. */
  predicate IsDigit(c: char) {
    '0' <= c <= '9'
  }

  predicate AllDigits(s: string) {
    forall k :: 0 <= k < |s| ==> IsDigit(s[k])
  }

  function DigitValue(c: char): nat
    requires IsDigit(c)
  {
    c as int - '0' as int
  }

  function DigitChar(d: nat): (c: char)
    requires d < 10
    ensures IsDigit(c) && DigitValue(c) == d
  {
    ('0' as int + d) as char
  }

  /** The value of a string of decimal digits, read from the left. */
  function DigitsValue(s: string): nat
    requires AllDigits(s)
    decreases |s|
  {
    if |s| == 0 then 0 else DigitsValue(s[..|s| - 1]) * 10 + DigitValue(s[|s| - 1])
  }

  /**
   * Java `Long.parseLong(s)`: an optional `-` or `+`, then at least one
   * decimal digit, with a value inside the `long` range; `None` stands for
   * the NumberFormatException thrown otherwise.
   */
  function ParseLong(s: string): (r: Option<int>)
    ensures r.Some? ==> InLongRange(r.value)
    ensures r.Some? ==> |s| > 0 && (IsDigit(s[0]) || s[0] == '-' || s[0] == '+')
    ensures r.Some? ==> forall k :: 1 <= k < |s| ==> IsDigit(s[k])
  {
    if |s| == 0 then None
    else
      var digits := if s[0] == '-' || s[0] == '+' then s[1..] else s;
      if |digits| == 0 || !AllDigits(digits) then None
      else
        var magnitude: int := DigitsValue(digits);
        var v := if s[0] == '-' then -magnitude else magnitude;
        if InLongRange(v) then
          assert forall k :: 1 <= k < |s| ==> IsDigit(s[k]) by {
            forall k | 1 <= k < |s|
              ensures IsDigit(s[k])
            {
              if digits == s[1..] {
                assert s[k] == digits[k - 1];
              } else {
                assert s[k] == digits[k];
              }
            }
          }
          Some(v)
        else None
  }

  /** The decimal digits of `n` without leading zeros (`Long.toString` of a non-negative value). */
  function FormatNat(n: nat): (s: string)
    ensures |s| >= 1 && AllDigits(s)
    decreases n
  {
    if n < 10 then [DigitChar(n)] else FormatNat(n / 10) + [DigitChar(n % 10)]
  }

  /** Java `Long.toString(n)`. */
  function FormatLong(n: int): string {
    if n < 0 then "-" + FormatNat(-n) else FormatNat(n)
  }

  /** Reading the digits of `n` back gives `n`. */
  lemma {:induction false} DigitsRoundTrip(n: nat)
    ensures DigitsValue(FormatNat(n)) == n
    decreases n
  {
    if n >= 10 {
      var s := FormatNat(n);
      assert s[..|s| - 1] == FormatNat(n / 10);
      DigitsRoundTrip(n / 10);
    }
  }

  /** No printed number contains anything but a sign and digits. */
  lemma FormatLongShape(n: int)
    ensures |FormatLong(n)| >= 1
    ensures forall k :: 0 <= k < |FormatLong(n)| ==> IsDigit(FormatLong(n)[k]) || FormatLong(n)[k] == '-'
  {
  }

  /**
   * `parseLong` inverts `toString` on every `long`, and rejects the printed
   * form of every value outside the `long` range.
   */
  lemma ParseFormatLong(n: int)
    ensures ParseLong(FormatLong(n)) == if InLongRange(n) then Some(n) else None
  {
    var s := FormatLong(n);
    if n < 0 {
      DigitsRoundTrip(-n);
      assert s[1..] == FormatNat(-n);
    } else {
      DigitsRoundTrip(n);
      assert IsDigit(s[0]);
    }
  }

  /** An explicit `+` sign is accepted and changes nothing. */
  lemma ParsePlusSign(n: nat)
    requires n <= LONG_MAX
    ensures ParseLong("+" + FormatNat(n)) == Some(n)
  {
    DigitsRoundTrip(n);
    assert ("+" + FormatNat(n))[1..] == FormatNat(n);
  }

  /** The value of a sign (`""`, `"-"` or `"+"`) followed by decimal digits. */
  function SignedValue(sign: string, digits: string): int
    requires AllDigits(digits)
  {
    var magnitude: int := DigitsValue(digits);
    if sign == "-" then -magnitude else magnitude
  }

  /**
   * `parseLong` accepts every optional sign followed by at least one digit
   * whose value is a `long`, leading zeros and `-0` included, and reads
   * exactly that value; it rejects such a text whose value is out of range.
   */
  lemma ParseLongComplete(sign: string, digits: string)
    requires sign == "" || sign == "-" || sign == "+"
    requires |digits| > 0 && AllDigits(digits)
    ensures ParseLong(sign + digits)
         == if InLongRange(SignedValue(sign, digits)) then Some(SignedValue(sign, digits)) else None
  {
    var s := sign + digits;
    if sign == "" {
      assert s == digits;
      assert IsDigit(s[0]);
    } else {
      assert s[0] == sign[0] && s[1..] == digits;
    }
  }
}
