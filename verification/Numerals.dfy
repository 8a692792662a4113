/**
 Unsigned numerals: `str::parse::<usize>` and `usize::from_str_radix` on the way in,
 `Display` and hexadecimal on the way out.
 */
module Numerals {
  import opened Options
  import opened Text

  const USIZE_MAX: nat := 0xFFFF_FFFF_FFFF_FFFF
  /** The most bytes a `Vec` may hold; asking for more panics with "capacity overflow". */
  const ISIZE_MAX: nat := 0x7FFF_FFFF_FFFF_FFFF

  function SaturatingAdd(a: nat, b: nat): nat {
    if a + b > USIZE_MAX then USIZE_MAX else a + b
  }

  predicate IsRadix(radix: nat) {
    radix == 10 || radix == 16
  }

  function DigitOf(c: char, radix: nat): Option<nat>
    requires IsRadix(radix)
  {
    if '0' <= c <= '9' then Some(c as int - '0' as int)
    else if radix == 16 && 'a' <= c <= 'f' then Some(c as int - 'a' as int + 10)
    else if radix == 16 && 'A' <= c <= 'F' then Some(c as int - 'A' as int + 10)
    else None
  }

  const LOWER_DIGITS := "0123456789abcdef"
  const UPPER_DIGITS := "0123456789ABCDEF"

  /** The digits of each radix, in either letter case, and their values. */
  lemma DigitIff(c: char, radix: nat, d: nat)
    requires IsRadix(radix)
    ensures DigitOf(c, radix) == Some(d) <==> d < radix && (c == LOWER_DIGITS[d] || c == UPPER_DIGITS[d])
  {}

  /** The value of a string of digits, however long; none if some character is no digit. */
  function ValueOf(s: string, radix: nat): Option<nat>
    requires IsRadix(radix)
  {
    if s == "" then Some(0)
    else
      match (ValueOf(s[..|s| - 1], radix), DigitOf(s[|s| - 1], radix))
      case (Some(high), Some(low)) => Some(high * radix + low)
      case _ => None
  }

  /**
   An optional `+`, then at least one digit; overflow is an error. A `-` is an invalid digit,
   and so is a `+` that stands alone.
   */
  function ParseUsize(s: string, radix: nat): (r: Option<nat>)
    requires IsRadix(radix)
    ensures r.Some? ==> r.value <= USIZE_MAX
  {
    var digits := if |s| > 1 && s[0] == '+' then s[1..] else s;
    if digits == "" then None
    else
      match ValueOf(digits, radix)
      case Some(n) => if n <= USIZE_MAX then Some(n) else None
      case None => None
  }

  function DigitChar(d: nat): char
    requires d < 16
  {
    if d < 10 then ('0' as int + d) as char else ('a' as int + (d - 10)) as char
  }

  predicate IsDigitChar(c: char) {
    '0' <= c <= '9' || 'a' <= c <= 'f'
  }

  /** The shortest numeral of `n`: what `Display` (radix 10) and `{:x}` (radix 16) write. */
  function Numeral(n: nat, radix: nat): (s: string)
    requires IsRadix(radix)
    ensures s != ""
    ensures forall c :: c in s ==> IsDigitChar(c)
  {
    if n < radix then [DigitChar(n)] else Numeral(n / radix, radix) + [DigitChar(n % radix)]
  }

  function Decimal(n: nat): string {
    Numeral(n, 10)
  }

  lemma DigitRoundTrip(d: nat, radix: nat)
    requires IsRadix(radix) && d < radix
    ensures DigitOf(DigitChar(d), radix) == Some(d)
  {}

  lemma {:induction false} ValueOfNumeral(n: nat, radix: nat)
    requires IsRadix(radix)
    ensures ValueOf(Numeral(n, radix), radix) == Some(n)
  {
    hide DigitOf, DigitChar;
    DigitRoundTrip(n % radix, radix);
    if n < radix {
      assert [DigitChar(n)][..0] == "";
    } else {
      ValueOfNumeral(n / radix, radix);
      var s := Numeral(n, radix);
      assert s[..|s| - 1] == Numeral(n / radix, radix);
      assert n == n / radix * radix + n % radix;
    }
  }

  /** Reading back a written number gives the number, for everything a `usize` can hold. */
  lemma ParseOfNumeral(n: nat, radix: nat)
    requires IsRadix(radix) && n <= USIZE_MAX
    ensures ParseUsize(Numeral(n, radix), radix) == Some(n)
  {
    ValueOfNumeral(n, radix);
    assert Numeral(n, radix)[0] in Numeral(n, radix);
  }

  function Power(base: nat, k: nat): nat {
    if k == 0 then 1 else base * Power(base, k - 1)
  }

  lemma {:induction false} NumeralLength(n: nat, radix: nat, k: nat)
    requires IsRadix(radix) && k >= 1 && n < Power(radix, k)
    ensures |Numeral(n, radix)| <= k
  {
    if n < radix {
    } else {
      assert Power(radix, 1) == radix * Power(radix, 0);
      NumeralLength(n / radix, radix, k - 1);
    }
  }

  lemma DecimalShort(n: nat)
    requires n <= USIZE_MAX
    ensures |Decimal(n)| <= 20
  {
    assert Power(10, 4) == 1_0000;
    assert Power(10, 8) == 1_0000_0000;
    assert Power(10, 12) == 1_0000_0000_0000;
    assert Power(10, 16) == 1_0000_0000_0000_0000;
    assert Power(10, 20) == 1_0000_0000_0000_0000_0000;
    NumeralLength(n, 10, 20);
  }

  /** A numeral is one clean word: nothing trims it, and no control character is in it. */
  lemma NumeralIsClean(n: nat, radix: nat)
    requires IsRadix(radix)
    ensures var s := Numeral(n, radix);
            Trimmed(s) && IsWord(s) && (forall c :: c in s ==> !IsControl(c) && c as int < 128 && c != ';' && c != '\n')
  {
    var s := Numeral(n, radix);
    assert s[0] in s && s[|s| - 1] in s;
  }
}
