/**
 * Positional numerals as Rust's `Display` (`{}`) and `LowerHex` (`{:x}`)
 * print unsigned integers: no sign, no leading zeros, lower-case digits.
 */
module Text {

  /** A numeral base the formatter uses: 10 for `{}`, 16 for `{:x}`. */
  type Base = b: nat | 2 <= b <= 16 witness 10

  /** The character for digit `d`: '0'..'9' then 'a'..'f'. */
  function DigitChar(d: nat): (c: char)
    requires d < 16
    ensures IsDigitIn(c, 16) && DigitValue(c) == d
  {
    if d < 10 then ('0' as int + d) as char else ('a' as int + d - 10) as char
  }

  /** The value of a digit character; the inverse of DigitChar. */
  function DigitValue(c: char): nat
  {
    if '0' <= c <= '9' then c as int - '0' as int
    else if 'a' <= c <= 'f' then c as int - 'a' as int + 10
    else 0
  }

  /** `c` is a digit of base `base`. */
  predicate IsDigitIn(c: char, base: Base)
  {
    (('0' <= c <= '9') || ('a' <= c <= 'f')) && DigitValue(c) < base
  }

  /** `s` is made of digits of base `base` only. */
  predicate AllDigits(s: string, base: Base)
  {
    forall i :: 0 <= i < |s| ==> IsDigitIn(s[i], base)
  }

  /** The numeral of `n` in base `base`, most significant digit first. */
  function Numeral(n: nat, base: Base): (s: string)
    ensures 1 <= |s|
    ensures AllDigits(s, base)
    ensures |s| > 1 ==> s[0] != '0'
    decreases n
  {
    if n < base then [DigitChar(n)]
    else
      DivStep(n, base);
      Numeral(n / base, base) + [DigitChar(n % base)]
  }

  /** Euclidean division by a base: a smaller quotient and a digit. */
  lemma DivStep(n: nat, base: Base)
    requires base <= n
    ensures 0 < n / base < n && n % base < base
    ensures n == n / base * base + n % base
  {
  }

  /** Reads a numeral back: the reference the formatter is checked against. */
  function NumeralValue(s: string, base: Base): nat
  {
    if s == [] then 0
    else NumeralValue(s[..|s| - 1], base) * base + DigitValue(s[|s| - 1])
  }

  /** Decimal text, as `format!("{}", n)`. */
  function Decimal(n: nat): string
  {
    Numeral(n, 10)
  }

  /** Lower-case hexadecimal text, as `format!("{:x}", n)`. */
  function Hex(n: nat): string
  {
    Numeral(n, 16)
  }

  /** Reading a numeral back yields the number that was printed. */
  lemma {:induction false} NumeralRoundTrip(n: nat, base: Base)
    ensures NumeralValue(Numeral(n, base), base) == n
    decreases n
  {
    var s := Numeral(n, base);
    if n >= base {
      DivStep(n, base);
      NumeralRoundTrip(n / base, base);
      assert s[..|s| - 1] == Numeral(n / base, base);
    }
  }

  /** Distinct numbers print as distinct numerals. */
  lemma NumeralInjective(m: nat, n: nat, base: Base)
    requires Numeral(m, base) == Numeral(n, base)
    ensures m == n
  {
    NumeralRoundTrip(m, base);
    NumeralRoundTrip(n, base);
  }
}
