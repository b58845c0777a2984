/** Decimal numerals as the C library writes and reads them: `printf("%d")`,
    `printf("%06d")` and `atoi`. Integers are unbounded here; the 32-bit
    range of C's `int` is not modelled. */
module Numerals {

  predicate IsDigit(c: char)
  {
    '0' <= c <= '9'
  }

  predicate AllDigits(s: string)
  {
    forall i :: 0 <= i < |s| ==> IsDigit(s[i])
  }

  /** The white space `atoi` skips (C's `isspace`). */
  predicate IsSpace(c: char)
  {
    c == ' ' || c == '\t' || c == '\n' || c == '\U{0B}' || c == '\U{0C}' || c == '\r'
  }

  function DigitChar(d: nat): (c: char)
    requires d < 10
    ensures IsDigit(c)
  {
    ('0' as int + d) as char
  }

  function DigitValue(c: char): nat
    requires IsDigit(c)
  {
    c as int - '0' as int
  }

  /** The decimal digits of `n`, most significant first, without leading zeros. */
  function Digits(n: nat): (r: string)
    ensures |r| >= 1 && AllDigits(r)
    ensures |r| > 1 ==> r[0] != '0'
  {
    if n < 10 then [DigitChar(n)] else Digits(n / 10) + [DigitChar(n % 10)]
  }

  /** `printf("%d", n)`. */
  function Itoa(n: int): string
  {
    if n < 0 then "-" + Digits(-n) else Digits(n)
  }

  /** `printf("%06d", n)` for a non-negative `n`: left-padded with zeros to six places. */
  function Pad6(n: nat): string
  {
    var d := Digits(n);
    if |d| < 6 then seq(6 - |d|, _ => '0') + d else d
  }

  /** The value of a run of decimal digits. */
  function Value(ds: string): nat
    requires AllDigits(ds)
  {
    if ds == [] then 0 else Value(ds[..|ds| - 1]) * 10 + DigitValue(ds[|ds| - 1])
  }

  /** The longest prefix of `s` made of digits. */
  function LeadingDigits(s: string): (r: string)
    ensures |r| <= |s| && r == s[..|r|] && AllDigits(r)
    ensures |r| < |s| ==> !IsDigit(s[|r|])
  {
    if s == [] || !IsDigit(s[0]) then [] else [s[0]] + LeadingDigits(s[1..])
  }

  /** `atoi(s)`: white space skipped, an optional sign, then the longest run of
      digits; 0 when there is none. */
  function Atoi(s: string): int
  {
    if s != [] && IsSpace(s[0]) then Atoi(s[1..])
    else if s != [] && s[0] == '-' then -(Value(LeadingDigits(s[1..])) as int)
    else if s != [] && s[0] == '+' then Value(LeadingDigits(s[1..]))
    else Value(LeadingDigits(s))
  }

  lemma {:induction false} ValueDigits(n: nat)
    ensures Value(Digits(n)) == n
  {
    if n >= 10 {
      ValueDigits(n / 10);
      var d := Digits(n);
      assert d[..|d| - 1] == Digits(n / 10);
    }
  }

  lemma {:induction false} LeadingDigitsAll(s: string)
    requires AllDigits(s)
    ensures LeadingDigits(s) == s
  {
    if s != [] {
      LeadingDigitsAll(s[1..]);
    }
  }

  /** `atoi` reads back what `%d` printed. */
  lemma AtoiItoa(n: int)
    ensures Atoi(Itoa(n)) == n
  {
    var m := if n < 0 then -n else n;
    ValueDigits(m);
    LeadingDigitsAll(Digits(m));
    if n < 0 {
      assert Itoa(n)[1..] == Digits(m);
    }
  }

  /** A printed number is one non-empty field: it holds no white space. */
  lemma ItoaShape(n: int)
    ensures |Itoa(n)| >= 1
    ensures forall i :: 0 <= i < |Itoa(n)| ==> !IsSpace(Itoa(n)[i])
    ensures n >= 0 ==> AllDigits(Itoa(n))
  {
  }

  function Pow10(k: nat): nat
  {
    if k == 0 then 1 else 10 * Pow10(k - 1)
  }

  /** `%06d` of a microsecond count gives exactly six digits, and they spell
      the count: the zeros in front add nothing to its value. */
  lemma Pad6Shape(n: nat)
    ensures AllDigits(Pad6(n))
    ensures Value(Pad6(n)) == n
    ensures n < 1000000 ==> |Pad6(n)| == 6
  {
    var d := Digits(n);
    ValueDigits(n);
    if |d| < 6 {
      ZerosValue(6 - |d|);
      ValueLeadingZeros(seq(6 - |d|, _ => '0'), d);
    }
    if n < 1000000 {
      assert Pow10(6) == 1000000;
      DigitsLength(n, 6);
    }
  }

  /** A run of zeros has value 0. */
  lemma {:induction false} ZerosValue(k: nat)
    ensures AllDigits(seq(k, _ => '0')) && Value(seq(k, _ => '0')) == 0
  {
    if k > 0 {
      ZerosValue(k - 1);
      assert seq(k, _ => '0')[..k - 1] == seq(k - 1, _ => '0');
    }
  }

  /** Digits of value 0 in front of a numeral leave its value alone. */
  lemma {:induction false} ValueLeadingZeros(z: string, d: string)
    requires AllDigits(z) && Value(z) == 0 && AllDigits(d)
    ensures AllDigits(z + d) && Value(z + d) == Value(d)
  {
    if d == [] {
      assert z + d == z;
    } else {
      var n := |d| - 1;
      ValueLeadingZeros(z, d[..n]);
      assert (z + d)[..|z + d| - 1] == z + d[..n];
    }
  }

  /** A number below 10^k has at most k digits. */
  lemma {:induction false} DigitsLength(n: nat, k: nat)
    requires k >= 1 && n < Pow10(k)
    ensures |Digits(n)| <= k
  {
    if n >= 10 {
      DigitsLength(n / 10, k - 1);
    }
  }
}
