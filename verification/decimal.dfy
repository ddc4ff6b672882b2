/**
  The integer conversions the firmware's printk and snprintf calls perform:
  `%d` and `%lld` (decimal, a minus sign for negatives, no leading zeros)
  and `%02x` (two lower-case hexadecimal digits). Text is a sequence of
  characters, one character per output byte.
 */
module Decimal {

  predicate IsDigit(c: char) {
    '0' <= c <= '9'
  }

  /** The lower-case hexadecimal digits `%x` prints. */
  predicate IsHexDigit(c: char) {
    IsDigit(c) || 'a' <= c <= 'f'
  }

  predicate AllDigits(s: string) {
    forall i :: 0 <= i < |s| ==> IsDigit(s[i])
  }

  function DigitValue(c: char): (d: nat)
    requires IsDigit(c)
    ensures d < 10
  {
    (c - '0') as nat
  }

  /** The decimal digit for `d`. */
  function DigitChar(d: nat): (c: char)
    requires d < 10
    ensures IsDigit(c) && DigitValue(c) == d
  {
    ('0' as int + d) as char
  }

  function Pow10(k: nat): (p: nat)
    ensures p >= 1
  {
    if k == 0 then 1 else 10 * Pow10(k - 1)
  }

  /** The shortest decimal text of `n`, as `%d` prints a non-negative value. */
  function NatText(n: nat): (s: string)
    ensures 1 <= |s| && AllDigits(s)
    ensures s[0] == '0' <==> n == 0
  {
    if n < 10 then [DigitChar(n)] else NatText(n / 10) + [DigitChar(n % 10)]
  }

  /** The number a string of decimal digits denotes: the reference reading
      of a decimal text, most significant digit first. */
  function ValueOf(s: string): nat
    requires AllDigits(s)
  {
    if |s| == 0 then 0 else 10 * ValueOf(s[..|s| - 1]) + DigitValue(s[|s| - 1])
  }

  /** Reading back the text of a number gives the number. */
  lemma {:induction false} NatTextRoundTrip(n: nat)
    ensures ValueOf(NatText(n)) == n
  {
    var s := NatText(n);
    if n >= 10 {
      NatTextRoundTrip(n / 10);
      assert s[..|s| - 1] == NatText(n / 10);
    }
  }

  /** Two numbers with the same text are the same number. */
  lemma NatTextInjective(m: nat, n: nat)
    requires NatText(m) == NatText(n)
    ensures m == n
  {
    NatTextRoundTrip(m);
    NatTextRoundTrip(n);
  }

  /** A number below 10^k takes at most k digits. */
  lemma {:induction false} NatTextLength(n: nat, k: nat)
    requires 1 <= k && n < Pow10(k)
    ensures |NatText(n)| <= k
  {
    if n >= 10 {
      assert k >= 2;
      NatTextLength(n / 10, k - 1);
    }
  }

  /** `%d` / `%lld`: the decimal text of any integer. */
  function IntText(v: int): (s: string)
    ensures v >= 0 ==> s == NatText(v)
    ensures v < 0 ==> s == "-" + NatText(-v)
  {
    if v < 0 then "-" + NatText(-v) else NatText(v)
  }

  /** The reference reading of `%d` output: an optional minus sign, then
      at least one digit. */
  function SignedValueOf(s: string): (v: int)
    requires 1 <= |s|
    requires s[0] == '-' ==> 2 <= |s| && AllDigits(s[1..])
    requires s[0] != '-' ==> AllDigits(s)
  {
    if s[0] == '-' then 0 - ValueOf(s[1..]) else ValueOf(s)
  }

  /** The text of every integer reads back as that integer. */
  lemma IntTextRoundTrip(v: int)
    ensures var s := IntText(v);
      && 1 <= |s|
      && (s[0] == '-' <==> v < 0)
      && (s[0] == '-' ==> 2 <= |s| && AllDigits(s[1..]))
      && (s[0] != '-' ==> AllDigits(s))
      && SignedValueOf(s) == v
  {
    var s := IntText(v);
    if v < 0 {
      var d := NatText(-v);
      assert s[1..] == d;
      assert d[0] != '-';
      NatTextRoundTrip(-v);
    } else {
      assert s[0] != '-';
      NatTextRoundTrip(v);
    }
  }

  /** A signed 64-bit integer, the type `%lld` prints. */
  predicate Int64(v: int) {
    -0x8000_0000_0000_0000 <= v < 0x8000_0000_0000_0000
  }

  /** A signed 64-bit value, as `%lld` prints it, takes at most 20
      characters: a sign and 19 digits. */
  lemma Int64TextLength(v: int)
    requires Int64(v)
    ensures |IntText(v)| <= 20
    ensures v >= 0 ==> |IntText(v)| <= 19
  {
    Pow10Nineteen();
    if v < 0 {
      NatTextLength(-v, 19);
    } else {
      NatTextLength(v, 19);
    }
  }

  lemma Pow10Nineteen()
    ensures Pow10(19) == 10_000_000_000_000_000_000
  {
    assert Pow10(4) == 10_000;
    assert Pow10(8) == 100_000_000;
    assert Pow10(12) == 1_000_000_000_000;
    assert Pow10(16) == 10_000_000_000_000_000;
  }

  /** The lower-case hexadecimal digit for `d`. */
  function HexDigit(d: nat): char
    requires d < 16
  {
    if d < 10 then DigitChar(d) else ('a' as int + (d - 10)) as char
  }

  /** Each value below 16 has its own digit, and the digit reads back as
      the value. */
  lemma HexDigitValue(d: nat)
    requires d < 16
    ensures IsHexDigit(HexDigit(d)) && HexValue(HexDigit(d)) == d
  {
  }

  /** The value of a hexadecimal digit. */
  function HexValue(c: char): (d: nat)
    requires IsHexDigit(c)
    ensures d < 16
  {
    if IsDigit(c) then DigitValue(c) else (c - 'a') as nat + 10
  }

  /** `%02x` of a byte: two lower-case hexadecimal digits. */
  function Hex2(b: nat): (s: string)
    requires b < 256
    ensures |s| == 2
  {
    [HexDigit(b / 16), HexDigit(b % 16)]
  }

  /** The two hexadecimal digits give the byte back. */
  lemma Hex2RoundTrip(b: nat)
    requires b < 256
    ensures IsHexDigit(Hex2(b)[0]) && IsHexDigit(Hex2(b)[1])
    ensures 16 * HexValue(Hex2(b)[0]) + HexValue(Hex2(b)[1]) == b
  {
    HexDigitValue(b / 16);
    HexDigitValue(b % 16);
  }
}
