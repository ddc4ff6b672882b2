/**
  The plain reader's display of a reading scaled to hundredths: the whole
  part `v / 100` printed with `%d`, a dot, and the fraction `v % 100`
  printed with `%02d`, where `/` and `%` are C's, truncating toward zero.
 */
module Display {
  import opened Options
  import opened Decimal

  /** C's integer division: the quotient truncated toward zero. */
  function CDiv(a: int, b: int): int
    requires b != 0
  {
    var q := Abs(a) / Abs(b);
    if (a < 0) == (b < 0) then q else -q
  }

  /** C's remainder, which takes the sign of the dividend. */
  function CRem(a: int, b: int): (r: int)
    requires b != 0
    ensures CDiv(a, b) * b + r == a
  {
    a - CDiv(a, b) * b
  }

  function Abs(a: int): nat {
    if a < 0 then -a else a
  }

  /** The laws C's division keeps: quotient times divisor plus remainder
      gives the dividend back, the remainder is smaller than the divisor,
      and it is never of the opposite sign to the dividend. */
  lemma {:induction false} TruncatedDivision(a: int, b: int)
    requires b != 0
    ensures Abs(CRem(a, b)) < Abs(b)
    ensures a >= 0 ==> CRem(a, b) >= 0
    ensures a <= 0 ==> CRem(a, b) <= 0
  {
    var q := Abs(a) / Abs(b);
    var m := Abs(a) % Abs(b);
    assert Abs(a) == q * Abs(b) + m && 0 <= m < Abs(b);
    SignedRemainder(a, b, q, m, CDiv(a, b));
  }

  /** With `|a| = q·|b| + m`, giving `q` the sign C's quotient takes leaves
      the remainder `m` with the dividend's sign. */
  lemma SignedRemainder(a: int, b: int, q: int, m: int, c: int)
    requires b != 0 && Abs(a) == q * Abs(b) + m
    requires c == (if (a < 0) == (b < 0) then q else -q)
    ensures a - c * b == (if a < 0 then -m else m)
  {
    if b < 0 {
      assert c * b == (if a < 0 then q * b else -(q * b));
      assert q * b == -(q * Abs(b));
    } else {
      assert c * b == (if a < 0 then -(q * b) else q * b);
    }
  }

  /** Those laws pin the quotient and remainder down: any pair that keeps
      them is C's. */
  lemma {:induction false} TruncatedDivisionUnique(a: int, b: int, q: int, r: int)
    requires b != 0
    requires q * b + r == a
    requires Abs(r) < Abs(b)
    requires a >= 0 ==> r >= 0
    requires a <= 0 ==> r <= 0
    ensures q == CDiv(a, b) && r == CRem(a, b)
  {
    TruncatedDivision(a, b);
    var q', r' := CDiv(a, b), CRem(a, b);
    assert (q - q') * b == r' - r;
    if q != q' {
      assert Abs((q - q') * b) >= Abs(b) by {
        MulAbs(q - q', b);
      }
    }
  }

  lemma MulAbs(x: int, b: int)
    requires x != 0 && b != 0
    ensures Abs(x * b) >= Abs(b)
  {
    if x > 0 {
      if b > 0 { assert x * b >= b; } else { assert x * b <= b; }
    } else {
      if b > 0 { assert x * b <= -b; } else { assert x * b >= -b; }
    }
  }

  /** The whole and hundredths parts the display prints for `v`: they
      add back up to `v`, and the fraction is below 100 in magnitude and
      carries the sign of `v`. */
  function Split(v: int): (p: (int, int))
    ensures p.0 * 100 + p.1 == v
    ensures -100 < p.1 < 100
    ensures v >= 0 ==> p.1 >= 0
    ensures v <= 0 ==> p.1 <= 0
  {
    TruncatedDivision(v, 100);
    (CDiv(v, 100), CRem(v, 100))
  }

  /** For a non-negative value the split is the ordinary one: a fraction
      in 0..99 and whole * 100 + fraction == v. */
  lemma SplitNonNegative(v: int)
    requires v >= 0
    ensures var (whole, frac) := Split(v);
      && 0 <= frac < 100
      && whole * 100 + frac == v
      && whole == v / 100 && frac == v % 100
  {
    TruncatedDivision(v, 100);
  }

  /** For a negative value the fraction is negative too (or zero): whole
      * 100 + fraction is still v, but the fraction lies in -99..0. */
  lemma SplitNegative(v: int)
    requires v < 0
    ensures var (whole, frac) := Split(v);
      && -100 < frac <= 0
      && whole <= 0
      && whole * 100 + frac == v
  {
    TruncatedDivision(v, 100);
  }

  /** `%02d`: at least two characters, zero-padded after any sign. A
      negative value from -9 to -1 is already two characters wide. */
  function ZeroPad2(v: int): (s: string)
    ensures 0 <= v < 10 ==> s == ['0', DigitChar(v)]
    ensures (v < 0 || 10 <= v) ==> s == IntText(v)
  {
    if 0 <= v < 10 then "0" + IntText(v) else IntText(v)
  }

  /** The display line's number, as the code writes it: `%d.%02d` of the
      split. */
  function AsWritten(v: int): string {
    var (whole, frac) := Split(v);
    IntText(whole) + "." + ZeroPad2(frac)
  }

  /** Two decimal digits of a number below 100, a leading zero included. */
  function TwoDigits(n: nat): (s: string)
    requires n < 100
    ensures |s| == 2 && AllDigits(s)
  {
    [DigitChar(n / 10), DigitChar(n % 10)]
  }

  lemma TwoDigitsValue(n: nat)
    requires n < 100
    ensures ValueOf(TwoDigits(n)) == n
  {
    var s := TwoDigits(n);
    assert s[..1] == [s[0]];
    assert ValueOf([s[0]]) == DigitValue(s[0]) by {
      assert [s[0]][..0] == [];
    }
  }

  /** `%02d` prints a number below 100 as its two digits. */
  lemma ZeroPad2OfFraction(n: nat)
    requires n < 100
    ensures ZeroPad2(n) == TwoDigits(n)
  {
    if n >= 10 {
      assert NatText(n) == NatText(n / 10) + [DigitChar(n % 10)];
    }
  }

  /** The display of a scaled value as evidently intended: a sign for
      negative values, then the magnitude's whole part, a dot and two
      fraction digits. */
  function Fixed2(v: int): (s: string)
    ensures |s| >= 4 && s[|s| - 3] == '.'
  {
    if v < 0 then "-" + Unsigned2(Abs(v)) else Unsigned2(Abs(v))
  }

  /** The whole part of `m / 100`, a dot and the two digits of `m % 100`. */
  function Unsigned2(m: nat): (s: string)
    ensures |s| >= 4 && s[|s| - 3] == '.'
  {
    NatText(m / 100) + "." + TwoDigits(m % 100)
  }

  /** The reference reading of a fixed-point text with two decimals:
      an optional minus sign, then the unsigned part; the value in
      hundredths. */
  function ParseFixed2(s: string): Option<int> {
    if |s| > 0 && s[0] == '-' then
      match ParseUnsigned(s[1..])
      case Some(m) => Some(0 - m)
      case None => None
    else
      match ParseUnsigned(s)
      case Some(m) => Some(m)
      case None => None
  }

  /** At least one digit, a dot, exactly two digits. */
  function ParseUnsigned(body: string): Option<nat> {
    if |body| < 4 || body[|body| - 3] != '.' then None
    else if !AllDigits(body[..|body| - 3]) || !AllDigits(body[|body| - 2..]) then None
    else Some(100 * ValueOf(body[..|body| - 3]) + ValueOf(body[|body| - 2..]))
  }

  /** How the reader takes apart digits, a dot and two digits. */
  lemma ParseParts(w: string, f: string)
    requires 1 <= |w| && AllDigits(w) && |f| == 2 && AllDigits(f)
    ensures ParseUnsigned(w + "." + f) == Some(100 * ValueOf(w) + ValueOf(f))
  {
    var body := w + "." + f;
    var n := |body|;
    assert n == |w| + 3 && n >= 4;
    assert body[n - 3] == '.';
    assert body[..n - 3] == w;
    assert body[n - 2..] == f;
    assert AllDigits(body[..n - 3]) && AllDigits(body[n - 2..]);
  }

  /** A leading minus sign negates what the rest reads as. */
  lemma ParseSign(body: string)
    requires |body| > 0 && body[0] != '-'
    ensures ParseUnsigned(body).Some? ==> ParseFixed2(body) == Some(ParseUnsigned(body).value)
    ensures ParseUnsigned(body).Some? ==> ParseFixed2("-" + body) == Some(0 - ParseUnsigned(body).value)
  {
    assert ("-" + body)[1..] == body;
  }

  /** The intended display reads back as the value it shows. */
  lemma Fixed2RoundTrip(v: int)
    ensures ParseFixed2(Fixed2(v)) == Some(v)
  {
    UnsignedRoundTrip(Abs(v));
    ParseSign(Unsigned2(Abs(v)));
  }

  /** The unsigned part of the display reads back as the magnitude, and
      does not start with a minus sign. */
  lemma UnsignedRoundTrip(m: nat)
    ensures |Unsigned2(m)| > 0 && Unsigned2(m)[0] != '-'
    ensures ParseUnsigned(Unsigned2(m)) == Some(m)
  {
    var w, f := NatText(m / 100), TwoDigits(m % 100);
    NatTextRoundTrip(m / 100);
    TwoDigitsValue(m % 100);
    ParseParts(w, f);
    assert Unsigned2(m)[0] == w[0];
  }

  /** The code and the intended display agree on every non-negative value. */
  lemma AsWrittenAgreesOnNonNegative(v: int)
    requires v >= 0
    ensures AsWritten(v) == Fixed2(v)
  {
    SplitNonNegative(v);
    ZeroPad2OfFraction(v % 100);
    assert "" + NatText(v / 100) == NatText(v / 100);
  }

  /** The code's display reads back as the value exactly when the value
      is not negative or is a whole number of units; every other negative
      value prints a text that does not read back as a number at all. */
  lemma AsWrittenReadsBackIff(v: int)
    ensures ParseFixed2(AsWritten(v)) == Some(v) <==> v >= 0 || Split(v).1 == 0
    ensures ParseFixed2(AsWritten(v)) != Some(v) ==> ParseFixed2(AsWritten(v)) == None
  {
    if v >= 0 {
      AsWrittenAgreesOnNonNegative(v);
      Fixed2RoundTrip(v);
    } else if Split(v).1 == 0 {
      AsWrittenAgreesOnWholeNegative(v);
      Fixed2RoundTrip(v);
    } else {
      AsWrittenUnreadable(v);
    }
  }

  /** A negative whole number of units prints correctly: -1.00 is "-1.00". */
  lemma AsWrittenAgreesOnWholeNegative(v: int)
    requires v < 0 && Split(v).1 == 0
    ensures AsWritten(v) == Fixed2(v)
  {
    var w := Split(v).0;
    assert w < 0 && Abs(v) == 100 * -w;
    assert Abs(v) / 100 == -w && Abs(v) % 100 == 0;
    ZeroPad2OfFraction(0);
  }

  /** A negative value with a non-zero fraction prints the fraction with
      its own minus sign, after the dot: the text has no reading. */
  lemma AsWrittenUnreadable(v: int)
    requires v < 0 && Split(v).1 != 0
    ensures ParseFixed2(AsWritten(v)) == None
  {
    var (w, f) := Split(v);
    var d := NatText(-f);
    NatTextLength(-f, 2);
    var head := IntText(w);
    var s := AsWritten(v);
    assert s == head + ("." + ("-" + d));
    if s[0] == '-' {
      assert head[0] == '-';
      assert s[1..] == head[1..] + ("." + ("-" + d));
      SignInFraction(head[1..], d);
    } else {
      SignInFraction(head, d);
    }
  }

  /** Text that ends in a dot, a minus sign and one or two digits is not
      an unsigned fixed-point number. */
  lemma SignInFraction(x: string, d: string)
    requires 1 <= |d| <= 2
    ensures ParseUnsigned(x + ("." + ("-" + d))) == None
  {
    var b := x + ("." + ("-" + d));
    if |b| >= 4 {
      if |d| == 1 {
        assert b[|b| - 3] == '.';
        assert b[|b| - 2..][0] == '-';
      } else {
        assert b[|b| - 3] == '-';
      }
    }
  }

  /** On negative values the code prints a second minus sign after the
      dot: -12.34 comes out as "-12.-34", which does not read back as a
      number. */
  lemma AsWrittenDoubleSign()
    ensures AsWritten(-1234) == "-12.-34"
    ensures ParseFixed2(AsWritten(-1234)) == None
    ensures Fixed2(-1234) == "-12.34"
  {
    assert CDiv(-1234, 100) == -12 && CRem(-1234, 100) == -34;
    assert Split(-1234) == (-12, -34);
    assert NatText(12) == "12" && NatText(34) == "34";
    assert IntText(-12) == "-12" && ZeroPad2(-34) == "-34";
    assert AsWritten(-1234) == "-12" + "." + "-34";
    AsWrittenUnreadable(-1234);
    assert TwoDigits(34) == "34";
    assert Unsigned2(1234) == "12" + "." + "34";
  }

  /** A value above -1.00 loses its sign before the dot: -0.05 comes out
      as "0.-5", which does not read back as a number either. */
  lemma AsWrittenLostSign()
    ensures AsWritten(-5) == "0.-5"
    ensures ParseFixed2(AsWritten(-5)) == None
    ensures Fixed2(-5) == "-0.05"
  {
    assert Split(-5) == (0, -5);
    assert TwoDigits(5) == "05";
    assert NatText(5) == "5" && NatText(0) == "0";
    assert Unsigned2(5) == "0.05";
    assert ZeroPad2(-5) == "-5";
    var s := AsWritten(-5);
    assert s == "0" + "." + "-5";
    assert s[..1] == "0" && s[2..] == "-5";
    assert !IsDigit(s[2..][0]);
  }
}
