/** Java's primitive `int` and `char`, nullable references, and the few
    `String` operations (concatenation of literals, decimal rendering of an
    `int`) that the messaging core relies on. */
module JavaTypes {

  const TwoTo16: int := 0x1_0000
  const TwoTo31: int := 0x8000_0000
  const TwoTo32: int := 0x1_0000_0000

  /** A value of Java's 32-bit two's-complement `int`. */
  type Int32 = x: int | -0x8000_0000 <= x < 0x8000_0000

  /** A value of Java's 16-bit unsigned `char` (one UTF-16 code unit). */
  type Char16 = c: int | 0 <= c < 0x1_0000

  /** A Java `String`: a sequence of UTF-16 code units. */
  type JString = seq<Char16>

  /** A Java reference that may be `null`. */
  datatype Option<+T> = None | Some(value: T)

  /** The outcome of a Java call that either returns normally or throws. */
  datatype Result<+T, +E> = Success(value: T) | Failure(error: E)

  /** Result of Java `int` arithmetic: the mathematical value wrapped into
      32 bits. */
  function Wrap32(x: int): (r: Int32)
    ensures (x - r) % TwoTo32 == 0
    ensures -TwoTo31 <= x < TwoTo31 ==> r == x
  {
    var q := (x + TwoTo31) / TwoTo32;
    assert (x + TwoTo31) % TwoTo32 == x + TwoTo31 - TwoTo32 * q;
    ((x + TwoTo31) % TwoTo32) - TwoTo31
  }

  /** Java's narrowing cast `(char) i`: keeps the low 16 bits. */
  function CastChar(i: int): (c: Char16)
    ensures (i - c) % TwoTo16 == 0
  {
    i % TwoTo16
  }

  /** Adding a multiple of 2^16 does not change the cast character. */
  lemma CastCharShift(x: int, q: int)
    ensures CastChar(x + TwoTo16 * q) == CastChar(x)
  {
  }

  /** Adding a key, casting, subtracting it again and casting gives the
      character back. */
  lemma CastCharUndo(c: Char16, key: int)
    ensures CastChar(CastChar(c + key) - key) == c
  {
    var q := (c + key) / TwoTo16;
    assert CastChar(c + key) - key == c + TwoTo16 * (-q);
    CastCharShift(c, -q);
  }

  /** Wrapping to 32 bits before a cast to `char` makes no difference,
      because 2^16 divides 2^32. */
  lemma CastCharWrap32(x: int)
    ensures CastChar(Wrap32(x)) == CastChar(x)
  {
    var q := (x - Wrap32(x)) / TwoTo32;
    assert x - Wrap32(x) == TwoTo32 * q;
    assert Wrap32(x) == x + TwoTo16 * (-TwoTo16 * q);
    CastCharShift(x, -TwoTo16 * q);
  }

  /** Two `int` results that agree after wrapping differ by a multiple of 2^32. */
  lemma Wrap32Injective(x: int, y: int)
    requires 0 < y - x < TwoTo32
    ensures Wrap32(x) != Wrap32(y)
  {
  }

  /** Wrapping an intermediate result does not change the final wrapped sum. */
  lemma WrapShift(x: int, d: int)
    ensures Wrap32(Wrap32(x) + d) == Wrap32(x + d)
  {
    var q := (x - Wrap32(x)) / TwoTo32;
    assert Wrap32(x) + d == (x + d) - TwoTo32 * q;
    WrapPeriodic(x + d, q);
  }

  /** Wrapping is periodic with period 2^32. */
  lemma WrapPeriodic(x: int, q: int)
    ensures Wrap32(x - TwoTo32 * q) == Wrap32(x)
  {
  }

  /** A Java string literal written in ASCII, as UTF-16 code units. */
  function Lit(s: string): (r: JString)
    ensures |r| == |s|
  {
    seq(|s|, i requires 0 <= i < |s| => (s[i] as int) % TwoTo16)
  }

  /** The literal of a concatenation is the concatenation of the literals. */
  lemma LitConcat(s: string, t: string)
    ensures Lit(s + t) == Lit(s) + Lit(t)
  {
    var l := Lit(s + t);
    forall i | 0 <= i < |l|
      ensures l[i] == (Lit(s) + Lit(t))[i]
    {
      if i < |s| {
        assert (s + t)[i] == s[i];
      } else {
        assert (s + t)[i] == t[i - |s|];
      }
    }
  }

  /** Each of five concatenated strings can be cut back out at its offset. */
  lemma ConcatParts(a: JString, b: JString, c: JString, d: JString, e: JString)
    ensures var r := a + b + c + d + e;
            var i, j, k, l := |a|, |a| + |b|, |a| + |b| + |c|, |a| + |b| + |c| + |d|;
            && |r| == l + |e|
            && r[..i] == a && r[i..j] == b && r[j..k] == c && r[k..l] == d && r[l..] == e
  {
    var r := a + b + c + d + e;
    var i, j, k, l := |a|, |a| + |b|, |a| + |b| + |c|, |a| + |b| + |c| + |d|;
    assert r[..i] == a;
    assert r[i..j] == b;
    assert r[j..k] == c;
    assert r[k..l] == d;
    assert r[l..] == e;
  }

  /** Java's rendering of a possibly-null string in a concatenation. */
  function OrNull(s: Option<JString>): (r: JString)
    ensures s.Some? ==> r == s.value
    ensures s.None? ==> r == Lit("null")
  {
    match s
    case Some(v) => v
    case None => Lit("null")
  }

  const ZeroChar: Char16 := 48
  const MinusChar: Char16 := 45

  predicate IsDigit(c: Char16) {
    ZeroChar <= c < ZeroChar + 10
  }

  predicate AllDigits(s: JString) {
    forall i :: 0 <= i < |s| ==> IsDigit(s[i])
  }

  /** The decimal digits of a natural number, most significant first, no
      leading zeros. */
  function Digits(n: nat): (r: JString)
    ensures |r| > 0 && AllDigits(r)
    ensures |r| == 1 <==> n < 10
    ensures n > 0 ==> r[0] != ZeroChar
    decreases n
  {
    if n < 10 then [ZeroChar + n] else Digits(n / 10) + [ZeroChar + n % 10]
  }

  /** The value of a string of decimal digits. */
  function DigitsValue(s: JString): nat
    requires AllDigits(s)
  {
    if |s| == 0 then 0 else 10 * DigitsValue(s[..|s| - 1]) + (s[|s| - 1] - ZeroChar)
  }

  lemma {:induction false} DigitsRoundTrip(n: nat)
    ensures DigitsValue(Digits(n)) == n
    decreases n
  {
    if n >= 10 {
      var d := Digits(n);
      assert d[..|d| - 1] == Digits(n / 10);
      DigitsRoundTrip(n / 10);
    }
  }

  /** Java's `String.valueOf(int)` for a value of any size: an optional
      minus sign followed by the digits of the magnitude. */
  function Decimal(n: int): (r: JString)
    ensures |r| > 0
    ensures forall i :: 0 <= i < |r| ==> IsDigit(r[i]) || r[i] == MinusChar
  {
    if n < 0 then [MinusChar] + Digits(-n) else Digits(n)
  }

  /** Digits as `String.valueOf` writes them: at least one, and no leading
      zero unless the number is 0 itself. */
  predicate Canonical(d: JString) {
    |d| > 0 && AllDigits(d) && (|d| == 1 || d[0] != ZeroChar)
  }

  /** Parses what `Decimal` produces, and nothing else: an optional minus
      sign before a non-zero magnitude, and no leading zeros. */
  function ParseDecimal(s: JString): Option<int>
  {
    if |s| > 1 && s[0] == MinusChar && Canonical(s[1..]) && s[1] != ZeroChar then
      var v: int := 0 - DigitsValue(s[1..]) as int;
      Some(v)
    else if Canonical(s) then
      Some(DigitsValue(s))
    else
      None
  }

  /** Digits with a non-zero leading digit have a positive value. */
  lemma {:induction false} LeadingDigitPositive(d: JString)
    requires |d| > 0 && AllDigits(d) && d[0] != ZeroChar
    ensures DigitsValue(d) > 0
    decreases |d|
  {
    if |d| > 1 {
      var init := d[..|d| - 1];
      assert init[0] == d[0];
      LeadingDigitPositive(init);
    }
  }

  /** Canonical digits are exactly the digits of their value. */
  lemma {:induction false} CanonicalDigits(d: JString)
    requires Canonical(d)
    ensures Digits(DigitsValue(d)) == d
    decreases |d|
  {
    if |d| > 1 {
      var init := d[..|d| - 1];
      assert init[0] == d[0];
      assert AllDigits(init);
      LeadingDigitPositive(init);
      CanonicalDigits(init);
      var v := DigitsValue(d);
      assert v == 10 * DigitsValue(init) + (d[|d| - 1] - ZeroChar);
      assert v / 10 == DigitsValue(init) && v % 10 == d[|d| - 1] - ZeroChar;
      assert d == init + [d[|d| - 1]];
    }
  }

  /** A minus sign before canonical digits that do not start with 0 reads
      as the negated value of the digits. */
  lemma ParseNegative(d: JString)
    requires Canonical(d) && d[0] != ZeroChar
    ensures ParseDecimal([MinusChar] + d) == Some(0 - DigitsValue(d))
  {
    var s := [MinusChar] + d;
    assert s[1..] == d && s[1] == d[0];
  }

  /** Canonical digits read as their value. */
  lemma ParseNonNegative(d: JString)
    requires Canonical(d)
    ensures ParseDecimal(d) == Some(DigitsValue(d))
  {
    assert IsDigit(d[0]);
  }

  /** Every `int` can be read back from its decimal rendering. */
  lemma DecimalRoundTrip(n: int)
    ensures ParseDecimal(Decimal(n)) == Some(n)
  {
    if n < 0 {
      ParseNegative(Digits(-n));
      DigitsRoundTrip(-n);
    } else {
      ParseNonNegative(Digits(n));
      DigitsRoundTrip(n);
    }
  }

  /** The only text that parses as `n` is the decimal rendering of `n`. */
  lemma ParsedIsDecimal(s: JString, n: int)
    requires ParseDecimal(s) == Some(n)
    ensures s == Decimal(n)
  {
    if |s| > 1 && s[0] == MinusChar && Canonical(s[1..]) && s[1] != ZeroChar {
      LeadingDigitPositive(s[1..]);
      CanonicalDigits(s[1..]);
      assert s == [MinusChar] + s[1..];
    } else {
      CanonicalDigits(s);
    }
  }

  /** Distinct numbers render as distinct strings. */
  lemma DecimalInjective(m: int, n: int)
    requires m != n
    ensures Decimal(m) != Decimal(n)
  {
    DecimalRoundTrip(m);
    DecimalRoundTrip(n);
  }
}
