/** The JVM `Long` arithmetic and text conversion the session tracker relies on:
    64-bit two's-complement subtraction, division truncating toward zero, and
    decimal rendering as string templates (`"$n"`) produce it. */
module KotlinLong {
  import opened Wrappers

  const MinLong: int := -0x8000_0000_0000_0000
  const MaxLong: int := 0x7FFF_FFFF_FFFF_FFFF
  const Modulus: int := 0x1_0000_0000_0000_0000

  /** A value of Kotlin type `Long`. */
  type Long = x: int | MinLong <= x <= MaxLong

  /** Reduces an integer into the `Long` range modulo 2^64 (two's-complement wrap-around). */
  function Wrap(x: int): (r: Long)
    ensures (x - r) % Modulus == 0
    ensures MinLong <= x <= MaxLong ==> r == x
  {
    var m := (x - MinLong) % Modulus;
    assert x - MinLong == Modulus * ((x - MinLong) / Modulus) + m;
    m + MinLong
  }

  /** `a - b` on two `Long`s: the mathematical difference when it fits, wrapped otherwise. */
  function Sub(a: Long, b: Long): (r: Long)
    ensures (a - b - r) % Modulus == 0
    ensures MinLong <= a - b <= MaxLong ==> r == a - b
    ensures 0 <= b <= a ==> r == a - b
  {
    Wrap(a - b)
  }

  /** `a / 1000` on a `Long`: the quotient truncated toward zero, unlike Dafny's
      Euclidean `/`, which rounds negative dividends down. */
  function DivTrunc1000(a: Long): (q: Long)
    ensures 0 <= a ==> 0 <= q && q * 1000 <= a < q * 1000 + 1000
    ensures a < 0 ==> q <= 0 && q * 1000 - 1000 < a <= q * 1000
  {
    var magnitude: nat := if a >= 0 then a else -(a as int);
    var q := magnitude / 1000;
    if a >= 0 then q else -q
  }

  predicate IsDigit(c: char) {
    '0' <= c <= '9'
  }

  predicate AllDigits(s: string) {
    forall i :: 0 <= i < |s| ==> IsDigit(s[i])
  }

  function DigitChar(d: nat): (c: char)
    requires d < 10
    ensures IsDigit(c)
  {
    (('0' as int) + d) as char
  }

  function DigitValue(c: char): (d: nat)
    requires IsDigit(c)
    ensures d < 10
  {
    (c as int) - ('0' as int)
  }

  /** Decimal digits of a natural number, most significant first, without leading zeros. */
  function NatDigits(n: nat): (s: string)
    ensures |s| > 0 && AllDigits(s)
    ensures |s| > 1 ==> s[0] != '0'
    decreases n
  {
    if n < 10 then [DigitChar(n)] else NatDigits(n / 10) + [DigitChar(n % 10)]
  }

  /** The number a run of decimal digits denotes, the empty run denoting 0. */
  function DigitsValue(s: string): nat
    requires AllDigits(s)
    decreases |s|
  {
    if |s| == 0 then 0 else DigitsValue(s[..|s| - 1]) * 10 + DigitValue(s[|s| - 1])
  }

  /** `Long.toString()`: an optional minus sign followed by the digits of the magnitude. */
  function ToDecimal(n: int): (s: string)
    ensures |s| > 0
    ensures n >= 0 ==> AllDigits(s)
    ensures n < 0 ==> s[0] == '-' && AllDigits(s[1..])
  {
    if n < 0 then "-" + NatDigits(-n) else NatDigits(n)
  }

  /** A digit run as `ToDecimal` writes it: non-empty, and no leading zero unless it is "0". */
  predicate Canonical(s: string) {
    |s| > 0 && AllDigits(s) && (|s| > 1 ==> s[0] != '0')
  }

  /** Reads back exactly what `ToDecimal` writes: an optional '-' before a canonical digit
      run, where "-0" is refused. */
  function ParseDecimal(s: string): (r: Option<int>)
    ensures r.Some? ==> |s| > 0
  {
    if |s| > 0 && s[0] == '-' then
      if Canonical(s[1..]) && s[1..] != "0" then Some(0 - DigitsValue(s[1..]) as int) else None
    else if Canonical(s) then Some(DigitsValue(s))
    else None
  }

  lemma {:induction false} DigitsRoundTrip(n: nat)
    ensures DigitsValue(NatDigits(n)) == n
    decreases n
  {
    if n >= 10 {
      var s := NatDigits(n);
      assert s[..|s| - 1] == NatDigits(n / 10);
      DigitsRoundTrip(n / 10);
    }
  }

  /** A canonical digit run is the rendering of the number it denotes, and that number is
      positive exactly when the run is not "0". */
  lemma {:induction false} CanonicalDigitsRoundTrip(s: string)
    requires Canonical(s)
    ensures NatDigits(DigitsValue(s)) == s
    ensures (DigitsValue(s) == 0) == (s == "0")
    decreases |s|
  {
    var last := s[|s| - 1];
    if |s| > 1 {
      var front := s[..|s| - 1];
      assert front[0] == s[0];
      CanonicalDigitsRoundTrip(front);
      var v := DigitsValue(s);
      assert v / 10 == DigitsValue(front) && v % 10 == DigitValue(last);
      assert DigitChar(DigitValue(last)) == last;
      assert s == front + [last];
    } else {
      assert s == [last];
      assert DigitChar(DigitValue(last)) == last;
    }
  }

  /** The rendered decimal of every integer parses back to that integer ... */
  lemma DecimalRoundTrip(n: int)
    ensures ParseDecimal(ToDecimal(n)) == Some(n)
  {
    if n < 0 {
      var s := ToDecimal(n);
      assert s[1..] == NatDigits(-n);
      DigitsRoundTrip(-n);
    } else {
      DigitsRoundTrip(n);
    }
  }

  /** ... and every text that parses is the rendering of the integer it parses to. */
  lemma DecimalParseExact(s: string)
    requires ParseDecimal(s).Some?
    ensures ToDecimal(ParseDecimal(s).value) == s
  {
    if s[0] == '-' {
      CanonicalDigitsRoundTrip(s[1..]);
      assert s == "-" + s[1..];
    } else {
      CanonicalDigitsRoundTrip(s);
    }
  }
}
