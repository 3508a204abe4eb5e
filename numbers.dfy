/** Python's number <-> text conversions as the core uses them: `int()` and
    `float()` on the strings `convert_digits` builds, `str()` of a natural
    number, and the `%d` / `%0.Nf` printf formats. Floats are kept exact. */
module Numbers {
  import opened Wrappers
  import opened Unicode
  import opened PyStr

  const PLUS_SIGN: CodePoint := 0x2B

  /** A Python float, kept as an exact decimal: (-1)^neg * mant / 10^exp.
      `neg` is kept apart from `mant` so that -0.0 exists, as in Python. */
  datatype Fixed = Fixed(neg: bool, mant: nat, exp: nat)

  function Pow10(n: nat): (p: nat)
    ensures p >= 1
  {
    if n == 0 then 1 else 10 * Pow10(n - 1)
  }

  /** The number whose base-10 digits, most significant first, are `ds`. */
  function DigitsValue(ds: seq<nat>): nat
    decreases |ds|
  {
    if ds == [] then 0 else 10 * DigitsValue(ds[..|ds| - 1]) + ds[|ds| - 1]
  }

  /** Leading zeros do not change the value. */
  lemma {:induction false} LeadingZero(ds: seq<nat>)
    ensures DigitsValue([0] + ds) == DigitsValue(ds)
    decreases |ds|
  {
    if ds != [] {
      assert ([0] + ds)[..|ds|] == [0] + ds[..|ds| - 1];
      LeadingZero(ds[..|ds| - 1]);
    }
  }

  predicate AllLatinDigits(s: Str) {
    forall i :: 0 <= i < |s| ==> IsLatinDigit(s[i])
  }

  /** The digit values of a run of ASCII digits. */
  function LatinValues(s: Str): (ds: seq<nat>)
    requires AllLatinDigits(s)
    ensures |ds| == |s| && forall i :: 0 <= i < |s| ==> ds[i] < 10 && LatinDigit(ds[i]) == s[i]
  {
    seq(|s|, i requires 0 <= i < |s| => s[i] - DIGIT_ZERO)
  }

  /** Index of the first occurrence of `c` in `s`. */
  function FirstIndex(s: Str, c: CodePoint): (k: nat)
    requires c in s
    ensures k < |s| && s[k] == c && c !in s[..k]
    decreases |s|
  {
    if s[0] == c then 0 else 1 + FirstIndex(s[1..], c)
  }

  /** The first occurrence is the one with none before it. */
  lemma {:induction false} FirstIndexAt(s: Str, c: CodePoint, k: nat)
    requires k < |s| && s[k] == c && c !in s[..k]
    ensures FirstIndex(s, c) == k
    decreases k
  {
    if k > 0 {
      assert s[0] == s[..k][0];
      assert s[1..][..k - 1] == s[..k][1..];
      FirstIndexAt(s[1..], c, k - 1);
    }
  }

  /** The '-' that starts the text of a negative number. */
  function SignText(neg: bool): Str {
    if neg then [HYPHEN_MINUS] else []
  }

  /** A magnitude with a sign applied. */
  function Signed(neg: bool, n: nat): int {
    if neg then 0 - n else n
  }

  /** An optional leading sign split off: whether it was '-', and the rest. */
  function SplitSign(t: Str): (r: (bool, Str))
    ensures r.1 == t || (t != [] && r.1 == t[1..])
  {
    if t != [] && (t[0] == HYPHEN_MINUS || t[0] == PLUS_SIGN) then (t[0] == HYPHEN_MINUS, t[1..])
    else (false, t)
  }

  lemma DigitNotSpace(c: CodePoint)
    requires IsLatinDigit(c)
    ensures !IsSpace(c)
  {
  }

  /** A text that starts with a digit and does not end in whitespace reads back
      as itself, with the sign it was given. */
  lemma SplitSignText(neg: bool, body: Str)
    requires body != [] && IsLatinDigit(body[0]) && !IsSpace(body[|body| - 1])
    ensures SplitSign(Strip(SignText(neg) + body)) == (neg, body)
  {
    var s := SignText(neg) + body;
    if neg {
      assert s[0] == HYPHEN_MINUS && s[|s| - 1] == body[|body| - 1] && s[1..] == body;
    } else {
      assert s == body;
    }
    StripUnspaced(s);
  }

  /** `int(s)`: surrounding whitespace is skipped, then an optional sign and one
      or more digits. (`int` also accepts `_` between digits and non-ASCII
      decimal digits; neither can reach it from `convert_digits`.) */
  function PyInt(s: Str): (r: Result<int>)
    ensures r.Raise? ==> r == Raise(ValueError)
  {
    var (neg, body) := SplitSign(Strip(s));
    IntBody(neg, body)
  }

  function IntBody(neg: bool, body: Str): Result<int> {
    if body != [] && AllLatinDigits(body) then
      Ok(Signed(neg, DigitsValue(LatinValues(body))))
    else
      Raise(ValueError)
  }

  /** `float(s)` on text without letters or underscores: surrounding whitespace
      is skipped, then an optional sign, digits, and at most one `.`, with at
      least one digit in all. The value is kept exact. */
  function PyFloat(s: Str): (r: Result<Fixed>)
    ensures r.Raise? ==> r == Raise(ValueError)
  {
    var (neg, body) := SplitSign(Strip(s));
    FloatBody(neg, body)
  }

  function FloatBody(neg: bool, body: Str): Result<Fixed> {
    if FULL_STOP in body then
      var k := FirstIndex(body, FULL_STOP);
      var whole, frac := body[..k], body[k + 1..];
      if AllLatinDigits(whole) && AllLatinDigits(frac) && whole + frac != [] then
        Ok(Fixed(neg, DigitsValue(LatinValues(whole + frac)), |frac|))
      else
        Raise(ValueError)
    else if body != [] && AllLatinDigits(body) then
      Ok(Fixed(neg, DigitsValue(LatinValues(body)), 0))
    else
      Raise(ValueError)
  }

  /** `str(n)` for a natural number: its decimal digits without leading zeros. */
  function DecimalDigits(n: nat): (s: Str)
    ensures s != [] && AllLatinDigits(s)
    ensures |s| > 1 ==> s[0] != DIGIT_ZERO
    decreases n
  {
    if n < 10 then [LatinDigit(n)] else DecimalDigits(n / 10) + [LatinDigit(n % 10)]
  }

  /** Reading back the digits of `str(n)` gives `n`. */
  lemma {:induction false} DecimalDigitsValue(n: nat)
    ensures DigitsValue(LatinValues(DecimalDigits(n))) == n
    decreases n
  {
    if n >= 10 {
      var s := DecimalDigits(n);
      assert LatinValues(s)[..|s| - 1] == LatinValues(DecimalDigits(n / 10));
      DecimalDigitsValue(n / 10);
    }
  }

  /** '%d' % i. */
  function PercentD(i: int): Str {
    SignText(i < 0) + DecimalDigits(if i < 0 then -i else i)
  }

  /** `n / d` rounded to the nearest integer, ties to the even one. */
  function RoundDiv(n: nat, d: nat): (m: nat)
    requires d > 0 && d % 2 == 0
    ensures 2 * (n - m * d) <= d && 2 * (m * d - n) <= d
    ensures 2 * (n - m * d) == d || 2 * (m * d - n) == d ==> m % 2 == 0
  {
    DivFacts(n, d);
    if 2 * (n % d) > d || (2 * (n % d) == d && (n / d) % 2 == 1) then n / d + 1 else n / d
  }

  lemma DivFacts(n: nat, d: nat)
    requires d > 0
    ensures 0 <= n % d < d && n - (n / d) * d == n % d && (n / d + 1) * d - n == d - n % d
  {
  }

  /** `x` rounded to `places` decimals, as the integer M with value M / 10^places:
      exact when `x` has no more decimals than that, otherwise the nearest such
      value, ties to the even one. */
  function RoundTo(x: Fixed, places: nat): (m: nat)
    ensures x.exp <= places ==> m == x.mant * Pow10(places - x.exp)
    ensures x.exp > places ==>
      var d := Pow10(x.exp - places);
      2 * (x.mant - m * d) <= d && 2 * (m * d - x.mant) <= d
      && (2 * (x.mant - m * d) == d || 2 * (m * d - x.mant) == d ==> m % 2 == 0)
  {
    if x.exp <= places then x.mant * Pow10(places - x.exp)
    else
      Pow10Even(x.exp - places);
      RoundDiv(x.mant, Pow10(x.exp - places))
  }

  lemma Pow10Even(n: nat)
    requires n >= 1
    ensures Pow10(n) % 2 == 0
  {
    assert Pow10(n) == 2 * (5 * Pow10(n - 1));
  }

  /** `s` padded on the left with '0' to at least `width` characters. */
  function ZeroPad(s: Str, width: nat): (r: Str)
    ensures |r| == if |s| < width then width else |s|
    ensures r[|r| - |s|..] == s
    ensures forall i :: 0 <= i < |r| - |s| ==> r[i] == DIGIT_ZERO
  {
    if |s| < width then Zeros(width - |s|) + s else s
  }

  /** `k` copies of '0'. */
  function Zeros(k: nat): (z: Str)
    ensures |z| == k && forall i :: 0 <= i < k ==> z[i] == DIGIT_ZERO
  {
    seq(k, _ => DIGIT_ZERO)
  }

  /** Padding a short run is padding it with one more '0' in front. */
  lemma ZeroPadStep(s: Str, width: nat)
    requires |s| < width
    ensures ZeroPad(s, width) == ZeroPad([DIGIT_ZERO] + s, width)
  {
    assert Zeros(width - |s|) == Zeros(width - |s| - 1) + [DIGIT_ZERO];
  }

  /** The value of a concatenation of digit runs. */
  lemma {:induction false} DigitsValueConcat(a: seq<nat>, b: seq<nat>)
    ensures DigitsValue(a + b) == DigitsValue(a) * Pow10(|b|) + DigitsValue(b)
    decreases |b|
  {
    if b == [] {
      assert a + b == a;
    } else {
      var b' := b[..|b| - 1];
      assert (a + b)[..|a + b| - 1] == a + b' && (a + b)[|a + b| - 1] == b[|b| - 1];
      DigitsValueConcat(a, b');
      ShiftDigit(DigitsValue(a), Pow10(|b'|), DigitsValue(b'));
    }
  }

  lemma ShiftDigit(x: int, y: int, z: int)
    ensures 10 * (x * y + z) == x * (10 * y) + 10 * z
  {
  }

  lemma LatinValuesSplit(s: Str, k: nat)
    requires AllLatinDigits(s) && k <= |s|
    ensures AllLatinDigits(s[..k]) && AllLatinDigits(s[k..])
    ensures LatinValues(s) == LatinValues(s[..k]) + LatinValues(s[k..])
  {
    assert forall i :: 0 <= i < k ==> s[..k][i] == s[i];
    assert forall i :: k <= i < |s| ==> s[k..][i - k] == s[i];
  }

  lemma LatinValuesConcat(a: Str, b: Str)
    requires AllLatinDigits(a) && AllLatinDigits(b)
    ensures AllLatinDigits(a + b) && LatinValues(a + b) == LatinValues(a) + LatinValues(b)
  {
  }

  /** Zero padding does not change the value of a digit run. */
  lemma {:induction false} ZeroPadValue(s: Str, width: nat)
    requires AllLatinDigits(s)
    ensures AllLatinDigits(ZeroPad(s, width))
    ensures DigitsValue(LatinValues(ZeroPad(s, width))) == DigitsValue(LatinValues(s))
    decreases width - |s|
  {
    if |s| < width {
      assert LatinValues([DIGIT_ZERO] + s) == [0] + LatinValues(s);
      LeadingZero(LatinValues(s));
      ZeroPadValue([DIGIT_ZERO] + s, width);
      ZeroPadStep(s, width);
    }
  }

  /** A run of digits with '.' placed before its last `places` digits (none when 0). */
  function PointAt(ds: Str, places: nat): Str
    requires places < |ds|
  {
    if places == 0 then ds else ds[..|ds| - places] + ([FULL_STOP] + ds[|ds| - places..])
  }

  /** The text of m / 10^places with exactly `places` decimals, with a leading
      '-' when `neg`: the layout of `%0.Nf`. The digits of `m` are padded to
      at least one more than `places`. */
  function FixedText(neg: bool, m: nat, places: nat): Str {
    SignText(neg) + PointAt(ZeroPad(DecimalDigits(m), places + 1), places)
  }

  /** '%0.Nf' % x with N = `places`. */
  function PercentF(x: Fixed, places: nat): Str {
    FixedText(x.neg, RoundTo(x, places), places)
  }

  /** `int` reads back what `%d` writes. */
  lemma PercentDRoundTrip(i: int)
    ensures PyInt(PercentD(i)) == Ok(i)
  {
    var ds := DecimalDigits(if i < 0 then -i else i);
    DecimalDigitsValue(if i < 0 then -i else i);
    DigitNotSpace(ds[|ds| - 1]);
    SplitSignText(i < 0, ds);
  }

  /** `float` on a run of digits. */
  lemma FloatBodyWhole(neg: bool, whole: Str)
    requires whole != [] && AllLatinDigits(whole)
    ensures FloatBody(neg, whole) == Ok(Fixed(neg, DigitsValue(LatinValues(whole)), 0))
  {
  }

  /** `float` on digits, '.', and more (possibly no) digits. */
  lemma FloatBodyPoint(neg: bool, whole: Str, frac: Str)
    requires whole != [] && AllLatinDigits(whole) && AllLatinDigits(frac)
    ensures FloatBody(neg, whole + ([FULL_STOP] + frac))
      == Ok(Fixed(neg, DigitsValue(LatinValues(whole + frac)), |frac|))
  {
    var body := whole + ([FULL_STOP] + frac);
    assert body[|whole|] == FULL_STOP && body[..|whole|] == whole;
    FirstIndexAt(body, FULL_STOP, |whole|);
    assert body[|whole| + 1..] == frac;
  }

  /** `float` reads back what `%0.Nf` writes: the sign, and the digits as an
      exact value with `places` decimals. */
  lemma PercentFRoundTrip(neg: bool, m: nat, places: nat)
    ensures PyFloat(FixedText(neg, m, places)) == Ok(Fixed(neg, m, places))
  {
    DecimalDigitsValue(m);
    ZeroPadValue(DecimalDigits(m), places + 1);
    PointAtRoundTrip(neg, ZeroPad(DecimalDigits(m), places + 1), places);
  }

  /** `float` of a signed digit run with a point placed in it. */
  lemma PointAtRoundTrip(neg: bool, ds: Str, places: nat)
    requires places < |ds| && AllLatinDigits(ds)
    ensures PyFloat(SignText(neg) + PointAt(ds, places)) == Ok(Fixed(neg, DigitsValue(LatinValues(ds)), places))
  {
    if places == 0 {
      PyFloatDigits(neg, ds);
    } else {
      PyFloatPoint(neg, ds, places);
    }
  }

  lemma PyFloatDigits(neg: bool, ds: Str)
    requires ds != [] && AllLatinDigits(ds)
    ensures PyFloat(SignText(neg) + ds) == Ok(Fixed(neg, DigitsValue(LatinValues(ds)), 0))
  {
    DigitNotSpace(ds[|ds| - 1]);
    SplitSignText(neg, ds);
    FloatBodyWhole(neg, ds);
  }

  lemma PyFloatPoint(neg: bool, ds: Str, places: nat)
    requires 0 < places < |ds| && AllLatinDigits(ds)
    ensures PyFloat(SignText(neg) + PointAt(ds, places)) == Ok(Fixed(neg, DigitsValue(LatinValues(ds)), places))
  {
    var whole, frac := ds[..|ds| - places], ds[|ds| - places..];
    PointBody(ds, places);
    SplitSignText(neg, whole + ([FULL_STOP] + frac));
    FloatBodyPoint(neg, whole, frac);
  }

  /** The text with a '.' inserted is the whole digits, '.', the decimals. */
  lemma PointBody(ds: Str, places: nat)
    requires 0 < places < |ds| && AllLatinDigits(ds)
    ensures var whole, frac := ds[..|ds| - places], ds[|ds| - places..];
      var body := whole + ([FULL_STOP] + frac);
      PointAt(ds, places) == body && whole + frac == ds && whole != [] && |frac| == places
      && AllLatinDigits(whole) && AllLatinDigits(frac)
      && IsLatinDigit(body[0]) && !IsSpace(body[|body| - 1])
  {
    var whole, frac := ds[..|ds| - places], ds[|ds| - places..];
    var body := whole + ([FULL_STOP] + frac);
    assert whole + frac == ds;
    assert body[0] == ds[0] && body[|body| - 1] == ds[|ds| - 1];
    DigitNotSpace(ds[|ds| - 1]);
  }

  /** `int` refuses digits with whitespace between them. */
  lemma PyIntInnerSpace(neg: bool, a: Str, x: CodePoint, b: Str)
    requires a != [] && b != [] && AllLatinDigits(a) && AllLatinDigits(b) && IsSpace(x)
    ensures PyInt(SignText(neg) + (a + ([x] + b))) == Raise(ValueError)
  {
    var body := a + ([x] + b);
    assert body[0] == a[0] && body[|body| - 1] == b[|b| - 1] && body[|a|] == x;
    DigitNotSpace(b[|b| - 1]);
    SplitSignText(neg, body);
  }

  /** `float` refuses a second '.'. */
  lemma PyFloatTwoPoints(neg: bool, a: Str, b: Str, c: Str)
    requires a != [] && AllLatinDigits(a) && AllLatinDigits(b) && AllLatinDigits(c)
    ensures PyFloat(SignText(neg) + (a + ([FULL_STOP] + (b + ([FULL_STOP] + c))))) == Raise(ValueError)
  {
    var frac := b + ([FULL_STOP] + c);
    var body := a + ([FULL_STOP] + frac);
    assert body[0] == a[0] && body[|body| - 1] == frac[|frac| - 1];
    PointedEnd(b, c);
    SplitSignText(neg, body);
    assert frac[|b|] == FULL_STOP;
    FloatBodyBadFraction(neg, a, frac);
  }

  /** Digits, '.' and digits do not end in whitespace. */
  lemma PointedEnd(b: Str, c: Str)
    requires AllLatinDigits(c)
    ensures var t := b + ([FULL_STOP] + c); !IsSpace(t[|t| - 1])
  {
    var t := b + ([FULL_STOP] + c);
    if c != [] {
      assert t[|t| - 1] == c[|c| - 1];
      DigitNotSpace(c[|c| - 1]);
    }
  }

  /** `float` refuses a fraction that is not all digits. */
  lemma FloatBodyBadFraction(neg: bool, a: Str, frac: Str)
    requires AllLatinDigits(a) && !AllLatinDigits(frac)
    ensures FloatBody(neg, a + ([FULL_STOP] + frac)) == Raise(ValueError)
  {
    var body := a + ([FULL_STOP] + frac);
    assert body[|a|] == FULL_STOP && body[..|a|] == a && body[|a| + 1..] == frac;
    assert FirstIndex(body, FULL_STOP) == |a|;
  }

  /** Text without a sign character reads as a number that is not negative. */
  lemma PyIntUnsigned(t: Str)
    requires HYPHEN_MINUS !in t && PLUS_SIGN !in t
    ensures PyInt(t).Ok? ==> PyInt(t).value >= 0
  {
    StripIn(t);
    var st := Strip(t);
    assert st != [] ==> st[0] in t;
  }

  /** Text without a sign character reads as a value without a minus sign. */
  lemma PyFloatUnsigned(t: Str)
    requires HYPHEN_MINUS !in t && PLUS_SIGN !in t
    ensures PyFloat(t).Ok? ==> !PyFloat(t).value.neg
  {
    StripIn(t);
    var st := Strip(t);
    assert st != [] ==> st[0] in t;
  }
}
