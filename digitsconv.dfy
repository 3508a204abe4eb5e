/** The Sorani Kurdish plotting scripts' `digitsconv`: every '-' becomes
    ARABIC-INDIC DIGIT ZERO, and the text goes to `convert_digits` with the
    Arabic separators, U+066C for groups and U+066B for decimals. */
module SoraniDecode {
  import opened Wrappers
  import opened Unicode
  import opened PyStr
  import opened Numbers
  import opened NumeralData
  import opened Decoder

  /** `digitsconv(x)` of the copy whose pattern is `v`: the only failure is
      the decoder's ValueError, and text handed back unchanged holds no '-'. */
  function DigitsConv(v: Variant, x: Str): (r: Result<Value>)
    ensures r.Raise? ==> r == Raise(ValueError)
    ensures r.Ok? && r.value.Text? ==> HYPHEN_MINUS !in r.value.s
  {
    NoHyphenLeft(x);
    ConvertDigits(v, Replace(x, [HYPHEN_MINUS], [ARABIC_INDIC_ZERO]), ARABIC_SEPS)
  }

  /** '-' is gone before the decoder sees the text, so no result is negative. */
  lemma NeverNegative(v: Variant, x: Str)
    ensures var r := DigitsConv(v, x);
      (r.Ok? && r.value.Int? ==> r.value.i >= 0) && (r.Ok? && r.value.Float? ==> !r.value.x.neg)
  {
    var s := Replace(x, [HYPHEN_MINUS], [ARABIC_INDIC_ZERO]);
    NoHyphenLeft(x);
    if Matches(v, s) {
      NoSignCharacter(v, s);
      UnsignedDecode(v, s);
    }
  }

  /** Decoding text without sign characters gives no negative value. */
  lemma UnsignedDecode(v: Variant, s: Str)
    requires Matches(v, s) && HYPHEN_MINUS !in s && PLUS_SIGN !in s
    ensures var r := ConvertDigits(v, s, ARABIC_SEPS);
      (r.Ok? && r.value.Int? ==> r.value.i >= 0) && (r.Ok? && r.value.Float? ==> !r.value.x.neg)
  {
    var t := DecimalMap(Replace(s, [ARABIC_THOUSANDS_SEPARATOR], []));
    MappedNoSign(s);
    PyIntUnsigned(t);
    PointNoSign(t);
    PyFloatUnsigned(Replace(t, [ARABIC_DECIMAL_SEPARATOR], [FULL_STOP]));
  }

  /** Deleting the group separator and mapping the digits bring in no sign. */
  lemma MappedNoSign(s: Str)
    requires HYPHEN_MINUS !in s && PLUS_SIGN !in s
    ensures var t := DecimalMap(Replace(s, [ARABIC_THOUSANDS_SEPARATOR], []));
      HYPHEN_MINUS !in t && PLUS_SIGN !in t
  {
    ReplaceCharByNothing(s, ARABIC_THOUSANDS_SEPARATOR);
    KeepsNoSign(Replace(s, [ARABIC_THOUSANDS_SEPARATOR], []));
  }

  /** Turning the decimal separator into '.' brings in no sign. */
  lemma PointNoSign(t: Str)
    requires HYPHEN_MINUS !in t && PLUS_SIGN !in t
    ensures var p := Replace(t, [ARABIC_DECIMAL_SEPARATOR], [FULL_STOP]);
      HYPHEN_MINUS !in p && PLUS_SIGN !in p
  {
    ReplaceCharByChar(t, ARABIC_DECIMAL_SEPARATOR, FULL_STOP);
    var p := Replace(t, [ARABIC_DECIMAL_SEPARATOR], [FULL_STOP]);
    forall i | 0 <= i < |p| ensures p[i] != HYPHEN_MINUS && p[i] != PLUS_SIGN {
      assert p[i] == FULL_STOP || p[i] == t[i];
    }
  }

  /** After the rewrite no '-' is left. */
  lemma NoHyphenLeft(x: Str)
    ensures HYPHEN_MINUS !in Replace(x, [HYPHEN_MINUS], [ARABIC_INDIC_ZERO])
  {
    ReplaceCharByChar(x, HYPHEN_MINUS, ARABIC_INDIC_ZERO);
    var s := Replace(x, [HYPHEN_MINUS], [ARABIC_INDIC_ZERO]);
    assert forall i :: 0 <= i < |s| ==> s[i] != HYPHEN_MINUS;
  }

  /** A text the pattern accepts without '-' holds no sign character at all. */
  lemma NoSignCharacter(v: Variant, s: Str)
    requires Matches(v, s) && HYPHEN_MINUS !in s
    ensures PLUS_SIGN !in s
  {
    assert UnsignedMatch(v, s);
  }

  /** Mapping digits to ASCII brings in no sign character. */
  lemma KeepsNoSign(d: Str)
    requires HYPHEN_MINUS !in d && PLUS_SIGN !in d
    ensures HYPHEN_MINUS !in DecimalMap(d) && PLUS_SIGN !in DecimalMap(d)
  {
    DecimalMapAbsent(d, HYPHEN_MINUS);
    DecimalMapAbsent(d, PLUS_SIGN);
  }

  /** A lone '-', the scripts' mark for a missing value, decodes to 0. */
  lemma LoneHyphen(v: Variant)
    requires !v.plus
    ensures DigitsConv(v, [HYPHEN_MINUS]) == Ok(Int(0))
  {
    assert Replace([HYPHEN_MINUS], [HYPHEN_MINUS], [ARABIC_INDIC_ZERO]) == [ARABIC_INDIC_ZERO];
    var z := [ARABIC_INDIC_ZERO];
    SingleDigit(v, false, ARABIC_INDIC_ZERO, ARABIC_SEPS);
    assert SignText(false) + z == z;
  }

  /** A leading '-' becomes a leading zero: the value keeps its digits and
      loses its sign. */
  lemma SignLost(v: Variant, u: Str)
    requires HYPHEN_MINUS !in u && DigitsOr(u, ARABIC_THOUSANDS_SEPARATOR) && UnsignedMatch(v, u)
    ensures DigitsConv(v, [HYPHEN_MINUS] + u) == Ok(Int(DigitsValue(NdValues(u))))
  {
    var z := [ARABIC_INDIC_ZERO] + u;
    HyphenToZero(u);
    ZeroMatches(v, u);
    assert [ARABIC_THOUSANDS_SEPARATOR][0] == ARABIC_THOUSANDS_SEPARATOR;
    assert [ARABIC_DECIMAL_SEPARATOR][0] == ARABIC_DECIMAL_SEPARATOR;
    IntegerDecode(v, false, z, ARABIC_SEPS);
    assert SignText(false) + z == z;
    ZeroValue(u);
  }

  /** `convert_digits` with the same separators, without the rewrite, reads
      the '-' as a sign. */
  lemma SignKept(v: Variant, u: Str)
    requires DigitsOr(u, ARABIC_THOUSANDS_SEPARATOR) && UnsignedMatch(v, u)
    ensures ConvertDigits(v, [HYPHEN_MINUS] + u, ARABIC_SEPS) == Ok(Int(Signed(true, DigitsValue(NdValues(u)))))
  {
    assert [ARABIC_THOUSANDS_SEPARATOR][0] == ARABIC_THOUSANDS_SEPARATOR;
    assert [ARABIC_DECIMAL_SEPARATOR][0] == ARABIC_DECIMAL_SEPARATOR;
    IntegerDecode(v, true, u, ARABIC_SEPS);
  }

  lemma HyphenToZero(u: Str)
    requires HYPHEN_MINUS !in u
    ensures Replace([HYPHEN_MINUS] + u, [HYPHEN_MINUS], [ARABIC_INDIC_ZERO]) == [ARABIC_INDIC_ZERO] + u
  {
    ReplaceCharConcat([HYPHEN_MINUS], u, HYPHEN_MINUS, [ARABIC_INDIC_ZERO]);
    assert Replace([HYPHEN_MINUS], [HYPHEN_MINUS], [ARABIC_INDIC_ZERO]) == [ARABIC_INDIC_ZERO];
    ContainsChar(u, HYPHEN_MINUS);
    ReplaceAbsent(u, [HYPHEN_MINUS], [ARABIC_INDIC_ZERO]);
  }

  lemma ZeroMatches(v: Variant, u: Str)
    requires UnsignedMatch(v, u)
    ensures UnsignedMatch(v, [ARABIC_INDIC_ZERO] + u)
  {
    var z := [ARABIC_INDIC_ZERO] + u;
    assert z[0] == ARABIC_INDIC_ZERO;
    forall i | 1 <= i < |z| ensures InClass(v, z[i]) {
      assert z[i] == u[i - 1];
    }
  }

  /** A leading zero adds nothing to the value. */
  lemma ZeroValue(u: Str)
    ensures DigitsValue(NdValues([ARABIC_INDIC_ZERO] + u)) == DigitsValue(NdValues(u))
  {
    NdValuesConcat([ARABIC_INDIC_ZERO], u);
    assert NdValues([ARABIC_INDIC_ZERO]) == [0];
    LeadingZero(NdValues(u));
  }
}
