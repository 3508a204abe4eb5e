/** `is_number`: deletes all whitespace, checks the `+` pattern (U+202F
    included) and, on a match, decodes with `convert_digits`. */
module Validator {
  import opened Wrappers
  import opened Unicode
  import opened PyStr
  import opened Numbers
  import opened NumeralData
  import opened Decoder

  /** The Python type reported in the verdict. */
  datatype PyType = StrType | IntType | FloatType

  /** `type(v)` of a decoded value. */
  function TypeOf(x: Value): (t: PyType)
    ensures t == StrType <==> x.Text?
    ensures t == IntType <==> x.Int?
  {
    match x
    case Text(_) => StrType
    case Int(_) => IntType
    case Float(_) => FloatType
  }

  /** The triple `is_number` returns. */
  datatype Verdict = Verdict(isNumber: bool, ty: PyType, value: Value)

  /** `is_number(x, sep)`. Only strings have `split`, so any other value raises
      AttributeError. The whitespace-free text is reported as not a number
      unless it matches the `+` pattern; then it is decoded, and the decoder's
      ValueError propagates. */
  function IsNumber(x: Value, sep: Seps): (r: Result<Verdict>)
    ensures !x.Text? <==> r == Raise(AttributeError)
    ensures r.Ok? && !r.value.isNumber ==> r.value == Verdict(false, StrType, Text(RemoveWhitespace(x.s)))
    ensures x.Text? ==> (Matches(PLUS_NNBSP, RemoveWhitespace(x.s)) <==> r.Raise? || r.value.isNumber)
    ensures r.Ok? && r.value.isNumber ==> ConvertDigits(STAR_NNBSP, RemoveWhitespace(x.s), sep) == Ok(r.value.value)
    ensures x.Text? && r.Raise? ==> ConvertDigits(STAR_NNBSP, RemoveWhitespace(x.s), sep) == Raise(r.error)
  {
    if !x.Text? then Raise(AttributeError)
    else
      var t := RemoveWhitespace(x.s);
      StripUnspacedText(x.s);
      if Matches(PLUS_NNBSP, Strip(t)) then
        var c := ConvertDigits(STAR_NNBSP, Strip(t), sep);
        if c.Ok? then Ok(Verdict(true, TypeOf(c.value), c.value)) else Raise(c.error)
      else
        Ok(Verdict(false, StrType, Text(t)))
  }

  /** Whitespace anywhere in the text makes no difference. */
  lemma IgnoresWhitespace(s: Str, sep: Seps)
    ensures IsNumber(Text(s), sep) == IsNumber(Text(RemoveWhitespace(s)), sep)
  {
    RemoveWhitespaceIdempotent(s);
  }

  /** A text reported as a number has been decoded to an int or a float, and
      its reported type is that value's type. */
  lemma NumberIsDecoded(s: Str, sep: Seps)
    ensures var r := IsNumber(Text(s), sep);
      r.Ok? && r.value.isNumber ==> !r.value.value.Text? && r.value.ty == TypeOf(r.value.value)
  {
    var t := Strip(RemoveWhitespace(s));
    if Matches(PLUS_NNBSP, t) {
      assert Matches(STAR_NNBSP, t) by {
        if !UnsignedMatch(PLUS_NNBSP, t) {
          assert UnsignedMatch(STAR_NNBSP, t[1..]);
        }
      }
    }
  }

  /** One digit, signed or not and whatever whitespace surrounds it, is not a
      number: the pattern wants a second character. */
  lemma SingleDigitIsNot(s: Str, neg: bool, c: CodePoint, sep: Seps)
    requires IsNd(c) && RemoveWhitespace(s) == SignText(neg) + [c]
    ensures IsNumber(Text(s), sep) == Ok(Verdict(false, StrType, Text(SignText(neg) + [c])))
  {
    var t := SignText(neg) + [c];
    DigitNotSpaceNd(c);
    assert t[|t| - 1] == c;
    StripUnspaced(t);
    MatchesSigned(PLUS_NNBSP, neg, [c]);
  }

  /** A decimal digit is not whitespace. */
  lemma DigitNotSpaceNd(c: CodePoint)
    requires IsNd(c)
    ensures !IsSpace(c)
  {
  }

  /** Two digit runs with whitespace between them are checked with the
      whitespace deleted, so they form one integer, where `convert_digits`
      alone raises ValueError on the same text. */
  lemma SpacedDigits(w: Str, x: CodePoint, f: Str)
    requires w != [] && f != [] && AllNd(w) && AllNd(f) && IsSpace(x)
    ensures IsNumber(Text(w + [x] + f), DEFAULT_SEPS)
      == Ok(Verdict(true, IntType, Int(DigitsValue(NdValues(w + f)))))
  {
    var u := w + f;
    RemoveSpaceBetween(w, x, f);
    IgnoresWhitespace(w + [x] + f, DEFAULT_SEPS);
    assert AllNd(u) by {
      forall i | 0 <= i < |u| ensures IsNd(u[i]) {
        if i < |w| { assert u[i] == w[i]; } else { assert u[i] == f[i - |w|]; }
      }
    }
    DigitRunIsNumber(u);
  }

  /** A run of two or more decimal digits, from any scripts, is an int. */
  lemma DigitRunIsNumber(u: Str)
    requires |u| >= 2 && AllNd(u)
    ensures IsNumber(Text(u), DEFAULT_SEPS) == Ok(Verdict(true, IntType, Int(DigitsValue(NdValues(u)))))
  {
    NdUnspaced(u);
    DigitNotSpaceNd(u[0]);
    DigitNotSpaceNd(u[|u| - 1]);
    StripUnspaced(u);
    assert UnsignedMatch(PLUS_NNBSP, u) && UnsignedMatch(STAR_NNBSP, u);
    assert DigitsOr(u, COMMA);
    assert [COMMA][0] == COMMA && [FULL_STOP][0] == FULL_STOP;
    IntegerDecode(STAR_NNBSP, false, u, DEFAULT_SEPS);
    assert SignText(false) + u == u;
  }

  /** Deleting the whitespace between two digit runs joins them. */
  lemma RemoveSpaceBetween(w: Str, x: CodePoint, f: Str)
    requires AllNd(w) && AllNd(f) && IsSpace(x)
    ensures RemoveWhitespace(w + [x] + f) == w + f
  {
    RemoveWhitespaceConcat(w + [x], f);
    RemoveWhitespaceConcat(w, [x]);
    NdUnspaced(w);
    NdUnspaced(f);
    assert RemoveWhitespace([x]) == [];
  }

  /** Decimal digits are left alone by whitespace removal. */
  lemma NdUnspaced(w: Str)
    requires AllNd(w)
    ensures RemoveWhitespace(w) == w
  {
    RemoveWhitespaceUnspaced(w);
  }
}
