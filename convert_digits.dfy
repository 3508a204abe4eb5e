/** `convert_digits`, the decoder of numerals written in any Unicode decimal
    digits, in its drifting copies, together with `is_number` and the Sorani
    `digitsconv` wrapper. */
module Decoder {
  import opened Wrappers
  import opened Unicode
  import opened PyStr
  import opened Numbers
  import opened NumeralData

  /** The two points on which the copies' patterns differ: the quantifier after
      the first digit (`+` instead of `*`) and whether U+202F is in the class. */
  datatype Variant = Variant(plus: bool, narrowNbsp: bool)

  /** snippets/convert_digits.py, py/matplotlib_kurdish.py, py/seaborn_kurdish.py. */
  const STAR_NNBSP := Variant(false, true)
  /** py/pandas_plot_kurdish.py. */
  const STAR := Variant(false, false)
  /** snippet/convert_digits.py. */
  const PLUS := Variant(true, false)
  /** The pattern `is_number` checks before it decodes. */
  const PLUS_NNBSP := Variant(true, true)

  /** The default separators: group ',' and decimal '.'. */
  const DEFAULT_SEPS := Seps([COMMA], [FULL_STOP])

  /** A Python value as the decoder returns it. */
  datatype Value = Text(s: Str) | Int(i: int) | Float(x: Fixed)

  /** The characters allowed after the first digit. */
  predicate InClass(v: Variant, c: CodePoint) {
    c == COMMA || c == FULL_STOP || c == ARABIC_DECIMAL_SEPARATOR || c == ARABIC_THOUSANDS_SEPARATOR
    || c == SPACE || c == THIN_SPACE || (v.narrowNbsp && c == NARROW_NO_BREAK_SPACE) || IsNd(c)
  }

  /** `\p{Nd}` followed by class characters, with at least one of them for `+`. */
  predicate UnsignedMatch(v: Variant, t: Str) {
    |t| >= (if v.plus then 2 else 1) && IsNd(t[0]) && forall i :: 1 <= i < |t| ==> InClass(v, t[i])
  }

  /** A full match of the pattern: an optional '-' and then an unsigned match. */
  predicate Matches(v: Variant, s: Str) {
    UnsignedMatch(v, s) || (s != [] && s[0] == HYPHEN_MINUS && UnsignedMatch(v, s[1..]))
  }

  /** `str(unicodedata.decimal(c, c))`: a decimal digit becomes the ASCII digit
      of the same value; any other character is kept. */
  function DecimalChar(c: CodePoint): (d: CodePoint)
    ensures DecimalValue(d) == DecimalValue(c)
    ensures IsNd(c) ==> IsLatinDigit(d)
    ensures !IsNd(c) ==> d == c
  {
    match DecimalValue(c)
    case Some(v) => LatinDigitValue(LatinDigit(v)); LatinDigit(v)
    case None => c
  }

  /** The list comprehension over `s` joined back into a string. */
  function DecimalMap(s: Str): (r: Str)
    ensures |r| == |s|
  {
    seq(|s|, i requires 0 <= i < |s| => DecimalChar(s[i]))
  }

  lemma DecimalMapConcat(a: Str, b: Str)
    ensures DecimalMap(a + b) == DecimalMap(a) + DecimalMap(b)
  {
  }

  predicate AllNd(s: Str) {
    forall i :: 0 <= i < |s| ==> IsNd(s[i])
  }

  /** The decimal values of the digits of `s`, in order; other characters are skipped. */
  function NdValues(s: Str): (ds: seq<nat>)
    ensures |ds| <= |s|
    ensures forall i :: 0 <= i < |ds| ==> ds[i] < 10
    decreases |s|
  {
    if s == [] then []
    else (if IsNd(s[0]) then [DecimalValue(s[0]).value] else []) + NdValues(s[1..])
  }

  lemma {:induction false} NdValuesConcat(a: Str, b: Str)
    ensures NdValues(a + b) == NdValues(a) + NdValues(b)
    decreases |a|
  {
    if a == [] {
      assert a + b == b;
    } else {
      assert (a + b)[0] == a[0] && (a + b)[1..] == a[1..] + b;
      NdValuesConcat(a[1..], b);
    }
  }

  /** Mapping a run of decimal digits gives ASCII digits of the same values. */
  lemma {:induction false} DecimalMapDigits(d: Str)
    requires AllNd(d)
    ensures AllLatinDigits(DecimalMap(d))
    ensures LatinValues(DecimalMap(d)) == NdValues(d)
    decreases |d|
  {
    if d != [] {
      var c, rest := DecimalChar(d[0]), d[1..];
      DecimalMapDigits(rest);
      assert DecimalMap(d) == [c] + DecimalMap(rest) by {
        assert d == [d[0]] + rest;
        DecimalMapConcat([d[0]], rest);
      }
      LatinDigitValue(c);
      calc {
        LatinValues(DecimalMap(d));
        == { LatinValuesConcat([c], DecimalMap(rest)); }
        LatinValues([c]) + LatinValues(DecimalMap(rest));
        == { assert LatinValues([c]) == [DecimalValue(d[0]).value]; }
        [DecimalValue(d[0]).value] + NdValues(rest);
        == NdValues(d);
      }
    }
  }

  /** `convert_digits(s, sep)`. A string that does not match the pattern is
      returned as it is. Otherwise every group separator is deleted, every digit
      is replaced by its ASCII digit, and the text goes to `float` when the
      decimal separator is still there (after turning it into '.'), and to `int`
      when it is not. Their ValueError propagates. */
  function ConvertDigits(v: Variant, s: Str, sep: Seps): (r: Result<Value>)
    ensures !Matches(v, s) <==> r.Ok? && r.value.Text?
    ensures !Matches(v, s) ==> r == Ok(Text(s))
    ensures r.Raise? ==> r == Raise(ValueError)
  {
    if !Matches(v, s) then Ok(Text(s))
    else
      var t := DecimalMap(Replace(s, sep.group, []));
      if Contains(t, sep.decimal) then
        var f := if sep.decimal != [FULL_STOP] then PyFloat(Replace(t, sep.decimal, [FULL_STOP])) else PyFloat(t);
        if f.Ok? then Ok(Float(f.value)) else Raise(f.error)
      else
        var n := PyInt(t);
        if n.Ok? then Ok(Int(n.value)) else Raise(n.error)
  }

  /** A separator character of the decoder: neither a digit nor '-'. */
  predicate SeparatorChar(c: CodePoint) {
    !IsNd(c) && c != HYPHEN_MINUS
  }

  /** An empty group separator deletes nothing, so decoding with it is
      decoding with any one-character group separator the text does not hold. */
  lemma EmptyGroupDecode(v: Variant, s: Str, h: CodePoint, d: Str)
    requires h !in s
    ensures ConvertDigits(v, s, Seps([], d)) == ConvertDigits(v, s, Seps([h], d))
  {
    ReplaceEmptyByNothing(s);
    ContainsChar(s, h);
    ReplaceAbsent(s, [h], []);
  }

  /** Every character of `u` is a digit or `g`. */
  predicate DigitsOr(u: Str, g: CodePoint) {
    forall i :: 0 <= i < |u| ==> IsNd(u[i]) || u[i] == g
  }

  /** Deleting the group separator from digits interleaved with it leaves the
      digits alone, in order. */
  lemma {:induction false} RemoveGroups(u: Str, g: CodePoint)
    requires DigitsOr(u, g) && !IsNd(g)
    ensures AllNd(Replace(u, [g], []))
    ensures NdValues(Replace(u, [g], [])) == NdValues(u)
    ensures u != [] && u[0] != g ==> Replace(u, [g], []) != [] && Replace(u, [g], [])[0] == u[0]
    decreases |u|
  {
    if u != [] {
      RemoveGroups(u[1..], g);
      if u[0] == g {
        assert Replace(u, [g], []) == Replace(u[1..], [g], []);
      } else {
        assert Replace(u, [g], []) == [u[0]] + Replace(u[1..], [g], []);
        assert ([u[0]] + Replace(u[1..], [g], []))[1..] == Replace(u[1..], [g], []);
      }
    }
  }

  lemma DigitIsNd(c: CodePoint)
    requires IsLatinDigit(c)
    ensures IsNd(c)
  {
    LatinDigitValue(c);
  }

  /** What the decoder builds from a sign and a group-separated digit run,
      before it calls `int` or `float`. */
  lemma SignedDigits(neg: bool, u: Str, g: CodePoint)
    requires DigitsOr(u, g) && SeparatorChar(g) && u != [] && IsNd(u[0])
    ensures var m := DecimalMap(Replace(u, [g], []));
      m != [] && DecimalMap(Replace(SignText(neg) + u, [g], [])) == SignText(neg) + m
      && AllLatinDigits(m) && LatinValues(m) == NdValues(u)
  {
    var d := Replace(u, [g], []);
    RemoveGroups(u, g);
    ReplaceCharConcat(SignText(neg), u, g, []);
    ContainsChar(SignText(neg), g);
    ReplaceAbsent(SignText(neg), [g], []);
    DecimalMapConcat(SignText(neg), d);
    assert DecimalMap(SignText(neg)) == SignText(neg);
    DecimalMapDigits(d);
  }

  /** A signed input matches exactly when its unsigned part does. */
  lemma MatchesSigned(v: Variant, neg: bool, u: Str)
    requires u == [] || u[0] != HYPHEN_MINUS
    ensures Matches(v, SignText(neg) + u) <==> UnsignedMatch(v, u)
  {
    if neg {
      assert (SignText(neg) + u)[0] == HYPHEN_MINUS && (SignText(neg) + u)[1..] == u;
    } else {
      assert SignText(neg) + u == u;
    }
  }

  /** A sign and ASCII digits hold no separator character. */
  lemma SignedDigitsLack(neg: bool, m: Str, c: CodePoint)
    requires AllLatinDigits(m) && SeparatorChar(c)
    ensures !Contains(SignText(neg) + m, [c])
  {
    ContainsChar(SignText(neg) + m, c);
  }

  /** `int` of a sign and ASCII digits reads the sign and the digits. */
  lemma IntOfSignedDigits(neg: bool, m: Str)
    requires m != [] && AllLatinDigits(m)
    ensures PyInt(SignText(neg) + m) == IntBody(neg, m)
  {
    DigitNotSpace(m[|m| - 1]);
    SplitSignText(neg, m);
  }

  /** Integer decode: an optional '-' and a run of decimal digits from any
      scripts, mixed freely, with group separators anywhere after the first
      digit, decode to the integer whose digits are theirs, with the sign. */
  lemma IntegerDecode(v: Variant, neg: bool, u: Str, sep: Seps)
    requires |sep.group| == 1 && |sep.decimal| == 1
    requires SeparatorChar(sep.group[0]) && SeparatorChar(sep.decimal[0])
    requires DigitsOr(u, sep.group[0]) && UnsignedMatch(v, u)
    ensures ConvertDigits(v, SignText(neg) + u, sep) == Ok(Int(Signed(neg, DigitsValue(NdValues(u)))))
  {
    var m := DecimalMap(Replace(u, sep.group, []));
    assert [sep.group[0]] == sep.group && [sep.decimal[0]] == sep.decimal;
    MatchesSigned(v, neg, u);
    SignedDigits(neg, u, sep.group[0]);
    SignedDigitsLack(neg, m, sep.decimal[0]);
    IntOfSignedDigits(neg, m);
  }

  /** Decimal decode: an optional '-', a run of digits with group separators,
      the decimal separator, and more (possibly no) digits with group
      separators decode to the exact value whose digits are all of theirs and
      whose decimals are the digits after the separator. */
  lemma DecimalDecode(v: Variant, neg: bool, w: Str, f: Str, sep: Seps)
    requires |sep.group| == 1 && |sep.decimal| == 1 && sep.group != sep.decimal
    requires SeparatorChar(sep.group[0]) && SeparatorChar(sep.decimal[0])
    requires DigitsOr(w, sep.group[0]) && DigitsOr(f, sep.group[0])
    requires UnsignedMatch(v, w + sep.decimal + f)
    ensures ConvertDigits(v, SignText(neg) + (w + sep.decimal + f), sep)
      == Ok(Float(Fixed(neg, DigitsValue(NdValues(w + f)), |NdValues(f)|)))
  {
    var g, d := sep.group[0], sep.decimal[0];
    assert [g] == sep.group && [d] == sep.decimal;
    var u := w + sep.decimal + f;
    if w == [] {
      assert false;
    }
    assert u[0] == w[0];
    MatchesSigned(v, neg, u);
    SignedPointDigits(neg, w, d, f, g);
    var wm, fm := DecimalMap(Replace(w, [g], [])), DecimalMap(Replace(f, [g], []));
    PointToFullStop(neg, wm, d, fm);
    PyFloatPointed(neg, wm, fm);
    NdValuesConcat(w, f);
    DecodeFloat(v, SignText(neg) + u, sep, SignText(neg) + (wm + ([d] + fm)),
      Fixed(neg, DigitsValue(NdValues(w + f)), |NdValues(f)|));
  }

  /** What the decoder builds from a sign, digits, a decimal separator and
      more digits, before it calls `float`. */
  lemma SignedPointDigits(neg: bool, w: Str, d: CodePoint, f: Str, g: CodePoint)
    requires DigitsOr(w, g) && DigitsOr(f, g) && SeparatorChar(g) && SeparatorChar(d) && d != g
    requires w != [] && IsNd(w[0])
    ensures var wm, fm := DecimalMap(Replace(w, [g], [])), DecimalMap(Replace(f, [g], []));
      wm != [] && AllLatinDigits(wm) && AllLatinDigits(fm)
      && LatinValues(wm) == NdValues(w) && LatinValues(fm) == NdValues(f)
      && DecimalMap(Replace(SignText(neg) + (w + [d] + f), [g], [])) == SignText(neg) + (wm + ([d] + fm))
  {
    var wr, fr := Replace(w, [g], []), Replace(f, [g], []);
    RemoveGroups(w, g);
    RemoveGroups(f, g);
    DecimalMapDigits(wr);
    DecimalMapDigits(fr);
    RemovePointGroups(neg, w, d, f, g);
    MapPointDigits(neg, wr, d, fr);
  }

  /** Deleting the group separator around a decimal separator. */
  lemma RemovePointGroups(neg: bool, w: Str, d: CodePoint, f: Str, g: CodePoint)
    requires SeparatorChar(g) && d != g
    ensures Replace(SignText(neg) + (w + [d] + f), [g], [])
      == SignText(neg) + (Replace(w, [g], []) + ([d] + Replace(f, [g], [])))
  {
    var rw, rf := Replace(w, [g], []), Replace(f, [g], []);
    calc {
      Replace(SignText(neg) + (w + [d] + f), [g], []);
      == { ReplaceCharConcat(SignText(neg), w + [d] + f, g, []);
           ContainsChar(SignText(neg), g);
           ReplaceAbsent(SignText(neg), [g], []); }
      SignText(neg) + Replace(w + [d] + f, [g], []);
      == { ReplaceCharConcat(w + [d], f, g, []);
           ReplaceCharConcat(w, [d], g, []);
           ContainsChar([d], g);
           ReplaceAbsent([d], [g], []); }
      SignText(neg) + (rw + [d] + rf);
      == { assert rw + [d] + rf == rw + ([d] + rf); }
      SignText(neg) + (rw + ([d] + rf));
    }
  }

  /** Mapping digits to ASCII around a sign and a decimal separator. */
  lemma MapPointDigits(neg: bool, wr: Str, d: CodePoint, fr: Str)
    requires SeparatorChar(d)
    ensures DecimalMap(SignText(neg) + (wr + ([d] + fr))) == SignText(neg) + (DecimalMap(wr) + ([d] + DecimalMap(fr)))
  {
    DecimalMapConcat(SignText(neg), wr + ([d] + fr));
    assert DecimalMap(SignText(neg)) == SignText(neg);
    MapAroundSeparator(wr, d, fr);
  }

  /** Mapping digits to ASCII on both sides of a separator character. */
  lemma MapAroundSeparator(wr: Str, d: CodePoint, fr: Str)
    requires SeparatorChar(d)
    ensures DecimalMap(wr + ([d] + fr)) == DecimalMap(wr) + ([d] + DecimalMap(fr))
  {
    DecimalMapConcat(wr, [d] + fr);
    DecimalMapConcat([d], fr);
    assert DecimalMap([d]) == [d];
  }

  /** Turning the decimal separator into '.' when it is not '.' already. */
  lemma PointToFullStop(neg: bool, wm: Str, d: CodePoint, fm: Str)
    requires AllLatinDigits(wm) && AllLatinDigits(fm) && SeparatorChar(d)
    ensures var t := SignText(neg) + (wm + ([d] + fm));
      Contains(t, [d])
      && (if [d] != [FULL_STOP] then Replace(t, [d], [FULL_STOP]) else t) == SignText(neg) + (wm + ([FULL_STOP] + fm))
  {
    var t := SignText(neg) + (wm + ([d] + fm));
    assert t[|SignText(neg)| + |wm|] == d;
    ContainsChar(t, d);
    if [d] != [FULL_STOP] {
      ReplaceCharConcat(SignText(neg), wm + ([d] + fm), d, [FULL_STOP]);
      ReplaceCharConcat(wm, [d] + fm, d, [FULL_STOP]);
      ReplaceCharConcat([d], fm, d, [FULL_STOP]);
      NoSeparatorIn(neg, wm, d);
      NoSeparatorIn(false, fm, d);
      assert SignText(false) + fm == fm;
      assert Replace([d], [d], [FULL_STOP]) == [FULL_STOP];
    }
  }

  /** A sign and ASCII digits are left alone by replacing a separator character. */
  lemma NoSeparatorIn(neg: bool, m: Str, d: CodePoint)
    requires AllLatinDigits(m) && SeparatorChar(d)
    ensures Replace(SignText(neg), [d], [FULL_STOP]) == SignText(neg)
    ensures Replace(m, [d], [FULL_STOP]) == m
  {
    ContainsChar(SignText(neg), d);
    ReplaceAbsent(SignText(neg), [d], [FULL_STOP]);
    SignedDigitsLack(false, m, d);
    assert SignText(false) + m == m;
    ReplaceAbsent(m, [d], [FULL_STOP]);
  }

  /** `float` of a sign, ASCII digits, '.', and more ASCII digits. */
  lemma PyFloatPointed(neg: bool, wm: Str, fm: Str)
    requires wm != [] && AllLatinDigits(wm) && AllLatinDigits(fm)
    ensures PyFloat(SignText(neg) + (wm + ([FULL_STOP] + fm)))
      == Ok(Fixed(neg, DigitsValue(LatinValues(wm) + LatinValues(fm)), |fm|))
  {
    var body := wm + ([FULL_STOP] + fm);
    assert body[0] == wm[0];
    if fm == [] {
      assert body[|body| - 1] == FULL_STOP;
    } else {
      assert body[|body| - 1] == fm[|fm| - 1];
      DigitNotSpace(fm[|fm| - 1]);
    }
    SplitSignText(neg, body);
    FloatBodyPoint(neg, wm, fm);
    LatinValuesConcat(wm, fm);
  }

  /** The float branch of the decoder. */
  lemma DecodeFloat(v: Variant, s: Str, sep: Seps, t: Str, x: Fixed)
    requires Matches(v, s) && t == DecimalMap(Replace(s, sep.group, []))
    requires Contains(t, sep.decimal)
    requires PyFloat(if sep.decimal != [FULL_STOP] then Replace(t, sep.decimal, [FULL_STOP]) else t) == Ok(x)
    ensures ConvertDigits(v, s, sep) == Ok(Float(x))
  {
  }

  /** The integer branch of the decoder when `int` refuses the text. */
  lemma DecodeIntRaises(v: Variant, s: Str, sep: Seps, t: Str, e: PyError)
    requires Matches(v, s) && t == DecimalMap(Replace(s, sep.group, []))
    requires !Contains(t, sep.decimal) && PyInt(t) == Raise(e)
    ensures ConvertDigits(v, s, sep) == Raise(e)
  {
  }

  /** The float branch of the decoder when `float` refuses the text. */
  lemma DecodeFloatRaises(v: Variant, s: Str, sep: Seps, t: Str, e: PyError)
    requires Matches(v, s) && t == DecimalMap(Replace(s, sep.group, []))
    requires Contains(t, sep.decimal)
    requires PyFloat(if sep.decimal != [FULL_STOP] then Replace(t, sep.decimal, [FULL_STOP]) else t) == Raise(e)
    ensures ConvertDigits(v, s, sep) == Raise(e)
  {
  }

  /** Whitespace that is neither separator is let through by the pattern but
      not by `int`: two digit runs with a space between them raise ValueError
      instead of being returned unchanged. */
  lemma InnerSpaceRaises(v: Variant, neg: bool, w: Str, x: CodePoint, f: Str, sep: Seps)
    requires |sep.group| == 1 && |sep.decimal| == 1
    requires SeparatorChar(sep.group[0]) && SeparatorChar(sep.decimal[0])
    requires IsSpace(x) && sep.group[0] != x && sep.decimal[0] != x
    requires DigitsOr(w, sep.group[0]) && w != [] && AllNd(f) && f != []
    requires UnsignedMatch(v, w + [x] + f)
    ensures ConvertDigits(v, SignText(neg) + (w + [x] + f), sep) == Raise(ValueError)
  {
    var g, d := sep.group[0], sep.decimal[0];
    assert [g] == sep.group && [d] == sep.decimal;
    var u := w + [x] + f;
    assert u[0] == w[0];
    MatchesSigned(v, neg, u);
    RemovePointGroups(neg, w, x, f, g);
    RemoveGroups(w, g);
    DecimalMapDigits(Replace(w, [g], []));
    ReplaceCharByNothing(f, g);
    DecimalMapDigits(f);
    MapPointDigits(neg, Replace(w, [g], []), x, f);
    var wm, fm := DecimalMap(Replace(w, [g], [])), DecimalMap(f);
    PointedLack(neg, wm, x, fm, d);
    PyIntInnerSpace(neg, wm, x, fm);
    DecodeIntRaises(v, SignText(neg) + u, sep, SignText(neg) + (wm + ([x] + fm)), ValueError);
  }

  /** A separator character other than `x` is absent from a sign, ASCII
      digits, `x`, and ASCII digits. */
  lemma PointedLack(neg: bool, wm: Str, x: CodePoint, fm: Str, d: CodePoint)
    requires AllLatinDigits(wm) && AllLatinDigits(fm) && SeparatorChar(d) && d != x
    ensures !Contains(SignText(neg) + (wm + ([x] + fm)), [d])
  {
    ContainsChar(SignText(neg) + (wm + ([x] + fm)), d);
  }

  /** A second decimal separator is let through by the pattern but not by
      `float`: it raises ValueError instead of being returned unchanged. */
  lemma TwoDecimalSeparatorsRaise(v: Variant, neg: bool, a: Str, b: Str, c: Str, sep: Seps)
    requires |sep.group| == 1 && |sep.decimal| == 1 && sep.group != sep.decimal
    requires SeparatorChar(sep.group[0]) && SeparatorChar(sep.decimal[0])
    requires a != [] && AllNd(a) && AllNd(b) && AllNd(c)
    requires UnsignedMatch(v, a + (sep.decimal + (b + (sep.decimal + c))))
    ensures ConvertDigits(v, SignText(neg) + (a + (sep.decimal + (b + (sep.decimal + c)))), sep) == Raise(ValueError)
  {
    var g, d := sep.group[0], sep.decimal[0];
    assert [g] == sep.group && [d] == sep.decimal;
    var u := a + ([d] + (b + ([d] + c)));
    assert u[0] == a[0];
    MatchesSigned(v, neg, u);
    TwoPointsDigits(neg, a, d, b, c, g);
    DecimalMapDigits(a);
    DecimalMapDigits(b);
    DecimalMapDigits(c);
    var am, bm, cm := DecimalMap(a), DecimalMap(b), DecimalMap(c);
    TwoPointsToFullStops(neg, am, d, bm, cm);
    PyFloatTwoPoints(neg, am, bm, cm);
    DecodeFloatRaises(v, SignText(neg) + u, sep, SignText(neg) + (am + ([d] + (bm + ([d] + cm)))), ValueError);
  }

  /** What the decoder builds from a sign and three digit runs joined by two
      decimal separators, before it calls `float`. */
  lemma TwoPointsDigits(neg: bool, a: Str, d: CodePoint, b: Str, c: Str, g: CodePoint)
    requires AllNd(a) && AllNd(b) && AllNd(c) && SeparatorChar(g) && SeparatorChar(d) && d != g
    ensures DecimalMap(Replace(SignText(neg) + (a + ([d] + (b + ([d] + c)))), [g], []))
      == SignText(neg) + (DecimalMap(a) + ([d] + (DecimalMap(b) + ([d] + DecimalMap(c)))))
  {
    TwoPointsNoGroup(neg, a, d, b, c, g);
    MapPointDigits(neg, a, d, b + ([d] + c));
    MapAroundSeparator(b, d, c);
  }

  /** Turning both decimal separators into '.'. */
  lemma TwoPointsToFullStops(neg: bool, am: Str, d: CodePoint, bm: Str, cm: Str)
    requires AllLatinDigits(am) && AllLatinDigits(bm) && AllLatinDigits(cm) && SeparatorChar(d)
    ensures var t := SignText(neg) + (am + ([d] + (bm + ([d] + cm))));
      Contains(t, [d])
      && (if [d] != [FULL_STOP] then Replace(t, [d], [FULL_STOP]) else t)
        == SignText(neg) + (am + ([FULL_STOP] + (bm + ([FULL_STOP] + cm))))
  {
    var t := SignText(neg) + (am + ([d] + (bm + ([d] + cm))));
    assert Contains(t, [d]) by {
      assert t[|SignText(neg)| + |am|] == d;
      ContainsChar(t, d);
    }
    if [d] != [FULL_STOP] {
      TwoPointsReplaced(neg, am, d, bm, cm);
    }
  }

  lemma TwoPointsReplaced(neg: bool, am: Str, d: CodePoint, bm: Str, cm: Str)
    requires AllLatinDigits(am) && AllLatinDigits(bm) && AllLatinDigits(cm) && SeparatorChar(d)
    requires d != FULL_STOP
    ensures Replace(SignText(neg) + (am + ([d] + (bm + ([d] + cm)))), [d], [FULL_STOP])
      == SignText(neg) + (am + ([FULL_STOP] + (bm + ([FULL_STOP] + cm))))
  {
    var rest := bm + ([d] + cm);
    assert Replace(rest, [d], [FULL_STOP]) == bm + ([FULL_STOP] + cm) by {
      PointToFullStop(false, bm, d, cm);
      assert SignText(false) + rest == rest;
      assert SignText(false) + (bm + ([FULL_STOP] + cm)) == bm + ([FULL_STOP] + cm);
    }
    ReplaceCharConcat(SignText(neg), am + ([d] + rest), d, [FULL_STOP]);
    ReplaceCharConcat(am, [d] + rest, d, [FULL_STOP]);
    ReplaceCharConcat([d], rest, d, [FULL_STOP]);
    NoSeparatorIn(neg, am, d);
    assert Replace([d], [d], [FULL_STOP]) == [FULL_STOP];
  }

  /** Deleting a separator character that does not occur changes nothing. */
  lemma AbsentGroup(s: Str, g: CodePoint)
    requires g !in s
    ensures Replace(s, [g], []) == s
  {
    ContainsChar(s, g);
    ReplaceAbsent(s, [g], []);
  }

  lemma TwoPointsNoGroup(neg: bool, a: Str, d: CodePoint, b: Str, c: Str, g: CodePoint)
    requires AllNd(a) && AllNd(b) && AllNd(c) && SeparatorChar(g) && d != g
    ensures Replace(SignText(neg) + (a + ([d] + (b + ([d] + c)))), [g], []) == SignText(neg) + (a + ([d] + (b + ([d] + c))))
  {
    assert g !in a && g !in b && g !in c;
    AbsentGroup(SignText(neg) + (a + ([d] + (b + ([d] + c)))), g);
  }

  /** With one character as both separators the decoder never produces a
      number with a fractional part: deleting the group separator deletes the
      decimal separator too. */
  lemma SameSeparatorsNoFloat(v: Variant, s: Str, sep: Seps)
    requires |sep.group| == 1 && sep.group == sep.decimal && !IsNd(sep.group[0])
    ensures var r := ConvertDigits(v, s, sep); !(r.Ok? && r.value.Float?)
  {
    if Matches(v, s) {
      var c := sep.group[0];
      var t := DecimalMap(Replace(s, sep.group, []));
      assert !Contains(t, sep.decimal) by {
        assert [c] == sep.group;
        ReplaceCharByNothing(s, c);
        DecimalMapAbsent(Replace(s, [c], []), c);
        ContainsChar(t, c);
      }
    }
  }

  /** A character that is not a digit appears after the mapping only where it
      was before. */
  lemma DecimalMapAbsent(d: Str, c: CodePoint)
    requires c !in d && !IsNd(c)
    ensures c !in DecimalMap(d)
  {
  }

  /** One digit, with or without '-': the `*` copies decode it, the `+` copies
      return it unchanged. */
  lemma SingleDigit(v: Variant, neg: bool, c: CodePoint, sep: Seps)
    requires IsNd(c)
    requires |sep.group| == 1 && |sep.decimal| == 1
    requires SeparatorChar(sep.group[0]) && SeparatorChar(sep.decimal[0])
    ensures ConvertDigits(v, SignText(neg) + [c], sep)
      == if v.plus then Ok(Text(SignText(neg) + [c])) else Ok(Int(Signed(neg, DecimalValue(c).value)))
  {
    MatchesSigned(v, neg, [c]);
    if !v.plus {
      IntegerDecode(v, neg, [c], sep);
      assert NdValues([c]) == [DecimalValue(c).value];
      assert DigitsValue([DecimalValue(c).value]) == DecimalValue(c).value by {
        assert [DecimalValue(c).value][..0] == [];
      }
    }
  }

  /** U+202F between two digit runs: the copies whose class holds it let it
      through to `int`, which raises ValueError; the others return the text
      unchanged. */
  lemma NarrowNoBreakSpace(v: Variant, w: Str, f: Str)
    requires w != [] && f != [] && AllNd(w) && AllNd(f)
    ensures ConvertDigits(v, w + [NARROW_NO_BREAK_SPACE] + f, DEFAULT_SEPS)
      == if v.narrowNbsp then Raise(ValueError) else Ok(Text(w + [NARROW_NO_BREAK_SPACE] + f))
  {
    var u := w + [NARROW_NO_BREAK_SPACE] + f;
    if v.narrowNbsp {
      assert UnsignedMatch(v, u) by {
        assert u[0] == w[0];
        forall i | 1 <= i < |u| ensures InClass(v, u[i]) {
          if i < |w| { assert u[i] == w[i]; }
          else if i > |w| { assert u[i] == f[i - |w| - 1]; }
        }
      }
      assert [COMMA][0] == COMMA && [FULL_STOP][0] == FULL_STOP;
      InnerSpaceRaises(v, false, w, NARROW_NO_BREAK_SPACE, f, DEFAULT_SEPS);
      assert SignText(false) + u == u;
    } else {
      assert u[|w|] == NARROW_NO_BREAK_SPACE && u[0] != HYPHEN_MINUS;
    }
  }

  /** The copy in snippet/convert_digits.py as written: `+` pattern without
      U+202F, and an integer branch that first replaces the decimal separator
      by '.' when it is not '.' already. */
  function ConvertDigitsSnippet(s: Str, sep: Seps): (r: Result<Value>)
    ensures !Matches(PLUS, s) ==> r == Ok(Text(s))
  {
    if !Matches(PLUS, s) then Ok(Text(s))
    else
      var t := DecimalMap(Replace(s, sep.group, []));
      if Contains(t, sep.decimal) then
        var f := if sep.decimal != [FULL_STOP] then PyFloat(Replace(t, sep.decimal, [FULL_STOP])) else PyFloat(t);
        if f.Ok? then Ok(Float(f.value)) else Raise(f.error)
      else
        var n := if sep.decimal != [FULL_STOP] then PyInt(Replace(t, sep.decimal, [FULL_STOP])) else PyInt(t);
        if n.Ok? then Ok(Int(n.value)) else Raise(n.error)
  }

  /** The replacement in the integer branch of the snippet copy never changes
      anything, since that branch is reached only when the decimal separator
      is absent: the copy is the shared decoder with the `+` pattern. */
  lemma SnippetAgrees(s: Str, sep: Seps)
    ensures ConvertDigitsSnippet(s, sep) == ConvertDigits(PLUS, s, sep)
  {
    if Matches(PLUS, s) {
      var t := DecimalMap(Replace(s, sep.group, []));
      if !Contains(t, sep.decimal) {
        ReplaceAbsent(t, sep.decimal, [FULL_STOP]);
      }
    }
  }
}
