/** What the renderers promise: the replacement steps act character by
    character on formatted number text, so the output is the target digits and
    separators in the places of the ASCII ones; `convert_digits` with the same
    separators reads the value back; the Sorani renderer is `convert_to_arab_ns`
    with its defaults. */
module RenderLaws {
  import opened Wrappers
  import opened Unicode
  import opened PyStr
  import opened Numbers
  import opened NumeralData
  import opened Decoder
  import opened Grouping
  import opened Render

  /** A character of number text formatted by `locale.format_string`. */
  predicate FormattedChar(c: CodePoint) {
    c == HYPHEN_MINUS || IsLatinDigit(c) || c == COMMA || c == FULL_STOP
  }

  predicate FormattedText(s: Str) {
    forall i :: 0 <= i < |s| ==> FormattedChar(s[i])
  }

  /** What one formatted character becomes: an ASCII digit the digit of the
      same value in `e`, ',' and '.' the group and decimal separators, and
      anything else itself. */
  function GlyphText(c: CodePoint, e: Entry, sep: Seps): Str {
    if IsLatinDigit(c) then [Glyph(e, c - DIGIT_ZERO)]
    else if c == COMMA then sep.group
    else if c == FULL_STOP then sep.decimal
    else [c]
  }

  /** Formatted text written in the digits of `e` with separators `sep`. */
  function Transcribed(s: Str, e: Entry, sep: Seps): Str
    decreases |s|
  {
    if s == [] then [] else GlyphText(s[0], e, sep) + Transcribed(s[1..], e, sep)
  }

  lemma {:induction false} TranscribedConcat(a: Str, b: Str, e: Entry, sep: Seps)
    ensures Transcribed(a + b, e, sep) == Transcribed(a, e, sep) + Transcribed(b, e, sep)
    decreases |a|
  {
    if a == [] {
      assert a + b == b;
    } else {
      assert (a + b)[0] == a[0] && (a + b)[1..] == a[1..] + b;
      TranscribedConcat(a[1..], b, e, sep);
    }
  }

  /** The placeholders are not decimal digits. */
  lemma PlaceholdersNotDigits()
    ensures !IsNd(GROUP_PLACEHOLDER) && !IsNd(DECIMAL_PLACEHOLDER)
  {
  }

  /** Every glyph of a table entry is a decimal digit of the same value. */
  lemma GlyphValue(e: Entry, d: nat)
    requires d < 10
    ensures DecimalValue(Glyph(e, d)) == Some(d)
  {
    BlockUniform(e.zero, e.zero + d);
  }

  /** The glyphs of an entry whose zero is not '0' are not ASCII digits. */
  lemma GlyphNotLatin(e: Entry, d: nat)
    requires d < 10 && e.zero != DIGIT_ZERO
    ensures !IsLatinDigit(Glyph(e, d))
  {
    var c := Glyph(e, d);
    if IsLatinDigit(c) {
      BlockUniform(e.zero, c);
      LatinDigitValue(c);
      assert false;
    }
  }

  /** `str.replace` of one character on a one-character string. */
  lemma ReplaceOne(c: CodePoint, x: CodePoint, rep: Str)
    ensures Replace([c], [x], rep) == if c == x then rep else [c]
  {
    assert [c][1..] == [] && [c][|[x]|..] == [];
    assert Replace([], [x], rep) == [];
    if c == x {
      assert [x] <= [c];
      assert rep + [] == rep;
    } else {
      ContainsChar([c], x);
      ReplaceAbsent([c], [x], rep);
    }
  }

  /** `Placeholders` on one character. */
  lemma PlaceholdersOne(c: CodePoint)
    ensures Placeholders([c]) == [if c == COMMA then GROUP_PLACEHOLDER else if c == FULL_STOP then DECIMAL_PLACEHOLDER else c]
  {
    ReplaceOne(c, COMMA, [GROUP_PLACEHOLDER]);
    var c1 := if c == COMMA then GROUP_PLACEHOLDER else c;
    ReplaceOne(c1, FULL_STOP, [DECIMAL_PLACEHOLDER]);
  }

  /** The replacement steps distribute over concatenation. */
  lemma FinishConcat(a: Str, b: Str, t: map<CodePoint, CodePoint>, sep: Seps)
    ensures Finish(Placeholders(a + b), t, sep) == Finish(Placeholders(a), t, sep) + Finish(Placeholders(b), t, sep)
  {
    ReplaceCharConcat(a, b, COMMA, [GROUP_PLACEHOLDER]);
    var a1, b1 := Replace(a, [COMMA], [GROUP_PLACEHOLDER]), Replace(b, [COMMA], [GROUP_PLACEHOLDER]);
    ReplaceCharConcat(a1, b1, FULL_STOP, [DECIMAL_PLACEHOLDER]);
    var a2, b2 := Placeholders(a), Placeholders(b);
    TranslateConcat(a2, b2, t);
    var a3, b3 := Translate(a2, t), Translate(b2, t);
    ReplaceCharConcat(a3, b3, GROUP_PLACEHOLDER, sep.group);
    ReplaceCharConcat(Replace(a3, [GROUP_PLACEHOLDER], sep.group), Replace(b3, [GROUP_PLACEHOLDER], sep.group),
      DECIMAL_PLACEHOLDER, sep.decimal);
  }

  /** ... and on one formatted character they do what `GlyphText` says. */
  lemma FinishChar(c: CodePoint, src: Entry, e: Entry, sep: Seps)
    requires FormattedChar(c) && src.zero == DIGIT_ZERO && DECIMAL_PLACEHOLDER !in sep.group
    ensures Finish(Placeholders([c]), MakeTrans(Digits(src), Digits(e)), sep) == GlyphText(c, e, sep)
  {
    if IsLatinDigit(c) {
      FinishDigit(c, src, e, sep);
    } else if c == COMMA {
      FinishComma(src, e, sep);
    } else if c == FULL_STOP {
      FinishPoint(src, e, sep);
    } else {
      FinishSign(c, src, e, sep);
    }
  }

  lemma FinishDigit(c: CodePoint, src: Entry, e: Entry, sep: Seps)
    requires IsLatinDigit(c) && src.zero == DIGIT_ZERO
    ensures Finish(Placeholders([c]), MakeTrans(Digits(src), Digits(e)), sep) == GlyphText(c, e, sep)
  {
    var d := c - DIGIT_ZERO;
    PlaceholdersOne(c);
    MakeTransAt(Digits(src), Digits(e), d);
    var g := Glyph(e, d);
    assert Translate([c], MakeTrans(Digits(src), Digits(e))) == [g];
    GlyphValue(e, d);
    PlaceholdersNotDigits();
    ReplaceOne(g, GROUP_PLACEHOLDER, sep.group);
    ReplaceOne(g, DECIMAL_PLACEHOLDER, sep.decimal);
  }

  lemma FinishComma(src: Entry, e: Entry, sep: Seps)
    requires src.zero == DIGIT_ZERO && DECIMAL_PLACEHOLDER !in sep.group
    ensures Finish(Placeholders([COMMA]), MakeTrans(Digits(src), Digits(e)), sep) == sep.group
  {
    PlaceholdersOne(COMMA);
    assert GROUP_PLACEHOLDER !in Digits(src);
    assert Translate([GROUP_PLACEHOLDER], MakeTrans(Digits(src), Digits(e))) == [GROUP_PLACEHOLDER];
    ReplaceOne(GROUP_PLACEHOLDER, GROUP_PLACEHOLDER, sep.group);
    ContainsChar(sep.group, DECIMAL_PLACEHOLDER);
    ReplaceAbsent(sep.group, [DECIMAL_PLACEHOLDER], sep.decimal);
  }

  lemma FinishPoint(src: Entry, e: Entry, sep: Seps)
    requires src.zero == DIGIT_ZERO
    ensures Finish(Placeholders([FULL_STOP]), MakeTrans(Digits(src), Digits(e)), sep) == sep.decimal
  {
    PlaceholdersOne(FULL_STOP);
    assert DECIMAL_PLACEHOLDER !in Digits(src);
    assert Translate([DECIMAL_PLACEHOLDER], MakeTrans(Digits(src), Digits(e))) == [DECIMAL_PLACEHOLDER];
    ReplaceOne(DECIMAL_PLACEHOLDER, GROUP_PLACEHOLDER, sep.group);
    ReplaceOne(DECIMAL_PLACEHOLDER, DECIMAL_PLACEHOLDER, sep.decimal);
  }

  lemma FinishSign(c: CodePoint, src: Entry, e: Entry, sep: Seps)
    requires c == HYPHEN_MINUS && src.zero == DIGIT_ZERO
    ensures Finish(Placeholders([c]), MakeTrans(Digits(src), Digits(e)), sep) == [c]
  {
    PlaceholdersOne(c);
    assert c !in Digits(src);
    assert Translate([c], MakeTrans(Digits(src), Digits(e))) == [c];
    ReplaceOne(c, GROUP_PLACEHOLDER, sep.group);
    ReplaceOne(c, DECIMAL_PLACEHOLDER, sep.decimal);
  }

  /** The placeholder, translation and separator steps on formatted text write
      it in the target digits and separators, character by character. */
  lemma {:induction false} FinishTranscribes(s: Str, src: Entry, e: Entry, sep: Seps)
    requires FormattedText(s) && src.zero == DIGIT_ZERO && DECIMAL_PLACEHOLDER !in sep.group
    ensures Finish(Placeholders(s), MakeTrans(Digits(src), Digits(e)), sep) == Transcribed(s, e, sep)
    decreases |s|
  {
    var t := MakeTrans(Digits(src), Digits(e));
    if s == [] {
      assert Placeholders(s) == [];
      assert Translate([], t) == [];
    } else {
      assert s == [s[0]] + s[1..];
      FinishConcat([s[0]], s[1..], t, sep);
      FinishChar(s[0], src, e, sep);
      FinishTranscribes(s[1..], src, e, sep);
    }
  }

  /** Digits and commas written in the digits of `e`: digits of the same
      values, in the same places, with the group separator for each comma. */
  lemma {:induction false} TranscribedRun(s: Str, e: Entry, sep: Seps)
    requires forall k :: 0 <= k < |s| ==> IsLatinDigit(s[k]) || s[k] == COMMA
    requires |sep.group| == 1 && !IsNd(sep.group[0])
    ensures |Transcribed(s, e, sep)| == |s|
    ensures DigitsOr(Transcribed(s, e, sep), sep.group[0])
    ensures forall k :: 0 <= k < |s| && IsLatinDigit(s[k]) ==> IsNd(Transcribed(s, e, sep)[k])
    ensures NdValues(Transcribed(s, e, sep)) == NdValues(s)
    decreases |s|
  {
    if s != [] {
      TranscribedRun(s[1..], e, sep);
      var c := s[0];
      var head := GlyphText(c, e, sep);
      GlyphRunHead(c, e, sep);
      NdValuesConcat(head, Transcribed(s[1..], e, sep));
      NdValuesConcat([c], s[1..]);
      assert s == [c] + s[1..];
    }
  }

  /** One digit or comma written in the digits of `e`: one character, a digit
      of the same value or the group separator. */
  lemma GlyphRunHead(c: CodePoint, e: Entry, sep: Seps)
    requires IsLatinDigit(c) || c == COMMA
    requires |sep.group| == 1 && !IsNd(sep.group[0])
    ensures |GlyphText(c, e, sep)| == 1
    ensures IsNd(GlyphText(c, e, sep)[0]) || GlyphText(c, e, sep)[0] == sep.group[0]
    ensures IsLatinDigit(c) ==> IsNd(GlyphText(c, e, sep)[0])
    ensures NdValues(GlyphText(c, e, sep)) == NdValues([c])
  {
    var head := GlyphText(c, e, sep);
    assert [c][1..] == [] && head[1..] == [];
    if IsLatinDigit(c) {
      GlyphValue(e, c - DIGIT_ZERO);
      LatinDigitValue(c);
    } else {
      assert head == [sep.group[0]];
    }
  }

  /** The decimal values of ASCII digits are their values. */
  lemma LatinNdValues(ds: Str)
    requires AllLatinDigits(ds)
    ensures AllNd(ds) && NdValues(ds) == LatinValues(ds)
  {
    forall k | 0 <= k < |ds|
      ensures IsNd(ds[k]) && DecimalMap(ds)[k] == ds[k]
    {
      LatinDigitValue(ds[k]);
      LatinDigitValue(DecimalChar(ds[k]));
    }
    DecimalMapDigits(ds);
    assert DecimalMap(ds) == ds;
  }

  /** Grouped ASCII digits written in the digits of `e`: a run that starts
      with a digit and holds digits and the group separator, whose digit values
      are those of the ungrouped run. */
  lemma GroupedRun(ds: Str, e: Entry, sep: Seps)
    requires ds != [] && AllLatinDigits(ds)
    requires |sep.group| == 1 && !IsNd(sep.group[0])
    ensures |Transcribed(Grouped(ds), e, sep)| >= |ds|
    ensures DigitsOr(Transcribed(Grouped(ds), e, sep), sep.group[0])
    ensures IsNd(Transcribed(Grouped(ds), e, sep)[0])
    ensures NdValues(Transcribed(Grouped(ds), e, sep)) == LatinValues(ds)
  {
    var g := Grouped(ds);
    Ungroup(ds);
    GroupedLength(ds);
    TranscribedRun(g, e, sep);
    forall k | 0 <= k < |g|
      ensures IsNd(g[k]) || g[k] == COMMA
    {
      if IsLatinDigit(g[k]) {
        DigitIsNd(g[k]);
      }
    }
    RemoveGroups(g, COMMA);
    LatinNdValues(ds);
  }

  /** `DecimalDigits` of ten or more has at least two digits. */
  lemma TwoDigits(m: nat)
    requires m >= 10
    ensures |DecimalDigits(m)| >= 2
  {
  }

  /** Integer round trip: an int formatted with grouping and written in the
      digits of `e` with single-character separators that the decoder's class
      accepts decodes back to the int. A one-digit numeral does not match the
      `+` pattern. */
  lemma IntRoundTrip(v: Variant, i: int, e: Entry, sep: Seps)
    requires |sep.group| == 1 && |sep.decimal| == 1
    requires SeparatorChar(sep.group[0]) && SeparatorChar(sep.decimal[0]) && InClass(v, sep.group[0])
    requires !v.plus || i <= -10 || 10 <= i
    ensures ConvertDigits(v, SignText(i < 0) + Transcribed(Grouped(DecimalDigits(Magnitude(i))), e, sep), sep) == Ok(Int(i))
  {
    var ds := DecimalDigits(Magnitude(i));
    var u := Transcribed(Grouped(ds), e, sep);
    GroupedRun(ds, e, sep);
    if v.plus {
      TwoDigits(Magnitude(i));
    }
    RunMatches(v, u, sep.group[0]);
    IntegerDecode(v, i < 0, u, sep);
    DecimalDigitsValue(Magnitude(i));
    assert DigitsValue(NdValues(u)) == Magnitude(i);
    assert Signed(i < 0, Magnitude(i)) == i;
  }

  /** A run that starts with a digit and holds digits and a character of the
      class matches the pattern without its sign. */
  lemma RunMatches(v: Variant, u: Str, g: CodePoint)
    requires |u| >= (if v.plus then 2 else 1) && IsNd(u[0]) && DigitsOr(u, g) && InClass(v, g)
    ensures UnsignedMatch(v, u)
  {
    forall k | 1 <= k < |u|
      ensures InClass(v, u[k])
    {
      assert IsNd(u[k]) || u[k] == g;
    }
  }

  /** The digits after the decimal separator, written in the digits of `e`. */
  lemma FractionRun(f: Str, e: Entry, sep: Seps)
    requires AllLatinDigits(f)
    requires |sep.group| == 1 && !IsNd(sep.group[0])
    ensures |Transcribed(f, e, sep)| == |f| && AllNd(Transcribed(f, e, sep))
    ensures DigitsOr(Transcribed(f, e, sep), sep.group[0])
    ensures NdValues(Transcribed(f, e, sep)) == LatinValues(f)
  {
    TranscribedRun(f, e, sep);
    LatinNdValues(f);
  }

  /** A digit run, the decimal separator and another run match the pattern
      without its sign. */
  lemma PointedMatch(v: Variant, w: Str, d: CodePoint, f: Str, g: CodePoint)
    requires w != [] && IsNd(w[0]) && DigitsOr(w, g) && AllNd(f)
    requires InClass(v, g) && InClass(v, d)
    ensures UnsignedMatch(v, w + [d] + f)
  {
    var u := w + [d] + f;
    forall k | 1 <= k < |u|
      ensures InClass(v, u[k])
    {
      if k < |w| {
        assert u[k] == w[k];
      } else if k > |w| {
        assert u[k] == f[k - |w| - 1];
      }
    }
  }

  /** Float round trip: a float formatted with `places` > 0 decimals and
      grouping, written in the digits of `e` with distinct single-character
      separators that the decoder's class accepts, decodes to the float
      rounded to `places` decimals, with its sign. */
  lemma FloatRoundTrip(v: Variant, x: Fixed, places: nat, e: Entry, sep: Seps)
    requires 0 < places
    requires |sep.group| == 1 && |sep.decimal| == 1 && sep.group != sep.decimal
    requires SeparatorChar(sep.group[0]) && SeparatorChar(sep.decimal[0])
    requires InClass(v, sep.group[0]) && InClass(v, sep.decimal[0])
    ensures Localized(Float(x), places).Ok?
    ensures ConvertDigits(v, Transcribed(Localized(Float(x), places).value, e, sep), sep)
      == Ok(Float(Fixed(x.neg, RoundTo(x, places), places)))
  {
    var m := RoundTo(x, places);
    var ds := ZeroPad(DecimalDigits(m), places + 1);
    assert AllLatinDigits(ds) && DigitsValue(LatinValues(ds)) == m by {
      ZeroPadValue(DecimalDigits(m), places + 1);
      DecimalDigitsValue(m);
    }
    assert Localized(Float(x), places) == Ok(LocalizedText(x.neg, ds, places));
    PointedRoundTrip(v, x.neg, ds, places, e, sep);
  }

  /** The same for any digit run with its last `places` digits as decimals. */
  lemma PointedRoundTrip(v: Variant, neg: bool, ds: Str, places: nat, e: Entry, sep: Seps)
    requires AllLatinDigits(ds) && 0 < places < |ds|
    requires |sep.group| == 1 && |sep.decimal| == 1 && sep.group != sep.decimal
    requires SeparatorChar(sep.group[0]) && SeparatorChar(sep.decimal[0])
    requires InClass(v, sep.group[0]) && InClass(v, sep.decimal[0])
    ensures ConvertDigits(v, Transcribed(LocalizedText(neg, ds, places), e, sep), sep)
      == Ok(Float(Fixed(neg, DigitsValue(LatinValues(ds)), places)))
  {
    var w, f := ds[..|ds| - places], ds[|ds| - places..];
    var wt, ft := Transcribed(Grouped(w), e, sep), Transcribed(f, e, sep);
    TranscribedText(neg, ds, places, e, sep);
    PointedRunMatch(v, w, f, e, sep);
    DecimalDecode(v, neg, wt, ft, sep);
    PointedValues(ds, places, wt, ft);
    assert |NdValues(ft)| == places;
  }

  /** The written integer digits, the decimal separator and the written
      decimals match the pattern, digits and separators in place. */
  lemma PointedRunMatch(v: Variant, w: Str, f: Str, e: Entry, sep: Seps)
    requires AllLatinDigits(w) && AllLatinDigits(f) && w != [] && f != []
    requires |sep.group| == 1 && |sep.decimal| == 1
    requires SeparatorChar(sep.group[0]) && InClass(v, sep.group[0]) && InClass(v, sep.decimal[0])
    ensures DigitsOr(Transcribed(Grouped(w), e, sep), sep.group[0]) && DigitsOr(Transcribed(f, e, sep), sep.group[0])
    ensures UnsignedMatch(v, Transcribed(Grouped(w), e, sep) + sep.decimal + Transcribed(f, e, sep))
    ensures NdValues(Transcribed(Grouped(w), e, sep)) == LatinValues(w)
    ensures NdValues(Transcribed(f, e, sep)) == LatinValues(f)
    ensures |Transcribed(f, e, sep)| == |f|
  {
    var wt, ft := Transcribed(Grouped(w), e, sep), Transcribed(f, e, sep);
    GroupedRun(w, e, sep);
    FractionRun(f, e, sep);
    assert [sep.decimal[0]] == sep.decimal;
    PointedMatch(v, wt, sep.decimal[0], ft, sep.group[0]);
  }

  lemma PointedValues(ds: Str, places: nat, wt: Str, ft: Str)
    requires AllLatinDigits(ds) && places <= |ds|
    requires NdValues(wt) == LatinValues(ds[..|ds| - places]) && NdValues(ft) == LatinValues(ds[|ds| - places..])
    ensures NdValues(wt + ft) == LatinValues(ds)
  {
    NdValuesConcat(wt, ft);
    LatinValuesSplit(ds, |ds| - places);
  }

  /** Localized text written in the digits of `e`: the sign, the grouped
      integer digits, then the decimal separator and the decimals. */
  lemma TranscribedText(neg: bool, ds: Str, places: nat, e: Entry, sep: Seps)
    requires AllLatinDigits(ds) && 0 < places < |ds|
    ensures Transcribed(LocalizedText(neg, ds, places), e, sep)
      == SignText(neg) + (Transcribed(Grouped(ds[..|ds| - places]), e, sep) + sep.decimal + Transcribed(ds[|ds| - places..], e, sep))
  {
    var w, f := ds[..|ds| - places], ds[|ds| - places..];
    assert LocalizedText(neg, ds, places) == SignText(neg) + Grouped(w) + ([FULL_STOP] + f);
    TranscribedPieces(neg, Grouped(w), f, e, sep);
  }

  /** A sign, a run, a '.' and a second run, written in the digits of `e`. */
  lemma TranscribedPieces(neg: bool, g: Str, f: Str, e: Entry, sep: Seps)
    ensures Transcribed(SignText(neg) + g + ([FULL_STOP] + f), e, sep)
      == SignText(neg) + (Transcribed(g, e, sep) + sep.decimal + Transcribed(f, e, sep))
  {
    var tg, tf := Transcribed(g, e, sep), Transcribed(f, e, sep);
    calc {
      Transcribed(SignText(neg) + g + ([FULL_STOP] + f), e, sep);
      == { TranscribedConcat(SignText(neg) + g, [FULL_STOP] + f, e, sep); }
      Transcribed(SignText(neg) + g, e, sep) + Transcribed([FULL_STOP] + f, e, sep);
      == { TranscribedSigned(neg, g, e, sep); TranscribedPoint(f, e, sep); }
      (SignText(neg) + tg) + (sep.decimal + tf);
      == SignText(neg) + (tg + sep.decimal + tf);
    }
  }

  /** The sign is left as it is. */
  lemma TranscribedSigned(neg: bool, t: Str, e: Entry, sep: Seps)
    ensures Transcribed(SignText(neg) + t, e, sep) == SignText(neg) + Transcribed(t, e, sep)
  {
    TranscribedConcat(SignText(neg), t, e, sep);
    assert Transcribed(SignText(neg), e, sep) == SignText(neg);
  }

  /** The '.' becomes the decimal separator. */
  lemma TranscribedPoint(f: Str, e: Entry, sep: Seps)
    ensures Transcribed([FULL_STOP] + f, e, sep) == sep.decimal + Transcribed(f, e, sep)
  {
    TranscribedConcat([FULL_STOP], f, e, sep);
    assert Transcribed([FULL_STOP], e, sep) == sep.decimal + [];
  }

  /** A group separator the decoder can be given in place of an empty one:
      ',' unless the decimal separator is ',', then '.'. */
  function SpareGroup(d: CodePoint): (h: CodePoint)
    ensures h != d && SeparatorChar(h) && !IsLatinDigit(h)
    ensures forall v: Variant :: InClass(v, h)
  {
    if d == COMMA then FULL_STOP else COMMA
  }

  /** Digits are written the same whatever the separators. */
  lemma {:induction false} TranscribedDigits(s: Str, e: Entry, sepA: Seps, sepB: Seps)
    requires AllLatinDigits(s)
    ensures Transcribed(s, e, sepA) == Transcribed(s, e, sepB)
    decreases |s|
  {
    if s != [] {
      TranscribedDigits(s[1..], e, sepA, sepB);
    }
  }

  /** With an empty group separator, every ',' is written as nothing: the
      text is that of the run with its commas deleted. */
  lemma {:induction false} TranscribedNoGroup(s: Str, e: Entry, d: Str, sep: Seps)
    requires forall k :: 0 <= k < |s| ==> IsLatinDigit(s[k]) || s[k] == COMMA
    ensures Transcribed(s, e, Seps([], d)) == Transcribed(Replace(s, [COMMA], []), e, sep)
    decreases |s|
  {
    if s != [] {
      var c, rest := s[0], s[1..];
      TranscribedNoGroup(rest, e, d, sep);
      assert s == [c] + rest;
      ReplaceCharConcat([c], rest, COMMA, []);
      ReplaceOne(c, COMMA, []);
      TranscribedConcat(Replace([c], [COMMA], []), Replace(rest, [COMMA], []), e, sep);
      if c != COMMA {
        assert Transcribed([c], e, sep) == GlyphText(c, e, sep) + [];
      }
    }
  }

  /** Grouped digits written with an empty group separator are the plain
      digits, written with any separators. */
  lemma UngroupedRun(ds: Str, e: Entry, d: Str, sep: Seps)
    requires AllLatinDigits(ds)
    ensures Transcribed(Grouped(ds), e, Seps([], d)) == Transcribed(ds, e, sep)
  {
    Ungroup(ds);
    TranscribedNoGroup(Grouped(ds), e, d, sep);
  }

  /** Integer round trip with an empty group separator, the default `sep_out`
      of `convert_numeral_systems`: no separator is written between the
      digits, and the decoder, whose `replace` of "" deletes nothing, reads the
      int back. */
  lemma IntRoundTripUngrouped(v: Variant, i: int, e: Entry, d: Str)
    requires |d| == 1 && SeparatorChar(d[0])
    requires !v.plus || i <= -10 || 10 <= i
    ensures ConvertDigits(v, SignText(i < 0) + Transcribed(Grouped(DecimalDigits(Magnitude(i))), e, Seps([], d)), Seps([], d))
      == Ok(Int(i))
  {
    var h := SpareGroup(d[0]);
    var sep := Seps([h], d);
    var u := Transcribed(DecimalDigits(Magnitude(i)), e, sep);
    UngroupedRun(DecimalDigits(Magnitude(i)), e, d, sep);
    PlainIntDecode(v, i, e, sep);
    FractionRun(DecimalDigits(Magnitude(i)), e, sep);
    SignedAbsent(i < 0, u, h);
    var t := SignText(i < 0) + u;
    EmptyGroupDecode(v, t, h, d);
  }

  /** The digits of an int written without group separators decode back to
      the int under a one-character group separator the text does not hold. */
  lemma PlainIntDecode(v: Variant, i: int, e: Entry, sep: Seps)
    requires |sep.group| == 1 && |sep.decimal| == 1
    requires SeparatorChar(sep.group[0]) && SeparatorChar(sep.decimal[0]) && InClass(v, sep.group[0])
    requires !v.plus || i <= -10 || 10 <= i
    ensures ConvertDigits(v, SignText(i < 0) + Transcribed(DecimalDigits(Magnitude(i)), e, sep), sep) == Ok(Int(i))
  {
    var ds := DecimalDigits(Magnitude(i));
    var u := Transcribed(ds, e, sep);
    FractionRun(ds, e, sep);
    if v.plus {
      TwoDigits(Magnitude(i));
    }
    RunMatches(v, u, sep.group[0]);
    IntegerDecode(v, i < 0, u, sep);
    DecimalDigitsValue(Magnitude(i));
    assert DigitsValue(NdValues(u)) == Magnitude(i);
    assert Signed(i < 0, Magnitude(i)) == i;
  }

  /** A separator is nowhere in a signed run of digits. */
  lemma SignedAbsent(neg: bool, u: Str, h: CodePoint)
    requires AllNd(u) && SeparatorChar(h)
    ensures h !in SignText(neg) + u
  {
  }

  /** The stand-in group separator is nowhere in a signed numeral written
      without group separators. */
  lemma SpareAbsent(neg: bool, wt: Str, d: Str, h: CodePoint)
    requires AllNd(wt) && SeparatorChar(h) && h !in d
    ensures forall ft: Str :: AllNd(ft) ==> h !in SignText(neg) + (wt + d + ft)
  {
  }

  /** ... and the float round trip, for any digit run with its last `places`
      digits as decimals. */
  lemma PointedRoundTripUngrouped(v: Variant, neg: bool, ds: Str, places: nat, e: Entry, d: Str)
    requires AllLatinDigits(ds) && 0 < places < |ds|
    requires |d| == 1 && SeparatorChar(d[0]) && InClass(v, d[0])
    ensures ConvertDigits(v, Transcribed(LocalizedText(neg, ds, places), e, Seps([], d)), Seps([], d))
      == Ok(Float(Fixed(neg, DigitsValue(LatinValues(ds)), places)))
  {
    var h := SpareGroup(d[0]);
    var sep := Seps([h], d);
    var w, f := ds[..|ds| - places], ds[|ds| - places..];
    var wt, ft := Transcribed(w, e, sep), Transcribed(f, e, sep);
    TranscribedText(neg, ds, places, e, Seps([], d));
    UngroupedRun(w, e, d, sep);
    TranscribedDigits(f, e, Seps([], d), sep);
    FractionRun(w, e, sep);
    FractionRun(f, e, sep);
    assert [d[0]] == d;
    PointedMatch(v, wt, d[0], ft, h);
    DecimalDecode(v, neg, wt, ft, sep);
    PointedValues(ds, places, wt, ft);
    assert |NdValues(ft)| == places;
    SpareAbsent(neg, wt, d, h);
    EmptyGroupDecode(v, SignText(neg) + (wt + d + ft), h, d);
  }

  /** A float formatted with `places` > 0 decimals and written with an empty
      group separator decodes to the float rounded to `places` decimals. */
  lemma FloatRoundTripUngrouped(v: Variant, x: Fixed, places: nat, e: Entry, d: Str)
    requires 0 < places
    requires |d| == 1 && SeparatorChar(d[0]) && InClass(v, d[0])
    ensures Localized(Float(x), places).Ok?
    ensures ConvertDigits(v, Transcribed(Localized(Float(x), places).value, e, Seps([], d)), Seps([], d))
      == Ok(Float(Fixed(x.neg, RoundTo(x, places), places)))
  {
    var m := RoundTo(x, places);
    var ds := ZeroPad(DecimalDigits(m), places + 1);
    assert AllLatinDigits(ds) && DigitsValue(LatinValues(ds)) == m by {
      ZeroPadValue(DecimalDigits(m), places + 1);
      DecimalDigitsValue(m);
    }
    assert Localized(Float(x), places) == Ok(LocalizedText(x.neg, ds, places));
    PointedRoundTripUngrouped(v, x.neg, ds, places, e, d);
  }

  /** The grouped digit run of a localized number, written out. */
  lemma LocalizedTextFormatted(neg: bool, ds: Str, places: nat)
    requires AllLatinDigits(ds) && places < |ds|
    ensures FormattedText(LocalizedText(neg, ds, places))
  {
    var w := ds[..|ds| - places];
    Ungroup(w);
    var t := LocalizedText(neg, ds, places);
    forall k | 0 <= k < |t|
      ensures FormattedChar(t[k])
    {
      var a := SignText(neg) + Grouped(w);
      if k >= |SignText(neg)| && k < |a| {
        assert t[k] == Grouped(w)[k - |SignText(neg)|];
      } else if k >= |a| + 1 {
        assert t[k] == ds[|ds| - places + (k - |a| - 1)];
      }
    }
  }

  /** `locale.format_string` writes only '-', ASCII digits, ',' and '.'. */
  lemma LocalizedFormatted(n: Value, places: nat)
    requires !n.Text?
    ensures Localized(n, places).Ok? && FormattedText(Localized(n, places).value)
  {
    match n
    case Int(i) =>
      LocalizedTextFormatted(i < 0, DecimalDigits(Magnitude(i)), 0);
    case Float(x) =>
      var ds := ZeroPad(DecimalDigits(RoundTo(x, places)), places + 1);
      ZeroPadValue(DecimalDigits(RoundTo(x, places)), places + 1);
      LocalizedTextFormatted(x.neg, ds, places);
  }

  /** The Arabic separators are separator characters of the decoder, in every
      variant of its class. */
  lemma ArabicSeparators(v: Variant)
    ensures |ARABIC_SEPS.group| == 1 && |ARABIC_SEPS.decimal| == 1 && ARABIC_SEPS.group != ARABIC_SEPS.decimal
    ensures SeparatorChar(ARABIC_SEPS.group[0]) && SeparatorChar(ARABIC_SEPS.decimal[0])
    ensures InClass(v, ARABIC_SEPS.group[0]) && InClass(v, ARABIC_SEPS.decimal[0])
    ensures !IsLatinDigit(ARABIC_SEPS.group[0]) && !IsLatinDigit(ARABIC_SEPS.decimal[0])
    ensures DECIMAL_PLACEHOLDER !in ARABIC_SEPS.group
  {
  }

  /** `convert_to_sorani_ns` of a number without `scale` is its localized
      text written character by character in Arabic-Indic digits and the
      Arabic separators. */
  lemma SoraniTranscribes(n: Value)
    requires !n.Text?
    ensures Localized(n, 2).Ok?
    ensures SoraniNs(n, None) == Ok(Transcribed(Localized(n, 2).value, ARAB, ARABIC_SEPS))
  {
    LocalizedFormatted(n, 2);
    ArabicSeparators(STAR);
    FinishTranscribes(Localized(n, 2).value, LATN, ARAB, ARABIC_SEPS);
  }

  /** An int is shown as its integer digits only. */
  lemma IntText(i: int, places: nat, e: Entry, sep: Seps)
    ensures Localized(Int(i), places).Ok?
    ensures Transcribed(Localized(Int(i), places).value, e, sep)
      == SignText(i < 0) + Transcribed(Grouped(DecimalDigits(Magnitude(i))), e, sep)
  {
    var ds := DecimalDigits(Magnitude(i));
    assert ds[..|ds| - 0] == ds;
    assert Localized(Int(i), places).value == SignText(i < 0) + Grouped(ds) + [];
    assert SignText(i < 0) + Grouped(ds) + [] == SignText(i < 0) + Grouped(ds);
    TranscribedConcat(SignText(i < 0), Grouped(ds), e, sep);
    assert Transcribed(SignText(i < 0), e, sep) == SignText(i < 0);
  }

  /** Sorani integers read back: `convert_digits(convert_to_sorani_ns(i),
      ["٬", "٫"])` is `i`, except that the `+` pattern leaves one-digit
      numerals alone. */
  lemma SoraniIntRoundTrip(v: Variant, i: int)
    requires !v.plus || i <= -10 || 10 <= i
    ensures SoraniNs(Int(i), None).Ok?
    ensures ConvertDigits(v, SoraniNs(Int(i), None).value, ARABIC_SEPS) == Ok(Int(i))
  {
    SoraniTranscribes(Int(i));
    IntText(i, 2, ARAB, ARABIC_SEPS);
    ArabicSeparators(v);
    IntRoundTrip(v, i, ARAB, ARABIC_SEPS);
  }

  /** Sorani floats read back as the value rounded to two decimals. */
  lemma SoraniFloatRoundTrip(v: Variant, x: Fixed)
    ensures SoraniNs(Float(x), None).Ok?
    ensures ConvertDigits(v, SoraniNs(Float(x), None).value, ARABIC_SEPS) == Ok(Float(Fixed(x.neg, RoundTo(x, 2), 2)))
  {
    SoraniTranscribes(Float(x));
    ArabicSeparators(v);
    FloatRoundTrip(v, x, 2, ARAB, ARABIC_SEPS);
  }

  /** `r` ends in the decimal separator `d` and exactly `places` digits, and
      `d` occurs nowhere before them. */
  predicate EndsInDecimals(r: Str, d: CodePoint, places: nat) {
    |r| > places && r[|r| - places - 1] == d && AllNd(r[|r| - places..]) && d !in r[..|r| - places - 1]
  }

  lemma EndsInDecimalsIntro(a: Str, d: CodePoint, b: Str)
    requires AllNd(b) && d !in a
    ensures EndsInDecimals(a + [d] + b, d, |b|)
  {
    var r := a + [d] + b;
    assert r[..|r| - |b| - 1] == a;
    assert r[|r| - |b|..] == b;
  }

  /** Localized text with `places` > 0 decimals, written in the digits of `e`
      with single-character separators, ends in the decimal separator and
      exactly `places` digits. */
  lemma PointedShape(neg: bool, ds: Str, places: nat, e: Entry, sep: Seps)
    requires AllLatinDigits(ds) && 0 < places < |ds|
    requires |sep.group| == 1 && |sep.decimal| == 1 && sep.group != sep.decimal
    requires SeparatorChar(sep.group[0]) && SeparatorChar(sep.decimal[0])
    ensures EndsInDecimals(Transcribed(LocalizedText(neg, ds, places), e, sep), sep.decimal[0], places)
  {
    var w, f := ds[..|ds| - places], ds[|ds| - places..];
    var wt, ft := Transcribed(Grouped(w), e, sep), Transcribed(f, e, sep);
    GroupedRun(w, e, sep);
    FractionRun(f, e, sep);
    TranscribedText(neg, ds, places, e, sep);
    assert [sep.decimal[0]] == sep.decimal;
    PointedRunShape(neg, wt, sep.decimal[0], ft, sep.group[0]);
  }

  lemma PointedRunShape(neg: bool, wt: Str, d: CodePoint, ft: Str, g: CodePoint)
    requires DigitsOr(wt, g) && AllNd(ft) && d != g && SeparatorChar(d)
    ensures EndsInDecimals(SignText(neg) + (wt + [d] + ft), d, |ft|)
  {
    assert d !in SignText(neg);
    assert d !in wt;
    EndsInDecimalsIntro(SignText(neg) + wt, d, ft);
    assert (SignText(neg) + wt) + [d] + ft == SignText(neg) + (wt + [d] + ft);
  }

  /** A Sorani float ends in the Arabic decimal separator and exactly two
      Arabic-Indic digits, and the separator occurs nowhere before them. */
  lemma SoraniTwoDecimals(x: Fixed)
    ensures SoraniNs(Float(x), None).Ok?
    ensures EndsInDecimals(SoraniNs(Float(x), None).value, ARABIC_DECIMAL_SEPARATOR, 2)
  {
    SoraniTranscribes(Float(x));
    ArabicSeparators(STAR);
    FloatShape(x, 2, ARAB, ARABIC_SEPS);
  }

  /** A float formatted with `places` > 0 decimals and written in the digits of
      `e` ends in the decimal separator and exactly `places` digits. */
  lemma FloatShape(x: Fixed, places: nat, e: Entry, sep: Seps)
    requires 0 < places
    requires |sep.group| == 1 && |sep.decimal| == 1 && sep.group != sep.decimal
    requires SeparatorChar(sep.group[0]) && SeparatorChar(sep.decimal[0])
    ensures Localized(Float(x), places).Ok?
    ensures EndsInDecimals(Transcribed(Localized(Float(x), places).value, e, sep), sep.decimal[0], places)
  {
    var ds := ZeroPad(DecimalDigits(RoundTo(x, places)), places + 1);
    ZeroPadValue(DecimalDigits(RoundTo(x, places)), places + 1);
    PointedShape(x.neg, ds, places, e, sep);
  }

  /** Characters a renderer leaves for the reader: no ASCII digit, no placeholder. */
  predicate Rendered(c: CodePoint) {
    !IsLatinDigit(c) && c != GROUP_PLACEHOLDER && c != DECIMAL_PLACEHOLDER
  }

  /** Formatted text written in a system other than Latin, with separators that
      are neither ASCII digits nor placeholders, holds neither. */
  lemma {:induction false} TranscribedRendered(s: Str, e: Entry, sep: Seps)
    requires FormattedText(s) && e.zero != DIGIT_ZERO
    requires forall c :: c in sep.group + sep.decimal ==> Rendered(c)
    ensures forall c :: c in Transcribed(s, e, sep) ==> Rendered(c)
    decreases |s|
  {
    if s != [] {
      TranscribedRendered(s[1..], e, sep);
      var c := s[0];
      if IsLatinDigit(c) {
        GlyphNotLatin(e, c - DIGIT_ZERO);
        GlyphValue(e, c - DIGIT_ZERO);
        PlaceholdersNotDigits();
      } else if c == COMMA {
        assert forall x :: x in sep.group ==> x in sep.group + sep.decimal;
      } else if c == FULL_STOP {
        assert forall x :: x in sep.decimal ==> x in sep.group + sep.decimal;
      }
    }
  }

  /** `convert_to_sorani_ns` output holds no ASCII digit and no placeholder. */
  lemma SoraniRendered(n: Value, scale: Option<Number>)
    ensures SoraniNs(n, scale).Ok? ==> forall c :: c in SoraniNs(n, scale).value ==> Rendered(c)
  {
    var m := Scaled(n, scale);
    if m.Ok? && !m.value.Text? {
      var v := m.value;
      assert SoraniNs(n, scale) == SoraniNs(v, None);
      SoraniTranscribes(v);
      LocalizedFormatted(v, 2);
      ArabicSeparatorsRendered();
      TranscribedRendered(Localized(v, 2).value, ARAB, ARABIC_SEPS);
    }
  }

  /** The Arabic separators are rendered characters. */
  lemma ArabicSeparatorsRendered()
    ensures forall c :: c in ARABIC_SEPS.group + ARABIC_SEPS.decimal ==> Rendered(c)
  {
    assert ARABIC_SEPS.group + ARABIC_SEPS.decimal == [ARABIC_THOUSANDS_SEPARATOR, ARABIC_DECIMAL_SEPARATOR];
  }

  /** `convert_to_sorani_ns` raises exactly for a str, and then TypeError: the
      '%d' format of a str, or `str * float`. */
  lemma SoraniRaises(n: Value, scale: Option<Number>)
    ensures SoraniNs(n, scale).Raise? <==> n.Text?
    ensures SoraniNs(n, scale).Raise? ==> SoraniNs(n, scale) == Raise(TypeError)
  {
  }

  /** A `str.replace` whose pattern starts with a character the text lacks
      changes nothing. */
  lemma {:induction false} ReplaceHeadAbsent(s: Str, pat: Str, rep: Str)
    requires pat != [] && pat[0] !in s
    ensures Replace(s, pat, rep) == s
  {
    HeadAbsentNotContained(s, pat);
    ReplaceAbsent(s, pat, rep);
  }

  lemma {:induction false} HeadAbsentNotContained(s: Str, pat: Str)
    requires pat != [] && pat[0] !in s
    ensures !Contains(s, pat)
    decreases |s|
  {
    if s != [] {
      HeadAbsentNotContained(s[1..], pat);
    }
  }

  /** The placeholder step adds no '['. */
  lemma PlaceholdersNoBracket(s: Str)
    requires LEFT_SQUARE_BRACKET !in s
    ensures LEFT_SQUARE_BRACKET !in Placeholders(s)
  {
    var a := Replace(s, [COMMA], [GROUP_PLACEHOLDER]);
    ReplaceCharByChar(s, COMMA, GROUP_PLACEHOLDER);
    ReplaceCharByChar(a, FULL_STOP, DECIMAL_PLACEHOLDER);
    assert forall k :: 0 <= k < |a| ==> a[k] != LEFT_SQUARE_BRACKET;
  }

  /** With the default `sep_in` the class-pattern replacement is a no-op on
      number text: it holds no '[' to match the raw pattern's first character. */
  lemma DefaultSepInNoOp(f: Str)
    requires FormattedText(f)
    ensures InputSeparators(Placeholders(f), DEFAULT_SEP_IN) == Placeholders(f)
  {
    assert LEFT_SQUARE_BRACKET !in f;
    PlaceholdersNoBracket(f);
    ReplaceHeadAbsent(Placeholders(f), DECIMAL_CLASS_TEXT, [DECIMAL_PLACEHOLDER]);
  }

  /** The class patterns are replaced only where their raw text itself
      occurs: the pattern for the group separators becomes one placeholder. */
  lemma GroupPatternIsLiteral()
    ensures InputSeparators(GROUP_CLASS_TEXT, Seps([THIN_SPACE], [])) == [GROUP_PLACEHOLDER]
    ensures InputSeparators([THIN_SPACE], Seps([THIN_SPACE], [])) == [THIN_SPACE]
  {
    assert GROUP_CLASS_TEXT <= GROUP_CLASS_TEXT;
    assert GROUP_CLASS_TEXT[|GROUP_CLASS_TEXT|..] == [];
    assert Replace(GROUP_CLASS_TEXT, GROUP_CLASS_TEXT, [GROUP_PLACEHOLDER]) == [GROUP_PLACEHOLDER] + [];
    ReplaceHeadAbsent([THIN_SPACE], GROUP_CLASS_TEXT, [GROUP_PLACEHOLDER]);
  }

  /** `convert_to_sorani_ns(n, p, scale)` is `convert_to_arab_ns(n, 2,
      sep_out=["٬", "٫"], scale=scale)`. */
  lemma SoraniIsArabNs(n: Value, scale: Option<Number>)
    ensures SoraniNs(n, scale) == ArabNs(n, 2, DEFAULT_SEP_IN, ARABIC_SEPS, scale)
  {
    var m := Scaled(n, scale);
    if m.Ok? && !m.value.Text? {
      LocalizedFormatted(m.value, 2);
      DefaultSepInNoOp(Localized(m.value, 2).value);
    }
  }

  /** `convert_to_arab_ns` without `scale` is `convert_numeral_systems` with
      `system_out` "arab" and `system_in` "latn". */
  lemma ArabNsIsNumeralSystems(n: Value, decimal: nat, sepIn: Seps, sepOut: Seps)
    ensures ArabNs(n, decimal, sepIn, sepOut, None) == NumeralSystems(n, "arab", "latn", decimal, sepIn, sepOut)
  {
    LatnEntry();
    ArabEntry();
    ArabTail(n, decimal, sepIn, sepOut);
  }

  /** With the table lookups done, both run the same steps. */
  lemma ArabTail(n: Value, decimal: nat, sepIn: Seps, sepOut: Seps)
    requires "latn" in Data && Data["latn"] == LATN && "arab" in Data && Data["arab"] == ARAB
    ensures ArabNs(n, decimal, sepIn, sepOut, None) == NumeralSystems(n, "arab", "latn", decimal, sepIn, sepOut)
  {
    var start := if sepIn == DEFAULT_SEP_IN then Formatted(n, decimal) else Unformatted(n);
    ArabOutputSeps(sepOut);
    ArabNsSteps(n, decimal, sepIn, sepOut, start);
    ArabSteps(n, decimal, sepIn, sepOut, start);
  }

  lemma ArabOutputSeps(sepOut: Seps)
    requires "arab" in Data && Data["arab"] == ARAB
    ensures OutputSeps("arab", sepOut) == sepOut
  {
    assert "sep_out" !in Data["arab"].keys;
  }

  /** `convert_to_arab_ns` without `scale`, as its start and finishing steps. */
  lemma ArabNsSteps(n: Value, decimal: nat, sepIn: Seps, sepOut: Seps, start: Result<Str>)
    requires start == if sepIn == DEFAULT_SEP_IN then Formatted(n, decimal) else Unformatted(n)
    ensures ArabNs(n, decimal, sepIn, sepOut, None)
      == if start.Raise? then start else Ok(Finish(InputSeparators(start.value, sepIn), MakeTrans(Digits(LATN), Digits(ARAB)), sepOut))
  {
    assert Scaled(n, None) == Ok(n);
  }

  /** `convert_numeral_systems` into "arab", as the same steps. */
  lemma ArabSteps(n: Value, decimal: nat, sepIn: Seps, sepOut: Seps, start: Result<Str>)
    requires "latn" in Data && Data["latn"] == LATN && "arab" in Data && Data["arab"] == ARAB
    requires OutputSeps("arab", sepOut) == sepOut
    requires start == if "latn" == "latn" && sepIn == DEFAULT_SEP_IN then Formatted(n, decimal) else Unformatted(n)
    ensures NumeralSystems(n, "arab", "latn", decimal, sepIn, sepOut)
      == if start.Raise? then start else Ok(Finish(InputSeparators(start.value, sepIn), MakeTrans(Digits(LATN), Digits(ARAB)), sepOut))
  {
  }

  /** `convert_to_arab_ns` raises exactly when the path taken does not fit
      `n`: a str to be formatted (TypeError at '%d') or a number given
      `sep_in` (AttributeError: it has no `replace`). */
  lemma ArabNsRaises(n: Value, decimal: nat, sepIn: Seps, sepOut: Seps, scale: Option<Number>)
    ensures ArabNs(n, decimal, sepIn, sepOut, scale).Raise? <==> (n.Text? <==> sepIn == DEFAULT_SEP_IN)
    ensures ArabNs(n, decimal, sepIn, sepOut, scale).Raise? ==>
      ArabNs(n, decimal, sepIn, sepOut, scale) == Raise(if n.Text? then TypeError else AttributeError)
  {
  }

  /** The default `system_out` "" names no numbering system: formatting a
      number then fails at the table lookup with KeyError (a str fails first, at
      '%d'). */
  lemma DefaultSystemOutRaises(n: Value, decimal: nat, sepOut: Seps)
    ensures NumeralSystems(n, "", "latn", decimal, DEFAULT_SEP_IN, sepOut) == Raise(if n.Text? then TypeError else KeyError)
  {
    EmptyNotInData();
  }

  /** A numbering system missing from the table, on either side, is a
      KeyError at the `maketrans` lookup once the input step has succeeded:
      formatting on the default path, taking the str as it is otherwise. Every
      failure is raised; the input step's own error comes first. */
  lemma UnknownSystemRaises(n: Value, systemOut: string, systemIn: string, decimal: nat, sepIn: Seps, sepOut: Seps)
    requires systemIn !in Data || systemOut !in Data
    ensures NumeralSystems(n, systemOut, systemIn, decimal, sepIn, sepOut).Raise?
    ensures NumeralSystems(n, systemOut, systemIn, decimal, sepIn, sepOut) == Raise(KeyError)
      <==> if systemIn == "latn" && sepIn == DEFAULT_SEP_IN then !n.Text? else n.Text?
  {
    if systemIn == "latn" && sepIn == DEFAULT_SEP_IN && n.Text? {
      assert Localized(n, decimal) == Raise(TypeError);
    }
  }

  /** How `sep_out` is resolved: "adlm", "mymr" and "mymrshan" impose their
      ASCII separators whatever is passed; every other entry, "arabext" among
      them (its Arabic separators sit under "sep_out_out"), uses the argument;
      an unknown system falls back to the argument. */
  lemma SepOutResolution(sepOut: Seps)
    ensures forall k :: k in Data ==> OutputSeps(k, sepOut) == if OwnSepOut(k) then Seps([COMMA], [FULL_STOP]) else sepOut
    ensures OutputSeps("mymr", sepOut) == Seps([COMMA], [FULL_STOP])
    ensures OutputSeps("arabext", sepOut) == sepOut
    ensures OutputSeps("", sepOut) == sepOut
  {
    forall k | k in Data
      ensures OutputSeps(k, sepOut) == if OwnSepOut(k) then Seps([COMMA], [FULL_STOP]) else sepOut
    {
      SepOutEntries();
    }
    MymrEntry();
    ArabextEntry();
    EmptyNotInData();
  }

  /** `convert_numeral_systems(n, k, "latn")` of a number is its localized
      text written character by character in the digits of entry `k` and the
      resolved output separators. */
  lemma NumeralSystemsTranscribes(n: Value, k: string, decimal: nat, sepOut: Seps)
    requires !n.Text? && k in Data
    requires DECIMAL_PLACEHOLDER !in OutputSeps(k, sepOut).group
    ensures Localized(n, decimal).Ok?
    ensures NumeralSystems(n, k, "latn", decimal, DEFAULT_SEP_IN, sepOut)
      == Ok(Transcribed(Localized(n, decimal).value, Data[k], OutputSeps(k, sepOut)))
  {
    LatnEntry();
    LocalizedFormatted(n, decimal);
    DefaultSepInNoOp(Localized(n, decimal).value);
    FinishTranscribes(Localized(n, decimal).value, LATN, Data[k], OutputSeps(k, sepOut));
  }

  /** Separators the decoder can read back: a decimal separator of one
      character and a group separator of one character or none (the default
      `sep_out` ["", "."]), distinct, neither digits nor '-', and in the
      decoder's class. */
  predicate Readable(v: Variant, sep: Seps) {
    |sep.group| <= 1 && |sep.decimal| == 1 && sep.group != sep.decimal
    && (sep.group != [] ==> SeparatorChar(sep.group[0]) && InClass(v, sep.group[0]))
    && SeparatorChar(sep.decimal[0]) && InClass(v, sep.decimal[0])
  }

  /** Readable separators are not the placeholders. */
  lemma ReadableNoPlaceholder(v: Variant, sep: Seps)
    requires Readable(v, sep)
    ensures DECIMAL_PLACEHOLDER !in sep.group && GROUP_PLACEHOLDER !in sep.group
  {
    if sep.group != [] {
      PlaceholdersNotDigits();
      assert sep.group == [sep.group[0]];
    }
  }

  /** Every numbering system of the table round-trips an int through
      `convert_numeral_systems` and `convert_digits` with the separators that
      were written. */
  lemma NumeralSystemsIntRoundTrip(v: Variant, i: int, k: string, decimal: nat, sepOut: Seps)
    requires k in Data && Readable(v, OutputSeps(k, sepOut))
    requires !v.plus || i <= -10 || 10 <= i
    ensures NumeralSystems(Int(i), k, "latn", decimal, DEFAULT_SEP_IN, sepOut).Ok?
    ensures ConvertDigits(v, NumeralSystems(Int(i), k, "latn", decimal, DEFAULT_SEP_IN, sepOut).value, OutputSeps(k, sepOut))
      == Ok(Int(i))
  {
    ReadableNoPlaceholder(v, OutputSeps(k, sepOut));
    NumeralSystemsTranscribes(Int(i), k, decimal, sepOut);
    LocalizedIntRoundTrip(v, i, decimal, Data[k], OutputSeps(k, sepOut));
  }

  /** An int formatted and written in the digits of `e` decodes back. */
  lemma LocalizedIntRoundTrip(v: Variant, i: int, decimal: nat, e: Entry, sep: Seps)
    requires Readable(v, sep)
    requires !v.plus || i <= -10 || 10 <= i
    ensures Localized(Int(i), decimal).Ok?
    ensures ConvertDigits(v, Transcribed(Localized(Int(i), decimal).value, e, sep), sep) == Ok(Int(i))
  {
    IntText(i, decimal, e, sep);
    if sep.group == [] {
      assert sep == Seps([], sep.decimal);
      IntRoundTripUngrouped(v, i, e, sep.decimal);
    } else {
      IntRoundTrip(v, i, e, sep);
    }
  }

  /** ... and a float, rounded to `decimal` > 0 places. */
  lemma NumeralSystemsFloatRoundTrip(v: Variant, x: Fixed, k: string, decimal: nat, sepOut: Seps)
    requires k in Data && Readable(v, OutputSeps(k, sepOut)) && decimal > 0
    ensures NumeralSystems(Float(x), k, "latn", decimal, DEFAULT_SEP_IN, sepOut).Ok?
    ensures ConvertDigits(v, NumeralSystems(Float(x), k, "latn", decimal, DEFAULT_SEP_IN, sepOut).value, OutputSeps(k, sepOut))
      == Ok(Float(Fixed(x.neg, RoundTo(x, decimal), decimal)))
  {
    ReadableNoPlaceholder(v, OutputSeps(k, sepOut));
    NumeralSystemsTranscribes(Float(x), k, decimal, sepOut);
    var sep := OutputSeps(k, sepOut);
    if sep.group == [] {
      assert sep == Seps([], sep.decimal);
      FloatRoundTripUngrouped(v, x, decimal, Data[k], sep.decimal);
    } else {
      FloatRoundTrip(v, x, decimal, Data[k], sep);
    }
  }

  /** The default `sep_out` is one the decoder reads back. */
  lemma DefaultSepOutReadable(v: Variant)
    ensures Readable(v, DEFAULT_SEP_OUT)
  {
  }

  /** The default call, `convert_numeral_systems(i, system_out=k)` into an
      entry other than "adlm", "mymr" and "mymrshan" (the ones with their own
      `sep_out`), writes no group separator, and the
      decoder given the same ["", "."] reads the int back. */
  lemma DefaultSepOutIntRoundTrip(v: Variant, i: int, k: string, decimal: nat)
    requires k in Data && !OwnSepOut(k)
    requires !v.plus || i <= -10 || 10 <= i
    ensures NumeralSystems(Int(i), k, "latn", decimal, DEFAULT_SEP_IN, DEFAULT_SEP_OUT).Ok?
    ensures ConvertDigits(v, NumeralSystems(Int(i), k, "latn", decimal, DEFAULT_SEP_IN, DEFAULT_SEP_OUT).value, DEFAULT_SEP_OUT)
      == Ok(Int(i))
  {
    SepOutResolution(DEFAULT_SEP_OUT);
    DefaultSepOutReadable(v);
    NumeralSystemsIntRoundTrip(v, i, k, decimal, DEFAULT_SEP_OUT);
  }

  /** ... and a float, rounded to `decimal` > 0 places. */
  lemma DefaultSepOutFloatRoundTrip(v: Variant, x: Fixed, k: string, decimal: nat)
    requires k in Data && !OwnSepOut(k) && decimal > 0
    ensures NumeralSystems(Float(x), k, "latn", decimal, DEFAULT_SEP_IN, DEFAULT_SEP_OUT).Ok?
    ensures ConvertDigits(v, NumeralSystems(Float(x), k, "latn", decimal, DEFAULT_SEP_IN, DEFAULT_SEP_OUT).value, DEFAULT_SEP_OUT)
      == Ok(Float(Fixed(x.neg, RoundTo(x, decimal), decimal)))
  {
    SepOutResolution(DEFAULT_SEP_OUT);
    DefaultSepOutReadable(v);
    NumeralSystemsFloatRoundTrip(v, x, k, decimal, DEFAULT_SEP_OUT);
  }

  /** Formatting into a system other than Latin leaves no ASCII digit and no
      placeholder, given separators free of both. */
  lemma NumeralSystemsRendered(n: Value, k: string, decimal: nat, sepOut: Seps)
    requires !n.Text? && k in Data && Data[k].zero != DIGIT_ZERO
    requires forall c :: c in OutputSeps(k, sepOut).group + OutputSeps(k, sepOut).decimal ==> Rendered(c)
    ensures NumeralSystems(n, k, "latn", decimal, DEFAULT_SEP_IN, sepOut).Ok?
    ensures forall c :: c in NumeralSystems(n, k, "latn", decimal, DEFAULT_SEP_IN, sepOut).value ==> Rendered(c)
  {
    var sep := OutputSeps(k, sepOut);
    assert forall c :: c in sep.group ==> c in sep.group + sep.decimal;
    NumeralSystemsTranscribes(n, k, decimal, sepOut);
    LocalizedFormatted(n, decimal);
    TranscribedRendered(Localized(n, decimal).value, Data[k], sep);
  }

  /** `sep_in` ["", ""]: no separator replacement at all. */
  const NO_SEPS := Seps([], [])

  /** Text without placeholders keeps none after translating into digits. */
  lemma TranslateNoPlaceholder(s: Str, src: Entry, e: Entry)
    requires GROUP_PLACEHOLDER !in s && DECIMAL_PLACEHOLDER !in s
    ensures GROUP_PLACEHOLDER !in Translate(s, MakeTrans(Digits(src), Digits(e)))
    ensures DECIMAL_PLACEHOLDER !in Translate(s, MakeTrans(Digits(src), Digits(e)))
  {
    var r := Translate(s, MakeTrans(Digits(src), Digits(e)));
    forall i | 0 <= i < |s|
      ensures r[i] != GROUP_PLACEHOLDER && r[i] != DECIMAL_PLACEHOLDER
    {
      TranslateDigits(s, Digits(src), Digits(e), i);
      if s[i] in Digits(src) {
        var j :| 0 <= j < 10 && Digits(src)[j] == s[i];
        GlyphValue(e, j);
        PlaceholdersNotDigits();
      }
    }
  }

  /** On str input, `convert_numeral_systems` is `str.translate` from the
      digits of `system_in` to those of `system_out` whenever the `sep_in`
      replacements find nothing to replace: with `sep_in` ["", ""], and with
      the default ["", "."] off the "latn" path unless the text holds the raw
      pattern r'[,.٫]'. */
  lemma TextTranslates(s: Str, a: string, b: string, decimal: nat, sepIn: Seps, sepOut: Seps)
    requires a in Data && b in Data
    requires !(a == "latn" && sepIn == DEFAULT_SEP_IN)
    requires GroupListed(sepIn.group) ==> !Contains(s, GROUP_CLASS_TEXT)
    requires sepIn.group == [FULL_STOP] ==> FULL_STOP !in s
    requires DecimalListed(sepIn.decimal) ==> !Contains(s, DECIMAL_CLASS_TEXT)
    requires GROUP_PLACEHOLDER !in s && DECIMAL_PLACEHOLDER !in s
    ensures NumeralSystems(Text(s), b, a, decimal, sepIn, sepOut) == Ok(Translate(s, MakeTrans(Digits(Data[a]), Digits(Data[b]))))
  {
    InputInert(s, sepIn);
    FinishText(s, Data[a], Data[b], OutputSeps(b, sepOut));
  }

  /** The `sep_in` replacements leave text without their patterns alone. */
  lemma InputInert(s: Str, sepIn: Seps)
    requires GroupListed(sepIn.group) ==> !Contains(s, GROUP_CLASS_TEXT)
    requires sepIn.group == [FULL_STOP] ==> FULL_STOP !in s
    requires DecimalListed(sepIn.decimal) ==> !Contains(s, DECIMAL_CLASS_TEXT)
    ensures InputSeparators(s, sepIn) == s
  {
    if GroupListed(sepIn.group) {
      ReplaceAbsent(s, GROUP_CLASS_TEXT, [GROUP_PLACEHOLDER]);
    } else if sepIn.group == [FULL_STOP] {
      ContainsChar(s, FULL_STOP);
      ReplaceAbsent(s, [FULL_STOP], [GROUP_PLACEHOLDER]);
    }
    if DecimalListed(sepIn.decimal) {
      ReplaceAbsent(s, DECIMAL_CLASS_TEXT, [DECIMAL_PLACEHOLDER]);
    }
  }

  lemma FinishText(s: Str, src: Entry, e: Entry, sep: Seps)
    requires GROUP_PLACEHOLDER !in s && DECIMAL_PLACEHOLDER !in s
    ensures Finish(s, MakeTrans(Digits(src), Digits(e)), sep) == Translate(s, MakeTrans(Digits(src), Digits(e)))
  {
    var r := Translate(s, MakeTrans(Digits(src), Digits(e)));
    TranslateNoPlaceholder(s, src, e);
    ContainsChar(r, GROUP_PLACEHOLDER);
    ReplaceAbsent(r, [GROUP_PLACEHOLDER], sep.group);
    ContainsChar(r, DECIMAL_PLACEHOLDER);
    ReplaceAbsent(r, [DECIMAL_PLACEHOLDER], sep.decimal);
  }

  /** Transcoding str input from system `a` to `b` and back gives the input,
      when it holds no digit of `b` (those would come back as digits of `a`)
      and no placeholder. */
  lemma TranscodeRoundTrip(s: Str, a: string, b: string, sepOut: Seps)
    requires a in Data && b in Data
    requires GROUP_PLACEHOLDER !in s && DECIMAL_PLACEHOLDER !in s
    requires forall c :: c in s ==> c !in Digits(Data[b])
    ensures NumeralSystems(Text(s), b, a, 0, NO_SEPS, sepOut).Ok?
    ensures NumeralSystems(Text(NumeralSystems(Text(s), b, a, 0, NO_SEPS, sepOut).value), a, b, 0, NO_SEPS, sepOut) == Ok(s)
  {
    TextTranslates(s, a, b, 0, NO_SEPS, sepOut);
    var r := Translate(s, MakeTrans(Digits(Data[a]), Digits(Data[b])));
    TranslateNoPlaceholder(s, Data[a], Data[b]);
    TextTranslates(r, b, a, 0, NO_SEPS, sepOut);
    TranslateRoundTrip(s, Digits(Data[a]), Digits(Data[b]));
  }

  /** The value a decoder reads back from a Sorani numeral: an int as it is, a
      float rounded to two decimals. */
  function Shown(m: Value): Value {
    match m
    case Float(x) => Float(Fixed(x.neg, RoundTo(x, 2), 2))
    case _ => m
  }

  /** A scaling result that is an int of one digit. */
  predicate OneDigitInt(m: Result<Value>) {
    m.Ok? && m.value.Int? && -10 < m.value.i < 10
  }

  /** `convert_to_sorani_ns(n, scale=scale)` of a number reads back as
      `n * scale` (or `n` when `scale` is None or zero), shown with two
      decimals when a float. */
  lemma SoraniRoundTrip(v: Variant, n: Value, scale: Option<Number>)
    requires !n.Text?
    requires !v.plus || !OneDigitInt(Scaled(n, scale))
    ensures Scaled(n, scale).Ok? && !Scaled(n, scale).value.Text?
    ensures SoraniNs(n, scale).Ok?
    ensures ConvertDigits(v, SoraniNs(n, scale).value, ARABIC_SEPS) == Ok(Shown(Scaled(n, scale).value))
  {
    var m := Scaled(n, scale).value;
    assert SoraniNs(n, scale) == SoraniNs(m, None);
    match m
    case Int(i) => SoraniIntRoundTrip(v, i);
    case Float(x) => SoraniFloatRoundTrip(v, x);
  }
}
