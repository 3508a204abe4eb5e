/** Worked instances of the decoder and the renderers on the numerals the
    Sorani plotting scripts and the numbering-system table deal with. */
module Scenarios {
  import opened Wrappers
  import opened Unicode
  import opened PyStr
  import opened Numbers
  import opened NumeralData
  import opened Decoder
  import opened SoraniDecode
  import opened Grouping
  import opened Render
  import opened RenderLaws

  /** "١٬٢٣٤": Arabic-Indic one, U+066C, two, three, four. */
  const ARABIC_1234: Str := [0x661, ARABIC_THOUSANDS_SEPARATOR, 0x662, 0x663, 0x664]

  /** "١٬٢٣٤٫٥": the same with U+066B and five. */
  const ARABIC_1234_5: Str := [0x661, ARABIC_THOUSANDS_SEPARATOR, 0x662, 0x663, 0x664, ARABIC_DECIMAL_SEPARATOR, 0x665]

  /** The decimal values and the number of "١٬٢٣٤" and of "١٬٢٣٤" + "٥". */
  lemma ArabicValues()
    ensures NdValues(ARABIC_1234) == [1, 2, 3, 4] && DigitsValue([1, 2, 3, 4]) == 1234
    ensures NdValues(ARABIC_1234 + [0x665]) == [1, 2, 3, 4, 5] && DigitsValue([1, 2, 3, 4, 5]) == 12345
    ensures NdValues([0x665]) == [5]
  {
    ArabicDigitValues();
    DigitsValue12345();
  }

  lemma ArabicDigitValues()
    ensures NdValues(ARABIC_1234) == [1, 2, 3, 4]
    ensures NdValues(ARABIC_1234 + [0x665]) == [1, 2, 3, 4, 5] && NdValues([0x665]) == [5]
  {
    assert ARABIC_1234 == [0x661, 0x66C, 0x662, 0x663, 0x664];
    assert NdValues([0x661, 0x66C, 0x662, 0x663, 0x664]) == [1, 2, 3, 4];
    assert ARABIC_1234 + [0x665] == [0x661, 0x66C, 0x662, 0x663, 0x664, 0x665];
    assert NdValues([0x661, 0x66C, 0x662, 0x663, 0x664, 0x665]) == [1, 2, 3, 4, 5];
  }

  lemma DigitsValue12345()
    ensures DigitsValue([1, 2, 3, 4]) == 1234 && DigitsValue([1, 2, 3, 4, 5]) == 12345
  {
    assert [1, 2, 3, 4, 5][..4] == [1, 2, 3, 4];
    assert [1, 2, 3, 4][..3] == [1, 2, 3];
    assert [1, 2, 3][..2] == [1, 2];
    assert [1, 2][..1] == [1];
    assert [1][..0] == [];
  }

  /** A text without '-' is left alone by the rewrite of `digitsconv`. */
  lemma NoHyphen(x: Str)
    requires HYPHEN_MINUS !in x
    ensures Replace(x, [HYPHEN_MINUS], [ARABIC_INDIC_ZERO]) == x
  {
    ContainsChar(x, HYPHEN_MINUS);
    ReplaceAbsent(x, [HYPHEN_MINUS], [ARABIC_INDIC_ZERO]);
  }

  /** `digitsconv("١٬٢٣٤")` is 1234, in every copy of the decoder. */
  lemma SoraniThousands(v: Variant)
    ensures DigitsConv(v, ARABIC_1234) == Ok(Int(1234))
  {
    NoHyphen(ARABIC_1234);
    assert UnsignedMatch(v, ARABIC_1234);
    assert DigitsOr(ARABIC_1234, ARABIC_THOUSANDS_SEPARATOR);
    assert [ARABIC_THOUSANDS_SEPARATOR][0] == ARABIC_THOUSANDS_SEPARATOR;
    assert [ARABIC_DECIMAL_SEPARATOR][0] == ARABIC_DECIMAL_SEPARATOR;
    IntegerDecode(v, false, ARABIC_1234, ARABIC_SEPS);
    assert SignText(false) + ARABIC_1234 == ARABIC_1234;
    ArabicValues();
  }

  /** `digitsconv("١٬٢٣٤٫٥")` is 1234.5, in every copy of the decoder. */
  lemma SoraniDecimals(v: Variant)
    ensures DigitsConv(v, ARABIC_1234_5) == Ok(Float(Fixed(false, 12345, 1)))
  {
    NoHyphen(ARABIC_1234_5);
    assert ARABIC_1234_5 == ARABIC_1234 + ARABIC_SEPS.decimal + [0x665];
    assert UnsignedMatch(v, ARABIC_1234_5);
    assert DigitsOr(ARABIC_1234, ARABIC_THOUSANDS_SEPARATOR) && DigitsOr([0x665], ARABIC_THOUSANDS_SEPARATOR);
    assert [ARABIC_THOUSANDS_SEPARATOR][0] == ARABIC_THOUSANDS_SEPARATOR;
    assert [ARABIC_DECIMAL_SEPARATOR][0] == ARABIC_DECIMAL_SEPARATOR;
    DecimalDecode(v, false, ARABIC_1234, [0x665], ARABIC_SEPS);
    assert SignText(false) + ARABIC_1234_5 == ARABIC_1234_5;
    ArabicValues();
  }

  /** The snippet copy's `+` pattern returns a lone "7" as the text "7". */
  lemma SnippetSevenUnchanged(sep: Seps)
    ensures ConvertDigitsSnippet([0x37], sep) == Ok(Text([0x37]))
  {
    assert !Matches(PLUS, [0x37]);
  }

  /** "1 234": the shared pattern lets it through to `int`, which raises;
      the snippet copy returns it unchanged. */
  lemma NarrowSpaceExample()
    ensures ConvertDigits(STAR_NNBSP, [0x31, NARROW_NO_BREAK_SPACE, 0x32, 0x33, 0x34], DEFAULT_SEPS) == Raise(ValueError)
    ensures ConvertDigitsSnippet([0x31, NARROW_NO_BREAK_SPACE, 0x32, 0x33, 0x34], DEFAULT_SEPS)
      == Ok(Text([0x31, NARROW_NO_BREAK_SPACE, 0x32, 0x33, 0x34]))
  {
    var w, f := [0x31], [0x32, 0x33, 0x34];
    assert w + [NARROW_NO_BREAK_SPACE] + f == [0x31, NARROW_NO_BREAK_SPACE, 0x32, 0x33, 0x34];
    NarrowNoBreakSpace(STAR_NNBSP, w, f);
    NarrowNoBreakSpace(PLUS, w, f);
    SnippetAgrees([0x31, NARROW_NO_BREAK_SPACE, 0x32, 0x33, 0x34], DEFAULT_SEPS);
  }

  /** The digits of 123452. */
  lemma Digits123452()
    ensures DecimalDigits(123452) == [0x31, 0x32, 0x33, 0x34, 0x35, 0x32]
  {
    assert DecimalDigits(1) == [0x31];
    assert DecimalDigits(12) == [0x31, 0x32];
    assert DecimalDigits(123) == [0x31, 0x32, 0x33];
    assert DecimalDigits(1234) == [0x31, 0x32, 0x33, 0x34];
    assert DecimalDigits(12345) == [0x31, 0x32, 0x33, 0x34, 0x35];
  }

  /** 123452 formatted with en_US grouping is "123,452". */
  lemma Localized123452()
    ensures Localized(Int(123452), 2) == Ok([0x31, 0x32, 0x33, COMMA, 0x34, 0x35, 0x32])
  {
    Digits123452();
    var ds: Str := [0x31, 0x32, 0x33, 0x34, 0x35, 0x32];
    assert ds[..|ds| - 0] == ds;
    assert ds[..3] == [0x31, 0x32, 0x33] && ds[3..] == [0x34, 0x35, 0x32];
    assert Grouped(ds[..3]) == ds[..3];
    assert Grouped(ds) == [0x31, 0x32, 0x33] + ([COMMA] + [0x34, 0x35, 0x32]);
    assert Magnitude(123452) == 123452;
    assert LocalizedText(false, ds, 0) == SignText(false) + Grouped(ds) + [];
    assert LocalizedText(false, ds, 0) == [0x31, 0x32, 0x33, COMMA, 0x34, 0x35, 0x32];
    assert Localized(Int(123452), 2) == Ok(LocalizedText(false, DecimalDigits(123452), 0));
  }

  /** "123,452" written in the digits that start at U+1040 with ',' kept. */
  lemma Transcribed123452(e: Entry)
    requires e.zero == 0x1040
    ensures Transcribed([0x31, 0x32, 0x33, COMMA, 0x34, 0x35, 0x32], e, Seps([COMMA], [FULL_STOP]))
      == [0x1041, 0x1042, 0x1043, COMMA, 0x1044, 0x1045, 0x1042]
  {
    var sep := Seps([COMMA], [FULL_STOP]);
    var g: Str := [0x31, 0x32, 0x33, COMMA, 0x34, 0x35, 0x32];
    assert g == [0x31, 0x32, 0x33] + [COMMA, 0x34, 0x35, 0x32];
    TranscribedConcat([0x31, 0x32, 0x33], [COMMA, 0x34, 0x35, 0x32], e, sep);
    assert Transcribed([0x31, 0x32, 0x33], e, sep) == [0x1041, 0x1042, 0x1043];
    assert [COMMA, 0x34, 0x35, 0x32] == [COMMA] + [0x34, 0x35, 0x32];
    TranscribedConcat([COMMA], [0x34, 0x35, 0x32], e, sep);
    assert Transcribed([COMMA], e, sep) == [COMMA];
    assert Transcribed([0x34, 0x35, 0x32], e, sep) == [0x1044, 0x1045, 0x1042];
  }

  /** `convert_numeral_systems(123452, system_out="mymr")` is "၁၂၃,၄၅၂": Myanmar
      digits with ',' between the groups of three, whatever `sep_out` says. */
  lemma MyanmarGrouped(sepOut: Seps)
    ensures NumeralSystems(Int(123452), "mymr", "latn", 2, DEFAULT_SEP_IN, sepOut)
      == Ok([0x1041, 0x1042, 0x1043, COMMA, 0x1044, 0x1045, 0x1042])
  {
    MymrEntry();
    var e, sep := Data["mymr"], OutputSeps("mymr", sepOut);
    assert sep == Seps([COMMA], [FULL_STOP]) by {
      SepOutResolution(sepOut);
    }
    assert NumeralSystems(Int(123452), "mymr", "latn", 2, DEFAULT_SEP_IN, sepOut)
      == Ok(Transcribed(Localized(Int(123452), 2).value, e, sep)) by {
      NumeralSystemsTranscribes(Int(123452), "mymr", 2, sepOut);
    }
    MyanmarText(e, sep);
  }

  /** 123452 formatted and written from U+1040 with ',' and '.'. */
  lemma MyanmarText(e: Entry, sep: Seps)
    requires e.zero == 0x1040 && sep == Seps([COMMA], [FULL_STOP])
    ensures Localized(Int(123452), 2).Ok?
    ensures Transcribed(Localized(Int(123452), 2).value, e, sep) == [0x1041, 0x1042, 0x1043, COMMA, 0x1044, 0x1045, 0x1042]
  {
    Localized123452();
    Transcribed123452(e);
  }
}
