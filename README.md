# Numeral decoding and re-rendering across Unicode numbering systems

This project is a Dafny model of the numeral helpers of the `python-i18n` repository
from Enabling Languages. The model covers the following parts:

- **`convert_digits`**, in each of its copies. It decodes a numeral written in any
  Unicode decimal digits (general category Nd) into a Python `int` or `float`, and
  returns any text that does not look like a number unchanged.
- **`is_number`**, the validator built on `convert_digits`.
- **`digitsconv`**, the Sorani Kurdish plotting scripts' wrapper around `convert_digits`.
- **The renderers** `convert_numeral_systems`, `convert_to_arab_ns` (also bound as
  `convert_to_kurdish_ns`) and `convert_to_sorani_ns`. Each one formats a number
  with en_US grouping, swaps `,`/`.` for the placeholder letters U+1E6F/U+1E0F,
  transliterates the ASCII digits through the 60-entry numbering-system table, and
  then writes the target separators.
- **The string helpers** of `utils/el_utils.py` and `utils/elle.py`: `splitString`,
  `utf8len`, `utf16len`, the `U+XXXX` listing `codepoints`, and the collation
  tailoring tables.

Strings are sequences of code points (`Unicode.Str`). Python exceptions are results:
`Wrappers.Result` is either `Ok` or `Raise(ValueError | KeyError | TypeError | …)`.
Python floats are exact decimals (`Numbers.Fixed`: sign, mantissa, decimal
exponent).

The Unicode decimal-digit property is a concrete table
(`Unicode.NdBlockZero`/`Unicode.DecimalValue`). It lists the 68 runs of ten
consecutive Nd code points of Unicode 15.0, and a digit's value is its distance
from the first code point of its run. The numbering-system table
(`NumeralData.Data`) records each entry's digit-zero code point. Every digit string
of the source table is ten consecutive code points, so glyph *i* is zero + *i*.

The copies of `convert_digits` differ in two ways, and `Decoder.Variant` captures
both:

- the quantifier after the first digit: `*`, or `+` in `snippet/convert_digits.py`;
- whether U+202F is in the character class: it is absent in
  `snippet/convert_digits.py` and `py/pandas_plot_kurdish.py`.

Points where the code behaves differently from what a reader might expect:

- Mixed-script digit runs such as `"१२٣"` are accepted and decoded. They are not
  rejected.
- When the group and decimal separators are equal, the input is not rejected as
  ambiguous. It is never decoded to a `float` (`Decoder.SameSeparatorsNoFloat`).
- A second decimal separator makes `float` raise `ValueError`. The input is not
  split at the last separator.
- An unknown numbering system raises `KeyError` once the input step succeeds
  (`RenderLaws.UnknownSystemRaises`). A str on the `latn` default-`sep_in` path
  raises `TypeError` first, and a number off that path raises `AttributeError`
  first.
- `arabext` stores its Arabic separators under the misspelt key `sep_out_out`. So
  `convert_numeral_systems` uses the `sep_out` argument for it, not the entry's
  separators.
- `convert_numeral_systems` divides by `scale`, while `convert_to_arab_ns` and
  `convert_to_sorani_ns` multiply by it.
- The "class" patterns `r'[\u0020,٬\u2009]'` and `r'[,.٫]'` go to `str.replace`,
  which matches them literally. They only replace their own raw text.

## Model

| member | source | states |
|---|---|---|
| `Unicode.DecimalValue` | snippets/convert_digits.py:20 | a code point has a decimal value exactly when it lies in one of the Nd runs; the value is below 10 and is the offset from the run's zero |
| `NumeralData.Digits` | snippets/convert_digits.py:63-125 | every table entry has exactly ten digit glyphs, pairwise distinct |
| `NumeralData.TableDigitsDecode` | snippets/convert_digits.py:64-123 | glyph *i* of every entry, and so of every table entry, has Unicode decimal value *i* |
| `NumeralData.ArabextEntry` | snippets/convert_digits.py:67 | the `arabext` entry has a `sep_out_out` key and no `sep_out` key |
| `NumeralData.MymrEntry` | snippets/convert_digits.py:98 | the `mymr` entry is the ten Myanmar digits from U+1040, with `sep_out` = `,`/`.` |
| `NumeralData.SepOutEntries` | snippets/convert_digits.py:63-125 | exactly `adlm`, `mymr` and `mymrshan` have a `sep_out` key, and it holds `,`/`.` |
| `NumeralData.EmptyNotInData` | snippets/convert_digits.py:48 | the default `system_out` `""` names no entry |
| `PyStr.ReplaceAbsent` | snippet/convert_digits.py:21 | `str.replace` of a pattern that does not occur leaves the string unchanged |
| `PyStr.MakeTransAt` | snippets/convert_digits.py:130 | `maketrans` over distinct source characters sends `src[i]` to `dst[i]` |
| `PyStr.TranslateDigits` | snippets/convert_digits.py:130-132 | `translate` changes a character of the source digit string into the target digit at the same position, and leaves every other character as it is |
| `PyStr.Replace` | snippet/convert_digits.py:21 | `str.replace`, empty pattern included; see `PyStr.ReplaceAbsent` |
| `PyStr.MakeTrans` | snippets/convert_digits.py:130 | `str.maketrans(src, dst)`: its keys are exactly the characters of `src` |
| `PyStr.Translate` | snippets/convert_digits.py:132 | `str.translate`: keeps the length and maps each character through the table; see `PyStr.TranslateDigits` |
| `PyStr.TranslateRoundTrip` | snippets/convert_digits.py:130-132 | translating A→B and then B→A restores any string holding no character of B |
| `PyStr.RemoveWhitespace` | snippets/convert_digits.py:30 | `"".join(v.split())` leaves no whitespace character and is no longer than its input |
| `PyStr.RemoveWhitespaceIdempotent` | snippets/convert_digits.py:30 | deleting whitespace twice is deleting it once |
| `PyStr.Strip` | snippets/convert_digits.py:33 | `strip()` leaves text that neither starts nor ends with whitespace |
| `Numbers.PyInt` | snippets/convert_digits.py:23 | `int()` either succeeds or raises exactly `ValueError` |
| `Numbers.PyFloat` | snippets/convert_digits.py:22 | `float()` either succeeds or raises exactly `ValueError` |
| `Numbers.PyIntInnerSpace` | snippets/convert_digits.py:23 | `int()` raises `ValueError` on ASCII digit runs with whitespace between them |
| `Numbers.PyFloatTwoPoints` | snippets/convert_digits.py:22 | `float()` raises `ValueError` on a digit run holding two `.` |
| `Numbers.DecimalDigitsValue` | snippets/convert_digits.py:53 | the digits of `str(n)` read back as `n` |
| `Numbers.RoundTo` | snippets/convert_digits.py:53 | `%0.Nf` keeps the exact value when it has at most N decimals; otherwise it rounds to the nearest multiple of 10^-N, ties to even |
| `Numbers.PercentDRoundTrip` | snippets/convert_digits.py:53 | `int` reads back what `%d` writes |
| `Numbers.PercentFRoundTrip` | snippets/convert_digits.py:53 | `float` reads back what `%0.Nf` writes, with its sign and N decimals |
| `Decoder.DecimalChar` | snippets/convert_digits.py:20 | `str(ud.decimal(c, c))` turns a digit of any script into the ASCII digit of the same value and keeps every other character |
| `Decoder.ConvertDigits` | snippets/convert_digits.py:15-24 | an input is returned unchanged as text exactly when it does not fully match the pattern; the only failure is `ValueError` |
| `Decoder.IntegerDecode` | snippets/convert_digits.py:19-23 | a matching input whose digits (of any scripts, mixed) are separated only by the group separator decodes to the int with those digits' decimal values, negated after a leading `-` |
| `Decoder.DecimalDecode` | snippets/convert_digits.py:19-22 | digits, the decimal separator and more digits decode to the exact value whose decimals are the digits after the separator, with the sign |
| `Decoder.SameSeparatorsNoFloat` | snippets/convert_digits.py:19-22 | with one character as both separators the result is never a float |
| `Decoder.InnerSpaceRaises` | snippets/convert_digits.py:16-23 | a matched input with whitespace between digit runs that is neither separator raises `ValueError` instead of being passed through |
| `Decoder.TwoDecimalSeparatorsRaise` | snippets/convert_digits.py:18-22 | a matched input with two decimal separators raises `ValueError` |
| `Decoder.SingleDigit` | snippet/convert_digits.py:13-22 | a single digit (signed or not) decodes to its value in the `*` copies and is returned unchanged by the `+` copy |
| `Decoder.NarrowNoBreakSpace` | py/pandas_plot_kurdish.py:38-46 | digits around U+202F are returned unchanged by copies without U+202F in the class, and raise `ValueError` in the others |
| `Decoder.ConvertDigitsSnippet` | snippet/convert_digits.py:12-22 | the `+`-pattern copy returns any non-matching input unchanged |
| `Decoder.SnippetAgrees` | snippet/convert_digits.py:18-21 | the snippet copy's `replace` in its int branch is dead, so the copy is the shared decoder with the `+` pattern |
| `Validator.TypeOf` | snippets/convert_digits.py:35 | the reported type is `str` exactly for text and `int` exactly for an int |
| `Validator.IsNumber` | snippets/convert_digits.py:26-37 | a non-string raises `AttributeError`; for a string, the verdict is true or the call raises exactly when the whitespace-free text matches the `+` pattern, the value and the error are those of `convert_digits` on that text, and a "not a number" verdict carries the whitespace-free text and type `str` |
| `Validator.IgnoresWhitespace` | snippets/convert_digits.py:30 | whitespace anywhere in the input does not change the verdict |
| `Validator.NumberIsDecoded` | snippets/convert_digits.py:33-35 | a "number" verdict holds an int or float and reports that value's type |
| `Validator.SingleDigitIsNot` | snippets/convert_digits.py:29-37 | a lone digit, signed or not and with any whitespace around it, is not a number |
| `Validator.SpacedDigits` | snippets/convert_digits.py:30-35 | digit runs with whitespace between them are checked with the whitespace deleted and form one int |
| `Validator.DigitRunIsNumber` | snippets/convert_digits.py:28-35 | a run of two or more decimal digits from any scripts matches `nd` and is the int of its digit values |
| `SoraniDecode.DigitsConv` | py/matplotlib_kurdish.py:51 | every `-` becomes U+0660 before `convert_digits` with the Arabic separators; the only failure is `ValueError`, and text handed back unchanged holds no `-` |
| `SoraniDecode.NeverNegative` | py/matplotlib_kurdish.py:51 | `digitsconv` never produces a negative int or float |
| `SoraniDecode.LoneHyphen` | py/seaborn_kurdish.py:52 | `digitsconv("-")` is 0 in the `*` copies |
| `SoraniDecode.SignLost` | py/pandas_plot_kurdish.py:51 | a leading `-` becomes a leading zero, so a negative numeral decodes to its magnitude |
| `SoraniDecode.SignKept` | py/matplotlib_kurdish.py:37-46 | without the rewrite, `convert_digits` with the Arabic separators reads `-` as the sign |
| `Scenarios.SoraniThousands` | py/matplotlib_kurdish.py:49-51 | `digitsconv("١٬٢٣٤")` is 1234 |
| `Scenarios.SoraniDecimals` | py/seaborn_kurdish.py:50-52 | `digitsconv("١٬٢٣٤٫٥")` is 1234.5 |
| `Scenarios.SnippetSevenUnchanged` | snippet/convert_digits.py:13-15 | the `+` copy returns `"7"` as the text `"7"` |
| `Scenarios.NarrowSpaceExample` | snippet/convert_digits.py:13 | `"1 234"` makes the shared copy raise and is returned unchanged by the snippet copy |
| `Scenarios.MyanmarGrouped` | snippets/convert_digits.py:98 | `convert_numeral_systems(123452, system_out="mymr")` is `"၁၂၃,၄၅၂"` whatever `sep_out` is passed |
| `Grouping.Grouped` | snippets/convert_digits.py:54 | the en_US monetary grouping of a digit run, `,` before every three digits counted from the right; its laws are `Grouping.Ungroup`, `Grouping.GroupedLayout` and `Grouping.GroupedLength` |
| `Grouping.Group` | snippets/convert_digits.py:54 | en_US grouping of a signed digit run keeps the sign in front and puts `,` between groups of three counted from the right |
| `Grouping.Ungroup` | snippets/convert_digits.py:54 | the grouped run holds only digits and commas, starts and ends with the run's own digits, and deleting the commas gives the run back |
| `Grouping.GroupedLayout` | snippets/convert_digits.py:54 | commas stand exactly where the distance to the end is a multiple of four |
| `Grouping.GroupedLength` | snippets/convert_digits.py:54 | grouping adds one comma per complete group of three after the first |
| `Grouping.Localized` | snippets/convert_digits.py:53-54 | formatting raises exactly for a str, and then `TypeError` |
| `Grouping.Localize` | snippets/convert_digits.py:54 | `_localize` groups the integer part of printf text and keeps the `.` and decimals |
| `Grouping.FormatString` | snippets/convert_digits.py:53-54 | `locale.format_string` with `%d` or `%0.Nf` under en_US is the sign, the grouped integer digits and N decimals |
| `Grouping.LocalizedReadsBackInt` | snippets/convert_digits.py:53-54 | deleting the commas from a formatted int gives text that `int` reads as the same int |
| `Grouping.LocalizedReadsBackFloat` | snippets/convert_digits.py:53-54 | deleting the commas from a formatted float gives text that `float` reads as the value rounded to N decimals |
| `Render.Scaled` | snippets/convert_digits.py:148 | `n * scale if scale else n`: a missing or zero scale leaves `n`, a str times a float raises `TypeError`, and a str stays a str and a number a number |
| `Render.NumeralSystems` | snippets/convert_digits.py:48-132 | the value `convert_numeral_systems` returns: formatting or the str itself, the `sep_in` replacements, `KeyError` for an unknown system, translation, and the resolved separators; its laws are the `RenderLaws` rows |
| `Render.ArabNs` | snippets/convert_digits.py:144-162 | the value `convert_to_arab_ns` returns: scaling and formatting on the default `sep_in`, ASCII to Arabic-Indic digits, and the `sep_out` argument; see `RenderLaws.ArabNsIsNumeralSystems` and `RenderLaws.ArabNsRaises` |
| `Render.SoraniNs` | py/matplotlib_kurdish.py:54-64 | the value `convert_to_sorani_ns` returns; see `RenderLaws.SoraniIsArabNs` and the Sorani round trips |
| `Render.ReplaceSeparators` | snippets/convert_digits.py:57-62 | the `sep_in` replacements, one `if` after the other |
| `Render.ConvertNumeralSystems` | snippets/convert_digits.py:48-132 | step by step: format when `system_in` is `latn` with the default `sep_in`, then placeholders, translation, and the resolved separators |
| `Render.ConvertToArabNs` | snippets/convert_digits.py:144-162 | step by step: scale, format, placeholders, ASCII→Arabic-Indic digits, and the `sep_out` argument |
| `Render.ConvertToSoraniNs` | py/matplotlib_kurdish.py:54-64 | step by step: scale, format with two decimals, Arabic-Indic digits, U+066C/U+066B |
| `RenderLaws.FinishTranscribes` | snippets/convert_digits.py:55 | on formatted text, the placeholder, translate and replace steps write each ASCII digit as the target digit of the same value, `,` as the group separator and `.` as the decimal separator, and keep `-` |
| `RenderLaws.NumeralSystemsTranscribes` | snippets/convert_digits.py:51-55 | `convert_numeral_systems` of a number into any entry is its en_US-formatted text written character by character in that entry's digits and the resolved separators |
| `RenderLaws.SepOutResolution` | snippets/convert_digits.py:126-129 | for every entry, the output separators are `,`/`.` exactly for `adlm`, `mymr` and `mymrshan`, and the `sep_out` argument otherwise (`arabext` included); an unknown system also falls back to the argument |
| `RenderLaws.UnknownSystemRaises` | snippets/convert_digits.py:48-130 | with a `system_in` or `system_out` missing from the table the call always raises, and raises `KeyError` exactly when the input step succeeds (a number on the formatting path, a str otherwise) |
| `RenderLaws.DefaultSystemOutRaises` | snippets/convert_digits.py:130 | the default `system_out` `""` raises `KeyError` for a number (`TypeError` for a str) |
| `RenderLaws.DefaultSepInNoOp` | snippets/convert_digits.py:57-62 | with the default `sep_in`, the class-like replacements leave formatted text unchanged |
| `RenderLaws.GroupPatternIsLiteral` | snippets/convert_digits.py:58 | the group "pattern" replaces only its own raw text, never a thin space |
| `RenderLaws.NumeralSystemsIntRoundTrip` | snippets/convert_digits.py:48-132 | an int rendered into any table entry decodes back to the same int with the separators that were written, whether the group separator is one character or empty (the default `sep_out`) |
| `RenderLaws.DefaultSepOutIntRoundTrip` | snippets/convert_digits.py:48-132 | the default call `convert_numeral_systems(i, system_out=k)`, into any entry but `adlm`, `mymr` and `mymrshan`, decodes back to `i` under the same `["", "."]` |
| `RenderLaws.NumeralSystemsFloatRoundTrip` | snippets/convert_digits.py:53-55 | a float rendered with N > 0 decimals into any entry decodes back to the value rounded to N decimals, whether the group separator is one character or empty |
| `RenderLaws.DefaultSepOutFloatRoundTrip` | snippets/convert_digits.py:48-132 | a float passed to the default call with N > 0 decimals, into any entry but `adlm`, `mymr` and `mymrshan`, decodes back to the value rounded to N decimals |
| `RenderLaws.NumeralSystemsRendered` | snippets/convert_digits.py:130-132 | rendering into a non-Latin entry leaves no ASCII digit and no placeholder |
| `RenderLaws.TextTranslates` | snippets/convert_digits.py:57-132 | on str input whose `sep_in` replacements find nothing (empty `sep_in`, or the default `sep_in` off the `latn` path), `convert_numeral_systems` is exactly the digit translation |
| `RenderLaws.TranscodeRoundTrip` | snippets/convert_digits.py:126-132 | transcoding str input A→B and back restores it when it holds no B digit and no placeholder |
| `RenderLaws.FloatShape` | snippets/convert_digits.py:53 | a rendered float ends in the decimal separator and exactly N digits, with no separator before |
| `RenderLaws.IntRoundTrip` | snippets/convert_digits.py:51-55 | en_US-grouped digits of any int, written in any entry's digits with single-character separators the pattern admits, decode back to that int (for the `+` copy, when the int has two digits or more) |
| `RenderLaws.FloatRoundTrip` | snippets/convert_digits.py:53-55 | a formatted float with N > 0 decimals, written in any entry's digits with two distinct admitted separators, decodes back to the value rounded to N decimals |
| `RenderLaws.IntRoundTripUngrouped` | snippets/convert_digits.py:51-55 | with an empty group separator the commas of the grouped digits vanish, and the decoder, whose `replace` of `""` deletes nothing, still reads the int back |
| `RenderLaws.FloatRoundTripUngrouped` | snippets/convert_digits.py:53-55 | a formatted float written with an empty group separator decodes back to the value rounded to N decimals |
| `Decoder.EmptyGroupDecode` | snippets/convert_digits.py:15-24 | decoding with an empty group separator equals decoding with any one-character group separator the text lacks |
| `PyStr.ReplaceEmptyByNothing` | snippets/convert_digits.py:19 | `s.replace("", "")` is `s` |
| `RenderLaws.ArabNsIsNumeralSystems` | snippets/convert_digits.py:144-164 | `convert_to_arab_ns` without `scale` is `convert_numeral_systems` into `arab` |
| `RenderLaws.ArabNsRaises` | snippets/convert_digits.py:147-158 | `convert_to_arab_ns` raises exactly when the input kind does not fit `sep_in` |
| `RenderLaws.SoraniIsArabNs` | py/seaborn_kurdish.py:55-65 | `convert_to_sorani_ns` is `convert_to_arab_ns` with two decimals and the Arabic separators |
| `RenderLaws.SoraniTranscribes` | py/matplotlib_kurdish.py:58-64 | Sorani output is the formatted text in Arabic-Indic digits with U+066C and U+066B |
| `RenderLaws.SoraniIntRoundTrip` | py/seaborn_kurdish.py:59-65 | Sorani ints decode back to the same int |
| `RenderLaws.SoraniFloatRoundTrip` | py/pandas_plot_kurdish.py:56-64 | Sorani floats decode back as the value rounded to two decimals |
| `RenderLaws.SoraniTwoDecimals` | py/matplotlib_kurdish.py:56-64 | a Sorani float ends in U+066B and exactly two Arabic-Indic digits |
| `RenderLaws.SoraniRendered` | py/seaborn_kurdish.py:61-65 | Sorani output holds no ASCII digit and no placeholder |
| `RenderLaws.SoraniRaises` | py/pandas_plot_kurdish.py:57-59 | `convert_to_sorani_ns` raises exactly for a str, and then `TypeError` |
| `RenderLaws.SoraniRoundTrip` | py/matplotlib_kurdish.py:57 | Sorani output decodes back to `n * scale`, or to `n` when `scale` is None or zero |
| `TextUtils.SplitString` | utils/el_utils.py:14-15 | `list(text)` has one one-character string per code point |
| `TextUtils.SplitStringConcat` | utils/elle.py:77-78 | joining the pieces of `list(s)` gives `s` back |
| `TextUtils.Utf8Len` | utils/el_utils.py:17-18 | `utf8len` raises `UnicodeEncodeError` exactly when the text holds a surrogate |
| `TextUtils.Utf8Encode` | utils/el_utils.py:17-18 | `text.encode('utf-8')` raises `UnicodeEncodeError` exactly when the text holds a lone surrogate |
| `TextUtils.Utf8LenBounds` | utils/elle.py:105-106 | `utf8len` is the sum of the widths in section 3 of RFC 3629, between `len` and `4*len`, and equals `len` exactly for ASCII text |
| `TextUtils.Utf8RoundTrip` | utils/el_utils.py:17-18 | the UTF-8 bytes decode back to the text |
| `TextUtils.Utf16Len` | utils/elle.py:108-109 | `utf16len` raises `UnicodeEncodeError` exactly when the text holds a surrogate |
| `TextUtils.Utf16Encode` | utils/el_utils.py:20-21 | `text.encode('utf-16-le')` raises `UnicodeEncodeError` exactly when the text holds a lone surrogate |
| `TextUtils.Utf16LenBounds` | utils/el_utils.py:20-21 | `utf16len` counts 2 bytes per BMP code point and 4 per supplementary one (section 2.1 of RFC 2781), no BOM; it is even and between `2*len` and `4*len` |
| `TextUtils.Utf16RoundTrip` | utils/elle.py:108-109 | the UTF-16LE bytes decode back to the text |
| `TextUtils.TokenFormat` | utils/el_utils.py:31-32 | each token is `U+` and the uppercase hex digits of the code point: four below U+10000, five or six above, never truncated |
| `TextUtils.Codepoints` | utils/el_utils.py:31-32 | the `U+XXXX` tokens of the code points joined by single spaces; see `TextUtils.CodepointsRoundTrip` |
| `TextUtils.CodepointsRoundTrip` | utils/el_utils.py:31-32 | the listing is empty exactly for `""`, has one space-separated token per code point, and parses back to the text |
| `Elle.Tailoring` | utils/elle.py:120-147 | a tag's rules are found exactly when the tag is listed; otherwise `KeyError` |
| `Elle.TailoringsConsistent` | utils/elle.py:120-147 | every value of `language_tailorings` is a key of `collation_tailorings` |
| `Elle.BaseTags` | utils/elle.py:126-139 | each tailoring name is a tag that selects itself |
| `Elle.RegionForms` | utils/elle.py:126-147 | every bare tag has its region form (`-SS` for Dinka, `-GH` for Akan) with the same tailoring, and every other tag is such a form |
| `Elle.DinkaRegions` | utils/elle.py:126-138 | every bare Dinka tag has its `-SS` form |
| `Elle.AkanRegions` | utils/elle.py:139-147 | every bare Akan tag has its `-GH` form, and every other Akan tag is one |
| `Elle.AsciiUpper` | utils/elle.py:388 | `unf.upper()` upper-cases the ASCII letters of the form name and keeps the rest |
| `Elle.UU.constructor` | utils/elle.py:385-392 | the form name is upper-cased and the text normalised to it |
| `Elle.UU.Codepoints` | utils/elle.py:459-465 | renormalises the text; returns None in `console` mode, and otherwise the listing, which parses back to the normalised text |

## Left out

- Process-wide locale state. The `setlocale` calls around every renderer are left out, and the en_US monetary grouping they select is a fixed function (`Grouping.Grouped`: `,` every three integer digits).
- Binary floating point. Floats are exact decimals. `'%0.Nf'` rounds the exact value half to even, whereas Python rounds the nearest binary double. `float()` results keep all their digits.
- `Numbers.PyInt`: only parses text built from ASCII digits, `-`, `.`, whitespace and the separators `,`, U+066B and U+066C left over after the group separator is deleted; it rejects every character but the digits, the sign and the outer whitespace with `ValueError`, as `int()` does. Underscores and non-ASCII digits, which `int()` also accepts, cannot reach it after the digit mapping.
- `Numbers.PyFloat`: parses the same alphabet and rejects the leftover separators with `ValueError`, as `float()` does. Exponents, `inf`/`nan` and underscores are not modelled, since the decoder's pattern admits no letter and no underscore.
- `Numbers.PyInt` and `Numbers.PercentD`: the interpreter's limit on int↔str conversion (4300 decimal digits by default, set by `sys.set_int_max_str_digits`) is not modelled. Above it, `int()` and `'%d'` raise `ValueError`, where the model parses or formats any length. So `Decoder.IntegerDecode`, `Numbers.PercentDRoundTrip` and the int round trips of `RenderLaws` hold in the model for ints the interpreter rejects.
- `Render.ConvertNumeralSystems`: does not model the `scale` parameter, a float division used only for plot ticks. `p` is unused in the source.
- `Render.Scaled`: multiplies exactly, and does not model IEEE rounding of the product.
- The `isinstance(v, int)` branch of `is_number` is dead once `v` has been rebuilt as a str. A non-str input raises `AttributeError` at `split`, as modelled.
- Python's `$` also matches before a final newline. The match is modelled as anchored at the end of the string.
- The Unicode database is fixed at version 15.0. `unicodedata` and `unicodedataplus` may ship other versions.
- `icu_formatted_digits`, and every other ICU or pyuca call, are thin wrappers over libraries whose behaviour is not visible.
- Unicode normalisation, case folding and the casing classes of `utils/elle.py` (`trk`, `ẞ`, `uCase`, `spCase`, the caseless matchers) are not modelled. Their constructors read `self.s` before assigning it. In `Elle.UU`, normalisation is a function parameter.
- `Elle.AsciiUpper`: maps only ASCII letters, where `str.upper()` maps every cased letter. No text holding a non-ASCII letter upper-cases to `NFC`, `NFD`, `NFKC` or `NFKD`, so the two differ only on form names that normalisation rejects.
- `uu.codepoints` in `console` mode prints its listing; the model returns None and does not model the printing.
- `normalise`, `udata`, `stringLength` and the plotting, data-frame, word-cloud and reshaping scripts are display or I/O glue.
- The `name` of each table entry is kept apart, in the map `NumeralData.Names`, and nothing in the model depends on it. The commented-out `hanidec` entry is not part of the table.
