/** Code points, Python strings as sequences of code points, and the character
    properties the core consults: the Unicode decimal-digit value (general
    category Nd, as `unicodedata.decimal` reports it) and Python's whitespace. */
module Unicode {
  import opened Wrappers

  /** A Unicode code point. Python strings may hold lone surrogates, so the
      surrogate range is not excluded here. */
  type CodePoint = c: int | 0 <= c <= 0x10FFFF

  /** A Python `str`: the sequence of its code points. */
  type Str = seq<CodePoint>

  /** The code points of a Dafny string literal. */
  function S(s: string): (r: Str)
    ensures |r| == |s| && forall i :: 0 <= i < |s| ==> r[i] == s[i] as int
  {
    seq(|s|, i requires 0 <= i < |s| => s[i] as int)
  }

  const HYPHEN_MINUS: CodePoint := 0x2D
  const COMMA: CodePoint := 0x2C
  const FULL_STOP: CodePoint := 0x2E
  const SPACE: CodePoint := 0x20
  const DIGIT_ZERO: CodePoint := 0x30
  const ARABIC_INDIC_ZERO: CodePoint := 0x660
  const ARABIC_DECIMAL_SEPARATOR: CodePoint := 0x66B
  const ARABIC_THOUSANDS_SEPARATOR: CodePoint := 0x66C
  const THIN_SPACE: CodePoint := 0x2009
  const NARROW_NO_BREAK_SPACE: CodePoint := 0x202F
  /** U+1E6F LATIN SMALL LETTER T WITH LINE BELOW, the group-separator placeholder. */
  const GROUP_PLACEHOLDER: CodePoint := 0x1E6F
  /** U+1E0F LATIN SMALL LETTER D WITH LINE BELOW, the decimal-separator placeholder. */
  const DECIMAL_PLACEHOLDER: CodePoint := 0x1E0F

  /** Every character of general category Nd lies in one of 68 runs of ten
      consecutive code points whose first member has decimal value 0
      (Unicode 15.0). This gives the first code point of the run holding `c`,
      found by comparing `c` with the run boundaries in halving steps. */
  function NdBlockZero(c: int): (z: Option<CodePoint>)
    ensures z.Some? ==> z.value <= c < z.value + 10 && z.value + 9 <= 0x10FFFF
  {
    if c < 0xA9DA then
      if c < 0x0F20 then
        if c < 0x0AF0 then
          if c < 0x07CA then
            if c < 0x066A then
              if c < 0x003A then
                if c < 0x0030 then None else Some(0x0030)
              else
                if c < 0x0660 then None else Some(0x0660)
            else
              if c < 0x06FA then
                if c < 0x06F0 then None else Some(0x06F0)
              else
                if c < 0x07C0 then None else Some(0x07C0)
          else
            if c < 0x09F0 then
              if c < 0x0970 then
                if c < 0x0966 then None else Some(0x0966)
              else
                if c < 0x09E6 then None else Some(0x09E6)
            else
              if c < 0x0A70 then
                if c < 0x0A66 then None else Some(0x0A66)
              else
                if c < 0x0AE6 then None else Some(0x0AE6)
        else
          if c < 0x0CF0 then
            if c < 0x0BF0 then
              if c < 0x0B70 then
                if c < 0x0B66 then None else Some(0x0B66)
              else
                if c < 0x0BE6 then None else Some(0x0BE6)
            else
              if c < 0x0C70 then
                if c < 0x0C66 then None else Some(0x0C66)
              else
                if c < 0x0CE6 then None else Some(0x0CE6)
          else
            if c < 0x0DF0 then
              if c < 0x0D70 then
                if c < 0x0D66 then None else Some(0x0D66)
              else
                if c < 0x0DE6 then None else Some(0x0DE6)
            else
              if c < 0x0E5A then
                if c < 0x0E50 then None else Some(0x0E50)
              else
                if c < 0x0ED0 then
                  None
                else
                  if c < 0x0EDA then Some(0x0ED0) else None
      else
        if c < 0x1A90 then
          if c < 0x1810 then
            if c < 0x1090 then
              if c < 0x1040 then
                if c < 0x0F2A then Some(0x0F20) else None
              else
                if c < 0x104A then Some(0x1040) else None
            else
              if c < 0x17E0 then
                if c < 0x109A then Some(0x1090) else None
              else
                if c < 0x17EA then Some(0x17E0) else None
          else
            if c < 0x19D0 then
              if c < 0x1946 then
                if c < 0x181A then Some(0x1810) else None
              else
                if c < 0x1950 then Some(0x1946) else None
            else
              if c < 0x1A80 then
                if c < 0x19DA then Some(0x19D0) else None
              else
                if c < 0x1A8A then Some(0x1A80) else None
        else
          if c < 0x1C50 then
            if c < 0x1BB0 then
              if c < 0x1B50 then
                if c < 0x1A9A then Some(0x1A90) else None
              else
                if c < 0x1B5A then Some(0x1B50) else None
            else
              if c < 0x1C40 then
                if c < 0x1BBA then Some(0x1BB0) else None
              else
                if c < 0x1C4A then Some(0x1C40) else None
          else
            if c < 0xA8D0 then
              if c < 0xA620 then
                if c < 0x1C5A then Some(0x1C50) else None
              else
                if c < 0xA62A then Some(0xA620) else None
            else
              if c < 0xA900 then
                if c < 0xA8DA then Some(0xA8D0) else None
              else
                if c < 0xA90A then
                  Some(0xA900)
                else
                  if c < 0xA9D0 then None else Some(0xA9D0)
    else
      if c < 0x118E0 then
        if c < 0x110FA then
          if c < 0xFF1A then
            if c < 0xAA5A then
              if c < 0xA9FA then
                if c < 0xA9F0 then None else Some(0xA9F0)
              else
                if c < 0xAA50 then None else Some(0xAA50)
            else
              if c < 0xABFA then
                if c < 0xABF0 then None else Some(0xABF0)
              else
                if c < 0xFF10 then None else Some(0xFF10)
          else
            if c < 0x10D3A then
              if c < 0x104AA then
                if c < 0x104A0 then None else Some(0x104A0)
              else
                if c < 0x10D30 then None else Some(0x10D30)
            else
              if c < 0x11070 then
                if c < 0x11066 then None else Some(0x11066)
              else
                if c < 0x110F0 then None else Some(0x110F0)
        else
          if c < 0x1145A then
            if c < 0x111DA then
              if c < 0x11140 then
                if c < 0x11136 then None else Some(0x11136)
              else
                if c < 0x111D0 then None else Some(0x111D0)
            else
              if c < 0x112FA then
                if c < 0x112F0 then None else Some(0x112F0)
              else
                if c < 0x11450 then None else Some(0x11450)
          else
            if c < 0x1165A then
              if c < 0x114DA then
                if c < 0x114D0 then None else Some(0x114D0)
              else
                if c < 0x11650 then None else Some(0x11650)
            else
              if c < 0x116CA then
                if c < 0x116C0 then None else Some(0x116C0)
              else
                if c < 0x11730 then
                  None
                else
                  if c < 0x1173A then Some(0x11730) else None
      else
        if c < 0x16B5A then
          if c < 0x11DA0 then
            if c < 0x11C50 then
              if c < 0x11950 then
                if c < 0x118EA then Some(0x118E0) else None
              else
                if c < 0x1195A then Some(0x11950) else None
            else
              if c < 0x11D50 then
                if c < 0x11C5A then Some(0x11C50) else None
              else
                if c < 0x11D5A then Some(0x11D50) else None
          else
            if c < 0x16A60 then
              if c < 0x11F50 then
                if c < 0x11DAA then Some(0x11DA0) else None
              else
                if c < 0x11F5A then Some(0x11F50) else None
            else
              if c < 0x16AC0 then
                if c < 0x16A6A then Some(0x16A60) else None
              else
                if c < 0x16ACA then
                  Some(0x16AC0)
                else
                  if c < 0x16B50 then None else Some(0x16B50)
        else
          if c < 0x1E14A then
            if c < 0x1D7EC then
              if c < 0x1D7D8 then
                if c < 0x1D7CE then None else Some(0x1D7CE)
              else
                if c < 0x1D7E2 then Some(0x1D7D8) else Some(0x1D7E2)
            else
              if c < 0x1D800 then
                if c < 0x1D7F6 then Some(0x1D7EC) else Some(0x1D7F6)
              else
                if c < 0x1E140 then None else Some(0x1E140)
          else
            if c < 0x1E4FA then
              if c < 0x1E2FA then
                if c < 0x1E2F0 then None else Some(0x1E2F0)
              else
                if c < 0x1E4F0 then None else Some(0x1E4F0)
            else
              if c < 0x1E95A then
                if c < 0x1E950 then None else Some(0x1E950)
              else
                if c < 0x1FBF0 then
                  None
                else
                  if c < 0x1FBFA then Some(0x1FBF0) else None
  }

  /** The runs are disjoint: all ten members of a run report the same first member. */
  lemma BlockUniform(c: int, c': int)
    requires NdBlockZero(c).Some? && NdBlockZero(c).value <= c' < NdBlockZero(c).value + 10
    ensures NdBlockZero(c') == NdBlockZero(c)
  {
  }

  /** `unicodedata.decimal(c)`: the value 0..9 of a decimal digit, None otherwise. */
  function DecimalValue(c: int): (d: Option<nat>)
    ensures d.Some? <==> NdBlockZero(c).Some?
    ensures d.Some? ==> d.value < 10 && NdBlockZero(c).value + d.value == c
  {
    match NdBlockZero(c)
    case Some(z) => Some(c - z)
    case None => None
  }

  /** Membership of `\p{Nd}`. */
  predicate IsNd(c: int) {
    DecimalValue(c).Some?
  }

  /** The ASCII digits '0'..'9'. */
  predicate IsLatinDigit(c: int) {
    DIGIT_ZERO <= c < DIGIT_ZERO + 10
  }

  /** The ASCII digit for a value 0..9. */
  function LatinDigit(d: nat): (c: CodePoint)
    requires d < 10
    ensures IsLatinDigit(c) && c - DIGIT_ZERO == d
  {
    DIGIT_ZERO + d
  }

  /** The ASCII digits are the decimal digits of their own block. */
  lemma LatinDigitValue(c: int)
    requires IsLatinDigit(c)
    ensures DecimalValue(c) == Some(c - DIGIT_ZERO)
  {
  }

  /** Python's `str.isspace`, the whitespace that `split`, `strip`, `int` and
      `float` skip: characters of bidirectional class WS, B or S, or of
      general category Zs. */
  predicate IsSpace(c: int) {
    (0x09 <= c <= 0x0D) || (0x1C <= c <= 0x20) || c == 0x85 || c == 0xA0 || c == 0x1680
    || (0x2000 <= c <= 0x200A) || c == 0x2028 || c == 0x2029 || c == 0x202F
    || c == 0x205F || c == 0x3000
  }
}
