/** The renderers. `convert_numeral_systems` and `convert_to_arab_ns` (also
    bound to the name `convert_to_kurdish_ns`) and the plotting scripts'
    `convert_to_sorani_ns` rebind `n` step by step: the number is formatted
    with en_US grouping, ',' and '.' become the placeholders U+1E6F and U+1E0F,
    the ASCII digits are translated to the target digits, and the placeholders
    become the target separators. */
module Render {
  import opened Wrappers
  import opened Unicode
  import opened PyStr
  import opened Numbers
  import opened NumeralData
  import opened Decoder
  import opened Grouping

  /** A value that can be passed as `scale`: an int or a float. */
  type Number = x: Value | !x.Text? witness Int(0)

  /** The default `sep_in`, ["", "."]: the input is a Python number. */
  const DEFAULT_SEP_IN := Seps([], [FULL_STOP])

  /** The default `sep_out`, also ["", "."]: no group separator, '.' for the
      decimal point. */
  const DEFAULT_SEP_OUT := Seps([], [FULL_STOP])

  /** The raw string r'[\u0020,٬\u2009]', sixteen characters long: the
      backslashes and the hexadecimal digits stand for themselves. */
  const GROUP_CLASS_TEXT: Str := [0x5B, 0x5C, 0x75, 0x30, 0x30, 0x32, 0x30, COMMA, ARABIC_THOUSANDS_SEPARATOR,
                                  0x5C, 0x75, 0x32, 0x30, 0x30, 0x39, 0x5D]
  /** The raw string r'[,.٫]'. */
  const DECIMAL_CLASS_TEXT: Str := [0x5B, COMMA, FULL_STOP, ARABIC_DECIMAL_SEPARATOR, 0x5D]
  const LEFT_SQUARE_BRACKET: CodePoint := 0x5B

  /** `sep_in[0]` is one of " ", ",", U+066C or U+2009. */
  predicate GroupListed(g: Str) {
    g == [SPACE] || g == [COMMA] || g == [ARABIC_THOUSANDS_SEPARATOR] || g == [THIN_SPACE]
  }

  /** `sep_in[1]` is one of ",", "." or U+066B. */
  predicate DecimalListed(d: Str) {
    d == [COMMA] || d == [FULL_STOP] || d == [ARABIC_DECIMAL_SEPARATOR]
  }

  /** Python truthiness of a number: 0 and 0.0 (either sign) are false. */
  predicate Truthy(x: Number) {
    if x.Int? then x.i != 0 else x.x.mant != 0
  }

  /** An int as an exact float. */
  function AsFixed(i: int): Fixed {
    Fixed(i < 0, Magnitude(i), 0)
  }

  /** The exact product of two floats; the sign of a zero follows IEEE 754. */
  function Product(a: Fixed, b: Fixed): Fixed {
    Fixed(a.neg != b.neg, a.mant * b.mant, a.exp + b.exp)
  }

  /** `s * k` for a str and an int: `k` copies, none when `k` <= 0. */
  function Repeat(s: Str, k: int): Str
    decreases k
  {
    if k <= 0 then [] else s + Repeat(s, k - 1)
  }

  /** `n * scale if scale else n`: a falsy scale leaves `n` as it is, a str
      can only be repeated by an int, and the kind of value is kept. */
  function Scaled(n: Value, scale: Option<Number>): (r: Result<Value>)
    ensures scale.None? || !Truthy(scale.value) ==> r == Ok(n)
    ensures r.Raise? <==> n.Text? && scale.Some? && Truthy(scale.value) && scale.value.Float?
    ensures r.Raise? ==> r.error == TypeError
    ensures r.Ok? ==> r.value.Text? == n.Text?
  {
    if scale.None? || !Truthy(scale.value) then Ok(n)
    else
      match (n, scale.value)
      case (Text(s), Int(k)) => Ok(Text(Repeat(s, k)))
      case (Text(_), _) => Raise(TypeError)
      case (Int(i), Int(k)) => Ok(Int(i * k))
      case (Int(i), Float(y)) => Ok(Float(Product(AsFixed(i), y)))
      case (Float(x), Int(k)) => Ok(Float(Product(x, AsFixed(k))))
      case (Float(x), Float(y)) => Ok(Float(Product(x, y)))
  }

  /** `n.replace(",", "ṯ").replace(".", "ḏ")`. */
  function Placeholders(s: Str): Str {
    Replace(Replace(s, [COMMA], [GROUP_PLACEHOLDER]), [FULL_STOP], [DECIMAL_PLACEHOLDER])
  }

  /** The number formatted with grouping, its ',' and '.' turned into the
      placeholders. */
  function Formatted(n: Value, decimal: nat): Result<Str> {
    var f := Localized(n, decimal);
    if f.Raise? then Raise(f.error) else Ok(Placeholders(f.value))
  }

  /** A str taken as it is; a number has no `replace`. */
  function Unformatted(n: Value): Result<Str> {
    if n.Text? then Ok(n.s) else Raise(AttributeError)
  }

  /** The `sep_in` replacements. Those with a class-like pattern are literal
      `str.replace` calls, so they only fire on text holding the raw pattern;
      `sep_in[0] == "."` replaces every '.'. */
  function InputSeparators(s: Str, sepIn: Seps): Str {
    var a :=
      if GroupListed(sepIn.group) then Replace(s, GROUP_CLASS_TEXT, [GROUP_PLACEHOLDER])
      else if sepIn.group == [FULL_STOP] then Replace(s, [FULL_STOP], [GROUP_PLACEHOLDER])
      else s;
    if DecimalListed(sepIn.decimal) then Replace(a, DECIMAL_CLASS_TEXT, [DECIMAL_PLACEHOLDER]) else a
  }

  /** `n.translate(t).replace("ṯ", sep[0]).replace("ḏ", sep[1])`. */
  function Finish(s: Str, t: map<CodePoint, CodePoint>, sep: Seps): Str {
    Replace(Replace(Translate(s, t), [GROUP_PLACEHOLDER], sep.group), [DECIMAL_PLACEHOLDER], sep.decimal)
  }

  /** The separators `convert_numeral_systems` writes: the entry's "sep_out"
      when it has one (a missing system is a KeyError that is caught), the
      `sep_out` argument otherwise. */
  function OutputSeps(systemOut: string, sepOut: Seps): Seps {
    if systemOut in Data && "sep_out" in Data[systemOut].keys then Data[systemOut].keys["sep_out"] else sepOut
  }

  /** `convert_numeral_systems(n, system_out, system_in, decimal, sep_in,
      sep_out)` with `scale` None. A number is formatted only when
      `system_in` is "latn" and `sep_in` is the default; otherwise `n` must be
      a str (an int has no `replace` or `maketrans`). An unknown system is a
      KeyError at the `maketrans` lookup. */
  function NumeralSystems(n: Value, systemOut: string, systemIn: string, decimal: nat, sepIn: Seps, sepOut: Seps): Result<Str> {
    var start: Result<Str> :=
      if systemIn == "latn" && sepIn == DEFAULT_SEP_IN then Formatted(n, decimal) else Unformatted(n);
    if start.Raise? then start
    else if systemIn !in Data || systemOut !in Data then Raise(KeyError)
    else
      var t := MakeTrans(Digits(Data[systemIn]), Digits(Data[systemOut]));
      Ok(Finish(InputSeparators(start.value, sepIn), t, OutputSeps(systemOut, sepOut)))
  }

  /** `convert_to_arab_ns(n, decimal, sep_in, sep_out, scale)`: formatting
      when `sep_in` is the default (after scaling), ASCII digits to
      Arabic-Indic digits, and `sep_out` as given. */
  function ArabNs(n: Value, decimal: nat, sepIn: Seps, sepOut: Seps, scale: Option<Number>): Result<Str> {
    var start: Result<Str> :=
      if sepIn == DEFAULT_SEP_IN then
        var m := Scaled(n, scale);
        if m.Raise? then Raise(m.error) else Formatted(m.value, decimal)
      else Unformatted(n);
    if start.Raise? then start
    else Ok(Finish(InputSeparators(start.value, sepIn), MakeTrans(Digits(LATN), Digits(ARAB)), sepOut))
  }

  /** `convert_to_sorani_ns(n, p, scale)`: always formats, with two decimals
      for a float, Arabic-Indic digits and the Arabic separators. */
  function SoraniNs(n: Value, scale: Option<Number>): Result<Str> {
    var m := Scaled(n, scale);
    if m.Raise? then Raise(m.error)
    else
      var f := Localized(m.value, 2);
      if f.Raise? then Raise(f.error)
      else Ok(Finish(Placeholders(f.value), MakeTrans(Digits(LATN), Digits(ARAB)), ARABIC_SEPS))
  }

  /** `convert_numeral_systems`, step by step. The `setlocale` calls around it
      are fixed to en_US; `p` is unused. */
  method ConvertNumeralSystems(n: Value, systemOut: string, systemIn: string, decimal: nat, sepIn: Seps, sepOut: Seps)
    returns (r: Result<Str>)
    ensures r == NumeralSystems(n, systemOut, systemIn, decimal, sepIn, sepOut)
  {
    var s: Str;
    if systemIn == "latn" && sepIn == DEFAULT_SEP_IN {
      var f := FormatString(n, decimal);
      if f.Raise? {
        return Raise(f.error);
      }
      s := f.value;
      s := Replace(s, [COMMA], [GROUP_PLACEHOLDER]);
      s := Replace(s, [FULL_STOP], [DECIMAL_PLACEHOLDER]);
    } else if n.Text? {
      s := n.s;
    } else {
      return Raise(AttributeError);
    }
    s := ReplaceSeparators(s, sepIn);
    var sep := OutputSeps(systemOut, sepOut);
    if systemIn !in Data || systemOut !in Data {
      return Raise(KeyError);
    }
    var t := MakeTrans(Digits(Data[systemIn]), Digits(Data[systemOut]));
    s := Translate(s, t);
    s := Replace(s, [GROUP_PLACEHOLDER], sep.group);
    s := Replace(s, [DECIMAL_PLACEHOLDER], sep.decimal);
    r := Ok(s);
  }

  /** `convert_to_arab_ns`, step by step. */
  method ConvertToArabNs(n: Value, decimal: nat, sepIn: Seps, sepOut: Seps, scale: Option<Number>)
    returns (r: Result<Str>)
    ensures r == ArabNs(n, decimal, sepIn, sepOut, scale)
  {
    var s: Str;
    if sepIn == DEFAULT_SEP_IN {
      var m := Scaled(n, scale);
      if m.Raise? {
        return Raise(m.error);
      }
      var f := FormatString(m.value, decimal);
      if f.Raise? {
        return Raise(f.error);
      }
      s := f.value;
      s := Replace(s, [COMMA], [GROUP_PLACEHOLDER]);
      s := Replace(s, [FULL_STOP], [DECIMAL_PLACEHOLDER]);
    } else if n.Text? {
      s := n.s;
    } else {
      return Raise(AttributeError);
    }
    s := ReplaceSeparators(s, sepIn);
    var t := MakeTrans(Digits(LATN), Digits(ARAB));
    s := Translate(s, t);
    s := Replace(s, [GROUP_PLACEHOLDER], sepOut.group);
    s := Replace(s, [DECIMAL_PLACEHOLDER], sepOut.decimal);
    r := Ok(s);
  }

  /** `convert_to_sorani_ns`, step by step. */
  method ConvertToSoraniNs(n: Value, scale: Option<Number>) returns (r: Result<Str>)
    ensures r == SoraniNs(n, scale)
  {
    var m := Scaled(n, scale);
    if m.Raise? {
      return Raise(m.error);
    }
    var f := FormatString(m.value, 2);
    if f.Raise? {
      return Raise(f.error);
    }
    var s := f.value;
    s := Replace(s, [COMMA], [GROUP_PLACEHOLDER]);
    s := Replace(s, [FULL_STOP], [DECIMAL_PLACEHOLDER]);
    var sep := ARABIC_SEPS;
    var t := MakeTrans(Digits(LATN), Digits(ARAB));
    s := Translate(s, t);
    s := Replace(s, [GROUP_PLACEHOLDER], sep.group);
    s := Replace(s, [DECIMAL_PLACEHOLDER], sep.decimal);
    r := Ok(s);
  }

  /** The `sep_in` replacements, one `if` after the other. */
  method ReplaceSeparators(s: Str, sepIn: Seps) returns (r: Str)
    ensures r == InputSeparators(s, sepIn)
  {
    r := s;
    if GroupListed(sepIn.group) {
      r := Replace(r, GROUP_CLASS_TEXT, [GROUP_PLACEHOLDER]);
    } else if sepIn.group == [FULL_STOP] {
      r := Replace(r, [FULL_STOP], [GROUP_PLACEHOLDER]);
    }
    if DecimalListed(sepIn.decimal) {
      r := Replace(r, DECIMAL_CLASS_TEXT, [DECIMAL_PLACEHOLDER]);
    }
  }
}
