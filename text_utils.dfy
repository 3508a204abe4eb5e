/** The string helpers of utils/el_utils.py and utils/elle.py: `splitString`
    (`list(text)`), the encoded lengths `utf8len` and `utf16len`
    (`len(text.encode(...))`), and the `U+XXXX` listing `codepoints`. The two
    files define the first three identically; `codepoints` is a free function
    in the first and a method of the `uu` class in the second. */
module TextUtils {
  import opened Wrappers
  import opened Unicode
  import opened PyStr
  import opened Numbers

  /** A byte of an encoded string. */
  type Byte = b: int | 0 <= b < 0x100

  /** `list(text)`: one one-character string per code point. */
  function SplitString(text: Str): (r: seq<Str>)
    ensures |r| == |text|
    ensures forall i :: 0 <= i < |r| ==> |r[i]| == 1
  {
    seq(|text|, i requires 0 <= i < |text| => [text[i]])
  }

  /** `"".join(parts)`. */
  function Concat(parts: seq<Str>): Str
    decreases |parts|
  {
    if parts == [] then [] else Concat(parts[..|parts| - 1]) + parts[|parts| - 1]
  }

  /** Joining the pieces of `list(text)` gives `text` back. */
  lemma {:induction false} SplitStringConcat(text: Str)
    ensures Concat(SplitString(text)) == text
    decreases |text|
  {
    if text != [] {
      var n := |text|;
      assert SplitString(text)[..n - 1] == SplitString(text[..n - 1]);
      SplitStringConcat(text[..n - 1]);
      assert text[..n - 1] + [text[n - 1]] == text;
    }
  }

  /** A surrogate code point, which no UTF encoding accepts on its own. */
  predicate IsSurrogate(c: CodePoint) {
    0xD800 <= c <= 0xDFFF
  }

  predicate HasSurrogate(text: Str) {
    exists i :: 0 <= i < |text| && IsSurrogate(text[i])
  }

  predicate IsAscii(c: CodePoint) {
    c < 0x80
  }

  // ---------------------------------------------------------------- UTF-8

  /** Bytes per code point in UTF-8, by the table of section 3 of RFC 3629. */
  function Utf8Width(c: CodePoint): nat {
    if c < 0x80 then 1 else if c < 0x800 then 2 else if c < 0x10000 then 3 else 4
  }

  /** The UTF-8 bytes of one scalar value, section 3 of RFC 3629: a lead byte
      announcing the length, then continuation bytes of six payload bits. */
  function Utf8Char(c: CodePoint): (bs: seq<Byte>)
    requires !IsSurrogate(c)
    ensures |bs| == Utf8Width(c)
  {
    if c < 0x80 then [c]
    else if c < 0x800 then [0xC0 + c / 0x40, 0x80 + c % 0x40]
    else if c < 0x10000 then [0xE0 + c / 0x1000, 0x80 + c / 0x40 % 0x40, 0x80 + c % 0x40]
    else [0xF0 + c / 0x40000, 0x80 + c / 0x1000 % 0x40, 0x80 + c / 0x40 % 0x40, 0x80 + c % 0x40]
  }

  /** `text.encode('utf-8')`: the bytes of each code point in turn, or
      UnicodeEncodeError when the text holds a surrogate. */
  function Utf8Encode(text: Str): (r: Result<seq<Byte>>)
    ensures r.Raise? <==> HasSurrogate(text)
    ensures r.Raise? ==> r.error == UnicodeEncodeError
    decreases |text|
  {
    if text == [] then Ok([])
    else if IsSurrogate(text[0]) then Raise(UnicodeEncodeError)
    else
      var rest := Utf8Encode(text[1..]);
      if rest.Raise? then (assert HasSurrogate(text) by { SurrogateShift(text); } rest)
      else (assert !HasSurrogate(text) by { SurrogateShift(text); } Ok(Utf8Char(text[0]) + rest.value))
  }

  /** A surrogate occurs in a non-empty text exactly when it is the first code
      point or occurs in the rest. */
  lemma SurrogateShift(text: Str)
    requires text != []
    ensures HasSurrogate(text) <==> IsSurrogate(text[0]) || HasSurrogate(text[1..])
  {
    if HasSurrogate(text[1..]) {
      var i :| 0 <= i < |text[1..]| && IsSurrogate(text[1..][i]);
      assert IsSurrogate(text[i + 1]);
    }
    if HasSurrogate(text) && !IsSurrogate(text[0]) {
      var i :| 0 <= i < |text| && IsSurrogate(text[i]);
      assert text[1..][i - 1] == text[i];
    }
  }

  /** `utf8len(text)`: the length of the UTF-8 encoding. */
  function Utf8Len(text: Str): (r: Result<nat>)
    ensures r.Raise? <==> HasSurrogate(text)
    ensures r.Raise? ==> r.error == UnicodeEncodeError
  {
    var e := Utf8Encode(text);
    if e.Raise? then Raise(e.error) else Ok(|e.value|)
  }

  /** The sum of the RFC 3629 widths of the code points. */
  function Utf8Size(text: Str): nat
    decreases |text|
  {
    if text == [] then 0 else Utf8Width(text[0]) + Utf8Size(text[1..])
  }

  /** `utf8len` counts 1 to 4 bytes per code point as RFC 3629 prescribes, so
      it lies between `len(text)` and `4 * len(text)`, and equals `len(text)`
      exactly when every code point is ASCII. */
  lemma {:induction false} Utf8LenBounds(text: Str)
    requires !HasSurrogate(text)
    ensures Utf8Len(text) == Ok(Utf8Size(text))
    ensures |text| <= Utf8Size(text) <= 4 * |text|
    ensures Utf8Size(text) == |text| <==> forall i :: 0 <= i < |text| ==> IsAscii(text[i])
    decreases |text|
  {
    if text != [] {
      SurrogateShift(text);
      Utf8LenBounds(text[1..]);
      if forall i :: 0 <= i < |text[1..]| ==> IsAscii(text[1..][i]) {
        if IsAscii(text[0]) {
          forall i | 0 <= i < |text|
            ensures IsAscii(text[i])
          {
            if i > 0 {
              assert text[i] == text[1..][i - 1];
            }
          }
        }
      } else {
        var j :| 0 <= j < |text[1..]| && !IsAscii(text[1..][j]);
        assert !IsAscii(text[j + 1]);
      }
    }
  }

  /** The length a lead byte announces; 0 for a continuation byte or a byte
      that UTF-8 never uses as a lead. */
  function LeadWidth(b: Byte): nat {
    if b < 0x80 then 1
    else if 0xC0 <= b < 0xE0 then 2
    else if 0xE0 <= b < 0xF0 then 3
    else if 0xF0 <= b < 0xF8 then 4
    else 0
  }

  /** The code point a sequence of one to four bytes carries in its payload bits. */
  function Utf8Value(bs: seq<Byte>): int
    requires 1 <= |bs| <= 4
  {
    if |bs| == 1 then bs[0]
    else if |bs| == 2 then (bs[0] as int - 0xC0) * 0x40 + (bs[1] as int - 0x80)
    else if |bs| == 3 then (bs[0] as int - 0xE0) * 0x1000 + (bs[1] as int - 0x80) * 0x40 + (bs[2] as int - 0x80)
    else (bs[0] as int - 0xF0) * 0x40000 + (bs[1] as int - 0x80) * 0x1000 + (bs[2] as int - 0x80) * 0x40 + (bs[3] as int - 0x80)
  }

  /** A UTF-8 decoder: each lead byte says how many bytes make the next code
      point. It returns None for a truncated or malformed sequence. */
  function Utf8Decode(bs: seq<Byte>): Option<seq<int>>
    decreases |bs|
  {
    if bs == [] then Some([])
    else
      var w := LeadWidth(bs[0]);
      if w == 0 || |bs| < w then None
      else
        var rest := Utf8Decode(bs[w..]);
        if rest.None? then None else Some([Utf8Value(bs[..w])] + rest.value)
  }

  /** One encoded code point announces its own length and carries its value. */
  lemma Utf8CharDecodes(c: CodePoint)
    requires !IsSurrogate(c)
    ensures LeadWidth(Utf8Char(c)[0]) == |Utf8Char(c)|
    ensures Utf8Value(Utf8Char(c)) == c
  {
    if c >= 0x800 && c < 0x10000 {
      ThreeBytes(c);
    } else if c >= 0x10000 {
      FourBytes(c);
    }
  }

  lemma ThreeBytes(c: nat)
    requires 0x800 <= c < 0x10000
    ensures c == c / 0x1000 * 0x1000 + c / 0x40 % 0x40 * 0x40 + c % 0x40
  {
    var a := c / 0x40;
    assert c == a * 0x40 + c % 0x40;
    DivSixBits(c);
    assert a == c / 0x1000 * 0x40 + a % 0x40;
  }

  lemma FourBytes(c: nat)
    requires 0x10000 <= c <= 0x10FFFF
    ensures c == c / 0x40000 * 0x40000 + c / 0x1000 % 0x40 * 0x1000 + c / 0x40 % 0x40 * 0x40 + c % 0x40
  {
    var a := c / 0x40;
    var b := a / 0x40;
    assert c == a * 0x40 + c % 0x40;
    assert a == b * 0x40 + a % 0x40;
    DivSixBits(c);
    DivSixBits(a);
    DivTwelveBits(c);
    assert b == b / 0x40 * 0x40 + b % 0x40;
  }

  /** Dropping six bits twice drops twelve. */
  lemma DivSixBits(c: nat)
    ensures c / 0x40 / 0x40 == c / 0x1000
  {
    var q, r := c / 0x1000, c % 0x1000;
    assert c == q * 0x1000 + r;
    assert c / 0x40 == q * 0x40 + r / 0x40;
  }

  lemma DivTwelveBits(c: nat)
    ensures c / 0x1000 / 0x40 == c / 0x40000
  {
    var q, r := c / 0x40000, c % 0x40000;
    assert c == q * 0x40000 + r;
    assert c / 0x1000 == q * 0x40 + r / 0x1000;
  }

  /** Decoding the UTF-8 encoding gives the text back. */
  lemma {:induction false} Utf8RoundTrip(text: Str)
    requires !HasSurrogate(text)
    ensures Utf8Encode(text).Ok? && Utf8Decode(Utf8Encode(text).value) == Some(text)
    decreases |text|
  {
    if text != [] {
      SurrogateShift(text);
      Utf8RoundTrip(text[1..]);
      var head, rest := Utf8Char(text[0]), Utf8Encode(text[1..]).value;
      Utf8CharDecodes(text[0]);
      assert (head + rest)[0] == head[0];
      assert (head + rest)[..|head|] == head && (head + rest)[|head|..] == rest;
      assert [text[0]] + text[1..] == text;
    }
  }

  // --------------------------------------------------------------- UTF-16

  /** Bytes per code point in UTF-16: one 16-bit unit in the Basic
      Multilingual Plane, a surrogate pair above it (section 2.1 of RFC 2781). */
  function Utf16Width(c: CodePoint): nat {
    if c < 0x10000 then 2 else 4
  }

  /** The two bytes of a 16-bit unit, low byte first. */
  function LittleEndian(u: int): seq<Byte>
    requires 0 <= u < 0x10000
  {
    [u % 0x100, u / 0x100]
  }

  /** The UTF-16LE bytes of one scalar value (section 2.1 of RFC 2781): the
      value itself below U+10000, otherwise a high surrogate carrying the upper
      ten bits of `c - 0x10000` and a low surrogate carrying the lower ten. */
  function Utf16Char(c: CodePoint): (bs: seq<Byte>)
    requires !IsSurrogate(c)
    ensures |bs| == Utf16Width(c)
  {
    if c < 0x10000 then LittleEndian(c)
    else LittleEndian(0xD800 + (c - 0x10000) / 0x400) + LittleEndian(0xDC00 + (c - 0x10000) % 0x400)
  }

  /** `text.encode('utf-16-le')`: no byte-order mark, since the byte order is
      named; UnicodeEncodeError when the text holds a surrogate. */
  function Utf16Encode(text: Str): (r: Result<seq<Byte>>)
    ensures r.Raise? <==> HasSurrogate(text)
    ensures r.Raise? ==> r.error == UnicodeEncodeError
    decreases |text|
  {
    if text == [] then Ok([])
    else if IsSurrogate(text[0]) then Raise(UnicodeEncodeError)
    else
      var rest := Utf16Encode(text[1..]);
      if rest.Raise? then (assert HasSurrogate(text) by { SurrogateShift(text); } rest)
      else (assert !HasSurrogate(text) by { SurrogateShift(text); } Ok(Utf16Char(text[0]) + rest.value))
  }

  /** `utf16len(text)`: the length of the UTF-16LE encoding. */
  function Utf16Len(text: Str): (r: Result<nat>)
    ensures r.Raise? <==> HasSurrogate(text)
    ensures r.Raise? ==> r.error == UnicodeEncodeError
  {
    var e := Utf16Encode(text);
    if e.Raise? then Raise(e.error) else Ok(|e.value|)
  }

  /** The sum of the UTF-16 widths of the code points. */
  function Utf16Size(text: Str): nat
    decreases |text|
  {
    if text == [] then 0 else Utf16Width(text[0]) + Utf16Size(text[1..])
  }

  predicate InBmp(c: CodePoint) {
    c < 0x10000
  }

  /** `utf16len` counts 2 bytes per BMP code point and 4 per supplementary one,
      so it is even, lies between `2 * len(text)` and `4 * len(text)`, and is
      `2 * len(text)` exactly when every code point is in the BMP. */
  lemma {:induction false} Utf16LenBounds(text: Str)
    requires !HasSurrogate(text)
    ensures Utf16Len(text) == Ok(Utf16Size(text))
    ensures Utf16Size(text) % 2 == 0
    ensures 2 * |text| <= Utf16Size(text) <= 4 * |text|
    ensures Utf16Size(text) == 2 * |text| <==> forall i :: 0 <= i < |text| ==> InBmp(text[i])
    decreases |text|
  {
    if text != [] {
      SurrogateShift(text);
      Utf16LenBounds(text[1..]);
      if forall i :: 0 <= i < |text[1..]| ==> InBmp(text[1..][i]) {
        if InBmp(text[0]) {
          forall i | 0 <= i < |text|
            ensures InBmp(text[i])
          {
            if i > 0 {
              assert text[i] == text[1..][i - 1];
            }
          }
        }
      } else {
        var j :| 0 <= j < |text[1..]| && !InBmp(text[1..][j]);
        assert !InBmp(text[j + 1]);
      }
    }
  }

  /** The 16-bit unit of a low byte and a high byte. */
  function Unit(low: Byte, high: Byte): int {
    low as int + 0x100 * high as int
  }

  /** A UTF-16LE decoder: a unit outside the surrogate range is a code point,
      a high surrogate followed by a low one is a pair; anything else, or an
      odd number of bytes, is malformed. */
  function Utf16Decode(bs: seq<Byte>): Option<seq<int>>
    decreases |bs|
  {
    if bs == [] then Some([])
    else if |bs| < 2 then None
    else
      var u := Unit(bs[0], bs[1]);
      if 0xD800 <= u < 0xDC00 then
        if |bs| < 4 then None
        else
          var l := Unit(bs[2], bs[3]);
          if !(0xDC00 <= l < 0xE000) then None
          else
            var rest := Utf16Decode(bs[4..]);
            if rest.None? then None else Some([0x10000 + (u - 0xD800) * 0x400 + (l - 0xDC00)] + rest.value)
      else if 0xDC00 <= u < 0xE000 then None
      else
        var rest := Utf16Decode(bs[2..]);
        if rest.None? then None else Some([u] + rest.value)
  }

  lemma LittleEndianValue(u: int)
    requires 0 <= u < 0x10000
    ensures Unit(LittleEndian(u)[0], LittleEndian(u)[1]) == u
  {
  }

  /** Decoding the encoding of one code point followed by more bytes reads
      that code point and goes on with the rest. */
  lemma Utf16CharDecodes(c: CodePoint, rest: seq<Byte>)
    requires !IsSurrogate(c)
    ensures Utf16Decode(Utf16Char(c) + rest) ==
      (if Utf16Decode(rest).None? then None else Some([c] + Utf16Decode(rest).value))
  {
    var bs := Utf16Char(c) + rest;
    if c < 0x10000 {
      LittleEndianValue(c);
      assert bs[2..] == rest;
    } else {
      var hi, lo := 0xD800 + (c - 0x10000) / 0x400, 0xDC00 + (c - 0x10000) % 0x400;
      LittleEndianValue(hi);
      LittleEndianValue(lo);
      assert Unit(bs[0], bs[1]) == hi && Unit(bs[2], bs[3]) == lo;
      assert bs[4..] == rest;
    }
  }

  /** Decoding the UTF-16LE encoding gives the text back. */
  lemma {:induction false} Utf16RoundTrip(text: Str)
    requires !HasSurrogate(text)
    ensures Utf16Encode(text).Ok? && Utf16Decode(Utf16Encode(text).value) == Some(text)
    decreases |text|
  {
    if text != [] {
      SurrogateShift(text);
      Utf16RoundTrip(text[1..]);
      Utf16CharDecodes(text[0], Utf16Encode(text[1..]).value);
      assert [text[0]] + text[1..] == text;
    }
  }

  // ----------------------------------------------------------- codepoints

  const LATIN_CAPITAL_A: CodePoint := 0x41
  /** "U+". */
  const U_PLUS: Str := [0x55, 0x2B]

  /** An uppercase hexadecimal digit. */
  function HexDigit(d: nat): CodePoint
    requires d < 16
  {
    if d < 10 then DIGIT_ZERO + d else LATIN_CAPITAL_A + (d - 10)
  }

  /** The value of an uppercase hexadecimal digit; None for any other character. */
  function HexValue(c: CodePoint): Option<nat> {
    if DIGIT_ZERO <= c < DIGIT_ZERO + 10 then Some(c - DIGIT_ZERO)
    else if LATIN_CAPITAL_A <= c < LATIN_CAPITAL_A + 6 then Some(c - LATIN_CAPITAL_A + 10)
    else None
  }

  /** `'{:X}'.format(n)`: uppercase hexadecimal without leading zeros. */
  function Hex(n: nat): (s: Str)
    ensures s != []
    decreases n
  {
    if n < 16 then [HexDigit(n)] else Hex(n / 16) + [HexDigit(n % 16)]
  }

  /** `'{:04X}'.format(n)`: the same, padded with '0' to four digits. */
  function Hex4(n: nat): Str {
    ZeroPad(Hex(n), 4)
  }

  /** `'U+{:04X}'.format(ord(c))`. */
  function Token(c: CodePoint): Str {
    U_PLUS + Hex4(c)
  }

  /** `codepoints(text)`: the tokens of the code points, joined by single spaces. */
  function Codepoints(text: Str): Str {
    Join(Tokens(text), [SPACE])
  }

  function Tokens(text: Str): (ts: seq<Str>)
    ensures |ts| == |text|
  {
    seq(|text|, i requires 0 <= i < |text| => Token(text[i]))
  }

  /** The value of a run of hexadecimal digits; None if a character is not one. */
  function HexNumber(s: Str): Option<nat>
    decreases |s|
  {
    if s == [] then Some(0)
    else
      var a, d := HexNumber(s[..|s| - 1]), HexValue(s[|s| - 1]);
      if a.None? || d.None? then None else Some(16 * a.value + d.value)
  }

  /** Reading a token back: "U+" and at least four hexadecimal digits whose
      value is a code point. */
  function ParseToken(t: Str): Option<CodePoint> {
    if |t| < 6 || t[..2] != U_PLUS then None
    else
      var v := HexNumber(t[2..]);
      if v.None? || v.value > 0x10FFFF then None else Some(v.value)
  }

  /** `s.split(" ")`: the pieces between single spaces; "" gives [""]. */
  function SplitSpaces(s: Str): (r: seq<Str>)
    ensures |r| >= 1
    decreases |s|
  {
    if s == [] then [[]]
    else
      var rest := SplitSpaces(s[1..]);
      if s[0] == SPACE then [[]] + rest else [[s[0]] + rest[0]] + rest[1..]
  }

  function ParseTokens(ts: seq<Str>): Option<Str>
    decreases |ts|
  {
    if ts == [] then Some([])
    else
      var c, rest := ParseToken(ts[0]), ParseTokens(ts[1..]);
      if c.None? || rest.None? then None else Some([c.value] + rest.value)
  }

  /** Reading a `codepoints` listing back into the text; "" is the empty text. */
  function ParseCodepoints(s: Str): Option<Str> {
    if s == [] then Some([]) else ParseTokens(SplitSpaces(s))
  }

  lemma {:induction false} HexRoundTrip(n: nat)
    ensures HexNumber(Hex(n)) == Some(n)
    decreases n
  {
    if n >= 16 {
      HexRoundTrip(n / 16);
      var h := Hex(n);
      assert h[..|h| - 1] == Hex(n / 16);
    }
  }

  /** A leading '0' does not change the value of a hexadecimal run. */
  lemma {:induction false} HexLeadingZero(s: Str)
    ensures HexNumber([DIGIT_ZERO] + s) == HexNumber(s)
    decreases |s|
  {
    if s != [] {
      var t := [DIGIT_ZERO] + s;
      assert t[..|t| - 1] == [DIGIT_ZERO] + s[..|s| - 1];
      HexLeadingZero(s[..|s| - 1]);
    } else {
      assert ([DIGIT_ZERO] + s)[..0] == [];
    }
  }

  lemma {:induction false} HexPadded(s: Str, width: nat)
    ensures HexNumber(ZeroPad(s, width)) == HexNumber(s)
    decreases width - |s|
  {
    if |s| < width {
      HexPadded([DIGIT_ZERO] + s, width);
      HexLeadingZero(s);
      ZeroPadStep(s, width);
    }
  }

  /** The hexadecimal digits of `n` all are uppercase hexadecimal digits. */
  lemma {:induction false} HexDigits(n: nat)
    ensures forall i :: 0 <= i < |Hex(n)| ==> HexValue(Hex(n)[i]).Some?
    decreases n
  {
    if n >= 16 {
      HexDigits(n / 16);
    }
  }

  /** `|Hex(n)|` is the number of hexadecimal digits of `n`: at most `k`
      (one or more) when `n < 16^k`, more when `n >= 16^k`. */
  lemma {:induction false} HexLength(n: nat, k: nat)
    requires k >= 1
    ensures |Hex(n)| <= k <==> n < Pow16(k)
    decreases n
  {
    Pow16Positive(k - 1);
    if n >= 16 {
      if k > 1 {
        HexLength(n / 16, k - 1);
      }
    }
  }

  function Pow16(k: nat): nat {
    if k == 0 then 1 else 16 * Pow16(k - 1)
  }

  lemma {:induction false} Pow16Positive(k: nat)
    ensures Pow16(k) >= 1
  {
    if k > 0 {
      Pow16Positive(k - 1);
    }
  }

  /** Four, five or six digits, by the size of the code point. */
  lemma Hex4Length(c: CodePoint)
    ensures |Hex4(c)| == (if c < 0x10000 then 4 else if c < 0x100000 then 5 else 6)
  {
    HexLength(c, 4);
    HexLength(c, 5);
    HexLength(c, 6);
    assert Pow16(4) == 0x10000 && Pow16(5) == 0x100000 && Pow16(6) == 0x1000000;
  }

  /** Padding adds only '0', so every character stays a hexadecimal digit. */
  lemma Hex4Digits(n: nat)
    ensures forall i :: 0 <= i < |Hex4(n)| ==> HexValue(Hex4(n)[i]).Some?
  {
    var h, p := Hex(n), Hex4(n);
    HexDigits(n);
    forall i | 0 <= i < |p|
      ensures HexValue(p[i]).Some?
    {
      if i >= |p| - |h| {
        assert p[i] == p[|p| - |h|..][i - (|p| - |h|)];
      }
    }
  }

  lemma Hex4Value(n: nat)
    ensures HexNumber(Hex4(n)) == Some(n)
  {
    HexRoundTrip(n);
    HexPadded(Hex(n), 4);
  }

  /** Each token is "U+" and then the hexadecimal digits of the code point,
      never truncated, with exactly four of them below U+10000, five below
      U+100000 and six above. */
  lemma TokenFormat(c: CodePoint)
    ensures Token(c)[..2] == U_PLUS
    ensures forall i :: 2 <= i < |Token(c)| ==> HexValue(Token(c)[i]).Some?
    ensures |Token(c)| == 2 + (if c < 0x10000 then 4 else if c < 0x100000 then 5 else 6)
    ensures HexNumber(Token(c)[2..]) == Some(c)
  {
    var t := Token(c);
    assert t[..2] == U_PLUS;
    assert t[2..] == Hex4(c);
    Hex4Length(c);
    Hex4Value(c);
    Hex4Digits(c);
    forall i | 2 <= i < |t|
      ensures HexValue(t[i]).Some?
    {
      assert t[i] == Hex4(c)[i - 2];
    }
  }

  lemma ParseTokenRoundTrip(c: CodePoint)
    ensures ParseToken(Token(c)) == Some(c)
  {
    TokenFormat(c);
  }

  /** A token holds no space, so splitting the listing at spaces finds it. */
  lemma TokenNoSpace(c: CodePoint)
    ensures SPACE !in Token(c)
  {
    TokenFormat(c);
    HexRunNoSpace(Token(c));
  }

  lemma HexRunNoSpace(t: Str)
    requires |t| >= 2 && t[..2] == U_PLUS
    requires forall i :: 2 <= i < |t| ==> HexValue(t[i]).Some?
    ensures SPACE !in t
  {
    forall i | 0 <= i < |t|
      ensures t[i] != SPACE
    {
      if i < 2 {
        assert t[..2][i] == U_PLUS[i];
      } else {
        assert HexValue(t[i]).Some?;
      }
    }
  }

  /** Splitting at the first space of a piece that has none before it. */
  lemma {:induction false} SplitSpacesCons(a: Str, b: Str)
    requires SPACE !in a
    ensures SplitSpaces(a + [SPACE] + b) == [a] + SplitSpaces(b)
    decreases |a|
  {
    if a == [] {
      assert a + [SPACE] + b == [SPACE] + b;
      assert ([SPACE] + b)[1..] == b;
    } else {
      var s := a + [SPACE] + b;
      assert s[0] == a[0] && s[1..] == a[1..] + [SPACE] + b;
      SplitSpacesCons(a[1..], b);
      assert [a[0]] + a[1..] == a;
    }
  }

  lemma {:induction false} SplitSpacesNone(a: Str)
    requires SPACE !in a
    ensures SplitSpaces(a) == [a]
    decreases |a|
  {
    if a != [] {
      SplitSpacesNone(a[1..]);
      assert [a[0]] + a[1..] == a;
    }
  }

  /** Splitting a space-joined list of space-free pieces gives the pieces. */
  lemma {:induction false} SplitJoin(ts: seq<Str>)
    requires ts != []
    requires forall i :: 0 <= i < |ts| ==> SPACE !in ts[i]
    ensures SplitSpaces(Join(ts, [SPACE])) == ts
    decreases |ts|
  {
    if |ts| == 1 {
      SplitSpacesNone(ts[0]);
    } else {
      SplitJoin(ts[1..]);
      SplitSpacesCons(ts[0], Join(ts[1..], [SPACE]));
      assert [ts[0]] + ts[1..] == ts;
    }
  }

  lemma ParseTokensRoundTrip(text: Str)
    ensures ParseTokens(Tokens(text)) == Some(text)
  {
    var ts := Tokens(text);
    forall i | 0 <= i < |ts|
      ensures ParseToken(ts[i]) == Some(text[i])
    {
      ParseTokenRoundTrip(text[i]);
    }
    ParseEach(ts, text);
  }

  /** Parsing a list whose every token reads back gives the list of values. */
  lemma {:induction false} ParseEach(ts: seq<Str>, text: Str)
    requires |ts| == |text|
    requires forall i :: 0 <= i < |ts| ==> ParseToken(ts[i]) == Some(text[i])
    ensures ParseTokens(ts) == Some(text)
    decreases |ts|
  {
    if ts != [] {
      ParseEach(ts[1..], text[1..]);
      assert [text[0]] + text[1..] == text;
    }
  }

  /** `codepoints` loses nothing: the listing has one space-separated token
      per code point and reading the tokens back gives the text; "" lists as "". */
  lemma CodepointsRoundTrip(text: Str)
    ensures text == [] <==> Codepoints(text) == []
    ensures |SplitSpaces(Codepoints(text))| == (if text == [] then 1 else |text|)
    ensures ParseCodepoints(Codepoints(text)) == Some(text)
  {
    if text != [] {
      var ts := Tokens(text);
      forall i | 0 <= i < |ts|
        ensures SPACE !in ts[i]
      {
        TokenNoSpace(text[i]);
      }
      SplitJoin(ts);
      ParseTokensRoundTrip(text);
      JoinNonEmpty(ts);
    }
  }

  lemma JoinNonEmpty(ts: seq<Str>)
    requires ts != [] && ts[0] != []
    ensures Join(ts, [SPACE]) != []
  {
  }
}
