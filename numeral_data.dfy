/** The numbering-system table of `convert_numeral_systems`: for each CLDR
    numbering-system identifier, its ten digits and, for some entries, extra
    keys (the output separators). The display names are kept apart, in
    `Names`. */
module NumeralData {
  import opened Wrappers
  import opened Unicode

  /** A pair of separators: group (thousands) first, decimal second. */
  datatype Seps = Seps(group: Str, decimal: Str)

  /** One entry of the table. Each digit string of the table is ten consecutive
      code points, so an entry records the first of them, the glyph for 0. */
  datatype Entry = Entry(zero: DigitZero, keys: map<string, Seps>)

  /** A code point that starts one of the runs of ten decimal digits. */
  type DigitZero = z: int | NdBlockZero(z) == Some(z) witness DIGIT_ZERO

  /** The entry's digit string, glyph i for digit value i. */
  function Digits(e: Entry): (ds: Str)
    ensures |ds| == 10
    ensures forall i, j :: 0 <= i < j < 10 ==> ds[i] != ds[j]
  {
    seq(10, i requires 0 <= i < 10 => Glyph(e, i))
  }

  /** The entry's glyph for digit value `i`. */
  function Glyph(e: Entry, i: nat): (c: CodePoint)
    requires i < 10
    ensures c == e.zero + i
  {
    e.zero + i
  }

  /** The table, keyed by numbering system: the union of four maps that
      hold the identifiers in alphabetical ranges. The one-entry lemmas below
      (ArabInA, ArabNotInB, ...) say in which range an identifier lies. */
  const Data: map<string, Entry> := DataA + DataB + DataC + DataD

  /** The ASCII digits "0123456789". */
  const LATN := Entry(0x0030, map[])
  /** The Arabic-Indic digits "٠١٢٣٤٥٦٧٨٩", U+0660..U+0669. */
  const ARAB := Entry(0x0660, map[])

  /** The Myanmar digits, U+1040..U+1049, with ASCII output separators. */
  const MYMR := Entry(0x1040, map["sep_out" := Seps([COMMA], [FULL_STOP])])

  /** U+066C ARABIC THOUSANDS SEPARATOR and U+066B ARABIC DECIMAL SEPARATOR. */
  const ARABIC_SEPS := Seps([ARABIC_THOUSANDS_SEPARATOR], [ARABIC_DECIMAL_SEPARATOR])

  /** The display name of each entry of the table, kept apart from `Data`:
      nothing but the listing uses them. */
  const Names: map<string, string> := map[
      "adlm" := "Adlam Digits (adlm)",
      "ahom" := "Ahom Digits (ahom)",
      "arab" := "Arabic-Indic Digits (arab)",
      "arabext" := "Extended Arabic-Indic Digits (arabext)",
      "bali" := "Balinese Digits (bali)",
      "beng" := "Bangla Digits (beng)",
      "bhks" := "Bhaiksuki  Digits (bhks)",
      "brah" := "Brahmi Digits (brah)",
      "cakm" := "Chakma Digits (cakm)",
      "cham" := "Cham Digits (cham)",
      "deva" := "Devanagari Digits (deva)",
      "diak" := "Dhives/Divehi Digits (diak)",
      "fullwide" := "Full-Width Digits (fullwide)",
      "gong" := "Gunjala Gondi digits (gong)",
      "gonm" := "Masaram Gondi digits (gonm)",
      "gujr" := "Gujarati Digits (gujr)",
      "guru" := "Gurmukhi Digits (guru)",
      "hmng" := "Pahawh Hmong Digits (hmng)",
      "hmnp" := "Nyiakeng Puachue Hmong Digits (hmnp)",
      "java" := "Javanese Digits (java)",
      "kali" := "Kayah Li Digits (kali)",
      "khmr" := "Khmer Digits (khmr)",
      "knda" := "Kannada Digits (knda)",
      "lana" := "Tai Tham Hora Digits (lana)",
      "lanatham" := "Tai Tham Tham Digits (lanatham)",
      "laoo" := "Lao Digits (laoo)",
      "latn" := "Latin Digits (latn)",
      "lepc" := "Lepcha Digits (lepc)",
      "limb" := "Limbu Digits (limb)",
      "mlym" := "Malayalam Digits (mlym)",
      "modi" := "Modi Digits (modi)",
      "mong" := "Mongolian Digits (mong)",
      "mroo" := "Mro Digits (mroo)",
      "mtei" := "Meetei Mayek Digits (mtei)",
      "mymr" := "Myanmar Digits (mymr)",
      "mymrshan" := "Myanmar Shan Digits (mymrshan)",
      "mymrtlng" := "Myanmar Tai Laing Digits (mymrtlng)",
      "newa" := "Pracalit Digits (newa)",
      "nkoo" := "N’Ko Digits (nkoo)",
      "olck" := "Ol Chiki Digits (olck)",
      "orya" := "Odia Digits (orya)",
      "osma" := "Osmanya Digits (osma)",
      "rohg" := "Hanifi Rohingya digits (rohg)",
      "saur" := "Saurashtra Digits (saur)",
      "shrd" := "Sharada Digits (shrd)",
      "sind" := "Khudabadi Digits (sind)",
      "sinh" := "Sinhala Digits (sinh)",
      "sora" := "Sora Sompeng Digits (sora)",
      "sund" := "Sundanese Digits (sund)",
      "takr" := "Takri Digits (takr)",
      "talu" := "New Tai Lue Digits (talu)",
      "tamldec" := "Tamil Digits (tamldec)",
      "telu" := "Telugu Digits (telu)",
      "thai" := "Thai Digits (thai)",
      "tibt" := "Tibetan Digits (tibt)",
      "tirh" := "Tirhuta Digits (tirh)",
      "tnsa" := "Tangsa Digits (tnsa)",
      "vaii" := "Vai Digits (vaii)",
      "wara" := "Warang Citi Digits (wara)",
      "wcho" := "Wancho Digits (wcho)"
    ]

  const DataA: map<string, Entry> := map[
      "adlm" := Entry(0x1E950, map["sep_out" := Seps([COMMA], [FULL_STOP])]),
      "ahom" := Entry(0x11730, map[]),
      "arab" := ARAB,
      "arabext" := Entry(0x06F0, map["sep_out_out" := Seps([ARABIC_THOUSANDS_SEPARATOR], [ARABIC_DECIMAL_SEPARATOR])]),
      "bali" := Entry(0x1B50, map[]),
      "beng" := Entry(0x09E6, map[]),
      "bhks" := Entry(0x11C50, map[]),
      "brah" := Entry(0x11066, map[]),
      "cakm" := Entry(0x11136, map[]),
      "cham" := Entry(0xAA50, map[]),
      "deva" := Entry(0x0966, map[]),
      "diak" := Entry(0x11950, map[]),
      "fullwide" := Entry(0xFF10, map[]),
      "gong" := Entry(0x11DA0, map[]),
      "gonm" := Entry(0x11D50, map[])
    ]

  const DataB: map<string, Entry> := map[
      "gujr" := Entry(0x0AE6, map[]),
      "guru" := Entry(0x0A66, map[]),
      "hmng" := Entry(0x16B50, map[]),
      "hmnp" := Entry(0x1E140, map[]),
      "java" := Entry(0xA9D0, map[]),
      "kali" := Entry(0xA900, map[]),
      "khmr" := Entry(0x17E0, map[]),
      "knda" := Entry(0x0CE6, map[]),
      "lana" := Entry(0x1A80, map[]),
      "lanatham" := Entry(0x1A90, map[]),
      "laoo" := Entry(0x0ED0, map[]),
      "latn" := LATN,
      "lepc" := Entry(0x1C40, map[]),
      "limb" := Entry(0x1946, map[]),
      "mlym" := Entry(0x0D66, map[])
    ]

  const DataC: map<string, Entry> := map[
      "modi" := Entry(0x11650, map[]),
      "mong" := Entry(0x1810, map[]),
      "mroo" := Entry(0x16A60, map[]),
      "mtei" := Entry(0xABF0, map[]),
      "mymr" := MYMR,
      "mymrshan" := Entry(0x1090, map["sep_out" := Seps([COMMA], [FULL_STOP])]),
      "mymrtlng" := Entry(0xA9F0, map[]),
      "newa" := Entry(0x11450, map[]),
      "nkoo" := Entry(0x07C0, map[]),
      "olck" := Entry(0x1C50, map[]),
      "orya" := Entry(0x0B66, map[]),
      "osma" := Entry(0x104A0, map[]),
      "rohg" := Entry(0x10D30, map[]),
      "saur" := Entry(0xA8D0, map[]),
      "shrd" := Entry(0x111D0, map[])
    ]

  const DataD: map<string, Entry> := map[
      "sind" := Entry(0x112F0, map[]),
      "sinh" := Entry(0x0DE6, map[]),
      "sora" := Entry(0x110F0, map[]),
      "sund" := Entry(0x1BB0, map[]),
      "takr" := Entry(0x116C0, map[]),
      "talu" := Entry(0x19D0, map[]),
      "tamldec" := Entry(0x0BE6, map[]),
      "tnsa" := Entry(0x16AC0, map[]),
      "telu" := Entry(0x0C66, map[]),
      "thai" := Entry(0x0E50, map[]),
      "tibt" := Entry(0x0F20, map[]),
      "tirh" := Entry(0x114D0, map[]),
      "vaii" := Entry(0xA620, map[]),
      "wara" := Entry(0x118E0, map[]),
      "wcho" := Entry(0x1E2F0, map[])
    ]

  /** Every entry's ten digits are read back by the Unicode decimal values as 0 to 9. */
  lemma TableDigitsDecode(e: Entry, i: nat)
    requires i < 10
    ensures DecimalValue(Digits(e)[i]) == Some(i)
  {
    BlockUniform(e.zero, e.zero + i);
  }

  /** "latn" is the Latin entry. */
  lemma LatnEntry()
    ensures "latn" in Data && Data["latn"] == LATN
  {
    LatnInB();
    LatnNotInC();
    LatnNotInD();
  }

  lemma LatnInB() ensures "latn" in DataB && DataB["latn"] == LATN {}
  lemma LatnNotInC() ensures "latn" !in DataC {}
  lemma LatnNotInD() ensures "latn" !in DataD {}

  /** "arab" is the Arabic-Indic entry. */
  lemma ArabEntry()
    ensures "arab" in Data && Data["arab"] == ARAB
  {
    ArabInA();
    ArabNotInB();
    ArabNotInC();
    ArabNotInD();
  }

  lemma ArabInA() ensures "arab" in DataA && DataA["arab"] == ARAB {}
  lemma ArabNotInB() ensures "arab" !in DataB {}
  lemma ArabNotInC() ensures "arab" !in DataC {}
  lemma ArabNotInD() ensures "arab" !in DataD {}

  /** "mymr" is the Myanmar entry; it carries its own "sep_out", the ASCII
      separators. */
  lemma MymrEntry()
    ensures "mymr" in Data && Data["mymr"] == MYMR
    ensures Data["mymr"].keys == map["sep_out" := Seps([COMMA], [FULL_STOP])]
  {
    MymrInC();
    MymrNotInD();
  }

  lemma MymrInC() ensures "mymr" in DataC && DataC["mymr"] == MYMR {}
  lemma MymrNotInD() ensures "mymr" !in DataD {}

  /** "arabext" carries its Arabic separators under the key "sep_out_out",
      not "sep_out". */
  lemma ArabextEntry()
    ensures "arabext" in Data && "sep_out" !in Data["arabext"].keys && "sep_out_out" in Data["arabext"].keys
  {
    ArabextInA();
    ArabextNotInB();
    ArabextNotInC();
    ArabextNotInD();
  }

  lemma ArabextInA()
    ensures "arabext" in DataA && DataA["arabext"].keys == map["sep_out_out" := Seps([ARABIC_THOUSANDS_SEPARATOR], [ARABIC_DECIMAL_SEPARATOR])]
  {}
  lemma ArabextNotInB() ensures "arabext" !in DataB {}
  lemma ArabextNotInC() ensures "arabext" !in DataC {}
  lemma ArabextNotInD() ensures "arabext" !in DataD {}

  /** The empty string, the default `system_out`, names no entry. */
  lemma EmptyNotInData()
    ensures "" !in Data
  {
    EmptyNotInA();
    EmptyNotInB();
    EmptyNotInC();
    EmptyNotInD();
  }

  lemma EmptyNotInA() ensures "" !in DataA {}
  lemma EmptyNotInB() ensures "" !in DataB {}
  lemma EmptyNotInC() ensures "" !in DataC {}
  lemma EmptyNotInD() ensures "" !in DataD {}

  /** The entries that carry their own output separators. */
  predicate OwnSepOut(k: string) {
    k == "adlm" || k == "mymr" || k == "mymrshan"
  }

  /** Exactly "adlm", "mymr" and "mymrshan" have a "sep_out" key, and it
      holds the ASCII separators "," and "."; every other entry has none
      ("arabext" has only the misspelt "sep_out_out"). */
  lemma SepOutEntries()
    ensures forall k :: k in Data ==> ("sep_out" in Data[k].keys <==> OwnSepOut(k))
    ensures forall k :: k in Data && "sep_out" in Data[k].keys ==> Data[k].keys["sep_out"] == Seps([COMMA], [FULL_STOP])
  {
    SepOutA();
    SepOutB();
    SepOutC();
    SepOutD();
    AdlmPlace();
    MymrPlace();
    SepOutUnion(DataA, DataB, DataC, DataD);
  }

  /** The union of the four ranges, each with its own "sep_out" keys, has
      exactly theirs. */
  lemma SepOutUnion(a: map<string, Entry>, b: map<string, Entry>, c: map<string, Entry>, d: map<string, Entry>)
    requires forall k :: k in a ==> ("sep_out" in a[k].keys <==> k == "adlm")
    requires forall k :: k in a && "sep_out" in a[k].keys ==> a[k].keys["sep_out"] == Seps([COMMA], [FULL_STOP])
    requires forall k :: k in b ==> "sep_out" !in b[k].keys
    requires forall k :: k in c ==> ("sep_out" in c[k].keys <==> k == "mymr" || k == "mymrshan")
    requires forall k :: k in c && "sep_out" in c[k].keys ==> c[k].keys["sep_out"] == Seps([COMMA], [FULL_STOP])
    requires forall k :: k in d ==> "sep_out" !in d[k].keys
    requires "adlm" !in b && "adlm" !in c && "adlm" !in d
    requires "mymr" in c && "mymrshan" in c && "mymr" !in d && "mymrshan" !in d
    ensures forall k :: k in a + b + c + d ==> ("sep_out" in (a + b + c + d)[k].keys <==> OwnSepOut(k))
    ensures forall k :: k in a + b + c + d && "sep_out" in (a + b + c + d)[k].keys ==>
                          (a + b + c + d)[k].keys["sep_out"] == Seps([COMMA], [FULL_STOP])
  {
    var m := a + b + c + d;
    forall k | k in m
      ensures "sep_out" in m[k].keys <==> OwnSepOut(k)
      ensures "sep_out" in m[k].keys ==> m[k].keys["sep_out"] == Seps([COMMA], [FULL_STOP])
    {
      if k in d {
        assert m[k] == d[k];
      } else if k in c {
        assert m[k] == c[k];
      } else if k in b {
        assert m[k] == b[k];
      } else {
        assert m[k] == a[k];
      }
    }
  }

  lemma SepOutA()
    ensures forall k :: k in DataA ==> ("sep_out" in DataA[k].keys <==> k == "adlm")
    ensures forall k :: k in DataA && "sep_out" in DataA[k].keys ==> DataA[k].keys["sep_out"] == Seps([COMMA], [FULL_STOP])
  {}
  lemma SepOutB() ensures forall k :: k in DataB ==> "sep_out" !in DataB[k].keys {}
  lemma SepOutC()
    ensures forall k :: k in DataC ==> ("sep_out" in DataC[k].keys <==> k == "mymr" || k == "mymrshan")
    ensures forall k :: k in DataC && "sep_out" in DataC[k].keys ==> DataC[k].keys["sep_out"] == Seps([COMMA], [FULL_STOP])
  {}
  lemma SepOutD() ensures forall k :: k in DataD ==> "sep_out" !in DataD[k].keys {}
  lemma AdlmPlace() ensures "adlm" !in DataB && "adlm" !in DataC && "adlm" !in DataD {}
  lemma MymrPlace() ensures "mymr" in DataC && "mymrshan" in DataC && "mymr" !in DataD && "mymrshan" !in DataD {}
}
