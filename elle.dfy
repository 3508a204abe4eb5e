/** The collation tailorings of `elle`: ICU rule strings for Dinka and Akan,
    the language tags that select them, and the `uu` string wrapper's
    `codepoints` method. */
module Elle {
  import opened Wrappers
  import opened Unicode
  import opened TextUtils

  /** The Dinka tailoring: digraphs, vowels with diaeresis and the extra
      letters ɛ, ɣ, ŋ and ɔ sorted after their base letters. */
  const DINKA_RULES: string := "&A<<aa<<<aA<<<Aa<<<AA<<\U{00E4}<<<\U{00C4}<<\U{00E4}\U{00E4}<<<\U{00E4}\U{00C4}<<<\U{00C4}\U{00E4}<<<\U{00C4}\U{00C4}\n&D<dh<<<dH<<<Dh<<<DH\n&E<<ee<<<eE<<<Ee<<<EE<<\U{00EB}<<<\U{00CB}<<\U{00EB}\U{00EB}<<<\U{00EB}\U{00CB}<<<\U{00CB}\U{00EB}<<<\U{00CB}\U{00CB}<\U{025B}<<<\U{0190}<<\U{025B}\U{025B}<<<\U{025B}\U{0190}<<<\U{0190}\U{025B}<<<\U{0190}\U{0190}<<\U{025B}\U{0308}<<<\U{0190}\U{0308}<<\U{025B}\U{0308}\U{025B}\U{0308}<<<\U{025B}\U{0308}\U{0190}\U{0308}<<<\U{0190}\U{0308}\U{025B}\U{0308}<<<\U{0190}\U{0308}\U{0190}\U{0308}\n&G<\U{0263}<<<\U{0194}\n&I<<ii<<<iI<<<Ii<<<II<<\U{00EF}<<<\U{00CF}<<\U{00EF}\U{00EF}<<<\U{00EF}\U{00CF}<<<\U{00CF}\U{00EF}<<<\U{00CF}\U{00CF}\n&N<nh<<<nH<<<Nh<<<NH<ny<<<nY<<<Ny<<<NH<\U{014B}<<<\U{014A}\n&O<<oo<<<oO<<<Oo<<<OO<<\U{00F6}<<<\U{00D6}<<\U{00F6}\U{00F6}<<<\U{00F6}\U{00D6}<<<\U{00D6}\U{00F6}<<<\U{00D6}\U{00D6}<\U{0254}<<<\U{0186}<<\U{0254}\U{0254}<<<\U{0254}\U{0186}<<<\U{0186}\U{0254}<<<\U{0186}\U{0186}<<\U{0254}\U{0308}<<<\U{0186}\U{0308}<<\U{0254}\U{0308}\U{0254}\U{0308}<<<\U{0254}\U{0308}\U{0186}\U{0308}<<<\U{0186}\U{0308}\U{0254}\U{0308}<<<\U{0186}\U{0308}\U{0186}\U{0308}\n&T<th<<<tH<<<Th<<<TH\n&U<<uu<<<uU<<<Uu<<<UU"
  /** The Akan tailoring: ɛ after E and ɔ after O. */
  const AKAN_RULES: string := "&E<\U{025B}<<<\U{0190}\n&O<\U{0254}<<<\U{0186}"

  /** `collation_tailorings`: tailoring name to ICU rules. */
  const CollationTailorings: map<string, string> := map["din" := DINKA_RULES, "ak" := AKAN_RULES]

  /** `language_tailorings`: language tag to tailoring name. */
  const LanguageTailorings: map<string, string> := DinkaTags + AkanTags

  /** The Dinka tags: Dinka and its varieties, bare and for South Sudan. */
  const DinkaTags: map<string, string> := map[
      "din" := "din",
      "din-SS" := "din",
      "dip" := "din",
      "dip-SS" := "din",
      "diw" := "din",
      "diw-SS" := "din",
      "dib" := "din",
      "dib-SS" := "din",
      "dks" := "din",
      "dks-SS" := "din",
      "dik" := "din",
      "dik-SS" := "din"
    ]

  /** The Akan tags: Akan, Fante, Bono and Twi, bare and for Ghana. */
  const AkanTags: map<string, string> := map[
      "ak" := "ak",
      "ak-GH" := "ak",
      "fat" := "ak",
      "fat-GH" := "ak",
      "bon" := "ak",
      "bon-GH" := "ak",
      "tw" := "ak",
      "tw-GH" := "ak"
    ]

  /** The region subtag each tailoring's tags carry: South Sudan for Dinka,
      Ghana for Akan. */
  function RegionOf(tailoring: string): string {
    if tailoring == "din" then "-SS" else "-GH"
  }

  /** A tag with no subtag. */
  predicate Bare(tag: string) {
    '-' !in tag
  }

  /** `collation_tailorings[language_tailorings[tag]]`: the rules for a
      language tag; a tag missing from the table is a KeyError. */
  function Tailoring(tag: string): (r: Result<string>)
    ensures r.Ok? <==> tag in LanguageTailorings
    ensures r.Raise? ==> r.error == KeyError
    ensures r.Ok? ==> r.value in CollationTailorings.Values
  {
    TailoringsConsistent();
    if tag !in LanguageTailorings then Raise(KeyError)
    else Ok(CollationTailorings[LanguageTailorings[tag]])
  }

  /** Every tailoring name in `language_tailorings` is a key of
      `collation_tailorings`. */
  lemma TailoringsConsistent()
    ensures forall tag :: tag in LanguageTailorings ==> LanguageTailorings[tag] in CollationTailorings
  {
    DinkaValues();
    AkanValues();
  }

  lemma DinkaValues()
    ensures forall tag :: tag in DinkaTags ==> DinkaTags[tag] == "din" && tag[0] == 'd'
  {
  }

  lemma AkanValues()
    ensures forall tag :: tag in AkanTags ==> AkanTags[tag] == "ak" && tag[0] != 'd'
  {
  }

  /** A tag's tailoring, by the half of the table it sits in. */
  lemma TagHalves(tag: string)
    ensures tag in DinkaTags ==> tag in LanguageTailorings && LanguageTailorings[tag] == "din"
    ensures tag in AkanTags ==> tag in LanguageTailorings && LanguageTailorings[tag] == "ak"
    ensures tag in LanguageTailorings ==> tag in DinkaTags || tag in AkanTags
  {
    DinkaValues();
    AkanValues();
  }

  /** Each tailoring is selected by its own name. */
  lemma BaseTags()
    ensures forall t :: t in CollationTailorings ==> t in LanguageTailorings && LanguageTailorings[t] == t
    ensures Tailoring("din") == Ok(DINKA_RULES) && Tailoring("ak") == Ok(AKAN_RULES)
  {
    TagHalves("din");
    TagHalves("ak");
  }

  /** Every bare Dinka tag has its South Sudan form. */
  lemma DinkaRegions()
    ensures forall tag :: tag in DinkaTags && Bare(tag) ==> tag + "-SS" in DinkaTags
  {
    forall tag | tag in DinkaTags && Bare(tag)
      ensures tag + "-SS" in DinkaTags
    {
      assert |tag| == 3;
      assert tag + "-SS" == [tag[0], tag[1], tag[2], '-', 'S', 'S'];
    }
  }

  /** Every other Dinka tag is the South Sudan form of a bare one. */
  lemma DinkaBareForms()
    ensures forall tag :: tag in DinkaTags && !Bare(tag) ==>
      exists bare :: bare in DinkaTags && Bare(bare) && tag == bare + "-SS"
  {
    DinkaSuffixed();
    DinkaBare();
    forall tag | tag in DinkaTags && !Bare(tag)
      ensures exists bare :: bare in DinkaTags && Bare(bare) && tag == bare + "-SS"
    {
      DinkaSplit(tag);
      assert tag == tag[..3] + tag[3..];
    }
  }

  /** The Dinka tags with a subtag, listed. */
  lemma DinkaSuffixed()
    ensures forall tag :: tag in DinkaTags && !Bare(tag) ==>
      tag in ["din-SS", "dip-SS", "diw-SS", "dib-SS", "dks-SS", "dik-SS"]
  {
  }

  /** The bare Dinka tags, listed. */
  lemma DinkaBare()
    ensures forall bare :: bare in ["din", "dip", "diw", "dib", "dks", "dik"] ==> bare in DinkaTags && Bare(bare)
  {
  }

  /** A Dinka tag with a subtag is a bare one followed by "-SS". */
  lemma DinkaSplit(tag: string)
    requires tag in ["din-SS", "dip-SS", "diw-SS", "dib-SS", "dks-SS", "dik-SS"]
    ensures |tag| == 6 && tag[3..] == "-SS" && tag[..3] in ["din", "dip", "diw", "dib", "dks", "dik"]
  {
    assert tag[3..] == [tag[3], tag[4], tag[5]];
    assert tag[..3] == [tag[0], tag[1], tag[2]];
  }

  /** Every bare Akan tag has its Ghana form, and every other Akan tag is one. */
  lemma AkanRegions()
    ensures forall tag :: tag in AkanTags && Bare(tag) ==> tag + "-GH" in AkanTags
    ensures forall tag :: tag in AkanTags && !Bare(tag) ==>
      exists bare :: bare in AkanTags && Bare(bare) && tag == bare + "-GH"
  {
    AkanGhanaForms();
    AkanBareForms();
  }

  lemma AkanGhanaForms()
    ensures forall tag :: tag in AkanTags && Bare(tag) ==> tag + "-GH" in AkanTags
  {
    forall tag | tag in AkanTags && Bare(tag)
      ensures tag + "-GH" in AkanTags
    {
      if |tag| == 2 {
        assert tag + "-GH" == [tag[0], tag[1], '-', 'G', 'H'];
      } else {
        assert |tag| == 3;
        assert tag + "-GH" == [tag[0], tag[1], tag[2], '-', 'G', 'H'];
      }
    }
  }

  lemma AkanBareForms()
    ensures forall tag :: tag in AkanTags && !Bare(tag) ==>
      exists bare :: bare in AkanTags && Bare(bare) && tag == bare + "-GH"
  {
    AkanSuffixed();
    AkanBare();
    forall tag | tag in AkanTags && !Bare(tag)
      ensures exists bare :: bare in AkanTags && Bare(bare) && tag == bare + "-GH"
    {
      AkanSplit(tag);
      assert tag == tag[..|tag| - 3] + tag[|tag| - 3..];
    }
  }

  /** The Akan tags with a subtag, listed. */
  lemma AkanSuffixed()
    ensures forall tag :: tag in AkanTags && !Bare(tag) ==> tag in ["ak-GH", "fat-GH", "bon-GH", "tw-GH"]
  {
  }

  /** The bare Akan tags, listed. */
  lemma AkanBare()
    ensures forall bare :: bare in ["ak", "fat", "bon", "tw"] ==> bare in AkanTags && Bare(bare)
  {
  }

  /** An Akan tag with a subtag is a bare one followed by "-GH". */
  lemma AkanSplit(tag: string)
    requires tag in ["ak-GH", "fat-GH", "bon-GH", "tw-GH"]
    ensures |tag| >= 3 && tag[|tag| - 3..] == "-GH" && tag[..|tag| - 3] in ["ak", "fat", "bon", "tw"]
  {
    var n := |tag|;
    assert tag[n - 3..] == [tag[n - 3], tag[n - 2], tag[n - 1]];
    if n == 5 {
      assert tag[..2] == [tag[0], tag[1]];
    } else {
      assert tag[..3] == [tag[0], tag[1], tag[2]];
    }
  }

  /** Every bare tag has its region form, mapped to the same tailoring, and
      every other tag is the region form of a bare tag. */
  lemma RegionForms()
    ensures forall tag :: tag in LanguageTailorings && Bare(tag) ==>
      tag + RegionOf(LanguageTailorings[tag]) in LanguageTailorings &&
      LanguageTailorings[tag + RegionOf(LanguageTailorings[tag])] == LanguageTailorings[tag]
    ensures forall tag :: tag in LanguageTailorings && !Bare(tag) ==>
      exists bare :: bare in LanguageTailorings && Bare(bare) && tag == bare + RegionOf(LanguageTailorings[bare])
  {
    DinkaRegions();
    DinkaBareForms();
    AkanRegions();
    forall tag | tag in LanguageTailorings && Bare(tag)
      ensures tag + RegionOf(LanguageTailorings[tag]) in LanguageTailorings
      ensures LanguageTailorings[tag + RegionOf(LanguageTailorings[tag])] == LanguageTailorings[tag]
    {
      TagHalves(tag);
      if tag in DinkaTags {
        TagHalves(tag + "-SS");
      } else {
        TagHalves(tag + "-GH");
      }
    }
    forall tag | tag in LanguageTailorings && !Bare(tag)
      ensures exists bare :: bare in LanguageTailorings && Bare(bare) && tag == bare + RegionOf(LanguageTailorings[bare])
    {
      TagHalves(tag);
      if tag in DinkaTags {
        var bare :| bare in DinkaTags && Bare(bare) && tag == bare + "-SS";
        TagHalves(bare);
      } else {
        var bare :| bare in AkanTags && Bare(bare) && tag == bare + "-GH";
        TagHalves(bare);
      }
    }
  }

  /** `str.upper()` on the normalisation form's name. Only ASCII letters are
      mapped, whereas Python upper-cases every cased letter; the form names
      unicodedata accepts ("NFC", "NFD", "NFKC", "NFKD") are ASCII, so the two
      differ only on a name that normalisation rejects anyway. */
  function AsciiUpper(t: string): (u: string)
    ensures |u| == |t|
    ensures forall i :: 0 <= i < |t| ==> u[i] == (if 'a' <= t[i] <= 'z' then (t[i] as int - 32) as char else t[i])
  {
    seq(|t|, i requires 0 <= i < |t| => if 'a' <= t[i] <= 'z' then (t[i] as int - 32) as char else t[i])
  }

  /** The `uu` string wrapper. Its text `s` is renormalised at the start of
      every method; `normalize(unf, text)` stands for `normalise`, whose
      Unicode normalisation is not part of this model. */
  class UU {
    var s: Str
    const l: string
    const isTrk: bool
    const unf: string
    const forceSharpS: bool
    const mode: string
    const normalize: (string, Str) -> Str

    /** `uu(s, l, isTrk, unf, forceẞ, mode)`: the form's name is upper-cased
        and the text normalised to it. */
    constructor(s: Str, l: string, isTrk: bool, unf: string, forceSharpS: bool, mode: string,
                normalize: (string, Str) -> Str)
      ensures this.unf == AsciiUpper(unf)
      ensures this.s == normalize(AsciiUpper(unf), s)
      ensures this.l == l && this.isTrk == isTrk && this.forceSharpS == forceSharpS
      ensures this.mode == mode && this.normalize == normalize
    {
      this.isTrk := isTrk;
      this.unf := AsciiUpper(unf);
      this.forceSharpS := forceSharpS;
      this.l := l;
      this.mode := mode;
      this.normalize := normalize;
      this.s := normalize(AsciiUpper(unf), s);
    }

    /** `codepoints()`: renormalises the text, then lists its code points;
        in "console" mode the listing is printed and None returned. The
        listing reads back to the normalised text. */
    method Codepoints() returns (r: Option<Str>)
      modifies this
      ensures s == normalize(unf, old(s))
      ensures r.None? <==> mode == "console"
      ensures r.Some? ==> r.value == TextUtils.Codepoints(s)
      ensures r.Some? ==> ParseCodepoints(r.value) == Some(s)
    {
      s := normalize(unf, s);
      if mode == "console" {
        r := None;
      } else {
        r := Some(TextUtils.Codepoints(s));
        CodepointsRoundTrip(s);
      }
    }
  }
}
