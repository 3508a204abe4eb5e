/** What `locale.format_string(fmt, n, grouping=True, monetary=True)` does
    under the en_US locale with `fmt` '%d' or '%0.Nf': the printf text, whose
    integer part `locale._group` cuts into groups of three digits from the
    right, joined with ','. The decimal point stays '.'. */
module Grouping {
  import opened Wrappers
  import opened Unicode
  import opened PyStr
  import opened Numbers
  import opened Decoder

  /** The digit run `ds` with ',' between groups of three digits counted
      from the right. */
  function Grouped(ds: Str): Str
    decreases |ds|
  {
    if |ds| <= 3 then ds else Grouped(ds[..|ds| - 3]) + ([COMMA] + ds[|ds| - 3..])
  }

  /** Two pieces joined with ',' where both are non-empty. */
  ghost function Link(a: Str, b: Str): Str {
    if a == [] then b else if b == [] then a else a + [COMMA] + b
  }

  /** `locale._group(s, monetary=True)` for en_US (groups of 3, separator ','),
      given the text of a signed digit run. While the text left ends in a digit,
      its last three characters (fewer at the start) become a group; the
      remainder, the sign, is kept in front of the joined groups. */
  method Group(s: Str, ghost neg: bool, ghost ds: Str) returns (r: Str)
    requires s == SignText(neg) + ds && ds != [] && AllLatinDigits(ds)
    ensures r == SignText(neg) + Grouped(ds)
  {
    var rest := s;
    var groups: seq<Str> := [];
    assert ds[..|s| - |SignText(neg)|] == ds;
    while rest != [] && IsLatinDigit(rest[|rest| - 1])
      invariant GroupInv(neg, ds, rest, groups)
      decreases |rest|
    {
      var cut := if |rest| >= 3 then |rest| - 3 else 0;
      GroupPass(neg, ds, rest, groups, cut);
      groups := [rest[cut..]] + groups;
      rest := rest[..cut];
    }
    GroupExit(neg, ds, rest, groups);
    r := rest + Join(groups, [COMMA]);
  }

  /** What the grouping loop keeps: the text left is a prefix of the input,
      the groups cut so far are non-empty, and joined they complete the
      grouping of the digits left (or, once the sign has gone with the first
      group, they are the whole result). */
  ghost predicate GroupInv(neg: bool, ds: Str, rest: Str, groups: seq<Str>) {
    && |rest| <= |SignText(neg) + ds| && rest == (SignText(neg) + ds)[..|rest|]
    && (forall g :: g in groups ==> g != [])
    && (|rest| >= |SignText(neg)| ==>
          Grouped(ds) == Link(Grouped(ds[..|rest| - |SignText(neg)|]), Join(groups, [COMMA])))
    && (|rest| < |SignText(neg)| ==> rest == [] && Join(groups, [COMMA]) == SignText(neg) + Grouped(ds))
  }

  /** One pass of the loop keeps its invariant. */
  lemma GroupPass(neg: bool, ds: Str, rest: Str, groups: seq<Str>, cut: nat)
    requires AllLatinDigits(ds) && GroupInv(neg, ds, rest, groups)
    requires rest != [] && IsLatinDigit(rest[|rest| - 1])
    requires cut == if |rest| >= 3 then |rest| - 3 else 0
    ensures cut < |rest| && GroupInv(neg, ds, rest[..cut], [rest[cut..]] + groups)
  {
    var sign, tail := SignText(neg), Join(groups, [COMMA]);
    var rest', groups' := rest[..cut], [rest[cut..]] + groups;
    GroupStep(neg, ds, rest, cut, tail);
    assert Join(groups', [COMMA]) == Link(rest[cut..], tail) by {
      JoinCons(rest[cut..], groups);
    }
    PrefixOfPrefix(sign + ds, rest, cut);
    assert forall g :: g in groups' ==> g != [];
    assert |rest'| == cut;
    if cut >= |sign| {
      calc {
        Grouped(ds);
        == Link(Grouped(ds[..cut - |sign|]), Link(rest[cut..], tail));
        == Link(Grouped(ds[..cut - |sign|]), Join(groups', [COMMA]));
      }
    } else {
      calc {
        Join(groups', [COMMA]);
        == Link(rest[cut..], tail);
        == sign + Grouped(ds);
      }
    }
  }

  /** A prefix of a prefix is a prefix. */
  lemma PrefixOfPrefix(a: Str, b: Str, n: nat)
    requires |b| <= |a| && b == a[..|b|] && n <= |b|
    ensures b[..n] == a[..n]
  {
  }

  /** When the loop stops, the text left is the sign, or nothing when the
      sign went with the first group. */
  lemma GroupExit(neg: bool, ds: Str, rest: Str, groups: seq<Str>)
    requires AllLatinDigits(ds) && GroupInv(neg, ds, rest, groups)
    requires !(rest != [] && IsLatinDigit(rest[|rest| - 1]))
    ensures rest + Join(groups, [COMMA]) == SignText(neg) + Grouped(ds)
  {
    if rest != [] {
      SignedDigitAt(neg, ds, |rest| - 1);
    }
    if |rest| >= |SignText(neg)| {
      assert rest == SignText(neg) && ds[..0] == [];
    }
  }

  /** One pass of the grouping loop: cutting the last (up to) three characters
      off the text left keeps the grouping invariant. */
  lemma GroupStep(neg: bool, ds: Str, rest: Str, cut: nat, tail: Str)
    requires AllLatinDigits(ds) && |rest| <= |SignText(neg) + ds| && rest == (SignText(neg) + ds)[..|rest|]
    requires rest != [] && IsLatinDigit(rest[|rest| - 1])
    requires cut == if |rest| >= 3 then |rest| - 3 else 0
    requires Grouped(ds) == Link(Grouped(ds[..|rest| - |SignText(neg)|]), tail)
    ensures rest[cut..] != []
    ensures cut >= |SignText(neg)| ==>
      Grouped(ds) == Link(Grouped(ds[..cut - |SignText(neg)|]), Link(rest[cut..], tail))
    ensures cut < |SignText(neg)| ==> cut == 0 && Link(rest[cut..], tail) == SignText(neg) + Grouped(ds)
  {
    var sign := SignText(neg);
    SignedDigitAt(neg, ds, |rest| - 1);
    assert |sign| < |rest|;
    if |rest| - |sign| >= 3 {
      assert cut == |rest| - 3;
      GroupStepFull(sign, ds, rest, tail);
    } else {
      assert cut == 0;
      GroupStepHead(sign, ds, rest, tail);
      assert ds[..0] == [];
    }
  }

  /** The loop cuts a whole group of three digits. */
  lemma GroupStepFull(sign: Str, ds: Str, rest: Str, tail: Str)
    requires |sign| <= |rest| <= |sign + ds| && rest == (sign + ds)[..|rest|] && |rest| - |sign| >= 3
    requires Grouped(ds) == Link(Grouped(ds[..|rest| - |sign|]), tail)
    ensures rest[|rest| - 3..] != []
    ensures Grouped(ds) == Link(Grouped(ds[..|rest| - 3 - |sign|]), Link(rest[|rest| - 3..], tail))
  {
    var k := |rest| - |sign|;
    assert rest[|rest| - 3..] == ds[k - 3..k] by {
      PrefixOfPrefix(sign + ds, rest, |rest|);
      SignedSlice(sign, ds, |rest| - 3, |rest|);
    }
    GroupedCutLink(ds, k, tail);
  }

  /** Cutting the last three digits off a grouped prefix moves them into the
      linked tail. */
  lemma GroupedCutLink(ds: Str, k: nat, tail: Str)
    requires 3 <= k <= |ds| && Grouped(ds) == Link(Grouped(ds[..k]), tail)
    ensures Grouped(ds) == Link(Grouped(ds[..k - 3]), Link(ds[k - 3..k], tail))
  {
    GroupedCut(ds, k);
    LinkAssoc(Grouped(ds[..k - 3]), ds[k - 3..k], tail);
  }

  /** A slice past the sign is a slice of the digits. */
  lemma SignedSlice(sign: Str, ds: Str, i: nat, j: nat)
    requires |sign| <= i <= j <= |sign + ds|
    ensures (sign + ds)[i..j] == ds[i - |sign|..j - |sign|]
  {
  }

  /** The loop cuts the leading group, of fewer than three digits, together
      with the sign. */
  lemma GroupStepHead(sign: Str, ds: Str, rest: Str, tail: Str)
    requires |sign| <= 1 && |sign| < |rest| <= |sign + ds| && rest == (sign + ds)[..|rest|] && |rest| - |sign| < 3
    requires Grouped(ds) == Link(Grouped(ds[..|rest| - |sign|]), tail)
    ensures |rest| >= 3 ==> |rest| - 3 == 0
    ensures rest != [] && Link(rest, tail) == sign + Grouped(ds)
  {
    var a := ds[..|rest| - |sign|];
    calc {
      Link(rest, tail);
      == { assert rest == sign + a; }
      Link(sign + a, tail);
      == { LinkSigned(sign, a, tail); }
      sign + Link(a, tail);
      == { assert Grouped(a) == a; }
      sign + Link(Grouped(a), tail);
      == sign + Grouped(ds);
    }
  }

  /** A sign in front of the first piece stays in front. */
  lemma LinkSigned(sign: Str, a: Str, b: Str)
    requires a != []
    ensures Link(sign + a, b) == sign + Link(a, b)
  {
    if b != [] {
      assert sign + a + [COMMA] + b == sign + (a + [COMMA] + b);
    }
  }

  /** In the text of a signed digit run, the characters that are digits are
      exactly those after the sign. */
  lemma SignedDigitAt(neg: bool, ds: Str, i: nat)
    requires AllLatinDigits(ds) && i < |SignText(neg) + ds|
    ensures IsLatinDigit((SignText(neg) + ds)[i]) <==> i >= |SignText(neg)|
  {
  }

  /** Putting a non-empty group in front of the list. */
  lemma JoinCons(c: Str, groups: seq<Str>)
    requires c != [] && forall g :: g in groups ==> g != []
    ensures Join([c] + groups, [COMMA]) == Link(c, Join(groups, [COMMA]))
  {
    if groups != [] {
      assert ([c] + groups)[1..] == groups;
      assert groups[0] in groups;
    }
  }

  /** The last group of three is split off the grouping of a longer prefix. */
  lemma GroupedCut(ds: Str, k: nat)
    requires 3 <= k <= |ds|
    ensures Grouped(ds[..k]) == Link(Grouped(ds[..k - 3]), ds[k - 3..k])
  {
    var p := ds[..k];
    assert p[..|p| - 3] == ds[..k - 3] && p[|p| - 3..] == ds[k - 3..k];
    if k > 3 {
      GroupedNonEmpty(ds[..k - 3]);
    } else {
      assert ds[..0] == [];
    }
  }

  lemma GroupedNonEmpty(ds: Str)
    requires ds != []
    ensures Grouped(ds) != []
  {
  }

  lemma LinkAssoc(a: Str, c: Str, b: Str)
    requires c != []
    ensures Link(Link(a, c), b) == Link(a, Link(c, b))
  {
  }

  /** The grouping of a digit run holds only its digits and commas, starts and
      ends with a digit of it, and deleting the commas gives the run back. */
  lemma Ungroup(ds: Str)
    requires AllLatinDigits(ds)
    ensures Replace(Grouped(ds), [COMMA], []) == ds
    ensures forall i :: 0 <= i < |Grouped(ds)| ==> Grouped(ds)[i] == COMMA || IsLatinDigit(Grouped(ds)[i])
    ensures ds != [] ==> Grouped(ds)[0] == ds[0] && Grouped(ds)[|Grouped(ds)| - 1] == ds[|ds| - 1]
  {
    UngroupRemove(ds);
    UngroupChars(ds);
    if ds != [] {
      UngroupEnds(ds);
    }
  }

  lemma {:induction false} UngroupRemove(ds: Str)
    requires AllLatinDigits(ds)
    ensures Replace(Grouped(ds), [COMMA], []) == ds
    decreases |ds|
  {
    if |ds| <= 3 {
      NoCommaIn(ds);
    } else {
      var p, t := ds[..|ds| - 3], ds[|ds| - 3..];
      UngroupRemove(p);
      assert COMMA !in t;
      assert Grouped(ds) == Grouped(p) + ([COMMA] + t);
      CharRemovedAfter(Grouped(p), p, COMMA, t);
      assert p + t == ds;
    }
  }

  /** Deleting a character from a text, that character and a text without it. */
  lemma CharRemovedAfter(g: Str, p: Str, c: CodePoint, t: Str)
    requires Replace(g, [c], []) == p && c !in t
    ensures Replace(g + ([c] + t), [c], []) == p + t
  {
    var x := [c] + t;
    assert Replace(x, [c], []) == t by {
      ReplaceCharConcat([c], t, c, []);
      assert Replace([c], [c], []) == [];
      ReplaceCharByNothing(t, c);
      assert [] + t == t;
    }
    ReplaceCharConcat(g, x, c, []);
  }

  lemma {:induction false} UngroupChars(ds: Str)
    requires AllLatinDigits(ds)
    ensures forall i :: 0 <= i < |Grouped(ds)| ==> Grouped(ds)[i] == COMMA || IsLatinDigit(Grouped(ds)[i])
    decreases |ds|
  {
    if |ds| > 3 {
      var p, t := ds[..|ds| - 3], ds[|ds| - 3..];
      UngroupChars(p);
      var g := Grouped(p);
      assert Grouped(ds) == g + ([COMMA] + t);
      forall i | 0 <= i < |Grouped(ds)| ensures Grouped(ds)[i] == COMMA || IsLatinDigit(Grouped(ds)[i]) {
        if i < |g| {
          assert Grouped(ds)[i] == g[i];
        } else if i > |g| {
          assert Grouped(ds)[i] == t[i - |g| - 1];
        }
      }
    }
  }

  lemma {:induction false} UngroupEnds(ds: Str)
    requires ds != []
    ensures Grouped(ds)[0] == ds[0] && Grouped(ds)[|Grouped(ds)| - 1] == ds[|ds| - 1]
    decreases |ds|
  {
    if |ds| > 3 {
      var p := ds[..|ds| - 3];
      UngroupEnds(p);
      GroupedNonEmpty(p);
    }
  }

  /** A digit run holds no comma, so deleting commas leaves it alone. */
  lemma NoCommaIn(ds: Str)
    requires AllLatinDigits(ds)
    ensures Replace(ds, [COMMA], []) == ds
  {
    ContainsChar(ds, COMMA);
    ReplaceAbsent(ds, [COMMA], []);
  }

  /** Commas stand exactly where the distance to the end of the text is a
      multiple of four: the first group has one to three digits and every
      later group three. */
  lemma {:induction false} GroupedLayout(ds: Str)
    requires AllLatinDigits(ds)
    ensures forall i :: 0 <= i < |Grouped(ds)| ==> (Grouped(ds)[i] == COMMA <==> (|Grouped(ds)| - i) % 4 == 0)
    decreases |ds|
  {
    if |ds| > 3 {
      var p := ds[..|ds| - 3];
      GroupedLayout(p);
      assert Grouped(ds) == Grouped(p) + ([COMMA] + ds[|ds| - 3..]);
      LayoutStep(Grouped(p), ds[|ds| - 3..]);
    }
  }

  /** A comma and three digits after text laid out that way keep the layout. */
  lemma LayoutStep(g: Str, t: Str)
    requires forall i :: 0 <= i < |g| ==> (g[i] == COMMA <==> (|g| - i) % 4 == 0)
    requires |t| == 3 && AllLatinDigits(t)
    ensures var r := g + ([COMMA] + t);
      forall i :: 0 <= i < |r| ==> (r[i] == COMMA <==> (|r| - i) % 4 == 0)
  {
    var r := g + ([COMMA] + t);
    forall i | 0 <= i < |r| ensures r[i] == COMMA <==> (|r| - i) % 4 == 0 {
      if i < |g| {
        assert r[i] == g[i] && |r| - i == (|g| - i) + 4;
        assert (|r| - i) % 4 == (|g| - i) % 4;
      } else if i > |g| {
        assert r[i] == t[i - |g| - 1];
        assert 1 <= |r| - i <= 3;
      } else {
        assert |r| - i == 4;
      }
    }
  }

  /** The grouping adds one comma per complete group of three after the first. */
  lemma {:induction false} GroupedLength(ds: Str)
    requires ds != []
    ensures |Grouped(ds)| == |ds| + (|ds| - 1) / 3
    decreases |ds|
  {
    if |ds| > 3 {
      GroupedLength(ds[..|ds| - 3]);
    }
  }

  /** `locale.format_string(fmt, n, grouping=True, monetary=True)` under en_US,
      with `fmt` chosen as the renderers choose it: '%0.Nf' (N = `places`) for a
      float, '%d' otherwise. The sign, then the integer digits grouped, then for
      N > 0 the point and exactly N decimals of the rounded value. Formatting a
      str with '%d' raises TypeError. */
  function Localized(n: Value, places: nat): (r: Result<Str>)
    ensures r.Raise? <==> n.Text?
    ensures r.Raise? ==> r == Raise(TypeError)
  {
    match n
    case Text(_) => Raise(TypeError)
    case Int(i) => Ok(LocalizedText(i < 0, DecimalDigits(Magnitude(i)), 0))
    case Float(x) => Ok(LocalizedText(x.neg, ZeroPad(DecimalDigits(RoundTo(x, places)), places + 1), places))
  }

  /** A signed digit run shown with its last `places` digits as decimals:
      the sign, the grouped integer digits, then '.' and the decimals. */
  function LocalizedText(neg: bool, ds: Str, places: nat): Str
    requires places < |ds|
  {
    SignText(neg) + Grouped(ds[..|ds| - places]) + (if places == 0 then [] else [FULL_STOP] + ds[|ds| - places..])
  }

  /** `locale.format_string`: the printf text, '%d' or '%0.Nf', then
      `locale._localize` on it. */
  method FormatString(n: Value, places: nat) returns (r: Result<Str>)
    ensures r == Localized(n, places)
  {
    match n {
      case Text(_) =>
        r := Raise(TypeError);
      case Int(i) =>
        PercentDLayout(i);
        var t := Localize(PercentD(i), i < 0, DecimalDigits(Magnitude(i)), 0);
        r := Ok(t);
      case Float(x) =>
        ghost var ds := ZeroPad(DecimalDigits(RoundTo(x, places)), places + 1);
        ZeroPadValue(DecimalDigits(RoundTo(x, places)), places + 1);
        var t := Localize(PercentF(x, places), x.neg, ds, places);
        r := Ok(t);
    }
  }

  /** `locale._localize(formatted, grouping=True, monetary=True)` on printf
      text of a signed digit run with a '.' before its last `places` digits
      (none when `places` is 0): the text is split at its '.', and the part
      before it goes through `_group`. `_strip_padding` has nothing to strip,
      since the formats carry no width. */
  method Localize(formatted: Str, ghost neg: bool, ghost ds: Str, ghost places: nat) returns (r: Str)
    requires AllLatinDigits(ds) && places < |ds|
    requires formatted == SignText(neg) + PointAt(ds, places)
    ensures r == LocalizedText(neg, ds, places)
  {
    if FULL_STOP in formatted {
      ghost var w := ds[..|ds| - places];
      PointedCase(neg, ds, places);
      var i := FirstIndex(formatted, FULL_STOP);
      var whole := Group(formatted[..i], neg, w);
      r := whole + ([FULL_STOP] + formatted[i + 1..]);
    } else {
      UnpointedCase(neg, ds, places);
      r := Group(formatted, neg, ds);
    }
  }

  /** Printf text with a '.' has its point before the last `places` digits. */
  lemma PointedCase(neg: bool, ds: Str, places: nat)
    requires AllLatinDigits(ds) && places < |ds|
    requires FULL_STOP in SignText(neg) + PointAt(ds, places)
    ensures ds[..|ds| - places] != [] && AllLatinDigits(ds[..|ds| - places])
    ensures var t := SignText(neg) + PointAt(ds, places);
      places > 0 && t[..FirstIndex(t, FULL_STOP)] == SignText(neg) + ds[..|ds| - places]
      && t[FirstIndex(t, FULL_STOP) + 1..] == ds[|ds| - places..]
      && LocalizedText(neg, ds, places) == SignText(neg) + Grouped(ds[..|ds| - places]) + ([FULL_STOP] + ds[|ds| - places..])
  {
    if places == 0 {
      NoPointIn(neg, ds);
    } else {
      PointPosition(neg, ds, places);
      DigitsPrefix(ds, |ds| - places);
    }
  }

  /** A non-empty prefix of a digit run is a digit run. */
  lemma DigitsPrefix(ds: Str, n: nat)
    requires AllLatinDigits(ds) && 0 < n <= |ds|
    ensures ds[..n] != [] && AllLatinDigits(ds[..n])
  {
  }

  /** Printf text without a '.' is the whole signed digit run. */
  lemma UnpointedCase(neg: bool, ds: Str, places: nat)
    requires AllLatinDigits(ds) && places < |ds|
    requires FULL_STOP !in SignText(neg) + PointAt(ds, places)
    ensures places == 0 && SignText(neg) + PointAt(ds, places) == SignText(neg) + ds
    ensures LocalizedText(neg, ds, places) == SignText(neg) + Grouped(ds)
  {
    if places > 0 {
      PointPosition(neg, ds, places);
    }
    assert ds[..|ds| - 0] == ds;
  }

  /** The absolute value of an int. */
  function Magnitude(i: int): (m: nat)
    ensures m == i || m == 0 - i
  {
    if i < 0 then 0 - i else i
  }

  /** '%d' text is the sign and the digits of the magnitude, with no point. */
  lemma PercentDLayout(i: int)
    ensures PercentD(i) == SignText(i < 0) + PointAt(DecimalDigits(Magnitude(i)), 0)
    ensures var ds := DecimalDigits(Magnitude(i)); ds[..|ds| - 0] == ds
  {
  }

  /** The text of a signed digit run has no '.'. */
  lemma NoPointIn(neg: bool, ds: Str)
    requires AllLatinDigits(ds)
    ensures FULL_STOP !in SignText(neg) + ds
  {
  }

  /** In '%0.Nf' text with N > 0, the first '.' is the one before the last N digits. */
  lemma PointPosition(neg: bool, ds: Str, places: nat)
    requires AllLatinDigits(ds) && 0 < places < |ds|
    ensures var t := SignText(neg) + PointAt(ds, places);
      FULL_STOP in t && FirstIndex(t, FULL_STOP) == |SignText(neg)| + |ds| - places
      && t[..FirstIndex(t, FULL_STOP)] == SignText(neg) + ds[..|ds| - places]
      && t[FirstIndex(t, FULL_STOP) + 1..] == ds[|ds| - places..]
  {
    var whole, frac := ds[..|ds| - places], ds[|ds| - places..];
    calc {
      SignText(neg) + PointAt(ds, places);
      == SignText(neg) + (whole + ([FULL_STOP] + frac));
      == (SignText(neg) + whole) + ([FULL_STOP] + frac);
    }
    NoPointIn(neg, whole);
    PointSplit(SignText(neg) + PointAt(ds, places), SignText(neg) + whole, frac);
  }

  /** The first '.' of a text with none before a given one is that one. */
  lemma PointSplit(t: Str, a: Str, f: Str)
    requires t == a + ([FULL_STOP] + f) && FULL_STOP !in a
    ensures FULL_STOP in t && FirstIndex(t, FULL_STOP) == |a|
      && t[..FirstIndex(t, FULL_STOP)] == a && t[FirstIndex(t, FULL_STOP) + 1..] == f
  {
    assert t[|a|] == FULL_STOP && t[..|a|] == a && t[|a| + 1..] == f;
    FirstIndexAt(t, FULL_STOP, |a|);
  }

  /** Deleting the commas from the grouped text of an int gives the '%d'
      text back. */
  lemma LocalizedUngroupInt(i: int, places: nat)
    ensures Replace(Localized(Int(i), places).value, [COMMA], []) == PercentD(i)
  {
    PercentDLayout(i);
    UngroupText(i < 0, DecimalDigits(Magnitude(i)), 0);
  }

  /** ... which `int` reads as the same int. */
  lemma LocalizedReadsBackInt(i: int, places: nat)
    ensures PyInt(Replace(Localized(Int(i), places).value, [COMMA], [])) == Ok(i)
  {
    LocalizedUngroupInt(i, places);
    PercentDRoundTrip(i);
  }

  /** Deleting the commas from the grouped text of a float gives the '%0.Nf'
      text back. */
  lemma LocalizedUngroupFloat(x: Fixed, places: nat)
    ensures Replace(Localized(Float(x), places).value, [COMMA], []) == PercentF(x, places)
  {
    ZeroPadValue(DecimalDigits(RoundTo(x, places)), places + 1);
    UngroupText(x.neg, ZeroPad(DecimalDigits(RoundTo(x, places)), places + 1), places);
  }

  /** ... which `float` reads as the value rounded to N decimals. */
  lemma LocalizedReadsBackFloat(x: Fixed, places: nat)
    ensures PyFloat(Replace(Localized(Float(x), places).value, [COMMA], [])) == Ok(Fixed(x.neg, RoundTo(x, places), places))
  {
    LocalizedUngroupFloat(x, places);
    PercentFRoundTrip(x.neg, RoundTo(x, places), places);
  }

  /** Deleting the commas from a localized signed digit run gives the printf
      layout back. */
  lemma UngroupText(neg: bool, ds: Str, places: nat)
    requires AllLatinDigits(ds) && places < |ds|
    ensures Replace(LocalizedText(neg, ds, places), [COMMA], []) == SignText(neg) + PointAt(ds, places)
  {
    if places == 0 {
      UngroupWhole(neg, ds, places);
    } else {
      UngroupFraction(neg, ds, places);
    }
  }

  lemma UngroupWhole(neg: bool, ds: Str, places: nat)
    requires AllLatinDigits(ds) && places == 0 && places < |ds|
    ensures Replace(LocalizedText(neg, ds, places), [COMMA], []) == SignText(neg) + PointAt(ds, places)
  {
    assert ds[..|ds| - places] == ds;
    assert LocalizedText(neg, ds, places) == SignText(neg) + Grouped(ds);
    UngroupSigned(neg, ds);
  }

  lemma UngroupFraction(neg: bool, ds: Str, places: nat)
    requires AllLatinDigits(ds) && 0 < places < |ds|
    ensures Replace(LocalizedText(neg, ds, places), [COMMA], []) == SignText(neg) + PointAt(ds, places)
  {
    var w, f := ds[..|ds| - places], ds[|ds| - places..];
    FractionLayout(neg, ds, places);
    UngroupPointed(SignText(neg) + Grouped(w), f);
    UngroupSigned(neg, w);
  }

  lemma FractionLayout(neg: bool, ds: Str, places: nat)
    requires 0 < places < |ds|
    ensures var w, f := ds[..|ds| - places], ds[|ds| - places..];
      LocalizedText(neg, ds, places) == (SignText(neg) + Grouped(w)) + ([FULL_STOP] + f)
      && SignText(neg) + PointAt(ds, places) == (SignText(neg) + w) + ([FULL_STOP] + f)
  {
  }

  /** Deleting the commas from a signed grouped run leaves the sign and the digits. */
  lemma UngroupSigned(neg: bool, ds: Str)
    requires AllLatinDigits(ds)
    ensures Replace(SignText(neg) + Grouped(ds), [COMMA], []) == SignText(neg) + ds
  {
    Ungroup(ds);
    ReplaceCharConcat(SignText(neg), Grouped(ds), COMMA, []);
    assert Replace(SignText(neg), [COMMA], []) == SignText(neg);
  }

  lemma UngroupPointed(a: Str, f: Str)
    requires AllLatinDigits(f)
    ensures Replace(a + ([FULL_STOP] + f), [COMMA], []) == Replace(a, [COMMA], []) + ([FULL_STOP] + f)
  {
    NoCommaIn(f);
    ReplaceCharConcat(a, [FULL_STOP] + f, COMMA, []);
    ReplaceCharConcat([FULL_STOP], f, COMMA, []);
    assert Replace([FULL_STOP], [COMMA], []) == [FULL_STOP];
  }
}
