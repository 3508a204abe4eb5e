/** The parts of Python's `str` API that the core relies on, on code-point
    sequences: substring test, `replace`, `strip`, whitespace removal through
    `split`/`join`, and `maketrans`/`translate`. */
module PyStr {
  import opened Unicode

  /** `pat in s`. The empty string occurs in every string. */
  predicate Contains(s: Str, pat: Str)
    decreases |s|
  {
    pat <= s || (s != [] && Contains(s[1..], pat))
  }

  /** `s.replace(pat, rep)`: occurrences are found left to right and do not
      overlap. An empty `pat` matches before every character and at the end. */
  function Replace(s: Str, pat: Str, rep: Str): Str
    decreases |s|
  {
    if pat == [] then Interleave(s, rep)
    else if s == [] then []
    else if pat <= s then rep + Replace(s[|pat|..], pat, rep)
    else [s[0]] + Replace(s[1..], pat, rep)
  }

  /** `sep.join(groups)`. */
  function Join(groups: seq<Str>, sep: Str): Str
    decreases |groups|
  {
    if groups == [] then []
    else if |groups| == 1 then groups[0]
    else groups[0] + sep + Join(groups[1..], sep)
  }

  /** `s.replace("", rep)`: `rep` before every character and at the end. */
  function Interleave(s: Str, rep: Str): Str
    decreases |s|
  {
    if s == [] then rep else rep + [s[0]] + Interleave(s[1..], rep)
  }

  /** Replacing a pattern that does not occur leaves the string unchanged. */
  lemma {:induction false} ReplaceAbsent(s: Str, pat: Str, rep: Str)
    requires !Contains(s, pat)
    ensures Replace(s, pat, rep) == s
    decreases |s|
  {
    if s != [] {
      ReplaceAbsent(s[1..], pat, rep);
    }
  }

  /** `s.replace("", "")` leaves `s` as it is: the empty pattern matches
      everywhere, and nothing is put in its place. */
  lemma {:induction false} ReplaceEmptyByNothing(s: Str)
    ensures Replace(s, [], []) == s
    decreases |s|
  {
    if s != [] {
      ReplaceEmptyByNothing(s[1..]);
      assert Interleave(s, []) == [] + [s[0]] + Interleave(s[1..], []);
    }
  }

  /** A one-character pattern occurs exactly when the character does. */
  lemma {:induction false} ContainsChar(s: Str, c: CodePoint)
    ensures Contains(s, [c]) <==> c in s
    decreases |s|
  {
    if s != [] {
      ContainsChar(s[1..], c);
      assert s == [s[0]] + s[1..];
    }
  }

  /** A one-character pattern is replaced piecewise over a concatenation. */
  lemma {:induction false} ReplaceCharConcat(a: Str, b: Str, c: CodePoint, rep: Str)
    ensures Replace(a + b, [c], rep) == Replace(a, [c], rep) + Replace(b, [c], rep)
    decreases |a|
  {
    if a == [] {
      assert a + b == b;
    } else {
      assert (a + b)[0] == a[0] && (a + b)[1..] == a[1..] + b;
      assert ([c] <= a + b) == ([c] <= a);
      ReplaceCharConcat(a[1..], b, c, rep);
    }
  }

  /** Replacing one character by one character is a per-position map:
      every other character is left as it was. */
  lemma {:induction false} ReplaceCharByChar(s: Str, c: CodePoint, d: CodePoint)
    ensures |Replace(s, [c], [d])| == |s|
    ensures forall i :: 0 <= i < |s| ==> Replace(s, [c], [d])[i] == (if s[i] == c then d else s[i])
    decreases |s|
  {
    if s != [] {
      ReplaceCharByChar(s[1..], c, d);
    }
  }

  /** Deleting a character keeps every other character, in order. */
  lemma {:induction false} ReplaceCharByNothing(s: Str, c: CodePoint)
    ensures c !in Replace(s, [c], [])
    ensures forall x :: x in Replace(s, [c], []) ==> x in s
    ensures c !in s ==> Replace(s, [c], []) == s
    decreases |s|
  {
    if s != [] {
      ReplaceCharByNothing(s[1..], c);
      assert s == [s[0]] + s[1..];
    }
  }

  /** Python's `str.strip()`: leading and trailing whitespace removed. */
  function Strip(s: Str): (r: Str)
    ensures |r| <= |s|
    ensures r != [] ==> !IsSpace(r[0]) && !IsSpace(r[|r| - 1])
  {
    StripEnd(StripStart(s))
  }

  function StripStart(s: Str): (r: Str)
    ensures |r| <= |s| && r == s[|s| - |r|..]
    ensures r != [] ==> !IsSpace(r[0])
    decreases |s|
  {
    if s != [] && IsSpace(s[0]) then StripStart(s[1..]) else s
  }

  function StripEnd(s: Str): (r: Str)
    ensures |r| <= |s| && r == s[..|r|]
    ensures r != [] ==> !IsSpace(r[|r| - 1])
    decreases |s|
  {
    if s != [] && IsSpace(s[|s| - 1]) then StripEnd(s[..|s| - 1]) else s
  }

  /** Stripping a string that neither starts nor ends with whitespace changes nothing. */
  lemma StripUnspaced(s: Str)
    requires s != [] ==> !IsSpace(s[0]) && !IsSpace(s[|s| - 1])
    ensures Strip(s) == s
  {
  }

  /** Stripping only removes characters: what is left was there before. */
  lemma StripIn(s: Str)
    ensures forall c :: c in Strip(s) ==> c in s
  {
    var m := StripStart(s);
    assert forall c :: c in m ==> c in s;
    assert forall c :: c in StripEnd(m) ==> c in m;
  }

  /** `"".join(s.split())`: `split()` cuts at runs of whitespace and drops the
      empty pieces, so joining them back with "" deletes every whitespace character. */
  function RemoveWhitespace(s: Str): (r: Str)
    ensures |r| <= |s|
    ensures forall i :: 0 <= i < |r| ==> !IsSpace(r[i])
    decreases |s|
  {
    if s == [] then []
    else (if IsSpace(s[0]) then [] else [s[0]]) + RemoveWhitespace(s[1..])
  }

  /** `str.maketrans(src, dst)`: the dictionary sending `src[i]` to `dst[i]`;
      a character listed twice keeps its last image, as the dict is built in order. */
  function MakeTrans(src: Str, dst: Str): (t: map<CodePoint, CodePoint>)
    requires |src| == |dst|
    ensures forall c :: c in t <==> c in src
    decreases |src|
  {
    if src == [] then map[]
    else MakeTrans(src[..|src| - 1], dst[..|dst| - 1])[src[|src| - 1] := dst[|dst| - 1]]
  }

  /** With distinct source characters, `maketrans` pairs them by position. */
  lemma {:induction false} MakeTransAt(src: Str, dst: Str, i: nat)
    requires |src| == |dst| && i < |src|
    requires forall j, k :: 0 <= j < k < |src| ==> src[j] != src[k]
    ensures src[i] in MakeTrans(src, dst) && MakeTrans(src, dst)[src[i]] == dst[i]
    decreases |src|
  {
    if i < |src| - 1 {
      MakeTransAt(src[..|src| - 1], dst[..|dst| - 1], i);
    }
  }

  /** `s.translate(t)`: every character that is a key of `t` is replaced by its
      image; all others are copied. */
  function Translate(s: Str, t: map<CodePoint, CodePoint>): (r: Str)
    ensures |r| == |s|
  {
    seq(|s|, i requires 0 <= i < |s| => if s[i] in t then t[s[i]] else s[i])
  }

  /** Translation distributes over concatenation. */
  lemma TranslateConcat(a: Str, b: Str, t: map<CodePoint, CodePoint>)
    ensures Translate(a + b, t) == Translate(a, t) + Translate(b, t)
  {
  }

  /** Translating from digit string `src` to `dst`: a character of `src` becomes the
      character of `dst` at the same position, and every other character is untouched. */
  lemma TranslateDigits(s: Str, src: Str, dst: Str, i: nat)
    requires |src| == |dst| && i < |s|
    requires forall j, k :: 0 <= j < k < |src| ==> src[j] != src[k]
    ensures s[i] !in src ==> Translate(s, MakeTrans(src, dst))[i] == s[i]
    ensures forall j :: 0 <= j < |src| && s[i] == src[j] ==> Translate(s, MakeTrans(src, dst))[i] == dst[j]
  {
    forall j | 0 <= j < |src| && s[i] == src[j]
      ensures Translate(s, MakeTrans(src, dst))[i] == dst[j]
    {
      MakeTransAt(src, dst, j);
    }
  }

  /** Substituting A by B and then B by A restores any string that held no
      character of B, when both digit strings have distinct characters. */
  lemma TranslateRoundTrip(s: Str, a: Str, b: Str)
    requires |a| == |b|
    requires forall j, k :: 0 <= j < k < |a| ==> a[j] != a[k]
    requires forall j, k :: 0 <= j < k < |b| ==> b[j] != b[k]
    requires forall c :: c in s ==> c !in b
    ensures Translate(Translate(s, MakeTrans(a, b)), MakeTrans(b, a)) == s
  {
    var mid := Translate(s, MakeTrans(a, b));
    forall i | 0 <= i < |s|
      ensures Translate(mid, MakeTrans(b, a))[i] == s[i]
    {
      TranslateDigits(s, a, b, i);
      TranslateDigits(mid, b, a, i);
    }
  }

  /** Whitespace removal distributes over concatenation. */
  lemma {:induction false} RemoveWhitespaceConcat(a: Str, b: Str)
    ensures RemoveWhitespace(a + b) == RemoveWhitespace(a) + RemoveWhitespace(b)
    decreases |a|
  {
    if a == [] {
      assert a + b == b;
    } else {
      assert (a + b)[0] == a[0] && (a + b)[1..] == a[1..] + b;
      RemoveWhitespaceConcat(a[1..], b);
    }
  }

  /** Text without whitespace is left as it is. */
  lemma {:induction false} RemoveWhitespaceUnspaced(s: Str)
    requires forall i :: 0 <= i < |s| ==> !IsSpace(s[i])
    ensures RemoveWhitespace(s) == s
    decreases |s|
  {
    if s != [] {
      RemoveWhitespaceUnspaced(s[1..]);
    }
  }

  /** Text with its whitespace deleted has nothing left to strip. */
  lemma StripUnspacedText(s: Str)
    ensures Strip(RemoveWhitespace(s)) == RemoveWhitespace(s)
  {
    StripUnspaced(RemoveWhitespace(s));
  }

  /** Removing whitespace twice is removing it once. */
  lemma RemoveWhitespaceIdempotent(s: Str)
    ensures RemoveWhitespace(RemoveWhitespace(s)) == RemoveWhitespace(s)
  {
    RemoveWhitespaceUnspaced(RemoveWhitespace(s));
  }
}
