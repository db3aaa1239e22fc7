/**
 * The string operations the query tool relies on, as Python performs them on
 * text: `str.lower()`, `str.strip()`, `str.title()` and a literal substring test.
 * Case mapping is restricted to ASCII letters; every other character is left
 * as it is by both case maps.
 */
module Text {

  /** ASCII letter classes. Under `str.title()` these are the "cased" characters. */
  predicate IsUpper(c: char) { 'A' <= c <= 'Z' }
  predicate IsLower(c: char) { 'a' <= c <= 'z' }
  predicate IsLetter(c: char) { IsUpper(c) || IsLower(c) }

  /** The characters Python's `str.strip()` removes when called without arguments. */
  predicate IsSpace(c: char) {
    var n := c as int;
    || 0x09 <= n <= 0x0D
    || 0x1C <= n <= 0x20
    || n == 0x85 || n == 0xA0 || n == 0x1680
    || 0x2000 <= n <= 0x200A
    || n == 0x2028 || n == 0x2029 || n == 0x202F || n == 0x205F || n == 0x3000
  }

  function LowerChar(c: char): (d: char)
    ensures IsLetter(d) == IsLetter(c) && !IsUpper(d)
    ensures !IsUpper(c) ==> d == c
  {
    if IsUpper(c) then (c as int + 32) as char else c
  }

  function UpperChar(c: char): (d: char)
    ensures IsLetter(d) == IsLetter(c) && !IsLower(d)
    ensures !IsLower(c) ==> d == c
  {
    if IsLower(c) then (c as int - 32) as char else c
  }

  /** Applying one case map after another: only the outer one matters. */
  lemma CaseMapsCompose(c: char)
    ensures LowerChar(LowerChar(c)) == LowerChar(c) && LowerChar(UpperChar(c)) == LowerChar(c)
    ensures UpperChar(UpperChar(c)) == UpperChar(c) && UpperChar(LowerChar(c)) == UpperChar(c)
  {
  }

  /** Two characters equal up to case are also equal once upper-cased. */
  lemma SameLowerSameUpper(c: char, d: char)
    requires LowerChar(c) == LowerChar(d)
    ensures UpperChar(c) == UpperChar(d)
  {
    CaseMapsCompose(c);
    CaseMapsCompose(d);
  }

  /** Python `str.lower()`, on ASCII. */
  function Lower(s: string): (r: string)
    ensures |r| == |s|
    ensures forall i :: 0 <= i < |r| ==> !IsUpper(r[i])
    ensures forall i :: 0 <= i < |s| ==>
      if IsUpper(s[i]) then r[i] as int - 'a' as int == s[i] as int - 'A' as int else r[i] == s[i]
  {
    seq(|s|, i requires 0 <= i < |s| => LowerChar(s[i]))
  }

  lemma LowerIdempotent(s: string)
    ensures Lower(Lower(s)) == Lower(s)
  {
    forall i | 0 <= i < |s| ensures Lower(Lower(s))[i] == Lower(s)[i] {
      CaseMapsCompose(s[i]);
    }
  }

  // ---------------------------------------------------------------------------
  // str.strip()

  predicate AllSpace(s: string) {
    forall i :: 0 <= i < |s| ==> IsSpace(s[i])
  }

  /** Neither end of `s` is whitespace. */
  predicate NoOuterSpace(s: string) {
    s == [] || (!IsSpace(s[0]) && !IsSpace(s[|s| - 1]))
  }

  /** `r` is `s` with some whitespace removed from its front and its back only. */
  ghost predicate PaddedBy(s: string, r: string) {
    exists i :: PaddedAt(s, r, i)
  }

  ghost predicate PaddedAt(s: string, r: string, i: int) {
    && 0 <= i <= |s| - |r|
    && s[i..i + |r|] == r
    && AllSpace(s[..i])
    && AllSpace(s[i + |r|..])
  }

  /** The first position at or after `i` that is not whitespace (or the end of `s`). */
  function SkipSpaceForward(s: string, i: nat): (j: nat)
    requires i <= |s|
    ensures i <= j <= |s|
    ensures forall k :: i <= k < j ==> IsSpace(s[k])
    ensures j == |s| || !IsSpace(s[j])
    decreases |s| - i
  {
    if i < |s| && IsSpace(s[i]) then SkipSpaceForward(s, i + 1) else i
  }

  /**
   * Scanning back from `j`, but not below `lo`: the position just after the
   * last character before `j` that is not whitespace.
   */
  function SkipSpaceBackward(s: string, lo: nat, j: nat): (e: nat)
    requires lo <= j <= |s|
    ensures lo <= e <= j
    ensures forall k :: e <= k < j ==> IsSpace(s[k])
    ensures e == lo || !IsSpace(s[e - 1])
  {
    if lo < j && IsSpace(s[j - 1]) then SkipSpaceBackward(s, lo, j - 1) else j
  }

  /** Python `str.strip()`: the whitespace at both ends removed, nothing else touched. */
  function Strip(s: string): (r: string)
    ensures NoOuterSpace(r)
    ensures PaddedBy(s, r)
  {
    var start := SkipSpaceForward(s, 0);
    var end := SkipSpaceBackward(s, start, |s|);
    assert PaddedAt(s, s[start..end], start);
    s[start..end]
  }

  /** The two properties of `Strip` determine its result. */
  lemma StripUnique(s: string, r1: string, r2: string)
    requires NoOuterSpace(r1) && PaddedBy(s, r1)
    requires NoOuterSpace(r2) && PaddedBy(s, r2)
    ensures r1 == r2
  {
    var i1 :| PaddedAt(s, r1, i1);
    var i2 :| PaddedAt(s, r2, i2);
    if r1 == [] || r2 == [] {
      // The whole of s is whitespace, so neither can have a non-space end.
      if r1 != [] {
        NothingButSpace(s, r2, i2, i1);
      } else if r2 != [] {
        NothingButSpace(s, r1, i1, i2);
      }
    } else {
      FirstNonSpace(s, r1, i1, r2, i2);
      FirstNonSpace(s, r2, i2, r1, i1);
      LastNonSpace(s, r1, r2, i1);
      LastNonSpace(s, r2, r1, i1);
      assert r1 == s[i1..i1 + |r1|];
    }
  }

  lemma NothingButSpace(s: string, r: string, i: int, k: int)
    requires PaddedAt(s, r, i) && r == [] && 0 <= k < |s|
    ensures IsSpace(s[k])
  {
    if k < i {
      assert s[..i][k] == s[k];
    } else {
      assert s[i..][k - i] == s[k];
    }
  }

  lemma FirstNonSpace(s: string, r1: string, i1: int, r2: string, i2: int)
    requires PaddedAt(s, r1, i1) && PaddedAt(s, r2, i2)
    requires r1 != [] && r2 != [] && NoOuterSpace(r1)
    ensures i2 <= i1
  {
  }

  lemma LastNonSpace(s: string, r1: string, r2: string, i: int)
    requires PaddedAt(s, r1, i) && PaddedAt(s, r2, i)
    requires r1 != [] && NoOuterSpace(r1)
    ensures |r1| <= |r2|
  {
  }

  /** Stripping a string that has no outer whitespace gives it back. */
  lemma StripKeepsTrimmed(s: string)
    requires NoOuterSpace(s)
    ensures Strip(s) == s
  {
    assert PaddedAt(s, s, 0);
    StripUnique(s, Strip(s), s);
  }

  lemma StripIdempotent(s: string)
    ensures Strip(Strip(s)) == Strip(s)
  {
    StripKeepsTrimmed(Strip(s));
  }

  lemma StripExample()
    ensures Strip(" company ") == "company"
  {
    assert PaddedAt(" company ", "company", 1) by {
      assert " company "[1..8] == "company";
      assert AllSpace(" company "[..1]);
      assert AllSpace(" company "[8..]);
    }
    assert NoOuterSpace("company");
    StripUnique(" company ", Strip(" company "), "company");
  }

  // ---------------------------------------------------------------------------
  // str.title()

  /**
   * The scan Python's `str.title()` performs: a cased character is lower-cased
   * when the character before it (in the original) was cased, and title-cased
   * (upper-cased, for ASCII) otherwise.
   */
  function TitleFrom(s: string, previousCased: bool): (r: string)
    ensures |r| == |s|
  {
    if s == [] then []
    else [if previousCased then LowerChar(s[0]) else UpperChar(s[0])] + TitleFrom(s[1..], IsLetter(s[0]))
  }

  function TitleCase(s: string): (r: string)
    ensures |r| == |s|
  {
    TitleFrom(s, false)
  }

  lemma {:induction false} TitleFromAt(s: string, previousCased: bool, i: int)
    requires 0 <= i < |s|
    ensures TitleFrom(s, previousCased)[i] ==
      if (if i == 0 then previousCased else IsLetter(s[i - 1])) then LowerChar(s[i]) else UpperChar(s[i])
  {
    if i > 0 {
      TitleFromAt(s[1..], IsLetter(s[0]), i - 1);
    }
  }

  /** A letter is upper-cased exactly when it starts a run of letters; everything else is kept. */
  lemma TitleCaseAt(s: string, i: int)
    requires 0 <= i < |s|
    ensures TitleCase(s)[i] == if i > 0 && IsLetter(s[i - 1]) then LowerChar(s[i]) else UpperChar(s[i])
  {
    TitleFromAt(s, false, i);
  }

  /** A letter after a digit starts a new word. */
  lemma TitleCaseExample()
    ensures TitleCase("keyword1a") == "Keyword1A"
  {
    forall i | 0 <= i < 9 ensures TitleCase("keyword1a")[i] == "Keyword1A"[i] {
      TitleCaseAt("keyword1a", i);
    }
  }

  /** Title-casing changes case only: lower-casing cannot tell the result from the input. */
  lemma TitleCaseLower(s: string)
    ensures Lower(TitleCase(s)) == Lower(s)
  {
    forall i | 0 <= i < |s| ensures Lower(TitleCase(s))[i] == Lower(s)[i] {
      TitleCaseAt(s, i);
      CaseMapsCompose(s[i]);
    }
  }

  /** Letters stay letters and whitespace stays whitespace. */
  lemma TitleCaseKeepsClasses(s: string, i: int)
    requires 0 <= i < |s|
    ensures IsLetter(TitleCase(s)[i]) == IsLetter(s[i])
    ensures IsSpace(TitleCase(s)[i]) == IsSpace(s[i])
  {
    TitleCaseAt(s, i);
  }

  lemma TitleCaseIdempotent(s: string)
    ensures TitleCase(TitleCase(s)) == TitleCase(s)
  {
    var t := TitleCase(s);
    forall i | 0 <= i < |s| ensures TitleCase(t)[i] == t[i] {
      TitleCaseAt(t, i);
      TitleCaseAt(s, i);
      CaseMapsCompose(s[i]);
      if i > 0 {
        TitleCaseKeepsClasses(s, i - 1);
      }
    }
  }

  /** Two strings have the same title-cased form exactly when they are equal up to case. */
  lemma TitleCaseEqualIff(a: string, b: string)
    ensures TitleCase(a) == TitleCase(b) <==> Lower(a) == Lower(b)
  {
    TitleCaseLower(a);
    TitleCaseLower(b);
    if Lower(a) == Lower(b) {
      forall i | 0 <= i < |a| ensures TitleCase(a)[i] == TitleCase(b)[i] {
        TitleCaseAt(a, i);
        TitleCaseAt(b, i);
        assert Lower(a)[i] == Lower(b)[i];
        SameLowerSameUpper(a[i], b[i]);
        if i > 0 {
          assert Lower(a)[i - 1] == Lower(b)[i - 1];
        }
      }
    }
  }

  lemma TitleCaseKeepsTrimmed(s: string)
    requires NoOuterSpace(s)
    ensures NoOuterSpace(TitleCase(s))
  {
    if s != [] {
      TitleCaseKeepsClasses(s, 0);
      TitleCaseKeepsClasses(s, |s| - 1);
    }
  }

  // ---------------------------------------------------------------------------
  // Literal substring test

  predicate StartsWith(s: string, prefix: string) {
    |prefix| <= |s| && s[..|prefix|] == prefix
  }

  /** `needle in hay`: a literal substring test, scanning the start positions of `hay`. */
  function Contains(hay: string, needle: string): (b: bool)
    ensures needle == [] ==> b
    ensures b ==> |needle| <= |hay|
  {
    StartsWith(hay, needle) || (hay != [] && Contains(hay[1..], needle))
  }

  /** `needle` appears in `hay` at some position. */
  ghost predicate Occurs(needle: string, hay: string) {
    exists j :: OccursAt(needle, hay, j)
  }

  ghost predicate OccursAt(needle: string, hay: string, j: int) {
    0 <= j <= |hay| - |needle| && hay[j..j + |needle|] == needle
  }

  lemma TailSlice(s: string, j: int, n: int)
    requires 0 <= j && 0 <= n && j + n < |s|
    ensures s[1..][j..j + n] == s[j + 1..j + 1 + n]
  {
    var a, b := s[1..][j..j + n], s[j + 1..j + 1 + n];
    forall k | 0 <= k < n ensures a[k] == b[k] {
      assert s[1..][j + k] == s[j + 1 + k];
    }
  }

  lemma {:induction false} ContainsOccurs(hay: string, needle: string)
    ensures Contains(hay, needle) <==> Occurs(needle, hay)
  {
    if StartsWith(hay, needle) {
      assert OccursAt(needle, hay, 0);
    } else if hay == [] {
    } else {
      ContainsOccurs(hay[1..], needle);
      if Contains(hay[1..], needle) {
        var j :| OccursAt(needle, hay[1..], j);
        TailSlice(hay, j, |needle|);
        assert OccursAt(needle, hay, j + 1);
      }
      if Occurs(needle, hay) {
        var j :| OccursAt(needle, hay, j);
        assert j != 0;
        TailSlice(hay, j - 1, |needle|);
        assert OccursAt(needle, hay[1..], j - 1);
      }
    }
  }
}
