/** The two string operations of Python that the record normaliser applies:
    str.strip() with no argument and str.title(). */
module Text {

  /** The characters Python's str.isspace() accepts, which str.strip() removes. */
  predicate IsSpace(c: char)
  {
    '\t' <= c <= '\r' || '\U{1C}' <= c <= ' ' || c == '\U{85}' || c == '\U{A0}' || c == '\U{1680}'
    || '\U{2000}' <= c <= '\U{200A}' || c == '\U{2028}' || c == '\U{2029}' || c == '\U{202F}'
    || c == '\U{205F}' || c == '\U{3000}'
  }

  /** s with its leading whitespace removed. */
  function TrimStart(s: string): (r: string)
    ensures |r| <= |s| && r == s[|s| - |r|..]
    ensures r == [] || !IsSpace(r[0])
    ensures forall i :: 0 <= i < |s| - |r| ==> IsSpace(s[i])
  {
    if s != [] && IsSpace(s[0]) then TrimStart(s[1..]) else s
  }

  /** s with its trailing whitespace removed. */
  function TrimEnd(s: string): (r: string)
    ensures |r| <= |s| && r == s[..|r|]
    ensures r == [] || !IsSpace(r[|r| - 1])
    ensures forall i :: |r| <= i < |s| ==> IsSpace(s[i])
  {
    if s != [] && IsSpace(s[|s| - 1]) then TrimEnd(s[..|s| - 1]) else s
  }

  /** r is s[i..j], where s[i..j] neither starts nor ends with whitespace
      and everything outside it is whitespace. */
  ghost predicate IsStripAt(s: string, r: string, i: int, j: int)
  {
    0 <= i <= j <= |s| && r == s[i..j]
    && (forall k :: 0 <= k < i ==> IsSpace(s[k]))
    && (forall k :: j <= k < |s| ==> IsSpace(s[k]))
    && (r == [] || (!IsSpace(r[0]) && !IsSpace(r[|r| - 1])))
  }

  /** r is s without the whitespace at either end: a slice of s, cut where
      whitespace stops, that neither starts nor ends with whitespace. */
  ghost predicate IsStripOf(s: string, r: string)
  {
    exists i, j :: IsStripAt(s, r, i, j)
  }

  /** Python's str.strip() with no argument. */
  function Strip(s: string): (r: string)
    ensures IsStripOf(s, r)
  {
    TrimmedIsStripOf(s);
    TrimEnd(TrimStart(s))
  }

  lemma TrimmedIsStripOf(s: string)
    ensures IsStripOf(s, TrimEnd(TrimStart(s)))
  {
    var t := TrimStart(s);
    var r := TrimEnd(t);
    StripOfTrims(s, t, r);
  }

  /** Cutting leading whitespace off s and then trailing whitespace off the
      rest leaves a strip of s. */
  lemma StripOfTrims(s: string, t: string, r: string)
    requires |t| <= |s| && t == s[|s| - |t|..]
    requires t == [] || !IsSpace(t[0])
    requires forall k :: 0 <= k < |s| - |t| ==> IsSpace(s[k])
    requires |r| <= |t| && r == t[..|r|]
    requires r == [] || !IsSpace(r[|r| - 1])
    requires forall k :: |r| <= k < |t| ==> IsSpace(t[k])
    ensures IsStripAt(s, r, |s| - |t|, |s| - |t| + |r|)
  {
    var i := |s| - |t|;
    var j := i + |r|;
    assert r == s[i..j];
    forall k | j <= k < |s|
      ensures IsSpace(s[k])
    {
      assert s[k] == t[k - i];
    }
    if r != [] {
      assert r[0] == t[0];
    }
  }

  /** A string without whitespace at either end is its own strip. */
  lemma StripOfStripped(s: string)
    requires s == [] || (!IsSpace(s[0]) && !IsSpace(s[|s| - 1]))
    ensures Strip(s) == s
  {
  }

  /** Stripping twice strips no more than stripping once. */
  lemma StripIdempotent(s: string)
    ensures Strip(Strip(s)) == Strip(s)
  {
    StripOfStripped(Strip(s));
  }

  /** Whitespace padding on either side of a stripped string is exactly what
      Strip removes. */
  lemma StripRemovesPadding(before: string, r: string, after: string)
    requires forall k :: 0 <= k < |before| ==> IsSpace(before[k])
    requires forall k :: 0 <= k < |after| ==> IsSpace(after[k])
    requires r != [] && !IsSpace(r[0]) && !IsSpace(r[|r| - 1])
    ensures Strip(before + r + after) == r
  {
    var s := before + r + after;
    var a, b := |before|, |before| + |r|;
    assert forall k :: 0 <= k < a ==> s[k] == before[k];
    assert forall k :: b <= k < |s| ==> s[k] == after[k - b];
    assert s[a..b] == r;
    StripIsUnique(s, Strip(s), a, b);
  }

  /** A string of whitespace only strips to the empty string. */
  lemma StripAllSpace(s: string)
    requires forall k :: 0 <= k < |s| ==> IsSpace(s[k])
    ensures Strip(s) == []
  {
  }

  /** The slice an IsStripOf witness names is fixed by where whitespace stops. */
  lemma StripIsUnique(s: string, t: string, a: int, b: int)
    requires IsStripOf(s, t)
    requires 0 <= a < b <= |s|
    requires forall k :: 0 <= k < a ==> IsSpace(s[k])
    requires forall k :: b <= k < |s| ==> IsSpace(s[k])
    requires !IsSpace(s[a]) && !IsSpace(s[b - 1])
    ensures t == s[a..b]
  {
    var i, j :| IsStripAt(s, t, i, j);
    assert i <= a && b <= j;
    assert t[0] == s[i] && t[|t| - 1] == s[j - 1];
  }

  /** Upper-case letters: ASCII and the nine Polish letters with diacritics. */
  predicate IsUpper(c: char)
  {
    'A' <= c <= 'Z' || c in {'Ą', 'Ć', 'Ę', 'Ł', 'Ń', 'Ó', 'Ś', 'Ź', 'Ż'}
  }

  /** Lower-case letters: ASCII and the nine Polish letters with diacritics. */
  predicate IsLower(c: char)
  {
    'a' <= c <= 'z' || c in {'ą', 'ć', 'ę', 'ł', 'ń', 'ó', 'ś', 'ź', 'ż'}
  }

  /** Letters that have a case (Python's "cased" characters, within the letters modelled). */
  predicate IsCased(c: char)
  {
    IsUpper(c) || IsLower(c)
  }

  /** No letter is both upper and lower case, and no letter is whitespace. */
  lemma CaseClassesDisjoint(c: char)
    ensures !(IsUpper(c) && IsLower(c))
    ensures IsCased(c) ==> !IsSpace(c)
  {
  }

  function ToLower(c: char): (r: char)
    ensures IsUpper(c) ==> IsLower(r)
    ensures !IsUpper(c) ==> r == c
  {
    if 'A' <= c <= 'Z' then (c as int + 32) as char
    else match c
      case 'Ą' => 'ą'
      case 'Ć' => 'ć'
      case 'Ę' => 'ę'
      case 'Ł' => 'ł'
      case 'Ń' => 'ń'
      case 'Ó' => 'ó'
      case 'Ś' => 'ś'
      case 'Ź' => 'ź'
      case 'Ż' => 'ż'
      case _ => c
  }

  /** The title-case mapping, which for the letters modelled is the upper-case one. */
  function ToTitle(c: char): (r: char)
    ensures IsLower(c) ==> IsUpper(r)
    ensures !IsLower(c) ==> r == c
  {
    if 'a' <= c <= 'z' then (c as int - 32) as char
    else match c
      case 'ą' => 'Ą'
      case 'ć' => 'Ć'
      case 'ę' => 'Ę'
      case 'ł' => 'Ł'
      case 'ń' => 'Ń'
      case 'ó' => 'Ó'
      case 'ś' => 'Ś'
      case 'ź' => 'Ź'
      case 'ż' => 'Ż'
      case _ => c
  }

  /** The two mappings pair each capital with its own small letter: lower-casing
      a title-cased letter gives back the letter, and so does title-casing a
      lower-cased capital; lower-casing forgets only the case. */
  lemma CaseMappingsPair(c: char)
    ensures IsUpper(c) ==> ToTitle(ToLower(c)) == c
    ensures IsLower(c) ==> ToLower(ToTitle(c)) == c
    ensures ToLower(ToTitle(c)) == ToLower(c) && ToLower(ToLower(c)) == ToLower(c)
  {
  }

  /** Python's str.title() on the rest of a string: a character right after a
      cased character is lower-cased, any other one is title-cased; whether a
      character is cased is judged on the original character. */
  function TitleFrom(s: string, previousIsCased: bool): (r: string)
    ensures |r| == |s|
    ensures forall i :: 0 <= i < |s| ==> IsCased(r[i]) == IsCased(s[i])
    ensures forall i :: 0 <= i < |s| && !IsCased(s[i]) ==> r[i] == s[i]
  {
    if s == [] then []
    else
      var c := if previousIsCased then ToLower(s[0]) else ToTitle(s[0]);
      [c] + TitleFrom(s[1..], IsCased(s[0]))
  }

  /** title() changes only the case of letters: each character of the result
      lower-cases to what the original character lower-cases to. */
  lemma {:induction false} TitleFromChangesOnlyCase(s: string, previousIsCased: bool)
    ensures forall i :: 0 <= i < |s| ==> ToLower(TitleFrom(s, previousIsCased)[i]) == ToLower(s[i])
  {
    if s != [] {
      TitleFromChangesOnlyCase(s[1..], IsCased(s[0]));
      CaseMappingsPair(s[0]);
      var r := TitleFrom(s, previousIsCased);
      assert forall i :: 1 <= i < |s| ==> r[i] == TitleFrom(s[1..], IsCased(s[0]))[i - 1] && s[i] == s[1..][i - 1];
    }
  }

  /** Python's str.title(). */
  function Title(s: string): (r: string)
    ensures |r| == |s|
    ensures forall i :: 0 <= i < |s| && !IsCased(s[i]) ==> r[i] == s[i]
  {
    TitleFrom(s, false)
  }

  /** Whether the character before position i is cased; before the first
      position this is what the caller says. */
  function CasedBefore(s: string, i: int, previousIsCased: bool): bool
    requires 0 <= i <= |s|
  {
    if i == 0 then previousIsCased else IsCased(s[i - 1])
  }

  /** Title-cased as a continuation: every cased character is upper case
      exactly when the character before it is not cased. */
  ghost predicate TitleCasedAfter(s: string, previousIsCased: bool)
  {
    forall i :: 0 <= i < |s| && IsCased(s[i]) ==> (IsUpper(s[i]) <==> !CasedBefore(s, i, previousIsCased))
  }

  /** A title-cased string: every word starts with an upper-case letter and
      continues in lower case. */
  ghost predicate IsTitleCased(s: string)
  {
    TitleCasedAfter(s, false)
  }

  lemma {:induction false} TitleFromIsTitleCased(s: string, previousIsCased: bool)
    ensures TitleCasedAfter(TitleFrom(s, previousIsCased), previousIsCased)
  {
    if s != [] {
      var rest := s[1..];
      TitleFromIsTitleCased(rest, IsCased(s[0]));
      CaseClassesDisjoint(s[0]);
      var r := TitleFrom(s, previousIsCased);
      var t := TitleFrom(rest, IsCased(s[0]));
      assert r == [r[0]] + t;
      forall i | 0 <= i < |r| && IsCased(r[i])
        ensures IsUpper(r[i]) <==> !CasedBefore(r, i, previousIsCased)
      {
        if i > 0 {
          assert r[i] == t[i - 1];
          assert CasedBefore(t, i - 1, IsCased(s[0])) == CasedBefore(r, i, previousIsCased);
        }
      }
    }
  }

  /** The result of Title is title-cased. */
  lemma TitleIsTitleCased(s: string)
    ensures IsTitleCased(Title(s))
  {
    TitleFromIsTitleCased(s, false);
  }

  /** A string that is title-cased as a continuation is left as it is. */
  lemma {:induction false} TitleFromKeepsTitleCased(s: string, previousIsCased: bool)
    requires TitleCasedAfter(s, previousIsCased)
    ensures TitleFrom(s, previousIsCased) == s
  {
    if s != [] {
      CaseClassesDisjoint(s[0]);
      var rest := s[1..];
      forall i | 0 <= i < |rest| && IsCased(rest[i])
        ensures IsUpper(rest[i]) <==> !CasedBefore(rest, i, IsCased(s[0]))
      {
        assert rest[i] == s[i + 1];
        assert CasedBefore(rest, i, IsCased(s[0])) == CasedBefore(s, i + 1, previousIsCased);
      }
      TitleFromKeepsTitleCased(rest, IsCased(s[0]));
      var c := if previousIsCased then ToLower(s[0]) else ToTitle(s[0]);
      assert IsCased(s[0]) ==> (IsUpper(s[0]) <==> !CasedBefore(s, 0, previousIsCased));
      assert c == s[0];
      assert TitleFrom(s, previousIsCased) == [c] + TitleFrom(rest, IsCased(s[0]));
      assert s == [s[0]] + rest;
    }
  }

  /** Title-casing a title-cased string changes nothing; in particular Title is idempotent. */
  lemma TitleOfTitleCased(s: string)
    requires IsTitleCased(s)
    ensures Title(s) == s
  {
    TitleFromKeepsTitleCased(s, false);
  }

  lemma TitleIdempotent(s: string)
    ensures Title(Title(s)) == Title(s)
  {
    TitleIsTitleCased(s);
    TitleOfTitleCased(Title(s));
  }

  /** A word of lower-case letters gets its first letter in upper case. */
  lemma TitleOfLowerWord(c: char, w: string)
    requires IsLower(c)
    requires forall k :: 0 <= k < |w| ==> IsLower(w[k])
    ensures Title([c] + w) == [ToTitle(c)] + w
  {
    forall k | 0 <= k < |w| && IsCased(w[k])
      ensures IsUpper(w[k]) <==> !CasedBefore(w, k, true)
    {
      CaseClassesDisjoint(w[k]);
      if k > 0 {
        assert IsLower(w[k - 1]);
      }
    }
    TitleFromKeepsTitleCased(w, true);
    assert ([c] + w)[1..] == w;
  }

  /** Title keeps whitespace where it is, so it keeps a stripped string stripped. */
  lemma TitleKeepsStripped(s: string)
    requires Strip(s) == s
    ensures Strip(Title(s)) == Title(s)
  {
    var t := Title(s);
    if s != [] {
      assert !IsSpace(s[0]) && !IsSpace(s[|s| - 1]);
      CaseClassesDisjoint(t[0]);
      CaseClassesDisjoint(t[|t| - 1]);
    }
    StripOfStripped(t);
  }
}
