/**
 * String rules used by the pages and the scripts: prefixes, substrings, case
 * mapping, accent folding, trimming and the few replacements the scraper applies.
 *
 * Case mapping and accent folding are given by explicit tables over ASCII and
 * Latin-1 letters; the rest of Unicode is left as it is.
 */
module Text {

  predicate IsPrefix(p: string, s: string) {
    |p| <= |s| && s[..|p|] == p
  }

  predicate IsSuffix(p: string, s: string) {
    |p| <= |s| && s[|s| - |p|..] == p
  }

  /** Python's `sub in s`: some window of `s` equals `sub`. */
  predicate Contains(s: string, sub: string)
    decreases |s|
  {
    IsPrefix(sub, s) || (s != [] && Contains(s[1..], sub))
  }

  /** `sub` occurs in `s` starting at position `i`. */
  predicate OccursAt(s: string, sub: string, i: int) {
    0 <= i <= |s| - |sub| && s[i..i + |sub|] == sub
  }

  /** `Contains` agrees with the positional definition of a substring occurrence. */
  lemma {:induction false} ContainsIffOccurs(s: string, sub: string)
    ensures Contains(s, sub) <==> exists i :: OccursAt(s, sub, i)
    decreases |s|
  {
    if IsPrefix(sub, s) {
      assert OccursAt(s, sub, 0);
    } else if s == [] {
    } else {
      ContainsIffOccurs(s[1..], sub);
      if exists i :: OccursAt(s, sub, i) {
        var i :| OccursAt(s, sub, i);
        assert i != 0;
        assert s[1..][i - 1..i - 1 + |sub|] == s[i..i + |sub|];
        assert OccursAt(s[1..], sub, i - 1);
      }
      if Contains(s[1..], sub) {
        var j :| OccursAt(s[1..], sub, j);
        assert s[1..][j..j + |sub|] == s[j + 1..j + 1 + |sub|];
        assert OccursAt(s, sub, j + 1);
      }
    }
  }

  /** A string contains every string it is built around. */
  lemma {:induction false} ContainsInfix(a: string, sub: string, b: string)
    ensures Contains(a + sub + b, sub)
  {
    ContainsIffOccurs(a + sub + b, sub);
    assert (a + sub + b)[|a|..|a| + |sub|] == sub;
    assert OccursAt(a + sub + b, sub, |a|);
  }

  // ---------------------------------------------------------------------------
  // Case mapping (Python's str.lower/str.upper, JavaScript's toLowerCase)

  predicate IsAsciiUpper(c: char) { 'A' <= c <= 'Z' }
  predicate IsAsciiLower(c: char) { 'a' <= c <= 'z' }
  /** Latin-1 capitals À..Þ, without the multiplication sign. */
  predicate IsLatin1Upper(c: char) { 'À' <= c <= 'Þ' && c != '×' }
  /** Latin-1 small letters à..þ, without the division sign. */
  predicate IsLatin1Lower(c: char) { 'à' <= c <= 'þ' && c != '÷' }

  /** Capitals become their small letter; every other character is left as it is. */
  function LowerChar(c: char): (r: char)
    ensures IsAsciiUpper(c) ==> IsAsciiLower(r)
    ensures IsLatin1Upper(c) ==> IsLatin1Lower(r)
    ensures c == 'Ÿ' ==> r == 'ÿ'
    ensures !IsAsciiUpper(c) && !IsLatin1Upper(c) && c != 'Ÿ' ==> r == c
  {
    if IsAsciiUpper(c) || IsLatin1Upper(c) then (c as int + 32) as char
    else if c == 'Ÿ' then 'ÿ'   // Ÿ -> ÿ
    else c
  }

  /** Small letters become their capital; every other character is left as it is. */
  function UpperChar(c: char): (r: char)
    ensures IsAsciiLower(c) ==> IsAsciiUpper(r)
    ensures IsLatin1Lower(c) ==> IsLatin1Upper(r)
    ensures c == 'ÿ' ==> r == 'Ÿ'
    ensures !IsAsciiLower(c) && !IsLatin1Lower(c) && c != 'ÿ' ==> r == c
  {
    if IsAsciiLower(c) || IsLatin1Lower(c) then (c as int - 32) as char
    else if c == 'ÿ' then 'Ÿ'   // ÿ -> Ÿ
    else c
  }

  /** Case mapping never turns a letter into a character that is not one. */
  lemma CaseMappingOnlyMovesLetters(c: char, p: char)
    requires !IsAsciiUpper(p) && !IsAsciiLower(p) && !IsLatin1Upper(p) && !IsLatin1Lower(p)
    requires p != 'Ÿ' && p != 'ÿ'
    ensures LowerChar(c) == p ==> c == p
    ensures UpperChar(c) == p ==> c == p
  {
  }

  function ToLower(s: string): (r: string)
    ensures |r| == |s|
    ensures forall i :: 0 <= i < |s| ==> r[i] == LowerChar(s[i])
  {
    seq(|s|, i requires 0 <= i < |s| => LowerChar(s[i]))
  }

  /** Python's str.capitalize: first character upper-cased, the rest lower-cased. */
  function Capitalize(s: string): (r: string)
    ensures |r| == |s|
    ensures s != [] ==> r[0] == UpperChar(s[0])
    ensures forall i :: 0 < i < |s| ==> r[i] == LowerChar(s[i])
  {
    if s == [] then [] else [UpperChar(s[0])] + ToLower(s[1..])
  }

  /** Capitalising does not introduce a character that is not a letter. */
  lemma CapitalizeKeepsAbsent(s: string, p: char)
    requires !IsAsciiUpper(p) && !IsAsciiLower(p) && !IsLatin1Upper(p) && !IsLatin1Lower(p)
    requires p != 'Ÿ' && p != 'ÿ'
    requires p !in s
    ensures p !in Capitalize(s)
  {
    var r := Capitalize(s);
    forall i | 0 <= i < |r|
      ensures r[i] != p
    {
      CaseMappingOnlyMovesLetters(s[i], p);
    }
  }

  /** Lower-casing first changes nothing that capitalising does afterwards. */
  lemma {:induction false} CapitalizeOfLower(s: string)
    ensures Capitalize(ToLower(s)) == Capitalize(s)
  {
    var l := ToLower(s);
    if s != [] {
      assert UpperChar(LowerChar(s[0])) == UpperChar(s[0]);
      forall i | 0 < i < |s|
        ensures Capitalize(l)[i] == Capitalize(s)[i]
      {
        assert LowerChar(LowerChar(s[i])) == LowerChar(s[i]);
      }
    }
  }

  // ---------------------------------------------------------------------------
  // Accent folding: Unicode NFD decomposition followed by removal of the
  // combining marks, on the Latin-1 letters that decompose.

  function StripAccent(c: char): char {
    if 'À' <= c <= 'Å' then 'A'
    else if c == 'Ç' then 'C'
    else if 'È' <= c <= 'Ë' then 'E'
    else if 'Ì' <= c <= 'Ï' then 'I'
    else if c == 'Ñ' then 'N'
    else if 'Ò' <= c <= 'Ö' then 'O'
    else if 'Ù' <= c <= 'Ü' then 'U'
    else if c == 'Ý' then 'Y'
    else if 'à' <= c <= 'å' then 'a'
    else if c == 'ç' then 'c'
    else if 'è' <= c <= 'ë' then 'e'
    else if 'ì' <= c <= 'ï' then 'i'
    else if c == 'ñ' then 'n'
    else if 'ò' <= c <= 'ö' then 'o'
    else if 'ù' <= c <= 'ü' then 'u'
    else if c == 'ý' || c == 'ÿ' then 'y'
    else if c == 'Ÿ' then 'Y'
    else c
  }

  /** One character after accent removal and lower-casing. */
  function FoldChar(c: char): char {
    LowerChar(StripAccent(c))
  }

  /**
   * The characters of `\p{Diacritic}` up to U+0362: the spacing accents of
   * ASCII and Latin-1, the modifier letters U+02B0..U+02FF and the combining
   * marks of U+0300..U+0362 that carry the property. NFD turns every accented
   * letter of the table above into its base letter followed by such a mark.
   */
  predicate IsDiacritic(c: char) {
    c == '^' || c == '`' || c == '\U{A8}' || c == '\U{AF}' || c == '\U{B4}' || c == '\U{B7}' || c == '\U{B8}' ||
    '\U{2B0}' <= c <= '\U{34E}' || '\U{350}' <= c <= '\U{357}' || '\U{35D}' <= c <= '\U{362}'
  }

  /** Neither accent removal nor lower-casing ever produces a diacritic, and a folded character stays put. */
  lemma FoldCharPlain(c: char)
    requires !IsDiacritic(c)
    ensures !IsDiacritic(FoldChar(c))
    ensures FoldChar(FoldChar(c)) == FoldChar(c)
  {
    var a := StripAccent(c);
    if IsAsciiUpper(a) {
      assert IsAsciiLower(LowerChar(a));
    } else if IsLatin1Upper(a) {
      // only the unaccented capitals Æ, Ð, Ø and Þ are left here
      assert a == 'Æ' || a == 'Ð' || a == 'Ø' || a == 'Þ';
    } else {
      assert LowerChar(a) == a;
    }
  }

  /**
   * `s.normalize('NFD').replace(/\p{Diacritic}/gu, '').toLowerCase()` on the
   * tables above: diacritics are dropped, every other character is folded.
   */
  function Fold(s: string): (r: string)
    ensures |r| <= |s|
    ensures forall i :: 0 <= i < |r| ==> !IsDiacritic(r[i]) && FoldChar(r[i]) == r[i]
    decreases |s|
  {
    if s == [] then []
    else if IsDiacritic(s[0]) then Fold(s[1..])
    else
      FoldCharPlain(s[0]);
      [FoldChar(s[0])] + Fold(s[1..])
  }

  /** Folding works character by character: it distributes over concatenation. */
  lemma {:induction false} FoldAppend(a: string, b: string)
    ensures Fold(a + b) == Fold(a) + Fold(b)
    decreases |a|
  {
    if a == [] {
      assert a + b == b;
    } else {
      assert (a + b)[0] == a[0] && (a + b)[1..] == a[1..] + b;
      FoldAppend(a[1..], b);
    }
  }

  /** A string without diacritics keeps its length, each character folded in place. */
  lemma {:induction false} FoldWithoutDiacritics(s: string)
    requires forall i :: 0 <= i < |s| ==> !IsDiacritic(s[i])
    ensures |Fold(s)| == |s|
    ensures forall i :: 0 <= i < |s| ==> Fold(s)[i] == FoldChar(s[i])
    decreases |s|
  {
    if s != [] {
      FoldWithoutDiacritics(s[1..]);
      assert Fold(s) == [FoldChar(s[0])] + Fold(s[1..]);
    }
  }

  /** A string that folding leaves alone is its own fold. */
  lemma {:induction false} FoldOfFolded(s: string)
    requires forall i :: 0 <= i < |s| ==> !IsDiacritic(s[i]) && FoldChar(s[i]) == s[i]
    ensures Fold(s) == s
    decreases |s|
  {
    if s != [] {
      FoldOfFolded(s[1..]);
      assert [s[0]] + s[1..] == s;
    }
  }

  /** Folding is idempotent: a folded string has nothing left to fold. */
  lemma FoldIdempotent(s: string)
    ensures Fold(Fold(s)) == Fold(s)
  {
    FoldOfFolded(Fold(s));
  }

  // ---------------------------------------------------------------------------
  // Trimming and splitting

  /** The characters Python's `str.isspace` accepts, which `str.strip()` removes. */
  predicate IsSpace(c: char) {
    c == ' ' || '\t' <= c <= '\r' || '\U{1C}' <= c <= '\U{1F}' || c == '\U{85}' || c == '\U{A0}' ||
    c == '\U{1680}' || '\U{2000}' <= c <= '\U{200A}' || c == '\U{2028}' || c == '\U{2029}' ||
    c == '\U{202F}' || c == '\U{205F}' || c == '\U{3000}'
  }

  /** Python's `s.lstrip(chars)`: the leading characters `drop` accepts are removed. */
  function TrimStart(s: string, drop: char -> bool): (r: string)
    ensures IsSuffix(r, s)
    ensures forall k :: 0 <= k < |s| - |r| ==> drop(s[k])
    ensures r == [] || !drop(r[0])
    decreases |s|
  {
    if s != [] && drop(s[0]) then
      var r := TrimStart(s[1..], drop);
      assert s[1..][|s| - 1 - |r|..] == s[|s| - |r|..];
      r
    else s
  }

  /** Python's `s.rstrip(chars)`: the trailing characters `drop` accepts are removed. */
  function TrimEnd(s: string, drop: char -> bool): (r: string)
    ensures IsPrefix(r, s)
    ensures forall k :: |r| <= k < |s| ==> drop(s[k])
    ensures r == [] || !drop(r[|r| - 1])
    decreases |s|
  {
    if s != [] && drop(s[|s| - 1]) then
      var r := TrimEnd(s[..|s| - 1], drop);
      assert s[..|s| - 1][..|r|] == s[..|r|];
      r
    else s
  }

  /** Python's `s.strip(chars)`: both ends, removing every character `drop` accepts. */
  function Strip(s: string, drop: char -> bool): (r: string)
    ensures |r| <= |s|
    ensures r == [] || (!drop(r[0]) && !drop(r[|r| - 1]))
  {
    TrimStart(TrimEnd(s, drop), drop)
  }

  /**
   * What `strip` keeps is a window of `s`: everything before it and after it
   * is a character `drop` accepts, and the window neither starts nor ends with one.
   */
  lemma StripKeepsWindow(s: string, drop: char -> bool)
    ensures exists i, j :: 0 <= i <= j <= |s| && Strip(s, drop) == s[i..j] &&
              (forall k :: 0 <= k < i ==> drop(s[k])) && (forall k :: j <= k < |s| ==> drop(s[k]))
  {
    var e := TrimEnd(s, drop);
    var r := TrimStart(e, drop);
    var i, j := |e| - |r|, |e|;
    assert e == s[..j];
    assert r == e[i..] == s[i..j];
    assert forall k :: 0 <= k < i ==> s[k] == e[k];
  }

  /** A string whose ends `drop` rejects is left unchanged by `strip`. */
  lemma StripUntrimmed(s: string, drop: char -> bool)
    requires s == [] || (!drop(s[0]) && !drop(s[|s| - 1]))
    ensures Strip(s, drop) == s
  {
  }

  /** Appending a non-empty string whose ends `drop` rejects gives nothing more to strip. */
  lemma StripUntrimmedAppend(u: string, v: string, drop: char -> bool)
    requires u == [] || (!drop(u[0]) && !drop(u[|u| - 1]))
    requires v != [] && !drop(v[0]) && !drop(v[|v| - 1])
    ensures Strip(u + v, drop) == u + v
  {
    var s := u + v;
    assert s[|s| - 1] == v[|v| - 1] && s[0] == (if u == [] then v[0] else u[0]);
    StripUntrimmed(s, drop);
  }

  function IsSlash(c: char): bool { c == '/' }

  /** Python's `s.split('/')[-1]`: what follows the last slash, or all of `s`. */
  function LastSegment(s: string): (r: string)
    ensures IsSuffix(r, s)
    ensures '/' !in r
    ensures r == s || s[|s| - |r| - 1] == '/'
    decreases |s|
  {
    if s == [] then []
    else if s[|s| - 1] == '/' then []
    else LastSegment(s[..|s| - 1]) + [s[|s| - 1]]
  }

  /** The last segment of `p + "/" + seg` is `seg` whenever `seg` has no slash. */
  lemma {:induction false} LastSegmentAfterSlash(p: string, seg: string)
    requires '/' !in seg
    ensures LastSegment(p + "/" + seg) == seg
    decreases |seg|
  {
    var s := p + "/" + seg;
    if seg == [] {
      assert s[|s| - 1] == '/';
    } else {
      var init := seg[..|seg| - 1];
      assert s[..|s| - 1] == p + "/" + init;
      assert s[|s| - 1] == seg[|seg| - 1];
      LastSegmentAfterSlash(p, init);
      assert init + [seg[|seg| - 1]] == seg;
    }
  }

  /** The last part of a path that is `seg`, or ends with a slash and then `seg`, is `seg`. */
  lemma LastSegmentIs(t: string, seg: string)
    requires seg != [] && '/' !in seg
    requires t == seg || IsSuffix("/" + seg, t)
    ensures LastSegment(t) == seg
  {
    if t != seg {
      var p := t[..|t| - |seg| - 1];
      assert t == p + "/" + seg;
      LastSegmentAfterSlash(p, seg);
    }
  }

  /** The chapter folder of a directory URL: strip the slashes, keep the last part. */
  lemma {:induction false} LastSegmentOfDirectory(p: string, seg: string)
    requires seg != [] && '/' !in seg
    ensures LastSegment(Strip(p + "/" + seg + "/", IsSlash)) == seg
  {
    var s := p + "/" + seg + "/";
    var body := p + "/" + seg;
    assert s[..|s| - 1] == body;
    assert body[|body| - 1] == seg[|seg| - 1];
    assert TrimEnd(body, IsSlash) == body;
    assert TrimEnd(s, IsSlash) == body;
    TrimStartKeepsLastSegment(body);
    LastSegmentAfterSlash(p, seg);
  }

  /** Removing leading slashes does not move a last segment that is not empty. */
  lemma {:induction false} TrimStartKeepsLastSegment(s: string)
    requires s != [] && s[|s| - 1] != '/'
    ensures LastSegment(TrimStart(s, IsSlash)) == LastSegment(s)
    decreases |s|
  {
    if s[0] == '/' {
      var t := s[1..];
      assert t != [] && t[|t| - 1] == s[|s| - 1];
      assert TrimStart(s, IsSlash) == TrimStart(t, IsSlash);
      TrimStartKeepsLastSegment(t);
      LastSegmentDropFirst(s);
    } else {
      assert TrimStart(s, IsSlash) == s;
    }
  }

  /** Dropping a leading slash keeps the last segment when the string does not end in a slash. */
  lemma {:induction false} LastSegmentDropFirst(s: string)
    requires |s| >= 2 && s[0] == '/' && s[|s| - 1] != '/'
    ensures LastSegment(s[1..]) == LastSegment(s)
    decreases |s|
  {
    var t := s[1..];
    assert t[|t| - 1] == s[|s| - 1];
    assert t[..|t| - 1] == s[..|s| - 1][1..];
    if |s| == 2 {
      assert s[..|s| - 1] == "/";
      assert t[..|t| - 1] == [];
    } else if s[|s| - 2] == '/' {
      assert t[|t| - 2] == '/';
    } else {
      LastSegmentDropFirst(s[..|s| - 1]);
    }
  }

  // ---------------------------------------------------------------------------
  // Replacements

  /** Python's `s.replace(a, b)` for single characters. */
  function ReplaceChar(s: string, a: char, b: char): (r: string)
    ensures |r| == |s|
    ensures a != b ==> a !in r
    ensures forall i :: 0 <= i < |s| && s[i] == a ==> r[i] == b
    ensures forall i :: 0 <= i < |s| && s[i] != a ==> r[i] == s[i]
  {
    seq(|s|, i requires 0 <= i < |s| => if s[i] == a then b else s[i])
  }

  /** Python's `s.replace(pat, '')`: occurrences removed left to right, without overlap. */
  function RemoveAll(s: string, pat: string): (r: string)
    requires pat != []
    ensures |r| <= |s|
    decreases |s|
  {
    if |s| < |pat| then s
    else if s[..|pat|] == pat then RemoveAll(s[|pat|..], pat)
    else [s[0]] + RemoveAll(s[1..], pat)
  }

  /** A character that does not occur is not replaced: the string is unchanged. */
  lemma ReplaceAbsent(s: string, a: char, b: char)
    requires a !in s
    ensures ReplaceChar(s, a, b) == s
  {
  }

  /** An occurrence of `sub` fits inside `s`. */
  lemma ContainsFits(s: string, sub: string)
    requires Contains(s, sub)
    ensures |sub| <= |s|
  {
    ContainsIffOccurs(s, sub);
  }

  /** A string with an occurrence of `pat` loses at least one copy of it. */
  lemma {:induction false} RemoveAllShortens(s: string, pat: string)
    requires pat != [] && Contains(s, pat)
    ensures |RemoveAll(s, pat)| <= |s| - |pat|
    decreases |s|
  {
    ContainsFits(s, pat);
    if s[..|pat|] != pat {
      assert !IsPrefix(pat, s);
      RemoveAllShortens(s[1..], pat);
    }
  }

  /**
   * Removing `pat` from `u + pat` gives `u` back, when `u` has no occurrence of
   * `pat` and none can straddle the join (the first character of `pat` does not
   * recur in it).
   */
  lemma {:induction false} RemoveAllTrailing(u: string, pat: string)
    requires pat != [] && pat[0] !in pat[1..] && !Contains(u, pat)
    ensures RemoveAll(u + pat, pat) == u
    decreases |u|
  {
    var s := u + pat;
    if u == [] {
      assert s == pat && s[..|pat|] == pat && s[|pat|..] == [];
    } else {
      assert s[..|pat|] != pat by {
        if |u| >= |pat| {
          assert s[..|pat|] == u[..|pat|] && !IsPrefix(pat, u);
        } else {
          assert pat[1..][|u| - 1] == pat[|u|] && s[..|pat|][|u|] == pat[0];
        }
      }
      RemoveAllTrailing(u[1..], pat);
      assert s[1..] == u[1..] + pat;
      assert [u[0]] + u[1..] == u;
    }
  }

  /**
   * Stripping whitespace from a file name with ".pdf" appended, then removing
   * ".pdf", gives the name back when it has no surrounding whitespace and no ".pdf".
   */
  lemma PdfNameWindow(u: string)
    requires u == [] || (!IsSpace(u[0]) && !IsSpace(u[|u| - 1]))
    requires !Contains(u, ".pdf")
    ensures RemoveAll(Strip(u + ".pdf", IsSpace), ".pdf") == u
  {
    StripPdfName(u);
    RemovePdfSuffix(u);
  }

  /** A file name without surrounding whitespace keeps its appended ".pdf" through `strip`. */
  lemma StripPdfName(u: string)
    requires u == [] || (!IsSpace(u[0]) && !IsSpace(u[|u| - 1]))
    ensures Strip(u + ".pdf", IsSpace) == u + ".pdf"
  {
    StripUntrimmedAppend(u, ".pdf", IsSpace);
  }

  /** Removing ".pdf" from a name without it, with ".pdf" appended, gives the name back. */
  lemma RemovePdfSuffix(u: string)
    requires !Contains(u, ".pdf")
    ensures RemoveAll(u + ".pdf", ".pdf") == u
  {
    assert ".pdf"[1..] == "pdf";
    RemoveAllTrailing(u, ".pdf");
  }

  /** A string without an occurrence of `pat` is left unchanged. */
  lemma {:induction false} RemoveAllAbsent(s: string, pat: string)
    requires pat != [] && !Contains(s, pat)
    ensures RemoveAll(s, pat) == s
    decreases |s|
  {
    if |s| >= |pat| {
      assert !IsPrefix(pat, s);
      RemoveAllAbsent(s[1..], pat);
      assert [s[0]] + s[1..] == s;
    }
  }
}
