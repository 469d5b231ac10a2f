/** The Python string built-ins the scraper relies on, over ASCII text:
    substring membership (`w in s`), `s.startswith(p)`, `s.lower()` and
    `s.strip()`. Python applies `lower` and `strip` to all of Unicode; here
    only the ASCII letters and the ASCII whitespace are modelled. */
module Text {

  // ---------------------------------------------------------------------
  // Substrings and prefixes
  // ---------------------------------------------------------------------

  /** `w` occurs in `s` starting at offset `i`. */
  predicate OccursAt(s: string, w: string, i: nat)
  {
    i + |w| <= |s| && s[i..i + |w|] == w
  }

  /** Python's `w in s` on strings: no occurrence is longer than the text,
      and the empty string occurs in every string. */
  predicate Contains(s: string, w: string)
    ensures Contains(s, w) ==> |w| <= |s|
    ensures w == [] ==> Contains(s, w)
  {
    assert w == [] ==> OccursAt(s, w, 0);
    exists i: nat | i <= |s| :: OccursAt(s, w, i)
  }

  /** Python's `s.startswith(p)`: a prefix is in particular a substring. */
  predicate StartsWith(s: string, p: string)
    ensures StartsWith(s, p) ==> Contains(s, p)
  {
    assert |p| <= |s| ==> s[0..|p|] == s[..|p|];
    assert |p| <= |s| && s[..|p|] == p ==> OccursAt(s, p, 0);
    |p| <= |s| && s[..|p|] == p
  }

  /** A word whose first two characters never stand side by side in `s` is
      not in `s`. */
  lemma NoOccurrence(s: string, w: string)
    requires |w| >= 2
    requires forall i :: 0 <= i < |s| - 1 ==> s[i] != w[0] || s[i + 1] != w[1]
    ensures !Contains(s, w)
  {
    forall i: nat | i <= |s|
      ensures !OccursAt(s, w, i)
    {
      if i + |w| <= |s| {
        assert s[i..i + |w|][0] == s[i] && s[i..i + |w|][1] == s[i + 1];
      }
    }
  }

  /** A substring of `t` stays a substring when text is added on either side. */
  lemma ContainsInLonger(p: string, t: string, w: string)
    requires Contains(t, w)
    ensures Contains(p + t, w) && Contains(t + p, w)
  {
    var i: nat :| i <= |t| && OccursAt(t, w, i);
    assert (p + t)[i + |p|..i + |p| + |w|] == t[i..i + |w|];
    assert OccursAt(p + t, w, i + |p|);
    assert (t + p)[i..i + |w|] == t[i..i + |w|];
    assert OccursAt(t + p, w, i);
  }

  // ---------------------------------------------------------------------
  // Lower-casing
  // ---------------------------------------------------------------------

  predicate IsUpper(c: char)
  {
    'A' <= c <= 'Z'
  }

  /** Python's `c.lower()` on one ASCII character. */
  function LowerChar(c: char): char
  {
    if IsUpper(c) then (c as int + 32) as char else c
  }

  /** No character of `s` is an upper-case letter. */
  predicate NoUpper(s: string)
  {
    forall i :: 0 <= i < |s| ==> !IsUpper(s[i])
  }

  /** Python's `s.lower()`: the result has the same length, holds no
      upper-case letter, keeps every other character where it was, and
      agrees with `s` character by character once case is ignored. */
  function ToLower(s: string): (r: string)
    ensures |r| == |s| && NoUpper(r)
    ensures forall i :: 0 <= i < |s| && !IsUpper(s[i]) ==> r[i] == s[i]
    ensures forall i :: 0 <= i < |s| ==> LowerChar(r[i]) == LowerChar(s[i])
  {
    seq(|s|, i requires 0 <= i < |s| => LowerChar(s[i]))
  }

  /** Lower-casing text that is already lower case changes nothing; in
      particular `s.lower().lower() == s.lower()`. */
  lemma LowerOfLowerUnchanged(s: string)
    requires NoUpper(s)
    ensures ToLower(s) == s
  {
    assert forall i :: 0 <= i < |s| ==> ToLower(s)[i] == s[i];
  }

  /** Lower-casing keeps every occurrence: if `w in s` then
      `w.lower() in s.lower()`. */
  lemma ContainsLowered(s: string, w: string)
    requires Contains(s, w)
    ensures Contains(ToLower(s), ToLower(w))
  {
    var i: nat :| i <= |s| && OccursAt(s, w, i);
    var ls, lw := ToLower(s), ToLower(w);
    assert forall k :: 0 <= k < |w| ==> ls[i + k] == LowerChar(s[i + k]) == LowerChar(w[k]) == lw[k];
    assert ls[i..i + |w|] == lw;
    assert OccursAt(ls, lw, i);
  }

  /** A substring of a string without upper-case letters has none either. */
  lemma NoUpperInSubstring(s: string, w: string)
    requires NoUpper(s) && Contains(s, w)
    ensures NoUpper(w)
  {
    var i: nat :| i <= |s| && OccursAt(s, w, i);
    assert forall k :: 0 <= k < |w| ==> w[k] == s[i + k];
  }

  // ---------------------------------------------------------------------
  // Stripping whitespace
  // ---------------------------------------------------------------------

  /** The ASCII characters Python's `str.strip()` removes: tab, line feed,
      vertical tab, form feed, carriage return, the four information
      separators U+001C..U+001F, and space. */
  predicate IsSpace(c: char)
  {
    c == ' ' || ('\t' <= c <= '\r') || ('\U{1C}' <= c <= '\U{1F}')
  }

  predicate AllSpace(s: string)
  {
    forall i :: 0 <= i < |s| ==> IsSpace(s[i])
  }

  /** The length of the longest all-whitespace prefix of `s`. */
  function LeadingSpaces(s: string): (n: nat)
    ensures n <= |s| && AllSpace(s[..n])
    ensures n < |s| ==> !IsSpace(s[n])
  {
    if |s| > 0 && IsSpace(s[0]) then
      1 + LeadingSpaces(s[1..])
    else
      0
  }

  /** The length of the longest all-whitespace suffix of `s`. */
  function TrailingSpaces(s: string): (n: nat)
    ensures n <= |s| && AllSpace(s[|s| - n..])
    ensures n < |s| ==> !IsSpace(s[|s| - n - 1])
  {
    if |s| > 0 && IsSpace(s[|s| - 1]) then
      1 + TrailingSpaces(s[..|s| - 1])
    else
      0
  }

  /** `r` sits at offset `a` of `s`, and everything of `s` around it is
      whitespace. */
  ghost predicate StrippedAt(s: string, r: string, a: nat)
  {
    a + |r| <= |s| && s[a..a + |r|] == r && AllSpace(s[..a]) && AllSpace(s[a + |r|..])
  }

  /** Python's `s.strip()`: the result neither starts nor ends with
      whitespace, and it is the piece of `s` left after cutting off
      whitespace on both sides. The two facts together fix the result. */
  function Strip(s: string): (r: string)
    ensures r == [] || (!IsSpace(r[0]) && !IsSpace(r[|r| - 1]))
    ensures exists a: nat :: StrippedAt(s, r, a)
  {
    var a := LeadingSpaces(s);
    var t := s[a..];
    var b := TrailingSpaces(t);
    assert a < |s| ==> t[0] == s[a];
    assert s[a..a + (|t| - b)] == t[..|t| - b];
    assert s[a + (|t| - b)..] == t[|t| - b..];
    assert StrippedAt(s, t[..|t| - b], a);
    t[..|t| - b]
  }

  /** Stripping yields the empty string exactly when `s` is all whitespace. */
  lemma StripEmptyIffAllSpace(s: string)
    ensures Strip(s) == [] <==> AllSpace(s)
  {
    var r := Strip(s);
    var a: nat :| StrippedAt(s, r, a);
    if r == [] {
      assert forall i :: 0 <= i < |s| ==> if i < a then s[..a][i] == s[i] else s[a..][i - a] == s[i];
    } else {
      assert s[a] == r[0];
    }
  }

  /** A string that neither starts nor ends with whitespace is left as it is. */
  lemma StripOfTrimmed(x: string)
    requires x == [] || (!IsSpace(x[0]) && !IsSpace(x[|x| - 1]))
    ensures Strip(x) == x
  {
    var r := Strip(x);
    var a: nat :| StrippedAt(x, r, a);
    if x != [] {
      assert a == 0;
      assert a + |r| == |x|;
      assert x[0..|x|] == x;
    }
  }

  /** `s.strip().strip() == s.strip()`. */
  lemma StripIdempotent(s: string)
    ensures Strip(Strip(s)) == Strip(s)
  {
    StripOfTrimmed(Strip(s));
  }

  /** Stripping never cuts into a word that begins and ends with a
      non-whitespace character: if such a `w` is in `s`, it is in
      `s.strip()`. */
  lemma StripKeepsWord(s: string, w: string)
    requires Contains(s, w)
    requires w != [] && !IsSpace(w[0]) && !IsSpace(w[|w| - 1])
    ensures Contains(Strip(s), w)
  {
    var i: nat :| i <= |s| && OccursAt(s, w, i);
    var r := Strip(s);
    var a: nat :| StrippedAt(s, r, a);
    OccursInStripped(s, r, a, w, i);
  }

  /** An occurrence of such a word in `s` lies inside the stripped piece. */
  lemma OccursInStripped(s: string, r: string, a: nat, w: string, i: nat)
    requires StrippedAt(s, r, a) && OccursAt(s, w, i)
    requires w != [] && !IsSpace(w[0]) && !IsSpace(w[|w| - 1])
    ensures Contains(r, w)
  {
    assert s[i] == w[0] && s[i + |w| - 1] == w[|w| - 1];
    InsideStripped(s, r, a, i, i + |w| - 1);
    OccursInPiece(s, r, a, w, i);
  }

  /** Two non-whitespace characters of `s` lie inside its stripped piece. */
  lemma InsideStripped(s: string, r: string, a: nat, i: nat, j: nat)
    requires StrippedAt(s, r, a)
    requires i <= j < |s| && !IsSpace(s[i]) && !IsSpace(s[j])
    ensures a <= i && j < a + |r|
  {
    NonSpaceNotInPrefix(s, a, i);
    NonSpaceNotInSuffix(s, a + |r|, j);
  }

  /** An occurrence inside the piece `s[a..a + |r|] == r` is an occurrence in `r`. */
  lemma OccursInPiece(s: string, r: string, a: nat, w: string, i: nat)
    requires a + |r| <= |s| && s[a..a + |r|] == r
    requires OccursAt(s, w, i) && a <= i && i + |w| <= a + |r|
    ensures Contains(r, w)
  {
    forall k | 0 <= k < |w|
      ensures r[i - a + k] == w[k]
    {
      assert r[i - a + k] == s[a..a + |r|][i - a + k] == s[i + k] == s[i..i + |w|][k];
    }
    assert r[i - a..i - a + |w|] == w;
    assert OccursAt(r, w, i - a);
  }

  /** A non-whitespace character lies beyond an all-whitespace prefix. */
  lemma NonSpaceNotInPrefix(s: string, a: nat, i: nat)
    requires a <= |s| && AllSpace(s[..a])
    requires i < |s| && !IsSpace(s[i])
    ensures a <= i
  {
    if i < a {
      assert false;
    }
  }

  /** A non-whitespace character lies before an all-whitespace suffix. */
  lemma NonSpaceNotInSuffix(s: string, b: nat, i: nat)
    requires b <= |s| && AllSpace(s[b..])
    requires i < |s| && !IsSpace(s[i])
    ensures i < b
  {
    if b <= i {
      assert false;
    }
  }

  /** Stripping text without upper-case letters leaves none. */
  lemma StripNoUpper(s: string)
    requires NoUpper(s)
    ensures NoUpper(Strip(s))
  {
    var r := Strip(s);
    var a: nat :| StrippedAt(s, r, a);
    assert forall k :: 0 <= k < |r| ==> r[k] == s[a + k];
  }
}
