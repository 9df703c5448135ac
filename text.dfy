/** The JavaScript string built-ins the core relies on: what `\s` matches,
    `String.prototype.trim`, `toLowerCase` (ASCII letters only) and `startsWith`. */
module Text {

  /** ECMAScript WhiteSpace and LineTerminator code points: the set matched by
      the regular-expression class `\s` and removed by `trim`. */
  predicate IsSpace(c: char): (r: bool)
    ensures c == ' ' || c == '\t' || c == '\n' || c == '\r' ==> r
    ensures r ==> !('a' <= c <= 'z' || 'A' <= c <= 'Z' || '0' <= c <= '9' || c == '_' || c == '-' || c == '{')
  {
    || c == '\t' || c == '\n' || c == '\U{000B}' || c == '\U{000C}' || c == '\r'
    || c == ' ' || c == '\U{00A0}' || c == '\U{1680}'
    || ('\U{2000}' <= c <= '\U{200A}')
    || c == '\U{2028}' || c == '\U{2029}' || c == '\U{202F}' || c == '\U{205F}'
    || c == '\U{3000}' || c == '\U{FEFF}'
  }

  /** The first index at or after `i` that is not white space (or `|s|`). */
  function SkipSpace(s: string, i: nat): (j: nat)
    requires i <= |s|
    ensures i <= j <= |s|
    ensures forall k :: i <= k < j ==> IsSpace(s[k])
    ensures j < |s| ==> !IsSpace(s[j])
    decreases |s| - i
  {
    if i < |s| && IsSpace(s[i]) then SkipSpace(s, i + 1) else i
  }

  /** The end of `s[lo..j]` once its trailing white-space run is dropped. */
  function SkipSpaceBack(s: string, lo: nat, j: nat): (m: nat)
    requires lo <= j <= |s|
    ensures lo <= m <= j
    ensures forall k :: m <= k < j ==> IsSpace(s[k])
    ensures m > lo ==> !IsSpace(s[m - 1])
    decreases j
  {
    if j > lo && IsSpace(s[j - 1]) then SkipSpaceBack(s, lo, j - 1) else j
  }

  /** Drops the leading run of white space (what a trailing `\s*` in an anchored pattern eats). */
  function TrimStart(s: string): (r: string)
    ensures |r| <= |s| && r == s[|s| - |r|..]
    ensures forall k :: 0 <= k < |s| - |r| ==> IsSpace(s[k])
    ensures r == [] || !IsSpace(r[0])
  {
    s[SkipSpace(s, 0)..]
  }

  /** `String.prototype.trim`: the longest infix that neither starts nor ends with white space,
      everything cut off being white space. */
  function Trim(s: string): (r: string)
    ensures SkipSpace(s, 0) + |r| <= |s|
    ensures r == s[SkipSpace(s, 0)..SkipSpace(s, 0) + |r|]
    ensures forall k :: 0 <= k < SkipSpace(s, 0) ==> IsSpace(s[k])
    ensures forall k :: SkipSpace(s, 0) + |r| <= k < |s| ==> IsSpace(s[k])
    ensures r == [] || (!IsSpace(r[0]) && !IsSpace(r[|r| - 1]))
  {
    var a := SkipSpace(s, 0);
    s[a..SkipSpaceBack(s, a, |s|)]
  }

  /** A string without white space is its own trim. */
  lemma TrimNoSpace(s: string)
    requires forall k :: 0 <= k < |s| ==> !IsSpace(s[k])
    ensures TrimStart(s) == s && Trim(s) == s
  {
    assert SkipSpace(s, 0) == 0;
    assert SkipSpaceBack(s, 0, |s|) == |s|;
  }

  /** A string that neither starts nor ends with white space is its own trim. */
  lemma TrimNoSpaceAtEnds(s: string)
    requires s != [] && !IsSpace(s[0]) && !IsSpace(s[|s| - 1])
    ensures Trim(s) == s
  {
    assert SkipSpace(s, 0) == 0;
    assert SkipSpaceBack(s, 0, |s|) == |s|;
  }

  lemma {:induction false} SkipSpaceShift(s: string, a: nat, i: nat)
    requires a <= i <= |s|
    ensures SkipSpace(s[a..], i - a) == SkipSpace(s, i) - a
    decreases |s| - i
  {
    if i < |s| && IsSpace(s[i]) {
      assert s[a..][i - a] == s[i];
      SkipSpaceShift(s, a, i + 1);
    } else if i < |s| {
      assert s[a..][i - a] == s[i];
    }
  }

  lemma {:induction false} SkipSpaceBackShift(s: string, a: nat, j: nat)
    requires a <= j <= |s|
    ensures SkipSpaceBack(s[a..], 0, j - a) == SkipSpaceBack(s, a, j) - a
    decreases j
  {
    if j > a {
      assert s[a..][j - a - 1] == s[j - 1];
      if IsSpace(s[j - 1]) {
        SkipSpaceBackShift(s, a, j - 1);
      }
    }
  }

  /** Trimming the start first changes nothing about the full trim. */
  lemma TrimAfterTrimStart(s: string)
    ensures Trim(TrimStart(s)) == Trim(s)
  {
    var a := SkipSpace(s, 0);
    var t := s[a..];
    assert SkipSpace(t, 0) == 0;
    SkipSpaceBackShift(s, a, |s|);
    var m := SkipSpaceBack(s, a, |s|);
    assert Trim(t) == t[..m - a];
    assert t[..m - a] == s[a..m];
  }

  /** A leading space is part of the white-space run that the start trim drops. */
  lemma SpaceThenTrimStart(s: string)
    ensures TrimStart(" " + s) == TrimStart(s)
  {
    var u := " " + s;
    assert u[0] == ' ' && u[1..] == s;
    SkipSpaceShift(u, 1, 1);
    assert SkipSpace(u, 0) == SkipSpace(u, 1);
  }

  /** One more leading space does not change the trim. */
  lemma TrimLeadingSpace(s: string)
    ensures Trim(" " + s) == Trim(s)
  {
    TrimAfterTrimStart(" " + s);
    SpaceThenTrimStart(s);
    TrimAfterTrimStart(s);
  }

  function LowerChar(c: char): (r: char)
    ensures 'A' <= c <= 'Z' ==> r as int == c as int + 32
    ensures !('A' <= c <= 'Z') ==> r == c
  {
    if 'A' <= c <= 'Z' then (c as int + 32) as char else c
  }

  /** `toLowerCase`, restricted to the ASCII letters. */
  function ToLowerAscii(s: string): (r: string)
    ensures |r| == |s|
    ensures forall i :: 0 <= i < |s| ==> r[i] == LowerChar(s[i])
  {
    if s == [] then [] else [LowerChar(s[0])] + ToLowerAscii(s[1..])
  }

  predicate StartsWith(s: string, prefix: string): (r: bool)
    ensures r <==> |prefix| <= |s| && forall i :: 0 <= i < |prefix| ==> s[i] == prefix[i]
  {
    |prefix| <= |s| && s[..|prefix|] == prefix
  }
}
