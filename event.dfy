/** `slugifyEventName` of src/lib/utils/event.ts: lower-case, trim, drop every character outside
    `[a-z0-9\s-]`, turn each white-space run into one hyphen, collapse hyphen runs, and drop a
    leading and a trailing hyphen. Each `replace` call is one function below. */
module Event {
  import opened Text

  predicate IsAlnum(c: char) {
    ('a' <= c <= 'z') || ('0' <= c <= '9')
  }

  /** A character the slug may contain: `a-z`, `0-9` and `-`. */
  predicate IsSlugChar(c: char) {
    IsAlnum(c) || c == '-'
  }

  predicate SlugChars(s: string) {
    forall i :: 0 <= i < |s| ==> IsSlugChar(s[i])
  }

  predicate NoDoubleHyphen(s: string) {
    forall i :: 0 <= i < |s| - 1 ==> !(s[i] == '-' && s[i + 1] == '-')
  }

  predicate NoEdgeHyphen(s: string) {
    s == [] || (s[0] != '-' && s[|s| - 1] != '-')
  }

  /** The output language of the slugifier. */
  predicate IsSlug(s: string) {
    SlugChars(s) && NoDoubleHyphen(s) && NoEdgeHyphen(s)
  }

  /** The letters and digits of `s`, in order. */
  function Alnums(s: string): (r: string)
    ensures forall i :: 0 <= i < |r| ==> IsAlnum(r[i])
  {
    if s == [] then [] else (if IsAlnum(s[0]) then [s[0]] else []) + Alnums(s[1..])
  }

  // ---------------------------------------------------------------------------
  // The replace steps
  // ---------------------------------------------------------------------------

  /** The class `[a-z0-9\s-]` that the first replace keeps. */
  predicate Kept(c: char) {
    IsAlnum(c) || IsSpace(c) || c == '-'
  }

  /** `.replace(/[^a-z0-9\s-]/g, '')`. */
  function RemoveSpecial(s: string): (r: string)
    ensures |r| <= |s|
    ensures forall i :: 0 <= i < |r| ==> Kept(r[i])
    ensures (forall i :: 0 <= i < |s| ==> Kept(s[i])) ==> r == s
  {
    if s == [] then []
    else if Kept(s[0]) then [s[0]] + RemoveSpecial(s[1..])
    else RemoveSpecial(s[1..])
  }

  /** `.replace(/\s+/g, '-')`: each maximal white-space run becomes one hyphen, written at the
      run's last character. */
  function HyphenateSpaces(s: string): (r: string)
    ensures forall i :: 0 <= i < |r| ==> !IsSpace(r[i])
    ensures (forall i :: 0 <= i < |s| ==> Kept(s[i])) ==> SlugChars(r)
    ensures (forall i :: 0 <= i < |s| ==> !IsSpace(s[i])) ==> r == s
    ensures s != [] && IsSpace(s[0]) ==> r != [] && r[0] == '-'
    ensures s != [] && !IsSpace(s[0]) ==> r != [] && r[0] == s[0]
  {
    if s == [] then []
    else if IsSpace(s[0]) then
      if |s| > 1 && IsSpace(s[1]) then HyphenateSpaces(s[1..]) else "-" + HyphenateSpaces(s[1..])
    else [s[0]] + HyphenateSpaces(s[1..])
  }

  /** `.replace(/-+/g, '-')`: each maximal hyphen run becomes one hyphen. */
  function CollapseHyphens(s: string): (r: string)
    ensures s != [] ==> r != [] && r[0] == s[0]
    ensures NoDoubleHyphen(r)
    ensures SlugChars(s) ==> SlugChars(r)
    ensures NoDoubleHyphen(s) ==> r == s
  {
    if s == [] then []
    else if |s| > 1 && s[0] == '-' && s[1] == '-' then CollapseHyphens(s[1..])
    else [s[0]] + CollapseHyphens(s[1..])
  }

  /** `.replace(/^-|-$/g, '')`: one leading and one trailing hyphen go. */
  function StripEdgeHyphens(s: string): (r: string)
    ensures NoDoubleHyphen(s) ==> NoEdgeHyphen(r) && NoDoubleHyphen(r)
    ensures SlugChars(s) ==> SlugChars(r)
    ensures NoEdgeHyphen(s) ==> r == s
  {
    var a := if s != [] && s[0] == '-' then s[1..] else s;
    if a != [] && a[|a| - 1] == '-' then a[..|a| - 1] else a
  }

  /** `slugifyEventName`. */
  function Slugify(name: string): (r: string)
    ensures IsSlug(r)
  {
    var kept := RemoveSpecial(Trim(ToLowerAscii(name)));
    var hyphenated := HyphenateSpaces(kept);
    StripEdgeHyphens(CollapseHyphens(hyphenated))
  }

  // ---------------------------------------------------------------------------
  // A slug is its own slug
  // ---------------------------------------------------------------------------

  lemma LowerSlug(s: string)
    requires SlugChars(s)
    ensures ToLowerAscii(s) == s
  {
    var l := ToLowerAscii(s);
    forall i | 0 <= i < |s|
      ensures l[i] == s[i]
    {
    }
  }

  /** Every step leaves a slug unchanged. */
  lemma SlugIsFixedPoint(s: string)
    requires IsSlug(s)
    ensures Slugify(s) == s
  {
    LowerSlug(s);
    TrimNoSpace(s);
  }

  /** Slugifying twice is slugifying once. */
  lemma SlugifyIdempotent(name: string)
    ensures Slugify(Slugify(name)) == Slugify(name)
  {
    SlugIsFixedPoint(Slugify(name));
  }

  // ---------------------------------------------------------------------------
  // The slug keeps exactly the letters and digits
  // ---------------------------------------------------------------------------

  lemma SplitTwo(s: string, b: nat)
    requires b <= |s|
    ensures s == s[..b] + s[b..]
  {
  }

  lemma SplitThree(s: string, a: nat, b: nat)
    requires a <= b <= |s|
    ensures s == s[..a] + s[a..b] + s[b..]
  {
  }

  lemma {:induction false} AlnumsConcat(a: string, b: string)
    ensures Alnums(a + b) == Alnums(a) + Alnums(b)
  {
    if a == [] {
      assert a + b == b;
    } else {
      var head := if IsAlnum(a[0]) then [a[0]] else [];
      assert (a + b)[0] == a[0] && (a + b)[1..] == a[1..] + b;
      AlnumsConcat(a[1..], b);
      assert Alnums(a + b) == head + (Alnums(a[1..]) + Alnums(b));
    }
  }

  lemma {:induction false} AlnumsNone(s: string)
    requires forall i :: 0 <= i < |s| ==> !IsAlnum(s[i])
    ensures Alnums(s) == []
  {
    if s != [] {
      AlnumsNone(s[1..]);
    }
  }

  lemma AlnumsDropPrefix(s: string, a: nat)
    requires a <= |s|
    requires forall k :: 0 <= k < a ==> !IsAlnum(s[k])
    ensures Alnums(s[a..]) == Alnums(s)
  {
    assert s == s[..a] + s[a..];
    AlnumsConcat(s[..a], s[a..]);
    AlnumsNone(s[..a]);
  }

  lemma NoneInSuffix(s: string, b: nat)
    requires b <= |s|
    requires forall k :: b <= k < |s| ==> !IsAlnum(s[k])
    ensures forall k :: 0 <= k < |s[b..]| ==> !IsAlnum(s[b..][k])
  {
  }

  lemma AlnumsDropSuffix(s: string, b: nat)
    requires b <= |s|
    requires forall k :: b <= k < |s| ==> !IsAlnum(s[k])
    ensures Alnums(s[..b]) == Alnums(s)
  {
    SplitTwo(s, b);
    NoneInSuffix(s, b);
    AlnumsConcat(s[..b], s[b..]);
    AlnumsNone(s[b..]);
  }

  /** Cutting off characters that are neither letters nor digits keeps the letters and digits. */
  lemma AlnumsOfInfix(s: string, a: nat, b: nat)
    requires a <= b <= |s|
    requires forall k :: 0 <= k < a ==> !IsAlnum(s[k])
    requires forall k :: b <= k < |s| ==> !IsAlnum(s[k])
    ensures Alnums(s[a..b]) == Alnums(s)
  {
    var p := s[..b];
    assert p[a..] == s[a..b];
    AlnumsDropPrefix(p, a);
    AlnumsDropSuffix(s, b);
  }

  /** Trim cuts off white space only. */
  lemma TrimKeepsAlnums(s: string)
    ensures Alnums(Trim(s)) == Alnums(s)
  {
    var a := SkipSpace(s, 0);
    AlnumsOfInfix(s, a, a + |Trim(s)|);
  }

  lemma {:induction false} RemoveSpecialKeepsAlnums(s: string)
    ensures Alnums(RemoveSpecial(s)) == Alnums(s)
  {
    if s != [] {
      RemoveSpecialKeepsAlnums(s[1..]);
      if Kept(s[0]) {
        AlnumsConcat([s[0]], RemoveSpecial(s[1..]));
      }
    }
  }

  lemma {:induction false} HyphenateKeepsAlnums(s: string)
    ensures Alnums(HyphenateSpaces(s)) == Alnums(s)
  {
    if s != [] {
      HyphenateKeepsAlnums(s[1..]);
      if IsSpace(s[0]) {
        AlnumsConcat("-", HyphenateSpaces(s[1..]));
      } else {
        AlnumsConcat([s[0]], HyphenateSpaces(s[1..]));
      }
    }
  }

  lemma {:induction false} CollapseKeepsAlnums(s: string)
    ensures Alnums(CollapseHyphens(s)) == Alnums(s)
  {
    if s != [] {
      CollapseKeepsAlnums(s[1..]);
      AlnumsConcat([s[0]], CollapseHyphens(s[1..]));
    }
  }

  lemma StripKeepsAlnums(s: string)
    ensures Alnums(StripEdgeHyphens(s)) == Alnums(s)
  {
    var a := if s != [] && s[0] == '-' then s[1..] else s;
    if s != [] && s[0] == '-' {
      assert s == "-" + a;
      AlnumsConcat("-", a);
    }
    if a != [] && a[|a| - 1] == '-' {
      assert a == a[..|a| - 1] + "-";
      AlnumsConcat(a[..|a| - 1], "-");
    }
  }

  /** The slug holds the letters and digits of the lower-cased name, in order, and nothing else
      but hyphens. */
  lemma SlugKeepsAlnums(name: string)
    ensures Alnums(Slugify(name)) == Alnums(ToLowerAscii(name))
  {
    var t := Trim(ToLowerAscii(name));
    var kept := RemoveSpecial(t);
    var hyphenated := HyphenateSpaces(kept);
    TrimKeepsAlnums(ToLowerAscii(name));
    RemoveSpecialKeepsAlnums(t);
    HyphenateKeepsAlnums(kept);
    CollapseKeepsAlnums(hyphenated);
    StripKeepsAlnums(CollapseHyphens(hyphenated));
  }

  /** A non-empty slug holds a letter or digit: it cannot start with a hyphen. */
  lemma SlugHasAlnum(s: string)
    requires IsSlug(s) && s != []
    ensures Alnums(s) != []
  {
    assert IsAlnum(s[0]);
    assert Alnums(s) == [s[0]] + Alnums(s[1..]);
  }

  /** The slug is empty exactly when the lower-cased name has no letter or digit. */
  lemma SlugEmptyIff(name: string)
    ensures Slugify(name) == [] <==> Alnums(ToLowerAscii(name)) == []
  {
    SlugKeepsAlnums(name);
    if Slugify(name) != [] {
      SlugHasAlnum(Slugify(name));
    }
  }

  // ---------------------------------------------------------------------------
  // The slug is the words of the name joined by hyphens
  // ---------------------------------------------------------------------------

  /** A non-empty run of letters and digits. */
  predicate IsAlnumRun(w: string) {
    w != [] && forall k :: 0 <= k < |w| ==> IsAlnum(w[k])
  }

  /** The maximal runs of letters and digits of `s`, in order; every other character separates. */
  function Words(s: string): (r: seq<string>)
    ensures forall i :: 0 <= i < |r| ==> IsAlnumRun(r[i])
    ensures s != [] && IsAlnum(s[0]) ==> r != []
  {
    if s == [] then []
    else
      var ws := Words(s[1..]);
      if !IsAlnum(s[0]) then ws
      else if |s| > 1 && IsAlnum(s[1]) then [[s[0]] + ws[0]] + ws[1..]
      else [[s[0]]] + ws
  }

  /** The words separated by single hyphens. */
  function JoinHyphen(ws: seq<string>): string {
    if ws == [] then [] else if |ws| == 1 then ws[0] else ws[0] + "-" + JoinHyphen(ws[1..])
  }

  /** How the words of `[c] + u` arise from the words of `u`. */
  lemma WordsCons(c: char, u: string)
    ensures !IsAlnum(c) ==> Words([c] + u) == Words(u)
    ensures IsAlnum(c) && u != [] && IsAlnum(u[0]) ==> Words([c] + u) == [[c] + Words(u)[0]] + Words(u)[1..]
    ensures IsAlnum(c) && (u == [] || !IsAlnum(u[0])) ==> Words([c] + u) == [[c]] + Words(u)
  {
    assert ([c] + u)[1..] == u;
  }

  lemma JoinCons(c: char, ws: seq<string>)
    requires ws != []
    ensures JoinHyphen([[c] + ws[0]] + ws[1..]) == [c] + JoinHyphen(ws)
  {
    var v := [[c] + ws[0]] + ws[1..];
    if |ws| > 1 {
      assert v[1..] == ws[1..];
    }
  }

  lemma JoinSingleton(w: string, ws: seq<string>)
    requires ws != []
    ensures JoinHyphen([w] + ws) == w + "-" + JoinHyphen(ws)
  {
    assert ([w] + ws)[1..] == ws;
  }

  /** Turning white-space runs into hyphens neither merges nor splits words. */
  lemma {:induction false} HyphenateKeepsWords(s: string)
    ensures Words(HyphenateSpaces(s)) == Words(s)
  {
    if s != [] {
      var u := s[1..];
      assert s == [s[0]] + u;
      HyphenateKeepsWords(u);
      WordsCons(s[0], u);
      if IsSpace(s[0]) {
        if !(|s| > 1 && IsSpace(s[1])) {
          WordsCons('-', HyphenateSpaces(u));
        }
      } else {
        WordsCons(s[0], HyphenateSpaces(u));
      }
    }
  }

  /** Collapsing hyphen runs neither merges nor splits words. */
  lemma {:induction false} CollapseKeepsWords(s: string)
    ensures Words(CollapseHyphens(s)) == Words(s)
  {
    if s != [] {
      var u := s[1..];
      assert s == [s[0]] + u;
      CollapseKeepsWords(u);
      WordsCons(s[0], u);
      if !(|s| > 1 && s[0] == '-' && s[1] == '-') {
        WordsCons(s[0], CollapseHyphens(u));
      }
    }
  }

  /** Leading separators carry no words. */
  lemma {:induction false} WordsDropPrefix(p: string, x: string)
    requires forall k :: 0 <= k < |p| ==> !IsAlnum(p[k])
    ensures Words(p + x) == Words(x)
  {
    if p == [] {
      assert p + x == x;
    } else {
      assert p + x == [p[0]] + (p[1..] + x);
      WordsCons(p[0], p[1..] + x);
      WordsDropPrefix(p[1..], x);
    }
  }

  /** Trailing separators carry no words. */
  lemma {:induction false} WordsDropSuffix(x: string, p: string)
    requires forall k :: 0 <= k < |p| ==> !IsAlnum(p[k])
    ensures Words(x + p) == Words(x)
  {
    if x == [] {
      assert x + p == p + x;
      WordsDropPrefix(p, x);
    } else {
      var u := x[1..];
      assert x == [x[0]] + u && x + p == [x[0]] + (u + p);
      WordsDropSuffix(u, p);
      WordsCons(x[0], u);
      WordsCons(x[0], u + p);
      if u != [] {
        assert (u + p)[0] == u[0];
      }
    }
  }

  lemma {:induction false} RemoveSpecialConcat(a: string, b: string)
    ensures RemoveSpecial(a + b) == RemoveSpecial(a) + RemoveSpecial(b)
  {
    if a == [] {
      assert a + b == b;
    } else {
      assert (a + b)[0] == a[0] && (a + b)[1..] == a[1..] + b;
      RemoveSpecialConcat(a[1..], b);
    }
  }

  /** Separators around a string carry no words. */
  lemma WordsOfPadded(pre: string, m: string, suf: string)
    requires forall k :: 0 <= k < |pre| ==> !IsAlnum(pre[k])
    requires forall k :: 0 <= k < |suf| ==> !IsAlnum(suf[k])
    ensures Words(pre + m + suf) == Words(m)
  {
    WordsDropPrefix(pre, m);
    WordsDropSuffix(pre + m, suf);
  }

  lemma RemoveSpecialOfPadded(pre: string, t: string, suf: string)
    requires forall k :: 0 <= k < |pre| ==> IsSpace(pre[k])
    requires forall k :: 0 <= k < |suf| ==> IsSpace(suf[k])
    ensures RemoveSpecial(pre + t + suf) == pre + RemoveSpecial(t) + suf
  {
    RemoveSpecialConcat(pre + t, suf);
    RemoveSpecialConcat(pre, t);
  }

  lemma SpacesSeparate(p: string)
    requires forall k :: 0 <= k < |p| ==> IsSpace(p[k])
    ensures forall k :: 0 <= k < |p| ==> !IsAlnum(p[k])
  {
  }

  /** White space around a string, deleted or not, adds no words. */
  lemma WordsOfSpacePadded(pre: string, t: string, suf: string)
    requires forall k :: 0 <= k < |pre| ==> IsSpace(pre[k])
    requires forall k :: 0 <= k < |suf| ==> IsSpace(suf[k])
    ensures Words(RemoveSpecial(pre + t + suf)) == Words(RemoveSpecial(t))
  {
    RemoveSpecialOfPadded(pre, t, suf);
    SpacesSeparate(pre);
    SpacesSeparate(suf);
    WordsOfPadded(pre, RemoveSpecial(t), suf);
  }

  /** Trimming before the first replace removes white space only, which separates nothing new. */
  lemma TrimKeepsWords(s: string)
    ensures Words(RemoveSpecial(Trim(s))) == Words(RemoveSpecial(s))
  {
    var a := SkipSpace(s, 0);
    var b := a + |Trim(s)|;
    var suf := s[b..];
    SplitThree(s, a, b);
    forall k | 0 <= k < |suf|
      ensures IsSpace(suf[k])
    {
      assert suf[k] == s[b + k];
    }
    WordsOfSpacePadded(s[..a], Trim(s), suf);
  }

  /** `x` less one trailing hyphen. */
  function DropTrailingHyphen(x: string): (r: string)
    ensures x != [] && x[|x| - 1] == '-' ==> x == r + "-"
    ensures !(x != [] && x[|x| - 1] == '-') ==> r == x
  {
    if x != [] && x[|x| - 1] == '-' then x[..|x| - 1] else x
  }

  lemma DropTrailingCons(c: char, u: string)
    requires u != []
    ensures DropTrailingHyphen([c] + u) == [c] + DropTrailingHyphen(u)
  {
    if u[|u| - 1] == '-' {
      assert [c] + u == [c] + DropTrailingHyphen(u) + "-";
    }
  }

  lemma JoinWordsAlnumStep(x: string)
    requires |x| > 1 && IsAlnum(x[0]) && IsAlnum(x[1])
    requires JoinHyphen(Words(x[1..])) == DropTrailingHyphen(x[1..])
    ensures JoinHyphen(Words(x)) == DropTrailingHyphen(x)
  {
    var u := x[1..];
    assert x == [x[0]] + u;
    WordsCons(x[0], u);
    JoinCons(x[0], Words(u));
    DropTrailingCons(x[0], u);
  }

  lemma WordsAlnumHyphen(x: string)
    requires |x| > 2 && IsAlnum(x[0]) && x[1] == '-'
    ensures Words(x) == [[x[0]]] + Words(x[2..])
  {
    var u, v := x[1..], x[2..];
    assert x == [x[0]] + u && u == ['-'] + v;
    WordsCons(x[0], u);
    WordsCons('-', v);
  }

  lemma DropTrailingAlnumHyphen(x: string)
    requires |x| > 2 && x[1] == '-'
    ensures DropTrailingHyphen(x) == [x[0]] + "-" + DropTrailingHyphen(x[2..])
  {
    var u, v := x[1..], x[2..];
    assert x == [x[0]] + u && u == ['-'] + v;
    DropTrailingCons('-', v);
    DropTrailingCons(x[0], u);
  }

  lemma JoinWordsHyphenStep(x: string)
    requires |x| > 2 && IsAlnum(x[0]) && x[1] == '-' && IsAlnum(x[2])
    requires JoinHyphen(Words(x[2..])) == DropTrailingHyphen(x[2..])
    ensures JoinHyphen(Words(x)) == DropTrailingHyphen(x)
  {
    WordsAlnumHyphen(x);
    JoinSingleton([x[0]], Words(x[2..]));
    DropTrailingAlnumHyphen(x);
  }

  /** A hyphenated string whose hyphens are single and not in front is its words joined by
      hyphens, less a trailing hyphen. */
  lemma {:induction false} JoinWordsOfSlugChars(x: string)
    requires SlugChars(x) && NoDoubleHyphen(x) && (x == [] || x[0] != '-')
    ensures JoinHyphen(Words(x)) == DropTrailingHyphen(x)
    decreases |x|
  {
    if x == [] {
    } else if |x| == 1 {
      WordsCons(x[0], []);
      assert x == [x[0]] + [];
    } else if IsAlnum(x[1]) {
      JoinWordsOfSlugChars(x[1..]);
      JoinWordsAlnumStep(x);
    } else if |x| == 2 {
      assert x == [x[0]] + ['-'];
      WordsCons(x[0], ['-']);
      WordsCons('-', []);
      assert ['-'] == ['-'] + [];
    } else {
      assert IsSlugChar(x[2]) && x[2] != '-';
      JoinWordsOfSlugChars(x[2..]);
      JoinWordsHyphenStep(x);
    }
  }

  /** Dropping the edge hyphens of a string with single hyphens joins its words by hyphens. */
  lemma StripIsJoin(c: string)
    requires SlugChars(c) && NoDoubleHyphen(c)
    ensures StripEdgeHyphens(c) == JoinHyphen(Words(c))
  {
    if c != [] && c[0] == '-' {
      var a := c[1..];
      assert c == ['-'] + a;
      WordsCons('-', a);
      assert a == [] || a[0] == c[1];
      JoinWordsOfSlugChars(a);
    } else {
      JoinWordsOfSlugChars(c);
    }
  }

  /** The slug is the words of the lower-cased name, once the characters outside
      `[a-z0-9\s-]` are deleted, joined by single hyphens. */
  lemma SlugIsJoinedWords(name: string)
    ensures Slugify(name) == JoinHyphen(Words(RemoveSpecial(ToLowerAscii(name))))
  {
    var lower := ToLowerAscii(name);
    var kept := RemoveSpecial(Trim(lower));
    var hyphenated := HyphenateSpaces(kept);
    TrimKeepsWords(lower);
    HyphenateKeepsWords(kept);
    CollapseKeepsWords(hyphenated);
    StripIsJoin(CollapseHyphens(hyphenated));
  }

  /** A run of letters and digits followed by a separator (or nothing) is one word. */
  lemma {:induction false} WordsOfRun(w: string, rest: string)
    requires IsAlnumRun(w) && (rest == [] || !IsAlnum(rest[0]))
    ensures Words(w + rest) == [w] + Words(rest)
    decreases |w|
  {
    var u := w[1..] + rest;
    assert w + rest == [w[0]] + u;
    if |w| == 1 {
      assert u == rest;
      WordsCons(w[0], rest);
    } else {
      WordsOfRun(w[1..], rest);
      assert u[0] == w[1];
      WordsCons(w[0], u);
      assert [w[0]] + w[1..] == w;
    }
  }

  /** Two lower-case words separated by one space become those words joined by a hyphen
      ("Hello World" gives "hello-world"). */
  lemma SlugTwoWords(a: string, b: string)
    requires IsAlnumRun(a) && IsAlnumRun(b)
    ensures Slugify(a + " " + b) == a + "-" + b
  {
    var x := a + " " + b;
    var l := ToLowerAscii(x);
    forall i | 0 <= i < |x|
      ensures l[i] == x[i] && Kept(x[i])
    {
      if i < |a| {
        assert x[i] == a[i];
      } else if i > |a| {
        assert x[i] == b[i - |a| - 1];
      }
    }
    assert l == x;
    assert x == a + (" " + b);
    WordsOfRun(a, " " + b);
    WordsCons(' ', b);
    assert b + [] == b;
    WordsOfRun(b, []);
    JoinSingleton(a, [b]);
    SlugIsJoinedWords(x);
  }
}
