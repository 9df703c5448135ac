/** Translation lookup, placeholder substitution and language detection of
    src/lib/i18n/index.ts. The three locale trees, the stored language, the browser language
    and whether a browser is present are parameters. */
module I18n {
  import opened Wrappers
  import opened Text

  datatype Language = En | Nb | Nn

  /** A locale tree as read from a JSON locale file: objects whose leaves are strings. */
  datatype Node = Leaf(text: string) | Object(children: map<string, Node>)

  /** The `translations` object `{ en, nb, nn }`. */
  datatype Translations = Translations(en: Node, nb: Node, nn: Node)

  function Tree(tr: Translations, lang: Language): Node {
    match lang
    case En => tr.en
    case Nb => tr.nb
    case Nn => tr.nn
  }

  // ---------------------------------------------------------------------------
  // key.split('.')
  // ---------------------------------------------------------------------------

  predicate NoDot(s: string) {
    forall i :: 0 <= i < |s| ==> s[i] != '.'
  }

  /** `key.split('.')`: never empty; no segment holds a dot. */
  function SplitDots(s: string): (r: seq<string>)
    ensures |r| >= 1
    ensures forall i :: 0 <= i < |r| ==> NoDot(r[i])
    ensures NoDot(s) ==> r == [s]
  {
    if s == [] then [""]
    else
      var rest := SplitDots(s[1..]);
      if s[0] == '.' then [""] + rest
      else
        assert NoDot(s) ==> NoDot(s[1..]);
        assert [s[0]] + s[1..] == s;
        [[s[0]] + rest[0]] + rest[1..]
  }

  /** `segments.join('.')`. */
  function JoinDots(segs: seq<string>): (r: string)
    requires |segs| >= 1
    decreases |segs|
  {
    if |segs| == 1 then segs[0] else segs[0] + "." + JoinDots(segs[1..])
  }

  lemma {:induction false} JoinSplit(s: string)
    ensures JoinDots(SplitDots(s)) == s
    decreases |s|
  {
    if s != [] {
      var rest := SplitDots(s[1..]);
      JoinSplit(s[1..]);
      if s[0] == '.' {
        assert ([""] + rest)[1..] == rest;
        assert s == "." + s[1..];
      } else {
        var segs := [[s[0]] + rest[0]] + rest[1..];
        if |rest| == 1 {
          assert JoinDots(rest) == rest[0];
        } else {
          assert JoinDots(rest) == rest[0] + "." + JoinDots(rest[1..]);
          assert segs[1..] == rest[1..];
        }
        assert s == [s[0]] + s[1..];
      }
    }
  }

  lemma SplitCons(c: char, s: string)
    requires c != '.'
    ensures SplitDots([c] + s)[0] == [c] + SplitDots(s)[0]
    ensures SplitDots([c] + s)[1..] == SplitDots(s)[1..]
  {
    assert ([c] + s)[1..] == s;
  }

  /** A dot-free word in front of a string joins the first segment. */
  lemma {:induction false} SplitDotFreePrefix(w: string, rest: string)
    requires NoDot(w)
    ensures SplitDots(w + rest)[0] == w + SplitDots(rest)[0]
    ensures SplitDots(w + rest)[1..] == SplitDots(rest)[1..]
    decreases |w|
  {
    if w == [] {
      assert w + rest == rest;
    } else {
      assert w + rest == [w[0]] + (w[1..] + rest);
      SplitCons(w[0], w[1..] + rest);
      SplitDotFreePrefix(w[1..], rest);
      assert [w[0]] + (w[1..] + SplitDots(rest)[0]) == w + SplitDots(rest)[0];
    }
  }

  /** Splitting a join of dot-free segments gives the segments back. */
  lemma {:induction false} SplitJoin(segs: seq<string>)
    requires |segs| >= 1
    requires forall i :: 0 <= i < |segs| ==> NoDot(segs[i])
    ensures SplitDots(JoinDots(segs)) == segs
    decreases |segs|
  {
    if |segs| == 1 {
      assert segs == [segs[0]];
    } else {
      var tail := JoinDots(segs[1..]);
      SplitJoin(segs[1..]);
      var dotted := "." + tail;
      assert dotted[1..] == tail;
      assert SplitDots(dotted) == [""] + segs[1..];
      assert segs[0] + "." + tail == segs[0] + dotted;
      SplitDotFreePrefix(segs[0], dotted);
      var r := SplitDots(segs[0] + dotted);
      assert r[0] == segs[0] && r[1..] == segs[1..];
      assert r == [r[0]] + r[1..];
    }
  }

  // ---------------------------------------------------------------------------
  // Walking a key path
  // ---------------------------------------------------------------------------

  /** `value?.[k]`: `None` stands for `undefined`. A string leaf is terminal. */
  function Step(v: Option<Node>, k: string): (r: Option<Node>)
    ensures r.Some? ==> v.Some? && v.value.Object? && k in v.value.children
  {
    if v.Some? && v.value.Object? && k in v.value.children then Some(v.value.children[k]) else None
  }

  /** The value after the loop has consumed `keys`, one `Step` per segment, left to right. */
  function Walk(v: Option<Node>, keys: seq<string>): Option<Node>
    decreases |keys|
  {
    if keys == [] then v else Step(Walk(v, keys[..|keys| - 1]), keys[|keys| - 1])
  }

  /** The string at the end of the path `keys` from `n`, defined head first. */
  function TextAt(n: Node, keys: seq<string>): Option<string>
    decreases |keys|
  {
    if keys == [] then (if n.Leaf? then Some(n.text) else None)
    else if n.Object? && keys[0] in n.children then TextAt(n.children[keys[0]], keys[1..])
    else None
  }

  /** The string a finished walk ended on, if it ended on one (`typeof value === 'string'`). */
  function AsText(v: Option<Node>): Option<string> {
    if v.Some? && v.value.Leaf? then Some(v.value.text) else None
  }

  lemma {:induction false} WalkUndefined(keys: seq<string>)
    ensures Walk(None, keys) == None
    decreases |keys|
  {
    if keys != [] {
      WalkUndefined(keys[..|keys| - 1]);
    }
  }

  /** The left-to-right loop can be unrolled from the front. */
  lemma {:induction false} WalkFront(v: Option<Node>, k: string, keys: seq<string>)
    ensures Walk(v, [k] + keys) == Walk(Step(v, k), keys)
    decreases |keys|
  {
    if keys == [] {
      assert ([k] + keys)[..0] == [];
    } else {
      var init := keys[..|keys| - 1];
      assert ([k] + keys)[..|keys|] == [k] + init;
      WalkFront(v, k, init);
    }
  }

  /** The loop reaches a string exactly where the head-first path lookup finds one. */
  lemma {:induction false} WalkTextAt(n: Node, keys: seq<string>)
    ensures AsText(Walk(Some(n), keys)) == TextAt(n, keys)
    decreases |keys|
  {
    if keys != [] {
      assert keys == [keys[0]] + keys[1..];
      WalkFront(Some(n), keys[0], keys[1..]);
      if n.Object? && keys[0] in n.children {
        WalkTextAt(n.children[keys[0]], keys[1..]);
      } else {
        WalkUndefined(keys[1..]);
      }
    }
  }

  // ---------------------------------------------------------------------------
  // getTranslation
  // ---------------------------------------------------------------------------

  /** The translation `getTranslation(lang, key)` returns: the string at the key's path in the
      selected language, else the string at that path in English, else the key. */
  function Translate(tr: Translations, lang: Language, key: string): (r: string)
    ensures TextAt(Tree(tr, lang), SplitDots(key)).Some? ==> Some(r) == TextAt(Tree(tr, lang), SplitDots(key))
    ensures TextAt(Tree(tr, lang), SplitDots(key)).None? && TextAt(tr.en, SplitDots(key)).Some? ==>
              Some(r) == TextAt(tr.en, SplitDots(key))
    ensures TextAt(Tree(tr, lang), SplitDots(key)).None? && TextAt(tr.en, SplitDots(key)).None? ==> r == key
  {
    var keys := SplitDots(key);
    match TextAt(Tree(tr, lang), keys)
    case Some(s) => s
    case None =>
      match TextAt(tr.en, keys)
      case Some(s) => s
      case None => key
  }

  /** One `for (const k of keys)` loop from `root`. */
  method WalkKeys(root: Node, keys: seq<string>) returns (value: Option<Node>)
    ensures AsText(value) == TextAt(root, keys)
  {
    value := Some(root);
    for i := 0 to |keys|
      invariant value == Walk(Some(root), keys[..i])
    {
      assert keys[..i + 1][..i] == keys[..i];
      value := Step(value, keys[i]);
    }
    assert keys[..|keys|] == keys;
    WalkTextAt(root, keys);
  }

  /** `getTranslation`: a walk in the selected language, then a walk in English when the first
      did not end on a string, then the key itself. */
  method GetTranslation(tr: Translations, lang: Language, key: string) returns (r: string)
    ensures TextAt(Tree(tr, lang), SplitDots(key)).Some? ==>
              Some(r) == TextAt(Tree(tr, lang), SplitDots(key))
    ensures TextAt(Tree(tr, lang), SplitDots(key)).None? && TextAt(tr.en, SplitDots(key)).Some? ==>
              Some(r) == TextAt(tr.en, SplitDots(key))
    ensures TextAt(Tree(tr, lang), SplitDots(key)).None? && TextAt(tr.en, SplitDots(key)).None? ==>
              r == key
    ensures r == Translate(tr, lang, key)
  {
    var keys := SplitDots(key);
    var value := WalkKeys(Tree(tr, lang), keys);
    if AsText(value).Some? {
      r := AsText(value).value;
    } else {
      var fallback := WalkKeys(tr.en, keys);
      r := if AsText(fallback).Some? then AsText(fallback).value else key;
    }
  }

  /** Looking up an English key in English gives its English string. */
  lemma TranslateEnglish(tr: Translations, path: seq<string>, s: string)
    requires |path| >= 1 && forall i :: 0 <= i < |path| ==> NoDot(path[i])
    requires TextAt(tr.en, path) == Some(s)
    ensures Translate(tr, En, JoinDots(path)) == s
    ensures forall lang :: TextAt(Tree(tr, lang), path).None? ==> Translate(tr, lang, JoinDots(path)) == s
  {
    SplitJoin(path);
  }

  // ---------------------------------------------------------------------------
  // value.replace(/\{\{(\w+)\}\}/g, ...)
  // ---------------------------------------------------------------------------

  /** `\w`: `[A-Za-z0-9_]`. */
  predicate IsWordChar(c: char) {
    ('a' <= c <= 'z') || ('A' <= c <= 'Z') || ('0' <= c <= '9') || c == '_'
  }

  /** A non-empty run of word characters: what `(\w+)` captures. */
  predicate IsWord(s: string) {
    |s| > 0 && forall i :: 0 <= i < |s| ==> IsWordChar(s[i])
  }

  /** The longest prefix of `s` made of word characters (greedy `\w+`). */
  function WordPrefix(s: string): (r: string)
    ensures |r| <= |s| && r == s[..|r|]
    ensures forall i :: 0 <= i < |r| ==> IsWordChar(r[i])
    ensures |r| < |s| ==> !IsWordChar(s[|r|])
  {
    if s == [] || !IsWordChar(s[0]) then [] else [s[0]] + WordPrefix(s[1..])
  }

  /** The name of the placeholder `{{name}}` that `s` starts with, if it starts with one. */
  function PlaceholderAt(s: string): (r: Option<string>)
    ensures r.Some? ==> IsWord(r.value) && |r.value| + 4 <= |s|
    ensures r.Some? ==> s[..|r.value| + 4] == "{{" + r.value + "}}"
  {
    if |s| >= 2 && s[0] == '{' && s[1] == '{' then
      var n := WordPrefix(s[2..]);
      if |n| > 0 && |n| + 4 <= |s| && s[|n| + 2] == '}' && s[|n| + 3] == '}' then Some(n) else None
    else None
  }

  /** The callback `params[paramKey] || match`: a missing key and an empty value both keep the
      placeholder. */
  function Replacement(name: string, params: map<string, string>): (r: string)
    ensures r != []
    ensures name in params && params[name] != "" ==> r == params[name]
    ensures !(name in params && params[name] != "") ==> r == "{{" + name + "}}"
  {
    if name in params && params[name] != "" then params[name] else "{{" + name + "}}"
  }

  /** The global replace: one pass from the left; after a match the scan resumes behind it, so
      an inserted value is never scanned again. */
  function Substitute(s: string, params: map<string, string>): (r: string)
    ensures (forall i :: 0 <= i < |s| ==> s[i] != '{') ==> r == s
    decreases |s|
  {
    if s == [] then []
    else
      match PlaceholderAt(s)
      case Some(n) => Replacement(n, params) + Substitute(s[|n| + 4..], params)
      case None => [s[0]] + Substitute(s[1..], params)
  }

  lemma {:induction false} WordPrefixOfWord(name: string, rest: string)
    requires IsWord(name) && (rest == [] || !IsWordChar(rest[0]))
    ensures WordPrefix(name + rest) == name
    decreases |name|
  {
    var s := name + rest;
    assert s[0] == name[0] && s[1..] == name[1..] + rest;
    if |name| == 1 {
      assert name[1..] + rest == rest;
      assert WordPrefix(rest) == [];
      assert name == [name[0]];
    } else {
      WordPrefixOfWord(name[1..], rest);
      assert name == [name[0]] + name[1..];
    }
  }

  /** A placeholder at the front is replaced, and the scan goes on behind it. */
  lemma SubstituteHole(name: string, rest: string, params: map<string, string>)
    requires IsWord(name)
    ensures Substitute("{{" + name + "}}" + rest, params) == Replacement(name, params) + Substitute(rest, params)
  {
    var s := "{{" + name + "}}" + rest;
    assert s[2..] == name + ("}}" + rest);
    WordPrefixOfWord(name, "}}" + rest);
    assert s[|name| + 2] == '}' && s[|name| + 3] == '}';
    assert s[|name| + 4..] == rest;
  }

  /** A character that does not open a placeholder is copied and the scan moves on by one. */
  lemma SubstituteChar(c: char, rest: string, params: map<string, string>)
    requires c != '{' || PlaceholderAt([c] + rest).None?
    ensures Substitute([c] + rest, params) == [c] + Substitute(rest, params)
  {
    assert ([c] + rest)[1..] == rest;
  }

  /** A template piece: a literal character or a placeholder. */
  datatype Piece = Char(c: char) | Hole(name: string)

  /** Pieces that write out to a template the regular expression splits back into them: every
      placeholder name is a word, and a literal `{` does not open a placeholder in the text
      written from its position on. */
  predicate WellFormed(pieces: seq<Piece>) {
    forall i :: 0 <= i < |pieces| ==>
      (pieces[i].Char? && pieces[i].c == '{' ==> PlaceholderAt(Render(pieces[i..])).None?) &&
      (pieces[i].Hole? ==> IsWord(pieces[i].name))
  }

  lemma WellFormedTail(pieces: seq<Piece>)
    requires pieces != [] && WellFormed(pieces)
    ensures WellFormed(pieces[1..])
    ensures pieces[0].Char? && pieces[0].c == '{' ==> PlaceholderAt(Render(pieces)).None?
  {
    forall i | 0 <= i < |pieces| - 1
      ensures pieces[1..][i..] == pieces[i + 1..]
    {
    }
    assert pieces[0..] == pieces;
  }

  /** The template text of `pieces`. */
  function Render(pieces: seq<Piece>): string
    decreases |pieces|
  {
    if pieces == [] then []
    else
      (match pieces[0]
       case Char(c) => [c]
       case Hole(n) => "{{" + n + "}}") + Render(pieces[1..])
  }

  /** What the template should become: every placeholder filled in by its own rule. */
  function Fill(pieces: seq<Piece>, params: map<string, string>): string
    decreases |pieces|
  {
    if pieces == [] then []
    else
      (match pieces[0]
       case Char(c) => [c]
       case Hole(n) => Replacement(n, params)) + Fill(pieces[1..], params)
  }

  /** The single-pass replace fills every placeholder of a template written from pieces, and
      nothing else: values are inserted verbatim, even when they look like placeholders. */
  lemma {:induction false} SubstituteRender(pieces: seq<Piece>, params: map<string, string>)
    requires WellFormed(pieces)
    ensures Substitute(Render(pieces), params) == Fill(pieces, params)
    decreases |pieces|
  {
    if pieces != [] {
      var rest := Render(pieces[1..]);
      WellFormedTail(pieces);
      SubstituteRender(pieces[1..], params);
      match pieces[0]
      case Char(c) =>
        SubstituteChar(c, rest, params);
      case Hole(n) =>
        SubstituteHole(n, rest, params);
    }
  }

  /** With no values to insert (`params` is `{}`), the replace changes nothing. */
  lemma {:induction false} SubstituteNoParams(s: string)
    ensures Substitute(s, map[]) == s
    decreases |s|
  {
    if s != [] {
      match PlaceholderAt(s)
      case Some(n) =>
        SubstituteNoParams(s[|n| + 4..]);
        assert s == s[..|n| + 4] + s[|n| + 4..];
      case None =>
        SubstituteNoParams(s[1..]);
        assert s == [s[0]] + s[1..];
    }
  }

  /** A `{` in front of a placeholder is copied, and the placeholder behind it is still
      replaced. */
  lemma SubstituteLoneBrace(name: string, rest: string, params: map<string, string>)
    requires IsWord(name)
    ensures Substitute("{{{" + name + "}}" + rest, params) == "{" + Replacement(name, params) + Substitute(rest, params)
  {
    var t := "{{" + name + "}}" + rest;
    var s := "{" + t;
    assert s == "{{{" + name + "}}" + rest;
    assert s[2..][0] == '{';
    assert PlaceholderAt(s).None?;
    SubstituteChar('{', t, params);
    SubstituteHole(name, rest, params);
  }

  /** An inserted value is not scanned again: a value that is itself a placeholder stays. */
  lemma NoRescan(name: string, other: string, rest: string, params: map<string, string>)
    requires IsWord(name) && IsWord(other)
    requires name in params && params[name] == "{{" + other + "}}"
    ensures Substitute("{{" + name + "}}" + rest, params) == "{{" + other + "}}" + Substitute(rest, params)
  {
    SubstituteHole(name, rest, params);
  }

  /** The function returned by `t`: look up, then substitute when `params` is given. */
  method Localize(tr: Translations, lang: Language, key: string, params: Option<map<string, string>>)
    returns (r: string)
    ensures params.None? ==> r == Translate(tr, lang, key)
    ensures params.Some? ==> r == Substitute(Translate(tr, lang, key), params.value)
  {
    r := GetTranslation(tr, lang, key);
    if params.Some? {
      r := Substitute(r, params.value);
    }
  }

  // ---------------------------------------------------------------------------
  // detectLanguage
  // ---------------------------------------------------------------------------

  /** The code a language is stored under. */
  function Code(lang: Language): (r: string)
    ensures |r| == 2
  {
    match lang
    case En => "en"
    case Nb => "nb"
    case Nn => "nn"
  }

  /** The stored value, when it names a language. */
  function ParseCode(s: string): (r: Option<Language>)
    ensures r.Some? ==> Code(r.value) == s
    ensures (s == "en" || s == "nb" || s == "nn") ==> r.Some?
  {
    if s == "en" then Some(En)
    else if s == "nb" then Some(Nb)
    else if s == "nn" then Some(Nn)
    else None
  }

  /** `detectLanguage` as a function of whether a window exists, the stored value
      (`None` for a missing item) and `navigator.language`. */
  function DetectLanguage(isBrowser: bool, stored: Option<string>, browserLang: string): (r: Language)
    ensures !isBrowser ==> r == En
    ensures isBrowser && stored.Some? && ParseCode(stored.value).Some? ==> Code(r) == stored.value
    ensures isBrowser && (stored.None? || ParseCode(stored.value).None?) ==>
              (r == Nn <==> StartsWith(ToLowerAscii(browserLang), "nn"))
    ensures isBrowser && (stored.None? || ParseCode(stored.value).None?) ==>
              (r == Nb <==> !StartsWith(ToLowerAscii(browserLang), "nn") &&
                            (StartsWith(ToLowerAscii(browserLang), "nb") || StartsWith(ToLowerAscii(browserLang), "no")))
  {
    if !isBrowser then En
    else if stored.Some? && ParseCode(stored.value).Some? then ParseCode(stored.value).value
    else
      var lower := ToLowerAscii(browserLang);
      if StartsWith(lower, "nn") then Nn
      else if StartsWith(lower, "nb") || StartsWith(lower, "no") then Nb
      else En
  }

  /** The store writes every chosen language back; the next detection reads it unchanged. */
  lemma StoredLanguageWins(lang: Language, browserLang: string)
    ensures DetectLanguage(true, Some(Code(lang)), browserLang) == lang
  {
    assert ParseCode(Code(lang)) == Some(lang);
  }

  /** Detecting again after storing the result gives the same language. */
  lemma DetectionIsStable(isBrowser: bool, stored: Option<string>, browserLang: string)
    ensures var lang := DetectLanguage(isBrowser, stored, browserLang);
            DetectLanguage(isBrowser, Some(Code(lang)), browserLang) == lang
  {
    var lang := DetectLanguage(isBrowser, stored, browserLang);
    if isBrowser {
      StoredLanguageWins(lang, browserLang);
    }
  }
}
