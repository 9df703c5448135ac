/** The festive emoji labels of src/lib/utils/emoji.ts: a pool of thirty emojis, a cursor over
    a shuffled copy of it that is reshuffled when used up, and the name prefix that is added for
    storage and stripped for display. */
module Emoji {
  import opened Shuffling
  import opened Text

  /** `festiveEmojis`, as code points. Entries 3 and 20 and entries 8 and 25 carry the
      variation selector U+FE0F, and entries 17-29 repeat entries 0-12. */
  function FestiveEmojis(): (r: seq<string>)
    ensures |r| == 30
  {
    [
    "\U{1F384}", "\U{1F381}", "\U{1F385}", "\U{2744}\U{FE0F}", "\U{2B50}",
    "\U{1F31F}", "\U{1F380}", "\U{1F514}", "\U{1F56F}\U{FE0F}", "\U{1F38A}",
    "\U{1F389}", "\U{1F388}", "\U{1F9E6}", "\U{1F36A}", "\U{1F95B}",
    "\U{1F98C}", "\U{26C4}", "\U{1F384}", "\U{1F381}", "\U{1F385}",
    "\U{2744}\U{FE0F}", "\U{2B50}", "\U{1F31F}", "\U{1F380}", "\U{1F514}",
    "\U{1F56F}\U{FE0F}", "\U{1F38A}", "\U{1F389}", "\U{1F388}", "\U{1F9E6}"
    ]
  }

  const ChristmasTree: string := "\U{1F384}"

  // ---------------------------------------------------------------------------
  // The cursor over the shuffled pool
  // ---------------------------------------------------------------------------

  /** The module state: `shuffledEmojis` and `emojiIndex`. */
  datatype Cursor = Cursor(pool: seq<string>, index: nat)

  /** Between calls the shuffled pool is a rearrangement of `festive` and the cursor lies
      within it (it may stand just past the end). */
  predicate ValidCursor(festive: seq<string>, c: Cursor) {
    |festive| > 0 && multiset(c.pool) == multiset(festive) && c.index <= |c.pool|
  }

  lemma CursorPoolSize(festive: seq<string>, c: Cursor)
    requires ValidCursor(festive, c)
    ensures |c.pool| == |festive|
  {
    assert |multiset(c.pool)| == |c.pool|;
  }

  /** One call of `getParticipantEmoji` from state `c`, where `festive` is the list that is
      reshuffled. The draws `picks` feed that reshuffle, which happens only when the cursor has
      reached the end of the pool. */
  function Draw(festive: seq<string>, c: Cursor, picks: seq<nat>): (r: (Cursor, string))
    requires ValidCursor(festive, c) && ValidPicks(picks, |festive|)
    ensures ValidCursor(festive, r.0) && r.1 in festive
    ensures 1 <= r.0.index && r.1 == r.0.pool[r.0.index - 1]
    ensures c.index < |c.pool| ==> r.0.pool == c.pool && r.0.index == c.index + 1
    ensures c.index >= |c.pool| ==> r.0.pool == FisherYates(festive, picks) && r.0.index == 1
  {
    if c.index >= |c.pool| then
      FisherYatesPermutes(festive, picks);
      var pool := FisherYates(festive, picks);
      assert pool[0] in multiset(festive);
      (Cursor(pool, 1), pool[0])
    else
      CursorPoolSize(festive, c);
      assert c.pool[c.index] in multiset(festive);
      (Cursor(c.pool, c.index + 1), c.pool[c.index])
  }

  predicate AllValidPicks(calls: seq<seq<nat>>, n: nat) {
    forall k :: 0 <= k < |calls| ==> ValidPicks(calls[k], n)
  }

  /** The emojis returned by consecutive calls, one list of draws per call. */
  function Draws(festive: seq<string>, c: Cursor, calls: seq<seq<nat>>): (r: seq<string>)
    requires ValidCursor(festive, c) && AllValidPicks(calls, |festive|)
    ensures |r| == |calls| && forall i :: 0 <= i < |r| ==> r[i] in festive
    decreases |calls|
  {
    if calls == [] then []
    else
      var next := Draw(festive, c, calls[0]);
      [next.1] + Draws(festive, next.0, calls[1..])
  }

  /** Within one pass over the pool the calls return the pool's entries in order. */
  lemma {:induction false} DrawsInOrder(festive: seq<string>, c: Cursor, calls: seq<seq<nat>>)
    requires ValidCursor(festive, c) && AllValidPicks(calls, |festive|) && c.index + |calls| <= |c.pool|
    ensures Draws(festive, c, calls) == c.pool[c.index..c.index + |calls|]
    decreases |calls|
  {
    if calls != [] {
      var next := Draw(festive, c, calls[0]);
      DrawsInOrder(festive, next.0, calls[1..]);
    }
  }

  /** A round that starts right after a (re)shuffle reads the whole pool once. */
  lemma RoundFromStart(festive: seq<string>, c: Cursor, calls: seq<seq<nat>>)
    requires ValidCursor(festive, c) && AllValidPicks(calls, |festive|) && |calls| == |festive|
    requires c.index == 0
    ensures Draws(festive, c, calls) == c.pool
  {
    CursorPoolSize(festive, c);
    DrawsInOrder(festive, c, calls);
    assert c.pool[0..|c.pool|] == c.pool;
  }

  /** A round that starts once the pool has run out reshuffles and then reads the new pool once. */
  lemma RoundFromEnd(festive: seq<string>, c: Cursor, calls: seq<seq<nat>>)
    requires ValidCursor(festive, c) && AllValidPicks(calls, |festive|) && |calls| == |festive|
    requires c.index == |c.pool|
    ensures Draws(festive, c, calls) == FisherYates(festive, calls[0])
  {
    var next := Draw(festive, c, calls[0]);
    CursorPoolSize(festive, next.0);
    assert AllValidPicks(calls[1..], |festive|);
    DrawsInOrder(festive, next.0, calls[1..]);
    ConsSlice(next.0.pool);
  }

  lemma ConsSlice(s: seq<string>)
    requires s != []
    ensures [s[0]] + s[1..|s|] == s
  {
  }

  /** As many calls as the pool has entries, made right after a (re)shuffle or once the pool
      has run out, return a permutation of the pool. */
  lemma RoundIsPermutation(festive: seq<string>, c: Cursor, calls: seq<seq<nat>>)
    requires ValidCursor(festive, c) && AllValidPicks(calls, |festive|) && |calls| == |festive|
    requires c.index == 0 || c.index == |c.pool|
    ensures multiset(Draws(festive, c, calls)) == multiset(festive)
  {
    if c.index == 0 {
      RoundFromStart(festive, c, calls);
    } else {
      RoundFromEnd(festive, c, calls);
      FisherYatesPermutes(festive, calls[0]);
    }
  }

  /** The pool holds the Christmas tree at positions 0 and 17. */
  lemma PoolRepeatsTree()
    ensures FestiveEmojis()[0] == ChristmasTree && FestiveEmojis()[17] == ChristmasTree
  {
  }

  /** So a round of thirty calls returns the tree at least twice: the calls avoid repeats only
      up to the pool's own repeats. */
  lemma RoundRepeatsTree(c: Cursor, calls: seq<seq<nat>>)
    requires ValidCursor(FestiveEmojis(), c) && AllValidPicks(calls, 30) && |calls| == 30
    requires c.index == 0 || c.index == |c.pool|
    ensures multiset(Draws(FestiveEmojis(), c, calls))[ChristmasTree] >= 2
  {
    var f := FestiveEmojis();
    PoolRepeatsTree();
    RepeatCounts(f, 0, 17);
    RoundIsPermutation(f, c, calls);
  }

  /** The module-level `shuffledEmojis` and `emojiIndex`, updated in place by each call, and
      the list `festiveEmojis` that they are reshuffled from. */
  class EmojiPool {
    const festiveEmojis: seq<string>
    var shuffledEmojis: seq<string>
    var emojiIndex: nat

    function State(): Cursor
      reads this
    {
      Cursor(shuffledEmojis, emojiIndex)
    }

    ghost predicate Valid()
      reads this
    {
      ValidCursor(festiveEmojis, State())
    }

    /** Module initialisation: `shuffledEmojis = shuffleArray(festiveEmojis)`, `emojiIndex = 0`.
        The module creates it with `festive == FestiveEmojis()`. */
    constructor (festive: seq<string>, picks: seq<nat>)
      requires |festive| > 0 && ValidPicks(picks, |festive|)
      ensures Valid() && festiveEmojis == festive
      ensures shuffledEmojis == FisherYates(festive, picks) && emojiIndex == 0
    {
      var pool := ShuffleCopy(festive, picks);
      festiveEmojis := festive;
      shuffledEmojis := pool;
      emojiIndex := 0;
    }

    /** `getParticipantEmoji(name, index)`: neither argument is read. */
    method GetParticipantEmoji(name: string, index: int, picks: seq<nat>) returns (emoji: string)
      requires Valid() && ValidPicks(picks, |festiveEmojis|)
      modifies this
      ensures Valid() && emoji in festiveEmojis
      ensures (State(), emoji) == Draw(festiveEmojis, old(State()), picks)
      ensures old(emojiIndex) < old(|shuffledEmojis|) ==>
        shuffledEmojis == old(shuffledEmojis) && emojiIndex == old(emojiIndex) + 1 && emoji == old(shuffledEmojis[emojiIndex])
      ensures old(emojiIndex) >= old(|shuffledEmojis|) ==>
        shuffledEmojis == FisherYates(festiveEmojis, picks) && emojiIndex == 1 && emoji == shuffledEmojis[0]
    {
      if emojiIndex >= |shuffledEmojis| {
        shuffledEmojis := ShuffleCopy(festiveEmojis, picks);
        emojiIndex := 0;
      }
      CursorPoolSize(festiveEmojis, State());
      var i := emojiIndex;
      emojiIndex := emojiIndex + 1;
      ModBelow(i, |shuffledEmojis|);
      emoji := shuffledEmojis[i % |shuffledEmojis|];
      assert emoji in multiset(festiveEmojis);
    }
  }

  // ---------------------------------------------------------------------------
  // The name prefix
  // ---------------------------------------------------------------------------

  /** `addEmojiToName(name, emoji)`: the emoji, one space, the name. */
  function AddEmojiToName(name: string, emoji: string): (r: string)
    ensures |r| == |emoji| + 1 + |name|
    ensures r[..|emoji|] == emoji && r[|emoji|] == ' ' && r[|emoji| + 1..] == name
    ensures r[|emoji|..] == " " + name
  {
    emoji + " " + name
  }

  /** The code points of the class `[\u{1F300}-\u{1F9FF}\u{2600}-\u{26FF}\u{2700}-\u{27BF}]`. */
  predicate InEmojiRanges(c: char): (r: bool)
    ensures r ==> c as int >= 0x2600 && !IsSpace(c)
  {
    || ('\U{1F300}' <= c <= '\U{1F9FF}')
    || ('\U{2600}' <= c <= '\U{26FF}')
    || ('\U{2700}' <= c <= '\U{27BF}')
  }

  /** `removeEmojiFromName(s)`: drop one leading code point of the class and the white space
      after it, then trim. */
  function RemoveEmojiFromName(s: string): (r: string)
    ensures s != [] && InEmojiRanges(s[0]) ==> r == Trim(s[1..])
    ensures (s == [] || !InEmojiRanges(s[0])) ==> r == Trim(s)
  {
    if s != [] && InEmojiRanges(s[0]) then
      TrimAfterTrimStart(s[1..]);
      Trim(TrimStart(s[1..]))
    else
      Trim(s)
  }

  /** Removing a one-code-point emoji of the class after adding it gives back the trimmed name. */
  lemma RemoveAfterAdd(name: string, c: char)
    requires InEmojiRanges(c)
    ensures RemoveEmojiFromName(AddEmojiToName(name, [c])) == Trim(name)
  {
    var s := AddEmojiToName(name, [c]);
    assert s[0] == c;
    TrimLeadingSpace(name);
  }

  /** A name that trim leaves alone: not empty, no white space at either end. */
  predicate Trimmed(name: string) {
    name != [] && !IsSpace(name[0]) && !IsSpace(name[|name| - 1])
  }

  /** The star U+2B50 sits at pool entries 4 and 21, the snowflake U+2744 U+FE0F at 3 and 20. */
  lemma PoolHasStarAndSnowflake()
    ensures FestiveEmojis()[4] == "\U{2B50}" && FestiveEmojis()[21] == "\U{2B50}"
    ensures FestiveEmojis()[3] == "\U{2744}\U{FE0F}" && FestiveEmojis()[20] == "\U{2744}\U{FE0F}"
  {
  }

  /** Pool emojis that the prefix removal does not undo: the star lies outside the class, so
      nothing is removed. */
  lemma RemoveMissesStar(name: string)
    requires Trimmed(name)
    ensures RemoveEmojiFromName(AddEmojiToName(name, "\U{2B50}")) == "\U{2B50} " + name
  {
    var s := AddEmojiToName(name, "\U{2B50}");
    assert s == "\U{2B50} " + name;
    assert s[0] == '\U{2B50}' && !InEmojiRanges(s[0]);
    assert s[|s| - 1] == name[|name| - 1];
    TrimNoSpaceAtEnds(s);
  }

  /** The snowflake loses only its first code point:
      the variation selector stays in front of the name. */
  lemma RemoveMissesSnowflake(name: string)
    requires Trimmed(name)
    ensures RemoveEmojiFromName(AddEmojiToName(name, "\U{2744}\U{FE0F}")) == "\U{FE0F} " + name
  {
    var s := AddEmojiToName(name, "\U{2744}\U{FE0F}");
    assert s == "\U{2744}\U{FE0F} " + name;
    assert s[0] == '\U{2744}' && InEmojiRanges(s[0]);
    var rest := s[1..];
    assert rest == "\U{FE0F} " + name;
    assert rest[0] == '\U{FE0F}' && rest[|rest| - 1] == name[|name| - 1];
    TrimNoSpaceAtEnds(rest);
  }

  /** So two pairs of pool entries keep a prefix after a round trip through storage: both
      stars (entries 4 and 21) and both snowflakes (entries 3 and 20). */
  lemma PoolPrefixesSurvive(name: string)
    requires Trimmed(name)
    ensures RemoveEmojiFromName(AddEmojiToName(name, FestiveEmojis()[4])) == "\U{2B50} " + name
    ensures RemoveEmojiFromName(AddEmojiToName(name, FestiveEmojis()[21])) == "\U{2B50} " + name
    ensures RemoveEmojiFromName(AddEmojiToName(name, FestiveEmojis()[3])) == "\U{FE0F} " + name
    ensures RemoveEmojiFromName(AddEmojiToName(name, FestiveEmojis()[20])) == "\U{FE0F} " + name
  {
    PoolHasStarAndSnowflake();
    RemoveMissesStar(name);
    RemoveMissesSnowflake(name);
  }

  // ---------------------------------------------------------------------------
  // Corrected prefix removal
  // ---------------------------------------------------------------------------

  /** A leading code point the corrected removal accepts: the class above and the star U+2B50. */
  predicate IsEmojiStart(c: char) {
    InEmojiRanges(c) || c == '\U{2B50}'
  }

  /** An emoji as it occurs in the pool: one code point, optionally followed by U+FE0F. */
  predicate IsEmojiToken(e: string) {
    (|e| == 1 && IsEmojiStart(e[0])) || (|e| == 2 && IsEmojiStart(e[0]) && e[1] == '\U{FE0F}')
  }

  /** The pattern `^[...\u{2B50}]\u{FE0F}?\s*` followed by trim. */
  function RemoveEmojiPrefix(s: string): (r: string)
    ensures s != [] && IsEmojiStart(s[0]) && |s| > 1 && s[1] == '\U{FE0F}' ==> r == Trim(s[2..])
    ensures s != [] && IsEmojiStart(s[0]) && !(|s| > 1 && s[1] == '\U{FE0F}') ==> r == Trim(s[1..])
    ensures (s == [] || !IsEmojiStart(s[0])) ==> r == Trim(s)
  {
    if s != [] && IsEmojiStart(s[0]) then
      var k := if |s| > 1 && s[1] == '\U{FE0F}' then 2 else 1;
      TrimAfterTrimStart(s[k..]);
      Trim(TrimStart(s[k..]))
    else
      Trim(s)
  }

  lemma PoolEmojisAreTokens()
    ensures forall i :: 0 <= i < |FestiveEmojis()| ==> IsEmojiToken(FestiveEmojis()[i])
  {
  }

  lemma RemovePrefixAfterAddSingle(name: string, e: string)
    requires |e| == 1 && IsEmojiStart(e[0])
    ensures RemoveEmojiPrefix(AddEmojiToName(name, e)) == Trim(name)
  {
    var s := AddEmojiToName(name, e);
    assert s[0] == e[0] && s[1] == ' ';
    TrimLeadingSpace(name);
  }

  lemma RemovePrefixAfterAddSelector(name: string, e: string)
    requires |e| == 2 && IsEmojiStart(e[0]) && e[1] == '\U{FE0F}'
    ensures RemoveEmojiPrefix(AddEmojiToName(name, e)) == Trim(name)
  {
    var s := AddEmojiToName(name, e);
    assert s[0] == e[0] && s[1] == e[1];
    TrimLeadingSpace(name);
  }

  /** With the corrected pattern, removing an emoji of that shape after adding it gives back
      the trimmed name. */
  lemma RemovePrefixAfterAdd(name: string, e: string)
    requires IsEmojiToken(e)
    ensures RemoveEmojiPrefix(AddEmojiToName(name, e)) == Trim(name)
  {
    if |e| == 1 {
      RemovePrefixAfterAddSingle(name, e);
    } else {
      RemovePrefixAfterAddSelector(name, e);
    }
  }

  /** Every pool emoji round-trips through the corrected removal. */
  lemma PoolRoundTrip(name: string, i: nat)
    requires i < |FestiveEmojis()|
    ensures RemoveEmojiPrefix(AddEmojiToName(name, FestiveEmojis()[i])) == Trim(name)
  {
    PoolEmojisAreTokens();
    RemovePrefixAfterAdd(name, FestiveEmojis()[i]);
  }
}
