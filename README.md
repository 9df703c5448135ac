# Secret Santa: assignment, emoji, slug and translation logic in Dafny

This project models the core of the secret-santa web application:

- **`shuffleAssignments`** (`src/lib/utils/shuffle.ts`). It takes the participants of an
  event and makes a Fisher–Yates copy-shuffle. It pairs participant `i` with
  `shuffled[(i + 1) % n]` and repairs a self-assignment with `shuffled[(i - 1 + n) % n]`.
  A second pass then swaps targets to clear any fixed point that is left. It fails with
  "Need at least 2 participants" below two participants.
- **The emoji pool** (`src/lib/utils/emoji.ts`). A module-level shuffled copy of 30 festive
  emojis and a cursor. The pool is reshuffled when the cursor runs off the end. The file
  also adds an emoji prefix to a name and strips it again.
- **`slugifyEventName`** (`src/lib/utils/event.ts`). It lower-cases and trims a name. It
  drops characters outside `[a-z0-9\s-]`, turns white-space runs into hyphens, collapses
  hyphen runs and strips one edge hyphen at each end. The model proves that the result is
  the runs of letters and digits left once the characters outside `[a-z0-9\s-]` are
  deleted, joined by single hyphens (`Event.SlugIsJoinedWords`).
- **Translation** (`src/lib/i18n/index.ts`):
  - dotted-key lookup with a fall-back to English and then to the key itself;
  - single-pass `{{name}}` placeholder substitution;
  - the decision logic of `detectLanguage`.

Modules:

- `Wrappers` (`wrappers.dfy`): the optional-value type shared by the lookups.
- `Text` (`text.dfy`): JavaScript white space, `trim` and ASCII `toLowerCase`.
- `Shuffling` (`shuffling.dfy`): the Fisher–Yates copy-shuffle that both `shuffle.ts` and
  `emoji.ts` contain.
- `Assignments` (`assignments.dfy`).
- `Emoji` (`emoji.dfy`).
- `Event` (`event.dfy`).
- `I18n` (`i18n.dfy`).

`Math.random()` is replaced by injected draws. `picks[i]` is the index
`Math.floor(Math.random() * (i + 1))` drawn at loop step `i`, and `ValidPicks` states that it
lies in `[0, i]`. Every property below therefore holds for every possible sequence of random
draws.

The imperative parts are methods that are proved equal to specification functions:

- the shuffle loop over an array: `Shuffling.ShuffleCopy`;
- the two passes over the assignment map: `Assignments.PairWithNext` and
  `Assignments.ClearFixedPoints`;
- the path walks of `getTranslation`: `I18n.WalkKeys` and `I18n.GetTranslation`;
- the module state of the emoji pool: the class `Emoji.EmojiPool`, with fields
  `shuffledEmojis` and `emojiIndex`.

The lemmas are stated about those specification functions.

Where the comments in the code promise more than the code does, the model follows the code.

- The comment at `src/lib/utils/shuffle.ts:17` describes a circular pairing along the
  shuffled array, which would be a permutation. The repair step can break this; see
  Findings.
- The comment at `src/lib/utils/emoji.ts:24` promises that duplicates are avoided. The
  pool lists 🎄 and twelve other emojis twice, so a full round of 30 draws always repeats
  🎄 (`Emoji.RoundRepeatsTree`).

## Model

| member | source | states |
|---|---|---|
| `Shuffling.SwapAt` | src/lib/utils/shuffle.ts:14 | the destructuring swap exchanges entries `i` and `j` and leaves every other entry alone |
| `Shuffling.FisherYatesPermutes` | src/lib/utils/emoji.ts:9-16 | the shuffle keeps the length and the multiset of its input under every choice of draws |
| `Shuffling.ShuffleCopy` | src/lib/utils/shuffle.ts:9-15 | the in-place loop over a fresh array from the last index down to 1 yields `FisherYates(s, picks)`, a permutation of `s` |
| `Assignments.Next` | src/lib/utils/shuffle.ts:20 | `(i + 1) % n` is `i + 1`, or 0 at the last position |
| `Assignments.Prev` | src/lib/utils/shuffle.ts:25 | `(i - 1 + n) % n` is `i - 1`, or `n - 1` at position 0 |
| `Assignments.FirstTarget` | src/lib/utils/shuffle.ts:19-29 | participant `i` gets `shuffled[(i+1) % n]` unless that is itself, and then `shuffled[(i-1+n) % n]`; either way an entry of the shuffled copy |
| `Assignments.FirstPassShape` | src/lib/utils/shuffle.ts:18-30 | after `k` iterations of the first loop (the function `FirstPass`) the keys are exactly the first `k` participants, and each holds its `FirstTarget` |
| `Assignments.FirstPassComplete` | src/lib/utils/shuffle.ts:18-30 | after the first loop every participant is a key, nothing else is, and each key holds its `FirstTarget` |
| `Assignments.FirstPassNoFixedPoint` | src/lib/utils/shuffle.ts:23-26 | with three or more participants the previous-index repair never lands on the participant itself, so the first pass leaves no self-assignment |
| `Assignments.FirstPassValues` | src/lib/utils/shuffle.ts:18-30 | every target of the first pass is a participant |
| `Assignments.PartnerFrom` | src/lib/utils/shuffle.ts:36-41 | the inner search returns the first entry at or after `j` whose key and value both differ from `p`, or reports that none exists |
| `Assignments.SwapTargets` | src/lib/utils/shuffle.ts:38-39 | the two `set` calls exchange the targets of `p` and `o`, keep the key set and leave every other entry alone |
| `Assignments.SwapClearsFixedPoint` | src/lib/utils/shuffle.ts:37-40 | swapping the targets of a fixed point `p` and a valid partner `o` removes both fixed points, changes no other entry and creates no new fixed point |
| `Assignments.SwapKeepsTargets` | src/lib/utils/shuffle.ts:38-39 | a swap keeps the multiset of targets |
| `Assignments.SecondPassFrom` | src/lib/utils/shuffle.ts:33-44 | the outer loop from position `k` on keeps the key set |
| `Assignments.SecondPassPreserves` | src/lib/utils/shuffle.ts:33-44 | the second pass only removes fixed points, keeps the keys, keeps values inside the participants and keeps the multiset of targets |
| `Assignments.SecondPassIdle` | src/lib/utils/shuffle.ts:33-44 | on a map without fixed points the second pass changes nothing |
| `Assignments.Generate` | src/lib/utils/shuffle.ts:3-47 | fails with "Need at least 2 participants" exactly below two participants; otherwise the keys are exactly the participants |
| `Assignments.TwoParticipantsSwap` | src/lib/utils/shuffle.ts:18-44 | two participants always end up assigned to each other, whatever the shuffle |
| `Assignments.AssignNoFixedPoint` | src/lib/utils/shuffle.ts:8-46 | for two or more distinct participants the result has no self-assignment |
| `Assignments.AssignKeysAndValues` | src/lib/utils/shuffle.ts:8-46 | the result has exactly the participants as keys, and every value is a participant |
| `Assignments.RotationNoFixedPoint` | src/lib/utils/shuffle.ts:18-30 | when no participant meets itself at `(i + 1) % n`, the first pass has no fixed point |
| `Assignments.RotationIsBijection` | src/lib/utils/shuffle.ts:17-30 | when no repair fires, the result is the rotation of the shuffled copy and is injective |
| `Assignments.ExampleShuffle` | src/lib/utils/shuffle.ts:12-15 | the draws 2 (at step 2) and 0 (at step 1) turn `[a, b, c]` into `[b, a, c]` |
| `Assignments.ExampleFirstPass` | src/lib/utils/shuffle.ts:18-30 | on `[a, b, c]` shuffled to `[b, a, c]` the first pass gives `a -> c, b -> c, c -> b` |
| `Assignments.NotInjectiveExample` | src/lib/utils/shuffle.ts:23-26 | the whole routine can return `a -> c, b -> c, c -> b`, which is not injective |
| `Assignments.CycleIsDerangement` | src/lib/utils/shuffle.ts:17-20 | pairing each person with the next one in the shuffled copy (circular) gives a bijection of the participants without fixed points, in which everyone receives from the previous person |
| `Assignments.PairWithNext` | src/lib/utils/shuffle.ts:18-30 | the first loop builds exactly `FirstPass`, with every participant as a key |
| `Assignments.ClearFixedPoints` | src/lib/utils/shuffle.ts:33-44 | the second loop, with its inner search and `break`, builds exactly `SecondPassFrom` and keeps the key set |
| `Assignments.ShuffleAssignments` | src/lib/utils/shuffle.ts:3-47 | fails with "Need at least 2 participants" exactly below two participants; otherwise returns a map whose keys are the participants, whose values are participants and which has no self-assignment |
| `Emoji.FestiveEmojis` | src/lib/utils/emoji.ts:2-6 | the pool lists 30 entries |
| `Emoji.PoolRepeatsTree` | src/lib/utils/emoji.ts:2-6 | 🎄 stands at entries 0 and 17 |
| `Emoji.Draw` | src/lib/utils/emoji.ts:26-35 | one call returns a pool emoji at the cursor. It advances the cursor, or reshuffles and starts over when the cursor is at the end. The cursor stays a permutation of the pool |
| `Emoji.Draws` | src/lib/utils/emoji.ts:26-35 | consecutive calls return one pool emoji per call |
| `Emoji.DrawsInOrder` | src/lib/utils/emoji.ts:33-34 | calls before the end of the pool return the shuffled copy in order |
| `Emoji.RoundFromStart` | src/lib/utils/emoji.ts:19-20 | 30 calls from a fresh cursor return exactly the shuffled copy |
| `Emoji.RoundFromEnd` | src/lib/utils/emoji.ts:28-31 | 30 calls from an exhausted cursor return the reshuffle made by the first of them |
| `Emoji.RoundIsPermutation` | src/lib/utils/emoji.ts:23-35 | a full round from a fresh or exhausted cursor returns each pool entry exactly as often as the pool lists it |
| `Emoji.RoundRepeatsTree` | src/lib/utils/emoji.ts:23-35 | such a round still returns 🎄 at least twice |
| `Emoji.EmojiPool.constructor` | src/lib/utils/emoji.ts:19-20 | the module starts with a shuffled copy of the pool and the cursor at 0 |
| `Emoji.EmojiPool.GetParticipantEmoji` | src/lib/utils/emoji.ts:26-35 | updates the two module variables as `Draw` does. It returns the next shuffled emoji, or reshuffles and returns the first of the new copy |
| `Emoji.AddEmojiToName` | src/lib/utils/emoji.ts:40-42 | the stored name is the emoji, one space, then the name |
| `Emoji.InEmojiRanges` | src/lib/utils/emoji.ts:49 | a code point of the class lies at U+2600 or above and is never white space, so the `\s*` after it starts behind it |
| `Emoji.RemoveEmojiFromName` | src/lib/utils/emoji.ts:47-50 | one leading code point in U+1F300–1F9FF, U+2600–26FF or U+2700–27BF is dropped, then the rest is trimmed; otherwise the name is only trimmed |
| `Emoji.RemoveAfterAdd` | src/lib/utils/emoji.ts:40-50 | for a one-code-point emoji in those ranges, removal undoes `addEmojiToName` up to trimming |
| `Emoji.RemoveMissesStar` | src/lib/utils/emoji.ts:47-50 | removal leaves a ⭐ (U+2B50) prefix and its space in place |
| `Emoji.RemoveMissesSnowflake` | src/lib/utils/emoji.ts:47-50 | removal after ❄️ (U+2744 U+FE0F) leaves the variation selector U+FE0F and the space |
| `Emoji.PoolPrefixesSurvive` | src/lib/utils/emoji.ts:2-6 | so both ⭐ entries (4 and 21) come back with their prefix, and both ❄️ entries (3 and 20) with U+FE0F and the space |
| `Emoji.RemoveEmojiPrefix` | src/lib/utils/emoji.ts:47-50 | the corrected pattern also takes U+2B50 and an optional U+FE0F before the white space |
| `Emoji.PoolEmojisAreTokens` | src/lib/utils/emoji.ts:2-6 | every pool entry is one emoji code point, optionally followed by U+FE0F |
| `Emoji.RemovePrefixAfterAdd` | src/lib/utils/emoji.ts:40-50 | the corrected removal undoes adding any such emoji, up to trimming |
| `Emoji.PoolRoundTrip` | src/lib/utils/emoji.ts:40-50 | the corrected removal undoes adding every pool emoji, up to trimming |
| `Text.IsSpace` | src/lib/utils/event.ts:10 | `\s` matches space, tab, line feed and carriage return, and no white space is a letter, digit, `_`, `-` or `{` |
| `Text.Trim` | src/lib/utils/event.ts:8 | the result is the input without its leading and trailing white space, and it neither starts nor ends with white space |
| `Text.ToLowerAscii` | src/lib/utils/event.ts:7 | every character is mapped by the ASCII lower-case map and the length is kept |
| `Text.TrimLeadingSpace` | src/lib/utils/emoji.ts:49 | trimming ignores an extra leading space |
| `Event.RemoveSpecial` | src/lib/utils/event.ts:9 | only letters `a-z`, digits, white space and `-` are left, and a string of those is unchanged |
| `Event.HyphenateSpaces` | src/lib/utils/event.ts:10 | no white space is left, a string without white space is unchanged, and a leading white-space run becomes `-` while any other first character stays |
| `Event.CollapseHyphens` | src/lib/utils/event.ts:11 | no two hyphens are adjacent, the first character is kept, and a string without `--` is unchanged |
| `Event.StripEdgeHyphens` | src/lib/utils/event.ts:12 | a string without `--` loses its edge hyphens, and one without edge hyphens is unchanged |
| `Event.Slugify` | src/lib/utils/event.ts:5-13 | the slug holds only `a-z`, `0-9` and `-`, has no `--` and does not start or end with `-` |
| `Event.Words` | src/lib/utils/event.ts:9-12 | the maximal runs of `a-z0-9` (the words the slug keeps) are non-empty runs of letters and digits, and a string starting with one has a first word |
| `Event.TrimKeepsWords` | src/lib/utils/event.ts:8-9 | trimming before the first replace changes no word |
| `Event.HyphenateKeepsWords` | src/lib/utils/event.ts:10 | turning white-space runs into hyphens neither merges nor splits words |
| `Event.CollapseKeepsWords` | src/lib/utils/event.ts:11 | collapsing hyphen runs neither merges nor splits words |
| `Event.StripIsJoin` | src/lib/utils/event.ts:12 | on a string of `a-z0-9-` without `--`, dropping the edge hyphens leaves exactly its words joined by single hyphens |
| `Event.SlugIsJoinedWords` | src/lib/utils/event.ts:5-13 | the slug is the words of the lower-cased name, after the characters outside `[a-z0-9\s-]` are deleted, joined by single hyphens |
| `Event.SlugTwoWords` | src/lib/utils/event.ts:5-13 | two lower-case words with one space between them become the words joined by one hyphen |
| `Event.SlugIsFixedPoint` | src/lib/utils/event.ts:5-13 | a slug is its own slug |
| `Event.SlugifyIdempotent` | src/lib/utils/event.ts:5-13 | slugifying twice equals slugifying once |
| `Event.SlugKeepsAlnums` | src/lib/utils/event.ts:5-13 | the slug keeps every letter and digit of the lower-cased name, in order |
| `Event.SlugEmptyIff` | src/lib/utils/event.ts:5-13 | the slug is empty exactly when the lower-cased name has no letter or digit |
| `I18n.SplitDots` | src/lib/i18n/index.ts:36 | `split('.')` gives at least one segment, and no segment contains a dot |
| `I18n.JoinSplit` | src/lib/i18n/index.ts:36 | joining the segments with dots gives the key back |
| `I18n.SplitJoin` | src/lib/i18n/index.ts:36 | splitting a dotted join of dot-free segments gives the segments back |
| `I18n.Step` | src/lib/i18n/index.ts:40 | `value?.[k]` is defined only on an object that has the key `k` |
| `I18n.WalkTextAt` | src/lib/i18n/index.ts:39-41 | the left-to-right walk ends on a string exactly where the path lookup from the root finds that string |
| `I18n.WalkKeys` | src/lib/i18n/index.ts:39-41 | the `for` loop ends on the string at the key's path, if there is one |
| `I18n.Translate` | src/lib/i18n/index.ts:35-53 | the string at the path in the selected language, else the string at the path in English, else the key |
| `I18n.GetTranslation` | src/lib/i18n/index.ts:35-53 | returns the string at the path in the selected language, else the string at the path in English, else the key |
| `I18n.TranslateEnglish` | src/lib/i18n/index.ts:43-49 | a key whose English path ends on a string yields that string in English and in every language that lacks the path |
| `I18n.WordPrefix` | src/lib/i18n/index.ts:60 | greedy `\w+`: the longest run of `[A-Za-z0-9_]` at the front |
| `I18n.PlaceholderAt` | src/lib/i18n/index.ts:60 | a match is `{{`, a non-empty word, then `}}` |
| `I18n.Replacement` | src/lib/i18n/index.ts:61 | `params[paramKey] \|\| match`: a present, non-empty value replaces the placeholder; a missing or empty one keeps it, so a placeholder never disappears |
| `I18n.Substitute` | src/lib/i18n/index.ts:60-62 | a text without `{` comes back unchanged |
| `I18n.SubstituteHole` | src/lib/i18n/index.ts:60-62 | a placeholder is replaced by the value, or kept when the value is missing or empty, and the scan goes on after it |
| `I18n.SubstituteChar` | src/lib/i18n/index.ts:60 | a character that does not open a placeholder, `{` included, is copied |
| `I18n.SubstituteLoneBrace` | src/lib/i18n/index.ts:60 | in `{{{name}}` the first `{` is copied and the placeholder behind it is replaced |
| `I18n.SubstituteRender` | src/lib/i18n/index.ts:59-63 | on any template of literal characters and placeholders in which no literal `{` opens a placeholder (lone `{` characters are allowed), the replace fills every placeholder by its rule and copies the text |
| `I18n.SubstituteNoParams` | src/lib/i18n/index.ts:59-63 | an empty `params` object changes nothing |
| `I18n.NoRescan` | src/lib/i18n/index.ts:60 | an inserted value that itself looks like a placeholder is left as it is |
| `I18n.Localize` | src/lib/i18n/index.ts:55-67 | without `params` the translation is returned unchanged; with them it is substituted |
| `I18n.ParseCode` | src/lib/i18n/index.ts:17 | exactly `en`, `nb` and `nn` are accepted, each as its own language |
| `Text.StartsWith` | src/lib/i18n/index.ts:22-23 | `startsWith` holds exactly when the prefix fits and agrees with the string position by position |
| `I18n.DetectLanguage` | src/lib/i18n/index.ts:13-25 | `en` without a browser; a valid stored code wins; otherwise `nn` exactly for a browser language starting with `nn`, `nb` exactly for one starting with `nb` or `no` (and not `nn`), else `en` |
| `I18n.StoredLanguageWins` | src/lib/i18n/index.ts:16-19 | in a browser, a stored language is always detected again |
| `I18n.DetectionIsStable` | src/lib/i18n/index.ts:27-33 | once the store has written the detected language back, detection gives the same language again |

## Left out

- `Math.random` is an injected sequence of draws. The model makes no claim about the
  uniformity or the bias of the result; it covers every choice of draws.
- Assignments.ShuffleAssignments: requires distinct participant ids. The code does not check
  this. With a repeated id the JavaScript `Map` overwrites an entry, and that behaviour is
  not modelled.
- `Participant` is reduced to its `id`. `src/lib/utils/types.ts` is otherwise not part of
  this model.
- Text.ToLowerAscii: maps only `A`–`Z`. JavaScript's `toLowerCase` also maps other letters,
  and a few of them (U+0130, U+212A) become ASCII letters that the slug would then keep.
  Event.Slugify and I18n.DetectLanguage inherit this.
- Strings are sequences of Unicode code points. JavaScript's UTF-16 code units are not
  modelled; the emoji regular expression carries the `u` flag and matches code points.
- Emoji.EmojiPool: the module-level variables become an object. The module's own start-up
  is the constructor called with `FestiveEmojis()` and the first draws. Sharing that state
  across concurrent requests is not modelled.
- Emoji.EmojiPool.GetParticipantEmoji: the `name` and `index` arguments are accepted and
  ignored, as in the code.
- I18n: the Svelte stores `currentLanguage` and `t` are not part of this model. Neither
  are the `localStorage` subscription, `navigator` and the JSON locale files. The language,
  the three locale trees, the stored value and the browser language are parameters.
- I18n.Step: a locale tree holds only objects and strings. JSON arrays and numbers are not
  modelled. Neither is property access on a string leaf, where a digit segment would index
  a character. Inherited object properties such as `constructor`, which `value?.[k]` and
  `params[paramKey]` would also find, are not modelled either.
- `generateEventName` (`src/lib/utils/event.ts`) is not part of this model; it reads the
  clock and `Math.random`. `src/lib/utils/token.ts` and the database layer are not part of
  this model either.

## Findings

| source | as written | input that shows it | evidently intended | confidence | as-written member | corrected member |
|---|---|---|---|---|---|---|
| src/lib/utils/shuffle.ts:23-26 | a self-assignment at `i` is repaired with `shuffled[(i - 1 + n) % n]`, which can already be the target of another participant | participants `[a, b, c]`; draws `j = 2` at `i = 2` and `j = 0` at `i = 1` shuffle them to `[b, a, c]`; the result is `a -> c, b -> c, c -> b`, so `c` receives twice and `a` never | each person gives to the next one in the shuffled array (the comment at line 17), a permutation without fixed points | high; not executed | `Assignments.NotInjectiveExample` | `Assignments.CycleIsDerangement` |
| src/lib/utils/emoji.ts:47-50 | the character class covers U+1F300–1F9FF, U+2600–26FF and U+2700–27BF only | `addEmojiToName("Ann", "⭐")` is `"⭐ Ann"`, and removal returns it unchanged because ⭐ is U+2B50 | removal undoes `addEmojiToName` for every pool emoji | high; not executed | `Emoji.RemoveMissesStar` | `Emoji.PoolRoundTrip` |
| src/lib/utils/emoji.ts:47-50 | one code point is removed, but ❄️ and 🕯️ are two code points (base + U+FE0F) | `addEmojiToName("Ann", "❄️")` gives `"❄️ Ann"`; removal returns `"\u{FE0F} Ann"`, because U+FE0F is neither removed nor white space | the whole emoji, including its variation selector, is removed | high; not executed | `Emoji.RemoveMissesSnowflake` | `Emoji.RemovePrefixAfterAdd` |
