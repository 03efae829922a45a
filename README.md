# Literacy arena — a Dafny model

This project models the core of a Minecraft-themed reading game for
Brazilian Portuguese-speaking children. A learner walks a map of biomes. Each
biome is one kind of challenge:

- building a word from letters;
- building a word from syllables;
- guided reading;
- comprehension;
- a quick "creeper" picture choice;
- a memory game;
- a final boss made from three kinds of challenge.

A wolf companion can read a syllable aloud for the learner. It has three
charges. After fifteen idle seconds it nods off, but the effect that watches
its state wakes it at once, with the wake sound. Finishing a level earns
experience, emeralds, learned words and sometimes a collectible card. The
profile also keeps:

- daily quests;
- a daily login streak with a seven-day reward cycle;
- a shop;
- achievements;
- an adaptive-difficulty record that steers what the content generator is asked for.

The model is split by the program's structure:

| file | models |
|---|---|
| `types.dfy` | the records and enumerations of `types.ts`; content items as one record with optional fields |
| `chars.dfy` | string helpers: upper-casing, `replace(/x/g, …)`, `split`, `join`, decimal rendering |
| `text_utils.dfy` | `utils/textUtils.ts`: the syllabifier and the sentence tokenizer |
| `text_examples.dfy` | the syllabifier evaluated on concrete words and sentences |
| `reading_game.dfy` | `components/ReadingGame.tsx`: the guided-reading cursor, as a class |
| `adaptive_system.dfy` | `utils/adaptiveSystem.ts`: the adaptive statistics |
| `constants.dfy` | `constants.ts`: thresholds, biomes, cards, shop, achievements, quest templates, fallback content |
| `content_provider.dfy` | `services/geminiService.ts`: upper-casing, fallback selection, the cache, as a class |
| `game_arena.dfy` | `components/GameArena.tsx`: rewards, card drop, content loading, and the arena's state machine as a class (wolf helper, answers, level completion) |
| `boards.dfy` | the letters, syllables and memory boards of `GameArena.tsx`, as classes |
| `app_profile.dfy` | `App.tsx`: the profile transforms (time of day, quests, shop, login, daily reward, game completion, lock rule, achievements) |

JavaScript numbers are modelled as follows:

- Integers are unbounded `int`/`nat`.
- The response time and the difficulty multiplier are exact `real`s, not IEEE doubles (see "## Left out").
- `%` on a possibly negative streak is truncating (`AppProfile.JsRem`).
- `Math.floor(x * 1.5)` is written out in the level reward.

Some consequences of the code that the model keeps:

- The syllabifier drops characters that no syllable pattern matches. The final `T` of `ROBOT` is dropped, giving `["RO", "BO"]` (`TextExamples.RobotExample`).
- A digraph placeholder with no vowel after it is dropped too: `AGU` gives `["A"]`, losing the `u` (`TextExamples.AguExample`). What is proved about vowels is per part: within one `-`-separated part, after the digraphs are hidden, the part's syllables keep all its vowels in order (`TextUtils.PartKeepsVowels`).
- `splitSentenceIntoSyllables` splits every word, the last one included: `"O SOL BRILHA."` ends with the tokens `"BRI"` and `"LHA."` (`TextExamples.SolBrilhaExample`).
- A word made only of punctuation becomes a token of its own, between space tokens. A word made only of `-` gives no token at all, but its space token stays (`TextExamples.DashExample`).

## Model

| member | source | states |
|---|---|---|
| Types.ModuleName | types.ts:2-12 | every module kind has a non-empty name without `_`, so cache keys can be split back |
| Chars.Upper | utils/textUtils.ts:63 | upper-casing keeps the length and maps each character: ASCII and Latin-1 letters, `ÿ` and `µ` to their capitals, everything else to itself |
| Chars.UpperIsUpperText | services/geminiService.ts:24-32 | upper-cased text is upper text, and upper-casing twice changes nothing |
| Chars.ConcatAppend | utils/textUtils.ts:96 | concatenation of token lists distributes over appending |
| Chars.SplitOn | utils/textUtils.ts:50 | `split('-')` yields at least one part, and no part holds the separator |
| Chars.SplitOnJoin | utils/textUtils.ts:50 | the parts joined by the separator give the text back |
| Chars.SplitOnSlices | utils/textUtils.ts:50 | every part of `split('-')` is a contiguous slice of the text |
| Chars.NatToString | App.tsx:97 | the decimal rendering is non-empty digits; one digit iff below ten |
| Chars.NatToStringInjective | App.tsx:97 | distinct indices render differently |
| TextUtils.OnsetEnd | utils/textUtils.ts:29 | the optional onset of the syllable pattern is the maximal run of onset characters |
| TextUtils.VowelEnd | utils/textUtils.ts:29 | the nucleus is the maximal run of vowels |
| TextUtils.MatchAt | utils/textUtils.ts:29 | a match from position i ends strictly after i |
| TextUtils.VowelNotPlaceholder | utils/textUtils.ts:10-14 | no digraph placeholder is a vowel |
| TextUtils.SyllableStartPlace | utils/textUtils.ts:29 | a nucleus starts right after the maximal onset run, or one later after a placeholder |
| TextUtils.MatchAtNoneIff | utils/textUtils.ts:29 | the pattern fails from i iff no nucleus is reachable from i |
| TextUtils.SyllableStartUnique | utils/textUtils.ts:29 | the nucleus a match starts at is unique |
| TextUtils.MatchShape | utils/textUtils.ts:29 | each match is onset, maximal vowel run, then optional coda |
| TextUtils.GlobalMatch | utils/textUtils.ts:54 | `match` with the global flag is null or a non-empty list |
| TextUtils.GlobalMatchNoneIff | utils/textUtils.ts:54-59 | the global match is null exactly when the part has no vowel |
| TextUtils.ScanTokens | utils/textUtils.ts:54 | every matched syllable is non-empty and made of the part's characters |
| TextUtils.ScanKeepsVowels | utils/textUtils.ts:54-56 | the matched syllables keep every vowel of the part, in order |
| TextUtils.ScanHasVowel | utils/textUtils.ts:54-59 | a non-empty match list implies the part has a vowel |
| TextUtils.Vowels | utils/textUtils.ts:29 | the vowel projection is no longer than its input |
| TextUtils.VowelsAppend | utils/textUtils.ts:52-60 | the vowel projection distributes over concatenation |
| TextUtils.PartTokensCases | utils/textUtils.ts:54-59 | a part with a vowel yields its matches; a part without yields itself, or nothing if empty |
| TextUtils.PartKeepsVowels | utils/textUtils.ts:52-60 | one part's syllables keep its vowels |
| TextUtils.FinishAll | utils/textUtils.ts:63 | restoring and upper-casing applies to each syllable, keeping the count |
| TextUtils.RestoreHasNoPlaceholder | utils/textUtils.ts:36-43 | restoring removes every placeholder character |
| TextUtils.HideDigraphsKeeps | utils/textUtils.ts:10-14 | `HideDigraphs` leaves a word without `h` or `u` unchanged |
| TextUtils.MarkClustersKeeps | utils/textUtils.ts:18-22 | `MarkClusters` leaves a word without rr, ss, sc, sç or xc unchanged |
| TextUtils.RestoreKeeps | utils/textUtils.ts:36-43 | `Restore` leaves a token without placeholders unchanged |
| TextUtils.RestoreGrows | utils/textUtils.ts:36-43 | restoring never shortens a syllable |
| TextUtils.FinishShape | utils/textUtils.ts:63 | `Finish` (restore, then upper-case) gives non-empty upper text, with no `-` and no placeholder |
| TextUtils.SyllabifyWord | utils/textUtils.ts:3-64 | the step-by-step syllabifier returns `Syllabify(word)`, the composed syllabification function: `Prepare` (lower-case, `HideDigraphs`, `MarkClusters`), split at `-`, scan each part, then `Finish` each syllable |
| TextUtils.SyllableShape | utils/textUtils.ts:3-64 | every syllable of `Syllabify(word)`, for any word, is non-empty upper text without separator or placeholder: each placeholder was turned back into its digraph |
| TextUtils.HideDigraphsClean | utils/textUtils.ts:10-14 | after `HideDigraphs`, none of lh, nh, ch, qu, gu remains as two letters: each became one placeholder |
| TextUtils.MarkClustersKeepsNoDigraph | utils/textUtils.ts:18-22 | `MarkClusters` splits no hidden digraph back into letters: a text free of the five digraphs stays free of them |
| TextUtils.PrepareNoDigraph | utils/textUtils.ts:6-50 | the prepared word, and every part split from it at `-`, holds no digraph as two letters, so no digraph can be split across two syllables |
| TextUtils.MarkClustersSplits | utils/textUtils.ts:18-22 | after `MarkClusters` no sc, sç or xc is left, and every rr or ss left is directly after a `-`: each replaced cluster was cut in two |
| TextUtils.MarkClustersDashes | utils/textUtils.ts:18-22 | in a word without `-`, every `-` that `MarkClusters` inserts sits between the two letters of a cluster rr, ss, sc, sç or xc, never at either end |
| TextUtils.ScanSlices | utils/textUtils.ts:54 | every matched syllable is a contiguous slice of the part |
| TextUtils.PartTokensSlices | utils/textUtils.ts:54-59 | every token of a part, match or fallback, is a contiguous slice of it |
| TextUtils.PartsTokensSlices | utils/textUtils.ts:52-60 | every raw syllable is a contiguous slice of one of the parts |
| TextUtils.SyllableSources | utils/textUtils.ts:3-64 | every syllable of `Syllabify(word)` is `Finish` of a contiguous, digraph-free slice of one `-`-separated part of the prepared word |
| TextUtils.SyllabifyNonEmpty | utils/textUtils.ts:49-60 | a word with a character other than `-` has at least one syllable |
| TextUtils.SyllabifyAvoids | utils/textUtils.ts:3-64 | a non-letter character absent from the word is absent from its syllables |
| TextUtils.TrimStart | utils/textUtils.ts:69 | `trimStart` removes exactly the leading whitespace (with `TrimEnd`, this is `Trim`) |
| TextUtils.TrimEnd | utils/textUtils.ts:69 | `trimEnd` removes exactly the trailing whitespace |
| TextUtils.SplitWs | utils/textUtils.ts:69 | `split(/\s+/)` yields at least one word (`Words` is this split of the trimmed sentence) |
| TextUtils.SplitWsNoSpace | utils/textUtils.ts:69 | no word holds whitespace |
| TextUtils.SplitWsKeepsText | utils/textUtils.ts:69 | the words together are the input without its whitespace |
| TextUtils.NonSpaceAppend | utils/textUtils.ts:69 | removing whitespace distributes over concatenation |
| TextUtils.PunctRunStart | utils/textUtils.ts:75 | the trailing punctuation run is maximal |
| TextUtils.PunctSplit | utils/textUtils.ts:75-83 | word and punctuation concatenate back to the token; the word part is non-empty and does not end in punctuation when longer than one |
| TextUtils.WordGroups | utils/textUtils.ts:72-102 | each word's tokens, `WordTokens` (peel punctuation, syllabify, attach), are computed independently, one group per word |
| TextUtils.InterleaveStep | utils/textUtils.ts:96-101 | in `Interleave`, a space token follows every word group but the last |
| TextUtils.WordSyllables | utils/textUtils.ts:75-94 | one word's step-by-step processing returns `WordTokens(word)` |
| TextUtils.SplitSentenceIntoSyllables | utils/textUtils.ts:66-105 | the loop over words returns `SplitSentence(sentence)`, the `Interleave` of the `WordTokens` of each of `Words(sentence)`; the empty sentence gives no tokens |
| TextUtils.CountOfAppend | utils/textUtils.ts:96-101 | token counts add over concatenation |
| TextUtils.InterleaveSpaces | utils/textUtils.ts:96-101 | joining n space-free groups adds exactly n-1 space tokens |
| TextUtils.InterleaveWellSpaced | utils/textUtils.ts:96-101 | joined non-empty groups never start or end with a space, nor hold two spaces in a row |
| TextUtils.AttachShape | utils/textUtils.ts:88-94 | attaching punctuation keeps syllables non-empty upper text and gives a token when either is present |
| TextUtils.AttachPunctuation | utils/textUtils.ts:88-94 | the punctuation is appended after the last syllable, or is a token of its own |
| TextUtils.WordTokensUpper | utils/textUtils.ts:75-94 | every word token is non-empty upper text |
| TextUtils.WordTokensNoSpace | utils/textUtils.ts:75-94 | a word's tokens hold no space |
| TextUtils.WordTokensNonEmpty | utils/textUtils.ts:75-94 | a word with a character other than `-` has a token |
| TextUtils.SentenceSpaces | utils/textUtils.ts:96-101 | a sentence has one space token fewer than it has words |
| TextUtils.SentenceWellSpaced | utils/textUtils.ts:66-105 | when every word has a non-`-` character, spaces never lead, trail or repeat |
| TextUtils.SentenceTokensUpper | utils/textUtils.ts:66-105 | every token of a sentence is non-empty upper text |
| TextUtils.InterleaveTokens | utils/textUtils.ts:96-101 | each sentence token is a space or a token of some word |
| TextUtils.BlankSentence | utils/textUtils.ts:67-69 | an all-whitespace sentence gives no tokens |
| TextExamples.CasaExample | utils/textUtils.ts:3-64 | `CASA` splits as `CA`, `SA` |
| TextExamples.RobotExample | utils/textUtils.ts:3-64 | `ROBOT` splits as `RO`, `BO`; the unmatched `T` is dropped |
| TextExamples.CarroExample | utils/textUtils.ts:18 | `CARRO` splits at the separated `rr` as `CAR`, `RO` |
| TextExamples.SolBrilhaExample | utils/textUtils.ts:66-105 | `O SOL BRILHA.` tokenizes as `O`, space, `SOL`, space, `BRI`, `LHA.` |
| TextExamples.DashExample | utils/textUtils.ts:66-105 | a word of only `-` gives no syllables but still gets its space token |
| TextExamples.AguExample | utils/textUtils.ts:3-64 | `AGU` gives only `A`: the `gu` placeholder has no vowel after it and is dropped |
| ReadingGame.NextIndex | components/ReadingGame.tsx:38-51 | advancing moves one token, or two over a space; it stays put when all is visible and stays in range |
| ReadingGame.PrevIndex | components/ReadingGame.tsx:53-65 | going back moves one token, or two over a space, never below -1 |
| ReadingGame.NextOffSpace | components/ReadingGame.tsx:43-47 | in a well-spaced text, advancing never leaves the cursor on a space |
| ReadingGame.PrevOffSpace | components/ReadingGame.tsx:58-61 | in a well-spaced text, going back never leaves the cursor on a space |
| ReadingGame.ShowAllOffSpace | components/ReadingGame.tsx:67-70 | show-all leaves the cursor on the last token, which is not a space |
| ReadingGame.PrevUndoesNext | components/ReadingGame.tsx:38-65 | going back undoes an advance |
| ReadingGame.NextUndoesPrev | components/ReadingGame.tsx:38-65 | advancing undoes going back |
| ReadingGame.FullIffNextStays | components/ReadingGame.tsx:38-82 | advancing is a no-op exactly when the text is fully visible |
| ReadingGame.NextTimes | components/ReadingGame.tsx:38-51 | repeated advances stay in range |
| ReadingGame.NextTimesReachesEnd | components/ReadingGame.tsx:38-82 | enough advances make the whole text visible |
| ReadingGame.Reader.constructor | components/ReadingGame.tsx:16-29 | a new reader holds the tokens of the item's text, nothing visible, not completed |
| ReadingGame.Reader.LoadItem | components/ReadingGame.tsx:22-29 | a new item replaces the tokens and resets the cursor |
| ReadingGame.Reader.HandleNextSyllable | components/ReadingGame.tsx:38-51 | the cursor becomes the advance of the old cursor; nothing else changes |
| ReadingGame.Reader.HandlePrevSyllable | components/ReadingGame.tsx:53-65 | the cursor becomes the step back of the old cursor; nothing else changes |
| ReadingGame.Reader.HandleShowAll | components/ReadingGame.tsx:67-70 | the cursor moves to the last token and the text is fully visible |
| ReadingGame.Reader.IsFullTextVisible | components/ReadingGame.tsx:82 | visibility iff the cursor is at or past the last token |
| ReadingGame.Reader.HandleConfirm | components/ReadingGame.tsx:72-166 | confirming completes exactly when the whole text is shown |
| ReadingGame.Reader.HandleSyllableClick | components/ReadingGame.tsx:76-80 | a token reaches the helper iff wolf mode, a handler, and not a space |
| ReadingGame.SentenceCursorOffSpace | components/ReadingGame.tsx:22-65 | on a sentence's own tokens, every move keeps the cursor off spaces |
| AdaptiveSystem.ErrorKey | utils/adaptiveSystem.ts:27 | the error key is the id's text before the first `_`, or `general` when that is empty |
| AdaptiveSystem.Updated | utils/adaptiveSystem.ts:12-43 | one more question; rolling 0.9/0.1 average; one more error under the key for a wrong answer with an id; +0.05 up to 1.5 for a fast right answer, -0.1 down to 0.7 for a wrong one |
| AdaptiveSystem.UpdateAdaptiveStats | utils/adaptiveSystem.ts:12-43 | the field-by-field update returns `Updated`: the one-step rule above |
| AdaptiveSystem.UpdateKeepsRange | utils/adaptiveSystem.ts:36-39 | the multiplier stays within 0.7..1.5 |
| AdaptiveSystem.UpdateStepBounded | utils/adaptiveSystem.ts:34-40 | a right answer raises the multiplier by at most 0.05; a wrong one lowers it by at most 0.1 |
| AdaptiveSystem.InitialFastAnswer | utils/adaptiveSystem.ts:4-36 | from `InitialStats` (no errors, 5000 ms, no questions, multiplier 1) a 1 s right answer gives 1.05 and an average of 4600 |
| AdaptiveSystem.DifficultyPromptModifier | utils/adaptiveSystem.ts:45-52 | `ComplexHint` iff above 1.2, `SimpleHint` iff below 0.9, empty otherwise |
| AdaptiveSystem.HintAfterStreaks | utils/adaptiveSystem.ts:34-52 | in exact arithmetic, two wrong answers reach the simple hint; five fast right answers reach the complex hint, four do not |
| Constants.ThresholdsIncreasing | constants.ts:4-5 | both threshold tables start at 0 and strictly increase |
| Constants.ModuleIdsDistinct | constants.ts:7-111 | biome, boss and mini-game ids are pairwise distinct |
| Constants.CardsOf | components/GameArena.tsx:210 | the rarity filter keeps exactly the cards of that rarity |
| Constants.EveryRarityHasCards | constants.ts:120-131 | every rarity has at least one collectible card |
| Constants.CardIdsUnique | constants.ts:120-131 | collectible card ids are distinct |
| Constants.MagicSkinInShop | constants.ts:133-161 | the shop sells the magic wolf skin the daily reward also gives |
| Constants.ShopIdsUnique | constants.ts:133-161 | shop item ids are distinct |
| Constants.AchievementIdsUnique | constants.ts:163-206 | achievement ids are distinct |
| Constants.QuestTemplatesPositive | constants.ts:208-213 | every quest template has a positive target and reward |
| Constants.InitialUserState | constants.ts:215-252 | a new profile has streak 1, mascot level 1, no emeralds or xp, logged in today, reward never claimed |
| Constants.CountWhere | constants.ts:301-323 | the number of options marked correct is bounded by the options |
| Constants.PairCount | constants.ts:388-400 | the count of a pair side is bounded by the pairs |
| Constants.FallbackSyllablesWellFormed | constants.ts:264-286 | each fallback syllable item's syllables spell its word, and no distractor is one of its syllables |
| Constants.FallbackFluencyWellFormed | constants.ts:288-299 | each fallback reading item's chunks, joined by spaces, give its text |
| Constants.FallbackChoicesSingleCorrect | constants.ts:301-343 | every fallback comprehension, creeper and story quiz has exactly one correct option |
| Constants.FallbackMemoryComplete | constants.ts:388-400 | every memory pair id has exactly one text and one image card |
| Constants.MemoryPairCounts | constants.ts:388-400 | `p1`, `p2` and `p3` each have one card of each side |
| Constants.PairCountTwin | constants.ts:388-400 | a leading text/image twin adds one to its id's counts and none to others |
| ContentProvider.UpperIfSet | services/geminiService.ts:24-28 | a present, non-empty text field is upper-cased; others are left as they are |
| ContentProvider.UpperOrUndefined | services/geminiService.ts:37-38 | an option's label or text is upper-cased when set, and cleared otherwise |
| ContentProvider.UpperOrEmpty | services/geminiService.ts:42-63 | a hidden word, page or quiz-option text is upper-cased when set, and `''` otherwise |
| ContentProvider.UpperList | services/geminiService.ts:30-32 | a present string list is upper-cased element by element |
| ContentProvider.UpperOptions | services/geminiService.ts:34-40 | every option keeps its other fields, with label and text upper-cased or cleared |
| ContentProvider.UpperHiddenWords | services/geminiService.ts:42-47 | every hidden word keeps its position, with its word upper-cased or `''` |
| ContentProvider.UpperPages | services/geminiService.ts:49-54 | every story page keeps its image, with its text upper-cased or `''` |
| ContentProvider.UpperQuizOptions | services/geminiService.ts:58-63 | every quiz option keeps its correctness, with its text upper-cased or `''` |
| ContentProvider.UpperQuiz | services/geminiService.ts:56-64 | a quiz without a question is left untouched |
| ContentProvider.UpperItem | services/geminiService.ts:21-66 | an item keeps its id, emoji, pairs and stages, and which lists it has |
| ContentProvider.EnforceUppercase | services/geminiService.ts:20-68 | the batch is the item-wise transform, keeping the count |
| ContentProvider.UpperItemSettles | services/geminiService.ts:21-66 | an item's text fields become upper text, and a settled item is a fixed point |
| ContentProvider.EnforceUppercaseIsUpper | services/geminiService.ts:20-68 | after the transform every item is settled |
| ContentProvider.EnforceUppercaseIdempotent | services/geminiService.ts:20-68 | applying the transform twice equals applying it once |
| ContentProvider.GetFallbackData | services/geminiService.ts:294-305 | boss and memory have no fallback; each of the seven other kinds gets its own non-empty table |
| ContentProvider.FallbackSettled | services/geminiService.ts:294-305 | every fallback table is already upper-case: the transform leaves it unchanged |
| ContentProvider.CacheKeyInjective | services/geminiService.ts:76 | distinct kinds or levels never share a cache key |
| ContentProvider.Provider.constructor | services/geminiService.ts:13-17 | the provider starts with its key, an empty cache and no requests |
| ContentProvider.Provider.GenerateGameContent | services/geminiService.ts:70-292 | no key gives the fallback; a cached key returns the cache; an unprompted kind gives the fallback; otherwise exactly one request, and parsed text is upper-cased and cached while empty text or an error gives the fallback and leaves the cache alone |
| ContentProvider.RepeatedRequestHitsCache | services/geminiService.ts:76-286 | a second request for the same kind and level returns the first answer with no second request |
| GameArena.LevelXp | components/GameArena.tsx:60-226 | the level xp is 10 per point plus 50, times 1.5 rounded down in the morning |
| GameArena.LevelEmeralds | components/GameArena.tsx:61-227 | the biome's emeralds are doubled exactly in the afternoon |
| GameArena.LevelXpOrder | components/GameArena.tsx:225-226 | more points never give less xp, and the morning gives exactly 1.5 times the other periods |
| GameArena.DropRarity | components/GameArena.tsx:204-208 | legendary above 0.95, epic above 0.85, rare above 0.60, common otherwise |
| GameArena.DropRarityMonotone | components/GameArena.tsx:204-208 | a higher roll never gives a lower rarity |
| GameArena.FloorIndex | components/GameArena.tsx:212 | the random index is within the pool |
| GameArena.CardDrop | components/GameArena.tsx:202-216 | for draws with `pick` in [0, 1) (`ValidDraws`), a card drops only under the `DropChance` of 0.35, always of the rolled rarity, and always when that rarity has cards |
| GameArena.GameCardDrop | components/GameArena.tsx:202-216 | with the game's cards a drop happens exactly under `DropChance` |
| GameArena.BossContent | components/GameArena.tsx:163-167 | the boss gets the first item of each of the three lists, skipping missing ones |
| GameArena.CurrentType | components/GameArena.tsx:326-333 | outside the boss the biome's kind; in the boss the kind detected from the item's fields |
| GameArena.BossDetectsKinds | components/GameArena.tsx:326-333 | syllable, reading and creeper challenges are detected as such; a comprehension challenge is detected as one when its sentence is non-empty |
| GameArena.BossFallbackKinds | components/GameArena.tsx:163-333 | offline, the boss plays one syllable, one reading and one creeper challenge, in that order |
| GameArena.OfflineContent | components/GameArena.tsx:163-173 | offline, memory gets the static pairs, the boss three items, the rest their fallback table |
| GameArena.FetchContent | components/GameArena.tsx:158-174 | memory or no key gives the offline content; the boss never gets more than three items |
| GameArena.Arena.constructor | components/GameArena.tsx:36-174 | a new arena has index 0, no score, three charges, an idle wolf, an armed idle timer, and the loaded content |
| GameArena.Arena.HandleWolfClick | components/GameArena.tsx:107-123 | only an idle wolf reacts: it listens with a charge, else it reports no charges and schedules a return to idle; a change of state re-arms the idle timer (lines 81-89) |
| GameArena.Arena.NoChargesTimeout | components/GameArena.tsx:121 | the no-charges message ends in idle, and reaching idle re-arms the idle timer |
| GameArena.Arena.OnSyllableSelectForHelp | components/GameArena.tsx:125-131 | only a listening wolf takes the syllable and asks for confirmation |
| GameArena.Arena.DialogShown | components/GameArena.tsx:375 | the dialog is shown while confirming with a selected syllable |
| GameArena.Arena.ConfirmWolfHelp | components/GameArena.tsx:133-149 | confirming spends one charge, reads the syllable with a full stop, and schedules the return to idle |
| GameArena.Arena.SpeakingTimeout | components/GameArena.tsx:143-147 | after reading, the wolf is idle with the selection cleared, and reaching idle re-arms the idle timer |
| GameArena.Arena.CancelWolfHelp | components/GameArena.tsx:151-155 | cancelling returns to listening and clears the selection, keeping the charges |
| GameArena.Arena.Activity | components/GameArena.tsx:65-89 | `resetIdleTimer`, from a window click or the state effect: a sleeping wolf starts waking with the wake sound and a wake timer, and the idle timer is re-armed |
| GameArena.Arena.WakeTimeout | components/GameArena.tsx:70 | waking ends in idle after a second, and reaching idle re-arms the idle timer |
| GameArena.Arena.IdleTimeout | components/GameArena.tsx:65-89 | fifteen seconds put an idle wolf to sleep, and the effect on the new state at once sets it waking, plays the wake sound, schedules the return to idle and re-arms the timer; a timer firing in any other state changes nothing but disarms itself |
| GameArena.Arena.IdleTimeoutIntended | components/GameArena.tsx:73-78 | the intended timeout: an idle wolf falls asleep and stays asleep, with no wake sound and no timer |
| GameArena.IdleWakesAtOnce | components/GameArena.tsx:65-89 | left alone after mounting, the wolf is waking when the idle timeout has fired, with one wake sound, and idle with an armed timer a second later |
| GameArena.IdleSleepsUntilClick | components/GameArena.tsx:73-110 | under the intended timeout the wolf sleeps, the wolf's own click handler does nothing while it sleeps, and the window listener that the same click reaches wakes it with one wake sound |
| GameArena.Arena.HandleLevelComplete | components/GameArena.tsx:218-234 | the level finishes celebrating, with the level xp and emeralds, the card drop, and the play-game and earn-emeralds quest events |
| GameArena.Arena.RecordAnswer | components/GameArena.tsx:236-275 | an answer adds its points, updates the adaptive record, and on a right answer adds a quest event and the word |
| GameArena.Arena.NextQuestion | components/GameArena.tsx:272-284 | an answer while a step is pending is ignored; otherwise it is recorded and, before the last challenge, schedules one step and leaves the report and the dropped card alone; on the last challenge it finishes the level, with its quest events, its card drop (or the previous card when none drops) and the report |
| GameArena.Arena.NextQuestionAsWritten | components/GameArena.tsx:218-284 | every answer is recorded; before the last challenge it schedules one more step and leaves the report and the dropped card alone; on the last challenge it finishes the level with its quest events and card drop, but reports the words, card and adaptive record from before the answer, as the closure at line 233 captures them |
| GameArena.LastAnswerReportAsWritten | components/GameArena.tsx:211-233 | the offline boss answered right three times, each board passing what it passes (BOLA, no word, MESA): the arena holds the card drawn, the report holds no card and only BOLA |
| GameArena.LastAnswerReportGuarded | components/GameArena.tsx:211-233 | the same answers under the corrected report: it holds the card drawn and both BOLA and MESA |
| GameArena.Arena.AdvanceTimeout | components/GameArena.tsx:280 | the delayed step moves to the next challenge; with the one-answer rule it stays within the content |
| GameArena.Arena.CurrentItem | components/GameArena.tsx:326 | the current item exists iff the index is within the content |
| GameArena.DoubleAnswerOverruns | components/GameArena.tsx:272-284 | two quick answers on the first of two challenges leave the index at 2 with nothing to show |
| GameArena.DoubleAnswerGuarded | components/GameArena.tsx:272-284 | under the one-answer rule the same two answers reach the second challenge with one point |
| Boards.FirstEmpty | components/GameArena.tsx:514 | `findIndex` of the first empty slot, or -1 when all are filled |
| Boards.Joined | components/GameArena.tsx:524 | `join('')` of the slots; a full board spells its letters in order |
| Boards.JoinedPrefix | components/GameArena.tsx:524 | a board filled up to m joins to those m letters |
| Boards.RemoveId | components/GameArena.tsx:519 | the filter keeps exactly the tiles with another id |
| Boards.RemoveIdOnce | components/GameArena.tsx:507-519 | with distinct ids, using a tile removes exactly that tile |
| Boards.PlaceTile | components/GameArena.tsx:512-521 | placing a pool tile keeps the board valid: slots filled in order, each with the letter of its tile, and tiles used once |
| Boards.LettersBoard.constructor | components/GameArena.tsx:503-510 | a new board has empty slots and the word's letters as a shuffled pool |
| Boards.LettersBoard.HandlePoolClick | components/GameArena.tsx:512-521 | on a board with room, the tile's letter fills the first empty slot and leaves the pool; a full board is unchanged |
| Boards.LettersBoard.CheckAnswer | components/GameArena.tsx:523-529 | the answer is accepted iff the joined slots are the word |
| Boards.LettersBoard.Accepted | components/GameArena.tsx:523-529 | acceptance means every slot is filled with tiles spelling the word, so the pool is empty |
| Boards.FirstBlank | components/GameArena.tsx:553 | `findIndex` of the first blank slot, or -1 |
| Boards.SyllablesBoard.constructor | components/GameArena.tsx:542-548 | a new board has blank slots and the shuffled syllables and distractors as the pool |
| Boards.SyllablesBoard.HandlePoolClick | components/GameArena.tsx:550-559 | in wolf mode the syllable goes to the helper and the board is unchanged; otherwise it fills the first blank slot |
| Boards.SyllablesBoard.CheckAnswer | components/GameArena.tsx:561-567 | accepted iff the slots join to the joined syllables |
| Boards.SyllablesBoard.FillInOrder | components/GameArena.tsx:550-567 | clicking the syllables in order fills the slots with them, and the answer is accepted |
| Boards.Deal | components/GameArena.tsx:630-635 | a dealt card keeps its pair's id, content and side, face down and unmatched |
| Boards.MemoryBoard.constructor | components/GameArena.tsx:629-638 | the cards are the shuffled pairs, all face down, none flipped |
| Boards.MemoryBoard.HandleCardClick | components/GameArena.tsx:640-650 | a click on a face-down card with fewer than two flipped turns it up; other clicks change nothing; matched cards stay matched |
| Boards.MemoryBoard.ResolveTimeout | components/GameArena.tsx:651-680 | two equal ids are matched, else both turn back; only the two flipped cards can become matched; completion iff every card is matched |
| AppProfile.ClassifyTime | App.tsx:44-55 | night from 20:00 to 06:00, afternoon from 12:00, morning otherwise |
| AppProfile.TimeBonuses | App.tsx:44-55 | the morning raises the level xp and the afternoon doubles the emeralds, at those hours only |
| AppProfile.Progressed | App.tsx:185-190 | a matching unclaimed quest advances by the amount, capped at its target; others are untouched |
| AppProfile.UpdateQuestProgress | App.tsx:182-192 | only the quests change, each by the progress rule |
| AppProfile.ProgressBounded | App.tsx:182-192 | progress never exceeds the target, never decreases, and reaches the target when the amount suffices |
| AppProfile.ProgressZero | App.tsx:276 | progress by zero leaves a bounded profile unchanged |
| AppProfile.FindQuest | App.tsx:195 | `find` returns the first quest with that id |
| AppProfile.ClaimQuest | App.tsx:194-204 | a quest that is `Claimable` (found, complete, unclaimed) pays its reward once and every quest with that id is marked claimed; otherwise nothing changes |
| AppProfile.ClaimOnce | App.tsx:194-204 | claiming twice equals claiming once |
| AppProfile.ClaimBounded | App.tsx:194-204 | claiming keeps progress within targets |
| AppProfile.HandleBuy | App.tsx:257-281 | an affordable item costs its price, joins the inventory and is equipped by its category; otherwise nothing changes |
| AppProfile.BuyKeeps | App.tsx:257-281 | buying never makes emeralds negative and leaves bounded quests unchanged |
| AppProfile.NextStreak | App.tsx:84-91 | one day later the streak grows; more than two days resets it to 1; otherwise it stays |
| AppProfile.StreakPositive | App.tsx:84-91 | a positive streak stays positive and grows by at most one |
| AppProfile.QuestIdInjective | App.tsx:97 | the `QuestId`s made at one login, for different indices, differ |
| AppProfile.NewQuests | App.tsx:93-97 | the first three shuffled templates become fresh unclaimed quests with zero progress |
| AppProfile.Login | App.tsx:79-112 | on a new day: date, quests, streak; the reward dialog opens iff today's reward is unclaimed; on the same day nothing |
| AppProfile.LoginQuests | App.tsx:93-97 | a login hands out three distinct, unclaimed quests with positive targets |
| AppProfile.JsRem | App.tsx:128 | JavaScript's `%` truncates toward zero |
| AppProfile.DayCycle | App.tsx:128 | a positive streak cycles through days 1 to 7; streaks -5 to 0 map to themselves |
| AppProfile.DayCycleWeekly | App.tsx:128 | the cycle repeats every seven days |
| AppProfile.FirstNewSticker | App.tsx:142 | the first sticker not yet collected, or none when all are |
| AppProfile.EmeraldBonus | App.tsx:130-162 | 20, 30, 40, 100, 50 emeralds on days 1, 2, 4, 5, 6; 150 on day 7 when the skin is owned |
| AppProfile.ClaimDailyReward | App.tsx:125-172 | emeralds by day, a sticker on day 3, the magic skin on day 7 if not owned; the claim date is today and nothing else changes |
| AppProfile.SkinOnce | App.tsx:153-161 | the skin is given on the first seventh day; the next seventh day gives 150 emeralds instead |
| AppProfile.ThirdDaySticker | App.tsx:140-148 | while a sticker is missing, day 3 gives a sticker not yet collected |
| AppProfile.WeekOfRewards | App.tsx:130-162 | a full week yields 390 emeralds with the skin owned, 240 without |
| AppProfile.CountReached | App.tsx:230-232 | the number of thresholds the xp reaches is at most the number of thresholds |
| AppProfile.CountReachedMonotone | App.tsx:230-232 | more xp never reaches fewer thresholds |
| AppProfile.CountReachedAll | App.tsx:230-232 | xp above every threshold reaches all of them |
| AppProfile.MascotLevelRange | App.tsx:228-232 | `MascotLevelOf`, the mascot level, is 1 to 5 and never lower for more xp |
| AppProfile.MascotLevel | App.tsx:229-232 | the threshold loop returns `MascotLevelOf`: the last reached threshold's position plus one |
| AppProfile.Dedup | App.tsx:224-243 | `Array.from(new Set(…))` keeps the same elements, without repeats, in the order of their first occurrences (`FirstIndex`) |
| AppProfile.DedupKeepsPrefix | App.tsx:224 | de-duplication keeps an already distinct list as its prefix |
| AppProfile.GameCompleted | App.tsx:222-255 | xp, emeralds, mascot xp and level, learned words merged without repeats, the dropped card, completed modules unless a mini-game, adaptive record |
| AppProfile.HandleGameComplete | App.tsx:222-255 | the update with its threshold loop returns `GameCompleted`; it builds its result with `WithGameResult`, giving the level from `MascotLevel` |
| AppProfile.LearnedWordsKept | App.tsx:224 | learned words are never lost or reordered |
| AppProfile.FindModule | App.tsx:207 | `findIndex` of the biome by id |
| AppProfile.CanStart | App.tsx:206-220 | a biome is locked iff its predecessor is not completed, and it is neither the boss nor a mini-game |
| AppProfile.StartRules | App.tsx:206-220 | the first biome, the boss and the mini-game are always open; any other biome opens iff its predecessor is completed |
| AppProfile.CompletionUnlocksNext | App.tsx:206-244 | completing a biome opens the next one |
| AppProfile.NewAchievements | App.tsx:115-121 | exactly the achievements not held whose condition holds |
| AppProfile.CheckAchievements | App.tsx:115-180 | the new achievements are appended to those held |
| AppProfile.ConditionsIgnoreAchievements | constants.ts:163-206 | no achievement condition depends on the achievements held |
| AppProfile.NothingLeftToUnlock | App.tsx:115-121 | once unlocked, a second check finds nothing new |
| AppProfile.AchievementsSettle | App.tsx:115-121 | checking achievements is idempotent |

## Left out

- Rendering, styling, animation, particles, cutscenes, the map, the parent portal and the background (`PixelUI.tsx`, `DimensionBackground.tsx`, `ParentPortal.tsx`) are presentation only.
- Sound and speech (`audioUtils.ts`) are I/O. The syllable the helper reads for the learner is recorded in `spoken`, and the wake sounds are counted; the greetings, praise and other phrases are not.
- The generative-model request is I/O: its outcome is a parameter — parsed items, empty text, or an error. The prompts and the response schemas are not modelled.
- `Math.random` draws are parameters: the card-drop draws, the sticker pick, the weather. Every `sort(() => Math.random() - 0.5)` shuffle is a parameter that is a permutation of its input.
- `Date`, `setTimeout` and `setInterval` are not modelled as time. Today's date, the day difference and the quest id stamp are parameters. Each pending timeout is a counter, and its firing is its own method.
- `localStorage` persistence of the profile is I/O.
- The weather and the weekly event (App.tsx:59-70) are random or clock-driven decoration.
- The Flashlight and Story games are placeholders that render a fixed text (GameArena.tsx:616-622). Their content tables are modelled; their play is not.
- The comprehension and creeper boards are a single option click forwarded to `nextQuestion` (GameArena.tsx:585-614). They are covered by `GameArena.Arena.NextQuestion`.
- The dimension theme choice (GameArena.tsx:177-191) is presentation.
- The level report is sent by a 4 s timeout after the last answer (GameArena.tsx:233). The model makes it in the answering step, with the values that timeout's closure captures; the delay itself is not modelled.
- The idle timer checks the `wolfState` captured when it was armed (GameArena.tsx:74-78). Every change of state re-arms it, so `GameArena.Arena.IdleTimeout` reads the current state, which is the same.
- The adaptive update's shallow copy shares `errorCount` with the old record (adaptiveSystem.ts:18). The model works on values, so that aliasing is not captured.
- The verify button of the syllables board is disabled in wolf mode (GameArena.tsx:580). That is presentation.
- `React` remounts a board when its item changes. The model covers the item effect only, through the constructors.
- The admin and debug controls and the night, sound and settings toggles (App.tsx:283 on) are simple field flips.
- AppProfile.ClaimDailyReward: takes the card table as a parameter (the game passes `Constants.CollectibleCards`), so the sticker properties hold for any table.
- AppProfile.MascotLevelOf: `NaN` and `undefined` experience are not modelled. `prev.mascotXp || 0` and `prev.mascotLevel || 1` are taken as the stored numbers, which always exist.
- GameArena.FetchContent: states the offline content and the boss bound only; with a key, what each request returns is stated by `ContentProvider.Provider.GenerateGameContent`.
- TextUtils.MatchAt: its own contract gives only the bounds; what a match is is stated by `TextUtils.MatchShape`, `TextUtils.MatchAtNoneIff` and `TextUtils.SyllableStartUnique`.
- Chars.Upper: models `toUpperCase` for ASCII and Latin-1 only, plus `ÿ` to `Ÿ` and `µ` to `Μ`. JavaScript also turns `ß` into the two letters `SS`, changing the length, and upper-cases letters beyond Latin-1. Here those map to themselves. The same holds for `Chars.LowerChar` and `toLowerCase`.
- AdaptiveSystem.HintAfterStreaks: numbers are exact reals, not IEEE doubles. In doubles the multiplier after four fast right answers is 1.2000000000000002, which already passes the `> 1.2` test, so the complex hint comes after four answers. On the low side the clamp is reached as 0.7000000000000001. The lemma's "four do not" holds only in exact arithmetic; the 1.2 and 0.9 boundaries and the clamps round differently in doubles.

## Findings

| source | as written | input that shows it | evidently intended | confidence | as-written member | corrected member |
|---|---|---|---|---|---|---|
| components/GameArena.tsx:272-284 | every answer schedules `setCurrentIndex(prev => prev + 1)` after 1.5 s, and nothing blocks a second answer while one is pending | a two-challenge reading level, answered twice within 1.5 s on the first challenge: both steps fire, the index reaches 2 and `content[2]` is undefined | one step per challenge: an answer while a step is pending is ignored | not executed | GameArena.Arena.NextQuestionAsWritten, GameArena.DoubleAnswerOverruns | GameArena.Arena.NextQuestion, GameArena.DoubleAnswerGuarded |
| components/GameArena.tsx:211-233 | the report is sent 4 s later by a closure over the answering render's `collectedWords`, `droppedCard` and `currentAdaptiveStats`; the card set by `calculateCardDrop` and the last answer's word and adaptive update come after that render, and `droppedCard` is set nowhere else | the offline boss level (BOLA, a reading text, MESA) answered right three times with a first card draw below 0.35: the card is drawn, but the report carries no card and only BOLA, not MESA | the report carries the level's card, all its words and its final adaptive record | not executed | GameArena.Arena.NextQuestionAsWritten, GameArena.LastAnswerReportAsWritten | GameArena.Arena.NextQuestion, GameArena.LastAnswerReportGuarded |
| components/GameArena.tsx:65-89 | the effect on `wolfState` runs `resetIdleTimer` on every change of state, including the change to `SLEEPING` that the idle timeout makes, so a sleeping wolf is woken at once | a freshly mounted arena left alone for fifteen seconds: the wolf is waking with the wake sound, and idle again a second later | the wolf sleeps until a click wakes it (the comments at lines 73 and 108) | not executed | GameArena.Arena.IdleTimeout, GameArena.IdleWakesAtOnce | GameArena.Arena.IdleTimeoutIntended, GameArena.IdleSleepsUntilClick |
