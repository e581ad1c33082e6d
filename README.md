# WordGalaxy core, modelled in Dafny

WordGalaxy is a sight-word game for children. A child picks a *planet* (a set of four words). The game then:

- asks the planet's words one at a time, in shuffled order;
- shows each word with up to two *wrong answers* (distractors) taken from the other planets;
- counts correct answers;
- stores the final score per planet once every word has been answered.

A small text module holds three transforms meant for speech. None of the pages in the repository calls them; the game speaks the raw word.

- a phonetic respelling of known words;
- a syllable table with one split (`little`) and three entries that map a word to itself (`help`, `jump`, `come`);
- pause markers inside sentences.

The project has three modules:

- `GameData` (`game_data.dfy`) is the static catalog. It holds:
  - the three planets and the flattened vocabulary;
  - planet lookup by id;
  - the Fisher-Yates shuffle, kept as an in-place array loop;
  - the choice of wrong answers.
- `GameState` (`game_state.dfy`) is the game-state hook as a class, `GameSession`.
  - Its fields are the planet, the word cursor, the correct-answer count, the shuffled words, the completion flag and the progress map.
  - Its methods are the mount and planet-change effects, the current-word and options queries, the correct-answer transition and the reset.
  - `Submit` adds the page's answer check: plain string equality, then calling the correct-answer transition.
  - `PlayRound` drives a whole round.
- `Pronunciation` (`pronunciation.dfy`) holds:
  - the two lookup tables, with the JavaScript `table[key] || word` fallback;
  - ASCII lower-casing;
  - the ECMAScript `\s` whitespace class;
  - the chain of three global replaces that inserts pauses into a sentence.

Randomness: each `Math.random()` draw is an arbitrary real in `[0, 1)`, chosen nondeterministically. The proofs hold for every sequence of draws.

Two facts about the code that shape the model:

- `useSpeech.ts` speaks with a fixed rate, pitch and volume. It has no speech modes and no voice selection, and it is not modelled.
- The syllable table maps `"help"`, `"jump"` and `"come"` to themselves in lower case. So `SyllableBreakdown("HELP")` is `"help"`, not `"HELP"`. A word is returned exactly as given only when its lower-cased form is not in the table.

## Model

| member | source | states |
|---|---|---|
| GameData.FlattenMembership | client/src/lib/gameData.ts:37 | a word is in the flattened vocabulary exactly when some planet has it |
| GameData.AllWordsContents | client/src/lib/gameData.ts:10-37 | the vocabulary is the twelve planet words in catalog order |
| GameData.AllWordsDistinct | client/src/lib/gameData.ts:10-37 | the vocabulary has twelve pairwise distinct words |
| GameData.FindById | client/src/lib/gameData.ts:39-41 | `None` exactly when no planet has the id; otherwise the result is the first planet whose id equals the argument exactly |
| GameData.GetPlanetById | client/src/lib/gameData.ts:39-41 | `None` exactly when no catalog planet has the id; otherwise a catalog planet with that id (the first one, by `FindById`) |
| GameData.GetPlanetByIdCatalog | client/src/lib/gameData.ts:10-41 | `zoom`, `pop` and `zing` find their own planets; every other string finds none |
| GameData.ScaledIndexInRange | client/src/lib/gameData.ts:46 | `floor(x * n)` for `x` in `[0, 1)` and `n > 0` lies in `[0, n)`, so the swap index is always valid |
| GameData.ShuffleArray | client/src/lib/gameData.ts:43-50 | the output is a permutation of the input: same length and same multiset, for every outcome of the random draws |
| GameData.KeepWrong | client/src/lib/gameData.ts:53-55 | the filter keeps every occurrence of each word that is neither the correct word nor excluded, and drops every other occurrence, so each word occurs in the result as often as in the input or not at all; the result is distinct when the input is |
| GameData.WrongPool | client/src/lib/gameData.ts:53-55 | the filter applied to the vocabulary: a word is a candidate exactly when it is in the vocabulary, is not the correct word and is not excluded, and then it occurs once |
| GameData.WrongPoolDistinct | client/src/lib/gameData.ts:37-55 | the candidate pool drawn from the vocabulary has no repeated word |
| GameData.GenerateWrongAnswers | client/src/lib/gameData.ts:52-57 | returns `min(2, pool size)` distinct words, each from the vocabulary, none equal to the correct word or in the excluded list, all drawn from the pool |
| GameState.GameSession.constructor | client/src/hooks/useGameState.ts:15-39 | starts from the empty state with the stored progress map; with a planet it deals that planet's words with both counters at zero |
| GameState.GameSession.StartRound | client/src/hooks/useGameState.ts:29-39 | the shuffled words are a permutation of the planet's words, the counters are zero, the flag is clear, and planet and progress are unchanged |
| GameState.GameSession.PlanetChanged | client/src/hooks/useGameState.ts:29-39 | runs only when the planet differs from the one shown (the effect's dependency); a new planet starts a fresh round, and no planet leaves the round state as it was |
| GameState.GameSession.GetCurrentWord | client/src/hooks/useGameState.ts:46-49 | `""` without a planet, without words, or after completion; otherwise the word at the cursor |
| GameState.GameSession.AskedWord | client/src/hooks/useGameState.ts:46-49 | the value a pick is compared with: missing (`undefined` in the code) exactly when a planet with words is shown and the cursor is past the end; otherwise the current word, `""` included |
| GameState.CurrentWordInPlanet | client/src/hooks/useGameState.ts:46-49 | during a round, the word asked is one of the planet's words |
| GameState.GameSession.GetWordOptions | client/src/hooks/useGameState.ts:51-57 | without a current word there are no options. Otherwise the list holds the current word exactly once and `1 + min(2, pool size)` entries, at most three. The other entries come from other planets' words, are drawn from the pool, and nothing repeats |
| GameState.OptionSetOfShuffle | client/src/hooks/useGameState.ts:55-56 | shuffling the correct word with the generated wrong answers yields a valid option list |
| GameState.GameSession.HandleCorrectAnswer | client/src/hooks/useGameState.ts:59-77 | both counters advance by one. The flag is set exactly when the cursor reaches the end. On completion the planet's entry in the progress map becomes the score. Nothing else changes, and the session invariant is kept |
| GameState.GameSession.Submit | client/src/pages/Game.tsx:40-66 | correct exactly when the pick equals the asked word, so no pick is correct once a round with words is complete; a correct pick acts as the correct-answer transition, a wrong pick changes nothing |
| GameState.GameSession.ResetGame | client/src/hooks/useGameState.ts:79-89 | with a planet, a fresh round with unchanged progress; without one, nothing changes |
| GameState.PlayRound | client/src/hooks/useGameState.ts:59-77 | answering every asked word ends the round complete, with score equal to the number of words, and stores that score under the planet's id while leaving other entries as they were |
| Pronunciation.IsWs | client/src/lib/pronunciation.ts:50 | a plain definition: the code points of the `\s` class, listed one by one; its properties are those of the rows that use it (`ReplaceWsFromSingleSpaced`, `AddSentencePausesSingleSpaced`) |
| Pronunciation.Lower | client/src/lib/pronunciation.ts:42 | a plain definition: ASCII lower-casing character by character; its properties are stated by `LowerIdempotent` and `PhoneticIgnoresCase` |
| Pronunciation.LowerIdempotent | client/src/lib/pronunciation.ts:42 | lower-casing twice equals lower-casing once, and leaves no upper-case ASCII letter |
| Pronunciation.TablesHaveNoEmptyEntry | client/src/lib/pronunciation.ts:2-60 | no table entry is empty, so the fallback to the word is taken exactly when the key is absent |
| Pronunciation.GetPhoneticPronunciation | client/src/lib/pronunciation.ts:41-43 | a known word, in any case, gives its table entry; an unknown word is returned unchanged |
| Pronunciation.PhoneticIgnoresCase | client/src/lib/pronunciation.ts:41-43 | two spellings of a known word that differ only in case give the same result |
| Pronunciation.PhoneticExamples | client/src/lib/pronunciation.ts:2-43 | `"The"` gives `"thuh"`, and `"Cat"` keeps its case |
| Pronunciation.SyllableBreakdown | client/src/lib/pronunciation.ts:54-63 | a known word, in any case, gives its table entry; any other word is returned unchanged |
| Pronunciation.SyllableBreakdownCases | client/src/lib/pronunciation.ts:54-63 | `little` in any case is split. `help`, `jump` and `come` give their lower-case forms. Every other word is returned as given |
| Pronunciation.SyllableExamples | client/src/lib/pronunciation.ts:54-63 | `little` and `LITTLE` give `"lit ... tle"`; `help` and `HELP` give `"help"` |
| Pronunciation.ReplaceChar | client/src/lib/pronunciation.ts:48-49 | each character of the result comes from the replacement or is a character of the input other than the replaced one |
| Pronunciation.ReplaceWsRuns | client/src/lib/pronunciation.ts:50 | each character of the result comes from the replacement or is a non-whitespace character of the input |
| Pronunciation.AddSentencePauses | client/src/lib/pronunciation.ts:46-51 | a plain definition: the three replaces in the code's order; what it promises is stated by the rows `AddSentencePausesSingleSpaced`, `AddSentencePausesKeepsPlain`, `AllPlainUnchanged`, `AddSentencePausesAppend` and the example rows |
| Pronunciation.ReplaceCharAppend | client/src/lib/pronunciation.ts:48-49 | a one-character global replace distributes over concatenation |
| Pronunciation.ReplaceWsFromAppend | client/src/lib/pronunciation.ts:50 | the whitespace-run replace splits at any point; the second piece continues a run exactly when the first ends in whitespace |
| Pronunciation.ReplaceWsFromSingleSpaced | client/src/lib/pronunciation.ts:50 | after the whitespace-run replace, the only whitespace is the plain space and no two whitespace characters are adjacent |
| Pronunciation.AddSentencePausesSingleSpaced | client/src/lib/pronunciation.ts:46-51 | for every sentence, the output's only whitespace is `' '` and no two whitespace characters are adjacent |
| Pronunciation.AddSentencePausesKeepsPlain | client/src/lib/pronunciation.ts:46-51 | the characters other than period, comma and whitespace are kept in their original order; none is added or dropped |
| Pronunciation.AllPlainUnchanged | client/src/lib/pronunciation.ts:46-51 | a sentence with no period, comma or whitespace is returned unchanged |
| Pronunciation.AddSentencePausesAppend | client/src/lib/pronunciation.ts:46-51 | split next to a character other than period, comma or whitespace, the pause chain works on each piece alone |
| Pronunciation.SeparatorPaused | client/src/lib/pronunciation.ts:46-51 | a separator between two stretches of plain text is rewritten by itself, and the text on both sides is kept |
| Pronunciation.SpacePaused | client/src/lib/pronunciation.ts:50 | a single space becomes `" ... "` |
| Pronunciation.WhitespaceRunPaused | client/src/lib/pronunciation.ts:50 | a mixed run of spaces, a tab and a newline becomes one `" ... "` |
| Pronunciation.PeriodPaused | client/src/lib/pronunciation.ts:48-50 | a period becomes `"... ... "`: the space of the period's pause is itself rewritten by the third replace |
| Pronunciation.CommaSpacePaused | client/src/lib/pronunciation.ts:49-50 | a comma and a space become `", ... ... ... "` |
| Pronunciation.SentenceExample | client/src/lib/pronunciation.ts:46-51 | for plain words `u` and `v`, `u + " " + v + "."` gives `u + " ... " + v + "... ... "` |
| Pronunciation.CommaExample | client/src/lib/pronunciation.ts:46-51 | for plain words `u` and `v`, `u + ", " + v` gives `u + ", ... ... ... " + v` |
| Pronunciation.WordAppended | client/src/lib/pronunciation.ts:46-51 | after text ending in a plain character, a space and a plain word give the text's own rewrite, one `" ... "`, then the word |
| Pronunciation.ThreeWordsPaused | client/src/lib/pronunciation.ts:46-51 | three plain words separated by single spaces give the words joined by `" ... "` |
| Pronunciation.SentenceLiteralExample | client/src/lib/pronunciation.ts:46-51 | `"I can run."` gives `"I ... can ... run... ... "` |
| Pronunciation.CommaLiteralExample | client/src/lib/pronunciation.ts:46-51 | `"a, b"` gives `"a, ... ... ... b"` |

## Left out

- React rendering, routing and the page components: pure presentation.
- The feedback timers and the `isProcessing` guard in `Game.tsx`: timing, not state logic. `Submit` takes the answer check and the transition as one atomic step.
- `localStorage` and JSON persistence: the progress map starts from an arbitrary given map, and writing it back is not modelled.
- React state batching and stale closures: `handleCorrectAnswer` reads the rendered state. Each transition is modelled as sequential and atomic.
- `useSpeech.ts` and the browser speech API: a foreign call with fixed parameters, not part of this model.
- `StarField.tsx`: decorative random positions only.
- Sentence and `gameType` handling: `PlanetMap.tsx` reads fields that the `Planet` record does not have, so there is nothing in the core to model.
- GameState.GameSession.GetCurrentWord: returns `""` when the cursor is past the end, where the code reads `undefined`. Both lead `getWordOptions` to return no options. The answer check does not use this stand-in: it compares with `AskedWord`, which keeps the missing value apart from `""`.
- GameData.ShuffleArray: states that the output is a permutation, not that it is uniform; the random source is arbitrary.
- Pronunciation.Lower: lower-cases ASCII letters only. `toLowerCase` also maps other Unicode letters, so a non-ASCII spelling of a table key is not recognised.
- Pronunciation.GetPhoneticPronunciation: a plain map, so keys inherited through the JavaScript object prototype (such as `constructor`) are not found, which differs from the code.
- Pronunciation.SyllableBreakdown: the same prototype-key caveat.
