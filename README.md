# Telugu spell checker: candidate generation and staged correction

A Dafny model of the correction engine of `Telugu_Spell_check.py`, with
proofs. The engine works on Telugu words. It has three parts:

- **Edit generation** (module `Edits`, `edits.dfy`). The level-one edits of a
  word are its deletions, its adjacent transpositions, its replacements by a
  character of `TELUGU_CHARSET`, and its insertions of such a character. The
  level-two edits are the level-one edits of every level-one edit.
  - The generators take the alphabet as a parameter. The corrector passes
    `TeluguCharset`, which holds the source constant code point by code point.
  - The generators are proved equal to an independent, position-free
    definition of "one edit" (`OneEdit`).
- **Tokenizer** (module `Tokens`, `tokens.dfy`). `extract_telugu_tokens`
  returns the maximal runs of code points in the Telugu block U+0C00..U+0C7F.
- **The corrector** (module `Corrector`, `corrector.dfy`). A `SpellCorrector`
  holds the word-frequency map and the total of its counts; neither changes
  after construction, so it is a value.
  - `GetWordProbability` and `FilterKnownWords` are the two queries.
  - `FindCorrectionCandidates` tries four things in order: the word itself,
    its known level-one edits, its known level-two edits, and finally the word
    alone. The first non-empty stage is returned ranked by probability.

Three facts of the code shape the model:

- The character set is not duplicate-free. It spells the conjunct KSSA
  (KA, VIRAMA, SSA) inside the string, so KA, SSA and VIRAMA occur twice
  (`CharsetHasDuplicates`). It is modelled as a `seq<char>`.
- Ranking has no tie-break. The source sorts a list built from a set, so words
  of equal probability come in no fixed order. `IsRanking` only requires
  non-increasing probability and accepts any order among equal
  probabilities. No lexicographic order is imposed.
- Level one is not always inside level two. A transposition can be missing
  from the level-two set: for a two-letter word of distinct letters outside
  the character set, such as the Telugu digits "౧౨", the swap "౨౧" is a
  level-one edit that no level-one edit of a level-one edit gives back
  (`TranspositionMissingFromLevelTwo`, `TeluguDigitsTransposition`). A word
  that has a letter of the character set or two equal neighbouring letters
  is its own level-one edit (`SelfInLevelOne`), and then its whole level-one
  set is inside level two (`LevelOneInLevelTwo`). Deletions, replacements and
  insertions are always inside level two (`NonTranspositionsInLevelTwo`).

When the total count is zero, the source's sort key divides by zero as soon as
a stage is non-empty. The model returns `Failure(ZeroDivisionError)` in that
case.

## Model

| member | source | states |
|---|---|---|
| Edits.Delete | Telugu_Spell_check.py:23 | `prefix + suffix[1:]` at split point i: one letter shorter, the prefix kept, the rest shifted left by one |
| Edits.Transpose | Telugu_Spell_check.py:24 | `prefix + suffix[1] + suffix[0] + suffix[2:]` at split point i: same length, letters i and i+1 swapped, every other letter kept |
| Edits.Replace | Telugu_Spell_check.py:25 | `prefix + char + suffix[1:]` at split point i: same length, letter i is the new one, every other letter kept |
| Edits.Insert | Telugu_Spell_check.py:26 | `prefix + char + suffix` at split point i: one letter longer, the new letter at i, the prefix kept, the rest shifted right by one |
| Edits.Deletes | Telugu_Spell_check.py:23 | the deletions set: every member is one letter shorter than the word |
| Edits.Transposes | Telugu_Spell_check.py:24 | the transpositions set: every member has the word's length |
| Edits.Replaces | Telugu_Spell_check.py:25 | the replacements set: every member has the word's length and holds a letter of the alphabet |
| Edits.Inserts | Telugu_Spell_check.py:26 | the insertions set: every member is one letter longer and holds a letter of the alphabet |
| Edits.LevelOneIsOneEdit | Telugu_Spell_check.py:21-28 | a string is a level-one edit exactly when it is one deletion, transposition, replacement by an alphabet letter or insertion of one away, under the position-free reference definition `OneEdit` |
| Edits.LevelOneComplete | Telugu_Spell_check.py:21-28 | every string one reference edit away is generated at some split point |
| Edits.LevelOneAtSplit | Telugu_Spell_check.py:21-26 | each split point i contributes its deletion and replacements (i < length), its transposition (i+1 < length) and its insertions (i <= length) |
| Edits.DeleteIsOneEdit | Telugu_Spell_check.py:23 | dropping the letter after split point i is one reference edit |
| Edits.TransposeIsOneEdit | Telugu_Spell_check.py:24 | swapping the two letters after split point i is one reference edit |
| Edits.ReplaceIsOneEdit | Telugu_Spell_check.py:25 | replacing the letter after split point i by an alphabet letter is one reference edit |
| Edits.InsertIsOneEdit | Telugu_Spell_check.py:26 | inserting an alphabet letter at split point i is one reference edit |
| Edits.LevelOneEdits | Telugu_Spell_check.py:21-28 | every level-one edit is one letter shorter, of equal length, or one letter longer |
| Edits.LevelOneFamilyByLength | Telugu_Spell_check.py:23-26 | length tells the family: one shorter means a deletion, one longer an insertion, equal length a transposition or a replacement |
| Edits.TranspositionMayBeReplacement | Telugu_Spell_check.py:24-25 | the transposition and replacement families can share a string, so the families are not disjoint |
| Edits.LevelOneOfEmpty | Telugu_Spell_check.py:21-26 | the empty word has no deletion, transposition or replacement; its level-one set is exactly the one-letter words over the alphabet |
| Edits.LevelTwoEdits | Telugu_Spell_check.py:31-36 | every level-two edit is within two letters of the word's length |
| Edits.LevelTwoIsTwoEdits | Telugu_Spell_check.py:31-36 | a string is a level-two edit exactly when it is two reference edits away through some intermediate string |
| Edits.SelfInLevelOne | Telugu_Spell_check.py:24-25 | a word is its own level-one edit exactly when it has an alphabet letter or two equal neighbouring letters |
| Edits.LevelOneInLevelTwo | Telugu_Spell_check.py:36 | when a word is its own level-one edit, its whole level-one set is inside its level-two set |
| Edits.NonTranspositionsInLevelTwo | Telugu_Spell_check.py:23-36 | for a non-empty alphabet, every deletion, replacement and insertion is also a level-two edit |
| Edits.TranspositionMissingFromLevelTwo | Telugu_Spell_check.py:24-36 | for a two-letter word of distinct letters outside the alphabet (any alphabet, even empty), its swap is a level-one edit but not a level-two edit |
| Edits.TeluguDigitsTransposition | Telugu_Spell_check.py:8-36 | with the source's character set, "౨౧" is a level-one edit of "౧౨" but not a level-two edit |
| Edits.CharsetHasDuplicates | Telugu_Spell_check.py:8 | the character set has 69 entries, and KA, SSA and VIRAMA each occur twice |
| Edits.CharsetRange | Telugu_Spell_check.py:8 | every character of the set lies in U+0C01..U+0C60, so the Telugu digits are not in it |
| Tokens.ExtractTeluguTokens | Telugu_Spell_check.py:39-46 | every token is a non-empty run of Telugu-block code points, and the tokens together are exactly the text's Telugu code points in order |
| Tokens.SeparatorSplitsTokens | Telugu_Spell_check.py:46 | a non-Telugu code point separates tokens: the tokens of a + [x] + b are those of a followed by those of b |
| Tokens.AllTeluguOneToken | Telugu_Spell_check.py:46 | a non-empty text made only of Telugu code points is exactly one token |
| Tokens.NoTeluguNoTokens | Telugu_Spell_check.py:43-46 | a text without Telugu code points, the empty text included, has no tokens |
| Tokens.TwoRuns | Telugu_Spell_check.py:46 | two Telugu runs around a separator come out as two tokens |
| Corrector.SumCounts | Telugu_Spell_check.py:63 | `sum(self.word_freq_map.values())`: every count is at most the sum |
| Corrector.SumCountsRemove | Telugu_Spell_check.py:63 | the sum of the counts does not depend on the order in which the keys are taken |
| Corrector.SumZeroIff | Telugu_Spell_check.py:63 | the sum is zero exactly when every count is zero |
| Corrector.NewSpellCorrector | Telugu_Spell_check.py:63 | construction keeps the map and sets the total to the sum of the counts; every count is at most the total, and the total is zero exactly when every count is zero |
| Corrector.Count | Telugu_Spell_check.py:68 | `word_freq_map.get(word, 0)`: a positive count belongs to a key of the map |
| Corrector.GetWordProbability | Telugu_Spell_check.py:66-68 | the probability is non-negative, zero for an unknown word, and at most one when the count is at most the total |
| Corrector.ProbabilityAtMostOne | Telugu_Spell_check.py:63-68 | in a constructed model every probability is at most one |
| Corrector.ProbabilityOrderIsCountOrder | Telugu_Spell_check.py:68 | for a positive total, p(a) >= p(b) exactly when count(a) >= count(b) |
| Corrector.FilterKnownWords | Telugu_Spell_check.py:70-72 | the result is the words of the set that are keys: a subset of both, containing every known word of the set |
| Corrector.FilterKnownIdempotent | Telugu_Spell_check.py:70-72 | filtering twice is filtering once |
| Corrector.FilterKnownMonotone | Telugu_Spell_check.py:70-72 | a larger set has at least the known words of a smaller one |
| Corrector.MostProbableExists | Telugu_Spell_check.py:85 | a non-empty candidate set has a most probable word |
| Corrector.RankByProbability | Telugu_Spell_check.py:85 | the result lists the set, each word once, with probabilities non-increasing |
| Corrector.RankCandidates | Telugu_Spell_check.py:85 | sorting a non-empty stage fails with ZeroDivisionError exactly when the total is zero; otherwise it is a duplicate-free ranking of the whole stage |
| Corrector.RankingIsByCount | Telugu_Spell_check.py:85 | a ranking by probability is also non-increasing in count |
| Corrector.RankingOfSingleton | Telugu_Spell_check.py:85 | the only ranking of a one-word set is that word |
| Corrector.KnownOriginal | Telugu_Spell_check.py:83 | the known part of {word} is at most {word}, and it is empty exactly when the word is not a key |
| Corrector.KnownLevelOne | Telugu_Spell_check.py:88 | the known level-one candidates are exactly the level-one edits that are keys |
| Corrector.KnownLevelTwo | Telugu_Spell_check.py:93 | the known level-two candidates are exactly the level-two edits that are keys |
| Corrector.AnsweringStage | Telugu_Spell_check.py:83-95 | the answering stage holds only known words, and it is empty exactly when all three stages are empty |
| Corrector.FindCorrectionCandidates | Telugu_Spell_check.py:74-98 | the result fails exactly when the total is zero and some stage is non-empty, and is never an empty list; with all stages empty it is the word alone; otherwise it is a ranking of the first non-empty stage |
| Corrector.ExactMatch | Telugu_Spell_check.py:83-85 | a known word (positive total) gets exactly [word] |
| Corrector.Fallback | Telugu_Spell_check.py:97-98 | with no known word among the word and its level-one and level-two edits, the result is [word] |
| Corrector.LevelOneStage | Telugu_Spell_check.py:88-90 | an unknown word with a known level-one edit gets exactly its known level-one edits, each once, in non-increasing probability and count |
| Corrector.AnswerWithinStage | Telugu_Spell_check.py:83-95 | any offered word other than the word itself is a known word of the answering stage |
| Corrector.LevelTwoOnlyAfterLevelOne | Telugu_Spell_check.py:92-95 | an offered word that is neither the word nor a level-one edit comes from the level-two stage, and then the exact and level-one stages were empty |
| Corrector.CloserStageWins | Telugu_Spell_check.py:88-95 | when a level-one edit is known, a known word reachable only at level two is never offered, whatever its count, and the level-one word is |
| Corrector.PositiveCountsNeverFail | Telugu_Spell_check.py:63-98 | a constructed model with positive counts never divides by zero |
| Corrector.ZeroTotalFails | Telugu_Spell_check.py:63-85 | with a zero total and a known word, the sort key divides by zero |

## Left out

- Loading the model in `SpellCorrector.__init__` (Telugu_Spell_check.py:55-61) is left out. That covers reading the JSON file, printing, and `exit()` on a missing file. `NewSpellCorrector` takes the loaded map.
- `process_text_interactively` (Telugu_Spell_check.py:100-147) and the `__main__` menu (Telugu_Spell_check.py:150-195) are left out. They are console input and output loops.
- Model.py is not part of this model. It parses XML, counts tokens and writes JSON. Its only effect here is that stored counts are positive, which is the hypothesis of `PositiveCountsNeverFail`.
- GetWordProbability: uses exact rationals (`real`) rather than floating-point division. The model does not capture rounding, nor ties that rounding could create between different counts.
- SpellCorrector: counts are natural numbers. A JSON file holding negative or fractional counts is not modelled.
- RankByProbability: picks one ranking with `:|`, and `FindCorrectionCandidates` returns that one. The order Python gives to equal probabilities, which comes from set iteration order, is not modelled. The conclusions of the corrector lemmas use only `IsRanking`, so they hold for whatever order Python gives to ties.
- ExtractTeluguTokens: is defined by a left-to-right scan, not by modelling the regular-expression engine. `SeparatorSplitsTokens`, `AllTeluguOneToken` and `NoTeluguNoTokens` pin down the maximal-run behaviour of `re.findall`.
- The cost of enumerating level two is not modelled; the sets are given by their definitions.
- SumCounts, NewSpellCorrector, RankByProbability, RankCandidates and FindCorrectionCandidates: are ghost functions. They pick keys and maximal elements with `:|`, so they state the result but are not executable.
