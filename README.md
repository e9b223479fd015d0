# Filippine puzzle core in Dafny

This project models the core of a Dutch "filippine" crossword game. In a filippine, the puzzle has one
vertical solution word. Each of its tokens is crossed by a horizontal row word. Every distinct token
(a letter, or the Dutch digraph "IJ") carries a secret number. The player fills the grid with the help of
the numbers that are shown.

The model covers three parts:

- **The tokenizer** `parseTokens` (services/utils.ts). It removes noise characters, merges i/I followed
  by j/J into one "IJ" token, uppercases, and keeps only ASCII letters.
  - `Tokenizer.Tokenize` is its reference definition.
  - `Tokenizer.ParseTokens` keeps the loop of the source, including the second index bump, and is proved
    equal to it.
- **The generator** `generatePuzzle` (services/puzzleGenerator.ts), in four stages:
  - solution choice under the usage floor (`Selection`);
  - the per-position row builder with centre scoring, the usage floor and the pick among the top two
    (`RowBuilder`);
  - the token/number bijection and the reveal policy (`Numbering`);
  - the assembly, `PuzzleGenerator.GeneratePuzzle`. Its result is characterised by the ghost predicate
    `PuzzleGenerator.IsGenerated`, and the lemmas `Generated*` state what every generated puzzle
    satisfies, for every oracle.
- **The state of the `App` component** (App.tsx), as the class `Game.App`:
  - starting a game and bumping the usage counts;
  - editing cells, where a numbered cell writes every cell with the same number;
  - cursor navigation, backspace and hints;
  - the row and won check;
  - the keyboard cycle.
  Each handler is specified by pure functions on the grid (`EditGrid`, `CursorAfter`, `HintCell`,
  `CorrectFlags`), and the lemmas about those functions state the game's rules. The class invariant
  `Valid()` holds after every handler:
  - the grid has the puzzle's shape;
  - cells with the same number agree;
  - the cursor is on a cell;
  - a game still in play has a row not yet marked correct.

Randomness, the vocabulary and the remembered usage counts are parameters:

- `Math.random` becomes the `PuzzleGenerator.Oracle` datatype:
  - an index for the solution pick;
  - an index per solution position for the row pick;
  - an index per step for the shuffle;
  - a boolean per cell for the density reveal.
  Every index is taken modulo the size of the list it picks from.
- `VOCABULARY` is a `seq<WordEntry>` parameter. services/wordData.ts is not part of this model.
- The usage counts read from `localStorage` are the constructor argument of `Game.App`.

Modules: `Common` (Option, Result, filtering, duplicate-freedom), `Text` (ASCII case mapping),
`Tokenizer`, `Puzzle` (the records of types.ts), `Selection`, `RowBuilder`, `Numbering`,
`PuzzleGenerator` and `Game`.

## Model

| member | source | states |
|---|---|---|
| Text.UpperChar | services/utils.ts:16 | on ASCII letters the result is the uppercase letter; other characters are kept; letterhood is preserved |
| Text.LowerChar | App.tsx:58 | on ASCII letters the result is lowercase; other characters are kept; letterhood is preserved |
| Text.UpperIsUpperCased | services/puzzleGenerator.ts:23 | an uppercased word has no lowercase letter, and uppercasing is idempotent |
| Text.UpperCasedFixed | services/puzzleGenerator.ts:72 | uppercasing a word with no lowercase letter leaves it unchanged |
| Text.CaseRoundTrip | App.tsx:58 | lowercasing ignores a prior uppercasing, and the reverse |
| Text.UpperAppend | services/utils.ts:16 | both case mappings distribute over concatenation |
| Text.LowerDistinctOnUpperCased | App.tsx:56-58 | two different uppercased words have different lowercase usage keys |
| Text.LowerInjectiveOnUpperCased | App.tsx:56-58 | uppercased words with the same lowercase key are equal |
| Tokenizer.Clean | services/utils.ts:4 | reference definition of the noise removal `text.replace(/[\s\.\-]/g, '')` |
| Tokenizer.Scan | services/utils.ts:7-22 | reference definition of the character loop: i/I followed by j/J gives "IJ" and skips both, an ASCII letter gives its uppercase, anything else is dropped |
| Tokenizer.Tokenize | services/utils.ts:1-24 | reference definition of `parseTokens`: the scan of the cleaned text |
| Tokenizer.CleanFacts | services/utils.ts:4 | cleaning keeps exactly the characters that are not noise, and never lengthens the text |
| Tokenizer.ScanFacts | services/utils.ts:7-22 | the scan yields at most one token per character, and each token is one uppercase letter or "IJ" |
| Tokenizer.TokenizeFacts | services/utils.ts:1-24 | every token is one uppercase ASCII letter or "IJ", and there are at most as many tokens as input characters |
| Tokenizer.ParseTokens | services/utils.ts:1-24 | the loop, with its extra index bump on a digraph, returns the reference tokenization; tokens are well formed and no more than the characters |
| Tokenizer.ConcatAppend | services/utils.ts:7-22 | the joined tokens of two token sequences is the join of each |
| Tokenizer.ScanSpellsLetters | services/utils.ts:12-20 | the tokens of a cleaned text spell its ASCII letters uppercased |
| Tokenizer.CleanKeepsLetters | services/utils.ts:4 | cleaning removes no letter |
| Tokenizer.TokensSpellLetters | services/utils.ts:4-20 | the joined tokens equal the input's ASCII letters, uppercased, in order |
| Tokenizer.ScanAppend | services/utils.ts:12-14 | the scan splits at every boundary not followed by j/J |
| Tokenizer.DigraphMerged | services/utils.ts:12-14 | an i/I followed by j/J yields one "IJ" token and consumes both characters |
| Tokenizer.CleanAppend | services/utils.ts:4 | cleaning distributes over concatenation |
| Tokenizer.CleanIdempotent | services/utils.ts:4 | cleaning twice is cleaning once |
| Tokenizer.NoiseIrrelevant | services/utils.ts:4 | cleaning first changes nothing, and inserting a noise character anywhere changes nothing |
| Tokenizer.SpacedDigraph | services/utils.ts:4-14 | "I J" tokenizes to the single token "IJ" |
| Tokenizer.NoiseIgnoresCase | services/utils.ts:4 | the case mappings neither create nor remove noise characters |
| Tokenizer.CleanCommutesWithCase | services/utils.ts:4 | cleaning commutes with both case mappings |
| Tokenizer.ScanIgnoresLower | services/utils.ts:12-16 | the scan of a lowercased text is the scan of the text |
| Tokenizer.ScanIgnoresUpper | services/utils.ts:12-16 | the scan of an uppercased text is the scan of the text |
| Tokenizer.CaseInsensitive | services/utils.ts:12-16 | lowercasing or uppercasing the input leaves the tokens unchanged |
| Tokenizer.ScanHeadJ | services/utils.ts:7-14 | on letters, a leading "J" token can only come from a leading j/J |
| Tokenizer.ScanNeverSplitsDigraph | services/utils.ts:7-14 | on a text made of letters, no "I" token is directly followed by a "J" token |
| Tokenizer.NoSplitDigraph | services/utils.ts:4-14 | when the cleaned input is made of letters only, no "I" token is directly followed by a "J" token |
| Puzzle.UsageOfUpper | services/puzzleGenerator.ts:19-20 | the usage count of a word does not depend on its case, since the key is lowercased |
| Selection.MinUsage | services/puzzleGenerator.ts:19 | reference definition of `Math.min` over the candidates' usage counts |
| Selection.LeastUsed | services/puzzleGenerator.ts:20 | reference definition of the filter keeping candidates whose count is at most the minimum |
| Selection.MinUsageFacts | services/puzzleGenerator.ts:19 | the usage floor is at most every candidate's count and is attained |
| Selection.LeastUsedFacts | services/puzzleGenerator.ts:20 | the least-used list is non-empty and holds exactly the candidates at the floor |
| Selection.ChooseSolution | services/puzzleGenerator.ts:11-22 | fails exactly when no word has 7 to 12 tokens; otherwise the chosen word is such a word and has the minimum usage among them |
| Selection.LeastUsedSolutionReachable | services/puzzleGenerator.ts:20-22 | every least-used eligible word is chosen for some oracle index |
| Selection.ChosenAtIndex | services/puzzleGenerator.ts:22 | oracle index k picks the k-th least-used eligible word |
| Selection.UniqueLeastUsedSolutionForced | services/puzzleGenerator.ts:19-22 | a strictly least-used eligible word is chosen whatever the oracle |
| RowBuilder.OccurrencesFrom | services/puzzleGenerator.ts:49 | from a start index, the list holds exactly the occurrences of the target, in increasing order |
| RowBuilder.Occurrences | services/puzzleGenerator.ts:48-49 | exactly the occurrences of the target token, increasing, non-empty when the token occurs |
| RowBuilder.Closest | services/puzzleGenerator.ts:51-60 | reference definition of the best crossing index: the first occurrence, replaced only by a strictly nearer one |
| RowBuilder.ClosestUnique | services/puzzleGenerator.ts:51-60 | at most one index is closest to the centre with the earliest-wins tie break |
| RowBuilder.FirstFromFirst | services/puzzleGenerator.ts:52 | the first occurrence from a start index is an occurrence with none before it |
| RowBuilder.ScanFromClosest | services/puzzleGenerator.ts:55-60 | the strict-less scan keeps the earliest occurrence nearest the centre |
| RowBuilder.ClosestIsClosest | services/puzzleGenerator.ts:51-60 | the reference choice is nearest the centre, earliest on ties |
| RowBuilder.MinimalOccurrence | services/puzzleGenerator.ts:55-60 | an index at minimal distance, strictly nearer than every earlier one, is the closest |
| RowBuilder.BestOccurrence | services/puzzleGenerator.ts:51-60 | the loop over the occurrences with the strict comparison returns the closest occurrence, the earliest on ties |
| RowBuilder.Score | services/puzzleGenerator.ts:46-63 | reference definition of one scored candidate: entry, doubled distance, best index and tokens |
| RowBuilder.ScoreFacts | services/puzzleGenerator.ts:46-62 | a scored candidate keeps its entry and tokens; its index is the closest occurrence and its score that index's distance |
| RowBuilder.ScoresAt | services/puzzleGenerator.ts:46-63 | scoring maps each candidate in order |
| RowBuilder.ScoreOne | services/puzzleGenerator.ts:46-62 | the method computes the score record of one candidate |
| RowBuilder.ScoreAll | services/puzzleGenerator.ts:46-63 | the loop scores every strict candidate in order |
| RowBuilder.InsertFacts | services/puzzleGenerator.ts:66 | insertion adds one element and keeps the multiset |
| RowBuilder.InsertMembers | services/puzzleGenerator.ts:66 | insertion adds only the inserted element |
| RowBuilder.InsertKeepsSorted | services/puzzleGenerator.ts:66 | insertion keeps the ascending score order |
| RowBuilder.SortByScore | services/puzzleGenerator.ts:66 | reference definition of the stable sort by score, as insertion sort |
| RowBuilder.SortFacts | services/puzzleGenerator.ts:66 | the sort is a permutation sorted ascending by score |
| RowBuilder.WithScoreCons | services/puzzleGenerator.ts:66 | the entries with score v of a list are read off its head, then its tail |
| RowBuilder.InsertKeepsOrderOfEquals | services/puzzleGenerator.ts:66 | insertion places the new entry before the entries of equal score |
| RowBuilder.SortIsStable | services/puzzleGenerator.ts:66 | entries of equal score keep their relative order (a stable sort) |
| RowBuilder.Candidates | services/puzzleGenerator.ts:35-38 | reference definition of the candidate filter: contains the target token and is not used, compared uppercased |
| RowBuilder.CandidatesFacts | services/puzzleGenerator.ts:35-38 | the candidates are exactly the vocabulary words containing the target and not used yet, compared uppercased |
| RowBuilder.StrictFacts | services/puzzleGenerator.ts:43-44 | the strict candidates are non-empty and are exactly the candidates at the usage floor |
| RowBuilder.Pool | services/puzzleGenerator.ts:43-66 | reference definition of the sorted pool: least-used candidates, scored, sorted by score |
| RowBuilder.PoolFacts | services/puzzleGenerator.ts:43-66 | the sorted pool is non-empty, sorted by score, and holds exactly the scores of the strict candidates |
| RowBuilder.RowAt | services/puzzleGenerator.ts:34-81 | a position emits no row exactly when it has no candidate; an emitted row carries its position |
| RowBuilder.TopTwo | services/puzzleGenerator.ts:69-70 | an entry among the first min(2, n) of a sorted pool is beaten on score by at most one entry |
| RowBuilder.ScoredFrom | services/puzzleGenerator.ts:46-63 | every pool entry is the score of some strict candidate |
| RowBuilder.ChosenEntry | services/puzzleGenerator.ts:66-81 | an emitted row comes from a least-used candidate, with its closest occurrence as the crossing index |
| RowBuilder.ChosenRowSound | services/puzzleGenerator.ts:34-81 | an emitted row crosses the solution where it should, is an unused word, and has the minimum usage among the candidates |
| RowBuilder.ChosenRowNearCentre | services/puzzleGenerator.ts:66-70 | at most one pool entry is strictly nearer the centre than the chosen row |
| RowBuilder.AddAllFacts | services/puzzleGenerator.ts:73 | adding tokens to the insertion-ordered set keeps it duplicate-free, keeps its prefix, and adds exactly the new tokens |
| RowBuilder.UsedTokensSnoc | services/puzzleGenerator.ts:73 | one more row adds its tokens to the used-token set |
| RowBuilder.UsedTokensFacts | services/puzzleGenerator.ts:30-73 | the used-token set is duplicate-free and holds exactly the solution tokens and every row token |
| RowBuilder.InSomeRowAppend | services/puzzleGenerator.ts:73 | a token is in some row of a longer list exactly when it is in an earlier row or the new one |
| RowBuilder.BuildRows | services/puzzleGenerator.ts:26-82 | the position loop yields the reference rows and the reference used-token set |
| RowBuilder.ChooseRow | services/puzzleGenerator.ts:34-70 | the body of one iteration computes the reference row for that position |
| RowBuilder.RowsFrom | services/puzzleGenerator.ts:33-82 | reference definition of the rows built from position i on, with the words used so far |
| RowBuilder.RowsFromStep | services/puzzleGenerator.ts:40-81 | one iteration skips or appends exactly the reference row, and the remaining rows follow |
| RowBuilder.RowsFromUnfold | services/puzzleGenerator.ts:33-82 | the rows from a position are its row, if any, followed by the rows from the next position with the word marked used |
| RowBuilder.RowsFromPositions | services/puzzleGenerator.ts:33-75 | row positions are strictly increasing and within the solution |
| RowBuilder.PositionsCons | services/puzzleGenerator.ts:33-75 | a row at position i before rows from i + 1 keeps the positions increasing |
| RowBuilder.RowsFromSound | services/puzzleGenerator.ts:33-82 | every row is sound for the words used before it |
| RowBuilder.RowsFromSoundStep | services/puzzleGenerator.ts:72-81 | an emitted row followed by sound rows gives sound rows |
| RowBuilder.EachRowSoundCons | services/puzzleGenerator.ts:72 | a sound row before rows sound for its word marked used gives sound rows |
| RowBuilder.NoCandidatesAllUsed | services/puzzleGenerator.ts:40 | with no candidate, every word containing the target is already used |
| RowBuilder.SkipsNone | services/puzzleGenerator.ts:40 | a skipped position had every word with its token already used |
| RowBuilder.SkipsRow | services/puzzleGenerator.ts:72 | the skip justification carries over an emitted row |
| RowBuilder.RowsFromSkips | services/puzzleGenerator.ts:35-40 | every position without a row had no unused word containing its token |
| RowBuilder.SoundRowsFresh | services/puzzleGenerator.ts:26-72 | sound rows have pairwise different words, none of them initially used, each crossing the solution |
| RowBuilder.IncreasingPositionsBounded | services/puzzleGenerator.ts:33-75 | strictly increasing positions below n number at most n |
| RowBuilder.BuiltRowsSound | services/puzzleGenerator.ts:26-82 | at most one row per solution token, in increasing position order; skips justified; every row crosses the solution; row words pairwise distinct and different from the solution word |
| Numbering.LexLessIrreflexive | services/puzzleGenerator.ts:85 | the string order used by the sort is irreflexive |
| Numbering.LexLessTransitive | services/puzzleGenerator.ts:85 | the string order is transitive |
| Numbering.LexLessTotal | services/puzzleGenerator.ts:85 | the string order is total on different strings |
| Numbering.LexLessAsymmetric | services/puzzleGenerator.ts:85 | the string order is asymmetric |
| Numbering.InsertTokenMembers | services/puzzleGenerator.ts:85 | insertion adds exactly one element |
| Numbering.InsertTokenSorted | services/puzzleGenerator.ts:85 | insertion of a new token keeps the list strictly sorted |
| Numbering.SortTokens | services/puzzleGenerator.ts:85 | reference definition of the default `.sort()` of the distinct tokens, as insertion sort on code-unit order |
| Numbering.SortTokensFacts | services/puzzleGenerator.ts:85 | the sort keeps length and members, and a duplicate-free input comes out strictly sorted |
| Numbering.SortedDistinct | services/puzzleGenerator.ts:85 | a strictly sorted list has no duplicates |
| Numbering.SortedUnique | services/puzzleGenerator.ts:85 | two strictly sorted lists with the same members are equal |
| Numbering.RangeFacts | services/puzzleGenerator.ts:86 | the list 1..n has n distinct elements, exactly the numbers 1 to n |
| Numbering.RemoveAtFacts | services/puzzleGenerator.ts:86-87 | removing one element of a duplicate-free list removes exactly that element |
| Numbering.Shuffle | services/puzzleGenerator.ts:86-87 | reference definition of the shuffle: the numbers drawn one at a time by oracle index |
| Numbering.ShuffleFacts | services/puzzleGenerator.ts:86-87 | the oracle-driven shuffle is a permutation of its input |
| Numbering.ShuffledRange | services/puzzleGenerator.ts:86-87 | the shuffled numbers are a permutation of 1..n |
| Numbering.AssignNumbers | services/puzzleGenerator.ts:89-96 | the loop builds records that map the k-th token to the k-th number and back |
| Numbering.NumberingIsBijection | services/puzzleGenerator.ts:89-96 | the two records are mutual inverses, with numbers drawn from the shuffled list |
| Numbering.NumberingCounts | services/puzzleGenerator.ts:89-96 | each record has one entry per token |
| Numbering.Positions | services/puzzleGenerator.ts:99-104 | reference definition of `allPositions`: every cell, row by row |
| Numbering.CollectPositions | services/puzzleGenerator.ts:99-104 | the nested loop lists every cell in reading order (row by row, left to right) |
| Numbering.PositionsPrefix | services/puzzleGenerator.ts:99-104 | the cells of the first r rows are a prefix of all cells |
| Numbering.PositionOfCell | services/puzzleGenerator.ts:99-104 | cell (r, c) sits at index Offset(r) + c of the cell list |
| Numbering.CellOfPosition | services/puzzleGenerator.ts:99-104 | every index of the cell list is some cell (r, c) at Offset(r) + c |
| Numbering.CellAtIff | services/puzzleGenerator.ts:114-118 | an index denotes cell (r, c) exactly when it is Offset(r) + c |
| Numbering.Find | services/puzzleGenerator.ts:107-108 | reference definition of `find` followed by `indexOf`: the index of the first cell holding the token |
| Numbering.FindFromFacts | services/puzzleGenerator.ts:107 | the search returns the first cell with the token, or none when no cell has it |
| Numbering.FindIsFirst | services/puzzleGenerator.ts:107-108 | the search finds index k exactly when k is the first occurrence of its token |
| Numbering.FindNone | services/puzzleGenerator.ts:107-108 | the search finds nothing exactly when no cell has the token |
| Numbering.ForceFirstOccurrences | services/puzzleGenerator.ts:98-109 | the loop collects exactly the indices the search returns for the tokens |
| Numbering.ForcedAreFirstOccurrences | services/puzzleGenerator.ts:106-109 | an index is forced exactly when it is the first occurrence of its token |
| Numbering.NumberRows | services/puzzleGenerator.ts:111-123 | reference definition of the numbered rows: a cell shows its token's number when forced or when the coin says yes |
| Numbering.NumberRowsFacts | services/puzzleGenerator.ts:111-123 | numbering keeps each row and its fields; a cell's number is present exactly when it is forced or the coin says so, and then it is the token's number |
| Numbering.FirstOccurrenceShown | services/puzzleGenerator.ts:106-119 | the first occurrence of every token shows its number |
| Numbering.ForcedIffIndex | services/puzzleGenerator.ts:114-118 | a cell is forced exactly when its index is in the forced set |
| Numbering.ForcedOnlyFirst | services/puzzleGenerator.ts:106-119 | a cell is forced exactly when it is the first occurrence of its token |
| Numbering.FullDensityRevealsAll | services/puzzleGenerator.ts:120 | when the coin always says yes, every cell shows its number |
| Numbering.OffsetStep | services/puzzleGenerator.ts:100-104 | the next row starts after the cells of this one |
| Numbering.OffsetMonotone | services/puzzleGenerator.ts:100-104 | a later row starts no earlier |
| Numbering.ReadingOrder | services/puzzleGenerator.ts:100-104 | the cell list index order is the row-major reading order |
| Numbering.FirstOccurrenceIff | services/puzzleGenerator.ts:106-108 | a cell is the first occurrence in the cell list exactly when no earlier cell in reading order has its token |
| Numbering.FirstOccurrenceExists | services/puzzleGenerator.ts:106-108 | every token in the grid has a first occurrence in reading order |
| Numbering.NumberRowsStrip | services/puzzleGenerator.ts:111-123 | numbering the rows changes none of the rows' other fields |
| PuzzleGenerator.ForcedSet | services/puzzleGenerator.ts:106-109 | reference definition of `forcedNumbers`: the first-occurrence index of every numbered token |
| PuzzleGenerator.ForcedSetFacts | services/puzzleGenerator.ts:98-109 | the forced set holds exactly the indices the search returns |
| PuzzleGenerator.ForcedSetIs | services/puzzleGenerator.ts:98-109 | any set collected by the loop is the forced set |
| PuzzleGenerator.UniqueTokens | services/puzzleGenerator.ts:85 | reference definition of `uniqueTokens`: the used-token set, sorted |
| PuzzleGenerator.UniqueTokensFacts | services/puzzleGenerator.ts:30-85 | the distinct tokens are strictly sorted, duplicate-free, and exactly the solution tokens and every row token |
| PuzzleGenerator.IsGenerated | services/puzzleGenerator.ts:6-133 | reference definition of a puzzle `generatePuzzle` returns for given counts and oracle, stage by stage |
| PuzzleGenerator.GeneratePuzzle | services/puzzleGenerator.ts:6-133 | throws exactly when no word has 7 to 12 tokens; otherwise returns a puzzle built as the stages above define |
| PuzzleGenerator.GeneratedSolution | services/puzzleGenerator.ts:11-24 | the solution has 7 to 12 tokens, is the uppercased word of a vocabulary entry with its definition, and has the minimum usage among the eligible words |
| PuzzleGenerator.GeneratedRows | services/puzzleGenerator.ts:26-123 | the rows are the reference rows: at most one per position, in order, each crossing the solution with its closest occurrence, least used, words distinct from each other and from the solution |
| PuzzleGenerator.GeneratedNumbering | services/puzzleGenerator.ts:30-96 | the records are mutual inverses; their domain is exactly the solution and row tokens, and their range exactly 1..N |
| PuzzleGenerator.GeneratedCells | services/puzzleGenerator.ts:98-123 | each row has one number slot per token; a shown number is the token's number; a number is shown exactly when the cell is its token's first in reading order or the coin says so |
| PuzzleGenerator.EveryRowTokenShown | services/puzzleGenerator.ts:106-119 | every token of a row has a number, shown in some cell holding it |
| PuzzleGenerator.GeneratedFullDensity | services/puzzleGenerator.ts:120 | with a coin that always says yes, no cell is without its number |
| Game.BumpAll | App.tsx:55-60 | reference definition of the usage update: each word in turn bumps its lowercase key by one |
| Game.BumpAllCounts | App.tsx:53-62 | after the update, a key is present exactly when it was or is some word's lowercase key, and its count grew by the number of words with that key |
| Game.KeyCountZero | App.tsx:57-60 | a key of no word gets no increment, so every other key is unchanged |
| Game.KeyCountDistinct | App.tsx:56-60 | in a duplicate-free list of uppercased words, each word's key occurs once |
| Game.GeneratedUsageBump | App.tsx:53-62 | for a generated puzzle, the count of each lowercased solution or row word grows by exactly 1 |
| Game.WordsDistinctUpper | App.tsx:56 | the solution and row words of a generated puzzle are uppercased and pairwise different |
| Game.NextMode | App.tsx:97-106 | a toggle always changes the keyboard mode |
| Game.CycleOfThree | App.tsx:97-106 | three toggles return to the start, visiting hidden, AZERTY and QWERTY |
| Game.MaxOfFacts | App.tsx:225-226 | the maximum bounds every element and is attained |
| Game.Align | App.tsx:222-228 | reference definition of `maxLeft` and `maxSlots`, with none where `Math.max` of no rows is minus infinity |
| Game.AlignmentLinesUp | App.tsx:222-228 | no alignment (minus infinity) exactly when there are no rows; otherwise every padding is non-negative and puts the solution cell in column maxLeft, maxSlots bounds every padded width, and both maxima are attained |
| Game.EditGrid | App.tsx:115-128 | reference definition of an edit: every cell with the edited cell's number, or only the edited cell when it has none, gets the value |
| Game.EditGridFacts | App.tsx:113-128 | an edit keeps the grid shape, writes the edited cell, writes every cell with the edited cell's number (or only the edited cell when it has none), and leaves every other cell unchanged |
| Game.LastEditWins | App.tsx:113-128 | two edits of the same cell equal the second edit alone |
| Game.EmptyGrid | App.tsx:70 | reference definition of the fresh grid: one empty string per token of every row |
| Game.EmptyGridAgrees | App.tsx:69 | the empty grid has the puzzle's shape and its same-numbered cells agree |
| Game.GeneratedGridStarts | App.tsx:65-72 | a generated puzzle's empty grid has its shape and agreement, and every row has a cell |
| Game.EditKeepsAgreement | App.tsx:113-128 | edits keep the shape and keep same-numbered cells equal |
| Game.GeneratedEditHits | App.tsx:113-128 | in a generated puzzle, an edit writes exactly the edited cell and, when it is numbered, the numbered cells with the same token |
| Game.FilledFacts | App.tsx:134 | dropping empty cells keeps the joined text, and drops nothing only when no cell is empty |
| Game.ConcatLength | App.tsx:134 | joined tokens have at least one character per token |
| Game.NoDigraphAfterI | App.tsx:134 | a text starting with the token "I" followed by other tokenizer tokens does not start with "IJ" |
| Game.HeadsDiffer | App.tsx:134 | two different tokens starting the same joined text are "I" and "IJ" |
| Game.SpellingDeterminesTokens | App.tsx:134 | tokens spelling the same text as the tokenizer's tokens are at least as many, and as many only when equal |
| Game.RowCorrect | App.tsx:134 | reference definition of the row check: the joined cells equal the joined tokens |
| Game.CorrectFlags | App.tsx:212 | reference definition of `newCorrectRows`: one row check per row |
| Game.RowCorrectIffFilledIn | App.tsx:212 | for cells holding a token or nothing, the joined-string check holds exactly when every cell holds its token |
| Game.AllCorrectIffSolved | App.tsx:212-216 | for grids whose cells each hold their row's tokens or nothing, and rows whose tokens have no "I" directly before "J", every row flag is up exactly when every cell holds its token |
| Game.EmptyRowIncorrect | App.tsx:212 | an empty row of a non-empty token list is not correct |
| Game.EmptyConcat | App.tsx:134 | empty cells join to the empty string |
| Game.EmptyFromFacts | App.tsx:141-154 | the search returns the first empty cell from an index, or none when none is empty |
| Game.NextOpen | App.tsx:137-148 | reference definition of the cyclic search for the next incorrect row with an empty cell |
| Game.NextOpenFacts | App.tsx:137-148 | the search returns the first row, cyclically after the current one, that is incorrect and has an empty cell, with its first empty column; none when no such row exists |
| Game.CursorAfter | App.tsx:132-159 | reference definition of the cursor after an edit: it stays for an empty value; when the row is correct it moves to the next open row, if any; otherwise to the next empty cell after the column, else the row's first empty cell, else it stays |
| Game.CursorAfterInGrid | App.tsx:132-159 | the cursor after an edit stays on a cell of the grid |
| Game.FirstWrongFacts | App.tsx:202-204 | the search returns the first cell that differs from its token, or none |
| Game.HintCell | App.tsx:196-206 | reference definition of the hinted column: the cursor column when wrong, else the first wrong column, else none |
| Game.HintCellFacts | App.tsx:194-206 | the hint takes the cursor cell when it is wrong, else the first wrong cell of the row, and none exactly when the row matches its tokens |
| Game.WriteCells | App.tsx:115-128 | the nested loops write exactly the cells of the reference edit |
| Game.FindOpenRow | App.tsx:137-148 | the loop returns the reference next open row |
| Game.App.constructor | App.tsx:15-29 | the state before the first puzzle: no puzzle, empty grid, cursor at (0, 0), playing, AZERTY keyboard shown, the stored usage counts |
| Game.App.UpdateUsageForPuzzle | App.tsx:53-62 | the counts become the reference bump over the solution and row words; nothing else changes |
| Game.App.StartNewGame | App.tsx:65-75 | when generation would throw nothing changes; otherwise the state holds a generated puzzle for the old counts, an empty grid, all rows unmarked, the cursor at (0, 0), playing, and the counts bumped; the invariant holds |
| Game.App.Install | App.tsx:67-74 | the state updates after the generator call: the puzzle, an empty grid, unmarked rows, cursor (0, 0), playing, bumped counts |
| Game.App.ToggleKeyboardCycle | App.tsx:97-106 | shows AZERTY when hidden, switches AZERTY to QWERTY, hides QWERTY; the mode is the next in the cycle |
| Game.App.SelectCell | App.tsx:329 | a click on a cell moves the cursor there |
| Game.App.HandleCellChange | App.tsx:108-160 | nothing happens without a puzzle or once won; otherwise the grid is the reference edit with the uppercased value and the cursor follows the reference navigation; the invariant holds |
| Game.App.HandleVirtualKey | App.tsx:162-165 | a key edits the cursor cell |
| Game.App.ResetGrid | App.tsx:277 | the reset button empties every cell and keeps the rest |
| Game.App.HandleBackspace | App.tsx:167-188 | nothing happens without a puzzle or once won; otherwise the cells an edit would write are cleared and the column moves left unless it is 0 |
| Game.App.HandleHint | App.tsx:190-208 | nothing happens without a puzzle or once won; otherwise the hinted cell is edited with its token, and nothing changes when the row matches its tokens |
| Game.App.CheckRows | App.tsx:210-220 | nothing without a puzzle or once won; otherwise changed flags are stored and the game is won exactly when every flag is up, so a game with rows is won exactly when every row is correct |

## Left out

- JSX rendering, styling, components/GameControls.tsx and components/VirtualKeyboard.tsx are left out. The keyboard only sends its keys, single letters and "IJ", to `Game.App.HandleVirtualKey`.
- React plumbing is left out: hooks, `stateRef` and the batching of state updates. Each handler is one method on the fields of `Game.App`.
- `localStorage`, the timer (App.tsx:89-95) and `confetti` are left out. The stored usage counts are the constructor's argument.
- The initial-load effect (App.tsx:78-87) is modelled by `Game.App.StartNewGame` only when generation succeeds, where it does the same state updates. When `generatePuzzle` throws inside that effect (App.tsx:81), the error escapes the effect and the component tree is lost; the model has no such outcome. `Game.App.StartNewGame` leaves the state unchanged on failure, which is what the "new game" button path (App.tsx:66) does, where the throw leaves the previous game in place.
- `revealedMappings` (App.tsx:230-244) is left out. It is a display map and no handler reads it.
- `Math.random` is an oracle parameter. The shuffle `.sort(() => Math.random() - 0.5)` is left out. In its place `Numbering.Shuffle` draws the remaining numbers one at a time with oracle indices. The model states only that the result is a permutation of 1..N.
- The floating-point `Math.random() < density` is a boolean oracle per cell. Density 1 is the coin that always says yes. Density is not otherwise a number in the model.
- Case mapping is ASCII only. `toUpperCase`/`toLowerCase` on other characters, such as `ß`, which uppercases to "SS", are not modelled. Non-ASCII characters are kept unchanged and are never letters.
- Text.LowerChar: the model's usage keys lowercase only ASCII letters, not every character as `toLowerCase` does.
- The row `id` string and the constant `displayOffset: 0` are left out. `position` keeps the solution index that the id encodes.
- The forced set holds the indices as numbers, not as decimal strings parsed back with `parseInt` (services/puzzleGenerator.ts:108, 114-115). The round trip through strings is the identity on these indices.
- Solution tokens that occur in no row still receive a number (services/puzzleGenerator.ts:30, 85-96) but label no cell. `PuzzleGenerator.EveryRowTokenShown` speaks of row tokens only.
- Game.Align: with no rows, `Math.max()` of nothing is minus infinity. The model returns `None` there instead of a number.
- Game.App.HandleCellChange: it requires the edited row to be the cursor row. The source accepts any cell, but every caller passes the cursor row (App.tsx:164, 199, 205).
- Game.App.HandleBackspace: it requires a puzzle with at least one row. On a puzzle without rows the source throws: backspace reads `puzzle.rows[currentRowIdx].tokenNumbers` (App.tsx:171), and the render already fails on `puzzle.rows[currentRowIdx].definition` (App.tsx:284).
- Game.App.HandleHint: it requires a puzzle with at least one row. On a puzzle without rows the source throws when the hint reads `puzzle.rows[currentRowIdx].tokens` and `gridState[currentRowIdx][currentColIdx]` (App.tsx:194-195).
- Game.App.HandleVirtualKey: it requires a puzzle with at least one row. On a puzzle without rows the source throws in the cell change it calls (App.tsx:164), which reads `puzzle.rows[rowIdx].tokenNumbers` (App.tsx:113).
- Game.RowCorrectIffFilledIn: it holds only for cells that hold a token or nothing, which is what the keyboard and hints write. It also requires tokens with no "I" directly before "J", which `Tokenizer.NoSplitDigraph` guarantees for words made of letters. A word with another character between i and j, such as an apostrophe, yields split tokens, for which the joined check may accept other fillings.
- Game.AllCorrectIffSolved: it carries the two conditions of Game.RowCorrectIffFilledIn, for every row. Without them the joined check can accept a row whose cells differ from its tokens: cells ["IJ", ""] join like tokens ["I", "J"].
- The "Check" button (App.tsx:278) does nothing in the source and is not modelled.
