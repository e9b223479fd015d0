/** services/puzzleGenerator.ts as a whole: `generatePuzzle` chains the solution choice, the rows, the
    numbering and the reveal. Every call to `Math.random()` is an outcome of the oracle. */
module PuzzleGenerator {
  import opened Common
  import opened Text
  import opened Tokenizer
  import opened Puzzle
  import opened Selection
  import opened RowBuilder
  import opened Numbering

  /** The outcomes of `Math.random()`: the index into the least-used solutions, the index into the pool
      of each solution position, the steps of the number shuffle, and the density coin of each cell
      (`Math.random() < density`). */
  datatype Oracle = Oracle(solutionPick: nat, rowPick: nat -> nat, shufflePick: nat -> nat,
                           coin: (nat, nat) -> bool)

  /** The set `forcedNumbers`: the index of the first cell of every numbered token that occurs. */
  function ForcedSet(tokens: seq<Token>, positions: seq<Cell>): set<nat> {
    set k | 0 <= k < |positions| && ForcedBy(positions, tokens, k)
  }

  /** The indices in the set are exactly those some numbered token forces. */
  lemma ForcedSetFacts(tokens: seq<Token>, positions: seq<Cell>)
    ensures forall k :: k in ForcedSet(tokens, positions) <==> ForcedBy(positions, tokens, k)
  {
    forall k: nat | ForcedBy(positions, tokens, k) ensures k < |positions| {
      var t :| t in tokens && Find(positions, t) == Some(k);
      FindFromFacts(positions, t, 0);
    }
  }

  lemma ForcedSetIs(tokens: seq<Token>, positions: seq<Cell>, forced: set<nat>)
    requires forall k :: k in forced <==> ForcedBy(positions, tokens, k)
    ensures forced == ForcedSet(tokens, positions)
  {
    ForcedSetFacts(tokens, positions);
  }

  /** The sorted distinct tokens of the solution and of the rows (`uniqueTokens`). */
  function UniqueTokens(solutionTokens: seq<Token>, raws: seq<RawRow>): seq<Token> {
    SortTokens(UsedTokens(solutionTokens, raws))
  }

  /** The numbered tokens are exactly the solution's and the rows', sorted and each once. */
  lemma UniqueTokensFacts(solutionTokens: seq<Token>, raws: seq<RawRow>)
    ensures StrictlySorted(UniqueTokens(solutionTokens, raws)) && Distinct(UniqueTokens(solutionTokens, raws))
    ensures forall t :: t in UniqueTokens(solutionTokens, raws) <==> t in solutionTokens || InSomeRow(raws, t)
    ensures forall r, t :: 0 <= r < |raws| && t in raws[r].tokens ==> t in UniqueTokens(solutionTokens, raws)
  {
    var used := UsedTokens(solutionTokens, raws);
    UsedTokensFacts(solutionTokens, raws);
    SortTokensFacts(used);
    SortedDistinct(SortTokens(used));
    forall r, t | 0 <= r < |raws| && t in raws[r].tokens ensures InSomeRow(raws, t) {
    }
  }

  /** `p` is the puzzle that `generatePuzzle` returns for this vocabulary, these usage counts and these
      random outcomes. */
  ghost predicate IsGenerated(vocab: seq<WordEntry>, usage: Usage, oracle: Oracle, p: PuzzleData) {
    var choice := ChooseSolution(vocab, usage, oracle.solutionPick);
    choice.Success? &&
    var entry := choice.value;
    var solutionWord := Key(entry);
    var solutionTokens := Tokenize(solutionWord);
    var raws := RowsFrom(vocab, usage, solutionTokens, oracle.rowPick, 0, {solutionWord});
    var unique := UniqueTokens(solutionTokens, raws);
    var numbers := Shuffle(Range(|unique|), oracle.shufflePick, 0);
    var positions := Positions(raws);
    p.solutionWord == solutionWord &&
    p.solutionDefinition == entry.definition &&
    p.solutionTokens == solutionTokens &&
    (ShuffledRange(|unique|, oracle.shufflePick);
     UniqueTokensFacts(solutionTokens, raws);
     IsNumbering(unique, numbers, p.tokenToNumber, p.numberToToken) &&
     p.rows == NumberRows(raws, p.tokenToNumber, ForcedSet(unique, positions), positions, oracle.coin))
  }

  /** `generatePuzzle`: it fails exactly when no vocabulary word has 7 to 12 tokens. */
  method GeneratePuzzle(vocab: seq<WordEntry>, usage: Usage, oracle: Oracle) returns (r: Result<PuzzleData, GenError>)
    ensures r.Failure? <==> forall w :: w in vocab ==> !IsSolutionCandidate(w)
    ensures r.Failure? ==> r.error == NoSolutionCandidates
    ensures r.Success? ==> IsGenerated(vocab, usage, oracle, r.value)
  {
    // 1. The vertical solution word.
    var choice := ChooseSolution(vocab, usage, oracle.solutionPick);
    if choice.Failure? {
      return Failure(choice.error);
    }
    var solutionEntry := choice.value;
    var solutionWord := Key(solutionEntry);
    var solutionTokens := ParseTokens(solutionWord);

    // 2. The horizontal rows.
    var rawRows, allUsedTokens := BuildRows(vocab, usage, solutionWord, solutionTokens, oracle.rowPick);

    // 3. The numbers.
    var uniqueTokens := SortTokens(allUsedTokens);
    UniqueTokensFacts(solutionTokens, rawRows);
    var shuffledNumbers := Shuffle(Range(|uniqueTokens|), oracle.shufflePick, 0);
    ShuffledRange(|uniqueTokens|, oracle.shufflePick);
    var tokenToNumber, numberToToken := AssignNumbers(uniqueTokens, shuffledNumbers);

    // 4. The forced cells and the reveal.
    var allPositions := CollectPositions(rawRows);
    var forcedNumbers := ForceFirstOccurrences(uniqueTokens, allPositions);
    ForcedSetIs(uniqueTokens, allPositions, forcedNumbers);
    var rows := NumberRows(rawRows, tokenToNumber, forcedNumbers, allPositions, oracle.coin);
    r := Success(PuzzleData(solutionWord, solutionEntry.definition, solutionTokens, rows,
                            tokenToNumber, numberToToken));
  }

  // ---------------------------------------------------------------------------------------------
  // What a generated puzzle guarantees

  /** The solution is the uppercased word of a least-used vocabulary entry with 7 to 12 tokens, with
      that entry's definition and tokens. */
  lemma GeneratedSolution(vocab: seq<WordEntry>, usage: Usage, oracle: Oracle, p: PuzzleData)
    requires IsGenerated(vocab, usage, oracle, p)
    ensures 7 <= |p.solutionTokens| <= 12
    ensures p.solutionTokens == Tokenize(p.solutionWord) && IsUpperCased(p.solutionWord)
    ensures exists e :: e in vocab && Key(e) == p.solutionWord && e.definition == p.solutionDefinition &&
                        IsSolutionCandidate(e) &&
                        forall w :: w in vocab && IsSolutionCandidate(w) ==> UsageOfEntry(usage, e) <= UsageOfEntry(usage, w)
  {
    var e := ChooseSolution(vocab, usage, oracle.solutionPick).value;
    CaseInsensitive(e.word);
    UpperIsUpperCased(e.word);
  }

  /** The rows are the row builder's rows for the solution: at most one per solution position, in
      increasing position, each crossing the solution at its most central occurrence of the target and
      least used among the words still unused, no two with the same word and none with the solution
      word; and a position without a row had no unused candidate. */
  lemma GeneratedRows(vocab: seq<WordEntry>, usage: Usage, oracle: Oracle, p: PuzzleData)
    requires IsGenerated(vocab, usage, oracle, p)
    ensures RawRows(p.rows) == RowsFrom(vocab, usage, p.solutionTokens, oracle.rowPick, 0, {p.solutionWord})
    ensures var raws := RawRows(p.rows);
            |raws| <= |p.solutionTokens| &&
            PositionsIncreasing(raws, 0, |p.solutionTokens|) &&
            EachRowSound(vocab, usage, p.solutionTokens, {p.solutionWord}, raws) &&
            SkipsJustified(vocab, p.solutionTokens, {p.solutionWord}, raws, 0) &&
            (forall k :: 0 <= k < |raws| ==> RowCrosses(vocab, p.solutionTokens, raws[k])) &&
            (forall k :: 0 <= k < |raws| ==> raws[k].word != p.solutionWord) &&
            (forall j, k :: 0 <= j < k < |raws| ==> raws[j].word != raws[k].word)
  {
    var raws := RowsFrom(vocab, usage, p.solutionTokens, oracle.rowPick, 0, {p.solutionWord});
    var unique := UniqueTokens(p.solutionTokens, raws);
    var positions := Positions(raws);
    UniqueTokensFacts(p.solutionTokens, raws);
    NumberRowsStrip(raws, p.tokenToNumber, ForcedSet(unique, positions), positions, oracle.coin);
    BuiltRowsSound(vocab, usage, p.solutionWord, p.solutionTokens, oracle.rowPick);
  }

  /** Token `t` occurs in some row of the puzzle. */
  predicate InPuzzleRow(rows: seq<PuzzleRow>, t: Token) {
    exists k :: 0 <= k < |rows| && t in rows[k].tokens
  }

  /** The two records number exactly the tokens of the solution and of the rows, use each of 1..N once
      where N is the number of those tokens, and are each other's inverse. */
  lemma GeneratedNumbering(vocab: seq<WordEntry>, usage: Usage, oracle: Oracle, p: PuzzleData)
    requires IsGenerated(vocab, usage, oracle, p)
    ensures forall t :: t in p.tokenToNumber <==> t in p.solutionTokens || InPuzzleRow(p.rows, t)
    ensures forall n :: n in p.numberToToken <==> 1 <= n <= |p.tokenToNumber|
    ensures |p.numberToToken| == |p.tokenToNumber|
    ensures forall t :: t in p.tokenToNumber ==>
              p.tokenToNumber[t] in p.numberToToken && p.numberToToken[p.tokenToNumber[t]] == t
    ensures forall n :: n in p.numberToToken ==>
              p.numberToToken[n] in p.tokenToNumber && p.tokenToNumber[p.numberToToken[n]] == n
  {
    var raws := RowsFrom(vocab, usage, p.solutionTokens, oracle.rowPick, 0, {p.solutionWord});
    var unique := UniqueTokens(p.solutionTokens, raws);
    var numbers := Shuffle(Range(|unique|), oracle.shufflePick, 0);
    var positions := Positions(raws);
    UniqueTokensFacts(p.solutionTokens, raws);
    ShuffledRange(|unique|, oracle.shufflePick);
    NumberRowsStrip(raws, p.tokenToNumber, ForcedSet(unique, positions), positions, oracle.coin);
    NumberingIsBijection(unique, numbers, p.tokenToNumber, p.numberToToken);
    forall t ensures InPuzzleRow(p.rows, t) <==> InSomeRow(raws, t) {
      if InPuzzleRow(p.rows, t) {
        var k :| 0 <= k < |p.rows| && t in p.rows[k].tokens;
        assert t in raws[k].tokens;
      }
      if InSomeRow(raws, t) {
        var k :| 0 <= k < |raws| && t in raws[k].tokens;
        assert t in p.rows[k].tokens;
      }
    }
    NumberingCounts(unique, numbers, p.tokenToNumber, p.numberToToken);
  }

  /** Every cell is empty or shows its token's number; it shows it exactly when no earlier cell in
      reading order holds the same token or the density coin says so. */
  lemma GeneratedCells(vocab: seq<WordEntry>, usage: Usage, oracle: Oracle, p: PuzzleData, r: nat, c: nat)
    requires IsGenerated(vocab, usage, oracle, p)
    requires r < |p.rows|
    ensures |p.rows[r].tokenNumbers| == |p.rows[r].tokens|
    ensures c < |p.rows[r].tokens| ==>
              p.rows[r].tokens[c] in p.tokenToNumber &&
              (p.rows[r].tokenNumbers[c].Some? ==> p.rows[r].tokenNumbers[c].value == p.tokenToNumber[p.rows[r].tokens[c]]) &&
              (p.rows[r].tokenNumbers[c].Some? <==> FirstInReadingOrder(RawRows(p.rows), r, c) || oracle.coin(r, c))
  {
    var raws := RowsFrom(vocab, usage, p.solutionTokens, oracle.rowPick, 0, {p.solutionWord});
    var unique := UniqueTokens(p.solutionTokens, raws);
    var positions := Positions(raws);
    var forced := ForcedSet(unique, positions);
    UniqueTokensFacts(p.solutionTokens, raws);
    NumberRowsStrip(raws, p.tokenToNumber, forced, positions, oracle.coin);
    NumberRowsFacts(raws, p.tokenToNumber, forced, positions, oracle.coin, r, c);
    if c < |raws[r].tokens| {
      ForcedSetFacts(unique, positions);
      ForcedOnlyFirst(raws, unique, forced, r, c);
      FirstOccurrenceIff(raws, r, c);
    }
  }

  /** Every token that occurs in a row shows its number in at least one cell, whatever the coin. */
  lemma EveryRowTokenShown(vocab: seq<WordEntry>, usage: Usage, oracle: Oracle, p: PuzzleData, t: Token)
    requires IsGenerated(vocab, usage, oracle, p)
    requires InPuzzleRow(p.rows, t)
    ensures t in p.tokenToNumber
    ensures exists r, c :: 0 <= r < |p.rows| && 0 <= c < |p.rows[r].tokens| && p.rows[r].tokens[c] == t &&
                           p.rows[r].tokenNumbers[c] == Some(p.tokenToNumber[t])
  {
    var raws := RawRows(p.rows);
    var k0 :| 0 <= k0 < |p.rows| && t in p.rows[k0].tokens;
    var c0 :| 0 <= c0 < |p.rows[k0].tokens| && p.rows[k0].tokens[c0] == t;
    var r, c := FirstOccurrenceExists(raws, k0, c0);
    GeneratedCells(vocab, usage, oracle, p, r, c);
  }

  /** With a density coin that always reveals, no cell is empty. */
  lemma GeneratedFullDensity(vocab: seq<WordEntry>, usage: Usage, oracle: Oracle, p: PuzzleData, r: nat, c: nat)
    requires IsGenerated(vocab, usage, oracle, p)
    requires forall r, c :: oracle.coin(r, c)
    requires r < |p.rows| && c < |p.rows[r].tokens|
    ensures p.rows[r].tokens[c] in p.tokenToNumber
    ensures p.rows[r].tokenNumbers[c] == Some(p.tokenToNumber[p.rows[r].tokens[c]])
  {
    GeneratedCells(vocab, usage, oracle, p, r, c);
  }
}
