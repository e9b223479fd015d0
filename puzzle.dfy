/** The data model of types.ts: vocabulary entries, rows and the generated puzzle. */
module Puzzle {
  import opened Common
  import opened Tokenizer
  import Text

  /** One vocabulary entry (`WordEntry`). */
  datatype WordEntry = WordEntry(word: string, definition: string)

  /** One horizontal row (`PuzzleRow`). The row identifier `row-<i>-<word>` is kept as its solution
      position `i`; the constant `displayOffset` is not modelled. */
  datatype PuzzleRow = PuzzleRow(
    position: nat,
    word: string,
    tokens: seq<Token>,
    tokenNumbers: seq<Option<nat>>,
    definition: string,
    solutionIndex: nat)

  /** A generated puzzle (`PuzzleData`). */
  datatype PuzzleData = PuzzleData(
    solutionWord: string,
    solutionDefinition: string,
    solutionTokens: seq<Token>,
    rows: seq<PuzzleRow>,
    tokenToNumber: map<Token, nat>,
    numberToToken: map<nat, Token>)

  /** Usage counts are keyed by the lowercased word; an absent key counts as 0 (`usageCounts[k] || 0`). */
  type Usage = map<string, nat>

  function UsageOf(usage: Usage, word: string): nat {
    var key := Text.Lower(word);
    if key in usage then usage[key] else 0
  }

  /** The usage count of a vocabulary entry. */
  function UsageOfEntry(usage: Usage, e: WordEntry): nat {
    UsageOf(usage, e.word)
  }

  /** The word of an entry as rows and the solution store it: uppercased (`word.toUpperCase()`). */
  function Key(e: WordEntry): string {
    Text.Upper(e.word)
  }

  /** The entry's word contains token `t`. */
  predicate HasToken(e: WordEntry, t: Token) {
    t in Tokenize(e.word)
  }

  /** The usage key ignores case, so the stored uppercase word and the vocabulary word share it. */
  lemma UsageOfUpper(usage: Usage, word: string)
    ensures UsageOf(usage, Text.Upper(word)) == UsageOf(usage, word)
  {
    Text.CaseRoundTrip(word);
  }
}
