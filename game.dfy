/** The grid-editing state of the `App` component (App.tsx) without React: the usage counts, the
    keyboard cycle, the column alignment, the grid with its cursor, and the row and won check. */
module Game {
  import opened Common
  import opened Text
  import opened Tokenizer
  import opened Puzzle
  import opened RowBuilder
  import opened Numbering
  import opened Selection
  import opened PuzzleGenerator

  // ---------------------------------------------------------------------------------------------
  // Usage counts (`updateUsageForPuzzle`)

  /** `next[key] || 0`. */
  function Lookup(u: Usage, key: string): nat {
    if key in u then u[key] else 0
  }

  /** One `next[key] = (next[key] || 0) + 1` with `key = word.toLowerCase()`. */
  function Bump(u: Usage, word: string): Usage {
    u[Lower(word) := Lookup(u, Lower(word)) + 1]
  }

  /** The `words.forEach` loop, as a fold over the words in order. */
  function BumpAll(u: Usage, words: seq<string>): Usage {
    if words == [] then u else Bump(BumpAll(u, words[..|words| - 1]), words[|words| - 1])
  }

  /** How many of `words` have the lowercase key `key`. */
  function KeyCount(words: seq<string>, key: string): nat {
    if words == [] then 0
    else KeyCount(words[..|words| - 1], key) + (if Lower(words[|words| - 1]) == key then 1 else 0)
  }

  /** Some word has the lowercase key `key`. */
  predicate HasKey(words: seq<string>, key: string) {
    exists w :: w in words && Lower(w) == key
  }

  /** Every key gains exactly one per word with that key; no other key changes, and no key is lost. */
  lemma {:induction false} BumpAllCounts(u: Usage, words: seq<string>, key: string)
    ensures key in BumpAll(u, words) <==> key in u || HasKey(words, key)
    ensures Lookup(BumpAll(u, words), key) == Lookup(u, key) + KeyCount(words, key)
  {
    if words != [] {
      var init := words[..|words| - 1];
      var last := words[|words| - 1];
      BumpAllCounts(u, init, key);
      assert words == init + [last];
      if HasKey(words, key) && !HasKey(init, key) {
        var w :| w in words && Lower(w) == key;
        assert w == last;
      }
    }
  }

  lemma {:induction false} KeyCountZero(words: seq<string>, key: string)
    requires !HasKey(words, key)
    ensures KeyCount(words, key) == 0
  {
    if words != [] {
      var init := words[..|words| - 1];
      assert forall w :: w in init ==> w in words;
      KeyCountZero(init, key);
    }
  }

  /** Among distinct uppercase words each lowercase key comes from one word. */
  lemma {:induction false} KeyCountDistinct(words: seq<string>, w: string)
    requires Distinct(words) && forall k :: 0 <= k < |words| ==> IsUpperCased(words[k])
    requires w in words
    ensures KeyCount(words, Lower(w)) == 1
  {
    var init := words[..|words| - 1];
    var last := words[|words| - 1];
    assert words == init + [last];
    assert forall k :: 0 <= k < |init| ==> init[k] == words[k];
    if w == last {
      forall v | v in init ensures Lower(v) != Lower(w) {
        var k :| 0 <= k < |init| && init[k] == v;
        assert words[k] != words[|words| - 1];
        LowerDistinctOnUpperCased(v, w);
      }
      KeyCountZero(init, Lower(w));
    } else {
      var k :| 0 <= k < |words| && words[k] == w;
      assert k < |words| - 1 && init[k] == w;
      KeyCountDistinct(init, w);
      assert words[k] != words[|words| - 1];
      LowerDistinctOnUpperCased(last, w);
    }
  }

  /** `[p.solutionWord, ...p.rows.map(r => r.word)]`. */
  function WordsOf(p: PuzzleData): seq<string> {
    [p.solutionWord] + seq(|p.rows|, k requires 0 <= k < |p.rows| => p.rows[k].word)
  }

  /** After a generated puzzle, the count of each of its words has gone up by exactly one, because the
      solution and row words are distinct uppercase words. */
  lemma GeneratedUsageBump(vocab: seq<WordEntry>, usage: Usage, oracle: Oracle, p: PuzzleData,
                           u: Usage, w: string)
    requires IsGenerated(vocab, usage, oracle, p)
    requires w in WordsOf(p)
    ensures Lookup(BumpAll(u, WordsOf(p)), Lower(w)) == Lookup(u, Lower(w)) + 1
  {
    GeneratedSolution(vocab, usage, oracle, p);
    GeneratedRows(vocab, usage, oracle, p);
    WordsDistinctUpper(vocab, p);
    KeyCountDistinct(WordsOf(p), w);
    BumpAllCounts(u, WordsOf(p), Lower(w));
  }

  /** The solution word and the row words of a puzzle whose rows cross the solution with distinct words
      other than the solution word are distinct uppercase words. */
  lemma WordsDistinctUpper(vocab: seq<WordEntry>, p: PuzzleData)
    requires IsUpperCased(p.solutionWord)
    requires var raws := RawRows(p.rows);
             (forall k :: 0 <= k < |raws| ==> RowCrosses(vocab, p.solutionTokens, raws[k])) &&
             (forall k :: 0 <= k < |raws| ==> raws[k].word != p.solutionWord) &&
             (forall j, k :: 0 <= j < k < |raws| ==> raws[j].word != raws[k].word)
    ensures Distinct(WordsOf(p)) && forall k :: 0 <= k < |WordsOf(p)| ==> IsUpperCased(WordsOf(p)[k])
  {
    var words := WordsOf(p);
    var raws := RawRows(p.rows);
    assert forall k :: 0 < k < |words| ==> words[k] == raws[k - 1].word;
    forall k | 0 <= k < |words| ensures IsUpperCased(words[k]) {
      if k > 0 {
        assert RowCrosses(vocab, p.solutionTokens, raws[k - 1]);
      }
    }
    forall i, j | 0 <= i < j < |words| ensures words[i] != words[j] {
      if i > 0 {
        assert raws[i - 1].word != raws[j - 1].word;
      }
    }
  }

  // ---------------------------------------------------------------------------------------------
  // The keyboard cycle (`toggleKeyboardCycle`)

  datatype Layout = Azerty | Qwerty

  /** What the keyboard shows: nothing, or one of the two layouts. */
  datatype KeyboardMode = Hidden | Shown(layout: Layout)

  function ModeOf(visible: bool, layout: Layout): KeyboardMode {
    if visible then Shown(layout) else Hidden
  }

  /** The cycle hidden, AZERTY, QWERTY, hidden. */
  function NextMode(m: KeyboardMode): (n: KeyboardMode)
    ensures n != m
  {
    match m
    case Hidden => Shown(Azerty)
    case Shown(Azerty) => Shown(Qwerty)
    case Shown(Qwerty) => Hidden
  }

  /** Three presses bring the keyboard back to where it was. */
  lemma CycleOfThree(m: KeyboardMode)
    ensures NextMode(NextMode(NextMode(m))) == m
    ensures NextMode(m) != NextMode(NextMode(m))
  {
  }

  // ---------------------------------------------------------------------------------------------
  // Column alignment (`maxLeft`, `maxSlots`)

  /** `Math.max(...xs)` over a non-empty list. */
  function MaxOf(xs: seq<int>): int
    requires |xs| > 0
  {
    if |xs| == 1 then xs[0]
    else
      var rest := MaxOf(xs[1..]);
      if xs[0] >= rest then xs[0] else rest
  }

  lemma {:induction false} MaxOfFacts(xs: seq<int>)
    requires |xs| > 0
    ensures forall k :: 0 <= k < |xs| ==> xs[k] <= MaxOf(xs)
    ensures exists k :: 0 <= k < |xs| && xs[k] == MaxOf(xs)
  {
    if |xs| == 1 {
      assert xs[0] == MaxOf(xs);
    } else {
      var tail := xs[1..];
      MaxOfFacts(tail);
      var k :| 0 <= k < |tail| && tail[k] == MaxOf(tail);
      assert forall j :: 1 <= j < |xs| ==> xs[j] == tail[j - 1];
      if xs[0] < MaxOf(tail) {
        assert xs[k + 1] == MaxOf(xs);
      } else {
        assert xs[0] == MaxOf(xs);
      }
    }
  }

  datatype Alignment = Alignment(maxLeft: int, maxSlots: int)

  function Lefts(rows: seq<PuzzleRow>): seq<int> {
    seq(|rows|, k requires 0 <= k < |rows| => rows[k].solutionIndex as int)
  }

  /** The width of each row once padded so that its solution cell sits in column `maxLeft`. */
  function PaddedWidths(rows: seq<PuzzleRow>, maxLeft: int): seq<int> {
    seq(|rows|, k requires 0 <= k < |rows| => (maxLeft - rows[k].solutionIndex) + |rows[k].tokens|)
  }

  /** The `useMemo` block: (0, 0) without a puzzle; without rows `Math.max()` gives `-Infinity`, which
      is `None` here. */
  function Align(puzzle: Option<PuzzleData>): Option<Alignment> {
    match puzzle
    case None => Some(Alignment(0, 0))
    case Some(p) =>
      if |p.rows| == 0 then None
      else
        var mLeft := MaxOf(Lefts(p.rows));
        Some(Alignment(mLeft, MaxOf(PaddedWidths(p.rows, mLeft))))
  }

  /** The padding `maxLeft - solutionIndex` of row `k` is never negative, so every solution cell can sit
      in column `maxLeft`, which some row needs no padding to reach; `maxSlots` is the widest padded row. */
  lemma AlignmentLinesUp(p: PuzzleData)
    ensures Align(Some(p)).None? <==> |p.rows| == 0
    ensures Align(Some(p)).Some? ==>
              var a := Align(Some(p)).value;
              (forall k :: 0 <= k < |p.rows| ==>
                 a.maxLeft - p.rows[k].solutionIndex >= 0 &&
                 (a.maxLeft - p.rows[k].solutionIndex) + |p.rows[k].tokens| <= a.maxSlots) &&
              (exists k :: 0 <= k < |p.rows| && p.rows[k].solutionIndex == a.maxLeft) &&
              (exists k :: 0 <= k < |p.rows| && (a.maxLeft - p.rows[k].solutionIndex) + |p.rows[k].tokens| == a.maxSlots)
  {
    if |p.rows| > 0 {
      var lefts := Lefts(p.rows);
      MaxOfFacts(lefts);
      var widths := PaddedWidths(p.rows, MaxOf(lefts));
      MaxOfFacts(widths);
      forall k | 0 <= k < |p.rows|
        ensures MaxOf(lefts) - p.rows[k].solutionIndex >= 0
        ensures (MaxOf(lefts) - p.rows[k].solutionIndex) + |p.rows[k].tokens| <= MaxOf(widths)
      {
        assert lefts[k] == p.rows[k].solutionIndex;
        assert widths[k] == (MaxOf(lefts) - p.rows[k].solutionIndex) + |p.rows[k].tokens|;
      }
      var k :| 0 <= k < |lefts| && lefts[k] == MaxOf(lefts);
      assert p.rows[k].solutionIndex == MaxOf(lefts);
      var j :| 0 <= j < |widths| && widths[j] == MaxOf(widths);
      assert (MaxOf(lefts) - p.rows[j].solutionIndex) + |p.rows[j].tokens| == MaxOf(widths);
    }
  }

  // ---------------------------------------------------------------------------------------------
  // The grid and the cells an edit writes

  /** `gridState`: one string per cell, `""` for an empty cell. */
  type Grid = seq<seq<string>>

  /** The grid has one cell per token of every row, and so has each row's number list. */
  predicate Shaped(rows: seq<PuzzleRow>, grid: Grid) {
    |grid| == |rows| &&
    forall r :: 0 <= r < |rows| ==> |grid[r]| == |rows[r].tokens| && |rows[r].tokenNumbers| == |rows[r].tokens|
  }

  /** `rows.map(row => Array(row.tokens.length).fill(''))`. */
  function EmptyGrid(rows: seq<PuzzleRow>): Grid {
    seq(|rows|, r requires 0 <= r < |rows| => seq(|rows[r].tokens|, c => ""))
  }

  /** Cell (r, c) is written by an edit of cell (rowIdx, colIdx): every cell with the same number when
      the edited cell has one, else the edited cell alone. */
  predicate Hit(rows: seq<PuzzleRow>, rowIdx: nat, colIdx: nat, r: nat, c: nat)
    requires rowIdx < |rows| && colIdx < |rows[rowIdx].tokenNumbers|
    requires r < |rows| && c < |rows[r].tokenNumbers|
  {
    match rows[rowIdx].tokenNumbers[colIdx]
    case Some(n) => rows[r].tokenNumbers[c] == Some(n)
    case None => r == rowIdx && c == colIdx
  }

  function EditRow(rows: seq<PuzzleRow>, cells: seq<string>, rowIdx: nat, colIdx: nat, r: nat, v: string): seq<string>
    requires rowIdx < |rows| && colIdx < |rows[rowIdx].tokenNumbers|
    requires r < |rows| && |cells| == |rows[r].tokenNumbers|
  {
    seq(|cells|, c requires 0 <= c < |cells| => if Hit(rows, rowIdx, colIdx, r, c) then v else cells[c])
  }

  /** The grid after writing `v` into cell (rowIdx, colIdx) and every cell it carries along. */
  function EditGrid(rows: seq<PuzzleRow>, grid: Grid, rowIdx: nat, colIdx: nat, v: string): Grid
    requires Shaped(rows, grid) && rowIdx < |rows| && colIdx < |rows[rowIdx].tokens|
  {
    seq(|grid|, r requires 0 <= r < |grid| => EditRow(rows, grid[r], rowIdx, colIdx, r, v))
  }

  /** An edit keeps the grid's shape, writes `v` into exactly the hit cells and leaves every other cell
      as it was. */
  lemma EditGridFacts(rows: seq<PuzzleRow>, grid: Grid, rowIdx: nat, colIdx: nat, v: string)
    requires Shaped(rows, grid) && rowIdx < |rows| && colIdx < |rows[rowIdx].tokens|
    ensures Shaped(rows, EditGrid(rows, grid, rowIdx, colIdx, v))
    ensures EditGrid(rows, grid, rowIdx, colIdx, v)[rowIdx][colIdx] == v
    ensures forall r, c :: 0 <= r < |rows| && 0 <= c < |grid[r]| ==>
              EditGrid(rows, grid, rowIdx, colIdx, v)[r][c] == if Hit(rows, rowIdx, colIdx, r, c) then v else grid[r][c]
  {
  }

  /** Two edits of the same cell: the second one wins, so a backspace after an edit clears exactly what
      the edit wrote. */
  lemma LastEditWins(rows: seq<PuzzleRow>, grid: Grid, rowIdx: nat, colIdx: nat, v: string, w: string)
    requires Shaped(rows, grid) && rowIdx < |rows| && colIdx < |rows[rowIdx].tokens|
    ensures Shaped(rows, EditGrid(rows, grid, rowIdx, colIdx, v))
    ensures EditGrid(rows, EditGrid(rows, grid, rowIdx, colIdx, v), rowIdx, colIdx, w) ==
            EditGrid(rows, grid, rowIdx, colIdx, w)
  {
    var g1 := EditGrid(rows, grid, rowIdx, colIdx, v);
    EditGridFacts(rows, grid, rowIdx, colIdx, v);
    var g2 := EditGrid(rows, g1, rowIdx, colIdx, w);
    var g3 := EditGrid(rows, grid, rowIdx, colIdx, w);
    forall r | 0 <= r < |rows| ensures g2[r] == g3[r] {
    }
  }

  /** Cells with the same number hold the same value. */
  predicate Agrees(rows: seq<PuzzleRow>, grid: Grid)
    requires Shaped(rows, grid)
  {
    forall r1, c1, r2, c2 ::
      0 <= r1 < |rows| && 0 <= c1 < |grid[r1]| && 0 <= r2 < |rows| && 0 <= c2 < |grid[r2]| &&
      rows[r1].tokenNumbers[c1].Some? && rows[r1].tokenNumbers[c1] == rows[r2].tokenNumbers[c2] ==>
        grid[r1][c1] == grid[r2][c2]
  }

  lemma EmptyGridAgrees(rows: seq<PuzzleRow>)
    requires forall r :: 0 <= r < |rows| ==> |rows[r].tokenNumbers| == |rows[r].tokens|
    ensures Shaped(rows, EmptyGrid(rows)) && Agrees(rows, EmptyGrid(rows))
  {
  }

  /** A generated puzzle's empty grid has the puzzle's shape, agrees with its numbering, and every row
      has at least one cell. */
  lemma GeneratedGridStarts(vocab: seq<WordEntry>, usage: Usage, oracle: Oracle, p: PuzzleData)
    requires IsGenerated(vocab, usage, oracle, p)
    ensures Shaped(p.rows, EmptyGrid(p.rows)) && Agrees(p.rows, EmptyGrid(p.rows))
    ensures forall k :: 0 <= k < |p.rows| ==> |p.rows[k].tokens| > 0
  {
    forall k | 0 <= k < |p.rows| ensures |p.rows[k].tokenNumbers| == |p.rows[k].tokens| {
      GeneratedCells(vocab, usage, oracle, p, k, 0);
    }
    EmptyGridAgrees(p.rows);
    GeneratedRows(vocab, usage, oracle, p);
    forall k | 0 <= k < |p.rows| ensures |p.rows[k].tokens| > 0 {
      assert RowCrosses(vocab, p.solutionTokens, RawRows(p.rows)[k]);
    }
  }

  /** Edits keep same-numbered cells in agreement: a numbered edit writes all of them at once. */
  lemma EditKeepsAgreement(rows: seq<PuzzleRow>, grid: Grid, rowIdx: nat, colIdx: nat, v: string)
    requires Shaped(rows, grid) && rowIdx < |rows| && colIdx < |rows[rowIdx].tokens|
    requires Agrees(rows, grid)
    ensures Shaped(rows, EditGrid(rows, grid, rowIdx, colIdx, v))
    ensures Agrees(rows, EditGrid(rows, grid, rowIdx, colIdx, v))
  {
    var g := EditGrid(rows, grid, rowIdx, colIdx, v);
    EditGridFacts(rows, grid, rowIdx, colIdx, v);
    forall r1, c1, r2, c2 |
      0 <= r1 < |rows| && 0 <= c1 < |g[r1]| && 0 <= r2 < |rows| && 0 <= c2 < |g[r2]| &&
      rows[r1].tokenNumbers[c1].Some? && rows[r1].tokenNumbers[c1] == rows[r2].tokenNumbers[c2]
      ensures g[r1][c1] == g[r2][c2]
    {
      assert Hit(rows, rowIdx, colIdx, r1, c1) == Hit(rows, rowIdx, colIdx, r2, c2);
    }
  }

  /** In a generated puzzle an edit writes the edited cell and, when it is numbered, exactly the other
      numbered cells with the same token; cells with that token but no number keep their value. */
  lemma GeneratedEditHits(vocab: seq<WordEntry>, usage: Usage, oracle: Oracle, p: PuzzleData,
                          rowIdx: nat, colIdx: nat, r: nat, c: nat)
    requires IsGenerated(vocab, usage, oracle, p)
    requires rowIdx < |p.rows| && colIdx < |p.rows[rowIdx].tokens|
    requires r < |p.rows| && c < |p.rows[r].tokens|
    ensures colIdx < |p.rows[rowIdx].tokenNumbers| && c < |p.rows[r].tokenNumbers|
    ensures Hit(p.rows, rowIdx, colIdx, r, c) <==>
              (r == rowIdx && c == colIdx) ||
              (p.rows[rowIdx].tokenNumbers[colIdx].Some? && p.rows[r].tokenNumbers[c].Some? &&
               p.rows[r].tokens[c] == p.rows[rowIdx].tokens[colIdx])
  {
    GeneratedCells(vocab, usage, oracle, p, rowIdx, colIdx);
    GeneratedCells(vocab, usage, oracle, p, r, c);
    GeneratedNumbering(vocab, usage, oracle, p);
    var a := p.rows[rowIdx].tokens[colIdx];
    var b := p.rows[r].tokens[c];
    if p.tokenToNumber[a] == p.tokenToNumber[b] {
      assert p.numberToToken[p.tokenToNumber[a]] == a;
    }
  }

  // ---------------------------------------------------------------------------------------------
  // Correct rows

  /** `newGrid[r].join('') === puzzle.rows[r].tokens.join('')`. */
  predicate RowCorrect(cells: seq<string>, tokens: seq<Token>) {
    Concat(cells) == Concat(tokens)
  }

  /** `puzzle.rows.map((row, rIdx) => ...)`: one flag per row. */
  function CorrectFlags(rows: seq<PuzzleRow>, grid: Grid): seq<bool>
    requires |grid| == |rows|
  {
    seq(|rows|, r requires 0 <= r < |rows| => RowCorrect(grid[r], rows[r].tokens))
  }

  predicate AllTrue(flags: seq<bool>) {
    forall k :: 0 <= k < |flags| ==> flags[k]
  }

  /** No "I" token directly followed by a "J" token: what the tokenizer yields on a word made of letters. */
  predicate DigraphsMerged(tokens: seq<Token>) {
    forall k :: 0 <= k < |tokens| - 1 ==> !(tokens[k] == "I" && tokens[k + 1] == "J")
  }

  /** The cells that are not empty, in order. */
  function Filled(cells: seq<string>): seq<string> {
    if cells == [] then [] else (if cells[0] == "" then [] else [cells[0]]) + Filled(cells[1..])
  }

  /** Dropping empty cells spells the same text; nothing is dropped only when no cell is empty. */
  lemma {:induction false} FilledFacts(cells: seq<string>)
    ensures Concat(Filled(cells)) == Concat(cells)
    ensures |Filled(cells)| <= |cells|
    ensures |Filled(cells)| == |cells| ==> Filled(cells) == cells
    ensures (forall k :: 0 <= k < |cells| ==> cells[k] == "" || IsToken(cells[k])) ==>
              forall k :: 0 <= k < |Filled(cells)| ==> IsToken(Filled(cells)[k])
  {
    if cells != [] {
      FilledFacts(cells[1..]);
      var head: seq<string> := if cells[0] == "" then [] else [cells[0]];
      ConcatAppend(head, Filled(cells[1..]));
      if cells[0] == "" {
        assert Concat(cells) == "" + Concat(cells[1..]);
      } else {
        ConcatCons(cells[0], cells[1..]);
        ConcatCons(cells[0], Filled(cells[1..]));
        assert [cells[0]] + cells[1..] == cells;
      }
    }
  }

  /** Tokens spell at least one letter each. */
  lemma {:induction false} ConcatLength(pieces: seq<Token>)
    requires forall k :: 0 <= k < |pieces| ==> IsToken(pieces[k])
    ensures |pieces| <= |Concat(pieces)|
  {
    if pieces != [] {
      ConcatLength(pieces[1..]);
    }
  }

  /** An "I" token is never followed by a "J" token, so a text started by the token "I" does not start
      with the digraph. */
  lemma NoDigraphAfterI(p: Token, t: Token, restP: string, restT: seq<Token>)
    requires IsToken(t) && forall k :: 0 <= k < |restT| ==> IsToken(restT[k])
    requires DigraphsMerged([t] + restT)
    requires p + restP == t + Concat(restT)
    ensures t == "I" ==> p != "IJ"
  {
    if t == "I" && restT != [] {
      ConcatCons(restT[0], restT[1..]);
      assert [restT[0]] + restT[1..] == restT;
      assert ([t] + restT)[1] == restT[0];
      assert (t + Concat(restT))[1] == restT[0][0];
      assert ([t] + restT)[0] == t;
      OneLetter(restT[0]);
      assert restT[0][0] != 'J';
    }
  }

  /** Two different tokens that start the same text: only "I" against the digraph. */
  lemma HeadsDiffer(p: Token, t: Token, restP: string, restT: seq<Token>)
    requires IsToken(p) && IsToken(t) && p != t
    requires forall k :: 0 <= k < |restT| ==> IsToken(restT[k])
    requires DigraphsMerged([t] + restT)
    requires p + restP == t + Concat(restT)
    ensures p == "I" && t == "IJ"
  {
    assert p[0] == (p + restP)[0] == (t + Concat(restT))[0] == t[0];
    NoDigraphAfterI(p, t, restP, restT);
    OneLetter(p);
    OneLetter(t);
  }

  lemma OneLetter(x: string)
    ensures |x| == 1 ==> x == [x[0]]
  {
  }

  /** A token that starts a text beginning with "J" is "J". */
  lemma HeadJ(q: Token, rest: string, s: string)
    requires IsToken(q) && q + rest == "J" + s
    ensures q == "J"
  {
    assert q[0] == (q + rest)[0] == 'J';
  }

  /** Tokens that spell the same text as the tokenizer's own tokens are at least as many, and exactly as
      many only when they are the same tokens. */
  lemma {:induction false} SpellingDeterminesTokens(pieces: seq<Token>, tokens: seq<Token>)
    requires forall k :: 0 <= k < |pieces| ==> IsToken(pieces[k])
    requires forall k :: 0 <= k < |tokens| ==> IsToken(tokens[k])
    requires DigraphsMerged(tokens)
    requires Concat(pieces) == Concat(tokens)
    ensures |pieces| >= |tokens|
    ensures |pieces| == |tokens| ==> pieces == tokens
    decreases |tokens|
  {
    ConcatLength(pieces);
    if tokens != [] {
      ConcatLength(tokens);
      ConcatCons(tokens[0], tokens[1..]);
      ConcatCons(pieces[0], pieces[1..]);
      assert [tokens[0]] + tokens[1..] == tokens;
      assert [pieces[0]] + pieces[1..] == pieces;
      var p, t := pieces[0], tokens[0];
      var restP, restT := Concat(pieces[1..]), Concat(tokens[1..]);
      assert p + restP == t + restT;
      if p == t {
        assert restP == (p + restP)[|p|..] == (t + restT)[|t|..] == restT;
        SpellingDeterminesTokens(pieces[1..], tokens[1..]);
      } else {
        HeadsDiffer(p, t, restP, tokens[1..]);
        assert restP == (p + restP)[1..] == (t + restT)[1..] == "J" + restT;
        ConcatLength(pieces[1..]);
        assert |pieces[1..]| > 0;
        ConcatCons(pieces[1], pieces[2..]);
        assert [pieces[1]] + pieces[2..] == pieces[1..];
        HeadJ(pieces[1], Concat(pieces[2..]), restT);
        assert Concat(pieces[2..]) == ("J" + Concat(pieces[2..]))[1..] == ("J" + restT)[1..] == restT;
        SpellingDeterminesTokens(pieces[2..], tokens[1..]);
      }
    }
  }

  /** With the cells holding what the keyboard and the hints write (a token or nothing), comparing the
      joined strings is comparing the cells one by one. */
  lemma RowCorrectIffFilledIn(cells: seq<string>, tokens: seq<Token>)
    requires |cells| == |tokens|
    requires forall k :: 0 <= k < |cells| ==> cells[k] == "" || IsToken(cells[k])
    requires forall k :: 0 <= k < |tokens| ==> IsToken(tokens[k])
    requires DigraphsMerged(tokens)
    ensures RowCorrect(cells, tokens) <==> cells == tokens
  {
    if RowCorrect(cells, tokens) {
      FilledFacts(cells);
      SpellingDeterminesTokens(Filled(cells), tokens);
    }
  }

  /** Every flag is up exactly when every cell holds its own token, as long as the cells hold tokens or
      nothing and the rows' tokens come from words made of letters. */
  lemma AllCorrectIffSolved(rows: seq<PuzzleRow>, grid: Grid)
    requires Shaped(rows, grid)
    requires forall r, c :: 0 <= r < |grid| && 0 <= c < |grid[r]| ==> grid[r][c] == "" || IsToken(grid[r][c])
    requires forall r :: 0 <= r < |rows| ==>
               DigraphsMerged(rows[r].tokens) && forall c :: 0 <= c < |rows[r].tokens| ==> IsToken(rows[r].tokens[c])
    ensures AllTrue(CorrectFlags(rows, grid)) <==> forall r :: 0 <= r < |rows| ==> grid[r] == rows[r].tokens
  {
    var flags := CorrectFlags(rows, grid);
    assert |flags| == |rows|;
    forall r | 0 <= r < |rows| ensures flags[r] <==> grid[r] == rows[r].tokens {
      RowCorrectIffFilledIn(grid[r], rows[r].tokens);
    }
  }

  /** An empty row is never correct: every token spells at least one letter. */
  lemma EmptyRowIncorrect(tokens: seq<Token>)
    requires |tokens| > 0 && forall k :: 0 <= k < |tokens| ==> IsToken(tokens[k])
    ensures !RowCorrect(seq(|tokens|, c => ""), tokens)
  {
    var cells: seq<string> := seq(|tokens|, c => "");
    EmptyConcat(cells);
    assert Concat(tokens) == tokens[0] + Concat(tokens[1..]);
  }

  lemma {:induction false} EmptyConcat(cells: seq<string>)
    requires forall k :: 0 <= k < |cells| ==> cells[k] == ""
    ensures Concat(cells) == ""
  {
    if cells != [] {
      EmptyConcat(cells[1..]);
    }
  }

  // ---------------------------------------------------------------------------------------------
  // The cursor

  /** `findIndex((c, idx) => idx >= from && c === '')`. */
  function EmptyFrom(cells: seq<string>, from: nat): Option<nat>
    decreases |cells| - from
  {
    if from >= |cells| then None
    else if cells[from] == "" then Some(from)
    else EmptyFrom(cells, from + 1)
  }

  /** The search finds the first empty cell at or after `from`, or reports that there is none. */
  lemma {:induction false} EmptyFromFacts(cells: seq<string>, from: nat)
    ensures match EmptyFrom(cells, from)
            case Some(j) => from <= j < |cells| && cells[j] == "" && forall k :: from <= k < j ==> cells[k] != ""
            case None => forall k :: from <= k < |cells| ==> cells[k] != ""
    decreases |cells| - from
  {
    if from < |cells| && cells[from] != "" {
      EmptyFromFacts(cells, from + 1);
    }
  }

  /** The column after an edit that leaves the row incorrect: the first empty cell right of the edited
      one, else the first empty cell of the row, else the column stays. */
  function InRowCursor(cells: seq<string>, colIdx: nat, col: nat): nat {
    match EmptyFrom(cells, colIdx + 1)
    case Some(j) => j
    case None =>
      match EmptyFrom(cells, 0)
      case Some(j) => j
      case None => col
  }

  /** The row `i` steps after `rowIdx`, cyclically (`(rowIdx + i) % puzzle.rows.length`). */
  function RowAfter(rowIdx: nat, i: nat, n: nat): nat
    requires n > 0
  {
    (rowIdx + i) % n
  }

  /** A row the cursor may jump to: incorrect and with an empty cell. */
  predicate RowOpen(rows: seq<PuzzleRow>, grid: Grid, r: nat)
    requires |grid| == |rows| && r < |rows|
  {
    !RowCorrect(grid[r], rows[r].tokens) && EmptyFrom(grid[r], 0).Some?
  }

  /** Reference definition of the search `for (let i = 1; i <= puzzle.rows.length; i++)` from step `i`:
      the first open row and its first empty column. */
  function NextOpen(rows: seq<PuzzleRow>, grid: Grid, rowIdx: nat, i: nat): Option<(nat, nat)>
    requires |grid| == |rows| && |rows| > 0
    decreases |rows| + 1 - i
  {
    if i > |rows| then None
    else
      var r := RowAfter(rowIdx, i, |rows|);
      if RowOpen(rows, grid, r) then Some((r, EmptyFrom(grid[r], 0).value))
      else NextOpen(rows, grid, rowIdx, i + 1)
  }

  /** The search takes the open row fewest steps ahead, at its first empty column; `None` means no row
      is open in the remaining steps. */
  lemma {:induction false} NextOpenFacts(rows: seq<PuzzleRow>, grid: Grid, rowIdx: nat, i: nat)
    requires |grid| == |rows| && |rows| > 0
    ensures match NextOpen(rows, grid, rowIdx, i)
            case Some(t) =>
              t.0 < |rows| && RowOpen(rows, grid, t.0) && EmptyFrom(grid[t.0], 0) == Some(t.1) &&
              exists s :: i <= s <= |rows| && t.0 == RowAfter(rowIdx, s, |rows|) &&
                          forall j :: i <= j < s ==> !RowOpen(rows, grid, RowAfter(rowIdx, j, |rows|))
            case None => forall j :: i <= j <= |rows| ==> !RowOpen(rows, grid, RowAfter(rowIdx, j, |rows|))
    decreases |rows| + 1 - i
  {
    if i <= |rows| {
      var r := RowAfter(rowIdx, i, |rows|);
      if !RowOpen(rows, grid, r) {
        NextOpenFacts(rows, grid, rowIdx, i + 1);
        match NextOpen(rows, grid, rowIdx, i + 1)
        case Some(t) =>
          var s :| i + 1 <= s <= |rows| && t.0 == RowAfter(rowIdx, s, |rows|) &&
                   forall j :: i + 1 <= j < s ==> !RowOpen(rows, grid, RowAfter(rowIdx, j, |rows|));
          assert forall j :: i <= j < s ==> !RowOpen(rows, grid, RowAfter(rowIdx, j, |rows|));
        case None =>
      }
    }
  }

  /** Where `handleCellChange` leaves the cursor of row `rowIdx` after writing `v` at column `colIdx`,
      given the new grid `g` and the old column `col`. */
  function CursorAfter(rows: seq<PuzzleRow>, g: Grid, rowIdx: nat, colIdx: nat, col: nat, v: string): (nat, nat)
    requires |g| == |rows| && rowIdx < |rows|
  {
    if v == "" then (rowIdx, col)
    else if RowCorrect(g[rowIdx], rows[rowIdx].tokens) then
      match NextOpen(rows, g, rowIdx, 1)
      case Some(t) => t
      case None => (rowIdx, col)
    else (rowIdx, InRowCursor(g[rowIdx], colIdx, col))
  }

  /** The cursor stays on a cell of the grid. */
  lemma CursorAfterInGrid(rows: seq<PuzzleRow>, g: Grid, rowIdx: nat, colIdx: nat, col: nat, v: string)
    requires Shaped(rows, g) && rowIdx < |rows| && col < |g[rowIdx]|
    ensures var t := CursorAfter(rows, g, rowIdx, colIdx, col, v);
            t.0 < |rows| && t.1 < |g[t.0]|
  {
    if v != "" {
      if RowCorrect(g[rowIdx], rows[rowIdx].tokens) {
        NextOpenFacts(rows, g, rowIdx, 1);
        match NextOpen(rows, g, rowIdx, 1)
        case Some(t) =>
          EmptyFromFacts(g[t.0], 0);
        case None =>
      } else {
        EmptyFromFacts(g[rowIdx], colIdx + 1);
        EmptyFromFacts(g[rowIdx], 0);
      }
    }
  }

  // ---------------------------------------------------------------------------------------------
  // Hints (`handleHint`)

  /** The first column from `from` on whose value differs from its token (`wrongIndices[0]`). */
  function FirstWrong(cells: seq<string>, tokens: seq<Token>, from: nat): Option<nat>
    requires |cells| == |tokens|
    decreases |cells| - from
  {
    if from >= |cells| then None
    else if cells[from] != tokens[from] then Some(from)
    else FirstWrong(cells, tokens, from + 1)
  }

  /** The cell a hint fills: the cursor cell when it is wrong, else the first wrong cell of the row. */
  function HintCell(cells: seq<string>, tokens: seq<Token>, col: nat): Option<nat>
    requires |cells| == |tokens| && col < |cells|
  {
    if cells[col] != tokens[col] then Some(col) else FirstWrong(cells, tokens, 0)
  }

  lemma {:induction false} FirstWrongFacts(cells: seq<string>, tokens: seq<Token>, from: nat)
    requires |cells| == |tokens|
    ensures match FirstWrong(cells, tokens, from)
            case Some(j) => from <= j < |cells| && cells[j] != tokens[j] &&
                            forall k :: from <= k < j ==> cells[k] == tokens[k]
            case None => forall k :: from <= k < |cells| ==> cells[k] == tokens[k]
    decreases |cells| - from
  {
    if from < |cells| && cells[from] == tokens[from] {
      FirstWrongFacts(cells, tokens, from + 1);
    }
  }

  /** A hint fills a wrong cell: the cursor cell if it is wrong, else the leftmost wrong one; there is
      none exactly when every cell holds its token. */
  lemma HintCellFacts(cells: seq<string>, tokens: seq<Token>, col: nat)
    requires |cells| == |tokens| && col < |cells|
    ensures HintCell(cells, tokens, col).None? <==> forall k :: 0 <= k < |cells| ==> cells[k] == tokens[k]
    ensures match HintCell(cells, tokens, col)
            case Some(i) =>
              i < |cells| && cells[i] != tokens[i] &&
              (cells[col] != tokens[col] ==> i == col) &&
              (cells[col] == tokens[col] ==> forall k :: 0 <= k < i ==> cells[k] == tokens[k])
            case None => true
  {
    FirstWrongFacts(cells, tokens, 0);
  }

  // ---------------------------------------------------------------------------------------------
  // The loops of the handlers

  /** The nested `for` loops of `handleCellChange` and `handleBackspace` writing `v` into the grid. */
  method WriteCells(rows: seq<PuzzleRow>, grid: Grid, rowIdx: nat, colIdx: nat, v: string) returns (newGrid: Grid)
    requires Shaped(rows, grid) && rowIdx < |rows| && colIdx < |rows[rowIdx].tokens|
    ensures newGrid == EditGrid(rows, grid, rowIdx, colIdx, v)
  {
    var cellNumber := rows[rowIdx].tokenNumbers[colIdx];
    newGrid := grid;
    if cellNumber.Some? {
      for r := 0 to |newGrid|
        invariant |newGrid| == |grid|
        invariant forall q :: 0 <= q < r ==> newGrid[q] == EditRow(rows, grid[q], rowIdx, colIdx, q, v)
        invariant forall q :: r <= q < |grid| ==> newGrid[q] == grid[q]
      {
        var cells := newGrid[r];
        for c := 0 to |cells|
          invariant |cells| == |grid[r]|
          invariant forall k :: 0 <= k < c ==> cells[k] == if Hit(rows, rowIdx, colIdx, r, k) then v else grid[r][k]
          invariant forall k :: c <= k < |cells| ==> cells[k] == grid[r][k]
        {
          if rows[r].tokenNumbers[c] == cellNumber {
            cells := cells[c := v];
          }
        }
        assert cells == EditRow(rows, grid[r], rowIdx, colIdx, r, v);
        newGrid := newGrid[r := cells];
      }
    } else {
      newGrid := newGrid[rowIdx := newGrid[rowIdx][colIdx := v]];
      forall q | 0 <= q < |grid| ensures newGrid[q] == EditRow(rows, grid[q], rowIdx, colIdx, q, v) {
      }
    }
  }

  /** The `for (let i = 1; i <= puzzle.rows.length; i++)` search for the next open row. */
  method FindOpenRow(rows: seq<PuzzleRow>, grid: Grid, rowIdx: nat) returns (target: Option<(nat, nat)>)
    requires |grid| == |rows| && rowIdx < |rows|
    ensures target == NextOpen(rows, grid, rowIdx, 1)
  {
    for i := 1 to |rows| + 1
      invariant NextOpen(rows, grid, rowIdx, i) == NextOpen(rows, grid, rowIdx, 1)
    {
      var nextR := (rowIdx + i) % |rows|;
      if !RowCorrect(grid[nextR], rows[nextR].tokens) {
        var firstEmpty := EmptyFrom(grid[nextR], 0);
        if firstEmpty.Some? {
          return Some((nextR, firstEmpty.value));
        }
      }
    }
    return None;
  }

  // ---------------------------------------------------------------------------------------------
  // The component state

  datatype Status = Playing | Won

  /** The state of the `App` component: the puzzle, the grid, the row flags, the cursor, the game status,
      the keyboard and the usage counts. */
  class App {
    var puzzle: Option<PuzzleData>
    var grid: Grid
    var correctRows: seq<bool>
    var currentRow: nat
    var currentCol: nat
    var status: Status
    var layout: Layout
    var keyboardVisible: bool
    var usage: Usage

    /** The grid matches the puzzle, same-numbered cells agree, the cursor is on a cell, and a game
        still in play has a row not yet marked correct. */
    ghost predicate Valid()
      reads this
    {
      match puzzle
      case None => true
      case Some(p) =>
        Shaped(p.rows, grid) && Agrees(p.rows, grid) && |correctRows| == |p.rows| &&
        (|p.rows| > 0 ==> currentRow < |p.rows| && currentCol < |grid[currentRow]|) &&
        (status.Playing? && |p.rows| > 0 ==> !AllTrue(correctRows))
    }

    /** The state before the first puzzle, with the usage counts read back from storage. */
    constructor(saved: Usage)
      ensures Valid()
      ensures puzzle.None? && grid == [] && correctRows == [] && currentRow == 0 && currentCol == 0
      ensures status == Playing && layout == Azerty && keyboardVisible && usage == saved
    {
      puzzle := None;
      grid := [];
      correctRows := [];
      currentRow, currentCol := 0, 0;
      status := Playing;
      layout := Azerty;
      keyboardVisible := true;
      usage := saved;
    }

    /** `updateUsageForPuzzle`: one more use for the solution word and every row word. */
    method UpdateUsageForPuzzle(p: PuzzleData)
      modifies this
      ensures usage == BumpAll(old(usage), WordsOf(p))
      ensures puzzle == old(puzzle) && grid == old(grid) && correctRows == old(correctRows)
      ensures currentRow == old(currentRow) && currentCol == old(currentCol) && status == old(status)
      ensures layout == old(layout) && keyboardVisible == old(keyboardVisible)
    {
      var next := usage;
      var words := WordsOf(p);
      for k := 0 to |words|
        invariant next == BumpAll(usage, words[..k])
      {
        var key := Lower(words[k]);
        assert words[..k + 1][..k] == words[..k];
        next := next[key := Lookup(next, key) + 1];
      }
      assert words[..|words|] == words;
      usage := next;
    }

    /** `startNewGame`: a new puzzle for the current usage counts, an empty grid, no row correct, the
        cursor on the first cell, and the counts bumped. When generation throws, nothing changes. */
    method StartNewGame(vocab: seq<WordEntry>, oracle: Oracle)
      requires Valid()
      modifies this
      ensures Valid()
      ensures (forall w :: w in vocab ==> !IsSolutionCandidate(w)) ==> unchanged(this)
      ensures (exists w :: w in vocab && IsSolutionCandidate(w)) ==>
                puzzle.Some? && IsGenerated(vocab, old(usage), oracle, puzzle.value) &&
                grid == EmptyGrid(puzzle.value.rows) &&
                correctRows == seq(|puzzle.value.rows|, _ => false) &&
                currentRow == 0 && currentCol == 0 && status == Playing &&
                usage == BumpAll(old(usage), WordsOf(puzzle.value))
      ensures layout == old(layout) && keyboardVisible == old(keyboardVisible)
    {
      var r := GeneratePuzzle(vocab, usage, oracle);
      if r.Failure? {
        return;
      }
      GeneratedGridStarts(vocab, usage, oracle, r.value);
      Install(r.value);
    }

    /** The state updates of `startNewGame` once a puzzle is in hand. */
    method Install(p: PuzzleData)
      requires Shaped(p.rows, EmptyGrid(p.rows)) && Agrees(p.rows, EmptyGrid(p.rows))
      requires forall k :: 0 <= k < |p.rows| ==> |p.rows[k].tokens| > 0
      modifies this
      ensures Valid()
      ensures puzzle == Some(p) && grid == EmptyGrid(p.rows) && correctRows == seq(|p.rows|, _ => false)
      ensures currentRow == 0 && currentCol == 0 && status == Playing
      ensures usage == BumpAll(old(usage), WordsOf(p))
      ensures layout == old(layout) && keyboardVisible == old(keyboardVisible)
    {
      var flags := seq(|p.rows|, _ => false);
      assert |p.rows| > 0 ==> !flags[0];
      puzzle, grid, correctRows := Some(p), EmptyGrid(p.rows), flags;
      currentRow, currentCol, status := 0, 0, Playing;
      UpdateUsageForPuzzle(p);
    }

    /** `toggleKeyboardCycle`: hidden, AZERTY, QWERTY, hidden. */
    method ToggleKeyboardCycle()
      requires Valid()
      modifies this
      ensures Valid()
      ensures ModeOf(keyboardVisible, layout) == NextMode(ModeOf(old(keyboardVisible), old(layout)))
      ensures !old(keyboardVisible) ==> keyboardVisible && layout == Azerty
      ensures old(keyboardVisible) && old(layout) == Azerty ==> keyboardVisible && layout == Qwerty
      ensures old(keyboardVisible) && old(layout) == Qwerty ==> !keyboardVisible && layout == Qwerty
      ensures puzzle == old(puzzle) && grid == old(grid) && correctRows == old(correctRows)
      ensures currentRow == old(currentRow) && currentCol == old(currentCol) && status == old(status)
      ensures usage == old(usage)
    {
      if !keyboardVisible {
        keyboardVisible := true;
        layout := Azerty;
      } else if layout == Azerty {
        layout := Qwerty;
      } else {
        keyboardVisible := false;
      }
    }

    /** A click on cell (r, c) moves the cursor there. */
    method SelectCell(r: nat, c: nat)
      requires Valid() && puzzle.Some? && r < |grid| && c < |grid[r]|
      modifies this
      ensures Valid()
      ensures currentRow == r && currentCol == c
      ensures puzzle == old(puzzle) && grid == old(grid) && correctRows == old(correctRows)
      ensures status == old(status) && usage == old(usage)
      ensures layout == old(layout) && keyboardVisible == old(keyboardVisible)
    {
      currentRow, currentCol := r, c;
    }

    /** `handleCellChange` on the cursor row: the uppercased value goes into the cell and every cell
        with its number, then the cursor moves on. Nothing happens without a puzzle or once won. */
    method HandleCellChange(rowIdx: nat, colIdx: nat, val: string)
      requires Valid()
      requires puzzle.Some? && status.Playing? ==>
                 rowIdx == currentRow && rowIdx < |grid| && colIdx < |grid[rowIdx]|
      modifies this
      ensures Valid()
      ensures puzzle == old(puzzle) && correctRows == old(correctRows) && status == old(status)
      ensures usage == old(usage) && layout == old(layout) && keyboardVisible == old(keyboardVisible)
      ensures old(puzzle).None? || old(status).Won? ==> unchanged(this)
      ensures old(puzzle).Some? && old(status).Playing? ==>
                var rows := puzzle.value.rows;
                Shaped(rows, old(grid)) && rowIdx < |rows| && colIdx < |rows[rowIdx].tokens| &&
                grid == EditGrid(rows, old(grid), rowIdx, colIdx, Upper(val)) &&
                (currentRow, currentCol) == CursorAfter(rows, grid, rowIdx, colIdx, old(currentCol), Upper(val))
    {
      if status.Won? || puzzle.None? {
        return;
      }
      var p := puzzle.value;
      var upperVal := Upper(val);
      var newGrid := WriteCells(p.rows, grid, rowIdx, colIdx, upperVal);
      EditKeepsAgreement(p.rows, grid, rowIdx, colIdx, upperVal);
      CursorAfterInGrid(p.rows, newGrid, rowIdx, colIdx, currentCol, upperVal);
      grid := newGrid;
      if upperVal == "" {
        return;
      }
      var isRowCorrect := RowCorrect(newGrid[rowIdx], p.rows[rowIdx].tokens);
      if isRowCorrect {
        var target := FindOpenRow(p.rows, newGrid, rowIdx);
        if target.Some? {
          currentRow, currentCol := target.value.0, target.value.1;
        }
      } else {
        var nextEmpty := EmptyFrom(newGrid[rowIdx], colIdx + 1);
        if nextEmpty.Some? {
          currentCol := nextEmpty.value;
        } else {
          var firstEmptyInRow := EmptyFrom(newGrid[rowIdx], 0);
          if firstEmptyInRow.Some? {
            currentCol := firstEmptyInRow.value;
          }
        }
      }
    }

    /** `handleVirtualKey`: a key of the on-screen keyboard edits the cursor cell. */
    method HandleVirtualKey(key: string)
      requires Valid()
      requires puzzle.Some? && status.Playing? ==> |puzzle.value.rows| > 0
      modifies this
      ensures Valid()
      ensures puzzle == old(puzzle) && correctRows == old(correctRows) && status == old(status)
      ensures usage == old(usage) && layout == old(layout) && keyboardVisible == old(keyboardVisible)
      ensures old(puzzle).None? || old(status).Won? ==> unchanged(this)
      ensures old(puzzle).Some? && old(status).Playing? ==>
                var rows := puzzle.value.rows;
                Shaped(rows, old(grid)) && old(currentRow) < |rows| && old(currentCol) < |rows[old(currentRow)].tokens| &&
                grid == EditGrid(rows, old(grid), old(currentRow), old(currentCol), Upper(key)) &&
                (currentRow, currentCol) == CursorAfter(rows, grid, old(currentRow), old(currentCol), old(currentCol), Upper(key))
    {
      HandleCellChange(currentRow, currentCol, key);
    }

    /** The reset button: every cell emptied, everything else kept. */
    method ResetGrid()
      requires Valid() && puzzle.Some?
      modifies this
      ensures Valid()
      ensures puzzle == old(puzzle) && correctRows == old(correctRows) && status == old(status)
      ensures grid == EmptyGrid(puzzle.value.rows)
      ensures currentRow == old(currentRow) && currentCol == old(currentCol)
      ensures usage == old(usage) && layout == old(layout) && keyboardVisible == old(keyboardVisible)
    {
      EmptyGridAgrees(puzzle.value.rows);
      grid := EmptyGrid(puzzle.value.rows);
    }

    /** `handleBackspace`: clears the cells an edit of the cursor cell would write and moves the cursor
        one column left unless it is in the first column. Nothing happens without a puzzle or once won. */
    method HandleBackspace()
      requires Valid()
      requires puzzle.Some? && status.Playing? ==> |puzzle.value.rows| > 0
      modifies this
      ensures Valid()
      ensures puzzle == old(puzzle) && correctRows == old(correctRows) && status == old(status)
      ensures usage == old(usage) && layout == old(layout) && keyboardVisible == old(keyboardVisible)
      ensures old(puzzle).None? || old(status).Won? ==> unchanged(this)
      ensures old(puzzle).Some? && old(status).Playing? ==>
                var rows := puzzle.value.rows;
                Shaped(rows, old(grid)) && old(currentRow) < |rows| && old(currentCol) < |rows[old(currentRow)].tokens| &&
                grid == EditGrid(rows, old(grid), old(currentRow), old(currentCol), "") &&
                currentRow == old(currentRow) &&
                currentCol == (if old(currentCol) > 0 then old(currentCol) - 1 else 0)
    {
      if status.Won? || puzzle.None? {
        return;
      }
      var p := puzzle.value;
      var newGrid := WriteCells(p.rows, grid, currentRow, currentCol, "");
      EditKeepsAgreement(p.rows, grid, currentRow, currentCol, "");
      grid := newGrid;
      if currentCol > 0 {
        currentCol := currentCol - 1;
      }
    }

    /** `handleHint`: fills the cell `HintCell` picks with its token, as an edit would; nothing when
        every cell of the row holds its token. Nothing happens without a puzzle or once won. */
    method HandleHint()
      requires Valid()
      requires puzzle.Some? && status.Playing? ==> |puzzle.value.rows| > 0
      modifies this
      ensures Valid()
      ensures puzzle == old(puzzle) && correctRows == old(correctRows) && status == old(status)
      ensures usage == old(usage) && layout == old(layout) && keyboardVisible == old(keyboardVisible)
      ensures old(puzzle).None? || old(status).Won? ==> unchanged(this)
      ensures old(puzzle).Some? && old(status).Playing? ==>
                var rows := puzzle.value.rows;
                var r := old(currentRow);
                Shaped(rows, old(grid)) && r < |rows| && old(currentCol) < |rows[r].tokens| &&
                match HintCell(old(grid)[r], rows[r].tokens, old(currentCol))
                case None =>
                  grid == old(grid) && currentRow == old(currentRow) && currentCol == old(currentCol)
                case Some(i) =>
                  i < |rows[r].tokens| &&
                  grid == EditGrid(rows, old(grid), r, i, Upper(rows[r].tokens[i])) &&
                  (currentRow, currentCol) == CursorAfter(rows, grid, r, i, old(currentCol), Upper(rows[r].tokens[i]))
    {
      if puzzle.None? || status.Won? {
        return;
      }
      var p := puzzle.value;
      var solutionTokens := p.rows[currentRow].tokens;
      var currentVal := grid[currentRow][currentCol];
      var correctToken := solutionTokens[currentCol];
      if currentVal != correctToken {
        HandleCellChange(currentRow, currentCol, correctToken);
      } else {
        var row := grid[currentRow];
        FirstWrongFacts(row, solutionTokens, 0);
        var firstWrong := FirstWrong(row, solutionTokens, 0);
        if firstWrong.Some? {
          HandleCellChange(currentRow, firstWrong.value, solutionTokens[firstWrong.value]);
        }
      }
    }

    /** The effect at the end of a grid change: recompute the row flags; when they changed, store them
        and declare the game won if every row is correct. Nothing happens without a puzzle or once won. */
    method CheckRows()
      requires Valid()
      modifies this
      ensures Valid()
      ensures puzzle == old(puzzle) && grid == old(grid) && currentRow == old(currentRow)
      ensures currentCol == old(currentCol) && usage == old(usage)
      ensures layout == old(layout) && keyboardVisible == old(keyboardVisible)
      ensures old(puzzle).None? || old(status).Won? ==> unchanged(this)
      ensures old(puzzle).Some? && old(status).Playing? ==>
                var flags := CorrectFlags(puzzle.value.rows, grid);
                (flags != old(correctRows) ==> correctRows == flags && (status.Won? <==> AllTrue(flags))) &&
                (flags == old(correctRows) ==> correctRows == old(correctRows) && status == old(status))
      ensures old(puzzle).Some? && old(status).Playing? && |puzzle.value.rows| > 0 ==>
                (status.Won? <==> AllTrue(CorrectFlags(puzzle.value.rows, grid)))
    {
      if puzzle.None? || status.Won? {
        return;
      }
      var p := puzzle.value;
      var newCorrectRows := CorrectFlags(p.rows, grid);
      if newCorrectRows != correctRows {
        correctRows := newCorrectRows;
        if AllTrue(newCorrectRows) {
          status := Won;
        }
      }
    }
  }
}
