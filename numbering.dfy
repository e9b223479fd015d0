/** Stages 3 and 4 of services/puzzleGenerator.ts: numbering the distinct tokens with a shuffled 1..N,
    listing every cell in reading order, forcing the first occurrence of each token visible and
    revealing the other cells by the density coin. */
module Numbering {
  import opened Common
  import opened Tokenizer
  import opened Puzzle
  import opened RowBuilder

  // ---------------------------------------------------------------------------------------------
  // The default sort order of `Array.prototype.sort`: code units, lexicographically

  /** `a` sorts strictly before `b`: a proper prefix, or smaller at the first difference. */
  predicate LexLess(a: string, b: string) {
    if a == [] then b != []
    else if b == [] then false
    else if a[0] == b[0] then LexLess(a[1..], b[1..])
    else a[0] < b[0]
  }

  lemma {:induction false} LexLessIrreflexive(a: string)
    ensures !LexLess(a, a)
  {
    if a != [] {
      LexLessIrreflexive(a[1..]);
    }
  }

  lemma {:induction false} LexLessTransitive(a: string, b: string, c: string)
    requires LexLess(a, b) && LexLess(b, c)
    ensures LexLess(a, c)
  {
    if a != [] && b != [] && c != [] && a[0] == b[0] && b[0] == c[0] {
      LexLessTransitive(a[1..], b[1..], c[1..]);
    }
  }

  /** Distinct strings are always ordered one way or the other. */
  lemma {:induction false} LexLessTotal(a: string, b: string)
    requires a != b
    ensures LexLess(a, b) || LexLess(b, a)
  {
    if a != [] && b != [] && a[0] == b[0] {
      assert a == [a[0]] + a[1..] && b == [b[0]] + b[1..];
      LexLessTotal(a[1..], b[1..]);
    }
  }

  lemma {:induction false} LexLessAsymmetric(a: string, b: string)
    requires LexLess(a, b)
    ensures !LexLess(b, a)
  {
    if a != [] && b != [] && a[0] == b[0] {
      LexLessAsymmetric(a[1..], b[1..]);
    }
  }

  /** Strictly ascending in the sort order. */
  predicate StrictlySorted(s: seq<Token>) {
    forall i, j :: 0 <= i < j < |s| ==> LexLess(s[i], s[j])
  }

  /** Inserts `x` before the first element it sorts before. */
  function InsertToken(x: Token, s: seq<Token>): seq<Token> {
    if s == [] || LexLess(x, s[0]) then [x] + s else [s[0]] + InsertToken(x, s[1..])
  }

  /** `Array.from(allUsedTokens).sort()`, as an insertion sort. */
  function SortTokens(s: seq<Token>): seq<Token> {
    if s == [] then [] else InsertToken(s[0], SortTokens(s[1..]))
  }

  lemma {:induction false} InsertTokenMembers(x: Token, s: seq<Token>)
    ensures |InsertToken(x, s)| == |s| + 1
    ensures forall y :: y in InsertToken(x, s) <==> y == x || y in s
  {
    if s != [] && !LexLess(x, s[0]) {
      InsertTokenMembers(x, s[1..]);
      assert s == [s[0]] + s[1..];
    }
  }

  lemma {:induction false} InsertTokenSorted(x: Token, s: seq<Token>)
    requires StrictlySorted(s) && x !in s
    ensures StrictlySorted(InsertToken(x, s))
  {
    if s == [] {
    } else if LexLess(x, s[0]) {
      forall k | 0 < k < |s| ensures LexLess(x, s[k]) {
        LexLessTransitive(x, s[0], s[k]);
      }
      assert forall k :: 0 < k < |s| + 1 ==> ([x] + s)[k] == s[k - 1];
    } else {
      var t := InsertToken(x, s[1..]);
      assert s[1..] == s[1..] && x != s[0];
      InsertTokenSorted(x, s[1..]);
      InsertTokenMembers(x, s[1..]);
      LexLessTotal(x, s[0]);
      forall k | 0 <= k < |t| ensures LexLess(s[0], t[k]) {
        assert t[k] in t;
        if t[k] != x {
          var q :| 0 <= q < |s[1..]| && s[1..][q] == t[k];
          assert s[q + 1] == t[k];
        }
      }
      assert forall k :: 0 < k < |t| + 1 ==> ([s[0]] + t)[k] == t[k - 1];
    }
  }

  /** The sort keeps exactly the elements and, on distinct input, yields a strictly ascending list. */
  lemma {:induction false} SortTokensFacts(s: seq<Token>)
    ensures |SortTokens(s)| == |s|
    ensures forall y :: y in SortTokens(s) <==> y in s
    ensures Distinct(s) ==> StrictlySorted(SortTokens(s))
  {
    if s != [] {
      var tail := s[1..];
      assert s == [s[0]] + tail;
      SortTokensFacts(tail);
      InsertTokenMembers(s[0], SortTokens(tail));
      if Distinct(s) {
        assert Distinct(tail);
        assert s[0] !in tail;
        InsertTokenSorted(s[0], SortTokens(tail));
      }
    }
  }

  /** A strictly sorted list has no duplicates. */
  lemma SortedDistinct(s: seq<Token>)
    requires StrictlySorted(s)
    ensures Distinct(s)
  {
    forall i, j | 0 <= i < j < |s| ensures s[i] != s[j] {
      if s[i] == s[j] {
        LexLessIrreflexive(s[i]);
      }
    }
  }

  /** Two strictly sorted lists with the same elements are equal: the sort's result does not depend on
      the insertion order of the set it is given. */
  lemma {:induction false} SortedUnique(a: seq<Token>, b: seq<Token>)
    requires StrictlySorted(a) && StrictlySorted(b)
    requires forall x :: x in a <==> x in b
    ensures a == b
  {
    if a != [] {
      assert a[0] in a;
    }
    if b != [] {
      assert b[0] in b;
    }
    if a != [] && b != [] {
      if a[0] != b[0] {
        var i :| 0 <= i < |b| && b[i] == a[0];
        var j :| 0 <= j < |a| && a[j] == b[0];
        assert i > 0 && j > 0;
        LexLessAsymmetric(b[0], a[0]);
      }
      SortedDistinct(a);
      SortedDistinct(b);
      forall x ensures x in a[1..] <==> x in b[1..] {
        if x in a[1..] {
          var k :| 0 <= k < |a[1..]| && a[1..][k] == x;
          assert a[k + 1] == x && x != a[0];
          assert x in b;
          var q :| 0 <= q < |b| && b[q] == x;
          assert q != 0;
          assert b[1..][q - 1] == x;
        }
        if x in b[1..] {
          var k :| 0 <= k < |b[1..]| && b[1..][k] == x;
          assert b[k + 1] == x && x != b[0];
          assert x in a;
          var q :| 0 <= q < |a| && a[q] == x;
          assert q != 0;
          assert a[1..][q - 1] == x;
        }
      }
      SortedUnique(a[1..], b[1..]);
      assert a == [a[0]] + a[1..] && b == [b[0]] + b[1..];
    }
  }

  // ---------------------------------------------------------------------------------------------
  // The shuffled numbers

  /** `Array.from({ length: n }, (_, i) => i + 1)`. */
  function Range(n: nat): seq<nat> {
    seq(n, i => i + 1)
  }

  lemma RangeFacts(n: nat)
    ensures |Range(n)| == n && Distinct(Range(n))
    ensures forall x :: x in Range(n) <==> 1 <= x <= n
  {
    forall x | 1 <= x <= n ensures x in Range(n) {
      assert Range(n)[x - 1] == x;
    }
  }

  /** The element at index `k` of `xs` removed. */
  function RemoveAt(xs: seq<nat>, k: nat): seq<nat>
    requires k < |xs|
  {
    xs[..k] + xs[k + 1..]
  }

  /** `.sort(() => Math.random() - 0.5)`: some permutation. The oracle `pick` chooses, step by step,
      which remaining number comes next. */
  function Shuffle(xs: seq<nat>, pick: nat -> nat, step: nat): seq<nat>
    decreases |xs|
  {
    if xs == [] then []
    else
      var k := pick(step) % |xs|;
      [xs[k]] + Shuffle(RemoveAt(xs, k), pick, step + 1)
  }

  lemma RemoveAtFacts(xs: seq<nat>, k: nat)
    requires k < |xs| && Distinct(xs)
    ensures |RemoveAt(xs, k)| == |xs| - 1 && Distinct(RemoveAt(xs, k))
    ensures forall y :: y in RemoveAt(xs, k) <==> y in xs && y != xs[k]
  {
    var r := RemoveAt(xs, k);
    assert forall j :: 0 <= j < k ==> r[j] == xs[j];
    assert forall j :: k <= j < |r| ==> r[j] == xs[j + 1];
    forall y | y in xs && y != xs[k] ensures y in r {
      var j :| 0 <= j < |xs| && xs[j] == y;
      if j < k { assert r[j] == y; } else { assert r[j - 1] == y; }
    }
  }

  /** Shuffling a duplicate-free list yields a duplicate-free list of the same elements. */
  lemma {:induction false} ShuffleFacts(xs: seq<nat>, pick: nat -> nat, step: nat)
    requires Distinct(xs)
    ensures |Shuffle(xs, pick, step)| == |xs| && Distinct(Shuffle(xs, pick, step))
    ensures forall y :: y in Shuffle(xs, pick, step) <==> y in xs
    decreases |xs|
  {
    if xs != [] {
      var k := pick(step) % |xs|;
      var rest := RemoveAt(xs, k);
      RemoveAtFacts(xs, k);
      ShuffleFacts(rest, pick, step + 1);
      var r := Shuffle(xs, pick, step);
      assert r == [xs[k]] + Shuffle(rest, pick, step + 1);
      assert forall j :: 0 < j < |r| ==> r[j] == Shuffle(rest, pick, step + 1)[j - 1];
      assert forall j :: 0 < j < |r| ==> r[j] in Shuffle(rest, pick, step + 1);
    }
  }

  /** The shuffled numbers are 1..n, each exactly once. */
  lemma ShuffledRange(n: nat, pick: nat -> nat)
    ensures var s := Shuffle(Range(n), pick, 0);
            |s| == n && Distinct(s) && forall x :: x in s <==> 1 <= x <= n
  {
    RangeFacts(n);
    ShuffleFacts(Range(n), pick, 0);
  }

  // ---------------------------------------------------------------------------------------------
  // The two records

  /** `tokenToNumber` and `numberToToken` as the `forEach` over the sorted tokens leaves them: token
      `tokens[k]` gets number `numbers[k]` and back. */
  ghost predicate IsNumbering(tokens: seq<Token>, numbers: seq<nat>, t2n: map<Token, nat>, n2t: map<nat, Token>)
    requires |numbers| == |tokens|
  {
    (forall t :: t in t2n <==> t in tokens) &&
    (forall n :: n in n2t <==> n in numbers) &&
    (forall k :: 0 <= k < |tokens| ==> tokens[k] in t2n && t2n[tokens[k]] == numbers[k]) &&
    (forall k :: 0 <= k < |numbers| ==> numbers[k] in n2t && n2t[numbers[k]] == tokens[k])
  }

  /** The `uniqueTokens.forEach` loop. */
  method AssignNumbers(tokens: seq<Token>, numbers: seq<nat>) returns (t2n: map<Token, nat>, n2t: map<nat, Token>)
    requires |numbers| == |tokens| && Distinct(tokens) && Distinct(numbers)
    ensures IsNumbering(tokens, numbers, t2n, n2t)
  {
    t2n := map[];
    n2t := map[];
    for index := 0 to |tokens|
      invariant forall t :: t in t2n <==> t in tokens[..index]
      invariant forall n :: n in n2t <==> n in numbers[..index]
      invariant forall k :: 0 <= k < index ==> tokens[k] in t2n && t2n[tokens[k]] == numbers[k]
      invariant forall k :: 0 <= k < index ==> numbers[k] in n2t && n2t[numbers[k]] == tokens[k]
    {
      var token := tokens[index];
      var num := numbers[index];
      assert tokens[..index + 1] == tokens[..index] + [token];
      assert numbers[..index + 1] == numbers[..index] + [num];
      t2n := t2n[token := num];
      n2t := n2t[num := token];
    }
    assert tokens[..|tokens|] == tokens;
    assert numbers[..|numbers|] == numbers;
  }

  /** The records are mutual inverses, and numbers come from `numbers`. */
  lemma NumberingIsBijection(tokens: seq<Token>, numbers: seq<nat>, t2n: map<Token, nat>, n2t: map<nat, Token>)
    requires |numbers| == |tokens| && IsNumbering(tokens, numbers, t2n, n2t)
    ensures forall t :: t in t2n ==> t2n[t] in n2t && n2t[t2n[t]] == t
    ensures forall n :: n in n2t ==> n2t[n] in t2n && t2n[n2t[n]] == n
    ensures forall t :: t in t2n ==> t2n[t] in numbers
  {
    forall t | t in t2n ensures t2n[t] in n2t && n2t[t2n[t]] == t && t2n[t] in numbers {
      var k :| 0 <= k < |tokens| && tokens[k] == t;
      assert numbers[k] in numbers;
    }
    forall n | n in n2t ensures n2t[n] in t2n && t2n[n2t[n]] == n {
      var k :| 0 <= k < |numbers| && numbers[k] == n;
    }
  }

  /** Each record has one entry per token. */
  lemma NumberingCounts(tokens: seq<Token>, numbers: seq<nat>, t2n: map<Token, nat>, n2t: map<nat, Token>)
    requires |numbers| == |tokens| && Distinct(tokens) && Distinct(numbers)
    requires IsNumbering(tokens, numbers, t2n, n2t)
    ensures |t2n| == |tokens| && |n2t| == |tokens|
  {
    assert t2n.Keys == Elements(tokens);
    assert n2t.Keys == Elements(numbers);
    DistinctCardinality(tokens);
    DistinctCardinality(numbers);
    assert |t2n| == |t2n.Keys|;
    assert |n2t| == |n2t.Keys|;
  }

  // ---------------------------------------------------------------------------------------------
  // Cells in reading order (`allPositions`)

  /** One entry of `allPositions`: row index, column index and token. */
  datatype Cell = Cell(row: nat, col: nat, token: Token)

  /** The cells of row `r`, left to right. */
  function RowCells(r: nat, tokens: seq<Token>): seq<Cell> {
    seq(|tokens|, c requires 0 <= c < |tokens| => Cell(r, c, tokens[c]))
  }

  /** Reference definition of `allPositions`: the cells of every row, row after row. */
  function Positions(rows: seq<RawRow>): seq<Cell> {
    if rows == [] then [] else Positions(rows[..|rows| - 1]) + RowCells(|rows| - 1, rows[|rows| - 1].tokens)
  }

  /** The index of the first cell of row `r` in reading order. */
  function Offset(rows: seq<RawRow>, r: nat): nat
    requires r <= |rows|
  {
    |Positions(rows[..r])|
  }

  /** The cell at column `c` of row `r`, in reading order. */
  predicate CellAt(positions: seq<Cell>, idx: nat, r: nat, c: nat) {
    idx < |positions| && positions[idx].row == r && positions[idx].col == c
  }

  /** The nested `forEach` building `allPositions`. */
  method CollectPositions(rows: seq<RawRow>) returns (positions: seq<Cell>)
    ensures positions == Positions(rows)
  {
    positions := [];
    for r := 0 to |rows|
      invariant positions == Positions(rows[..r])
    {
      var tokens := rows[r].tokens;
      for c := 0 to |tokens|
        invariant positions == Positions(rows[..r]) + RowCells(r, tokens[..c])
      {
        assert RowCells(r, tokens[..c + 1]) == RowCells(r, tokens[..c]) + [Cell(r, c, tokens[c])];
        positions := positions + [Cell(r, c, tokens[c])];
      }
      assert tokens[..|tokens|] == tokens;
      assert rows[..r + 1][..r] == rows[..r];
    }
    assert rows[..|rows|] == rows;
  }

  /** A prefix of the rows lists a prefix of the cells. */
  lemma {:induction false} PositionsPrefix(rows: seq<RawRow>, r: nat)
    requires r <= |rows|
    ensures |Positions(rows[..r])| <= |Positions(rows)|
    ensures Positions(rows[..r]) == Positions(rows)[..|Positions(rows[..r])|]
    decreases |rows| - r
  {
    if r < |rows| {
      var init := rows[..|rows| - 1];
      assert init[..r] == rows[..r];
      PositionsPrefix(init, r);
    } else {
      assert rows[..r] == rows;
    }
  }

  /** Reading order places cell (r, c) at `Offset(rows, r) + c`. */
  lemma PositionOfCell(rows: seq<RawRow>, r: nat, c: nat)
    requires r < |rows| && c < |rows[r].tokens|
    ensures Offset(rows, r) + c < |Positions(rows)|
    ensures Positions(rows)[Offset(rows, r) + c] == Cell(r, c, rows[r].tokens[c])
  {
    var prefix := rows[..r + 1];
    assert prefix[..r] == rows[..r];
    assert Positions(prefix) == Positions(rows[..r]) + RowCells(r, rows[r].tokens);
    PositionsPrefix(rows, r + 1);
  }

  /** Every listed cell is a real cell of its row, at the index reading order gives it. */
  lemma {:induction false} CellOfPosition(rows: seq<RawRow>, idx: nat)
    requires idx < |Positions(rows)|
    ensures var p := Positions(rows)[idx];
            p.row < |rows| && p.col < |rows[p.row].tokens| &&
            p.token == rows[p.row].tokens[p.col] && idx == Offset(rows, p.row) + p.col
  {
    var init := rows[..|rows| - 1];
    var last := |rows| - 1;
    assert Positions(rows) == Positions(init) + RowCells(last, rows[last].tokens);
    if idx < |Positions(init)| {
      CellOfPosition(init, idx);
      var p := Positions(init)[idx];
      assert init[..p.row] == rows[..p.row];
    } else {
      assert rows[..last] == init;
    }
  }

  /** Cell (r, c) is where index `Offset(rows, r) + c` points, and nowhere else. */
  lemma CellAtIff(rows: seq<RawRow>, idx: nat, r: nat, c: nat)
    requires r < |rows| && c < |rows[r].tokens|
    ensures CellAt(Positions(rows), idx, r, c) <==> idx == Offset(rows, r) + c
  {
    PositionOfCell(rows, r, c);
    if idx < |Positions(rows)| {
      CellOfPosition(rows, idx);
    }
  }

  // ---------------------------------------------------------------------------------------------
  // Forced cells (`forcedNumbers`)

  /** `allPositions.find(p => p.token === token)` followed by `indexOf`: the first index from `from` on
      whose token is `token`. */
  function FindFrom(positions: seq<Cell>, token: Token, from: nat): Option<nat>
    decreases |positions| - from
  {
    if from >= |positions| then None
    else if positions[from].token == token then Some(from)
    else FindFrom(positions, token, from + 1)
  }

  function Find(positions: seq<Cell>, token: Token): Option<nat> {
    FindFrom(positions, token, 0)
  }

  /** `idx` holds the first cell in reading order with its token. */
  predicate IsFirstOccurrence(positions: seq<Cell>, idx: nat) {
    idx < |positions| && forall j :: 0 <= j < idx ==> positions[j].token != positions[idx].token
  }

  lemma {:induction false} FindFromFacts(positions: seq<Cell>, token: Token, from: nat)
    ensures match FindFrom(positions, token, from)
            case None => forall j :: from <= j < |positions| ==> positions[j].token != token
            case Some(k) => from <= k < |positions| && positions[k].token == token &&
                            forall j :: from <= j < k ==> positions[j].token != token
    decreases |positions| - from
  {
    if from < |positions| && positions[from].token != token {
      FindFromFacts(positions, token, from + 1);
    }
  }

  /** The search finds exactly the first occurrence of the token. */
  lemma FindIsFirst(positions: seq<Cell>, token: Token, k: nat)
    ensures Find(positions, token) == Some(k) <==> IsFirstOccurrence(positions, k) && positions[k].token == token
  {
    FindFromFacts(positions, token, 0);
    if IsFirstOccurrence(positions, k) && positions[k].token == token {
      match Find(positions, token)
      case None =>
      case Some(q) =>
        assert q == k;
    }
  }

  /** The search succeeds exactly for the tokens that occur. */
  lemma FindNone(positions: seq<Cell>, token: Token)
    ensures Find(positions, token).None? <==> forall j :: 0 <= j < |positions| ==> positions[j].token != token
  {
    FindFromFacts(positions, token, 0);
  }

  /** The index a token forces, if it occurs in some row. */
  predicate ForcedBy(positions: seq<Cell>, tokens: seq<Token>, k: nat) {
    exists t :: t in tokens && Find(positions, t) == Some(k)
  }

  /** The `uniqueTokens.forEach` loop filling `forcedNumbers` (indices are kept as numbers, not as
      their decimal strings). */
  method ForceFirstOccurrences(tokens: seq<Token>, positions: seq<Cell>) returns (forced: set<nat>)
    ensures forall k :: k in forced <==> ForcedBy(positions, tokens, k)
  {
    forced := {};
    for i := 0 to |tokens|
      invariant forall k :: k in forced <==> ForcedBy(positions, tokens[..i], k)
    {
      var token := tokens[i];
      assert tokens[..i + 1] == tokens[..i] + [token];
      var pos := Find(positions, token);
      if pos.Some? {
        forced := forced + {pos.value};
      }
      forall k ensures k in forced <==> ForcedBy(positions, tokens[..i + 1], k) {
        if ForcedBy(positions, tokens[..i + 1], k) {
          var t :| t in tokens[..i + 1] && Find(positions, t) == Some(k);
          if t != token {
            assert t in tokens[..i];
          }
        }
        if k in forced && (pos.None? || k != pos.value) {
          var t :| t in tokens[..i] && Find(positions, t) == Some(k);
          assert t in tokens[..i + 1];
        }
      }
    }
    assert tokens[..|tokens|] == tokens;
  }

  /** When every cell's token is among the numbered tokens, exactly the first occurrences are forced. */
  lemma ForcedAreFirstOccurrences(tokens: seq<Token>, positions: seq<Cell>, k: nat)
    requires forall j :: 0 <= j < |positions| ==> positions[j].token in tokens
    ensures ForcedBy(positions, tokens, k) <==> IsFirstOccurrence(positions, k)
  {
    if ForcedBy(positions, tokens, k) {
      var t :| t in tokens && Find(positions, t) == Some(k);
      FindIsFirst(positions, t, k);
    }
    if IsFirstOccurrence(positions, k) {
      FindIsFirst(positions, positions[k].token, k);
    }
  }

  // ---------------------------------------------------------------------------------------------
  // Cell numbering (`tokenNumbers`)

  /** `Array.from(forcedNumbers).some(...)`: some forced index points at cell (r, c). */
  predicate IsForced(forced: set<nat>, positions: seq<Cell>, r: nat, c: nat) {
    exists idx :: idx in forced && CellAt(positions, idx, r, c)
  }

  /** The number shown in each cell of one row; `coin(r, c)` is the outcome of the density coin. */
  function NumberCells(r: nat, tokens: seq<Token>, t2n: map<Token, nat>, forced: set<nat>,
                       positions: seq<Cell>, coin: (nat, nat) -> bool): seq<Option<nat>>
    requires forall t :: t in tokens ==> t in t2n
  {
    seq(|tokens|, c requires 0 <= c < |tokens| =>
      if IsForced(forced, positions, r, c) || coin(r, c) then Some(t2n[tokens[c]]) else None)
  }

  /** Row `r` with its cell numbers (`{ ...r, tokenNumbers }`). */
  function NumberRow(r: nat, raw: RawRow, t2n: map<Token, nat>, forced: set<nat>, positions: seq<Cell>,
                     coin: (nat, nat) -> bool): PuzzleRow
    requires forall t :: t in raw.tokens ==> t in t2n
  {
    PuzzleRow(raw.position, raw.word, raw.tokens, NumberCells(r, raw.tokens, t2n, forced, positions, coin),
              raw.definition, raw.solutionIndex)
  }

  /** `rawRows.map(...)`: every raw row with its cell numbers. */
  function NumberRows(raws: seq<RawRow>, t2n: map<Token, nat>, forced: set<nat>, positions: seq<Cell>,
                      coin: (nat, nat) -> bool): seq<PuzzleRow>
    requires forall r, t :: 0 <= r < |raws| && t in raws[r].tokens ==> t in t2n
  {
    seq(|raws|, r requires 0 <= r < |raws| => NumberRow(r, raws[r], t2n, forced, positions, coin))
  }

  /** What each numbered row holds: the raw row's fields, one entry per token, each entry either empty
      or the token's number, a number wherever the cell is forced or the coin says so and nowhere
      else. */
  lemma NumberRowsFacts(raws: seq<RawRow>, t2n: map<Token, nat>, forced: set<nat>, positions: seq<Cell>,
                        coin: (nat, nat) -> bool, r: nat, c: nat)
    requires forall r, t :: 0 <= r < |raws| && t in raws[r].tokens ==> t in t2n
    requires r < |raws|
    ensures var row := NumberRows(raws, t2n, forced, positions, coin)[r];
            |NumberRows(raws, t2n, forced, positions, coin)| == |raws| &&
            row.position == raws[r].position && row.word == raws[r].word && row.tokens == raws[r].tokens &&
            row.definition == raws[r].definition && row.solutionIndex == raws[r].solutionIndex &&
            |row.tokenNumbers| == |row.tokens|
    ensures var row := NumberRows(raws, t2n, forced, positions, coin)[r];
            c < |row.tokens| ==>
              (row.tokenNumbers[c].Some? <==> IsForced(forced, positions, r, c) || coin(r, c)) &&
              (row.tokenNumbers[c].Some? ==> row.tokenNumbers[c].value == t2n[row.tokens[c]])
  {
  }

  /** The first cell in reading order of every row token shows its number, whatever the coin says. */
  lemma FirstOccurrenceShown(raws: seq<RawRow>, tokens: seq<Token>, t2n: map<Token, nat>,
                             coin: (nat, nat) -> bool, forced: set<nat>, r: nat, c: nat)
    requires forall r, t :: 0 <= r < |raws| && t in raws[r].tokens ==> t in t2n && t in tokens
    requires forall k :: k in forced <==> ForcedBy(Positions(raws), tokens, k)
    requires r < |raws| && c < |raws[r].tokens|
    requires IsFirstOccurrence(Positions(raws), Offset(raws, r) + c)
    ensures NumberRows(raws, t2n, forced, Positions(raws), coin)[r].tokenNumbers[c] == Some(t2n[raws[r].tokens[c]])
  {
    var positions := Positions(raws);
    var idx := Offset(raws, r) + c;
    forall j | 0 <= j < |positions| ensures positions[j].token in tokens {
      CellOfPosition(raws, j);
      assert positions[j].token in raws[positions[j].row].tokens;
    }
    ForcedAreFirstOccurrences(tokens, positions, idx);
    ForcedIffIndex(raws, forced, r, c);
    NumberRowsFacts(raws, t2n, forced, positions, coin, r, c);
  }

  /** Cell (r, c) is forced exactly when its reading-order index is. */
  lemma ForcedIffIndex(raws: seq<RawRow>, forced: set<nat>, r: nat, c: nat)
    requires r < |raws| && c < |raws[r].tokens|
    ensures IsForced(forced, Positions(raws), r, c) <==> Offset(raws, r) + c in forced
  {
    forall i ensures CellAt(Positions(raws), i, r, c) <==> i == Offset(raws, r) + c {
      CellAtIff(raws, i, r, c);
    }
  }

  /** A forced cell is a first occurrence: with a coin that never reveals, exactly the first
      occurrences show a number. */
  lemma ForcedOnlyFirst(raws: seq<RawRow>, tokens: seq<Token>, forced: set<nat>, r: nat, c: nat)
    requires forall r, t :: 0 <= r < |raws| && t in raws[r].tokens ==> t in tokens
    requires forall k :: k in forced <==> ForcedBy(Positions(raws), tokens, k)
    requires r < |raws| && c < |raws[r].tokens|
    ensures IsForced(forced, Positions(raws), r, c) <==> IsFirstOccurrence(Positions(raws), Offset(raws, r) + c)
  {
    var positions := Positions(raws);
    var idx := Offset(raws, r) + c;
    forall j | 0 <= j < |positions| ensures positions[j].token in tokens {
      CellOfPosition(raws, j);
      assert positions[j].token in raws[positions[j].row].tokens;
    }
    ForcedAreFirstOccurrences(tokens, positions, idx);
    ForcedIffIndex(raws, forced, r, c);
  }

  /** With a coin that always reveals (a density of at least 1), no cell is empty. */
  lemma FullDensityRevealsAll(raws: seq<RawRow>, t2n: map<Token, nat>, forced: set<nat>, positions: seq<Cell>,
                              coin: (nat, nat) -> bool, r: nat, c: nat)
    requires forall r, t :: 0 <= r < |raws| && t in raws[r].tokens ==> t in t2n
    requires forall r, c :: coin(r, c)
    requires r < |raws| && c < |raws[r].tokens|
    ensures NumberRows(raws, t2n, forced, positions, coin)[r].tokenNumbers[c] == Some(t2n[raws[r].tokens[c]])
  {
    NumberRowsFacts(raws, t2n, forced, positions, coin, r, c);
  }

  // ---------------------------------------------------------------------------------------------
  // Reading order in row and column terms

  /** Cell (r2, c2) comes before cell (r, c) in reading order: an earlier row, or the same row further
      left. */
  predicate Before(r2: nat, c2: nat, r: nat, c: nat) {
    r2 < r || (r2 == r && c2 < c)
  }

  /** No cell before (r, c) holds the token of (r, c). */
  predicate FirstInReadingOrder(raws: seq<RawRow>, r: nat, c: nat)
    requires r < |raws| && c < |raws[r].tokens|
  {
    forall r2, c2 :: 0 <= r2 < |raws| && 0 <= c2 < |raws[r2].tokens| && Before(r2, c2, r, c) ==>
      raws[r2].tokens[c2] != raws[r].tokens[c]
  }

  lemma OffsetStep(rows: seq<RawRow>, r: nat)
    requires r < |rows|
    ensures Offset(rows, r + 1) == Offset(rows, r) + |rows[r].tokens|
  {
    var prefix := rows[..r + 1];
    assert prefix[..r] == rows[..r];
    assert Positions(prefix) == Positions(rows[..r]) + RowCells(r, rows[r].tokens);
  }

  lemma {:induction false} OffsetMonotone(rows: seq<RawRow>, a: nat, b: nat)
    requires a <= b <= |rows|
    ensures Offset(rows, a) <= Offset(rows, b)
    decreases b - a
  {
    if a < b {
      OffsetStep(rows, a);
      OffsetMonotone(rows, a + 1, b);
    }
  }

  /** Reading-order indices compare as the cells they denote do. */
  lemma ReadingOrder(rows: seq<RawRow>, r2: nat, c2: nat, r: nat, c: nat)
    requires r < |rows| && c < |rows[r].tokens| && r2 < |rows| && c2 < |rows[r2].tokens|
    ensures Offset(rows, r2) + c2 < Offset(rows, r) + c <==> Before(r2, c2, r, c)
  {
    if r2 < r {
      OffsetStep(rows, r2);
      OffsetMonotone(rows, r2 + 1, r);
    } else if r < r2 {
      OffsetStep(rows, r);
      OffsetMonotone(rows, r + 1, r2);
    }
  }

  /** The first occurrence in the cell list is the first occurrence by rows and columns. */
  lemma FirstOccurrenceIff(raws: seq<RawRow>, r: nat, c: nat)
    requires r < |raws| && c < |raws[r].tokens|
    ensures IsFirstOccurrence(Positions(raws), Offset(raws, r) + c) <==> FirstInReadingOrder(raws, r, c)
  {
    var positions := Positions(raws);
    var idx := Offset(raws, r) + c;
    PositionOfCell(raws, r, c);
    if IsFirstOccurrence(positions, idx) {
      forall r2, c2 | 0 <= r2 < |raws| && 0 <= c2 < |raws[r2].tokens| && Before(r2, c2, r, c)
        ensures raws[r2].tokens[c2] != raws[r].tokens[c]
      {
        ReadingOrder(raws, r2, c2, r, c);
        PositionOfCell(raws, r2, c2);
      }
    }
    if FirstInReadingOrder(raws, r, c) {
      forall j | 0 <= j < idx ensures positions[j].token != positions[idx].token {
        CellOfPosition(raws, j);
        ReadingOrder(raws, positions[j].row, positions[j].col, r, c);
      }
    }
  }

  /** A token that occurs in some row has a first occurrence in reading order. */
  lemma FirstOccurrenceExists(raws: seq<RawRow>, r0: nat, c0: nat) returns (r: nat, c: nat)
    requires r0 < |raws| && c0 < |raws[r0].tokens|
    ensures r < |raws| && c < |raws[r].tokens| && raws[r].tokens[c] == raws[r0].tokens[c0]
    ensures FirstInReadingOrder(raws, r, c)
  {
    var positions := Positions(raws);
    var t := raws[r0].tokens[c0];
    PositionOfCell(raws, r0, c0);
    FindNone(positions, t);
    var k := Find(positions, t).value;
    FindIsFirst(positions, t, k);
    CellOfPosition(raws, k);
    r, c := positions[k].row, positions[k].col;
    FirstOccurrenceIff(raws, r, c);
  }

  /** A row without its cell numbers. */
  function Raw(row: PuzzleRow): RawRow {
    RawRow(row.position, row.word, row.tokens, row.definition, row.solutionIndex)
  }

  function RawRows(rows: seq<PuzzleRow>): seq<RawRow> {
    seq(|rows|, k requires 0 <= k < |rows| => Raw(rows[k]))
  }

  /** Numbering only adds the cell numbers: stripping them gives the raw rows back. */
  lemma NumberRowsStrip(raws: seq<RawRow>, t2n: map<Token, nat>, forced: set<nat>, positions: seq<Cell>,
                        coin: (nat, nat) -> bool)
    requires forall r, t :: 0 <= r < |raws| && t in raws[r].tokens ==> t in t2n
    ensures RawRows(NumberRows(raws, t2n, forced, positions, coin)) == raws
  {
    var rows := NumberRows(raws, t2n, forced, positions, coin);
    forall k | 0 <= k < |raws| ensures RawRows(rows)[k] == raws[k] {
      NumberRowsFacts(raws, t2n, forced, positions, coin, k, 0);
    }
  }
}
