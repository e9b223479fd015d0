/** Stage 2 of services/puzzleGenerator.ts: one crossing row per solution position, chosen from the
    least-used unused candidates by how close their crossing letter sits to the word's centre. */
module RowBuilder {
  import opened Common
  import opened Text
  import opened Tokenizer
  import opened Puzzle
  import opened Selection

  /** A row before numbering (the `rawRows` entries). */
  datatype RawRow = RawRow(position: nat, word: string, tokens: seq<Token>, definition: string, solutionIndex: nat)

  /** A least-used candidate with its centre score and best crossing index (`scoredCandidates`). */
  datatype Scored = Scored(entry: WordEntry, score: nat, bestIdx: nat, tokens: seq<Token>)

  // ---------------------------------------------------------------------------------------------
  // Distance to the centre

  /** Twice the distance `|idx - (len-1)/2|`, so that the half-integer centre stays integral; doubling
      keeps every comparison and the sort order unchanged. */
  function Dist(idx: int, len: int): nat {
    var d := 2 * idx - (len - 1);
    if d < 0 then -d else d
  }

  /** Token `target` sits at index `j`. */
  predicate IsOccurrence(tokens: seq<Token>, target: Token, j: int) {
    0 <= j < |tokens| && tokens[j] == target
  }

  /** The indices at which `target` occurs, from `from` on, in increasing order (`indices`). */
  function OccurrencesFrom(tokens: seq<Token>, target: Token, from: nat): (r: seq<nat>)
    ensures forall k :: 0 <= k < |r| ==> from <= r[k] && IsOccurrence(tokens, target, r[k])
    ensures forall a, b :: 0 <= a < b < |r| ==> r[a] < r[b]
    ensures forall j :: from <= j && IsOccurrence(tokens, target, j) ==> j in r
    decreases |tokens| - from
  {
    if from >= |tokens| then []
    else if tokens[from] == target then [from] + OccurrencesFrom(tokens, target, from + 1)
    else OccurrencesFrom(tokens, target, from + 1)
  }

  function Occurrences(tokens: seq<Token>, target: Token): (r: seq<nat>)
    ensures forall k :: 0 <= k < |r| ==> IsOccurrence(tokens, target, r[k])
    ensures forall a, b :: 0 <= a < b < |r| ==> r[a] < r[b]
    ensures forall j :: IsOccurrence(tokens, target, j) ==> j in r
    ensures target in tokens ==> |r| > 0
  {
    assert target in tokens ==> exists j :: 0 <= j < |tokens| && tokens[j] == target && IsOccurrence(tokens, target, j);
    OccurrencesFrom(tokens, target, 0)
  }

  /** `b` is the occurrence of `target` nearest the centre, and the earliest such occurrence. */
  predicate IsClosest(tokens: seq<Token>, target: Token, b: nat) {
    IsOccurrence(tokens, target, b) &&
    (forall j :: 0 <= j < |tokens| && IsOccurrence(tokens, target, j) ==> Dist(b, |tokens|) <= Dist(j, |tokens|)) &&
    (forall j :: 0 <= j < b && IsOccurrence(tokens, target, j) ==> Dist(b, |tokens|) < Dist(j, |tokens|))
  }

  /** At most one index is closest. */
  lemma ClosestUnique(tokens: seq<Token>, target: Token, b1: nat, b2: nat)
    requires IsClosest(tokens, target, b1) && IsClosest(tokens, target, b2)
    ensures b1 == b2
  {
  }

  /** The index of the first occurrence of `target` at or after `from` (`|tokens|` when there is none). */
  function FirstFrom(tokens: seq<Token>, target: Token, from: nat): nat
    decreases |tokens| - from
  {
    if from >= |tokens| || tokens[from] == target then from else FirstFrom(tokens, target, from + 1)
  }

  /** Reference definition of the scan: walk on from `from`, taking an occurrence only when it is
      strictly nearer the centre than `best`. */
  function ScanFrom(tokens: seq<Token>, target: Token, from: nat, best: nat): nat
    decreases |tokens| - from
  {
    if from >= |tokens| then best
    else if tokens[from] == target && Dist(from, |tokens|) < Dist(best, |tokens|) then ScanFrom(tokens, target, from + 1, from)
    else ScanFrom(tokens, target, from + 1, best)
  }

  /** The best crossing index: the scan started at the first occurrence. */
  function Closest(tokens: seq<Token>, target: Token): nat {
    var first := FirstFrom(tokens, target, 0);
    ScanFrom(tokens, target, first + 1, first)
  }

  lemma {:induction false} FirstFromFirst(tokens: seq<Token>, target: Token, from: nat)
    requires exists j :: from <= j && IsOccurrence(tokens, target, j)
    ensures var f := FirstFrom(tokens, target, from);
            from <= f && IsOccurrence(tokens, target, f) &&
            forall j :: from <= j < f ==> !IsOccurrence(tokens, target, j)
    decreases |tokens| - from
  {
    if tokens[from] != target {
      var j :| from <= j && IsOccurrence(tokens, target, j);
      assert j != from;
      FirstFromFirst(tokens, target, from + 1);
    }
  }

  /** Scanning from `from` with a best index that beats every occurrence before `from` (and strictly the
      earlier ones) ends at the closest occurrence. */
  lemma {:induction false} ScanFromClosest(tokens: seq<Token>, target: Token, from: nat, best: nat)
    requires best < from <= |tokens| && IsOccurrence(tokens, target, best)
    requires forall j :: 0 <= j < from && IsOccurrence(tokens, target, j) ==> Dist(best, |tokens|) <= Dist(j, |tokens|)
    requires forall j :: 0 <= j < best && IsOccurrence(tokens, target, j) ==> Dist(best, |tokens|) < Dist(j, |tokens|)
    ensures IsClosest(tokens, target, ScanFrom(tokens, target, from, best))
    decreases |tokens| - from
  {
    if from < |tokens| {
      var n := |tokens|;
      if tokens[from] == target && Dist(from, n) < Dist(best, n) {
        ScanFromClosest(tokens, target, from + 1, from);
      } else {
        ScanFromClosest(tokens, target, from + 1, best);
      }
    }
  }

  /** The scan picks the occurrence nearest the centre, the earliest on a tie. */
  lemma ClosestIsClosest(tokens: seq<Token>, target: Token)
    requires target in tokens
    ensures IsClosest(tokens, target, Closest(tokens, target))
  {
    var j :| 0 <= j < |tokens| && tokens[j] == target;
    assert IsOccurrence(tokens, target, j);
    FirstFromFirst(tokens, target, 0);
    var first := FirstFrom(tokens, target, 0);
    ScanFromClosest(tokens, target, first + 1, first);
  }

  /** An entry of the occurrence list that no entry beats, and no earlier entry ties, is the closest. */
  lemma MinimalOccurrence(tokens: seq<Token>, target: Token, indices: seq<nat>, at: nat)
    requires indices == Occurrences(tokens, target) && at < |indices|
    requires forall q :: 0 <= q < |indices| ==> Dist(indices[at], |tokens|) <= Dist(indices[q], |tokens|)
    requires forall q :: 0 <= q < at ==> Dist(indices[at], |tokens|) < Dist(indices[q], |tokens|)
    ensures IsClosest(tokens, target, indices[at])
  {
    var best := indices[at];
    forall j | j < best && IsOccurrence(tokens, target, j)
      ensures Dist(best, |tokens|) < Dist(j, |tokens|)
    {
      var q :| 0 <= q < |indices| && indices[q] == j;
      assert q < at;
    }
    forall j | IsOccurrence(tokens, target, j)
      ensures Dist(best, |tokens|) <= Dist(j, |tokens|)
    {
      var q :| 0 <= q < |indices| && indices[q] == j;
    }
  }

  /** The `for (const idx of indices)` loop: it starts from the first occurrence and replaces the best
      index only on a strictly smaller distance. */
  method BestOccurrence(tokens: seq<Token>, target: Token) returns (best: nat)
    requires target in tokens
    ensures IsClosest(tokens, target, best)
    ensures best == Closest(tokens, target)
  {
    var indices := Occurrences(tokens, target);
    var len := |tokens|;
    best := indices[0];
    var minDistance := Dist(indices[0], len);
    ghost var at := 0;
    for k := 0 to |indices|
      invariant 0 <= at < |indices| && best == indices[at]
      invariant at < k || at == 0
      invariant minDistance == Dist(best, len)
      invariant forall q :: 0 <= q < k ==> minDistance <= Dist(indices[q], len)
      invariant forall q :: 0 <= q < at ==> minDistance < Dist(indices[q], len)
    {
      var idx := indices[k];
      if Dist(idx, len) < minDistance {
        minDistance := Dist(idx, len);
        best := idx;
        at := k;
      }
    }
    MinimalOccurrence(tokens, target, indices, at);
    ClosestIsClosest(tokens, target);
    ClosestUnique(tokens, target, best, Closest(tokens, target));
  }

  // ---------------------------------------------------------------------------------------------
  // Scoring and the stable sort

  /** One scored candidate: its tokens, its best crossing index and that index's distance. */
  function Score(e: WordEntry, target: Token): Scored {
    var tokens := Tokenize(e.word);
    var b := Closest(tokens, target);
    Scored(e, Dist(b, |tokens|), b, tokens)
  }

  /** What a scored candidate holds. */
  lemma ScoreFacts(e: WordEntry, target: Token)
    requires HasToken(e, target)
    ensures var s := Score(e, target);
            s.entry == e && s.tokens == Tokenize(e.word) &&
            IsClosest(s.tokens, target, s.bestIdx) && s.score == Dist(s.bestIdx, |s.tokens|)
  {
    ClosestIsClosest(Tokenize(e.word), target);
  }

  /** The scored candidates, in the order of `ws` (`strictCandidates.map(...)`). */
  function Scores(ws: seq<WordEntry>, target: Token): seq<Scored>
    requires forall w :: w in ws ==> HasToken(w, target)
  {
    if ws == [] then [] else [Score(ws[0], target)] + Scores(ws[1..], target)
  }

  /** The map keeps the length and scores each word in place. */
  lemma {:induction false} ScoresAt(ws: seq<WordEntry>, target: Token)
    requires forall w :: w in ws ==> HasToken(w, target)
    ensures |Scores(ws, target)| == |ws|
    ensures forall k :: 0 <= k < |ws| ==> Scores(ws, target)[k] == Score(ws[k], target)
  {
    if ws != [] {
      assert forall w :: w in ws[1..] ==> w in ws;
      ScoresAt(ws[1..], target);
    }
  }

  /** The body of the map: tokenise the word and find its best crossing index. */
  method ScoreOne(e: WordEntry, target: Token) returns (s: Scored)
    requires HasToken(e, target)
    ensures s == Score(e, target)
  {
    var tokens := ParseTokens(e.word);
    var bestIdx := BestOccurrence(tokens, target);
    s := Scored(e, Dist(bestIdx, |tokens|), bestIdx, tokens);
  }

  /** `strictCandidates.map(...)`: the map's body holds the loop of BestOccurrence. */
  method ScoreAll(ws: seq<WordEntry>, target: Token) returns (scored: seq<Scored>)
    requires forall w :: w in ws ==> HasToken(w, target)
    ensures scored == Scores(ws, target)
  {
    scored := [];
    for k := 0 to |ws|
      invariant forall w :: w in ws[k..] ==> HasToken(w, target)
      invariant scored + Scores(ws[k..], target) == Scores(ws, target)
    {
      assert ws[k..] == [ws[k]] + ws[k + 1..];
      var s := ScoreOne(ws[k], target);
      scored := scored + [s];
    }
  }

  predicate SortedByScore(s: seq<Scored>) {
    forall i, j :: 0 <= i < j < |s| ==> s[i].score <= s[j].score
  }

  /** Inserts `x` before the first entry whose score is not smaller. */
  function InsertByScore(x: Scored, s: seq<Scored>): seq<Scored> {
    if s == [] || x.score <= s[0].score then [x] + s
    else [s[0]] + InsertByScore(x, s[1..])
  }

  /** Insertion adds exactly `x`. */
  lemma {:induction false} InsertFacts(x: Scored, s: seq<Scored>)
    ensures |InsertByScore(x, s)| == |s| + 1
    ensures multiset(InsertByScore(x, s)) == multiset(s) + multiset{x}
  {
    if s != [] && x.score > s[0].score {
      InsertFacts(x, s[1..]);
      assert s == [s[0]] + s[1..];
    }
  }

  lemma {:induction false} InsertMembers(x: Scored, s: seq<Scored>)
    ensures forall y :: y in InsertByScore(x, s) ==> y == x || y in s
  {
    if s != [] && x.score > s[0].score {
      InsertMembers(x, s[1..]);
    }
  }

  /** Insertion keeps a sorted list sorted. */
  lemma {:induction false} InsertKeepsSorted(x: Scored, s: seq<Scored>)
    requires SortedByScore(s)
    ensures SortedByScore(InsertByScore(x, s))
  {
    if s != [] && x.score > s[0].score {
      var t := InsertByScore(x, s[1..]);
      InsertKeepsSorted(x, s[1..]);
      InsertMembers(x, s[1..]);
      assert forall k :: 0 <= k < |t| ==> t[k] in t;
      assert forall k :: 0 <= k < |s| ==> s[0].score <= s[k].score;
      assert forall y :: y in s[1..] ==> s[0].score <= y.score;
      assert forall k :: 0 <= k < |t| ==> s[0].score <= t[k].score;
    }
  }

  /** `scoredCandidates.sort((a, b) => a.score - b.score)`: a stable ascending sort (insertion sort). */
  function SortByScore(s: seq<Scored>): seq<Scored> {
    if s == [] then [] else InsertByScore(s[0], SortByScore(s[1..]))
  }

  /** The sort is a sorted permutation. */
  lemma {:induction false} SortFacts(s: seq<Scored>)
    ensures |SortByScore(s)| == |s|
    ensures multiset(SortByScore(s)) == multiset(s)
    ensures forall y :: y in SortByScore(s) <==> y in s
    ensures SortedByScore(SortByScore(s))
  {
    if s != [] {
      assert s == [s[0]] + s[1..];
      SortFacts(s[1..]);
      InsertFacts(s[0], SortByScore(s[1..]));
      InsertKeepsSorted(s[0], SortByScore(s[1..]));
    }
    assert forall y :: y in SortByScore(s) <==> y in multiset(SortByScore(s));
    assert forall y :: y in s <==> y in multiset(s);
  }

  /** The entries with a given score, in order. */
  function WithScore(s: seq<Scored>, v: nat): seq<Scored> {
    if s == [] then [] else (if s[0].score == v then [s[0]] else []) + WithScore(s[1..], v)
  }

  lemma WithScoreCons(y: Scored, t: seq<Scored>, v: nat)
    ensures WithScore([y] + t, v) == (if y.score == v then [y] else []) + WithScore(t, v)
  {
    assert ([y] + t)[1..] == t;
  }

  lemma {:induction false} InsertKeepsOrderOfEquals(x: Scored, s: seq<Scored>, v: nat)
    ensures WithScore(InsertByScore(x, s), v) == WithScore([x] + s, v)
  {
    if s != [] && x.score > s[0].score {
      var t := InsertByScore(x, s[1..]);
      InsertKeepsOrderOfEquals(x, s[1..], v);
      assert s == [s[0]] + s[1..];
      WithScoreCons(s[0], t, v);
      WithScoreCons(x, s[1..], v);
      WithScoreCons(s[0], s[1..], v);
      WithScoreCons(x, s, v);
      if x.score == v {
        assert WithScore(s, v) == WithScore(s[1..], v);
      } else {
        assert WithScore([x] + s[1..], v) == WithScore(s[1..], v);
      }
    }
  }

  /** Stability: the sort keeps the relative order of entries with equal scores. */
  lemma {:induction false} SortIsStable(s: seq<Scored>, v: nat)
    ensures WithScore(SortByScore(s), v) == WithScore(s, v)
  {
    if s != [] {
      SortIsStable(s[1..], v);
      InsertKeepsOrderOfEquals(s[0], SortByScore(s[1..]), v);
      WithScoreCons(s[0], SortByScore(s[1..]), v);
      WithScoreCons(s[0], s[1..], v);
      assert s == [s[0]] + s[1..];
    }
  }

  // ---------------------------------------------------------------------------------------------
  // One position

  /** A candidate for a position: its word contains the target and is not used yet in this puzzle
      (compared in uppercase). */
  predicate IsCandidate(e: WordEntry, target: Token, used: set<string>) {
    HasToken(e, target) && Key(e) !in used
  }

  function Candidates(vocab: seq<WordEntry>, target: Token, used: set<string>): seq<WordEntry> {
    Filter(vocab, (e: WordEntry) => IsCandidate(e, target, used))
  }

  /** The candidates are exactly the vocabulary entries that qualify. */
  lemma CandidatesFacts(vocab: seq<WordEntry>, target: Token, used: set<string>)
    ensures forall e :: e in Candidates(vocab, target, used) <==> e in vocab && IsCandidate(e, target, used)
  {
    FilterFacts(vocab, (e: WordEntry) => IsCandidate(e, target, used));
  }

  /** The least-used candidates all contain the target. */
  lemma StrictFacts(vocab: seq<WordEntry>, usage: Usage, used: set<string>, target: Token)
    requires |Candidates(vocab, target, used)| > 0
    ensures var c := Candidates(vocab, target, used);
            |LeastUsed(c, usage)| > 0 &&
            (forall w :: w in LeastUsed(c, usage) <==> w in c && IsLeastUsed(usage, w, c)) &&
            (forall w :: w in LeastUsed(c, usage) ==> w in vocab && IsCandidate(w, target, used))
  {
    CandidatesFacts(vocab, target, used);
    LeastUsedFacts(Candidates(vocab, target, used), usage);
  }

  /** The least-used candidates, scored and sorted by score. */
  function Pool(vocab: seq<WordEntry>, usage: Usage, used: set<string>, target: Token): seq<Scored>
    requires |Candidates(vocab, target, used)| > 0
  {
    StrictFacts(vocab, usage, used, target);
    var strict := LeastUsed(Candidates(vocab, target, used), usage);
    SortByScore(Scores(strict, target))
  }

  /** The pool is a non-empty sorted list of the scored least-used candidates. */
  lemma PoolFacts(vocab: seq<WordEntry>, usage: Usage, used: set<string>, target: Token)
    requires |Candidates(vocab, target, used)| > 0
    ensures var strict := LeastUsed(Candidates(vocab, target, used), usage);
            var pool := Pool(vocab, usage, used, target);
            (forall w :: w in strict ==> HasToken(w, target)) &&
            |pool| == |strict| > 0 && SortedByScore(pool) &&
            forall x :: x in pool <==> x in Scores(strict, target)
  {
    StrictFacts(vocab, usage, used, target);
    var strict := LeastUsed(Candidates(vocab, target, used), usage);
    ScoresAt(strict, target);
    SortFacts(Scores(strict, target));
  }

  function RowOf(s: Scored, position: nat): RawRow {
    RawRow(position, Key(s.entry), s.tokens, s.entry.definition, s.bestIdx)
  }

  /** What position `i` emits given the words used so far: nothing when no candidate is left, else one of
      the first `min(2, n)` entries of the sorted pool, chosen by the oracle's index `pick`. */
  function RowAt(vocab: seq<WordEntry>, usage: Usage, solutionTokens: seq<Token>, used: set<string>,
                 i: nat, pick: nat): (r: Option<RawRow>)
    requires i < |solutionTokens|
    ensures r.None? <==> |Candidates(vocab, solutionTokens[i], used)| == 0
    ensures r.Some? ==> r.value.position == i
  {
    var target := solutionTokens[i];
    if |Candidates(vocab, target, used)| == 0 then None
    else
      PoolFacts(vocab, usage, used, target);
      var pool := Pool(vocab, usage, used, target);
      Some(RowOf(pool[pick % Min(2, |pool|)], i))
  }

  /** In a sorted pool, an entry among the first two is beaten on score by at most one entry. */
  lemma TopTwo(pool: seq<Scored>, j: nat)
    requires SortedByScore(pool) && j < Min(2, |pool|)
    ensures forall x, y :: x in pool && y in pool && x.score < pool[j].score && y.score < pool[j].score ==> x == y
  {
    forall x, y | x in pool && y in pool && x.score < pool[j].score && y.score < pool[j].score
      ensures x == y
    {
      var a :| 0 <= a < |pool| && pool[a] == x;
      var b :| 0 <= b < |pool| && pool[b] == y;
      assert a < j && b < j;
    }
  }

  /** Every scored entry comes from one candidate. */
  lemma ScoredFrom(ws: seq<WordEntry>, target: Token, x: Scored)
    requires forall w :: w in ws ==> HasToken(w, target)
    requires x in Scores(ws, target)
    ensures exists e :: e in ws && x == Score(e, target)
  {
    ScoresAt(ws, target);
    var k :| 0 <= k < |Scores(ws, target)| && Scores(ws, target)[k] == x;
    assert ws[k] in ws;
  }

  /** The entry a position emits, as a least-used candidate. */
  lemma ChosenEntry(vocab: seq<WordEntry>, usage: Usage, solutionTokens: seq<Token>, used: set<string>,
                    i: nat, pick: nat, row: RawRow) returns (e: WordEntry)
    requires i < |solutionTokens| && RowAt(vocab, usage, solutionTokens, used, i, pick) == Some(row)
    ensures e in LeastUsed(Candidates(vocab, solutionTokens[i], used), usage)
    ensures row == RowOf(Score(e, solutionTokens[i]), i)
  {
    var target := solutionTokens[i];
    var strict := LeastUsed(Candidates(vocab, target, used), usage);
    PoolFacts(vocab, usage, used, target);
    var pool := Pool(vocab, usage, used, target);
    var chosen := pool[pick % Min(2, |pool|)];
    assert chosen in pool;
    ScoredFrom(strict, target, chosen);
    e :| e in strict && chosen == Score(e, target);
  }

  /** The row holds the entry's uppercased word and its definition. */
  predicate RowFromEntry(row: RawRow, e: WordEntry) {
    row.word == Key(e) && row.definition == e.definition
  }

  /** A row that crosses the solution: at the occurrence of the target nearest its centre, with the
      tokens of its word, which is the uppercased word of a vocabulary entry containing the target (with
      that entry's definition). */
  ghost predicate RowCrosses(vocab: seq<WordEntry>, solutionTokens: seq<Token>, row: RawRow) {
    row.position < |solutionTokens| &&
    IsClosest(row.tokens, solutionTokens[row.position], row.solutionIndex) &&
    row.tokens == Tokenize(row.word) && IsUpperCased(row.word) &&
    exists e :: e in vocab && RowFromEntry(row, e) && HasToken(e, solutionTokens[row.position])
  }

  /** A row that is sound for the words `used` before it: it crosses the solution, its word is unused,
      and it has the least usage among the unused words that contain the target. */
  ghost predicate RowSound(vocab: seq<WordEntry>, usage: Usage, solutionTokens: seq<Token>,
                           used: set<string>, row: RawRow) {
    RowCrosses(vocab, solutionTokens, row) &&
    row.word !in used &&
    forall e :: e in vocab && IsCandidate(e, solutionTokens[row.position], used) ==>
                UsageOf(usage, row.word) <= UsageOfEntry(usage, e)
  }

  lemma ChosenRowSound(vocab: seq<WordEntry>, usage: Usage, solutionTokens: seq<Token>, used: set<string>,
                       i: nat, pick: nat, row: RawRow)
    requires i < |solutionTokens| && RowAt(vocab, usage, solutionTokens, used, i, pick) == Some(row)
    ensures RowSound(vocab, usage, solutionTokens, used, row)
  {
    var target := solutionTokens[i];
    var c := ChosenEntry(vocab, usage, solutionTokens, used, i, pick, row);
    StrictFacts(vocab, usage, used, target);
    CandidatesFacts(vocab, target, used);
    ScoreFacts(c, target);
    CaseInsensitive(c.word);
    UpperIsUpperCased(c.word);
    UsageOfUpper(usage, c.word);
    assert RowFromEntry(row, c);
    forall e | e in vocab && IsCandidate(e, target, used)
      ensures UsageOf(usage, row.word) <= UsageOfEntry(usage, e)
    {
      assert e in Candidates(vocab, target, used);
    }
  }

  /** Scoring prefers centred crossings: at most one least-used candidate has a strictly more central
      crossing than the row chosen. */
  lemma ChosenRowNearCentre(vocab: seq<WordEntry>, usage: Usage, solutionTokens: seq<Token>, used: set<string>,
                            i: nat, pick: nat, row: RawRow)
    requires i < |solutionTokens| && RowAt(vocab, usage, solutionTokens, used, i, pick) == Some(row)
    ensures var pool := Pool(vocab, usage, used, solutionTokens[i]);
            forall x, y ::
              (x in pool && y in pool &&
               x.score < Dist(row.solutionIndex, |row.tokens|) && y.score < Dist(row.solutionIndex, |row.tokens|))
              ==> x == y
  {
    var target := solutionTokens[i];
    var strict := LeastUsed(Candidates(vocab, target, used), usage);
    PoolFacts(vocab, usage, used, target);
    var pool := Pool(vocab, usage, used, target);
    var j := pick % Min(2, |pool|);
    assert pool[j] in pool;
    ScoredFrom(strict, target, pool[j]);
    assert pool[j].score == Dist(row.solutionIndex, |row.tokens|);
    TopTwo(pool, j);
  }

  // ---------------------------------------------------------------------------------------------
  // The per-position loop

  /** Reference definition of the rows emitted from position `i` on, given the words used so far. */
  function RowsFrom(vocab: seq<WordEntry>, usage: Usage, solutionTokens: seq<Token>, rowPick: nat -> nat,
                    i: nat, used: set<string>): (rows: seq<RawRow>)
    requires i <= |solutionTokens|
    decreases |solutionTokens| - i
  {
    if i == |solutionTokens| then []
    else
      match RowAt(vocab, usage, solutionTokens, used, i, rowPick(i))
      case None => RowsFrom(vocab, usage, solutionTokens, rowPick, i + 1, used)
      case Some(r) => [r] + RowsFrom(vocab, usage, solutionTokens, rowPick, i + 1, used + {r.word})
  }

  /** Some row contains token `t`. */
  predicate InSomeRow(rows: seq<RawRow>, t: Token) {
    exists j :: 0 <= j < |rows| && t in rows[j].tokens
  }

  /** `ts.forEach(t => set.add(t))` on an insertion-ordered set. */
  function AddAll(acc: seq<Token>, ts: seq<Token>): seq<Token>
    decreases |ts|
  {
    if ts == [] then acc
    else if ts[0] in acc then AddAll(acc, ts[1..])
    else AddAll(acc + [ts[0]], ts[1..])
  }

  /** Adding keeps the set duplicate-free, keeps what was there, in place, and adds exactly `ts`. */
  lemma {:induction false} AddAllFacts(acc: seq<Token>, ts: seq<Token>)
    requires Distinct(acc)
    ensures Distinct(AddAll(acc, ts))
    ensures forall t :: t in AddAll(acc, ts) <==> t in acc || t in ts
    ensures |acc| <= |AddAll(acc, ts)| && AddAll(acc, ts)[..|acc|] == acc
    decreases |ts|
  {
    if ts != [] {
      assert ts == [ts[0]] + ts[1..];
      if ts[0] in acc {
        AddAllFacts(acc, ts[1..]);
      } else {
        var next := acc + [ts[0]];
        AddAllFacts(next, ts[1..]);
        var r := AddAll(next, ts[1..]);
        assert r[..|acc|] == r[..|next|][..|acc|];
      }
    }
  }

  /** `allUsedTokens`: the solution tokens, then the tokens of each row in turn, each added once. */
  function UsedTokens(solutionTokens: seq<Token>, rows: seq<RawRow>): seq<Token> {
    if rows == [] then AddAll([], solutionTokens)
    else AddAll(UsedTokens(solutionTokens, rows[..|rows| - 1]), rows[|rows| - 1].tokens)
  }

  lemma UsedTokensSnoc(solutionTokens: seq<Token>, rows: seq<RawRow>, row: RawRow)
    ensures UsedTokens(solutionTokens, rows + [row]) == AddAll(UsedTokens(solutionTokens, rows), row.tokens)
  {
    assert (rows + [row])[..|rows|] == rows;
  }

  /** The token set is duplicate-free and holds exactly the solution tokens and the tokens of every row. */
  lemma {:induction false} UsedTokensFacts(solutionTokens: seq<Token>, rows: seq<RawRow>)
    ensures Distinct(UsedTokens(solutionTokens, rows))
    ensures forall t :: t in UsedTokens(solutionTokens, rows) <==> t in solutionTokens || InSomeRow(rows, t)
  {
    if rows == [] {
      AddAllFacts([], solutionTokens);
    } else {
      var init := rows[..|rows| - 1];
      var last := rows[|rows| - 1];
      UsedTokensFacts(solutionTokens, init);
      AddAllFacts(UsedTokens(solutionTokens, init), last.tokens);
      assert rows == init + [last];
      forall t ensures InSomeRow(rows, t) <==> InSomeRow(init, t) || t in last.tokens {
        InSomeRowAppend(init, last, t);
      }
    }
  }

  lemma InSomeRowAppend(rows: seq<RawRow>, x: RawRow, t: Token)
    ensures InSomeRow(rows + [x], t) <==> InSomeRow(rows, t) || t in x.tokens
  {
    var rs := rows + [x];
    if InSomeRow(rows, t) {
      var j :| 0 <= j < |rows| && t in rows[j].tokens;
      assert rs[j] == rows[j];
    }
    if t in x.tokens {
      assert rs[|rows|] == x;
    }
    if InSomeRow(rs, t) {
      var j :| 0 <= j < |rs| && t in rs[j].tokens;
      if j < |rows| {
        assert rs[j] == rows[j];
      }
    }
  }

  /** The loop over the solution positions (`for (let i = 0; i < solutionTokens.length; i++)`) with
      `usedInThisPuzzle` seeded with the solution word. It also returns `allUsedTokens`, an
      insertion-ordered set of every token of the solution and of the rows. */
  method BuildRows(vocab: seq<WordEntry>, usage: Usage, solutionWord: string, solutionTokens: seq<Token>,
                   rowPick: nat -> nat) returns (rows: seq<RawRow>, allUsedTokens: seq<Token>)
    ensures rows == RowsFrom(vocab, usage, solutionTokens, rowPick, 0, {solutionWord})
    ensures allUsedTokens == UsedTokens(solutionTokens, rows)
  {
    var usedInThisPuzzle: set<string> := {solutionWord};
    rows := [];
    allUsedTokens := AddAll([], solutionTokens);
    for i := 0 to |solutionTokens|
      invariant rows + RowsFrom(vocab, usage, solutionTokens, rowPick, i, usedInThisPuzzle) ==
                RowsFrom(vocab, usage, solutionTokens, rowPick, 0, {solutionWord})
      invariant allUsedTokens == UsedTokens(solutionTokens, rows)
    {
      var next := ChooseRow(vocab, usage, solutionTokens, usedInThisPuzzle, i, rowPick(i));
      RowsFromStep(vocab, usage, solutionTokens, rowPick, i, usedInThisPuzzle, rows);
      match next
      case None =>
      case Some(row) =>
        usedInThisPuzzle := usedInThisPuzzle + {row.word};
        allUsedTokens := AddAll(allUsedTokens, row.tokens);
        UsedTokensSnoc(solutionTokens, rows, row);
        rows := rows + [row];
    }
  }

  /** The body of the loop for one position: filter, usage floor, scoring, sort, pick. */
  method ChooseRow(vocab: seq<WordEntry>, usage: Usage, solutionTokens: seq<Token>, used: set<string>,
                   i: nat, pick: nat) returns (next: Option<RawRow>)
    requires i < |solutionTokens|
    ensures next == RowAt(vocab, usage, solutionTokens, used, i, pick)
  {
    var targetToken := solutionTokens[i];
    var candidates := Candidates(vocab, targetToken, used);
    if |candidates| == 0 {
      return None;
    }
    PoolFacts(vocab, usage, used, targetToken);
    var strictCandidates := LeastUsed(candidates, usage);
    var scoredCandidates := ScoreAll(strictCandidates, targetToken);
    var sorted := SortByScore(scoredCandidates);
    var poolSize := Min(2, |sorted|);
    var best := sorted[pick % poolSize];
    next := Some(RowOf(best, i));
  }

  lemma RowsFromStep(vocab: seq<WordEntry>, usage: Usage, solutionTokens: seq<Token>, rowPick: nat -> nat,
                     i: nat, used: set<string>, rows: seq<RawRow>)
    requires i < |solutionTokens|
    ensures RowAt(vocab, usage, solutionTokens, used, i, rowPick(i)).None? ==>
      rows + RowsFrom(vocab, usage, solutionTokens, rowPick, i, used) == rows + RowsFrom(vocab, usage, solutionTokens, rowPick, i + 1, used)
    ensures RowAt(vocab, usage, solutionTokens, used, i, rowPick(i)).Some? ==>
      var r := RowAt(vocab, usage, solutionTokens, used, i, rowPick(i)).value;
      rows + RowsFrom(vocab, usage, solutionTokens, rowPick, i, used) ==
      (rows + [r]) + RowsFrom(vocab, usage, solutionTokens, rowPick, i + 1, used + {r.word})
  {
    RowsFromUnfold(vocab, usage, solutionTokens, rowPick, i, used);
    var next := RowAt(vocab, usage, solutionTokens, used, i, rowPick(i));
    if next.Some? {
      ConsAssoc(rows, next.value, RowsFrom(vocab, usage, solutionTokens, rowPick, i + 1, used + {next.value.word}));
    }
  }

  lemma ConsAssoc<T>(xs: seq<T>, x: T, ys: seq<T>)
    ensures xs + ([x] + ys) == (xs + [x]) + ys
  {
  }

  lemma RowsFromUnfold(vocab: seq<WordEntry>, usage: Usage, solutionTokens: seq<Token>, rowPick: nat -> nat,
                       i: nat, used: set<string>)
    requires i < |solutionTokens|
    ensures RowAt(vocab, usage, solutionTokens, used, i, rowPick(i)).None? ==>
      RowsFrom(vocab, usage, solutionTokens, rowPick, i, used) == RowsFrom(vocab, usage, solutionTokens, rowPick, i + 1, used)
    ensures RowAt(vocab, usage, solutionTokens, used, i, rowPick(i)).Some? ==>
      var r := RowAt(vocab, usage, solutionTokens, used, i, rowPick(i)).value;
      RowsFrom(vocab, usage, solutionTokens, rowPick, i, used) ==
      [r] + RowsFrom(vocab, usage, solutionTokens, rowPick, i + 1, used + {r.word})
  {
  }

  // ---------------------------------------------------------------------------------------------
  // Consequences for the whole row list

  /** Rows lie at increasing positions from `i` on, below `n`. */
  ghost predicate PositionsIncreasing(rows: seq<RawRow>, i: nat, n: nat) {
    (forall k :: 0 <= k < |rows| ==> i <= rows[k].position < n) &&
    (forall j, k :: 0 <= j < k < |rows| ==> rows[j].position < rows[k].position)
  }

  lemma {:induction false} RowsFromPositions(vocab: seq<WordEntry>, usage: Usage, solutionTokens: seq<Token>,
                                             rowPick: nat -> nat, i: nat, used: set<string>)
    requires i <= |solutionTokens|
    ensures PositionsIncreasing(RowsFrom(vocab, usage, solutionTokens, rowPick, i, used), i, |solutionTokens|)
    decreases |solutionTokens| - i
  {
    if i < |solutionTokens| {
      RowsFromUnfold(vocab, usage, solutionTokens, rowPick, i, used);
      var next := RowAt(vocab, usage, solutionTokens, used, i, rowPick(i));
      if next.None? {
        RowsFromPositions(vocab, usage, solutionTokens, rowPick, i + 1, used);
      } else {
        var r := next.value;
        var rest := RowsFrom(vocab, usage, solutionTokens, rowPick, i + 1, used + {r.word});
        RowsFromPositions(vocab, usage, solutionTokens, rowPick, i + 1, used + {r.word});
        PositionsCons(r, rest, i, |solutionTokens|);
      }
    }
  }

  lemma PositionsCons(r: RawRow, rest: seq<RawRow>, i: nat, n: nat)
    requires r.position == i < n
    requires PositionsIncreasing(rest, i + 1, n)
    ensures PositionsIncreasing([r] + rest, i, n)
  {
    var rows := [r] + rest;
    assert forall k :: 0 < k < |rows| ==> rows[k] == rest[k - 1];
  }

  /** Each row is sound for the initial words and those of the rows before it. */
  ghost predicate EachRowSound(vocab: seq<WordEntry>, usage: Usage, solutionTokens: seq<Token>,
                               used: set<string>, rows: seq<RawRow>)
    decreases |rows|
  {
    rows == [] ||
    (RowSound(vocab, usage, solutionTokens, used, rows[0]) &&
     EachRowSound(vocab, usage, solutionTokens, used + {rows[0].word}, rows[1..]))
  }

  /** Every vocabulary word containing `target` is among the `used` words. */
  predicate AllUsed(vocab: seq<WordEntry>, target: Token, used: set<string>) {
    forall e :: e in vocab && HasToken(e, target) ==> Key(e) in used
  }

  /** Every position from `i` on without a row had no unused candidate: every vocabulary word containing
      its target was already used, initially or by an earlier row. */
  ghost predicate SkipsJustified(vocab: seq<WordEntry>, solutionTokens: seq<Token>, used: set<string>,
                                 rows: seq<RawRow>, i: nat)
    requires i <= |solutionTokens|
    decreases |solutionTokens| - i
  {
    if i == |solutionTokens| then true
    else if rows != [] && rows[0].position == i then
      SkipsJustified(vocab, solutionTokens, used + {rows[0].word}, rows[1..], i + 1)
    else
      AllUsed(vocab, solutionTokens[i], used) && SkipsJustified(vocab, solutionTokens, used, rows, i + 1)
  }

  lemma {:induction false} RowsFromSound(vocab: seq<WordEntry>, usage: Usage, solutionTokens: seq<Token>,
                                         rowPick: nat -> nat, i: nat, used: set<string>)
    requires i <= |solutionTokens|
    ensures EachRowSound(vocab, usage, solutionTokens, used, RowsFrom(vocab, usage, solutionTokens, rowPick, i, used))
    decreases |solutionTokens| - i
  {
    if i < |solutionTokens| {
      var next := RowAt(vocab, usage, solutionTokens, used, i, rowPick(i));
      if next.None? {
        RowsFromSound(vocab, usage, solutionTokens, rowPick, i + 1, used);
        RowsFromUnfold(vocab, usage, solutionTokens, rowPick, i, used);
      } else {
        var r := next.value;
        RowsFromSound(vocab, usage, solutionTokens, rowPick, i + 1, used + {r.word});
        RowsFromSoundStep(vocab, usage, solutionTokens, rowPick, i, used, r);
      }
    }
  }

  lemma RowsFromSoundStep(vocab: seq<WordEntry>, usage: Usage, solutionTokens: seq<Token>,
                          rowPick: nat -> nat, i: nat, used: set<string>, r: RawRow)
    requires i < |solutionTokens| && RowAt(vocab, usage, solutionTokens, used, i, rowPick(i)) == Some(r)
    requires EachRowSound(vocab, usage, solutionTokens, used + {r.word},
                          RowsFrom(vocab, usage, solutionTokens, rowPick, i + 1, used + {r.word}))
    ensures EachRowSound(vocab, usage, solutionTokens, used, RowsFrom(vocab, usage, solutionTokens, rowPick, i, used))
  {
    RowsFromUnfold(vocab, usage, solutionTokens, rowPick, i, used);
    ChosenRowSound(vocab, usage, solutionTokens, used, i, rowPick(i), r);
    EachRowSoundCons(vocab, usage, solutionTokens, used, r,
                     RowsFrom(vocab, usage, solutionTokens, rowPick, i + 1, used + {r.word}));
  }

  lemma EachRowSoundCons(vocab: seq<WordEntry>, usage: Usage, solutionTokens: seq<Token>,
                         used: set<string>, r: RawRow, rest: seq<RawRow>)
    requires RowSound(vocab, usage, solutionTokens, used, r)
    requires EachRowSound(vocab, usage, solutionTokens, used + {r.word}, rest)
    ensures EachRowSound(vocab, usage, solutionTokens, used, [r] + rest)
  {
    assert ([r] + rest)[1..] == rest;
  }

  /** Without candidates, every word containing the target is used. */
  lemma NoCandidatesAllUsed(vocab: seq<WordEntry>, target: Token, used: set<string>)
    requires |Candidates(vocab, target, used)| == 0
    ensures AllUsed(vocab, target, used)
  {
    CandidatesFacts(vocab, target, used);
    forall e | e in vocab && HasToken(e, target) ensures Key(e) in used {
      assert e !in Candidates(vocab, target, used);
    }
  }

  lemma SkipsNone(vocab: seq<WordEntry>, solutionTokens: seq<Token>, used: set<string>, rows: seq<RawRow>, i: nat)
    requires i < |solutionTokens| && |Candidates(vocab, solutionTokens[i], used)| == 0
    requires rows == [] || rows[0].position != i
    requires SkipsJustified(vocab, solutionTokens, used, rows, i + 1)
    ensures SkipsJustified(vocab, solutionTokens, used, rows, i)
  {
    NoCandidatesAllUsed(vocab, solutionTokens[i], used);
  }

  lemma SkipsRow(vocab: seq<WordEntry>, solutionTokens: seq<Token>, used: set<string>, r: RawRow,
                 rest: seq<RawRow>, i: nat)
    requires i < |solutionTokens| && r.position == i
    requires SkipsJustified(vocab, solutionTokens, used + {r.word}, rest, i + 1)
    ensures SkipsJustified(vocab, solutionTokens, used, [r] + rest, i)
  {
    assert ([r] + rest)[1..] == rest;
  }

  lemma {:induction false} RowsFromSkips(vocab: seq<WordEntry>, usage: Usage, solutionTokens: seq<Token>,
                                         rowPick: nat -> nat, i: nat, used: set<string>)
    requires i <= |solutionTokens|
    ensures SkipsJustified(vocab, solutionTokens, used, RowsFrom(vocab, usage, solutionTokens, rowPick, i, used), i)
    decreases |solutionTokens| - i
  {
    if i < |solutionTokens| {
      RowsFromUnfold(vocab, usage, solutionTokens, rowPick, i, used);
      var next := RowAt(vocab, usage, solutionTokens, used, i, rowPick(i));
      if next.None? {
        var rows := RowsFrom(vocab, usage, solutionTokens, rowPick, i + 1, used);
        RowsFromPositions(vocab, usage, solutionTokens, rowPick, i + 1, used);
        RowsFromSkips(vocab, usage, solutionTokens, rowPick, i + 1, used);
        SkipsNone(vocab, solutionTokens, used, rows, i);
      } else {
        var r := next.value;
        var rest := RowsFrom(vocab, usage, solutionTokens, rowPick, i + 1, used + {r.word});
        RowsFromSkips(vocab, usage, solutionTokens, rowPick, i + 1, used + {r.word});
        SkipsRow(vocab, solutionTokens, used, r, rest, i);
      }
    }
  }

  /** The words of sound rows are fresh: none is among the initial words and no two are equal. */
  lemma {:induction false} SoundRowsFresh(vocab: seq<WordEntry>, usage: Usage, solutionTokens: seq<Token>,
                                          used: set<string>, rows: seq<RawRow>)
    requires EachRowSound(vocab, usage, solutionTokens, used, rows)
    ensures forall k :: 0 <= k < |rows| ==> rows[k].word !in used
    ensures forall j, k :: 0 <= j < k < |rows| ==> rows[j].word != rows[k].word
    ensures forall k :: 0 <= k < |rows| ==> RowCrosses(vocab, solutionTokens, rows[k])
    decreases |rows|
  {
    if rows != [] {
      var rest := rows[1..];
      SoundRowsFresh(vocab, usage, solutionTokens, used + {rows[0].word}, rest);
      assert forall k :: 0 < k < |rows| ==> rows[k] == rest[k - 1];
    }
  }

  lemma {:induction false} IncreasingPositionsBounded(rows: seq<RawRow>, n: nat)
    requires forall k :: 0 <= k < |rows| ==> rows[k].position < n
    requires forall j, k :: 0 <= j < k < |rows| ==> rows[j].position < rows[k].position
    ensures |rows| <= n
  {
    if rows != [] {
      var last := rows[|rows| - 1];
      var init := rows[..|rows| - 1];
      assert forall k :: 0 <= k < |init| ==> init[k].position < last.position;
      IncreasingPositionsBounded(init, last.position);
    }
  }

  /** The row list as the generator returns it: at most one row per solution position, in increasing
      position; each row crosses the solution and is sound for the words used before it, so the row words
      are distinct and differ from the solution word; a skipped position had no unused word left. */
  lemma BuiltRowsSound(vocab: seq<WordEntry>, usage: Usage, solutionWord: string, solutionTokens: seq<Token>,
                       rowPick: nat -> nat)
    ensures var rows := RowsFrom(vocab, usage, solutionTokens, rowPick, 0, {solutionWord});
            |rows| <= |solutionTokens| &&
            PositionsIncreasing(rows, 0, |solutionTokens|) &&
            EachRowSound(vocab, usage, solutionTokens, {solutionWord}, rows) &&
            SkipsJustified(vocab, solutionTokens, {solutionWord}, rows, 0) &&
            (forall k :: 0 <= k < |rows| ==> RowCrosses(vocab, solutionTokens, rows[k])) &&
            (forall k :: 0 <= k < |rows| ==> rows[k].word != solutionWord) &&
            (forall j, k :: 0 <= j < k < |rows| ==> rows[j].word != rows[k].word)
  {
    var rows := RowsFrom(vocab, usage, solutionTokens, rowPick, 0, {solutionWord});
    RowsFromPositions(vocab, usage, solutionTokens, rowPick, 0, {solutionWord});
    IncreasingPositionsBounded(rows, |solutionTokens|);
    RowsFromSound(vocab, usage, solutionTokens, rowPick, 0, {solutionWord});
    RowsFromSkips(vocab, usage, solutionTokens, rowPick, 0, {solutionWord});
    SoundRowsFresh(vocab, usage, solutionTokens, {solutionWord}, rows);
  }
}
