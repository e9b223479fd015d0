/** The usage floor and the choice of the vertical solution word (services/puzzleGenerator.ts, stage 1). */
module Selection {
  import opened Common
  import opened Text
  import opened Tokenizer
  import opened Puzzle

  /** The one error generation raises: no word has between 7 and 12 tokens. */
  datatype GenError = NoSolutionCandidates

  /** `Math.min(...ws.map(w => usage of w))` over a non-empty list. */
  function MinUsage(ws: seq<WordEntry>, usage: Usage): nat
    requires |ws| > 0
  {
    if |ws| == 1 then UsageOfEntry(usage, ws[0])
    else
      var rest := MinUsage(ws[1..], usage);
      if UsageOfEntry(usage, ws[0]) <= rest then UsageOfEntry(usage, ws[0]) else rest
  }

  /** The minimum bounds every usage and is attained. */
  lemma {:induction false} MinUsageFacts(ws: seq<WordEntry>, usage: Usage)
    requires |ws| > 0
    ensures forall k :: 0 <= k < |ws| ==> MinUsage(ws, usage) <= UsageOfEntry(usage, ws[k])
    ensures exists k :: 0 <= k < |ws| && UsageOfEntry(usage, ws[k]) == MinUsage(ws, usage)
  {
    if |ws| == 1 {
      assert UsageOfEntry(usage, ws[0]) == MinUsage(ws, usage);
    } else {
      var tail := ws[1..];
      MinUsageFacts(tail, usage);
      var k :| 0 <= k < |tail| && UsageOfEntry(usage, tail[k]) == MinUsage(tail, usage);
      assert forall j :: 1 <= j < |ws| ==> ws[j] == tail[j - 1];
      if UsageOfEntry(usage, ws[0]) <= MinUsage(tail, usage) {
        assert UsageOfEntry(usage, ws[0]) == MinUsage(ws, usage);
      } else {
        assert UsageOfEntry(usage, ws[k + 1]) == MinUsage(ws, usage);
      }
    }
  }

  /** No entry of `ws` is used less than `w`. */
  predicate IsLeastUsed(usage: Usage, w: WordEntry, ws: seq<WordEntry>) {
    forall v :: v in ws ==> UsageOfEntry(usage, w) <= UsageOfEntry(usage, v)
  }

  /** The usage floor: the candidates whose usage is at most the minimum. */
  function LeastUsed(ws: seq<WordEntry>, usage: Usage): seq<WordEntry>
    requires |ws| > 0
  {
    var m := MinUsage(ws, usage);
    Filter(ws, (w: WordEntry) => UsageOfEntry(usage, w) <= m)
  }

  /** The floor is never empty and keeps exactly the least used candidates. */
  lemma LeastUsedFacts(ws: seq<WordEntry>, usage: Usage)
    requires |ws| > 0
    ensures |LeastUsed(ws, usage)| > 0
    ensures forall w :: w in LeastUsed(ws, usage) <==> w in ws && IsLeastUsed(usage, w, ws)
  {
    var m := MinUsage(ws, usage);
    var r := LeastUsed(ws, usage);
    MinUsageFacts(ws, usage);
    FilterFacts(ws, (w: WordEntry) => UsageOfEntry(usage, w) <= m);
    assert forall w :: w in ws ==> exists k :: 0 <= k < |ws| && ws[k] == w;
    var k :| 0 <= k < |ws| && UsageOfEntry(usage, ws[k]) == m;
    assert ws[k] in r;
  }

  /** A possible solution word has 7 to 12 tokens. */
  predicate IsSolutionCandidate(w: WordEntry) {
    7 <= |Tokenize(w.word)| <= 12
  }

  /** Stage 1: filter by token count, apply the usage floor, pick one of the least used with the
      oracle's index. */
  function ChooseSolution(vocab: seq<WordEntry>, usage: Usage, pick: nat): (r: Result<WordEntry, GenError>)
    ensures r.Failure? <==> forall w :: w in vocab ==> !IsSolutionCandidate(w)
    ensures r.Success? ==>
              r.value in vocab && IsSolutionCandidate(r.value) &&
              forall w :: w in vocab && IsSolutionCandidate(w) ==>
                UsageOfEntry(usage, r.value) <= UsageOfEntry(usage, w)
  {
    var eligible := Filter(vocab, IsSolutionCandidate);
    FilterFacts(vocab, IsSolutionCandidate);
    if |eligible| == 0 then
      assert forall w :: w in vocab && IsSolutionCandidate(w) ==> w in eligible;
      Failure(NoSolutionCandidates)
    else
      var best := LeastUsed(eligible, usage);
      LeastUsedFacts(eligible, usage);
      assert best[pick % |best|] in best;
      Success(best[pick % |best|])
  }

  /** Every least-used eligible word is the outcome of some oracle: the floor is the only bias. */
  lemma LeastUsedSolutionReachable(vocab: seq<WordEntry>, usage: Usage, w: WordEntry)
    requires w in vocab && IsSolutionCandidate(w)
    requires forall v :: v in vocab && IsSolutionCandidate(v) ==> UsageOfEntry(usage, w) <= UsageOfEntry(usage, v)
    ensures exists pick :: ChooseSolution(vocab, usage, pick) == Success(w)
  {
    var eligible := Filter(vocab, IsSolutionCandidate);
    FilterFacts(vocab, IsSolutionCandidate);
    assert w in eligible;
    var best := LeastUsed(eligible, usage);
    LeastUsedFacts(eligible, usage);
    assert w in best;
    var k :| 0 <= k < |best| && best[k] == w;
    ChosenAtIndex(vocab, usage, k);
  }

  lemma ChosenAtIndex(vocab: seq<WordEntry>, usage: Usage, k: nat)
    requires |Filter(vocab, IsSolutionCandidate)| > 0
    requires k < |LeastUsed(Filter(vocab, IsSolutionCandidate), usage)|
    ensures ChooseSolution(vocab, usage, k) == Success(LeastUsed(Filter(vocab, IsSolutionCandidate), usage)[k])
  {
    var best := LeastUsed(Filter(vocab, IsSolutionCandidate), usage);
    LeastUsedFacts(Filter(vocab, IsSolutionCandidate), usage);
    assert ChooseSolution(vocab, usage, k) == Success(best[k % |best|]);
    ModSmall(k, |best|);
  }

  /** When one eligible word is strictly less used than every other, every oracle picks it. */
  lemma UniqueLeastUsedSolutionForced(vocab: seq<WordEntry>, usage: Usage, w: WordEntry, pick: nat)
    requires w in vocab && IsSolutionCandidate(w)
    requires forall v :: v in vocab && IsSolutionCandidate(v) && v != w ==> UsageOfEntry(usage, w) < UsageOfEntry(usage, v)
    ensures ChooseSolution(vocab, usage, pick) == Success(w)
  {
  }
}
