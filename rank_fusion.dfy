/**
 * `calculate_rrf_rank`: Reciprocal Rank Fusion (Cormack, Clarke and
 * Buettcher, SIGIR 2009) of the vector hits and the keyword hits. Every hit
 * scores `w / (rrf_k + rank)` with weight `a` for vector hits and `b` for
 * keyword hits; the scores are summed per (query id, query text, chunk id,
 * chunk text) group; one row is kept per (query id, chunk id); the rows are
 * sorted by query id, best score first, and numbered 1, 2, ... per query.
 */
module RankFusion {
  import opened Text
  import opened Tables
  import opened Records

  /** A hit with its RRF contribution, or a group with its summed score. */
  datatype ScoredRow = ScoredRow(queryId: string, queryText: string, chunkId: string, chunkText: string, score: real)

  /** A row of the fused result. */
  datatype FusedRow = FusedRow(queryId: string, queryText: string, chunkId: string, chunkText: string, score: real, rank: int)

  function GroupKey(x: ScoredRow): (string, string, string, string) { (x.queryId, x.queryText, x.chunkId, x.chunkText) }
  function PairKey(x: ScoredRow): (string, string) { (x.queryId, x.chunkId) }
  function PairOfGroup(g: (string, string, string, string)): (string, string) { (g.0, g.2) }
  function QueryOf(x: ScoredRow): string { x.queryId }
  function Score(x: ScoredRow): real { x.score }

  function FusedGroupKey(o: FusedRow): (string, string, string, string) { (o.queryId, o.queryText, o.chunkId, o.chunkText) }
  function FusedPairKey(o: FusedRow): (string, string) { (o.queryId, o.chunkId) }
  function FusedQuery(o: FusedRow): string { o.queryId }
  function FusedRank(o: FusedRow): int { o.rank }

  /** Every rank leaves a non-zero denominator `rrf_k + rank`. */
  predicate DenominatorsNonZero(vectorHits: seq<RetrievalHit>, keywordHits: seq<KeywordSearchHit>, rrfK: int) {
    && (forall i :: 0 <= i < |vectorHits| ==> rrfK + vectorHits[i].rank != 0)
    && (forall i :: 0 <= i < |keywordHits| ==> rrfK + keywordHits[i].rank != 0)
  }

  /**
   * The RRF contribution of one hit: the weight `w` over `rrf_k + rank`,
   * labelled with the hit's (query id, query text, chunk id, chunk text).
   */
  function Contribution(queryId: string, queryText: string, chunkId: string, chunkText: string, rank: int, rrfK: int, w: real): (row: ScoredRow)
    requires rrfK + rank != 0
    ensures GroupKey(row) == (queryId, queryText, chunkId, chunkText)
    ensures row.score * (rrfK + rank) as real == w
    ensures 0.0 < w && 0 < rrfK + rank ==> 0.0 < row.score
  {
    ScoredRow(queryId, queryText, chunkId, chunkText, w / (rrfK + rank) as real)
  }

  /** `a / (rrf_k + v["rank"])`, row by row. */
  function VectorScores(hits: seq<RetrievalHit>, rrfK: int, a: real): (r: seq<ScoredRow>)
    requires forall i :: 0 <= i < |hits| ==> rrfK + hits[i].rank != 0
    ensures |r| == |hits|
    ensures forall i :: 0 <= i < |hits| ==>
      r[i] == Contribution(hits[i].queryId, hits[i].queryText, hits[i].chunkId, hits[i].chunkText, hits[i].rank, rrfK, a)
  {
    seq(|hits|, i requires 0 <= i < |hits| =>
      Contribution(hits[i].queryId, hits[i].queryText, hits[i].chunkId, hits[i].chunkText, hits[i].rank, rrfK, a))
  }

  /** `b / (rrf_k + k["rank"])`, row by row. */
  function KeywordScores(hits: seq<KeywordSearchHit>, rrfK: int, b: real): (r: seq<ScoredRow>)
    requires forall i :: 0 <= i < |hits| ==> rrfK + hits[i].rank != 0
    ensures |r| == |hits|
    ensures forall i :: 0 <= i < |hits| ==>
      r[i] == Contribution(hits[i].queryId, hits[i].queryText, hits[i].chunkId, hits[i].chunkText, hits[i].rank, rrfK, b)
  {
    seq(|hits|, i requires 0 <= i < |hits| =>
      Contribution(hits[i].queryId, hits[i].queryText, hits[i].chunkId, hits[i].chunkText, hits[i].rank, rrfK, b))
  }

  /** `pd.concat([v, k])`: every scored hit, vector hits first. */
  function Fused(vectorHits: seq<RetrievalHit>, keywordHits: seq<KeywordSearchHit>, rrfK: int, a: real, b: real): seq<ScoredRow>
    requires DenominatorsNonZero(vectorHits, keywordHits, rrfK)
  {
    VectorScores(vectorHits, rrfK, a) + KeywordScores(keywordHits, rrfK, b)
  }

  /** One row per group of `fused`, carrying the sum of the group's scores. */
  function GroupSums(fused: seq<ScoredRow>): seq<ScoredRow> {
    var firsts := KeepFirst(fused, GroupKey);
    seq(|firsts|, i requires 0 <= i < |firsts| => firsts[i].(score := SumWhere(fused, GroupKey, GroupKey(firsts[i]), Score)))
  }

  /** The order of `groupby` output: by query id, query text, chunk id, chunk text. */
  predicate GroupLe(x: ScoredRow, y: ScoredRow) {
    if x.queryId != y.queryId then StrLess(x.queryId, y.queryId)
    else if x.queryText != y.queryText then StrLess(x.queryText, y.queryText)
    else if x.chunkId != y.chunkId then StrLess(x.chunkId, y.chunkId)
    else !StrLess(y.chunkText, x.chunkText)
  }

  /** `sort_values(["query_id", "score"], ascending=[True, False])`. */
  predicate OutLe(x: ScoredRow, y: ScoredRow) {
    StrLess(x.queryId, y.queryId) || (x.queryId == y.queryId && x.score >= y.score)
  }

  predicate FusedLe(x: FusedRow, y: FusedRow) {
    StrLess(x.queryId, y.queryId) || (x.queryId == y.queryId && x.score >= y.score)
  }

  function WithRank(x: ScoredRow, rank: int): FusedRow {
    FusedRow(x.queryId, x.queryText, x.chunkId, x.chunkText, x.score, rank)
  }

  /**
   * The grouped sums in `groupby` order: sorted by query id, query text,
   * chunk id and chunk text, each compared by code point.
   */
  function Grouped(fused: seq<ScoredRow>): (r: seq<ScoredRow>)
    ensures SortedBy(GroupLe, r)
    ensures multiset(r) == multiset(GroupSums(fused))
  {
    GroupLeIsTotalPreorder();
    SortSorted(GroupLe, GroupSums(fused));
    Sort(GroupLe, GroupSums(fused))
  }

  /**
   * `drop_duplicates(subset=["query_id", "chunk_id"], keep="first")`: of the
   * groups sharing a (query id, chunk id), the one first in `groupby` order.
   */
  function Deduplicated(fused: seq<ScoredRow>): (r: seq<ScoredRow>)
    ensures KeysDistinct(r, PairKey)
    ensures forall p :: HasKey(r, PairKey, p) <==> HasKey(Grouped(fused), PairKey, p)
    ensures forall j :: 0 <= j < |r| ==>
      var f := FirstIndex(Grouped(fused), PairKey, PairKey(r[j]));
      f < |Grouped(fused)| && r[j] == Grouped(fused)[f]
  {
    KeepFirstIsDistinct(Grouped(fused), PairKey);
    KeepFirstKeepsFirsts(Grouped(fused), PairKey);
    KeepFirstHasKeys(Grouped(fused), PairKey);
    KeepFirst(Grouped(fused), PairKey)
  }

  /** Sorted by query, best score first. */
  function Ranked(fused: seq<ScoredRow>): (r: seq<ScoredRow>)
    ensures SortedBy(OutLe, r)
    ensures multiset(r) == multiset(Deduplicated(fused))
  {
    OutLeIsTotalPreorder();
    SortSorted(OutLe, Deduplicated(fused));
    Sort(OutLe, Deduplicated(fused))
  }

  /** The fused table of already scored rows: ranks are `cumcount() + 1` per query. */
  function FuseScored(fused: seq<ScoredRow>): (out: seq<FusedRow>)
    ensures |out| == |Ranked(fused)|
  {
    Renumber(Ranked(fused), QueryOf, WithRank)
  }

  /**
   * `calculate_rrf_rank`: sorted by query id and best score first, with one
   * row for each (query id, chunk id) that either search returned.
   */
  function CalculateRrfRank(vectorHits: seq<RetrievalHit>, keywordHits: seq<KeywordSearchHit>, rrfK: int, a: real, b: real): (r: seq<FusedRow>)
    requires DenominatorsNonZero(vectorHits, keywordHits, rrfK)
    ensures SortedBy(FusedLe, r)
    ensures forall p :: Occurrences(r, FusedPairKey, p) == if HasKey(Fused(vectorHits, keywordHits, rrfK, a, b), PairKey, p) then 1 else 0
  {
    var fused := Fused(vectorHits, keywordHits, rrfK, a, b);
    FusedSorted(fused);
    OnePerPairAll(fused);
    FuseScored(fused)
  }

  // ---------------------------------------------------------------------------
  // Where each output row comes from

  /** `x` is the row of a group of `fused` that carries the group's summed score. */
  predicate Summed(fused: seq<ScoredRow>, x: ScoredRow) {
    HasKey(fused, GroupKey, GroupKey(x)) && x.score == SumWhere(fused, GroupKey, GroupKey(x), Score)
  }

  lemma RankedRowsSummed(fused: seq<ScoredRow>)
    ensures forall j :: 0 <= j < |Ranked(fused)| ==> Summed(fused, Ranked(fused)[j])
  {
    var firsts := KeepFirst(fused, GroupKey);
    var sums := GroupSums(fused);
    KeepFirstSubset(fused, GroupKey);
    forall i | 0 <= i < |sums| ensures Summed(fused, sums[i]) {
      var m :| 0 <= m < |fused| && fused[m] == firsts[i];
      assert GroupKey(fused[m]) == GroupKey(sums[i]);
    }
    var grouped := Grouped(fused);
    forall i | 0 <= i < |grouped| ensures Summed(fused, grouped[i]) {
      assert grouped[i] in multiset(sums);
    }
    var dedup := Deduplicated(fused);
    KeepFirstSubset(grouped, PairKey);
    var ranked := Ranked(fused);
    forall j | 0 <= j < |ranked| ensures Summed(fused, ranked[j]) {
      assert ranked[j] in multiset(dedup);
      var m :| 0 <= m < |dedup| && dedup[m] == ranked[j];
      var i :| 0 <= i < |grouped| && grouped[i] == dedup[m];
    }
  }

  /** Output row `j` is a ranked row with its rank rewritten. */
  lemma FusedRowAt(fused: seq<ScoredRow>, j: nat)
    requires j < |FuseScored(fused)|
    ensures var x := Ranked(fused)[j]; exists r :: FuseScored(fused)[j] == WithRank(x, r)
  {
    RenumberAt(Ranked(fused), QueryOf, WithRank, j);
  }

  /**
   * The score of every output row is the sum of the contributions of all the
   * input rows of its group, and the group does occur in the input.
   */
  lemma FusedScoreIsGroupSum(fused: seq<ScoredRow>, j: nat)
    requires j < |FuseScored(fused)|
    ensures HasKey(fused, GroupKey, FusedGroupKey(FuseScored(fused)[j]))
    ensures FuseScored(fused)[j].score == SumWhere(fused, GroupKey, FusedGroupKey(FuseScored(fused)[j]), Score)
  {
    RankedRowsSummed(fused);
    FusedRowAt(fused, j);
  }

  // ---------------------------------------------------------------------------
  // Consistent texts: then a group is a (query id, chunk id) pair

  /** The query text is fixed by the query id and the chunk text by the chunk id. */
  predicate ConsistentTexts(fused: seq<ScoredRow>) {
    forall i, j :: 0 <= i < |fused| && 0 <= j < |fused| && PairKey(fused[i]) == PairKey(fused[j]) ==> GroupKey(fused[i]) == GroupKey(fused[j])
  }

  lemma {:induction false} SumByPair(s: seq<ScoredRow>, w: ScoredRow)
    requires forall i :: 0 <= i < |s| && PairKey(s[i]) == PairKey(w) ==> GroupKey(s[i]) == GroupKey(w)
    ensures SumWhere(s, GroupKey, GroupKey(w), Score) == SumWhere(s, PairKey, PairKey(w), Score)
  {
    if s != [] {
      var n := |s| - 1;
      SumByPair(s[..n], w);
    }
  }

  /**
   * With consistent texts, a pair's fused score is the sum of the
   * contributions of all input rows with that (query id, chunk id), however
   * many `ef` runs returned it.
   */
  lemma FusedScoreIsPairSum(fused: seq<ScoredRow>, j: nat)
    requires ConsistentTexts(fused)
    requires j < |FuseScored(fused)|
    ensures FuseScored(fused)[j].score == SumWhere(fused, PairKey, FusedPairKey(FuseScored(fused)[j]), Score)
  {
    var o := FuseScored(fused)[j];
    FusedScoreIsGroupSum(fused, j);
    var m :| 0 <= m < |fused| && GroupKey(fused[m]) == FusedGroupKey(o);
    SumByPair(fused, fused[m]);
  }

  // ---------------------------------------------------------------------------
  // One row per pair, sorted, ranked 1..n per query

  /** The output has exactly one row per (query id, chunk id) of the input, and no other pair. */
  lemma OnePerPair(fused: seq<ScoredRow>, p: (string, string))
    ensures Occurrences(FuseScored(fused), FusedPairKey, p) == if HasKey(fused, PairKey, p) then 1 else 0
  {
    var sums := GroupSums(fused);
    var grouped := Grouped(fused);
    OccurrencesOfRenumber(Ranked(fused), QueryOf, WithRank, PairKey, FusedPairKey, p);
    OccurrencesOfSort(OutLe, Deduplicated(fused), PairKey, p);
    OccurrencesOfKeepFirst(grouped, PairKey, p);
    SortHasKey(GroupLe, sums, PairKey, p);
    GroupSumsHasPair(fused, p);
    KeepFirstHasCoarserKey(fused, GroupKey, PairOfGroup, PairKey, p);
  }

  lemma OnePerPairAll(fused: seq<ScoredRow>)
    ensures forall p :: Occurrences(FuseScored(fused), FusedPairKey, p) == if HasKey(fused, PairKey, p) then 1 else 0
  {
    forall p ensures Occurrences(FuseScored(fused), FusedPairKey, p) == if HasKey(fused, PairKey, p) then 1 else 0 {
      OnePerPair(fused, p);
    }
  }

  /** Summing the scores of each group keeps the group's query and chunk. */
  lemma GroupSumsHasPair(fused: seq<ScoredRow>, p: (string, string))
    ensures HasKey(GroupSums(fused), PairKey, p) <==> HasKey(KeepFirst(fused, GroupKey), PairKey, p)
  {
    var sums := GroupSums(fused);
    var firsts := KeepFirst(fused, GroupKey);
    if HasKey(sums, PairKey, p) {
      var i :| 0 <= i < |sums| && PairKey(sums[i]) == p;
      assert PairKey(firsts[i]) == p;
    }
    if HasKey(firsts, PairKey, p) {
      var i :| 0 <= i < |firsts| && PairKey(firsts[i]) == p;
      assert PairKey(sums[i]) == p;
    }
  }

  lemma OutLeIsTotalPreorder()
    ensures IsTotalPreorder(OutLe)
  {
    forall x, y ensures OutLe(x, y) || OutLe(y, x) {
      StrLessTotal(x.queryId, y.queryId);
    }
    forall x, y, z | OutLe(x, y) && OutLe(y, z) ensures OutLe(x, z) {
      if StrLess(x.queryId, y.queryId) && StrLess(y.queryId, z.queryId) {
        StrLessTransitive(x.queryId, y.queryId, z.queryId);
      }
    }
  }

  /** The `groupby` order is total and transitive: a sort key. */
  lemma GroupLeIsTotalPreorder()
    ensures IsTotalPreorder(GroupLe)
  {
    forall x, y ensures GroupLe(x, y) || GroupLe(y, x) {
      StrLessTotal(x.queryId, y.queryId);
      StrLessTotal(x.queryText, y.queryText);
      StrLessTotal(x.chunkId, y.chunkId);
      if StrLess(x.chunkText, y.chunkText) {
        StrLessAsymmetric(x.chunkText, y.chunkText);
      }
    }
    forall x, y, z | GroupLe(x, y) && GroupLe(y, z) ensures GroupLe(x, z) {
      GroupLeTransitive(x, y, z);
    }
  }

  lemma GroupLeTransitive(x: ScoredRow, y: ScoredRow, z: ScoredRow)
    requires GroupLe(x, y) && GroupLe(y, z)
    ensures GroupLe(x, z)
  {
    if x.queryId != y.queryId || y.queryId != z.queryId {
      StrLessChain(x.queryId, y.queryId, z.queryId);
    } else if x.queryText != y.queryText || y.queryText != z.queryText {
      StrLessChain(x.queryText, y.queryText, z.queryText);
    } else if x.chunkId != y.chunkId || y.chunkId != z.chunkId {
      StrLessChain(x.chunkId, y.chunkId, z.chunkId);
    } else {
      StrLeChain(x.chunkText, y.chunkText, z.chunkText);
    }
  }

  /** The output is ordered by query id ascending, then score descending. */
  lemma FusedSorted(fused: seq<ScoredRow>)
    ensures SortedBy(FusedLe, FuseScored(fused))
  {
    RenumberKeepsOrder(Ranked(fused));
  }

  /** Writing the ranks leaves the order of query and score untouched. */
  lemma RenumberKeepsOrder(ranked: seq<ScoredRow>)
    requires SortedBy(OutLe, ranked)
    ensures SortedBy(FusedLe, Renumber(ranked, QueryOf, WithRank))
  {
    var out := Renumber(ranked, QueryOf, WithRank);
    forall i, j | 0 <= i < j < |out| ensures FusedLe(out[i], out[j]) {
      RenumberAt(ranked, QueryOf, WithRank, i);
      RenumberAt(ranked, QueryOf, WithRank, j);
      assert OutLe(ranked[i], ranked[j]);
    }
  }

  /** Within each query, the ranks are 1, 2, ..., n in output order. */
  lemma RanksContiguous(fused: seq<ScoredRow>, q: string)
    ensures RanksOf(FuseScored(fused), FusedQuery, FusedRank, q) == OneTo(Occurrences(FuseScored(fused), FusedQuery, q))
  {
    RenumberContiguous(Ranked(fused), QueryOf, WithRank, FusedQuery, FusedRank, q);
    OccurrencesOfRenumber(Ranked(fused), QueryOf, WithRank, QueryOf, FusedQuery, q);
  }

  // ---------------------------------------------------------------------------
  // Positive scores

  /** Positive weights, a non-negative constant and ranks from 1 up. */
  predicate PositiveSetting(vectorHits: seq<RetrievalHit>, keywordHits: seq<KeywordSearchHit>, rrfK: int, a: real, b: real) {
    && a > 0.0 && b > 0.0 && rrfK >= 0
    && (forall i :: 0 <= i < |vectorHits| ==> vectorHits[i].rank >= 1)
    && (forall i :: 0 <= i < |keywordHits| ==> keywordHits[i].rank >= 1)
  }

  lemma PositiveContributions(vectorHits: seq<RetrievalHit>, keywordHits: seq<KeywordSearchHit>, rrfK: int, a: real, b: real)
    requires PositiveSetting(vectorHits, keywordHits, rrfK, a, b)
    ensures DenominatorsNonZero(vectorHits, keywordHits, rrfK)
    ensures forall i :: 0 <= i < |Fused(vectorHits, keywordHits, rrfK, a, b)| ==> Fused(vectorHits, keywordHits, rrfK, a, b)[i].score > 0.0
  {
    SidesPositive(vectorHits, keywordHits, rrfK, a, b);
    var v := VectorScores(vectorHits, rrfK, a);
    var k := KeywordScores(keywordHits, rrfK, b);
    var fused := v + k;
    forall i | 0 <= i < |fused| ensures fused[i].score > 0.0 {
      if i >= |v| {
        assert fused[i] == k[i - |v|];
      }
    }
  }

  /** With positive weights, each search's contributions are positive. */
  lemma SidesPositive(vectorHits: seq<RetrievalHit>, keywordHits: seq<KeywordSearchHit>, rrfK: int, a: real, b: real)
    requires PositiveSetting(vectorHits, keywordHits, rrfK, a, b)
    ensures DenominatorsNonZero(vectorHits, keywordHits, rrfK)
    ensures forall i :: 0 <= i < |vectorHits| ==> VectorScores(vectorHits, rrfK, a)[i].score > 0.0
    ensures forall i :: 0 <= i < |keywordHits| ==> KeywordScores(keywordHits, rrfK, b)[i].score > 0.0
  {
    forall i | 0 <= i < |vectorHits| ensures VectorScores(vectorHits, rrfK, a)[i].score > 0.0 {
      assert (rrfK + vectorHits[i].rank) as real > 0.0;
    }
    forall i | 0 <= i < |keywordHits| ensures KeywordScores(keywordHits, rrfK, b)[i].score > 0.0 {
      assert (rrfK + keywordHits[i].rank) as real > 0.0;
    }
  }

  lemma HasKeyFirstIndex<T, K>(s: seq<T>, key: T -> K, k: K)
    requires HasKey(s, key, k)
    ensures FirstIndex(s, key, k) < |s|
  {
    var m :| 0 <= m < |s| && key(s[m]) == k;
  }

  /** With positive weights, every fused score is positive. */
  lemma ScoresPositive(vectorHits: seq<RetrievalHit>, keywordHits: seq<KeywordSearchHit>, rrfK: int, a: real, b: real)
    requires PositiveSetting(vectorHits, keywordHits, rrfK, a, b)
    ensures DenominatorsNonZero(vectorHits, keywordHits, rrfK)
    ensures forall j :: 0 <= j < |CalculateRrfRank(vectorHits, keywordHits, rrfK, a, b)| ==>
      CalculateRrfRank(vectorHits, keywordHits, rrfK, a, b)[j].score > 0.0
  {
    PositiveContributions(vectorHits, keywordHits, rrfK, a, b);
    var fused := Fused(vectorHits, keywordHits, rrfK, a, b);
    var out := FuseScored(fused);
    forall j | 0 <= j < |out| ensures out[j].score > 0.0 {
      FusedScoreIsGroupSum(fused, j);
      HasKeyFirstIndex(fused, GroupKey, FusedGroupKey(out[j]));
      SumWherePositive(fused, GroupKey, FusedGroupKey(out[j]), Score);
    }
  }

  /**
   * A chunk that both searches returned for a query scores strictly more than
   * its vector contributions alone and than its keyword contributions alone.
   */
  lemma BothListsScoreMore(vectorHits: seq<RetrievalHit>, keywordHits: seq<KeywordSearchHit>, rrfK: int, a: real, b: real, j: nat)
    requires PositiveSetting(vectorHits, keywordHits, rrfK, a, b)
    requires j < |CalculateRrfRank(vectorHits, keywordHits, rrfK, a, b)|
    requires var g := FusedGroupKey(CalculateRrfRank(vectorHits, keywordHits, rrfK, a, b)[j]);
      HasKey(VectorScores(vectorHits, rrfK, a), GroupKey, g) && HasKey(KeywordScores(keywordHits, rrfK, b), GroupKey, g)
    ensures var o := CalculateRrfRank(vectorHits, keywordHits, rrfK, a, b)[j];
      && o.score > SumWhere(VectorScores(vectorHits, rrfK, a), GroupKey, FusedGroupKey(o), Score)
      && o.score > SumWhere(KeywordScores(keywordHits, rrfK, b), GroupKey, FusedGroupKey(o), Score)
  {
    SidesPositive(vectorHits, keywordHits, rrfK, a, b);
    var v := VectorScores(vectorHits, rrfK, a);
    var k := KeywordScores(keywordHits, rrfK, b);
    var fused := Fused(vectorHits, keywordHits, rrfK, a, b);
    var o := FuseScored(fused)[j];
    var g := FusedGroupKey(o);
    FusedScoreIsGroupSum(fused, j);
    SumWhereAppend(v, k, GroupKey, g, Score);
    HasKeyFirstIndex(v, GroupKey, g);
    HasKeyFirstIndex(k, GroupKey, g);
    SumWherePositive(v, GroupKey, g, Score);
    SumWherePositive(k, GroupKey, g, Score);
  }
}
