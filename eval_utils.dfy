/**
 * `prepare_ranked_list`: the labelled hits of an evaluation run, with
 * missing relevance labels read as 0, sorted by query and rank, one row kept
 * per (query id, chunk id) -- the best ranked -- and the ranks of each query
 * renumbered 1, 2, ... so they stay contiguous.
 */
module EvalUtils {
  import opened Wrappers
  import opened Text
  import opened Tables

  /**
   * A labelled hit: query id, chunk id, rank, the relevance label as read
   * (None when the cell is empty; a number, possibly with a fraction,
   * otherwise) and the remaining columns, which are carried along.
   */
  datatype LabeledRow = LabeledRow(queryId: string, chunkId: string, rank: int, relevance: Option<real>, other: map<string, string>)

  /** A row of the prepared list: the relevance is always a number. */
  datatype RankedRow = RankedRow(queryId: string, chunkId: string, rank: int, relevance: int, other: map<string, string>)

  function InPair(x: LabeledRow): (string, string) { (x.queryId, x.chunkId) }
  function RowPair(x: RankedRow): (string, string) { (x.queryId, x.chunkId) }
  function RowQuery(x: RankedRow): string { x.queryId }
  function RowRank(x: RankedRow): int { x.rank }

  /** `fillna(0).astype(int)` on the relevance column. */
  function Filled(x: LabeledRow): RankedRow {
    RankedRow(x.queryId, x.chunkId, x.rank, CleanLabel(x.relevance), x.other)
  }

  /** The relevance column cleaned row by row; every other column is left as it is. */
  function FillRelevance(rows: seq<LabeledRow>): (r: seq<RankedRow>)
    ensures |r| == |rows|
    ensures forall i :: 0 <= i < |rows| ==> r[i] == Filled(rows[i])
    ensures forall i :: 0 <= i < |rows| ==>
      && r[i].queryId == rows[i].queryId && r[i].chunkId == rows[i].chunkId
      && r[i].rank == rows[i].rank && r[i].other == rows[i].other
    ensures forall i :: 0 <= i < |rows| && rows[i].relevance.None? ==> r[i].relevance == 0
    ensures forall i :: 0 <= i < |rows| && rows[i].relevance.Some? ==>
      var x := rows[i].relevance.value;
      && (0.0 <= x ==> r[i].relevance as real <= x < r[i].relevance as real + 1.0)
      && (x < 0.0 ==> r[i].relevance as real - 1.0 < x <= r[i].relevance as real)
  {
    seq(|rows|, i requires 0 <= i < |rows| => Filled(rows[i]))
  }

  /** `sort_values(by=["query_id", "rank"], ascending=[True, True])`. */
  predicate ByQueryThenRank(x: RankedRow, y: RankedRow) {
    StrLess(x.queryId, y.queryId) || (x.queryId == y.queryId && x.rank <= y.rank)
  }

  function Reranked(x: RankedRow, rank: int): RankedRow {
    x.(rank := rank)
  }

  function SortedRows(rows: seq<LabeledRow>): seq<RankedRow> {
    Sort(ByQueryThenRank, FillRelevance(rows))
  }

  /** `drop_duplicates(subset=["query_id", "chunk_id"], keep="first")`. */
  function KeptRows(rows: seq<LabeledRow>): seq<RankedRow> {
    KeepFirst(SortedRows(rows), RowPair)
  }

  /** `prepare_ranked_list`: ranks become `groupby("query_id").cumcount() + 1`. */
  function PrepareRankedList(rows: seq<LabeledRow>): (out: seq<RankedRow>)
    ensures |out| == |KeptRows(rows)|
  {
    Renumber(KeptRows(rows), RowQuery, Reranked)
  }

  lemma ByQueryThenRankIsTotalPreorder()
    ensures IsTotalPreorder(ByQueryThenRank)
  {
    forall x, y ensures ByQueryThenRank(x, y) || ByQueryThenRank(y, x) {
      StrLessTotal(x.queryId, y.queryId);
    }
    forall x, y, z | ByQueryThenRank(x, y) && ByQueryThenRank(y, z) ensures ByQueryThenRank(x, z) {
      if StrLess(x.queryId, y.queryId) && StrLess(y.queryId, z.queryId) {
        StrLessTransitive(x.queryId, y.queryId, z.queryId);
      }
    }
  }

  lemma KeptRowsSorted(rows: seq<LabeledRow>)
    ensures SortedBy(ByQueryThenRank, SortedRows(rows))
    ensures SortedBy(ByQueryThenRank, KeptRows(rows))
  {
    ByQueryThenRankIsTotalPreorder();
    SortSorted(ByQueryThenRank, FillRelevance(rows));
    KeepFirstSorted(ByQueryThenRank, SortedRows(rows), RowPair);
  }

  /**
   * The output is ordered by query id, and within a query by strictly
   * increasing rank.
   */
  lemma PreparedOrdered(rows: seq<LabeledRow>)
    ensures var out := PrepareRankedList(rows);
      forall i, j :: 0 <= i < j < |out| ==>
        StrLess(out[i].queryId, out[j].queryId) || (out[i].queryId == out[j].queryId && out[i].rank < out[j].rank)
  {
    KeptRowsSorted(rows);
    var kept := KeptRows(rows);
    var out := Renumber(kept, RowQuery, Reranked);
    forall i, j | 0 <= i < j < |out|
      ensures StrLess(out[i].queryId, out[j].queryId) || (out[i].queryId == out[j].queryId && out[i].rank < out[j].rank)
    {
      RenumberedQuery(kept, i);
      RenumberedQuery(kept, j);
      assert ByQueryThenRank(kept[i], kept[j]);
      if kept[i].queryId == kept[j].queryId {
        RenumberedRanksGrow(kept, i, j);
      }
    }
  }

  /** Renumbering keeps every row's query id. */
  lemma RenumberedQuery(kept: seq<RankedRow>, i: nat)
    requires i < |kept|
    ensures Renumber(kept, RowQuery, Reranked)[i].queryId == kept[i].queryId
  {
    RenumberKeeps(kept, RowQuery, Reranked, RowQuery, RowQuery, i);
  }

  /** Of two rows of the same query, the later one gets the larger new rank. */
  lemma RenumberedRanksGrow(kept: seq<RankedRow>, i: nat, j: nat)
    requires i < j < |kept| && kept[i].queryId == kept[j].queryId
    ensures Renumber(kept, RowQuery, Reranked)[i].rank < Renumber(kept, RowQuery, Reranked)[j].rank
  {
    RenumberRanksGrow(kept, RowQuery, Reranked, RowRank, i, j);
  }

  /** No two output rows share (query id, chunk id), and every pair of the input keeps a row. */
  lemma PreparedOnePerPair(rows: seq<LabeledRow>, p: (string, string))
    ensures Occurrences(PrepareRankedList(rows), RowPair, p) == if HasKey(rows, InPair, p) then 1 else 0
  {
    var filled := FillRelevance(rows);
    OccurrencesOfRenumber(KeptRows(rows), RowQuery, Reranked, RowPair, RowPair, p);
    OccurrencesOfKeepFirst(SortedRows(rows), RowPair, p);
    SortHasKey(ByQueryThenRank, filled, RowPair, p);
    if HasKey(rows, InPair, p) {
      var i :| 0 <= i < |rows| && InPair(rows[i]) == p;
      assert RowPair(filled[i]) == p;
    }
    if HasKey(filled, RowPair, p) {
      var i :| 0 <= i < |filled| && RowPair(filled[i]) == p;
      assert InPair(rows[i]) == p;
    }
  }

  /** In a list sorted by query and rank, the first row of a pair has the pair's least rank. */
  lemma FirstOfPairHasLeastRank(s: seq<RankedRow>, p: (string, string))
    requires SortedBy(ByQueryThenRank, s)
    requires FirstIndex(s, RowPair, p) < |s|
    ensures forall t :: 0 <= t < |s| && RowPair(s[t]) == p ==> s[FirstIndex(s, RowPair, p)].rank <= s[t].rank
  {
    var f := FirstIndex(s, RowPair, p);
    forall t | 0 <= t < |s| && RowPair(s[t]) == p ensures s[f].rank <= s[t].rank {
      if f < t {
        assert ByQueryThenRank(s[f], s[t]);
        StrLessIrreflexive(s[f].queryId);
      }
    }
  }

  /** Of the input rows with the same (query id, chunk id) as row `m`, row `m` has the smallest rank. */
  predicate LeastRankOfPair(rows: seq<LabeledRow>, m: nat)
    requires m < |rows|
  {
    forall i :: 0 <= i < |rows| && InPair(rows[i]) == InPair(rows[m]) ==> rows[m].rank <= rows[i].rank
  }

  /** The first sorted row of a pair is a filled input row of least rank for that pair. */
  lemma SortedFirstIsBestRanked(rows: seq<LabeledRow>, p: (string, string))
    requires FirstIndex(SortedRows(rows), RowPair, p) < |SortedRows(rows)|
    ensures exists m :: 0 <= m < |rows| && SortedRows(rows)[FirstIndex(SortedRows(rows), RowPair, p)] == Filled(rows[m]) && LeastRankOfPair(rows, m)
  {
    var filled := FillRelevance(rows);
    var sorted := SortedRows(rows);
    var f := FirstIndex(sorted, RowPair, p);
    KeptRowsSorted(rows);
    FirstOfPairHasLeastRank(sorted, p);
    assert sorted[f] in multiset(filled);
    var m :| 0 <= m < |filled| && filled[m] == sorted[f];
    forall i | 0 <= i < |rows| && InPair(rows[i]) == InPair(rows[m]) ensures rows[m].rank <= rows[i].rank {
      assert filled[i] in multiset(sorted);
      var t :| 0 <= t < |sorted| && sorted[t] == filled[i];
      assert RowPair(sorted[t]) == p;
    }
    assert LeastRankOfPair(rows, m);
  }

  /**
   * Each output row is an input row with its relevance filled and its rank
   * rewritten, and of the input rows with its (query id, chunk id) it is one
   * with the smallest rank.
   */
  lemma PreparedRowIsBestRanked(rows: seq<LabeledRow>, j: nat)
    requires j < |PrepareRankedList(rows)|
    ensures var o := PrepareRankedList(rows)[j];
      exists m :: 0 <= m < |rows| && o == Filled(rows[m]).(rank := o.rank) && LeastRankOfPair(rows, m)
  {
    var kept := KeptRows(rows);
    var o := PrepareRankedList(rows)[j];
    RenumberAt(kept, RowQuery, Reranked, j);
    KeptRowIsBestRanked(rows, j);
    var m :| 0 <= m < |rows| && kept[j] == Filled(rows[m]) && LeastRankOfPair(rows, m);
    assert o == Filled(rows[m]).(rank := o.rank);
  }

  /** Each kept row is a filled input row of least rank for its pair. */
  lemma KeptRowIsBestRanked(rows: seq<LabeledRow>, j: nat)
    requires j < |KeptRows(rows)|
    ensures exists m :: 0 <= m < |rows| && KeptRows(rows)[j] == Filled(rows[m]) && LeastRankOfPair(rows, m)
  {
    var sorted := SortedRows(rows);
    var kept := KeptRows(rows);
    KeepFirstKeepsFirsts(sorted, RowPair);
    var p := RowPair(kept[j]);
    var f := FirstIndex(sorted, RowPair, p);
    assert kept[j] == sorted[f];
    SortedFirstIsBestRanked(rows, p);
  }

  /** Within each query, the ranks are 1, 2, ..., n in output order. */
  lemma PreparedRanksContiguous(rows: seq<LabeledRow>, q: string)
    ensures RanksOf(PrepareRankedList(rows), RowQuery, RowRank, q) == OneTo(Occurrences(PrepareRankedList(rows), RowQuery, q))
  {
    RenumberContiguous(KeptRows(rows), RowQuery, Reranked, RowQuery, RowRank, q);
    OccurrencesOfRenumber(KeptRows(rows), RowQuery, Reranked, RowQuery, RowQuery, q);
  }

  // ---------------------------------------------------------------------------
  // `groupby("query_id")` over the prepared list

  function InQuery(x: LabeledRow): string { x.queryId }

  /** The query ids of the prepared list, each once, in the order `groupby` visits them. */
  function QueryGroups(prepared: seq<RankedRow>): (qs: seq<string>)
    ensures |qs| == |KeepFirst(prepared, RowQuery)|
  {
    var firsts := KeepFirst(prepared, RowQuery);
    seq(|firsts|, i requires 0 <= i < |firsts| => firsts[i].queryId)
  }

  /** The relevance column of the group of query `q`, in row order. */
  function Relevances(s: seq<RankedRow>, q: string): (rels: seq<int>)
    ensures |rels| == Occurrences(s, RowQuery, q)
  {
    if s == [] then []
    else Relevances(s[..|s| - 1], q) + (if s[|s| - 1].queryId == q then [s[|s| - 1].relevance] else [])
  }

  /**
   * `groupby("query_id")` visits the query ids of the input, each exactly
   * once, in increasing order.
   */
  lemma QueryGroupsOfPrepared(rows: seq<LabeledRow>)
    ensures var qs := QueryGroups(PrepareRankedList(rows));
      (forall i, j :: 0 <= i < j < |qs| ==> StrLess(qs[i], qs[j]))
      && (forall q :: q in qs <==> HasKey(rows, InQuery, q))
  {
    var out := PrepareRankedList(rows);
    PreparedOrdered(rows);
    QueryGroupsOrdered(out);
    forall q ensures q in QueryGroups(out) <==> HasKey(rows, InQuery, q) {
      QueryKept(rows, q);
      QueryGroupsHasQuery(out, q);
    }
  }

  /** A list ordered by query id has its groups in increasing query order. */
  lemma QueryGroupsOrdered(out: seq<RankedRow>)
    requires forall i, j :: 0 <= i < j < |out| ==> StrLess(out[i].queryId, out[j].queryId) || out[i].queryId == out[j].queryId
    ensures var qs := QueryGroups(out);
      forall i, j :: 0 <= i < j < |qs| ==> StrLess(qs[i], qs[j])
  {
    var firsts := KeepFirst(out, RowQuery);
    var qs := QueryGroups(out);
    KeepFirstKeepsFirsts(out, RowQuery);
    KeepFirstInFirstAppearanceOrder(out, RowQuery);
    forall i, j | 0 <= i < j < |qs| ensures StrLess(qs[i], qs[j]) {
      KeepFirstKeysDistinct(out, RowQuery, i, j);
      var fi := FirstIndex(out, RowQuery, qs[i]);
      var fj := FirstIndex(out, RowQuery, qs[j]);
      assert firsts[i] == out[fi] && firsts[j] == out[fj] && fi < fj;
    }
  }

  /** The groups are exactly the query ids of the list. */
  lemma QueryGroupsHasQuery(out: seq<RankedRow>, q: string)
    ensures q in QueryGroups(out) <==> HasKey(out, RowQuery, q)
  {
    var firsts := KeepFirst(out, RowQuery);
    var qs := QueryGroups(out);
    KeepFirstHasKey(out, RowQuery, q);
    if q in qs {
      var i :| 0 <= i < |qs| && qs[i] == q;
      assert RowQuery(firsts[i]) == q;
    }
    if HasKey(firsts, RowQuery, q) {
      var i :| 0 <= i < |firsts| && RowQuery(firsts[i]) == q;
      assert qs[i] == q;
    }
  }

  /** The prepared list has a row of query `q` exactly when the input has. */
  lemma QueryKept(rows: seq<LabeledRow>, q: string)
    ensures HasKey(PrepareRankedList(rows), RowQuery, q) <==> HasKey(rows, InQuery, q)
  {
    var kept := KeptRows(rows);
    KeptHasQuery(rows, q);
    OccurrencesOfRenumber(kept, RowQuery, Reranked, RowQuery, RowQuery, q);
    OccurrencesHasKey(PrepareRankedList(rows), RowQuery, q);
    OccurrencesHasKey(kept, RowQuery, q);
  }

  /** Dropping duplicate pairs keeps every query of the input. */
  lemma KeptHasQuery(rows: seq<LabeledRow>, q: string)
    ensures HasKey(KeptRows(rows), RowQuery, q) <==> HasKey(rows, InQuery, q)
  {
    KeepFirstHasCoarserKey(SortedRows(rows), RowPair, (p: (string, string)) => p.0, RowQuery, q);
    SortHasKey(ByQueryThenRank, FillRelevance(rows), RowQuery, q);
    FilledHasQuery(rows, q);
  }

  lemma FilledHasQuery(rows: seq<LabeledRow>, q: string)
    ensures HasKey(FillRelevance(rows), RowQuery, q) <==> HasKey(rows, InQuery, q)
  {
    var filled := FillRelevance(rows);
    if HasKey(rows, InQuery, q) {
      var i :| 0 <= i < |rows| && InQuery(rows[i]) == q;
      assert RowQuery(filled[i]) == q;
    }
    if HasKey(filled, RowQuery, q) {
      var i :| 0 <= i < |filled| && RowQuery(filled[i]) == q;
      assert InQuery(rows[i]) == q;
    }
  }

  /** Labels read from the input, all non-negative (an empty label counts as 0). */
  predicate LabelsNonNegative(rows: seq<LabeledRow>) {
    forall i :: 0 <= i < |rows| ==> rows[i].relevance.GetOr(0.0) >= 0.0
  }

  /** Non-negative labels give non-negative relevances in every group of the prepared list. */
  lemma PreparedRelevancesNonNegative(rows: seq<LabeledRow>, q: string)
    requires LabelsNonNegative(rows)
    ensures forall x :: x in Relevances(PrepareRankedList(rows), q) ==> x >= 0
  {
    var out := PrepareRankedList(rows);
    forall j | 0 <= j < |out| ensures out[j].relevance >= 0 {
      PreparedRowIsBestRanked(rows, j);
    }
    RelevancesOf(out, q);
  }

  /** Every relevance of a group is the relevance of one of its rows. */
  lemma {:induction false} RelevancesOf(s: seq<RankedRow>, q: string)
    ensures forall x :: x in Relevances(s, q) ==> exists i :: 0 <= i < |s| && s[i].queryId == q && s[i].relevance == x
  {
    if s != [] {
      var n := |s| - 1;
      RelevancesOf(s[..n], q);
      forall x | x in Relevances(s, q) ensures exists i :: 0 <= i < |s| && s[i].queryId == q && s[i].relevance == x {
        if x in Relevances(s[..n], q) {
          var i :| 0 <= i < n && s[..n][i].queryId == q && s[..n][i].relevance == x;
          assert s[i] == s[..n][i];
        } else {
          assert s[n].queryId == q && s[n].relevance == x;
        }
      }
    }
  }

  // ---------------------------------------------------------------------------
  // Shared by the metrics

  /** Python's `s[:k]`: the first k items, or all but the last -k when k is negative. */
  function PySlice<T>(s: seq<T>, k: int): (r: seq<T>)
    ensures |r| <= |s| && r == s[..|r|]
    ensures 0 <= k ==> |r| == if k < |s| then k else |s|
    ensures k < 0 ==> |r| == if |s| + k < 0 then 0 else |s| + k
  {
    if 0 <= k then (if k < |s| then s[..k] else s)
    else if |s| + k < 0 then []
    else s[..|s| + k]
  }

  lemma QuotientNonNegative(a: real, b: real)
    requires a >= 0.0 && b > 0.0
    ensures a / b >= 0.0
  {
    assert (a / b) * b == a;
  }

  lemma RatioAtMostOne(a: real, b: real)
    requires a <= b && b > 0.0
    ensures a / b <= 1.0
  {
    assert (a / b) * b == a;
  }
}
