/**
 * Precision@k and Average Precision@k over a query's retrieved relevances.
 * A label counts as relevant only when it is greater than 1.
 */
module Precision {
  import opened Text
  import opened Tables
  import opened EvalUtils

  /** The relevance threshold: strictly above 1. */
  predicate Relevant(rel: int) {
    rel > 1
  }

  /** The number of relevant labels. */
  function Hits(s: seq<int>): (n: nat)
    ensures n <= |s|
  {
    if s == [] then 0 else Hits(s[..|s| - 1]) + (if Relevant(s[|s| - 1]) then 1 else 0)
  }

  /** `calculate_precision_at_K`: relevant labels among the first k, over k; 0 when there are none. */
  function PrecisionAtK(rels: seq<int>, k: int): (r: real)
    ensures PySlice(rels, k) == [] ==> r == 0.0
  {
    var top := PySlice(rels, k);
    if |top| == 0 then 0.0 else (Hits(top) as real) / (k as real)
  }

  /**
   * For k >= 1 precision is a fraction in [0, 1], and k times it counts the
   * relevant labels among the first k, however few items there are.
   */
  lemma PrecisionBounds(rels: seq<int>, k: int)
    requires k >= 1
    ensures 0.0 <= PrecisionAtK(rels, k) <= 1.0
    ensures PrecisionAtK(rels, k) * (k as real) == Hits(PySlice(rels, k)) as real
  {
    var top := PySlice(rels, k);
    if |top| > 0 {
      QuotientNonNegative(Hits(top) as real, k as real);
      RatioAtMostOne(Hits(top) as real, k as real);
    }
  }

  // ---------------------------------------------------------------------------
  // Average precision

  /**
   * The sum, over the relevant positions i (1-based) of `s`, of the number of
   * relevant labels up to i divided by i.
   */
  function SumPrecisions(s: seq<int>): real {
    if s == [] then 0.0
    else
      var n := |s| - 1;
      SumPrecisions(s[..n]) + (if Relevant(s[n]) then (Hits(s) as real) / ((n + 1) as real) else 0.0)
  }

  /** AP@k: the mean precision at the relevant positions among the first k; 0 when there are none. */
  function AveragePrecisionOf(rels: seq<int>, k: int): (r: real)
    ensures Hits(PySlice(rels, k)) == 0 ==> r == 0.0
  {
    var top := PySlice(rels, k);
    if |top| == 0 then 0.0
    else if Hits(top) > 0 then SumPrecisions(top) / (Hits(top) as real)
    else 0.0
  }

  /** Each precision summed is at most 1, so the sum is at most the number of terms. */
  lemma {:induction false} SumPrecisionsBounds(s: seq<int>)
    ensures 0.0 <= SumPrecisions(s) <= Hits(s) as real
  {
    if s != [] {
      var n := |s| - 1;
      SumPrecisionsBounds(s[..n]);
      if Relevant(s[n]) {
        QuotientNonNegative(Hits(s) as real, (n + 1) as real);
        RatioAtMostOne(Hits(s) as real, (n + 1) as real);
      }
    }
  }

  /** Average precision lies in [0, 1]. */
  lemma AveragePrecisionBounds(rels: seq<int>, k: int)
    ensures 0.0 <= AveragePrecisionOf(rels, k) <= 1.0
  {
    var top := PySlice(rels, k);
    if |top| > 0 && Hits(top) > 0 {
      SumPrecisionsBounds(top);
      QuotientNonNegative(SumPrecisions(top), Hits(top) as real);
      RatioAtMostOne(SumPrecisions(top), Hits(top) as real);
    }
  }

  /** Only the first k labels count for either metric: anything after them changes nothing. */
  lemma MetricsOnlyFirstK(rels: seq<int>, more: seq<int>, k: nat)
    requires k <= |rels|
    ensures PrecisionAtK(rels + more, k) == PrecisionAtK(rels, k)
    ensures AveragePrecisionOf(rels + more, k) == AveragePrecisionOf(rels, k)
  {
    assert PySlice(rels + more, k) == rels[..k] == PySlice(rels, k);
  }

  lemma {:induction false} HitsIgnoresLowLabel(s: seq<int>, i: nat, x: int)
    requires i < |s| && !Relevant(s[i]) && !Relevant(x)
    ensures Hits(s[i := x]) == Hits(s)
  {
    var n := |s| - 1;
    if i < n {
      assert s[i := x][..n] == s[..n][i := x];
      HitsIgnoresLowLabel(s[..n], i, x);
    } else {
      assert s[i := x][..n] == s[..n];
    }
  }

  lemma {:induction false} SumPrecisionsIgnoresLowLabel(s: seq<int>, i: nat, x: int)
    requires i < |s| && !Relevant(s[i]) && !Relevant(x)
    ensures SumPrecisions(s[i := x]) == SumPrecisions(s)
  {
    var n := |s| - 1;
    HitsIgnoresLowLabel(s, i, x);
    if i < n {
      assert s[i := x][..n] == s[..n][i := x];
      SumPrecisionsIgnoresLowLabel(s[..n], i, x);
    } else {
      assert s[i := x][..n] == s[..n];
    }
  }

  /**
   * The threshold is strict: turning one label of at most 1 into another
   * label of at most 1 (a 1 into a 0, say) changes neither metric.
   */
  lemma LowLabelsAlike(rels: seq<int>, k: int, i: nat, x: int)
    requires i < |rels| && !Relevant(rels[i]) && !Relevant(x)
    ensures PrecisionAtK(rels[i := x], k) == PrecisionAtK(rels, k)
    ensures AveragePrecisionOf(rels[i := x], k) == AveragePrecisionOf(rels, k)
  {
    var top := PySlice(rels, k);
    var top2 := PySlice(rels[i := x], k);
    assert |top2| == |top|;
    if i < |top| {
      assert top2 == top[i := x];
      HitsIgnoresLowLabel(top, i, x);
      SumPrecisionsIgnoresLowLabel(top, i, x);
    } else {
      assert top2 == top;
    }
  }

  /** `calculate_average_precision`: one pass over the first k labels. */
  method AveragePrecision(rels: seq<int>, k: int) returns (ap: real)
    ensures ap == AveragePrecisionOf(rels, k)
  {
    var top := PySlice(rels, k);
    if |top| == 0 {
      return 0.0;
    }
    var totalRel: nat := 0;
    var sumPrecisions := 0.0;
    for i := 0 to |top|
      invariant totalRel == Hits(top[..i])
      invariant sumPrecisions == SumPrecisions(top[..i])
    {
      assert top[..i + 1][..i] == top[..i];
      if Relevant(top[i]) {
        totalRel := totalRel + 1;
        var precisionAtI := (totalRel as real) / ((i + 1) as real);
        sumPrecisions := sumPrecisions + precisionAtI;
      }
    }
    assert top[..|top|] == top;
    ap := if totalRel > 0 then sumPrecisions / (totalRel as real) else 0.0;
  }

  // ---------------------------------------------------------------------------
  // `calculate_precision_scores`

  datatype PrecisionRow = PrecisionRow(queryId: string, precisionAtK: real, averagePrecision: real)

  /** The row of query `q`, over its own relevances in rank order. */
  function PrecisionRowOf(prepared: seq<RankedRow>, q: string, k: int): PrecisionRow {
    var rels := Relevances(prepared, q);
    PrecisionRow(q, PrecisionAtK(rels, k), AveragePrecisionOf(rels, k))
  }

  /** One row per query group of the prepared list, in group order. */
  function PrecisionRows(rows: seq<LabeledRow>, k: int): seq<PrecisionRow> {
    var prepared := PrepareRankedList(rows);
    var groups := QueryGroups(prepared);
    seq(|groups|, i requires 0 <= i < |groups| => PrecisionRowOf(prepared, groups[i], k))
  }

  /** The loop body of `calculate_precision_scores`: both metrics for one query. */
  method PrecisionOfGroup(prepared: seq<RankedRow>, q: string, k: int) returns (row: PrecisionRow)
    ensures row == PrecisionRowOf(prepared, q, k)
  {
    var rels := Relevances(prepared, q);
    var precisionAtK := PrecisionAtK(rels, k);
    var averagePrecision := AveragePrecision(rels, k);
    row := PrecisionRow(q, precisionAtK, averagePrecision);
  }

  /** `calculate_precision_scores`: prepare the list, then one row per query group. */
  method CalculatePrecisionScores(rows: seq<LabeledRow>, k: int) returns (out: seq<PrecisionRow>)
    ensures out == PrecisionRows(rows, k)
  {
    var prepared := PrepareRankedList(rows);
    var groups := QueryGroups(prepared);
    ghost var spec := PrecisionRows(rows, k);
    out := [];
    for i := 0 to |groups|
      invariant |spec| == |groups| && out == spec[..i]
    {
      var row := PrecisionOfGroup(prepared, groups[i], k);
      TakeSnoc(spec, i);
      out := out + [row];
    }
    assert spec[..|groups|] == spec;
  }

  /**
   * `calculate_precision_scores` gives one row per query id of its input, in
   * increasing query order; average precision is always in [0, 1], and so is
   * precision when k >= 1.
   */
  lemma PrecisionRowsPerQuery(rows: seq<LabeledRow>, k: int)
    ensures var out := PrecisionRows(rows, k);
      && (forall i, j :: 0 <= i < j < |out| ==> StrLess(out[i].queryId, out[j].queryId))
      && (forall q :: (exists i :: 0 <= i < |out| && out[i].queryId == q) <==> HasKey(rows, InQuery, q))
      && (forall i :: 0 <= i < |out| ==> 0.0 <= out[i].averagePrecision <= 1.0)
      && (k >= 1 ==> forall i :: 0 <= i < |out| ==> 0.0 <= out[i].precisionAtK <= 1.0)
  {
    var prepared := PrepareRankedList(rows);
    var groups := QueryGroups(prepared);
    var out := PrecisionRows(rows, k);
    QueryGroupsOfPrepared(rows);
    forall q ensures (exists i :: 0 <= i < |out| && out[i].queryId == q) <==> q in groups {
      if q in groups {
        var i :| 0 <= i < |groups| && groups[i] == q;
        assert out[i].queryId == q;
      }
    }
    forall i | 0 <= i < |out|
      ensures 0.0 <= out[i].averagePrecision <= 1.0
      ensures k >= 1 ==> 0.0 <= out[i].precisionAtK <= 1.0
    {
      AveragePrecisionBounds(Relevances(prepared, groups[i]), k);
      if k >= 1 {
        PrecisionBounds(Relevances(prepared, groups[i]), k);
      }
    }
  }
}
