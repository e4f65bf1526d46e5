/**
 * NDCG@k: the discounted cumulative gain of a query's retrieved relevances,
 * (2^rel - 1) / log2(i + 1) summed over the 1-based positions i of the first
 * k, divided by the same sum for the relevances sorted best first.
 *
 * The discount log2(i + 1) is a parameter `disc`, assumed only to be 1 at
 * position 1, positive and strictly increasing, which is what the bounds on
 * NDCG need.
 */
module Ndcg {
  import opened Text
  import opened Tables
  import opened EvalUtils

  // ---------------------------------------------------------------------------
  // The gain

  /** 2 raised to an integer power; negative powers give fractions. */
  function Pow2(e: int): (r: real)
    ensures r > 0.0
    decreases if e < 0 then -e else e
  {
    if e == 0 then 1.0
    else if e > 0 then 2.0 * Pow2(e - 1)
    else Pow2(e + 1) / 2.0
  }

  lemma Pow2Succ(e: int)
    ensures Pow2(e + 1) == 2.0 * Pow2(e)
  {
  }

  lemma {:induction false} Pow2Monotone(a: int, b: int)
    requires a <= b
    ensures Pow2(a) <= Pow2(b)
    decreases b - a
  {
    if a < b {
      Pow2Monotone(a, b - 1);
      Pow2Succ(b - 1);
    }
  }

  /** The gain of a relevance label: 2^rel - 1. */
  function Gain(rel: int): real {
    Pow2(rel) - 1.0
  }

  /** A better label never gains less; the gain is zero at 0 and negative below. */
  lemma GainMonotone(a: int, b: int)
    requires a <= b
    ensures Gain(a) <= Gain(b)
  {
    Pow2Monotone(a, b);
  }

  lemma GainIsMonotone()
    ensures forall x, y :: x <= y ==> Gain(x) <= Gain(y)
  {
    forall x, y | x <= y ensures Gain(x) <= Gain(y) {
      GainMonotone(x, y);
    }
  }

  lemma GainSign(rel: int)
    ensures rel >= 0 ==> Gain(rel) >= 0.0
    ensures rel < 0 ==> Gain(rel) < 0.0
  {
    if rel >= 0 {
      Pow2Monotone(0, rel);
    } else {
      Pow2Monotone(rel, -1);
    }
  }

  // ---------------------------------------------------------------------------
  // DCG

  /** Every 1-based position has a positive discount, so dividing by it is defined. */
  ghost predicate PositiveDiscount(disc: nat -> real) {
    forall i: nat :: 1 <= i ==> disc(i) > 0.0
  }

  /** The discount of each 1-based position: 1 at position 1, positive, strictly increasing. */
  ghost predicate IsDiscount(disc: nat -> real) {
    && disc(1) == 1.0
    && PositiveDiscount(disc)
    && (forall i: nat, j: nat :: 1 <= i < j ==> disc(i) < disc(j))
  }

  /** The sum of Gain(s[i]) / disc(pos + i + 1): the items of `s` sit at positions pos+1, pos+2, .... */
  function Dcg(s: seq<int>, disc: nat -> real, pos: nat): real
    requires PositiveDiscount(disc)
  {
    if s == [] then 0.0 else Gain(s[0]) / disc(pos + 1) + Dcg(s[1..], disc, pos + 1)
  }

  /** `dcg_at_k`: the DCG of the first k relevances; 0 when there are none. */
  function DcgAtK(rels: seq<int>, k: int, disc: nat -> real): (r: real)
    requires PositiveDiscount(disc)
    ensures rels == [] || k == 0 ==> r == 0.0
  {
    var top := PySlice(rels, k);
    if |top| == 0 then 0.0 else Dcg(top, disc, 0)
  }

  /** Only the first k relevances count: anything after them changes nothing. */
  lemma DcgOnlyFirstK(rels: seq<int>, more: seq<int>, k: nat, disc: nat -> real)
    requires PositiveDiscount(disc)
    requires k <= |rels|
    ensures DcgAtK(rels + more, k, disc) == DcgAtK(rels, k, disc)
  {
    assert PySlice(rels + more, k) == rels[..k] == PySlice(rels, k);
  }

  /** Appending an item at position n + 1 adds its discounted gain. */
  lemma {:induction false} DcgSnoc(s: seq<int>, x: int, disc: nat -> real, pos: nat)
    requires PositiveDiscount(disc)
    ensures Dcg(s + [x], disc, pos) == Dcg(s, disc, pos) + Gain(x) / disc(pos + |s| + 1)
  {
    if s != [] {
      assert (s + [x])[1..] == s[1..] + [x];
      DcgSnoc(s[1..], x, disc, pos + 1);
    }
  }

  /** Non-negative labels give a non-negative DCG. */
  lemma {:induction false} DcgNonNegative(s: seq<int>, disc: nat -> real, pos: nat)
    requires PositiveDiscount(disc)
    requires forall x :: x in s ==> x >= 0
    ensures Dcg(s, disc, pos) >= 0.0
  {
    if s != [] {
      assert s[0] in s;
      GainSign(s[0]);
      assert disc(pos + 1) > 0.0;
      QuotientNonNegative(Gain(s[0]), disc(pos + 1));
      assert forall x :: x in s[1..] ==> x in s;
      DcgNonNegative(s[1..], disc, pos + 1);
    }
  }

  // ---------------------------------------------------------------------------
  // The ideal order maximises DCG

  /** Items sorted best first. */
  predicate NonIncreasing(s: seq<int>) {
    forall i, j :: 0 <= i < j < |s| ==> s[i] >= s[j]
  }

  predicate Ge(x: int, y: int) { x >= y }

  lemma GeIsTotalPreorder()
    ensures IsTotalPreorder(Ge)
  {
  }

  /** `np.sort(rels)[::-1]`: the relevances in non-increasing order. */
  function SortDesc(rels: seq<int>): (r: seq<int>)
    ensures multiset(r) == multiset(rels)
    ensures NonIncreasing(r)
  {
    GeIsTotalPreorder();
    SortSorted(Ge, rels);
    var r := Sort(Ge, rels);
    assert forall i, j :: 0 <= i < j < |r| ==> Ge(r[i], r[j]);
    r
  }

  /** Position weights that never grow and never go negative. */
  ghost predicate Decreasing(w: nat -> real) {
    forall i: nat, j: nat :: i <= j ==> 0.0 <= w(j) <= w(i)
  }

  /** A gain that never drops for a better label. */
  ghost predicate Monotone(g: int -> real) {
    forall x, y :: x <= y ==> g(x) <= g(y)
  }

  /** The sum of w(off + i) * g(s[i]): item i weighted by its position. */
  function WeightedGain(s: seq<int>, g: int -> real, w: nat -> real, off: nat): real {
    if s == [] then 0.0 else w(off) * g(s[0]) + WeightedGain(s[1..], g, w, off + 1)
  }

  lemma Distribute(w: real, a: real, b: real)
    ensures w * a == w * b + w * (a - b)
  {
  }

  /** Replacing item i changes the weighted gain by its weight times the change in gain. */
  lemma {:induction false} WeightedGainUpdate(s: seq<int>, g: int -> real, w: nat -> real, off: nat, i: nat, x: int)
    requires i < |s|
    ensures WeightedGain(s[i := x], g, w, off) == WeightedGain(s, g, w, off) + w(off + i) * (g(x) - g(s[i]))
  {
    assert s[i := x][1..] == if i == 0 then s[1..] else s[1..][i - 1 := x];
    if i > 0 {
      assert s[i := x][0] == s[0];
      WeightedGainUpdate(s[1..], g, w, off + 1, i - 1, x);
    } else {
      Distribute(w(off), g(x), g(s[0]));
    }
  }

  /** Swapping gains ga <= gm into weights w0 >= wp puts the larger gain on the larger weight. */
  lemma ExchangeGain(w0: real, wp: real, ga: real, gm: real)
    requires w0 >= wp && gm >= ga
    ensures wp * (ga - gm) + w0 * (gm - ga) >= 0.0
  {
    assert wp * (ga - gm) == -(wp * (gm - ga));
    assert w0 * (gm - ga) - wp * (gm - ga) == (w0 - wp) * (gm - ga);
  }

  /** Moving a larger item to the front of a smaller one does not lower the weighted gain. */
  lemma SwapToFront(s: seq<int>, g: int -> real, w: nat -> real, off: nat, p: nat)
    requires Decreasing(w) && Monotone(g)
    requires 0 < p < |s| && s[p] >= s[0]
    ensures WeightedGain(s, g, w, off) <= WeightedGain(s[p := s[0]][0 := s[p]], g, w, off)
  {
    var m, a := s[p], s[0];
    var u := s[p := a];
    WeightedGainUpdate(s, g, w, off, p, a);
    WeightedGainUpdate(u, g, w, off, 0, m);
    assert w(off) >= w(off + p);
    assert u[0] == a;
    ExchangeGain(w(off), w(off + p), g(a), g(m));
  }

  /** Moving the item at `p` to the front and the front item to `p` keeps the items. */
  lemma SwapKeepsItems(s: seq<int>, p: nat)
    requires 0 < p < |s|
    ensures var s1 := s[p := s[0]][0 := s[p]];
      s1 == [s[p]] + s1[1..] && multiset(s1) == multiset(s)
  {
    var s1 := s[p := s[0]][0 := s[p]];
    assert s == [s[0]] + s[1..p] + [s[p]] + s[p + 1..];
    assert s1 == [s[p]] + s[1..p] + [s[0]] + s[p + 1..];
    assert s1[1..] == s[1..p] + [s[0]] + s[p + 1..];
  }

  /** The first of the items sorted best first is at least every item. */
  lemma FrontIsMax(s: seq<int>, t: seq<int>, i: nat)
    requires multiset(s) == multiset(t) && NonIncreasing(t)
    requires i < |s|
    ensures |t| > 0 && s[i] <= t[0]
  {
    assert s[i] in multiset(t);
    var q :| 0 <= q < |t| && t[q] == s[i];
  }

  /** Two lists with the same items and the same first item have the same remaining items. */
  lemma SameTail(a: seq<int>, b: seq<int>)
    requires |a| > 0 && |b| > 0 && a[0] == b[0]
    requires multiset(a) == multiset(b)
    ensures multiset(a[1..]) == multiset(b[1..])
  {
    assert a == [a[0]] + a[1..];
    assert b == [b[0]] + b[1..];
    assert multiset(a[1..]) == multiset(a) - multiset{a[0]};
    assert multiset(b[1..]) == multiset(b) - multiset{b[0]};
  }

  /** Two lists with the same first item differ in weighted gain only by their tails. */
  lemma WeightedGainFront(a: seq<int>, b: seq<int>, g: int -> real, w: nat -> real, off: nat)
    requires |a| > 0 && |b| > 0 && a[0] == b[0]
    ensures WeightedGain(a, g, w, off) - WeightedGain(b, g, w, off)
      == WeightedGain(a[1..], g, w, off + 1) - WeightedGain(b[1..], g, w, off + 1)
  {
  }

  /**
   * The rearrangement inequality: the items in non-increasing order have the
   * largest weighted gain of any order of the same items.
   */
  lemma {:induction false} WeightedGainAtMostIdeal(s: seq<int>, t: seq<int>, g: int -> real, w: nat -> real, off: nat)
    requires Decreasing(w) && Monotone(g)
    requires multiset(s) == multiset(t) && NonIncreasing(t)
    ensures WeightedGain(s, g, w, off) <= WeightedGain(t, g, w, off)
    decreases |s|
  {
    assert |s| == |multiset(s)| == |t|;
    if s != [] {
      var m := t[0];
      assert m in multiset(s);
      var p :| 0 <= p < |s| && s[p] == m;
      var s1 := if p == 0 then s else s[p := s[0]][0 := m];
      if p > 0 {
        FrontIsMax(s, t, 0);
        SwapToFront(s, g, w, off, p);
        SwapKeepsItems(s, p);
      }
      assert s1[0] == m && |s1| == |t|;
      assert WeightedGain(s, g, w, off) <= WeightedGain(s1, g, w, off);
      SameTail(s1, t);
      assert NonIncreasing(t[1..]);
      WeightedGainAtMostIdeal(s1[1..], t[1..], g, w, off + 1);
      WeightedGainFront(s1, t, g, w, off);
    }
  }

  /** The weight of position `i` (0-based): 1 / disc(i + 1) within the first `n`, 0 beyond. */
  function DcgWeights(disc: nat -> real, n: nat): (w: nat -> real)
    requires PositiveDiscount(disc)
  {
    (i: nat) => if i < n then 1.0 / disc(i + 1) else 0.0
  }

  lemma Reciprocals(a: real, b: real)
    requires 0.0 < a <= b
    ensures 0.0 < 1.0 / b <= 1.0 / a
  {
    assert (1.0 / b) * b == 1.0 == (1.0 / a) * a;
  }

  lemma DcgWeightsDecreasing(disc: nat -> real, n: nat)
    requires IsDiscount(disc)
    ensures Decreasing(DcgWeights(disc, n))
  {
    var w := DcgWeights(disc, n);
    forall i: nat, j: nat | i <= j ensures 0.0 <= w(j) <= w(i) {
      if j < n {
        Reciprocals(disc(i + 1), disc(j + 1));
      } else if i < n {
        Reciprocals(disc(i + 1), disc(i + 1));
      }
    }
  }

  lemma {:induction false} WeightedGainBeyond(s: seq<int>, g: int -> real, w: nat -> real, off: nat)
    requires forall i: nat :: off <= i ==> w(i) == 0.0
    ensures WeightedGain(s, g, w, off) == 0.0
  {
    if s != [] {
      WeightedGainBeyond(s[1..], g, w, off + 1);
    }
  }

  /** The DCG of the first n items is their weighted gain. */
  lemma {:induction false} DcgIsWeightedGain(s: seq<int>, disc: nat -> real, n: nat, off: nat)
    requires PositiveDiscount(disc)
    requires off <= n <= off + |s|
    ensures Dcg(s[..n - off], disc, off) == WeightedGain(s, Gain, DcgWeights(disc, n), off)
  {
    var w := DcgWeights(disc, n);
    if n == off {
      assert s[..0] == [];
      WeightedGainBeyond(s, Gain, w, off);
    } else {
      var top := s[..n - off];
      assert top[1..] == s[1..][..n - (off + 1)];
      DcgIsWeightedGain(s[1..], disc, n, off + 1);
      assert w(off) == 1.0 / disc(off + 1);
      assert Gain(s[0]) / disc(off + 1) == (1.0 / disc(off + 1)) * Gain(s[0]);
    }
  }

  /** The DCG of any order is at most the DCG of the best-first order (the IDCG). */
  lemma DcgAtMostIdeal(rels: seq<int>, k: int, disc: nat -> real)
    requires IsDiscount(disc)
    ensures DcgAtK(rels, k, disc) <= DcgAtK(SortDesc(rels), k, disc)
  {
    var t := SortDesc(rels);
    assert |t| == |multiset(t)| == |rels|;
    var n := |PySlice(rels, k)|;
    assert |PySlice(t, k)| == n;
    if n > 0 {
      DcgIsWeightedGain(rels, disc, n, 0);
      DcgIsWeightedGain(t, disc, n, 0);
      DcgWeightsDecreasing(disc, n);
      GainIsMonotone();
      WeightedGainAtMostIdeal(rels, t, Gain, DcgWeights(disc, n), 0);
    }
  }

  // ---------------------------------------------------------------------------
  // NDCG

  /** DCG over IDCG, or 0 when the IDCG is not positive. */
  function NdcgValue(rels: seq<int>, k: int, disc: nat -> real): (r: real)
    requires PositiveDiscount(disc)
    ensures DcgAtK(SortDesc(rels), k, disc) <= 0.0 ==> r == 0.0
  {
    var dcg := DcgAtK(rels, k, disc);
    var idcg := DcgAtK(SortDesc(rels), k, disc);
    if idcg > 0.0 then dcg / idcg else 0.0
  }

  /** NDCG is at most 1, and at least 0 when no label is negative. */
  lemma NdcgBounds(rels: seq<int>, k: int, disc: nat -> real)
    requires IsDiscount(disc)
    ensures NdcgValue(rels, k, disc) <= 1.0
    ensures (forall x :: x in rels ==> x >= 0) ==> 0.0 <= NdcgValue(rels, k, disc)
  {
    var dcg := DcgAtK(rels, k, disc);
    var idcg := DcgAtK(SortDesc(rels), k, disc);
    DcgAtMostIdeal(rels, k, disc);
    if idcg > 0.0 {
      RatioAtMostOne(dcg, idcg);
      if forall x :: x in rels ==> x >= 0 {
        var top := PySlice(rels, k);
        if |top| > 0 {
          assert forall x :: x in top ==> x in rels;
          DcgNonNegative(top, disc, 0);
          QuotientNonNegative(dcg, idcg);
        }
      }
    }
  }

  /** Relevances already best first score exactly 1 when their IDCG is positive. */
  lemma NdcgOfIdealOrder(rels: seq<int>, k: int, disc: nat -> real)
    requires IsDiscount(disc)
    requires NonIncreasing(rels)
    requires DcgAtK(SortDesc(rels), k, disc) > 0.0
    ensures NdcgValue(rels, k, disc) == 1.0
  {
    assert SortedBy(Ge, rels);
    SortOfSorted(Ge, rels);
    assert SortDesc(rels) == rels;
    RatioSelf(DcgAtK(rels, k, disc));
  }

  lemma RatioSelf(a: real)
    requires a > 0.0
    ensures a / a == 1.0
  {
  }

  // ---------------------------------------------------------------------------
  // `calculate_ndcg`

  datatype NdcgRow = NdcgRow(queryId: string, ndcg: real, dcg: real)

  /** The row of query `q`: its NDCG and DCG over its own relevances in rank order. */
  function NdcgRowOf(prepared: seq<RankedRow>, q: string, k: int, disc: nat -> real): NdcgRow
    requires PositiveDiscount(disc)
  {
    var rels := Relevances(prepared, q);
    NdcgRow(q, NdcgValue(rels, k, disc), DcgAtK(rels, k, disc))
  }

  /** One row per query group of the prepared list, in group order. */
  function NdcgRows(rows: seq<LabeledRow>, k: int, disc: nat -> real): (out: seq<NdcgRow>)
    requires PositiveDiscount(disc)
  {
    var prepared := PrepareRankedList(rows);
    var groups := QueryGroups(prepared);
    seq(|groups|, i requires 0 <= i < |groups| => NdcgRowOf(prepared, groups[i], k, disc))
  }

  /** The loop body of `calculate_ndcg`: the DCG, the ideal DCG and their ratio for one query. */
  method NdcgOfGroup(prepared: seq<RankedRow>, q: string, k: int, disc: nat -> real) returns (row: NdcgRow)
    requires PositiveDiscount(disc)
    ensures row == NdcgRowOf(prepared, q, k, disc)
  {
    var rels := Relevances(prepared, q);
    var dcg := DcgAtK(rels, k, disc);
    var idcg := DcgAtK(SortDesc(rels), k, disc);
    var ndcg := if idcg > 0.0 then dcg / idcg else 0.0;
    row := NdcgRow(q, ndcg, dcg);
  }

  /** `calculate_ndcg`: prepare the list, then one row per query group. */
  method CalculateNdcg(rows: seq<LabeledRow>, k: int, disc: nat -> real) returns (out: seq<NdcgRow>)
    requires PositiveDiscount(disc)
    ensures out == NdcgRows(rows, k, disc)
  {
    var prepared := PrepareRankedList(rows);
    var groups := QueryGroups(prepared);
    ghost var spec := NdcgRows(rows, k, disc);
    out := [];
    for i := 0 to |groups|
      invariant |spec| == |groups| && out == spec[..i]
    {
      var row := NdcgOfGroup(prepared, groups[i], k, disc);
      TakeSnoc(spec, i);
      out := out + [row];
    }
    assert spec[..|groups|] == spec;
  }

  /**
   * `calculate_ndcg` gives one row per query id of its input, in increasing
   * query order, each with an NDCG of at most 1, and at least 0 when no
   * label is negative.
   */
  lemma NdcgRowsPerQuery(rows: seq<LabeledRow>, k: int, disc: nat -> real)
    requires IsDiscount(disc)
    ensures var out := NdcgRows(rows, k, disc);
      && (forall i, j :: 0 <= i < j < |out| ==> StrLess(out[i].queryId, out[j].queryId))
      && (forall q :: (exists i :: 0 <= i < |out| && out[i].queryId == q) <==> HasKey(rows, InQuery, q))
      && (forall i :: 0 <= i < |out| ==> out[i].ndcg <= 1.0)
      && (LabelsNonNegative(rows) ==> forall i :: 0 <= i < |out| ==> 0.0 <= out[i].ndcg)
  {
    var prepared := PrepareRankedList(rows);
    var groups := QueryGroups(prepared);
    var out := NdcgRows(rows, k, disc);
    QueryGroupsOfPrepared(rows);
    forall q ensures (exists i :: 0 <= i < |out| && out[i].queryId == q) <==> q in groups {
      if q in groups {
        var i :| 0 <= i < |groups| && groups[i] == q;
        assert out[i].queryId == q;
      }
    }
    forall i | 0 <= i < |out| ensures out[i].ndcg <= 1.0 && (LabelsNonNegative(rows) ==> 0.0 <= out[i].ndcg) {
      NdcgBounds(Relevances(prepared, groups[i]), k, disc);
      if LabelsNonNegative(rows) {
        PreparedRelevancesNonNegative(rows, groups[i]);
      }
    }
  }
}
