/**
 * The labelling helpers: `dedupe_vector_hits`, which keeps the closest hit of
 * each (query id, chunk id) across all runs, and `make_truth_label_df`, which
 * reduces a hand-labelled sheet to one relevance per (query id, chunk id).
 */
module Labelling {
  import opened Wrappers
  import opened Text
  import opened Tables
  import opened Records

  // ---------------------------------------------------------------------------
  // `dedupe_vector_hits`

  type Pair = (string, string)

  /** The dictionary key of a hit: (query id, chunk id). */
  function HitKey(h: RetrievalHit): Pair {
    (h.queryId, h.chunkId)
  }

  /**
   * What `best[key]` holds after a pass over `s`: the first hit of smallest
   * distance among the hits with that key, or None when `key` never occurs.
   * A later hit replaces the held one only when strictly closer.
   */
  function Best(s: seq<RetrievalHit>, key: Pair): Option<RetrievalHit> {
    if s == [] then None
    else
      var n := |s| - 1;
      var b := Best(s[..n], key);
      if HitKey(s[n]) == key && (b.None? || s[n].dist < b.value.dist) then Some(s[n]) else b
  }

  /** A key has a best hit exactly when some hit carries it. */
  lemma {:induction false} BestExists(s: seq<RetrievalHit>, key: Pair)
    ensures Best(s, key).Some? <==> HasKey(s, HitKey, key)
  {
    if s != [] {
      var n := |s| - 1;
      BestExists(s[..n], key);
      if HasKey(s[..n], HitKey, key) {
        var i :| 0 <= i < n && HitKey(s[..n][i]) == key;
        assert HitKey(s[i]) == key;
      }
      if HasKey(s, HitKey, key) && HitKey(s[n]) != key {
        var i :| 0 <= i < |s| && HitKey(s[i]) == key;
        assert HitKey(s[..n][i]) == key;
      }
    }
  }

  /** Hit `i` has the smallest distance of its key, and every earlier hit of the key is strictly farther. */
  predicate FirstClosest(s: seq<RetrievalHit>, i: nat)
    requires i < |s|
  {
    && (forall j :: 0 <= j < |s| && HitKey(s[j]) == HitKey(s[i]) ==> s[i].dist <= s[j].dist)
    && (forall j :: 0 <= j < i && HitKey(s[j]) == HitKey(s[i]) ==> s[i].dist < s[j].dist)
  }

  /** The best hit of a key is a hit of the input with that key: the first of those closest. */
  lemma {:induction false} BestIsFirstClosest(s: seq<RetrievalHit>, key: Pair)
    requires Best(s, key).Some?
    ensures exists i :: 0 <= i < |s| && s[i] == Best(s, key).value && HitKey(s[i]) == key && FirstClosest(s, i)
  {
    var n := |s| - 1;
    var pre := s[..n];
    var b := Best(pre, key);
    if HitKey(s[n]) == key && (b.None? || s[n].dist < b.value.dist) {
      if b.Some? {
        BestIsFirstClosest(pre, key);
        var i :| 0 <= i < n && pre[i] == b.value && HitKey(pre[i]) == key && FirstClosest(pre, i);
        forall j | 0 <= j < n && HitKey(s[j]) == key ensures s[n].dist < s[j].dist {
          assert pre[j] == s[j];
        }
      } else {
        BestExists(pre, key);
        forall j | 0 <= j < n ensures HitKey(s[j]) != key {
          assert pre[j] == s[j];
        }
      }
      assert FirstClosest(s, n);
    } else {
      BestIsFirstClosest(pre, key);
      var i :| 0 <= i < n && pre[i] == b.value && HitKey(pre[i]) == key && FirstClosest(pre, i);
      assert s[i] == pre[i];
      forall j | 0 <= j < |s| && HitKey(s[j]) == key ensures s[i].dist <= s[j].dist {
        if j < n {
          assert pre[j] == s[j];
        }
      }
      forall j | 0 <= j < i && HitKey(s[j]) == key ensures s[i].dist < s[j].dist {
        assert pre[j] == s[j];
      }
      assert FirstClosest(s, i);
    }
  }

  /** The keys in the order they first appear: the order of the dictionary's entries. */
  function KeyOrder(s: seq<RetrievalHit>): (keys: seq<Pair>)
    ensures |keys| == |KeepFirst(s, HitKey)|
    ensures forall j1, j2 :: 0 <= j1 < j2 < |keys| ==> keys[j1] != keys[j2]
    ensures forall key :: key in keys <==> HasKey(s, HitKey, key)
    ensures forall j1, j2 :: 0 <= j1 < j2 < |keys| ==> FirstIndex(s, HitKey, keys[j1]) < FirstIndex(s, HitKey, keys[j2])
  {
    var firsts := KeepFirst(s, HitKey);
    KeepFirstIsDistinct(s, HitKey);
    KeepFirstInFirstAppearanceOrder(s, HitKey);
    var keys := seq(|firsts|, j requires 0 <= j < |firsts| => HitKey(firsts[j]));
    KeyOrderKeys(s, firsts, keys);
    keys
  }

  /** The keys of the rows `KeepFirst` keeps are exactly the keys of the hits. */
  lemma KeyOrderKeys(s: seq<RetrievalHit>, firsts: seq<RetrievalHit>, keys: seq<Pair>)
    requires firsts == KeepFirst(s, HitKey)
    requires |keys| == |firsts| && forall j :: 0 <= j < |keys| ==> keys[j] == HitKey(firsts[j])
    ensures forall key :: key in keys <==> HasKey(s, HitKey, key)
  {
    forall key ensures key in keys <==> HasKey(s, HitKey, key) {
      KeepFirstHasKey(s, HitKey, key);
      if key in keys {
        var j :| 0 <= j < |keys| && keys[j] == key;
        assert HitKey(firsts[j]) == key;
      }
      if HasKey(firsts, HitKey, key) {
        var j :| 0 <= j < |firsts| && HitKey(firsts[j]) == key;
        assert keys[j] == key;
      }
    }
  }

  lemma KeyOrderHasBest(s: seq<RetrievalHit>)
    ensures forall j :: 0 <= j < |KeyOrder(s)| ==> Best(s, KeyOrder(s)[j]).Some?
  {
    var firsts := KeepFirst(s, HitKey);
    KeepFirstSubset(s, HitKey);
    forall j | 0 <= j < |firsts| ensures Best(s, KeyOrder(s)[j]).Some? {
      var i :| 0 <= i < |s| && s[i] == firsts[j];
      BestExists(s, HitKey(firsts[j]));
    }
  }

  /** The best hit of each key in `KeyOrder` carries that key. */
  lemma BestKeysMatch(s: seq<RetrievalHit>)
    ensures forall j :: 0 <= j < |KeyOrder(s)| ==>
      Best(s, KeyOrder(s)[j]).Some? && HitKey(Best(s, KeyOrder(s)[j]).value) == KeyOrder(s)[j]
  {
    KeyOrderHasBest(s);
    forall j | 0 <= j < |KeyOrder(s)|
      ensures HitKey(Best(s, KeyOrder(s)[j]).value) == KeyOrder(s)[j]
    {
      BestIsFirstClosest(s, KeyOrder(s)[j]);
    }
  }

  /** The result of `dedupe_vector_hits`: the best hit of each key, keys in first-appearance order. */
  function DedupedHits(s: seq<RetrievalHit>): (r: seq<RetrievalHit>)
    ensures |r| == |KeyOrder(s)|
    ensures forall j :: 0 <= j < |r| ==> HitKey(r[j]) == KeyOrder(s)[j]
  {
    var keys := KeyOrder(s);
    KeyOrderHasBest(s);
    BestKeysMatch(s);
    seq(|keys|, j requires 0 <= j < |keys| => Best(s, keys[j]).value)
  }

  /** Appending a hit: the order gains its key when the key is new. */
  lemma KeyOrderSnoc(s: seq<RetrievalHit>, n: nat)
    requires n < |s|
    ensures KeyOrder(s[..n + 1]) == if HasKey(s[..n], HitKey, HitKey(s[n])) then KeyOrder(s[..n]) else KeyOrder(s[..n]) + [HitKey(s[n])]
  {
    assert s[..n + 1] == s[..n] + [s[n]];
    KeepFirstSnoc(s[..n], HitKey, s[n]);
  }

  /** After the first `i` hits: `order` lists their keys as first seen and `best` holds each key's best hit. */
  ghost predicate PassState(hits: seq<RetrievalHit>, i: nat, best: map<Pair, RetrievalHit>, order: seq<Pair>)
    requires i <= |hits|
  {
    && order == KeyOrder(hits[..i])
    && forall key :: Best(hits[..i], key) == if key in best then Some(best[key]) else None
  }

  /** The loop body of `dedupe_vector_hits`: hit `i` enters the dictionary when its key is new or it is strictly closer. */
  method VisitHit(hits: seq<RetrievalHit>, i: nat, best: map<Pair, RetrievalHit>, order: seq<Pair>)
    returns (best': map<Pair, RetrievalHit>, order': seq<Pair>)
    requires i < |hits| && PassState(hits, i, best, order)
    ensures PassState(hits, i + 1, best', order')
  {
    var h := hits[i];
    var key := HitKey(h);
    BestExists(hits[..i], key);
    KeyOrderSnoc(hits, i);
    best', order' := best, order;
    if key !in best || h.dist < best[key].dist {
      if key !in best {
        order' := order + [key];
      }
      best' := best[key := h];
    }
    assert hits[..i + 1][..i] == hits[..i] && hits[..i + 1][i] == h;
  }

  /** `dedupe_vector_hits`: one pass, keeping a dictionary of the best hit per key. */
  method DedupeVectorHits(hits: seq<RetrievalHit>) returns (out: seq<RetrievalHit>)
    ensures out == DedupedHits(hits)
  {
    var best: map<Pair, RetrievalHit> := map[];
    var order: seq<Pair> := [];
    for i := 0 to |hits|
      invariant PassState(hits, i, best, order)
    {
      best, order := VisitHit(hits, i, best, order);
    }
    assert hits[..|hits|] == hits;
    KeyOrderHasBest(hits);
    out := seq(|order|, j requires 0 <= j < |order| => best[order[j]]);
  }

  /**
   * `dedupe_vector_hits` keeps exactly one hit per key of its input, each
   * an input hit that is the first of the closest hits of its key, in the
   * order the keys first appear.
   */
  lemma DedupedHitsSpec(hits: seq<RetrievalHit>)
    ensures var out := DedupedHits(hits);
      && KeysDistinct(out, HitKey)
      && (forall key :: HasKey(out, HitKey, key) <==> HasKey(hits, HitKey, key))
      && (forall j :: 0 <= j < |out| ==> exists i :: 0 <= i < |hits| && hits[i] == out[j] && FirstClosest(hits, i))
      && (forall j1, j2 :: 0 <= j1 < j2 < |out| ==> FirstIndex(hits, HitKey, HitKey(out[j1])) < FirstIndex(hits, HitKey, HitKey(out[j2])))
  {
    var out := DedupedHits(hits);
    var firsts := KeepFirst(hits, HitKey);
    var keys := KeyOrder(hits);
    KeyOrderHasBest(hits);
    forall j | 0 <= j < |out| ensures HitKey(out[j]) == keys[j] && exists i :: 0 <= i < |hits| && hits[i] == out[j] && FirstClosest(hits, i) {
      BestIsFirstClosest(hits, keys[j]);
    }
    KeepFirstIsDistinct(hits, HitKey);
    KeepFirstInFirstAppearanceOrder(hits, HitKey);
    assert forall j :: 0 <= j < |out| ==> HitKey(out[j]) == HitKey(firsts[j]);
    forall key ensures HasKey(out, HitKey, key) <==> HasKey(hits, HitKey, key) {
      KeepFirstHasKey(hits, HitKey, key);
      if HasKey(firsts, HitKey, key) {
        var j :| 0 <= j < |firsts| && HitKey(firsts[j]) == key;
        assert HitKey(out[j]) == key;
      }
      if HasKey(out, HitKey, key) {
        var j :| 0 <= j < |out| && HitKey(out[j]) == key;
        assert HitKey(firsts[j]) == key;
      }
    }
  }

  // ---------------------------------------------------------------------------
  // `make_truth_label_df`

  /**
   * A row of the labelled sheet: the relevance cell after `to_numeric(...,
   * errors="coerce")`, None when it was empty or not a number.
   */
  datatype LabelRow = LabelRow(queryId: string, chunkId: string, relevance: Option<real>)

  datatype TruthRow = TruthRow(queryId: string, chunkId: string, relevance: int)

  function LabelPair(x: LabelRow): Pair { (x.queryId, x.chunkId) }
  function TruthPair(x: TruthRow): Pair { (x.queryId, x.chunkId) }

  /** The largest cleaned label among the rows of `key`. */
  function GroupMax(s: seq<LabelRow>, key: Pair): (m: int)
    requires HasKey(s, LabelPair, key)
    ensures forall i :: 0 <= i < |s| && LabelPair(s[i]) == key ==> CleanLabel(s[i].relevance) <= m
    ensures exists i :: 0 <= i < |s| && LabelPair(s[i]) == key && CleanLabel(s[i].relevance) == m
  {
    var n := |s| - 1;
    var own := CleanLabel(s[n].relevance);
    if HasKey(s[..n], LabelPair, key) then
      var m := GroupMax(s[..n], key);
      var i :| 0 <= i < n && LabelPair(s[..n][i]) == key && CleanLabel(s[..n][i].relevance) == m;
      assert s[i] == s[..n][i];
      assert forall j :: 0 <= j < n ==> s[j] == s[..n][j];
      if LabelPair(s[n]) == key && own > m then own else m
    else
      assert LabelPair(s[n]) == key by {
        var i :| 0 <= i < |s| && LabelPair(s[i]) == key;
        assert i == n;
      }
      assert forall j :: 0 <= j < n ==> s[j] == s[..n][j] && LabelPair(s[..n][j]) != key;
      own
  }

  /** The truth row for the key of row `i`: that key with its group's largest label. */
  function TruthRowAt(s: seq<LabelRow>, i: nat): TruthRow
    requires i < |s|
  {
    var key := LabelPair(s[i]);
    assert HasKey(s, LabelPair, key) by {
      assert LabelPair(s[i]) == key;
    }
    TruthRow(key.0, key.1, GroupMax(s, key))
  }

  /** `groupby(["query_id", "chunk_id"])` orders its groups by query id, then chunk id. */
  predicate PairLe(x: TruthRow, y: TruthRow) {
    StrLess(x.queryId, y.queryId) || (x.queryId == y.queryId && (StrLess(x.chunkId, y.chunkId) || x.chunkId == y.chunkId))
  }

  lemma PairLeIsTotalPreorder()
    ensures IsTotalPreorder(PairLe)
  {
    forall x, y ensures PairLe(x, y) || PairLe(y, x) {
      StrLessTotal(x.queryId, y.queryId);
      StrLessTotal(x.chunkId, y.chunkId);
    }
    forall x, y, z | PairLe(x, y) && PairLe(y, z) ensures PairLe(x, z) {
      if StrLess(x.queryId, y.queryId) && StrLess(y.queryId, z.queryId) {
        StrLessTransitive(x.queryId, y.queryId, z.queryId);
      }
      if x.queryId == y.queryId == z.queryId && StrLess(x.chunkId, y.chunkId) && StrLess(y.chunkId, z.chunkId) {
        StrLessTransitive(x.chunkId, y.chunkId, z.chunkId);
      }
    }
  }

  /** `make_truth_label_df`: one row per (query id, chunk id), with the largest cleaned label. */
  function MakeTruthLabels(s: seq<LabelRow>): seq<TruthRow> {
    Sort(PairLe, KeepFirst(PerRowTruth(s), TruthPair))
  }

  /** The truth row of each sheet row's key, before duplicates are dropped. */
  function PerRowTruth(s: seq<LabelRow>): (r: seq<TruthRow>)
    ensures |r| == |s|
    ensures forall i :: 0 <= i < |s| ==> r[i] == TruthRowAt(s, i)
  {
    seq(|s|, i requires 0 <= i < |s| => TruthRowAt(s, i))
  }

  /**
   * The truth table has one row per (query id, chunk id) of the sheet, sorted
   * by query id and then chunk id; its relevance is the largest cleaned label
   * of that pair's rows and is one of them.
   */
  lemma TruthLabelsSpec(s: seq<LabelRow>)
    ensures var out := MakeTruthLabels(s);
      && SortedBy(PairLe, out)
      && (forall key :: Occurrences(out, TruthPair, key) == if HasKey(s, LabelPair, key) then 1 else 0)
      && (forall j :: 0 <= j < |out| ==>
            HasKey(s, LabelPair, TruthPair(out[j]))
            && (forall i :: 0 <= i < |s| && LabelPair(s[i]) == TruthPair(out[j]) ==> CleanLabel(s[i].relevance) <= out[j].relevance)
            && (exists i :: 0 <= i < |s| && LabelPair(s[i]) == TruthPair(out[j]) && CleanLabel(s[i].relevance) == out[j].relevance))
  {
    var out := MakeTruthLabels(s);
    PairLeIsTotalPreorder();
    SortSorted(PairLe, KeepFirst(PerRowTruth(s), TruthPair));
    forall key ensures Occurrences(out, TruthPair, key) == if HasKey(s, LabelPair, key) then 1 else 0 {
      TruthLabelsOnePerPair(s, key);
    }
    forall j | 0 <= j < |out|
      ensures HasKey(s, LabelPair, TruthPair(out[j]))
      ensures out[j].relevance == GroupMax(s, TruthPair(out[j]))
    {
      TruthRowIsGroupMax(s, j);
    }
  }

  /** Each key of the sheet keeps exactly one truth row, and no other key gets one. */
  lemma TruthLabelsOnePerPair(s: seq<LabelRow>, key: Pair)
    ensures Occurrences(MakeTruthLabels(s), TruthPair, key) == if HasKey(s, LabelPair, key) then 1 else 0
  {
    var perRow := PerRowTruth(s);
    OccurrencesOfSort(PairLe, KeepFirst(perRow, TruthPair), TruthPair, key);
    OccurrencesOfKeepFirst(perRow, TruthPair, key);
    PerRowHasKey(s, key);
  }

  lemma PerRowHasKey(s: seq<LabelRow>, key: Pair)
    ensures HasKey(PerRowTruth(s), TruthPair, key) <==> HasKey(s, LabelPair, key)
  {
    var perRow := PerRowTruth(s);
    if HasKey(s, LabelPair, key) {
      var i :| 0 <= i < |s| && LabelPair(s[i]) == key;
      assert TruthPair(perRow[i]) == key;
    }
    if HasKey(perRow, TruthPair, key) {
      var i :| 0 <= i < |perRow| && TruthPair(perRow[i]) == key;
      assert LabelPair(s[i]) == key;
    }
  }

  /** Every truth row carries a key of the sheet and that key's largest label. */
  lemma TruthRowIsGroupMax(s: seq<LabelRow>, j: nat)
    requires j < |MakeTruthLabels(s)|
    ensures var o := MakeTruthLabels(s)[j];
      HasKey(s, LabelPair, TruthPair(o)) && o.relevance == GroupMax(s, TruthPair(o))
  {
    var perRow := PerRowTruth(s);
    var kept := KeepFirst(perRow, TruthPair);
    var o := MakeTruthLabels(s)[j];
    SortMember(PairLe, kept, j);
    var k :| 0 <= k < |kept| && kept[k] == o;
    KeepFirstSubset(perRow, TruthPair);
    assert o in perRow;
    var i :| 0 <= i < |perRow| && perRow[i] == o;
    assert o == TruthRowAt(s, i);
  }
}
