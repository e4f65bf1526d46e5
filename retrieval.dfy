/**
 * The hit-assembly loops of `vectors_search` and `bm25_search`: for every
 * run and every query, the rows the store returns (best first, at most `k`)
 * become hits numbered 1, 2, ... in store order. The SQL itself (pgvector
 * cosine distance, BM25 scoring, `SET LOCAL hnsw.ef_search`) is the `search`
 * parameter: the rows of a source's chunks in the order the query sorts them.
 */
module Retrieval {
  import opened Text
  import opened Tables
  import opened Records

  /** A row of the vector query: chunk id, chunk text and cosine distance. */
  datatype VectorRow = VectorRow(chunkId: nat, chunkText: string, dist: real)

  /** A row of the keyword query: chunk id, chunk text and BM25 score. */
  datatype KeywordRow = KeywordRow(chunkId: nat, chunkText: string, score: real)

  /** SQL `LIMIT k`: the first `k` rows, or all of them when there are fewer. */
  function Limit<T>(rows: seq<T>, k: nat): (r: seq<T>)
    ensures |r| <= k && |r| <= |rows| && (|r| == k || r == rows)
    ensures r == rows[..|r|]
  {
    if |rows| <= k then rows else rows[..k]
  }

  /** `f"hnsw_ef{ef}_k{k}"`. */
  function RunName(ef: int, k: int): string {
    "hnsw_ef" + IntToDecimal(ef) + "_k" + IntToDecimal(k)
  }

  /** Different `ef` values give different run names, so the runs stay apart. */
  lemma RunNameInjective(ef1: int, ef2: int, k: int)
    requires RunName(ef1, k) == RunName(ef2, k)
    ensures ef1 == ef2
  {
    var a, b := IntToDecimal(ef1), IntToDecimal(ef2);
    var tail := "_k" + IntToDecimal(k);
    var s1, s2 := RunName(ef1, k), RunName(ef2, k);
    assert |a| == |b|;
    assert a == s1[7..7 + |a|];
    assert b == s2[7..7 + |b|];
    IntToDecimalInjective(ef1, ef2);
  }

  // ---------------------------------------------------------------------------
  // Query embeddings

  /**
   * A query embedding model whose calls are remembered: `embed` is what the
   * model returns for a text, `calls` the texts sent to it so far.
   */
  class QueryEmbedder {
    const embed: string -> seq<real>
    var calls: seq<string>

    constructor (embed: string -> seq<real>)
      ensures this.embed == embed && calls == []
    {
      this.embed := embed;
      calls := [];
    }

    /** `get_query_embedding`. */
    method GetQueryEmbedding(text: string) returns (e: seq<real>)
      modifies this
      ensures e == embed(text)
      ensures calls == old(calls) + [text]
    {
      e := embed(text);
      calls := calls + [text];
    }
  }

  function QueryIds(queries: seq<QueryItem>): set<string> {
    set i | 0 <= i < |queries| :: queries[i].id
  }

  function QueryTexts(queries: seq<QueryItem>): (r: seq<string>)
    ensures |r| == |queries|
    ensures forall i :: 0 <= i < |queries| ==> r[i] == queries[i].text
  {
    if queries == [] then [] else QueryTexts(queries[..|queries| - 1]) + [queries[|queries| - 1].text]
  }

  /** `{q.id: embed(q.text) for q in queries}`: a later query with the same id wins. */
  function QueryEmbeds(queries: seq<QueryItem>, embed: string -> seq<real>): (m: map<string, seq<real>>)
    ensures m.Keys == QueryIds(queries)
    ensures CoversQueries(m, queries)
  {
    if queries == [] then map[]
    else
      var n := |queries| - 1;
      var p := QueryIds(queries[..n]);
      assert QueryIds(queries) == p + {queries[n].id} by {
        forall id | id in QueryIds(queries) ensures id in p + {queries[n].id} {
          var i :| 0 <= i < |queries| && queries[i].id == id;
          if i < n {
            assert queries[..n][i] == queries[i];
          }
        }
      }
      QueryEmbeds(queries[..n], embed)[queries[n].id := embed(queries[n].text)]
  }

  /** A query whose id no later query repeats is searched with the embedding of its own text. */
  lemma {:induction false} QueryEmbedsOwnText(queries: seq<QueryItem>, embed: string -> seq<real>, i: nat)
    requires i < |queries|
    requires forall j :: i < j < |queries| ==> queries[j].id != queries[i].id
    ensures QueryEmbeds(queries, embed)[queries[i].id] == embed(queries[i].text)
  {
    var n := |queries| - 1;
    if i < n {
      QueryEmbedsOwnText(queries[..n], embed, i);
    }
  }

  // ---------------------------------------------------------------------------
  // Vector hits

  /** The hit for the row at 1-based position `rank` of a run's result for query `q`. */
  function VectorHit(q: QueryItem, runName: string, ef: int, rank: int, row: VectorRow): RetrievalHit {
    RetrievalHit(q.id, q.text, runName, ef, rank, row.dist, NatToDecimal(row.chunkId), row.chunkText)
  }

  /** The hits of one (run, query) block: the i-th row becomes the hit of rank i + 1. */
  function VectorBlock(q: QueryItem, runName: string, ef: int, rows: seq<VectorRow>): (hits: seq<RetrievalHit>)
    ensures |hits| == |rows|
    ensures forall i :: 0 <= i < |rows| ==> hits[i] == VectorHit(q, runName, ef, i + 1, rows[i])
  {
    if rows == [] then [] else VectorBlock(q, runName, ef, rows[..|rows| - 1]) + [VectorHit(q, runName, ef, |rows|, rows[|rows| - 1])]
  }

  lemma VectorBlockSnoc(q: QueryItem, runName: string, ef: int, rows: seq<VectorRow>, r: nat)
    requires r < |rows|
    ensures VectorBlock(q, runName, ef, rows[..r + 1]) == VectorBlock(q, runName, ef, rows[..r]) + [VectorHit(q, runName, ef, r + 1, rows[r])]
  {
    assert rows[..r + 1][..r] == rows[..r];
  }

  /** The rows the store returns for `ef` and query `q`, limited to `k`. */
  function VectorRows(search: (string, int, seq<real>) -> seq<VectorRow>, source: string, ef: int, k: nat, emb: seq<real>): (rows: seq<VectorRow>)
    ensures |rows| <= k
  {
    Limit(search(source, ef, emb), k)
  }

  /** Every query's id has an embedding. */
  predicate CoversQueries(embeds: map<string, seq<real>>, queries: seq<QueryItem>) {
    forall i :: 0 <= i < |queries| ==> queries[i].id in embeds
  }

  /** The hits of one run (one `ef`) over the queries, query after query. */
  function RunHits(queries: seq<QueryItem>, embeds: map<string, seq<real>>, search: (string, int, seq<real>) -> seq<VectorRow>,
                   source: string, runName: string, ef: int, k: nat): seq<RetrievalHit>
    requires CoversQueries(embeds, queries)
  {
    if queries == [] then []
    else
      var n := |queries| - 1;
      var q := queries[n];
      RunHits(queries[..n], embeds, search, source, runName, ef, k)
        + VectorBlock(q, runName, ef, VectorRows(search, source, ef, k, embeds[q.id]))
  }

  lemma RunHitsSnoc(queries: seq<QueryItem>, embeds: map<string, seq<real>>, search: (string, int, seq<real>) -> seq<VectorRow>,
                    source: string, runName: string, ef: int, k: nat, j: nat)
    requires CoversQueries(embeds, queries)
    requires j < |queries|
    ensures CoversQueries(embeds, queries[..j + 1])
    ensures RunHits(queries[..j + 1], embeds, search, source, runName, ef, k)
         == RunHits(queries[..j], embeds, search, source, runName, ef, k)
            + VectorBlock(queries[j], runName, ef, VectorRows(search, source, ef, k, embeds[queries[j].id]))
  {
    assert queries[..j + 1][..j] == queries[..j];
  }

  /** The hits of every run, run after run. */
  function AllRunHits(efs: seq<int>, queries: seq<QueryItem>, embeds: map<string, seq<real>>,
                      search: (string, int, seq<real>) -> seq<VectorRow>, source: string, k: nat): seq<RetrievalHit>
    requires CoversQueries(embeds, queries)
  {
    if efs == [] then []
    else AllRunHits(efs[..|efs| - 1], queries, embeds, search, source, k) + RunHits(queries, embeds, search, source, RunName(efs[|efs| - 1], k), efs[|efs| - 1], k)
  }

  /** What `vectors_search` returns. */
  function VectorHits(queries: seq<QueryItem>, source: string, embed: string -> seq<real>, efs: seq<int>, k: nat,
                      search: (string, int, seq<real>) -> seq<VectorRow>): seq<RetrievalHit>
  {
    AllRunHits(efs, queries, QueryEmbeds(queries, embed), search, source, k)
  }

  /**
   * A well-formed vector hit: its run name is built from its `param_value`,
   * which is one of the `ef` values; its rank is between 1 and `k`; and its
   * query id and text are those of one of the queries.
   */
  predicate VectorHitOk(h: RetrievalHit, queries: seq<QueryItem>, efs: seq<int>, k: nat) {
    && h.runName == RunName(h.paramValue, k)
    && h.paramValue in efs
    && 1 <= h.rank <= k
    && exists i :: 0 <= i < |queries| && queries[i].id == h.queryId && queries[i].text == h.queryText
  }

  lemma {:induction false} RunHitsOk(queries: seq<QueryItem>, embeds: map<string, seq<real>>, search: (string, int, seq<real>) -> seq<VectorRow>,
                                     source: string, efs: seq<int>, ef: int, k: nat, all: seq<QueryItem>)
    requires CoversQueries(embeds, queries)
    requires ef in efs
    requires forall i :: 0 <= i < |queries| ==> queries[i] in all
    ensures forall j :: 0 <= j < |RunHits(queries, embeds, search, source, RunName(ef, k), ef, k)| ==>
      VectorHitOk(RunHits(queries, embeds, search, source, RunName(ef, k), ef, k)[j], all, efs, k)
  {
    if queries != [] {
      var n := |queries| - 1;
      var q := queries[n];
      assert q in all;
      var i :| 0 <= i < |all| && all[i] == q;
      RunHitsOk(queries[..n], embeds, search, source, efs, ef, k, all);
    }
  }

  lemma {:induction false} AllRunHitsOk(efs: seq<int>, queries: seq<QueryItem>, embeds: map<string, seq<real>>,
                                        search: (string, int, seq<real>) -> seq<VectorRow>, source: string, k: nat, all: seq<int>)
    requires CoversQueries(embeds, queries)
    requires forall i :: 0 <= i < |efs| ==> efs[i] in all
    ensures forall j :: 0 <= j < |AllRunHits(efs, queries, embeds, search, source, k)| ==>
      VectorHitOk(AllRunHits(efs, queries, embeds, search, source, k)[j], queries, all, k)
  {
    if efs != [] {
      var n := |efs| - 1;
      AllRunHitsOk(efs[..n], queries, embeds, search, source, k, all);
      RunHitsOk(queries, embeds, search, source, all, efs[n], k, queries);
    }
  }

  /** Every hit `vectors_search` returns is well formed. */
  lemma VectorHitsOk(queries: seq<QueryItem>, source: string, embed: string -> seq<real>, efs: seq<int>, k: nat,
                     search: (string, int, seq<real>) -> seq<VectorRow>)
    ensures forall j :: 0 <= j < |VectorHits(queries, source, embed, efs, k, search)| ==>
      VectorHitOk(VectorHits(queries, source, embed, efs, k, search)[j], queries, efs, k)
  {
    AllRunHitsOk(efs, queries, QueryEmbeds(queries, embed), search, source, k, efs);
  }

  /** `query_embeds`: the embedding model is called once per query, in query order. */
  method EmbedQueries(queries: seq<QueryItem>, embedder: QueryEmbedder) returns (embeds: map<string, seq<real>>)
    modifies embedder
    ensures embedder.calls == old(embedder.calls) + QueryTexts(queries)
    ensures embeds == QueryEmbeds(queries, embedder.embed)
  {
    embeds := map[];
    for i := 0 to |queries|
      invariant embedder.calls == old(embedder.calls) + QueryTexts(queries[..i])
      invariant embeds == QueryEmbeds(queries[..i], embedder.embed)
    {
      var e := embedder.GetQueryEmbedding(queries[i].text);
      assert queries[..i + 1][..i] == queries[..i];
      embeds := embeds[queries[i].id := e];
    }
    assert queries[..|queries|] == queries;
  }

  /** The inner loop of `vectors_search`: the hits of one query's rows, ranked from 1. */
  method QueryVectorHits(q: QueryItem, runName: string, ef: int, rows: seq<VectorRow>) returns (block: seq<RetrievalHit>)
    ensures block == VectorBlock(q, runName, ef, rows)
  {
    block := [];
    for r := 0 to |rows|
      invariant block == VectorBlock(q, runName, ef, rows[..r])
    {
      VectorBlockSnoc(q, runName, ef, rows, r);
      block := block + [VectorHit(q, runName, ef, r + 1, rows[r])];
    }
    assert rows[..|rows|] == rows;
  }

  /** The body of the `for ef in ef_search_values` loop: every query's block of hits for one `ef`. */
  method SearchRun(queries: seq<QueryItem>, embeds: map<string, seq<real>>, search: (string, int, seq<real>) -> seq<VectorRow>,
                   source: string, runName: string, ef: int, k: nat)
    returns (hits: seq<RetrievalHit>)
    requires CoversQueries(embeds, queries)
    ensures hits == RunHits(queries, embeds, search, source, runName, ef, k)
  {
    hits := [];
    for j := 0 to |queries|
      invariant hits == RunHits(queries[..j], embeds, search, source, runName, ef, k)
    {
      var q := queries[j];
      var rows := VectorRows(search, source, ef, k, embeds[q.id]);
      var block := QueryVectorHits(q, runName, ef, rows);
      RunHitsSnoc(queries, embeds, search, source, runName, ef, k, j);
      hits := hits + block;
    }
    assert queries[..|queries|] == queries;
  }

  /** `vectors_search`: one embedding call per query, then one store query per (ef, query). */
  method VectorsSearch(queries: seq<QueryItem>, source: string, embedder: QueryEmbedder, efSearchValues: seq<int>, k: nat,
                       search: (string, int, seq<real>) -> seq<VectorRow>)
    returns (hits: seq<RetrievalHit>)
    modifies embedder
    ensures embedder.calls == old(embedder.calls) + QueryTexts(queries)
    ensures hits == VectorHits(queries, source, embedder.embed, efSearchValues, k, search)
  {
    var embeds := EmbedQueries(queries, embedder);
    ghost var calls := embedder.calls;
    hits := [];
    for f := 0 to |efSearchValues|
      invariant embedder.calls == calls
      invariant hits == AllRunHits(efSearchValues[..f], queries, embeds, search, source, k)
    {
      var ef := efSearchValues[f];
      var runName := RunName(ef, k);
      var runHits := SearchRun(queries, embeds, search, source, runName, ef, k);
      assert efSearchValues[..f + 1][..f] == efSearchValues[..f];
      hits := hits + runHits;
    }
    assert efSearchValues[..|efSearchValues|] == efSearchValues;
  }

  // ---------------------------------------------------------------------------
  // Keyword hits

  /** The hit for the row at 1-based position `rank` of the BM25 result for query `q`. */
  function KeywordHit(q: QueryItem, k: int, rank: int, row: KeywordRow): KeywordSearchHit {
    KeywordSearchHit(q.id, q.text, "bm25", k, rank, row.score, NatToDecimal(row.chunkId), row.chunkText)
  }

  function KeywordBlock(q: QueryItem, k: int, rows: seq<KeywordRow>): (hits: seq<KeywordSearchHit>)
    ensures |hits| == |rows|
    ensures forall i :: 0 <= i < |rows| ==> hits[i] == KeywordHit(q, k, i + 1, rows[i])
  {
    if rows == [] then [] else KeywordBlock(q, k, rows[..|rows| - 1]) + [KeywordHit(q, k, |rows|, rows[|rows| - 1])]
  }

  lemma KeywordBlockSnoc(q: QueryItem, k: int, rows: seq<KeywordRow>, r: nat)
    requires r < |rows|
    ensures KeywordBlock(q, k, rows[..r + 1]) == KeywordBlock(q, k, rows[..r]) + [KeywordHit(q, k, r + 1, rows[r])]
  {
    assert rows[..r + 1][..r] == rows[..r];
  }

  /** What `bm25_search` returns: each query's top `k` rows, query after query. */
  function KeywordHits(queries: seq<QueryItem>, source: string, k: nat, search: (string, string) -> seq<KeywordRow>): seq<KeywordSearchHit> {
    if queries == [] then []
    else
      var q := queries[|queries| - 1];
      KeywordHits(queries[..|queries| - 1], source, k, search) + KeywordBlock(q, k, Limit(search(source, q.text), k))
  }

  lemma KeywordHitsSnoc(queries: seq<QueryItem>, source: string, k: nat, search: (string, string) -> seq<KeywordRow>, j: nat)
    requires j < |queries|
    ensures KeywordHits(queries[..j + 1], source, k, search)
         == KeywordHits(queries[..j], source, k, search) + KeywordBlock(queries[j], k, Limit(search(source, queries[j].text), k))
  {
    assert queries[..j + 1][..j] == queries[..j];
  }

  /** Every keyword hit has run name "bm25", `param_value` k, a rank between 1 and k, and one of the queries. */
  lemma {:induction false} KeywordHitsOk(queries: seq<QueryItem>, source: string, k: nat, search: (string, string) -> seq<KeywordRow>)
    ensures forall j :: 0 <= j < |KeywordHits(queries, source, k, search)| ==>
      var h := KeywordHits(queries, source, k, search)[j];
      && h.runName == "bm25" && h.paramValue == k && 1 <= h.rank <= k
      && exists i :: 0 <= i < |queries| && queries[i].id == h.queryId && queries[i].text == h.queryText
  {
    if queries != [] {
      var n := |queries| - 1;
      KeywordHitsOk(queries[..n], source, k, search);
      var p := KeywordHits(queries[..n], source, k, search);
      var hits := KeywordHits(queries, source, k, search);
      forall j | 0 <= j < |hits|
        ensures exists i :: 0 <= i < |queries| && queries[i].id == hits[j].queryId && queries[i].text == hits[j].queryText
      {
        if j < |p| {
          var i :| 0 <= i < n && queries[..n][i].id == p[j].queryId && queries[..n][i].text == p[j].queryText;
          assert queries[i] == queries[..n][i];
        } else {
          assert hits[j].queryId == queries[n].id;
        }
      }
    }
  }

  /** The inner loop of `bm25_search`: the hits of one query's rows, ranked from 1. */
  method QueryKeywordHits(q: QueryItem, k: int, rows: seq<KeywordRow>) returns (block: seq<KeywordSearchHit>)
    ensures block == KeywordBlock(q, k, rows)
  {
    block := [];
    for r := 0 to |rows|
      invariant block == KeywordBlock(q, k, rows[..r])
    {
      KeywordBlockSnoc(q, k, rows, r);
      block := block + [KeywordHit(q, k, r + 1, rows[r])];
    }
    assert rows[..|rows|] == rows;
  }

  /** `bm25_search`. */
  method Bm25Search(queries: seq<QueryItem>, k: nat, source: string, search: (string, string) -> seq<KeywordRow>)
    returns (hits: seq<KeywordSearchHit>)
    ensures hits == KeywordHits(queries, source, k, search)
  {
    hits := [];
    for j := 0 to |queries|
      invariant hits == KeywordHits(queries[..j], source, k, search)
    {
      var q := queries[j];
      var rows := Limit(search(source, q.text), k);
      var block := QueryKeywordHits(q, k, rows);
      KeywordHitsSnoc(queries, source, k, search, j);
      hits := hits + block;
    }
    assert queries[..|queries|] == queries;
  }
}
