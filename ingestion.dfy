/**
 * `IngestPipeline.ingest_documents`: one transaction over the `documents` and
 * `chunks` tables that replaces every document of a source by a fresh one and
 * inserts its chunks, skipping a chunk whose (document_id, content_hash) is
 * already stored. The chunk-and-embed pipeline that produces the nodes runs
 * before the transaction and is not modelled: its output is a parameter.
 */
module Ingestion {
  import opened Wrappers
  import opened Tables
  import opened Records
  import opened ContentHash

  // ---------------------------------------------------------------------------
  // Keys and the table invariant

  function IdOf(d: DocumentRow): nat { d.id }
  function SourceOf(d: DocumentRow): string { d.source }
  function DocumentOf(c: ChunkRow): nat { c.documentId }
  /** The key of the unique constraint on (document_id, chunk_index). */
  function IndexKey(c: ChunkRow): (nat, int) { (c.documentId, c.chunkIndex) }
  /** The key of the unique constraint on (document_id, content_hash). */
  function HashKey(c: ChunkRow): (nat, string) { (c.documentId, c.contentHash) }

  function DocIds(docs: seq<DocumentRow>): set<nat> {
    set d | d in docs :: d.id
  }

  /** The ids of the documents whose source is `source`: what the delete removes. */
  function IdsOfSource(docs: seq<DocumentRow>, source: string): set<nat> {
    set d | d in docs && d.source == source :: d.id
  }

  /**
   * What the schema guarantees of the two tables: document ids are unique and
   * below the next id to hand out; every chunk references a stored document and
   * has an embedding of the column's dimension; (document_id, chunk_index) and
   * (document_id, content_hash) are unique.
   */
  ghost predicate TablesValid(docs: seq<DocumentRow>, chunks: seq<ChunkRow>, nextId: nat, dim: nat) {
    && KeysDistinct(docs, IdOf)
    && (forall i :: 0 <= i < |docs| ==> docs[i].id < nextId)
    && (forall i :: 0 <= i < |chunks| ==> chunks[i].documentId in DocIds(docs) && |chunks[i].embedding| == dim)
    && KeysDistinct(chunks, IndexKey)
    && KeysDistinct(chunks, HashKey)
  }

  // ---------------------------------------------------------------------------
  // The chunk insert: INSERT ... ON CONFLICT (document_id, content_hash) DO NOTHING

  /** The errors the database raises for a chunk row it cannot store. */
  datatype StoreError = DimensionMismatch | ChunkIndexConflict | UnknownDocument

  /**
   * One row of the insert: an embedding of the wrong dimension is rejected, a
   * row whose (document_id, content_hash) is taken is skipped, a taken
   * (document_id, chunk_index) or an unknown document is an error, and any other
   * row is appended.
   */
  function InsertRow(docIds: set<nat>, dim: nat, table: seq<ChunkRow>, row: ChunkRow): Result<seq<ChunkRow>, StoreError> {
    if |row.embedding| != dim then Failure(DimensionMismatch)
    else if HasKey(table, HashKey, HashKey(row)) then Success(table)
    else if HasKey(table, IndexKey, IndexKey(row)) then Failure(ChunkIndexConflict)
    else if row.documentId !in docIds then Failure(UnknownDocument)
    else Success(table + [row])
  }

  /** The whole statement: rows in order; the first error aborts it. */
  function InsertRows(docIds: set<nat>, dim: nat, table: seq<ChunkRow>, rows: seq<ChunkRow>): Result<seq<ChunkRow>, StoreError>
    decreases |rows|
  {
    if rows == [] then Success(table)
    else
      match InsertRow(docIds, dim, table, rows[0])
      case Failure(e) => Failure(e)
      case Success(t) => InsertRows(docIds, dim, t, rows[1..])
  }

  /** A row the insert accepts keeps the table invariant. */
  lemma InsertRowValid(docs: seq<DocumentRow>, table: seq<ChunkRow>, nextId: nat, dim: nat, row: ChunkRow)
    requires TablesValid(docs, table, nextId, dim)
    requires InsertRow(DocIds(docs), dim, table, row).Success?
    ensures TablesValid(docs, InsertRow(DocIds(docs), dim, table, row).value, nextId, dim)
  {
    var t := InsertRow(DocIds(docs), dim, table, row).value;
    if t != table {
      assert t == table + [row];
      forall i | 0 <= i < |table| ensures IndexKey(table[i]) != IndexKey(row) && HashKey(table[i]) != HashKey(row) {
      }
    }
  }

  /** Every row has an embedding of dimension `dim`. */
  predicate DimensionsFit(rows: seq<ChunkRow>, dim: nat) {
    forall i :: 0 <= i < |rows| ==> |rows[i].embedding| == dim
  }

  /**
   * Inserting the rows of a document that has no chunks yet stores exactly the
   * first row of each content hash, in order, provided every row references
   * that document and has its own chunk index; a row of the wrong dimension
   * fails the whole statement.
   */
  lemma InsertIntoFreshDocument(docIds: set<nat>, dim: nat, table: seq<ChunkRow>, rows: seq<ChunkRow>, id: nat)
    requires id in docIds
    requires forall i :: 0 <= i < |table| ==> table[i].documentId != id
    requires forall i :: 0 <= i < |rows| ==> rows[i].documentId == id
    requires forall i, j :: 0 <= i < j < |rows| ==> rows[i].chunkIndex != rows[j].chunkIndex
    ensures InsertRows(docIds, dim, table, rows) ==
      if DimensionsFit(rows, dim) then Success(table + KeepFirst(rows, HashKey)) else Failure(DimensionMismatch)
  {
    assert rows[..0] == [] && rows[0..] == rows;
    assert table + KeepFirst(rows[..0], HashKey) == table;
    InsertRowsFrom(docIds, dim, table, rows, id, 0);
  }

  lemma {:induction false} InsertRowsFrom(docIds: set<nat>, dim: nat, table: seq<ChunkRow>, rows: seq<ChunkRow>, id: nat, n: nat)
    requires n <= |rows|
    requires id in docIds
    requires forall i :: 0 <= i < |table| ==> table[i].documentId != id
    requires forall i :: 0 <= i < |rows| ==> rows[i].documentId == id
    requires forall i, j :: 0 <= i < j < |rows| ==> rows[i].chunkIndex != rows[j].chunkIndex
    requires DimensionsFit(rows[..n], dim)
    ensures InsertRows(docIds, dim, table + KeepFirst(rows[..n], HashKey), rows[n..]) ==
      if DimensionsFit(rows, dim) then Success(table + KeepFirst(rows, HashKey)) else Failure(DimensionMismatch)
    decreases |rows| - n
  {
    if n == |rows| {
      assert rows[..n] == rows;
    } else if |rows[n].embedding| != dim {
      assert !DimensionsFit(rows, dim);
    } else {
      InsertRowStep(docIds, table, rows, id, n);
      assert rows[n..][1..] == rows[n + 1..];
      assert DimensionsFit(rows[..n + 1], dim) by {
        assert forall i :: 0 <= i < n ==> rows[..n + 1][i] == rows[..n][i];
      }
      InsertRowsFrom(docIds, dim, table, rows, id, n + 1);
    }
  }

  lemma InsertRowStep(docIds: set<nat>, table: seq<ChunkRow>, rows: seq<ChunkRow>, id: nat, n: nat)
    requires n < |rows|
    requires id in docIds
    requires forall i :: 0 <= i < |table| ==> table[i].documentId != id
    requires forall i :: 0 <= i < |rows| ==> rows[i].documentId == id
    requires forall i, j :: 0 <= i < j < |rows| ==> rows[i].chunkIndex != rows[j].chunkIndex
    ensures InsertRow(docIds, |rows[n].embedding|, table + KeepFirst(rows[..n], HashKey), rows[n]) == Success(table + KeepFirst(rows[..n + 1], HashKey))
  {
    var pre, row := rows[..n], rows[n];
    var p := KeepFirst(pre, HashKey);
    assert rows[..n + 1] == pre + [row];
    KeepFirstSnoc(pre, HashKey, row);
    KeepFirstHasKey(pre, HashKey, HashKey(row));
    OtherDocumentAbsent(table, id, row);
    HasKeyConcat(table, p, HashKey, HashKey(row));
    if !HasKey(pre, HashKey, HashKey(row)) {
      KeptIndexesFree(rows, n);
      HasKeyConcat(table, p, IndexKey, IndexKey(row));
      assert table + p + [row] == table + (p + [row]);
    }
  }

  /** Rows of another document share neither key with a row of document `id`. */
  lemma OtherDocumentAbsent(table: seq<ChunkRow>, id: nat, row: ChunkRow)
    requires forall i :: 0 <= i < |table| ==> table[i].documentId != id
    requires row.documentId == id
    ensures !HasKey(table, HashKey, HashKey(row)) && !HasKey(table, IndexKey, IndexKey(row))
  {
  }

  /** The rows kept from before row `n` all have chunk indexes other than row `n`'s. */
  lemma KeptIndexesFree(rows: seq<ChunkRow>, n: nat)
    requires n < |rows|
    requires forall i, j :: 0 <= i < j < |rows| ==> rows[i].chunkIndex != rows[j].chunkIndex
    ensures !HasKey(KeepFirst(rows[..n], HashKey), IndexKey, IndexKey(rows[n]))
  {
    var pre := rows[..n];
    var p := KeepFirst(pre, HashKey);
    KeepFirstSubset(pre, HashKey);
    forall j | 0 <= j < |p| ensures IndexKey(p[j]) != IndexKey(rows[n]) {
      var g :| 0 <= g < |pre| && pre[g] == p[j];
      assert rows[g] == p[j];
    }
  }

  // ---------------------------------------------------------------------------
  // The two tables, changed in place by the session

  class Store {
    /** The dimension of the `embedding` column (`Vector(EMBEDDING_DIM)`). */
    const dim: nat
    var documents: seq<DocumentRow>
    var chunks: seq<ChunkRow>
    /** The next fresh document id; the database hands out ids that were never used. */
    var nextId: nat

    ghost predicate Valid()
      reads this
    {
      TablesValid(documents, chunks, nextId, dim)
    }

    constructor (dim: nat)
      ensures Valid() && this.dim == dim
      ensures documents == [] && chunks == []
    {
      this.dim := dim;
      documents, chunks, nextId := [], [], 0;
    }

    /**
     * `DELETE FROM documents WHERE source = :source`; the foreign key's
     * ON DELETE CASCADE removes the chunks of the deleted documents.
     */
    method DeleteSource(source: string)
      requires Valid()
      modifies this
      ensures Valid() && nextId == old(nextId)
      ensures documents == Without(old(documents), SourceOf, {source})
      ensures chunks == Without(old(chunks), DocumentOf, IdsOfSource(old(documents), source))
    {
      var gone := IdsOfSource(documents, source);
      var docs := Without(documents, SourceOf, {source});
      var kept := Without(chunks, DocumentOf, gone);
      DistinctWithout(documents, SourceOf, {source}, IdOf);
      DistinctWithout(chunks, DocumentOf, gone, IndexKey);
      DistinctWithout(chunks, DocumentOf, gone, HashKey);
      forall i | 0 <= i < |kept| ensures kept[i].documentId in DocIds(docs) {
        var c := kept[i];
        var m :| 0 <= m < |chunks| && chunks[m] == c;
        var d :| d in documents && d.id == c.documentId;
        assert d.source != source;
        var k :| 0 <= k < |documents| && documents[k] == d;
        assert d in docs;
      }
      documents, chunks := docs, kept;
    }

    /** `session.add(Document(...))` and `flush()`: the new row gets a fresh id. */
    method AddDocument(source: string, title: string, metadata: Metadata, embeddingModel: Option<string>) returns (id: nat)
      requires Valid()
      modifies this
      ensures Valid()
      ensures id == old(nextId) && nextId == id + 1
      ensures documents == old(documents) + [DocumentRow(id, source, title, metadata, embeddingModel)]
      ensures chunks == old(chunks)
    {
      id := nextId;
      documents := documents + [DocumentRow(id, source, title, metadata, embeddingModel)];
      nextId := nextId + 1;
      assert DocIds(old(documents)) <= DocIds(documents);
    }

    /**
     * The bulk `INSERT ... ON CONFLICT (document_id, content_hash) DO NOTHING`.
     * A statement that fails stores none of its rows.
     */
    method InsertChunks(rows: seq<ChunkRow>) returns (err: Option<StoreError>)
      requires Valid()
      modifies this`chunks
      ensures Valid()
      ensures match InsertRows(DocIds(documents), dim, old(chunks), rows)
        case Success(t) => err == None && chunks == t
        case Failure(e) => err == Some(e) && chunks == old(chunks)
    {
      var t := chunks;
      var i := 0;
      while i < |rows|
        invariant 0 <= i <= |rows|
        invariant chunks == old(chunks)
        invariant TablesValid(documents, t, nextId, dim)
        invariant InsertRows(DocIds(documents), dim, chunks, rows) == InsertRows(DocIds(documents), dim, t, rows[i..])
      {
        assert rows[i..][0] == rows[i] && rows[i..][1..] == rows[i + 1..];
        var step := InsertRow(DocIds(documents), dim, t, rows[i]);
        if step.Failure? {
          assert InsertRows(DocIds(documents), dim, t, rows[i..]) == Failure(step.error);
          return Some(step.error);
        }
        InsertRowValid(documents, t, nextId, dim, rows[i]);
        assert InsertRows(DocIds(documents), dim, t, rows[i..]) == InsertRows(DocIds(documents), dim, step.value, rows[i + 1..]);
        t := step.value;
        i := i + 1;
      }
      chunks := t;
      return None;
    }

    /** The rollback of a failed transaction: both tables return to a snapshot. */
    method Restore(docs: seq<DocumentRow>, saved: seq<ChunkRow>)
      requires TablesValid(docs, saved, nextId, dim)
      modifies this`documents, this`chunks
      ensures Valid() && documents == docs && chunks == saved
    {
      documents, chunks := docs, saved;
    }
  }

  // ---------------------------------------------------------------------------
  // The pipeline

  /** What `ingest_documents` can raise. */
  datatype IngestError = MissingEmbedding | Database(error: StoreError)

  /** The returned dict: `document_id`, `doc_row` and `n_chunks`. */
  datatype IngestSummary = IngestSummary(documentId: nat, docRow: DocumentRow, nChunks: nat)

  predicate AllEmbedded(nodes: seq<TextNode>) {
    forall i :: 0 <= i < |nodes| ==> nodes[i].embedding.Some?
  }

  /** The chunk row built for the node at position `i` of the pipeline output. */
  function RowFor(hash: string -> string, docId: nat, i: nat, node: TextNode): ChunkRow
    requires node.embedding.Some?
  {
    ChunkRow(docId, i, node.text, hash(node.text), node.embedding.value, node.metadata)
  }

  /**
   * The content hash as a function value: `create_content_hash` with the given
   * digest.
   */
  function ContentHasher(digest: string -> string): string -> string {
    content => ContentHashOf(digest, content)
  }

  /** The rows of the insert, one per node, in node order; `hash` is the content hash. */
  function BuildRows(hash: string -> string, docId: nat, nodes: seq<TextNode>): (rows: seq<ChunkRow>)
    requires AllEmbedded(nodes)
    ensures |rows| == |nodes|
  {
    if nodes == [] then []
    else
      var n := |nodes| - 1;
      assert AllEmbedded(nodes[..n]);
      BuildRows(hash, docId, nodes[..n]) + [RowFor(hash, docId, n, nodes[n])]
  }

  lemma BuildRowsSnoc(hash: string -> string, docId: nat, nodes: seq<TextNode>, i: nat)
    requires i < |nodes| && AllEmbedded(nodes[..i + 1])
    ensures AllEmbedded(nodes[..i])
    ensures BuildRows(hash, docId, nodes[..i + 1]) == BuildRows(hash, docId, nodes[..i]) + [RowFor(hash, docId, i, nodes[i])]
  {
    var t := nodes[..i + 1];
    assert t[..i] == nodes[..i] && t[i] == nodes[i];
  }

  /**
   * Row `i` belongs to the new document, has chunk index `i` (its position
   * among all nodes), the node's text, embedding and metadata, and the content
   * hash of the text.
   */
  lemma {:induction false} BuildRowsAt(hash: string -> string, docId: nat, nodes: seq<TextNode>, i: nat)
    requires AllEmbedded(nodes) && i < |nodes|
    ensures BuildRows(hash, docId, nodes)[i] == RowFor(hash, docId, i, nodes[i])
    ensures BuildRows(hash, docId, nodes)[i].documentId == docId
    ensures BuildRows(hash, docId, nodes)[i].chunkIndex == i
    ensures BuildRows(hash, docId, nodes)[i].contentHash == hash(nodes[i].text)
  {
    var n := |nodes| - 1;
    if i < n {
      assert AllEmbedded(nodes[..n]);
      BuildRowsAt(hash, docId, nodes[..n], i);
      assert nodes[..n][i] == nodes[i];
    }
  }

  /** The metadata of the new document: the extra metadata, with `n_nodes` set to the node count. */
  function DocMetadata(extra: Metadata, nodeCount: nat): (m: Metadata)
    ensures m.Keys == extra.Keys + {"n_nodes"}
    ensures m["n_nodes"] == MetaInt(nodeCount)
    ensures forall k :: k in extra && k != "n_nodes" ==> m[k] == extra[k]
  {
    extra["n_nodes" := MetaInt(nodeCount)]
  }

  /** The error the ingest raises, if any, for the given pipeline output. */
  function IngestOutcome(dim: nat, nodes: seq<TextNode>): Option<IngestError> {
    if !AllEmbedded(nodes) then Some(MissingEmbedding)
    else if exists i :: 0 <= i < |nodes| && |nodes[i].embedding.value| != dim then Some(Database(DimensionMismatch))
    else None
  }

  /** Every row belongs to the new document and carries its position as chunk index. */
  lemma BuildRowsShape(hash: string -> string, docId: nat, nodes: seq<TextNode>)
    requires AllEmbedded(nodes)
    ensures forall i :: 0 <= i < |nodes| ==>
      BuildRows(hash, docId, nodes)[i].documentId == docId && BuildRows(hash, docId, nodes)[i].chunkIndex == i
  {
    forall i | 0 <= i < |nodes|
      ensures BuildRows(hash, docId, nodes)[i].documentId == docId && BuildRows(hash, docId, nodes)[i].chunkIndex == i
    {
      BuildRowsAt(hash, docId, nodes, i);
    }
  }

  /**
   * The loop of `ingest_documents` that builds the insert's rows; it raises on
   * the first node without an embedding.
   */
  method CollectRows(hash: string -> string, docId: nat, nodes: seq<TextNode>) returns (r: Result<seq<ChunkRow>, IngestError>)
    ensures r.Success? <==> AllEmbedded(nodes)
    ensures r.Success? ==> r.value == BuildRows(hash, docId, nodes)
    ensures r.Failure? ==> r.error == MissingEmbedding
  {
    var rows := [];
    var i := 0;
    while i < |nodes|
      invariant 0 <= i <= |nodes|
      invariant AllEmbedded(nodes[..i])
      invariant rows == BuildRows(hash, docId, nodes[..i])
    {
      if nodes[i].embedding.None? {
        return Failure(MissingEmbedding);
      }
      assert AllEmbedded(nodes[..i + 1]);
      BuildRowsSnoc(hash, docId, nodes, i);
      rows := rows + [RowFor(hash, docId, i, nodes[i])];
      i := i + 1;
    }
    assert nodes[..i] == nodes;
    return Success(rows);
  }

  /** After the delete, every chunk still belongs to an older document. */
  lemma OlderChunksBelow(docs: seq<DocumentRow>, chunks: seq<ChunkRow>, nextId: nat, dim: nat, gone: set<nat>)
    requires TablesValid(docs, chunks, nextId, dim)
    ensures forall j :: 0 <= j < |Without(chunks, DocumentOf, gone)| ==> Without(chunks, DocumentOf, gone)[j].documentId < nextId
  {
    var kept := Without(chunks, DocumentOf, gone);
    forall j | 0 <= j < |kept| ensures kept[j].documentId < nextId {
      var m :| 0 <= m < |chunks| && chunks[m] == kept[j];
      var d :| d in docs && d.id == chunks[m].documentId;
    }
  }

  /** The insert fails on dimensions exactly when some node's embedding has the wrong one. */
  lemma RowsFitUnlessMismatch(hash: string -> string, docId: nat, nodes: seq<TextNode>, dim: nat)
    requires AllEmbedded(nodes)
    ensures DimensionsFit(BuildRows(hash, docId, nodes), dim) <==> IngestOutcome(dim, nodes).None?
  {
    var rows := BuildRows(hash, docId, nodes);
    forall i | 0 <= i < |nodes| ensures |rows[i].embedding| == |nodes[i].embedding.value| {
      BuildRowsAt(hash, docId, nodes, i);
    }
  }

  /**
   * The insert of a new document's rows stores the first row of each content
   * hash, unless some embedding has the wrong dimension.
   */
  lemma InsertBuiltRows(docIds: set<nat>, dim: nat, table: seq<ChunkRow>, hash: string -> string, id: nat, nodes: seq<TextNode>)
    requires AllEmbedded(nodes) && id in docIds
    requires forall j :: 0 <= j < |table| ==> table[j].documentId < id
    ensures InsertRows(docIds, dim, table, BuildRows(hash, id, nodes)) ==
      if IngestOutcome(dim, nodes).None? then Success(table + KeepFirst(BuildRows(hash, id, nodes), HashKey)) else Failure(DimensionMismatch)
  {
    BuildRowsShape(hash, id, nodes);
    InsertIntoFreshDocument(docIds, dim, table, BuildRows(hash, id, nodes), id);
    RowsFitUnlessMismatch(hash, id, nodes, dim);
  }

  /**
   * The first statements of the transaction: delete the source's documents
   * (their chunks cascade), then add the new document. Every chunk left belongs
   * to an older document.
   */
  method ReplaceSource(store: Store, source: string, title: string, metadata: Metadata, embeddingModel: Option<string>)
    returns (id: nat)
    requires store.Valid()
    modifies store
    ensures store.Valid() && id == old(store.nextId) && store.nextId == id + 1
    ensures store.documents == Without(old(store.documents), SourceOf, {source}) + [DocumentRow(id, source, title, metadata, embeddingModel)]
    ensures store.chunks == Without(old(store.chunks), DocumentOf, IdsOfSource(old(store.documents), source))
    ensures id in DocIds(store.documents)
    ensures forall j :: 0 <= j < |store.chunks| ==> store.chunks[j].documentId < id
  {
    OlderChunksBelow(store.documents, store.chunks, store.nextId, store.dim, IdsOfSource(store.documents, source));
    store.DeleteSource(source);
    id := store.AddDocument(source, title, metadata, embeddingModel);
    assert store.documents[|store.documents| - 1] == DocumentRow(id, source, title, metadata, embeddingModel);
  }

  /**
   * The rows of a freshly added document: built node by node, then inserted in
   * one statement. Either error leaves the chunks as they were.
   */
  method StoreNodes(store: Store, hash: string -> string, id: nat, nodes: seq<TextNode>) returns (err: Option<IngestError>)
    requires store.Valid() && id in DocIds(store.documents)
    requires forall j :: 0 <= j < |store.chunks| ==> store.chunks[j].documentId < id
    modifies store`chunks
    ensures store.Valid()
    ensures err == IngestOutcome(store.dim, nodes)
    ensures err.None? ==> store.chunks == old(store.chunks) + KeepFirst(BuildRows(hash, id, nodes), HashKey)
    ensures err.Some? ==> store.chunks == old(store.chunks)
  {
    var built := CollectRows(hash, id, nodes);
    if built.Failure? {
      return Some(MissingEmbedding);
    }
    InsertBuiltRows(DocIds(store.documents), store.dim, store.chunks, hash, id, nodes);
    var e := store.InsertChunks(built.value);
    if e.Some? {
      return Some(Database(e.value));
    }
    return None;
  }

  /**
   * The pipeline's configuration: the embedding model's `model_name` (None when
   * it has none), the extra document metadata, and the digest (SHA-256 in hex).
   */
  class IngestPipeline {
    const modelName: Option<string>
    const extraDocMetadata: Metadata
    const digest: string -> string

    /** `extra_doc_metadata or {}`: a missing mapping is the empty one. */
    constructor (modelName: Option<string>, extraDocMetadata: Option<Metadata>, digest: string -> string)
      ensures this.modelName == modelName && this.digest == digest
      ensures this.extraDocMetadata == extraDocMetadata.GetOr(map[])
    {
      this.modelName := modelName;
      this.extraDocMetadata := extraDocMetadata.GetOr(map[]);
      this.digest := digest;
    }

    /** `create_content_hash`. */
    function CreateContentHash(content: string): string {
      ContentHashOf(digest, content)
    }

    /**
     * `ingest_documents`, given the nodes the chunk-and-embed pipeline produced.
     * On success the source's documents (and, by cascade, their chunks) are
     * replaced by one fresh document holding the first chunk of each content
     * hash; on any error the transaction rolls back and both tables are as
     * before.
     */
    method IngestDocuments(store: Store, nodes: seq<TextNode>, source: string, title: string)
      returns (r: Result<IngestSummary, IngestError>)
      requires store.Valid()
      modifies store
      ensures store.Valid() && store.nextId == old(store.nextId) + 1
      ensures r.Failure? <==> IngestOutcome(store.dim, nodes).Some?
      ensures r.Failure? ==> r.error == IngestOutcome(store.dim, nodes).value
      ensures r.Failure? ==> store.documents == old(store.documents) && store.chunks == old(store.chunks)
      ensures r.Success? ==>
        var id := old(store.nextId);
        var doc := DocumentRow(id, source, title, DocMetadata(extraDocMetadata, |nodes|), modelName);
        && r.value == IngestSummary(id, doc, |nodes|)
        && store.documents == Without(old(store.documents), SourceOf, {source}) + [doc]
        && store.chunks == Without(old(store.chunks), DocumentOf, IdsOfSource(old(store.documents), source))
                           + KeepFirst(BuildRows(ContentHasher(digest), id, nodes), HashKey)
    {
      var savedDocs, savedChunks := store.documents, store.chunks;
      var docMeta := DocMetadata(extraDocMetadata, |nodes|);
      var id := ReplaceSource(store, source, title, docMeta, modelName);
      var doc := DocumentRow(id, source, title, docMeta, modelName);
      ghost var chunksNow := store.chunks;
      if |nodes| > 0 {
        var err := StoreNodes(store, ContentHasher(digest), id, nodes);
        if err.Some? {
          store.Restore(savedDocs, savedChunks);
          return Failure(err.value);
        }
      } else {
        assert chunksNow + KeepFirst(BuildRows(ContentHasher(digest), id, nodes), HashKey) == chunksNow;
      }
      return Success(IngestSummary(id, doc, |nodes|));
    }
  }

  // ---------------------------------------------------------------------------
  // What a successful ingest leaves in the tables

  /** After the replace, the new document is the only one with its source. */
  lemma SourceReplaced(docs: seq<DocumentRow>, doc: DocumentRow)
    ensures Where(Without(docs, SourceOf, {doc.source}) + [doc], SourceOf, {doc.source}) == [doc]
  {
    var rest := Without(docs, SourceOf, {doc.source});
    WhereAppend(rest, [doc], SourceOf, {doc.source});
    assert Where(rest, SourceOf, {doc.source}) == [] by {
      forall x | x in rest ensures SourceOf(x) !in {doc.source} {
        var k :| 0 <= k < |rest| && rest[k] == x;
      }
      WhereNone(rest, SourceOf, {doc.source});
    }
    assert Where([doc], SourceOf, {doc.source}) == [doc] by {
      assert [doc][..0] == [];
    }
  }

  /** The documents of every other source are unchanged, in order. */
  lemma OtherSourcesUnchanged(docs: seq<DocumentRow>, doc: DocumentRow, other: string)
    requires other != doc.source
    ensures Where(Without(docs, SourceOf, {doc.source}) + [doc], SourceOf, {other}) == Where(docs, SourceOf, {other})
  {
    WhereAppend(Without(docs, SourceOf, {doc.source}), [doc], SourceOf, {other});
    WhereWithout(docs, SourceOf, {other}, {doc.source});
    assert Where([doc], SourceOf, {other}) == [] by {
      assert [doc][..0] == [];
    }
  }

  /**
   * The chunks of every document that was neither deleted nor inserted are
   * unchanged, in order.
   */
  lemma OtherChunksUnchanged(chunks: seq<ChunkRow>, gone: set<nat>, added: seq<ChunkRow>, id: nat, d: nat)
    requires forall i :: 0 <= i < |added| ==> added[i].documentId == id
    requires d !in gone && d != id
    ensures Where(Without(chunks, DocumentOf, gone) + added, DocumentOf, {d}) == Where(chunks, DocumentOf, {d})
  {
    WhereAppend(Without(chunks, DocumentOf, gone), added, DocumentOf, {d});
    WhereWithout(chunks, DocumentOf, {d}, gone);
    WhereNone(added, DocumentOf, {d});
    assert Where(chunks, DocumentOf, {d}) + [] == Where(chunks, DocumentOf, {d});
  }

  /** The chunks of the new document are exactly the inserted rows. */
  lemma NewDocumentChunks(chunks: seq<ChunkRow>, gone: set<nat>, added: seq<ChunkRow>, id: nat)
    requires forall i :: 0 <= i < |chunks| ==> chunks[i].documentId != id
    requires forall i :: 0 <= i < |added| ==> added[i].documentId == id
    ensures Where(Without(chunks, DocumentOf, gone) + added, DocumentOf, {id}) == added
  {
    var rest := Without(chunks, DocumentOf, gone);
    WhereAppend(rest, added, DocumentOf, {id});
    WhereNone(rest, DocumentOf, {id});
    WhereAll(added, DocumentOf, {id});
  }

  /** No node before node `i` has the same content hash. */
  predicate FirstOfHash(hash: string -> string, nodes: seq<TextNode>, i: nat)
    requires i < |nodes|
  {
    forall k :: 0 <= k < i ==> hash(nodes[k].text) != hash(nodes[i].text)
  }

  /**
   * The rows stored for the new document have pairwise different content
   * hashes, each is the row of the first node carrying its hash, and every
   * node's hash is stored.
   */
  lemma StoredRowsFirstPerHash(hash: string -> string, id: nat, nodes: seq<TextNode>)
    requires AllEmbedded(nodes)
    ensures var rows := BuildRows(hash, id, nodes);
      var stored := KeepFirst(rows, HashKey);
      && (forall j1, j2 :: 0 <= j1 < j2 < |stored| ==> stored[j1].contentHash != stored[j2].contentHash)
      && (forall j :: 0 <= j < |stored| ==> exists i :: 0 <= i < |rows| && stored[j] == rows[i] && FirstOfHash(hash, nodes, i))
      && (forall i :: 0 <= i < |rows| ==> exists j :: 0 <= j < |stored| && stored[j].contentHash == hash(nodes[i].text))
  {
    var rows := BuildRows(hash, id, nodes);
    var stored := KeepFirst(rows, HashKey);
    BuildRowsShape(hash, id, nodes);
    KeepFirstKeepsFirsts(rows, HashKey);
    forall j1, j2 | 0 <= j1 < j2 < |stored| ensures stored[j1].contentHash != stored[j2].contentHash {
      KeepFirstKeysDistinct(rows, HashKey, j1, j2);
      assert stored[j1].documentId == id == stored[j2].documentId;
    }
    forall j | 0 <= j < |stored| ensures exists i :: 0 <= i < |rows| && stored[j] == rows[i] && FirstOfHash(hash, nodes, i) {
      var f := FirstIndex(rows, HashKey, HashKey(stored[j]));
      forall k | 0 <= k < f ensures hash(nodes[k].text) != hash(nodes[f].text) {
        BuildRowsAt(hash, id, nodes, k);
        BuildRowsAt(hash, id, nodes, f);
      }
    }
    forall i | 0 <= i < |rows| ensures exists j :: 0 <= j < |stored| && stored[j].contentHash == hash(nodes[i].text) {
      KeepFirstCoversKeys(rows, HashKey, i);
      BuildRowsAt(hash, id, nodes, i);
    }
  }

  /**
   * The reported `n_chunks` is the node count: it is never below the number of
   * stored chunks, and equals it exactly when the nodes' hashes are pairwise
   * different.
   */
  lemma ReportedCountVersusStored(hash: string -> string, id: nat, nodes: seq<TextNode>)
    requires AllEmbedded(nodes)
    ensures |KeepFirst(BuildRows(hash, id, nodes), HashKey)| <= |nodes|
    ensures |KeepFirst(BuildRows(hash, id, nodes), HashKey)| == |nodes| <==>
      forall i, j :: 0 <= i < j < |nodes| ==> hash(nodes[i].text) != hash(nodes[j].text)
  {
    var rows := BuildRows(hash, id, nodes);
    KeepFirstKeepsFirsts(rows, HashKey);
    BuildRowsShape(hash, id, nodes);
    if forall i, j :: 0 <= i < j < |nodes| ==> hash(nodes[i].text) != hash(nodes[j].text) {
      forall i, j | 0 <= i < j < |rows| ensures HashKey(rows[i]) != HashKey(rows[j]) {
        BuildRowsAt(hash, id, nodes, i);
        BuildRowsAt(hash, id, nodes, j);
      }
      KeepFirstOfDistinct(rows, HashKey);
    } else {
      var i, j :| 0 <= i < j < |nodes| && hash(nodes[i].text) == hash(nodes[j].text);
      BuildRowsAt(hash, id, nodes, i);
      BuildRowsAt(hash, id, nodes, j);
      KeepFirstDropsRepeats(rows, HashKey, i, j);
    }
  }

  /**
   * A node whose text differs from an earlier node's only in whitespace is not
   * stored, so fewer rows than nodes are stored: the pipeline's hash
   * normalises whitespace away.
   */
  lemma WhitespaceDuplicateDropped(digest: string -> string, id: nat, nodes: seq<TextNode>, i: nat, j: nat)
    requires AllEmbedded(nodes) && i < j < |nodes|
    requires DifferOnlyInWhitespace(nodes[i].text, nodes[j].text)
    ensures BuildRows(ContentHasher(digest), id, nodes)[j] !in KeepFirst(BuildRows(ContentHasher(digest), id, nodes), HashKey)
    ensures |KeepFirst(BuildRows(ContentHasher(digest), id, nodes), HashKey)| < |nodes|
  {
    var rows := BuildRows(ContentHasher(digest), id, nodes);
    WhitespaceVariantsHashAlike(digest, nodes[i].text, nodes[j].text);
    BuildRowsAt(ContentHasher(digest), id, nodes, i);
    BuildRowsAt(ContentHasher(digest), id, nodes, j);
    KeepFirstDropsRepeats(rows, HashKey, i, j);
    var kept := KeepFirst(rows, HashKey);
    KeepFirstKeepsFirsts(rows, HashKey);
    forall m | 0 <= m < |kept| ensures kept[m] != rows[j] {
      var g := FirstIndex(rows, HashKey, HashKey(kept[m]));
      BuildRowsAt(ContentHasher(digest), id, nodes, g);
      assert kept[m].chunkIndex == g;
    }
  }
}
