/**
 * The rows and records the service passes around: the `documents` and
 * `chunks` tables, the evaluation queries and the per-run search hits.
 */
module Records {
  import opened Wrappers

  /** A JSON metadata value: the model keeps strings and integers. */
  datatype MetaValue = MetaStr(text: string) | MetaInt(number: int)

  type Metadata = map<string, MetaValue>

  /** Python truthiness of a metadata value (`""` and `0` are falsy). */
  predicate Truthy(v: MetaValue) {
    match v
    case MetaStr(s) => s != ""
    case MetaInt(i) => i != 0
  }

  /** A row of the `documents` table. The id is the primary key the store generates. */
  datatype DocumentRow = DocumentRow(
    id: nat,
    source: string,
    title: string,
    metadata: Metadata,
    embeddingModel: Option<string>)

  /**
   * A row of the `chunks` table: `document_id` references `documents.id` with
   * ON DELETE CASCADE; (document_id, chunk_index) and (document_id,
   * content_hash) are unique.
   */
  datatype ChunkRow = ChunkRow(
    documentId: nat,
    chunkIndex: int,
    content: string,
    contentHash: string,
    embedding: seq<real>,
    metadata: Metadata)

  /**
   * A LlamaIndex text node as the embedding step hands it to ingestion: with
   * an embedding, unless embedding failed.
   */
  datatype TextNode = TextNode(id: string, text: string, metadata: Metadata, embedding: Option<seq<real>>)

  /** An evaluation query. */
  datatype QueryItem = QueryItem(id: string, category: string, difficulty: int, text: string, tags: seq<string>)

  /** One row of a vector-search run: `rank` is 1-based within the run; lower `dist` is better. */
  datatype RetrievalHit = RetrievalHit(
    queryId: string,
    queryText: string,
    runName: string,
    paramValue: int,
    rank: int,
    dist: real,
    chunkId: string,
    chunkText: string)

  /** One row of a keyword-search run: `rank` is 1-based within the run; higher `score` is better. */
  datatype KeywordSearchHit = KeywordSearchHit(
    queryId: string,
    queryText: string,
    runName: string,
    paramValue: int,
    rank: int,
    score: real,
    chunkId: string,
    chunkText: string)
}
