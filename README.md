# RAG service core, modelled in Dafny

This project models the algorithmic core of a retrieval-augmented-generation
service. The service cuts Markdown documentation into chunks and stores each
chunk with an embedding and a content hash. It answers queries with a vector
search and a BM25 keyword search, fuses the two with Reciprocal Rank Fusion,
and scores rankings against relevance labels with NDCG, Precision@k and
Average Precision. The project covers these pieces:

- **Content hash** (`content_hash.dfy`). `create_content_hash` collapses every
  whitespace run to one space, strips the ends and digests the result. Python's
  `\s` and `str.strip` are modelled on the full list of Unicode whitespace code
  points (`Text.IsSpace`). The SHA-256 digest is a function parameter.
- **Ingestion** (`ingestion.dfy`). The two tables are the fields of a `Store`
  class, and `IngestPipeline.IngestDocuments` runs the transaction of
  `ingest_documents` on them:
  - it deletes the source's documents (their chunks cascade);
  - it adds a fresh document;
  - it builds one row per node in a loop;
  - it inserts the rows with `ON CONFLICT (document_id, content_hash) DO NOTHING`;
  - it rolls back on a missing embedding or on a database error.
- **Hash migration** (`hash_migration.dfy`). The `chunks` table is a class,
  `ChunksTable`, and each step of `upgrade` and `downgrade` is a method on it:
  add column, backfill, delete duplicates, `SET NOT NULL`, add the unique
  constraint.
- **Markdown chunker** (`markdown_chunker.dfy`). The class
  `MantineMarkdownChunker` covers:
  - splitting the text at separator lines;
  - the header-zone H3 scan;
  - the topic and section rules;
  - chunk numbering, the `doc_id::NNNNN` chunk id, the metadata merge and the
    context-prefixed text.
  The two LangChain splitters are one opaque function `split`.
- **Retrieval** (`retrieval.dfy`). The hit-assembly loops of `vectors_search`
  and `bm25_search`. The database is a function parameter that returns rows in
  some order, and SQL `LIMIT k` is `Limit`.
- **Rank fusion** (`rank_fusion.dfy`). `calculate_rrf_rank`: per-hit
  contributions, concat, group sum, drop duplicates, sort, per-query
  `cumcount`.
- **Evaluation** (`eval_utils.dfy`, `ndcg.dfy`, `precision.dfy`,
  `labelling.dfy`): `prepare_ranked_list`, `dcg_at_k`, `calculate_ndcg`,
  Precision@k, Average Precision, `calculate_precision_scores`,
  `dedupe_vector_hits` and `make_truth_label_df`.
- **Shared building blocks**:
  - `wrappers.dfy`: Option and Result.
  - `records.dfy`: the rows and records of `models.py`.
  - `text.dfy`: whitespace, strip, split lines, decimal formatting and string
    order.
  - `tables.dfy`: a stable sort, keep-first deduplication, sums by key,
    selection and per-group renumbering, as generic functions on sequences,
    and the `fillna(0).astype(int)` cast of a label cell.

Each loop in the source is a method proved against a specification function,
and the properties are lemmas about those functions.

Four points where what the code does is easy to misread:
- `calculate_rrf_rank` sums every input row of a (query, chunk) pair before
  `drop_duplicates`, so a chunk returned under several `ef` values collects
  several vector contributions, unlike RRF's one contribution per list
  (`FusedScoreIsPairSum`).
- The sorts in `calculate_rrf_rank` and `prepare_ranked_list` do not promise to
  break ties by original order. The contracts therefore state only the sort
  order and the permutation.
- NDCG is 0 whenever the ideal DCG is not positive (`idcg_value > 0`), not only
  when it is 0 (`NdcgValue`).
- The comment in the hash migration says its backfill computes ingestion's
  hash, but it does not always (see Findings).

`ingest_documents` reports `n_chunks = len(nodes)`, which counts the nodes, not
the stored rows. `ReportedCountVersusStored` states when the two differ.

## Model

| member | source | states |
|---|---|---|
| ContentHash.CollapseWhitespace | src/rag_service/pipeline/ingestion.py:109 | `re.sub(r"\s+", " ", s)`: empty exactly when the input is; its first character is the input's, or a space when that is whitespace |
| ContentHash.Normalize | src/rag_service/pipeline/ingestion.py:109 | the normal form the hash is taken of; what it holds is stated in NormalizeIsNormal, NormalizeIdempotent and NormalizeDropsLeadingSpace |
| ContentHash.ContentHashOf | src/rag_service/pipeline/ingestion.py:106-110 | `create_content_hash`: the digest of the normal form; WhitespaceVariantsHashAlike states that texts differing only in whitespace hash alike |
| ContentHash.CollapseIsSingleSpaced | src/rag_service/pipeline/ingestion.py:109 | after collapsing, the only whitespace is the plain space and no two spaces are adjacent |
| ContentHash.NormalizeIsNormal | src/rag_service/pipeline/ingestion.py:109 | the normalised text has no whitespace at either end and every whitespace run in it is a single space |
| ContentHash.CollapseOfSingleSpaced | src/rag_service/pipeline/ingestion.py:109 | collapsing a single-spaced text changes nothing |
| ContentHash.NormalizeOfNormal | src/rag_service/pipeline/ingestion.py:109 | normalising an already normal text changes nothing |
| ContentHash.NormalizeIdempotent | src/rag_service/pipeline/ingestion.py:109 | normalisation is idempotent |
| ContentHash.SameRunsCollapseAlike | src/rag_service/pipeline/ingestion.py:109 | two texts with the same non-whitespace characters and whitespace runs in the same places (a trailing run may be missing in one) collapse to the same text once the right end is stripped |
| ContentHash.NormalizeDropsLeadingSpace | src/rag_service/pipeline/ingestion.py:109 | leading whitespace does not affect the normal form: it is the collapse of the left-stripped text, right-stripped |
| ContentHash.WhitespaceVariantsHashAlike | src/rag_service/pipeline/ingestion.py:109-110 | texts that differ only in the length or kind of their whitespace runs, or in whitespace at the ends, have the same normal form and the same hash |
| Ingestion.InsertRow | src/rag_service/pipeline/ingestion.py:99-102 | one row of the insert: a wrong dimension, a clashing chunk index or an unknown document is an error, a taken content hash skips the row; InsertRowValid states that an accepted row keeps the table invariant |
| Ingestion.InsertRows | src/rag_service/pipeline/ingestion.py:99-102 | the whole statement, row by row, the first error aborting it; InsertIntoFreshDocument and InsertBuiltRows state which rows it appends |
| Ingestion.InsertRowValid | src/rag_service/pipeline/ingestion.py:99-102 | a row the insert accepts keeps the table invariant: known document, right dimension, unique (document, chunk_index) and unique (document, content_hash) |
| Ingestion.InsertIntoFreshDocument | src/rag_service/pipeline/ingestion.py:99-102 | inserting rows of a document with no chunks yet appends the first row of each content hash when every embedding has dimension `dim`, and fails with a dimension mismatch otherwise |
| Ingestion.Store.DeleteSource | src/rag_service/pipeline/ingestion.py:64 | removes exactly the documents with the source and, by cascade, exactly their chunks; keeps the invariant |
| Ingestion.Store.AddDocument | src/rag_service/pipeline/ingestion.py:66-77 | appends one document with a fresh id, returns that id, leaves the chunks alone |
| Ingestion.Store.InsertChunks | src/rag_service/pipeline/ingestion.py:99-102 | the insert statement: on success the chunks become the table the row-by-row insert produces, on error they are unchanged and the error is reported |
| Ingestion.Store.Restore | src/rag_service/pipeline/ingestion.py:61-62 | the rollback of the transaction: both tables return to a snapshot that satisfies the invariant |
| Ingestion.BuildRowsAt | src/rag_service/pipeline/ingestion.py:81-97 | the row for node `i` has `document_id` the new id, `chunk_index` i and the hash of the node's text |
| Ingestion.BuildRowsShape | src/rag_service/pipeline/ingestion.py:88-97 | every built row belongs to the new document and carries its position as chunk index |
| Ingestion.DocMetadata | src/rag_service/pipeline/ingestion.py:70-73 | the document metadata has the extra keys plus `n_nodes`; `n_nodes` is the node count and overrides an extra key of that name; every other extra key keeps its value |
| Ingestion.CollectRows | src/rag_service/pipeline/ingestion.py:80-97 | the row-building loop succeeds exactly when every node has an embedding, returns the rows in node order, and fails with the missing-embedding error otherwise |
| Ingestion.RowsFitUnlessMismatch | src/rag_service/pipeline/ingestion.py:99-102 | the built rows fit the embedding column exactly when the ingest raises no error |
| Ingestion.InsertBuiltRows | src/rag_service/pipeline/ingestion.py:99-102 | inserting the built rows of a new document appends the first row of each content hash, or fails with a dimension mismatch |
| Ingestion.ReplaceSource | src/rag_service/pipeline/ingestion.py:64-77 | delete by source, then add the new document: the new id is fresh and every remaining chunk belongs to an older document |
| Ingestion.StoreNodes | src/rag_service/pipeline/ingestion.py:79-102 | row building and insert: the error is the expected one; on success the first row of each hash is appended, on error the chunks are unchanged |
| Ingestion.IngestPipeline.constructor | src/rag_service/pipeline/ingestion.py:22-32 | keeps the model name and digest; a missing `extra_doc_metadata` becomes the empty map |
| Ingestion.IngestPipeline.IngestDocuments | src/rag_service/pipeline/ingestion.py:42-104 | fails exactly when a node lacks an embedding or has the wrong dimension, and then both tables are unchanged; on success the source's documents and their chunks are replaced by one new document holding the first chunk of each hash, and the summary reports `len(nodes)` |
| Ingestion.SourceReplaced | src/rag_service/pipeline/ingestion.py:64-77 | after the replace, the new document is the only one with its source |
| Ingestion.OtherSourcesUnchanged | src/rag_service/pipeline/ingestion.py:64 | the documents of every other source are unchanged, in order |
| Ingestion.OtherChunksUnchanged | src/rag_service/pipeline/ingestion.py:64-102 | the chunks of every other surviving document are unchanged, in order |
| Ingestion.NewDocumentChunks | src/rag_service/pipeline/ingestion.py:99-102 | the chunks of the new document are exactly the inserted rows |
| Ingestion.StoredRowsFirstPerHash | src/rag_service/pipeline/ingestion.py:99-102 | stored rows have pairwise different hashes; each is the row of the first node with its hash; every node's hash is stored |
| Ingestion.ReportedCountVersusStored | src/rag_service/pipeline/ingestion.py:104 | the reported count is never below the stored count, and equals it exactly when the nodes' hashes are pairwise different |
| Ingestion.WhitespaceDuplicateDropped | src/rag_service/pipeline/ingestion.py:94-102 | the row built for a node that differs from an earlier one only in whitespace is not among the stored rows, so fewer rows than nodes are stored |
| HashMigration.FillHash | alembic/versions/20260205_022110_create_document_hash_on_chunks_table.py:47-58 | one row of the `UPDATE`: afterwards the hash is set; a set hash is kept; a NULL hash becomes the hash of the content; no other column changes |
| HashMigration.Backfilled | alembic/versions/20260205_022110_create_document_hash_on_chunks_table.py:45-60 | the `UPDATE` leaves the row count alone and rewrites each row by the fill rule |
| HashMigration.BackfillOnlyNull | alembic/versions/20260205_022110_create_document_hash_on_chunks_table.py:47-58 | a row with a hash keeps it; a row with NULL gets the hash of its content; nothing else in the row changes |
| HashMigration.BackfillLeavesNoNull | alembic/versions/20260205_022110_create_document_hash_on_chunks_table.py:45-60 | after the backfill no row has a NULL hash |
| HashMigration.Deduplicated | alembic/versions/20260205_022110_create_document_hash_on_chunks_table.py:64-79 | the rows the `DELETE` leaves; DedupGroupsUnique, DedupKeepsEveryGroup, SurvivorIsGroupMinimum and DedupKeepsUniqueRows state which |
| HashMigration.DedupGroupsUnique | alembic/versions/20260205_022110_create_document_hash_on_chunks_table.py:64-79 | after the delete at most one row is left per (document_id, content_hash) |
| HashMigration.SurvivorIsGroupMinimum | alembic/versions/20260205_022110_create_document_hash_on_chunks_table.py:69-77 | a surviving row has the smallest chunk_index of its group |
| HashMigration.DedupKeepsEveryGroup | alembic/versions/20260205_022110_create_document_hash_on_chunks_table.py:64-79 | every group keeps a row, and that row has no larger chunk_index than any row of the group |
| HashMigration.DedupKeepsUniqueRows | alembic/versions/20260205_022110_create_document_hash_on_chunks_table.py:74-77 | a row whose key no other row shares is never deleted |
| HashMigration.DedupLeavesNoNull | alembic/versions/20260205_022110_create_document_hash_on_chunks_table.py:64-79 | the delete brings back no NULL hash |
| HashMigration.PgTrimLeft | alembic/versions/20260205_022110_create_document_hash_on_chunks_table.py:51 | PostgreSQL's one-argument `trim` removes leading spaces: the result does not start with one |
| HashMigration.PgTrimRight | alembic/versions/20260205_022110_create_document_hash_on_chunks_table.py:51 | PostgreSQL's one-argument `trim` removes trailing spaces: the result does not end with one |
| HashMigration.PgSpaceIsSpace | alembic/versions/20260205_022110_create_document_hash_on_chunks_table.py:41-51 | every character PostgreSQL's `\s` matches is Python whitespace too |
| HashMigration.PgCollapseMatches | alembic/versions/20260205_022110_create_document_hash_on_chunks_table.py:41-51 | where both engines agree on which characters are whitespace, `regexp_replace(content, '\s+', ' ', 'g')` equals `re.sub(r"\s+", " ", content)` |
| HashMigration.PgNormalize | alembic/versions/20260205_022110_create_document_hash_on_chunks_table.py:51 | `trim(regexp_replace(content, '\s+', ' ', 'g'))`; PgNormalizeAgrees and NoBreakSpaceKept state where it agrees with ingestion's normal form and where not |
| HashMigration.PgNormalizeAgrees | alembic/versions/20260205_022110_create_document_hash_on_chunks_table.py:41-57 | under that condition the backfill's normalisation and hash equal ingestion's |
| HashMigration.PgNormalizeThree | alembic/versions/20260205_022110_create_document_hash_on_chunks_table.py:51 | PostgreSQL's normal form of a three-character text whose ends are not whitespace |
| HashMigration.NormalizeThree | src/rag_service/pipeline/ingestion.py:109 | Python's normal form of such a text |
| HashMigration.NoBreakSpaceCollapsed | src/rag_service/pipeline/ingestion.py:109 | ingestion turns "a", U+00A0, "b" into "a b" |
| HashMigration.NoBreakSpaceKept | alembic/versions/20260205_022110_create_document_hash_on_chunks_table.py:51 | the backfill leaves "a", U+00A0, "b" as it is |
| HashMigration.BackfillHashDiffers | alembic/versions/20260205_022110_create_document_hash_on_chunks_table.py:41-57 | under a collision-free digest, the backfill's hash of that text differs from ingestion's |
| HashMigration.AsWrittenKeepsWhitespaceTwins | alembic/versions/20260205_022110_create_document_hash_on_chunks_table.py:45-79 | two chunks of one document, "a b" and "a", U+00A0, "b", both survive the migration as written |
| HashMigration.TwoRowsBothSurvive | alembic/versions/20260205_022110_create_document_hash_on_chunks_table.py:64-79 | two unhashed rows of one document whose contents hash apart both survive backfill and delete |
| HashMigration.TwinsHashApart | alembic/versions/20260205_022110_create_document_hash_on_chunks_table.py:45-57 | the as-written backfill hashes "a b" and "a", U+00A0, "b" apart |
| HashMigration.PlainSpaceKept | alembic/versions/20260205_022110_create_document_hash_on_chunks_table.py:51 | the backfill leaves "a b" as it is |
| HashMigration.BackfillRecoversHashes | alembic/versions/20260205_022110_create_document_hash_on_chunks_table.py:45-60 | backfilling rows stored without a hash recomputes exactly the stored hashes when both sides hash alike |
| HashMigration.SurvivesIffFirstOfKey | alembic/versions/20260205_022110_create_document_hash_on_chunks_table.py:64-79 | on rows numbered as ingestion numbers them, a row survives the delete exactly when no earlier row has its key |
| HashMigration.DedupOfIngested | alembic/versions/20260205_022110_create_document_hash_on_chunks_table.py:64-79 | the delete keeps exactly the rows ingestion's keep-first keeps |
| HashMigration.MigrationMatchesIngestion | alembic/versions/20260205_022110_create_document_hash_on_chunks_table.py:45-79 | a document chunked before the migration comes out of backfill and delete exactly as ingestion now stores it |
| HashMigration.ChunksTable.constructor | alembic/versions/20260205_022110_create_document_hash_on_chunks_table.py:33 | a table from before the migration, without the hash column |
| HashMigration.ChunksTable.AddColumn | alembic/versions/20260205_022110_create_document_hash_on_chunks_table.py:35-38 | adds the nullable column; the rows are unchanged |
| HashMigration.ChunksTable.Backfill | alembic/versions/20260205_022110_create_document_hash_on_chunks_table.py:45-60 | the rows become their backfilled form |
| HashMigration.ChunksTable.DeleteDuplicates | alembic/versions/20260205_022110_create_document_hash_on_chunks_table.py:64-79 | the rows become their deduplicated form; the unique (document_id, chunk_index) invariant holds |
| HashMigration.ChunksTable.SetNotNull | alembic/versions/20260205_022110_create_document_hash_on_chunks_table.py:82 | succeeds exactly when no hash is NULL, and only then marks the column NOT NULL |
| HashMigration.ChunksTable.AddUniqueConstraint | alembic/versions/20260205_022110_create_document_hash_on_chunks_table.py:84-88 | succeeds exactly when no two rows share (document_id, content_hash), and only then adds the constraint |
| HashMigration.ChunksTable.UpgradeWith | alembic/versions/20260205_022110_create_document_hash_on_chunks_table.py:33-88 | with any hash function, `upgrade` never fails and ends with the column NOT NULL and unique, holding the backfilled and deduplicated rows |
| HashMigration.ChunksTable.UpgradeAsWritten | alembic/versions/20260205_022110_create_document_hash_on_chunks_table.py:33-88 | the same with the PostgreSQL normalisation as written |
| HashMigration.ChunksTable.Upgrade | alembic/versions/20260205_022110_create_document_hash_on_chunks_table.py:33-88 | the same with ingestion's content hash |
| HashMigration.ChunksTable.Downgrade | alembic/versions/20260205_022110_create_document_hash_on_chunks_table.py:91-93 | drops the constraint and the column: every row loses its hash and nothing else |
| MarkdownChunker.LeadingDashes | src/rag_service/pipeline/mantine_markdown_parser.py:34 | the length of the run of '-' that opens a line |
| MarkdownChunker.Groups | src/rag_service/pipeline/mantine_markdown_parser.py:34-67 | splitting at separator lines gives at least one group, and no group holds a separator line; GroupsRejoin states that the groups are the pieces between the separators |
| MarkdownChunker.GroupsRejoin | src/rag_service/pipeline/mantine_markdown_parser.py:34-67 | there is one group more than there are separator lines, and putting the separators back between the groups gives the lines again |
| MarkdownChunker.BlocksFromGroups | src/rag_service/pipeline/mantine_markdown_parser.py:67 | every block is the stripped text of one of the groups |
| MarkdownChunker.GroupsGiveBlocks | src/rag_service/pipeline/mantine_markdown_parser.py:67 | every group whose stripped text is not empty gives a block |
| MarkdownChunker.StrippedNonEmpty | src/rag_service/pipeline/mantine_markdown_parser.py:67 | every kept block is non-empty and neither starts nor ends with whitespace |
| MarkdownChunker.RawBlocks | src/rag_service/pipeline/mantine_markdown_parser.py:67 | `raw_blocks`: no block is empty and none starts or ends with whitespace; RawBlocksArePieces states which blocks there are |
| MarkdownChunker.RawBlocksArePieces | src/rag_service/pipeline/mantine_markdown_parser.py:34-67 | the groups between the separator lines give the lines back; every block is the stripped text of a group, and every group with non-empty stripped text gives a block |
| MarkdownChunker.RawBlocksWithoutSeparator | src/rag_service/pipeline/mantine_markdown_parser.py:67 | a text without a separator line is one stripped block, or none when it is blank |
| MarkdownChunker.MatchH3 | src/rag_service/pipeline/mantine_markdown_parser.py:35 | the match of `^\s*###\s+(.+?)\s*$` with its group stripped; MatchH3Complete and MatchH3Sound state that it reports a title exactly when the pattern matches |
| MarkdownChunker.MatchH3Complete | src/rag_service/pipeline/mantine_markdown_parser.py:57-59 | whenever `^\s*###\s+(.+?)\s*$` matches a line, the reported title is the stripped capture |
| MarkdownChunker.MatchH3Sound | src/rag_service/pipeline/mantine_markdown_parser.py:57-59 | whenever a title is reported, the pattern matches the line |
| MarkdownChunker.ExaminedPrefix | src/rag_service/pipeline/mantine_markdown_parser.py:55-56 | the examined lines form a prefix of the block |
| MarkdownChunker.ScanFromFirst | src/rag_service/pipeline/mantine_markdown_parser.py:52-59 | the scan returns the title of the first examined matching line |
| MarkdownChunker.ScanFromNone | src/rag_service/pipeline/mantine_markdown_parser.py:52-60 | the scan returns None exactly when no examined line matches |
| MarkdownChunker.HeaderZoneH3 | src/rag_service/pipeline/mantine_markdown_parser.py:50-60 | `_first_h3_in_header_zone` as a function of the block; HeaderZoneH3Spec states what it returns |
| MarkdownChunker.HeaderZoneH3Spec | src/rag_service/pipeline/mantine_markdown_parser.py:50-60 | `_first_h3_in_header_zone` is None exactly when no examined line matches, and otherwise the title of the first examined match |
| MarkdownChunker.PastZoneNeverExamined | src/rag_service/pipeline/mantine_markdown_parser.py:53-56 | the line that would be the (max+1)-th non-empty one, and every later line, is never examined |
| MarkdownChunker.TopicOf | src/rag_service/pipeline/mantine_markdown_parser.py:72 | the topic is the header-zone H3 when there is a non-empty one, else "General" |
| MarkdownChunker.SectionRules | src/rag_service/pipeline/mantine_markdown_parser.py:78-80 | the section is H3, else H2, else "Overview", and "Overview" when it would equal the topic |
| MarkdownChunker.ContextText | src/rag_service/pipeline/mantine_markdown_parser.py:83-87 | `text_for_embed`; ContextTextShape states its shape |
| MarkdownChunker.ContextTextShape | src/rag_service/pipeline/mantine_markdown_parser.py:83-87 | with injection off the text is the content; with it on the text opens with "Topic: " and the topic; the content always ends the text |
| MarkdownChunker.ChunkId | src/rag_service/pipeline/mantine_markdown_parser.py:95 | `f"{doc_id}::{chunk_index:05d}"`; ChunkIdInjective states that it tells chunk indices apart |
| MarkdownChunker.ChunkIdInjective | src/rag_service/pipeline/mantine_markdown_parser.py:95 | within a document, different chunk indices give different chunk ids |
| MarkdownChunker.NodeMetadata | src/rag_service/pipeline/mantine_markdown_parser.py:90-99 | the five computed fields are present with their computed values, whatever the document or the headers say |
| MarkdownChunker.ContextMetadataKeys | src/rag_service/pipeline/mantine_markdown_parser.py:90-115 | the computed keys are exactly the five keys hidden from the LLM and the embedder |
| MarkdownChunker.NodeMetadataPrecedence | src/rag_service/pipeline/mantine_markdown_parser.py:90-99 | for any other key, a header value beats a document value, and no key appears that neither supplies |
| MarkdownChunker.MakeNode | src/rag_service/pipeline/mantine_markdown_parser.py:78-115 | the node of one piece; NodeMetadata, ContextMetadataKeys and PieceNodesNumbered state its metadata and numbering |
| MarkdownChunker.DocIdOf | src/rag_service/pipeline/mantine_markdown_parser.py:65 | the document id is never empty |
| MarkdownChunker.PieceNodes | src/rag_service/pipeline/mantine_markdown_parser.py:77-118 | one node per piece |
| MarkdownChunker.PieceNodesNumbered | src/rag_service/pipeline/mantine_markdown_parser.py:77-118 | the nodes of a block are numbered consecutively from the start index, with matching chunk ids |
| MarkdownChunker.NumberPieces | src/rag_service/pipeline/mantine_markdown_parser.py:77-118 | the inner loop builds those nodes |
| MarkdownChunker.MantineMarkdownChunker.constructor | src/rag_service/pipeline/mantine_markdown_parser.py:17-48 | keeps the header-zone limit, the injection switch and the splitter |
| MarkdownChunker.MantineMarkdownChunker.FirstH3InHeaderZone | src/rag_service/pipeline/mantine_markdown_parser.py:50-60 | the counting loop with early exit computes the header-zone scan |
| MarkdownChunker.MantineMarkdownChunker.NodesOfBlocksNumbered | src/rag_service/pipeline/mantine_markdown_parser.py:69-118 | chunk indices run 0, 1, 2, ... across all blocks of a document |
| MarkdownChunker.MantineMarkdownChunker.ChunkBlock | src/rag_service/pipeline/mantine_markdown_parser.py:71-75 | one block's topic, pieces and numbered nodes |
| MarkdownChunker.MantineMarkdownChunker.ChunkBlocks | src/rag_service/pipeline/mantine_markdown_parser.py:68-118 | the block loop; the chunk index carries on across blocks |
| MarkdownChunker.MantineMarkdownChunker.ChunkOneDocument | src/rag_service/pipeline/mantine_markdown_parser.py:62-120 | `_chunk_one_document` computes the document's nodes |
| MarkdownChunker.MantineMarkdownChunker.DocumentNodesNumbered | src/rag_service/pipeline/mantine_markdown_parser.py:62-120 | node `i` of a document has chunk index `i`, the document's id and chunk id `doc_id::` + `i` zero-padded to five digits |
| MarkdownChunker.MantineMarkdownChunker.AllNodesAppend | src/rag_service/pipeline/mantine_markdown_parser.py:123-127 | chunking two lists of documents back to back gives their outputs back to back |
| MarkdownChunker.MantineMarkdownChunker.ChunkDocuments | src/rag_service/pipeline/mantine_markdown_parser.py:123-127 | `__call__` concatenates the per-document outputs in input order |
| Retrieval.Limit | src/rag_service/pipeline/retrieval.py:33 | `LIMIT k` returns a prefix of the rows, of length k or all of them |
| Retrieval.RunNameInjective | src/rag_service/pipeline/retrieval.py:22 | different `ef` values give different run names |
| Retrieval.QueryEmbedder.GetQueryEmbedding | src/rag_service/pipeline/retrieval.py:17 | one embedding call, recorded |
| Retrieval.QueryEmbeds | src/rag_service/pipeline/retrieval.py:17 | the embedding map has exactly the query ids as keys |
| Retrieval.QueryEmbedsOwnText | src/rag_service/pipeline/retrieval.py:17-25 | a query whose id no later query repeats is searched with the embedding of its own text |
| Retrieval.VectorBlock | src/rag_service/pipeline/retrieval.py:42-54 | one hit per row, the i-th row with rank i + 1, in store order |
| Retrieval.VectorRows | src/rag_service/pipeline/retrieval.py:28-40 | at most k rows per query |
| Retrieval.VectorHits | src/rag_service/pipeline/retrieval.py:8-56 | what `vectors_search` returns, run after run; VectorHitsOk states what every hit holds, and VectorsSearch computes it |
| Retrieval.VectorHitsOk | src/rag_service/pipeline/retrieval.py:8-56 | every vector hit has run name `hnsw_ef{ef}_k{k}` for its `param_value`, which is one of the `ef` values, a rank in 1..k, and the id and text of one of the queries |
| Retrieval.EmbedQueries | src/rag_service/pipeline/retrieval.py:17 | the model is called once per query, in order, before any search |
| Retrieval.QueryVectorHits | src/rag_service/pipeline/retrieval.py:42-54 | the inner loop builds the block |
| Retrieval.SearchRun | src/rag_service/pipeline/retrieval.py:24-54 | one `ef` value: every query's block, query after query |
| Retrieval.VectorsSearch | src/rag_service/pipeline/retrieval.py:8-56 | `vectors_search` makes exactly one embedding call per query and returns the hits run after run |
| Retrieval.KeywordHits | src/rag_service/pipeline/retrieval.py:59-101 | what `bm25_search` returns, query after query; KeywordHitsOk states what every hit holds, and Bm25Search computes it |
| Retrieval.KeywordBlock | src/rag_service/pipeline/retrieval.py:87-99 | one hit per row, the i-th row with rank i + 1 |
| Retrieval.KeywordHitsOk | src/rag_service/pipeline/retrieval.py:83-99 | every keyword hit has run name "bm25", `param_value` k, a rank in 1..k, and one of the queries |
| Retrieval.QueryKeywordHits | src/rag_service/pipeline/retrieval.py:87-99 | the inner loop builds the block |
| Retrieval.Bm25Search | src/rag_service/pipeline/retrieval.py:59-101 | `bm25_search` returns each query's block, query after query |
| RankFusion.Contribution | src/rag_service/pipeline/retrieval.py:174-175 | a hit's score times `rrf_k + rank` is its weight, and it is positive when the weight and the denominator are; the row keeps the hit's group |
| RankFusion.VectorScores | src/rag_service/pipeline/retrieval.py:170-174 | each vector hit contributes with weight `a`, row by row |
| RankFusion.KeywordScores | src/rag_service/pipeline/retrieval.py:171-175 | each keyword hit contributes with weight `b`, row by row |
| RankFusion.GroupLeIsTotalPreorder | src/rag_service/pipeline/retrieval.py:181-183 | the `groupby` key order (query id, query text, chunk id, chunk text, each by code point) is total and transitive |
| RankFusion.Grouped | src/rag_service/pipeline/retrieval.py:181-183 | the group sums come out sorted in that key order, a permutation of the sums |
| RankFusion.Deduplicated | src/rag_service/pipeline/retrieval.py:186 | one row per (query_id, chunk_id) of the groups and no other pair; each row is the first in `groupby` order of the groups with that pair |
| RankFusion.Ranked | src/rag_service/pipeline/retrieval.py:187 | the kept rows sorted by query id, then score descending, a permutation of them |
| RankFusion.FuseScored | src/rag_service/pipeline/retrieval.py:181-188 | one output row per ranked row (see the lemmas below for what they hold) |
| RankFusion.RankedRowsSummed | src/rag_service/pipeline/retrieval.py:178-187 | every ranked row carries the summed score of its group |
| RankFusion.FusedScoreIsGroupSum | src/rag_service/pipeline/retrieval.py:178-183 | an output row's score is the sum of the scores of every input row of its (query, query text, chunk, chunk text) group |
| RankFusion.FusedScoreIsPairSum | src/rag_service/pipeline/retrieval.py:178-186 | when texts follow from ids, that is the sum over every input row of its (query_id, chunk_id), repeats across `ef` runs included |
| RankFusion.OnePerPair | src/rag_service/pipeline/retrieval.py:181-186 | the output has exactly one row per (query_id, chunk_id) of the input, and none for any other pair |
| RankFusion.FusedSorted | src/rag_service/pipeline/retrieval.py:187-188 | the output is ordered by query id ascending, then score descending |
| RankFusion.RenumberKeepsOrder | src/rag_service/pipeline/retrieval.py:188 | writing the per-query ranks into rows ordered by query id, then score descending, keeps that order |
| RankFusion.RanksContiguous | src/rag_service/pipeline/retrieval.py:188 | within each query the ranks are 1..n in output order |
| RankFusion.PositiveContributions | src/rag_service/pipeline/retrieval.py:174-178 | with a, b > 0, rrf_k >= 0 and ranks >= 1, every contribution is positive |
| RankFusion.SidesPositive | src/rag_service/pipeline/retrieval.py:174-175 | with a, b > 0, rrf_k >= 0 and ranks >= 1, every vector contribution and every keyword contribution is positive |
| RankFusion.ScoresPositive | src/rag_service/pipeline/retrieval.py:174-188 | with a, b > 0, rrf_k >= 0 and ranks >= 1, every fused score in the output is positive |
| RankFusion.CalculateRrfRank | src/rag_service/pipeline/retrieval.py:146-190 | `calculate_rrf_rank`: the output is sorted by query id, then score descending, and has exactly one row for each (query_id, chunk_id) of either hit list and none for any other pair |
| RankFusion.BothListsScoreMore | src/rag_service/pipeline/retrieval.py:174-183 | a chunk both searches returned scores strictly more than its vector contributions alone and than its keyword contributions alone |
| EvalUtils.FillRelevance | src/rag_service/eval/eval_utils.py:12 | row by row, a missing relevance becomes 0 and a number is truncated toward zero; every other column is kept |
| EvalUtils.PrepareRankedList | src/rag_service/eval/eval_utils.py:5-18 | one output row per kept row (see the lemmas below for what they hold) |
| EvalUtils.KeptRowsSorted | src/rag_service/eval/eval_utils.py:13-14 | the sorted rows and the kept rows are ordered by (query_id, rank) |
| EvalUtils.PreparedOrdered | src/rag_service/eval/eval_utils.py:13-16 | the output is ordered by query id, and within a query by strictly increasing rank |
| EvalUtils.PreparedOnePerPair | src/rag_service/eval/eval_utils.py:14 | exactly one output row per (query_id, chunk_id) of the input, and none for any other pair |
| EvalUtils.FirstOfPairHasLeastRank | src/rag_service/eval/eval_utils.py:13-14 | in a list sorted by query and rank, the first row of a pair has the pair's least rank |
| EvalUtils.SortedFirstIsBestRanked | src/rag_service/eval/eval_utils.py:13-14 | the first sorted row of a pair is a filled input row of least rank for the pair |
| EvalUtils.KeptRowIsBestRanked | src/rag_service/eval/eval_utils.py:13-14 | each kept row is a filled input row of least rank for its pair |
| EvalUtils.PreparedRowIsBestRanked | src/rag_service/eval/eval_utils.py:10-16 | each output row is such an input row, with only its rank rewritten |
| EvalUtils.PreparedRanksContiguous | src/rag_service/eval/eval_utils.py:16 | within each query the new ranks are 1..n in output order |
| EvalUtils.QueryGroupsOfPrepared | src/rag_service/eval/ndcg.py:25-27 | `groupby("query_id")` on the prepared list visits each query id of the input once, in increasing order |
| EvalUtils.QueryGroupsHasQuery | src/rag_service/eval/ndcg.py:27 | the groups are exactly the query ids of the list |
| EvalUtils.QueryKept | src/rag_service/eval/eval_utils.py:10-16 | the prepared list has a row of a query exactly when the input has |
| EvalUtils.Relevances | src/rag_service/eval/ndcg.py:28 | a group's relevance column has one entry per row of the query |
| EvalUtils.RelevancesOf | src/rag_service/eval/ndcg.py:28 | every relevance of a group is the relevance of one of its rows |
| EvalUtils.PreparedRelevancesNonNegative | src/rag_service/eval/eval_utils.py:12 | non-negative labels give non-negative relevances in every group, after truncation |
| EvalUtils.PySlice | src/rag_service/eval/ndcg.py:7 | Python's `s[:k]` for any integer k, negative k included |
| Ndcg.Pow2 | src/rag_service/eval/ndcg.py:12 | 2 to an integer power is positive |
| Ndcg.GainMonotone | src/rag_service/eval/ndcg.py:12 | a better label never gains less |
| Ndcg.GainSign | src/rag_service/eval/ndcg.py:12 | the gain is non-negative for non-negative labels and negative below |
| Ndcg.Dcg | src/rag_service/eval/ndcg.py:12-17 | the sum of gains over discounts; DcgSnoc, DcgNonNegative and DcgIsWeightedGain state its properties |
| Ndcg.DcgAtK | src/rag_service/eval/ndcg.py:6-18 | `dcg_at_k` is 0 for an empty list or k = 0 |
| Ndcg.DcgOnlyFirstK | src/rag_service/eval/ndcg.py:7 | only the first k relevances count |
| Ndcg.DcgSnoc | src/rag_service/eval/ndcg.py:12-17 | each position adds its gain over its discount |
| Ndcg.DcgNonNegative | src/rag_service/eval/ndcg.py:12-17 | non-negative labels give a non-negative DCG |
| Ndcg.SortDesc | src/rag_service/eval/ndcg.py:29 | `np.sort(rels)[::-1]` is a non-increasing permutation of the relevances |
| Ndcg.WeightedGainAtMostIdeal | src/rag_service/eval/ndcg.py:29-32 | with non-increasing weights and a monotone gain, the best-first order maximises the weighted gain |
| Ndcg.DcgWeightsDecreasing | src/rag_service/eval/ndcg.py:15 | the DCG position weights never grow |
| Ndcg.DcgIsWeightedGain | src/rag_service/eval/ndcg.py:12-17 | the DCG of the first n items is their weighted gain |
| Ndcg.DcgAtMostIdeal | src/rag_service/eval/ndcg.py:29-32 | the DCG of any order is at most the IDCG |
| Ndcg.NdcgValue | src/rag_service/eval/ndcg.py:34 | NDCG is 0 when the IDCG is not positive |
| Ndcg.NdcgBounds | src/rag_service/eval/ndcg.py:29-34 | NDCG is at most 1, and at least 0 when no label is negative |
| Ndcg.NdcgOfIdealOrder | src/rag_service/eval/ndcg.py:29-34 | relevances already best first score exactly 1 when their IDCG is positive |
| Ndcg.NdcgOfGroup | src/rag_service/eval/ndcg.py:28-35 | the loop body computes one query's row |
| Ndcg.CalculateNdcg | src/rag_service/eval/ndcg.py:21-37 | the loop over query groups computes the rows |
| Ndcg.NdcgRows | src/rag_service/eval/ndcg.py:21-37 | the rows `calculate_ndcg` returns; NdcgRowsPerQuery states what they hold, and CalculateNdcg computes them |
| Ndcg.NdcgRowsPerQuery | src/rag_service/eval/ndcg.py:21-37 | one row per query id of the input, in increasing query order, each NDCG at most 1 and at least 0 when no label is negative |
| Precision.Hits | src/rag_service/eval/precision.py:30 | the count of labels above 1 is at most the length |
| Precision.PrecisionAtK | src/rag_service/eval/precision.py:26-31 | Precision@k is 0 when the first k labels are none |
| Precision.PrecisionBounds | src/rag_service/eval/precision.py:27-30 | for k >= 1, Precision@k is in [0, 1] and equals the relevant count among the first k over k, even when fewer than k labels exist |
| Precision.AveragePrecisionOf | src/rag_service/eval/precision.py:34-46 | AP is 0 when no relevant label is among the first k |
| Precision.SumPrecisions | src/rag_service/eval/precision.py:38-44 | `sum_precisions`; SumPrecisionsBounds bounds it and AveragePrecision computes it by the loop |
| Precision.SumPrecisionsBounds | src/rag_service/eval/precision.py:40-44 | the summed precisions lie between 0 and the relevant count |
| Precision.AveragePrecisionBounds | src/rag_service/eval/precision.py:34-46 | AP is in [0, 1] |
| Precision.MetricsOnlyFirstK | src/rag_service/eval/precision.py:27-35 | only the first k labels affect either metric |
| Precision.LowLabelsAlike | src/rag_service/eval/precision.py:30-41 | the threshold is strict: changing a label of at most 1 into another label of at most 1 changes neither metric |
| Precision.AveragePrecision | src/rag_service/eval/precision.py:34-46 | the loop with its running counts computes AP |
| Precision.PrecisionOfGroup | src/rag_service/eval/precision.py:10-21 | the loop body computes one query's row |
| Precision.CalculatePrecisionScores | src/rag_service/eval/precision.py:6-23 | the loop over query groups computes the rows |
| Precision.PrecisionRows | src/rag_service/eval/precision.py:6-23 | the rows `calculate_precision_scores` returns; PrecisionRowsPerQuery states what they hold, and CalculatePrecisionScores computes them |
| Precision.PrecisionRowsPerQuery | src/rag_service/eval/precision.py:6-23 | one row per query id of the input, in increasing query order; AP is in [0, 1], and precision is too when k >= 1 |
| Labelling.Best | src/rag_service/eval/labelling_utils.py:31-35 | `best[key]` after the pass; BestExists and BestIsFirstClosest state what it holds |
| Labelling.BestExists | src/rag_service/eval/labelling_utils.py:32-35 | a key has a best hit exactly when some hit carries it |
| Labelling.BestIsFirstClosest | src/rag_service/eval/labelling_utils.py:34 | the best hit of a key is the first of its closest hits: replacing needs a strictly smaller distance |
| Labelling.KeyOrder | src/rag_service/eval/labelling_utils.py:31-36 | the keys are pairwise different, are exactly the keys of the hits, and come in the order of their first hits |
| Labelling.DedupedHits | src/rag_service/eval/labelling_utils.py:36 | hit j carries key j of KeyOrder, so with KeyOrder's contract there is one hit per key of the input, in first-appearance order; DedupedHitsSpec states which hit |
| Labelling.VisitHit | src/rag_service/eval/labelling_utils.py:33-35 | the loop body: a hit enters the dictionary when its key is new or it is strictly closer |
| Labelling.DedupeVectorHits | src/rag_service/eval/labelling_utils.py:30-36 | the dictionary loop computes the deduplicated hits |
| Labelling.DedupedHitsSpec | src/rag_service/eval/labelling_utils.py:30-36 | exactly one hit per key of the input; each is an input hit that is the first of its key's closest; keys in first-appearance order |
| Labelling.GroupMax | src/rag_service/eval/labelling_utils.py:47 | the largest cleaned label of a key: at least every label of the key, and equal to one of them |
| Labelling.PerRowTruth | src/rag_service/eval/labelling_utils.py:47 | each sheet row's key with its group's largest label |
| Labelling.MakeTruthLabels | src/rag_service/eval/labelling_utils.py:39-49 | `make_truth_label_df`; TruthLabelsSpec, TruthLabelsOnePerPair and TruthRowIsGroupMax state what it returns |
| Labelling.TruthLabelsSpec | src/rag_service/eval/labelling_utils.py:39-49 | one truth row per (query_id, chunk_id) of the sheet, sorted by query id then chunk id, each with its key's largest cleaned label |
| Labelling.TruthLabelsOnePerPair | src/rag_service/eval/labelling_utils.py:47 | each key of the sheet keeps exactly one truth row, and no other key gets one |
| Labelling.TruthRowIsGroupMax | src/rag_service/eval/labelling_utils.py:47 | each truth row carries a key of the sheet and that key's largest label |
| Text.StripEmptyIffBlank | src/rag_service/pipeline/mantine_markdown_parser.py:53 | `s.strip()` is empty exactly when `s` is all whitespace |
| Text.JoinSplitAt | src/rag_service/pipeline/mantine_markdown_parser.py:52 | joining the lines of a split with the separator gives the text back |
| Text.PaddedDecimalInjective | src/rag_service/pipeline/mantine_markdown_parser.py:95 | zero-padded numerals of different numbers differ |
| Text.IntToDecimalInjective | src/rag_service/pipeline/retrieval.py:22 | `str` on integers is injective |
| Tables.Sort | src/rag_service/eval/eval_utils.py:13 | a sort keeps length and multiset of rows |
| Tables.SortSorted | src/rag_service/eval/eval_utils.py:13 | the result of the sort is ordered by any total preorder it is given |
| Tables.KeepFirstKeepsFirsts | src/rag_service/eval/eval_utils.py:14 | `drop_duplicates(keep="first")` keeps exactly the first row of each key |
| Tables.Truncate | src/rag_service/eval/labelling_utils.py:43 | `astype(int)` truncates toward zero |
| Tables.CleanLabel | src/rag_service/eval/eval_utils.py:12 | `fillna(0).astype(int)`: a missing label is 0, a number is truncated |
| Tables.RenumberContiguous | src/rag_service/eval/eval_utils.py:16 | `groupby(...).cumcount() + 1` numbers each group 1..n in row order |

## Left out

- SHA-256: the digest is a function parameter. Where a property needs it, it is assumed collision-free, as a `requires` on the lemma.
- The LlamaIndex chunk-and-embed pipeline (`self._pipeline.arun`) and `node.get_content`: `IngestDocuments` takes the resulting nodes, with their texts and optional embeddings, as a parameter. The progress `print` at ingestion.py:58 is not modelled.
- The `source` column is `Optional[str]` (models.py:24), but the model's `DocumentRow.source` is a plain string. A document with a NULL source, which `WHERE source = :source` never deletes, cannot be represented.
- Document ids are UUIDs from `gen_random_uuid()`; the model draws them from a counter `nextId`, which is not rolled back when a transaction fails.
- The embedding dimension is a parameter `dim`. models.py:12 declares 1536, and the first migration declares 768.
- The ORM declaration of `Chunk` in models.py lists no `content_hash` column. The model takes the schema as the hash migration leaves it, with that column and its unique constraint.
- Ingestion.Store.InsertChunks: when a row breaks several rules at once, PostgreSQL may report any of them. The model checks the dimension first, then skips a taken content hash, then checks the chunk index and the document, and reports the first rule broken.
- `created_at` timestamps, `chunk_metadata` contents and the per-row `id` of chunks: not modelled, because nothing in the core reads them.
- Async sessions, `session.flush`, `SET LOCAL hnsw.ef_search`, the SQL text, pgvector cosine distance and the BM25 operator: the store is a function returning rows in some order, limited to `k` rows.
- `hybrid_search`: it is not modelled as a member of its own. It runs the two searches, turns each hit list into a DataFrame with `model_dump` and passes both to `calculate_rrf_rank`. `RankFusion.CalculateRrfRank` takes the two hit lists directly. When a search returns no hits, `pd.DataFrame([])` has no `rank` column, and `calculate_rrf_rank` raises a KeyError at retrieval.py:170-171. The model returns a table there (the fusion of the other list alone, or an empty one).
- Retrieval.VectorsSearch: `k` is a natural number, so a negative `k` is outside the model. There `.limit(k)` (retrieval.py:33) makes PostgreSQL raise "LIMIT must not be negative". An `ef` that pgvector does not accept for `hnsw.ef_search` makes `SET LOCAL` (retrieval.py:38) raise, and the model does not include that error either.
- Retrieval.Bm25Search: `k` is a natural number, so the error PostgreSQL raises for a negative `LIMIT :lim` (retrieval.py:79) is not modelled.
- Chunk ids are UUIDs rendered with `str`; the model uses natural numbers rendered in decimal.
- RankFusion.CalculateRrfRank: requires every `rrf_k + rank` to be non-zero. pandas would yield an infinite score there, and a `real` cannot represent it. `to_numeric(errors="coerce")` is not modelled, because ranks are already integers.
- RankFusion.FuseScored: its own contract gives only the length. The scores, pairs, order and ranks are stated in FusedScoreIsGroupSum, OnePerPair, FusedSorted and RanksContiguous.
- EvalUtils.PrepareRankedList: its own contract gives only the length. The content is stated in PreparedOrdered, PreparedOnePerPair, PreparedRowIsBestRanked and PreparedRanksContiguous.
- Sort ties: `sort_values` does not promise stability. The model sorts stably, and every contract states only the order and the permutation. Which of two rows tied on the sort key comes first, and so which of them `drop_duplicates` keeps, is left open.
- The group keys of `groupby` in `calculate_rrf_rank` are compared by code point. `RankFusion.Grouped` sorts the group sums by query id, query text, chunk id and chunk text in that order, as pandas sorts group keys, and `RankFusion.Deduplicated` keeps the first group of each (query_id, chunk_id) in that order. Locale-aware collation is not modelled.
- Floating point: scores, distances and metrics are `real`. NaN and infinity are not modelled, nor is a NaN `dist` in `dedupe_vector_hits`.
- `log2` in `dcg_at_k`: the discount is an abstract function. It is positive for the lemmas that compute with it, and also 1 at position 1 and strictly increasing for the bounds.
- EvalUtils.FillRelevance: the relevance cell is an `Option<real>`, None for an empty cell. A text cell, which `astype(int)` would parse or reject, is not modelled.
- The relevance cell in `make_truth_label_df` is an `Option<real>`: None stands for a missing or non-numeric cell. Parsing text with `to_numeric` is not modelled.
- `str.splitlines` is modelled as a split on '\n' only. The other line boundaries Python recognises (`\r`, `\x0b`, `\x1c`, `\u2028` and so on) are not modelled.
- HashMigration.PgIsSpace: the model fixes the C locale's class for `\s`, the six ASCII whitespace characters. Under another database locale the class differs: libc UTF-8 locales add most Unicode spaces but not U+00A0, and ICU adds U+00A0 as well.
- The separator pattern `(?m)^\-{30,}\s*$` is modelled line by line: a separator line is 30 or more dashes followed only by whitespace. Where the pattern's `\s*` runs on into the next lines, it only swallows whitespace that the block strip removes anyway.
- The constructor options `sep_pattern`, `h3_line` and `headers_to_split_on`, and the splitters' `chunk_size` and `chunk_overlap`: the model uses the default patterns. Both splitters together are one opaque function from a block to pieces with header metadata.
- TextNode ids (random) are not modelled. The excluded-metadata-key lists are modelled as fields of the node.
- `export_hits_to_csv`: file I/O.
- db.py, providers/gemini.py, pipeline/document_loader.py and main.py are not part of this model. They hold connection set-up, a throttled network client, a directory reader and an HTTP endpoint.

## Findings

| source | as written | input that shows it | evidently intended | confidence | as-written member | corrected member |
|---|---|---|---|---|---|---|
| alembic/versions/20260205_022110_create_document_hash_on_chunks_table.py:41-57 | The backfill hashes `trim(regexp_replace(content, '\s+', ' ', 'g'))`. Under the C locale, PostgreSQL's `\s` matches only ASCII whitespace (libc UTF-8 locales also leave U+00A0 out; ICU does not), and one-argument `trim` removes only the space character. Ingestion's `re.sub(r"\s+", " ", content).strip()` treats every Unicode whitespace character alike. | a chunk "a" U+00A0 "b" next to a chunk "a b" of the same document: ingestion hashes both as "a b", the backfill hashes them apart, and both rows survive | the backfill computes the same hash as `create_content_hash`, as the comment at lines 41-42 says, so the new constraint catches the same duplicates ingestion skips | medium (holds under the C locale and libc UTF-8 locales, not under ICU); not executed | HashMigration.AsWrittenKeepsWhitespaceTwins | HashMigration.MigrationMatchesIngestion |

The as-written behaviour is `HashMigration.ChunksTable.UpgradeAsWritten`, and
`HashMigration.NoBreakSpaceKept`, `HashMigration.NoBreakSpaceCollapsed` and
`HashMigration.BackfillHashDiffers` exhibit the difference on one text. The
corrected `HashMigration.ChunksTable.Upgrade` backfills with ingestion's own
hash. For it, `HashMigration.MigrationMatchesIngestion` proves that a table
written before the migration ends up exactly as ingestion stores it now.
`HashMigration.PgNormalizeAgrees` shows that the two normalisations agree on
every text whose whitespace both engines classify alike.
