/**
 * The migration that adds `content_hash` to an existing `chunks` table: add a
 * nullable column, backfill the hash of every row that has none, delete all
 * but the lowest-`chunk_index` row of each (document_id, content_hash) group,
 * then make the column NOT NULL and (document_id, content_hash) UNIQUE.
 * Downgrade drops the constraint and the column.
 */
module HashMigration {
  import opened Wrappers
  import opened Text
  import opened Tables
  import opened Records
  import opened ContentHash
  import Ingestion

  /** A row of `chunks` as the migration sees it: the hash is NULL until backfilled. */
  datatype LegacyChunk = LegacyChunk(documentId: nat, chunkIndex: int, content: string, hash: Option<string>)

  function IndexKey(c: LegacyChunk): (nat, int) { (c.documentId, c.chunkIndex) }

  /** Both rows have a hash, and they share document and hash: one PARTITION of the delete. */
  predicate SameGroup(x: LegacyChunk, y: LegacyChunk) {
    x.hash.Some? && y.hash.Some? && x.documentId == y.documentId && x.hash == y.hash
  }

  /**
   * What UNIQUE(document_id, content_hash) demands: no two rows with a hash
   * share document and hash (NULLs never conflict).
   */
  predicate GroupsUnique(rows: seq<LegacyChunk>) {
    forall i, j :: 0 <= i < j < |rows| ==> !SameGroup(rows[i], rows[j])
  }

  predicate NoNullHash(rows: seq<LegacyChunk>) {
    forall i :: 0 <= i < |rows| ==> rows[i].hash.Some?
  }

  // ---------------------------------------------------------------------------
  // Step 2: the backfill

  /** One row of `UPDATE chunks SET content_hash = ... WHERE content_hash IS NULL`. */
  function FillHash(x: LegacyChunk, hashOf: string -> string): (r: LegacyChunk)
    ensures r.hash.Some?
    ensures x.hash.Some? ==> r == x
    ensures x.hash.None? ==> r.hash == Some(hashOf(x.content))
    ensures r.(hash := x.hash) == x
  {
    if x.hash.None? then x.(hash := Some(hashOf(x.content))) else x
  }

  /** The backfilled table: row by row, in place. */
  function Backfilled(rows: seq<LegacyChunk>, hashOf: string -> string): (r: seq<LegacyChunk>)
    ensures |r| == |rows|
    ensures forall i :: 0 <= i < |r| ==> r[i] == FillHash(rows[i], hashOf)
  {
    if rows == [] then []
    else Backfilled(rows[..|rows| - 1], hashOf) + [FillHash(rows[|rows| - 1], hashOf)]
  }

  /**
   * The backfill changes only rows whose hash is NULL, giving them the hash of
   * their content; every other column, and every hash already set, is kept.
   */
  lemma BackfillOnlyNull(rows: seq<LegacyChunk>, hashOf: string -> string, i: nat)
    requires i < |rows|
    ensures var r := Backfilled(rows, hashOf)[i];
      && r.documentId == rows[i].documentId && r.chunkIndex == rows[i].chunkIndex && r.content == rows[i].content
      && (rows[i].hash.Some? ==> r.hash == rows[i].hash)
      && (rows[i].hash.None? ==> r.hash == Some(hashOf(rows[i].content)))
  {
  }

  /** After the backfill no row has a NULL hash. */
  lemma BackfillLeavesNoNull(rows: seq<LegacyChunk>, hashOf: string -> string)
    ensures NoNullHash(Backfilled(rows, hashOf))
  {
  }

  // ---------------------------------------------------------------------------
  // Step 3: the delete

  /**
   * A row survives `DELETE ... WHERE rn > 1` when its hash is NULL (the
   * subquery skips those) or no row of its group has a smaller `chunk_index`,
   * so that its `row_number()` is 1.
   */
  predicate Survives(table: seq<LegacyChunk>, x: LegacyChunk) {
    x.hash.None? || !exists j :: 0 <= j < |table| && SameGroup(table[j], x) && table[j].chunkIndex < x.chunkIndex
  }

  function Survivor(table: seq<LegacyChunk>): LegacyChunk -> bool {
    x => Survives(table, x)
  }

  /** The table after the delete. */
  function Deduplicated(table: seq<LegacyChunk>): seq<LegacyChunk> {
    Filter(table, Survivor(table))
  }

  /** Two surviving rows of one document with distinct chunk indices are in different groups. */
  lemma SurvivorsApart(table: seq<LegacyChunk>, x: LegacyChunk, y: LegacyChunk)
    requires x in table && y in table && Survives(table, x) && Survives(table, y)
    requires x.documentId == y.documentId ==> x.chunkIndex != y.chunkIndex
    ensures !SameGroup(x, y)
  {
  }

  /** After the delete, at most one row is left in each (document_id, content_hash) group. */
  lemma DedupGroupsUnique(table: seq<LegacyChunk>)
    requires KeysDistinct(table, IndexKey)
    ensures GroupsUnique(Deduplicated(table))
  {
    var d := Deduplicated(table);
    DistinctFilter(table, Survivor(table), IndexKey);
    forall i, j | 0 <= i < j < |d| ensures !SameGroup(d[i], d[j]) {
      assert IndexKey(d[i]) != IndexKey(d[j]);
      assert Survivor(table)(d[i]) && Survivor(table)(d[j]);
      SurvivorsApart(table, d[i], d[j]);
    }
  }

  /** A surviving row has the smallest `chunk_index` of its group. */
  lemma SurvivorIsGroupMinimum(table: seq<LegacyChunk>, i: nat, j: nat)
    requires i < |Deduplicated(table)| && j < |table|
    requires SameGroup(table[j], Deduplicated(table)[i])
    ensures Deduplicated(table)[i].chunkIndex <= table[j].chunkIndex
  {
    assert Survives(table, Deduplicated(table)[i]);
  }

  /** The position of a row of the group of `table[k]` with the smallest `chunk_index` among the first `n` rows. */
  function GroupMinimum(table: seq<LegacyChunk>, k: nat, n: nat): (m: nat)
    requires k < |table| && table[k].hash.Some? && n <= |table|
    ensures m < |table| && SameGroup(table[m], table[k])
    ensures forall j :: 0 <= j < n && SameGroup(table[j], table[k]) ==> table[m].chunkIndex <= table[j].chunkIndex
  {
    if n == 0 then k
    else
      var m := GroupMinimum(table, k, n - 1);
      if SameGroup(table[n - 1], table[k]) && table[n - 1].chunkIndex < table[m].chunkIndex then n - 1 else m
  }

  /** Row `i` of the deduplicated table stands for row `k` of `table`: same group, not a later chunk. */
  predicate KeptFor(table: seq<LegacyChunk>, k: nat, i: nat)
    requires k < |table|
  {
    i < |Deduplicated(table)| && SameGroup(Deduplicated(table)[i], table[k]) && Deduplicated(table)[i].chunkIndex <= table[k].chunkIndex
  }

  /**
   * Every group keeps a row: for each row with a hash, the delete leaves a row
   * of its group whose `chunk_index` is not larger.
   */
  lemma DedupKeepsEveryGroup(table: seq<LegacyChunk>, k: nat)
    requires k < |table| && table[k].hash.Some?
    ensures exists i :: KeptFor(table, k, i)
  {
    var m := GroupMinimum(table, k, |table|);
    assert Survives(table, table[m]) by {
      forall j | 0 <= j < |table| && SameGroup(table[j], table[m]) ensures table[m].chunkIndex <= table[j].chunkIndex {
        assert SameGroup(table[j], table[k]);
      }
    }
    assert Survivor(table)(table[m]);
    var i :| 0 <= i < |Deduplicated(table)| && Deduplicated(table)[i] == table[m];
    assert SameGroup(table[k], table[k]);
    assert KeptFor(table, k, i);
  }

  /** A row with a NULL hash, or alone in its group, is never deleted. */
  lemma DedupKeepsUniqueRows(table: seq<LegacyChunk>, k: nat)
    requires k < |table|
    requires forall j :: 0 <= j < |table| && j != k ==> !SameGroup(table[j], table[k])
    ensures table[k] in Deduplicated(table)
  {
    assert Survivor(table)(table[k]);
  }

  /** The delete removes rows and adds none: no NULL appears. */
  lemma DedupLeavesNoNull(table: seq<LegacyChunk>)
    requires NoNullHash(table)
    ensures NoNullHash(Deduplicated(table))
  {
    var d := Deduplicated(table);
    forall i | 0 <= i < |d| ensures d[i].hash.Some? {
      var k :| 0 <= k < |table| && table[k] == d[i];
    }
  }

  // ---------------------------------------------------------------------------
  // The backfill's normalisation, as PostgreSQL evaluates it

  /**
   * `\s` in a PostgreSQL regular expression under the C locale: the six ASCII
   * whitespace characters. Python's `\s` also matches U+001C..U+001F, U+0085,
   * U+00A0 and the Unicode space separators.
   */
  predicate PgIsSpace(c: char) {
    c == ' ' || c == '\t' || c == '\n' || c == '\r' || c == '\U{000B}' || c == '\U{000C}'
  }

  /** The suffix after the leading run of PostgreSQL whitespace. */
  function PgSkipSpaces(s: string): (r: string)
    ensures |r| <= |s| && r == s[|s| - |r|..]
    ensures r == [] || !PgIsSpace(r[0])
  {
    if s != [] && PgIsSpace(s[0]) then PgSkipSpaces(s[1..]) else s
  }

  /** `regexp_replace(content, '\s+', ' ', 'g')`. */
  function PgCollapse(s: string): (r: string)
    decreases |s|
  {
    if s == [] then []
    else if PgIsSpace(s[0]) then [' '] + PgCollapse(PgSkipSpaces(s))
    else [s[0]] + PgCollapse(s[1..])
  }

  /** `ltrim`: PostgreSQL's one-argument trim removes only the space character. */
  function PgTrimLeft(s: string): (r: string)
    ensures r == [] || r[0] != ' '
  {
    if s != [] && s[0] == ' ' then PgTrimLeft(s[1..]) else s
  }

  function PgTrimRight(s: string): (r: string)
    ensures r == [] || r[|r| - 1] != ' '
  {
    if s != [] && s[|s| - 1] == ' ' then PgTrimRight(s[..|s| - 1]) else s
  }

  /** `trim(regexp_replace(content, '\s+', ' ', 'g'))`. */
  function PgNormalize(s: string): string {
    PgTrimRight(PgTrimLeft(PgCollapse(s)))
  }

  /** The hash the backfill writes, as written: the digest of the PostgreSQL normalisation. */
  function PgContentHash(digest: string -> string, content: string): string {
    digest(PgNormalize(content))
  }

  /** Every character is whitespace to both Python and PostgreSQL, or to neither. */
  predicate ClassifiedAlike(s: string) {
    forall i :: 0 <= i < |s| ==> (IsSpace(s[i]) <==> PgIsSpace(s[i]))
  }

  /** Every PostgreSQL whitespace character is Python whitespace too. */
  lemma PgSpaceIsSpace(c: char)
    requires PgIsSpace(c)
    ensures IsSpace(c)
  {
  }

  lemma {:induction false} PgSkipMatchesLStrip(s: string)
    requires ClassifiedAlike(s)
    ensures PgSkipSpaces(s) == LStrip(s)
  {
    if s != [] && PgIsSpace(s[0]) {
      PgSkipMatchesLStrip(s[1..]);
    }
  }

  lemma {:induction false} PgCollapseMatches(s: string)
    requires ClassifiedAlike(s)
    ensures PgCollapse(s) == CollapseWhitespace(s)
    decreases |s|
  {
    if s != [] {
      if PgIsSpace(s[0]) {
        PgSkipMatchesLStrip(s);
        var t := LStrip(s);
        ClassifiedAlikeSuffix(s, |s| - |t|);
        PgCollapseMatches(t);
        assert IsSpace(s[0]);
      } else {
        ClassifiedAlikeSuffix(s, 1);
        PgCollapseMatches(s[1..]);
        assert !IsSpace(s[0]);
      }
    }
  }

  lemma ClassifiedAlikeSuffix(s: string, k: nat)
    requires ClassifiedAlike(s) && k <= |s|
    ensures ClassifiedAlike(s[k..])
  {
    forall i | 0 <= i < |s| - k ensures IsSpace(s[k..][i]) <==> PgIsSpace(s[k..][i]) {
      assert s[k..][i] == s[k + i];
    }
  }

  /** On a text whose only whitespace is ' ', trimming spaces is stripping whitespace. */
  lemma {:induction false} PgTrimLeftMatches(t: string)
    requires forall i :: 0 <= i < |t| && IsSpace(t[i]) ==> t[i] == ' '
    ensures PgTrimLeft(t) == LStrip(t)
  {
    if t != [] && t[0] == ' ' {
      PgTrimLeftMatches(t[1..]);
    }
  }

  lemma {:induction false} PgTrimRightMatches(t: string)
    requires forall i :: 0 <= i < |t| && IsSpace(t[i]) ==> t[i] == ' '
    ensures PgTrimRight(t) == RStrip(t)
  {
    if t != [] && t[|t| - 1] == ' ' {
      PgTrimRightMatches(t[..|t| - 1]);
    }
  }

  /**
   * Where Python and PostgreSQL agree on which characters are whitespace, the
   * backfill hashes content exactly as ingestion does.
   */
  lemma PgNormalizeAgrees(digest: string -> string, s: string)
    requires ClassifiedAlike(s)
    ensures PgNormalize(s) == Normalize(s)
    ensures PgContentHash(digest, s) == ContentHashOf(digest, s)
  {
    PgCollapseMatches(s);
    var c := CollapseWhitespace(s);
    CollapseIsSingleSpaced(s);
    PgTrimLeftMatches(c);
    var l := LStrip(c);
    SingleSpacedDrop(c, |c| - |l|);
    PgTrimRightMatches(l);
  }

  /** PostgreSQL's normalisation of a three-character text whose ends are not whitespace. */
  lemma PgNormalizeThree(x: char, y: char, z: char)
    requires !PgIsSpace(x) && !PgIsSpace(z)
    ensures PgNormalize([x, y, z]) == if PgIsSpace(y) then [x, ' ', z] else [x, y, z]
  {
    var mid := if PgIsSpace(y) then ' ' else y;
    PgCollapseTwo(y, z);
    PgCollapseCons(x, [y, z]);
    assert [x] + [y, z] == [x, y, z];
    PgTrimsKeep([x] + [mid, z]);
  }

  lemma PgCollapseCons(x: char, t: string)
    requires !PgIsSpace(x)
    ensures PgCollapse([x] + t) == [x] + PgCollapse(t)
  {
    assert ([x] + t)[1..] == t;
  }

  lemma PgCollapseTwo(y: char, z: char)
    requires !PgIsSpace(z)
    ensures PgCollapse([y, z]) == [if PgIsSpace(y) then ' ' else y, z]
  {
    assert [y, z][1..] == [z] && [z][1..] == [];
    assert PgCollapse([z]) == [z];
    if PgIsSpace(y) {
      assert PgSkipSpaces([y, z]) == [z];
    }
  }

  /** A text that neither starts nor ends with a space is left alone by both trims. */
  lemma PgTrimsKeep(c: string)
    requires c != [] && c[0] != ' ' && c[|c| - 1] != ' '
    ensures PgTrimRight(PgTrimLeft(c)) == c
  {
  }

  /** Python's normalisation of a three-character text whose ends are not whitespace. */
  lemma NormalizeThree(x: char, y: char, z: char)
    requires !IsSpace(x) && !IsSpace(z)
    ensures Normalize([x, y, z]) == if IsSpace(y) then [x, ' ', z] else [x, y, z]
  {
    var s := [x, y, z];
    assert s[1..] == [y, z] && [y, z][1..] == [z] && [z][1..] == [];
    assert CollapseWhitespace([z]) == [z];
    var c := if IsSpace(y) then [x, ' ', z] else [x, y, z];
    assert CollapseWhitespace(s) == c by {
      if IsSpace(y) {
        LStripNoLeadingSpace([z]);
        assert LStrip([y, z]) == [z];
      }
    }
    LStripNoLeadingSpace(c);
    assert RStrip(c) == c;
  }

  /** Ingestion's side: the no-break space between "a" and "b" becomes a plain space. */
  lemma NoBreakSpaceCollapsed()
    ensures Normalize("a\U{00A0}b") == "a b"
  {
    NotSpace('a');
    NotSpace('b');
    NormalizeThree('a', '\U{00A0}', 'b');
  }

  /** The backfill's side: PostgreSQL leaves the no-break space in place. */
  lemma NoBreakSpaceKept()
    ensures PgNormalize("a\U{00A0}b") == "a\U{00A0}b"
  {
    PgNormalizeThree('a', '\U{00A0}', 'b');
  }

  /**
   * Hence, under a collision-free digest, a chunk backfilled by the migration
   * as written carries a different hash from the one ingestion computes for
   * the same content, so the constraint no longer catches the duplicate.
   */
  lemma BackfillHashDiffers(digest: string -> string)
    requires forall x, y :: digest(x) == digest(y) ==> x == y
    ensures PgContentHash(digest, "a\U{00A0}b") != ContentHashOf(digest, "a\U{00A0}b")
  {
    NoBreakSpaceCollapsed();
    NoBreakSpaceKept();
    assert "a b" != "a\U{00A0}b" by {
      assert "a b"[1] != "a\U{00A0}b"[1];
    }
  }

  /** The backfill as written, as a hash function on content. */
  function PgHasher(digest: string -> string): string -> string {
    content => PgContentHash(digest, content)
  }

  /**
   * The table-level consequence: two chunks of one document that differ only by
   * a no-break space both survive the migration as written, although ingestion
   * would store only the first.
   */
  lemma AsWrittenKeepsWhitespaceTwins(digest: string -> string)
    requires forall x, y :: digest(x) == digest(y) ==> x == y
    ensures var rows := [LegacyChunk(0, 0, "a b", None), LegacyChunk(0, 1, "a\U{00A0}b", None)];
      |Deduplicated(Backfilled(rows, PgHasher(digest)))| == 2
  {
    TwinsHashApart(digest);
    TwoRowsBothSurvive(0, "a b", "a\U{00A0}b", PgHasher(digest));
  }

  /** Two unhashed rows of one document whose contents hash apart both survive backfill and delete. */
  lemma TwoRowsBothSurvive(doc: nat, c1: string, c2: string, hashOf: string -> string)
    requires hashOf(c1) != hashOf(c2)
    ensures |Deduplicated(Backfilled([LegacyChunk(doc, 0, c1, None), LegacyChunk(doc, 1, c2, None)], hashOf))| == 2
  {
    var filled := Backfilled([LegacyChunk(doc, 0, c1, None), LegacyChunk(doc, 1, c2, None)], hashOf);
    assert filled[0].hash == Some(hashOf(c1)) && filled[1].hash == Some(hashOf(c2));
    DedupKeepsUniqueRows(filled, 0);
    DedupKeepsUniqueRows(filled, 1);
    var d := Deduplicated(filled);
    assert |d| >= 2 by {
      var i :| 0 <= i < |d| && d[i] == filled[0];
      var j :| 0 <= j < |d| && d[j] == filled[1];
      assert i != j;
    }
  }

  lemma TwinsHashApart(digest: string -> string)
    requires forall x, y :: digest(x) == digest(y) ==> x == y
    ensures PgHasher(digest)("a b") != PgHasher(digest)("a\U{00A0}b")
  {
    NoBreakSpaceKept();
    PlainSpaceKept();
    assert "a b" != "a\U{00A0}b" by {
      assert "a b"[1] != "a\U{00A0}b"[1];
    }
  }

  lemma PlainSpaceKept()
    ensures PgNormalize("a b") == "a b"
  {
    PgNormalizeThree('a', ' ', 'b');
  }

  // ---------------------------------------------------------------------------
  // Agreement with ingestion

  /** A chunk row written by ingestion, as the migration reads it. */
  function ToLegacy(c: ChunkRow): LegacyChunk {
    LegacyChunk(c.documentId, c.chunkIndex, c.content, Some(c.contentHash))
  }

  /** The same row from before the hash column existed. */
  function ToUnhashed(c: ChunkRow): LegacyChunk {
    LegacyChunk(c.documentId, c.chunkIndex, c.content, None)
  }

  function Legacy(rows: seq<ChunkRow>): (r: seq<LegacyChunk>)
    ensures |r| == |rows| && forall i :: 0 <= i < |r| ==> r[i] == ToLegacy(rows[i])
  {
    if rows == [] then [] else Legacy(rows[..|rows| - 1]) + [ToLegacy(rows[|rows| - 1])]
  }

  function Unhashed(rows: seq<ChunkRow>): (r: seq<LegacyChunk>)
    ensures |r| == |rows| && forall i :: 0 <= i < |r| ==> r[i] == ToUnhashed(rows[i])
  {
    if rows == [] then [] else Unhashed(rows[..|rows| - 1]) + [ToUnhashed(rows[|rows| - 1])]
  }

  /** Within each document, later rows have larger chunk indices (as ingestion numbers them). */
  predicate IndexOrdered(rows: seq<ChunkRow>) {
    forall i, j :: 0 <= i < j < |rows| && rows[i].documentId == rows[j].documentId ==> rows[i].chunkIndex < rows[j].chunkIndex
  }

  /** Backfilling rows stored without a hash recomputes exactly the hashes ingestion stores, when both use one hash function. */
  lemma BackfillRecoversHashes(rows: seq<ChunkRow>, hashOf: string -> string)
    requires forall i :: 0 <= i < |rows| ==> rows[i].contentHash == hashOf(rows[i].content)
    ensures Backfilled(Unhashed(rows), hashOf) == Legacy(rows)
  {
  }

  /** Whether row `n` survives the delete is whether its (document, hash) key is new among the rows before it. */
  lemma SurvivesIffFirstOfKey(rows: seq<ChunkRow>, n: nat)
    requires IndexOrdered(rows) && n < |rows|
    ensures Survives(Legacy(rows), Legacy(rows)[n]) <==> !HasKey(rows[..n], Ingestion.HashKey, Ingestion.HashKey(rows[n]))
  {
  }

  lemma LegacySnoc(rows: seq<ChunkRow>, x: ChunkRow)
    ensures Legacy(rows + [x]) == Legacy(rows) + [ToLegacy(x)]
  {
  }

  /** The delete, one row further: row `m` stays exactly when its key is new. */
  lemma DedupStep(rows: seq<ChunkRow>, m: nat)
    requires IndexOrdered(rows) && m < |rows|
    ensures var table := Legacy(rows);
      Filter(table[..m + 1], Survivor(table))
      == Filter(table[..m], Survivor(table)) + (if HasKey(rows[..m], Ingestion.HashKey, Ingestion.HashKey(rows[m])) then [] else [ToLegacy(rows[m])])
  {
    var table := Legacy(rows);
    FilterSnoc(table, Survivor(table), m);
    SurvivesIffFirstOfKey(rows, m);
    assert Survivor(table)(table[m]) == Survives(table, table[m]);
  }

  /** Ingestion's keep-first, one row further, seen through `Legacy`. */
  lemma KeepFirstLegacyStep(rows: seq<ChunkRow>, m: nat)
    requires m < |rows|
    ensures Legacy(KeepFirst(rows[..m + 1], Ingestion.HashKey))
      == Legacy(KeepFirst(rows[..m], Ingestion.HashKey)) + (if HasKey(rows[..m], Ingestion.HashKey, Ingestion.HashKey(rows[m])) then [] else [ToLegacy(rows[m])])
  {
    assert rows[..m + 1] == rows[..m] + [rows[m]];
    KeepFirstSnoc(rows[..m], Ingestion.HashKey, rows[m]);
    LegacySnoc(KeepFirst(rows[..m], Ingestion.HashKey), rows[m]);
  }

  lemma {:induction false} DedupPrefix(rows: seq<ChunkRow>, n: nat)
    requires IndexOrdered(rows) && n <= |rows|
    ensures Filter(Legacy(rows)[..n], Survivor(Legacy(rows))) == Legacy(KeepFirst(rows[..n], Ingestion.HashKey))
  {
    var table := Legacy(rows);
    if n == 0 {
      assert table[..0] == [] && rows[..0] == [];
    } else {
      var m := n - 1;
      var extra := if HasKey(rows[..m], Ingestion.HashKey, Ingestion.HashKey(rows[m])) then [] else [ToLegacy(rows[m])];
      DedupPrefix(rows, m);
      DedupStep(rows, m);
      KeepFirstLegacyStep(rows, m);
      calc {
        Filter(table[..n], Survivor(table));
        Filter(table[..m], Survivor(table)) + extra;
        Legacy(KeepFirst(rows[..m], Ingestion.HashKey)) + extra;
        Legacy(KeepFirst(rows[..n], Ingestion.HashKey));
      }
    }
  }

  /**
   * Deleting duplicates from rows written by ingestion keeps exactly the rows
   * ingestion itself would have kept: the first of each (document, hash).
   */
  lemma DedupOfIngested(rows: seq<ChunkRow>)
    requires IndexOrdered(rows)
    ensures Deduplicated(Legacy(rows)) == Legacy(KeepFirst(rows, Ingestion.HashKey))
  {
    DedupPrefix(rows, |rows|);
    assert Legacy(rows)[..|rows|] == Legacy(rows);
    assert rows[..|rows|] == rows;
  }

  /**
   * A document chunked before the migration, with no hash stored, comes out of
   * backfill and delete exactly as ingestion now stores it.
   */
  lemma MigrationMatchesIngestion(hash: string -> string, id: nat, nodes: seq<TextNode>)
    requires Ingestion.AllEmbedded(nodes)
    ensures var rows := Ingestion.BuildRows(hash, id, nodes);
      Deduplicated(Backfilled(Unhashed(rows), hash)) == Legacy(KeepFirst(rows, Ingestion.HashKey))
  {
    var rows := Ingestion.BuildRows(hash, id, nodes);
    forall i | 0 <= i < |rows| ensures rows[i].contentHash == hash(rows[i].content) && rows[i].chunkIndex == i && rows[i].documentId == id {
      Ingestion.BuildRowsAt(hash, id, nodes, i);
    }
    BackfillRecoversHashes(rows, hash);
    DedupOfIngested(rows);
  }

  // ---------------------------------------------------------------------------
  // The table, changed in place by the migration

  datatype MigrationError = NullHashes | DuplicateHashes

  class ChunksTable {
    var rows: seq<LegacyChunk>
    /** The `content_hash` column exists. */
    var hasHashColumn: bool
    /** The column is NOT NULL. */
    var hashNotNull: bool
    /** The constraint `uq_chunks_document_content_hash` exists. */
    var hashUnique: bool

    /**
     * The constraints the table is under: (document_id, chunk_index) is unique;
     * without the column every hash reads as NULL; the NOT NULL and UNIQUE
     * flags hold of the rows.
     */
    ghost predicate Valid()
      reads this
    {
      && KeysDistinct(rows, IndexKey)
      && (!hasHashColumn ==> (forall i :: 0 <= i < |rows| ==> rows[i].hash.None?) && !hashNotNull && !hashUnique)
      && (hashNotNull ==> NoNullHash(rows))
      && (hashUnique ==> GroupsUnique(rows))
    }

    /** A table from before the migration: no hash column. */
    constructor (initial: seq<LegacyChunk>)
      requires KeysDistinct(initial, IndexKey)
      requires forall i :: 0 <= i < |initial| ==> initial[i].hash.None?
      ensures Valid() && rows == initial && !hasHashColumn
    {
      rows := initial;
      hasHashColumn, hashNotNull, hashUnique := false, false, false;
    }

    /** Step 1: `ADD COLUMN content_hash` (nullable); every row reads NULL. */
    method AddColumn()
      requires Valid() && !hasHashColumn
      modifies this
      ensures Valid() && hasHashColumn && !hashNotNull && !hashUnique
      ensures rows == old(rows)
    {
      hasHashColumn := true;
    }

    /** Step 2: fills every NULL hash with `hashOf(content)`. */
    method Backfill(hashOf: string -> string)
      requires Valid() && hasHashColumn && !hashUnique
      modifies this`rows
      ensures Valid()
      ensures rows == Backfilled(old(rows), hashOf)
    {
      var i := 0;
      while i < |rows|
        invariant 0 <= i <= |rows| == |old(rows)|
        invariant forall k :: 0 <= k < i ==> rows[k] == FillHash(old(rows)[k], hashOf)
        invariant forall k :: i <= k < |rows| ==> rows[k] == old(rows)[k]
      {
        if rows[i].hash.None? {
          rows := rows[i := rows[i].(hash := Some(hashOf(rows[i].content)))];
        }
        i := i + 1;
      }
      assert forall k :: 0 <= k < |rows| ==> IndexKey(rows[k]) == IndexKey(old(rows)[k]);
    }

    /** Step 3: deletes every row with `rn > 1`. */
    method DeleteDuplicates()
      requires Valid() && hasHashColumn
      modifies this`rows
      ensures Valid()
      ensures rows == Deduplicated(old(rows))
    {
      var table := rows;
      var kept := [];
      var i := 0;
      while i < |table|
        invariant 0 <= i <= |table|
        invariant kept == Filter(table[..i], Survivor(table))
      {
        FilterSnoc(table, Survivor(table), i);
        if Survives(table, table[i]) {
          kept := kept + [table[i]];
        }
        i := i + 1;
      }
      assert table[..i] == table;
      DistinctFilter(table, Survivor(table), IndexKey);
      DedupGroupsUnique(table);
      rows := kept;
    }

    /** Step 4a: `ALTER COLUMN content_hash SET NOT NULL`, which fails while a NULL remains. */
    method SetNotNull() returns (err: Option<MigrationError>)
      requires Valid() && hasHashColumn
      modifies this`hashNotNull
      ensures Valid() && rows == old(rows)
      ensures err.None? <==> NoNullHash(rows)
      ensures err.None? ==> hashNotNull
      ensures err.Some? ==> err.value == NullHashes && hashNotNull == old(hashNotNull)
    {
      if exists i :: 0 <= i < |rows| && rows[i].hash.None? {
        return Some(NullHashes);
      }
      hashNotNull := true;
      return None;
    }

    /** Step 4b: `CREATE UNIQUE CONSTRAINT`, which fails while two rows share a key. */
    method AddUniqueConstraint() returns (err: Option<MigrationError>)
      requires Valid() && hasHashColumn
      modifies this`hashUnique
      ensures Valid() && rows == old(rows)
      ensures err.None? <==> GroupsUnique(rows)
      ensures err.None? ==> hashUnique
      ensures err.Some? ==> err.value == DuplicateHashes && hashUnique == old(hashUnique)
    {
      if !GroupsUnique(rows) {
        return Some(DuplicateHashes);
      }
      hashUnique := true;
      return None;
    }

    /**
     * `upgrade`, with the hash the backfill writes as a parameter. It cannot
     * fail, and leaves the deduplicated, backfilled rows under both constraints.
     */
    method UpgradeWith(hashOf: string -> string) returns (err: Option<MigrationError>)
      requires Valid() && !hasHashColumn
      modifies this
      ensures Valid() && err == None
      ensures hasHashColumn && hashNotNull && hashUnique
      ensures rows == Deduplicated(Backfilled(old(rows), hashOf))
    {
      AddColumn();
      Backfill(hashOf);
      BackfillLeavesNoNull(old(rows), hashOf);
      ghost var filled := rows;
      DeleteDuplicates();
      DedupLeavesNoNull(filled);
      err := SetNotNull();
      if err.Some? {
        assert false;
      }
      DedupGroupsUnique(filled);
      err := AddUniqueConstraint();
    }

    /** `upgrade` as written: the backfill hashes PostgreSQL's normalisation. */
    method UpgradeAsWritten(digest: string -> string) returns (err: Option<MigrationError>)
      requires Valid() && !hasHashColumn
      modifies this
      ensures Valid() && err == None
      ensures hasHashColumn && hashNotNull && hashUnique
      ensures rows == Deduplicated(Backfilled(old(rows), PgHasher(digest)))
    {
      err := UpgradeWith(PgHasher(digest));
    }

    /** `upgrade`, with the backfill hashing content the way ingestion does. */
    method Upgrade(digest: string -> string) returns (err: Option<MigrationError>)
      requires Valid() && !hasHashColumn
      modifies this
      ensures Valid() && err == None
      ensures hasHashColumn && hashNotNull && hashUnique
      ensures rows == Deduplicated(Backfilled(old(rows), Ingestion.ContentHasher(digest)))
    {
      err := UpgradeWith(Ingestion.ContentHasher(digest));
    }

    /** `downgrade`: drops the constraint and the column. */
    method Downgrade()
      requires Valid() && hasHashColumn
      modifies this
      ensures Valid() && !hasHashColumn && !hashNotNull && !hashUnique
      ensures |rows| == |old(rows)|
      ensures forall i :: 0 <= i < |rows| ==> rows[i] == old(rows)[i].(hash := None)
    {
      var i := 0;
      while i < |rows|
        invariant 0 <= i <= |rows| == |old(rows)|
        invariant forall k :: 0 <= k < i ==> rows[k] == old(rows)[k].(hash := None)
        invariant forall k :: i <= k < |rows| ==> rows[k] == old(rows)[k]
      {
        rows := rows[i := rows[i].(hash := None)];
        i := i + 1;
      }
      assert forall k :: 0 <= k < |rows| ==> IndexKey(rows[k]) == IndexKey(old(rows)[k]);
      hasHashColumn, hashNotNull, hashUnique := false, false, false;
    }
  }
}
