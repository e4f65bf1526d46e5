/**
 * `MantineMarkdownChunker`: a document is cut into blocks at separator lines
 * of dashes; each block gets a topic from an H3 line in its header zone; the
 * block is handed to the header and size splitters (opaque here), and every
 * piece they return becomes a node whose metadata numbers it within the
 * document and whose text is prefixed with its topic and section.
 */
module MarkdownChunker {
  import opened Wrappers
  import opened Text
  import opened Records
  import opened Tables

  // ---------------------------------------------------------------------------
  // Blocks: the pieces between separator lines `(?m)^-{30,}\s*$`

  /** The length of the run of '-' that starts `s`. */
  function LeadingDashes(s: string): (n: nat)
    ensures n <= |s|
    ensures forall i :: 0 <= i < n ==> s[i] == '-'
    ensures n == |s| || s[n] != '-'
  {
    if s != [] && s[0] == '-' then 1 + LeadingDashes(s[1..]) else 0
  }

  /** A line of at least 30 dashes followed by nothing but whitespace. */
  predicate IsSeparatorLine(line: string) {
    LeadingDashes(line) >= 30 && AllSpace(line[LeadingDashes(line)..])
  }

  /** The lines between consecutive separator lines: one group more than there are separators. */
  function Groups(lines: seq<string>): (r: seq<seq<string>>)
    ensures |r| >= 1
    ensures forall g, i :: 0 <= g < |r| && 0 <= i < |r[g]| ==> !IsSeparatorLine(r[g][i])
  {
    if lines == [] then [[]]
    else
      var p := Groups(lines[..|lines| - 1]);
      var last := lines[|lines| - 1];
      if IsSeparatorLine(last) then p + [[]]
      else p[..|p| - 1] + [p[|p| - 1] + [last]]
  }

  /** Each group's text, stripped, with the empty ones dropped. */
  function StrippedNonEmpty(groups: seq<seq<string>>): (r: seq<string>)
    ensures forall i :: 0 <= i < |r| ==> r[i] != [] && !IsSpace(r[i][0]) && !IsSpace(r[i][|r[i]| - 1])
  {
    if groups == [] then []
    else
      var p := StrippedNonEmpty(groups[..|groups| - 1]);
      var b := Strip(Join(groups[|groups| - 1], "\n"));
      if b == [] then p else p + [b]
  }

  /** A group's text: its lines joined and stripped. */
  function GroupText(group: seq<string>): string {
    Strip(Join(group, "\n"))
  }

  /**
   * `raw_blocks`: the stripped, non-empty pieces of the text between separator
   * lines; every block is non-empty and starts and ends with a non-whitespace character.
   */
  function RawBlocks(text: string): (r: seq<string>)
    ensures forall i :: 0 <= i < |r| ==> r[i] != [] && !IsSpace(r[i][0]) && !IsSpace(r[i][|r[i]| - 1])
  {
    StrippedNonEmpty(Groups(SplitAt(text, '\n')))
  }

  /** The separator lines of `lines`, in order. */
  function Seps(lines: seq<string>): (r: seq<string>)
    ensures forall i :: 0 <= i < |r| ==> IsSeparatorLine(r[i])
  {
    if lines == [] then []
    else
      var p := Seps(lines[..|lines| - 1]);
      var last := lines[|lines| - 1];
      if IsSeparatorLine(last) then p + [last] else p
  }

  /** The groups put back together with the separators between them. */
  function Rejoin(groups: seq<seq<string>>, seps: seq<string>): seq<string>
    requires |groups| == |seps| + 1
    decreases |seps|
  {
    if seps == [] then groups[0]
    else Rejoin(groups[..|groups| - 1], seps[..|seps| - 1]) + [seps[|seps| - 1]] + groups[|groups| - 1]
  }

  lemma RejoinExtendLast(groups: seq<seq<string>>, seps: seq<string>, x: string)
    requires |groups| == |seps| + 1
    ensures Rejoin(groups[..|groups| - 1] + [groups[|groups| - 1] + [x]], seps) == Rejoin(groups, seps) + [x]
  {
    var n := |groups| - 1;
    var g' := groups[..n] + [groups[n] + [x]];
    if seps != [] {
      assert g'[..n] == groups[..n];
      assert g'[n] == groups[n] + [x];
    }
  }

  /**
   * The groups are the pieces between separator lines: there is one group more
   * than there are separators, and putting the separators back between the
   * groups gives the lines again.
   */
  lemma {:induction false} GroupsRejoin(lines: seq<string>)
    ensures |Groups(lines)| == |Seps(lines)| + 1
    ensures Rejoin(Groups(lines), Seps(lines)) == lines
  {
    if lines != [] {
      var n := |lines| - 1;
      var p := Groups(lines[..n]);
      var s := Seps(lines[..n]);
      GroupsRejoin(lines[..n]);
      if IsSeparatorLine(lines[n]) {
        var g := p + [[]];
        assert g[..|g| - 1] == p;
        assert (s + [lines[n]])[..|s|] == s;
        assert Rejoin(g, s + [lines[n]]) == Rejoin(p, s) + [lines[n]] + [];
      } else {
        RejoinExtendLast(p, s, lines[n]);
      }
      assert lines[..n] + [lines[n]] == lines;
    }
  }

  /** `block` is the stripped text of one of `groups`. */
  predicate FromSomeGroup(block: string, groups: seq<seq<string>>) {
    exists g :: 0 <= g < |groups| && block == GroupText(groups[g])
  }

  /** Every block is the stripped text of some group. */
  lemma {:induction false} BlocksFromGroups(groups: seq<seq<string>>)
    ensures forall i :: 0 <= i < |StrippedNonEmpty(groups)| ==> FromSomeGroup(StrippedNonEmpty(groups)[i], groups)
  {
    if groups != [] {
      var n := |groups| - 1;
      var p := StrippedNonEmpty(groups[..n]);
      StrippedNonEmptySnoc(groups);
      BlocksFromGroups(groups[..n]);
      var r := StrippedNonEmpty(groups);
      forall i | 0 <= i < |r| ensures FromSomeGroup(r[i], groups) {
        if i < |p| {
          assert FromSomeGroup(p[i], groups[..n]);
          var g :| 0 <= g < n && p[i] == GroupText(groups[..n][g]);
          assert r[i] == GroupText(groups[g]);
        } else {
          assert r[i] == GroupText(groups[n]);
        }
      }
    }
  }

  /** One more group adds its stripped text as a block, unless that text is empty. */
  lemma StrippedNonEmptySnoc(groups: seq<seq<string>>)
    requires groups != []
    ensures var n := |groups| - 1;
      StrippedNonEmpty(groups) ==
        StrippedNonEmpty(groups[..n]) + (if GroupText(groups[n]) == [] then [] else [GroupText(groups[n])])
  {
  }

  /** `x` is one of the blocks. */
  predicate HasBlock(blocks: seq<string>, x: string) {
    exists j :: 0 <= j < |blocks| && blocks[j] == x
  }

  /** Every group whose stripped text is not empty gives a block. */
  lemma {:induction false} GroupsGiveBlocks(groups: seq<seq<string>>, g: nat)
    requires g < |groups| && GroupText(groups[g]) != []
    ensures HasBlock(StrippedNonEmpty(groups), GroupText(groups[g]))
  {
    var n := |groups| - 1;
    StrippedNonEmptySnoc(groups);
    if g < n {
      assert groups[..n][g] == groups[g];
      GroupsGiveBlocks(groups[..n], g);
    }
    HasBlockAppend(StrippedNonEmpty(groups[..n]), if GroupText(groups[n]) == [] then [] else [GroupText(groups[n])], GroupText(groups[g]), g == n);
  }

  /** A block of `p`, or the one block `q` holds, is a block of `p + q`. */
  lemma HasBlockAppend(p: seq<string>, q: seq<string>, x: string, inLast: bool)
    requires if inLast then q == [x] else HasBlock(p, x)
    ensures HasBlock(p + q, x)
  {
    if inLast {
      assert (p + q)[|p|] == x;
    } else {
      var j :| 0 <= j < |p| && p[j] == x;
      assert (p + q)[j] == x;
    }
  }

  /**
   * `raw_blocks` cuts the text at its separator lines: the groups between the
   * separators give the lines back, every block is the stripped text of one
   * group, and every group whose stripped text is not empty gives a block.
   */
  lemma RawBlocksArePieces(text: string)
    ensures var lines := SplitAt(text, '\n');
      && |Groups(lines)| == |Seps(lines)| + 1
      && Rejoin(Groups(lines), Seps(lines)) == lines
      && (forall i :: 0 <= i < |RawBlocks(text)| ==> FromSomeGroup(RawBlocks(text)[i], Groups(lines)))
      && (forall g :: 0 <= g < |Groups(lines)| && GroupText(Groups(lines)[g]) != [] ==>
            HasBlock(RawBlocks(text), GroupText(Groups(lines)[g])))
  {
    var lines := SplitAt(text, '\n');
    GroupsRejoin(lines);
    BlocksFromGroups(Groups(lines));
    forall g | 0 <= g < |Groups(lines)| && GroupText(Groups(lines)[g]) != []
      ensures HasBlock(RawBlocks(text), GroupText(Groups(lines)[g]))
    {
      GroupsGiveBlocks(Groups(lines), g);
    }
  }

  lemma {:induction false} GroupsWithoutSeparator(lines: seq<string>)
    requires forall i :: 0 <= i < |lines| ==> !IsSeparatorLine(lines[i])
    ensures Groups(lines) == [lines]
  {
    if lines != [] {
      var n := |lines| - 1;
      var p := Groups(lines[..n]);
      GroupsWithoutSeparator(lines[..n]);
      assert p == [lines[..n]];
      assert !IsSeparatorLine(lines[n]);
      calc {
        Groups(lines);
        p[..0] + [p[0] + [lines[n]]];
        [lines[..n] + [lines[n]]];
        { assert lines[..n] + [lines[n]] == lines; }
        [lines];
      }
    }
  }

  lemma StrippedNonEmptySingle(g: seq<string>)
    ensures StrippedNonEmpty([g]) == if Strip(Join(g, "\n")) == [] then [] else [Strip(Join(g, "\n"))]
  {
    assert [g][..0] == [];
  }

  /** A text without a separator line is one block: the whole text, stripped, unless it is blank. */
  lemma RawBlocksWithoutSeparator(text: string)
    requires forall i :: 0 <= i < |SplitAt(text, '\n')| ==> !IsSeparatorLine(SplitAt(text, '\n')[i])
    ensures RawBlocks(text) == if AllSpace(text) then [] else [Strip(text)]
  {
    var lines := SplitAt(text, '\n');
    GroupsWithoutSeparator(lines);
    JoinSplitAt(text, '\n');
    assert Join(lines, "\n") == text;
    StrippedNonEmptySingle(lines);
    StripEmptyIffBlank(text);
  }

  // ---------------------------------------------------------------------------
  // The H3 line `^\s*###\s+(.+?)\s*$`

  /**
   * One way the H3 pattern matches `line`: whitespace up to `a`, "###" at `a`,
   * at least one whitespace character up to `b`, the capture `line[b..e]`
   * (at least one character, no newline), and whitespace from `e` to the end.
   */
  predicate H3Split(line: string, a: nat, b: nat, e: nat) {
    && a + 3 < b < e <= |line|
    && SpaceRun(line, 0, a) && line[a..a + 3] == "###" && SpaceRun(line, a + 3, b)
    && SpaceRun(line, e, |line|) && (forall i :: b <= i < e ==> line[i] != '\n')
  }

  /**
   * `h3_line.match(line)` followed by `group(1).strip()`, or None when the
   * line does not match. After "###" and its whitespace the title runs to the
   * last non-whitespace character; when only whitespace follows "###", and
   * there are at least two characters of it, the lazy capture takes the last
   * whitespace character, which strips to "".
   */
  function MatchH3(line: string): Option<string> {
    var a := SkipSpaces(line, 0);
    if a + 3 > |line| || line[a..a + 3] != "###" then None
    else
      var b := SkipSpaces(line, a + 3);
      if b == a + 3 then None
      else if b < |line| then Some(line[b..TrimEnd(line)])
      else if |line| - (a + 3) >= 2 then Some([])
      else None
  }

  lemma HashesAt(line: string, a: nat)
    requires a + 3 <= |line| && SpaceRun(line, 0, a) && line[a..a + 3] == "###"
    ensures SkipSpaces(line, 0) == a
  {
    assert line[a] == '#' by { assert line[a] == line[a..a + 3][0]; }
    NotSpace('#');
  }

  /** Whichever way the pattern matches, the reported title is the stripped capture. */
  lemma MatchH3Complete(line: string, a: nat, b: nat, e: nat)
    requires H3Split(line, a, b, e)
    ensures MatchH3(line) == Some(Strip(line[b..e]))
  {
    HashesAt(line, a);
    var p := SkipSpaces(line, a + 3);
    assert p > a + 3;
    if p < |line| {
      assert p >= b;
      var q := TrimEnd(line);
      assert p < q <= e;
      StripSlice(line, b, e, p, q);
    } else {
      StripSpaceRun(line, b, e);
    }
  }

  /** When the function reports a title, the pattern does match the line. */
  lemma MatchH3Sound(line: string)
    requires '\n' !in line && MatchH3(line).Some?
    ensures exists a, b, e :: H3Split(line, a, b, e)
  {
    var a := SkipSpaces(line, 0);
    var p := SkipSpaces(line, a + 3);
    var b, e;
    if p < |line| {
      b, e := p, TrimEnd(line);
    } else {
      b, e := |line| - 1, |line|;
    }
    assert forall i :: b <= i < e ==> line[i] != '\n' by {
      forall i | b <= i < e ensures line[i] != '\n' {
        assert line[i] in line;
      }
    }
    assert H3Split(line, a, b, e);
  }

  // ---------------------------------------------------------------------------
  // The header zone: the lines up to the `max`-th non-empty one

  /** How many of `lines` are not blank. */
  function NonBlankCount(lines: seq<string>): (n: nat)
    ensures n <= |lines|
  {
    if lines == [] then 0
    else NonBlankCount(lines[..|lines| - 1]) + (if IsBlank(lines[|lines| - 1]) then 0 else 1)
  }

  lemma NonBlankCountSnoc(lines: seq<string>, i: nat)
    requires i < |lines|
    ensures NonBlankCount(lines[..i + 1]) == NonBlankCount(lines[..i]) + (if IsBlank(lines[i]) then 0 else 1)
  {
    assert lines[..i + 1][..i] == lines[..i];
  }

  lemma {:induction false} NonBlankCountMonotone(lines: seq<string>, i: nat, j: nat)
    requires i <= j <= |lines|
    ensures NonBlankCount(lines[..i]) <= NonBlankCount(lines[..j])
    decreases j - i
  {
    if i < j {
      NonBlankCountSnoc(lines, j - 1);
      NonBlankCountMonotone(lines, i, j - 1);
    }
  }

  /** Line `i` is examined: counting it, at most `max` non-empty lines have been seen. */
  predicate Examined(lines: seq<string>, max: int, i: int) {
    0 <= i < |lines| && NonBlankCount(lines[..i + 1]) <= max
  }

  /** Line `i` is the first examined line that matches the H3 pattern. */
  predicate FirstMatch(lines: seq<string>, max: int, i: int) {
    Examined(lines, max, i) && MatchH3(lines[i]).Some? && forall j :: 0 <= j < i ==> MatchH3(lines[j]).None?
  }

  /** The examined lines are a prefix: the scan stops for good at the first line past the zone. */
  lemma ExaminedPrefix(lines: seq<string>, max: int, i: nat, j: nat)
    requires j <= i && Examined(lines, max, i)
    ensures Examined(lines, max, j)
  {
    NonBlankCountMonotone(lines, j + 1, i + 1);
  }

  /** The scan from line `k` on, as the loop performs it. */
  function ScanFrom(lines: seq<string>, max: int, k: nat): Option<string>
    decreases |lines| - k
  {
    if k >= |lines| || NonBlankCount(lines[..k + 1]) > max then None
    else if MatchH3(lines[k]).Some? then MatchH3(lines[k])
    else ScanFrom(lines, max, k + 1)
  }

  /** `_first_h3_in_header_zone` as a function of the block. */
  function HeaderZoneH3(block: string, max: int): Option<string> {
    ScanFrom(SplitLines(block), max, 0)
  }

  lemma {:induction false} ScanFromFirst(lines: seq<string>, max: int, k: nat, i: nat)
    requires k <= i && Examined(lines, max, i) && MatchH3(lines[i]).Some?
    requires forall j :: k <= j < i ==> MatchH3(lines[j]).None?
    ensures ScanFrom(lines, max, k) == MatchH3(lines[i])
    decreases i - k
  {
    ExaminedPrefix(lines, max, i, k);
    if k < i {
      ScanFromFirst(lines, max, k + 1, i);
    }
  }

  lemma {:induction false} ScanFromNone(lines: seq<string>, max: int, k: nat)
    ensures ScanFrom(lines, max, k).None? <==> forall i :: k <= i && Examined(lines, max, i) ==> MatchH3(lines[i]).None?
    decreases |lines| - k
  {
    if k < |lines| {
      if NonBlankCount(lines[..k + 1]) > max {
        PastZoneNeverExamined(lines, max, k);
      } else if MatchH3(lines[k]).None? {
        ScanFromNone(lines, max, k + 1);
        assert forall i :: k <= i && Examined(lines, max, i) && i != k ==> k + 1 <= i;
      }
    }
  }

  /**
   * The header-zone scan reports the first examined line that matches, and
   * reports nothing exactly when no examined line matches.
   */
  lemma HeaderZoneH3Spec(block: string, max: int)
    ensures var lines := SplitLines(block);
      HeaderZoneH3(block, max).None? <==> forall i :: Examined(lines, max, i) ==> MatchH3(lines[i]).None?
    ensures var lines := SplitLines(block);
      forall i :: FirstMatch(lines, max, i) ==> HeaderZoneH3(block, max) == MatchH3(lines[i])
  {
    var lines := SplitLines(block);
    ScanFromNone(lines, max, 0);
    forall i | FirstMatch(lines, max, i) ensures HeaderZoneH3(block, max) == MatchH3(lines[i]) {
      ScanFromFirst(lines, max, 0, i);
    }
  }

  /** The line that would be the (max+1)-th non-empty one, and every line after it, is never examined. */
  lemma PastZoneNeverExamined(lines: seq<string>, max: int, i: nat)
    requires i < |lines| && NonBlankCount(lines[..i + 1]) > max
    ensures forall j :: i <= j < |lines| ==> !Examined(lines, max, j)
  {
    forall j | i <= j < |lines| ensures !Examined(lines, max, j) {
      NonBlankCountMonotone(lines, i + 1, j + 1);
    }
  }

  // ---------------------------------------------------------------------------
  // Topic, section and node fields

  /** The topic of a block: its header-zone H3, or "General" when there is none (or it is empty). */
  function TopicOf(h3: Option<string>): (topic: string)
    ensures topic != ""
    ensures h3.Some? && h3.value != "" ==> topic == h3.value
    ensures h3.None? || h3.value == "" ==> topic == "General"
  {
    if h3.Some? && h3.value != "" then h3.value else "General"
  }

  /** `metadata.get(key)` when it is truthy. */
  function HeaderTitle(headers: map<string, string>, key: string): Option<string> {
    if key in headers && headers[key] != "" then Some(headers[key]) else None
  }

  /** A piece as the splitters return it: its text and the headers it sits under ("H2", "H3"). */
  datatype Piece = Piece(content: string, headers: map<string, string>)

  /**
   * The section of a piece: its H3, else its H2, else "Overview"; a section
   * equal to the topic becomes "Overview".
   */
  function SectionOf(headers: map<string, string>, topic: string): string {
    var s := if HeaderTitle(headers, "H3").Some? then headers["H3"]
      else if HeaderTitle(headers, "H2").Some? then headers["H2"]
      else "Overview";
    if s == topic then "Overview" else s
  }

  /**
   * The section is never the topic unless both are "Overview"; it is the H3,
   * else the H2, of the piece whenever that differs from the topic.
   */
  lemma SectionRules(headers: map<string, string>, topic: string)
    ensures var section := SectionOf(headers, topic);
      && (section == topic ==> section == "Overview")
      && (section == "Overview"
        || (HeaderTitle(headers, "H3") == Some(section) && section != topic)
        || (HeaderTitle(headers, "H3") == None && HeaderTitle(headers, "H2") == Some(section) && section != topic))
      && (HeaderTitle(headers, "H3").Some? && headers["H3"] != topic ==> section == headers["H3"])
      && (HeaderTitle(headers, "H3").None? && HeaderTitle(headers, "H2").Some? && headers["H2"] != topic ==> section == headers["H2"])
  {
  }

  /** The text that is embedded: the content, or the content under a topic and section preamble. */
  function ContextText(inject: bool, topic: string, section: string, content: string): string {
    if inject then "Topic: " + topic + "\nSection: " + section + "\n\n" + content else content
  }

  /** The content always ends the text; with injection on, the text opens with the topic line. */
  lemma ContextTextShape(inject: bool, topic: string, section: string, content: string)
    ensures var text := ContextText(inject, topic, section, content);
      && (!inject ==> text == content)
      && |content| <= |text| && text[|text| - |content|..] == content
      && (inject ==> 7 + |topic| <= |text| && text[..7 + |topic|] == "Topic: " + topic)
  {
    if inject {
      var text := ContextText(inject, topic, section, content);
      var pre := "Topic: " + topic + "\nSection: " + section + "\n\n";
      assert text == pre + content;
      assert text[|pre|..] == content;
      assert pre[..7 + |topic|] == "Topic: " + topic;
    }
  }

  /** `chunk_id`: the document id, "::", and the chunk index zero-padded to five digits. */
  function ChunkId(docId: string, index: nat): string {
    docId + "::" + ZeroPad(NatToDecimal(index), 5)
  }

  /** Within a document, different chunk indices give different chunk ids. */
  lemma ChunkIdInjective(docId: string, i: nat, j: nat)
    requires ChunkId(docId, i) == ChunkId(docId, j)
    ensures i == j
  {
    var n := |docId| + 2;
    assert ChunkId(docId, i)[n..] == ZeroPad(NatToDecimal(i), 5);
    assert ChunkId(docId, j)[n..] == ZeroPad(NatToDecimal(j), 5);
    PaddedDecimalInjective(i, j, 5);
  }

  /** The keys the chunker computes; they are also the keys hidden from the LLM and the embedder. */
  const ContextKeys: seq<string> := ["topic", "section", "chunk_id", "chunk_index", "document_id"]

  function HeaderMetadata(headers: map<string, string>): Metadata {
    map k | k in headers :: MetaStr(headers[k])
  }

  predicate IsContextKey(k: string) {
    k in ContextKeys
  }

  /** The five computed fields. */
  function ContextMetadata(docId: string, index: nat, topic: string, section: string): Metadata {
    map[
      "document_id" := MetaStr(docId),
      "chunk_index" := MetaInt(index),
      "chunk_id" := MetaStr(ChunkId(docId, index)),
      "topic" := MetaStr(topic),
      "section" := MetaStr(section)]
  }

  /**
   * The node metadata: document metadata, overridden by the piece's header
   * metadata, overridden by the five computed fields.
   */
  function NodeMetadata(base: Metadata, headers: map<string, string>, docId: string, index: nat, topic: string, section: string): (m: Metadata)
    ensures "document_id" in m && m["document_id"] == MetaStr(docId)
    ensures "chunk_index" in m && m["chunk_index"] == MetaInt(index)
    ensures "chunk_id" in m && m["chunk_id"] == MetaStr(ChunkId(docId, index))
    ensures "topic" in m && m["topic"] == MetaStr(topic)
    ensures "section" in m && m["section"] == MetaStr(section)
  {
    base + HeaderMetadata(headers) + ContextMetadata(docId, index, topic, section)
  }

  lemma ContextMetadataKeys(docId: string, index: nat, topic: string, section: string, k: string)
    ensures k in ContextMetadata(docId, index, topic, section) <==> IsContextKey(k)
  {
  }

  /**
   * Metadata precedence for any other key: a header value beats a document
   * value, and no key appears that neither supplies.
   */
  lemma NodeMetadataPrecedence(base: Metadata, headers: map<string, string>, docId: string, index: nat, topic: string, section: string, k: string)
    requires !IsContextKey(k)
    ensures var m := NodeMetadata(base, headers, docId, index, topic, section);
      && (k in m <==> k in base || k in headers)
      && (k in headers ==> m[k] == MetaStr(headers[k]))
      && (k !in headers && k in base ==> m[k] == base[k])
  {
    ContextMetadataKeys(docId, index, topic, section, k);
  }

  /** A metadata value as an f-string renders it. */
  function Render(v: MetaValue): string {
    match v
    case MetaStr(s) => s
    case MetaInt(i) => IntToDecimal(i)
  }

  /** A LlamaIndex `Document`: its own id, its text and its metadata. */
  datatype SourceDocument = SourceDocument(docId: string, text: string, metadata: Metadata)

  /** `doc.doc_id`, else the metadata's "doc_id", else "doc" (empty values count as missing). */
  function DocIdOf(doc: SourceDocument): (id: string)
    ensures id != ""
  {
    if doc.docId != "" then doc.docId
    else if "doc_id" in doc.metadata && Truthy(doc.metadata["doc_id"]) && Render(doc.metadata["doc_id"]) != "" then Render(doc.metadata["doc_id"])
    else "doc"
  }

  /** What the chunker knows about the document a node comes from. */
  datatype DocContext = DocContext(docId: string, base: Metadata, inject: bool)

  /** A chunk node: text, metadata, and the metadata keys hidden from the LLM and from the embedder. */
  datatype ChunkNode = ChunkNode(text: string, metadata: Metadata, excludedLlmKeys: seq<string>, excludedEmbedKeys: seq<string>)

  /** The node built for a piece of a block with the given topic, at the given chunk index. */
  function MakeNode(ctx: DocContext, topic: string, index: nat, piece: Piece): ChunkNode {
    var section := SectionOf(piece.headers, topic);
    ChunkNode(
      ContextText(ctx.inject, topic, section, piece.content),
      NodeMetadata(ctx.base, piece.headers, ctx.docId, index, topic, section),
      ContextKeys, ContextKeys)
  }

  /** The node carries chunk index `i` of the document and the matching chunk id. */
  predicate NumberedAs(docId: string, node: ChunkNode, i: nat) {
    var m := node.metadata;
    && "chunk_index" in m && m["chunk_index"] == MetaInt(i)
    && "chunk_id" in m && m["chunk_id"] == MetaStr(ChunkId(docId, i))
    && "document_id" in m && m["document_id"] == MetaStr(docId)
  }

  /** The nodes of one block's pieces, numbered from `start`. */
  function PieceNodes(ctx: DocContext, topic: string, pieces: seq<Piece>, start: nat): (r: seq<ChunkNode>)
    ensures |r| == |pieces|
  {
    seq(|pieces|, j requires 0 <= j < |pieces| => MakeNode(ctx, topic, start + j, pieces[j]))
  }

  lemma PieceNodesSnoc(ctx: DocContext, topic: string, pieces: seq<Piece>, start: nat, j: nat)
    requires j < |pieces|
    ensures PieceNodes(ctx, topic, pieces[..j + 1], start) == PieceNodes(ctx, topic, pieces[..j], start) + [MakeNode(ctx, topic, start + j, pieces[j])]
  {
    var a := PieceNodes(ctx, topic, pieces[..j + 1], start);
    var b := PieceNodes(ctx, topic, pieces[..j], start) + [MakeNode(ctx, topic, start + j, pieces[j])];
    assert |a| == |b|;
    forall k | 0 <= k < |a| ensures a[k] == b[k] {
      assert pieces[..j + 1][k] == pieces[k];
      if k < j {
        assert pieces[..j][k] == pieces[k];
      }
    }
  }

  /** Every node of a block carries its own chunk index and the matching chunk id. */
  lemma PieceNodesNumbered(ctx: DocContext, topic: string, pieces: seq<Piece>, start: nat)
    ensures forall j :: 0 <= j < |pieces| ==> NumberedAs(ctx.docId, PieceNodes(ctx, topic, pieces, start)[j], start + j)
  {
  }

  /** The inner loop of `_chunk_one_document`: one node per piece, numbered from `start`. */
  method NumberPieces(ctx: DocContext, topic: string, pieces: seq<Piece>, start: nat) returns (nodes: seq<ChunkNode>)
    ensures nodes == PieceNodes(ctx, topic, pieces, start)
  {
    nodes := [];
    var chunkIndex := start;
    for j := 0 to |pieces|
      invariant nodes == PieceNodes(ctx, topic, pieces[..j], start) && chunkIndex == start + j
    {
      PieceNodesSnoc(ctx, topic, pieces, start, j);
      nodes := nodes + [MakeNode(ctx, topic, chunkIndex, pieces[j])];
      chunkIndex := chunkIndex + 1;
    }
    assert pieces[..|pieces|] == pieces;
  }

  // ---------------------------------------------------------------------------
  // The chunker

  class MantineMarkdownChunker {
    /** `max_nonempty_header_lines`. */
    const maxNonemptyHeaderLines: int
    /** `inject_context_into_text`. */
    const injectContextIntoText: bool
    /**
     * The header splitter followed by the size splitter (`chunk_size`,
     * `chunk_overlap` and `headers_to_split_on` are theirs).
     */
    const split: string -> seq<Piece>

    constructor (maxNonemptyHeaderLines: int, injectContextIntoText: bool, split: string -> seq<Piece>)
      ensures this.maxNonemptyHeaderLines == maxNonemptyHeaderLines
      ensures this.injectContextIntoText == injectContextIntoText
      ensures this.split == split
    {
      this.maxNonemptyHeaderLines := maxNonemptyHeaderLines;
      this.injectContextIntoText := injectContextIntoText;
      this.split := split;
    }

    /** `_first_h3_in_header_zone`. */
    method FirstH3InHeaderZone(block: string) returns (r: Option<string>)
      ensures r == HeaderZoneH3(block, maxNonemptyHeaderLines)
    {
      var lines := SplitLines(block);
      var nonempty := 0;
      var i := 0;
      while i < |lines|
        invariant 0 <= i <= |lines|
        invariant nonempty == NonBlankCount(lines[..i])
        invariant ScanFrom(lines, maxNonemptyHeaderLines, i) == ScanFrom(lines, maxNonemptyHeaderLines, 0)
      {
        var ln := lines[i];
        NonBlankCountSnoc(lines, i);
        if !IsBlank(ln) {
          nonempty := nonempty + 1;
        }
        if nonempty > maxNonemptyHeaderLines {
          return None;
        }
        var m := MatchH3(ln);
        if m.Some? {
          return Some(m.value);
        }
        i := i + 1;
      }
      return None;
    }

    function BlockTopic(block: string): string {
      TopicOf(HeaderZoneH3(block, maxNonemptyHeaderLines))
    }

    /** The nodes of a document's blocks, numbered consecutively from 0. */
    function NodesOfBlocks(ctx: DocContext, blocks: seq<string>): seq<ChunkNode> {
      if blocks == [] then []
      else
        var n := |blocks| - 1;
        var p := NodesOfBlocks(ctx, blocks[..n]);
        p + PieceNodes(ctx, BlockTopic(blocks[n]), split(blocks[n]), |p|)
    }

    /** Chunk indexes run 0, 1, 2, ... across all blocks of a document. */
    lemma {:induction false} NodesOfBlocksNumbered(ctx: DocContext, blocks: seq<string>)
      ensures forall i :: 0 <= i < |NodesOfBlocks(ctx, blocks)| ==> NumberedAs(ctx.docId, NodesOfBlocks(ctx, blocks)[i], i)
    {
      if blocks != [] {
        var n := |blocks| - 1;
        var p := NodesOfBlocks(ctx, blocks[..n]);
        NodesOfBlocksNumbered(ctx, blocks[..n]);
        PieceNodesNumbered(ctx, BlockTopic(blocks[n]), split(blocks[n]), |p|);
      }
    }

    lemma NodesOfBlocksSnoc(ctx: DocContext, blocks: seq<string>, b: nat)
      requires b < |blocks|
      ensures NodesOfBlocks(ctx, blocks[..b + 1])
           == NodesOfBlocks(ctx, blocks[..b]) + PieceNodes(ctx, BlockTopic(blocks[b]), split(blocks[b]), |NodesOfBlocks(ctx, blocks[..b])|)
    {
      assert blocks[..b + 1][..b] == blocks[..b];
    }

    function ContextOf(doc: SourceDocument): DocContext {
      DocContext(DocIdOf(doc), doc.metadata, injectContextIntoText)
    }

    /** `_chunk_one_document` as a function of the document. */
    function DocumentNodes(doc: SourceDocument): seq<ChunkNode> {
      NodesOfBlocks(ContextOf(doc), RawBlocks(doc.text))
    }

    /** The body of the block loop of `_chunk_one_document`: topic, pieces, and their nodes. */
    method ChunkBlock(ctx: DocContext, block: string, chunkIndex: nat) returns (nodes: seq<ChunkNode>)
      ensures nodes == PieceNodes(ctx, BlockTopic(block), split(block), chunkIndex)
    {
      var h3 := FirstH3InHeaderZone(block);
      var topic := TopicOf(h3);
      var pieces := split(block);
      nodes := NumberPieces(ctx, topic, pieces, chunkIndex);
    }

    /** The block loop of `_chunk_one_document`; `chunk_index` runs on across blocks. */
    method ChunkBlocks(ctx: DocContext, blocks: seq<string>) returns (out: seq<ChunkNode>)
      ensures out == NodesOfBlocks(ctx, blocks)
    {
      out := [];
      var chunkIndex := 0;
      for b := 0 to |blocks|
        invariant out == NodesOfBlocks(ctx, blocks[..b]) && chunkIndex == |out|
      {
        var nodes := ChunkBlock(ctx, blocks[b], chunkIndex);
        NodesOfBlocksSnoc(ctx, blocks, b);
        out := out + nodes;
        chunkIndex := chunkIndex + |nodes|;
      }
      assert blocks[..|blocks|] == blocks;
    }

    /** `_chunk_one_document`. */
    method ChunkOneDocument(doc: SourceDocument) returns (out: seq<ChunkNode>)
      ensures out == DocumentNodes(doc)
    {
      var ctx := ContextOf(doc);
      var blocks := RawBlocks(doc.text);
      out := ChunkBlocks(ctx, blocks);
    }

    /** Every node of a document carries the document's id and its position as chunk index. */
    lemma DocumentNodesNumbered(doc: SourceDocument)
      ensures forall i :: 0 <= i < |DocumentNodes(doc)| ==> NumberedAs(DocIdOf(doc), DocumentNodes(doc)[i], i)
    {
      NodesOfBlocksNumbered(ContextOf(doc), RawBlocks(doc.text));
    }

    /** `__call__` as a function of the documents: their nodes, document after document. */
    function AllNodes(docs: seq<SourceDocument>): seq<ChunkNode> {
      FlatMap(docs, doc => DocumentNodes(doc))
    }

    /** Chunking a concatenation of document lists concatenates their outputs. */
    lemma AllNodesAppend(a: seq<SourceDocument>, b: seq<SourceDocument>)
      ensures AllNodes(a + b) == AllNodes(a) + AllNodes(b)
    {
      FlatMapAppend(a, b, doc => DocumentNodes(doc));
    }

    /** `__call__`. */
    method ChunkDocuments(docs: seq<SourceDocument>) returns (nodes: seq<ChunkNode>)
      ensures nodes == AllNodes(docs)
    {
      nodes := [];
      for d := 0 to |docs|
        invariant nodes == AllNodes(docs[..d])
      {
        var out := ChunkOneDocument(docs[d]);
        FlatMapSnoc(docs, doc => DocumentNodes(doc), d);
        nodes := nodes + out;
      }
      assert docs[..|docs|] == docs;
    }
  }
}
