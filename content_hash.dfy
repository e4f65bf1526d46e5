/**
 * The content hash that keys chunk deduplication
 * (`IngestPipeline.create_content_hash`): every whitespace run becomes one
 * space, the ends are stripped, and the result is digested. The digest
 * (SHA-256 of the UTF-8 bytes, in hex) is a parameter of the model.
 */
module ContentHash {
  import opened Text

  /** `re.sub(r"\s+", " ", s)`: each maximal whitespace run becomes one ' '. */
  function CollapseWhitespace(s: string): (r: string)
    ensures r == [] <==> s == []
    ensures s != [] && !IsSpace(s[0]) ==> r[0] == s[0]
    ensures s != [] && IsSpace(s[0]) ==> r[0] == ' '
    decreases |s|
  {
    if s == [] then []
    else if IsSpace(s[0]) then [' '] + CollapseWhitespace(LStrip(s))
    else [s[0]] + CollapseWhitespace(s[1..])
  }

  /** `re.sub(r"\s+", " ", s).strip()`: the text the digest is taken of. */
  function Normalize(s: string): string {
    Strip(CollapseWhitespace(s))
  }

  /** `create_content_hash`, with the digest supplied by the caller. */
  function ContentHashOf(digest: string -> string, content: string): string {
    digest(Normalize(content))
  }

  /** Every whitespace character is a plain space and none is followed by another. */
  predicate SingleSpaced(s: string) {
    forall i :: 0 <= i < |s| && IsSpace(s[i]) ==> s[i] == ' ' && (i + 1 < |s| ==> !IsSpace(s[i + 1]))
  }

  /** The shape of a normalised text: single-spaced, and no whitespace at either end. */
  predicate IsNormal(s: string) {
    SingleSpaced(s) && (s == [] || (!IsSpace(s[0]) && !IsSpace(s[|s| - 1])))
  }

  lemma {:induction false} CollapseIsSingleSpaced(s: string)
    ensures SingleSpaced(CollapseWhitespace(s))
    decreases |s|
  {
    if s != [] {
      if IsSpace(s[0]) {
        CollapseIsSingleSpaced(LStrip(s));
      } else {
        CollapseIsSingleSpaced(s[1..]);
      }
    }
  }

  lemma SingleSpacedSlice(s: string, i: int, j: int)
    requires SingleSpaced(s) && 0 <= i <= j <= |s|
    ensures SingleSpaced(s[i..j])
  {
    assert forall k :: 0 <= k < j - i ==> s[i..j][k] == s[i + k];
  }

  lemma SingleSpacedDrop(s: string, i: int)
    requires SingleSpaced(s) && 0 <= i <= |s|
    ensures SingleSpaced(s[i..])
  {
    assert forall k :: 0 <= k < |s| - i ==> s[i..][k] == s[i + k];
  }

  lemma SingleSpacedTake(s: string, j: int)
    requires SingleSpaced(s) && 0 <= j <= |s|
    ensures SingleSpaced(s[..j])
  {
    assert forall k :: 0 <= k < j ==> s[..j][k] == s[k];
  }

  /** The normalised text has no whitespace at its ends and single spaces inside. */
  lemma NormalizeIsNormal(s: string)
    ensures IsNormal(Normalize(s))
  {
    var c := CollapseWhitespace(s);
    CollapseIsSingleSpaced(s);
    var l := LStrip(c);
    SingleSpacedDrop(c, |c| - |l|);
    SingleSpacedTake(l, |RStrip(l)|);
  }

  /** A single-spaced text is left unchanged by the collapsing substitution. */
  lemma {:induction false} CollapseOfSingleSpaced(s: string)
    requires SingleSpaced(s)
    ensures CollapseWhitespace(s) == s
    decreases |s|
  {
    if s != [] {
      var t := s[1..];
      assert SingleSpaced(t) by {
        SingleSpacedSlice(s, 1, |s|);
      }
      assert CollapseWhitespace(t) == t by {
        CollapseOfSingleSpaced(t);
      }
      if IsSpace(s[0]) {
        assert LStrip(s) == t by {
          assert t == [] || !IsSpace(t[0]);
          LStripNoLeadingSpace(t);
        }
        assert s[0] == ' ';
      }
      assert s == [s[0]] + t;
    }
  }

  /** Normalised texts are fixed points of the normalisation. */
  lemma NormalizeOfNormal(s: string)
    requires IsNormal(s)
    ensures Normalize(s) == s
  {
    CollapseOfSingleSpaced(s);
    LStripNoLeadingSpace(s);
  }

  /** Normalising twice is normalising once. */
  lemma NormalizeIdempotent(s: string)
    ensures Normalize(Normalize(s)) == Normalize(s)
  {
    NormalizeIsNormal(s);
    NormalizeOfNormal(Normalize(s));
  }

  // ---------------------------------------------------------------------------
  // Texts that differ only in their whitespace runs hash alike.

  /**
   * `a` and `b` have the same non-whitespace characters in the same order and
   * whitespace runs at the same places, though the runs may differ in length
   * and in the characters they are made of; a trailing run may be missing in one.
   */
  predicate SameUpToWhitespaceRuns(a: string, b: string)
    decreases |a| + |b|
  {
    if a == [] || b == [] then AllSpace(a) && AllSpace(b)
    else if IsSpace(a[0]) && IsSpace(b[0]) then SameUpToWhitespaceRuns(LStrip(a), LStrip(b))
    else if !IsSpace(a[0]) && !IsSpace(b[0]) then a[0] == b[0] && SameUpToWhitespaceRuns(a[1..], b[1..])
    else false
  }

  /** The texts differ only in whitespace, leading and trailing runs included. */
  predicate DifferOnlyInWhitespace(a: string, b: string) {
    SameUpToWhitespaceRuns(LStrip(a), LStrip(b))
  }

  /** `rstrip` of a text with one more character in front. */
  lemma {:induction false} RStripCons(c: char, t: string)
    ensures RStrip([c] + t) == if RStrip(t) == [] && IsSpace(c) then [] else [c] + RStrip(t)
    decreases |t|
  {
    var s := [c] + t;
    if t != [] {
      assert s[..|s| - 1] == [c] + t[..|t| - 1];
      if IsSpace(t[|t| - 1]) {
        RStripCons(c, t[..|t| - 1]);
      }
    }
  }

  lemma CollapseAllSpace(s: string)
    requires AllSpace(s)
    ensures RStrip(CollapseWhitespace(s)) == []
  {
    LStripAllSpace(s);
    if s != [] {
      assert CollapseWhitespace(s) == [' '];
    }
  }

  lemma {:induction false} SameRunsCollapseAlike(a: string, b: string)
    requires SameUpToWhitespaceRuns(a, b)
    ensures RStrip(CollapseWhitespace(a)) == RStrip(CollapseWhitespace(b))
    decreases |a| + |b|
  {
    if a == [] || b == [] {
      CollapseAllSpace(a);
      CollapseAllSpace(b);
    } else if IsSpace(a[0]) {
      SameRunsCollapseAlike(LStrip(a), LStrip(b));
      RStripCons(' ', CollapseWhitespace(LStrip(a)));
      RStripCons(' ', CollapseWhitespace(LStrip(b)));
    } else {
      SameRunsCollapseAlike(a[1..], b[1..]);
      RStripCons(a[0], CollapseWhitespace(a[1..]));
      RStripCons(b[0], CollapseWhitespace(b[1..]));
    }
  }

  /** Leading whitespace does not change the normalised text. */
  lemma NormalizeDropsLeadingSpace(s: string)
    ensures Normalize(s) == RStrip(CollapseWhitespace(LStrip(s)))
  {
    var t := LStrip(s);
    var ct := CollapseWhitespace(t);
    LStripNoLeadingSpace(ct);
    if s != [] && IsSpace(s[0]) {
      var c := CollapseWhitespace(s);
      assert c == [' '] + ct;
      SpaceIsSpace();
      assert c[1..] == ct;
      assert LStrip(c) == LStrip(ct);
    } else {
      LStripNoLeadingSpace(s);
    }
  }

  /**
   * Texts that differ only in the length or kind of their whitespace runs
   * normalise to the same text, and so get the same content hash.
   */
  lemma {:induction false} WhitespaceVariantsHashAlike(digest: string -> string, a: string, b: string)
    requires DifferOnlyInWhitespace(a, b)
    ensures Normalize(a) == Normalize(b)
    ensures ContentHashOf(digest, a) == ContentHashOf(digest, b)
  {
    NormalizeDropsLeadingSpace(a);
    NormalizeDropsLeadingSpace(b);
    SameRunsCollapseAlike(LStrip(a), LStrip(b));
  }
}
