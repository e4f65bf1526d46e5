/**
 * Character classes and string helpers that the Python code gets from `re`,
 * `str` and f-strings: whitespace, `strip`, `splitlines`, decimal formatting
 * of integers and the code-point order `<` on strings.
 */
module Text {

  /**
   * Whitespace as Python's `re` understands `\s` in a str pattern, which is
   * also the set `str.isspace` and `str.strip()` use, as inclusive ranges of
   * code points: the ASCII controls \t \n \v \f \r, the separators
   * U+001C..U+001F and space, U+0085, U+00A0 and the Unicode space separators.
   */
  const SpaceRanges: seq<(int, int)> := [
    (0x09, 0x0D), (0x1C, 0x20), (0x85, 0x85), (0xA0, 0xA0), (0x1680, 0x1680),
    (0x2000, 0x200A), (0x2028, 0x2029), (0x202F, 0x202F), (0x205F, 0x205F), (0x3000, 0x3000)]

  predicate InRanges(code: int, ranges: seq<(int, int)>) {
    ranges != [] && ((ranges[0].0 <= code <= ranges[0].1) || InRanges(code, ranges[1..]))
  }

  predicate IsSpace(c: char) {
    InRanges(c as int, SpaceRanges)
  }

  lemma {:induction false} BelowAllRanges(code: int, ranges: seq<(int, int)>)
    requires forall k :: 0 <= k < |ranges| ==> code < ranges[k].0
    ensures !InRanges(code, ranges)
  {
    if ranges != [] {
      BelowAllRanges(code, ranges[1..]);
    }
  }

  /** The characters from '!' up to U+0084 (digits, letters, '#', '-', ...) are not whitespace. */
  lemma NotSpace(c: char)
    requires 0x21 <= c as int < 0x85
    ensures !IsSpace(c)
  {
    var code := c as int;
    BelowAllRanges(code, SpaceRanges[2..]);
    assert SpaceRanges[1..][1..] == SpaceRanges[2..];
    assert !InRanges(code, SpaceRanges[1..]) by {
      assert SpaceRanges[1..][0] == (0x1C, 0x20);
    }
    assert SpaceRanges[0] == (0x09, 0x0D);
  }

  /** The plain space is whitespace. */
  lemma SpaceIsSpace()
    ensures IsSpace(' ')
  {
  }

  predicate AllSpace(s: string) {
    forall i :: 0 <= i < |s| ==> IsSpace(s[i])
  }

  /** Every character of `s[i..j]` is whitespace. */
  predicate SpaceRun(s: string, i: int, j: int) {
    0 <= i <= j <= |s| && forall k :: i <= k < j ==> IsSpace(s[k])
  }

  /** The end of the whitespace run that starts at `i`. */
  function SkipSpaces(s: string, i: nat): (j: nat)
    requires i <= |s|
    ensures i <= j <= |s| && SpaceRun(s, i, j) && (j == |s| || !IsSpace(s[j]))
    decreases |s| - i
  {
    if i < |s| && IsSpace(s[i]) then SkipSpaces(s, i + 1) else i
  }

  /** The start of the trailing whitespace run of `s`. */
  function TrimEnd(s: string): (j: nat)
    ensures j <= |s| && SpaceRun(s, j, |s|) && (j == 0 || !IsSpace(s[j - 1]))
  {
    if s != [] && IsSpace(s[|s| - 1]) then TrimEnd(s[..|s| - 1]) else |s|
  }

  /** A whitespace character followed by `n` more gives `n + 1` of them. */
  lemma SpacePrefixCons(s: string, n: nat)
    requires n < |s| && IsSpace(s[0]) && AllSpace(s[1..][..n])
    ensures AllSpace(s[..n + 1])
  {
    var p, q := s[..n + 1], s[1..][..n];
    forall i | 0 <= i < |p| ensures IsSpace(p[i]) {
      if i > 0 {
        assert p[i] == q[i - 1];
      }
    }
  }

  /** `s.lstrip()`: the suffix left after the leading whitespace run. */
  function LStrip(s: string): (r: string)
    ensures |r| <= |s| && r == s[|s| - |r|..]
    ensures AllSpace(s[..|s| - |r|])
    ensures r == [] || !IsSpace(r[0])
  {
    if s != [] && IsSpace(s[0]) then
      var t := s[1..];
      var r := LStrip(t);
      assert t[|t| - |r|..] == s[|s| - |r|..];
      SpacePrefixCons(s, |t| - |r|);
      r
    else s
  }

  /** `n` whitespace characters followed by one more give a whitespace suffix. */
  lemma SpaceSuffixSnoc(s: string, m: nat)
    requires m < |s| && IsSpace(s[|s| - 1]) && AllSpace(s[..|s| - 1][m..])
    ensures AllSpace(s[m..])
  {
    var p, q := s[m..], s[..|s| - 1][m..];
    forall i | 0 <= i < |p| ensures IsSpace(p[i]) {
      if i < |q| {
        assert p[i] == q[i];
      }
    }
  }

  /** `s.rstrip()`: the prefix left before the trailing whitespace run. */
  function RStrip(s: string): (r: string)
    ensures |r| <= |s| && r == s[..|r|]
    ensures AllSpace(s[|r|..])
    ensures r == [] || !IsSpace(r[|r| - 1])
  {
    if s != [] && IsSpace(s[|s| - 1]) then
      var t := s[..|s| - 1];
      var r := RStrip(t);
      assert t[..|r|] == s[..|r|];
      SpaceSuffixSnoc(s, |r|);
      r
    else s
  }

  /** `s.strip()`: neither end of the result is whitespace. */
  function Strip(s: string): (r: string)
    ensures r == [] || (!IsSpace(r[0]) && !IsSpace(r[|r| - 1]))
  {
    RStrip(LStrip(s))
  }

  lemma LStripNoLeadingSpace(s: string)
    requires s == [] || !IsSpace(s[0])
    ensures LStrip(s) == s
  {
  }

  lemma LStripAllSpace(s: string)
    requires AllSpace(s)
    ensures LStrip(s) == [] && RStrip(s) == []
  {
  }

  /** A slice of a slice is a slice. */
  lemma SliceOfSlice<T>(s: seq<T>, b: nat, e: nat, p: nat, q: nat)
    requires b <= p <= q <= e <= |s|
    ensures s[b..e][p - b..q - b] == s[p..q]
  {
    var x := s[b..e][p - b..q - b];
    assert |x| == q - p;
    forall k | 0 <= k < q - p
      ensures x[k] == s[p..q][k]
    {
      assert x[k] == s[b..e][p - b + k] == s[p + k];
    }
  }

  /** The leading whitespace run of `s` ends at `k`. */
  lemma {:induction false} LStripAt(s: string, k: nat)
    requires k <= |s| && AllSpace(s[..k]) && (k == |s| || !IsSpace(s[k]))
    ensures LStrip(s) == s[k..]
  {
    var r := LStrip(s);
    var m := |s| - |r|;
    AllSpacePrefix(s, m);
    AllSpacePrefix(s, k);
    assert r == [] || r[0] == s[m];
  }

  /** Every character before `m` is whitespace. */
  lemma AllSpacePrefix(s: string, m: nat)
    requires m <= |s| && AllSpace(s[..m])
    ensures forall j :: 0 <= j < m ==> IsSpace(s[j])
  {
    forall j | 0 <= j < m ensures IsSpace(s[j]) {
      assert s[..m][j] == s[j];
    }
  }

  /** The trailing whitespace run of `s` starts at `k`. */
  lemma {:induction false} RStripAt(s: string, k: nat)
    requires k <= |s| && AllSpace(s[k..]) && (k == 0 || !IsSpace(s[k - 1]))
    ensures RStrip(s) == s[..k]
  {
    if k < |s| {
      var t := s[..|s| - 1];
      assert IsSpace(s[k..][|s| - 1 - k]);
      assert t[k..] == s[k..][..|s| - 1 - k];
      RStripAt(t, k);
      assert t[..k] == s[..k];
    }
  }

  /** `s.strip()` is the stretch from the first to the last non-whitespace character. */
  lemma StripBetween(s: string, i: nat, j: nat)
    requires i < j <= |s| && AllSpace(s[..i]) && AllSpace(s[j..]) && !IsSpace(s[i]) && !IsSpace(s[j - 1])
    ensures Strip(s) == s[i..j]
  {
    var l := s[i..];
    assert LStrip(s) == l by {
      LStripAt(s, i);
    }
    assert RStrip(l) == s[i..j] by {
      SuffixSlices(s, i, j);
      assert l[j - i - 1] == s[j - 1];
      RStripAt(l, j - i);
    }
  }

  /** Cutting the suffix `s[i..]` at `j - i` gives `s[i..j]` and `s[j..]`. */
  lemma SuffixSlices<T>(s: seq<T>, i: nat, j: nat)
    requires i <= j <= |s|
    ensures s[i..][..j - i] == s[i..j] && s[i..][j - i..] == s[j..]
  {
  }

  /** Stripping a slice whose first and last non-whitespace characters sit at `p` and `q - 1`. */
  lemma StripSlice(s: string, b: nat, e: nat, p: nat, q: nat)
    requires b <= p < q <= e <= |s|
    requires SpaceRun(s, b, p) && SpaceRun(s, q, e) && !IsSpace(s[p]) && !IsSpace(s[q - 1])
    ensures Strip(s[b..e]) == s[p..q]
  {
    var x := s[b..e];
    SliceEnds(s, b, e, p, q);
    assert x[p - b] == s[p] && x[q - b - 1] == s[q - 1];
    StripBetween(x, p - b, q - b);
    SliceOfSlice(s, b, e, p, q);
  }

  /** The whitespace runs around `s[p..q]` stay whitespace once `s[b..e]` is cut out. */
  lemma SliceEnds(s: string, b: nat, e: nat, p: nat, q: nat)
    requires b <= p <= q <= e <= |s|
    requires SpaceRun(s, b, p) && SpaceRun(s, q, e)
    ensures AllSpace(s[b..e][..p - b]) && AllSpace(s[b..e][q - b..])
  {
    var x := s[b..e];
    var head, tail := x[..p - b], x[q - b..];
    forall k | 0 <= k < |head| ensures IsSpace(head[k]) {
      assert head[k] == s[b + k];
    }
    forall k | 0 <= k < |tail| ensures IsSpace(tail[k]) {
      assert tail[k] == s[q + k];
    }
  }

  /** A whitespace run, cut out, is all whitespace. */
  lemma SpaceRunAllSpace(s: string, b: nat, e: nat)
    requires SpaceRun(s, b, e)
    ensures AllSpace(s[b..e])
  {
    forall k | 0 <= k < e - b ensures IsSpace(s[b..e][k]) {
      assert s[b..e][k] == s[b + k];
    }
  }

  /** A slice made of whitespace strips to nothing. */
  lemma StripSpaceRun(s: string, b: nat, e: nat)
    requires SpaceRun(s, b, e)
    ensures Strip(s[b..e]) == []
  {
    SpaceRunAllSpace(s, b, e);
    StripAllSpace(s[b..e]);
  }

  lemma StripAllSpace(s: string)
    requires AllSpace(s)
    ensures Strip(s) == []
  {
    LStripAllSpace(s);
  }

  /** Only an all-whitespace text strips to nothing. */
  lemma StripEmptyIffBlank(s: string)
    ensures Strip(s) == [] <==> AllSpace(s)
  {
    if AllSpace(s) {
      StripAllSpace(s);
    }
  }

  /** `s.strip() == ""`, the test Python writes as `not s.strip()`. */
  predicate IsBlank(s: string) {
    AllSpace(s)
  }

  /** Splits `s` at every occurrence of `sep`: n separators give n + 1 pieces. */
  function SplitAt(s: string, sep: char): (r: seq<string>)
    ensures |r| >= 1
    ensures forall i :: 0 <= i < |r| ==> sep !in r[i]
  {
    if s == [] then [[]]
    else
      var rest := SplitAt(s[1..], sep);
      if s[0] == sep then [[]] + rest
      else [[s[0]] + rest[0]] + rest[1..]
  }

  /**
   * `s.splitlines()` with '\n' as the line boundary: no piece for the empty
   * string and none after a final '\n'.
   */
  function SplitLines(s: string): (r: seq<string>)
    ensures forall i :: 0 <= i < |r| ==> '\n' !in r[i]
  {
    if s == [] then []
    else
      var pieces := SplitAt(s, '\n');
      if s[|s| - 1] == '\n' then pieces[..|pieces| - 1] else pieces
  }

  /** Joins pieces with `sep` between consecutive ones: Python's `sep.join(pieces)`. */
  function Join(pieces: seq<string>, sep: string): string {
    if pieces == [] then []
    else if |pieces| == 1 then pieces[0]
    else pieces[0] + sep + Join(pieces[1..], sep)
  }

  /** Joining the pieces of a split with the separator gives the text back. */
  lemma {:induction false} JoinSplitAt(s: string, sep: char)
    ensures Join(SplitAt(s, sep), [sep]) == s
  {
    if s != [] {
      var rest := SplitAt(s[1..], sep);
      JoinSplitAt(s[1..], sep);
      if s[0] == sep {
        assert ([[]] + rest)[1..] == rest;
      } else if |rest| > 1 {
        var r := [[s[0]] + rest[0]] + rest[1..];
        assert r[1..] == rest[1..];
        assert s == [s[0]] + s[1..];
      } else {
        assert s == [s[0]] + s[1..];
      }
    }
  }

  // ---------------------------------------------------------------------------
  // Decimal formatting: `str(n)` and `f"{n:05d}"`.

  function DigitChar(d: nat): char
    requires d < 10
  {
    ('0' as int + d) as char
  }

  function DigitValue(c: char): nat {
    if '0' <= c <= '9' then c as int - '0' as int else 0
  }

  /** `str(n)` for a non-negative integer: its decimal digits, no leading zero. */
  function NatToDecimal(n: nat): (r: string)
    ensures 1 <= |r|
    decreases n
  {
    if n < 10 then [DigitChar(n)] else NatToDecimal(n / 10) + [DigitChar(n % 10)]
  }

  /** `str(i)` for any integer. */
  function IntToDecimal(i: int): string {
    if i < 0 then "-" + NatToDecimal(-i) else NatToDecimal(i)
  }

  /** Left-pads with '0' up to `width` characters, as the format spec `0{width}d` does. */
  function ZeroPad(s: string, width: nat): (r: string)
    ensures |r| == if |s| >= width then |s| else width
    decreases width - |s|
  {
    if |s| >= width then s else ZeroPad("0" + s, width)
  }

  /** The number a string of decimal digits denotes (leading zeros allowed). */
  function DecimalValue(s: string): nat {
    if s == [] then 0 else DecimalValue(s[..|s| - 1]) * 10 + DigitValue(s[|s| - 1])
  }

  lemma {:induction false} DecimalValueOfNat(n: nat)
    ensures DecimalValue(NatToDecimal(n)) == n
    decreases n
  {
    var r := NatToDecimal(n);
    if n >= 10 {
      DecimalValueOfNat(n / 10);
      assert r[..|r| - 1] == NatToDecimal(n / 10);
    }
  }

  lemma {:induction false} DecimalValueLeadingZero(s: string)
    ensures DecimalValue("0" + s) == DecimalValue(s)
    decreases |s|
  {
    if s != [] {
      var z := "0" + s;
      assert z[..|z| - 1] == "0" + s[..|s| - 1];
      DecimalValueLeadingZero(s[..|s| - 1]);
    }
  }

  lemma {:induction false} DecimalValueOfPadded(s: string, width: nat)
    ensures DecimalValue(ZeroPad(s, width)) == DecimalValue(s)
    decreases width - |s|
  {
    if |s| < width {
      DecimalValueLeadingZero(s);
      DecimalValueOfPadded("0" + s, width);
    }
  }

  /** Zero-padded decimal numerals of different numbers are different strings. */
  lemma PaddedDecimalInjective(m: nat, n: nat, width: nat)
    requires ZeroPad(NatToDecimal(m), width) == ZeroPad(NatToDecimal(n), width)
    ensures m == n
  {
    DecimalValueOfPadded(NatToDecimal(m), width);
    DecimalValueOfPadded(NatToDecimal(n), width);
    DecimalValueOfNat(m);
    DecimalValueOfNat(n);
  }

  lemma {:induction false} NatToDecimalDigits(n: nat)
    ensures forall i :: 0 <= i < |NatToDecimal(n)| ==> '0' <= NatToDecimal(n)[i] <= '9'
    decreases n
  {
    if n >= 10 {
      NatToDecimalDigits(n / 10);
    }
  }

  /** `str` on integers is injective. */
  lemma IntToDecimalInjective(i: int, j: int)
    requires IntToDecimal(i) == IntToDecimal(j)
    ensures i == j
  {
    if i < 0 && j < 0 {
      assert NatToDecimal(-i) == IntToDecimal(i)[1..];
      DecimalValueOfNat(-i);
      DecimalValueOfNat(-j);
    } else if i >= 0 && j >= 0 {
      DecimalValueOfNat(i);
      DecimalValueOfNat(j);
    } else if i < 0 {
      SignDiffers(j, i);
    } else {
      SignDiffers(i, j);
    }
  }

  lemma SignDiffers(i: nat, j: int)
    requires j < 0
    ensures IntToDecimal(i) != IntToDecimal(j)
  {
    NatToDecimalDigits(i);
    assert IntToDecimal(j)[0] == '-';
  }

  // ---------------------------------------------------------------------------
  // Python's `<` on str: lexicographic by code point.

  predicate StrLess(a: string, b: string) {
    if a == [] then b != []
    else if b == [] then false
    else a[0] < b[0] || (a[0] == b[0] && StrLess(a[1..], b[1..]))
  }

  lemma {:induction false} StrLessIrreflexive(a: string)
    ensures !StrLess(a, a)
  {
    if a != [] {
      StrLessIrreflexive(a[1..]);
    }
  }

  lemma {:induction false} StrLessAsymmetric(a: string, b: string)
    requires StrLess(a, b)
    ensures !StrLess(b, a)
  {
    if a != [] && b != [] && a[0] == b[0] {
      StrLessAsymmetric(a[1..], b[1..]);
    }
  }

  lemma {:induction false} StrLessTransitive(a: string, b: string, c: string)
    requires StrLess(a, b) && StrLess(b, c)
    ensures StrLess(a, c)
  {
    if a != [] && a[0] == b[0] && b[0] == c[0] {
      StrLessTransitive(a[1..], b[1..], c[1..]);
    }
  }

  lemma {:induction false} StrLessTotal(a: string, b: string)
    ensures a == b || StrLess(a, b) || StrLess(b, a)
  {
    if a != [] && b != [] && a[0] == b[0] {
      StrLessTotal(a[1..], b[1..]);
      if a[1..] == b[1..] {
        assert a == [a[0]] + a[1..] && b == [b[0]] + b[1..];
      }
    }
  }

  /** Chaining `<=` and `<` on strings, with at least one step strict, gives `<`. */
  lemma StrLessChain(a: string, b: string, c: string)
    requires a == b || StrLess(a, b)
    requires b == c || StrLess(b, c)
    requires a != b || b != c
    ensures StrLess(a, c) && a != c
  {
    if StrLess(a, b) && StrLess(b, c) {
      StrLessTransitive(a, b, c);
    }
    StrLessIrreflexive(a);
  }

  /** Chaining `<=` on strings: `!StrLess(b, a)` and `!StrLess(c, b)` give `!StrLess(c, a)`. */
  lemma StrLeChain(a: string, b: string, c: string)
    requires !StrLess(b, a) && !StrLess(c, b)
    ensures !StrLess(c, a)
  {
    StrLessTotal(a, b);
    StrLessTotal(b, c);
    if StrLess(c, a) {
      if StrLess(a, b) {
        StrLessTransitive(c, a, b);
      }
    }
  }
}
