/** The handful of Python `str` operations the health-check script relies on,
    stated over Dafny strings (sequences of Unicode scalar values). */
module PyText {

  /** The characters `str.isspace` accepts; `str.split()` and the regular
      expression class `\S` both use this set. */
  predicate IsSpace(c: char) {
    c == ' ' || ('\t' <= c <= '\r') || ('\U{1c}' <= c <= '\U{1f}') ||
    c == '\U{85}' || c == '\U{a0}' || c == '\U{1680}' ||
    ('\U{2000}' <= c <= '\U{200a}') || c == '\U{2028}' || c == '\U{2029}' ||
    c == '\U{202f}' || c == '\U{205f}' || c == '\U{3000}'
  }

  /** The characters at which `str.splitlines` ends a line (a "\r\n" pair
      counts as one boundary). */
  predicate IsLineBreak(c: char) {
    ('\n' <= c <= '\r') || ('\U{1c}' <= c <= '\U{1e}') ||
    c == '\U{85}' || c == '\U{2028}' || c == '\U{2029}'
  }

  predicate IsDigit(c: char) {
    '0' <= c <= '9'
  }

  predicate AllDigits(s: string) {
    forall k :: 0 <= k < |s| ==> IsDigit(s[k])
  }

  predicate NoSpace(s: string) {
    forall k :: 0 <= k < |s| ==> !IsSpace(s[k])
  }

  predicate AllSpace(s: string) {
    forall k :: 0 <= k < |s| ==> IsSpace(s[k])
  }

  predicate NoLineBreak(s: string) {
    forall k :: 0 <= k < |s| ==> !IsLineBreak(s[k])
  }

  // ---------------------------------------------------------------------------
  // str.split() with no separator

  /** Length of the longest prefix of `s` free of whitespace. */
  function WordLength(s: string): (n: nat)
    ensures n <= |s| && NoSpace(s[..n])
    ensures n < |s| ==> IsSpace(s[n])
  {
    if s == [] || IsSpace(s[0]) then 0
    else
      var n := 1 + WordLength(s[1..]);
      assert s[..n] == [s[0]] + s[1..][..n - 1];
      n
  }

  /** `s.split()`: the maximal runs of non-whitespace characters, in order. */
  function Split(s: string): (words: seq<string>)
    ensures forall i :: 0 <= i < |words| ==> words[i] != [] && NoSpace(words[i])
    decreases |s|
  {
    if s == [] then []
    else if IsSpace(s[0]) then Split(s[1..])
    else
      var n := WordLength(s);
      [s[..n]] + Split(s[n..])
  }

  /** A line splits into no words exactly when it is blank. */
  lemma {:induction false} SplitEmptyIffBlank(s: string)
    ensures Split(s) == [] <==> AllSpace(s)
    decreases |s|
  {
    if s != [] {
      if IsSpace(s[0]) {
        SplitEmptyIffBlank(s[1..]);
        if AllSpace(s[1..]) {
          forall k | 0 <= k < |s| ensures IsSpace(s[k]) {
            if k > 0 { assert s[k] == s[1..][k - 1]; }
          }
        }
      }
    }
  }

  /** A run of non-space characters ended by a space (or the end of the
      text) is the word WordLength measures. */
  lemma {:induction false} WordLengthOf(s: string, n: nat)
    requires n <= |s| && NoSpace(s[..n]) && (n == |s| || IsSpace(s[n]))
    ensures WordLength(s) == n
  {
    if n > 0 {
      assert s[0] == s[..n][0];
      var tail := s[1..][..n - 1];
      assert NoSpace(tail) by {
        forall k | 0 <= k < n - 1 ensures !IsSpace(tail[k]) {
          assert tail[k] == s[..n][k + 1];
        }
      }
      assert n - 1 == |s| - 1 || IsSpace(s[1..][n - 1]);
      WordLengthOf(s[1..], n - 1);
    }
  }

  /** A word followed by a space splits off as the first word. */
  lemma SplitWordThenSpace(w: string, rest: string)
    requires w != [] && NoSpace(w)
    ensures Split(w + " " + rest) == [w] + Split(rest)
  {
    var s := w + " " + rest;
    assert s[..|w|] == w;
    WordLengthOf(s, |w|);
    assert s[|w|..] == " " + rest;
    assert (" " + rest)[1..] == rest;
  }

  /** A single word splits into itself. */
  lemma SplitOneWord(w: string)
    requires w != [] && NoSpace(w)
    ensures Split(w) == [w]
  {
    assert w[..|w|] == w;
    WordLengthOf(w, |w|);
  }

  // ---------------------------------------------------------------------------
  // str.splitlines()

  /** Index of the first line-break character of `s`, or `|s|` when none. */
  function LineEnd(s: string): (k: nat)
    ensures k <= |s| && NoLineBreak(s[..k])
    ensures k < |s| ==> IsLineBreak(s[k])
  {
    if s == [] || IsLineBreak(s[0]) then 0
    else
      var k := 1 + LineEnd(s[1..]);
      assert s[..k] == [s[0]] + s[1..][..k - 1];
      k
  }

  /** Where the next line starts once the line ending at `k` is cut off: a
      "\r\n" pair is one boundary, every other break is one character. */
  function NextLineStart(s: string, k: nat): (j: nat)
    requires k <= |s|
    ensures k <= j <= |s| && (k < |s| ==> k < j)
  {
    if k == |s| then k
    else if s[k] == '\r' && k + 1 < |s| && s[k + 1] == '\n' then k + 2
    else k + 1
  }

  /** `s.splitlines()`: the lines of `s` without their terminators; a final
      terminator does not open an empty last line. */
  function SplitLines(s: string): (lines: seq<string>)
    ensures forall i :: 0 <= i < |lines| ==> NoLineBreak(lines[i])
    ensures |lines| <= |s|
    decreases |s|
  {
    if s == [] then []
    else
      var k := LineEnd(s);
      [s[..k]] + SplitLines(s[NextLineStart(s, k)..])
  }

  lemma {:induction false} LineEndOfUnbrokenText(s: string)
    requires NoLineBreak(s)
    ensures LineEnd(s) == |s|
  {
    if s != [] {
      assert !IsLineBreak(s[0]);
      assert NoLineBreak(s[1..]) by {
        forall k | 0 <= k < |s| - 1 ensures !IsLineBreak(s[1..][k]) {
          assert s[1..][k] == s[k + 1];
        }
      }
      LineEndOfUnbrokenText(s[1..]);
    }
  }

  /** Text without any line break is one line (or none, when empty). */
  lemma SplitLinesSingleLine(s: string)
    requires NoLineBreak(s)
    ensures SplitLines(s) == if s == [] then [] else [s]
  {
    if s != [] {
      var k := LineEnd(s);
      LineEndOfUnbrokenText(s);
      assert s[..k] == s;
      assert s[NextLineStart(s, k)..] == [];
    }
  }

  /** `lines[1:]`, which is empty for an empty list. */
  function Rest(lines: seq<string>): (r: seq<string>)
    ensures |r| == if lines == [] then 0 else |lines| - 1
    ensures forall i :: 0 <= i < |r| ==> r[i] == lines[i + 1]
  {
    if lines == [] then [] else lines[1..]
  }

  // ---------------------------------------------------------------------------
  // Substring test `pat in s`, str.endswith and str.strip(c)

  /** Slicing a slice is slicing the original at shifted offsets. */
  lemma SliceOfSlice(s: string, lo: nat, hi: nat, i: nat, j: nat)
    requires lo <= hi <= |s| && i <= j <= hi - lo
    ensures s[lo..hi][i..j] == s[lo + i..lo + j]
  {
    var a, b := s[lo..hi][i..j], s[lo + i..lo + j];
    assert |a| == |b|;
    forall k | 0 <= k < |a| ensures a[k] == b[k] {}
  }

  /** `pat` sits in `s` at offset `i`. */
  predicate OccursAt(s: string, pat: string, i: nat) {
    i + |pat| <= |s| && s[i..i + |pat|] == pat
  }

  /** `pat` sits at `i` when it matches there character by character. */
  lemma OccursAtByChars(s: string, pat: string, i: nat)
    requires i + |pat| <= |s| && forall k :: 0 <= k < |pat| ==> s[i + k] == pat[k]
    ensures OccursAt(s, pat, i)
  {
    assert s[i..i + |pat|] == pat;
  }

  /** `pat in s`: `pat` occurs in `s` starting at some offset. */
  predicate Contains(s: string, pat: string)
    decreases |s|
  {
    pat <= s || (s != [] && Contains(s[1..], pat))
  }

  /** The recursive test agrees with "there is an offset where `pat` sits". */
  lemma {:induction false} ContainsIffOccurs(s: string, pat: string)
    ensures Contains(s, pat) <==> exists i: nat :: OccursAt(s, pat, i)
    decreases |s|
  {
    if s != [] {
      if pat <= s {
        assert OccursAt(s, pat, 0);
      }
      ContainsIffOccurs(s[1..], pat);
      if Contains(s[1..], pat) {
        var i: nat :| OccursAt(s[1..], pat, i);
        SliceOfSlice(s, 1, |s|, i, i + |pat|);
        assert OccursAt(s, pat, i + 1);
      }
      if i: nat :| OccursAt(s, pat, i) {
        if i == 0 {
          assert pat <= s;
        } else {
          SliceOfSlice(s, 1, |s|, i - 1, i - 1 + |pat|);
          assert OccursAt(s[1..], pat, i - 1);
        }
      }
    } else {
      if pat == [] {
        assert OccursAt(s, pat, 0);
      }
    }
  }

  /** A text contains whatever occurs inside any slice of it. */
  lemma ContainsInSlice(s: string, lo: nat, hi: nat, pat: string)
    requires lo <= hi <= |s| && Contains(s[lo..hi], pat)
    ensures Contains(s, pat)
  {
    ContainsIffOccurs(s[lo..hi], pat);
    var i: nat :| OccursAt(s[lo..hi], pat, i);
    SliceOfSlice(s, lo, hi, i, i + |pat|);
    assert OccursAt(s, pat, lo + i);
    ContainsIffOccurs(s, pat);
  }

  /** `s.endswith(suffix)`. */
  predicate EndsWith(s: string, suffix: string) {
    |suffix| <= |s| && s[|s| - |suffix|..] == suffix
  }

  /** `s.lstrip(c)` for a single character `c`. */
  function StripLeft(s: string, c: char): (r: string)
    ensures |r| <= |s| && r == s[|s| - |r|..]
    ensures r == [] || r[0] != c
    ensures forall k :: 0 <= k < |s| - |r| ==> s[k] == c
  {
    if s != [] && s[0] == c then StripLeft(s[1..], c) else s
  }

  /** `s.rstrip(c)` for a single character `c`. */
  function StripRight(s: string, c: char): (r: string)
    ensures |r| <= |s| && r == s[..|r|]
    ensures r == [] || r[|r| - 1] != c
    ensures forall k :: |r| <= k < |s| ==> s[k] == c
  {
    if s != [] && s[|s| - 1] == c then StripRight(s[..|s| - 1], c) else s
  }

  /** `r` is `s` with the first `lo` characters and everything after
      `lo + |r|` removed, and every removed character is a `c`. */
  predicate TrimmedOf(s: string, r: string, c: char, lo: nat) {
    lo + |r| <= |s| && r == s[lo..lo + |r|] &&
    (forall k :: 0 <= k < lo ==> s[k] == c) &&
    (forall k :: lo + |r| <= k < |s| ==> s[k] == c)
  }

  /** Stripping from the left and then from the right trims `s`. */
  lemma StripBothEnds(s: string, c: char)
    ensures TrimmedOf(s, StripRight(StripLeft(s, c), c), c, |s| - |StripLeft(s, c)|)
  {
    var left := StripLeft(s, c);
    TrimFromParts(s, left, StripRight(left, c), c, |s| - |left|);
  }

  /** A left cut of `c`s followed by a right cut of `c`s is a trim. */
  lemma TrimFromParts(s: string, left: string, r: string, c: char, lo: nat)
    requires lo <= |s| && left == s[lo..] && |r| <= |left| && r == left[..|r|]
    requires forall k :: 0 <= k < lo ==> s[k] == c
    requires forall k :: |r| <= k < |left| ==> left[k] == c
    ensures TrimmedOf(s, r, c, lo)
  {
    forall k | lo + |r| <= k < |s| ensures s[k] == c {
      assert s[k] == left[k - lo];
    }
  }

  /** `s.strip(c)`: the slice of `s` left once every leading and trailing
      `c` is removed. */
  function Strip(s: string, c: char): (r: string)
    ensures exists lo: nat :: TrimmedOf(s, r, c, lo)
    ensures r == [] || (r[0] != c && r[|r| - 1] != c)
  {
    StripBothEnds(s, c);
    StripRight(StripLeft(s, c), c)
  }

  /** Stripping `c` from text that has one `c` appended, and neither
      begins nor ends with `c` itself, gives back the text. */
  lemma StripAppended(n: string, c: char)
    requires n == [] || (n[0] != c && n[|n| - 1] != c)
    ensures Strip(n + [c], c) == n
  {
    var s := n + [c];
    var r := Strip(s, c);
    var lo: nat :| TrimmedOf(s, r, c, lo);
    // the first and last characters of `n` are not `c`, so neither is cut
    assert n != [] ==> s[0] == n[0] && s[|n| - 1] == n[|n| - 1];
    if r != [] {
      assert r[0] == s[lo] && r[|r| - 1] == s[lo + |r| - 1];
      assert r == s[..|n|];
    }
  }

  // ---------------------------------------------------------------------------
  // str(n) for a natural number n

  /** The decimal digit for `d`. */
  function DigitChar(d: nat): (c: char)
    requires d < 10
    ensures IsDigit(c) && c as int - '0' as int == d
  {
    (d + '0' as int) as char
  }

  /** `str(n)`: the decimal numeral of `n`, without leading zeros. */
  function NatToDecimal(n: nat): (s: string)
    ensures s != [] && AllDigits(s)
    ensures s[0] == '0' ==> n == 0
  {
    if n < 10 then [DigitChar(n)] else NatToDecimal(n / 10) + [DigitChar(n % 10)]
  }

  /** The number a string of decimal digits denotes. */
  function DecimalValue(s: string): (n: nat)
    requires AllDigits(s)
  {
    if s == [] then 0
    else DecimalValue(s[..|s| - 1]) * 10 + (s[|s| - 1] as int - '0' as int)
  }

  /** Reading back a numeral gives the number it was written from. */
  lemma {:induction false} DecimalRoundTrip(n: nat)
    ensures DecimalValue(NatToDecimal(n)) == n
  {
    if n >= 10 {
      var s := NatToDecimal(n);
      assert s[..|s| - 1] == NatToDecimal(n / 10);
      DecimalRoundTrip(n / 10);
    }
  }
}
