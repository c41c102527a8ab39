/** String primitives of Python that the pipeline relies on, written out over
    `seq<char>`: substring search (`t in s`), `s.split(sep)[-1]`, `s.strip()`,
    slicing with Python's clamping rules, and ASCII `str.islower`. */
module Text {

  datatype Option<T> = None | Some(value: T)

  function Min(a: int, b: int): int { if a <= b then a else b }
  function Max(a: int, b: int): int { if a >= b then a else b }

  /** `c.islower()` for a one-character string, restricted to ASCII. */
  predicate IsLower(c: char) { 'a' <= c <= 'z' }

  /** `c.isspace()`, restricted to the ASCII characters Python counts as whitespace. */
  predicate IsSpace(c: char)
  {
    // the space, tab, line feed, vertical tab, form feed, carriage return,
    // and the four information separators
    c == ' ' || '\t' <= c <= '\r' || '\U{1C}' <= c <= '\U{1F}'
  }

  /** `t` occurs in `s` starting at position `i`. */
  predicate OccursAt(s: string, t: string, i: int)
  {
    0 <= i && i + |t| <= |s| && s[i..i + |t|] == t
  }

  /** Python's `t in s` for strings (the empty string occurs everywhere). */
  predicate Contains(s: string, t: string)
  {
    exists i | 0 <= i <= |s| :: OccursAt(s, t, i)
  }

  predicate StartsWith(s: string, p: string) { |p| <= |s| && s[..|p|] == p }
  predicate EndsWith(s: string, p: string) { |p| <= |s| && s[|s| - |p|..] == p }

  /** The scan of `s.split(sep)`: from position `j` on, with the current
      piece starting at `start`, find where the last piece starts. Python
      splits left to right at non-overlapping occurrences, so after an
      occurrence the scan resumes past it. */
  function PieceStart(s: string, sep: string, j: nat, start: nat): (c: nat)
    requires |sep| > 0 && start <= j <= |s|
    ensures start <= c <= |s|
    decreases |s| - j
  {
    if j + |sep| > |s| then start
    else if s[j..j + |sep|] == sep then PieceStart(s, sep, j + |sep|, j + |sep|)
    else PieceStart(s, sep, j + 1, start)
  }

  /** `s.split(sep)[-1]`: what follows the last occurrence of `sep` the
      left-to-right scan finds, all of `s` when there is none. */
  function LastPiece(s: string, sep: string): (r: string)
    requires |sep| > 0
    ensures |r| <= |s| && r == s[|s| - |r|..]
  {
    s[PieceStart(s, sep, 0, 0)..]
  }

  /** The scan never passes an occurrence: nothing occurs at or after the
      start of the last piece. */
  lemma {:induction false} PieceStartClear(s: string, sep: string, j: nat, start: nat)
    requires |sep| > 0 && start <= j <= |s|
    requires forall k :: start <= k < j ==> !OccursAt(s, sep, k)
    ensures forall k :: PieceStart(s, sep, j, start) <= k ==> !OccursAt(s, sep, k)
    decreases |s| - j
  {
    if j + |sep| > |s| {
    } else if s[j..j + |sep|] == sep {
      PieceStartClear(s, sep, j + |sep|, j + |sep|);
    } else {
      PieceStartClear(s, sep, j + 1, start);
    }
  }

  /** A piece other than the first starts right after an occurrence. */
  lemma {:induction false} PieceStartFollows(s: string, sep: string, j: nat, start: nat)
    requires |sep| > 0 && start <= j <= |s|
    requires start > 0 ==> start >= |sep| && OccursAt(s, sep, start - |sep|)
    ensures var c := PieceStart(s, sep, j, start);
      c > 0 ==> c >= |sep| && OccursAt(s, sep, c - |sep|)
    decreases |s| - j
  {
    if j + |sep| > |s| {
    } else if s[j..j + |sep|] == sep {
      PieceStartFollows(s, sep, j + |sep|, j + |sep|);
    } else {
      PieceStartFollows(s, sep, j + 1, start);
    }
  }

  /** The last piece does not contain `sep`, and unless `sep` is absent
      (then the piece is all of `s`) it follows an occurrence of `sep`. */
  lemma LastPieceSpec(s: string, sep: string)
    requires |sep| > 0
    ensures !Contains(LastPiece(s, sep), sep)
    ensures Contains(s, sep) ==> OccursAt(s, sep, |s| - |LastPiece(s, sep)| - |sep|)
    ensures !Contains(s, sep) ==> LastPiece(s, sep) == s
  {
    PieceStartClear(s, sep, 0, 0);
    PieceStartFollows(s, sep, 0, 0);
    var c := PieceStart(s, sep, 0, 0);
    forall m | 0 <= m <= |s| - c
      ensures !OccursAt(s[c..], sep, m)
    {
      NotInSuffix(s, sep, c, m);
    }
  }

  /** What does not occur in `s` at `d + k` does not occur in `s[d..]` at `k`. */
  lemma NotInSuffix(s: string, t: string, d: nat, k: int)
    requires d <= |s| && !OccursAt(s, t, d + k)
    ensures !OccursAt(s[d..], t, k)
  {
    if 0 <= k && k + |t| <= |s| - d {
      assert s[d + k..d + k + |t|] == s[d..][k..k + |t|];
    }
  }

  /** `s.lstrip()`: drops the leading whitespace and nothing else. */
  function TrimStart(s: string): (r: string)
    ensures |r| <= |s| && r == s[|s| - |r|..]
    ensures r == [] || !IsSpace(r[0])
    ensures forall k :: 0 <= k < |s| - |r| ==> IsSpace(s[k])
  {
    if s != [] && IsSpace(s[0]) then
      var r := TrimStart(s[1..]);
      assert forall k :: 1 <= k < |s| ==> s[k] == s[1..][k - 1];
      r
    else s
  }

  /** `s.rstrip()`: drops the trailing whitespace and nothing else. */
  function TrimEnd(s: string): (r: string)
    ensures |r| <= |s| && r == s[..|r|]
    ensures r == [] || !IsSpace(r[|r| - 1])
    ensures forall k :: |r| <= k < |s| ==> IsSpace(s[k])
  {
    if s != [] && IsSpace(s[|s| - 1]) then
      var r := TrimEnd(s[..|s| - 1]);
      assert forall k :: 0 <= k < |s| - 1 ==> s[k] == s[..|s| - 1][k];
      r
    else s
  }

  /** `s.strip()`. */
  function Strip(s: string): string
  {
    TrimEnd(TrimStart(s))
  }

  /** What `s.strip()` keeps: a contiguous piece of `s`, everything cut off
      before it being whitespace. */
  lemma StripKeepsCore(s: string)
    ensures var r, lo := Strip(s), |s| - |TrimStart(s)|;
      lo + |r| <= |s| && r == s[lo..lo + |r|]
    ensures var lo := |s| - |TrimStart(s)|;
      forall k :: 0 <= k < lo ==> IsSpace(s[k])
  {
    var t := TrimStart(s);
    var lo := |s| - |t|;
    var r := TrimEnd(t);
    PrefixOfSuffix(s, lo, |r|);
    assert r == t[..|r|];
    assert t[..|r|] == s[lo..][..|r|];
  }

  lemma PrefixOfSuffix(s: string, lo: nat, n: nat)
    requires lo + n <= |s|
    ensures s[lo..][..n] == s[lo..lo + n]
  {
  }

  /** Everything `s.strip()` cuts off after the piece it keeps is whitespace. */
  lemma StripDropsTrailingSpace(s: string)
    ensures var r, lo := Strip(s), |s| - |TrimStart(s)|;
      forall k :: lo + |r| <= k < |s| ==> IsSpace(s[k])
  {
    var t := TrimStart(s);
    SpaceTail(s, |s| - |t|, |TrimEnd(t)|);
  }

  /** Whitespace at the end of the suffix `s[lo..]` is whitespace at the end of `s`. */
  lemma SpaceTail(s: string, lo: nat, n: nat)
    requires lo + n <= |s|
    requires forall k :: n <= k < |s| - lo ==> IsSpace(s[lo..][k])
    ensures forall k :: lo + n <= k < |s| ==> IsSpace(s[k])
  {
    forall k | lo + n <= k < |s|
      ensures IsSpace(s[k])
    {
      assert s[k] == s[lo..][k - lo];
    }
  }

  /** `s.strip()` has no whitespace at either end. */
  lemma StripTrimmed(s: string)
    ensures var r := Strip(s); r == [] || (!IsSpace(r[0]) && !IsSpace(r[|r| - 1]))
  {
    var t := TrimStart(s);
    var r := TrimEnd(t);
    if r != [] {
      assert r[0] == t[0];
    }
  }

  /** Python's reading of a slice bound `i` against a string of length `n`:
      a negative bound counts from the end, and the result is clamped to `0..n`. */
  function ClampIndex(i: int, n: nat): (r: nat)
    ensures r <= n
  {
    if i < 0 then (if i + n < 0 then 0 else i + n)
    else if i > n then n
    else i
  }

  /** `s[start:stop]` with Python's slicing rules (never fails). */
  function PySlice(s: string, start: int, stop: int): string
  {
    var lo, hi := ClampIndex(start, |s|), ClampIndex(stop, |s|);
    if lo < hi then s[lo..hi] else []
  }

  /** `s[:n]` is the prefix of `s` of length `min(len(s), n)`. */
  lemma PrefixSlice(s: string, n: nat)
    ensures |PySlice(s, 0, n)| == Min(|s|, n)
    ensures PySlice(s, 0, n) == s[..Min(|s|, n)]
  {
  }

  /** `s[1:-1]` drops the first and the last character, and is empty when
      `s` has fewer than three characters. */
  lemma InnerSlice(s: string)
    ensures |PySlice(s, 1, -1)| == Max(0, |s| - 2)
    ensures |s| >= 2 ==> PySlice(s, 1, -1) == s[1..|s| - 1]
  {
  }
}
