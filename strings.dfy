/**
 * The Python string operations the heuristics are built from, with their
 * Python semantics written out: `str.find`, `str.split(sep)`, `sep.join`,
 * `str.split()`, `str.strip()`, `str.lower()`, `str.endswith`, slicing with
 * negative indices, counting matches of a literal pattern the way
 * `re.finditer` does, and `str.replace('\n', '<br>\n')`.
 * Whitespace is what `str.isspace` accepts among the ASCII characters,
 * the four information separators included; case folding is the ASCII one.
 */
module Strings {

  /**
   * The ASCII characters `str.isspace` accepts: space, tab, line feed,
   * carriage return, vertical tab, form feed, and the file, group, record
   * and unit separators U+001C to U+001F.
   */
  predicate IsSpace(c: char) {
    || c == ' ' || c == '\t' || c == '\n' || c == '\r' || c == '\U{B}' || c == '\U{C}'
    || ('\U{1C}' <= c <= '\U{1F}')
  }

  /** `p` occurs in `s` starting at index `j`. */
  predicate MatchAt(s: string, p: string, j: nat) {
    j + |p| <= |s| && s[j..j + |p|] == p
  }

  /** `s.find(p, i)`: the lowest index at or after `i` where `p` occurs, or -1. */
  function FindFrom(s: string, p: string, i: nat): (k: int)
    ensures k == -1 || (i <= k && MatchAt(s, p, k))
    ensures forall j: nat :: i <= j && (k == -1 || j < k) ==> !MatchAt(s, p, j)
    decreases |s| - i
  {
    if i + |p| > |s| then -1
    else if s[i..i + |p|] == p then i
    else FindFrom(s, p, i + 1)
  }

  /** `s.find(p)`. */
  function Find(s: string, p: string): (k: int)
    ensures k >= -1 && (k >= 0 ==> MatchAt(s, p, k))
    ensures forall j: nat :: (k == -1 || j < k) ==> !MatchAt(s, p, j)
  {
    FindFrom(s, p, 0)
  }

  /** `s.split(sep)` for a non-empty separator: cut at the leftmost occurrence, repeatedly. */
  function Split(s: string, sep: string): (parts: seq<string>)
    requires |sep| > 0
    ensures |parts| >= 1
    decreases |s|
  {
    var k := Find(s, sep);
    if k < 0 then [s] else [s[..k]] + Split(s[k + |sep|..], sep)
  }

  /** No piece of a split contains the separator. */
  lemma {:induction false} SplitPiecesLackSeparator(s: string, sep: string)
    requires |sep| > 0
    ensures forall i: nat, j: nat :: i < |Split(s, sep)| ==> !MatchAt(Split(s, sep)[i], sep, j)
    decreases |s|
  {
    var k := Find(s, sep);
    if k >= 0 {
      assert forall j: nat :: MatchAt(s[..k], sep, j) ==> MatchAt(s, sep, j);
      SplitPiecesLackSeparator(s[k + |sep|..], sep);
    }
  }

  /** What occurs in an occurrence of `t` in `s` occurs in `s`. */
  lemma OccursWithin(s: string, t: string, u: string, i: nat, j: nat)
    requires i + |t| <= |s| && s[i..i + |t|] == t
    requires j + |u| <= |t| && t[j..j + |u|] == u
    ensures MatchAt(s, u, i + j)
  {
    forall m | 0 <= m < |u|
      ensures s[i + j + m] == u[m]
    {
      assert u[m] == t[j + m] == s[i + j + m];
    }
  }

  /** `sep.join(parts)`. */
  function Join(sep: string, parts: seq<string>): string
  {
    if |parts| == 0 then ""
    else if |parts| == 1 then parts[0]
    else parts[0] + sep + Join(sep, parts[1..])
  }

  /** Joining the pieces of a split with the same separator gives the text back. */
  lemma {:induction false} SplitJoin(s: string, sep: string)
    requires |sep| > 0
    ensures Join(sep, Split(s, sep)) == s
    decreases |s|
  {
    var k := Find(s, sep);
    if k >= 0 {
      var rest := s[k + |sep|..];
      var tail := Split(rest, sep);
      SplitJoin(rest, sep);
      var parts := [s[..k]] + tail;
      assert Split(s, sep) == parts;
      assert parts[1..] == tail;
      assert Join(sep, parts) == s[..k] + sep + rest;
      assert s[k..k + |sep|] == sep;
      assert s == s[..k] + s[k..k + |sep|] + rest;
    }
  }

  /** A join splits at any inner boundary between its parts. */
  lemma {:induction false} JoinAt(sep: string, parts: seq<string>, k: nat)
    requires 0 < k < |parts|
    ensures Join(sep, parts) == Join(sep, parts[..k]) + sep + Join(sep, parts[k..])
    decreases k
  {
    if k > 1 {
      JoinAt(sep, parts[1..], k - 1);
      assert parts[1..][..k - 1] == parts[1..k];
      assert parts[1..][k - 1..] == parts[k..];
      assert parts[..k][1..] == parts[1..k];
    }
  }

  /** Every part of a join is at most as long as the whole join. */
  lemma {:induction false} JoinLength(sep: string, parts: seq<string>, i: nat)
    requires i < |parts|
    ensures |parts[i]| <= |Join(sep, parts)|
    decreases i
  {
    if i > 0 {
      JoinLength(sep, parts[1..], i - 1);
    }
  }

  /** A join starts with its first part. */
  lemma JoinHead(sep: string, parts: seq<string>)
    requires |parts| > 0
    ensures |parts[0]| <= |Join(sep, parts)| && Join(sep, parts)[..|parts[0]|] == parts[0]
  {
    if |parts| > 1 {
      assert Join(sep, parts) == parts[0] + (sep + Join(sep, parts[1..]));
    }
  }

  /** Every piece of a split is a piece of the text: it occurs at offset `off`. */
  lemma SplitPieceOccurs(s: string, sep: string, i: nat) returns (off: nat)
    requires |sep| > 0 && i < |Split(s, sep)|
    ensures off + |Split(s, sep)[i]| <= |s| && s[off..off + |Split(s, sep)[i]|] == Split(s, sep)[i]
  {
    var parts := Split(s, sep);
    var piece := parts[i];
    SplitJoin(s, sep);
    var tail := Join(sep, parts[i..]);
    JoinHead(sep, parts[i..]);
    if i == 0 {
      off := 0;
      assert parts[i..] == parts;
    } else {
      JoinAt(sep, parts, i);
      var head := Join(sep, parts[..i]) + sep;
      off := |head|;
      OccursAfter(s, head, tail, piece);
    }
  }

  /** A prefix of the second half of `head + tail` occurs right after `head`. */
  lemma OccursAfter(s: string, head: string, tail: string, piece: string)
    requires s == head + tail && |piece| <= |tail| && tail[..|piece|] == piece
    ensures s[|head|..|head| + |piece|] == piece
  {
    assert s[|head|..|head| + |piece|] == tail[..|piece|];
  }

  /** A whitespace-free, non-empty token. */
  predicate IsWord(w: string) {
    |w| > 0 && forall i :: 0 <= i < |w| ==> !IsSpace(w[i])
  }

  /** The end of the token that starts at index 0 of `s`, searching from `i`. */
  function WordEnd(s: string, i: nat): (n: nat)
    requires 0 < i <= |s|
    ensures i <= n <= |s|
    ensures forall k :: i <= k < n ==> !IsSpace(s[k])
    ensures n < |s| ==> IsSpace(s[n])
    decreases |s| - i
  {
    if i == |s| || IsSpace(s[i]) then i else WordEnd(s, i + 1)
  }

  /** `s.split()`: the maximal runs of non-whitespace characters, in order. */
  function Words(s: string): (ws: seq<string>)
    ensures forall i :: 0 <= i < |ws| ==> IsWord(ws[i])
    decreases |s|
  {
    if s == [] then []
    else if IsSpace(s[0]) then Words(s[1..])
    else
      var n := WordEnd(s, 1);
      [s[..n]] + Words(s[n..])
  }

  /** `s.lstrip()`. */
  function StripStart(s: string): string
  {
    if s != [] && IsSpace(s[0]) then StripStart(s[1..]) else s
  }

  /** `s.rstrip()`. */
  function StripEnd(s: string): string
  {
    if s != [] && IsSpace(s[|s| - 1]) then StripEnd(s[..|s| - 1]) else s
  }

  /** `s.strip()`. */
  function Strip(s: string): string
  {
    StripEnd(StripStart(s))
  }

  /** `lstrip` keeps a suffix that does not start with whitespace, and removes only whitespace. */
  lemma {:induction false} StripStartTrims(s: string)
    ensures |StripStart(s)| <= |s| && StripStart(s) == s[|s| - |StripStart(s)|..]
    ensures StripStart(s) == [] || !IsSpace(StripStart(s)[0])
    ensures forall i :: 0 <= i < |s| - |StripStart(s)| ==> IsSpace(s[i])
    decreases |s|
  {
    if s != [] && IsSpace(s[0]) {
      StripStartTrims(s[1..]);
    }
  }

  /** `rstrip` keeps a prefix that does not end with whitespace, and removes only whitespace. */
  lemma {:induction false} StripEndTrims(s: string)
    ensures |StripEnd(s)| <= |s| && StripEnd(s) == s[..|StripEnd(s)|]
    ensures StripEnd(s) == [] || !IsSpace(StripEnd(s)[|StripEnd(s)| - 1])
    ensures forall i :: |StripEnd(s)| <= i < |s| ==> IsSpace(s[i])
    decreases |s|
  {
    if s != [] && IsSpace(s[|s| - 1]) {
      StripEndTrims(s[..|s| - 1]);
    }
  }

  /**
   * `strip` keeps the slice of `s` that starts at `off`: it neither starts
   * nor ends with whitespace, and everything cut off around it is whitespace.
   */
  lemma StripTrims(s: string) returns (off: nat)
    ensures off + |Strip(s)| <= |s| && Strip(s) == s[off..off + |Strip(s)|]
    ensures Strip(s) == [] || (!IsSpace(Strip(s)[0]) && !IsSpace(Strip(s)[|Strip(s)| - 1]))
    ensures forall i :: 0 <= i < |s| && (i < off || off + |Strip(s)| <= i) ==> IsSpace(s[i])
  {
    var t := StripStart(s);
    var r := Strip(s);
    StripStartTrims(s);
    StripEndTrims(t);
    off := |s| - |t|;
    assert forall i :: off + |r| <= i < |s| ==> s[i] == t[i - off];
  }

  /** ASCII `str.lower` on one character. */
  function LowerChar(c: char): char
  {
    if 'A' <= c <= 'Z' then (c as int + 32) as char else c
  }

  /** ASCII `str.lower`. */
  function Lower(s: string): (r: string)
    ensures |r| == |s|
  {
    if s == [] then [] else [LowerChar(s[0])] + Lower(s[1..])
  }

  /** `str.lower` works character by character. */
  lemma {:induction false} LowerAt(s: string)
    ensures forall i :: 0 <= i < |s| ==> Lower(s)[i] == LowerChar(s[i])
    decreases |s|
  {
    if s != [] {
      LowerAt(s[1..]);
    }
  }

  /** A text without the separator splits into itself alone. */
  lemma SplitWithoutSeparator(s: string, sep: string)
    requires |sep| > 0 && forall i :: 0 <= i < |s| ==> s[i] != sep[0]
    ensures Split(s, sep) == [s]
  {
  }

  /** `s.endswith(suffix)`. */
  predicate EndsWith(s: string, suffix: string) {
    |suffix| <= |s| && s[|s| - |suffix|..] == suffix
  }

  /** Python's reading of a slice bound `k` on a string of length `n`: negative counts from the end, clamped. */
  function SliceIndex(n: nat, k: int): (r: nat)
    ensures r <= n
    ensures 0 <= k <= n ==> r == k
    ensures k < 0 && n + k >= 0 ==> r == n + k
  {
    if k < 0 then (if n + k < 0 then 0 else n + k)
    else if k > n then n
    else k
  }

  /** `s[:k]`. */
  function Prefix(s: string, k: int): string
  {
    s[..SliceIndex(|s|, k)]
  }

  /** `s[k:]`. */
  function Suffix(s: string, k: int): string
  {
    s[SliceIndex(|s|, k)..]
  }

  /**
   * The number of matches `re.finditer(p, s)` yields for a literal pattern:
   * scan left to right, and after a match resume just past it.
   */
  function CountMatches(s: string, p: string): nat
    requires |p| > 0
    decreases |s|
  {
    if |s| < |p| then 0
    else if s[..|p|] == p then 1 + CountMatches(s[|p|..], p)
    else CountMatches(s[1..], p)
  }

  /** Positions without a match can be skipped when counting. */
  lemma {:induction false} CountMatchesSkip(s: string, p: string, k: nat)
    requires |p| > 0 && k <= |s|
    requires forall j: nat :: j < k ==> !MatchAt(s, p, j)
    ensures CountMatches(s, p) == CountMatches(s[k..], p)
    decreases k
  {
    if k > 0 {
      assert !MatchAt(s, p, 0);
      if |s| >= |p| {
        assert s[..|p|] != p;
        forall j: nat | j < k - 1 ensures !MatchAt(s[1..], p, j) {
          assert !MatchAt(s, p, j + 1);
          if j + |p| <= |s| - 1 {
            assert s[1..][j..j + |p|] == s[j + 1..j + 1 + |p|];
          }
        }
        CountMatchesSkip(s[1..], p, k - 1);
        assert s[1..][k - 1..] == s[k..];
      }
    }
  }

  /**
   * The matches counted by the scan are exactly the cuts `str.split` makes:
   * a text with `n` matches splits into `n + 1` pieces.
   */
  lemma {:induction false} CountMatchesSplit(s: string, p: string)
    requires |p| > 0
    ensures CountMatches(s, p) == |Split(s, p)| - 1
    decreases |s|
  {
    var k := Find(s, p);
    if k < 0 {
      CountMatchesSkip(s, p, |s|);
      assert s[|s|..] == [];
    } else {
      CountMatchesSkip(s, p, k);
      var rest := s[k + |p|..];
      assert s[k..][..|p|] == p;
      assert s[k..][|p|..] == rest;
      CountMatchesSplit(rest, p);
    }
  }

  /** `s.replace('\n', '<br>\n')`. */
  function BreakLines(s: string): string
  {
    if s == [] then []
    else (if s[0] == '\n' then "<br>\n" else [s[0]]) + BreakLines(s[1..])
  }

  /** Replacing newlines works piece by piece. */
  lemma {:induction false} BreakLinesAppend(a: string, b: string)
    ensures BreakLines(a + b) == BreakLines(a) + BreakLines(b)
    decreases |a|
  {
    if a != [] {
      assert (a + b)[1..] == a[1..] + b;
      BreakLinesAppend(a[1..], b);
    } else {
      assert a + b == b;
    }
  }

  /** A text without newlines is left as it is. */
  lemma {:induction false} BreakLinesWithoutNewline(s: string)
    requires forall i :: 0 <= i < |s| ==> s[i] != '\n'
    ensures BreakLines(s) == s
    decreases |s|
  {
    if s != [] {
      BreakLinesWithoutNewline(s[1..]);
    }
  }
}
