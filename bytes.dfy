/**
 * Byte strings with the semantics of Python's `bytes` operations that the
 * multipart extractor relies on: `pat in s`, `s.find(pat)`, `s.split(sep)`,
 * `s.strip()` and `s.endswith(suffix)`.
 */
module Bytes {

  newtype byte = b: int | 0 <= b < 256

  /** The byte string a Python `b'...'` literal of ASCII text denotes. */
  function Ascii(s: string): seq<byte> {
    seq(|s|, i requires 0 <= i < |s| => (s[i] as int % 256) as byte)
  }

  /** `pat` occurs in `s` starting at index `i`. */
  predicate OccursAt(s: seq<byte>, pat: seq<byte>, i: int) {
    0 <= i && i + |pat| <= |s| && s[i..i + |pat|] == pat
  }

  /** Occurrences in `s` past its first byte are occurrences in `s[1..]`, one index lower. */
  lemma OccursAtShift(s: seq<byte>, pat: seq<byte>)
    requires s != []
    ensures forall j :: 1 <= j ==> (OccursAt(s, pat, j) <==> OccursAt(s[1..], pat, j - 1))
  {
    forall j | 1 <= j
      ensures OccursAt(s, pat, j) <==> OccursAt(s[1..], pat, j - 1)
    {
      if j + |pat| <= |s| {
        assert s[1..][j - 1..j - 1 + |pat|] == s[j..j + |pat|];
      }
    }
  }

  /** An occurrence inside a prefix `s[..n]` is an occurrence in `s`. */
  lemma OccursInPrefix(s: seq<byte>, pat: seq<byte>, n: nat, i: int)
    requires n <= |s| && OccursAt(s[..n], pat, i)
    ensures OccursAt(s, pat, i)
  {
    assert s[..n][i..i + |pat|] == s[i..i + |pat|];
  }

  /** Python's `s.find(pat)`: the lowest index at which `pat` occurs, or -1. */
  function Find(s: seq<byte>, pat: seq<byte>): (r: int)
    ensures -1 <= r <= |s|
    ensures r >= 0 ==> OccursAt(s, pat, r)
    ensures r >= 0 ==> forall j :: 0 <= j < r ==> !OccursAt(s, pat, j)
    ensures r == -1 ==> forall j :: !OccursAt(s, pat, j)
    decreases |s|
  {
    if |s| < |pat| then -1
    else if s[..|pat|] == pat then 0
    else
      var k := Find(s[1..], pat);
      OccursAtShift(s, pat);
      if k == -1 then -1 else k + 1
  }

  /** Python's `pat in s`. */
  function Contains(s: seq<byte>, pat: seq<byte>): (b: bool)
    ensures b <==> exists i :: OccursAt(s, pat, i)
  {
    Find(s, pat) >= 0
  }

  /** Python's `s.endswith(suffix)`. */
  predicate EndsWith(s: seq<byte>, suffix: seq<byte>)
    ensures EndsWith(s, suffix) <==> |suffix| <= |s| && s == s[..|s| - |suffix|] + suffix
  {
    |suffix| <= |s| && s[|s| - |suffix|..] == suffix
  }

  /**
   * Python's `s.split(sep)` for a non-empty separator: cut at every
   * occurrence of `sep`, scanning left to right without overlap.
   */
  function Split(s: seq<byte>, sep: seq<byte>): (parts: seq<seq<byte>>)
    requires |sep| > 0
    ensures |parts| >= 1
    ensures |parts| >= 2 <==> Contains(s, sep)
    decreases |s|
  {
    var i := Find(s, sep);
    if i < 0 then [s] else [s[..i]] + Split(s[i + |sep|..], sep)
  }

  /** Python's `sep.join(parts)`. */
  function Join(parts: seq<seq<byte>>, sep: seq<byte>): seq<byte> {
    if |parts| == 0 then []
    else if |parts| == 1 then parts[0]
    else parts[0] + sep + Join(parts[1..], sep)
  }

  /** Splitting loses nothing: joining the pieces with the separator gives `s` back. */
  lemma {:induction false} JoinSplit(s: seq<byte>, sep: seq<byte>)
    requires |sep| > 0
    ensures Join(Split(s, sep), sep) == s
    decreases |s|
  {
    var i := Find(s, sep);
    if i >= 0 {
      var rest := s[i + |sep|..];
      var tail := Split(rest, sep);
      assert Split(s, sep) == [s[..i]] + tail;
      JoinSplit(rest, sep);
      assert Join([s[..i]] + tail, sep) == s[..i] + sep + Join(tail, sep) by {
        assert ([s[..i]] + tail)[1..] == tail;
      }
      assert s == s[..i] + sep + rest by {
        assert s[i..i + |sep|] == sep;
      }
    }
  }

  /** No piece of a split holds the separator: every occurrence was a cut. */
  lemma {:induction false} SplitPiecesAreFree(s: seq<byte>, sep: seq<byte>)
    requires |sep| > 0
    ensures forall k :: 0 <= k < |Split(s, sep)| ==> !Contains(Split(s, sep)[k], sep)
    decreases |s|
  {
    var i := Find(s, sep);
    if i >= 0 {
      var rest := s[i + |sep|..];
      SplitPiecesAreFree(rest, sep);
      forall j | OccursAt(s[..i], sep, j) ensures false {
        OccursInPrefix(s, sep, i, j);
      }
      assert Split(s, sep) == [s[..i]] + Split(rest, sep);
    }
  }

  /**
   * Every cut is at the leftmost occurrence of the separator in what is left
   * of `s`: piece `k` ends where the separator first occurs in the rest of
   * the input from piece `k` on. Together with `JoinSplit` and
   * `SplitPiecesAreFree` this fixes the pieces even for a separator that
   * overlaps itself.
   */
  lemma {:induction false} SplitCutsLeftmost(s: seq<byte>, sep: seq<byte>)
    requires |sep| > 0
    ensures forall k :: 0 <= k < |Split(s, sep)| - 1 ==>
              Find(Join(Split(s, sep)[k..], sep), sep) == |Split(s, sep)[k]|
    decreases |s|
  {
    var parts := Split(s, sep);
    var i := Find(s, sep);
    if i >= 0 {
      var rest := s[i + |sep|..];
      var tail := Split(rest, sep);
      assert parts == [s[..i]] + tail;
      SplitCutsLeftmost(rest, sep);
      forall k | 0 <= k < |parts| - 1
        ensures Find(Join(parts[k..], sep), sep) == |parts[k]|
      {
        if k == 0 {
          JoinSplit(s, sep);
          assert parts[0..] == parts;
        } else {
          assert parts[k..] == tail[k - 1..];
          assert parts[k] == tail[k - 1];
        }
      }
    }
  }

  /**
   * The second piece of a split is what follows the first occurrence of the
   * separator, up to its next occurrence if there is one.
   */
  lemma SplitSecondPiece(s: seq<byte>, sep: seq<byte>)
    requires |sep| > 0 && Contains(s, sep)
    ensures var rest := s[Find(s, sep) + |sep|..];
            Split(s, sep)[1] == if Contains(rest, sep) then rest[..Find(rest, sep)] else rest
  {
    var rest := s[Find(s, sep) + |sep|..];
    assert Split(s, sep) == [s[..Find(s, sep)]] + Split(rest, sep);
    var j := Find(rest, sep);
    if j < 0 {
      assert Split(rest, sep) == [rest];
    } else {
      assert Split(rest, sep) == [rest[..j]] + Split(rest[j + |sep|..], sep);
    }
  }

  /** The ASCII whitespace bytes Python's `bytes.strip()` removes: space, \t, \n, \v, \f, \r. */
  predicate IsSpace(b: byte)
    ensures IsSpace(b) <==> b in {9, 10, 11, 12, 13, 32}
  {
    b == 32 || 9 <= b <= 13
  }

  /** The number of whitespace bytes `s.lstrip()` removes from the front of `s`. */
  function LeadingSpace(s: seq<byte>): (n: nat)
    ensures n <= |s|
    ensures forall k :: 0 <= k < n ==> IsSpace(s[k])
    ensures n < |s| ==> !IsSpace(s[n])
  {
    if s != [] && IsSpace(s[0]) then 1 + LeadingSpace(s[1..]) else 0
  }

  /** The length `s.rstrip()` keeps: everything from there on is whitespace. */
  function TrailingSpaceStart(s: seq<byte>): (m: nat)
    ensures m <= |s|
    ensures forall k :: m <= k < |s| ==> IsSpace(s[k])
    ensures 0 < m ==> !IsSpace(s[m - 1])
  {
    if s != [] && IsSpace(s[|s| - 1]) then TrailingSpaceStart(s[..|s| - 1]) else |s|
  }

  /** `r` is the slice of `s` at `i`, and everything around it is whitespace. */
  predicate TrimmedAt(s: seq<byte>, r: seq<byte>, i: int) {
    && 0 <= i <= |s| - |r| && r == s[i..i + |r|]
    && (forall k :: 0 <= k < i ==> IsSpace(s[k]))
    && (forall k :: i + |r| <= k < |s| ==> IsSpace(s[k]))
  }

  /**
   * Python's `s.strip()`: `s` with its leading and trailing ASCII whitespace
   * removed, and nothing else.
   */
  function Strip(s: seq<byte>): (r: seq<byte>)
    ensures exists i :: TrimmedAt(s, r, i)
    ensures r != [] ==> !IsSpace(r[0]) && !IsSpace(r[|r| - 1])
  {
    var i := LeadingSpace(s);
    var j := TrailingSpaceStart(s);
    if i < j then
      assert TrimmedAt(s, s[i..j], i);
      s[i..j]
    else
      assert TrimmedAt(s, [], i);
      []
  }

  /** A strip is empty exactly when the whole input is whitespace. */
  lemma StripEmpty(s: seq<byte>)
    ensures Strip(s) == [] <==> forall k :: 0 <= k < |s| ==> IsSpace(s[k])
  {
    var r := Strip(s);
    if r != [] {
      var i :| TrimmedAt(s, r, i);
      assert s[i] == r[0];
    }
  }
}
