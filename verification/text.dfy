/** Option and Result, the two failure-carrying shapes used by the model. */
module Wrappers {
  datatype Option<+T> = None | Some(value: T)

  datatype Result<+T, +E> = Ok(value: T) | Err(error: E)
}

/**
 * Character classes and string helpers shared by the resolver and the parser.
 * Strings are sequences of Unicode scalar values.
 */
module Text {

  /** JavaScript's `\s`, which is also the set `String.prototype.trim` strips:
      the WhiteSpace and LineTerminator code points. */
  predicate IsSpace(c: char) {
    c == ' ' || c == '\t' || c == '\n' || c == '\U{B}' || c == '\U{C}' || c == '\r'
    || c == '\U{A0}' || c == '\U{1680}' || ('\U{2000}' <= c <= '\U{200A}')
    || c == '\U{2028}' || c == '\U{2029}' || c == '\U{202F}' || c == '\U{205F}'
    || c == '\U{3000}' || c == '\U{FEFF}'
  }

  /** The characters JavaScript's `.` refuses when the `s` flag is absent. */
  predicate IsLineTerminator(c: char) {
    c == '\n' || c == '\r' || c == '\U{2028}' || c == '\U{2029}'
  }

  predicate IsAsciiLetter(c: char) {
    ('a' <= c <= 'z') || ('A' <= c <= 'Z')
  }

  /** JavaScript's `\d`. */
  predicate IsDigit(c: char) {
    '0' <= c <= '9'
  }

  /** The range `一-龥` of common CJK ideographs. */
  predicate IsCjk(c: char) {
    '\U{4E00}' <= c <= '\U{9FA5}'
  }

  /** `p` occurs in `s` at index `i`. */
  predicate HasAt(s: string, i: nat, p: string) {
    i + |p| <= |s| && s[i..i + |p|] == p
  }

  predicate StartsWith(s: string, p: string) {
    HasAt(s, 0, p)
  }

  /** JavaScript's `s.includes(p)`. */
  predicate Contains(s: string, p: string)
    decreases |s|
  {
    HasAt(s, 0, p) || (s != [] && Contains(s[1..], p))
  }

  predicate AllSpace(s: string) {
    forall k :: 0 <= k < |s| ==> IsSpace(s[k])
  }

  /** Neither the first nor the last character is white space. */
  predicate NoEdgeSpace(s: string) {
    s == [] || (!IsSpace(s[0]) && !IsSpace(s[|s| - 1]))
  }

  /** No two adjacent white-space characters. */
  predicate NoDoubleSpace(s: string) {
    forall k :: 0 <= k < |s| - 1 && IsSpace(s[k]) ==> !IsSpace(s[k + 1])
  }

  /** `r` is `s` with a white-space prefix and a white-space suffix cut off. */
  ghost predicate TrimmedFrom(r: string, s: string) {
    exists lo, hi :: 0 <= lo <= hi <= |s| && r == s[lo..hi] && AllSpace(s[..lo]) && AllSpace(s[hi..])
  }

  /** End of the (possibly empty) run of white space that starts at `i`:
      what a greedy `\s*` consumes. */
  function SpaceEnd(s: string, i: nat): (j: nat)
    requires i <= |s|
    ensures i <= j <= |s|
    ensures forall k {:trigger IsSpace(s[k])} :: i <= k < j ==> IsSpace(s[k])
    ensures j < |s| ==> !IsSpace(s[j])
    decreases |s| - i
  {
    if i < |s| && IsSpace(s[i]) then SpaceEnd(s, i + 1) else i
  }

  /** End of the line that `i` is in: the first line terminator at or after `i`, or the end.
      This is as far as `.` can reach from `i`. */
  function LineRunEnd(s: string, i: nat): (j: nat)
    requires i <= |s|
    ensures i <= j <= |s|
    ensures forall k :: i <= k < j ==> !IsLineTerminator(s[k])
    ensures j < |s| ==> IsLineTerminator(s[j])
    decreases |s| - i
  {
    if i < |s| && !IsLineTerminator(s[i]) then LineRunEnd(s, i + 1) else i
  }

  /** Start of the white-space suffix of `s[lo..]`. */
  function TrailStart(s: string, lo: nat): (j: nat)
    requires lo <= |s|
    ensures lo <= j <= |s|
    ensures forall k :: j <= k < |s| ==> IsSpace(s[k])
    ensures j > lo ==> !IsSpace(s[j - 1])
    decreases |s| - lo
  {
    if |s| == lo then lo
    else if IsSpace(s[|s| - 1]) then TrailStart(s[..|s| - 1], lo)
    else |s|
  }

  /** JavaScript's `s.trim()`. */
  function Trim(s: string): (r: string)
    ensures NoEdgeSpace(r)
    ensures TrimmedFrom(r, s)
  {
    var lo := SpaceEnd(s, 0);
    var hi := TrailStart(s, lo);
    assert AllSpace(s[..lo]) && AllSpace(s[hi..]);
    s[lo..hi]
  }

  /** Number of occurrences of `c` in `s`. */
  function Count(s: string, c: char): nat {
    if s == [] then 0 else (if s[0] == c then 1 else 0) + Count(s[1..], c)
  }

  lemma {:induction false} CountConcat(a: string, b: string, c: char)
    ensures Count(a + b, c) == Count(a, c) + Count(b, c)
  {
    if a != [] {
      assert a + b != [] && (a + b)[0] == a[0] && (a + b)[1..] == a[1..] + b;
      CountConcat(a[1..], b, c);
      assert Count(a + b, c) == (if a[0] == c then 1 else 0) + Count(a[1..] + b, c);
    } else {
      assert a + b == b;
    }
  }

  lemma {:induction false} CountAllSpace(s: string, c: char)
    requires AllSpace(s) && !IsSpace(c)
    ensures Count(s, c) == 0
  {
    if s != [] {
      CountAllSpace(s[1..], c);
    }
  }

  /** Trimming removes only white space, so it keeps every other character's count. */
  lemma TrimKeepsCount(s: string, c: char)
    requires !IsSpace(c)
    ensures Count(Trim(s), c) == Count(s, c)
  {
    var lo, hi :| 0 <= lo <= hi <= |s| && Trim(s) == s[lo..hi] && AllSpace(s[..lo]) && AllSpace(s[hi..]);
    assert s == s[..lo] + s[lo..hi] + s[hi..];
    CountConcat(s[..lo] + s[lo..hi], s[hi..], c);
    CountConcat(s[..lo], s[lo..hi], c);
    CountAllSpace(s[..lo], c);
    CountAllSpace(s[hi..], c);
  }

  /** Trimming a string that has no two adjacent spaces keeps that property. */
  lemma TrimKeepsNoDoubleSpace(s: string)
    requires NoDoubleSpace(s)
    ensures NoDoubleSpace(Trim(s))
  {
    var lo, hi :| 0 <= lo <= hi <= |s| && Trim(s) == s[lo..hi] && AllSpace(s[..lo]) && AllSpace(s[hi..]);
    var r := Trim(s);
    forall k | 0 <= k < |r| - 1 && IsSpace(r[k])
      ensures !IsSpace(r[k + 1])
    {
      assert r[k] == s[lo + k] && r[k + 1] == s[lo + k + 1];
    }
  }

  /** Trimming keeps "every character satisfies `IsSpace` only if it is the plain space". */
  lemma TrimKeepsSpaceKind(s: string)
    requires forall k :: 0 <= k < |s| && IsSpace(s[k]) ==> s[k] == ' '
    ensures forall k :: 0 <= k < |Trim(s)| && IsSpace(Trim(s)[k]) ==> Trim(s)[k] == ' '
  {
    var lo, hi :| 0 <= lo <= hi <= |s| && Trim(s) == s[lo..hi] && AllSpace(s[..lo]) && AllSpace(s[hi..]);
    forall k | 0 <= k < |Trim(s)|
      ensures Trim(s)[k] == s[lo + k]
    {
    }
  }

  /** `a` is an order-preserving subsequence of `b`: `b` with some elements left out. */
  predicate IsSubsequence<T(==)>(a: seq<T>, b: seq<T>)
    decreases |b|
  {
    a == [] || (b != [] && ((a[0] == b[0] && IsSubsequence(a[1..], b[1..])) || IsSubsequence(a, b[1..])))
  }

  /** Every element of a subsequence comes from the larger sequence. */
  lemma {:induction false} SubsequenceMembers<T>(a: seq<T>, b: seq<T>, x: T)
    requires IsSubsequence(a, b) && x in a
    ensures x in b
    decreases |b|
  {
    if a[0] == b[0] && IsSubsequence(a[1..], b[1..]) {
      if x != a[0] {
        SubsequenceMembers(a[1..], b[1..], x);
      }
    } else {
      SubsequenceMembers(a, b[1..], x);
    }
  }
}
