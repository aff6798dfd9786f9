/** The few JavaScript string operations the server relies on, over `seq<char>`.
    Case-insensitive comparison is the ASCII folding a regular expression with
    the `i` flag performs outside unicode mode: no character at or above 128
    ever folds onto an ASCII letter there, so folding A-Z is exact. */
module JsString {
  import opened Wrappers

  /** `s.startsWith(p)` */
  predicate StartsWith(s: string, p: string) {
    |p| <= |s| && s[..|p|] == p
  }

  /** `p` occurs in `s` at index `i`. */
  predicate MatchesAt(s: string, i: nat, p: string) {
    i + |p| <= |s| && s[i..i + |p|] == p
  }

  function Lower(c: char): (r: char)
    ensures 'A' <= c <= 'Z' ==> r as int == c as int + 32
    ensures !('A' <= c <= 'Z') ==> r == c
  {
    if 'A' <= c <= 'Z' then (c as int + 32) as char else c
  }

  /** `p` occurs in `s` at index `i`, ignoring ASCII case. */
  predicate MatchesAtCI(s: string, i: nat, p: string) {
    i + |p| <= |s| && forall k :: 0 <= k < |p| ==> Lower(s[i + k]) == Lower(p[k])
  }

  /** An occurrence of `a + b` is an occurrence of `a` followed by one of `b`. */
  lemma MatchesConcat(s: string, i: nat, a: string, b: string)
    requires MatchesAt(s, i, a + b)
    ensures MatchesAt(s, i, a) && MatchesAt(s, i + |a|, b)
  {
    assert s[i..i + |a|] == s[i..i + |a + b|][..|a|];
    assert s[i + |a|..i + |a| + |b|] == s[i..i + |a + b|][|a|..];
  }

  /** A slice of an occurrence is the same slice of the pattern. */
  lemma SliceOfMatch(s: string, p: nat, tok: string, a: nat, b: nat)
    requires MatchesAt(s, p, tok) && a <= b <= |tok|
    ensures s[p + a..p + b] == tok[a..b]
  {
    forall k | 0 <= k < b - a ensures s[p + a..p + b][k] == tok[a..b][k] {
      assert s[p + a + k] == s[p..p + |tok|][a + k];
    }
  }

  lemma MatchesAtImpliesCI(s: string, i: nat, p: string)
    requires MatchesAt(s, i, p)
    ensures MatchesAtCI(s, i, p)
  {
    forall k | 0 <= k < |p| ensures Lower(s[i + k]) == Lower(p[k]) {
      assert s[i..i + |p|][k] == s[i + k];
    }
  }

  /** The first index at or after `from` where `p` occurs. */
  function IndexFrom(s: string, p: string, from: nat): (r: Option<nat>)
    requires from <= |s|
    ensures r.Some? ==> from <= r.value <= |s| && MatchesAt(s, r.value, p)
    ensures r.Some? ==> forall j :: from <= j < r.value ==> !MatchesAt(s, j, p)
    ensures r.None? ==> forall j :: from <= j <= |s| ==> !MatchesAt(s, j, p)
    decreases |s| - from
  {
    if MatchesAt(s, from, p) then Some(from)
    else if from == |s| then None
    else IndexFrom(s, p, from + 1)
  }

  /** `s.indexOf(p)`, with a miss as `None`. */
  function IndexOf(s: string, p: string): (r: Option<nat>)
    ensures r.Some? ==> r.value <= |s| && MatchesAt(s, r.value, p)
    ensures r.Some? ==> forall j :: 0 <= j < r.value ==> !MatchesAt(s, j, p)
    ensures r.None? ==> forall j :: 0 <= j <= |s| ==> !MatchesAt(s, j, p)
  {
    IndexFrom(s, p, 0)
  }

  /** `s.includes(p)` */
  predicate Includes(s: string, p: string) {
    IndexOf(s, p).Some?
  }

  lemma IncludesIff(s: string, p: string)
    ensures Includes(s, p) <==> exists j :: 0 <= j <= |s| && MatchesAt(s, j, p)
  {
  }

  /** A line terminator, which `.` in a regular expression does not match. */
  predicate IsLineTerminator(c: char) {
    c == '\n' || c == '\r' || c == '\U{2028}' || c == '\U{2029}'
  }

  /** A character matched by `\s` in a regular expression, and removed by
      `String.prototype.trim`: white space and line terminators. */
  predicate IsSpace(c: char) {
    || c == '\t' || c == '\U{000B}' || c == '\U{000C}' || c == ' ' || c == '\U{00A0}'
    || c == '\U{1680}' || ('\U{2000}' <= c <= '\U{200A}') || c == '\U{202F}'
    || c == '\U{205F}' || c == '\U{3000}' || c == '\U{FEFF}'
    || IsLineTerminator(c)
  }

  /** The end of the longest run of `\s` characters starting at `i`. */
  function SpaceRun(s: string, i: nat): (e: nat)
    requires i <= |s|
    ensures i <= e <= |s|
    ensures forall k :: i <= k < e ==> IsSpace(s[k])
    ensures e < |s| ==> !IsSpace(s[e])
    decreases |s| - i
  {
    if i < |s| && IsSpace(s[i]) then SpaceRun(s, i + 1) else i
  }

  /** The start of the run of `\s` characters that ends at `b`, stopping at `a`. */
  function SpaceRunBack(s: string, a: nat, b: nat): (r: nat)
    requires a <= b <= |s|
    ensures a <= r <= b
    ensures forall k :: r <= k < b ==> IsSpace(s[k])
    ensures r > a ==> !IsSpace(s[r - 1])
    decreases b
  {
    if b > a && IsSpace(s[b - 1]) then SpaceRunBack(s, a, b - 1) else b
  }

  /** The bounds of what `s.trim()` keeps. */
  function TrimBounds(s: string): (r: (nat, nat))
    ensures r.0 <= r.1 <= |s|
    ensures forall k :: 0 <= k < r.0 ==> IsSpace(s[k])
    ensures forall k :: r.1 <= k < |s| ==> IsSpace(s[k])
    ensures r.0 < r.1 ==> !IsSpace(s[r.0]) && !IsSpace(s[r.1 - 1])
  {
    var a := SpaceRun(s, 0);
    (a, SpaceRunBack(s, a, |s|))
  }

  /** `s.trim()`: `s` less its leading and trailing `\s` characters. The
      first ensures only unfolds the body, so that callers can use the
      bounds that `TrimBounds` characterises; the second is the property. */
  function Trim(s: string): (r: string)
    ensures r == s[TrimBounds(s).0..TrimBounds(s).1]
    ensures r != [] ==> !IsSpace(r[0]) && !IsSpace(r[|r| - 1])
  {
    s[TrimBounds(s).0..TrimBounds(s).1]
  }
}
