/** Text helpers shared by both servers: an Option type, Python's whitespace
    stripping, and the substring predicates the contracts are stated with. */
module Strings {

  datatype Option<+T> = None | Some(value: T)

  /** The characters Python's `str.isspace()` accepts, which are the ones
      `str.strip()` with no argument removes. */
  predicate IsSpace(c: char) {
    || ('\t' <= c <= '\r')
    || ('\U{1C}' <= c <= '\U{1F}')
    || c == ' '
    || c == '\U{85}'
    || c == '\U{A0}'
    || c == '\U{1680}'
    || ('\U{2000}' <= c <= '\U{200A}')
    || c == '\U{2028}'
    || c == '\U{2029}'
    || c == '\U{202F}'
    || c == '\U{205F}'
    || c == '\U{3000}'
  }

  /** Every character of `s` in [lo, hi) is whitespace. */
  predicate SpaceBetween(s: string, lo: int, hi: int) {
    forall i :: 0 <= lo <= i < hi <= |s| ==> IsSpace(s[i])
  }

  /** `t` is a suffix of `s`. (A prefix is written `t <= s`.) */
  predicate IsSuffix(t: string, s: string) {
    |t| <= |s| && s[|s| - |t|..] == t
  }

  /** `t` occurs in `s` starting at index `i`. */
  predicate OccursAt(t: string, s: string, i: int) {
    0 <= i && i + |t| <= |s| && s[i..i + |t|] == t
  }

  /** Python's `t in s` for strings. */
  predicate Contains(s: string, t: string) {
    exists i | 0 <= i <= |s| - |t| :: OccursAt(t, s, i)
  }

  /** Scanning forward from `i`, the index of the first non-whitespace
      character, or `|s|` if there is none. */
  function SpaceRunEnd(s: string, i: nat): (j: nat)
    requires i <= |s|
    ensures i <= j <= |s| && SpaceBetween(s, i, j)
    ensures j < |s| ==> !IsSpace(s[j])
    decreases |s| - i
  {
    if i < |s| && IsSpace(s[i]) then SpaceRunEnd(s, i + 1) else i
  }

  /** Scanning backward from `j` but not below `lo`, the index just past
      the last non-whitespace character, or `lo` if there is none. */
  function SpaceRunStart(s: string, lo: nat, j: nat): (i: nat)
    requires lo <= j <= |s|
    ensures lo <= i <= j && SpaceBetween(s, i, j)
    ensures lo < i ==> !IsSpace(s[i - 1])
    decreases j - lo
  {
    if lo < j && IsSpace(s[j - 1]) then SpaceRunStart(s, lo, j - 1) else j
  }

  /** `s` is `r`, placed at index `k`, with nothing but whitespace before
      and after it. */
  predicate SurroundedBySpace(s: string, r: string, k: int) {
    && 0 <= k && k + |r| <= |s| && s[k..k + |r|] == r
    && SpaceBetween(s, 0, k) && SpaceBetween(s, k + |r|, |s|)
  }

  /** Python's `str.strip()` with no argument: the text between the first
      and the last non-whitespace character. */
  function Strip(s: string): (r: string)
    ensures exists k :: SurroundedBySpace(s, r, k)
    ensures r != [] ==> !IsSpace(r[0]) && !IsSpace(r[|r| - 1])
  {
    var lo := SpaceRunEnd(s, 0);
    var hi := SpaceRunStart(s, lo, |s|);
    assert SurroundedBySpace(s, s[lo..hi], lo);
    s[lo..hi]
  }

  /** Stripping is determined by the surrounding whitespace: any `r` with
      non-space ends that `s` surrounds with whitespace is `Strip(s)`. */
  lemma StripUnique(s: string, r: string, k: int)
    requires SurroundedBySpace(s, r, k)
    requires r != [] ==> !IsSpace(r[0]) && !IsSpace(r[|r| - 1])
    ensures Strip(s) == r
  {
    var q := Strip(s);
    var j :| SurroundedBySpace(s, q, j);
    if r != [] {
      assert s[k] == r[0] && s[k + |r| - 1] == r[|r| - 1];
    }
    if q != [] {
      assert s[j] == q[0] && s[j + |q| - 1] == q[|q| - 1];
    }
  }

  /** Stripping twice is stripping once. */
  lemma StripIdempotent(s: string)
    ensures Strip(Strip(s)) == Strip(s)
  {
    var r := Strip(s);
    assert SurroundedBySpace(r, r, 0);
    StripUnique(r, r, 0);
  }

  /** First index of `c` in `s` (Python's `s.find(c)`, with None for -1). */
  function IndexOf(s: string, c: char): (r: Option<nat>)
    ensures r.None? ==> forall i :: 0 <= i < |s| ==> s[i] != c
    ensures r.Some? ==> r.value < |s| && s[r.value] == c
    ensures r.Some? ==> forall i :: 0 <= i < r.value ==> s[i] != c
  {
    if s == [] then None
    else if s[0] == c then Some(0)
    else
      match IndexOf(s[1..], c)
      case None => None
      case Some(i) => Some(i + 1)
  }

  /** The first occurrence in `a + b` is the first in `a`, or else the
      first in `b` moved past `a`. */
  lemma {:induction false} IndexOfAppend(a: string, b: string, c: char)
    ensures IndexOf(a, c).Some? ==> IndexOf(a + b, c) == IndexOf(a, c)
    ensures IndexOf(a, c).None? && IndexOf(b, c).None? ==> IndexOf(a + b, c).None?
    ensures IndexOf(a, c).None? && IndexOf(b, c).Some? ==>
      IndexOf(a + b, c) == Some(|a| + IndexOf(b, c).value)
  {
    if a == [] {
      assert a + b == b;
    } else {
      assert (a + b)[1..] == a[1..] + b;
      IndexOfAppend(a[1..], b, c);
    }
  }

  /** Python's `s.rfind(c)`: the position of the last occurrence of `c`. */
  function LastIndexOf(s: string, c: char): (r: Option<nat>)
    ensures r.None? ==> forall i :: 0 <= i < |s| ==> s[i] != c
    ensures r.Some? ==> r.value < |s| && s[r.value] == c
    ensures r.Some? ==> forall i :: r.value < i < |s| ==> s[i] != c
  {
    if s == [] then None
    else if s[|s| - 1] == c then Some(|s| - 1)
    else
      var r := LastIndexOf(s[..|s| - 1], c);
      assert forall i :: 0 <= i < |s| - 1 ==> s[i] == s[..|s| - 1][i];
      r
  }

  /** An occurrence with none after it is the one LastIndexOf finds. */
  lemma LastIndexOfIsLast(s: string, c: char, k: nat)
    requires k < |s| && s[k] == c
    requires forall i :: k < i < |s| ==> s[i] != c
    ensures LastIndexOf(s, c) == Some(k)
  {
  }

  /** IndexOf finds nothing exactly when `c` does not occur. */
  lemma IndexOfNone(s: string, c: char)
    ensures IndexOf(s, c).None? <==> c !in s
  {
    if c in s {
      var i :| 0 <= i < |s| && s[i] == c;
    }
  }

  lemma ContainsInConcat(a: string, t: string, b: string)
    ensures Contains(a + t + b, t)
  {
    assert (a + t + b)[|a|..|a| + |t|] == t;
    assert OccursAt(t, a + t + b, |a|);
  }

  lemma SuffixOfConcat(a: string, t: string)
    ensures IsSuffix(t, a + t)
  {
    assert (a + t)[|a|..] == t;
  }

  lemma SuffixTransitive(t: string, u: string, s: string)
    requires IsSuffix(t, u) && IsSuffix(u, s)
    ensures IsSuffix(t, s)
  {
    assert s[|s| - |t|..] == s[|s| - |u|..][|u| - |t|..];
  }

  lemma ContainsInSuffix(s: string, u: string, t: string)
    requires IsSuffix(u, s) && Contains(u, t)
    ensures Contains(s, t)
  {
    var i :| 0 <= i <= |u| - |t| && OccursAt(t, u, i);
    var j := |s| - |u| + i;
    assert s[j..j + |t|] == s[|s| - |u|..][i..i + |t|];
    assert OccursAt(t, s, j);
  }
}
