/**
 * Byte buffers and the substring search that Go's `bytes.SplitN`,
 * `bytes.Index` and `strings.Index` perform: the first position at which a
 * pattern occurs, or -1.
 */
module Search {

  /** A Go `byte`. */
  newtype byte = b: int | 0 <= b < 256

  /** `pat` occurs in `s` starting at position `i`. */
  predicate OccursAt<T(==)>(s: seq<T>, pat: seq<T>, i: int)
  {
    0 <= i && i + |pat| <= |s| && s[i..i + |pat|] == pat
  }

  /** `pat` occurs somewhere in `s`. */
  predicate Contains<T(==)>(s: seq<T>, pat: seq<T>)
  {
    exists i | 0 <= i <= |s| :: OccursAt(s, pat, i)
  }

  /** `a` is a strict prefix of `b`. */
  predicate IsProperPrefix<T(==)>(a: seq<T>, b: seq<T>)
  {
    |a| < |b| && b[..|a|] == a
  }

  /** The first occurrence of `pat` in `s` at or after `from`, or -1. */
  function IndexFrom<T(==)>(s: seq<T>, pat: seq<T>, from: nat): (r: int)
    decreases |s| - from
    ensures r == -1 || (from <= r && OccursAt(s, pat, r))
    ensures forall j :: from <= j && OccursAt(s, pat, j) ==> r != -1 && r <= j
  {
    if from + |pat| > |s| then -1
    else if s[from..from + |pat|] == pat then from
    else IndexFrom(s, pat, from + 1)
  }

  /**
   * Go's `strings.Index(s, pat)`: the index of the first occurrence of `pat`
   * in `s`, or -1 when there is none (an empty pattern occurs at 0).
   */
  function IndexOf<T(==)>(s: seq<T>, pat: seq<T>): (r: int)
    ensures r == -1 <==> !Contains(s, pat)
    ensures r != -1 ==> OccursAt(s, pat, r)
    ensures forall j :: OccursAt(s, pat, j) ==> r <= j
  {
    IndexFrom(s, pat, 0)
  }
}
