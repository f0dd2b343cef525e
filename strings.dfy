/** Character classes and substring search on the script's strings. */
module Strings {
  import opened Wrappers

  /** Whitespace as Python 2 sees it in `str.split()` and in an ASCII `\s`:
      space, and tab, line feed, vertical tab, form feed, carriage return. */
  predicate IsSpace(c: char) {
    c == ' ' || 9 <= c as int <= 13
  }

  /** An ASCII digit, which is what `\d` matches without the UNICODE flag. */
  predicate IsDigit(c: char) {
    '0' <= c <= '9'
  }

  predicate IsUpper(c: char) {
    'A' <= c <= 'Z'
  }

  /** `p` occurs in `s` starting at index `i`. */
  predicate OccursAt(s: string, p: string, i: int) {
    0 <= i && i + |p| <= |s| && s[i..i + |p|] == p
  }

  predicate Contains(s: string, p: string) {
    exists i | 0 <= i <= |s| :: OccursAt(s, p, i)
  }

  /** The leftmost occurrence of `p` in `s` at or after `k`. */
  function FindFrom(s: string, p: string, k: nat): (r: Option<nat>)
    requires k <= |s|
    ensures r.Some? ==> k <= r.value && OccursAt(s, p, r.value)
    ensures forall i :: k <= i && (r.None? || i < r.value) ==> !OccursAt(s, p, i)
    decreases |s| - k
  {
    if OccursAt(s, p, k) then Some(k)
    else if k == |s| then None
    else FindFrom(s, p, k + 1)
  }

  /** The index of the leftmost occurrence of `p` in `s`, as `str.find` gives it. */
  function FirstIndexOf(s: string, p: string): (r: Option<nat>)
    ensures r.None? <==> !Contains(s, p)
    ensures r.Some? ==> OccursAt(s, p, r.value)
    ensures r.Some? ==> forall i :: 0 <= i < r.value ==> !OccursAt(s, p, i)
  {
    FindFrom(s, p, 0)
  }

  /** The rightmost occurrence of `p` in `s` at or before `k`. */
  function FindUpTo(s: string, p: string, k: nat): (r: Option<nat>)
    ensures r.Some? ==> r.value <= k && OccursAt(s, p, r.value)
    ensures forall i :: 0 <= i <= k && (r.None? || r.value < i) ==> !OccursAt(s, p, i)
    decreases k
  {
    if OccursAt(s, p, k) then Some(k)
    else if k == 0 then None
    else FindUpTo(s, p, k - 1)
  }

  /** The index of the rightmost occurrence of `p` in `s`, as `str.rfind` gives it. */
  function LastIndexOf(s: string, p: string): (r: Option<nat>)
    ensures r.None? <==> !Contains(s, p)
    ensures r.Some? ==> OccursAt(s, p, r.value)
    ensures r.Some? ==> forall i :: r.value < i ==> !OccursAt(s, p, i)
  {
    if |p| > |s| then None else FindUpTo(s, p, |s| - |p|)
  }
}
