/**
 * Literal substring search and first-occurrence replacement: the model of
 * `String.prototype.match` and `String.prototype.replace` when their
 * pattern argument is a plain string with no special characters.
 */
module Substrings {
  import opened Wrappers

  /** `sub` occurs in `s` starting at index `i`. */
  predicate OccursAt(s: string, sub: string, i: int) {
    0 <= i && i + |sub| <= |s| && s[i..i + |sub|] == sub
  }

  predicate Contains(s: string, sub: string) {
    exists i :: 0 <= i <= |s| - |sub| && OccursAt(s, sub, i)
  }

  /** `i` is the leftmost start of `sub` in `s`. */
  predicate FirstOccurrence(s: string, sub: string, i: int) {
    OccursAt(s, sub, i) && forall j :: 0 <= j < i ==> !OccursAt(s, sub, j)
  }

  /** The leftmost occurrence of `sub` in `s` at or after `from`. */
  function IndexFrom(s: string, sub: string, from: nat): (r: Option<nat>)
    ensures r.Some? ==> from <= r.value && OccursAt(s, sub, r.value)
    ensures r.Some? ==> forall j :: from <= j < r.value ==> !OccursAt(s, sub, j)
    ensures r.None? ==> forall j :: from <= j ==> !OccursAt(s, sub, j)
    decreases |s| - from
  {
    if from + |sub| > |s| then None
    else if s[from..from + |sub|] == sub then Some(from)
    else IndexFrom(s, sub, from + 1)
  }

  /** `String.prototype.indexOf`, returning None for -1. */
  function IndexOf(s: string, sub: string): (r: Option<nat>)
    ensures r.Some? <==> Contains(s, sub)
    ensures r.Some? ==> FirstOccurrence(s, sub, r.value)
  {
    IndexFrom(s, sub, 0)
  }

  /** `s.replace(sub, rep)` with a string pattern: only the leftmost occurrence is replaced. */
  function ReplaceFirst(s: string, sub: string, rep: string): (r: string)
    ensures !Contains(s, sub) ==> r == s
    ensures forall i :: FirstOccurrence(s, sub, i) ==> r == s[..i] + rep + s[i + |sub|..]
  {
    match IndexOf(s, sub)
    case None => s
    case Some(i) => s[..i] + rep + s[i + |sub|..]
  }

  /** A character of `sub` that `s` lacks rules out any occurrence. */
  lemma MissingChar(s: string, sub: string, c: char)
    requires c in sub && c !in s
    ensures !Contains(s, sub)
  {
    var k :| 0 <= k < |sub| && sub[k] == c;
    forall i | 0 <= i <= |s| - |sub|
      ensures !OccursAt(s, sub, i)
    {
      assert s[i + k] in s;
      assert s[i..i + |sub|][k] != sub[k];
    }
  }

  /** A path that starts with `sub` has that start replaced. */
  lemma ReplacePrefix(s: string, sub: string, rep: string)
    requires |sub| <= |s| && s[..|sub|] == sub
    ensures ReplaceFirst(s, sub, rep) == rep + s[|sub|..]
  {
    assert FirstOccurrence(s, sub, 0);
    assert [] + rep + s[|sub|..] == rep + s[|sub|..];
  }
}
