/** A literal-string delimiter: the simplest `Regex` the scanner is used with
    (a pattern with no special characters).  It gives concrete delimiters for
    the worked examples, and both views of a regex the sources use:
    `Match` (the leftmost occurrence) and `Matches` (every occurrence, left to
    right, none overlapping). */
module Literals {
  import opened Optional
  import opened Matching

  /** `p` occurs in `s` starting at position `i`. */
  predicate OccursAt(p: string, s: string, i: nat) {
    i + |p| <= |s| && s[i..i + |p|] == p
  }

  /** The leftmost occurrence of `p` in `s` at or after `from`. */
  function IndexOf(p: string, s: string, from: nat): (r: Option<nat>)
    decreases |s| - from
    ensures r.Some? ==> from <= r.value && OccursAt(p, s, r.value)
    ensures r.Some? ==> forall j :: from <= j < r.value ==> !OccursAt(p, s, j)
    ensures r.None? ==> forall j :: from <= j ==> !OccursAt(p, s, j)
  {
    if from + |p| > |s| then None
    else if OccursAt(p, s, from) then Some(from)
    else IndexOf(p, s, from + 1)
  }

  /** `new Regex(p).Match(s)` for a literal pattern. */
  function Literal(p: string): Matcher {
    s => match IndexOf(p, s, 0)
         case None => NoMatch
         case Some(i) => MatchResult(true, i, |p|)
  }

  /** A literal's match is the leftmost occurrence, and fails only when there is none. */
  lemma LiteralIsLeftmost(p: string, s: string)
    ensures Literal(p)(s).success <==> exists i :: OccursAt(p, s, i)
    ensures Literal(p)(s).success ==> Literal(p)(s).length == |p| && OccursAt(p, s, Literal(p)(s).index)
    ensures forall j: nat :: j < Literal(p)(s).index ==> !OccursAt(p, s, j)
  {
  }

  lemma LiteralWellFormed(p: string)
    ensures WellFormed(Literal(p))
  {
    forall s ensures FitsIn(Literal(p)(s), s) {
      LiteralIsLeftmost(p, s);
    }
  }

  /** `new Regex(p).Matches(s)` from `from` on: each occurrence, then the
      search resumes after it (one position on for an empty pattern). */
  function Hits(p: string, s: string, from: nat): (hs: seq<MatchResult>)
    decreases |s| + 1 - from
    ensures forall i :: 0 <= i < |hs| ==> hs[i].success && hs[i].length == |p| && from <= hs[i].index
                                          && OccursAt(p, s, hs[i].index)
    ensures |hs| > 0 <==> exists j :: from <= j && OccursAt(p, s, j)
  {
    match IndexOf(p, s, from)
    case None => []
    case Some(j) =>
      [MatchResult(true, j, |p|)] + Hits(p, s, j + if |p| == 0 then 1 else |p|)
  }

  /** The regex view of a literal, starting from the beginning of the probe. */
  function LiteralHits(p: string): string -> seq<MatchResult> {
    s => Hits(p, s, 0)
  }

  /** An occurrence in a string is still there in any string it begins. */
  lemma OccursInExtension(p: string, s: string, t: string, i: nat)
    requires s <= t && OccursAt(p, s, i)
    ensures OccursAt(p, t, i)
  {
    assert t[i..i + |p|] == s[i..i + |p|];
  }
}
