/** Match results as the scanner sees them.

    A delimiter answers one question about a probe string: where is its
    first match, and how long is it?  The .NET `Match` object carries
    `Success`, `Index` and `Length`; a failed match is `Match.Empty`, whose
    index and length are both 0. */
module Matching {

  datatype MatchResult = MatchResult(success: bool, index: nat, length: nat)

  /** The result of a failed match (`Match.Empty`). */
  const NoMatch: MatchResult := MatchResult(false, 0, 0)

  /** A delimiter's `Match(string)`, as a pure function of the probe. */
  type Matcher = string -> MatchResult

  /** A result that lies inside the probe, and that is `NoMatch` when it failed. */
  predicate FitsIn(m: MatchResult, s: string) {
    && m.index + m.length <= |s|
    && (!m.success ==> m == NoMatch)
  }

  /** The sort key the delimiter searches order results by (`m => m.Length`). */
  function Length(m: MatchResult): nat {
    m.length
  }

  /** Every answer of the matcher fits its probe. */
  ghost predicate WellFormed(f: Matcher) {
    forall s :: FitsIn(f(s), s)
  }
}
