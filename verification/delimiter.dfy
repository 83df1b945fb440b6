/** `DelimiterCollection<T>`: a list of delimiters that is itself a delimiter.

    A member is any `T` together with `eval`, which gives the member's
    `Match(string)`; a member's `IsMatch` is the success of that match, as it
    is for a .NET `Regex`.  The collection keeps the default `List<T>`
    backing, so members stay in insertion order, and that order decides ties. */
module Delimiters {
  import opened Optional
  import opened Matching
  import Selection

  datatype Collection<T> = Collection(members: seq<T>)

  /** `Delimiters.Select(d => d.Match(content))`. */
  function Results<T>(ms: seq<T>, eval: T -> Matcher, content: string): (rs: seq<MatchResult>)
    ensures |rs| == |ms|
    ensures forall i :: 0 <= i < |ms| ==> rs[i] == eval(ms[i])(content)
  {
    seq(|ms|, i requires 0 <= i < |ms| => eval(ms[i])(content))
  }

  /** `Delimiters.Any(d => d.IsMatch(content))`, walking the list in order. */
  function AnyMatches<T>(ms: seq<T>, eval: T -> Matcher, content: string): (b: bool)
    ensures b <==> exists i :: 0 <= i < |ms| && eval(ms[i])(content).success
  {
    if |ms| == 0 then
      false
    else if eval(ms[0])(content).success then
      true
    else
      var b := AnyMatches(ms[1..], eval, content);
      assert b ==> exists i :: 0 < i < |ms| && eval(ms[i])(content).success by {
        if b {
          var i :| 0 <= i < |ms[1..]| && eval(ms[1..][i])(content).success;
          assert eval(ms[i + 1])(content).success;
        }
      }
      b
  }

  /** Does any member match?  False for an empty collection. */
  function IsMatch<T>(c: Collection<T>, eval: T -> Matcher, content: string): (b: bool)
    ensures b <==> exists i :: 0 <= i < |c.members| && eval(c.members[i])(content).success
    ensures |c.members| == 0 ==> !b
  {
    AnyMatches(c.members, eval, content)
  }

  /** The longest member match; on equal lengths the earliest member's.  `None`
      stands for the `null` that `FirstOrDefault` yields on an empty collection. */
  function Match<T>(c: Collection<T>, eval: T -> Matcher, content: string): (r: Option<MatchResult>)
    ensures r.None? <==> |c.members| == 0
    ensures r.Some? ==> forall i :: 0 <= i < |c.members| ==> eval(c.members[i])(content).length <= r.value.length
    ensures r.Some? ==> exists k :: 0 <= k < |c.members| && r.value == eval(c.members[k])(content)
                                  && forall i :: 0 <= i < k ==> eval(c.members[i])(content).length < r.value.length
  {
    var rs := Results(c.members, eval, content);
    Selection.LongestIsFirstLongest(rs, Length);
    var r := Selection.Longest(rs, Length);
    assert r.Some? ==> Selection.IsFirstLongest(rs, Length, Selection.FirstLongest(rs, Length));
    r
  }

  /** Tie-break law: the member whose result is longest, with every earlier
      member's strictly shorter, is the one whose result `Match` returns. */
  lemma MatchPicksEarliestLongest<T>(c: Collection<T>, eval: T -> Matcher, content: string, k: nat)
    requires k < |c.members|
    requires forall i :: 0 <= i < |c.members| ==> eval(c.members[i])(content).length <= eval(c.members[k])(content).length
    requires forall i :: 0 <= i < k ==> eval(c.members[i])(content).length < eval(c.members[k])(content).length
    ensures Match(c, eval, content) == Some(eval(c.members[k])(content))
  {
    var rs := Results(c.members, eval, content);
    Selection.LongestIsFirstLongest(rs, Length);
    var w := Selection.FirstLongest(rs, Length);
    assert Selection.IsFirstLongest(rs, Length, k);
    Selection.FirstLongestUnique(rs, Length, k, w);
  }

  /** `IsMatch` and the success of `Match` agree as long as no member reports
      a successful match of length zero. */
  lemma IsMatchAgreesWithMatch<T>(c: Collection<T>, eval: T -> Matcher, content: string)
    requires |c.members| > 0
    requires forall i :: 0 <= i < |c.members| ==> FitsIn(eval(c.members[i])(content), content)
    requires forall i :: 0 <= i < |c.members| && eval(c.members[i])(content).success ==> eval(c.members[i])(content).length > 0
    ensures IsMatch(c, eval, content) <==> Match(c, eval, content).value.success
  {
    var r := Match(c, eval, content).value;
    var k :| 0 <= k < |c.members| && r == eval(c.members[k])(content);
    if IsMatch(c, eval, content) {
      var i :| 0 <= i < |c.members| && eval(c.members[i])(content).success;
      assert eval(c.members[i])(content).length <= r.length;
      assert FitsIn(r, content);
    }
  }

  /** The collection as a plain delimiter.  The scanner dereferences the
      collection's match, so it needs at least one member. */
  function AsMatcher<T>(c: Collection<T>, eval: T -> Matcher): (m: Matcher)
    requires |c.members| > 0
    ensures forall s :: m(s) == Match(c, eval, s).value
  {
    s => Match(c, eval, s).value
  }

  /** Every answer of the combined delimiter is some member's answer, so it
      fits its probe when every member's answers do. */
  lemma AsMatcherWellFormed<T>(c: Collection<T>, eval: T -> Matcher)
    requires |c.members| > 0
    requires forall i :: 0 <= i < |c.members| ==> WellFormed(eval(c.members[i]))
    ensures WellFormed(AsMatcher(c, eval))
  {
    forall s ensures FitsIn(AsMatcher(c, eval)(s), s) {
      var r := Match(c, eval, s).value;
      var k :| 0 <= k < |c.members| && r == eval(c.members[k])(s);
      assert WellFormed(eval(c.members[k]));
    }
  }

  /** `Count`. */
  function Count<T>(c: Collection<T>): nat {
    |c.members|
  }

  /** The position `List<T>` searches to: the first occurrence of `item`, or
      the length of the list when there is none. */
  function FirstIndexOf<T(==)>(ms: seq<T>, item: T): (k: nat)
    ensures k <= |ms|
    ensures k < |ms| ==> ms[k] == item
    ensures forall i :: 0 <= i < k ==> ms[i] != item
  {
    if |ms| == 0 || ms[0] == item then 0 else 1 + FirstIndexOf(ms[1..], item)
  }

  /** `Contains`: a linear search of the list. */
  function Contains<T(==)>(c: Collection<T>, item: T): (b: bool)
    ensures b <==> item in c.members
  {
    FirstIndexOf(c.members, item) < |c.members|
  }

  /** `Add` on the `List<T>` backing: the item goes at the end. */
  function Add<T(==)>(c: Collection<T>, item: T): (r: Collection<T>)
    ensures Contains(r, item)
    ensures Count(r) == Count(c) + 1
    ensures r.members[..Count(c)] == c.members
    ensures r.members[Count(c)] == item
  {
    Collection(c.members + [item])
  }

  /** `Clear`. */
  function Clear<T>(c: Collection<T>): (r: Collection<T>)
    ensures Count(r) == 0
  {
    Collection([])
  }

  /** A cleared collection matches nothing and yields no longest match. */
  lemma ClearedMatchesNothing<T>(c: Collection<T>, eval: T -> Matcher, content: string)
    ensures !IsMatch(Clear(c), eval, content)
    ensures Match(Clear(c), eval, content).None?
  {
  }

  /** `Remove`: deletes the first occurrence of `item` and reports whether there was one. */
  function Remove<T(==)>(c: Collection<T>, item: T): (r: (Collection<T>, bool))
    ensures r.1 <==> item in c.members
    ensures !r.1 ==> r.0 == c
    ensures r.1 ==> exists k :: 0 <= k < |c.members| && c.members[k] == item && item !in c.members[..k]
                                && r.0.members == c.members[..k] + c.members[k + 1..]
    ensures multiset(r.0.members) == multiset(c.members) - multiset{item}
    ensures Count(r.0) == if r.1 then Count(c) - 1 else Count(c)
  {
    var k := FirstIndexOf(c.members, item);
    if k == |c.members| then
      (c, false)
    else
      var ms := c.members[..k] + c.members[k + 1..];
      assert c.members == c.members[..k] + [item] + c.members[k + 1..];
      (Collection(ms), true)
  }

  /** Removing an item just added to a collection that did not hold it gives
      the collection back. */
  lemma RemoveUndoesAdd<T>(c: Collection<T>, item: T)
    requires !Contains(c, item)
    ensures Remove(Add(c, item), item) == (c, true)
  {
    var ms := c.members + [item];
    var k := FirstIndexOf(ms, item);
    assert forall i :: 0 <= i < |c.members| ==> ms[i] == c.members[i];
    assert ms[|c.members|] == item;
    assert k == |c.members|;
    assert ms[..k] + ms[k + 1..] == c.members;
  }
}
