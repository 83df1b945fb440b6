/** The LINQ pipeline both versions of the delimiter search end in:
    `xs.OrderByDescending(key).FirstOrDefault()`.

    `OrderByDescending` is a STABLE sort, so the element it puts first is the
    one with the greatest key, and among several with that key the one that
    came first in `xs`.  `FirstLongest` states that choice directly and
    `LongestIsFirstLongest` proves the sort-then-take-first pipeline makes it. */
module Selection {
  import opened Optional

  /** No element has a greater key than an element before it. */
  ghost predicate Descending<X>(xs: seq<X>, key: X -> nat) {
    forall i, j :: 0 <= i < j < |xs| ==> key(xs[j]) <= key(xs[i])
  }

  /** `k` is the earliest position holding a greatest key. */
  ghost predicate IsFirstLongest<X>(xs: seq<X>, key: X -> nat, k: int) {
    && 0 <= k < |xs|
    && (forall i :: 0 <= i < |xs| ==> key(xs[i]) <= key(xs[k]))
    && (forall i :: 0 <= i < k ==> key(xs[i]) < key(xs[k]))
  }

  /** Stable insertion: `x`, which came before every element of `ys`, goes in
      front of the first element whose key does not exceed its own. */
  function Insert<X(==)>(x: X, ys: seq<X>, key: X -> nat): (r: seq<X>)
    ensures multiset(r) == multiset(ys) + multiset{x}
    ensures r[0] == x || (|ys| > 0 && r[0] == ys[0])
  {
    if |ys| == 0 || key(ys[0]) <= key(x) then
      [x] + ys
    else
      var rest := Insert(x, ys[1..], key);
      assert ys == [ys[0]] + ys[1..];
      [ys[0]] + rest
  }

  /** Insertion keeps a descending sequence descending. */
  lemma {:induction false} InsertKeepsDescending<X>(x: X, ys: seq<X>, key: X -> nat)
    requires Descending(ys, key)
    ensures Descending(Insert(x, ys, key), key)
  {
    if |ys| > 0 && key(ys[0]) > key(x) {
      var rest := Insert(x, ys[1..], key);
      InsertKeepsDescending(x, ys[1..], key);
      var r := Insert(x, ys, key);
      assert r == [ys[0]] + rest;
      assert key(rest[0]) <= key(ys[0]);
      forall i, j | 0 <= i < j < |r| ensures key(r[j]) <= key(r[i]) {
        if i == 0 {
          assert r[j] == rest[j - 1];
          assert key(rest[j - 1]) <= key(rest[0]);
        } else {
          assert r[i] == rest[i - 1] && r[j] == rest[j - 1];
        }
      }
    }
  }

  /** `Enumerable.OrderByDescending`: a stable descending sort. */
  function OrderByDescending<X(==)>(xs: seq<X>, key: X -> nat): (r: seq<X>)
    ensures multiset(r) == multiset(xs)
    ensures Descending(r, key)
  {
    if |xs| == 0 then
      []
    else
      assert xs == [xs[0]] + xs[1..];
      var sorted := OrderByDescending(xs[1..], key);
      InsertKeepsDescending(xs[0], sorted, key);
      Insert(xs[0], sorted, key)
  }

  /** `Enumerable.FirstOrDefault` on a sequence of references: `null` when empty. */
  function FirstOrDefault<X>(xs: seq<X>): (r: Option<X>)
    ensures r.None? <==> |xs| == 0
    ensures r.Some? ==> r.value == xs[0]
  {
    if |xs| == 0 then None else Some(xs[0])
  }

  /** The reference choice: the earliest element with the greatest key. */
  function FirstLongest<X>(xs: seq<X>, key: X -> nat): (k: nat)
    requires |xs| > 0
    ensures IsFirstLongest(xs, key, k)
  {
    if |xs| == 1 then
      0
    else
      var k := 1 + FirstLongest(xs[1..], key);
      if key(xs[k]) <= key(xs[0]) then 0 else k
  }

  /** Only one position is the earliest one holding a greatest key. */
  lemma FirstLongestUnique<X>(xs: seq<X>, key: X -> nat, k: int, k': int)
    requires IsFirstLongest(xs, key, k) && IsFirstLongest(xs, key, k')
    ensures k == k'
  {
    assert key(xs[k]) <= key(xs[k']) && key(xs[k']) <= key(xs[k]);
  }

  /** The stable sort puts the reference choice first. */
  lemma {:induction false} SortHeadIsFirstLongest<X>(xs: seq<X>, key: X -> nat)
    requires |xs| > 0
    ensures OrderByDescending(xs, key)[0] == xs[FirstLongest(xs, key)]
  {
    if |xs| > 1 {
      SortHeadIsFirstLongest(xs[1..], key);
    }
  }

  /** `xs.OrderByDescending(key).FirstOrDefault()`. */
  function Longest<X(==)>(xs: seq<X>, key: X -> nat): (r: Option<X>)
  {
    FirstOrDefault(OrderByDescending(xs, key))
  }

  /** The pipeline yields nothing exactly for an empty input, and otherwise
      the earliest element with the greatest key. */
  lemma LongestIsFirstLongest<X>(xs: seq<X>, key: X -> nat)
    ensures Longest(xs, key).None? <==> |xs| == 0
    ensures Longest(xs, key).Some? ==> Longest(xs, key).value == xs[FirstLongest(xs, key)]
  {
    if |xs| > 0 {
      SortHeadIsFirstLongest(xs, key);
    } else {
      assert |OrderByDescending(xs, key)| == 0 by {
        assert |multiset(OrderByDescending(xs, key))| == 0;
      }
    }
  }
}
