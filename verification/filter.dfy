/**
 `Array.prototype.filter` over sequences, shared by the product list and the
 image links of a card.
 */
module Filter {

  /** `Array.prototype.filter`: the elements passing `f`, each as often as it occurs, in their order. */
  function Keep<T(==,!new)>(xs: seq<T>, f: T -> bool): (r: seq<T>)
    ensures |r| <= |xs|
    ensures forall x :: x in r <==> x in xs && f(x)
    ensures forall i :: 0 <= i < |r| ==> f(r[i])
    decreases |xs|
  {
    if |xs| == 0 then []
    else if f(xs[0]) then [xs[0]] + Keep(xs[1..], f)
    else Keep(xs[1..], f)
  }

  /** `a` is `b` with some elements dropped and the rest kept in order. */
  ghost predicate IsSubsequence<T>(a: seq<T>, b: seq<T>)
    decreases |b|
  {
    if |a| == 0 then true
    else if |b| == 0 then false
    else (a[0] == b[0] && IsSubsequence(a[1..], b[1..])) || IsSubsequence(a, b[1..])
  }

  /** Filtering keeps an order-preserving subsequence, with every passing element as often as before and no other. */
  lemma {:induction false} KeepIsSubsequence<T(!new)>(xs: seq<T>, f: T -> bool)
    ensures IsSubsequence(Keep(xs, f), xs)
    ensures forall x :: multiset(Keep(xs, f))[x] == if f(x) then multiset(xs)[x] else 0
    decreases |xs|
  {
    if |xs| > 0 {
      KeepIsSubsequence(xs[1..], f);
      assert xs == [xs[0]] + xs[1..];
      assert multiset(xs) == multiset([xs[0]]) + multiset(xs[1..]);
      if f(xs[0]) {
        var r := Keep(xs, f);
        assert r[0] == xs[0] && r[1..] == Keep(xs[1..], f);
      }
    }
  }

  /** Filtering a filtered list again by the same test changes nothing. */
  lemma {:induction false} KeepIdempotent<T(!new)>(xs: seq<T>, f: T -> bool)
    ensures Keep(Keep(xs, f), f) == Keep(xs, f)
    decreases |xs|
  {
    if |xs| > 0 {
      KeepIdempotent(xs[1..], f);
      if f(xs[0]) {
        var r := Keep(xs, f);
        assert r[0] == xs[0] && r[1..] == Keep(xs[1..], f);
      }
    }
  }

  /** A test every element passes keeps the list whole. */
  lemma {:induction false} KeepAll<T(!new)>(xs: seq<T>, f: T -> bool)
    requires forall i :: 0 <= i < |xs| ==> f(xs[i])
    ensures Keep(xs, f) == xs
    decreases |xs|
  {
    if |xs| > 0 {
      KeepAll(xs[1..], f);
      assert xs == [xs[0]] + xs[1..];
    }
  }

  /** Two tests that agree on every element keep the same elements. */
  lemma {:induction false} KeepSameTest<T(!new)>(xs: seq<T>, f: T -> bool, g: T -> bool)
    requires forall x | x in xs :: f(x) == g(x)
    ensures Keep(xs, f) == Keep(xs, g)
    decreases |xs|
  {
    if |xs| > 0 {
      assert forall x | x in xs[1..] :: x in xs;
      KeepSameTest(xs[1..], f, g);
    }
  }
}
