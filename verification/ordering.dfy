/**
 * `ORDER BY key DESC` over a sequence of rows: an insertion sort on an
 * integer key, with the facts a caller needs about it (the result is in
 * descending key order and holds the same rows).
 */
module Ordering {

  predicate SortedDesc<T>(xs: seq<T>, key: T -> int) {
    forall k, l :: 0 <= k < l < |xs| ==> key(xs[k]) >= key(xs[l])
  }

  predicate Distinct<T(==)>(xs: seq<T>) {
    forall k, l :: 0 <= k < l < |xs| ==> xs[k] != xs[l]
  }

  /** The first position whose element's key is not above `x`'s (or the end). */
  function InsertPos<T>(x: T, xs: seq<T>, key: T -> int): (k: nat)
    ensures k <= |xs|
    ensures forall i :: 0 <= i < k ==> key(xs[i]) > key(x)
    ensures k < |xs| ==> key(xs[k]) <= key(x)
    decreases |xs|
  {
    if xs == [] || key(xs[0]) <= key(x) then 0 else 1 + InsertPos(x, xs[1..], key)
  }

  /** The element positions of `xs[..k] + [x] + xs[k..]`. */
  lemma InsertedShape<T>(x: T, xs: seq<T>, k: nat, r: seq<T>)
    requires k <= |xs| && r == xs[..k] + [x] + xs[k..]
    ensures |r| == |xs| + 1
    ensures forall i :: 0 <= i < k ==> r[i] == xs[i]
    ensures r[k] == x
    ensures forall i :: k < i < |r| ==> r[i] == xs[i - 1]
  {
  }

  lemma InsertKeepsOrder<T>(x: T, xs: seq<T>, key: T -> int, k: nat, r: seq<T>)
    requires SortedDesc(xs, key)
    requires k <= |xs| && r == xs[..k] + [x] + xs[k..]
    requires forall i :: 0 <= i < k ==> key(xs[i]) > key(x)
    requires k < |xs| ==> key(xs[k]) <= key(x)
    ensures SortedDesc(r, key)
  {
    InsertedShape(x, xs, k, r);
    forall a, b | 0 <= a < b < |r| ensures key(r[a]) >= key(r[b]) {
      if a == k && b > k {
        assert key(xs[k]) >= key(xs[b - 1]) || b - 1 == k;
      }
    }
  }

  lemma InsertKeepsDistinct<T>(x: T, xs: seq<T>, k: nat, r: seq<T>)
    requires k <= |xs| && r == xs[..k] + [x] + xs[k..]
    ensures Distinct(xs) && x !in xs ==> Distinct(r)
  {
    InsertedShape(x, xs, k, r);
    if Distinct(xs) && x !in xs {
      forall a, b | 0 <= a < b < |r| ensures r[a] != r[b] {
        if a == k {
          assert r[b] == xs[b - 1];
        } else if b == k {
          assert r[a] == xs[a];
        }
      }
    }
  }

  lemma InsertedMultiset<T>(x: T, xs: seq<T>, k: nat)
    requires k <= |xs|
    ensures multiset(xs[..k] + [x] + xs[k..]) == multiset(xs) + multiset{x}
  {
    assert xs == xs[..k] + xs[k..];
  }

  /** Insert `x` before the first element whose key is not above its key. */
  function InsertDesc<T(==)>(x: T, xs: seq<T>, key: T -> int): (r: seq<T>)
    requires SortedDesc(xs, key)
    ensures SortedDesc(r, key)
    ensures multiset(r) == multiset(xs) + multiset{x}
    ensures Distinct(xs) && x !in xs ==> Distinct(r)
  {
    var k := InsertPos(x, xs, key);
    var r := xs[..k] + [x] + xs[k..];
    InsertKeepsOrder(x, xs, key, k, r);
    InsertKeepsDistinct(x, xs, k, r);
    InsertedMultiset(x, xs, k);
    r
  }

  /** Descending by key; elements with equal keys come in no promised order. */
  function SortDesc<T(==)>(xs: seq<T>, key: T -> int): (r: seq<T>)
    ensures SortedDesc(r, key)
    ensures multiset(r) == multiset(xs)
    ensures Distinct(xs) ==> Distinct(r)
    decreases |xs|
  {
    if xs == [] then []
    else
      var tail := SortDesc(xs[1..], key);
      assert xs == [xs[0]] + xs[1..];
      assert Distinct(xs) ==> xs[0] !in tail by {
        if Distinct(xs) {
          assert forall j :: 0 <= j < |xs[1..]| ==> xs[1..][j] == xs[j + 1] != xs[0];
          assert xs[0] !in multiset(xs[1..]);
        }
      }
      InsertDesc(xs[0], tail, key)
  }
}
