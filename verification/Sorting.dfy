/** One insertion sort, by a key of two numbers. It stands in for the library's
    sort wherever a list is ordered by identity, by place or by interval. */
module Sorting {

  datatype SortKey = SortKey(major: nat, minor: nat)

  predicate KeyBelow(a: SortKey, b: SortKey) {
    a.major < b.major || (a.major == b.major && a.minor < b.minor)
  }

  ghost predicate KeysAscend<T>(xs: seq<T>, key: T -> SortKey) {
    forall i, j :: 0 <= i < j < |xs| ==> !KeyBelow(key(xs[j]), key(xs[i]))
  }

  /** Nothing before `k` is above `x`, nothing from `k` on is below it. */
  ghost predicate FitsAt<T>(xs: seq<T>, key: T -> SortKey, k: nat, x: T) {
    && k <= |xs|
    && (forall j :: 0 <= j < k ==> !KeyBelow(key(x), key(xs[j])))
    && (forall j :: k <= j < |xs| ==> !KeyBelow(key(xs[j]), key(x)))
  }

  lemma {:induction false} InsertAscends<T>(xs: seq<T>, key: T -> SortKey, k: nat, x: T)
    requires KeysAscend(xs, key) && FitsAt(xs, key, k, x)
    ensures KeysAscend(xs[..k] + [x] + xs[k..], key)
  {
    hide KeyBelow;
    var r := xs[..k] + [x] + xs[k..];
    forall i, j | 0 <= i < j < |r|
      ensures !KeyBelow(key(r[j]), key(r[i]))
    {
      var oi, oj := if i < k then i else i - 1, if j < k then j else j - 1;
      if i != k && j != k { assert !KeyBelow(key(xs[oj]), key(xs[oi])); }
    }
  }

  /** Sorted, and the same elements as often. */
  method SortBy<T(==)>(xs: seq<T>, key: T -> SortKey) returns (ys: seq<T>)
    ensures KeysAscend(ys, key) && multiset(ys) == multiset(xs)
    ensures |ys| == |xs| && forall y :: y in ys <==> y in xs
  {
    ys := [];
    for i := 0 to |xs|
      invariant KeysAscend(ys, key) && multiset(ys) == multiset(xs[..i]) && |ys| == i
    {
      var k: nat := |ys|;
      while k > 0 && KeyBelow(key(xs[i]), key(ys[k - 1]))
        invariant k <= |ys| && forall j :: k <= j < |ys| ==> KeyBelow(key(xs[i]), key(ys[j]))
      {
        k := k - 1;
      }
      BehindFits(ys, key, k, xs[i]);
      InsertAscends(ys, key, k, xs[i]);
      assert ys == ys[..k] + ys[k..] && xs[..i + 1] == xs[..i] + [xs[i]];
      ys := ys[..k] + [xs[i]] + ys[k..];
    }
    assert xs[..|xs|] == xs;
    forall y
      ensures y in ys <==> y in xs
    {
      assert y in multiset(ys) <==> y in multiset(xs);
    }
  }

  lemma {:induction false} BehindFits<T>(xs: seq<T>, key: T -> SortKey, k: nat, x: T)
    requires KeysAscend(xs, key) && k <= |xs|
    requires k > 0 ==> !KeyBelow(key(x), key(xs[k - 1]))
    requires forall j :: k <= j < |xs| ==> KeyBelow(key(x), key(xs[j]))
    ensures FitsAt(xs, key, k, x)
  {
    forall j | 0 <= j < k
      ensures !KeyBelow(key(x), key(xs[j]))
    {
      assert j < k - 1 ==> !KeyBelow(key(xs[k - 1]), key(xs[j]));
    }
  }

  lemma {:induction false} AheadFits<T>(xs: seq<T>, key: T -> SortKey, k: nat, x: T)
    requires KeysAscend(xs, key) && k <= |xs|
    requires k < |xs| ==> !KeyBelow(key(xs[k]), key(x))
    requires forall j :: 0 <= j < k ==> KeyBelow(key(xs[j]), key(x))
    ensures FitsAt(xs, key, k, x)
  {
    forall j | k <= j < |xs|
      ensures !KeyBelow(key(xs[j]), key(x))
    {
      assert k < j ==> !KeyBelow(key(xs[j]), key(xs[k]));
    }
  }

  ghost predicate NoneTwice<T>(xs: seq<T>) {
    forall i, j :: 0 <= i < j < |xs| ==> xs[i] != xs[j]
  }

  lemma {:induction false} AtMostOnce<T>(xs: seq<T>, x: T)
    requires NoneTwice(xs)
    ensures multiset(xs)[x] <= 1
  {
    if xs != [] {
      var n := |xs| - 1;
      assert xs == xs[..n] + [xs[n]];
      AtMostOnce(xs[..n], x);
      if xs[n] == x { assert x !in multiset(xs[..n]) by { assert x !in xs[..n]; } }
    }
  }

  /** A rearrangement repeats nothing either. */
  lemma {:induction false} RearrangedNoneTwice<T>(xs: seq<T>, ys: seq<T>)
    requires multiset(xs) == multiset(ys) && NoneTwice(xs)
    ensures NoneTwice(ys)
  {
    forall i, j | 0 <= i < j < |ys|
      ensures ys[i] != ys[j]
    {
      AtMostOnce(xs, ys[j]);
      assert ys == ys[..j] + [ys[j]] + ys[j + 1..];
      assert multiset(ys) == multiset(ys[..j]) + multiset{ys[j]} + multiset(ys[j + 1..]);
      assert ys[i] in multiset(ys[..j]) by { assert ys[..j][i] == ys[i]; }
    }
  }
}
