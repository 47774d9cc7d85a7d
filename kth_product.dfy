/** The k-th lowest combined return: of all products returns1[i] * returns2[j]
    (one investment from each array), the k-th smallest, counting repeats. */
module KthProduct {
  import Sorting

  datatype Error =
    | KExceedsProducts   // the source's IllegalArgumentException: k is larger than the number of products
    | IndexOutOfBounds   // the source's list index exception: k is below 1

  datatype Result = Ok(value: int) | Err(error: Error)

  function Id(x: int): int {
    x
  }

  /** The products of `x` with each of `b`, in the order of `b`. */
  function Row(x: int, b: seq<int>): (r: seq<int>)
    ensures |r| == |b|
    ensures forall j :: 0 <= j < |b| ==> r[j] == x * b[j]
  {
    seq(|b|, j requires 0 <= j < |b| => x * b[j])
  }

  /** The products in the order the source's nested loops append them: the row
      of returns1[0] first, then that of returns1[1], and so on. */
  function Products(a: seq<int>, b: seq<int>): seq<int> {
    if a == [] then [] else Products(a[..|a| - 1], b) + Row(a[|a| - 1], b)
  }

  /** The number of elements of `s` below `v`. */
  function CountBelow(s: seq<int>, v: int): nat {
    if s == [] then 0 else (if s[0] < v then 1 else 0) + CountBelow(s[1..], v)
  }

  /** The number of elements of `s` at most `v`. */
  function CountAtMost(s: seq<int>, v: int): nat {
    if s == [] then 0 else (if s[0] <= v then 1 else 0) + CountAtMost(s[1..], v)
  }

  /** The source's `kthLowestCombinedReturn`: appends every product, rejects a
      `k` beyond their number, sorts them and returns the element at `k - 1`. */
  method KthLowestCombinedReturn(returns1: seq<int>, returns2: seq<int>, k: int) returns (r: Result)
    ensures |Products(returns1, returns2)| == |returns1| * |returns2|
    ensures r == Err(KExceedsProducts) <==> |returns1| * |returns2| < k
    ensures r == Err(IndexOutOfBounds) <==> k < 1
    ensures r.Ok? ==> r.value == Sorting.SortBy(Products(returns1, returns2), Id)[k - 1]
    ensures r.Ok? ==> exists i, j :: 0 <= i < |returns1| && 0 <= j < |returns2| && r.value == returns1[i] * returns2[j]
    ensures r.Ok? ==> CountBelow(Products(returns1, returns2), r.value) < k
    ensures r.Ok? ==> k <= CountAtMost(Products(returns1, returns2), r.value)
  {
    var products: seq<int> := [];
    for i := 0 to |returns1|
      invariant products == Products(returns1[..i], returns2)
    {
      for j := 0 to |returns2|
        invariant products == Products(returns1[..i], returns2) + Row(returns1[i], returns2[..j])
      {
        assert Row(returns1[i], returns2[..j + 1]) == Row(returns1[i], returns2[..j]) + [returns1[i] * returns2[j]];
        products := products + [returns1[i] * returns2[j]];
      }
      assert returns1[..i + 1][..i] == returns1[..i];
      assert returns2[..|returns2|] == returns2;
    }
    assert returns1[..|returns1|] == returns1;
    ProductsLength(returns1, returns2);
    if |products| < k {
      return Err(KExceedsProducts);
    }
    var unsorted := products;
    products := Sorting.SortBy(products, Id);
    if k < 1 {
      return Err(IndexOutOfBounds);
    }
    r := Ok(products[k - 1]);
    KthIsAProduct(returns1, returns2, k);
    KthRank(unsorted, k);
  }

  lemma {:induction false} ProductsLength(a: seq<int>, b: seq<int>)
    ensures |Products(a, b)| == |a| * |b|
  {
    if a != [] {
      ProductsLength(a[..|a| - 1], b);
      assert |a| * |b| == (|a| - 1) * |b| + |b|;
    }
  }

  /** Entry i * |b| + j of the list is returns1[i] * returns2[j]: one entry per
      pair of indices. */
  lemma {:induction false} ProductsAt(a: seq<int>, b: seq<int>, i: nat, j: nat)
    requires i < |a| && j < |b|
    ensures i * |b| + j < |Products(a, b)|
    ensures Products(a, b)[i * |b| + j] == a[i] * b[j]
  {
    var init := a[..|a| - 1];
    if i < |a| - 1 {
      ProductsAt(init, b, i, j);
    } else {
      ProductsLength(init, b);
      assert i * |b| == |Products(init, b)|;
    }
  }

  /** Every entry of the list is the product of some pair. */
  lemma {:induction false} ProductsAreProducts(a: seq<int>, b: seq<int>, n: nat)
    requires n < |Products(a, b)|
    ensures exists i, j :: 0 <= i < |a| && 0 <= j < |b| && Products(a, b)[n] == a[i] * b[j]
  {
    var init := a[..|a| - 1];
    if n < |Products(init, b)| {
      ProductsAreProducts(init, b, n);
      var i, j :| 0 <= i < |init| && 0 <= j < |b| && Products(init, b)[n] == init[i] * b[j];
      assert a[i] == init[i];
    } else {
      var j := n - |Products(init, b)|;
      assert Products(a, b)[n] == a[|a| - 1] * b[j];
    }
  }

  lemma KthIsAProduct(a: seq<int>, b: seq<int>, k: int)
    requires 1 <= k <= |Products(a, b)|
    ensures exists i, j :: 0 <= i < |a| && 0 <= j < |b| && Sorting.SortBy(Products(a, b), Id)[k - 1] == a[i] * b[j]
  {
    var p := Products(a, b);
    var sorted := Sorting.SortBy(p, Id);
    Sorting.SortByPermutes(p, Id);
    assert sorted[k - 1] in multiset(p);
    var n :| 0 <= n < |p| && p[n] == sorted[k - 1];
    ProductsAreProducts(a, b, n);
  }

  lemma {:induction false} CountAppend(s: seq<int>, t: seq<int>, v: int)
    ensures CountBelow(s + t, v) == CountBelow(s, v) + CountBelow(t, v)
    ensures CountAtMost(s + t, v) == CountAtMost(s, v) + CountAtMost(t, v)
  {
    if s == [] {
      assert s + t == t;
    } else {
      assert (s + t)[1..] == s[1..] + t;
      CountAppend(s[1..], t, v);
    }
  }

  lemma {:induction false} CountInsert(x: int, s: seq<int>, v: int)
    ensures CountBelow(Sorting.Insert(x, s, Id), v) == CountBelow(s, v) + CountBelow([x], v)
    ensures CountAtMost(Sorting.Insert(x, s, Id), v) == CountAtMost(s, v) + CountAtMost([x], v)
  {
    if s != [] && x >= s[0] {
      CountInsert(x, s[1..], v);
    }
  }

  /** Sorting does not change how many products lie below (or at most) a value. */
  lemma {:induction false} CountSortBy(s: seq<int>, v: int)
    ensures CountBelow(Sorting.SortBy(s, Id), v) == CountBelow(s, v)
    ensures CountAtMost(Sorting.SortBy(s, Id), v) == CountAtMost(s, v)
  {
    if s != [] {
      var init, last := s[..|s| - 1], s[|s| - 1];
      CountSortBy(init, v);
      CountInsert(last, Sorting.SortBy(init, Id), v);
      assert s == init + [last];
      CountAppend(init, [last], v);
    }
  }

  lemma {:induction false} CountBelowSorted(t: seq<int>, m: nat, v: int)
    requires m <= |t|
    requires forall i :: m <= i < |t| ==> v <= t[i]
    ensures CountBelow(t, v) <= m
  {
    if t != [] {
      if m == 0 {
        CountBelowSorted(t[1..], 0, v);
      } else {
        CountBelowSorted(t[1..], m - 1, v);
      }
    }
  }

  lemma {:induction false} CountAtMostSorted(t: seq<int>, m: nat, v: int)
    requires m <= |t|
    requires forall i :: 0 <= i < m ==> t[i] <= v
    ensures m <= CountAtMost(t, v)
  {
    if m > 0 {
      CountAtMostSorted(t[1..], m - 1, v);
    }
  }

  /** The element at k - 1 of the sorted list is the k-th lowest: fewer than k
      entries lie below it and at least k lie at or below it. */
  lemma KthRank(s: seq<int>, k: int)
    requires 1 <= k <= |s|
    ensures CountBelow(s, Sorting.SortBy(s, Id)[k - 1]) < k
    ensures k <= CountAtMost(s, Sorting.SortBy(s, Id)[k - 1])
  {
    var t := Sorting.SortBy(s, Id);
    var v := t[k - 1];
    CountSortBy(s, v);
    Sorting.SortByOrdered(s, Id);
    Sorting.SortedAround(t, Id, k - 1);
    assert forall i :: k - 1 <= i < |t| ==> v <= t[i] by {
      forall i | k - 1 <= i < |t| ensures Id(v) <= Id(t[i]) { }
    }
    CountBelowSorted(t, k - 1, v);
    assert forall i :: 0 <= i < k ==> t[i] <= v by {
      forall i | 0 <= i < k ensures Id(t[i]) <= Id(v) { }
    }
    CountAtMostSorted(t, k, v);
  }

  lemma {:induction false} CountMonotone(s: seq<int>, v1: int, v2: int)
    requires v1 < v2
    ensures CountAtMost(s, v1) <= CountBelow(s, v2)
  {
    if s != [] {
      CountMonotone(s[1..], v1, v2);
    }
  }

  /** The rank condition singles out one value: the k-th lowest is the only `v`
      with fewer than k entries below it and at least k at or below it. */
  lemma KthUnique(s: seq<int>, k: int, v1: int, v2: int)
    requires CountBelow(s, v1) < k <= CountAtMost(s, v1)
    requires CountBelow(s, v2) < k <= CountAtMost(s, v2)
    ensures v1 == v2
  {
    if v1 < v2 {
      CountMonotone(s, v1, v2);
    } else if v2 < v1 {
      CountMonotone(s, v2, v1);
    }
  }

  /** The k-th lowest is the value with fewer than k entries below it and at
      least k at or below it. */
  lemma KthFromCounts(s: seq<int>, k: int, v: int)
    requires 1 <= k <= |s|
    requires CountBelow(s, v) < k <= CountAtMost(s, v)
    ensures Sorting.SortBy(s, Id)[k - 1] == v
  {
    KthRank(s, k);
    KthUnique(s, k, Sorting.SortBy(s, Id)[k - 1], v);
  }

  lemma ProductsSmall()
    ensures Products([2, 5], [3, 4]) == [6, 8, 15, 20]
  {
    assert [2, 5][..1] == [2];
    assert [2][..0] == [];
  }

  /** The first worked example: [2, 5] and [3, 4] with k = 2 give 8. */
  lemma ExampleSmall()
    ensures |Products([2, 5], [3, 4])| == 4
    ensures Sorting.SortBy(Products([2, 5], [3, 4]), Id)[1] == 8
  {
    ProductsSmall();
    var p := [6, 8, 15, 20];
    assert CountBelow(p, 8) == 1 && CountAtMost(p, 8) == 2 by {
      CountAppend([6, 8], [15, 20], 8);
      assert p == [6, 8] + [15, 20];
    }
    KthFromCounts(p, 2, 8);
  }

  lemma ProductsSigned()
    ensures Products([-4, -2, 0, 3], [2, 4]) == [-8, -16, -4, -8, 0, 0, 6, 12]
  {
    assert [-4, -2, 0, 3][..3] == [-4, -2, 0];
    assert [-4, -2, 0][..2] == [-4, -2];
    assert [-4, -2][..1] == [-4];
    assert [-4][..0] == [];
  }

  lemma CountsSigned()
    ensures CountBelow([-8, -16, -4, -8, 0, 0, 6, 12], 0) == 4
    ensures CountAtMost([-8, -16, -4, -8, 0, 0, 6, 12], 0) == 6
  {
    var lo, hi := [-8, -16, -4, -8], [0, 0, 6, 12];
    assert CountBelow(lo, 0) == 4 && CountAtMost(lo, 0) == 4;
    assert CountBelow(hi, 0) == 0 && CountAtMost(hi, 0) == 2;
    CountAppend(lo, hi, 0);
    assert lo + hi == [-8, -16, -4, -8, 0, 0, 6, 12];
  }

  /** The second worked example: [-4, -2, 0, 3] and [2, 4] with k = 6 give 0. */
  lemma ExampleSigned()
    ensures |Products([-4, -2, 0, 3], [2, 4])| == 8
    ensures Sorting.SortBy(Products([-4, -2, 0, 3], [2, 4]), Id)[5] == 0
  {
    ProductsSigned();
    var p := [-8, -16, -4, -8, 0, 0, 6, 12];
    CountsSigned();
    KthFromCounts(p, 6, 0);
  }
}
