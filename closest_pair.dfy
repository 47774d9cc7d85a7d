/** Closest pair of points under the Manhattan distance: of all pairs of
    indices i < j, one at the least distance, the lexicographically smallest
    such pair when several tie. */
module ClosestPair {

  /** Java's `Integer.MAX_VALUE`, the source's initial minimum distance. */
  const IntMax: int := 0x7fff_ffff

  function Abs(x: int): nat {
    if x < 0 then -x else x
  }

  /** |xs[i] - xs[j]| + |ys[i] - ys[j]|. */
  function Distance(xs: seq<int>, ys: seq<int>, i: nat, j: nat): nat
    requires i < |xs| && j < |xs| && |xs| <= |ys|
  {
    Abs(xs[i] - xs[j]) + Abs(ys[i] - ys[j])
  }

  /** (i1, j1) is lexicographically smaller than (i2, j2). */
  predicate LexLess(i1: int, j1: int, i2: int, j2: int) {
    i1 < i2 || (i1 == i2 && j1 < j2)
  }

  /** (a, b) is a pair of points at the least distance, and no pair at that
      distance is lexicographically smaller. */
  ghost predicate IsClosestPair(xs: seq<int>, ys: seq<int>, a: int, b: int)
    requires |xs| <= |ys|
  {
    && 0 <= a < b < |xs|
    && (forall i, j :: 0 <= i < j < |xs| ==> Distance(xs, ys, a, b) <= Distance(xs, ys, i, j))
    && (forall i, j :: 0 <= i < j < |xs| && Distance(xs, ys, i, j) == Distance(xs, ys, a, b) ==>
          !LexLess(i, j, a, b))
  }

  /** The source's `closestPair`: visits the pairs in lexicographic order and
      keeps the first one at a strictly smaller distance. Fewer than two points
      leave the pair at its initial [0, 0] without reading `ys`, so only two or
      more points need as many y- as x-coordinates. The last precondition says
      that every distance fits below the initial minimum (no Java `int`
      overflow). */
  method FindClosestPair(xs: seq<int>, ys: seq<int>) returns (first: int, second: int)
    requires |xs| < 2 || |xs| <= |ys|
    requires |xs| <= |ys| ==> forall i, j :: 0 <= i < j < |xs| ==> Distance(xs, ys, i, j) < IntMax
    ensures |xs| < 2 ==> first == 0 && second == 0
    ensures 2 <= |xs| ==> IsClosestPair(xs, ys, first, second)
  {
    var n := |xs|;
    var minDistance := IntMax;
    first, second := 0, 0;
    ghost var found := false;
    for i := 0 to n
      invariant !found ==> first == 0 && second == 0 && minDistance == IntMax
      invariant !found ==> i == 0 || n < 2
      invariant found ==> 0 <= first < second < n && first < i
      invariant found ==> minDistance == Distance(xs, ys, first, second)
      invariant found ==> forall a, b :: 0 <= a < b < n && a < i ==> minDistance <= Distance(xs, ys, a, b)
      invariant found ==> forall a, b :: 0 <= a < b < n && a < i && Distance(xs, ys, a, b) == minDistance ==>
                  !LexLess(a, b, first, second)
    {
      for j := i + 1 to n
        invariant !found ==> first == 0 && second == 0 && minDistance == IntMax
        invariant !found ==> (i == 0 && j == 1) || n < 2
        invariant found ==> 0 <= first < second < n && LexLess(first, second, i, j)
        invariant found ==> minDistance == Distance(xs, ys, first, second)
        invariant found ==> forall a, b :: 0 <= a < b < n && LexLess(a, b, i, j) ==> minDistance <= Distance(xs, ys, a, b)
        invariant found ==> forall a, b :: 0 <= a < b < n && LexLess(a, b, i, j) && Distance(xs, ys, a, b) == minDistance ==>
                    !LexLess(a, b, first, second)
      {
        var distance := Abs(xs[i] - xs[j]) + Abs(ys[i] - ys[j]);
        if distance < minDistance {
          minDistance := distance;
          first, second := i, j;
          found := true;
        } else if distance == minDistance {
          // The pair kept so far precedes (i, j), so the test below always fails.
          assert !LexLess(i, j, first, second);
          if i < first || (i == first && j < second) {
            first, second := i, j;
          }
        }
      }
    }
  }

  /** The answer is unique: two pairs that both satisfy the contract are equal. */
  lemma ClosestPairUnique(xs: seq<int>, ys: seq<int>, a1: int, b1: int, a2: int, b2: int)
    requires |xs| <= |ys|
    requires IsClosestPair(xs, ys, a1, b1) && IsClosestPair(xs, ys, a2, b2)
    ensures a1 == a2 && b1 == b2
  {
    assert Distance(xs, ys, a1, b1) == Distance(xs, ys, a2, b2);
    assert !LexLess(a1, b1, a2, b2) && !LexLess(a2, b2, a1, b1);
  }

  /** The worked example: for x = [1, 2, 3, 2, 4], y = [2, 3, 1, 2, 3] the
      answer is [0, 3], at distance 1. */
  lemma Example()
    ensures IsClosestPair([1, 2, 3, 2, 4], [2, 3, 1, 2, 3], 0, 3)
  {
    var xs, ys := [1, 2, 3, 2, 4], [2, 3, 1, 2, 3];
    assert Distance(xs, ys, 0, 3) == 1;
    forall i, j | 0 <= i < j < 5
      ensures 1 <= Distance(xs, ys, i, j)
      ensures Distance(xs, ys, i, j) == 1 ==> !LexLess(i, j, 0, 3)
    {
      assert i == 0 || i == 1 || i == 2 || i == 3;
      assert j == 1 || j == 2 || j == 3 || j == 4;
    }
  }
}
