/** Forests of parent pointers, the shape both union-find structures keep:
    p[x] is the parent of x, and x is a root when p[x] == x. Every non-root
    ranks strictly below its parent, which is what makes the walk to the root
    end. `Root` follows the pointers; the lemmas say how the two updates the
    structures make, pointing a node straight at its root and hanging one
    root under another, move the roots. */
module ParentForest {
  import Partition

  /** Parents are nodes, and ranks rise strictly along every pointer. */
  ghost predicate Ranked(p: seq<int>, rk: seq<int>) {
    && |p| == |rk|
    && (forall x :: 0 <= x < |p| ==> 0 <= p[x] < |p|)
    && (forall x :: 0 <= x < |p| && p[x] != x ==> rk[x] < rk[p[x]])
  }

  /** The nodes ranked above `x`; the walk to the root shrinks this set. */
  ghost function Above(rk: seq<int>, x: int): set<int>
    requires 0 <= x < |rk|
  {
    set y | 0 <= y < |rk| && rk[x] < rk[y]
  }

  lemma AboveShrinks(p: seq<int>, rk: seq<int>, x: int)
    requires Ranked(p, rk) && 0 <= x < |p| && p[x] != x
    ensures Above(rk, p[x]) < Above(rk, x)
  {
    assert p[x] in Above(rk, x) - Above(rk, p[x]);
  }

  /** The root of `x`: the end of the walk along the parent pointers. */
  ghost function Root(p: seq<int>, rk: seq<int>, x: int): (r: int)
    requires Ranked(p, rk) && 0 <= x < |p|
    ensures 0 <= r < |p| && p[r] == r
    ensures r == x || rk[x] < rk[r]
    decreases Above(rk, x)
  {
    if p[x] == x then x
    else
      AboveShrinks(p, rk, x);
      Root(p, rk, p[x])
  }

  /** The root of every node. */
  ghost function Roots(p: seq<int>, rk: seq<int>): (s: seq<int>)
    requires Ranked(p, rk)
    ensures |s| == |p|
    ensures forall a :: 0 <= a < |s| ==> 0 <= s[a] < |p|
  {
    RootsBelowRange(p, rk, |p|);
    RootsBelow(p, rk, |p|)
  }

  /** The roots of the nodes 0 .. k - 1. */
  ghost function RootsBelow(p: seq<int>, rk: seq<int>, k: nat): (s: seq<int>)
    requires Ranked(p, rk) && k <= |p|
    ensures |s| == k
  {
    if k == 0 then [] else RootsBelow(p, rk, k - 1) + [Root(p, rk, k - 1)]
  }

  lemma RootsBelowRange(p: seq<int>, rk: seq<int>, k: nat)
    requires Ranked(p, rk) && k <= |p|
    ensures forall a :: 0 <= a < k ==> 0 <= RootsBelow(p, rk, k)[a] < |p|
  {
    forall a | 0 <= a < k ensures 0 <= RootsBelow(p, rk, k)[a] < |p| {
      RootsBelowAt(p, rk, k, a);
    }
  }

  lemma {:induction false} RootsBelowAt(p: seq<int>, rk: seq<int>, k: nat, a: int)
    requires Ranked(p, rk) && k <= |p| && 0 <= a < k
    ensures RootsBelow(p, rk, k)[a] == Root(p, rk, a)
  {
    if a < k - 1 {
      RootsBelowAt(p, rk, k - 1, a);
    }
  }

  /** Entry `a` of `Roots` is the root of `a`. */
  lemma RootsAt(p: seq<int>, rk: seq<int>, a: int)
    requires Ranked(p, rk) && 0 <= a < |p|
    ensures Roots(p, rk)[a] == Root(p, rk, a)
  {
    RootsBelowAt(p, rk, |p|, a);
  }

  /** Two forests with the same root everywhere have the same `Roots`. */
  lemma SameRoots(p: seq<int>, rk: seq<int>, q: seq<int>, rq: seq<int>)
    requires Ranked(p, rk) && Ranked(q, rq) && |p| == |q|
    requires forall a :: 0 <= a < |p| ==> Root(p, rk, a) == Root(q, rq, a)
    ensures Roots(p, rk) == Roots(q, rq)
  {
    forall a | 0 <= a < |p| ensures Roots(p, rk)[a] == Roots(q, rq)[a] {
      RootsAt(p, rk, a);
      RootsAt(q, rq, a);
    }
  }

  /** When every node is its own parent, every node is its own root. */
  lemma RootsOfSingletons(p: seq<int>, rk: seq<int>)
    requires Ranked(p, rk)
    requires forall a :: 0 <= a < |p| ==> p[a] == a
    ensures Roots(p, rk) == p
  {
    forall a | 0 <= a < |p| ensures Roots(p, rk)[a] == p[a] {
      RootsAt(p, rk, a);
    }
  }

  /** Pointing `x` straight at its root keeps the ranks rising and moves no
      node to another root: the path compression step. */
  lemma {:induction false} Compress(p: seq<int>, rk: seq<int>, x: int, y: int)
    requires Ranked(p, rk) && 0 <= x < |p| && 0 <= y < |p|
    ensures Ranked(p[x := Root(p, rk, x)], rk)
    ensures Root(p[x := Root(p, rk, x)], rk, y) == Root(p, rk, y)
    decreases Above(rk, y)
  {
    var r := Root(p, rk, x);
    var q := p[x := r];
    assert Ranked(q, rk);
    if y == x {
      if r != x {
        assert q[r] == r;
        assert Root(q, rk, x) == Root(q, rk, r);
      } else {
        assert q == p;
      }
    } else if p[y] != y {
      AboveShrinks(p, rk, y);
      Compress(p, rk, x, p[y]);
    }
  }

  /** Path compression seen on all roots at once: nothing moves. */
  lemma CompressRoots(p: seq<int>, rk: seq<int>, x: int)
    requires Ranked(p, rk) && 0 <= x < |p|
    ensures Ranked(p[x := Root(p, rk, x)], rk)
    ensures Roots(p[x := Root(p, rk, x)], rk) == Roots(p, rk)
  {
    Compress(p, rk, x, x);
    forall y | 0 <= y < |p| ensures Root(p[x := Root(p, rk, x)], rk, y) == Root(p, rk, y) {
      Compress(p, rk, x, y);
    }
    SameRoots(p[x := Root(p, rk, x)], rk, p, rk);
  }

  /** Hanging root `b` under root `a` of higher rank keeps the ranks rising;
      the nodes of `b`'s tree now have root `a`, the others keep theirs. */
  lemma {:induction false} Link(p: seq<int>, rk: seq<int>, a: int, b: int, y: int)
    requires Ranked(p, rk) && 0 <= a < |p| && 0 <= b < |p| && 0 <= y < |p|
    requires p[a] == a && p[b] == b && rk[b] < rk[a]
    ensures Ranked(p[b := a], rk)
    ensures Root(p[b := a], rk, y) == if Root(p, rk, y) == b then a else Root(p, rk, y)
    decreases Above(rk, y)
  {
    var q := p[b := a];
    assert Ranked(q, rk);
    if y == b {
      assert Root(q, rk, b) == Root(q, rk, a);
    } else if p[y] != y {
      AboveShrinks(p, rk, y);
      Link(p, rk, a, b, p[y]);
    }
  }

  /** Raising the rank of a root to `h` keeps the ranks rising and moves no
      root. */
  lemma {:induction false} Raise(p: seq<int>, rk: seq<int>, a: int, h: int, y: int)
    requires Ranked(p, rk) && 0 <= a < |p| && 0 <= y < |p| && p[a] == a && rk[a] <= h
    ensures Ranked(p, rk[a := h])
    ensures Root(p, rk[a := h], y) == Root(p, rk, y)
    decreases Above(rk, y)
  {
    var rk' := rk[a := h];
    assert Ranked(p, rk');
    if p[y] != y {
      AboveShrinks(p, rk, y);
      Raise(p, rk, a, h, p[y]);
    }
  }

  /** Raising the rank of a root, seen on all roots at once: nothing moves. */
  lemma RaiseRoots(p: seq<int>, rk: seq<int>, a: int, h: int)
    requires Ranked(p, rk) && 0 <= a < |p| && p[a] == a && rk[a] <= h
    ensures Ranked(p, rk[a := h])
    ensures Roots(p, rk[a := h]) == Roots(p, rk)
  {
    Raise(p, rk, a, h, a);
    forall y | 0 <= y < |p| ensures Root(p, rk[a := h], y) == Root(p, rk, y) {
      Raise(p, rk, a, h, y);
    }
    SameRoots(p, rk[a := h], p, rk);
  }

  /** The root that stays a root when roots `a` and `b` are joined by rank:
      the one of higher rank, and `a` when the ranks are equal. */
  function Winner(rk: seq<int>, a: int, b: int): int
    requires 0 <= a < |rk| && 0 <= b < |rk|
  {
    if rk[a] < rk[b] then b else a
  }

  /** The parents after joining roots `a` and `b` by rank. */
  function LinkParents(p: seq<int>, rk: seq<int>, a: int, b: int): seq<int>
    requires |p| == |rk| && 0 <= a < |p| && 0 <= b < |p|
  {
    if rk[a] < rk[b] then p[a := b] else p[b := a]
  }

  /** The ranks after joining roots `a` and `b` by rank: only a tie raises one. */
  function LinkRanks(rk: seq<int>, a: int, b: int): seq<int>
    requires 0 <= a < |rk| && 0 <= b < |rk|
  {
    if rk[a] == rk[b] then rk[a := rk[a] + 1] else rk
  }

  /** Joining two different roots by rank keeps the ranks rising; the nodes of
      both trees end up under the winner and every other node keeps its root. */
  lemma UnionByRank(p: seq<int>, rk: seq<int>, a: int, b: int, y: int)
    requires Ranked(p, rk) && 0 <= a < |p| && 0 <= b < |p| && 0 <= y < |p|
    requires p[a] == a && p[b] == b && a != b
    ensures Ranked(LinkParents(p, rk, a, b), LinkRanks(rk, a, b))
    ensures Root(LinkParents(p, rk, a, b), LinkRanks(rk, a, b), y)
         == if Root(p, rk, y) == a || Root(p, rk, y) == b then Winner(rk, a, b) else Root(p, rk, y)
  {
    if rk[a] < rk[b] {
      assert LinkParents(p, rk, a, b) == p[a := b] && LinkRanks(rk, a, b) == rk;
      Link(p, rk, b, a, y);
      Link(p, rk, b, a, b);
    } else if rk[b] < rk[a] {
      assert LinkParents(p, rk, a, b) == p[b := a] && LinkRanks(rk, a, b) == rk;
      Link(p, rk, a, b, y);
      Link(p, rk, a, b, a);
    } else {
      var rk' := rk[a := rk[a] + 1];
      assert LinkParents(p, rk, a, b) == p[b := a] && LinkRanks(rk, a, b) == rk';
      Raise(p, rk, a, rk[a] + 1, y);
      Raise(p, rk, a, rk[a] + 1, a);
      Link(p, rk', a, b, y);
      Link(p, rk', a, b, a);
    }
  }

  /** Joining the roots of x and y by rank, seen on all roots at once: the
      class of the loser takes the winner as its root, as `Partition.Merge`
      relabels one class with the label of another. */
  lemma UnionRoots(p: seq<int>, rk: seq<int>, x: int, y: int)
    requires Ranked(p, rk) && 0 <= x < |p| && 0 <= y < |p|
    requires Root(p, rk, x) != Root(p, rk, y)
    ensures var a, b := Root(p, rk, x), Root(p, rk, y);
      && Ranked(LinkParents(p, rk, a, b), LinkRanks(rk, a, b))
      && Roots(LinkParents(p, rk, a, b), LinkRanks(rk, a, b))
         == if rk[a] < rk[b] then Partition.Merge(Roots(p, rk), x, y) else Partition.Merge(Roots(p, rk), y, x)
  {
    var a, b := Root(p, rk, x), Root(p, rk, y);
    UnionByRank(p, rk, a, b, x);
    var s := Roots(p, rk);
    var t := Roots(LinkParents(p, rk, a, b), LinkRanks(rk, a, b));
    var target := if rk[a] < rk[b] then Partition.Merge(s, x, y) else Partition.Merge(s, y, x);
    RootsAt(p, rk, x);
    RootsAt(p, rk, y);
    forall i | 0 <= i < |p|
      ensures t[i] == target[i]
    {
      UnionByRank(p, rk, a, b, i);
      RootsAt(p, rk, i);
      RootsAt(LinkParents(p, rk, a, b), LinkRanks(rk, a, b), i);
    }
  }

  /** Hanging the root of x under the root of y, with no ranks kept by the
      structure itself: raising the rank of the new parent above the old
      root keeps the ranks rising, and the class of x takes the root of y,
      as `Partition.Merge` relabels it. */
  lemma Hang(p: seq<int>, rk: seq<int>, x: int, y: int)
    requires Ranked(p, rk) && 0 <= x < |p| && 0 <= y < |p|
    requires Root(p, rk, x) != Root(p, rk, y)
    ensures var a, b := Root(p, rk, x), Root(p, rk, y);
      var rk' := rk[b := if rk[a] < rk[b] then rk[b] else rk[a] + 1];
      && Ranked(p[a := b], rk')
      && Roots(p[a := b], rk') == Partition.Merge(Roots(p, rk), x, y)
  {
    var a, b := Root(p, rk, x), Root(p, rk, y);
    var rk' := rk[b := if rk[a] < rk[b] then rk[b] else rk[a] + 1];
    RaiseRoots(p, rk, b, rk'[b]);
    RootsAt(p, rk, x);
    RootsAt(p, rk, y);
    RootsAt(p, rk', x);
    RootsAt(p, rk', y);
    assert Root(p, rk', x) == a && Root(p, rk', y) == b && rk'[a] < rk'[b];
    UnionRoots(p, rk', x, y);
    assert LinkParents(p, rk', a, b) == p[a := b] && LinkRanks(rk', a, b) == rk';
    assert Roots(p, rk') == Roots(p, rk);
  }
}
