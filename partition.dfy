/** Partitions of the nodes 0 .. n - 1 into classes, kept as one label per
    node, and Kruskal's edge selection written over them. This is the
    reference against which both union-find structures are proved: a node's
    label plays the part of its root, and two nodes are in one class exactly
    when their labels agree. */
module Partition {

  /** Every node in a class of its own. */
  function Initial(n: nat): (c: seq<int>)
    ensures |c| == n
    ensures forall i :: 0 <= i < n ==> c[i] == i
  {
    seq(n, i => i)
  }

  /** Joins the class of `a` with the class of `b`: every node labelled like
      `a` takes the label of `b`. */
  function Merge(c: seq<int>, a: int, b: int): (d: seq<int>)
    requires 0 <= a < |c| && 0 <= b < |c|
    ensures |d| == |c|
  {
    seq(|c|, i requires 0 <= i < |c| => if c[i] == c[a] then c[b] else c[i])
  }

  /** After a merge two nodes share a label exactly when they did before, or
      one was in the class of `a` and the other in the class of `b`. */
  lemma MergeJoins(c: seq<int>, a: int, b: int, i: int, j: int)
    requires 0 <= a < |c| && 0 <= b < |c| && 0 <= i < |c| && 0 <= j < |c|
    ensures Merge(c, a, b)[i] == Merge(c, a, b)[j]
        <==> c[i] == c[j] || (c[i] == c[a] && c[j] == c[b]) || (c[i] == c[b] && c[j] == c[a])
  {
  }

  /** Two labellings describe the same partition. */
  ghost predicate Agree(s: seq<int>, c: seq<int>) {
    && |s| == |c|
    && forall i, j :: 0 <= i < |s| && 0 <= j < |s| ==> (s[i] == s[j] <==> c[i] == c[j])
  }

  /** Joining the same two classes in two labellings of one partition, named
      by any of their members and in either order, keeps them in agreement. */
  lemma MergeAgree(s: seq<int>, c: seq<int>, a: int, b: int, x: int, y: int)
    requires Agree(s, c)
    requires 0 <= a < |s| && 0 <= b < |s| && 0 <= x < |s| && 0 <= y < |s|
    requires s[x] == s[a] && s[y] == s[b]
    ensures Agree(Merge(s, x, y), Merge(c, a, b))
    ensures Agree(Merge(s, y, x), Merge(c, a, b))
  {
    forall i, j | 0 <= i < |s| && 0 <= j < |s|
      ensures Merge(s, x, y)[i] == Merge(s, x, y)[j] <==> Merge(c, a, b)[i] == Merge(c, a, b)[j]
      ensures Merge(s, y, x)[i] == Merge(s, y, x)[j] <==> Merge(c, a, b)[i] == Merge(c, a, b)[j]
    {
      MergeJoins(s, x, y, i, j);
      MergeJoins(s, y, x, i, j);
      MergeJoins(c, a, b, i, j);
    }
  }

  /** The labels in use: one per class. */
  function Classes(c: seq<int>): set<int> {
    set i | 0 <= i < |c| :: c[i]
  }

  lemma ClassesAppend(c: seq<int>, x: int)
    ensures Classes(c + [x]) == Classes(c) + {x}
  {
    var d := c + [x];
    assert d[|c|] == x;
    forall y | y in Classes(c) ensures y in Classes(d) {
      var i :| 0 <= i < |c| && c[i] == y;
      assert d[i] == y;
    }
  }

  /** n nodes start out in n classes. */
  lemma {:induction false} InitialClasses(n: nat)
    ensures |Classes(Initial(n))| == n
  {
    if n > 0 {
      InitialClasses(n - 1);
      assert Initial(n) == Initial(n - 1) + [n - 1];
      ClassesAppend(Initial(n - 1), n - 1);
      assert n - 1 !in Classes(Initial(n - 1));
    }
  }

  /** Joining two different classes leaves one class fewer. */
  lemma MergeClasses(c: seq<int>, a: int, b: int)
    requires 0 <= a < |c| && 0 <= b < |c| && c[a] != c[b]
    ensures Classes(Merge(c, a, b)) == Classes(c) - {c[a]}
    ensures |Classes(Merge(c, a, b))| == |Classes(c)| - 1
  {
    var d := Merge(c, a, b);
    forall y | y in Classes(d) ensures y in Classes(c) - {c[a]} {
      var i :| 0 <= i < |d| && d[i] == y;
      if c[i] == c[a] {
        assert y == c[b];
      } else {
        assert y == c[i];
      }
    }
    forall y | y in Classes(c) - {c[a]} ensures y in Classes(d) {
      var i :| 0 <= i < |c| && c[i] == y;
      assert d[i] == y;
    }
    assert c[a] in Classes(c);
  }

  /** With a single class left, every two nodes are in it. */
  lemma OneClass(c: seq<int>, i: int, j: int)
    requires |Classes(c)| == 1
    requires 0 <= i < |c| && 0 <= j < |c|
    ensures c[i] == c[j]
  {
    assert c[i] in Classes(c) && c[j] in Classes(c);
    assert |Classes(c) - {c[i]}| == 0;
    assert c[j] !in Classes(c) - {c[i]};
  }

  /** When every node shares the label of node x, there is a single class. */
  lemma SingleClass(c: seq<int>, x: int)
    requires 0 <= x < |c|
    requires forall i :: 0 <= i < |c| ==> c[i] == c[x]
    ensures |Classes(c)| == 1
  {
    assert Classes(c) == {c[x]};
  }

  /** Kruskal's selection: the edges accepted so far (positions in the edge
      list) and the classes they have built. */
  datatype Forest = Forest(picked: seq<nat>, labels: seq<int>)

  /** When to stop: never, or right after accepting `count` edges. */
  datatype Limit = NoLimit | StopAt(count: nat)

  /** Every edge joins two of the nodes 0 .. n - 1. */
  ghost predicate EndsWithin(ends: seq<(int, int)>, n: int) {
    forall k :: 0 <= k < |ends| ==> 0 <= ends[k].0 < n && 0 <= ends[k].1 < n
  }

  /** Visits the edges from position `i` on, in order: an edge whose ends are
      in different classes is accepted and the two classes are joined; an
      edge inside one class is skipped. Reaching the limit ends the visit. */
  function KruskalFrom(ends: seq<(int, int)>, i: nat, f: Forest, limit: Limit): (g: Forest)
    requires EndsWithin(ends, |f.labels|)
    ensures |g.labels| == |f.labels|
    decreases |ends| - i
  {
    if i >= |ends| then f
    else
      var (u, v) := ends[i];
      if f.labels[u] == f.labels[v] then KruskalFrom(ends, i + 1, f, limit)
      else
        var g := Forest(f.picked + [i], Merge(f.labels, u, v));
        if limit == StopAt(|g.picked|) then g else KruskalFrom(ends, i + 1, g, limit)
  }

  /** Kruskal's selection over the edge list `ends` on `n` nodes. */
  function Kruskal(ends: seq<(int, int)>, n: nat, limit: Limit): (g: Forest)
    requires EndsWithin(ends, n)
    ensures |g.labels| == n
  {
    KruskalFrom(ends, 0, Forest([], Initial(n)), limit)
  }

  /** Accepted positions rise strictly and lie below `bound`. */
  ghost predicate Ordered(picked: seq<nat>, bound: int) {
    && (forall k, l :: 0 <= k < l < |picked| ==> picked[k] < picked[l])
    && (forall k :: 0 <= k < |picked| ==> picked[k] < bound)
  }

  /** Each accepted edge removed one class: with n nodes and m accepted edges
      there are n - m classes, which is what makes the accepted edges a
      forest (no accepted edge closes a cycle). */
  ghost predicate IsForest(f: Forest) {
    |Classes(f.labels)| + |f.picked| == |f.labels|
  }

  /** The two ends of every edge before position `i` are in one class. */
  ghost predicate Joins(ends: seq<(int, int)>, i: int, c: seq<int>)
    requires EndsWithin(ends, |c|) && i <= |ends|
  {
    forall k :: 0 <= k < i ==> c[ends[k].0] == c[ends[k].1]
  }

  /** The accepted edges form a subsequence of the edge list. */
  lemma {:induction false} KruskalOrdered(ends: seq<(int, int)>, i: nat, f: Forest, limit: Limit)
    requires EndsWithin(ends, |f.labels|) && i <= |ends|
    requires Ordered(f.picked, i)
    ensures Ordered(KruskalFrom(ends, i, f, limit).picked, |ends|)
    decreases |ends| - i
  {
    if i < |ends| {
      var (u, v) := ends[i];
      if f.labels[u] == f.labels[v] {
        KruskalOrdered(ends, i + 1, f, limit);
      } else {
        var g := Forest(f.picked + [i], Merge(f.labels, u, v));
        assert Ordered(g.picked, i + 1);
        if limit != StopAt(|g.picked|) {
          KruskalOrdered(ends, i + 1, g, limit);
        }
      }
    }
  }

  /** Every accepted edge joins two different classes. */
  lemma {:induction false} KruskalForest(ends: seq<(int, int)>, i: nat, f: Forest, limit: Limit)
    requires EndsWithin(ends, |f.labels|)
    requires IsForest(f)
    ensures IsForest(KruskalFrom(ends, i, f, limit))
    decreases |ends| - i
  {
    if i < |ends| {
      var (u, v) := ends[i];
      if f.labels[u] == f.labels[v] {
        KruskalForest(ends, i + 1, f, limit);
      } else {
        var g := Forest(f.picked + [i], Merge(f.labels, u, v));
        MergeClasses(f.labels, u, v);
        if limit != StopAt(|g.picked|) {
          KruskalForest(ends, i + 1, g, limit);
        }
      }
    }
  }

  /** When the visit ends, the ends of every edge are in one class, unless
      the limit cut the visit short. */
  lemma {:induction false} KruskalJoins(ends: seq<(int, int)>, i: nat, f: Forest, limit: Limit)
    requires EndsWithin(ends, |f.labels|) && i <= |ends|
    requires Joins(ends, i, f.labels)
    ensures var g := KruskalFrom(ends, i, f, limit);
      Joins(ends, |ends|, g.labels) || (limit.StopAt? && |g.picked| == limit.count)
    decreases |ends| - i
  {
    if i < |ends| {
      var (u, v) := ends[i];
      if f.labels[u] == f.labels[v] {
        KruskalJoins(ends, i + 1, f, limit);
      } else {
        var g := Forest(f.picked + [i], Merge(f.labels, u, v));
        if limit != StopAt(|g.picked|) {
          assert Joins(ends, i + 1, g.labels);
          KruskalJoins(ends, i + 1, g, limit);
        }
      }
    }
  }

  /** Kruskal's selection on n nodes: a subsequence of the edges, a forest, so
      at most n - 1 edges; and unless the limit stopped it, a spanning forest:
      the ends of every edge end up in one class. */
  lemma KruskalSpanningForest(ends: seq<(int, int)>, n: nat, limit: Limit)
    requires EndsWithin(ends, n)
    ensures Ordered(Kruskal(ends, n, limit).picked, |ends|)
    ensures IsForest(Kruskal(ends, n, limit))
    ensures 1 <= n ==> |Kruskal(ends, n, limit).picked| < n
    ensures Joins(ends, |ends|, Kruskal(ends, n, limit).labels)
         || (limit.StopAt? && |Kruskal(ends, n, limit).picked| == limit.count)
  {
    var f := Forest([], Initial(n));
    InitialClasses(n);
    KruskalOrdered(ends, 0, f, limit);
    KruskalForest(ends, 0, f, limit);
    KruskalJoins(ends, 0, f, limit);
    var g := Kruskal(ends, n, limit);
    if 1 <= n {
      assert g.labels[0] in Classes(g.labels);
    }
  }
  /** Labelling `c` is finer than `d`: nodes sharing a label in `c` share one
      in `d`. */
  ghost predicate Refines(c: seq<int>, d: seq<int>) {
    && |c| == |d|
    && forall x, y :: 0 <= x < |c| && 0 <= y < |c| && c[x] == c[y] ==> d[x] == d[y]
  }

  /** A finer partition has at least as many classes. */
  lemma {:induction false} RefinesClasses(c: seq<int>, d: seq<int>)
    requires Refines(c, d)
    ensures |Classes(d)| <= |Classes(c)|
    decreases |c|
  {
    if |c| == 0 {
      assert Classes(d) == {};
    } else {
      var m := |c| - 1;
      var c', d' := c[..m], d[..m];
      RefinesClasses(c', d');
      assert c == c' + [c[m]] && d == d' + [d[m]];
      ClassesAppend(c', c[m]);
      ClassesAppend(d', d[m]);
      if c[m] in Classes(c') {
        var x :| 0 <= x < m && c'[x] == c[m];
        assert d'[x] == d[m];
      }
    }
  }

  /** Every selected position names an edge. */
  ghost predicate Selects(sel: seq<nat>, bound: int) {
    forall k :: 0 <= k < |sel| ==> sel[k] < bound
  }

  /** The labelling reached from `c` by joining, in turn, the classes of the
      two ends of the edge at each position of `sel`. */
  function SpanFrom(c: seq<int>, ends: seq<(int, int)>, sel: seq<nat>): (d: seq<int>)
    requires EndsWithin(ends, |c|) && Selects(sel, |ends|)
    ensures |d| == |c|
    decreases |sel|
  {
    if sel == [] then c
    else SpanFrom(Merge(c, ends[sel[0]].0, ends[sel[0]].1), ends, sel[1..])
  }

  /** Joining along a selection is joining along its first t positions, then
      along the rest. */
  lemma {:induction false} SpanSplit(c: seq<int>, ends: seq<(int, int)>, sel: seq<nat>, t: nat)
    requires EndsWithin(ends, |c|) && Selects(sel, |ends|) && t <= |sel|
    ensures SpanFrom(c, ends, sel) == SpanFrom(SpanFrom(c, ends, sel[..t]), ends, sel[t..])
    decreases t
  {
    if t == 0 {
      assert sel[..0] == [] && sel[0..] == sel;
    } else {
      var c' := Merge(c, ends[sel[0]].0, ends[sel[0]].1);
      SpanSplit(c', ends, sel[1..], t - 1);
      assert sel[..t][0] == sel[0] && sel[..t][1..] == sel[1..][..t - 1];
      assert sel[1..][t - 1..] == sel[t..];
    }
  }

  /** A merge removes at most one class. */
  lemma MergeLoses(c: seq<int>, a: int, b: int)
    requires 0 <= a < |c| && 0 <= b < |c|
    ensures |Classes(Merge(c, a, b))| >= |Classes(c)| - 1
  {
    if c[a] != c[b] {
      MergeClasses(c, a, b);
    } else {
      assert Merge(c, a, b) == c;
    }
  }

  /** Joining along m edges removes at most m classes. */
  lemma {:induction false} SpanClasses(c: seq<int>, ends: seq<(int, int)>, sel: seq<nat>)
    requires EndsWithin(ends, |c|) && Selects(sel, |ends|)
    ensures |Classes(SpanFrom(c, ends, sel))| >= |Classes(c)| - |sel|
    decreases |sel|
  {
    if sel != [] {
      var c' := Merge(c, ends[sel[0]].0, ends[sel[0]].1);
      MergeLoses(c, ends[sel[0]].0, ends[sel[0]].1);
      SpanClasses(c', ends, sel[1..]);
    }
  }

  /** Joining along edges whose ends already share a class of `m` keeps a
      labelling finer than `m`. */
  lemma {:induction false} SpanRefines(c: seq<int>, ends: seq<(int, int)>, sel: seq<nat>, m: seq<int>)
    requires EndsWithin(ends, |c|) && Selects(sel, |ends|)
    requires Refines(c, m)
    requires forall k :: 0 <= k < |sel| ==> m[ends[sel[k]].0] == m[ends[sel[k]].1]
    ensures Refines(SpanFrom(c, ends, sel), m)
    decreases |sel|
  {
    if sel != [] {
      var (a, b) := ends[sel[0]];
      var c' := Merge(c, a, b);
      assert m[a] == m[b];
      forall x, y | 0 <= x < |c| && 0 <= y < |c| && c'[x] == c'[y] ensures m[x] == m[y] {
        MergeJoins(c, a, b, x, y);
      }
      assert forall k :: 0 <= k < |sel| - 1 ==> sel[1..][k] == sel[k + 1];
      SpanRefines(c', ends, sel[1..], m);
    }
  }

  /** The ends of `sel`'s edges, joined from the classes of single nodes, end
      up in one class. */
  ghost predicate Connects(ends: seq<(int, int)>, n: nat, sel: seq<nat>) {
    && EndsWithin(ends, n)
    && Selects(sel, |ends|)
    && |Classes(SpanFrom(Initial(n), ends, sel))| == 1
  }

  /** Counting argument at a state of Kruskal's visit before position i, with
      the edges before i all inside classes: a selection `sel` joining all n
      nodes, of which the first t positions lie before i, keeps at least as
      many positions from t on as the classes still to be joined. */
  lemma RankBound(ends: seq<(int, int)>, f: Forest, i: nat, sel: seq<nat>, t: nat)
    requires i <= |ends| && Connects(ends, |f.labels|, sel)
    requires Joins(ends, i, f.labels) && IsForest(f)
    requires t <= |sel| && forall k :: 0 <= k < t ==> sel[k] < i
    ensures |sel| - t >= |f.labels| - 1 - |f.picked|
  {
    var n := |f.labels|;
    var c := SpanFrom(Initial(n), ends, sel[..t]);
    SpanRefines(Initial(n), ends, sel[..t], f.labels);
    RefinesClasses(c, f.labels);
    SpanSplit(Initial(n), ends, sel, t);
    SpanClasses(c, ends, sel[t..]);
  }

  /** What Kruskal's visit has accepted is a prefix of what it ends with. */
  lemma {:induction false} KruskalExtends(ends: seq<(int, int)>, i: nat, f: Forest, limit: Limit)
    requires EndsWithin(ends, |f.labels|)
    ensures f.picked <= KruskalFrom(ends, i, f, limit).picked
    decreases |ends| - i
  {
    if i < |ends| {
      var (u, v) := ends[i];
      if f.labels[u] == f.labels[v] {
        KruskalExtends(ends, i + 1, f, limit);
      } else {
        var g := Forest(f.picked + [i], Merge(f.labels, u, v));
        if limit != StopAt(|g.picked|) {
          KruskalExtends(ends, i + 1, g, limit);
        }
      }
    }
  }

  /** A selection joining all nodes keeps, from the first of its positions
      that is not before the j-th accepted edge on, at least as many
      positions as Kruskal accepts from its j-th edge on. */
  lemma {:induction false} KruskalBeats(ends: seq<(int, int)>, i: nat, f: Forest, limit: Limit,
                                        sel: seq<nat>, j: nat, t: nat)
    requires i <= |ends| && Connects(ends, |f.labels|, sel)
    requires Joins(ends, i, f.labels) && IsForest(f)
    requires |f.picked| <= j < |KruskalFrom(ends, i, f, limit).picked|
    requires t <= |sel| && forall k :: 0 <= k < t ==> sel[k] < KruskalFrom(ends, i, f, limit).picked[j]
    ensures |sel| - t >= |KruskalFrom(ends, i, f, limit).picked| - j
    decreases |ends| - i
  {
    var r := KruskalFrom(ends, i, f, limit);
    KruskalForest(ends, i, f, limit);
    assert r.labels[0] in Classes(r.labels);
    var (u, v) := ends[i];
    if f.labels[u] == f.labels[v] {
      KruskalBeats(ends, i + 1, f, limit, sel, j, t);
    } else {
      var g := Forest(f.picked + [i], Merge(f.labels, u, v));
      MergeClasses(f.labels, u, v);
      assert Joins(ends, i + 1, g.labels);
      if j == |f.picked| {
        if limit != StopAt(|g.picked|) {
          KruskalExtends(ends, i + 1, g, limit);
        }
        assert r.picked[j] == g.picked[j] == i;
        RankBound(ends, f, i, sel, t);
      } else {
        KruskalBeats(ends, i + 1, g, limit, sel, j, t);
      }
    }
  }

  /** Kruskal's selection is the cheapest in position order: pairing its
      edges with the last as many positions of any ordered selection that
      joins all n nodes, each accepted edge comes no later than its partner. */
  lemma KruskalDominates(ends: seq<(int, int)>, n: nat, limit: Limit, sel: seq<nat>, j: nat)
    requires 1 <= n && Connects(ends, n, sel) && Ordered(sel, |ends|)
    ensures |Kruskal(ends, n, limit).picked| <= |sel|
    ensures j < |Kruskal(ends, n, limit).picked| ==>
      Kruskal(ends, n, limit).picked[j] <= sel[j + |sel| - |Kruskal(ends, n, limit).picked|]
  {
    var f := Forest([], Initial(n));
    var p := Kruskal(ends, n, limit).picked;
    InitialClasses(n);
    KruskalSpanningForest(ends, n, limit);
    RankBound(ends, f, 0, sel, 0);
    if j < |p| && sel[j + |sel| - |p|] < p[j] {
      var t := j + |sel| - |p| + 1;
      KruskalBeats(ends, 0, f, limit, sel, j, t);
      assert false;
    }
  }
}
