/** The network graph behind the visualizer: nodes and weighted links, the
    cheapest spanning forest by Kruskal's algorithm over a disjoint-set
    structure without ranks, the shortest path by Dijkstra's algorithm over
    bandwidths, and the cost and latency totals. A node is identified by its
    position in the node list. */
module Network {
  import Sorting
  import Partition
  import ParentForest

  datatype Node = Node(name: string, x: int, y: int)

  /** A link between the nodes at positions node1 and node2. */
  datatype Edge = Edge(node1: int, node2: int, cost: int, bandwidth: int)

  function Cost(e: Edge): int {
    e.cost
  }

  function Bandwidth(e: Edge): int {
    e.bandwidth
  }

  /** The sum of `key` over the edges, as the stream sums compute it. */
  function SumOf(es: seq<Edge>, key: Edge -> int): int {
    if es == [] then 0 else SumOf(es[..|es| - 1], key) + key(es[|es| - 1])
  }

  lemma SumOfAppend(es: seq<Edge>, e: Edge, key: Edge -> int)
    ensures SumOf(es + [e], key) == SumOf(es, key) + key(e)
  {
    assert (es + [e])[..|es|] == es;
  }

  lemma {:induction false} SumOfCons(e: Edge, es: seq<Edge>, key: Edge -> int)
    ensures SumOf([e] + es, key) == key(e) + SumOf(es, key)
    decreases |es|
  {
    if es != [] {
      var init, last := es[..|es| - 1], es[|es| - 1];
      assert ([e] + es)[..|es|] == [e] + init;
      SumOfCons(e, init, key);
    }
  }

  lemma {:induction false} SumOfInsert(x: Edge, s: seq<Edge>, sortKey: Edge -> int, key: Edge -> int)
    ensures SumOf(Sorting.Insert(x, s, sortKey), key) == SumOf(s, key) + key(x)
  {
    if s == [] || sortKey(x) < sortKey(s[0]) {
      SumOfCons(x, s, key);
    } else {
      SumOfInsert(x, s[1..], sortKey, key);
      SumOfCons(s[0], Sorting.Insert(x, s[1..], sortKey), key);
      SumOfCons(s[0], s[1..], key);
      assert [s[0]] + s[1..] == s;
    }
  }

  /** Sorting the edges, as `getMST` does to the graph's own list, leaves
      every total unchanged. */
  lemma {:induction false} SumOfSortBy(es: seq<Edge>, sortKey: Edge -> int, key: Edge -> int)
    ensures SumOf(Sorting.SortBy(es, sortKey), key) == SumOf(es, key)
  {
    if es != [] {
      var init, last := es[..|es| - 1], es[|es| - 1];
      SumOfSortBy(init, sortKey, key);
      SumOfInsert(last, Sorting.SortBy(init, sortKey), sortKey, key);
    }
  }

  /** Every edge joins two of the nodes 0 .. n - 1. */
  ghost predicate EdgesWithin(es: seq<Edge>, n: int) {
    forall k :: 0 <= k < |es| ==> 0 <= es[k].node1 < n && 0 <= es[k].node2 < n
  }

  /** The two ends of each edge. */
  function Ends(es: seq<Edge>): (ends: seq<(int, int)>)
    ensures |ends| == |es|
    ensures forall k :: 0 <= k < |es| ==> ends[k] == (es[k].node1, es[k].node2)
  {
    seq(|es|, k requires 0 <= k < |es| => (es[k].node1, es[k].node2))
  }

  lemma EndsWithin(es: seq<Edge>, n: int)
    requires EdgesWithin(es, n)
    ensures Partition.EndsWithin(Ends(es), n)
  {
  }

  /** Sorting keeps every edge, so the sorted edges join nodes 0 .. n - 1 too. */
  lemma SortedWithin(es: seq<Edge>, n: int)
    requires EdgesWithin(es, n)
    ensures EdgesWithin(Sorting.SortBy(es, Cost), n)
  {
    var sorted := Sorting.SortBy(es, Cost);
    Sorting.SortByPermutes(es, Cost);
    forall k | 0 <= k < |sorted|
      ensures 0 <= sorted[k].node1 < n && 0 <= sorted[k].node2 < n
    {
      assert sorted[k] in multiset(es);
    }
  }

  /** The edges at the positions `picked`, in that order. */
  function Chosen(es: seq<Edge>, picked: seq<nat>): (r: seq<Edge>)
    ensures |r| <= |picked|
  {
    if picked == [] then []
    else
      var last := picked[|picked| - 1];
      Chosen(es, picked[..|picked| - 1]) + (if last < |es| then [es[last]] else [])
  }

  lemma ChosenAppend(es: seq<Edge>, picked: seq<nat>, i: nat)
    requires i < |es|
    ensures Chosen(es, picked + [i]) == Chosen(es, picked) + [es[i]]
  {
    assert (picked + [i])[..|picked|] == picked;
  }

  /** With positions below |es|, the chosen edges are exactly es[picked[k]]. */
  lemma {:induction false} ChosenAt(es: seq<Edge>, picked: seq<nat>)
    requires forall k :: 0 <= k < |picked| ==> picked[k] < |es|
    ensures |Chosen(es, picked)| == |picked|
    ensures forall k :: 0 <= k < |picked| ==> Chosen(es, picked)[k] == es[picked[k]]
  {
    if picked != [] {
      var init := picked[..|picked| - 1];
      ChosenAt(es, init);
      assert Chosen(es, picked) == Chosen(es, init) + [es[picked[|picked| - 1]]];
      assert forall k :: 0 <= k < |init| ==> init[k] == picked[k];
    }
  }

  /** Edges chosen at increasing positions are a sub-multiset of the list. */
  lemma {:induction false} ChosenWithin(es: seq<Edge>, picked: seq<nat>, bound: nat)
    requires bound <= |es| && Partition.Ordered(picked, bound)
    ensures multiset(Chosen(es, picked)) <= multiset(es[..bound])
    decreases |picked|
  {
    if picked != [] {
      var m := |picked| - 1;
      var last := picked[m];
      ChosenWithin(es, picked[..m], last);
      assert Chosen(es, picked) == Chosen(es, picked[..m]) + [es[last]];
      assert es[..last + 1] == es[..last] + [es[last]];
      assert es[..bound] == es[..last + 1] + es[last + 1..bound];
    }
  }

  /** The disjoint-set structure of `getMST`: parent[i] is the parent of i, or
      -1 when i is a root. There are no ranks and no path compression; the
      ghost `height` ranks the nodes so that every parent is ranked above its
      child, which is what makes `find` end. */
  class DisjointSet {
    var parent: array<int>
    ghost var height: seq<int>

    ghost predicate Valid()
      reads this, parent
    {
      Linked(parent[..], height)
    }

    /** The root `find` reaches from each element. */
    ghost function Roots(): (s: seq<int>)
      reads this, parent
      requires Valid()
    {
      RootsOf(parent[..], height)
    }

    /** Every element starts as a root of its own. */
    constructor (size: nat)
      ensures Valid() && parent.Length == size && fresh(parent)
      ensures forall i :: 0 <= i < size ==> parent[i] == -1
      ensures Roots() == Partition.Initial(size)
    {
      parent := new int[size](_ => -1);
      height := seq(size, _ => 0);
      new;
      assert Pointers(parent[..]) == Partition.Initial(size);
      ParentForest.RootsOfSingletons(Pointers(parent[..]), height);
    }

    /** Follows the parents from i up to a root. */
    method Find(i: int) returns (r: int)
      requires Valid() && 0 <= i < parent.Length
      ensures r == Roots()[i] && 0 <= r < parent.Length && parent[r] == -1 && Roots()[r] == r
      decreases ParentForest.Above(height, i)
    {
      ghost var p := Pointers(parent[..]);
      ParentForest.RootsAt(p, height, i);
      if parent[i] == -1 {
        return i;
      }
      ParentForest.AboveShrinks(p, height, i);
      ParentForest.RootsAt(p, height, parent[i]);
      r := Find(parent[i]);
    }

    /** Hangs the root of i under the root of j when they differ: the class
        of i joins the class of j, labelled by the root of j. */
    method Union(i: int, j: int)
      requires Valid() && 0 <= i < parent.Length && 0 <= j < parent.Length
      modifies this, parent
      ensures Valid() && parent == old(parent)
      ensures Roots() == Partition.Merge(old(Roots()), i, j)
    {
      ghost var q, h := parent[..], height;
      var root1 := Find(i);
      var root2 := Find(j);
      if root1 != root2 {
        HangLinked(q, h, i, j);
        parent[root1] := root2;
        height := Lifted(h, root1, root2);
        assert parent[..] == q[root1 := root2];
      } else {
        assert Partition.Merge(RootsOf(q, h), i, j) == RootsOf(q, h);
      }
    }
  }

  /** The parent pointers with every root pointing at itself. */
  function Pointers(parent: seq<int>): (p: seq<int>)
    ensures |p| == |parent|
    ensures forall i :: 0 <= i < |parent| ==> p[i] == if parent[i] == -1 then i else parent[i]
  {
    seq(|parent|, i requires 0 <= i < |parent| => if parent[i] == -1 then i else parent[i])
  }

  /** A parent array of `DisjointSet` ranked by `height`: each entry is -1 or
      another element, and heights rise along every parent. */
  ghost predicate Linked(parent: seq<int>, height: seq<int>) {
    && |height| == |parent|
    && (forall i :: 0 <= i < |parent| ==> parent[i] == -1 || (0 <= parent[i] < |parent| && parent[i] != i))
    && ParentForest.Ranked(Pointers(parent), height)
  }

  /** The root of every element of a ranked parent array. */
  ghost function RootsOf(parent: seq<int>, height: seq<int>): (s: seq<int>)
    requires Linked(parent, height)
    ensures |s| == |parent|
    ensures forall a :: 0 <= a < |s| ==> 0 <= s[a] < |parent|
  {
    ParentForest.Roots(Pointers(parent), height)
  }

  /** The heights after hanging root `a` under root `b`: `b` rises above `a`. */
  function Lifted(height: seq<int>, a: int, b: int): seq<int>
    requires 0 <= a < |height| && 0 <= b < |height|
  {
    height[b := if height[a] < height[b] then height[b] else height[a] + 1]
  }

  /** Hanging the root of i under the root of j keeps the array ranked and
      moves the class of i into the class of j. */
  lemma HangLinked(parent: seq<int>, height: seq<int>, i: int, j: int)
    requires Linked(parent, height) && 0 <= i < |parent| && 0 <= j < |parent|
    requires RootsOf(parent, height)[i] != RootsOf(parent, height)[j]
    ensures var a, b := RootsOf(parent, height)[i], RootsOf(parent, height)[j];
      && Linked(parent[a := b], Lifted(height, a, b))
      && RootsOf(parent[a := b], Lifted(height, a, b)) == Partition.Merge(RootsOf(parent, height), i, j)
  {
    var p := Pointers(parent);
    var a, b := RootsOf(parent, height)[i], RootsOf(parent, height)[j];
    ParentForest.RootsAt(p, height, i);
    ParentForest.RootsAt(p, height, j);
    ParentForest.Hang(p, height, i, j);
    assert Pointers(parent[a := b]) == p[a := b];
  }

  /** Kruskal's selection over the edges sorted by cost, on n nodes, without a
      limit: the selection `getMST` makes. */
  function Selection(n: nat, sorted: seq<Edge>): (f: Partition.Forest)
    requires EdgesWithin(sorted, n)
    ensures |f.labels| == n
  {
    EndsWithin(sorted, n);
    Partition.Kruskal(Ends(sorted), n, Partition.NoLimit)
  }

  /** The state of the loop of `getMST` before edge i: the selection so far
      is `f`, continuing from i leads to `Selection`, and `mst` holds the
      accepted edges. */
  ghost predicate OnCourse(n: nat, sorted: seq<Edge>, i: nat, f: Partition.Forest, mst: seq<Edge>) {
    && EdgesWithin(sorted, n)
    && Partition.EndsWithin(Ends(sorted), n)
    && i <= |sorted|
    && |f.labels| == n
    && Partition.KruskalFrom(Ends(sorted), i, f, Partition.NoLimit) == Selection(n, sorted)
    && mst == Chosen(sorted, f.picked)
  }

  lemma OnCourseStart(n: nat, sorted: seq<Edge>)
    requires EdgesWithin(sorted, n)
    ensures OnCourse(n, sorted, 0, Partition.Forest([], Partition.Initial(n)), [])
  {
    EndsWithin(sorted, n);
  }

  /** An edge inside one class is skipped. */
  lemma OnCourseSkip(n: nat, sorted: seq<Edge>, i: nat, f: Partition.Forest, mst: seq<Edge>)
    requires OnCourse(n, sorted, i, f, mst) && i < |sorted|
    requires f.labels[sorted[i].node1] == f.labels[sorted[i].node2]
    ensures OnCourse(n, sorted, i + 1, f, mst)
  {
  }

  /** An edge between two classes is accepted and the classes merge. */
  lemma OnCourseAccept(n: nat, sorted: seq<Edge>, i: nat, f: Partition.Forest, mst: seq<Edge>)
    requires OnCourse(n, sorted, i, f, mst) && i < |sorted|
    requires f.labels[sorted[i].node1] != f.labels[sorted[i].node2]
    ensures OnCourse(n, sorted, i + 1,
      Partition.Forest(f.picked + [i], Partition.Merge(f.labels, sorted[i].node1, sorted[i].node2)),
      mst + [sorted[i]])
  {
    ChosenAppend(sorted, f.picked, i);
  }

  /** Visiting every edge completes the selection. */
  lemma OnCourseEnd(n: nat, sorted: seq<Edge>, f: Partition.Forest, mst: seq<Edge>)
    requires OnCourse(n, sorted, |sorted|, f, mst)
    ensures f == Selection(n, sorted)
  {
  }

  /** The loop state of `getMST`: the disjoint sets are the classes of the
      selection so far. */
  ghost predicate Running(ds: DisjointSet, n: nat, sorted: seq<Edge>, i: nat, f: Partition.Forest, mst: seq<Edge>)
    reads ds, ds.parent
  {
    ds.Valid() && Partition.Agree(ds.Roots(), f.labels) && OnCourse(n, sorted, i, f, mst)
  }

  /** One turn of the loop of `getMST`, at edge i: when the ends have
      different roots the edge is kept and the two sets are joined. */
  method Visit(ds: DisjointSet, n: nat, sorted: seq<Edge>, i: nat, mst: seq<Edge>, ghost f: Partition.Forest)
    returns (mst': seq<Edge>, ghost g: Partition.Forest)
    requires Running(ds, n, sorted, i, f, mst) && i < |sorted|
    modifies ds, ds.parent
    ensures ds.parent == old(ds.parent)
    ensures Running(ds, n, sorted, i + 1, g, mst')
  {
    var edge := sorted[i];
    var root1 := ds.Find(edge.node1);
    var root2 := ds.Find(edge.node2);
    if root1 != root2 {
      ghost var s := ds.Roots();
      mst' := mst + [edge];
      ds.Union(root1, root2);
      Partition.MergeAgree(s, f.labels, edge.node1, edge.node2, root1, root2);
      OnCourseAccept(n, sorted, i, f, mst);
      g := Partition.Forest(f.picked + [i], Partition.Merge(f.labels, edge.node1, edge.node2));
    } else {
      OnCourseSkip(n, sorted, i, f, mst);
      mst', g := mst, f;
    }
  }

  /** A fresh disjoint-set structure whose sets are the single nodes. */
  method NewDisjointSet(n: nat) returns (ds: DisjointSet)
    ensures fresh(ds) && fresh(ds.parent)
    ensures ds.Valid() && ds.parent.Length == n && Partition.Agree(ds.Roots(), Partition.Initial(n))
  {
    ds := new DisjointSet(n);
  }

  /** The loop of `getMST` over the sorted edges: keeps each edge whose ends
      are in different sets and joins them. */
  method KeepJoining(n: nat, sorted: seq<Edge>) returns (mst: seq<Edge>)
    requires EdgesWithin(sorted, n)
    ensures mst == Chosen(sorted, Selection(n, sorted).picked)
  {
    var ds := NewDisjointSet(n);
    mst := [];
    ghost var f := Partition.Forest([], Partition.Initial(n));
    OnCourseStart(n, sorted);
    for i := 0 to |sorted|
      invariant fresh(ds) && fresh(ds.parent)
      invariant Running(ds, n, sorted, i, f, mst)
    {
      mst, f := Visit(ds, n, sorted, i, mst, f);
    }
    OnCourseEnd(n, sorted, f, mst);
  }

  /** The spanning forest `getMST` returns for n nodes and the edges `es`: the
      edges of Kruskal's selection over `es` sorted by cost. */
  function Mst(n: nat, es: seq<Edge>): seq<Edge>
    requires EdgesWithin(es, n)
  {
    SortedWithin(es, n);
    var sorted := Sorting.SortBy(es, Cost);
    Chosen(sorted, Selection(n, sorted).picked)
  }

  /** What `getMST` promises of the edges it returns: they are edges of the
      graph, none used more often than it occurs, and they come in order of
      cost. */
  lemma MstEdges(n: nat, es: seq<Edge>)
    requires EdgesWithin(es, n)
    ensures multiset(Mst(n, es)) <= multiset(es)
    ensures Sorting.SortedBy(Mst(n, es), Cost)
  {
    var sorted := Sorting.SortBy(es, Cost);
    SortedWithin(es, n);
    EndsWithin(sorted, n);
    var f := Selection(n, sorted);
    Partition.KruskalSpanningForest(Ends(sorted), n, Partition.NoLimit);
    ChosenAt(sorted, f.picked);
    var mst := Mst(n, es);
    assert mst == Chosen(sorted, f.picked);
    Sorting.SortByPermutes(es, Cost);
    Sorting.SortByOrdered(es, Cost);
    ChosenWithin(sorted, f.picked, |sorted|);
    assert sorted[..|sorted|] == sorted;
    forall k, l | 0 <= k < l < |mst| ensures Cost(mst[k]) <= Cost(mst[l]) {
      assert mst[k] == sorted[f.picked[k]] && mst[l] == sorted[f.picked[l]];
    }
  }

  /** ... and of their shape: each joined two different components, so they
      form a forest (as many components as nodes minus edges) with fewer
      edges than nodes, and the two ends of every edge of the graph end up in
      one component. */
  lemma MstForest(n: nat, es: seq<Edge>)
    requires EdgesWithin(es, n)
    ensures var sorted := Sorting.SortBy(es, Cost);
      EdgesWithin(sorted, n) &&
      var f := Selection(n, sorted);
      && |Mst(n, es)| == |f.picked|
      && Partition.IsForest(f)
      && (1 <= n ==> |Mst(n, es)| < n)
      && (forall k :: 0 <= k < |sorted| ==> f.labels[sorted[k].node1] == f.labels[sorted[k].node2])
  {
    var sorted := Sorting.SortBy(es, Cost);
    SortedWithin(es, n);
    EndsWithin(sorted, n);
    var f := Selection(n, sorted);
    Partition.KruskalSpanningForest(Ends(sorted), n, Partition.NoLimit);
    ChosenAt(sorted, f.picked);
    forall k | 0 <= k < |sorted| ensures f.labels[sorted[k].node1] == f.labels[sorted[k].node2] {
      assert Ends(sorted)[k] == (sorted[k].node1, sorted[k].node2);
    }
  }

  /** A tentative distance: `Integer.MAX_VALUE` in the source stands for
      "not reached yet". */
  datatype Distance = Infinite | Finite(d: nat)

  /** The search state of `dijkstra`: distances, predecessors (-1 for none)
      and the queue of nodes still to poll, duplicates included. */
  datatype Search = Search(dist: seq<Distance>, pred: seq<int>, queue: seq<int>)

  /** Some edge of `es` joins u and v, in either direction. */
  ghost predicate Joined(es: seq<Edge>, u: int, v: int) {
    exists k :: 0 <= k < |es| && Touches(es[k], u, v)
  }

  predicate Touches(e: Edge, u: int, v: int) {
    (e.node1 == u && e.node2 == v) || (e.node1 == v && e.node2 == u)
  }

  /** Consecutive nodes of `w` are joined by edges. */
  ghost predicate Walk(es: seq<Edge>, w: seq<int>) {
    forall i :: 0 <= i < |w| - 1 ==> Joined(es, w[i], w[i + 1])
  }

  ghost predicate WalkBetween(es: seq<Edge>, w: seq<int>, s: int, t: int) {
    |w| > 0 && w[0] == s && w[|w| - 1] == t && Walk(es, w)
  }

  /** Some walk along the edges leads from s to t. */
  ghost predicate Reachable(es: seq<Edge>, s: int, t: int) {
    exists w :: WalkBetween(es, w, s, t)
  }

  ghost predicate NonNegative(es: seq<Edge>) {
    forall k :: 0 <= k < |es| ==> 0 <= es[k].bandwidth
  }

  /** The position in the queue of a node of least tentative distance: the
      node `poll` returns. */
  function Lightest(queue: seq<int>, dist: seq<Distance>): (m: nat)
    requires |queue| > 0
    requires forall i :: 0 <= i < |queue| ==> 0 <= queue[i] < |dist| && dist[queue[i]].Finite?
    ensures m < |queue|
    ensures forall i :: 0 <= i < |queue| ==> dist[queue[m]].d <= dist[queue[i]].d
  {
    if |queue| == 1 then 0
    else
      var m := Lightest(queue[1..], dist) + 1;
      if dist[queue[0]].d <= dist[queue[m]].d then 0 else m
  }

  /** The number of unreached nodes. */
  function Unreached(dist: seq<Distance>): nat {
    if dist == [] then 0 else Unreached(dist[..|dist| - 1]) + (if dist[|dist| - 1].Infinite? then 1 else 0)
  }

  /** The sum of the tentative distances of the reached nodes. */
  function Spent(dist: seq<Distance>): nat {
    if dist == [] then 0 else Spent(dist[..|dist| - 1]) + (if dist[|dist| - 1].Finite? then dist[|dist| - 1].d else 0)
  }

  /** Reaching a node lowers the count of unreached nodes; lowering a
      distance lowers the sum. Together they bound the number of times a
      node is queued. */
  lemma {:induction false} Lower(dist: seq<Distance>, x: int, nd: nat)
    requires 0 <= x < |dist|
    ensures dist[x].Infinite? ==> Unreached(dist[x := Finite(nd)]) + 1 == Unreached(dist)
    ensures dist[x].Finite? ==>
      Unreached(dist[x := Finite(nd)]) == Unreached(dist) && Spent(dist[x := Finite(nd)]) + dist[x].d == Spent(dist) + nd
  {
    var last := |dist| - 1;
    if x < last {
      assert dist[x := Finite(nd)][..last] == dist[..last][x := Finite(nd)];
      Lower(dist[..last], x, nd);
    } else {
      assert dist[x := Finite(nd)][..last] == dist[..last];
    }
  }

  /** The search state moved closer to its end: fewer unreached nodes, or
      as many and a smaller sum of distances, or nothing changed. */
  ghost predicate Progress(a: Search, b: Search) {
    || Unreached(b.dist) < Unreached(a.dist)
    || (Unreached(b.dist) == Unreached(a.dist) && Spent(b.dist) < Spent(a.dist))
    || (Unreached(b.dist) == Unreached(a.dist) && Spent(b.dist) == Spent(a.dist) && b.queue == a.queue)
  }

  /** u got its distance before v: a smaller distance, or the same distance
      set earlier. */
  ghost predicate Earlier(dist: seq<Distance>, stamp: seq<nat>, u: int, v: int)
    requires 0 <= u < |dist| && 0 <= v < |dist| && |stamp| == |dist|
    requires dist[u].Finite? && dist[v].Finite?
  {
    dist[u].d < dist[v].d || (dist[u].d == dist[v].d && stamp[u] < stamp[v])
  }

  /** The predecessor of v, if any, is a reached node joined to v by an edge
      that got its distance before v. */
  ghost predicate Back(es: seq<Edge>, dist: seq<Distance>, pred: seq<int>, stamp: seq<nat>, v: int)
    requires |pred| == |dist| && |stamp| == |dist| && 0 <= v < |dist|
  {
    pred[v] == -1 ||
      (0 <= pred[v] < |dist| && dist[v].Finite? && dist[pred[v]].Finite?
       && Joined(es, pred[v], v) && Earlier(dist, stamp, pred[v], v))
  }

  /** The predecessors form a tree rooted at the source: the source is at
      distance 0 with no predecessor, every other reached node has one, and
      the ghost `stamp` (when each distance was last set, before `time`)
      orders each predecessor before its node. */
  ghost predicate Tree(es: seq<Edge>, source: int, dist: seq<Distance>, pred: seq<int>, stamp: seq<nat>, time: nat) {
    && |pred| == |dist| && |stamp| == |dist| && 0 <= source < |dist|
    && dist[source] == Finite(0) && pred[source] == -1
    && (forall v :: 0 <= v < |dist| ==> stamp[v] < time)
    && (forall v :: 0 <= v < |dist| && dist[v].Finite? && v != source ==> pred[v] != -1)
    && (forall v :: 0 <= v < |dist| ==> Back(es, dist, pred, stamp, v))
  }

  /** Every edge before position `upto` that touches v leads to reached nodes. */
  ghost predicate Settled(es: seq<Edge>, dist: seq<Distance>, v: int, upto: int)
    requires EdgesWithin(es, |dist|) && upto <= |es|
  {
    forall k :: 0 <= k < upto && (es[k].node1 == v || es[k].node2 == v) ==>
      dist[es[k].node1].Finite? && dist[es[k].node2].Finite?
  }

  /** Queued nodes are reached, and each reached node is queued or has had
      its edges relaxed: all of them, or, for the node `cur` being
      processed, those before position k. */
  ghost predicate Frontier(es: seq<Edge>, dist: seq<Distance>, queue: seq<int>, cur: int, k: int)
    requires EdgesWithin(es, |dist|) && k <= |es|
  {
    && (forall i :: 0 <= i < |queue| ==> 0 <= queue[i] < |dist| && dist[queue[i]].Finite?)
    && (forall v :: 0 <= v < |dist| && dist[v].Finite? ==>
          v in queue || Settled(es, dist, v, if v == cur then k else |es|))
  }

  /** The state of `dijkstra` while processing node `cur` at edge k (cur = -1
      between two polls). */
  ghost predicate Searching(es: seq<Edge>, source: int, s: Search, stamp: seq<nat>, time: nat, cur: int, k: int) {
    && EdgesWithin(es, |s.dist|) && NonNegative(es) && 0 <= k <= |es|
    && Tree(es, source, s.dist, s.pred, stamp, time)
    && Frontier(es, s.dist, s.queue, cur, k)
  }

  /** Every reached node has had all its edges relaxed. */
  ghost predicate AllSettled(es: seq<Edge>, dist: seq<Distance>)
    requires EdgesWithin(es, |dist|)
  {
    forall v :: 0 <= v < |dist| && dist[v].Finite? ==> Settled(es, dist, v, |es|)
  }

  /** The state before the first poll: only the source is reached and queued. */
  lemma SearchStart(es: seq<Edge>, n: nat, source: int)
    requires EdgesWithin(es, n) && NonNegative(es) && 0 <= source < n
    ensures Searching(es, source,
      Search(seq(n, v => if v == source then Finite(0) else Infinite), seq(n, _ => -1), [source]),
      seq(n, _ => 0), 1, -1, 0)
  {
  }

  /** Polling removes `cur` from the queue and starts processing it. */
  lemma Polled(es: seq<Edge>, source: int, s: Search, stamp: seq<nat>, time: nat, m: int)
    requires Searching(es, source, s, stamp, time, -1, 0) && 0 <= m < |s.queue|
    ensures var cur := s.queue[m];
      && 0 <= cur < |s.dist| && s.dist[cur].Finite?
      && Searching(es, source, s.(queue := s.queue[..m] + s.queue[m + 1..]), stamp, time, cur, 0)
  {
    var cur := s.queue[m];
    assert s.queue == s.queue[..m] + [cur] + s.queue[m + 1..];
  }

  /** Edge k leaves the state alone when it does not touch `cur` or when
      its ends are reached already. */
  lemma StepSkip(es: seq<Edge>, source: int, s: Search, stamp: seq<nat>, time: nat, cur: int, k: int)
    requires Searching(es, source, s, stamp, time, cur, k) && k < |es|
    requires (es[k].node1 != cur && es[k].node2 != cur)
      || (s.dist[es[k].node1].Finite? && s.dist[es[k].node2].Finite?)
    ensures Searching(es, source, s, stamp, time, cur, k + 1)
  {
  }

  /** Reaching x through `cur` by edge k at a smaller distance keeps the
      tree ordered: x is stamped now, after everything else. */
  lemma TreeKept(es: seq<Edge>, source: int, s: Search, stamp: seq<nat>, time: nat, cur: int, k: int, x: int)
    requires Searching(es, source, s, stamp, time, cur, k) && k < |es|
    requires 0 <= cur < |s.dist| && s.dist[cur].Finite? && Touches(es[k], cur, x)
    requires s.dist[x].Infinite? || s.dist[cur].d + es[k].bandwidth < s.dist[x].d
    ensures x != cur && x != source
    ensures Tree(es, source, s.dist[x := Finite(s.dist[cur].d + es[k].bandwidth)], s.pred[x := cur], stamp[x := time], time + 1)
  {
    var nd := s.dist[cur].d + es[k].bandwidth;
    var dist, pred, stamp' := s.dist[x := Finite(nd)], s.pred[x := cur], stamp[x := time];
    assert Joined(es, cur, x);
    forall v | 0 <= v < |dist| ensures Back(es, dist, pred, stamp', v) {
      assert Back(es, s.dist, s.pred, stamp, v);
    }
  }

  /** ... and keeps the frontier: x joins the queue and edge k is relaxed. */
  lemma FrontierKept(es: seq<Edge>, source: int, s: Search, stamp: seq<nat>, time: nat, cur: int, k: int, x: int, nd: nat)
    requires Searching(es, source, s, stamp, time, cur, k) && k < |es|
    requires 0 <= cur < |s.dist| && s.dist[cur].Finite? && Touches(es[k], cur, x) && x != cur
    ensures Frontier(es, s.dist[x := Finite(nd)], s.queue + [x], cur, k + 1)
  {
    var dist := s.dist[x := Finite(nd)];
    forall v | 0 <= v < |dist| && dist[v].Finite? && v !in s.queue + [x]
      ensures Settled(es, dist, v, if v == cur then k + 1 else |es|)
    {
      assert Settled(es, s.dist, v, if v == cur then k else |es|);
    }
  }

  /** The inner loop of `dijkstra`: relaxes every edge that touches `cur`. */
  method Relax(es: seq<Edge>, source: int, cur: int, s: Search, ghost stamp: seq<nat>, ghost time: nat)
    returns (s': Search, ghost stamp': seq<nat>, ghost time': nat)
    requires Searching(es, source, s, stamp, time, cur, 0) && 0 <= cur < |s.dist| && s.dist[cur].Finite?
    ensures Searching(es, source, s', stamp', time', -1, 0) && |s'.dist| == |s.dist|
    ensures Progress(s, s')
  {
    s', stamp', time' := s, stamp, time;
    for k := 0 to |es|
      invariant Searching(es, source, s', stamp', time', cur, k)
      invariant |s'.dist| == |s.dist| && s'.dist[cur] == s.dist[cur] && Progress(s, s')
    {
      s', stamp', time' := RelaxEdge(es, source, cur, k, s', stamp', time');
    }
  }

  /** One turn of the inner loop of `dijkstra`, at edge k: when the edge
      touches `cur` and the way through `cur` to its other end is shorter than
      that end's distance, the distance is lowered, `cur` becomes its
      predecessor and the end is queued again. */
  method RelaxEdge(es: seq<Edge>, source: int, cur: int, k: int, s: Search, ghost stamp: seq<nat>, ghost time: nat)
    returns (s': Search, ghost stamp': seq<nat>, ghost time': nat)
    requires Searching(es, source, s, stamp, time, cur, k) && k < |es|
    requires 0 <= cur < |s.dist| && s.dist[cur].Finite?
    ensures Searching(es, source, s', stamp', time', cur, k + 1)
    ensures |s'.dist| == |s.dist| && s'.dist[cur] == s.dist[cur]
    ensures Progress(s, s')
  {
    s', stamp', time' := s, stamp, time;
    var edge := es[k];
    var neighbor := if edge.node1 == cur then edge.node2 else if edge.node2 == cur then edge.node1 else -1;
    if neighbor != -1 {
      var newDist := s.dist[cur].d + edge.bandwidth;
      if s.dist[neighbor].Infinite? || newDist < s.dist[neighbor].d {
        TreeKept(es, source, s, stamp, time, cur, k, neighbor);
        FrontierKept(es, source, s, stamp, time, cur, k, neighbor, newDist);
        Lower(s.dist, neighbor, newDist);
        s' := Search(s.dist[neighbor := Finite(newDist)], s.pred[neighbor := cur], s.queue + [neighbor]);
        stamp', time' := stamp[neighbor := time], time + 1;
        return;
      }
    }
    StepSkip(es, source, s, stamp, time, cur, k);
  }

  /** The search loop of `dijkstra`: polls a nearest queued node, stops when
      it is the destination, and otherwise relaxes its edges. It ends with
      the destination reached or with every reached node relaxed. */
  method Explore(es: seq<Edge>, n: nat, source: int, destination: int)
    returns (dist: seq<Distance>, pred: seq<int>, ghost stamp: seq<nat>, ghost time: nat)
    requires EdgesWithin(es, n) && NonNegative(es) && 0 <= source < n && 0 <= destination < n
    ensures Tree(es, source, dist, pred, stamp, time) && |dist| == n
    ensures dist[destination].Finite? || AllSettled(es, dist)
  {
    var s := Search(seq(n, v => if v == source then Finite(0) else Infinite), seq(n, _ => -1), [source]);
    stamp, time := seq(n, _ => 0), 1;
    SearchStart(es, n, source);
    while |s.queue| > 0
      invariant Searching(es, source, s, stamp, time, -1, 0) && |s.dist| == n
      decreases Unreached(s.dist), Spent(s.dist), |s.queue|
    {
      var m := Lightest(s.queue, s.dist);
      var current := s.queue[m];
      Polled(es, source, s, stamp, time, m);
      s := s.(queue := s.queue[..m] + s.queue[m + 1..]);
      if current == destination {
        return s.dist, s.pred, stamp, time;
      }
      s, stamp, time := Relax(es, source, current, s, stamp, time);
    }
    dist, pred := s.dist, s.pred;
  }

  /** Once every reached node is relaxed, a walk from a reached node stays
      among reached nodes. */
  lemma {:induction false} Spread(es: seq<Edge>, dist: seq<Distance>, w: seq<int>, i: nat)
    requires EdgesWithin(es, |dist|) && AllSettled(es, dist)
    requires Walk(es, w) && |w| > 0 && 0 <= w[0] < |dist| && dist[w[0]].Finite? && i < |w|
    ensures 0 <= w[i] < |dist| && dist[w[i]].Finite?
  {
    if i > 0 {
      Spread(es, dist, w, i - 1);
      var k :| 0 <= k < |es| && Touches(es[k], w[i - 1], w[i]);
      assert Settled(es, dist, w[i - 1], |es|);
    }
  }

  /** `s` reversed, as `Collections.reverse` leaves a list. */
  function Reverse(s: seq<int>): (r: seq<int>)
    ensures |r| == |s|
    ensures forall i :: 0 <= i < |s| ==> r[i] == s[|s| - 1 - i]
  {
    if s == [] then [] else Reverse(s[1..]) + [s[0]]
  }

  /** How far along the predecessor chain a node is: predecessors rank lower. */
  ghost function Height(dist: seq<Distance>, v: int): nat
    requires -1 <= v < |dist|
  {
    if v == -1 then 0 else if dist[v].Finite? then dist[v].d + 1 else 1
  }

  /** The reconstruction of `dijkstra`: follows the predecessors back from
      the destination, then reverses the list. The result is a walk that
      ends at the destination and starts at the source, unless the
      destination was never reached and the walk is just the destination. */
  method Trace(es: seq<Edge>, source: int, destination: int, dist: seq<Distance>, pred: seq<int>, ghost stamp: seq<nat>, ghost time: nat)
    returns (path: seq<int>)
    requires Tree(es, source, dist, pred, stamp, time) && 0 <= destination < |dist|
    ensures |path| > 0 && path[|path| - 1] == destination && Walk(es, path)
    ensures path[0] == source || (path == [destination] && dist[destination].Infinite?)
  {
    var trail := [];
    var current := destination;
    while current != -1
      invariant -1 <= current < |dist|
      invariant trail == [] ==> current == destination
      invariant forall i :: 0 <= i < |trail| ==> 0 <= trail[i] < |dist|
      invariant trail != [] ==> trail[0] == destination && current == pred[trail[|trail| - 1]]
      invariant forall i :: 0 <= i < |trail| - 1 ==> trail[i + 1] == pred[trail[i]]
      invariant forall i :: 0 < i < |trail| ==> dist[trail[i]].Finite?
      invariant trail != [] && current != -1 ==> dist[current].Finite?
      decreases Height(dist, current), if current == -1 then 0 else stamp[current]
    {
      assert Back(es, dist, pred, stamp, current);
      trail := trail + [current];
      current := pred[current];
    }
    path := Reverse(trail);
    forall i | 0 <= i < |path| - 1 ensures Joined(es, path[i], path[i + 1]) {
      var j := |trail| - 2 - i;
      assert path[i] == pred[trail[j]] && path[i + 1] == trail[j];
      assert Back(es, dist, pred, stamp, trail[j]);
    }
  }

  /** The graph: the node list and the edge list. */
  class NetworkGraph {
    var nodes: seq<Node>
    var edges: seq<Edge>

    constructor ()
      ensures nodes == [] && edges == []
    {
      nodes, edges := [], [];
    }

    /** Appends a node; the edges are untouched. */
    method AddNode(node: Node)
      modifies this
      ensures nodes == old(nodes) + [node] && edges == old(edges)
    {
      nodes := nodes + [node];
    }

    /** Appends an edge between the nodes at positions node1 and node2; the
        nodes are untouched. */
    method AddEdge(node1: int, node2: int, cost: int, bandwidth: int)
      modifies this
      ensures edges == old(edges) + [Edge(node1, node2, cost, bandwidth)] && nodes == old(nodes)
      ensures TotalCost() == old(TotalCost()) + cost && TotalLatency() == old(TotalLatency()) + bandwidth
    {
      SumOfAppend(edges, Edge(node1, node2, cost, bandwidth), Cost);
      SumOfAppend(edges, Edge(node1, node2, cost, bandwidth), Bandwidth);
      edges := edges + [Edge(node1, node2, cost, bandwidth)];
    }

    /** The sum of the edge costs; it does not depend on the order of the
        edges, so it is also the sum over the edges in order of cost, the
        order `getMST` leaves them in. */
    function TotalCost(): (total: int)
      reads this
      ensures total == SumOf(Sorting.SortBy(edges, Cost), Cost)
    {
      SumOfSortBy(edges, Cost, Cost);
      SumOf(edges, Cost)
    }

    /** The sum of the edge bandwidths, reported as the latency; likewise
        independent of the order of the edges. */
    function TotalLatency(): (total: int)
      reads this
      ensures total == SumOf(Sorting.SortBy(edges, Cost), Bandwidth)
    {
      SumOfSortBy(edges, Cost, Bandwidth);
      SumOf(edges, Bandwidth)
    }

    /** Sorts the graph's own edge list by cost (the change stays visible
        afterwards) and returns Kruskal's spanning forest over it. Every edge
        must join two nodes of the list, as the source looks each end up by
        its position. */
    method GetMST() returns (mst: seq<Edge>)
      requires EdgesWithin(edges, |nodes|)
      modifies this
      ensures nodes == old(nodes) && edges == Sorting.SortBy(old(edges), Cost)
      ensures mst == Mst(|nodes|, old(edges))
      ensures TotalCost() == old(TotalCost()) && TotalLatency() == old(TotalLatency())
    {
      SortedWithin(edges, |nodes|);
      SumOfSortBy(edges, Cost, Cost);
      SumOfSortBy(edges, Cost, Bandwidth);
      edges := Sorting.SortBy(edges, Cost);
      mst := KeepJoining(|nodes|, edges);
    }

    /** The path of least total bandwidth from `source` to `destination`, as
        the list of node positions. The path is a walk along the edges that
        ends at the destination; it starts at the source exactly when the
        destination can be reached, and is just the destination otherwise.
        Bandwidths must not be negative, or the search need not end. */
    method Dijkstra(source: int, destination: int) returns (path: seq<int>)
      requires EdgesWithin(edges, |nodes|) && NonNegative(edges)
      requires 0 <= source < |nodes| && 0 <= destination < |nodes|
      ensures |path| > 0 && path[|path| - 1] == destination && Walk(edges, path)
      ensures path[0] == source <==> Reachable(edges, source, destination)
      ensures !Reachable(edges, source, destination) ==> path == [destination]
    {
      var dist, pred, stamp, time := Explore(edges, |nodes|, source, destination);
      path := Trace(edges, source, destination, dist, pred, stamp, time);
      if path[0] == source {
        assert WalkBetween(edges, path, source, destination);
      } else if Reachable(edges, source, destination) {
        var w :| WalkBetween(edges, w, source, destination);
        Spread(edges, dist, w, |w| - 1);
        assert false;
      }
    }
  }
}
