/** The cheapest way to connect n devices: a device either installs its own
    communication module or is linked to another device by a connection.
    A module is treated as an edge from the device to an extra hub node n,
    and Kruskal's algorithm picks edges in order of cost, using a union-find
    structure with path compression and union by rank. */
module DeviceNetwork {
  import Sorting
  import Partition
  import ParentForest

  /** Union-find over the nodes 0 .. parent.Length - 1: `parent` holds the
      parent pointers (a root points at itself) and `rank` bounds the height
      of each root's tree. */
  class UnionFind {
    var parent: array<int>
    var rank: array<int>

    ghost predicate Valid()
      reads this, parent, rank
    {
      parent != rank && ParentForest.Ranked(parent[..], rank[..])
    }

    /** The root of every element: the representative `find` returns. */
    ghost function Roots(): (s: seq<int>)
      reads this, parent, rank
      requires Valid()
      ensures |s| == parent.Length
      ensures forall a :: 0 <= a < |s| ==> 0 <= s[a] < parent.Length
    {
      ParentForest.Roots(parent[..], rank[..])
    }

    /** The structure is well formed and its sets are the classes of
        `labels`. */
    ghost predicate Represents(labels: seq<int>)
      reads this, parent, rank
    {
      Valid() && Partition.Agree(Roots(), labels)
    }

    /** Every element is its own parent, with rank 0, so every element is
        alone in its set. */
    constructor (n: nat)
      ensures Valid() && parent.Length == n
      ensures fresh(parent) && fresh(rank)
      ensures forall i :: 0 <= i < n ==> parent[i] == i && rank[i] == 0
      ensures Roots() == Partition.Initial(n)
    {
      var p := new int[n];
      for i := 0 to n
        invariant forall j :: 0 <= j < i ==> p[j] == j
      {
        p[i] := i;
      }
      parent := p;
      rank := new int[n](_ => 0);
      new;
      ParentForest.RootsOfSingletons(parent[..], rank[..]);
      assert parent[..] == Partition.Initial(n);
    }

    /** Returns the root of x and points x straight at it (path compression);
        no element changes root. */
    method Find(x: int) returns (r: int)
      requires Valid() && 0 <= x < parent.Length
      modifies parent
      ensures Valid()
      ensures Roots() == old(Roots())
      ensures r == Roots()[x] && 0 <= r < parent.Length && Roots()[r] == r
      ensures parent[r] == r && parent[x] == r
      decreases ParentForest.Above(rank[..], x)
    {
      if parent[x] != x {
        ParentForest.AboveShrinks(parent[..], rank[..], x);
        ParentForest.RootsAt(parent[..], rank[..], x);
        ParentForest.RootsAt(parent[..], rank[..], parent[x]);
        var root := Find(parent[x]);
        ghost var p := parent[..];
        ParentForest.RootsAt(p, rank[..], x);
        ParentForest.CompressRoots(p, rank[..], x);
        parent[x] := root;
        assert parent[..] == p[x := root];
      }
      r := parent[x];
      ParentForest.RootsAt(parent[..], rank[..], x);
      ParentForest.RootsAt(parent[..], rank[..], r);
    }

    /** Joins the sets of x and y: the root of lower rank goes under the
        other, and with equal ranks the root of y goes under the root of x,
        whose rank grows by one. The two sets become one, labelled by the
        remaining root, and every other set is left as it was. */
    method Union(x: int, y: int)
      requires Valid() && 0 <= x < parent.Length && 0 <= y < parent.Length
      modifies parent, rank
      ensures Valid()
      ensures var rx, ry := old(Roots()[x]), old(Roots()[y]);
        Roots() == if old(rank[rx] < rank[ry]) then Partition.Merge(old(Roots()), x, y)
                   else Partition.Merge(old(Roots()), y, x)
      ensures var rx, ry := old(Roots()[x]), old(Roots()[y]);
        rank[..] == if rx != ry && old(rank[rx] == rank[ry]) then old(rank[..])[rx := old(rank[rx]) + 1]
                    else old(rank[..])
    {
      ghost var s0 := Roots();
      var rootX := Find(x);
      var rootY := Find(y);
      ghost var p, rk := parent[..], rank[..];
      ParentForest.RootsAt(p, rk, x);
      ParentForest.RootsAt(p, rk, y);
      if rootX != rootY {
        if rank[rootX] > rank[rootY] {
          parent[rootY] := rootX;
        } else if rank[rootX] < rank[rootY] {
          parent[rootX] := rootY;
        } else {
          parent[rootY] := rootX;
          rank[rootX] := rank[rootX] + 1;
        }
        assert parent[..] == ParentForest.LinkParents(p, rk, rootX, rootY);
        assert rank[..] == ParentForest.LinkRanks(rk, rootX, rootY);
        ParentForest.UnionRoots(p, rk, x, y);
      } else {
        assert Partition.Merge(s0, y, x) == s0;
      }
    }
  }

  /** A connection between two devices, numbered from 1, and its cost. */
  datatype Connection = Connection(device1: int, device2: int, cost: int)

  /** An edge between two nodes, numbered from 0; node n is the hub. */
  datatype Edge = Edge(device1: int, device2: int, cost: int)

  function Cost(e: Edge): int {
    e.cost
  }

  /** Every connection names devices 1 .. n + 1, so that its renumbered ends
      are nodes of the union-find (device n + 1 is the hub itself). */
  ghost predicate DevicesInRange(n: nat, connections: seq<Connection>) {
    forall j :: 0 <= j < |connections| ==>
      1 <= connections[j].device1 <= n + 1 && 1 <= connections[j].device2 <= n + 1
  }

  /** The edge list in the order the source fills its array: the connections
      renumbered from 0, then an edge from each device i to the hub n costing
      modules[i]. */
  function AllEdges(n: nat, modules: seq<int>, connections: seq<Connection>): (es: seq<Edge>)
    requires n <= |modules|
    ensures |es| == |connections| + n
    ensures forall j :: 0 <= j < |connections| ==>
      es[j] == Edge(connections[j].device1 - 1, connections[j].device2 - 1, connections[j].cost)
    ensures forall i :: 0 <= i < n ==> es[|connections| + i] == Edge(i, n, modules[i])
  {
    seq(|connections| + n, j requires 0 <= j < |connections| + n =>
      if j < |connections| then Edge(connections[j].device1 - 1, connections[j].device2 - 1, connections[j].cost)
      else Edge(j - |connections|, n, modules[j - |connections|]))
  }

  /** The edges in order of cost (a stable sort). */
  function SortedEdges(n: nat, modules: seq<int>, connections: seq<Connection>): seq<Edge>
    requires n <= |modules|
  {
    Sorting.SortBy(AllEdges(n, modules, connections), Cost)
  }

  /** The two ends of each edge. */
  function Ends(es: seq<Edge>): (ends: seq<(int, int)>)
    ensures |ends| == |es|
    ensures forall k :: 0 <= k < |es| ==> ends[k] == (es[k].device1, es[k].device2)
  {
    seq(|es|, k requires 0 <= k < |es| => (es[k].device1, es[k].device2))
  }

  /** The sorted edges join nodes 0 .. n. */
  lemma SortedEdgesWithin(n: nat, modules: seq<int>, connections: seq<Connection>)
    requires n <= |modules| && DevicesInRange(n, connections)
    ensures Partition.EndsWithin(Ends(SortedEdges(n, modules, connections)), n + 1)
  {
    var es := AllEdges(n, modules, connections);
    var sorted := SortedEdges(n, modules, connections);
    Sorting.SortByPermutes(es, Cost);
    forall k | 0 <= k < |sorted|
      ensures 0 <= sorted[k].device1 <= n && 0 <= sorted[k].device2 <= n
    {
      assert sorted[k] in multiset(es);
      var j :| 0 <= j < |es| && es[j] == sorted[k];
      if j >= |connections| {
        assert es[|connections| + (j - |connections|)] == es[j];
      }
    }
  }

  /** The edges Kruskal's algorithm accepts on the n + 1 nodes, stopping once
      n have been accepted. */
  function Plan(n: nat, modules: seq<int>, connections: seq<Connection>): (f: Partition.Forest)
    requires n <= |modules| && DevicesInRange(n, connections)
    ensures |f.labels| == n + 1
  {
    SortedEdgesWithin(n, modules, connections);
    Partition.Kruskal(Ends(SortedEdges(n, modules, connections)), n + 1, Partition.StopAt(n))
  }

  /** The accepted edges are positions in the edge list, in increasing order. */
  lemma PlanOrdered(n: nat, modules: seq<int>, connections: seq<Connection>)
    requires n <= |modules| && DevicesInRange(n, connections)
    ensures Partition.Ordered(Plan(n, modules, connections).picked, |connections| + n)
  {
    SortedEdgesWithin(n, modules, connections);
    Partition.KruskalSpanningForest(Ends(SortedEdges(n, modules, connections)), n + 1, Partition.StopAt(n));
  }

  /** The total cost of the edges at the positions `picked`. */
  function PickedCost(es: seq<Edge>, picked: seq<nat>): int
  {
    if picked == [] then 0
    else
      var last := picked[|picked| - 1];
      PickedCost(es, picked[..|picked| - 1]) + (if last < |es| then es[last].cost else 0)
  }

  lemma PickedCostAppend(es: seq<Edge>, picked: seq<nat>, i: nat)
    requires i < |es|
    ensures PickedCost(es, picked + [i]) == PickedCost(es, picked) + es[i].cost
  {
    assert (picked + [i])[..|picked|] == picked;
  }

  /** The edge array `minCostToConnectDevices` fills before sorting: the
      connections renumbered from 0, then one edge per device to the hub. */
  method BuildEdges(n: nat, modules: seq<int>, connections: seq<Connection>) returns (edges: array<Edge>)
    requires n <= |modules|
    ensures fresh(edges)
    ensures edges[..] == AllEdges(n, modules, connections)
  {
    edges := new Edge[|connections| + n];
    ghost var all := AllEdges(n, modules, connections);
    var index := 0;
    for j := 0 to |connections|
      invariant index == j
      invariant edges[..index] == all[..index]
    {
      var conn := connections[j];
      edges[index] := Edge(conn.device1 - 1, conn.device2 - 1, conn.cost);
      index := index + 1;
    }
    for i := 0 to n
      invariant index == |connections| + i
      invariant edges[..index] == all[..index]
    {
      edges[index] := Edge(i, n, modules[i]);
      index := index + 1;
    }
    assert edges[..] == edges[..index];
  }

  /** The body of the loop of `minCostToConnectDevices`: finds the roots of
      the two ends and, when they differ, joins their sets. Against a
      labelling `labels` of the same partition, it joins exactly when the two
      ends have different labels, and the new partition is the merge. */
  method JoinIfApart(uf: UnionFind, u: int, v: int, ghost labels: seq<int>) returns (joined: bool)
    requires uf.Valid() && 0 <= u < uf.parent.Length && 0 <= v < uf.parent.Length
    requires Partition.Agree(uf.Roots(), labels)
    modifies uf.parent, uf.rank
    ensures uf.Valid()
    ensures joined <==> labels[u] != labels[v]
    ensures Partition.Agree(uf.Roots(), if joined then Partition.Merge(labels, u, v) else labels)
  {
    var root1 := uf.Find(u);
    var root2 := uf.Find(v);
    joined := root1 != root2;
    if joined {
      ghost var s := uf.Roots();
      uf.Union(root1, root2);
      Partition.MergeAgree(s, labels, u, v, root1, root2);
    }
  }

  /** Kruskal's selection on the nodes 0 .. n over the sorted edges, stopping
      once n edges are accepted: the selection `minCostToConnectDevices` makes. */
  function Selection(n: nat, sorted: seq<Edge>): (f: Partition.Forest)
    requires Partition.EndsWithin(Ends(sorted), n + 1)
    ensures |f.labels| == n + 1
  {
    Partition.Kruskal(Ends(sorted), n + 1, Partition.StopAt(n))
  }

  /** The state of the loop before edge i: the selection visited so far is
      `f`, continuing the visit from i leads to `Selection`, and `total` is the
      cost of the edges accepted in `f`. */
  ghost predicate OnCourse(n: nat, sorted: seq<Edge>, i: nat, f: Partition.Forest, total: int) {
    && Partition.EndsWithin(Ends(sorted), n + 1)
    && i <= |sorted|
    && |f.labels| == n + 1
    && Partition.KruskalFrom(Ends(sorted), i, f, Partition.StopAt(n)) == Selection(n, sorted)
    && total == PickedCost(sorted, f.picked)
  }

  lemma OnCourseStart(n: nat, sorted: seq<Edge>)
    requires Partition.EndsWithin(Ends(sorted), n + 1)
    ensures OnCourse(n, sorted, 0, Partition.Forest([], Partition.Initial(n + 1)), 0)
  {
  }

  /** An edge inside one class is skipped. */
  lemma OnCourseSkip(n: nat, sorted: seq<Edge>, i: nat, f: Partition.Forest, total: int)
    requires OnCourse(n, sorted, i, f, total) && i < |sorted|
    requires f.labels[sorted[i].device1] == f.labels[sorted[i].device2]
    ensures OnCourse(n, sorted, i + 1, f, total)
  {
  }

  /** An edge between two classes is accepted: the classes merge and its cost
      is added; after the n-th acceptance the selection is complete. */
  lemma OnCourseAccept(n: nat, sorted: seq<Edge>, i: nat, f: Partition.Forest, total: int)
    requires OnCourse(n, sorted, i, f, total) && i < |sorted|
    requires f.labels[sorted[i].device1] != f.labels[sorted[i].device2]
    ensures var g := Partition.Forest(f.picked + [i], Partition.Merge(f.labels, sorted[i].device1, sorted[i].device2));
      && (|g.picked| == n ==> g == Selection(n, sorted))
      && (|g.picked| != n ==> OnCourse(n, sorted, i + 1, g, total + sorted[i].cost))
  {
    PickedCostAppend(sorted, f.picked, i);
  }

  /** Visiting every edge completes the selection. */
  lemma OnCourseEnd(n: nat, sorted: seq<Edge>, f: Partition.Forest, total: int)
    requires OnCourse(n, sorted, |sorted|, f, total)
    ensures f == Selection(n, sorted)
  {
  }

  ghost predicate Running(uf: UnionFind, n: nat, sorted: seq<Edge>, i: nat, count: int, totalCost: int, f: Partition.Forest)
    reads uf, uf.parent, uf.rank
  {
    uf.Represents(f.labels) && OnCourse(n, sorted, i, f, totalCost) && count == |f.picked|
  }

  /** A fresh union-find whose sets are the single nodes 0 .. n - 1. */
  method NewUnionFind(n: nat) returns (uf: UnionFind)
    ensures fresh(uf.parent) && fresh(uf.rank)
    ensures uf.parent.Length == n && uf.Represents(Partition.Initial(n))
  {
    uf := new UnionFind(n);
  }

  /** One turn of the loop of `minCostToConnectDevices`, at edge i: when the
      ends have different roots their sets are joined, the cost is added and
      the count goes up, and the loop is done once the count reaches n. The
      visited selection moves along with it. */
  method Visit(uf: UnionFind, n: nat, sorted: seq<Edge>, i: nat, count: int, totalCost: int,
               ghost f: Partition.Forest)
    returns (count': int, totalCost': int, done: bool, ghost g: Partition.Forest)
    requires Running(uf, n, sorted, i, count, totalCost, f) && i < |sorted|
    modifies uf.parent, uf.rank
    ensures done ==> g == Selection(n, sorted) && totalCost' == PickedCost(sorted, g.picked)
    ensures !done ==> Running(uf, n, sorted, i + 1, count', totalCost', g)
  {
    var edge := sorted[i];
    var joined := JoinIfApart(uf, edge.device1, edge.device2, f.labels);
    count', totalCost', done, g := count, totalCost, false, f;
    if joined {
      OnCourseAccept(n, sorted, i, f, totalCost);
      g := Partition.Forest(f.picked + [i], Partition.Merge(f.labels, edge.device1, edge.device2));
      totalCost' := totalCost + edge.cost;
      count' := count + 1;
      done := count' == n;
    } else {
      OnCourseSkip(n, sorted, i, f, totalCost);
    }
  }

  /** The loop of `minCostToConnectDevices` over the sorted edges on the
      nodes 0 .. n: an edge whose ends have different roots is joined and its
      cost added, and the loop stops once n edges are joined. It accepts
      exactly the edges of Kruskal's selection and returns their total cost. */
  method JoinInOrder(n: nat, sorted: seq<Edge>) returns (totalCost: int)
    requires Partition.EndsWithin(Ends(sorted), n + 1)
    ensures totalCost == PickedCost(sorted, Selection(n, sorted).picked)
  {
    var uf := NewUnionFind(n + 1);
    totalCost := 0;
    var count := 0;
    ghost var f := Partition.Forest([], Partition.Initial(n + 1));
    OnCourseStart(n, sorted);
    var i := 0;
    while i < |sorted|
      invariant fresh(uf.parent) && fresh(uf.rank)
      invariant Running(uf, n, sorted, i, count, totalCost, f)
      decreases |sorted| - i
    {
      var done;
      count, totalCost, done, f := Visit(uf, n, sorted, i, count, totalCost, f);
      if done {
        return;
      }
      i := i + 1;
    }
    OnCourseEnd(n, sorted, f, totalCost);
  }

  /** The source's `minCostToConnectDevices`: builds the edge array, sorts it by
      cost and joins the edges in that order, stopping after n accepted edges. */
  method MinCostToConnectDevices(n: nat, modules: seq<int>, connections: seq<Connection>)
    returns (totalCost: int)
    requires n <= |modules|
    requires DevicesInRange(n, connections)
    ensures Partition.Ordered(Plan(n, modules, connections).picked, |connections| + n)
    ensures totalCost == PickedCost(SortedEdges(n, modules, connections), Plan(n, modules, connections).picked)
    ensures forall picks :: Rival(n, modules, connections, picks) ==>
      totalCost <= PickedCost(SortedEdges(n, modules, connections), picks)
  {
    var edges := BuildEdges(n, modules, connections);
    var sorted := Sorting.SortBy(edges[..], Cost);
    SortedEdgesWithin(n, modules, connections);
    totalCost := JoinInOrder(n, sorted);
    PlanOrdered(n, modules, connections);
    forall picks | Rival(n, modules, connections, picks)
      ensures totalCost <= PickedCost(SortedEdges(n, modules, connections), picks)
    {
      PlanIsCheapest(n, modules, connections, picks);
    }
  }

  /** The hub edge of every device is among the sorted edges. */
  lemma HubEdgeSorted(n: nat, modules: seq<int>, connections: seq<Connection>, i: int)
    requires n <= |modules| && 0 <= i < n
    ensures exists k ::
      0 <= k < |SortedEdges(n, modules, connections)| && Ends(SortedEdges(n, modules, connections))[k] == (i, n)
  {
    var es := AllEdges(n, modules, connections);
    var sorted := SortedEdges(n, modules, connections);
    Sorting.SortByPermutes(es, Cost);
    assert es[|connections| + i] == Edge(i, n, modules[i]);
    assert Edge(i, n, modules[i]) in multiset(sorted);
    var k :| 0 <= k < |sorted| && sorted[k] == Edge(i, n, modules[i]);
    assert Ends(sorted)[k] == (i, n);
  }

  /** The plan connects everything: it accepts exactly n edges, and all
      devices end up in one class with the hub, since every device has its
      own hub edge. */
  lemma PlanConnectsAll(n: nat, modules: seq<int>, connections: seq<Connection>)
    requires n <= |modules| && DevicesInRange(n, connections)
    ensures |Plan(n, modules, connections).picked| == n
    ensures forall u :: 0 <= u <= n ==> Plan(n, modules, connections).labels[u] == Plan(n, modules, connections).labels[n]
  {
    SortedEdgesWithin(n, modules, connections);
    var ends := Ends(SortedEdges(n, modules, connections));
    var g := Plan(n, modules, connections);
    Partition.KruskalSpanningForest(ends, n + 1, Partition.StopAt(n));
    if |g.picked| == n {
      assert |Partition.Classes(g.labels)| == 1;
      forall u | 0 <= u <= n ensures g.labels[u] == g.labels[n] {
        Partition.OneClass(g.labels, u, n);
      }
    } else {
      // Every device shares the hub's class, so there is one class, and a
      // forest on n + 1 nodes with one class has n edges.
      forall u | 0 <= u < n ensures g.labels[u] == g.labels[n] {
        HubEdgeSorted(n, modules, connections, u);
      }
      Partition.SingleClass(g.labels, n);
      assert false;
    }
  }

  /** Splitting a selection splits its cost. */
  lemma {:induction false} PickedCostSplit(es: seq<Edge>, picked: seq<nat>, d: nat)
    requires d <= |picked|
    ensures PickedCost(es, picked) == PickedCost(es, picked[..d]) + PickedCost(es, picked[d..])
    decreases |picked|
  {
    if |picked| == d {
      assert picked[..d] == picked && picked[d..] == [];
    } else {
      var m := |picked| - 1;
      PickedCostSplit(es, picked[..m], d);
      assert picked[..m][..d] == picked[..d];
      assert picked[d..][..|picked[d..]| - 1] == picked[..m][d..];
    }
  }

  /** With no edge of negative cost, no selection costs less than nothing. */
  lemma {:induction false} PickedCostNonNegative(es: seq<Edge>, picked: seq<nat>)
    requires forall k :: 0 <= k < |es| ==> es[k].cost >= 0
    ensures PickedCost(es, picked) >= 0
    decreases |picked|
  {
    if picked != [] {
      PickedCostNonNegative(es, picked[..|picked| - 1]);
    }
  }

  /** Over edges in order of cost, a selection whose every position is no
      later than its partner's in another costs no more. */
  lemma {:induction false} PickedCostEarlier(es: seq<Edge>, p: seq<nat>, q: seq<nat>)
    requires Sorting.SortedBy(es, Cost)
    requires |p| == |q|
    requires forall j :: 0 <= j < |p| ==> p[j] <= q[j] < |es|
    ensures PickedCost(es, p) <= PickedCost(es, q)
    decreases |p|
  {
    if p != [] {
      var m := |p| - 1;
      PickedCostEarlier(es, p[..m], q[..m]);
      if p[m] < q[m] {
        assert Cost(es[p[m]]) <= Cost(es[q[m]]);
      }
    }
  }

  /** Another way to connect the network: positions in the sorted edge list,
      in increasing order, whose edges join every device and the hub into one
      class; either exactly n of them, or any number when no edge has a
      negative cost (with negative costs, extra edges could only lower the
      sum, so only selections of n edges are comparable). */
  ghost predicate Rival(n: nat, modules: seq<int>, connections: seq<Connection>, picks: seq<nat>) {
    && n <= |modules| && DevicesInRange(n, connections)
    && Partition.Ordered(picks, |connections| + n)
    && Partition.EndsWithin(Ends(SortedEdges(n, modules, connections)), n + 1)
    && var c := Partition.SpanFrom(Partition.Initial(n + 1), Ends(SortedEdges(n, modules, connections)), picks);
      && (forall u :: 0 <= u <= n ==> c[u] == c[n])
      && (|picks| == n
          || ((forall i :: 0 <= i < n ==> modules[i] >= 0)
              && (forall j :: 0 <= j < |connections| ==> connections[j].cost >= 0)))
  }

  /** The sorted edges cost nothing negative when neither modules nor
      connections do. */
  lemma SortedEdgesNonNegative(n: nat, modules: seq<int>, connections: seq<Connection>)
    requires n <= |modules|
    requires forall i :: 0 <= i < n ==> modules[i] >= 0
    requires forall j :: 0 <= j < |connections| ==> connections[j].cost >= 0
    ensures forall k :: 0 <= k < |SortedEdges(n, modules, connections)| ==> SortedEdges(n, modules, connections)[k].cost >= 0
  {
    var es := AllEdges(n, modules, connections);
    var sorted := SortedEdges(n, modules, connections);
    Sorting.SortByPermutes(es, Cost);
    forall k | 0 <= k < |sorted| ensures sorted[k].cost >= 0 {
      assert sorted[k] in multiset(es);
      var j :| 0 <= j < |es| && es[j] == sorted[k];
      if j >= |connections| {
        assert es[|connections| + (j - |connections|)] == es[j];
      }
    }
  }

  /** Kruskal's plan is the cheapest way to connect the network: no other
      selection of edges joining every device and the hub costs less. */
  lemma PlanIsCheapest(n: nat, modules: seq<int>, connections: seq<Connection>, picks: seq<nat>)
    requires Rival(n, modules, connections, picks)
    ensures PickedCost(SortedEdges(n, modules, connections), Plan(n, modules, connections).picked)
         <= PickedCost(SortedEdges(n, modules, connections), picks)
  {
    var sorted := SortedEdges(n, modules, connections);
    var ends := Ends(sorted);
    var p := Plan(n, modules, connections).picked;
    var c := Partition.SpanFrom(Partition.Initial(n + 1), ends, picks);
    Partition.SingleClass(c, n);
    assert Partition.Connects(ends, n + 1, picks);
    PlanConnectsAll(n, modules, connections);
    Partition.KruskalDominates(ends, n + 1, Partition.StopAt(n), picks, 0);
    var d := |picks| - n;
    forall j | 0 <= j < n ensures p[j] <= picks[d..][j] < |sorted| {
      Partition.KruskalDominates(ends, n + 1, Partition.StopAt(n), picks, j);
    }
    Sorting.SortByOrdered(AllEdges(n, modules, connections), Cost);
    PickedCostEarlier(sorted, p, picks[d..]);
    PickedCostSplit(sorted, picks, d);
    if d > 0 {
      SortedEdgesNonNegative(n, modules, connections);
      PickedCostNonNegative(sorted, picks[..d]);
    }
  }

  /** The edges of the worked example are already in order of cost. */
  lemma ExampleEdges()
    ensures SortedEdges(3, [1, 2, 2], [Connection(1, 2, 1), Connection(2, 3, 1)])
         == [Edge(0, 1, 1), Edge(1, 2, 1), Edge(0, 3, 1), Edge(1, 3, 2), Edge(2, 3, 2)]
  {
    var es := [Edge(0, 1, 1), Edge(1, 2, 1), Edge(0, 3, 1), Edge(1, 3, 2), Edge(2, 3, 2)];
    assert AllEdges(3, [1, 2, 2], [Connection(1, 2, 1), Connection(2, 3, 1)]) == es;
    assert Sorting.SortedBy(es, Cost) by {
      assert forall i :: 0 <= i < 3 ==> Cost(es[i]) == 1;
      assert forall i :: 3 <= i < 5 ==> Cost(es[i]) == 2;
    }
    Sorting.SortBySorted(es, Cost);
  }

  /** Kruskal's selection on the worked example: the first three edges, after
      which the hub and the three devices form one class. */
  lemma ExampleSelection()
    ensures Partition.Kruskal([(0, 1), (1, 2), (0, 3), (1, 3), (2, 3)], 4, Partition.StopAt(3))
         == Partition.Forest([0, 1, 2], [3, 3, 3, 3])
  {
    var ends := [(0, 1), (1, 2), (0, 3), (1, 3), (2, 3)];
    var limit := Partition.StopAt(3);
    assert Partition.Initial(4) == [0, 1, 2, 3];
    assert Partition.Merge([0, 1, 2, 3], 0, 1) == [1, 1, 2, 3];
    assert Partition.Merge([1, 1, 2, 3], 1, 2) == [2, 2, 2, 3];
    assert Partition.Merge([2, 2, 2, 3], 0, 3) == [3, 3, 3, 3];
    assert [] + [0] == [0] && [0] + [1] == [0, 1] && [0, 1] + [2] == [0, 1, 2];
    calc {
      Partition.KruskalFrom(ends, 0, Partition.Forest([], [0, 1, 2, 3]), limit);
      Partition.KruskalFrom(ends, 1, Partition.Forest([0], [1, 1, 2, 3]), limit);
      Partition.KruskalFrom(ends, 2, Partition.Forest([0, 1], [2, 2, 2, 3]), limit);
      Partition.Forest([0, 1, 2], [3, 3, 3, 3]);
    }
  }

  /** The worked example: three devices with module costs 1, 2 and 2 and
      connections 1-2 and 2-3 costing 1 each; the plan takes both connections
      and the module of the first device, for a total of 3. */
  lemma PlanExample()
    ensures var connections := [Connection(1, 2, 1), Connection(2, 3, 1)];
      && DevicesInRange(3, connections)
      && Plan(3, [1, 2, 2], connections).picked == [0, 1, 2]
      && PickedCost(SortedEdges(3, [1, 2, 2], connections), Plan(3, [1, 2, 2], connections).picked) == 3
  {
    var connections := [Connection(1, 2, 1), Connection(2, 3, 1)];
    var es := [Edge(0, 1, 1), Edge(1, 2, 1), Edge(0, 3, 1), Edge(1, 3, 2), Edge(2, 3, 2)];
    ExampleEdges();
    assert Ends(es) == [(0, 1), (1, 2), (0, 3), (1, 3), (2, 3)];
    ExampleSelection();
    assert PickedCost(es, [0, 1, 2]) == 3 by {
      assert [0, 1, 2][..2] == [0, 1] && [0, 1][..1] == [0] && [0][..0] == [];
    }
  }
}
