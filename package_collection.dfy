/** Package collection on a road map: the adjacency lists built from the
    roads, and the depth-first search from location 0 that counts two road
    traversals (there and back) for every road leading towards a package. */
module PackageCollection {

  /** Every road joins two of the locations 0 .. n - 1. */
  ghost predicate RoadsWithin(roads: seq<(int, int)>, n: int) {
    forall k :: 0 <= k < |roads| ==> 0 <= roads[k].0 < n && 0 <= roads[k].1 < n
  }

  /** The neighbours of v in the order the roads list them: each road adds
      its far end to the list of each of its two ends. */
  function Neighbours(roads: seq<(int, int)>, v: int): seq<int> {
    if roads == [] then []
    else
      var road := roads[|roads| - 1];
      Neighbours(roads[..|roads| - 1], v) + (if road.0 == v then [road.1] else []) + (if road.1 == v then [road.0] else [])
  }

  /** The adjacency lists of the n locations. */
  function Graph(n: nat, roads: seq<(int, int)>): (graph: seq<seq<int>>)
    ensures |graph| == n
  {
    seq(n, v => Neighbours(roads, v))
  }

  /** w is a neighbour of v exactly when some road joins them, in either
      direction: the adjacency is symmetric. */
  lemma {:induction false} NeighboursMeaning(roads: seq<(int, int)>, v: int, w: int)
    ensures w in Neighbours(roads, v) <==> exists k :: 0 <= k < |roads| && (roads[k] == (v, w) || roads[k] == (w, v))
  {
    if roads != [] {
      var init := roads[..|roads| - 1];
      NeighboursMeaning(init, v, w);
      if w in Neighbours(init, v) {
        var k :| 0 <= k < |init| && (init[k] == (v, w) || init[k] == (w, v));
        assert roads[k] == init[k];
      }
      if exists k :: 0 <= k < |roads| && (roads[k] == (v, w) || roads[k] == (w, v)) {
        var k :| 0 <= k < |roads| && (roads[k] == (v, w) || roads[k] == (w, v));
        if k < |init| {
          assert init[k] == roads[k];
        }
      }
    }
  }

  /** The first part of `minRoadsToCollectPackages`: an empty list per
      location, then both directions of every road. */
  method BuildGraph(n: nat, roads: seq<(int, int)>) returns (graph: seq<seq<int>>)
    requires RoadsWithin(roads, n)
    ensures graph == Graph(n, roads)
  {
    graph := [];
    for i := 0 to n
      invariant |graph| == i && forall v :: 0 <= v < i ==> graph[v] == []
    {
      graph := graph + [[]];
    }
    for k := 0 to |roads|
      invariant |graph| == n && forall v :: 0 <= v < n ==> graph[v] == Neighbours(roads[..k], v)
    {
      var road := roads[k];
      assert roads[..k + 1][..k] == roads[..k];
      graph := graph[road.0 := graph[road.0] + [road.1]];
      graph := graph[road.1 := graph[road.1] + [road.0]];
    }
    assert roads[..|roads|] == roads;
  }

  /** Every neighbour is a location. */
  ghost predicate Within(graph: seq<seq<int>>) {
    forall v, j :: 0 <= v < |graph| && 0 <= j < |graph[v]| ==> 0 <= graph[v][j] < |graph|
  }

  lemma GraphWithin(n: nat, roads: seq<(int, int)>)
    requires RoadsWithin(roads, n)
    ensures Within(Graph(n, roads))
  {
    var graph := Graph(n, roads);
    forall v, j | 0 <= v < n && 0 <= j < |graph[v]| ensures 0 <= graph[v][j] < n {
      NeighboursMeaning(roads, v, graph[v][j]);
    }
  }

  /** The number of locations not visited yet. */
  function Unvisited(visited: seq<bool>): nat {
    if visited == [] then 0 else Unvisited(visited[..|visited| - 1]) + (if visited[|visited| - 1] then 0 else 1)
  }

  lemma {:induction false} MarkOne(visited: seq<bool>, v: int)
    requires 0 <= v < |visited| && !visited[v]
    ensures Unvisited(visited[v := true]) + 1 == Unvisited(visited)
  {
    var last := |visited| - 1;
    if v < last {
      assert visited[v := true][..last] == visited[..last][v := true];
      MarkOne(visited[..last], v);
    } else {
      assert visited[v := true][..last] == visited[..last];
    }
  }

  /** What a call of `dfs` returns and leaves in `visited`. */
  datatype Visit = Visit(roads: int, visited: seq<bool>)

  /** What the loop of `dfs` has gathered: the roads so far, whether a
      package was found, and the visited locations. */
  datatype Tally = Tally(roads: int, hasPackage: bool, visited: seq<bool>)

  ghost predicate Ready(graph: seq<seq<int>>, packages: seq<int>, visited: seq<bool>, node: int) {
    Within(graph) && |packages| == |graph| && |visited| == |graph| && 0 <= node < |graph|
  }

  /** `dfs` on `node`, not visited yet: marks it, explores its unvisited
      neighbours in order, and reports the roads found unless neither the
      node nor any explored neighbour led to a package. */
  function Explore(graph: seq<seq<int>>, packages: seq<int>, node: int, visited: seq<bool>): (r: Visit)
    requires Ready(graph, packages, visited, node) && !visited[node]
    ensures |r.visited| == |visited| && Unvisited(r.visited) < Unvisited(visited)
    decreases Unvisited(visited), 0
  {
    MarkOne(visited, node);
    var t := Children(graph, packages, node, 0, visited[node := true], 0, packages[node] == 1);
    Visit(if t.hasPackage then t.roads else 0, t.visited)
  }

  /** The loop of `dfs` from the i-th neighbour of `node` on: a neighbour not
      visited yet is explored, and when it led to roads or holds a package its
      roads plus the two traversals of the road to it are added. */
  function Children(graph: seq<seq<int>>, packages: seq<int>, node: int, i: nat, visited: seq<bool>, total: int, hasPackage: bool): (r: Tally)
    requires Ready(graph, packages, visited, node) && i <= |graph[node]|
    ensures |r.visited| == |visited| && Unvisited(r.visited) <= Unvisited(visited)
    decreases Unvisited(visited), 1, |graph[node]| - i
  {
    if i == |graph[node]| then Tally(total, hasPackage, visited)
    else
      var neighbor := graph[node][i];
      if visited[neighbor] then Children(graph, packages, node, i + 1, visited, total, hasPackage)
      else
        var child := Explore(graph, packages, neighbor, visited);
        if child.roads > 0 || packages[neighbor] == 1 then
          Children(graph, packages, node, i + 1, child.visited, total + child.roads + 2, true)
        else
          Children(graph, packages, node, i + 1, child.visited, total, hasPackage)
  }

  /** The recursive `dfs`: marks `node` in the shared `visited` array and
      returns the roads needed below it, exactly as `Explore` describes. */
  method Dfs(node: int, graph: seq<seq<int>>, visited: array<bool>, packages: seq<int>) returns (totalRoads: int)
    requires Ready(graph, packages, visited[..], node) && !visited[node]
    modifies visited
    ensures Visit(totalRoads, visited[..]) == Explore(graph, packages, node, old(visited[..]))
    decreases Unvisited(visited[..]), 0
  {
    ghost var before := visited[..];
    MarkOne(before, node);
    visited[node] := true;
    totalRoads := 0;
    var hasPackage := packages[node] == 1;
    ghost var goal := Children(graph, packages, node, 0, visited[..], 0, hasPackage);
    for i := 0 to |graph[node]|
      invariant Children(graph, packages, node, i, visited[..], totalRoads, hasPackage) == goal
      invariant Unvisited(visited[..]) < Unvisited(before)
    {
      totalRoads, hasPackage := VisitNeighbor(node, i, graph, visited, packages, totalRoads, hasPackage);
    }
    totalRoads := if hasPackage then totalRoads else 0;
  }

  /** The body of the loop of `dfs` for the i-th neighbour of `node`: explores
      it when it is not visited yet, and counts its roads and the two
      traversals of the road to it when it led to a package. */
  method VisitNeighbor(node: int, i: nat, graph: seq<seq<int>>, visited: array<bool>, packages: seq<int>, totalRoads: int, hasPackage: bool)
    returns (totalRoads': int, hasPackage': bool)
    requires Ready(graph, packages, visited[..], node) && i < |graph[node]|
    modifies visited
    ensures Children(graph, packages, node, i + 1, visited[..], totalRoads', hasPackage')
         == Children(graph, packages, node, i, old(visited[..]), totalRoads, hasPackage)
    ensures Unvisited(visited[..]) <= Unvisited(old(visited[..]))
    decreases Unvisited(visited[..]), 1
  {
    totalRoads', hasPackage' := totalRoads, hasPackage;
    var neighbor := graph[node][i];
    if !visited[neighbor] {
      var roadsFromChild := Dfs(neighbor, graph, visited, packages);
      if roadsFromChild > 0 || packages[neighbor] == 1 {
        totalRoads' := totalRoads + roadsFromChild + 2;
        hasPackage' := true;
      }
    }
  }

  /** `minRoadsToCollectPackages`: builds the adjacency lists and runs `dfs`
      from location 0 with nothing visited. The result is even and not
      negative; it is 0 exactly when no location reachable from 0 other than 0
      itself holds a package; it counts each road of a spanning tree of the
      visited locations at most twice; and the visited locations are exactly
      those reachable from 0. When the roads form a forest, the result is
      exactly twice the number of locations other than 0 that lie on every
      route from 0 to some package: the road into each of them is walked
      there and back. */
  method MinRoadsToCollectPackages(packages: seq<int>, roads: seq<(int, int)>) returns (totalRoads: int)
    requires |packages| > 0 && RoadsWithin(roads, |packages|)
    ensures Within(Graph(|packages|, roads))
    ensures var r := Explore(Graph(|packages|, roads), packages, 0, seq(|packages|, _ => false));
      && totalRoads == r.roads
      && 0 <= totalRoads && totalRoads % 2 == 0
      && totalRoads <= 2 * (|packages| - Unvisited(r.visited) - 1)
      && (forall v :: 0 <= v < |packages| ==> (r.visited[v] <==> Reachable(Graph(|packages|, roads), 0, v)))
    ensures totalRoads == 0 <==>
      forall v :: 0 < v < |packages| && Reachable(Graph(|packages|, roads), 0, v) ==> packages[v] != 1
    ensures Forest(Graph(|packages|, roads)) ==>
      totalRoads == 2 * |set v | 0 < v < |packages| && OnRoute(Graph(|packages|, roads), packages, v)|
  {
    var n := |packages|;
    var graph := BuildGraph(n, roads);
    GraphWithin(n, roads);
    var visited := new bool[n](_ => false);
    ghost var none := visited[..];
    assert none == seq(n, _ => false);
    totalRoads := Dfs(0, graph, visited, packages);
    Collected(graph, packages);
    GraphSymmetric(n, roads);
    if Forest(graph) {
      CollectedOnForest(graph, packages);
    }
  }

  /** `visited` only gains locations. */
  ghost predicate Grows(visited: seq<bool>, visited': seq<bool>) {
    |visited'| == |visited| && forall v :: 0 <= v < |visited| && visited[v] ==> visited'[v]
  }

  /** v was visited between the two states. */
  ghost predicate New(visited: seq<bool>, visited': seq<bool>, v: int) {
    0 <= v < |visited| && v < |visited'| && !visited[v] && visited'[v]
  }

  /** `dfs` marks its node and keeps every mark; the loop leaves every
      neighbour from the i-th on visited. */
  lemma {:induction false} ExploreGrows(graph: seq<seq<int>>, packages: seq<int>, node: int, visited: seq<bool>)
    requires Ready(graph, packages, visited, node) && !visited[node]
    ensures var r := Explore(graph, packages, node, visited);
      Grows(visited, r.visited) && r.visited[node]
    decreases Unvisited(visited), 0
  {
    MarkOne(visited, node);
    ChildrenGrows(graph, packages, node, 0, visited[node := true], 0, packages[node] == 1);
  }

  lemma {:induction false} ChildrenGrows(graph: seq<seq<int>>, packages: seq<int>, node: int, i: nat, visited: seq<bool>, total: int, hasPackage: bool)
    requires Ready(graph, packages, visited, node) && i <= |graph[node]|
    ensures var r := Children(graph, packages, node, i, visited, total, hasPackage);
      && Grows(visited, r.visited)
      && forall j :: i <= j < |graph[node]| ==> r.visited[graph[node][j]]
    decreases Unvisited(visited), 1, |graph[node]| - i
  {
    if i < |graph[node]| {
      var neighbor := graph[node][i];
      if visited[neighbor] {
        ChildrenGrows(graph, packages, node, i + 1, visited, total, hasPackage);
      } else {
        var child := Explore(graph, packages, neighbor, visited);
        ExploreGrows(graph, packages, neighbor, visited);
        if child.roads > 0 || packages[neighbor] == 1 {
          ChildrenGrows(graph, packages, node, i + 1, child.visited, total + child.roads + 2, true);
        } else {
          ChildrenGrows(graph, packages, node, i + 1, child.visited, total, hasPackage);
        }
      }
    }
  }

  /** `dfs` returns a number of roads that is not negative and at most two
      per location it newly visits besides its own node. */
  lemma {:induction false} ExploreBound(graph: seq<seq<int>>, packages: seq<int>, node: int, visited: seq<bool>)
    requires Ready(graph, packages, visited, node) && !visited[node]
    ensures var r := Explore(graph, packages, node, visited);
      0 <= r.roads <= 2 * (Unvisited(visited) - Unvisited(r.visited) - 1)
    decreases Unvisited(visited), 0
  {
    MarkOne(visited, node);
    ChildrenBound(graph, packages, node, 0, visited[node := true], 0, packages[node] == 1);
  }

  lemma {:induction false} ChildrenBound(graph: seq<seq<int>>, packages: seq<int>, node: int, i: nat, visited: seq<bool>, total: int, hasPackage: bool)
    requires Ready(graph, packages, visited, node) && i <= |graph[node]|
    ensures var r := Children(graph, packages, node, i, visited, total, hasPackage);
      total <= r.roads <= total + 2 * (Unvisited(visited) - Unvisited(r.visited))
    decreases Unvisited(visited), 1, |graph[node]| - i
  {
    if i < |graph[node]| {
      var neighbor := graph[node][i];
      if visited[neighbor] {
        ChildrenBound(graph, packages, node, i + 1, visited, total, hasPackage);
      } else {
        var child := Explore(graph, packages, neighbor, visited);
        ExploreBound(graph, packages, neighbor, visited);
        var kept := child.roads > 0 || packages[neighbor] == 1;
        var total' := if kept then total + child.roads + 2 else total;
        ChildrenBound(graph, packages, node, i + 1, child.visited, total', hasPackage || kept);
      }
    }
  }

  /** `dfs` returns an even number of roads: each road is counted there and
      back. */
  lemma {:induction false} ExploreEven(graph: seq<seq<int>>, packages: seq<int>, node: int, visited: seq<bool>)
    requires Ready(graph, packages, visited, node) && !visited[node]
    ensures Explore(graph, packages, node, visited).roads % 2 == 0
    decreases Unvisited(visited), 0
  {
    MarkOne(visited, node);
    ChildrenEven(graph, packages, node, 0, visited[node := true], 0, packages[node] == 1);
  }

  lemma {:induction false} ChildrenEven(graph: seq<seq<int>>, packages: seq<int>, node: int, i: nat, visited: seq<bool>, total: int, hasPackage: bool)
    requires Ready(graph, packages, visited, node) && i <= |graph[node]| && total % 2 == 0
    ensures Children(graph, packages, node, i, visited, total, hasPackage).roads % 2 == 0
    decreases Unvisited(visited), 1, |graph[node]| - i
  {
    if i < |graph[node]| {
      var neighbor := graph[node][i];
      if visited[neighbor] {
        ChildrenEven(graph, packages, node, i + 1, visited, total, hasPackage);
      } else {
        var child := Explore(graph, packages, neighbor, visited);
        ExploreEven(graph, packages, neighbor, visited);
        if child.roads > 0 || packages[neighbor] == 1 {
          EvenSum(total, child.roads);
          ChildrenEven(graph, packages, node, i + 1, child.visited, total + child.roads + 2, true);
        } else {
          ChildrenEven(graph, packages, node, i + 1, child.visited, total, hasPackage);
        }
      }
    }
  }

  lemma EvenSum(a: int, b: int)
    requires a % 2 == 0 && b % 2 == 0
    ensures (a + b + 2) % 2 == 0
  {
  }

  /** `dfs` returns 0 exactly when no location it newly visits, other than
      its own node, holds a package. */
  lemma {:induction false} ExploreZero(graph: seq<seq<int>>, packages: seq<int>, node: int, visited: seq<bool>)
    requires Ready(graph, packages, visited, node) && !visited[node]
    ensures var r := Explore(graph, packages, node, visited);
      r.roads == 0 <==> forall v :: New(visited, r.visited, v) && v != node ==> packages[v] != 1
    decreases Unvisited(visited), 0
  {
    var marked := visited[node := true];
    MarkOne(visited, node);
    ChildrenZero(graph, packages, node, 0, marked, 0, packages[node] == 1);
    ChildrenBound(graph, packages, node, 0, marked, 0, packages[node] == 1);
    var t := Children(graph, packages, node, 0, marked, 0, packages[node] == 1);
    assert forall v :: New(visited, t.visited, v) && v != node <==> New(marked, t.visited, v);
  }

  lemma {:induction false} ChildrenZero(graph: seq<seq<int>>, packages: seq<int>, node: int, i: nat, visited: seq<bool>, total: int, hasPackage: bool)
    requires Ready(graph, packages, visited, node) && i <= |graph[node]|
    ensures var r := Children(graph, packages, node, i, visited, total, hasPackage);
      && r.hasPackage == (hasPackage || r.roads != total)
      && (r.roads == total <==> forall v :: New(visited, r.visited, v) ==> packages[v] != 1)
    decreases Unvisited(visited), 1, |graph[node]| - i
  {
    if i < |graph[node]| {
      var neighbor := graph[node][i];
      if visited[neighbor] {
        ChildrenZero(graph, packages, node, i + 1, visited, total, hasPackage);
      } else {
        var child := Explore(graph, packages, neighbor, visited);
        ExploreZero(graph, packages, neighbor, visited);
        ExploreBound(graph, packages, neighbor, visited);
        ExploreGrows(graph, packages, neighbor, visited);
        var kept := child.roads > 0 || packages[neighbor] == 1;
        var total' := if kept then total + child.roads + 2 else total;
        ChildrenZero(graph, packages, node, i + 1, child.visited, total', hasPackage || kept);
        ChildrenBound(graph, packages, node, i + 1, child.visited, total', hasPackage || kept);
        ChildrenGrows(graph, packages, node, i + 1, child.visited, total', hasPackage || kept);
        var r := Children(graph, packages, node, i + 1, child.visited, total', hasPackage || kept);
        assert forall v :: New(visited, r.visited, v) <==> New(visited, child.visited, v) || New(child.visited, r.visited, v);
        assert kept <==> exists v :: New(visited, child.visited, v) && packages[v] == 1;
      }
    }
  }

  /** The neighbours of every location `dfs` newly visits are visited when it
      returns. */
  ghost predicate Closed(graph: seq<seq<int>>, visited: seq<bool>, visited': seq<bool>)
    requires Within(graph) && |visited'| == |graph|
  {
    forall v, j :: New(visited, visited', v) && 0 <= j < |graph[v]| ==> visited'[graph[v][j]]
  }

  lemma {:induction false} ExploreClosed(graph: seq<seq<int>>, packages: seq<int>, node: int, visited: seq<bool>)
    requires Ready(graph, packages, visited, node) && !visited[node]
    ensures Closed(graph, visited, Explore(graph, packages, node, visited).visited)
    decreases Unvisited(visited), 0
  {
    var marked := visited[node := true];
    MarkOne(visited, node);
    ChildrenClosed(graph, packages, node, 0, marked, 0, packages[node] == 1);
    ChildrenGrows(graph, packages, node, 0, marked, 0, packages[node] == 1);
  }

  lemma {:induction false} ChildrenClosed(graph: seq<seq<int>>, packages: seq<int>, node: int, i: nat, visited: seq<bool>, total: int, hasPackage: bool)
    requires Ready(graph, packages, visited, node) && i <= |graph[node]|
    ensures Closed(graph, visited, Children(graph, packages, node, i, visited, total, hasPackage).visited)
    decreases Unvisited(visited), 1, |graph[node]| - i
  {
    if i < |graph[node]| {
      var neighbor := graph[node][i];
      if visited[neighbor] {
        ChildrenClosed(graph, packages, node, i + 1, visited, total, hasPackage);
      } else {
        var child := Explore(graph, packages, neighbor, visited);
        ExploreClosed(graph, packages, neighbor, visited);
        ExploreGrows(graph, packages, neighbor, visited);
        var kept := child.roads > 0 || packages[neighbor] == 1;
        var total' := if kept then total + child.roads + 2 else total;
        ChildrenClosed(graph, packages, node, i + 1, child.visited, total', hasPackage || kept);
        ChildrenGrows(graph, packages, node, i + 1, child.visited, total', hasPackage || kept);
      }
    }
  }

  /** A path from s to t along the adjacency lists. */
  ghost predicate PathBetween(graph: seq<seq<int>>, w: seq<int>, s: int, t: int) {
    && |w| > 0 && w[0] == s && w[|w| - 1] == t
    && forall i :: 0 <= i < |w| - 1 ==> 0 <= w[i] < |graph| && w[i + 1] in graph[w[i]]
  }

  ghost predicate Reachable(graph: seq<seq<int>>, s: int, t: int) {
    exists w :: PathBetween(graph, w, s, t)
  }

  lemma ReachableStep(graph: seq<seq<int>>, u: int, v: int, t: int)
    requires 0 <= u < |graph| && v in graph[u] && Reachable(graph, v, t)
    ensures Reachable(graph, u, t)
  {
    var w :| PathBetween(graph, w, v, t);
    assert PathBetween(graph, [u] + w, u, t);
  }

  /** Every location `dfs` newly visits is reachable from its node. */
  lemma {:induction false} ExploreSound(graph: seq<seq<int>>, packages: seq<int>, node: int, visited: seq<bool>)
    requires Ready(graph, packages, visited, node) && !visited[node]
    ensures var r := Explore(graph, packages, node, visited);
      forall v :: New(visited, r.visited, v) ==> Reachable(graph, node, v)
    decreases Unvisited(visited), 0
  {
    MarkOne(visited, node);
    ChildrenSound(graph, packages, node, 0, visited[node := true], 0, packages[node] == 1);
    assert PathBetween(graph, [node], node, node);
  }

  lemma {:induction false} ChildrenSound(graph: seq<seq<int>>, packages: seq<int>, node: int, i: nat, visited: seq<bool>, total: int, hasPackage: bool)
    requires Ready(graph, packages, visited, node) && i <= |graph[node]|
    ensures var r := Children(graph, packages, node, i, visited, total, hasPackage);
      forall v :: New(visited, r.visited, v) ==> Reachable(graph, node, v)
    decreases Unvisited(visited), 1, |graph[node]| - i
  {
    if i < |graph[node]| {
      var neighbor := graph[node][i];
      if visited[neighbor] {
        ChildrenSound(graph, packages, node, i + 1, visited, total, hasPackage);
      } else {
        var child := Explore(graph, packages, neighbor, visited);
        ExploreSound(graph, packages, neighbor, visited);
        ExploreGrows(graph, packages, neighbor, visited);
        var kept := child.roads > 0 || packages[neighbor] == 1;
        var total' := if kept then total + child.roads + 2 else total;
        ChildrenSound(graph, packages, node, i + 1, child.visited, total', hasPackage || kept);
        ChildrenGrows(graph, packages, node, i + 1, child.visited, total', hasPackage || kept);
        forall v | New(visited, child.visited, v) ensures Reachable(graph, node, v) {
          ReachableStep(graph, node, neighbor, v);
        }
      }
    }
  }

  /** A path that starts inside a closed visited set stays inside it. */
  lemma {:induction false} StaysVisited(graph: seq<seq<int>>, visited: seq<bool>, w: seq<int>, s: int, t: int, i: nat)
    requires Within(graph) && |visited| == |graph|
    requires forall v, j :: 0 <= v < |graph| && visited[v] && 0 <= j < |graph[v]| ==> visited[graph[v][j]]
    requires PathBetween(graph, w, s, t) && 0 <= s < |graph| && visited[s] && i < |w|
    ensures 0 <= w[i] < |graph| && visited[w[i]]
  {
    if i > 0 {
      StaysVisited(graph, visited, w, s, t, i - 1);
      var j :| 0 <= j < |graph[w[i - 1]]| && graph[w[i - 1]][j] == w[i];
    }
  }

  /** The search from location 0 with nothing visited visits exactly the
      locations reachable from 0, and its result is 0 exactly when none of
      them but 0 holds a package. */
  lemma Collected(graph: seq<seq<int>>, packages: seq<int>)
    requires Ready(graph, packages, seq(|graph|, _ => false), 0)
    ensures var r := Explore(graph, packages, 0, seq(|graph|, _ => false));
      && 0 <= r.roads && r.roads % 2 == 0
      && r.roads <= 2 * (|graph| - Unvisited(r.visited) - 1)
      && (forall v :: 0 <= v < |graph| ==> (r.visited[v] <==> Reachable(graph, 0, v)))
      && (r.roads == 0 <==> forall v :: 0 < v < |graph| && Reachable(graph, 0, v) ==> packages[v] != 1)
  {
    var none := seq(|graph|, _ => false);
    var r := Explore(graph, packages, 0, none);
    AllUnvisited(|graph|);
    ExploreBound(graph, packages, 0, none);
    ExploreEven(graph, packages, 0, none);
    ExploreZero(graph, packages, 0, none);
    ExploreSound(graph, packages, 0, none);
    ExploreClosed(graph, packages, 0, none);
    ExploreGrows(graph, packages, 0, none);
    forall v | 0 <= v < |graph| ensures r.visited[v] <==> Reachable(graph, 0, v) {
      if Reachable(graph, 0, v) {
        var w :| PathBetween(graph, w, 0, v);
        StaysVisited(graph, r.visited, w, 0, v, |w| - 1);
      }
    }
  }

  lemma {:induction false} AllUnvisited(n: nat)
    ensures Unvisited(seq(n, _ => false)) == n
  {
    if n > 0 {
      assert seq(n, _ => false)[..n - 1] == seq(n - 1, _ => false);
      AllUnvisited(n - 1);
    }
  }

  // On a forest the count is exact. A location v "lies on the way" to a
  // package at t when every route from 0 to t passes v; `dfs` from a node
  // newly visits exactly the reachable locations behind it, and keeps a
  // neighbour exactly when a package lies behind that neighbour.

  /** The roads are two-way: every neighbour of a location is a location that
      has the first among its own neighbours. */
  ghost predicate Symmetric(graph: seq<seq<int>>) {
    forall u, v :: Adjacent(graph, u, v) ==> Adjacent(graph, v, u)
  }

  /** A road leads from location u to v. */
  ghost predicate Adjacent(graph: seq<seq<int>>, u: int, v: int) {
    0 <= u < |graph| && v in graph[u]
  }

  lemma GraphSymmetric(n: nat, roads: seq<(int, int)>)
    requires RoadsWithin(roads, n)
    ensures Symmetric(Graph(n, roads))
  {
    var graph := Graph(n, roads);
    forall u, v | Adjacent(graph, u, v) ensures Adjacent(graph, v, u) {
      assert graph[u] == Neighbours(roads, u);
      NeighboursMeaning(roads, u, v);
      var k :| 0 <= k < |roads| && (roads[k] == (u, v) || roads[k] == (v, u));
      NeighboursMeaning(roads, v, u);
      assert graph[v] == Neighbours(roads, v);
    }
  }

  /** A route read backwards. */
  function Reversed(w: seq<int>): seq<int> {
    seq(|w|, i requires 0 <= i < |w| => w[|w| - 1 - i])
  }

  lemma ReversedPath(graph: seq<seq<int>>, w: seq<int>, s: int, t: int)
    requires Symmetric(graph) && PathBetween(graph, w, s, t)
    ensures PathBetween(graph, Reversed(w), t, s)
  {
    var r := Reversed(w);
    forall i | 0 <= i < |r| - 1 ensures 0 <= r[i] < |graph| && r[i + 1] in graph[r[i]] {
      var k := |w| - 2 - i;
      assert r[i] == w[k + 1] && r[i + 1] == w[k];
      assert Adjacent(graph, w[k], w[k + 1]);
    }
  }

  /** A route from s to m followed by a route from m to t. */
  lemma JoinedPath(graph: seq<seq<int>>, w1: seq<int>, w2: seq<int>, s: int, m: int, t: int)
    requires PathBetween(graph, w1, s, m) && PathBetween(graph, w2, m, t)
    ensures PathBetween(graph, w1 + w2[1..], s, t)
  {
    var w := w1 + w2[1..];
    forall i | 0 <= i < |w| - 1 ensures 0 <= w[i] < |graph| && w[i + 1] in graph[w[i]] {
      if i < |w1| - 1 {
        assert w[i] == w1[i] && w[i + 1] == w1[i + 1];
      } else {
        var k := i - |w1| + 1;
        assert w[i] == w2[k] && w[i + 1] == w2[k + 1];
      }
    }
  }

  lemma PathPrefix(graph: seq<seq<int>>, w: seq<int>, s: int, t: int, i: nat)
    requires PathBetween(graph, w, s, t) && i < |w|
    ensures PathBetween(graph, w[..i + 1], s, w[i])
  {
  }

  lemma PathSuffix(graph: seq<seq<int>>, w: seq<int>, s: int, t: int, i: nat)
    requires PathBetween(graph, w, s, t) && i < |w|
    ensures PathBetween(graph, w[i..], w[i], t)
  {
    var u := w[i..];
    forall k | 0 <= k < |u| - 1 ensures 0 <= u[k] < |graph| && u[k + 1] in graph[u[k]] {
      assert u[k] == w[i + k] && u[k + 1] == w[i + k + 1];
    }
  }

  /** The route w takes the road between a and b, in one direction or the
      other. */
  ghost predicate Crosses(w: seq<int>, a: int, b: int) {
    exists i :: 0 <= i < |w| - 1 && ((w[i] == a && w[i + 1] == b) || (w[i] == b && w[i + 1] == a))
  }

  lemma NotCrossing(w: seq<int>, a: int, b: int)
    requires a !in w || b !in w
    ensures !Crosses(w, a, b)
  {
    forall i | 0 <= i < |w| - 1
      ensures !((w[i] == a && w[i + 1] == b) || (w[i] == b && w[i + 1] == a))
    {
      assert w[i] in w && w[i + 1] in w;
    }
  }

  lemma CrossesJoined(w1: seq<int>, w2: seq<int>, a: int, b: int)
    requires |w1| > 0 && |w2| > 0 && w1[|w1| - 1] == w2[0]
    requires !Crosses(w1, a, b) && !Crosses(w2, a, b)
    ensures !Crosses(w1 + w2[1..], a, b)
  {
    var w := w1 + w2[1..];
    forall i | 0 <= i < |w| - 1
      ensures !((w[i] == a && w[i + 1] == b) || (w[i] == b && w[i + 1] == a))
    {
      if i < |w1| - 1 {
        assert w[i] == w1[i] && w[i + 1] == w1[i + 1];
      } else {
        var k := i - |w1| + 1;
        assert w[i] == w2[k] && w[i + 1] == w2[k + 1];
      }
    }
  }

  lemma CrossesReversed(w: seq<int>, a: int, b: int)
    requires !Crosses(w, a, b)
    ensures !Crosses(Reversed(w), a, b)
  {
    var r := Reversed(w);
    forall i | 0 <= i < |r| - 1
      ensures !((r[i] == a && r[i + 1] == b) || (r[i] == b && r[i + 1] == a))
    {
      var k := |w| - 2 - i;
      assert r[i] == w[k + 1] && r[i + 1] == w[k];
    }
  }

  /** The roads form a forest, loops and repeated roads aside: every route
      between the two ends of a road takes a road between them. */
  ghost predicate Forest(graph: seq<seq<int>>) {
    forall a, b, w :: 0 <= a < |graph| && b in graph[a] && a != b && PathBetween(graph, w, a, b) ==> Crosses(w, a, b)
  }

  /** Every route from 0 to t passes v. */
  ghost predicate Cut(graph: seq<seq<int>>, v: int, t: int) {
    forall w :: PathBetween(graph, w, 0, t) ==> v in w
  }

  /** Location v lies on every route from 0 to some location, reachable from
      0, that holds a package. */
  ghost predicate OnRoute(graph: seq<seq<int>>, packages: seq<int>, v: int) {
    exists t :: 0 <= t < |packages| && packages[t] == 1 && Reachable(graph, 0, t) && Cut(graph, v, t)
  }

  /** Every visited location can be reached from 0 without passing v. */
  ghost predicate Clear(graph: seq<seq<int>>, visited: seq<bool>, v: int) {
    forall x :: 0 <= x < |visited| && visited[x] ==> !Cut(graph, v, x)
  }

  /** The route a, from 0 to m, then the route b from m on, avoid v. */
  lemma Detour(graph: seq<seq<int>>, a: seq<int>, b: seq<int>, m: int, t: int, v: int)
    requires PathBetween(graph, a, 0, m) && v !in a
    requires PathBetween(graph, b, m, t) && v !in b[1..]
    ensures !Cut(graph, v, t)
  {
    JoinedPath(graph, a, b, 0, m, t);
    assert v !in a + b[1..];
  }

  /** A route from 0 whose first i + 1 locations avoid v. */
  lemma EarlyAvoid(graph: seq<seq<int>>, a: seq<int>, t: int, v: int, i: nat)
    requires PathBetween(graph, a, 0, t) && i < |a| && v !in a[..i + 1]
    ensures !Cut(graph, v, a[i])
  {
    PathPrefix(graph, a, 0, t, i);
  }

  /** Where v lies on every route from 0 to t, every route from 0 to t passes
      v before t: so t is reachable from 0 only if v is. */
  lemma CutReaches(graph: seq<seq<int>>, v: int, t: int)
    requires Reachable(graph, 0, t) && Cut(graph, v, t)
    ensures Reachable(graph, 0, v)
  {
    var q :| PathBetween(graph, q, 0, t);
    var i :| 0 <= i < |q| && q[i] == v;
    PathPrefix(graph, q, 0, t, i);
  }

  /** Where every route from 0 to c passes node, some route from 0 to node
      avoids c. */
  lemma {:induction false} AvoidOnWay(graph: seq<seq<int>>, node: int, c: int, w: seq<int>)
    requires Cut(graph, node, c) && node != c && PathBetween(graph, w, 0, node)
    ensures !Cut(graph, c, node)
    decreases |w|
  {
    if c in w {
      var i :| 0 <= i < |w| && w[i] == c;
      PathPrefix(graph, w, 0, node, i);
      assert node in w[..i + 1];
      var j :| 0 <= j <= i && w[j] == node;
      PathPrefix(graph, w, 0, node, j);
      AvoidOnWay(graph, node, c, w[..j + 1]);
    } else {
      assert PathBetween(graph, w, 0, node);
    }
  }

  /** The last place where v occurs in w. */
  lemma {:induction false} LastVisit(w: seq<int>, v: int) returns (i: nat)
    requires v in w
    ensures i < |w| && w[i] == v && v !in w[i + 1..]
    decreases |w|
  {
    if v in w[1..] {
      var k := LastVisit(w[1..], v);
      i := k + 1;
      assert w[i + 1..] == w[1..][k + 1..];
    } else {
      i := 0;
      assert w == [w[0]] + w[1..];
    }
  }

  /** t can be reached from s along a route whose locations are s or were
      newly visited between the two states. */
  ghost predicate Inside(graph: seq<seq<int>>, visited: seq<bool>, visited': seq<bool>, s: int, t: int) {
    exists w :: PathBetween(graph, w, s, t) && forall k :: 0 <= k < |w| ==> w[k] == s || New(visited, visited', w[k])
  }

  /** Every location `dfs` newly visits is reached from its node through
      locations it newly visits. */
  lemma {:induction false} ExploreInside(graph: seq<seq<int>>, packages: seq<int>, node: int, visited: seq<bool>)
    requires Ready(graph, packages, visited, node) && !visited[node]
    ensures forall t :: New(visited, Explore(graph, packages, node, visited).visited, t) ==>
      Inside(graph, visited, Explore(graph, packages, node, visited).visited, node, t)
    decreases Unvisited(visited), 0
  {
    var marked := visited[node := true];
    MarkOne(visited, node);
    ChildrenInside(graph, packages, node, 0, marked, 0, packages[node] == 1);
    var r := Explore(graph, packages, node, visited);
    assert r.visited == Children(graph, packages, node, 0, marked, 0, packages[node] == 1).visited;
    forall t | New(visited, r.visited, t) ensures Inside(graph, visited, r.visited, node, t) {
      if t == node {
        assert PathBetween(graph, [node], node, node);
      } else {
        assert New(marked, r.visited, t);
        InsideLift(graph, visited, marked, r.visited, node, t);
      }
    }
  }

  lemma {:induction false} ChildrenInside(graph: seq<seq<int>>, packages: seq<int>, node: int, i: nat, visited: seq<bool>, total: int, hasPackage: bool)
    requires Ready(graph, packages, visited, node) && i <= |graph[node]|
    ensures forall t :: New(visited, Children(graph, packages, node, i, visited, total, hasPackage).visited, t) ==>
      Inside(graph, visited, Children(graph, packages, node, i, visited, total, hasPackage).visited, node, t)
    decreases Unvisited(visited), 1, |graph[node]| - i
  {
    if i < |graph[node]| {
      var neighbor := graph[node][i];
      if visited[neighbor] {
        ChildrenInside(graph, packages, node, i + 1, visited, total, hasPackage);
        assert Children(graph, packages, node, i, visited, total, hasPackage)
            == Children(graph, packages, node, i + 1, visited, total, hasPackage);
      } else {
        var child := Explore(graph, packages, neighbor, visited);
        ExploreInside(graph, packages, neighbor, visited);
        ExploreGrows(graph, packages, neighbor, visited);
        var kept := child.roads > 0 || packages[neighbor] == 1;
        var total' := if kept then total + child.roads + 2 else total;
        var has' := if kept then true else hasPackage;
        var r := Children(graph, packages, node, i + 1, child.visited, total', has');
        ChildrenInside(graph, packages, node, i + 1, child.visited, total', has');
        ChildrenGrows(graph, packages, node, i + 1, child.visited, total', has');
        forall t | New(visited, r.visited, t) ensures Inside(graph, visited, r.visited, node, t) {
          if New(visited, child.visited, t) {
            InsideStep(graph, visited, child.visited, r.visited, node, neighbor, t);
          } else {
            InsideLift(graph, visited, child.visited, r.visited, node, t);
          }
        }
      }
    }
  }

  /** A route inside what `dfs` newly visited from a neighbour c of node,
      preceded by the road from node. */
  lemma InsideStep(graph: seq<seq<int>>, v1: seq<bool>, v2: seq<bool>, v3: seq<bool>, node: int, c: int, t: int)
    requires 0 <= node < |graph| && c in graph[node] && Grows(v1, v2) && Grows(v2, v3)
    requires New(v1, v2, c) && Inside(graph, v1, v2, c, t)
    ensures Inside(graph, v1, v3, node, t)
  {
    var w :| PathBetween(graph, w, c, t) && forall k :: 0 <= k < |w| ==> w[k] == c || New(v1, v2, w[k]);
    var w' := [node] + w;
    assert PathBetween(graph, w', node, t) by {
      forall k | 0 <= k < |w'| - 1 ensures 0 <= w'[k] < |graph| && w'[k + 1] in graph[w'[k]] {
        if k > 0 {
          assert w'[k] == w[k - 1] && w'[k + 1] == w[k];
        }
      }
    }
    forall k | 0 <= k < |w'| ensures w'[k] == node || New(v1, v3, w'[k]) {
      if k > 0 {
        assert w'[k] == w[k - 1];
      }
    }
  }

  /** A route inside what the rest of the loop newly visited lies inside
      what the whole loop newly visited. */
  lemma InsideLift(graph: seq<seq<int>>, v1: seq<bool>, v2: seq<bool>, v3: seq<bool>, node: int, t: int)
    requires Grows(v1, v2) && Inside(graph, v2, v3, node, t)
    ensures Inside(graph, v1, v3, node, t)
  {
    var w :| PathBetween(graph, w, node, t) && forall k :: 0 <= k < |w| ==> w[k] == node || New(v2, v3, w[k]);
    assert forall k :: 0 <= k < |w| ==> w[k] == node || New(v1, v3, w[k]);
  }

  /** The roads form a forest, the search may call `dfs` on node with the
      visited locations `visited`: node is reachable from 0 but not visited,
      every visited location can be reached without passing it, and it is
      location 0 or a neighbour of a visited location. */
  ghost predicate Fresh(graph: seq<seq<int>>, packages: seq<int>, visited: seq<bool>, node: int) {
    && Ready(graph, packages, visited, node) && Symmetric(graph) && Forest(graph)
    && !visited[node] && Reachable(graph, 0, node) && Clear(graph, visited, node)
    && (node == 0 || exists p :: Adjacent(graph, p, node) && visited[p])
  }

  /** A neighbour c of the node, not visited yet, lies behind the node: every
      route from 0 to c passes it. Otherwise the route from the node's visited
      neighbour p back to 0, on to c and over to the node would join p and the
      node without taking the road between them. */
  lemma ChildBehind(graph: seq<seq<int>>, packages: seq<int>, visited: seq<bool>, node: int, c: int)
    requires Fresh(graph, packages, visited, node)
    requires c in graph[node] && !visited[c] && c != node
    ensures Cut(graph, node, c)
  {
    if node == 0 {
      forall q | PathBetween(graph, q, 0, c) ensures node in q {
        assert q[0] == 0;
      }
    } else {
      forall q | PathBetween(graph, q, 0, c) ensures node in q {
        if node !in q {
          var p :| Adjacent(graph, p, node) && visited[p];
          assert !Cut(graph, node, p);
          var b :| PathBetween(graph, b, 0, p) && node !in b;
          ReversedPath(graph, b, 0, p);
          var back := Reversed(b);
          JoinedPath(graph, back, q, p, 0, c);
          var there := back + q[1..];
          assert Adjacent(graph, node, c);
          var step := [c, node];
          assert PathBetween(graph, step, c, node);
          NotCrossing(b, p, node);
          CrossesReversed(b, p, node);
          NotCrossing(q, p, node);
          CrossesJoined(back, q, p, node);
          CrossesJoined(there, step, p, node);
          JoinedPath(graph, there, step, p, c, node);
          assert false;
        }
      }
    }
  }

  /** Everything `dfs` newly visits from a fresh node lies behind it, and is
      reachable from 0. */
  lemma RegionBehind(graph: seq<seq<int>>, packages: seq<int>, node: int, visited: seq<bool>, t: int)
    requires Fresh(graph, packages, visited, node)
    requires New(visited, Explore(graph, packages, node, visited).visited, t)
    ensures Reachable(graph, 0, t) && Cut(graph, node, t)
  {
    var r := Explore(graph, packages, node, visited);
    ExploreInside(graph, packages, node, visited);
    assert Inside(graph, visited, r.visited, node, t);
    var inner :| PathBetween(graph, inner, node, t)
              && forall k :: 0 <= k < |inner| ==> inner[k] == node || New(visited, r.visited, inner[k]);
    var a :| PathBetween(graph, a, 0, node);
    JoinedPath(graph, a, inner, 0, node, t);
    if node == 0 {
      forall q | PathBetween(graph, q, 0, t) ensures node in q {
        assert q[0] == 0;
      }
    } else {
      forall q | PathBetween(graph, q, 0, t) ensures node in q {
        if node !in q {
          var p :| Adjacent(graph, p, node) && visited[p];
          assert !Cut(graph, node, p);
          var b :| PathBetween(graph, b, 0, p) && node !in b;
          ReversedPath(graph, b, 0, p);
          ReversedPath(graph, inner, node, t);
          var back, home := Reversed(b), Reversed(inner);
          JoinedPath(graph, back, q, p, 0, t);
          var there := back + q[1..];
          NotCrossing(b, p, node);
          CrossesReversed(b, p, node);
          NotCrossing(q, p, node);
          CrossesJoined(back, q, p, node);
          assert p !in inner;
          NotCrossing(inner, p, node);
          CrossesReversed(inner, p, node);
          CrossesJoined(there, home, p, node);
          JoinedPath(graph, there, home, p, t, node);
          assert false;
        }
      }
    }
  }

  /** Along a route from a fresh node that does not return to it, towards a
      location behind it, every location is newly visited by `dfs`. */
  lemma {:induction false} NewAlong(graph: seq<seq<int>>, visited: seq<bool>, visited': seq<bool>, node: int, t: int, tail: seq<int>, k: nat)
    requires Within(graph) && |visited| == |graph| && |visited'| == |graph|
    requires Closed(graph, visited, visited') && New(visited, visited', node)
    requires Clear(graph, visited, node) && Cut(graph, node, t)
    requires PathBetween(graph, tail, node, t) && node !in tail[1..] && k < |tail|
    ensures New(visited, visited', tail[k])
    decreases k
  {
    if k > 0 {
      NewAlong(graph, visited, visited', node, t, tail, k - 1);
      var v := tail[k - 1];
      var j :| 0 <= j < |graph[v]| && graph[v][j] == tail[k];
      if visited[tail[k]] {
        assert !Cut(graph, node, tail[k]);
        var a :| PathBetween(graph, a, 0, tail[k]) && node !in a;
        PathSuffix(graph, tail, node, t, k);
        assert tail[k..][1..] == tail[1..][k..];
        Detour(graph, a, tail[k..], tail[k], t, node);
        assert false;
      }
    }
  }

  /** Everything behind a fresh node that is reachable from 0 is newly
      visited by `dfs` from it. */
  lemma BehindInRegion(graph: seq<seq<int>>, packages: seq<int>, node: int, visited: seq<bool>, t: int)
    requires Fresh(graph, packages, visited, node)
    requires Reachable(graph, 0, t) && Cut(graph, node, t)
    ensures New(visited, Explore(graph, packages, node, visited).visited, t)
  {
    var r := Explore(graph, packages, node, visited);
    ExploreClosed(graph, packages, node, visited);
    ExploreGrows(graph, packages, node, visited);
    var q :| PathBetween(graph, q, 0, t);
    var i := LastVisit(q, node);
    PathSuffix(graph, q, 0, t, i);
    var tail := q[i..];
    assert tail[1..] == q[i + 1..];
    NewAlong(graph, visited, r.visited, node, t, tail, |tail| - 1);
  }

  /** Whatever lies behind a location behind node lies behind node. */
  lemma CutTrans(graph: seq<seq<int>>, node: int, v: int, t: int)
    requires Cut(graph, node, v) && Cut(graph, v, t)
    ensures Cut(graph, node, t)
  {
    forall q | PathBetween(graph, q, 0, t) ensures node in q {
      var i :| 0 <= i < |q| && q[i] == v;
      PathPrefix(graph, q, 0, t, i);
      assert node in q[..i + 1];
    }
  }

  /** Every location lies on each route to itself. */
  lemma CutSelf(graph: seq<seq<int>>, t: int)
    ensures Cut(graph, t, t)
  {
    forall q | PathBetween(graph, q, 0, t) ensures t in q {
      assert q[|q| - 1] == t;
    }
  }

  /** The loop of `dfs` on node may go on from its i-th neighbour: node is
      visited and reachable from 0, and every later neighbour not visited
      yet can be reached from 0 without passing a visited location. */
  ghost predicate Expanding(graph: seq<seq<int>>, packages: seq<int>, visited: seq<bool>, node: int, i: nat) {
    && Ready(graph, packages, visited, node) && Symmetric(graph) && Forest(graph)
    && visited[node] && i <= |graph[node]| && Reachable(graph, 0, node)
    && forall j :: i <= j < |graph[node]| && !visited[graph[node][j]] ==> Clear(graph, visited, graph[node][j])
  }

  /** Once `dfs` marks a fresh node, each neighbour c it has not visited
      can still be reached without passing a visited location. */
  lemma ClearFromBehind(graph: seq<seq<int>>, packages: seq<int>, visited: seq<bool>, node: int, c: int)
    requires Fresh(graph, packages, visited, node)
    requires c in graph[node] && !visited[c] && c != node
    ensures Clear(graph, visited[node := true], c)
  {
    ChildBehind(graph, packages, visited, node, c);
    var marked := visited[node := true];
    forall x | 0 <= x < |marked| && marked[x] ensures !Cut(graph, c, x) {
      if x == node {
        var a :| PathBetween(graph, a, 0, node);
        AvoidOnWay(graph, node, c, a);
      } else {
        assert !Cut(graph, node, x);
        var a :| PathBetween(graph, a, 0, x) && node !in a;
        forall k | 0 <= k < |a| ensures a[k] != c {
          PathPrefix(graph, a, 0, x, k);
          assert a[..k + 1] <= a;
        }
        assert c !in a;
      }
    }
  }

  /** After `dfs` returns from the neighbour c, each later neighbour d it has
      not visited can still be reached without passing a visited location:
      the route to node avoiding d, the road to c and the route inside what
      `dfs` visited from c. */
  lemma ClearAfterChild(graph: seq<seq<int>>, packages: seq<int>, visited: seq<bool>, node: int, i: nat, d: int)
    requires Expanding(graph, packages, visited, node, i) && i < |graph[node]|
    requires !visited[graph[node][i]]
    requires d in graph[node][i + 1..] && !visited[d] && Clear(graph, visited, d)
    requires !Explore(graph, packages, graph[node][i], visited).visited[d]
    ensures Clear(graph, Explore(graph, packages, graph[node][i], visited).visited, d)
  {
    var c := graph[node][i];
    var child := Explore(graph, packages, c, visited);
    ExploreGrows(graph, packages, c, visited);
    ExploreInside(graph, packages, c, visited);
    forall x | 0 <= x < |child.visited| && child.visited[x] ensures !Cut(graph, d, x) {
      if !visited[x] {
        assert New(visited, child.visited, x);
        assert Inside(graph, visited, child.visited, c, x);
        var inner :| PathBetween(graph, inner, c, x)
                  && forall k :: 0 <= k < |inner| ==> inner[k] == c || New(visited, child.visited, inner[k]);
        assert !Cut(graph, d, node);
        var a :| PathBetween(graph, a, 0, node) && d !in a;
        var b := [node] + inner;
        assert PathBetween(graph, b, node, x) by {
          forall k | 0 <= k < |b| - 1 ensures 0 <= b[k] < |graph| && b[k + 1] in graph[b[k]] {
            if k > 0 {
              assert b[k] == inner[k - 1] && b[k + 1] == inner[k];
            }
          }
        }
        assert b[1..] == inner;
        Detour(graph, a, b, node, x, d);
      }
    }
  }

  /** What `dfs` newly visits between two states and lies on the way to a
      package. */
  ghost function Served(graph: seq<seq<int>>, packages: seq<int>, visited: seq<bool>, visited': seq<bool>): set<int> {
    set v | 0 <= v < |visited| && New(visited, visited', v) && OnRoute(graph, packages, v)
  }

  /** Some location newly visited between two states holds a package. */
  ghost predicate Holds(packages: seq<int>, visited: seq<bool>, visited': seq<bool>) {
    exists t :: 0 <= t < |packages| && New(visited, visited', t) && packages[t] == 1
  }

  lemma ServedSplit(graph: seq<seq<int>>, packages: seq<int>, v1: seq<bool>, v2: seq<bool>, v3: seq<bool>)
    requires Grows(v1, v2) && Grows(v2, v3)
    ensures |Served(graph, packages, v1, v3)| == |Served(graph, packages, v1, v2)| + |Served(graph, packages, v2, v3)|
    ensures Holds(packages, v1, v3) <==> Holds(packages, v1, v2) || Holds(packages, v2, v3)
  {
    var a, b := Served(graph, packages, v1, v2), Served(graph, packages, v2, v3);
    assert Served(graph, packages, v1, v3) == a + b;
    assert a !! b;
  }

  /** A location on the way to a package, newly visited from a fresh node,
      has that package among the locations newly visited. */
  lemma ServedHolds(graph: seq<seq<int>>, packages: seq<int>, node: int, visited: seq<bool>, v: int)
    requires Fresh(graph, packages, visited, node)
    requires New(visited, Explore(graph, packages, node, visited).visited, v) && OnRoute(graph, packages, v)
    ensures Holds(packages, visited, Explore(graph, packages, node, visited).visited)
  {
    RegionBehind(graph, packages, node, visited, v);
    var t :| 0 <= t < |packages| && packages[t] == 1 && Reachable(graph, 0, t) && Cut(graph, v, t);
    CutTrans(graph, node, v, t);
    BehindInRegion(graph, packages, node, visited, t);
  }

  /** `dfs` from a fresh node counts two roads for each location other than
      the node that it newly visits and that lies on the way to a package;
      the node is kept by its caller exactly when a package lies among the
      locations newly visited. */
  lemma {:induction false} ExploreServed(graph: seq<seq<int>>, packages: seq<int>, node: int, visited: seq<bool>)
    requires Fresh(graph, packages, visited, node)
    ensures Explore(graph, packages, node, visited).roads
         == 2 * |Served(graph, packages, visited, Explore(graph, packages, node, visited).visited) - {node}|
    ensures Explore(graph, packages, node, visited).roads > 0 || packages[node] == 1
        <==> Holds(packages, visited, Explore(graph, packages, node, visited).visited)
    decreases Unvisited(visited), 0, 0, 0
  {
    var r := Explore(graph, packages, node, visited);
    var marked := visited[node := true];
    MarkOne(visited, node);
    var t := Children(graph, packages, node, 0, marked, 0, packages[node] == 1);
    assert r.visited == t.visited && r.roads == if t.hasPackage then t.roads else 0;
    forall j | 0 <= j < |graph[node]| && !marked[graph[node][j]] ensures Clear(graph, marked, graph[node][j]) {
      ClearFromBehind(graph, packages, visited, node, graph[node][j]);
    }
    ChildrenServed(graph, packages, node, 0, marked, 0, packages[node] == 1);
    ExploreGrows(graph, packages, node, visited);
    forall v | 0 <= v < |visited| && New(marked, r.visited, v) && OnRoute(graph, packages, v)
      ensures Holds(packages, visited, r.visited)
    {
      ServedHolds(graph, packages, node, visited, v);
    }
    forall p | 0 <= p < |packages| && New(marked, r.visited, p) && packages[p] == 1
      ensures OnRoute(graph, packages, p)
    {
      RegionBehind(graph, packages, node, visited, p);
      CutSelf(graph, p);
    }
    Tallied(graph, packages, visited, node, r.visited, t.roads, t.hasPackage, r.roads);
  }

  /** The arithmetic of `dfs` returning from node: the roads of its loop,
      kept only when a package was found. */
  lemma Tallied(graph: seq<seq<int>>, packages: seq<int>, visited: seq<bool>, node: int, final: seq<bool>,
                loopRoads: int, found: bool, roads: int)
    requires 0 <= node < |visited| == |packages| && !visited[node] && Grows(visited[node := true], final)
    requires loopRoads == 2 * |Served(graph, packages, visited[node := true], final)|
    requires found == (packages[node] == 1 || Holds(packages, visited[node := true], final))
    requires roads == if found then loopRoads else 0
    requires forall v :: 0 <= v < |visited| && New(visited[node := true], final, v) && OnRoute(graph, packages, v)
               ==> Holds(packages, visited, final)
    requires forall p :: 0 <= p < |packages| && New(visited[node := true], final, p) && packages[p] == 1
               ==> OnRoute(graph, packages, p)
    ensures roads == 2 * |Served(graph, packages, visited, final) - {node}|
    ensures roads > 0 || packages[node] == 1 <==> Holds(packages, visited, final)
  {
    var marked := visited[node := true];
    var served := Served(graph, packages, marked, final);
    assert Served(graph, packages, visited, final) - {node} == served by {
      forall v ensures v in Served(graph, packages, visited, final) - {node} <==> v in served {
        assert v != node ==> (New(visited, final, v) <==> New(marked, final, v));
      }
    }
    assert Holds(packages, visited, final) <==> packages[node] == 1 || Holds(packages, marked, final) by {
      if Holds(packages, visited, final) && packages[node] != 1 {
        var p :| 0 <= p < |packages| && New(visited, final, p) && packages[p] == 1;
        assert New(marked, final, p);
      }
      if packages[node] == 1 {
        assert New(visited, final, node);
      }
    }
    if !found {
      assert served == {};
    } else if Holds(packages, marked, final) {
      var p :| 0 <= p < |packages| && New(marked, final, p) && packages[p] == 1;
      assert p in served;
    }
  }

  lemma {:induction false} ChildrenServed(graph: seq<seq<int>>, packages: seq<int>, node: int, i: nat, visited: seq<bool>, total: int, hasPackage: bool)
    requires Expanding(graph, packages, visited, node, i)
    ensures Children(graph, packages, node, i, visited, total, hasPackage).roads
         == total + 2 * |Served(graph, packages, visited, Children(graph, packages, node, i, visited, total, hasPackage).visited)|
    ensures Children(graph, packages, node, i, visited, total, hasPackage).hasPackage
        == (hasPackage || Holds(packages, visited, Children(graph, packages, node, i, visited, total, hasPackage).visited))
    decreases Unvisited(visited), 1, |graph[node]| - i, 1
  {
    if i == |graph[node]| {
      assert Served(graph, packages, visited, visited) == {};
    } else if visited[graph[node][i]] {
      ChildrenServed(graph, packages, node, i + 1, visited, total, hasPackage);
      assert Children(graph, packages, node, i, visited, total, hasPackage)
          == Children(graph, packages, node, i + 1, visited, total, hasPackage);
    } else {
      NeighbourServed(graph, packages, node, i, visited, total, hasPackage);
    }
  }

  /** One turn of the loop of `dfs` on a neighbour it has not visited. */
  lemma {:induction false} NeighbourServed(graph: seq<seq<int>>, packages: seq<int>, node: int, i: nat, visited: seq<bool>, total: int, hasPackage: bool)
    requires Expanding(graph, packages, visited, node, i) && i < |graph[node]| && !visited[graph[node][i]]
    ensures Children(graph, packages, node, i, visited, total, hasPackage).roads
         == total + 2 * |Served(graph, packages, visited, Children(graph, packages, node, i, visited, total, hasPackage).visited)|
    ensures Children(graph, packages, node, i, visited, total, hasPackage).hasPackage
        == (hasPackage || Holds(packages, visited, Children(graph, packages, node, i, visited, total, hasPackage).visited))
    decreases Unvisited(visited), 1, |graph[node]| - i, 0
  {
    var c := graph[node][i];
    ChildFresh(graph, packages, visited, node, i);
    var child := Explore(graph, packages, c, visited);
    ChildServes(graph, packages, visited, c);
    ExploreGrows(graph, packages, c, visited);
    var kept := child.roads > 0 || packages[c] == 1;
    var total' := if kept then total + child.roads + 2 else total;
    var has' := if kept then true else hasPackage;
    ExpandingAfterChild(graph, packages, visited, node, i);
    ChildrenServed(graph, packages, node, i + 1, child.visited, total', has');
    ChildrenGrows(graph, packages, node, i + 1, child.visited, total', has');
    var r := Children(graph, packages, node, i + 1, child.visited, total', has');
    assert Children(graph, packages, node, i, visited, total, hasPackage) == r;
    LoopStep(graph, packages, visited, child.visited, r.visited, total, hasPackage, kept,
             if kept then child.roads + 2 else 0, r.roads, r.hasPackage);
  }

  /** The arithmetic of one turn of the loop of `dfs`: what the neighbour
      contributes plus what the rest of the loop adds. */
  lemma LoopStep(graph: seq<seq<int>>, packages: seq<int>, v1: seq<bool>, v2: seq<bool>, v3: seq<bool>,
                 total: int, hasPackage: bool, kept: bool, contribution: int, roads: int, found: bool)
    requires Grows(v1, v2) && Grows(v2, v3)
    requires contribution == 2 * |Served(graph, packages, v1, v2)| && (kept <==> Holds(packages, v1, v2))
    requires roads == total + contribution + 2 * |Served(graph, packages, v2, v3)|
    requires found == (kept || hasPackage || Holds(packages, v2, v3))
    ensures roads == total + 2 * |Served(graph, packages, v1, v3)|
    ensures found == (hasPackage || Holds(packages, v1, v3))
  {
    ServedSplit(graph, packages, v1, v2, v3);
  }

  /** The loop of `dfs` calls it on a neighbour it has not visited: that
      neighbour is fresh. */
  lemma ChildFresh(graph: seq<seq<int>>, packages: seq<int>, visited: seq<bool>, node: int, i: nat)
    requires Expanding(graph, packages, visited, node, i) && i < |graph[node]| && !visited[graph[node][i]]
    ensures Fresh(graph, packages, visited, graph[node][i])
  {
    var c := graph[node][i];
    assert Adjacent(graph, node, c);
    var a :| PathBetween(graph, a, 0, node);
    JoinedPath(graph, a, [node, c], 0, node, c);
  }

  /** After the neighbour returns, the loop may go on from the next one. */
  lemma ExpandingAfterChild(graph: seq<seq<int>>, packages: seq<int>, visited: seq<bool>, node: int, i: nat)
    requires Expanding(graph, packages, visited, node, i) && i < |graph[node]| && !visited[graph[node][i]]
    ensures Expanding(graph, packages, Explore(graph, packages, graph[node][i], visited).visited, node, i + 1)
  {
    var child := Explore(graph, packages, graph[node][i], visited);
    ExploreGrows(graph, packages, graph[node][i], visited);
    forall j | i + 1 <= j < |graph[node]| && !child.visited[graph[node][j]]
      ensures Clear(graph, child.visited, graph[node][j])
    {
      assert graph[node][j] in graph[node][i + 1..];
      ClearAfterChild(graph, packages, visited, node, i, graph[node][j]);
    }
  }

  /** What the loop of `dfs` adds for an unvisited neighbour c: the two
      traversals of the road to it and its own roads when a package lies
      among what it newly visits, otherwise nothing. */
  lemma {:induction false} ChildServes(graph: seq<seq<int>>, packages: seq<int>, visited: seq<bool>, c: int)
    requires Fresh(graph, packages, visited, c)
    ensures var child := Explore(graph, packages, c, visited);
      && (if child.roads > 0 || packages[c] == 1 then child.roads + 2 else 0)
         == 2 * |Served(graph, packages, visited, child.visited)|
      && (child.roads > 0 || packages[c] == 1 <==> Holds(packages, visited, child.visited))
    decreases Unvisited(visited), 0, 1, 0
  {
    var child := Explore(graph, packages, c, visited);
    ExploreServed(graph, packages, c, visited);
    ExploreGrows(graph, packages, c, visited);
    var served := Served(graph, packages, visited, child.visited);
    forall v | 0 <= v < |visited| && New(visited, child.visited, v) && OnRoute(graph, packages, v)
      ensures Holds(packages, visited, child.visited)
    {
      ServedHolds(graph, packages, c, visited, v);
    }
    if Holds(packages, visited, child.visited) {
      var p :| 0 <= p < |packages| && New(visited, child.visited, p) && packages[p] == 1;
      RegionBehind(graph, packages, c, visited, p);
      assert OnRoute(graph, packages, c);
      assert c in served;
    } else {
      assert served == {};
    }
  }

  /** On a forest, `dfs` from 0 counts two roads for each location other
      than 0 that lies on every route from 0 to some package. */
  lemma CollectedOnForest(graph: seq<seq<int>>, packages: seq<int>)
    requires Ready(graph, packages, seq(|graph|, _ => false), 0)
    requires Symmetric(graph) && Forest(graph)
    ensures Explore(graph, packages, 0, seq(|graph|, _ => false)).roads
         == 2 * |set v | 0 < v < |graph| && OnRoute(graph, packages, v)|
  {
    var none := seq(|graph|, _ => false);
    assert PathBetween(graph, [0], 0, 0);
    assert Fresh(graph, packages, none, 0);
    ExploreServed(graph, packages, 0, none);
    var r := Explore(graph, packages, 0, none);
    ExploreGrows(graph, packages, 0, none);
    forall v | 0 < v < |graph| && OnRoute(graph, packages, v) ensures New(none, r.visited, v) {
      var t :| 0 <= t < |packages| && packages[t] == 1 && Reachable(graph, 0, t) && Cut(graph, v, t);
      CutReaches(graph, v, t);
      assert Cut(graph, 0, v);
      BehindInRegion(graph, packages, 0, none, v);
    }
    assert Served(graph, packages, none, r.visited) - {0} == set v | 0 < v < |graph| && OnRoute(graph, packages, v);
  }

  /** Adding a road extends the neighbour lists of its two ends. */
  lemma NeighboursSnoc(roads: seq<(int, int)>, road: (int, int), v: int)
    ensures var extra := (if road.0 == v then [road.1] else []) + (if road.1 == v then [road.0] else []);
      Neighbours(roads + [road], v) == Neighbours(roads, v) + extra
  {
    assert (roads + [road])[..|roads|] == roads;
  }

  /** The roads of the first worked example give the adjacency lists of a path. */
  lemma ExamplePathGraph()
    ensures Graph(6, [(0, 1), (1, 2), (2, 3), (3, 4), (4, 5)])
         == [[1], [0, 2], [1, 3], [2, 4], [3, 5], [4]]
  {
    var r0: seq<(int, int)> := [];
    var r1 := r0 + [(0, 1)];
    NeighboursSnoc(r0, (0, 1), 0); NeighboursSnoc(r0, (0, 1), 1); NeighboursSnoc(r0, (0, 1), 2);
    NeighboursSnoc(r0, (0, 1), 3); NeighboursSnoc(r0, (0, 1), 4); NeighboursSnoc(r0, (0, 1), 5);
    var r2 := r1 + [(1, 2)];
    NeighboursSnoc(r1, (1, 2), 0); NeighboursSnoc(r1, (1, 2), 1); NeighboursSnoc(r1, (1, 2), 2);
    NeighboursSnoc(r1, (1, 2), 3); NeighboursSnoc(r1, (1, 2), 4); NeighboursSnoc(r1, (1, 2), 5);
    var r3 := r2 + [(2, 3)];
    NeighboursSnoc(r2, (2, 3), 0); NeighboursSnoc(r2, (2, 3), 1); NeighboursSnoc(r2, (2, 3), 2);
    NeighboursSnoc(r2, (2, 3), 3); NeighboursSnoc(r2, (2, 3), 4); NeighboursSnoc(r2, (2, 3), 5);
    var r4 := r3 + [(3, 4)];
    NeighboursSnoc(r3, (3, 4), 0); NeighboursSnoc(r3, (3, 4), 1); NeighboursSnoc(r3, (3, 4), 2);
    NeighboursSnoc(r3, (3, 4), 3); NeighboursSnoc(r3, (3, 4), 4); NeighboursSnoc(r3, (3, 4), 5);
    var r5 := r4 + [(4, 5)];
    NeighboursSnoc(r4, (4, 5), 0); NeighboursSnoc(r4, (4, 5), 1); NeighboursSnoc(r4, (4, 5), 2);
    NeighboursSnoc(r4, (4, 5), 3); NeighboursSnoc(r4, (4, 5), 4); NeighboursSnoc(r4, (4, 5), 5);
    assert r5 == [(0, 1), (1, 2), (2, 3), (3, 4), (4, 5)];
    var g := Graph(6, r5);
    assert g[0] == [1] && g[1] == [0, 2] && g[2] == [1, 3] && g[3] == [2, 4] && g[4] == [3, 5] && g[5] == [4];
  }

  /** The neighbour lists after the first four roads of the second worked example. */
  lemma ExampleTreeFirstRoads()
    ensures var r := [(0, 1), (0, 2), (1, 3), (1, 4)];
      && Neighbours(r, 0) == [1, 2] && Neighbours(r, 1) == [0, 3, 4] && Neighbours(r, 2) == [0] && Neighbours(r, 3) == [1]
      && Neighbours(r, 4) == [1] && Neighbours(r, 5) == [] && Neighbours(r, 6) == [] && Neighbours(r, 7) == []
  {
    var r0: seq<(int, int)> := [];
    var r1 := r0 + [(0, 1)];
    NeighboursSnoc(r0, (0, 1), 0); NeighboursSnoc(r0, (0, 1), 1); NeighboursSnoc(r0, (0, 1), 2); NeighboursSnoc(r0, (0, 1), 3);
    NeighboursSnoc(r0, (0, 1), 4); NeighboursSnoc(r0, (0, 1), 5); NeighboursSnoc(r0, (0, 1), 6); NeighboursSnoc(r0, (0, 1), 7);
    var r2 := r1 + [(0, 2)];
    NeighboursSnoc(r1, (0, 2), 0); NeighboursSnoc(r1, (0, 2), 1); NeighboursSnoc(r1, (0, 2), 2); NeighboursSnoc(r1, (0, 2), 3);
    NeighboursSnoc(r1, (0, 2), 4); NeighboursSnoc(r1, (0, 2), 5); NeighboursSnoc(r1, (0, 2), 6); NeighboursSnoc(r1, (0, 2), 7);
    var r3 := r2 + [(1, 3)];
    NeighboursSnoc(r2, (1, 3), 0); NeighboursSnoc(r2, (1, 3), 1); NeighboursSnoc(r2, (1, 3), 2); NeighboursSnoc(r2, (1, 3), 3);
    NeighboursSnoc(r2, (1, 3), 4); NeighboursSnoc(r2, (1, 3), 5); NeighboursSnoc(r2, (1, 3), 6); NeighboursSnoc(r2, (1, 3), 7);
    var r4 := r3 + [(1, 4)];
    NeighboursSnoc(r3, (1, 4), 0); NeighboursSnoc(r3, (1, 4), 1); NeighboursSnoc(r3, (1, 4), 2); NeighboursSnoc(r3, (1, 4), 3);
    NeighboursSnoc(r3, (1, 4), 4); NeighboursSnoc(r3, (1, 4), 5); NeighboursSnoc(r3, (1, 4), 6); NeighboursSnoc(r3, (1, 4), 7);
    assert r4 == [(0, 1), (0, 2), (1, 3), (1, 4)];
  }

  /** The neighbour lists after all seven roads of the second worked example. */
  lemma ExampleTreeAllRoads()
    ensures var r := [(0, 1), (0, 2), (1, 3), (1, 4), (2, 5), (5, 6), (5, 7)];
      && Neighbours(r, 0) == [1, 2] && Neighbours(r, 1) == [0, 3, 4] && Neighbours(r, 2) == [0, 5] && Neighbours(r, 3) == [1]
      && Neighbours(r, 4) == [1] && Neighbours(r, 5) == [2, 6, 7] && Neighbours(r, 6) == [5] && Neighbours(r, 7) == [5]
  {
    ExampleTreeFirstRoads();
    var r4: seq<(int, int)> := [(0, 1), (0, 2), (1, 3), (1, 4)];
    var r5 := r4 + [(2, 5)];
    NeighboursSnoc(r4, (2, 5), 0); NeighboursSnoc(r4, (2, 5), 1); NeighboursSnoc(r4, (2, 5), 2); NeighboursSnoc(r4, (2, 5), 3);
    NeighboursSnoc(r4, (2, 5), 4); NeighboursSnoc(r4, (2, 5), 5); NeighboursSnoc(r4, (2, 5), 6); NeighboursSnoc(r4, (2, 5), 7);
    var r6 := r5 + [(5, 6)];
    NeighboursSnoc(r5, (5, 6), 0); NeighboursSnoc(r5, (5, 6), 1); NeighboursSnoc(r5, (5, 6), 2); NeighboursSnoc(r5, (5, 6), 3);
    NeighboursSnoc(r5, (5, 6), 4); NeighboursSnoc(r5, (5, 6), 5); NeighboursSnoc(r5, (5, 6), 6); NeighboursSnoc(r5, (5, 6), 7);
    var r7 := r6 + [(5, 7)];
    NeighboursSnoc(r6, (5, 7), 0); NeighboursSnoc(r6, (5, 7), 1); NeighboursSnoc(r6, (5, 7), 2); NeighboursSnoc(r6, (5, 7), 3);
    NeighboursSnoc(r6, (5, 7), 4); NeighboursSnoc(r6, (5, 7), 5); NeighboursSnoc(r6, (5, 7), 6); NeighboursSnoc(r6, (5, 7), 7);
    assert r7 == [(0, 1), (0, 2), (1, 3), (1, 4), (2, 5), (5, 6), (5, 7)];
  }

  /** The roads of the second worked example give the adjacency lists of a tree. */
  lemma ExampleTreeGraph()
    ensures Graph(8, [(0, 1), (0, 2), (1, 3), (1, 4), (2, 5), (5, 6), (5, 7)])
         == [[1, 2], [0, 3, 4], [0, 5], [1], [1], [2, 6, 7], [5], [5]]
  {
    ExampleTreeAllRoads();
    var g := Graph(8, [(0, 1), (0, 2), (1, 3), (1, 4), (2, 5), (5, 6), (5, 7)]);
    assert g[0] == [1, 2] && g[1] == [0, 3, 4] && g[2] == [0, 5] && g[3] == [1];
    assert g[4] == [1] && g[5] == [2, 6, 7] && g[6] == [5] && g[7] == [5];
  }

  /** The far half of the path of the first worked example: from location
      3 on, the package at 5 needs 4 road traversals. */
  lemma ExamplePathEnd()
    ensures var f, t := false, true;
      Explore([[1], [0, 2], [1, 3], [2, 4], [3, 5], [4]], [1, 0, 0, 0, 0, 1], 3, [t, t, t, f, f, f])
      == Visit(4, [t, t, t, t, t, t])
  {
    var g := [[1], [0, 2], [1, 3], [2, 4], [3, 5], [4]];
    var p := [1, 0, 0, 0, 0, 1];
    var f, t := false, true;
    var v3, v4, v5, v6 := [t, t, t, f, f, f], [t, t, t, t, f, f], [t, t, t, t, t, f], [t, t, t, t, t, t];
    assert v3[3 := true] == v4 && v4[4 := true] == v5 && v5[5 := true] == v6;
    assert Children(g, p, 5, 0, v6, 0, true) == Tally(0, true, v6);
    assert Explore(g, p, 5, v5) == Visit(0, v6);
    assert Children(g, p, 4, 1, v5, 0, false) == Tally(2, true, v6);
    assert Explore(g, p, 4, v4) == Visit(2, v6);
    assert Children(g, p, 3, 1, v4, 0, false) == Tally(4, true, v6);
  }

  /** The search of the first worked example: a path of six locations with
      packages at both ends needs 10 road traversals, there and back along
      the whole path. */
  lemma ExamplePath()
    ensures Explore([[1], [0, 2], [1, 3], [2, 4], [3, 5], [4]], [1, 0, 0, 0, 0, 1], 0, seq(6, _ => false)).roads == 10
  {
    var g := [[1], [0, 2], [1, 3], [2, 4], [3, 5], [4]];
    var p := [1, 0, 0, 0, 0, 1];
    var f, t := false, true;
    var v0, v1, v2, v3 := [f, f, f, f, f, f], [t, f, f, f, f, f], [t, t, f, f, f, f], [t, t, t, f, f, f];
    var v6 := [t, t, t, t, t, t];
    assert seq(6, _ => false) == v0;
    assert v0[0 := true] == v1 && v1[1 := true] == v2 && v2[2 := true] == v3;
    ExamplePathEnd();
    assert Children(g, p, 2, 1, v3, 0, false) == Tally(6, true, v6);
    assert Explore(g, p, 2, v2) == Visit(6, v6);
    assert Children(g, p, 1, 1, v2, 0, false) == Tally(8, true, v6);
    assert Explore(g, p, 1, v1) == Visit(8, v6);
    assert Children(g, p, 0, 0, v1, 0, true) == Tally(10, true, v6);
  }

  /** The subtree under location 1 of the second worked example: both of
      its leaves hold a package, so it needs 4 road traversals. */
  lemma ExampleTreeLeft()
    ensures var f, t := false, true;
      Explore([[1, 2], [0, 3, 4], [0, 5], [1], [1], [2, 6, 7], [5], [5]], [0, 0, 0, 1, 1, 0, 0, 1], 1, [t, f, f, f, f, f, f, f])
      == Visit(4, [t, t, f, t, t, f, f, f])
  {
    var g := [[1, 2], [0, 3, 4], [0, 5], [1], [1], [2, 6, 7], [5], [5]];
    var p := [0, 0, 0, 1, 1, 0, 0, 1];
    var f, t := false, true;
    var v1, v2 := [t, f, f, f, f, f, f, f], [t, t, f, f, f, f, f, f];
    var v3, v4 := [t, t, f, t, f, f, f, f], [t, t, f, t, t, f, f, f];
    assert v1[1 := true] == v2 && v2[3 := true] == v3 && v3[4 := true] == v4;
    assert Children(g, p, 3, 0, v3, 0, true) == Tally(0, true, v3);
    assert Explore(g, p, 3, v2) == Visit(0, v3);
    assert Children(g, p, 4, 0, v4, 0, true) == Tally(0, true, v4);
    assert Explore(g, p, 4, v3) == Visit(0, v4);
    assert Children(g, p, 1, 2, v3, 2, true) == Tally(4, true, v4);
    assert Children(g, p, 1, 0, v2, 0, false) == Tally(4, true, v4);
  }

  /** The subtree under location 5 of the second worked example: only the
      leaf 7 holds a package, so the road to 6 is not counted. */
  lemma ExampleTreeBranch()
    ensures var f, t := false, true;
      Explore([[1, 2], [0, 3, 4], [0, 5], [1], [1], [2, 6, 7], [5], [5]], [0, 0, 0, 1, 1, 0, 0, 1], 5, [t, t, t, t, t, f, f, f])
      == Visit(2, [t, t, t, t, t, t, t, t])
  {
    var g := [[1, 2], [0, 3, 4], [0, 5], [1], [1], [2, 6, 7], [5], [5]];
    var p := [0, 0, 0, 1, 1, 0, 0, 1];
    var f, t := false, true;
    var v5, v6 := [t, t, t, t, t, f, f, f], [t, t, t, t, t, t, f, f];
    var v7, v8 := [t, t, t, t, t, t, t, f], [t, t, t, t, t, t, t, t];
    assert v5[5 := true] == v6 && v6[6 := true] == v7 && v7[7 := true] == v8;
    assert Children(g, p, 6, 0, v7, 0, false) == Tally(0, false, v7);
    assert Explore(g, p, 6, v6) == Visit(0, v7);
    assert Children(g, p, 7, 0, v8, 0, true) == Tally(0, true, v8);
    assert Explore(g, p, 7, v7) == Visit(0, v8);
    assert Children(g, p, 5, 2, v7, 0, false) == Tally(2, true, v8);
    assert Children(g, p, 5, 0, v6, 0, false) == Tally(2, true, v8);
  }

  /** The subtree under location 2 of the second worked example needs 4
      road traversals: the road to 5 and the two below it. */
  lemma ExampleTreeRight()
    ensures var f, t := false, true;
      Explore([[1, 2], [0, 3, 4], [0, 5], [1], [1], [2, 6, 7], [5], [5]], [0, 0, 0, 1, 1, 0, 0, 1], 2, [t, t, f, t, t, f, f, f])
      == Visit(4, [t, t, t, t, t, t, t, t])
  {
    var g := [[1, 2], [0, 3, 4], [0, 5], [1], [1], [2, 6, 7], [5], [5]];
    var p := [0, 0, 0, 1, 1, 0, 0, 1];
    var f, t := false, true;
    var v4, v5 := [t, t, f, t, t, f, f, f], [t, t, t, t, t, f, f, f];
    var v8 := [t, t, t, t, t, t, t, t];
    assert v4[2 := true] == v5;
    ExampleTreeBranch();
    assert Children(g, p, 2, 2, v8, 4, true) == Tally(4, true, v8);
    assert Children(g, p, 2, 1, v5, 0, false) == Tally(4, true, v8);
    assert Children(g, p, 2, 0, v5, 0, false) == Tally(4, true, v8);
  }

  /** The search of the second worked example: a tree of eight locations
      with packages at 3, 4 and 7 needs 12 road traversals; the road to the
      empty leaf 6 is never counted. */
  lemma ExampleTree()
    ensures Explore([[1, 2], [0, 3, 4], [0, 5], [1], [1], [2, 6, 7], [5], [5]], [0, 0, 0, 1, 1, 0, 0, 1], 0,
                    seq(8, _ => false)).roads == 12
  {
    var g := [[1, 2], [0, 3, 4], [0, 5], [1], [1], [2, 6, 7], [5], [5]];
    var p := [0, 0, 0, 1, 1, 0, 0, 1];
    var f, t := false, true;
    var v0, v1 := [f, f, f, f, f, f, f, f], [t, f, f, f, f, f, f, f];
    var v4, v8 := [t, t, f, t, t, f, f, f], [t, t, t, t, t, t, t, t];
    assert seq(8, _ => false) == v0;
    assert v0[0 := true] == v1;
    ExampleTreeLeft();
    ExampleTreeRight();
    assert Children(g, p, 0, 1, v4, 6, true) == Tally(12, true, v8);
    assert Children(g, p, 0, 0, v1, 0, false) == Tally(12, true, v8);
  }

  /** The two worked examples, from their road lists to the counts that
      `minRoadsToCollectPackages` returns for them: 10 and 12. */
  lemma Examples()
    ensures Within(Graph(6, [(0, 1), (1, 2), (2, 3), (3, 4), (4, 5)]))
    ensures Explore(Graph(6, [(0, 1), (1, 2), (2, 3), (3, 4), (4, 5)]), [1, 0, 0, 0, 0, 1], 0, seq(6, _ => false)).roads == 10
    ensures Within(Graph(8, [(0, 1), (0, 2), (1, 3), (1, 4), (2, 5), (5, 6), (5, 7)]))
    ensures Explore(Graph(8, [(0, 1), (0, 2), (1, 3), (1, 4), (2, 5), (5, 6), (5, 7)]), [0, 0, 0, 1, 1, 0, 0, 1], 0,
                    seq(8, _ => false)).roads == 12
  {
    ExamplePathGraph();
    ExamplePath();
    ExampleTreeGraph();
    ExampleTree();
  }
}
