/**
 * `Enemy.calculate_path`: a best-first search over the map's walk graph.
 * Every heap entry carries the path that led to its node, a node is marked
 * visited only after its neighbours have been pushed, and a popped node is
 * not checked against the visited set, so a node can be expanded twice.
 */
module Pathfinding {
  import opened Settings
  import opened Options
  import opened Geometry
  import opened Graphs

  /** A heap entry `(f_score, node, path)`; `path` leads from the start up to `node`, without it. */
  datatype Entry = Entry(f: int, node: Point, path: seq<Point>)

  /** The search's heuristic: Manhattan distance in pixels (neighbouring nodes are a tile apart). */
  function Heuristic(a: Point, b: Point): (d: nat)
    ensures d == 0 <==> a == b
  {
    Abs(a.x - b.x) + Abs(a.y - b.y)
  }

  /** The nodes of the heap's entries. */
  function Nodes(heap: seq<Entry>): set<Point> {
    set k | 0 <= k < |heap| :: heap[k].node
  }

  /** The number of entries whose node is already visited. */
  function Stale(heap: seq<Entry>, visited: set<Point>): nat {
    if heap == [] then 0
    else (if heap[0].node in visited then 1 else 0) + Stale(heap[1..], visited)
  }

  /**
   * What every heap entry satisfies: its path followed by its node is a path
   * of the graph from `start`, the nodes before it are all visited, it repeats
   * no node when the graph has no self-loops, and its f-score is the path's
   * length plus the heuristic, shifted by the start's heuristic (the start
   * entry is pushed with f-score 0, not with its heuristic).
   */
  ghost predicate EntryOk(graph: Graph, start: Point, goal: Point, visited: set<Point>, e: Entry) {
    && e.node in graph
    && IsPath(graph, e.path + [e.node])
    && (e.path + [e.node])[0] == start
    && (forall q :: q in e.path ==> q in visited)
    && (Loopless(graph) ==> Distinct(e.path + [e.node]))
    && e.f == |e.path| + Heuristic(e.node, goal) - Heuristic(start, goal)
  }

  lemma NodesAppend(heap: seq<Entry>, e: Entry)
    ensures Nodes(heap + [e]) == Nodes(heap) + {e.node}
  {
    var h := heap + [e];
    assert h[|heap|] == e;
    forall q | q in Nodes(heap)
      ensures q in Nodes(h)
    {
      var k :| 0 <= k < |heap| && heap[k].node == q;
      assert h[k] == heap[k];
    }
  }

  lemma NodesRemove(heap: seq<Entry>, i: nat)
    requires i < |heap|
    ensures Nodes(heap) <= Nodes(heap[..i] + heap[i + 1..]) + {heap[i].node}
  {
    var h := heap[..i] + heap[i + 1..];
    forall q | q in Nodes(heap) && q != heap[i].node
      ensures q in Nodes(h)
    {
      var k :| 0 <= k < |heap| && heap[k].node == q;
      if k < i {
        assert h[k] == heap[k];
      } else {
        assert h[k - 1] == heap[k];
      }
    }
  }

  lemma {:induction false} StaleConcat(a: seq<Entry>, b: seq<Entry>, visited: set<Point>)
    ensures Stale(a + b, visited) == Stale(a, visited) + Stale(b, visited)
  {
    if a == [] {
      assert a + b == b;
    } else {
      assert (a + b)[0] == a[0] && (a + b)[1..] == a[1..] + b;
      StaleConcat(a[1..], b, visited);
    }
  }

  lemma StaleRemove(heap: seq<Entry>, i: nat, visited: set<Point>)
    requires i < |heap|
    ensures Stale(heap, visited) == Stale(heap[..i] + heap[i + 1..], visited) + (if heap[i].node in visited then 1 else 0)
  {
    assert heap == heap[..i] + ([heap[i]] + heap[i + 1..]);
    StaleConcat(heap[..i], [heap[i]] + heap[i + 1..], visited);
    StaleConcat([heap[i]], heap[i + 1..], visited);
    StaleConcat(heap[..i], heap[i + 1..], visited);
  }

  lemma StaleAppend(heap: seq<Entry>, e: Entry, visited: set<Point>)
    ensures Stale(heap + [e], visited) == Stale(heap, visited) + (if e.node in visited then 1 else 0)
  {
    StaleConcat(heap, [e], visited);
  }

  /** The entry pushed for a neighbour that is not visited yet. */
  lemma PushOk(graph: Graph, start: Point, goal: Point, visited: set<Point>, e: Entry, nb: Point)
    requires Closed(graph) && EntryOk(graph, start, goal, visited, e)
    requires nb in graph[e.node] && nb !in visited
    ensures EntryOk(graph, start, goal, visited + {e.node},
                    Entry(e.f - Heuristic(e.node, goal) + 1 + Heuristic(nb, goal), nb, e.path + [e.node]))
  {
    var t := e.path + [e.node];
    var u := t + [nb];
    assert nb in graph;
    forall k | 0 <= k < |u| - 1
      ensures u[k] in graph && u[k + 1] in graph[u[k]]
    {
      if k < |t| - 1 {
        assert u[k] == t[k] && u[k + 1] == t[k + 1];
      }
    }
    if Loopless(graph) {
      assert nb != e.node by {
        if e.node !in visited {
          assert e.node !in graph[e.node];
        }
      }
      forall k, l | 0 <= k < l < |u|
        ensures u[k] != u[l]
      {
        if l < |t| {
          assert u[k] == t[k] && u[l] == t[l];
        } else if k < |e.path| {
          assert u[k] == e.path[k];
        }
      }
    }
  }

  /** A path that leaves no closed set of nodes never reaches a node outside it. */
  lemma {:induction false} PathStaysIn(g: Graph, s: set<Point>, p: seq<Point>, i: nat)
    requires s <= g.Keys && forall v, w :: v in s && w in g[v] ==> w in s
    requires IsPath(g, p) && p[0] in s && i < |p|
    ensures p[i] in s
    decreases i
  {
    if i > 0 {
      PathStaysIn(g, s, p, i - 1);
    }
  }

  lemma ClosedSeparates(g: Graph, s: set<Point>, a: Point, b: Point)
    requires s <= g.Keys && forall v, w :: v in s && w in g[v] ==> w in s
    requires a in s && b !in s
    ensures !Reachable(g, a, b)
  {
    forall p | IsPath(g, p) && p[0] == a
      ensures p[|p| - 1] != b
    {
      PathStaysIn(g, s, p, |p| - 1);
    }
  }

  /** `heapq.heappop`: the index of an entry with the least f-score. */
  method MinEntry(heap: seq<Entry>) returns (i: nat)
    requires heap != []
    ensures i < |heap| && forall k :: 0 <= k < |heap| ==> heap[i].f <= heap[k].f
  {
    i := 0;
    for k := 1 to |heap|
      invariant i < k && forall l :: 0 <= l < k ==> heap[i].f <= heap[l].f
    {
      if heap[k].f < heap[i].f {
        i := k;
      }
    }
  }

  ghost predicate HeapOk(graph: Graph, start: Point, goal: Point, visited: set<Point>, heap: seq<Entry>) {
    forall k :: 0 <= k < |heap| ==> EntryOk(graph, start, goal, visited, heap[k])
  }

  /** Every neighbour of a visited node is visited or waiting in the heap. */
  ghost predicate Covered(graph: Graph, visited: set<Point>, waiting: set<Point>) {
    forall v, w :: v in visited && v in graph && w in graph[v] ==> w in visited || w in waiting
  }

  lemma CoveredStep(graph: Graph, visited: set<Point>, n: Point, before: set<Point>, after: set<Point>)
    requires n in graph && Covered(graph, visited, before)
    requires before <= after + {n}
    requires forall w :: w in graph[n] ==> w in visited || w in after
    ensures Covered(graph, visited + {n}, after)
  {
  }

  /** Taking an entry out keeps the others, which stay valid once its node is visited. */
  lemma HeapRemove(graph: Graph, start: Point, goal: Point, visited: set<Point>, n: Point, heap: seq<Entry>, i: nat)
    requires HeapOk(graph, start, goal, visited, heap) && i < |heap|
    ensures HeapOk(graph, start, goal, visited + {n}, heap[..i] + heap[i + 1..])
  {
    var rest := heap[..i] + heap[i + 1..];
    forall k | 0 <= k < |rest|
      ensures EntryOk(graph, start, goal, visited + {n}, rest[k])
    {
      var l := if k < i then k else k + 1;
      assert rest[k] == heap[l];
      assert EntryOk(graph, start, goal, visited, heap[l]);
    }
  }

  /** Visiting a new node leaves fewer nodes unvisited. */
  lemma Unvisited(keys: set<Point>, visited: set<Point>, n: Point)
    requires n in keys
    ensures n !in visited ==> |keys - (visited + {n})| < |keys - visited|
    ensures n in visited ==> keys - (visited + {n}) == keys - visited
  {
    if n !in visited {
      assert keys - (visited + {n}) == (keys - visited) - {n};
    }
  }

  /** A path ending at a popped entry's node. */
  lemma Completed(graph: Graph, start: Point, goal: Point, visited: set<Point>, e: Entry)
    requires EntryOk(graph, start, goal, visited, e)
    ensures IsPath(graph, e.path + [e.node]) && (e.path + [e.node])[0] == start
    ensures Last(e.path + [e.node]) == e.node
    ensures Loopless(graph) ==> Distinct(e.path + [e.node])
  {
  }

  /**
   * The entries the inner loop of `calculate_path` pushes, in order: one for
   * each neighbour in `ns` that is not visited, with cost `g + 1` plus its
   * heuristic, carrying `path`.
   */
  function Pushes(ns: seq<Point>, visited: set<Point>, g: int, goal: Point, path: seq<Point>): seq<Entry> {
    if ns == [] then []
    else
      var nb := ns[|ns| - 1];
      Pushes(ns[..|ns| - 1], visited, g, goal, path)
      + (if nb !in visited then [Entry(g + 1 + Heuristic(nb, goal), nb, path)] else [])
  }

  /** The pushed entries are for exactly the unvisited neighbours, with the given path. */
  lemma {:induction false} PushesNodes(ns: seq<Point>, visited: set<Point>, g: int, goal: Point, path: seq<Point>)
    ensures Nodes(Pushes(ns, visited, g, goal, path)) == set w | w in ns && w !in visited
    ensures forall k :: 0 <= k < |Pushes(ns, visited, g, goal, path)| ==>
      Pushes(ns, visited, g, goal, path)[k].path == path
  {
    if ns != [] {
      var init, nb := ns[..|ns| - 1], ns[|ns| - 1];
      PushesNodes(init, visited, g, goal, path);
      assert ns == init + [nb];
      var before := Pushes(init, visited, g, goal, path);
      if nb !in visited {
        NodesAppend(before, Entry(g + 1 + Heuristic(nb, goal), nb, path));
      } else {
        assert Pushes(ns, visited, g, goal, path) == before;
      }
    }
  }

  /** The pushed entries are valid once the popped node is visited, and none of them is stale. */
  lemma {:induction false} PushesOk(graph: Graph, start: Point, goal: Point, visited: set<Point>, e: Entry, ns: seq<Point>)
    requires Closed(graph) && EntryOk(graph, start, goal, visited, e)
    requires forall k :: 0 <= k < |ns| ==> ns[k] in graph[e.node]
    ensures var ps := Pushes(ns, visited, e.f - Heuristic(e.node, goal), goal, e.path + [e.node]);
      HeapOk(graph, start, goal, visited + {e.node}, ps) && Stale(ps, visited) == 0
  {
    if ns != [] {
      var g, init, nb := e.f - Heuristic(e.node, goal), ns[..|ns| - 1], ns[|ns| - 1];
      PushesOk(graph, start, goal, visited, e, init);
      var before := Pushes(init, visited, g, goal, e.path + [e.node]);
      if nb !in visited {
        var entry := Entry(g + 1 + Heuristic(nb, goal), nb, e.path + [e.node]);
        PushOk(graph, start, goal, visited, e, nb);
        StaleAppend(before, entry, visited);
        var ps := before + [entry];
        assert Pushes(ns, visited, g, goal, e.path + [e.node]) == ps;
        forall k | 0 <= k < |ps|
          ensures EntryOk(graph, start, goal, visited + {e.node}, ps[k])
        {
          if k < |before| {
            assert ps[k] == before[k];
          }
        }
      } else {
        assert Pushes(ns, visited, g, goal, e.path + [e.node]) == before;
      }
    }
  }

  lemma NodesConcat(a: seq<Entry>, b: seq<Entry>)
    ensures Nodes(a + b) == Nodes(a) + Nodes(b)
  {
    var h := a + b;
    forall q | q in Nodes(a) + Nodes(b)
      ensures q in Nodes(h)
    {
      if q in Nodes(a) {
        var k :| 0 <= k < |a| && a[k].node == q;
        assert h[k] == a[k];
      } else {
        var k :| 0 <= k < |b| && b[k].node == q;
        assert h[|a| + k] == b[k];
      }
    }
    forall q | q in Nodes(h)
      ensures q in Nodes(a) + Nodes(b)
    {
      var k :| 0 <= k < |h| && h[k].node == q;
      if k < |a| {
        assert h[k] == a[k];
      } else {
        assert h[k] == b[k - |a|];
      }
    }
  }

  lemma HeapConcat(graph: Graph, start: Point, goal: Point, visited: set<Point>, a: seq<Entry>, b: seq<Entry>)
    requires HeapOk(graph, start, goal, visited, a) && HeapOk(graph, start, goal, visited, b)
    ensures HeapOk(graph, start, goal, visited, a + b)
  {
    forall k | 0 <= k < |a + b|
      ensures EntryOk(graph, start, goal, visited, (a + b)[k])
    {
      if k < |a| {
        assert (a + b)[k] == a[k];
      } else {
        assert (a + b)[k] == b[k - |a|];
      }
    }
  }

  /** The heap after the pushes: valid, keeping its nodes, covering the neighbours, with no new stale entry. */
  lemma PushedHeap(graph: Graph, start: Point, goal: Point, visited: set<Point>, heap: seq<Entry>, e: Entry)
    requires Closed(graph) && EntryOk(graph, start, goal, visited, e)
    requires HeapOk(graph, start, goal, visited + {e.node}, heap)
    ensures var pushed := heap + Pushes(graph[e.node], visited, e.f - Heuristic(e.node, goal), goal, e.path + [e.node]);
      && HeapOk(graph, start, goal, visited + {e.node}, pushed)
      && Nodes(heap) <= Nodes(pushed)
      && (forall w :: w in graph[e.node] ==> w in visited || w in Nodes(pushed))
      && Stale(pushed, visited) == Stale(heap, visited)
  {
    var ns, g := graph[e.node], e.f - Heuristic(e.node, goal);
    var ps := Pushes(ns, visited, g, goal, e.path + [e.node]);
    PushesOk(graph, start, goal, visited, e, ns);
    PushesNodes(ns, visited, g, goal, e.path + [e.node]);
    NodesConcat(heap, ps);
    StaleConcat(heap, ps, visited);
    HeapConcat(graph, start, goal, visited + {e.node}, heap, ps);
  }

  /**
   * The inner loop of `calculate_path`: after the entries already in the
   * heap, an entry is pushed for every neighbour of the popped node that is
   * not visited, in list order.
   */
  method PushNeighbours(graph: Graph, start: Point, goal: Point, visited: set<Point>, heap: seq<Entry>, e: Entry)
    returns (pushed: seq<Entry>)
    requires Closed(graph) && EntryOk(graph, start, goal, visited, e)
    requires HeapOk(graph, start, goal, visited + {e.node}, heap)
    ensures pushed == heap + Pushes(graph[e.node], visited, e.f - Heuristic(e.node, goal), goal, e.path + [e.node])
    ensures HeapOk(graph, start, goal, visited + {e.node}, pushed)
    ensures Nodes(heap) <= Nodes(pushed)
    ensures forall w :: w in graph[e.node] ==> w in visited || w in Nodes(pushed)
    ensures Stale(pushed, visited) == Stale(heap, visited)
  {
    var g := e.f - Heuristic(e.node, goal);
    var neighbours := graph[e.node];
    pushed := heap;
    for j := 0 to |neighbours|
      invariant pushed == heap + Pushes(neighbours[..j], visited, g, goal, e.path + [e.node])
    {
      var nb := neighbours[j];
      assert neighbours[..j + 1][..j] == neighbours[..j];
      if nb !in visited {
        pushed := pushed + [Entry(g + 1 + Heuristic(nb, goal), nb, e.path + [e.node])];
      }
    }
    assert neighbours[..|neighbours|] == neighbours;
    PushedHeap(graph, start, goal, visited, heap, e);
  }

  /**
   * The search loop of `calculate_path` from `start` to `goal`. A returned
   * path is a path of the graph from `start` to `goal`, without repeated
   * nodes when the graph has no self-loops; `None` comes back only when the
   * goal cannot be reached. The result need not be a shortest path.
   */
  method Search(graph: Graph, start: Point, goal: Point) returns (r: Option<seq<Point>>)
    requires Closed(graph) && start in graph
    ensures r.Some? ==> IsPath(graph, r.value) && r.value[0] == start && Last(r.value) == goal
    ensures r.Some? && Loopless(graph) ==> Distinct(r.value)
    ensures r.None? ==> !Reachable(graph, start, goal)
    ensures start == goal ==> r == Some([start])
  {
    var heap := [Entry(0, start, [])];
    var visited: set<Point> := {};
    assert heap[0].node == start;
    while heap != []
      invariant visited <= graph.Keys && goal !in visited
      invariant HeapOk(graph, start, goal, visited, heap)
      invariant start in visited || start in Nodes(heap)
      invariant Covered(graph, visited, Nodes(heap))
      invariant start == goal ==> heap == [Entry(0, start, [])]
      decreases |graph.Keys - visited|, Stale(heap, visited)
    {
      var i := MinEntry(heap);
      var e := heap[i];
      assert EntryOk(graph, start, goal, visited, e);
      if e.node == goal {
        Completed(graph, start, goal, visited, e);
        if start == goal {
          assert i == 0 && e.path == [];
          assert e.path + [e.node] == [start];
        }
        return Some(e.path + [e.node]);
      }
      var rest := heap[..i] + heap[i + 1..];
      NodesRemove(heap, i);
      StaleRemove(heap, i, visited);
      HeapRemove(graph, start, goal, visited, e.node, heap, i);
      var next := PushNeighbours(graph, start, goal, visited, rest, e);
      CoveredStep(graph, visited, e.node, Nodes(heap), Nodes(next));
      Unvisited(graph.Keys, visited, e.node);
      if e.node in visited {
        assert visited + {e.node} == visited;
        assert Stale(next, visited) < Stale(heap, visited);
      }
      heap, visited := next, visited + {e.node};
    }
    ClosedSeparates(graph, visited, start, goal);
    return None;
  }

  /** Some floor tile contains `p`. */
  predicate OnFloor(floors: seq<Rect>, p: Point) {
    exists i :: 0 <= i < |floors| && CollidePoint(floors[i], p)
  }

  /** `c` is the centre of a floor tile containing `p`. */
  predicate TileCentre(floors: seq<Rect>, p: Point, c: Point) {
    exists i :: 0 <= i < |floors| && CollidePoint(floors[i], p) && Center(floors[i]) == c
  }

  /**
   * The tile scan at the head of `calculate_path`: the centres of the floor
   * tiles under the enemy and under its target, stopping as soon as both are
   * found; `None` when either is on no floor tile.
   */
  method LocateTiles(floors: seq<Rect>, from: Point, to: Point) returns (found: Option<(Point, Point)>)
    ensures found.Some? <==> OnFloor(floors, from) && OnFloor(floors, to)
    ensures found.Some? ==> TileCentre(floors, from, found.value.0) && TileCentre(floors, to, found.value.1)
  {
    var start, goal := Point(0, 0), Point(0, 0);
    var foundStart, foundGoal := false, false;
    var i := 0;
    while i < |floors| && !(foundStart && foundGoal)
      invariant i <= |floors|
      invariant foundStart <==> OnFloor(floors[..i], from)
      invariant foundGoal <==> OnFloor(floors[..i], to)
      invariant foundStart ==> TileCentre(floors, from, start)
      invariant foundGoal ==> TileCentre(floors, to, goal)
    {
      assert forall k :: 0 <= k < i ==> floors[..i + 1][k] == floors[..i][k];
      if CollidePoint(floors[i], from) {
        start, foundStart := Center(floors[i]), true;
      }
      if CollidePoint(floors[i], to) {
        goal, foundGoal := Center(floors[i]), true;
      }
      assert floors[..i + 1][i] == floors[i];
      i := i + 1;
    }
    if i == |floors| {
      assert floors[..i] == floors;
    }
    if foundStart && foundGoal {
      found := Some((start, goal));
    } else {
      found := None;
    }
  }

  /**
   * `calculate_path`: locate the tiles under the enemy and its target, then
   * search from one centre to the other. The caller must stand both on floor
   * tiles whose centres are graph nodes (the source fails otherwise).
   */
  method CalculatePath(graph: Graph, floors: seq<Rect>, from: Point, to: Point) returns (r: Option<seq<Point>>)
    requires Closed(graph)
    requires OnFloor(floors, from) && OnFloor(floors, to)
    requires forall i :: 0 <= i < |floors| ==> Center(floors[i]) in graph
    ensures r.Some? ==> IsPath(graph, r.value) && TileCentre(floors, from, r.value[0]) && TileCentre(floors, to, Last(r.value))
    ensures r.Some? && Loopless(graph) ==> Distinct(r.value)
    ensures r.None? ==> exists s, t :: TileCentre(floors, from, s) && TileCentre(floors, to, t) && !Reachable(graph, s, t)
  {
    var found := LocateTiles(floors, from, to);
    var (start, goal) := found.value;
    r := Search(graph, start, goal);
  }
}
