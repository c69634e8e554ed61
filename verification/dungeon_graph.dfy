/**
 * The adjacency dictionary `create_graph` builds from the map array: one
 * node per open cell, keyed by the pixel centre of the cell, listing its
 * open 4-neighbours in the order down, up, right, left.
 */
module DungeonGraph {
  import opened Settings
  import opened Geometry
  import opened Graphs
  import opened Dungeon

  /** `((x + 0.5) * TILE_SIZE, (y + 0.5) * TILE_SIZE)`, which is always integral. */
  function NodeOf(c: Cell): Point {
    Point(c.col * TILE_SIZE + TILE_SIZE / 2, c.row * TILE_SIZE + TILE_SIZE / 2)
  }

  /** The cell whose tile holds pixel `p`. */
  function CellOf(p: Point): Cell {
    Cell(p.x / TILE_SIZE, p.y / TILE_SIZE)
  }

  /** A pixel that is the centre of some tile. */
  predicate IsNode(p: Point) {
    p.x % TILE_SIZE == TILE_SIZE / 2 && p.y % TILE_SIZE == TILE_SIZE / 2
  }

  lemma NodeOfCell(c: Cell)
    ensures IsNode(NodeOf(c)) && CellOf(NodeOf(c)) == c
  {
  }

  lemma CellOfNode(p: Point)
    requires IsNode(p)
    ensures NodeOf(CellOf(p)) == p
  {
  }

  /** The `(dy, dx)` steps of `create_graph`: down, up, right, left. */
  const DIRECTIONS: seq<(int, int)> := [(1, 0), (-1, 0), (0, 1), (0, -1)]

  function Step(c: Cell, d: (int, int)): Cell {
    Cell(c.col + d.1, c.row + d.0)
  }

  /** The neighbour list after the first `k` directions have been tried. */
  function NeighboursUpTo(g: Grid, c: Cell, k: nat): seq<Point>
    requires k <= |DIRECTIONS|
  {
    if k == 0 then []
    else
      var n := Step(c, DIRECTIONS[k - 1]);
      NeighboursUpTo(g, c, k - 1) + Listed(g, n)
  }

  function Neighbours(g: Grid, c: Cell): seq<Point> {
    NeighboursUpTo(g, c, |DIRECTIONS|)
  }

  /** The centre of cell `n`, listed when `n` is open. */
  function Listed(g: Grid, n: Cell): seq<Point> {
    if Open(g, n) then [NodeOf(n)] else []
  }

  /** The neighbour list is the four directions' entries in order. */
  lemma NeighboursInOrder(g: Grid, c: Cell)
    ensures Neighbours(g, c)
      == Listed(g, Step(c, (1, 0))) + Listed(g, Step(c, (-1, 0))) + Listed(g, Step(c, (0, 1))) + Listed(g, Step(c, (0, -1)))
  {
    assert NeighboursUpTo(g, c, 1) == Listed(g, Step(c, (1, 0)));
    assert NeighboursUpTo(g, c, 2) == NeighboursUpTo(g, c, 1) + Listed(g, Step(c, (-1, 0)));
    assert NeighboursUpTo(g, c, 3) == NeighboursUpTo(g, c, 2) + Listed(g, Step(c, (0, 1)));
  }

  /** A cell adjacent to `c` is one of its four steps. */
  lemma AdjacentIsStep(c: Cell, q: Cell)
    requires Adjacent(c, q)
    ensures q == Step(c, (1, 0)) || q == Step(c, (-1, 0)) || q == Step(c, (0, 1)) || q == Step(c, (0, -1))
  {
  }

  /** The neighbour list of a cell holds exactly the centres of its open 4-neighbours. */
  lemma NeighboursExact(g: Grid, c: Cell, p: Point)
    ensures p in Neighbours(g, c) <==> IsNode(p) && Open(g, CellOf(p)) && Adjacent(c, CellOf(p))
  {
    var down, up, right, left := Step(c, (1, 0)), Step(c, (-1, 0)), Step(c, (0, 1)), Step(c, (0, -1));
    NeighboursInOrder(g, c);
    if p in Neighbours(g, c) {
      var n :| n in [down, up, right, left] && Open(g, n) && p == NodeOf(n);
      NodeOfCell(n);
    }
    if IsNode(p) && Open(g, CellOf(p)) && Adjacent(c, CellOf(p)) {
      CellOfNode(p);
      AdjacentIsStep(c, CellOf(p));
    }
  }

  /** `graph` is what `create_graph` builds from `g`. */
  ghost predicate IsGraphOf(graph: Graph, g: Grid) {
    && (forall p :: p in graph <==> IsNode(p) && Open(g, CellOf(p)))
    && (forall p :: p in graph ==> graph[p] == Neighbours(g, CellOf(p)))
  }

  function NodesOf(w: seq<Cell>): (r: seq<Point>)
    ensures |r| == |w| && forall i :: 0 <= i < |w| ==> r[i] == NodeOf(w[i])
  {
    seq(|w|, i requires 0 <= i < |w| => NodeOf(w[i]))
  }

  /** A walk of open cells is a path of the graph built from them. */
  lemma WalkIsPath(graph: Graph, g: Grid, w: seq<Cell>)
    requires IsGraphOf(graph, g) && IsWalk(g, w)
    ensures IsPath(graph, NodesOf(w))
  {
    var p := NodesOf(w);
    forall i | 0 <= i < |w|
      ensures p[i] in graph
    {
      NodeOfCell(w[i]);
    }
    forall i | 0 <= i < |w| - 1
      ensures p[i + 1] in graph[p[i]]
    {
      NodeOfCell(w[i]);
      NodeOfCell(w[i + 1]);
      NeighboursExact(g, w[i], p[i + 1]);
    }
  }

  lemma GraphOfSymmetric(graph: Graph, g: Grid)
    requires IsGraphOf(graph, g)
    ensures Closed(graph) && Symmetric(graph) && Loopless(graph)
  {
    forall a, b | a in graph && b in graph[a]
      ensures b in graph && a in graph[b]
    {
      NeighboursExact(g, CellOf(a), b);
      NeighboursExact(g, CellOf(b), a);
    }
    forall a | a in graph
      ensures a !in graph[a]
    {
      NeighboursExact(g, CellOf(a), a);
    }
  }

  lemma GraphOfConnected(graph: Graph, g: Grid, anchor: Cell)
    requires IsGraphOf(graph, g) && AllLinkedTo(g, anchor)
    ensures Connected(graph)
  {
    forall a, b | a in graph && b in graph
      ensures Reachable(graph, a, b)
    {
      NodesLinked(graph, g, anchor, a, b);
    }
  }

  /** Two nodes of the graph of an array whose open cells all link to `anchor` reach each other. */
  lemma NodesLinked(graph: Graph, g: Grid, anchor: Cell, a: Point, b: Point)
    requires IsGraphOf(graph, g) && AllLinkedTo(g, anchor) && a in graph && b in graph
    ensures Reachable(graph, a, b)
  {
    var ca, cb := CellOf(a), CellOf(b);
    assert IsNode(a) && Open(g, ca) && IsNode(b) && Open(g, cb);
    var w := WalkBetween(g, anchor, ca, cb);
    WalkIsPath(graph, g, w);
    CellOfNode(a);
    CellOfNode(b);
    var p := NodesOf(w);
    assert p[0] == NodeOf(w[0]) && p[|p| - 1] == NodeOf(w[|w| - 1]);
    assert IsPath(graph, p) && p[0] == a && p[|p| - 1] == b;
  }

  /** Two open cells linked to the same anchor are joined by a walk. */
  lemma WalkBetween(g: Grid, anchor: Cell, a: Cell, b: Cell) returns (w: seq<Cell>)
    requires AllLinkedTo(g, anchor) && Open(g, a) && Open(g, b)
    ensures IsWalk(g, w) && w[0] == a && w[|w| - 1] == b
  {
    LinkedSym(g, b, anchor);
    LinkedTrans(g, a, anchor, b);
    w :| IsWalk(g, w) && w[0] == a && w[|w| - 1] == b;
  }

  /**
   * The headline property of the generator: when every open cell of the
   * array is 4-connected to one anchor, the graph built from it is closed,
   * symmetric, free of self-loops and connected.
   */
  lemma GraphOfSound(graph: Graph, g: Grid, anchor: Cell)
    requires IsGraphOf(graph, g) && AllLinkedTo(g, anchor)
    ensures Sound(graph)
  {
    GraphOfSymmetric(graph, g);
    GraphOfConnected(graph, g, anchor);
  }

  // ---------------------------------------------------------------------------
  // `Map.shift` as written: re-keying the dictionary in place

  /**
   * The in-place loop of `shift`, over the keys in the dictionary's order:
   * pop each key and store its translated list under the translated key,
   * overwriting whatever entry that key held.
   */
  function ShiftInPlace(g: Graph, order: seq<Point>, off: Point): Graph
    decreases |order|
  {
    if |order| == 0 then g
    else
      var node := order[0];
      // Every listed key is still present at its turn: only its own pop removes it.
      var next := if node in g then (g - {node})[Minus(node, off) := MinusAll(g[node], off)] else g;
      ShiftInPlace(next, order[1..], off)
  }

  /** No translated key lands on a key that is still waiting to be moved. */
  predicate NoPendingHit(order: seq<Point>, off: Point) {
    forall i, j :: 0 <= i < j < |order| ==> Minus(order[i], off) != order[j]
  }

  /** Dropping the first key of the order from the pending entries. */
  lemma PendingTail(pending: Graph, order: seq<Point>)
    requires |order| > 0 && Distinct(order) && (forall q :: q in order <==> q in pending)
    ensures Distinct(order[1..])
    ensures forall q :: q in order[1..] <==> q in pending - {order[0]}
  {
    var rest := order[1..];
    forall q ensures q in rest <==> q in pending - {order[0]} {
      if q in rest {
        var j :| 0 <= j < |rest| && rest[j] == q;
        assert order[j + 1] == q;
      }
      if q in pending - {order[0]} {
        var j :| 0 <= j < |order| && order[j] == q;
        assert j != 0;
        assert rest[j - 1] == q;
      }
    }
  }

  /** Translating a graph entry by entry. */
  lemma TranslateRemove(pending: Graph, n: Point, off: Point)
    requires n in pending
    ensures Translate(pending, off)
         == Translate(pending - {n}, off)[Minus(n, off) := MinusAll(pending[n], off)]
  {
    var m := Minus(n, off);
    var t, t' := Translate(pending, off), Translate(pending - {n}, off);
    var u := t'[m := MinusAll(pending[n], off)];
    assert Plus(m, off) == n;
    TranslateKey(pending, off, m);
    forall q | q in t' ensures q in t && t'[q] == t[q] {
      TranslateKey(pending - {n}, off, q);
      TranslateKey(pending, off, q);
    }
    forall q | q in t ensures q in u {
      TranslateKey(pending - {n}, off, q);
      TranslateKey(pending, off, q);
    }
    assert t.Keys == u.Keys;
  }

  lemma MoveEntry(done: Graph, pending: Graph, n: Point, m: Point, entry: seq<Point>)
    requires n in pending && n !in done && m !in pending - {n}
    ensures ((done + pending) - {n})[m := entry] == done[m := entry] + (pending - {n})
    ensures (done + pending)[n] == pending[n]
  {
  }

  lemma MergeEntry(done: Graph, t: Graph, m: Point, entry: seq<Point>)
    requires m !in t
    ensures done[m := entry] + t == done + t[m := entry]
  {
  }

  /** What the preconditions of the in-place induction say about one state. */
  ghost predicate SplitState(done: Graph, pending: Graph, order: seq<Point>, off: Point) {
    && Distinct(order) && (forall q :: q in order <==> q in pending)
    && NoPendingHit(order, off)
    && (forall q :: q in done ==> q !in pending)
    && (forall j :: 0 <= j < |order| ==> Minus(order[j], off) !in done)
  }

  /** After one turn the remaining keys are again in a state the induction accepts. */
  lemma ShiftInPlaceStepState(done: Graph, pending: Graph, order: seq<Point>, off: Point)
    requires |order| > 0 && SplitState(done, pending, order, off)
    ensures order[0] in pending
    ensures SplitState(done[Minus(order[0], off) := MinusAll(pending[order[0]], off)],
                       pending - {order[0]}, order[1..], off)
  {
    var n := order[0];
    var m := Minus(n, off);
    var done' := done[m := MinusAll(pending[n], off)];
    var pending' := pending - {n};
    var rest := order[1..];
    PendingTail(pending, order);
    assert m !in pending';
    forall j | 0 <= j < |rest|
      ensures Minus(rest[j], off) !in done'
    {
      assert rest[j] == order[j + 1];
      assert Minus(order[j + 1], off) != m;
    }
    forall i, j | 0 <= i < j < |rest|
      ensures Minus(rest[i], off) != rest[j]
    {
      assert rest[i] == order[i + 1] && rest[j] == order[j + 1];
    }
  }

  /** One turn of the in-place loop moves the first pending entry into `done`. */
  lemma ShiftInPlaceStep(done: Graph, pending: Graph, order: seq<Point>, off: Point)
    requires |order| > 0 && SplitState(done, pending, order, off)
    ensures order[0] in pending
    ensures var m := Minus(order[0], off);
            var done' := done[m := MinusAll(pending[order[0]], off)];
            ShiftInPlace(done + pending, order, off) == ShiftInPlace(done' + (pending - {order[0]}), order[1..], off)
  {
    var n := order[0];
    var m := Minus(n, off);
    ShiftInPlaceStepState(done, pending, order, off);
    MoveEntry(done, pending, n, m, MinusAll(pending[n], off));
    assert n in done + pending;
  }

  /** The entry moved by one turn is the translation of that entry. */
  lemma TranslateStep(done: Graph, pending: Graph, n: Point, off: Point)
    requires n in pending && Minus(n, off) !in pending - {n}
    ensures done[Minus(n, off) := MinusAll(pending[n], off)] + Translate(pending - {n}, off) == done + Translate(pending, off)
  {
    var m := Minus(n, off);
    var t' := Translate(pending - {n}, off);
    TranslateRemove(pending, n, off);
    TranslateKey(pending - {n}, off, m);
    assert Plus(m, off) == n;
    MergeEntry(done, t', m, MinusAll(pending[n], off));
  }

  /**
   * The induction behind the in-place loop: `done` holds the entries already
   * moved and `pending` the original entries still to move, in `order`.
   */
  lemma {:induction false} ShiftInPlaceSplit(done: Graph, pending: Graph, order: seq<Point>, off: Point)
    requires SplitState(done, pending, order, off)
    ensures ShiftInPlace(done + pending, order, off) == done + Translate(pending, off)
    decreases |order|
  {
    if |order| == 0 {
      assert pending == map[];
      assert Translate(pending, off) == map[];
    } else {
      ShiftInPlaceStepState(done, pending, order, off);
      ShiftInPlaceStep(done, pending, order, off);
      TranslateStep(done, pending, order[0], off);
      var m := Minus(order[0], off);
      ShiftInPlaceSplit(done[m := MinusAll(pending[order[0]], off)], pending - {order[0]}, order[1..], off);
    }
  }

  /**
   * When no key is translated onto a key still waiting its turn, the
   * in-place loop does translate the whole graph.
   */
  lemma ShiftInPlaceTranslates(g: Graph, order: seq<Point>, off: Point)
    requires Distinct(order) && (forall q :: q in order <==> q in g)
    requires NoPendingHit(order, off)
    ensures ShiftInPlace(g, order, off) == Translate(g, off)
  {
    var none: Graph := map[];
    assert SplitState(none, g, order, off);
    ShiftInPlaceSplit(none, g, order, off);
    EmptyUnion(g);
    EmptyUnion(Translate(g, off));
  }

  lemma EmptyUnion(g: Graph)
    ensures map[] + g == g
  {
  }

  /**
   * Keys that lie whole tiles apart, as the tile centres of a built graph do
   * and still do after any number of translations: an offset smaller than a
   * tile in both directions never moves a key onto a different key, so for
   * such an offset the in-place loop is a translation.
   */
  lemma SmallOffsetNoHit(order: seq<Point>, off: Point)
    requires Distinct(order)
    requires forall i, j :: 0 <= i < |order| && 0 <= j < |order| ==>
      (order[i].x - order[j].x) % TILE_SIZE == 0 && (order[i].y - order[j].y) % TILE_SIZE == 0
    requires -TILE_SIZE < off.x < TILE_SIZE && -TILE_SIZE < off.y < TILE_SIZE
    ensures NoPendingHit(order, off)
  {
    forall i, j | 0 <= i < j < |order|
      ensures Minus(order[i], off) != order[j]
    {
      var p, q := order[i], order[j];
      if Minus(p, off) == q {
        assert false;
      }
    }
  }

  /**
   * A lattice offset breaks the in-place loop: two vertically adjacent
   * nodes, listed top first, scrolled by one tile upward. The first move
   * overwrites the second node's entry, the second move carries that entry
   * one tile further, and the translated key (405, 225) is missing.
   */
  lemma ShiftInPlaceLosesNode()
    ensures var top, below := Point(405, 135), Point(405, 225);
            var g := map[top := [below], below := [top]];
            var off := Point(0, -TILE_SIZE);
            && Sound(g)
            && below in Translate(g, off)
            && below !in ShiftInPlace(g, [top, below], off)
  {
    var top, below := Point(405, 135), Point(405, 225);
    var g := map[top := [below], below := [top]];
    var off := Point(0, -TILE_SIZE);
    assert IsPath(g, [top, below]) && IsPath(g, [below, top]);
    assert IsPath(g, [top]) && IsPath(g, [below]);
    assert Connected(g);
    TranslateKey(g, off, below);
    assert Plus(below, off) == top;
    var once := (g - {top})[below := MinusAll(g[top], off)];
    assert ShiftInPlace(g, [top, below], off) == ShiftInPlace(once, [below], off);
    var twice := (once - {below})[Point(405, 315) := MinusAll(once[below], off)];
    assert ShiftInPlace(once, [below], off) == ShiftInPlace(twice, [], off) == twice;
    assert twice.Keys == {Point(405, 315)};
  }
}
