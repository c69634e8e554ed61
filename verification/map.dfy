/**
 * The `Map` object: the array, the accepted rooms and the adjacency
 * dictionary, with the generation steps that update them in place.
 */
module DungeonMap {
  import opened Settings
  import opened Geometry
  import opened Graphs
  import opened Dungeon
  import opened DungeonGraph

  /** `is_valid_room`: the room overlaps none of `rooms`. */
  predicate Fits(rooms: seq<Rect>, room: Rect) {
    forall k :: 0 <= k < |rooms| ==> !Colliderect(rooms[k], room)
  }

  /** No two rooms overlap; sharing an edge is allowed. */
  predicate Disjoint(rooms: seq<Rect>) {
    forall k, l :: 0 <= k < l < |rooms| ==> !Colliderect(rooms[k], rooms[l])
  }

  /** The rooms kept when the candidates are offered in order after `acc`. */
  function AcceptRooms(acc: seq<Rect>, cands: seq<Rect>): seq<Rect>
    decreases |cands|
  {
    if |cands| == 0 then acc
    else AcceptRooms(if Fits(acc, cands[0]) then acc + [cands[0]] else acc, cands[1..])
  }

  /** Offering the candidate at index `i`. */
  lemma AcceptRoomsStep(acc: seq<Rect>, cands: seq<Rect>, i: nat)
    requires i < |cands|
    ensures AcceptRooms(acc, cands[i..])
         == AcceptRooms(if Fits(acc, cands[i]) then acc + [cands[i]] else acc, cands[i + 1..])
  {
    assert cands[i..][1..] == cands[i + 1..];
  }

  /** Accepting rooms only ever appends to the rooms already accepted. */
  lemma {:induction false} AcceptRoomsExtends(acc: seq<Rect>, cands: seq<Rect>)
    ensures acc <= AcceptRooms(acc, cands)
    decreases |cands|
  {
    if |cands| > 0 {
      var next := if Fits(acc, cands[0]) then acc + [cands[0]] else acc;
      AcceptRoomsExtends(next, cands[1..]);
    }
  }

  /** The first candidate is always accepted, so `rooms[0]` exists. */
  lemma AcceptRoomsFirst(cands: seq<Rect>)
    requires |cands| > 0
    ensures |AcceptRooms([], cands)| > 0 && AcceptRooms([], cands)[0] == cands[0]
  {
    assert Fits([], cands[0]) && [] + [cands[0]] == [cands[0]];
    assert AcceptRooms([], cands) == AcceptRooms([cands[0]], cands[1..]);
    AcceptRoomsExtends([cands[0]], cands[1..]);
  }

  /** Accepted rooms are pairwise non-overlapping. */
  lemma {:induction false} AcceptRoomsDisjoint(acc: seq<Rect>, cands: seq<Rect>)
    requires Disjoint(acc)
    ensures Disjoint(AcceptRooms(acc, cands))
    decreases |cands|
  {
    if |cands| > 0 {
      var next := if Fits(acc, cands[0]) then acc + [cands[0]] else acc;
      assert Disjoint(next);
      AcceptRoomsDisjoint(next, cands[1..]);
    }
  }

  /** Every accepted room is one of the candidates or of `acc`. */
  lemma {:induction false} AcceptRoomsFrom(acc: seq<Rect>, cands: seq<Rect>, r: Rect)
    requires r in AcceptRooms(acc, cands)
    ensures r in acc || r in cands
    decreases |cands|
  {
    if |cands| > 0 {
      var next := if Fits(acc, cands[0]) then acc + [cands[0]] else acc;
      AcceptRoomsFrom(next, cands[1..], r);
    }
  }

  function Candidates(draws: seq<RoomDraw>): (cands: seq<Rect>)
    requires forall k :: 0 <= k < |draws| ==> ValidDraw(draws[k])
    ensures |cands| == |draws|
    ensures forall k :: 0 <= k < |draws| ==> cands[k] == GenerateRoom(draws[k])
  {
    seq(|draws|, k requires 0 <= k < |draws| => GenerateRoom(draws[k]))
  }

  /** The tile of the array at cell `c`. */
  function At(g: Grid, c: Cell): Tile
    requires WellSized(g) && InBounds(c)
  {
    g[c.row][c.col]
  }

  ghost predicate OnlyInterior(g: Grid) {
    forall c :: Open(g, c) ==> Interior(c)
  }

  ghost predicate RoomsOpen(g: Grid, rooms: seq<Rect>) {
    forall k, c :: 0 <= k < |rooms| && InRoom(rooms[k], c) ==> Open(g, c)
  }

  // ---------------------------------------------------------------------------
  // Connectivity kept by each generation step

  /** The first room carved into an all-wall array is connected to its centre. */
  lemma FirstRoomLinked(g0: Grid, g1: Grid, r: Rect)
    requires RoomShape(r) && forall c :: !Open(g0, c)
    requires forall c :: Open(g1, c) <==> Open(g0, c) || InRoom(r, c)
    ensures AllLinkedTo(g1, CentreCell(r))
  {
    CentreInRoom(r);
    forall c | Open(g1, c)
      ensures Linked(g1, c, CentreCell(r))
    {
      RoomLinked(g1, r, c);
    }
  }

  /**
   * Carving a room `r1` and then the tunnel from its centre to the centre of
   * an earlier room `r2` keeps every open cell connected to the anchor.
   */
  lemma RoomAndTunnelLinked(g0: Grid, g1: Grid, g2: Grid, r1: Rect, r2: Rect, anchor: Cell)
    requires AllLinkedTo(g0, anchor) && RoomShape(r1) && Open(g0, CentreCell(r2))
    requires forall c :: Open(g1, c) <==> Open(g0, c) || InRoom(r1, c)
    requires forall c :: Open(g2, c) <==> Open(g1, c) || OnTunnel(r1, r2, c)
    ensures AllLinkedTo(g2, anchor)
  {
    var m1, m2 := CentreCell(r1), CentreCell(r2);
    assert Grows(g0, g2) && Grows(g1, g2);
    LinkedGrows(g0, g2, m2, anchor);
    assert OnTunnel(r1, r2, m1);
    TunnelLinked(g2, r1, r2, m1);
    LinkedTrans(g2, m1, m2, anchor);
    forall c | Open(g2, c)
      ensures Linked(g2, c, anchor)
    {
      if OnTunnel(r1, r2, c) {
        TunnelLinked(g2, r1, r2, c);
        LinkedTrans(g2, c, m2, anchor);
      } else if InRoom(r1, c) {
        RoomLinked(g1, r1, c);
        LinkedGrows(g1, g2, c, m1);
        LinkedTrans(g2, c, m1, anchor);
      } else {
        LinkedGrows(g0, g2, c, anchor);
      }
    }
  }

  /** The closing tunnel from the first to the last room keeps connectivity. */
  lemma TunnelKeepsLinked(g1: Grid, g2: Grid, r1: Rect, r2: Rect, anchor: Cell)
    requires AllLinkedTo(g1, anchor) && Open(g1, CentreCell(r2))
    requires forall c :: Open(g2, c) <==> Open(g1, c) || OnTunnel(r1, r2, c)
    ensures AllLinkedTo(g2, anchor)
  {
    var m2 := CentreCell(r2);
    assert Grows(g1, g2);
    LinkedGrows(g1, g2, m2, anchor);
    forall c | Open(g2, c)
      ensures Linked(g2, c, anchor)
    {
      if OnTunnel(r1, r2, c) {
        TunnelLinked(g2, r1, r2, c);
        LinkedTrans(g2, c, m2, anchor);
      } else {
        LinkedGrows(g1, g2, c, anchor);
      }
    }
  }

  lemma DivMinMax(a: int, b: int)
    ensures Min(a, b) / TILE_SIZE == Min(a / TILE_SIZE, b / TILE_SIZE)
    ensures Max(a, b) / TILE_SIZE == Max(a / TILE_SIZE, b / TILE_SIZE)
  {
    if a <= b {
      DivMonotone(a, b);
    } else {
      DivMonotone(b, a);
    }
  }

  lemma DivMonotone(a: int, b: int)
    requires a <= b
    ensures a / TILE_SIZE <= b / TILE_SIZE
  {
  }

  lemma KeepRoomsOpen(g0: Grid, g2: Grid, rooms: seq<Rect>, r: Rect)
    requires RoomsOpen(g0, rooms) && Grows(g0, g2) && (forall c :: InRoom(r, c) ==> Open(g2, c))
    ensures RoomsOpen(g2, rooms + [r])
  {
  }

  lemma RoomKeepsInterior(g0: Grid, g1: Grid, r: Rect)
    requires OnlyInterior(g0) && RoomShape(r)
    requires forall c :: Open(g1, c) <==> Open(g0, c) || InRoom(r, c)
    ensures OnlyInterior(g1)
  {
    forall c | Open(g1, c)
      ensures Interior(c)
    {
      if InRoom(r, c) {
        RoomCells(r, c);
      }
    }
  }

  lemma TunnelKeepsInterior(g1: Grid, g2: Grid, r1: Rect, r2: Rect)
    requires OnlyInterior(g1) && RoomShape(r1) && RoomShape(r2)
    requires forall c :: Open(g2, c) <==> Open(g1, c) || OnTunnel(r1, r2, c)
    ensures OnlyInterior(g2)
  {
    forall c | Open(g2, c)
      ensures Interior(c)
    {
      if OnTunnel(r1, r2, c) {
        TunnelInterior(r1, r2, c);
      }
    }
  }

  /** Cells visited by the row-major scan before `(x, y)`. */
  predicate Done(c: Cell, y: int, x: int) {
    c.row < y || (c.row == y && c.col < x)
  }

  /**
   * The dictionary after the row-major scan of `create_graph` has reached
   * cell `(x, y)`: the entries of `base`, overwritten by one entry for each
   * open cell scanned so far.
   */
  ghost predicate ScannedUpTo(graph: Graph, base: Graph, g: Grid, y: int, x: int) {
    && (forall p :: p in graph <==> p in base || (IsNode(p) && Open(g, CellOf(p)) && Done(CellOf(p), y, x)))
    && (forall p :: p in graph ==>
          graph[p] == (if IsNode(p) && Open(g, CellOf(p)) && Done(CellOf(p), y, x) then Neighbours(g, CellOf(p)) else base[p]))
  }

  lemma ScanStep(before: Graph, after: Graph, base: Graph, g: Grid, y: int, x: int)
    requires WellSized(g) && 0 <= y < MAP_HEIGHT && 0 <= x < MAP_WIDTH
    requires ScannedUpTo(before, base, g, y, x)
    requires after == if g[y][x] != Wall then before[NodeOf(Cell(x, y)) := Neighbours(g, Cell(x, y))] else before
    ensures ScannedUpTo(after, base, g, y, x + 1)
  {
    var node := NodeOf(Cell(x, y));
    NodeOfCell(Cell(x, y));
    forall p
      ensures p in after <==> p in base || (IsNode(p) && Open(g, CellOf(p)) && Done(CellOf(p), y, x + 1))
      ensures p in after ==>
        after[p] == (if IsNode(p) && Open(g, CellOf(p)) && Done(CellOf(p), y, x + 1) then Neighbours(g, CellOf(p)) else base[p])
    {
      if IsNode(p) && CellOf(p) == Cell(x, y) {
        CellOfNode(p);
        assert p == node;
      }
    }
  }

  lemma ScanRow(graph: Graph, base: Graph, g: Grid, y: int)
    requires WellSized(g) && ScannedUpTo(graph, base, g, y, MAP_WIDTH)
    ensures ScannedUpTo(graph, base, g, y + 1, 0)
  {
  }

  /** Scanning every cell into an empty dictionary builds the graph of the array. */
  lemma ScannedIsGraphOf(graph: Graph, g: Grid)
    requires WellSized(g) && ScannedUpTo(graph, map[], g, MAP_HEIGHT, 0)
    ensures IsGraphOf(graph, g)
  {
  }

  lemma RemoveNothing(g: Graph)
    ensures g - {} == g
  {
  }

  lemma TranslateEmpty(off: Point)
    ensures Translate(map[], off) == map[]
  {
    forall q | q in Translate(map[], off) ensures false {
      TranslateKey(map[], off, q);
    }
  }

  predicate DistinctCells(s: seq<Cell>) {
    forall i, j :: 0 <= i < j < |s| ==> s[i] != s[j]
  }

  class Map {
    var grid: Grid
    var rooms: seq<Rect>
    var graph: Graph

    /** What holds of the map after generation and after every shift. */
    ghost predicate Valid()
      reads this
    {
      WellSized(grid) && |rooms| > 0 && Disjoint(rooms) && Sound(graph)
    }

    /**
     * What generation establishes: rooms of the right shape, non-overlapping
     * and open; the border ring still walls; every open cell connected to the
     * first room's centre; and the graph built from the array.
     */
    ghost predicate Generated()
      reads this
    {
      && WellSized(grid) && |rooms| > 0
      && (forall k :: 0 <= k < |rooms| ==> RoomShape(rooms[k]))
      && Disjoint(rooms)
      && OnlyInterior(grid)
      && RoomsOpen(grid, rooms)
      && AllLinkedTo(grid, CentreCell(rooms[0]))
      && IsGraphOf(graph, grid)
    }

    /**
     * `Map()`: an all-wall array carved by `generate` from the twenty candidate
     * rooms drawn by `generate_room` and the chest counts drawn for them.
     */
    constructor (draws: seq<RoomDraw>, chestCounts: seq<nat>)
      requires |draws| == MAX_ROOMS && |chestCounts| == MAX_ROOMS
      requires forall k :: 0 <= k < MAX_ROOMS ==> ValidDraw(draws[k]) && chestCounts[k] <= 2
      ensures Generated() && Valid()
      ensures rooms == AcceptRooms([], Candidates(draws))
      ensures rooms[0] == GenerateRoom(draws[0])
    {
      grid := AllWallsGrid();
      rooms := [];
      graph := map[];
      new;
      Generate(draws, chestCounts);
      GraphOfSound(graph, grid, CentreCell(rooms[0]));
    }

    /** What holds between the passes of the loop in `generate`. */
    ghost predicate Carving()
      reads this
    {
      && WellSized(grid)
      && (forall k :: 0 <= k < |rooms| ==> RoomShape(rooms[k]))
      && Disjoint(rooms)
      && OnlyInterior(grid)
      && RoomsOpen(grid, rooms)
      && (|rooms| == 0 ==> forall c :: !Open(grid, c))
      && (|rooms| > 0 ==> AllLinkedTo(grid, CentreCell(rooms[0])))
    }

    /**
     * `generate`: offer the twenty candidates in order, tunnel the first room
     * to the last, and build the graph.
     */
    method Generate(draws: seq<RoomDraw>, chestCounts: seq<nat>)
      requires grid == AllWallsGrid() && rooms == [] && graph == map[]
      requires |draws| == MAX_ROOMS && |chestCounts| == MAX_ROOMS
      requires forall k :: 0 <= k < MAX_ROOMS ==> ValidDraw(draws[k]) && chestCounts[k] <= 2
      modifies this
      ensures Generated()
      ensures rooms == AcceptRooms([], Candidates(draws))
      ensures rooms[0] == GenerateRoom(draws[0])
    {
      ghost var cands := Candidates(draws);
      AcceptRoomsFirst(cands);
      for i := 0 to MAX_ROOMS
        invariant Carving() && graph == map[]
        invariant AcceptRooms(rooms, cands[i..]) == AcceptRooms([], cands)
        invariant |rooms| <= i && (i > 0 ==> |rooms| > 0 && rooms[0] == cands[0])
      {
        var current := GenerateRoom(draws[i]);
        assert current == cands[i];
        ghost var rooms0 := rooms;
        OfferRoom(current, chestCounts[i]);
        AcceptRoomsStep(rooms0, cands, i);
        assert AcceptRooms(rooms, cands[i + 1..]) == AcceptRooms([], cands);
      }
      assert cands[MAX_ROOMS..] == [];
      var first, last := rooms[0], rooms[|rooms| - 1];
      ghost var g1 := grid;
      CentreInRoom(last);
      AddTunnel(first, last);
      TunnelKeepsLinked(g1, grid, first, last, CentreCell(first));
      TunnelKeepsInterior(g1, grid, first, last);
      KeepRoomsOpen(g1, grid, rooms, first);
      CreateGraph();
      ScannedIsGraphOf(graph, grid);
    }

    /** One pass of the loop in `generate`, after `generate_room` has drawn `current`. */
    method OfferRoom(current: Rect, numChests: nat)
      requires Carving() && RoomShape(current) && numChests <= 2
      modifies this
      ensures Carving() && graph == old(graph)
      ensures rooms == if Fits(old(rooms), current) then old(rooms) + [current] else old(rooms)
    {
      var ok := IsValidRoom(current);
      if ok {
        ghost var g0, rooms0 := grid, rooms;
        var _ := AddRoom(current, numChests);
        ghost var g1 := grid;
        RoomKeepsInterior(g0, g1, current);
        assert Disjoint(rooms);
        if |rooms| > 1 {
          var previous := rooms[|rooms| - 2];
          CentreInRoom(previous);
          AddTunnel(current, previous);
          RoomAndTunnelLinked(g0, g1, grid, current, previous, CentreCell(rooms[0]));
          TunnelKeepsInterior(g1, grid, current, previous);
        } else {
          FirstRoomLinked(g0, g1, current);
        }
        KeepRoomsOpen(g0, grid, rooms0, current);
      }
    }

    /**
     * `add_room`: carve the room's cells to floor, append the room, then turn
     * `numChests` distinct floor cells of the room into chests (the cells the
     * rejection loop over `randint` settles on).
     */
    method AddRoom(room: Rect, numChests: nat) returns (ghost chests: seq<Cell>)
      requires WellSized(grid) && RoomShape(room) && numChests <= 2
      modifies this
      ensures rooms == old(rooms) + [room] && graph == old(graph)
      ensures WellSized(grid)
      ensures forall c :: InBounds(c) ==>
        At(grid, c) == (if InRoom(room, c) then (if c in chests then Chest else Floor) else At(old(grid), c))
      ensures forall c :: Open(grid, c) <==> Open(old(grid), c) || InRoom(room, c)
      ensures |chests| == numChests && DistinctCells(chests)
      ensures forall k :: 0 <= k < |chests| ==> InRoom(room, chests[k])
    {
      CarveRoom(room);
      rooms := rooms + [room];
      chests := PlaceChests(room, numChests);
      forall c | Open(grid, c) || InRoom(room, c)
        ensures InBounds(c)
      {
        if InRoom(room, c) {
          RoomCells(room, c);
        }
      }
    }

    /** The carving loops of `add_room`: every cell of the room becomes floor. */
    method CarveRoom(room: Rect)
      requires WellSized(grid) && RoomShape(room)
      modifies this`grid
      ensures WellSized(grid)
      ensures forall c :: InBounds(c) ==> At(grid, c) == (if InRoom(room, c) then Floor else At(old(grid), c))
    {
      var xStart, xEnd := room.x / TILE_SIZE, (room.x + room.w) / TILE_SIZE;
      var yStart, yEnd := room.y / TILE_SIZE, (room.y + room.h) / TILE_SIZE;
      for y := yStart to yEnd
        invariant WellSized(grid)
        invariant forall c :: InBounds(c) ==>
          At(grid, c) == (if InRoom(room, c) && c.row < y then Floor else At(old(grid), c))
      {
        for x := xStart to xEnd
          invariant WellSized(grid)
          invariant forall c :: InBounds(c) ==>
            At(grid, c) == (if InRoom(room, c) && (c.row < y || (c.row == y && c.col < x)) then Floor else At(old(grid), c))
        {
          grid := SetTile(grid, y, x, Floor);
        }
      }
    }

    /**
     * The chest loop of `add_room` on a carved room: `numChests` distinct
     * floor cells of the room become chests.
     */
    method PlaceChests(room: Rect, numChests: nat) returns (ghost chests: seq<Cell>)
      requires WellSized(grid) && RoomShape(room) && numChests <= 2
      requires forall c :: InBounds(c) && InRoom(room, c) ==> At(grid, c) == Floor
      modifies this`grid
      ensures WellSized(grid)
      ensures forall c :: InBounds(c) ==>
        At(grid, c) == (if InRoom(room, c) && c in chests then Chest else At(old(grid), c))
      ensures |chests| == numChests && DistinctCells(chests)
      ensures forall k :: 0 <= k < |chests| ==> InRoom(room, chests[k])
    {
      var xStart, xEnd := room.x / TILE_SIZE, (room.x + room.w) / TILE_SIZE;
      var yStart, yEnd := room.y / TILE_SIZE, (room.y + room.h) / TILE_SIZE;
      chests := [];
      for j := 0 to numChests
        invariant WellSized(grid)
        invariant |chests| == j && DistinctCells(chests)
        invariant forall k :: 0 <= k < |chests| ==> InRoom(room, chests[k])
        invariant forall c :: InBounds(c) ==>
          At(grid, c) == (if InRoom(room, c) && c in chests then Chest else At(old(grid), c))
      {
        var a, b := Cell(xStart, yStart), Cell(xStart + 1, yStart);
        assert InRoom(room, a) && InRoom(room, b);
        assert At(grid, a) == Floor || At(grid, b) == Floor by {
          if |chests| == 1 {
            assert !(a in chests && b in chests);
          }
        }
        var chestX: int, chestY: int :| xStart <= chestX < xEnd && yStart <= chestY < yEnd && grid[chestY][chestX] == Floor;
        assert InRoom(room, Cell(chestX, chestY));
        grid := SetTile(grid, chestY, chestX, Chest);
        chests := chests + [Cell(chestX, chestY)];
      }
    }

    /** `add_tunnel`: the horizontal run on r1's centre row, then the vertical run on r2's centre column. */
    method AddTunnel(r1: Rect, r2: Rect)
      requires WellSized(grid) && RoomShape(r1) && RoomShape(r2)
      modifies this
      ensures rooms == old(rooms) && graph == old(graph) && WellSized(grid)
      ensures forall c :: InBounds(c) ==> At(grid, c) == (if OnTunnel(r1, r2, c) then Floor else At(old(grid), c))
      ensures forall c :: Open(grid, c) <==> Open(old(grid), c) || OnTunnel(r1, r2, c)
    {
      var c1, c2 := Center(r1), Center(r2);
      CentreInRoom(r1);
      CentreInRoom(r2);
      RoomCells(r1, CentreCell(r1));
      RoomCells(r2, CentreCell(r2));
      DivMinMax(c1.x, c2.x);
      DivMinMax(c1.y, c2.y);
      AddHorizontalTunnel(c1.x, c2.x, c1.y);
      AddVerticalTunnel(c1.y, c2.y, c2.x);
      forall c | Open(grid, c) || OnTunnel(r1, r2, c)
        ensures InBounds(c)
      {
        if OnTunnel(r1, r2, c) {
          TunnelInterior(r1, r2, c);
        }
      }
    }

    /** `add_horizontal_tunnel`: floor on row y // T, columns min // T to max // T inclusive. */
    method AddHorizontalTunnel(x1: int, x2: int, y: int)
      requires WellSized(grid) && 0 <= x1 && 0 <= x2 && 0 <= y
      requires Max(x1, x2) / TILE_SIZE < MAP_WIDTH && y / TILE_SIZE < MAP_HEIGHT
      modifies this
      ensures rooms == old(rooms) && graph == old(graph) && WellSized(grid)
      ensures forall c :: InBounds(c) ==>
        At(grid, c) == (if c.row == y / TILE_SIZE && Min(x1, x2) / TILE_SIZE <= c.col <= Max(x1, x2) / TILE_SIZE
                        then Floor else At(old(grid), c))
    {
      var xStart, xEnd := Min(x1, x2) / TILE_SIZE, Max(x1, x2) / TILE_SIZE;
      var row := y / TILE_SIZE;
      DivMonotone(Min(x1, x2), Max(x1, x2));
      for x := xStart to xEnd + 1
        invariant WellSized(grid) && rooms == old(rooms) && graph == old(graph)
        invariant forall c :: InBounds(c) ==>
          At(grid, c) == (if c.row == row && xStart <= c.col < x then Floor else At(old(grid), c))
      {
        grid := SetTile(grid, row, x, Floor);
      }
    }

    /** `add_vertical_tunnel`: floor on column x // T, rows min // T to max // T inclusive. */
    method AddVerticalTunnel(y1: int, y2: int, x: int)
      requires WellSized(grid) && 0 <= y1 && 0 <= y2 && 0 <= x
      requires Max(y1, y2) / TILE_SIZE < MAP_HEIGHT && x / TILE_SIZE < MAP_WIDTH
      modifies this
      ensures rooms == old(rooms) && graph == old(graph) && WellSized(grid)
      ensures forall c :: InBounds(c) ==>
        At(grid, c) == (if c.col == x / TILE_SIZE && Min(y1, y2) / TILE_SIZE <= c.row <= Max(y1, y2) / TILE_SIZE
                        then Floor else At(old(grid), c))
    {
      var yStart, yEnd := Min(y1, y2) / TILE_SIZE, Max(y1, y2) / TILE_SIZE;
      var col := x / TILE_SIZE;
      DivMonotone(Min(y1, y2), Max(y1, y2));
      for y := yStart to yEnd + 1
        invariant WellSized(grid) && rooms == old(rooms) && graph == old(graph)
        invariant forall c :: InBounds(c) ==>
          At(grid, c) == (if c.col == col && yStart <= c.row < y then Floor else At(old(grid), c))
      {
        grid := SetTile(grid, y, col, Floor);
      }
    }

    /**
     * `create_graph`: one entry per open cell, keyed by its centre and listing
     * the centres of its open 4-neighbours in the order down, up, right, left.
     */
    method CreateGraph()
      requires WellSized(grid)
      modifies this
      ensures grid == old(grid) && rooms == old(rooms)
      ensures ScannedUpTo(graph, old(graph), grid, MAP_HEIGHT, 0)
    {
      var g := graph;
      for y := 0 to MAP_HEIGHT
        modifies {}
        invariant ScannedUpTo(g, graph, grid, y, 0)
      {
        g := ScanLine(g, graph, y);
      }
      graph := g;
    }

    /** One pass of the outer loop of `create_graph`: the open cells of row `y`, left to right. */
    method ScanLine(g: Graph, ghost base: Graph, y: int) returns (scanned: Graph)
      requires WellSized(grid) && 0 <= y < MAP_HEIGHT && ScannedUpTo(g, base, grid, y, 0)
      ensures ScannedUpTo(scanned, base, grid, y + 1, 0)
    {
      scanned := g;
      for x := 0 to MAP_WIDTH
        invariant ScannedUpTo(scanned, base, grid, y, x)
      {
        ghost var before := scanned;
        if grid[y][x] != Wall {
          var neighbours := NeighbourList(x, y);
          scanned := scanned[NodeOf(Cell(x, y)) := neighbours];
        }
        ScanStep(before, scanned, base, grid, y, x);
      }
      ScanRow(scanned, base, grid, y);
    }

    /** The inner loop of `create_graph`: the open 4-neighbours of cell `(x, y)`. */
    method NeighbourList(x: int, y: int) returns (neighbours: seq<Point>)
      requires WellSized(grid)
      ensures neighbours == Neighbours(grid, Cell(x, y))
    {
      neighbours := [];
      for k := 0 to |DIRECTIONS|
        invariant neighbours == NeighboursUpTo(grid, Cell(x, y), k)
      {
        var (dy, dx) := DIRECTIONS[k];
        var neighbourY, neighbourX := y + dy, x + dx;
        assert Step(Cell(x, y), DIRECTIONS[k]) == Cell(neighbourX, neighbourY);
        assert NeighboursUpTo(grid, Cell(x, y), k + 1) == neighbours
          + (if Open(grid, Cell(neighbourX, neighbourY)) then [NodeOf(Cell(neighbourX, neighbourY))] else []);
        if 0 <= neighbourY < MAP_HEIGHT && 0 <= neighbourX < MAP_WIDTH {
          if grid[neighbourY][neighbourX] != Wall {
            neighbours := neighbours + [NodeOf(Cell(neighbourX, neighbourY))];
          }
        }
      }
    }

    /**
     * `shift`, corrected: every room and every graph key and neighbour moves
     * by minus the camera offset. The entries are collected into a fresh
     * dictionary, so no moved key can overwrite an entry still to be moved.
     */
    method Shift(off: Point)
      requires Valid()
      modifies this
      ensures Valid() && grid == old(grid)
      ensures |rooms| == |old(rooms)| && forall k :: 0 <= k < |rooms| ==> rooms[k] == Shifted(old(rooms)[k], off)
      ensures graph == Translate(old(graph), off)
    {
      ghost var g0 := graph;
      for k := 0 to |rooms|
        invariant grid == old(grid) && graph == old(graph) && |rooms| == |old(rooms)|
        invariant forall l :: 0 <= l < |rooms| ==> rooms[l] == if l < k then Shifted(old(rooms)[l], off) else old(rooms)[l]
      {
        rooms := rooms[k := Shifted(rooms[k], off)];
      }
      forall k, l | 0 <= k < l < |rooms|
        ensures !Colliderect(rooms[k], rooms[l])
      {
        ShiftedColliderect(old(rooms)[k], old(rooms)[l], off);
      }
      var moved := TranslatedGraph(graph, off);
      TranslateSound(g0, off);
      graph := moved;
    }

    /**
     * The graph half of `shift`, corrected: each entry of `g` is re-keyed
     * into a fresh dictionary, one key at a time in any order.
     */
    static method TranslatedGraph(g: Graph, off: Point) returns (moved: Graph)
      ensures moved == Translate(g, off)
    {
      var pending := g.Keys;
      moved := map[];
      assert g - pending == map[];
      TranslateEmpty(off);
      while pending != {}
        invariant pending <= g.Keys
        invariant moved == Translate(g - pending, off)
        decreases |pending|
      {
        var node :| node in pending;
        TranslateRemove(g - (pending - {node}), node, off);
        assert g - (pending - {node}) - {node} == g - pending;
        moved := moved[Minus(node, off) := MinusAll(g[node], off)];
        pending := pending - {node};
      }
      RemoveNothing(g);
    }

    /** `is_valid_room`: scans the accepted rooms for an overlap. */
    method IsValidRoom(room: Rect) returns (ok: bool)
      ensures ok <==> Fits(rooms, room)
    {
      for k := 0 to |rooms|
        invariant Fits(rooms[..k], room)
      {
        if Colliderect(rooms[k], room) {
          return false;
        }
      }
      return true;
    }
  }
}
