/**
 * The dungeon grid of `Map` (MAP_HEIGHT rows of MAP_WIDTH cells, each a
 * wall, a floor or a chest), the rooms carved into it, and the 4-neighbour
 * walk structure that makes every open cell reachable from every other.
 */
module Dungeon {
  import opened Settings
  import opened Geometry
  import opened Graphs

  /** A cell of the map array: `'w'`, `' '` or `'c'`. */
  datatype Tile = Wall | Floor | Chest

  /** `array[row][col]` */
  type Grid = seq<seq<Tile>>

  datatype Cell = Cell(col: int, row: int)

  predicate WellSized(g: Grid) {
    |g| == MAP_HEIGHT && forall r :: 0 <= r < |g| ==> |g[r]| == MAP_WIDTH
  }

  predicate InBounds(c: Cell) {
    0 <= c.row < MAP_HEIGHT && 0 <= c.col < MAP_WIDTH
  }

  /** A cell that is not a wall. */
  predicate Open(g: Grid, c: Cell) {
    0 <= c.row < |g| && 0 <= c.col < |g[c.row]| && g[c.row][c.col] != Wall
  }

  /** Columns 1..MAP_WIDTH-3 and rows 1..MAP_HEIGHT-3: the outer ring stays wall. */
  predicate Interior(c: Cell) {
    1 <= c.col <= MAP_WIDTH - 3 && 1 <= c.row <= MAP_HEIGHT - 3
  }

  function SetTile(g: Grid, row: int, col: int, t: Tile): (h: Grid)
    requires 0 <= row < |g| && 0 <= col < |g[row]|
    ensures |h| == |g| && forall r :: 0 <= r < |g| ==> |h[r]| == |g[r]|
    ensures h[row][col] == t
    ensures forall r, c :: 0 <= r < |g| && 0 <= c < |g[r]| && (r, c) != (row, col) ==> h[r][c] == g[r][c]
  {
    g[row := g[row][col := t]]
  }

  /** The array a new map starts from: walls everywhere. */
  function AllWallsGrid(): (g: Grid)
    ensures WellSized(g) && forall c :: !Open(g, c)
  {
    seq(MAP_HEIGHT, _ => seq(MAP_WIDTH, _ => Wall))
  }

  // ---------------------------------------------------------------------------
  // Walks between open cells

  predicate Adjacent(a: Cell, b: Cell) {
    (a.row == b.row && (a.col - b.col == 1 || b.col - a.col == 1))
    || (a.col == b.col && (a.row - b.row == 1 || b.row - a.row == 1))
  }

  /** A non-empty sequence of open cells, each a 4-neighbour of the one before. */
  predicate IsWalk(g: Grid, w: seq<Cell>) {
    && |w| > 0
    && (forall i :: 0 <= i < |w| ==> Open(g, w[i]))
    && (forall i :: 0 <= i < |w| - 1 ==> Adjacent(w[i], w[i + 1]))
  }

  ghost predicate Linked(g: Grid, a: Cell, b: Cell) {
    exists w :: IsWalk(g, w) && w[0] == a && w[|w| - 1] == b
  }

  /** Every open cell is 4-connected to `anchor`, which is itself open. */
  ghost predicate AllLinkedTo(g: Grid, anchor: Cell) {
    Open(g, anchor) && forall c :: Open(g, c) ==> Linked(g, c, anchor)
  }

  /** Only walls were replaced: every open cell of `g` is open in `h`. */
  ghost predicate Grows(g: Grid, h: Grid) {
    forall c :: Open(g, c) ==> Open(h, c)
  }

  lemma LinkedRefl(g: Grid, c: Cell)
    requires Open(g, c)
    ensures Linked(g, c, c)
  {
    assert IsWalk(g, [c]);
  }

  lemma LinkedGrows(g: Grid, h: Grid, a: Cell, b: Cell)
    requires Grows(g, h) && Linked(g, a, b)
    ensures Linked(h, a, b)
  {
    var w :| IsWalk(g, w) && w[0] == a && w[|w| - 1] == b;
    assert IsWalk(h, w);
  }

  lemma {:induction false} LinkedTrans(g: Grid, a: Cell, b: Cell, c: Cell)
    requires Linked(g, a, b) && Linked(g, b, c)
    ensures Linked(g, a, c)
  {
    var w1 :| IsWalk(g, w1) && w1[0] == a && w1[|w1| - 1] == b;
    var w2 :| IsWalk(g, w2) && w2[0] == b && w2[|w2| - 1] == c;
    var w := w1 + w2[1..];
    forall i | 0 <= i < |w| - 1
      ensures Adjacent(w[i], w[i + 1])
    {
      if i >= |w1| - 1 {
        assert w[i] == w2[i - |w1| + 1] && w[i + 1] == w2[i - |w1| + 2];
      }
    }
    assert IsWalk(g, w) && w[0] == a && w[|w| - 1] == c;
  }

  lemma {:induction false} LinkedSym(g: Grid, a: Cell, b: Cell)
    requires Linked(g, a, b)
    ensures Linked(g, b, a)
  {
    var w :| IsWalk(g, w) && w[0] == a && w[|w| - 1] == b;
    var v := seq(|w|, i requires 0 <= i < |w| => w[|w| - 1 - i]);
    forall i | 0 <= i < |v| - 1
      ensures Adjacent(v[i], v[i + 1])
    {
      assert Adjacent(w[|w| - 2 - i], w[|w| - 1 - i]);
    }
    assert IsWalk(g, v) && v[0] == b && v[|v| - 1] == a;
  }

  /** Prepending a neighbouring open cell to a walk. */
  lemma LinkedStep(g: Grid, a: Cell, b: Cell, c: Cell)
    requires Open(g, a) && Adjacent(a, b) && Linked(g, b, c)
    ensures Linked(g, a, c)
  {
    var w :| IsWalk(g, w) && w[0] == b && w[|w| - 1] == c;
    var v := [a] + w;
    forall i | 0 <= i < |v| - 1
      ensures Adjacent(v[i], v[i + 1])
    {
      if i > 0 {
        assert v[i] == w[i - 1] && v[i + 1] == w[i];
      }
    }
    assert IsWalk(g, v) && v[0] == a && v[|v| - 1] == c;
  }


  /** Any two cells of an open horizontal run are linked along it. */
  lemma {:induction false} RowRunLinked(g: Grid, row: int, a: int, b: int)
    requires forall col :: Min(a, b) <= col <= Max(a, b) ==> Open(g, Cell(col, row))
    ensures Linked(g, Cell(a, row), Cell(b, row))
    decreases if a <= b then b - a else a - b
  {
    if a == b {
      LinkedRefl(g, Cell(a, row));
    } else {
      var next := if a < b then a + 1 else a - 1;
      RowRunLinked(g, row, next, b);
      LinkedStep(g, Cell(a, row), Cell(next, row), Cell(b, row));
    }
  }

  /** Any two cells of an open vertical run are linked along it. */
  lemma {:induction false} ColumnRunLinked(g: Grid, col: int, a: int, b: int)
    requires forall row :: Min(a, b) <= row <= Max(a, b) ==> Open(g, Cell(col, row))
    ensures Linked(g, Cell(col, a), Cell(col, b))
    decreases if a <= b then b - a else a - b
  {
    if a == b {
      LinkedRefl(g, Cell(col, a));
    } else {
      var next := if a < b then a + 1 else a - 1;
      ColumnRunLinked(g, col, next, b);
      LinkedStep(g, Cell(col, a), Cell(col, next), Cell(col, b));
    }
  }

  // ---------------------------------------------------------------------------
  // Rooms

  /** `random.randrange` draws for one candidate room, before validation. */
  datatype RoomDraw = RoomDraw(width: int, height: int, x: int, y: int)

  const MIN_SIZE: int := 270
  const MAX_SIZE: int := 810
  const MAX_ROOMS: int := 20

  /**
   * The values `randrange(MIN_SIZE, MAX_SIZE + 1, TILE_SIZE)` and
   * `randrange(TILE_SIZE, MAP_* * TILE_SIZE - size - TILE_SIZE, TILE_SIZE)`
   * can return: multiples of the tile in the half-open ranges.
   */
  predicate ValidDraw(d: RoomDraw) {
    && MIN_SIZE <= d.width <= MAX_SIZE && (d.width - MIN_SIZE) % TILE_SIZE == 0
    && MIN_SIZE <= d.height <= MAX_SIZE && (d.height - MIN_SIZE) % TILE_SIZE == 0
    && TILE_SIZE <= d.x < MAP_WIDTH * TILE_SIZE - d.width - TILE_SIZE && (d.x - TILE_SIZE) % TILE_SIZE == 0
    && TILE_SIZE <= d.y < MAP_HEIGHT * TILE_SIZE - d.height - TILE_SIZE && (d.y - TILE_SIZE) % TILE_SIZE == 0
  }

  /**
   * What every generated room is: tile-aligned, 3 to 9 tiles per side, and
   * inside columns 1..MAP_WIDTH-3 and rows 1..MAP_HEIGHT-3.
   */
  predicate RoomShape(r: Rect) {
    && r.x % TILE_SIZE == 0 && r.y % TILE_SIZE == 0
    && r.w % TILE_SIZE == 0 && r.h % TILE_SIZE == 0
    && 3 * TILE_SIZE <= r.w <= 9 * TILE_SIZE && 3 * TILE_SIZE <= r.h <= 9 * TILE_SIZE
    && TILE_SIZE <= r.x && r.x + r.w <= (MAP_WIDTH - 2) * TILE_SIZE
    && TILE_SIZE <= r.y && r.y + r.h <= (MAP_HEIGHT - 2) * TILE_SIZE
  }

  function GenerateRoom(d: RoomDraw): (r: Rect)
    requires ValidDraw(d)
    ensures RoomShape(r)
  {
    Rect(d.x, d.y, d.width, d.height)
  }

  /** The cells `add_room` carves: columns left//T..right//T-1, rows top//T..bottom//T-1. */
  predicate InRoom(r: Rect, c: Cell) {
    r.x / TILE_SIZE <= c.col < (r.x + r.w) / TILE_SIZE
    && r.y / TILE_SIZE <= c.row < (r.y + r.h) / TILE_SIZE
  }

  /** The cell holding `room.center`. */
  function CentreCell(r: Rect): Cell {
    Cell(Center(r).x / TILE_SIZE, Center(r).y / TILE_SIZE)
  }

  lemma RoomCells(r: Rect, c: Cell)
    requires RoomShape(r) && InRoom(r, c)
    ensures Interior(c) && InBounds(c)
  {
  }

  lemma CentreInRoom(r: Rect)
    requires RoomShape(r)
    ensures InRoom(r, CentreCell(r))
  {
    assert r.x + r.w / 2 < r.x + r.w;
  }

  /** Every cell of an open room is linked to the room's centre cell. */
  lemma RoomLinked(g: Grid, r: Rect, c: Cell)
    requires RoomShape(r) && InRoom(r, c)
    requires forall d :: InRoom(r, d) ==> Open(g, d)
    ensures Linked(g, c, CentreCell(r))
  {
    var m := CentreCell(r);
    CentreInRoom(r);
    forall col | Min(c.col, m.col) <= col <= Max(c.col, m.col)
      ensures Open(g, Cell(col, c.row))
    {
      assert InRoom(r, Cell(col, c.row));
    }
    RowRunLinked(g, c.row, c.col, m.col);
    forall row | Min(c.row, m.row) <= row <= Max(c.row, m.row)
      ensures Open(g, Cell(m.col, row))
    {
      assert InRoom(r, Cell(m.col, row));
    }
    ColumnRunLinked(g, m.col, c.row, m.row);
    LinkedTrans(g, c, Cell(m.col, c.row), m);
  }

  // ---------------------------------------------------------------------------
  // Tunnels

  /**
   * The cells `add_tunnel(r1, r2)` carves: the inclusive run on r1's centre
   * row between both centre columns, then the inclusive run on r2's centre
   * column between both centre rows.
   */
  predicate OnTunnel(r1: Rect, r2: Rect, c: Cell) {
    var a, b := CentreCell(r1), CentreCell(r2);
    (c.row == a.row && Min(a.col, b.col) <= c.col <= Max(a.col, b.col))
    || (c.col == b.col && Min(a.row, b.row) <= c.row <= Max(a.row, b.row))
  }

  lemma TunnelInterior(r1: Rect, r2: Rect, c: Cell)
    requires RoomShape(r1) && RoomShape(r2) && OnTunnel(r1, r2, c)
    ensures Interior(c) && InBounds(c)
  {
    CentreInRoom(r1);
    CentreInRoom(r2);
  }

  /** Once the tunnel is open, each of its cells is linked to r2's centre. */
  lemma TunnelLinked(g: Grid, r1: Rect, r2: Rect, c: Cell)
    requires forall d :: OnTunnel(r1, r2, d) ==> Open(g, d)
    requires OnTunnel(r1, r2, c)
    ensures Linked(g, c, CentreCell(r2))
  {
    var a, b := CentreCell(r1), CentreCell(r2);
    var corner := Cell(b.col, a.row);
    forall row | Min(corner.row, b.row) <= row <= Max(corner.row, b.row)
      ensures Open(g, Cell(b.col, row))
    {
      assert OnTunnel(r1, r2, Cell(b.col, row));
    }
    if c.col == b.col && Min(a.row, b.row) <= c.row <= Max(a.row, b.row) {
      ColumnRunLinked(g, b.col, c.row, b.row);
    } else {
      forall col | Min(c.col, corner.col) <= col <= Max(c.col, corner.col)
        ensures Open(g, Cell(col, a.row))
      {
        assert OnTunnel(r1, r2, Cell(col, a.row));
      }
      RowRunLinked(g, a.row, c.col, corner.col);
      ColumnRunLinked(g, b.col, corner.row, b.row);
      LinkedTrans(g, c, corner, b);
    }
  }
}
