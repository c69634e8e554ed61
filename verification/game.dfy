/**
 * The `Game` object of main.py: the sprite groups, the level, the score and
 * the clock, and the per-frame steps that update them — scoring, the level
 * advance, spawning, collisions, the camera, and building a dungeon.
 */
module GameLoop {
  import opened Settings
  import opened Options
  import opened Geometry
  import opened Graphs
  import opened Dungeon
  import opened DungeonGraph
  import opened DungeonMap
  import opened Combat
  import opened Collisions

  /** The player is drawn at the middle of the window. */
  const SCREEN_CENTRE: Point := Point(WINDOW_WIDTH / 2, WINDOW_HEIGHT / 2)

  /** `elapsed_time` counts milliseconds. */
  const MINUTE_MS: int := 60000

  /** A chest image is a square 40 pixels narrower than a tile, leaving 20 pixels on each side. */
  const CHEST_SIZE: int := TILE_SIZE - 40

  /** The wall or floor tile of a cell: a tile-sized square at the cell's pixel corner. */
  function TileRect(c: Cell): Rect {
    Rect(c.col * TILE_SIZE, c.row * TILE_SIZE, TILE_SIZE, TILE_SIZE)
  }

  /** A chest image centred on its tile. */
  function ChestRect(c: Cell): Rect {
    WithCenter(Rect(0, 0, CHEST_SIZE, CHEST_SIZE), NodeOf(c))
  }

  /** The cell whose tile holds the top-left corner of `r`. */
  function TileCell(r: Rect): Cell {
    Cell(r.x / TILE_SIZE, r.y / TILE_SIZE)
  }

  /** Tiles and chests sit on their own cell, and a tile's centre is the cell's graph node. */
  lemma TileCellOf(c: Cell)
    ensures TileCell(TileRect(c)) == c && TileCell(ChestRect(c)) == c
    ensures Center(TileRect(c)) == NodeOf(c)
  {
  }

  /**
   * A row-major scan of the grid that has reached cell (`x`, `y`) and has
   * made `make(c)` for each cell `c` so far whose tile satisfies `want`, and
   * nothing else; `cellOf` recovers the cell from what was made.
   */
  ghost predicate ScanUpTo<T>(g: Grid, s: seq<T>, want: Tile -> bool, make: Cell -> T, cellOf: T -> Cell, y: int, x: int)
    requires WellSized(g)
  {
    && (forall k :: 0 <= k < |s| ==>
          var c := cellOf(s[k]);
          InBounds(c) && Done(c, y, x) && s[k] == make(c) && want(At(g, c)))
    && (forall c :: InBounds(c) && Done(c, y, x) && want(At(g, c)) ==> make(c) in s)
  }

  /** The scan makes something for cell (`x`, `y`). */
  lemma ScanAdd<T>(g: Grid, s: seq<T>, want: Tile -> bool, make: Cell -> T, cellOf: T -> Cell, y: int, x: int)
    requires WellSized(g) && 0 <= y < MAP_HEIGHT && 0 <= x < MAP_WIDTH && want(g[y][x])
    requires cellOf(make(Cell(x, y))) == Cell(x, y)
    requires ScanUpTo(g, s, want, make, cellOf, y, x)
    ensures ScanUpTo(g, s + [make(Cell(x, y))], want, make, cellOf, y, x + 1)
  {
    var s' := s + [make(Cell(x, y))];
    forall k | 0 <= k < |s'|
      ensures var c := cellOf(s'[k]); InBounds(c) && Done(c, y, x + 1) && s'[k] == make(c) && want(At(g, c))
    {
      if k < |s| {
        assert s'[k] == s[k];
      }
    }
    forall c | InBounds(c) && Done(c, y, x + 1) && want(At(g, c))
      ensures make(c) in s'
    {
      if c != Cell(x, y) {
        assert Done(c, y, x);
      }
    }
  }

  /** The scan passes cell (`x`, `y`) by. */
  lemma ScanSkip<T>(g: Grid, s: seq<T>, want: Tile -> bool, make: Cell -> T, cellOf: T -> Cell, y: int, x: int)
    requires WellSized(g) && 0 <= y < MAP_HEIGHT && 0 <= x < MAP_WIDTH && !want(g[y][x])
    requires ScanUpTo(g, s, want, make, cellOf, y, x)
    ensures ScanUpTo(g, s, want, make, cellOf, y, x + 1)
  {
    forall c | InBounds(c) && Done(c, y, x + 1) && want(At(g, c))
      ensures make(c) in s
    {
      assert c != Cell(x, y);
      assert Done(c, y, x);
    }
  }

  /** The end of a row of the scan is the start of the next. */
  lemma ScanNextRow<T>(g: Grid, s: seq<T>, want: Tile -> bool, make: Cell -> T, cellOf: T -> Cell, y: int)
    requires WellSized(g) && ScanUpTo(g, s, want, make, cellOf, y, MAP_WIDTH)
    ensures ScanUpTo(g, s, want, make, cellOf, y + 1, 0)
  {
  }

  predicate IsWall(t: Tile) { t == Wall }
  predicate IsOpen(t: Tile) { t != Wall }
  predicate IsChest(t: Tile) { t == Chest }

  /** The chest made on cell `c`, placed from the cell's pixel corner and holding the item drawn for it. */
  function ChestOn(itemAt: Cell -> Item): Cell -> ChestSprite {
    c => ChestSprite(ChestRect(c), itemAt(c))
  }

  function ChestCell(chest: ChestSprite): Cell {
    TileCell(chest.rect)
  }

  /**
   * The tiles of a whole map: a wall tile for each wall cell, a floor tile
   * for each other cell and a chest for each chest cell, and nothing else.
   */
  ghost predicate Tiled(g: Grid, obstacles: seq<Rect>, floors: seq<Rect>, chests: seq<ChestSprite>, itemAt: Cell -> Item)
    requires WellSized(g)
  {
    && ScanUpTo(g, obstacles, IsWall, TileRect, TileCell, MAP_HEIGHT, 0)
    && ScanUpTo(g, floors, IsOpen, TileRect, TileCell, MAP_HEIGHT, 0)
    && ScanUpTo(g, chests, IsChest, ChestOn(itemAt), ChestCell, MAP_HEIGHT, 0)
  }

  /** The floor tiles of a built map are exactly the open cells: their centres are the graph's nodes. */
  lemma TiledFloorsInGraph(graph: Graph, g: Grid, obstacles: seq<Rect>, floors: seq<Rect>, chests: seq<ChestSprite>, itemAt: Cell -> Item)
    requires WellSized(g) && IsGraphOf(graph, g) && Tiled(g, obstacles, floors, chests, itemAt)
    ensures forall k :: 0 <= k < |floors| ==> Center(floors[k]) in graph
    ensures forall p :: p in graph ==> exists k :: 0 <= k < |floors| && Center(floors[k]) == p
  {
    forall k | 0 <= k < |floors|
      ensures Center(floors[k]) in graph
    {
      var c := TileCell(floors[k]);
      TileCellOf(c);
      NodeOfCell(c);
    }
    forall p | p in graph
      ensures exists k :: 0 <= k < |floors| && Center(floors[k]) == p
    {
      var c := CellOf(p);
      CellOfNode(p);
      TileCellOf(c);
      assert InBounds(c) && Done(c, MAP_HEIGHT, 0) && IsOpen(At(g, c));
      assert TileRect(c) in floors;
      var k :| 0 <= k < |floors| && floors[k] == TileRect(c);
    }
  }

  // ---------------------------------------------------------------------------
  // Enemies

  /** How many of the enemies are dead. */
  function Fallen(es: seq<Enemy>): nat
    reads es
  {
    if es == [] then 0 else Fallen(es[..|es| - 1]) + if es[|es| - 1].IsAlive() then 0 else 1
  }

  /** The loop of `update_score` over the enemy group: `ELIM_POINTS` for every dead enemy. */
  method EliminationPoints(es: seq<Enemy>) returns (points: int)
    ensures points == ELIM_POINTS * Fallen(es)
  {
    points := 0;
    for i := 0 to |es|
      invariant points == ELIM_POINTS * Fallen(es[..i])
    {
      if !es[i].IsAlive() {
        points := points + ELIM_POINTS;
      }
      assert es[..i + 1][..i] == es[..i];
    }
    assert es[..|es|] == es;
  }

  /** The enemies left once the dead ones have `kill`ed themselves, in order. */
  function Living(es: seq<Enemy>): seq<Enemy>
    reads es
  {
    if es == [] then []
    else
      var last := es[|es| - 1];
      Living(es[..|es| - 1]) + if last.IsAlive() then [last] else []
  }

  /** An enemy stays in the group iff it was in it and is alive. */
  lemma {:induction false} LivingMembers(es: seq<Enemy>, e: Enemy)
    ensures e in Living(es) <==> e in es && e.IsAlive()
  {
    if es != [] {
      LivingMembers(es[..|es| - 1], e);
      assert es == es[..|es| - 1] + [es[|es| - 1]];
    }
  }

  /** Every enemy is either counted as fallen or kept as living. */
  lemma {:induction false} LivingCount(es: seq<Enemy>)
    ensures |Living(es)| + Fallen(es) == |es|
  {
    if es != [] {
      LivingCount(es[..|es| - 1]);
    }
  }

  /** When every enemy is alive, removing the dead keeps them all. */
  lemma {:induction false} LivingAllAlive(es: seq<Enemy>)
    requires forall k :: 0 <= k < |es| ==> es[k].IsAlive()
    ensures Living(es) == es
  {
    if es != [] {
      LivingAllAlive(es[..|es| - 1]);
      assert es == es[..|es| - 1] + [es[|es| - 1]];
    }
  }

  /** Every enemy a wave adds is alive. */
  lemma SpawnedAlive(before: seq<Enemy>, after: seq<Enemy>, rooms: seq<Rect>, p: Point, spawnRooms: seq<Rect>,
                     n: nat, kind: EnemyKind, width: nat, height: nat)
    requires SpawnedIn(before, after, rooms, p, spawnRooms, n, kind, width, height)
    ensures forall k :: |before| <= k < |after| ==> after[k].IsAlive()
  {
    forall k | |before| <= k < |after|
      ensures after[k].IsAlive()
    {
      var j := k - |before|;
      assert spawnRooms[j] in rooms;
      assert after[|before| + j].health == ENEMY_HEALTH;
    }
  }

  /** `Enemy.update` keeps the whole of a wave spawned into an empty group. */
  lemma WaveAlive(after: seq<Enemy>, rooms: seq<Rect>, p: Point, spawnRooms: seq<Rect>, n: nat, kind: EnemyKind,
                  width: nat, height: nat)
    requires SpawnedIn([], after, rooms, p, spawnRooms, n, kind, width, height)
    ensures Living(after) == after
  {
    SpawnedAlive([], after, rooms, p, spawnRooms, n, kind, width, height);
    LivingAllAlive(after);
  }

  /** A sprite group holds each sprite once. */
  predicate DistinctEnemies(es: seq<Enemy>) {
    forall i, j :: 0 <= i < j < |es| ==> es[i] != es[j]
  }

  /**
   * Every enemy of `es` is numbered with its position in `slot`; a group
   * that can be numbered holds each enemy once.
   */
  ghost predicate Numbered(es: seq<Enemy>, slot: map<Enemy, nat>) {
    forall k :: 0 <= k < |es| ==> es[k] in slot && slot[es[k]] == k
  }

  /** The numbering of a group that holds each enemy once. */
  ghost function Numbering(es: seq<Enemy>): (slot: map<Enemy, nat>)
    requires DistinctEnemies(es)
    ensures Numbered(es, slot)
  {
    map k | 0 <= k < |es| :: es[k] := k
  }

  /** Two groups without a common enemy make one group when joined. */
  lemma DistinctJoin(a: seq<Enemy>, b: seq<Enemy>)
    requires DistinctEnemies(a) && DistinctEnemies(b) && forall k :: 0 <= k < |b| ==> b[k] !in a
    ensures DistinctEnemies(a + b)
  {
    forall i, j | 0 <= i < j < |a + b|
      ensures (a + b)[i] != (a + b)[j]
    {
      if j >= |a| && i < |a| {
        assert (a + b)[j] == b[j - |a|];
      }
    }
  }

  lemma {:induction false} LivingDistinct(es: seq<Enemy>)
    requires DistinctEnemies(es)
    ensures DistinctEnemies(Living(es))
  {
    if es != [] {
      var init, last := es[..|es| - 1], es[|es| - 1];
      LivingDistinct(init);
      assert last !in init by {
        forall i | 0 <= i < |init|
          ensures init[i] != last
        {
          assert init[i] == es[i];
        }
      }
      LivingMembers(init, last);
      if last.IsAlive() {
        DistinctJoin(Living(init), [last]);
      }
    }
  }

  /** A numbering shows the enemies distinct. */
  lemma NumberedDistinct(es: seq<Enemy>, slot: map<Enemy, nat>)
    requires Numbered(es, slot)
    ensures DistinctEnemies(es)
  {
  }

  /** The loop of `Enemy.update` over the group: the living enemies, in order, and their new numbering. */
  method KeepLiving(es: seq<Enemy>, ghost slot: map<Enemy, nat>) returns (kept: seq<Enemy>, ghost keptSlot: map<Enemy, nat>)
    requires Numbered(es, slot)
    ensures kept == Living(es) && Numbered(kept, keptSlot)
    ensures forall k :: 0 <= k < |kept| ==> kept[k].health >= 0
  {
    kept := [];
    for i := 0 to |es|
      invariant kept == Living(es[..i])
      invariant forall k :: 0 <= k < |kept| ==> kept[k].health > 0
    {
      assert es[..i + 1][..i] == es[..i];
      if es[i].IsAlive() {
        kept := kept + [es[i]];
      }
    }
    assert es[..|es|] == es;
    NumberedDistinct(es, slot);
    LivingDistinct(es);
    keptSlot := Numbering(kept);
  }

  /** The rectangles of the enemies, in group order. */
  method RectsOf(es: seq<Enemy>) returns (rs: seq<Rect>)
    ensures |rs| == |es| && forall k :: 0 <= k < |es| ==> rs[k] == es[k].rect
  {
    rs := [];
    for i := 0 to |es|
      invariant |rs| == i && forall k :: 0 <= k < i ==> rs[k] == es[k].rect
    {
      rs := rs + [es[i].rect];
    }
  }

  /**
   * `spawn_enemies`' draws: one basic enemy on the first level, otherwise
   * three to five enemies of one kind.
   */
  predicate SpawnOk(level: int, n: nat, kind: EnemyKind) {
    (level == 1 ==> n == 1 && kind == BasicEnemy) && (level != 1 ==> 3 <= n <= 5)
  }

  /** Some room holds `p`. */
  predicate InSomeRoom(rooms: seq<Rect>, p: Point) {
    exists k :: 0 <= k < |rooms| && CollidePoint(rooms[k], p)
  }

  /**
   * There are enough rooms for the rejection loop of `spawn_enemies` to end:
   * `n` free rooms besides the one the player stands in.
   */
  predicate EnoughRooms(rooms: seq<Rect>, p: Point, n: nat) {
    n + (if InSomeRoom(rooms, p) then 1 else 0) <= |rooms|
  }

  /**
   * What `spawn_enemies` leaves behind: `n` enemies of `kind` appended, one
   * per room of `spawnRooms`, each with its top-left corner on its room's
   * centre; the rooms are distinct rooms of the map, none holding `p`.
   */
  ghost predicate SpawnedIn(before: seq<Enemy>, after: seq<Enemy>, rooms: seq<Rect>, p: Point,
                            spawnRooms: seq<Rect>, n: nat, kind: EnemyKind, width: nat, height: nat)
    reads after
  {
    && |spawnRooms| == n && |after| == |before| + n && after[..|before|] == before
    && (forall k :: 0 <= k < n ==> spawnRooms[k] in rooms && !CollidePoint(spawnRooms[k], p))
    && (forall k, l :: 0 <= k < l < n ==> spawnRooms[k] != spawnRooms[l])
    && (forall k :: 0 <= k < n ==>
          var e := after[|before| + k];
          e.kind == kind && e.health == ENEMY_HEALTH
          && e.rect == Rect(Center(spawnRooms[k]).x, Center(spawnRooms[k]).y, width, height))
  }

  lemma {:induction false} SubsetCard(a: set<Rect>, b: set<Rect>)
    requires a <= b
    ensures |a| <= |b|
  {
    if a != {} {
      var x :| x in a;
      SubsetCard(a - {x}, b - {x});
    }
  }

  lemma {:induction false} SeqSetCard(s: seq<Rect>)
    ensures |set x | x in s| <= |s|
  {
    if s != [] {
      var init := s[..|s| - 1];
      SeqSetCard(init);
      assert (set x | x in s) == (set x | x in init) + {s[|s| - 1]};
    }
  }

  lemma {:induction false} DistinctSeqSetCard(s: seq<Rect>)
    requires forall i, j :: 0 <= i < j < |s| ==> s[i] != s[j]
    ensures |set x | x in s| == |s|
  {
    if s != [] {
      var init, last := s[..|s| - 1], s[|s| - 1];
      DistinctSeqSetCard(init);
      assert (set x | x in s) == (set x | x in init) + {last};
      forall i | 0 <= i < |init|
        ensures init[i] != last
      {
        assert init[i] == s[i];
      }
    }
  }

  /** Fewer occupied rooms than rooms: the rejection loop can find a free one. */
  lemma FreeRoom(rooms: seq<Rect>, occupied: seq<Rect>)
    requires forall i, j :: 0 <= i < j < |rooms| ==> rooms[i] != rooms[j]
    requires |occupied| < |rooms|
    ensures exists r :: r in rooms && r !in occupied
  {
    var a, b := set x | x in rooms, set x | x in occupied;
    SeqSetCard(occupied);
    DistinctSeqSetCard(rooms);
    if a <= b {
      SubsetCard(a, b);
    }
    var r :| r in a && r !in b;
  }

  /** Non-overlapping rooms of positive size are distinct rooms. */
  lemma RoomsDistinct(rooms: seq<Rect>)
    requires Disjoint(rooms) && forall k :: 0 <= k < |rooms| ==> rooms[k].w > 0 && rooms[k].h > 0
    ensures forall i, j :: 0 <= i < j < |rooms| ==> rooms[i] != rooms[j]
  {
    forall i, j | 0 <= i < j < |rooms|
      ensures rooms[i] != rooms[j]
    {
      assert !Colliderect(rooms[i], rooms[j]);
    }
  }

  /** Non-overlapping rooms never share a point. */
  lemma OneRoomHolds(rooms: seq<Rect>, p: Point, i: nat, j: nat)
    requires Disjoint(rooms) && i < |rooms| && j < |rooms| && i != j && CollidePoint(rooms[i], p)
    ensures !CollidePoint(rooms[j], p)
  {
    if i < j {
      assert !Colliderect(rooms[i], rooms[j]);
    } else {
      assert !Colliderect(rooms[j], rooms[i]);
    }
  }

  // ---------------------------------------------------------------------------
  // The loops of `handle_collisions`

  /** The player picks up the item of every chest it touches, in order. */
  method PickUpChests(player: Player, touched: seq<ChestSprite>)
    requires player.Valid()
    modifies player
    ensures player.Valid() && player.rect == old(player.rect) && player.equipped == old(player.equipped)
    ensures player.Stats() == PickupAll(old(player.Stats()), Items(touched))
    ensures |player.inventory| >= |old(player.inventory)| && player.inventory[..|old(player.inventory)|] == old(player.inventory)
  {
    var items := Items(touched);
    for i := 0 to |touched|
      invariant player.Valid() && player.rect == old(player.rect) && player.equipped == old(player.equipped)
      invariant |player.inventory| >= |old(player.inventory)| && player.inventory[..|old(player.inventory)|] == old(player.inventory)
      invariant player.Stats() == PickupAll(old(player.Stats()), items[..i])
    {
      player.HandleItem(touched[i].item);
      assert items[..i + 1][..i] == items[..i];
    }
    assert items[..|touched|] == items;
  }

  /** The player takes the damage of every enemy bullet that hits it, in order. */
  method DamagePlayer(player: Player, hits: seq<Bullet>)
    requires player.Valid()
    modifies player`health
    ensures player.Valid() && player.health == Max(0, old(player.health) - Damage(hits))
  {
    for i := 0 to |hits|
      invariant player.Valid() && player.health == Max(0, old(player.health) - Damage(hits[..i]))
    {
      player.TakeDamage(hits[i].damage);
      assert hits[..i + 1][..i] == hits[..i];
    }
    assert hits[..|hits|] == hits;
  }

  /** An enemy takes the damage of every player bullet it claimed, in order. */
  method DamageEnemy(enemy: Enemy, hits: seq<Bullet>)
    requires enemy.health >= 0
    modifies enemy`health
    ensures enemy.health == Max(0, old(enemy.health) - Damage(hits))
  {
    for i := 0 to |hits|
      invariant enemy.health == Max(0, old(enemy.health) - Damage(hits[..i]))
    {
      enemy.TakeDamage(hits[i].damage);
      assert hits[..i + 1][..i] == hits[..i];
    }
    assert hits[..|hits|] == hits;
  }

  // ---------------------------------------------------------------------------
  // The scan of `generate_dungeon`

  /**
   * One row of the scan: a wall tile for every wall cell, a floor tile for
   * every other cell, and a chest, holding `itemAt(c)`, on every chest cell.
   */
  method ScanRow(g: Grid, itemAt: Cell -> Item, y: int, obstacles: seq<Rect>, floors: seq<Rect>, chests: seq<ChestSprite>)
    returns (obstacles': seq<Rect>, floors': seq<Rect>, chests': seq<ChestSprite>)
    requires WellSized(g) && 0 <= y < MAP_HEIGHT
    requires ScanUpTo(g, obstacles, IsWall, TileRect, TileCell, y, 0)
    requires ScanUpTo(g, floors, IsOpen, TileRect, TileCell, y, 0)
    requires ScanUpTo(g, chests, IsChest, ChestOn(itemAt), ChestCell, y, 0)
    ensures ScanUpTo(g, obstacles', IsWall, TileRect, TileCell, y + 1, 0)
    ensures ScanUpTo(g, floors', IsOpen, TileRect, TileCell, y + 1, 0)
    ensures ScanUpTo(g, chests', IsChest, ChestOn(itemAt), ChestCell, y + 1, 0)
  {
    var chestOn := ChestOn(itemAt);
    obstacles', floors', chests' := obstacles, floors, chests;
    for x := 0 to MAP_WIDTH
      invariant ScanUpTo(g, obstacles', IsWall, TileRect, TileCell, y, x)
      invariant ScanUpTo(g, floors', IsOpen, TileRect, TileCell, y, x)
      invariant ScanUpTo(g, chests', IsChest, chestOn, ChestCell, y, x)
    {
      var c := Cell(x, y);
      TileCellOf(c);
      if g[y][x] == Wall {
        ScanAdd(g, obstacles', IsWall, TileRect, TileCell, y, x);
        ScanSkip(g, floors', IsOpen, TileRect, TileCell, y, x);
        ScanSkip(g, chests', IsChest, chestOn, ChestCell, y, x);
        obstacles' := obstacles' + [TileRect(c)];
      } else {
        ScanSkip(g, obstacles', IsWall, TileRect, TileCell, y, x);
        ScanAdd(g, floors', IsOpen, TileRect, TileCell, y, x);
        floors' := floors' + [TileRect(c)];
        if g[y][x] == Chest {
          ScanAdd(g, chests', IsChest, chestOn, ChestCell, y, x);
          chests' := chests' + [chestOn(c)];
        } else {
          ScanSkip(g, chests', IsChest, chestOn, ChestCell, y, x);
        }
      }
    }
    ScanNextRow(g, obstacles', IsWall, TileRect, TileCell, y);
    ScanNextRow(g, floors', IsOpen, TileRect, TileCell, y);
    ScanNextRow(g, chests', IsChest, chestOn, ChestCell, y);
  }

  /** The whole scan of `generate_dungeon`, row by row. */
  method ScanTiles(g: Grid, itemAt: Cell -> Item) returns (obstacles: seq<Rect>, floors: seq<Rect>, chests: seq<ChestSprite>)
    requires WellSized(g)
    ensures Tiled(g, obstacles, floors, chests, itemAt)
  {
    obstacles, floors, chests := [], [], [];
    for y := 0 to MAP_HEIGHT
      invariant ScanUpTo(g, obstacles, IsWall, TileRect, TileCell, y, 0)
      invariant ScanUpTo(g, floors, IsOpen, TileRect, TileCell, y, 0)
      invariant ScanUpTo(g, chests, IsChest, ChestOn(itemAt), ChestCell, y, 0)
    {
      obstacles, floors, chests := ScanRow(g, itemAt, y, obstacles, floors, chests);
    }
  }

  // ---------------------------------------------------------------------------
  // The rooms and enemies of `spawn_enemies`

  /**
   * The rejection loop of `spawn_enemies` as a choice: `n` distinct rooms,
   * none of them `occupied` (the room holding `p`, if any).
   */
  method PickRooms(rooms: seq<Rect>, p: Point, occupied: seq<Rect>, n: nat) returns (picked: seq<Rect>)
    requires Disjoint(rooms) && forall k :: 0 <= k < |rooms| ==> rooms[k].w > 0 && rooms[k].h > 0
    requires |occupied| <= 1 && n + |occupied| <= |rooms|
    requires occupied == [] <==> !InSomeRoom(rooms, p)
    requires occupied != [] ==> occupied[0] in rooms && CollidePoint(occupied[0], p)
    ensures |picked| == n
    ensures forall k :: 0 <= k < n ==> picked[k] in rooms && !CollidePoint(picked[k], p)
    ensures forall k, l :: 0 <= k < l < n ==> picked[k] != picked[l]
  {
    RoomsDistinct(rooms);
    picked := [];
    for i := 0 to n
      invariant |picked| == i
      invariant forall k :: 0 <= k < i ==> picked[k] in rooms && !CollidePoint(picked[k], p)
      invariant forall k, l :: 0 <= k < l < i ==> picked[k] != picked[l]
      invariant forall k :: 0 <= k < i ==> picked[k] !in occupied
    {
      var taken := occupied + picked;
      FreeRoom(rooms, taken);
      var room :| room in rooms && room !in taken;
      var a :| 0 <= a < |rooms| && rooms[a] == room;
      if occupied != [] {
        var b :| 0 <= b < |rooms| && rooms[b] == occupied[0];
        OneRoomHolds(rooms, p, b, a);
      } else {
        assert !CollidePoint(rooms[a], p);
      }
      picked := picked + [room];
    }
  }

  /**
   * The rejection loop of `spawn_enemies` as written, over a run of
   * `random.choice` outcomes: the index of the first draw that is not
   * occupied, or `None` when every draw of the run is occupied and the loop
   * is still going.
   */
  function FirstFree(occupied: seq<Rect>, draws: seq<Rect>): (r: Option<nat>)
    ensures r.Some? ==> r.value < |draws| && draws[r.value] !in occupied
    ensures r.Some? ==> forall k :: 0 <= k < r.value ==> draws[k] in occupied
    ensures r.None? <==> forall k :: 0 <= k < |draws| ==> draws[k] in occupied
  {
    if draws == [] then None
    else if draws[0] !in occupied then Some(0)
    else
      match FirstFree(occupied, draws[1..])
      case None => None
      case Some(i) => Some(i + 1)
  }

  /** Copies of an accepted room all overlap it, so none is accepted. */
  lemma {:induction false} AcceptCopies(r: Rect, cands: seq<Rect>)
    requires r.w > 0 && r.h > 0
    requires forall k :: 0 <= k < |cands| ==> cands[k] == r
    ensures AcceptRooms([r], cands) == [r]
    decreases |cands|
  {
    if |cands| > 0 {
      assert !Fits([r], cands[0]) by {
        assert Colliderect([r][0], cands[0]);
      }
      AcceptCopies(r, cands[1..]);
    }
  }

  /**
   * A dungeon whose room draws are all the same has a single room, which
   * holds its own centre, where the player is put; so on the first level,
   * where one enemy must be placed outside the player's room, every room
   * drawn is occupied and the rejection loop never ends, however many draws
   * it makes.
   */
  lemma SpawnLoopStuck(d: RoomDraw, draws: seq<Rect>)
    requires ValidDraw(d)
    requires forall k :: 0 <= k < |draws| ==> draws[k] in AcceptRooms([], Candidates(seq(MAX_ROOMS, _ => d)))
    ensures var rooms := AcceptRooms([], Candidates(seq(MAX_ROOMS, _ => d)));
      && rooms == [GenerateRoom(d)] && CollidePoint(rooms[0], Center(rooms[0]))
      && FirstFree([rooms[0]], draws) == None
  {
    var cands := Candidates(seq(MAX_ROOMS, _ => d));
    var r := GenerateRoom(d);
    assert cands[0] == r && Fits([], r) && [] + [r] == [r];
    assert AcceptRooms([], cands) == AcceptRooms([r], cands[1..]);
    AcceptCopies(r, cands[1..]);
  }

  /** A new enemy of `kind` for each room, its top-left corner on the room's centre. */
  method MakeEnemies(rooms: seq<Rect>, kind: EnemyKind, width: nat, height: nat) returns (added: seq<Enemy>)
    ensures |added| == |rooms| && DistinctEnemies(added)
    ensures forall k :: 0 <= k < |rooms| ==> fresh(added[k])
    ensures forall k :: 0 <= k < |rooms| ==>
      added[k].kind == kind && added[k].health == ENEMY_HEALTH
      && added[k].rect == Rect(Center(rooms[k]).x, Center(rooms[k]).y, width, height)
  {
    added := [];
    for i := 0 to |rooms|
      invariant |added| == i && DistinctEnemies(added)
      invariant forall k :: 0 <= k < i ==> fresh(added[k])
      invariant forall k :: 0 <= k < i ==>
        added[k].kind == kind && added[k].health == ENEMY_HEALTH
        && added[k].rect == Rect(Center(rooms[k]).x, Center(rooms[k]).y, width, height)
    {
      var e := new Enemy(kind, Center(rooms[i]).x, Center(rooms[i]).y, width, height);
      DistinctJoin(added, [e]);
      added := added + [e];
    }
  }

  /**
   * The last pass of `handle_collisions`: each enemy
   * takes the damage of the bullets it claimed, in group order.
   */
  method DamageEnemies(es: seq<Enemy>, ghost slot: map<Enemy, nat>, rs: seq<Rect>, shots: seq<Bullet>)
    requires Numbered(es, slot) && |rs| == |es| && forall k :: 0 <= k < |es| ==> es[k].health >= 0
    modifies es`health
    ensures forall k :: 0 <= k < |es| ==> es[k].rect == old(es[k].rect) && es[k].health >= 0
    ensures forall k {:trigger DamageTaken(rs, shots)[k]} :: 0 <= k < |es| ==>
      es[k].health == Max(0, old(es[k].health) - DamageTaken(rs, shots)[k])
  {
    for i := 0 to |es|
      invariant forall k :: 0 <= k < |es| ==>
        es[k].health == if k < i then Max(0, old(es[k].health) - DamageTaken(rs, shots)[k]) else old(es[k].health)
    {
      DamageEnemy(es[i], Claimed(rs, shots, i));
    }
  }

  /** Every enemy's rectangle moves against the camera offset. */
  method ShiftEnemies(es: seq<Enemy>, ghost slot: map<Enemy, nat>, off: Point)
    requires Numbered(es, slot)
    modifies es`rect
    ensures forall k :: 0 <= k < |es| ==> es[k].rect == Shifted(old(es[k].rect), off) && es[k].health == old(es[k].health)
  {
    for i := 0 to |es|
      invariant forall k :: 0 <= k < |es| ==> es[k].rect == if k < i then Shifted(old(es[k].rect), off) else old(es[k].rect)
    {
      es[i].rect := Shifted(es[i].rect, off);
    }
  }

  /**
   * `camera_scroll` keeps every sprite where it was relative to the player:
   * a rectangle `r` shifted by the player's offset from the screen centre
   * has the same offset from the recentred player as before.
   */
  lemma ScrollKeepsOffset(r: Rect, player: Rect)
    ensures var off := Minus(Center(player), SCREEN_CENTRE);
      Minus(Center(Shifted(r, off)), Center(WithCenter(player, SCREEN_CENTRE))) == Minus(Center(r), Center(player))
  {
  }

  /** Moving the floor tiles with the graph keeps every floor tile's centre a node of the graph. */
  lemma ShiftedFloorsInGraph(floors: seq<Rect>, graph: Graph, off: Point)
    requires forall k :: 0 <= k < |floors| ==> Center(floors[k]) in graph
    ensures forall k :: 0 <= k < |floors| ==> Center(ShiftRects(floors, off)[k]) in Translate(graph, off)
  {
    forall k | 0 <= k < |floors|
      ensures Center(ShiftRects(floors, off)[k]) in Translate(graph, off)
    {
      var c := Center(floors[k]);
      assert Center(ShiftRects(floors, off)[k]) == Minus(c, off);
      assert Plus(Minus(c, off), off) == c;
      TranslateKey(graph, off, Minus(c, off));
    }
  }

  // ---------------------------------------------------------------------------
  // The game

  /** What a new `Player` carries: full health, 50 reserve rounds, and only a pistol, equipped and loaded. */
  ghost predicate StartingKit(p: Player)
    reads p, p.equipped
  {
    && p.health == MAX_PLAYER_HEALTH && p.ammo == 50
    && p.inventory == [p.equipped] && p.equipped.kind == Pistol && p.equipped.ammo == MagazineSize(Pistol)
  }

  class Game {
    /** `self.map` */
    var dungeon: Map
    var player: Player
    /** `enemy_sprites` */
    var enemies: seq<Enemy>
    /** The position of each enemy in `enemies`, which shows the group holds each enemy once. */
    ghost var slot: map<Enemy, nat>
    /** `player.bullets_fired` and `enemy_bullets` */
    var playerBullets: seq<Bullet>
    var enemyBullets: seq<Bullet>
    /** `obstacle_sprites`, `floor_tiles` and `chest_sprites` */
    var obstacles: seq<Rect>
    var floors: seq<Rect>
    var chests: seq<ChestSprite>
    var level: int
    /** `player_score` */
    var score: int
    /** Milliseconds played on this dungeon, and the minute already scored. */
    var elapsedTime: int
    var lastMin: int

    /** The sizes of the player's image and of each kind of enemy's image. */
    const playerWidth: nat
    const playerHeight: nat
    const enemyWidth: EnemyKind -> nat
    const enemyHeight: EnemyKind -> nat

    /** What holds between frames. */
    ghost predicate Valid()
      reads this, dungeon, player, player.inventory, enemies
    {
      WorldValid() && EnemiesValid()
    }

    /** The map, the player and the clock are sound. */
    ghost predicate WorldValid()
      reads this`dungeon, this`player, this`level, this`elapsedTime, this`lastMin, this`floors
      reads dungeon, player, player.inventory
    {
      SceneValid() && ClockValid()
    }

    /**
     * The map and the player are sound, every room has an area and every
     * floor tile stands on a node of the map's graph.
     */
    ghost predicate SceneValid()
      reads this`dungeon, this`player, this`floors, dungeon, player, player.inventory
    {
      && dungeon.Valid() && player.Valid()
      && (forall k :: 0 <= k < |dungeon.rooms| ==> dungeon.rooms[k].w > 0 && dungeon.rooms[k].h > 0)
      && (forall k :: 0 <= k < |floors| ==> Center(floors[k]) in dungeon.graph)
    }

    /** The level counts from one and the minute scored is the clock's. */
    ghost predicate ClockValid()
      reads this`level, this`elapsedTime, this`lastMin
    {
      level >= 1 && elapsedTime >= 0 && lastMin == elapsedTime / MINUTE_MS
    }

    /** The enemy group holds each enemy once, and no enemy's health is below zero. */
    ghost predicate EnemiesValid()
      reads this`enemies, this`slot, enemies`health
    {
      Numbered(enemies, slot) && forall k :: 0 <= k < |enemies| ==> enemies[k].health >= 0
    }

    /**
     * The groups and the clock as `__init__` leaves them, with a new player,
     * carrying the starting kit, at the screen centre.
     */
    ghost predicate Initial()
      reads this, player, player.equipped
    {
      && enemies == [] && playerBullets == [] && enemyBullets == []
      && obstacles == [] && floors == [] && chests == []
      && elapsedTime == 0 && lastMin == 0
      && player.rect == WithCenter(Rect(0, 0, playerWidth, playerHeight), SCREEN_CENTRE)
      && StartingKit(player)
    }

    /** The tile, chest and bullet groups, which only collisions, scrolling and a new dungeon change. */
    function Groups(): (seq<Rect>, seq<Rect>, seq<ChestSprite>, seq<Bullet>, seq<Bullet>)
      reads this
    {
      (obstacles, floors, chests, playerBullets, enemyBullets)
    }

    /** `Game()`: the map is generated from `draws` and `chestCounts`; the game starts on level 1 with no score. */
    constructor (draws: seq<RoomDraw>, chestCounts: seq<nat>, playerWidth: nat, playerHeight: nat,
                 enemyWidth: EnemyKind -> nat, enemyHeight: EnemyKind -> nat)
      requires |draws| == MAX_ROOMS && |chestCounts| == MAX_ROOMS
      requires forall k :: 0 <= k < MAX_ROOMS ==> ValidDraw(draws[k]) && chestCounts[k] <= 2
      ensures Valid() && Initial() && level == 1 && score == 0
      ensures dungeon.Generated() && dungeon.rooms == AcceptRooms([], Candidates(draws))
      ensures this.playerWidth == playerWidth && this.playerHeight == playerHeight
      ensures this.enemyWidth == enemyWidth && this.enemyHeight == enemyHeight
    {
      this.playerWidth, this.playerHeight := playerWidth, playerHeight;
      this.enemyWidth, this.enemyHeight := enemyWidth, enemyHeight;
      var m := new Map(draws, chestCounts);
      var p := new Player(WithCenter(Rect(0, 0, playerWidth, playerHeight), SCREEN_CENTRE));
      dungeon, player := m, p;
      new;
      Restart(m, p, 1, 0);
    }

    /**
     * The body of `__init__` on this object, given the new map and the new
     * player it builds: every field starts over, with the level and the
     * score `l` and `s` (1 and 0 for a new game; the kept ones when
     * `new_dungeon` runs `__init__` again).
     */
    method Restart(m: Map, p: Player, l: int, s: int)
      requires m.Valid() && (forall k :: 0 <= k < |m.rooms| ==> m.rooms[k].w > 0 && m.rooms[k].h > 0)
      requires p.Valid() && StartingKit(p)
      requires p.rect == WithCenter(Rect(0, 0, playerWidth, playerHeight), SCREEN_CENTRE)
      requires l >= 1
      modifies this
      ensures Valid() && Initial() && level == l && score == s
      ensures dungeon == m && player == p
    {
      dungeon, player := m, p;
      ClearGroups(l, s);
    }

    /** The groups emptied, the clock back at its start, and the level and the score set to `l` and `s`. */
    method ClearGroups(l: int, s: int)
      modifies this`enemies, this`playerBullets, this`enemyBullets, this`obstacles, this`floors, this`chests
      modifies this`level, this`score, this`elapsedTime, this`lastMin
      ensures enemies == [] && playerBullets == [] && enemyBullets == []
      ensures obstacles == [] && floors == [] && chests == []
      ensures level == l && score == s && elapsedTime == 0 && lastMin == 0
    {
      enemies, playerBullets, enemyBullets := [], [], [];
      obstacles, floors, chests := [], [], [];
      level, score := l, s;
      elapsedTime, lastMin := 0, 0;
    }

    /**
     * The search in `spawn_enemies` for the room the player stands in: the
     * first room holding the player's centre, or none.
     */
    method OccupiedRoom() returns (occupied: seq<Rect>)
      ensures |occupied| <= 1
      ensures occupied == [] <==> !InSomeRoom(dungeon.rooms, Center(player.rect))
      ensures occupied != [] ==> occupied[0] in dungeon.rooms && CollidePoint(occupied[0], Center(player.rect))
    {
      occupied := [];
      var i := 0;
      while i < |dungeon.rooms|
        invariant 0 <= i <= |dungeon.rooms|
        invariant forall k :: 0 <= k < i ==> !CollidePoint(dungeon.rooms[k], Center(player.rect))
      {
        if CollidePoint(dungeon.rooms[i], Center(player.rect)) {
          occupied := [dungeon.rooms[i]];
          return;
        }
        i := i + 1;
      }
    }

    /**
     * `spawn_enemies` with its draws made: `n` enemies of `kind`, each in a
     * room that is neither the player's nor one already used. The rejection
     * loop is a choice among the free rooms, of which there are enough.
     */
    method SpawnEnemies(n: nat, kind: EnemyKind) returns (ghost spawnRooms: seq<Rect>)
      requires Valid() && SpawnOk(level, n, kind) && EnoughRooms(dungeon.rooms, Center(player.rect), n)
      modifies this`enemies, this`slot
      ensures Valid()
      ensures SpawnedIn(old(enemies), enemies, dungeon.rooms, Center(player.rect), spawnRooms, n, kind,
                        enemyWidth(kind), enemyHeight(kind))
      ensures forall k :: |old(enemies)| <= k < |enemies| ==> fresh(enemies[k])
    {
      var occupied := OccupiedRoom();
      var picked := PickRooms(dungeon.rooms, Center(player.rect), occupied, n);
      spawnRooms := picked;
      var added := MakeEnemies(picked, kind, enemyWidth(kind), enemyHeight(kind));
      AddEnemies(added);
      assert enemies[..|old(enemies)|] == old(enemies);
      assert forall k :: 0 <= k < n ==> enemies[|old(enemies)| + k] == added[k];
    }

    /** The spawned enemies join the group. */
    method AddEnemies(added: seq<Enemy>)
      requires Valid() && DistinctEnemies(added) && forall k :: 0 <= k < |added| ==> added[k] !in enemies && added[k].health >= 0
      modifies this`enemies, this`slot
      ensures Valid() && enemies == old(enemies) + added
    {
      DistinctJoin(enemies, added);
      enemies := enemies + added;
      slot := Numbering(enemies);
    }

    /** The tiles of `generate_dungeon` put into their groups. */
    method BuildTiles(itemAt: Cell -> Item)
      requires WellSized(dungeon.grid)
      modifies this`obstacles, this`floors, this`chests
      ensures Tiled(dungeon.grid, obstacles, floors, chests, itemAt)
    {
      obstacles, floors, chests := ScanTiles(dungeon.grid, itemAt);
    }

    /**
     * What `generate_dungeon` leaves: the player on the centre of the first
     * room, the tiles of the whole grid, and `n` enemies of `kind`, one in
     * each room of `spawnRooms`, none of which is the first room.
     */
    ghost predicate Built(itemAt: Cell -> Item, n: nat, kind: EnemyKind, spawnRooms: seq<Rect>)
      reads this, dungeon, player, player.inventory, enemies
    {
      && Valid() && Center(player.rect) == Center(dungeon.rooms[0])
      && Tiled(dungeon.grid, obstacles, floors, chests, itemAt)
      && SpawnedIn([], enemies, dungeon.rooms, Center(player.rect), spawnRooms, n, kind, enemyWidth(kind), enemyHeight(kind))
      && (forall k :: 0 <= k < n ==> spawnRooms[k] != dungeon.rooms[0])
    }

    /**
     * `generate_dungeon` on a freshly built game: the player is put on the
     * centre of the first room, the tiles are built, and the enemies are
     * spawned, none in the first room.
     */
    method GenerateDungeon(itemAt: Cell -> Item, n: nat, kind: EnemyKind) returns (ghost spawnRooms: seq<Rect>)
      requires Valid() && IsGraphOf(dungeon.graph, dungeon.grid) && enemies == []
      requires SpawnOk(level, n, kind) && n + 1 <= |dungeon.rooms|
      modifies this`obstacles, this`floors, this`chests, this`enemies, this`slot, player`rect
      ensures Built(itemAt, n, kind, spawnRooms) && player.rect == WithCenter(old(player.rect), Center(dungeon.rooms[0]))
      ensures forall k :: 0 <= k < |enemies| ==> fresh(enemies[k])
      ensures level == old(level) && score == old(score) && elapsedTime == old(elapsedTime)
      ensures playerBullets == old(playerBullets) && enemyBullets == old(enemyBullets) && player.health == old(player.health)
      ensures dungeon == old(dungeon) && player == old(player)
    {
      LayOut(itemAt);
      assert CollidePoint(dungeon.rooms[0], Center(player.rect));
      spawnRooms := SpawnEnemies(n, kind);
    }

    /** The first steps of `generate_dungeon`: the player on the centre of the first room, and the tiles. */
    method LayOut(itemAt: Cell -> Item)
      requires WorldValid() && IsGraphOf(dungeon.graph, dungeon.grid)
      modifies this`obstacles, this`floors, this`chests, player`rect
      ensures WorldValid() && player.rect == WithCenter(old(player.rect), Center(dungeon.rooms[0]))
      ensures Tiled(dungeon.grid, obstacles, floors, chests, itemAt)
      ensures player.health == old(player.health) && unchanged(dungeon)
    {
      player.rect := WithCenter(player.rect, Center(dungeon.rooms[0]));
      BuildTiles(itemAt);
      TiledFloorsInGraph(dungeon.graph, dungeon.grid, obstacles, floors, chests, itemAt);
    }

    /**
     * `new_dungeon`: the game starts over on a new map and with a new
     * player, keeping only the level and the score, and the new dungeon is
     * generated.
     */
    method NewDungeon(draws: seq<RoomDraw>, chestCounts: seq<nat>, itemAt: Cell -> Item, n: nat, kind: EnemyKind)
      returns (ghost spawnRooms: seq<Rect>)
      requires level >= 1
      requires |draws| == MAX_ROOMS && |chestCounts| == MAX_ROOMS
      requires forall k :: 0 <= k < MAX_ROOMS ==> ValidDraw(draws[k]) && chestCounts[k] <= 2
      requires SpawnOk(level, n, kind) && n + 1 <= |AcceptRooms([], Candidates(draws))|
      modifies this
      ensures Built(itemAt, n, kind, spawnRooms) && level == old(level) && score == old(score)
      ensures fresh(dungeon) && fresh(player) && dungeon.Generated() && dungeon.rooms == AcceptRooms([], Candidates(draws))
      ensures elapsedTime == 0 && playerBullets == [] && enemyBullets == [] && StartingKit(player)
      ensures player.rect == WithCenter(Rect(0, 0, playerWidth, playerHeight), Center(dungeon.rooms[0]))
      ensures forall k :: 0 <= k < |enemies| ==> fresh(enemies[k])
    {
      Reset(draws, chestCounts);
      spawnRooms := GenerateDungeon(itemAt, n, kind);
    }

    /** The start of `new_dungeon`: `__init__` on a new map and a new player, keeping the level and the score. */
    method Reset(draws: seq<RoomDraw>, chestCounts: seq<nat>)
      requires level >= 1
      requires |draws| == MAX_ROOMS && |chestCounts| == MAX_ROOMS
      requires forall k :: 0 <= k < MAX_ROOMS ==> ValidDraw(draws[k]) && chestCounts[k] <= 2
      modifies this
      ensures Valid() && Initial() && level == old(level) && score == old(score)
      ensures fresh(dungeon) && fresh(player) && dungeon.Generated() && dungeon.rooms == AcceptRooms([], Candidates(draws))
    {
      var keptLevel, keptScore := level, score;
      var m := new Map(draws, chestCounts);
      var p := new Player(WithCenter(Rect(0, 0, playerWidth, playerHeight), SCREEN_CENTRE));
      Restart(m, p, keptLevel, keptScore);
    }

    /**
     * `update_score`: the clock advances by the frame's time; the minute
     * bonus is added once when a new minute has begun, however many minutes
     * the frame spans; every dead enemy still in the group scores.
     */
    method UpdateScore(frameTime: nat)
      requires Valid()
      modifies this`elapsedTime, this`lastMin, this`score
      ensures Valid()
      ensures elapsedTime == old(elapsedTime) + frameTime
      ensures var bonus := if elapsedTime / MINUTE_MS > old(lastMin) then MINUTE_POINTS else 0;
        score == old(score) + bonus + ELIM_POINTS * Fallen(enemies)
    {
      var bonus := AdvanceClock(frameTime);
      var points := EliminationPoints(enemies);
      score := score + bonus + points;
    }

    /** The clock part of `update_score`: `bonus` is the minute bonus the frame earns. */
    method AdvanceClock(frameTime: nat) returns (bonus: int)
      requires ClockValid()
      modifies this`elapsedTime, this`lastMin
      ensures ClockValid() && elapsedTime == old(elapsedTime) + frameTime
      ensures bonus == if elapsedTime / MINUTE_MS > old(lastMin) then MINUTE_POINTS else 0
    {
      elapsedTime := elapsedTime + frameTime;
      var currentMin := elapsedTime / MINUTE_MS;
      bonus := 0;
      if currentMin > lastMin {
        bonus := MINUTE_POINTS;
        lastMin := currentMin;
      }
    }

    /** The kill step of `Enemy.update` for every enemy: the dead ones leave the group. */
    method RemoveFallen()
      requires Valid()
      modifies this`enemies, this`slot
      ensures Valid() && enemies == Living(old(enemies))
    {
      DropFallen();
    }

    /** The dead enemies leave the group, which stays numbered. */
    method DropFallen()
      requires EnemiesValid()
      modifies this`enemies, this`slot
      ensures EnemiesValid() && enemies == Living(old(enemies))
    {
      enemies, slot := KeepLiving(enemies, slot);
    }

    /** Room and chest draws within the ranges `Map.create_rooms` and `Map.add_room` draw from. */
    static predicate MapDraws(draws: seq<RoomDraw>, chestCounts: seq<nat>) {
      && |draws| == MAX_ROOMS && |chestCounts| == MAX_ROOMS
      && forall k :: 0 <= k < MAX_ROOMS ==> ValidDraw(draws[k]) && chestCounts[k] <= 2
    }

    /**
     * The wave of level `l` can be spawned: on every fifth level the new map
     * has `n` rooms besides the first; on any other this map has `n` rooms
     * free of the player.
     */
    ghost predicate WaveReady(l: int, draws: seq<RoomDraw>, n: nat, kind: EnemyKind)
      requires forall k :: 0 <= k < |draws| ==> ValidDraw(draws[k])
      reads this`dungeon, this`player, dungeon, player
    {
      && SpawnOk(l, n, kind)
      && if l % 5 == 0 then n + 1 <= |AcceptRooms([], Candidates(draws))|
         else EnoughRooms(dungeon.rooms, Center(player.rect), n)
    }

    /**
     * `update`: the score is updated; when every enemy is gone the level
     * goes up and brings a new dungeon (every fifth level) or a new wave;
     * then `Enemy.update` takes the dead enemies out of the group. An enemy
     * killed this frame is scored once, here, and is gone by the next frame.
     */
    method Update(frameTime: nat, draws: seq<RoomDraw>, chestCounts: seq<nat>, itemAt: Cell -> Item, n: nat, kind: EnemyKind)
      returns (ghost spawnRooms: seq<Rect>)
      requires Valid() && MapDraws(draws, chestCounts)
      requires enemies == [] ==> WaveReady(level + 1, draws, n, kind)
      modifies this
      ensures Valid()
      ensures var bonus := if (old(elapsedTime) + frameTime) / MINUTE_MS > old(lastMin) then MINUTE_POINTS else 0;
        score == old(score) + bonus + ELIM_POINTS * Fallen(old(enemies))
      ensures old(enemies) != [] ==>
        && level == old(level) && enemies == Living(old(enemies)) && Groups() == old(Groups())
        && dungeon == old(dungeon) && player == old(player) && elapsedTime == old(elapsedTime) + frameTime
      ensures old(enemies) == [] ==> level == old(level) + 1
      ensures old(enemies) == [] && level % 5 == 0 ==>
        && Built(itemAt, n, kind, spawnRooms) && fresh(dungeon) && fresh(player)
        && dungeon.Generated() && dungeon.rooms == AcceptRooms([], Candidates(draws)) && elapsedTime == 0
        && playerBullets == [] && enemyBullets == [] && StartingKit(player)
      ensures old(enemies) == [] && level % 5 != 0 ==>
        && dungeon == old(dungeon) && player == old(player)
        && Groups() == old(Groups()) && elapsedTime == old(elapsedTime) + frameTime
        && SpawnedIn([], enemies, dungeon.rooms, Center(player.rect), spawnRooms, n, kind, enemyWidth(kind), enemyHeight(kind))
    {
      UpdateScore(frameTime);
      spawnRooms := Advance(draws, chestCounts, itemAt, n, kind);
    }

    /**
     * The rest of `update` once the score is updated: the level advance,
     * then `Enemy.update`. A new wave is all alive, so `Enemy.update` keeps
     * every enemy of it and only a group that was there already loses any.
     */
    method Advance(draws: seq<RoomDraw>, chestCounts: seq<nat>, itemAt: Cell -> Item, n: nat, kind: EnemyKind)
      returns (ghost spawnRooms: seq<Rect>)
      requires Valid() && MapDraws(draws, chestCounts)
      requires enemies == [] ==> WaveReady(level + 1, draws, n, kind)
      modifies this
      ensures Valid() && score == old(score)
      ensures old(enemies) != [] ==>
        && level == old(level) && enemies == Living(old(enemies)) && Groups() == old(Groups())
        && dungeon == old(dungeon) && player == old(player) && elapsedTime == old(elapsedTime)
      ensures old(enemies) == [] ==> level == old(level) + 1
      ensures old(enemies) == [] && level % 5 == 0 ==>
        && Built(itemAt, n, kind, spawnRooms) && fresh(dungeon) && fresh(player)
        && dungeon.Generated() && dungeon.rooms == AcceptRooms([], Candidates(draws)) && elapsedTime == 0
        && playerBullets == [] && enemyBullets == [] && StartingKit(player)
      ensures old(enemies) == [] && level % 5 != 0 ==>
        && dungeon == old(dungeon) && player == old(player)
        && Groups() == old(Groups()) && elapsedTime == old(elapsedTime)
        && SpawnedIn([], enemies, dungeon.rooms, Center(player.rect), spawnRooms, n, kind, enemyWidth(kind), enemyHeight(kind))
    {
      if enemies == [] {
        spawnRooms := NextWave(draws, chestCounts, itemAt, n, kind);
      } else {
        spawnRooms := [];
        RemoveFallen();
      }
    }

    /**
     * The level advance of `update`, on an empty group: the level goes up;
     * every fifth level brings a new dungeon, any other a new wave on this
     * map. The enemies it brings are all alive.
     */
    method NextWave(draws: seq<RoomDraw>, chestCounts: seq<nat>, itemAt: Cell -> Item, n: nat, kind: EnemyKind)
      returns (ghost spawnRooms: seq<Rect>)
      requires Valid() && enemies == [] && MapDraws(draws, chestCounts) && WaveReady(level + 1, draws, n, kind)
      modifies this
      ensures Valid() && level == old(level) + 1 && score == old(score) && Living(enemies) == enemies
      ensures level % 5 == 0 ==>
        && Built(itemAt, n, kind, spawnRooms) && fresh(dungeon) && fresh(player)
        && dungeon.Generated() && dungeon.rooms == AcceptRooms([], Candidates(draws)) && elapsedTime == 0
        && playerBullets == [] && enemyBullets == [] && StartingKit(player)
      ensures level % 5 != 0 ==>
        && dungeon == old(dungeon) && player == old(player)
        && Groups() == old(Groups()) && elapsedTime == old(elapsedTime)
        && SpawnedIn([], enemies, dungeon.rooms, Center(player.rect), spawnRooms, n, kind, enemyWidth(kind), enemyHeight(kind))
    {
      NextLevel();
      if level % 5 == 0 {
        spawnRooms := DungeonWave(draws, chestCounts, itemAt, n, kind);
      } else {
        spawnRooms := MapWave(n, kind);
      }
    }

    /** A new dungeon and its wave, all alive. */
    method DungeonWave(draws: seq<RoomDraw>, chestCounts: seq<nat>, itemAt: Cell -> Item, n: nat, kind: EnemyKind)
      returns (ghost spawnRooms: seq<Rect>)
      requires level >= 1 && MapDraws(draws, chestCounts)
      requires SpawnOk(level, n, kind) && n + 1 <= |AcceptRooms([], Candidates(draws))|
      modifies this
      ensures Valid() && level == old(level) && score == old(score) && Living(enemies) == enemies
      ensures Built(itemAt, n, kind, spawnRooms) && fresh(dungeon) && fresh(player)
      ensures dungeon.Generated() && dungeon.rooms == AcceptRooms([], Candidates(draws)) && elapsedTime == 0
      ensures playerBullets == [] && enemyBullets == [] && StartingKit(player)
    {
      spawnRooms := NewDungeon(draws, chestCounts, itemAt, n, kind);
      WaveAlive(enemies, dungeon.rooms, Center(player.rect), spawnRooms, n, kind, enemyWidth(kind), enemyHeight(kind));
    }

    /** A new wave on this map, all alive. */
    method MapWave(n: nat, kind: EnemyKind) returns (ghost spawnRooms: seq<Rect>)
      requires Valid() && enemies == [] && SpawnOk(level, n, kind) && EnoughRooms(dungeon.rooms, Center(player.rect), n)
      modifies this`enemies, this`slot
      ensures Valid() && Living(enemies) == enemies
      ensures SpawnedIn([], enemies, dungeon.rooms, Center(player.rect), spawnRooms, n, kind, enemyWidth(kind), enemyHeight(kind))
    {
      spawnRooms := SpawnEnemies(n, kind);
      WaveAlive(enemies, dungeon.rooms, Center(player.rect), spawnRooms, n, kind, enemyWidth(kind), enemyHeight(kind));
    }

    /** The level goes up by one. */
    method NextLevel()
      requires ClockValid()
      modifies this`level
      ensures ClockValid() && level == old(level) + 1
    {
      level := level + 1;
    }

    /**
     * The player's half of `handle_collisions`: enemy bullets touching an
     * obstacle vanish (`eshots` are those left); the player opens every chest
     * it touches, then takes the damage of every enemy bullet that touches
     * it, and those bullets vanish.
     */
    method PlayerCollisions() returns (ghost eshots: seq<Bullet>)
      requires Valid()
      modifies this`enemyBullets, this`chests, player
      ensures Valid()
      ensures eshots == Clear(old(enemyBullets), obstacles)
      ensures var r := old(player.rect);
        var pack := PickupAll(old(player.Stats()), Items(Touching(old(chests), r)));
        && chests == Untouched(old(chests), r)
        && enemyBullets == Missing(eshots, r)
        && player.rect == r
        && player.Stats() == pack.(health := Max(0, pack.health - Damage(Hitting(eshots, r))))
      ensures player.equipped == old(player.equipped) && |player.inventory| >= |old(player.inventory)|
      ensures player.inventory[..|old(player.inventory)|] == old(player.inventory)
    {
      eshots := OpenChestsAndTakeFire();
    }

    /** The player's part of `handle_collisions`; `eshots` are the enemy bullets clear of the obstacles. */
    method OpenChestsAndTakeFire() returns (eshots: seq<Bullet>)
      requires player.Valid()
      modifies this`enemyBullets, this`chests, player
      ensures player.Valid()
      ensures eshots == Clear(old(enemyBullets), obstacles)
      ensures var r := old(player.rect);
        var pack := PickupAll(old(player.Stats()), Items(Touching(old(chests), r)));
        && chests == Untouched(old(chests), r)
        && enemyBullets == Missing(eshots, r)
        && player.rect == r
        && player.Stats() == pack.(health := Max(0, pack.health - Damage(Hitting(eshots, r))))
      ensures player.equipped == old(player.equipped) && |player.inventory| >= |old(player.inventory)|
      ensures player.inventory[..|old(player.inventory)|] == old(player.inventory)
    {
      var r := player.rect;
      eshots := Clear(enemyBullets, obstacles);
      var touched, hits := Touching(chests, r), Hitting(eshots, r);
      chests, enemyBullets := Untouched(chests, r), Missing(eshots, r);
      PickUpChests(player, touched);
      DamagePlayer(player, hits);
    }

    /**
     * The enemies' half of `handle_collisions`: player bullets touching an
     * obstacle vanish (`shots` are those left); each of those damages the
     * first enemy, in group order, that it touches, and vanishes. `rects`
     * are the enemies' rectangles, which do not change.
     */
    method EnemyCollisions() returns (ghost rects: seq<Rect>, ghost shots: seq<Bullet>)
      requires Valid()
      modifies this`playerBullets, enemies`health
      ensures Valid()
      ensures |rects| == |enemies| && forall k :: 0 <= k < |enemies| ==> rects[k] == old(enemies[k].rect)
      ensures shots == Clear(old(playerBullets), obstacles)
      ensures playerBullets == Remaining(rects, shots, |rects|)
      ensures forall k :: 0 <= k < |enemies| ==>
        enemies[k].rect == rects[k] && enemies[k].health == Max(0, old(enemies[k].health) - DamageTaken(rects, shots)[k])
    {
      rects, shots := ShootEnemies();
    }

    /** The enemies' part of `handle_collisions`; `shots` are the player bullets clear of the obstacles. */
    method ShootEnemies() returns (rects: seq<Rect>, shots: seq<Bullet>)
      requires EnemiesValid()
      modifies this`playerBullets, enemies`health
      ensures EnemiesValid()
      ensures |rects| == |enemies| && forall k :: 0 <= k < |enemies| ==> rects[k] == old(enemies[k].rect)
      ensures shots == Clear(old(playerBullets), obstacles)
      ensures playerBullets == Remaining(rects, shots, |rects|)
      ensures forall k :: 0 <= k < |enemies| ==>
        enemies[k].rect == rects[k] && enemies[k].health == Max(0, old(enemies[k].health) - DamageTaken(rects, shots)[k])
    {
      shots := Clear(playerBullets, obstacles);
      rects := RectsOf(enemies);
      playerBullets := Remaining(rects, shots, |rects|);
      DamageEnemies(enemies, slot, rects, shots);
    }

    /**
     * `camera_scroll`: the player goes back to the screen centre and the
     * map, the tiles, the chests, the bullets and the enemies all move by
     * the player's offset `off` from it, so nothing moves relative to the
     * player.
     */
    method CameraScroll() returns (off: Point)
      requires Valid()
      modifies player`rect, dungeon, enemies`rect, this`floors, this`obstacles, this`chests, this`playerBullets, this`enemyBullets
      ensures Valid() && Center(player.rect) == SCREEN_CENTRE
      ensures off == Minus(old(Center(player.rect)), SCREEN_CENTRE)
      ensures player.rect == WithCenter(old(player.rect), SCREEN_CENTRE)
      ensures floors == ShiftRects(old(floors), off) && obstacles == ShiftRects(old(obstacles), off)
      ensures chests == ShiftChests(old(chests), off)
      ensures playerBullets == ShiftBullets(old(playerBullets), off) && enemyBullets == ShiftBullets(old(enemyBullets), off)
      ensures dungeon.grid == old(dungeon.grid) && dungeon.graph == Translate(old(dungeon.graph), off)
      ensures |dungeon.rooms| == old(|dungeon.rooms|)
      ensures forall k :: 0 <= k < |dungeon.rooms| ==> dungeon.rooms[k] == Shifted(old(dungeon.rooms[k]), off)
      ensures forall k :: 0 <= k < |enemies| ==> enemies[k].rect == Shifted(old(enemies[k].rect), off) && enemies[k].health == old(enemies[k].health)
    {
      off := ScrollAll();
    }

    /** The steps of `camera_scroll`, keeping the map and the player sound and the enemies numbered. */
    method ScrollAll() returns (off: Point)
      requires WorldValid() && Numbered(enemies, slot)
      modifies player`rect, dungeon, enemies`rect, this`floors, this`obstacles, this`chests, this`playerBullets, this`enemyBullets
      ensures WorldValid() && Center(player.rect) == SCREEN_CENTRE
      ensures off == Minus(old(Center(player.rect)), SCREEN_CENTRE)
      ensures player.rect == WithCenter(old(player.rect), SCREEN_CENTRE)
      ensures floors == ShiftRects(old(floors), off) && obstacles == ShiftRects(old(obstacles), off)
      ensures chests == ShiftChests(old(chests), off)
      ensures playerBullets == ShiftBullets(old(playerBullets), off) && enemyBullets == ShiftBullets(old(enemyBullets), off)
      ensures dungeon.grid == old(dungeon.grid) && dungeon.graph == Translate(old(dungeon.graph), off)
      ensures |dungeon.rooms| == old(|dungeon.rooms|)
      ensures forall k :: 0 <= k < |dungeon.rooms| ==> dungeon.rooms[k] == Shifted(old(dungeon.rooms[k]), off)
      ensures forall k :: 0 <= k < |enemies| ==> enemies[k].rect == Shifted(old(enemies[k].rect), off) && enemies[k].health == old(enemies[k].health)
    {
      off := Minus(Center(player.rect), SCREEN_CENTRE);
      ShiftEnemies(enemies, slot, off);
      ScrollWorld(off);
    }

    /** `camera_scroll` for everything but the enemies, by the offset `off`. */
    method ScrollWorld(off: Point)
      requires WorldValid()
      modifies player`rect, dungeon, this`floors, this`obstacles, this`chests, this`playerBullets, this`enemyBullets
      ensures WorldValid() && Center(player.rect) == SCREEN_CENTRE
      ensures player.rect == WithCenter(old(player.rect), SCREEN_CENTRE)
      ensures floors == ShiftRects(old(floors), off) && obstacles == ShiftRects(old(obstacles), off)
      ensures chests == ShiftChests(old(chests), off)
      ensures playerBullets == ShiftBullets(old(playerBullets), off) && enemyBullets == ShiftBullets(old(enemyBullets), off)
      ensures dungeon.grid == old(dungeon.grid) && dungeon.graph == Translate(old(dungeon.graph), off)
      ensures |dungeon.rooms| == old(|dungeon.rooms|)
      ensures forall k :: 0 <= k < |dungeon.rooms| ==> dungeon.rooms[k] == Shifted(old(dungeon.rooms[k]), off)
    {
      player.rect := WithCenter(player.rect, SCREEN_CENTRE);
      ShiftedFloorsInGraph(floors, dungeon.graph, off);
      dungeon.Shift(off);
      ShiftSprites(off);
    }

    /** The tiles, the chests and the bullets move against the camera offset. */
    method ShiftSprites(off: Point)
      modifies this`floors, this`obstacles, this`chests, this`playerBullets, this`enemyBullets
      ensures floors == ShiftRects(old(floors), off) && obstacles == ShiftRects(old(obstacles), off)
      ensures chests == ShiftChests(old(chests), off)
      ensures playerBullets == ShiftBullets(old(playerBullets), off) && enemyBullets == ShiftBullets(old(enemyBullets), off)
    {
      floors, obstacles := ShiftRects(floors, off), ShiftRects(obstacles, off);
      chests := ShiftChests(chests, off);
      playerBullets, enemyBullets := ShiftBullets(playerBullets, off), ShiftBullets(enemyBullets, off);
    }
  }
}
