# Dungeon Destruction, modelled in Dafny

A model of the integer core of *Dungeon Destruction*, a top-down pygame
shooter. The model covers four parts:

- **The dungeon generator** (`Map`): an all-wall array of 40 rows by 60
  cells. Non-overlapping candidate rooms are carved into it, each with 0–2
  chests, and each new room is joined to the previous one by an L-shaped
  tunnel. A walk graph is then built over the open cells. The headline
  result is that the array's open cells form one 4-connected region, so
  the graph built from them is closed, symmetric, loop-free and connected.
  The graph is also moved with the camera every frame.
- **The enemies' path search** (`Enemy.calculate_path`): a heap-driven
  best-first search with a Manhattan heuristic. A returned path is a valid
  path from start to goal with no repeated node. `None` comes back only
  when the goal cannot be reached.
- **The weapon and player state machines** (`Weapon` and its four kinds,
  `Player`, `Enemy`):
  - magazine, reserve, fire rate and the shotgun's three pellets;
  - a reload split into a start step and a completion step;
  - axis-separated collision, item pick-up caps and damage clamps.
- **The game loop and the accounts:**
  - the frame bookkeeping of `Game`: score, level advance with a new
    dungeon every fifth level, spawning in distinct free rooms, the
    collision pass and the camera scroll;
  - the account rules of `UserData`: password strength, unique user names,
    signing in, the keep-the-best high-score rule and the ordered top-ten
    leaderboard.

Modules, one per file:

| file | module | models |
|---|---|---|
| settings.dfy | `Settings` | the constants of settings.py |
| geometry.dfy | `Geometry` | pygame's integer `Rect`: strict `colliderect`, half-open `collidepoint`, `center` |
| graphs.dfy | `Graphs` | adjacency dictionaries, paths, reachability, translation of a whole graph |
| dungeon.dfy | `Dungeon` | the map array, room draws, walks and the connectivity lemmas |
| dungeon_graph.dfy | `DungeonGraph` | the graph `create_graph` builds; `shift`'s in-place re-keying as written |
| map.dfy | `DungeonMap` | class `Map` with `generate`, `add_room`, the tunnels, `create_graph` and the corrected `shift` |
| pathfinding.dfy | `Pathfinding` | `calculate_path` |
| combat.dfy | `Combat` | classes `Weapon`, `Player` and `Enemy` |
| collisions.dfy | `Collisions` | the sprite groups of a frame and what each collision pass removes and deals |
| game.dfy | `GameLoop` | class `Game` |
| accounts.dfy | `Accounts` | class `UserData` over two tables held as sequences of rows |
| options.dfy | `Options` | `Option` |

Modelling choices:

- **Randomness becomes inputs.** The room draws, the chest counts, the items
  in chests and the enemy count and kind are parameters. The two
  rejection loops become a choice among the values they accept: the one
  over chest cells and the one over spawn rooms.
- **Times are whole milliseconds.** The current time is a parameter.
- **Fire rates and reload times are milliseconds.** The source writes them
  in seconds (`0.2`, `1.75`, …) and compares them with `time.time()`.
- **Enemies have no reserve.** An enemy's weapon has no holder (`user ==
  null`), which stands for the enemy's unbounded reserve (`math.inf`).
- **Graph nodes are integer pixel points.** They lie at `90·c + 45`, which
  equals the source's `(c + 0.5) * 90`.

## Model

| member | source | states |
|---|---|---|
| Dungeon.GenerateRoom | gameobjects.py:324-332 | every drawable room is tile-aligned, 3 to 9 tiles per side, and lies within columns 1..MAP_WIDTH-3 and rows 1..MAP_HEIGHT-3, so the outer ring stays wall |
| Dungeon.RoomLinked | gameobjects.py:341-347 | once a room is carved, every cell of it is 4-connected to its centre cell |
| Dungeon.RowRunLinked | gameobjects.py:368-373 | the cells of an open horizontal run are 4-connected to each other |
| Dungeon.ColumnRunLinked | gameobjects.py:375-380 | the cells of an open vertical run are 4-connected to each other |
| Dungeon.TunnelInterior | gameobjects.py:361-380 | every tunnel cell between two rooms lies inside the wall ring |
| Dungeon.TunnelLinked | gameobjects.py:361-366 | once a tunnel is carved, every cell of it is connected to the second room's centre |
| DungeonMap.AcceptRoomsFirst | gameobjects.py:311-318 | the first candidate is always accepted, so `rooms[0]` exists for the closing tunnel |
| DungeonMap.AcceptRoomsDisjoint | gameobjects.py:311-317 | accepted rooms never overlap (sharing an edge is allowed) |
| DungeonMap.AcceptRoomsFrom | gameobjects.py:311-317 | every accepted room is one of the candidates |
| DungeonMap.FirstRoomLinked | gameobjects.py:313-315 | the first room carved makes every open cell connected to its centre |
| DungeonMap.RoomAndTunnelLinked | gameobjects.py:313-317 | a room followed by its tunnel to the previous room keeps every open cell connected to the first room's centre |
| DungeonMap.TunnelKeepsLinked | gameobjects.py:318 | the closing tunnel from the first to the last room keeps the open cells connected |
| DungeonMap.RoomKeepsInterior | gameobjects.py:341-347 | carving a room never opens a cell of the outer ring |
| DungeonMap.TunnelKeepsInterior | gameobjects.py:361-380 | carving a tunnel never opens a cell of the outer ring |
| DungeonMap.Map.constructor | gameobjects.py:300-306 | a new map is generated: rooms as accepted from the candidates, and the graph sound |
| DungeonMap.Map.Generate | gameobjects.py:308-321 | the rooms are the candidates that overlap no earlier room, in order. They are open and inside the wall ring, every open cell is 4-connected to the first room's centre, and the graph is the one built from the array |
| DungeonMap.Map.OfferRoom | gameobjects.py:312-317 | a candidate is appended iff it overlaps no accepted room; connectivity and the wall ring are kept |
| DungeonMap.Map.IsValidRoom | gameobjects.py:334-339 | true iff the room overlaps none of the accepted rooms |
| DungeonMap.Map.AddRoom | gameobjects.py:341-359 | the room's cells become open and nothing else changes. Exactly `numChests` distinct cells of the room become chests and the rest floor, and the room is appended |
| DungeonMap.Map.CarveRoom | gameobjects.py:341-347 | every cell of the room becomes floor and every other cell is unchanged |
| DungeonMap.Map.PlaceChests | gameobjects.py:350-359 | `numChests` distinct floor cells of the room become chests and every other cell is unchanged |
| DungeonMap.Map.AddTunnel | gameobjects.py:361-366 | exactly the tunnel cells become floor, chests on them included, and every other cell is unchanged |
| DungeonMap.Map.AddHorizontalTunnel | gameobjects.py:368-373 | exactly the inclusive run on the row, between both columns, becomes floor |
| DungeonMap.Map.AddVerticalTunnel | gameobjects.py:375-380 | exactly the inclusive run on the column, between both rows, becomes floor |
| DungeonMap.Map.CreateGraph | gameobjects.py:382-397 | the graph has one key per open cell, and each key lists that cell's open 4-neighbours in the order down, up, right, left |
| DungeonMap.Map.NeighbourList | gameobjects.py:388-397 | the neighbour list of one cell is its in-bounds open 4-neighbours, in direction order |
| DungeonMap.Map.Shift | gameobjects.py:399-409 | the corrected shift of "## Findings": every room and every graph key and neighbour moves by minus the offset, whatever the offset. The array is unchanged and the graph stays sound |
| DungeonMap.Map.TranslatedGraph | gameobjects.py:403-409 | re-keying every entry into a fresh dictionary yields the translated graph, whatever the key order |
| DungeonGraph.NeighboursExact | gameobjects.py:388-397 | a point is listed as a neighbour iff it is the centre of an open cell 4-adjacent to the cell |
| DungeonGraph.GraphOfSymmetric | gameobjects.py:382-397 | the built graph is closed, symmetric and has no self-loops |
| DungeonGraph.GraphOfConnected | gameobjects.py:382-397 | when the open cells are 4-connected, every node of the built graph reaches every other |
| DungeonGraph.GraphOfSound | gameobjects.py:382-397 | the graph of a connected array is closed, symmetric, loop-free and connected |
| DungeonGraph.ShiftInPlaceTranslates | gameobjects.py:403-409 | the in-place loop does translate the graph when no moved key lands on a key still waiting |
| DungeonGraph.SmallOffsetNoHit | gameobjects.py:403-409 | for keys that lie whole tiles apart, as a built graph's keys do after any number of scrolls, an offset under a tile in both directions never lands a moved key on another key |
| DungeonGraph.ShiftInPlaceLosesNode | gameobjects.py:403-409 | a one-tile offset makes the in-place loop lose a node that the translation keeps |
| Graphs.TranslateKey | gameobjects.py:404-409 | a point is a key of the moved graph iff the point plus the offset is a key of the original, and its list is the original's list moved |
| Graphs.TranslatePath | gameobjects.py:404-409 | a path moved by the offset is a path of the moved graph |
| Graphs.TranslateSound | gameobjects.py:399-409 | moving a sound graph keeps it closed, symmetric, loop-free and connected |
| Pathfinding.Heuristic | gameobjects.py:484-488 | the heuristic is zero exactly at the goal |
| Pathfinding.MinEntry | gameobjects.py:508 | `heappop` takes an entry of least f-score |
| Pathfinding.PushesNodes | gameobjects.py:514-523 | the pushed entries are for exactly the neighbours not yet visited, each carrying the path to the popped node |
| Pathfinding.PushesOk | gameobjects.py:514-523 | every pushed entry's path is a valid path from the start, and no pushed entry is for a visited node |
| Pathfinding.PushedHeap | gameobjects.py:514-523 | after the pushes the heap is valid, keeps all its earlier nodes, holds every unvisited neighbour, and has no more stale entries than before |
| Pathfinding.PushNeighbours | gameobjects.py:514-523 | the heap after the loop is the old heap followed by one entry per neighbour not yet visited, in list order, with cost one more than the popped node's; hence the facts of PushedHeap |
| Pathfinding.Search | gameobjects.py:502-525 | a returned path starts at the start, ends at the goal and follows graph edges. It repeats no node when the graph has no self-loops, and it is `[start]` when start is the goal. `None` means the goal is unreachable |
| Pathfinding.LocateTiles | gameobjects.py:490-500 | both tiles are found iff both points stand on floor, and each is the centre of a floor tile holding its point |
| Pathfinding.CalculatePath | gameobjects.py:483-525 | a returned path runs through the graph from the centre of the enemy's tile to the centre of the target's tile. `None` means those centres are not connected |
| Combat.ShotsFired | gameobjects.py:217-228 | a trigger pull fires nothing iff the magazine is empty or the fire rate has not elapsed. Otherwise a plain weapon fires one bullet and a shotgun `min(3, ammo)`, never more than the magazine holds |
| Combat.Volley | gameobjects.py:220-226 | the bullets of a pull are as many as fired, each with the weapon's damage |
| Combat.Weapon.constructor | gameobjects.py:153-166 | a new weapon has a full magazine, is not reloading and has fired nothing |
| Combat.Weapon.Fire | gameobjects.py:168-177 | the magazine drops by exactly the bullets fired and they are recorded. `last_fired` moves to now iff something was fired |
| Combat.Weapon.Reload | gameobjects.py:182-188 | a reload starts unless the magazine is full, the holder's reserve is empty or a reload is under way |
| Combat.Weapon.FinishReload | gameobjects.py:190-197 | the magazine becomes `min(size, ammo + reserve)`, magazine plus reserve is unchanged, and the weapon stops reloading. The holder's position, health, inventory and equipped weapon are unchanged |
| Combat.Player.constructor | gameobjects.py:11-27 | a new player has full health, 50 reserve rounds and only a pistol, equipped |
| Combat.Player.InInventory | gameobjects.py:141-146 | true iff some held weapon is of the kind |
| Combat.Player.CheckCollision | gameobjects.py:68-75 | each axis of the move is zeroed iff some obstacle overlaps the player moved along that axis alone |
| Combat.Player.Shoot | gameobjects.py:113-123 | nothing while reloading. A loaded weapon fires `ShotsFired` rounds and records the time iff it fired; an empty one starts a reload iff the player has reserve rounds, and its firing time is kept |
| Combat.Player.TakeDamage | gameobjects.py:148-149 | health drops by the damage but not below zero |
| Combat.Player.HandleItem | gameobjects.py:125-139 | health is capped at the maximum and ammunition added uncapped. A rifle or shotgun joins only when there is room and none of its kind is held, with a full magazine |
| Combat.PickupAllSummary | gameobjects.py:125-139 | over any run of items, health ends at the capped total and the reserve grows by the ammunition picked up. The weapon kinds only grow, stay distinct and never exceed the inventory size |
| Combat.Player.Equip | gameobjects.py:105-111 | an inventory key equips that slot unless a reload is under way or the slot is empty |
| Combat.Enemy.constructor | gameobjects.py:415-439 | a new enemy has 40 health and its kind's weapon, damage, fire rate and range, with a full magazine |
| Combat.Enemy.TakeDamage | gameobjects.py:557-561 | health drops by the damage but not below zero. The enemy is still alive iff its health exceeded the damage |
| Combat.Enemy.Shoot | gameobjects.py:533-548 | nothing while reloading; an empty magazine starts a reload and keeps its firing time; otherwise the weapon fires `ShotsFired` rounds without reloading and records the time iff it fired |
| Combat.Enemy.Engage | gameobjects.py:466-468 | out of range, or while reloading, the weapon is unchanged. In range, an empty magazine starts a reload, and a loaded weapon fires `ShotsFired` rounds and records the time iff it fired |
| Collisions.ClearMembers | main.py:220-221 | a bullet survives the obstacle pass iff it touches no obstacle |
| Collisions.TouchingMembers | main.py:224 | the chests opened are exactly those on the map touching the player |
| Collisions.UntouchedMembers | main.py:224 | the chests left are exactly those not touching the player |
| Collisions.HittingMembers | main.py:229 | the enemy bullets that hit the player are exactly those touching the player |
| Collisions.MissingMembers | main.py:229 | the enemy bullets that stay are exactly those not touching the player |
| Collisions.DamageSplit | main.py:229-231 | the damage of the bullets that hit plus that of the bullets that miss is the damage of them all |
| Collisions.RemainingMembers | main.py:234 | a player bullet stays iff it touches none of the enemies |
| Collisions.ClaimedMembers | main.py:234-237 | an enemy takes exactly the bullets that touch it and no earlier enemy, so each bullet damages at most one enemy |
| Collisions.DamageConserved | main.py:234-237 | damage dealt to the enemies plus damage of the bullets left equals damage of the bullets fired |
| GameLoop.TiledFloorsInGraph | main.py:183-191 | the floor tiles built from the map are exactly the graph's nodes |
| GameLoop.ScanRow | main.py:184-191 | one row of the scan yields a wall tile per wall cell, a floor tile per open cell and a chest per chest cell |
| GameLoop.ScanTiles | main.py:183-191 | the scan yields the tiles of the whole map and nothing else |
| GameLoop.EliminationPoints | main.py:291-293 | the elimination points are `ELIM_POINTS` for every dead enemy still in the group |
| GameLoop.LivingMembers | gameobjects.py:458-462 | an enemy stays in the group iff it was in it and is alive |
| GameLoop.LivingCount | gameobjects.py:458-462 | every enemy is either scored as fallen or kept alive |
| GameLoop.LivingAllAlive | gameobjects.py:458-462 | a group whose enemies are all alive keeps them all |
| GameLoop.KeepLiving | gameobjects.py:458-462 | the group after `Enemy.update` is the living enemies in order, each once |
| GameLoop.SpawnedAlive | main.py:317-322 | every enemy a wave adds is alive |
| GameLoop.WaveAlive | main.py:267-278 | a wave spawned into an empty group survives the frame's `Enemy.update` |
| GameLoop.FreeRoom | main.py:312-313 | with fewer rooms taken than rooms, a free room exists, so the rejection loop can end |
| GameLoop.PickRooms | main.py:310-316 | given enough free rooms, the spawn rooms are map rooms, pairwise distinct and none holding the player |
| GameLoop.FirstFree | main.py:313-316 | the rejection loop over a run of room draws: the first draw not occupied, with every earlier draw occupied, or none iff every draw is occupied |
| GameLoop.AcceptCopies | gameobjects.py:311-317 | once a room is accepted, further copies of it are all rejected |
| GameLoop.SpawnLoopStuck | main.py:310-316 | twenty identical room draws give a one-room map holding the player's position, on which every draw of the first-level spawn loop is occupied, so the loop never ends |
| GameLoop.MakeEnemies | main.py:317-321 | one new enemy of the kind per room, with full health, its top-left corner on the room's centre |
| GameLoop.PickUpChests | main.py:225-226 | the player's health, reserve and weapons become those after picking up every opened chest's item in order; the position, the equipped weapon and the weapons already held stay |
| GameLoop.DamagePlayer | main.py:230-231 | the player's health becomes `max(0, h - total damage)` of the bullets that hit |
| GameLoop.DamageEnemy | main.py:236-237 | an enemy's health becomes `max(0, h - total damage)` of the bullets it took |
| GameLoop.DamageEnemies | main.py:235-237 | each enemy loses the damage of the bullets it claimed, clamped at zero, and keeps its place |
| GameLoop.ScrollKeepsOffset | main.py:204-216 | after the scroll every sprite keeps its offset from the player |
| GameLoop.ShiftedFloorsInGraph | main.py:210-216 | moving the floor tiles with the graph keeps every floor centre a node |
| GameLoop.Game.constructor | main.py:130-165 | a new game is on level 1 with no score and empty groups, on a generated map, with a new player at the screen centre carrying the starting kit: full health, 50 reserve rounds and only a loaded pistol, equipped |
| GameLoop.Game.Restart | main.py:130-165 | every group empties and the clock restarts; the level and the score are set, and the given map and new player are installed |
| GameLoop.Game.OccupiedRoom | main.py:304-309 | the first room holding the player's centre, or none when no room holds it |
| GameLoop.Game.SpawnEnemies | main.py:295-322 | `n` new enemies of the kind are appended, one per distinct free room |
| GameLoop.Game.GenerateDungeon | main.py:180-192 | the player's rectangle, its size kept, is centred on the first room and the tiles of the whole map are built. A wave is spawned outside the first room; the bullets, the clock, the level and the score are kept |
| GameLoop.Game.NewDungeon | main.py:324-329 | a new map and a new player are built, the level and the score are kept, and the new dungeon is generated: the bullet groups are empty, the clock is zero, and the player carries only the starting kit (the weapons picked up are lost), centred on the first room |
| GameLoop.Game.Reset | main.py:324-328 | the game starts over on a new map with empty groups and a new player carrying the starting kit at the screen centre, keeping the level and the score |
| GameLoop.Game.UpdateScore | main.py:282-293 | the clock advances by the frame and a minute bonus is added once iff a new minute began. Each dead enemy in the group scores |
| GameLoop.Game.AdvanceClock | main.py:284-288 | the bonus is `MINUTE_POINTS` iff the new minute is past the last one scored |
| GameLoop.Game.RemoveFallen | gameobjects.py:458-462 | the kill step of `Enemy.update`: the dead enemies leave the group, the living stay in order |
| GameLoop.Game.Update | main.py:258-280 | over a whole frame, the score grows by the minute bonus and by `ELIM_POINTS` per dead enemy. The level rises by one exactly when the group was empty: a multiple of five brings a new dungeon keeping level and score, any other level a new wave, all alive, on the same map. The tile, chest and bullet groups are kept on an ordinary frame and on a new wave, where the clock advances by the frame's time; a new dungeon empties the bullet groups, restarts the clock and gives the player only the starting kit. Otherwise the dead enemies leave the group |
| GameLoop.Game.Advance | main.py:267-278 | an empty group brings the next wave, with the facts of NextWave; otherwise the dead enemies leave the group, and the map, the player, the clock and the tile, chest and bullet groups are kept |
| GameLoop.Game.NextWave | main.py:267-274 | the level rises by one. A multiple of five brings a new dungeon, with empty bullet groups, the clock at zero and a player with only the starting kit; otherwise a new wave on the same map, with the clock and the tile, chest and bullet groups kept. The new enemies are all alive |
| GameLoop.Game.DungeonWave | main.py:271-272 | a new dungeon whose wave is all alive, with empty bullet groups, the clock at zero and a player carrying only the starting kit; the level and the score are kept |
| GameLoop.Game.MapWave | main.py:273-274 | a new wave on the same map, all alive, outside the player's room |
| GameLoop.Game.NextLevel | main.py:269 | the level rises by one |
| GameLoop.Game.PlayerCollisions | main.py:218-231 | enemy bullets on obstacles vanish first. The chests the player touches are removed and their items applied in order. The player then loses the damage of the enemy bullets touching it, clamped at zero, and those bullets vanish. The player's position, equipped weapon and weapons already held stay |
| GameLoop.Game.EnemyCollisions | main.py:218-237 | player bullets on obstacles vanish first. Each remaining bullet damages the first enemy it touches and vanishes, and the enemies keep their places |
| GameLoop.Game.CameraScroll | main.py:204-216 | the player returns to the screen centre, and the map, graph, tiles, chests, bullets and enemies all move by the player's offset, the graph through the corrected shift of "## Findings" |
| Accounts.SpecialSet | accounts.py:52 | the backslash is a special character; the double quote and the space are not |
| Accounts.BackslashPassword | accounts.py:49-71 | a password whose only special character is a backslash can be strong |
| Accounts.UserData.CheckStrength | accounts.py:49-71 | true iff the password has at least 8 characters and holds a lowercase letter, an uppercase letter, a digit and a special character |
| Accounts.UserData.constructor | accounts.py:7-32 | nobody is signed in and the tables are kept |
| Accounts.UserData.CreateUser | accounts.py:34-47 | the account is created iff the name is free, with the next key and the password's digest. Otherwise nothing changes |
| Accounts.UserData.CheckLogin | accounts.py:73-87 | true iff some account has the name and the password's digest, which then becomes the user signed in. Otherwise the user signed in is unchanged |
| Accounts.FindLogin | accounts.py:76-84 | the row found has the name and the digest; none is found iff no row has both |
| Accounts.LoginAfterCreate | accounts.py:34-87 | after an account is created, its own password signs in and, the hash being one-to-one, no other does |
| Accounts.UserData.UpdateHighscore | accounts.py:89-123 | nothing when nobody is signed in; otherwise the score is recorded by the keep-the-best rule |
| Accounts.FindScore | accounts.py:100-105 | the first high-score row of the user, or none iff the user has no row |
| Accounts.RecordBest | accounts.py:107-123 | a first score is stored and a strictly greater one replaces the row. Anything else changes nothing, so a tie keeps the earlier date. Other users' rows are untouched and each user keeps at most one row |
| Accounts.FirstBest | accounts.py:114-123 | the first submission with the highest score |
| Accounts.ReplayKeepsBest | accounts.py:89-123 | over a run of scores the row ends with the highest score, dated when it was first offered |
| Accounts.JoinedMembers | accounts.py:127-131 | the join holds one entry per high-score row whose user exists |
| Accounts.TextBeforeTransitive | accounts.py:131 | text order on dates and times is transitive |
| Accounts.BeforeTransitive | accounts.py:131 | the leaderboard order (score down, then date up, then time up) is transitive |
| Accounts.InsertRanked | accounts.py:131 | inserting into a ranked list keeps it ranked |
| Accounts.RankSorts | accounts.py:131 | ranking is a permutation of the entries, in leaderboard order |
| Accounts.TopIsBest | accounts.py:127-133 | the leaderboard holds `min(10, n)` entries in order, drawn from the join. No entry left out comes before one kept |
| Accounts.UserData.GetLeaderboard | accounts.py:125-135 | the names and scores of the top ten entries of the join, best first |

## Left out

- Drawing, fonts, images, the crosshair, the heads-up display, screen transitions, pygame events and the `Application` page flow: rendering and input, not logic.
- `Player.move`, `Player.rotate`, `Enemy.move`, `Enemy.rotate`, bullet travel, aiming angles and the enemy's aim jitter: floating-point geometry (`atan2`, `sqrt`, normalised vectors).
- `Enemy.set_difficulty`: it scales health, speed, accuracy, range and damage by `1.05 ** (level - 1)`, in floating point; enemies keep their level-1 values.
- Bullets as weapon sub-groups: each weapon records what it fires as a sequence of shots, so `Player.update` collecting them and the gathering of enemy bullets at main.py:262-265 are not modelled; the game's bullet groups are fields the collision and scroll steps work on.
- The reload thread and its sleep: a reload is two atomic steps, `Reload` and `FinishReload`; the race in which `reloading` is only set once the thread runs is a concurrency effect.
- Random distributions: the probabilities of room sizes, chest counts, items, enemy counts and kinds are not modelled; the drawn values are parameters.
- GameLoop.PickRooms: the rejection loop over random rooms is a choice among the free rooms, not a loop over draws; it requires enough free rooms, where the source loops forever (see "## Findings").
- GameLoop.Game.SpawnEnemies: requires `EnoughRooms`, as GameLoop.Game.GenerateDungeon, GameLoop.Game.NewDungeon and GameLoop.Game.Update require room counts for the waves they spawn; a map with too few free rooms is the source's endless loop recorded under "## Findings", which the model does not enter.
- GameLoop.Game.CameraScroll: the graph moves through the corrected DungeonMap.Map.Shift; the source's in-place re-keying loses nodes on an offset of whole tiles (see "## Findings").
- DungeonMap.Map.PlaceChests: the rejection loop over random cells is a choice among the floor cells of the room, not a loop over draws.
- Pathfinding.Search: the path is not claimed to be shortest, because the heuristic counts pixels while a step costs one; ties between equal f-scores go to any least entry rather than to `heapq`'s comparison of node tuples.
- Pathfinding.CalculatePath: requires both points to stand on floor tiles whose centres are graph nodes (the source fails otherwise, with `start` or `goal` unbound); the caller's `len(path)` on a `None` result is not modelled.
- GameLoop.Game.PlayerCollisions: `handle_collisions` is modelled as two halves over disjoint state, the player's and the enemies'; sprite groups are sequences in group order.
- GameLoop.Game.EnemyCollisions: as above, the enemies' half; which enemy claims a bullet touching two follows group order.
- GameLoop.Game.Advance: `Enemy.update` is not run on a wave spawned in the same frame; GameLoop.WaveAlive proves its kill step would keep every enemy of such a wave.
- GameLoop.Game.Update: of `Enemy.update`, only the kill step runs in the frame (GameLoop.Game.RemoveFallen). The living enemies do not move, turn or fire: Combat.Enemy.Engage, which models the fire step, is not called, so the model's frame leaves every enemy's weapon unchanged where the source may fire. `Player.update` and its `alive` flag are not run either.
- GameLoop.Game.NewDungeon: restoring the level and the score after `__init__` is one step (`Restart` is given them); the screen transition is left out.
- GameLoop.Game.UpdateScore: the frame time from `clock.get_time()` is a parameter; `clock.tick` and `display.update` are left out.
- Accounts.UserData.constructor: no database is opened; the two SQLite tables are sequences of rows in insertion order, taken as earlier runs left them, and `AUTOINCREMENT` is the `nextId` field.
- Accounts.LoginAfterCreate: SHA-256 is an unknown function `hash`; that a wrong password fails assumes it is one-to-one.
- Accounts.UserData.UpdateHighscore: `datetime.now()` and its formatting are the `date` and `time` parameters.
- Accounts.UserData.CheckStrength: `islower`, `isupper` and `isdigit` are the ASCII ranges; Python's also accept other Unicode letters and digits.
- Accounts.UserData.GetLeaderboard: SQLite leaves the order of the join and of fully equal rows unspecified; the model ranks the join in high-score table order by a stable insertion, which is one of the orders SQLite may return.

## Findings

| source | as written | input that shows it | evidently intended | confidence | as-written member | corrected member |
|---|---|---|---|---|---|---|
| gameobjects.py:399-409 | `shift` re-keys the graph dictionary in place, so a moved key can overwrite an entry that has not been moved yet | nodes (405, 135) and (405, 225), each the other's neighbour, listed top first, with a camera offset of (0, -90): the first move overwrites the lower node's entry, the second carries it to (405, 315), and (405, 225) is missing | every key and neighbour moved by minus the offset, as for the rooms | not executed | DungeonGraph.ShiftInPlaceLosesNode | DungeonMap.Map.Shift |
| main.py:310-316 | each spawned enemy's room is redrawn until it is not occupied, and `Map.generate` does not ensure enough unoccupied rooms exist | twenty identical room draws: only the first room is accepted, the player stands in it, and the level-1 spawn of one enemy redraws that occupied room forever | spawn only while enough free rooms exist, each enemy in a distinct free room | not executed | GameLoop.SpawnLoopStuck | GameLoop.PickRooms |
