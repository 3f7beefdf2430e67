# Arena generation and grid collision of rusty-gungeon, in Dafny

This project models the discrete core of the rusty-gungeon arena shooter.
It covers the two arena generators, which build a Floor/Wall tile grid, and
the enemy code that reads that grid.

- **Cave generator** (`src/arena.rs`, module `Cave`). It starts from an
  initial Floor/Wall classification, which is the thresholded Perlin noise
  and is taken here as an input. Three cellular-automaton smoothing passes
  follow. Each pass counts Wall neighbours, with off-grid cells counting as
  Wall. A Wall cell with fewer than 4 Wall neighbours becomes Floor, and a
  Floor cell with at least 5 becomes Wall. The generator then seals the
  outer ring to Wall and clears the 3×3 block around `(width/2, height/2)`
  to Floor for the player's spawn.
- **Room generator** (`src/arena_rooms.rs`, module `Rooms`). It builds one
  centred room of size `max(dim - 6, 8)` on each axis. Everything outside
  the room and on its ring is Wall, and the interior is Floor. Obstacles of
  1–3 × 1–3 tiles are scattered, with each random choice read from an
  oracle. Finally the 3×3 block at the room centre is cleared to Floor.
- **Enemy systems** (`src/enemy.rs`, module `Enemy`). This module covers:
  - the open-interval AABB overlap test;
  - the search window around a body, and the clamped row-major scan for
    Wall tiles inside it;
  - the axis-separated X-then-Y movement step, which makes a body slide
    along a wall;
  - the spawn-cell filter and the draw of `MAX_ENEMIES_SPAWN` spawn cells.

Module `Grids` holds what these share:
- the `Tile`, `Grid`, `Rect`, `Cell` and `ArenaGrid` types;
- the single-cell write;
- the 3×3 clearing loop, parameterised by which offset the source iterates
  in its outer loop;
- the row-major enumeration of a window's cells that pass a test.

Grids are `seq<seq<Tile>>` indexed `grid[y][x]`. Every generation phase is
a pure function. World coordinates are exact `real`s. `f32::EPSILON` is
the exact real 2^-23.

Three facts about the code shape the preconditions:
- The room generator does not clamp small dimensions. Below 8,
  `width - 2 * ROOM_PADDING_TILES` or `width - room_width` underflows as an
  unsigned subtraction. So `Rooms.RoomRect` and `Rooms.Generate` require
  both dimensions to be at least 8.
- The cave generator clears only the spawn-block cells that are not on the
  grid border. Its border loops index row `height - 1` and column
  `width - 1`, so `Cave.SealBorder` requires both dimensions to be at
  least 1. In the room generator the whole centre block always lies inside
  the room (`Rooms.CentreBlockInsideRoom`).
- The wall query clamps to, and offsets by, the constants
  `ARENA_WIDTH_TILES`/`ARENA_HEIGHT_TILES` (86 × 49), not the grid's own
  dimensions. So the `Enemy` functions require an 86 × 49 grid, which is
  what `setup_arena` builds.

## Model

| member | source | states |
|---|---|---|
| Cave.CountFrom | src/arena.rs:114-132 | the running count over the remaining neighbour offsets never exceeds the number of offsets left |
| Cave.NeighbourOffsetsAreTheEightNeighbours | src/arena.rs:115-131 | the eight offsets the count walks are pairwise distinct and cover every offset of the 3×3 block except (0, 0), so each neighbour is examined exactly once |
| Cave.CountWallNeighbors | src/arena.rs:107-133 | the number of Wall-or-off-grid neighbours is at most 8; with `Cave.NeighbourOffsetsAreTheEightNeighbours` this is one count per distinct neighbour |
| Cave.CountIgnoresCentre | src/arena.rs:115-119 | the centre cell is never counted: rewriting (x, y) to any tile leaves its own count unchanged |
| Cave.CountFromCongruent | src/arena.rs:114-132 | the count depends only on the Wall-or-off-grid value of each neighbour: two points whose neighbours agree term by term have equal counts |
| Cave.NeighboursAgree | src/arena.rs:107-133 | two points, possibly on different grids, whose eight neighbours agree have the same Wall-neighbour count |
| Cave.CountAtLeastOffGrid | src/arena.rs:123-129 | every off-grid neighbour is counted whatever the grid holds, so the count is at least the number of off-grid neighbours |
| Cave.CornerCountAtLeastFive | src/arena.rs:123-129 | at corner (0, 0) the five off-grid neighbours count as Wall, so the count is at least 5 for any grid |
| Cave.CountInWallPadded | src/arena.rs:120-129 | the count at (x, y) equals the count at (x+1, y+1) of the grid actually built with an extra ring of Wall |
| Cave.OffGridCountsAsWallRing | src/arena.rs:120-129 | for any grid p that is g surrounded by a ring of Wall, the count at (x, y) of g, with off-grid-as-Wall, equals the count at (x+1, y+1) of p |
| Cave.SmoothPassRule | src/arena.rs:60-70 | in a pass an interior Wall cell with fewer than 4 Wall neighbours in the previous grid becomes Floor, an interior Floor cell with at least 5 becomes Wall, and every other interior cell keeps its tile |
| Cave.SmoothPass | src/arena.rs:57-73 | a pass keeps the grid's shape and never changes row 0, row h-1, column 0 or column w-1; each interior cell gets the rule's verdict on the previous grid |
| Cave.VisitInOrder | src/arena.rs:58-72 | visiting cells in any order, reading the previous grid and writing a clone, sets exactly the visited cells to their verdict on the previous grid |
| Cave.SmoothPassOrderIndependent | src/arena.rs:57-73 | because each pass reads the old grid and writes a clone, any visiting order of the interior cells yields the same grid as the pass |
| Cave.Smooth | src/arena.rs:56-74 | repeated passes keep the grid's shape and never change the border ring |
| Cave.SealRows | src/arena.rs:76-79 | the first loop, from column x on, makes rows 0 and h-1 Wall in exactly those columns and changes no other cell |
| Cave.SealColumns | src/arena.rs:80-83 | the second loop, from row y on, makes columns 0 and w-1 Wall in exactly those rows and changes no other cell |
| Cave.SealBorder | src/arena.rs:76-83 | after both loops the whole border ring is Wall and every cell off the border is unchanged |
| Cave.ClearSpawn | src/arena.rs:85-97 | exactly the cells of the 3×3 block around (w/2, h/2) that are off the border become Floor; nothing else changes |
| Cave.Generate | src/arena.rs:39-104 | the generated arena has `height` rows of `width` tiles and records those dimensions |
| Cave.GenerateInvariants | src/arena.rs:56-97 | in every generated cave the border ring is Wall, the off-border cells of the centre 3×3 block are Floor, and every other cell is the smoothing result |
| Grids.ClearBlock | src/arena_rooms.rs:95-108 | the 3×3 clearing loop sets Floor on exactly the block's cells strictly inside the area and leaves all other cells alone, whatever the loop order |
| Grids.ClearBlockIdempotent | src/arena.rs:87-97 | running the clearing loop a second time (the `_r` repetition) changes nothing |
| Grids.EnumerateRow | src/enemy.rs:149-157 | the inner scan yields exactly the row's cells in the column range that pass the test, left to right without repeats |
| Grids.Enumerate | src/enemy.rs:148-158 | the nested scan yields exactly the window's cells that pass the test, each once, in row-major order; an empty range yields nothing |
| Rooms.RoomRect | src/arena_rooms.rs:44-53 | each room side is max(dim - 6, 8), the room lies inside the grid, and it is centred with the odd tile of slack on the far side |
| Rooms.HollowRoom | src/arena_rooms.rs:55-71 | a cell is Floor exactly when it is strictly inside the room ring; everything outside the room and on its ring is Wall |
| Rooms.Stamp | src/arena_rooms.rs:79-87 | an obstacle makes Wall exactly those cells of its footprint that lie strictly inside the room, clipping the rest |
| Rooms.Visit | src/arena_rooms.rs:75-88 | a visit consumes a draw only at a Floor cell; a Floor cell whose draw is an obstacle gets exactly that obstacle stamped; a Wall cell or a no-obstacle draw changes nothing; the visited cell ends Wall exactly when it was Wall or drew an obstacle |
| Rooms.FloorsInRowMonotone | src/arena_rooms.rs:79-87 | a pass that only adds Wall strictly inside the room never increases the number of Floor cells in a row segment |
| Rooms.FloorsInRowsMonotone | src/arena_rooms.rs:79-87 | the same for a band of rows |
| Rooms.ScatterRow | src/arena_rooms.rs:74-89 | scanning one interior row only adds Wall strictly inside the room; with no obstacles drawn nothing changes; when every draw is an obstacle every scanned cell of the row ends Wall |
| Rooms.ScatterRows | src/arena_rooms.rs:73-90 | scanning the interior rows only adds Wall strictly inside the room; with no obstacles drawn nothing changes; when every draw is an obstacle every scanned interior cell ends Wall |
| Rooms.ScatterRowDrawsAtMost | src/arena_rooms.rs:74-89 | scanning a row consumes at most one draw per cell of the row that was Floor before the scan |
| Rooms.ScatterRowDrawsAtLeast | src/arena_rooms.rs:74-89 | scanning a row consumes at least one draw per cell of the row that is still Floor after the scan |
| Rooms.ScatterRowsDrawsAtMost | src/arena_rooms.rs:73-90 | scanning the interior rows consumes at most one draw per interior cell that was Floor before the scan |
| Rooms.ScatterRowsDrawsAtLeast | src/arena_rooms.rs:73-90 | scanning the interior rows consumes at least one draw per interior cell still Floor after the scan |
| Rooms.Scatter | src/arena_rooms.rs:73-90 | the obstacle pass writes only Wall and only strictly inside the room; with no obstacles drawn the grid is unchanged; when every draw is an obstacle the whole room interior becomes Wall |
| Rooms.ScatterDrawsOncePerFloorCell | src/arena_rooms.rs:73-90 | over the whole obstacle pass the number of draws lies between the interior Floor cells left afterwards and those present before; with no obstacles drawn it is exactly the number of interior Floor cells, one draw per Floor cell |
| Rooms.RoomCentre | src/arena_rooms.rs:92-93 | the centre is the room's middle cell on each axis, the later of the two middle cells when a side is even, and lies in any non-empty room |
| Rooms.Generate | src/arena_rooms.rs:40-122 | the generated arena has `height` rows of `width` tiles and records those dimensions |
| Rooms.CentreBlockInsideRoom | src/arena_rooms.rs:92-115 | the 3×3 block around the room centre always lies strictly inside the room, so none of the clearing writes is skipped |
| Rooms.GenerateInvariants | src/arena_rooms.rs:55-115 | in every room arena each cell outside the room or on its ring is Wall, the grid border is Wall, and the whole 3×3 block at the room centre is Floor |
| Rooms.GenerateWallOutsideRoom | src/arena_rooms.rs:55-115 | every cell outside the room or on its ring is Wall in the generated arena |
| Rooms.GenerateClearsCentreBlock | src/arena_rooms.rs:92-115 | every cell of the 3×3 block around the room centre is in bounds and Floor in the generated arena |
| Rooms.NoObstaclesGivesHollowRoom | src/arena_rooms.rs:55-115 | when the oracle never places an obstacle the result is exactly the hollow room |
| Rooms.TenByTenHollowRoom | src/arena_rooms.rs:44-71 | a 10×10 arena without obstacles has the room [1, 9) × [1, 9) and is Floor exactly on rows and columns 2..=7 |
| Enemy.CheckAabbCollision | src/enemy.rs:118-128 | for boxes of positive size the test holds exactly when the two boxes' intersection has positive length on both axes |
| Enemy.AabbSymmetric | src/enemy.rs:127 | the collision test is symmetric in its two boxes |
| Enemy.TouchingBoxesDoNotCollide | src/enemy.rs:127 | boxes that only share an edge do not collide, because the inequalities are strict |
| Enemy.UnitBoxes | src/enemy.rs:118-128 | two unit boxes sharing one edge do not collide; moved towards each other by any positive amount below 1 they do |
| Enemy.SearchWindow | src/enemy.rs:140-146 | the window's index range is the tightest whose world edges enclose the body's box grown by half a tile: floor at the low corner, ceiling at the high corner |
| Enemy.CellCentreRoundTrip | src/enemy.rs:143-154 | converting a cell's world centre back to grid indices by the query's offset, divide and floor yields the same cell |
| Enemy.SearchWindowCoversOverlaps | src/enemy.rs:140-146 | every tile whose box overlaps the body lies inside the floor/ceil search window grown by half a tile |
| Enemy.Clamp | src/enemy.rs:148-149 | the clamped index range lies on the 86×49 grid and covers exactly the window's on-grid indices |
| Enemy.WallCellsInWindow | src/enemy.rs:148-158 | the query returns exactly the Wall cells of the window that lie on the grid, each once, in row-major order |
| Enemy.NearbyWalls | src/enemy.rs:130-160 | the query's result is the world centre of each of those Wall cells, in the same order |
| Enemy.Blocked | src/enemy.rs:184-197 | the hit loop over the query's wall centres reports a hit exactly when some Wall cell of the clamped window overlaps the body |
| Enemy.BlockedOverlaps | src/enemy.rs:184-196 | a hit in the nearby-wall loop is a real overlap with some Wall tile of the grid |
| Enemy.OverlapBlocks | src/enemy.rs:184-196 | any overlap with a Wall tile of the grid is found by the nearby-wall loop |
| Enemy.BlockedIffOverlapsWall | src/enemy.rs:184-196 | the nearby-wall test blocks a position exactly when some Wall tile of the grid overlaps the body there |
| Enemy.StepAxis | src/enemy.rs:183-200 | a component is applied in full or not at all; one within epsilon of zero, or whose test finds no wall, is applied; one above epsilon is dropped exactly when the test hits |
| Enemy.MoveX | src/enemy.rs:181-200 | the X component is applied in full or not at all; above epsilon it is dropped exactly when the nearby-wall test blocks the body at (x + dx, y) |
| Enemy.MoveY | src/enemy.rs:202-222 | the Y component, from the position after X, is applied in full or not at all; above epsilon it is dropped exactly when the test blocks the body at (x, y + dy) |
| Enemy.MoveStep | src/enemy.rs:181-222 | each component is applied in full or not at all, never partially; one within epsilon of zero is applied without a test; X is decided first and Y is tested from the position X left |
| Enemy.ZeroDisplacementStays | src/enemy.rs:183-205 | a (0, 0) displacement leaves the position unchanged |
| Enemy.WallSlide | src/enemy.rs:181-222 | when the X move would overlap a Wall tile and the Y move from the unmoved X position would not, the step drops X and applies the full Y component |
| Enemy.MoveStepEndsClear | src/enemy.rs:181-222 | a body that starts clear of every Wall tile ends the step clear of every Wall tile, when each component is zero or larger than epsilon |
| Enemy.FullyBlockedStays | src/enemy.rs:181-222 | when both the X move and the Y move would overlap a Wall tile, the body stays where it started |
| Enemy.MoveXDroppedIffWall | src/enemy.rs:181-200 | an X component above epsilon is dropped exactly when the body at (x + dx, y) would overlap some Wall tile of the grid, so an applied X move never ends inside a wall |
| Enemy.MoveYDroppedIffWall | src/enemy.rs:202-222 | a Y component above epsilon is dropped exactly when the body at (x, y + dy) would overlap some Wall tile of the grid, so an applied Y move never ends inside a wall |
| Enemy.SpawnCandidates | src/enemy.rs:67-88 | the candidates are exactly the Floor cells with 2 <= x <= w-3, 2 <= y <= h-3 and squared distance to (w/2, h/2) above 25, each once, in row-major order |
| Enemy.PickFrom | src/enemy.rs:100-111 | a draw within range spawns the next enemy at the centre of the candidate it picked; when every remaining draw is in range, spawn k is at the centre of the candidate picked by draw i+k; every spawn is at some candidate's centre |
| Enemy.SpawnEnemies | src/enemy.rs:65-111 | no candidates means no enemies; otherwise at most MAX_ENEMIES_SPAWN; when every draw is in range exactly that many, enemy k at the centre of the candidate draw k picked |
| Enemy.SpawnsOnDistantFloor | src/enemy.rs:69-109 | every enemy is placed at the centre of a Floor cell two tiles in from the edges and more than five tiles from the centre |
| Enemy.CandidatesAvoidPlayerSpawn | src/enemy.rs:72-84 | no spawn candidate lies in the 3×3 block the cave generator clears for the player |

## Left out

- Perlin noise sampling and thresholding (src/arena.rs:42-54): a foreign library over f64. `Cave.Generate` takes the resulting Floor/Wall grid as its input.
- The `rand` calls are replaced by explicit parameters:
  - In the room generator, `Rooms.Oracle` gives the choice made at the k-th Floor cell visited. `random_bool` is only evaluated on Floor cells, because of the short-circuiting `&&`.
  - In `spawn_enemies`, `draw(i)` is the i-th `random_range` result.
- Rooms.Scatter: the obstacle sides lie in [1, 3] because of the `ObstacleSide` type. The 15% probability of placing an obstacle is not modelled; the oracle decides.
- Bevy plumbing: plugins, `Commands`, sprite and transform spawning, and `setup_arena` rendering. None of it computes anything the grid or the movement depends on.
- The info and warn logging. The logged count `min(MAX_ENEMIES_SPAWN, candidates)` at src/enemy.rs:112-115 is only a message.
- Enemy.MoveStepEndsClear: requires each component to be zero or larger than epsilon in magnitude. A nonzero component within epsilon of zero is applied without a collision test, so it can move the body into a wall.
- Enemy.MoveStep: world positions and displacements are exact reals. f32 rounding is not modelled, including in the floor/ceil of the search window.
- The enemy's pursuit direction, `normalize_or_zero`, and the speed × delta-time scaling (src/enemy.rs:168-180). `Enemy.MoveStep` takes the frame's displacement as given. The guard that skips a zero direction is not modelled.
- The `atan2` re-orientation after the move (src/enemy.rs:224-231): floating-point trigonometry, and it does not affect position.
- Player movement (src/player.rs): keyboard polling and normalisation with no collision.
- Window and camera setup (src/main.rs).
- Projectile movement: no projectile code is part of this model's sources.
