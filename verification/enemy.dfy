/**
 Enemy placement and movement against the cave arena: the axis-aligned
 box overlap test, the clamped window query for nearby Wall tiles, the
 axis-separated X-then-Y movement step that gives wall sliding, and the
 choice of spawn cells. World coordinates are exact reals.
 */
module Enemy {
  import opened Grids
  import Cave

  const MAX_ENEMIES_SPAWN: nat := 10

  /** The single-precision machine epsilon, 2^-23. */
  const F32_EPSILON: real := 0.00000011920928955078125

  const TILE_SIZE: real := Cave.TILE_SIZE
  const GRID_WIDTH: nat := Cave.ARENA_WIDTH_TILES
  const GRID_HEIGHT: nat := Cave.ARENA_HEIGHT_TILES

  datatype Vec2 = Vec2(x: real, y: real)

  const TileBox: Vec2 := Vec2(TILE_SIZE, TILE_SIZE)

  function Abs(r: real): real {
    if r < 0.0 then -r else r
  }

  function MinReal(a: real, b: real): real {
    if a <= b then a else b
  }

  function MaxReal(a: real, b: real): real {
    if a >= b then a else b
  }

  /** The length of the intersection of two centred intervals (negative when they are apart). */
  function OverlapLength(centre1: real, size1: real, centre2: real, size2: real): real {
    MinReal(centre1 + size1 / 2.0, centre2 + size2 / 2.0) - MaxReal(centre1 - size1 / 2.0, centre2 - size2 / 2.0)
  }

  /**
   Open-interval overlap of two centred boxes. For boxes of positive size it
   holds exactly when their intersection has positive area, so boxes that
   merely share an edge or a corner do not collide.
   */
  function CheckAabbCollision(pos1: Vec2, size1: Vec2, pos2: Vec2, size2: Vec2): (hit: bool)
    ensures (size1.x > 0.0 && size1.y > 0.0 && size2.x > 0.0 && size2.y > 0.0) ==>
      (hit <==> OverlapLength(pos1.x, size1.x, pos2.x, size2.x) > 0.0 && OverlapLength(pos1.y, size1.y, pos2.y, size2.y) > 0.0)
  {
    var min1 := Vec2(pos1.x - size1.x / 2.0, pos1.y - size1.y / 2.0);
    var max1 := Vec2(pos1.x + size1.x / 2.0, pos1.y + size1.y / 2.0);
    var min2 := Vec2(pos2.x - size2.x / 2.0, pos2.y - size2.y / 2.0);
    var max2 := Vec2(pos2.x + size2.x / 2.0, pos2.y + size2.y / 2.0);
    (min1.x < max2.x && max1.x > min2.x) && (min1.y < max2.y && max1.y > min2.y)
  }

  lemma AabbSymmetric(pos1: Vec2, size1: Vec2, pos2: Vec2, size2: Vec2)
    ensures CheckAabbCollision(pos1, size1, pos2, size2) == CheckAabbCollision(pos2, size2, pos1, size1)
  {
  }

  /** Boxes that touch along a vertical edge (box 2 directly right of box 1) do not collide. */
  lemma TouchingBoxesDoNotCollide(pos1: Vec2, size1: Vec2, pos2: Vec2, size2: Vec2)
    requires pos2.x == pos1.x + (size1.x + size2.x) / 2.0
    ensures !CheckAabbCollision(pos1, size1, pos2, size2)
  {
  }

  /** Two unit boxes sharing exactly one edge do not collide; shifted by any amount towards each other they do. */
  lemma UnitBoxes(shift: real)
    requires 0.0 < shift < 1.0
    ensures !CheckAabbCollision(Vec2(0.0, 0.0), Vec2(1.0, 1.0), Vec2(1.0, 0.0), Vec2(1.0, 1.0))
    ensures CheckAabbCollision(Vec2(0.0, 0.0), Vec2(1.0, 1.0), Vec2(1.0 - shift, 0.0), Vec2(1.0, 1.0))
  {
  }

  /** World x of the left edge of the arena (the arena is centred on the origin). */
  const ArenaOffsetX: real := -(GRID_WIDTH as real * TILE_SIZE) / 2.0
  const ArenaOffsetY: real := -(GRID_HEIGHT as real * TILE_SIZE) / 2.0

  /** The world position of the centre of grid cell `c`. */
  function CellCentre(c: Cell): Vec2 {
    Vec2(c.x as real * TILE_SIZE + ArenaOffsetX + TILE_SIZE / 2.0,
         c.y as real * TILE_SIZE + ArenaOffsetY + TILE_SIZE / 2.0)
  }

  /**
   Converting a cell centre back to grid indices the way the wall query does
   (subtract the arena offset, divide by the tile size, floor) gives the cell
   again.
   */
  lemma CellCentreRoundTrip(c: Cell)
    ensures ((CellCentre(c).x - ArenaOffsetX) / TILE_SIZE).Floor == c.x
    ensures ((CellCentre(c).y - ArenaOffsetY) / TILE_SIZE).Floor == c.y
  {
  }

  function Ceil(r: real): int {
    -((-r).Floor)
  }

  /** Inclusive grid-index bounds of a search window; they may lie partly off the grid. */
  datatype Window = Window(startX: int, endX: int, startY: int, endY: int)

  /**
   The grid-index window searched around a body at `pos` of size `size`: its
   box grown by half a tile on every side, converted to grid indices with
   floor for the low corner and ceiling for the high one.
   */
  function SearchWindow(pos: Vec2, size: Vec2): (w: Window)
    ensures ArenaOffsetX + w.startX as real * TILE_SIZE <= pos.x - size.x / 2.0 - TILE_SIZE / 2.0
                                                        < ArenaOffsetX + (w.startX + 1) as real * TILE_SIZE
    ensures ArenaOffsetX + (w.endX - 1) as real * TILE_SIZE < pos.x + size.x / 2.0 + TILE_SIZE / 2.0
                                                          <= ArenaOffsetX + w.endX as real * TILE_SIZE
    ensures ArenaOffsetY + w.startY as real * TILE_SIZE <= pos.y - size.y / 2.0 - TILE_SIZE / 2.0
                                                        < ArenaOffsetY + (w.startY + 1) as real * TILE_SIZE
    ensures ArenaOffsetY + (w.endY - 1) as real * TILE_SIZE < pos.y + size.y / 2.0 + TILE_SIZE / 2.0
                                                          <= ArenaOffsetY + w.endY as real * TILE_SIZE
  {
    var minX := pos.x - size.x / 2.0 - TILE_SIZE * 0.5;
    var maxX := pos.x + size.x / 2.0 + TILE_SIZE * 0.5;
    var minY := pos.y - size.y / 2.0 - TILE_SIZE * 0.5;
    var maxY := pos.y + size.y / 2.0 + TILE_SIZE * 0.5;
    Window(((minX - ArenaOffsetX) / TILE_SIZE).Floor, Ceil((maxX - ArenaOffsetX) / TILE_SIZE),
           ((minY - ArenaOffsetY) / TILE_SIZE).Floor, Ceil((maxY - ArenaOffsetY) / TILE_SIZE))
  }

  /** The window clamped to [0, GRID_WIDTH-1] × [0, GRID_HEIGHT-1]; every index it covers is on the grid. */
  function Clamp(w: Window): (r: Window)
    ensures 0 <= r.startX && r.endX <= GRID_WIDTH - 1 && 0 <= r.startY && r.endY <= GRID_HEIGHT - 1
    ensures forall x, y :: r.startX <= x <= r.endX && r.startY <= y <= r.endY
              <==> w.startX <= x <= w.endX && w.startY <= y <= w.endY && InBounds(GRID_WIDTH, GRID_HEIGHT, x, y)
  {
    Window(Max(w.startX, 0), Min(w.endX, GRID_WIDTH - 1), Max(w.startY, 0), Min(w.endY, GRID_HEIGHT - 1))
  }

  /** Cell `c` exists in `g` and holds a Wall. */
  predicate IsWallAt(g: Grid, c: Cell) {
    0 <= c.y < |g| && 0 <= c.x < |g[c.y]| && g[c.y][c.x] == Wall
  }

  /**
   The Wall cells of the window, scanned over the clamped index range row
   by row: exactly the window's Wall cells that lie on the grid, each once,
   in row-major order.
   */
  function WallCellsInWindow(g: Grid, w: Window): (cells: seq<Cell>)
    requires Shaped(g, GRID_WIDTH, GRID_HEIGHT)
    ensures forall c :: c in cells <==>
      w.startX <= c.x <= w.endX && w.startY <= c.y <= w.endY && InBounds(GRID_WIDTH, GRID_HEIGHT, c.x, c.y) && g[c.y][c.x] == Wall
    ensures InRowMajorOrder(cells)
  {
    var r := Clamp(w);
    Enumerate(c => IsWallAt(g, c), r.startX, r.endX, r.startY, r.endY)
  }

  /** The world centres of the Wall tiles near a body at `pos` of size `size`, in row-major order. */
  function NearbyWalls(g: Grid, pos: Vec2, size: Vec2): (walls: seq<Vec2>)
    requires Shaped(g, GRID_WIDTH, GRID_HEIGHT)
    ensures var cells := WallCellsInWindow(g, SearchWindow(pos, size));
            |walls| == |cells| && forall i :: 0 <= i < |walls| ==> walls[i] == CellCentre(cells[i])
  {
    var cells := WallCellsInWindow(g, SearchWindow(pos, size));
    seq(|cells|, i requires 0 <= i < |cells| => CellCentre(cells[i]))
  }

  /**
   Some nearby Wall tile overlaps the body: the collision loop over the
   query's world positions finds a hit and stops. A hit is exactly a Wall
   cell of the clamped search window whose tile overlaps the body.
   */
  function Blocked(g: Grid, pos: Vec2, size: Vec2): (hit: bool)
    requires Shaped(g, GRID_WIDTH, GRID_HEIGHT)
    ensures hit <==> exists c :: c in WallCellsInWindow(g, SearchWindow(pos, size)) && WallOverlapsAt(g, pos, size, c)
  {
    var walls := NearbyWalls(g, pos, size);
    exists i :: 0 <= i < |walls| && CheckAabbCollision(pos, size, walls[i], TileBox)
  }

  /** Cell `c` holds a Wall whose tile box overlaps the body at `pos` of size `size`. */
  predicate WallOverlapsAt(g: Grid, pos: Vec2, size: Vec2, c: Cell) {
    IsWallAt(g, c) && CheckAabbCollision(pos, size, CellCentre(c), TileBox)
  }

  /** Some Wall tile anywhere on the grid overlaps the body. */
  ghost predicate OverlapsWall(g: Grid, pos: Vec2, size: Vec2)
    requires Shaped(g, GRID_WIDTH, GRID_HEIGHT)
  {
    exists c: Cell :: WallOverlapsAt(g, pos, size, c)
  }

  /**
   The half-tile margin is enough: every tile whose box overlaps the body
   lies inside the search window.
   */
  lemma SearchWindowCoversOverlaps(pos: Vec2, size: Vec2, c: Cell)
    requires CheckAabbCollision(pos, size, CellCentre(c), TileBox)
    ensures var w := SearchWindow(pos, size);
            w.startX <= c.x <= w.endX && w.startY <= c.y <= w.endY
  {
    var w := SearchWindow(pos, size);
    var centre := CellCentre(c);
    var vx := (pos.x - size.x / 2.0 - TILE_SIZE * 0.5 - ArenaOffsetX) / TILE_SIZE;
    assert vx < c.x as real + 0.5;
    assert w.startX as real <= vx;
    var ux := (pos.x + size.x / 2.0 + TILE_SIZE * 0.5 - ArenaOffsetX) / TILE_SIZE;
    assert ux > c.x as real + 0.5;
    assert (-ux).Floor as real <= -ux;
    var vy := (pos.y - size.y / 2.0 - TILE_SIZE * 0.5 - ArenaOffsetY) / TILE_SIZE;
    assert vy < c.y as real + 0.5;
    assert w.startY as real <= vy;
    var uy := (pos.y + size.y / 2.0 + TILE_SIZE * 0.5 - ArenaOffsetY) / TILE_SIZE;
    assert uy > c.y as real + 0.5;
    assert (-uy).Floor as real <= -uy;
  }

  /**
   Testing only the nearby walls loses nothing: the body is blocked exactly
   when some Wall tile of the grid overlaps it.
   */
  lemma BlockedIffOverlapsWall(g: Grid, pos: Vec2, size: Vec2)
    requires Shaped(g, GRID_WIDTH, GRID_HEIGHT)
    ensures Blocked(g, pos, size) <==> OverlapsWall(g, pos, size)
  {
    if Blocked(g, pos, size) {
      BlockedOverlaps(g, pos, size);
    }
    if OverlapsWall(g, pos, size) {
      OverlapBlocks(g, pos, size);
    }
  }

  lemma BlockedOverlaps(g: Grid, pos: Vec2, size: Vec2)
    requires Shaped(g, GRID_WIDTH, GRID_HEIGHT) && Blocked(g, pos, size)
    ensures OverlapsWall(g, pos, size)
  {
    var cells := WallCellsInWindow(g, SearchWindow(pos, size));
    var walls := NearbyWalls(g, pos, size);
    var i :| 0 <= i < |walls| && CheckAabbCollision(pos, size, walls[i], TileBox);
    var c := cells[i];
    assert c in cells;
    assert WallOverlapsAt(g, pos, size, c);
  }

  lemma OverlapBlocks(g: Grid, pos: Vec2, size: Vec2)
    requires Shaped(g, GRID_WIDTH, GRID_HEIGHT) && OverlapsWall(g, pos, size)
    ensures Blocked(g, pos, size)
  {
    var cells := WallCellsInWindow(g, SearchWindow(pos, size));
    var walls := NearbyWalls(g, pos, size);
    var c: Cell :| WallOverlapsAt(g, pos, size, c);
    SearchWindowCoversOverlaps(pos, size, c);
    assert InBounds(GRID_WIDTH, GRID_HEIGHT, c.x, c.y) && g[c.y][c.x] == Wall;
    assert c in cells;
    var i :| 0 <= i < |cells| && cells[i] == c;
    assert walls[i] == CellCentre(c);
  }

  /**
   One axis of the step: the component `dp` is dropped exactly when it is
   larger than F32_EPSILON in magnitude and the collision test at the moved
   position (`hit`) finds a wall; otherwise it is applied in full.
   */
  function StepAxis(p: real, dp: real, hit: bool): (r: real)
    ensures r == p + dp || r == p
    ensures Abs(dp) <= F32_EPSILON ==> r == p + dp
    ensures !hit ==> r == p + dp
    ensures Abs(dp) > F32_EPSILON ==> (r == p <==> hit)
  {
    if Abs(dp) > F32_EPSILON && hit then p else p + dp
  }

  /** The X half of the step: the X component from `pos`, tested at (pos.x + d.x, pos.y). */
  function MoveX(g: Grid, pos: Vec2, size: Vec2, d: Vec2): (x: real)
    requires Shaped(g, GRID_WIDTH, GRID_HEIGHT)
    ensures x == pos.x + d.x || x == pos.x
    ensures Abs(d.x) <= F32_EPSILON ==> x == pos.x + d.x
    ensures Abs(d.x) > F32_EPSILON ==> (x == pos.x <==> Blocked(g, Vec2(pos.x + d.x, pos.y), size))
  {
    StepAxis(pos.x, d.x, Blocked(g, Vec2(pos.x + d.x, pos.y), size))
  }

  /** The Y half of the step: the Y component from `pos`, tested at (pos.x, pos.y + d.y). */
  function MoveY(g: Grid, pos: Vec2, size: Vec2, d: Vec2): (y: real)
    requires Shaped(g, GRID_WIDTH, GRID_HEIGHT)
    ensures y == pos.y + d.y || y == pos.y
    ensures Abs(d.y) <= F32_EPSILON ==> y == pos.y + d.y
    ensures Abs(d.y) > F32_EPSILON ==> (y == pos.y <==> Blocked(g, Vec2(pos.x, pos.y + d.y), size))
  {
    StepAxis(pos.y, d.y, Blocked(g, Vec2(pos.x, pos.y + d.y), size))
  }

  /**
   One movement step of a body at `pos` of size `size` asked to move by `d`:
   the X component is tested and applied or dropped first, then the Y
   component from wherever X left the body. A component no larger than
   F32_EPSILON in magnitude is applied without a test.
   */
  function MoveStep(g: Grid, pos: Vec2, size: Vec2, d: Vec2): (r: Vec2)
    requires Shaped(g, GRID_WIDTH, GRID_HEIGHT)
    ensures r.x == pos.x + d.x || r.x == pos.x
    ensures r.y == pos.y + d.y || r.y == pos.y
    ensures Abs(d.x) <= F32_EPSILON ==> r.x == pos.x + d.x
    ensures Abs(d.y) <= F32_EPSILON ==> r.y == pos.y + d.y
    ensures r.x == MoveX(g, pos, size, d) && r.y == MoveY(g, Vec2(r.x, pos.y), size, d)
  {
    var x := MoveX(g, pos, size, d);
    Vec2(x, MoveY(g, Vec2(x, pos.y), size, d))
  }

  /**
   The resolver's promise: a body that starts clear of every wall ends the
   step clear of every wall, provided each component is either zero or large
   enough to be tested. A nonzero component within F32_EPSILON of zero is
   applied untested and can end inside a wall.
   */
  lemma MoveStepEndsClear(g: Grid, pos: Vec2, size: Vec2, d: Vec2)
    requires Shaped(g, GRID_WIDTH, GRID_HEIGHT) && !OverlapsWall(g, pos, size)
    requires d.x == 0.0 || Abs(d.x) > F32_EPSILON
    requires d.y == 0.0 || Abs(d.y) > F32_EPSILON
    ensures !OverlapsWall(g, MoveStep(g, pos, size, d), size)
  {
    var x := MoveX(g, pos, size, d);
    if Abs(d.x) > F32_EPSILON {
      MoveXDroppedIffWall(g, pos, size, d);
    }
    assert !OverlapsWall(g, Vec2(x, pos.y), size);
    if Abs(d.y) > F32_EPSILON {
      MoveYDroppedIffWall(g, Vec2(x, pos.y), size, d);
    }
  }

  /** A zero displacement is never tested and leaves the body where it is. */
  lemma ZeroDisplacementStays(g: Grid, pos: Vec2, size: Vec2)
    requires Shaped(g, GRID_WIDTH, GRID_HEIGHT)
    ensures MoveStep(g, pos, size, Vec2(0.0, 0.0)) == pos
  {
  }

  /**
   Wall sliding: a diagonal move blocked on X alone keeps its whole Y
   component, because Y is tested from the position X left the body in.
   */
  lemma WallSlide(g: Grid, pos: Vec2, size: Vec2, d: Vec2)
    requires Shaped(g, GRID_WIDTH, GRID_HEIGHT)
    requires Abs(d.x) > F32_EPSILON && OverlapsWall(g, Vec2(pos.x + d.x, pos.y), size)
    requires !OverlapsWall(g, Vec2(pos.x, pos.y + d.y), size)
    ensures MoveStep(g, pos, size, d) == Vec2(pos.x, pos.y + d.y)
  {
    MoveXDroppedIffWall(g, pos, size, d);
    if Abs(d.y) > F32_EPSILON {
      MoveYDroppedIffWall(g, pos, size, d);
    }
  }

  /** A move blocked on both axes leaves the body where it is. */
  lemma FullyBlockedStays(g: Grid, pos: Vec2, size: Vec2, d: Vec2)
    requires Shaped(g, GRID_WIDTH, GRID_HEIGHT)
    requires Abs(d.x) > F32_EPSILON && OverlapsWall(g, Vec2(pos.x + d.x, pos.y), size)
    requires Abs(d.y) > F32_EPSILON && OverlapsWall(g, Vec2(pos.x, pos.y + d.y), size)
    ensures MoveStep(g, pos, size, d) == pos
  {
    MoveXDroppedIffWall(g, pos, size, d);
    MoveYDroppedIffWall(g, pos, size, d);
  }

  /**
   The X half drops a component larger than F32_EPSILON exactly when the
   body at (pos.x + d.x, pos.y) would overlap some Wall tile of the grid; so
   an applied X move never ends inside a wall, and a dropped one was needed.
   */
  lemma MoveXDroppedIffWall(g: Grid, pos: Vec2, size: Vec2, d: Vec2)
    requires Shaped(g, GRID_WIDTH, GRID_HEIGHT) && Abs(d.x) > F32_EPSILON
    ensures MoveX(g, pos, size, d) == pos.x <==> OverlapsWall(g, Vec2(pos.x + d.x, pos.y), size)
  {
    BlockedIffOverlapsWall(g, Vec2(pos.x + d.x, pos.y), size);
  }

  /**
   The Y half, from the position X left the body in, drops a component
   larger than F32_EPSILON exactly when the body at (pos.x, pos.y + d.y)
   would overlap some Wall tile of the grid.
   */
  lemma MoveYDroppedIffWall(g: Grid, pos: Vec2, size: Vec2, d: Vec2)
    requires Shaped(g, GRID_WIDTH, GRID_HEIGHT) && Abs(d.y) > F32_EPSILON
    ensures MoveY(g, pos, size, d) == pos.y <==> OverlapsWall(g, Vec2(pos.x, pos.y + d.y), size)
  {
    BlockedIffOverlapsWall(g, Vec2(pos.x, pos.y + d.y), size);
  }

  function Square(n: int): int {
    n * n
  }

  /**
   A spawn cell, tested the way the spawn loop tests it: a Floor tile with
   x > 1, x < width-2, y > 1, y < height-2 and squared distance from
   (width/2, height/2) above 25. `SafeSpawnCell` is the same set described
   on its own terms; `SpawnCandidates` proves the two agree.
   */
  predicate IsSpawnCandidate(a: ArenaGrid, c: Cell) {
    && 0 <= c.y < |a.grid| && 0 <= c.x < |a.grid[c.y]| && a.grid[c.y][c.x] == Floor
    && c.x > 1 && c.x < a.width - 2 && c.y > 1 && c.y < a.height - 2
    && Square(c.x - a.width / 2) + Square(c.y - a.height / 2) > 25
  }

  /**
   A cell where an enemy may safely appear: a Floor cell of the grid, at
   least two tiles in from each edge, more than five tiles from the centre.
   */
  ghost predicate SafeSpawnCell(a: ArenaGrid, c: Cell)
    requires a.Valid()
  {
    && InBounds(a.width, a.height, c.x, c.y) && a.grid[c.y][c.x] == Floor
    && 2 <= c.x <= a.width - 3 && 2 <= c.y <= a.height - 3
    && Square(c.x - a.width / 2) + Square(c.y - a.height / 2) > 25
  }

  /** All spawn cells, each once, in row-major order. */
  function SpawnCandidates(a: ArenaGrid): (cands: seq<Cell>)
    requires a.Valid()
    ensures forall c :: c in cands <==> SafeSpawnCell(a, c)
    ensures InRowMajorOrder(cands)
  {
    Enumerate(c => IsSpawnCandidate(a, c), 0, a.width - 1, 0, a.height - 1)
  }

  /** Every spawn position is the centre of one of the candidate cells. */
  ghost predicate AtCandidateCentres(spawns: seq<Vec2>, cands: seq<Cell>) {
    forall k :: 0 <= k < |spawns| ==> exists c :: c in cands && spawns[k] == CellCentre(c)
  }

  /** Draws i..MAX_ENEMIES_SPAWN-1 all pick an existing candidate. */
  ghost predicate DrawsInRange(cands: seq<Cell>, draw: nat -> nat, i: nat) {
    forall j :: i <= j < MAX_ENEMIES_SPAWN ==> draw(j) < |cands|
  }

  /** Spawn k sits at the centre of the candidate that draw i + k picked. */
  ghost predicate AtDrawnCentres(spawns: seq<Vec2>, cands: seq<Cell>, draw: nat -> nat, i: nat) {
    forall k :: 0 <= k < |spawns| ==> draw(i + k) < |cands| && spawns[k] == CellCentre(cands[draw(i + k)])
  }

  /**
   Draws i..MAX_ENEMIES_SPAWN-1: draw `draw(i)` picks candidate `draw(i)`,
   and a pick past the end of the list spawns nothing.
   */
  function PickFrom(cands: seq<Cell>, draw: nat -> nat, i: nat): (spawns: seq<Vec2>)
    requires i <= MAX_ENEMIES_SPAWN
    ensures |spawns| <= MAX_ENEMIES_SPAWN - i
    ensures DrawsInRange(cands, draw, i) ==> |spawns| == MAX_ENEMIES_SPAWN - i && AtDrawnCentres(spawns, cands, draw, i)
    ensures AtCandidateCentres(spawns, cands)
    ensures i < MAX_ENEMIES_SPAWN && draw(i) < |cands| ==> |spawns| > 0 && spawns[0] == CellCentre(cands[draw(i)])
    decreases MAX_ENEMIES_SPAWN - i
  {
    if i == MAX_ENEMIES_SPAWN then []
    else
      var rest := PickFrom(cands, draw, i + 1);
      if draw(i) < |cands| then
        var c := cands[draw(i)];
        var spawns := [CellCentre(c)] + rest;
        assert forall k :: 1 <= k < |spawns| ==> spawns[k] == rest[k - 1];
        assert c in cands && spawns[0] == CellCentre(c);
        assert DrawsInRange(cands, draw, i) ==> AtDrawnCentres(spawns, cands, draw, i) by {
          if DrawsInRange(cands, draw, i) {
            assert DrawsInRange(cands, draw, i + 1);
            forall k | 1 <= k < |spawns|
              ensures draw(i + k) < |cands| && spawns[k] == CellCentre(cands[draw(i + k)])
            {
              assert spawns[k] == rest[k - 1];
              assert i + 1 + (k - 1) == i + k;
            }
          }
        }
        spawns
      else rest
  }

  /**
   The enemy spawn positions: none when no cell qualifies; otherwise one
   per draw, at the centre of the drawn candidate cell.
   */
  function SpawnEnemies(a: ArenaGrid, draw: nat -> nat): (spawns: seq<Vec2>)
    requires a.Valid()
    ensures |SpawnCandidates(a)| == 0 ==> spawns == []
    ensures |spawns| <= MAX_ENEMIES_SPAWN
    ensures DrawsInRange(SpawnCandidates(a), draw, 0) ==>
      |spawns| == MAX_ENEMIES_SPAWN && AtDrawnCentres(spawns, SpawnCandidates(a), draw, 0)
    ensures AtCandidateCentres(spawns, SpawnCandidates(a))
  {
    var cands := SpawnCandidates(a);
    if |cands| == 0 then
      assert !(draw(0) < |cands|);
      []
    else PickFrom(cands, draw, 0)
  }

  /**
   Every enemy is placed at the centre of a Floor cell at least two tiles
   in from the edges and more than five tiles from the arena centre.
   */
  lemma SpawnsOnDistantFloor(a: ArenaGrid, draw: nat -> nat)
    requires a.Valid()
    ensures var spawns := SpawnEnemies(a, draw);
      forall k :: 0 <= k < |spawns| ==> exists c: Cell :: SafeSpawnCell(a, c) && spawns[k] == CellCentre(c)
  {
    var spawns := SpawnEnemies(a, draw);
    var cands := SpawnCandidates(a);
    forall k | 0 <= k < |spawns|
      ensures exists c: Cell :: SafeSpawnCell(a, c) && spawns[k] == CellCentre(c)
    {
      var c :| c in cands && spawns[k] == CellCentre(c);
      assert SafeSpawnCell(a, c);
    }
  }

  /** No enemy spawn cell lies in the 3×3 block the cave generator clears for the player. */
  lemma CandidatesAvoidPlayerSpawn(a: ArenaGrid, c: Cell)
    requires a.Valid() && c in SpawnCandidates(a)
    ensures !InBlock(a.width / 2, a.height / 2, c.x, c.y)
  {
    NearBlockIsClose(a.width / 2, a.height / 2, c.x, c.y);
  }

  lemma NearBlockIsClose(cx: int, cy: int, x: int, y: int)
    ensures InBlock(cx, cy, x, y) ==> Square(x - cx) + Square(y - cy) <= 2
  {
    if InBlock(cx, cy, x, y) {
      assert Square(x - cx) <= 1 && Square(y - cy) <= 1;
    }
  }
}
