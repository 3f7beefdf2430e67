/**
 The room-template arena generator: a single centred rectangular room whose
 ring and surroundings are Wall, scattered with small rectangular
 obstacles, with a 3×3 Floor block cleared at the room centre. The random
 choices are supplied by an oracle.
 */
module Rooms {
  import opened Grids

  const ROOM_PADDING_TILES: nat := 3
  const MIN_ROOM_SIZE_TILES: nat := 8

  const MIN_OBSTACLE_SIZE: nat := 1
  const MAX_OBSTACLE_SIZE: nat := 3

  /** An obstacle side length, as drawn from MIN_OBSTACLE_SIZE..=MAX_OBSTACLE_SIZE. */
  type ObstacleSide = n: nat | MIN_OBSTACLE_SIZE <= n <= MAX_OBSTACLE_SIZE witness 1

  /**
   The random choice made at one interior Floor cell: no obstacle, or an
   obstacle of the given width and height anchored at that cell.
   */
  datatype Draw = NoObstacle | Obstacle(width: ObstacleSide, height: ObstacleSide)

  /**
   The random source: `oracle(k)` is the choice made at the k-th interior
   Floor cell the scattering loop consults (cells already Wall draw nothing).
   */
  type Oracle = nat -> Draw

  /**
   The room rectangle: each side is max(dim - 2·ROOM_PADDING_TILES,
   MIN_ROOM_SIZE_TILES), centred with the odd tile of slack on the far side.
   Dimensions below MIN_ROOM_SIZE_TILES make the unsigned subtractions
   underflow, so they are excluded.
   */
  function RoomRect(width: nat, height: nat): (r: Rect)
    requires width >= MIN_ROOM_SIZE_TILES && height >= MIN_ROOM_SIZE_TILES
    ensures r.Within(width, height)
    ensures r.x1 - r.x0 == Max(width - 2 * ROOM_PADDING_TILES, MIN_ROOM_SIZE_TILES)
    ensures r.y1 - r.y0 == Max(height - 2 * ROOM_PADDING_TILES, MIN_ROOM_SIZE_TILES)
    ensures r.x0 <= width - r.x1 <= r.x0 + 1 && r.y0 <= height - r.y1 <= r.y0 + 1
  {
    var roomWidth := Max(width - 2 * ROOM_PADDING_TILES, MIN_ROOM_SIZE_TILES);
    var roomHeight := Max(height - 2 * ROOM_PADDING_TILES, MIN_ROOM_SIZE_TILES);
    var startX := (width - roomWidth) / 2;
    var startY := (height - roomHeight) / 2;
    Rect(startX, startY, startX + roomWidth, startY + roomHeight)
  }

  /** The first pass: Wall outside the room and on its ring, Floor inside. */
  function HollowRoom(width: nat, height: nat, room: Rect): (g: Grid)
    requires room.Within(width, height)
    ensures Shaped(g, width, height)
    ensures forall y, x :: InBounds(width, height, x, y) ==> (g[y][x] == Floor <==> room.StrictlyInside(x, y))
  {
    seq(height, y requires 0 <= y < height =>
      seq(width, x requires 0 <= x < width =>
        if room.Contains(x, y) then (if room.OnRing(x, y) then Wall else Floor) else Wall))
  }

  /** `after` differs from `before` only by new Wall cells strictly inside `room`. */
  ghost predicate AddsInteriorWallsOnly(before: Grid, after: Grid, width: nat, height: nat, room: Rect)
    requires Shaped(before, width, height) && Shaped(after, width, height)
  {
    forall y, x :: InBounds(width, height, x, y) ==>
      after[y][x] == before[y][x] || (after[y][x] == Wall && room.StrictlyInside(x, y))
  }

  /**
   Stamps an obstacle of `obsWidth` × `obsHeight` anchored at (x, y):
   exactly its cells that are strictly inside the room become Wall.
   */
  function Stamp(g: Grid, width: nat, height: nat, room: Rect, x: int, y: int, obsWidth: ObstacleSide, obsHeight: ObstacleSide): (r: Grid)
    requires Shaped(g, width, height) && room.Within(width, height) && room.StrictlyInside(x, y)
    ensures Shaped(r, width, height)
    ensures forall y', x' :: InBounds(width, height, x', y') ==>
      r[y'][x'] == (if x <= x' < x + obsWidth && y <= y' < y + obsHeight && room.StrictlyInside(x', y')
                    then Wall else g[y'][x'])
  {
    seq(height, cy requires 0 <= cy < height =>
      seq(width, cx requires 0 <= cx < width =>
        if x <= cx < x + obsWidth && y <= cy < y + obsHeight && cx < room.x1 - 1 && cy < room.y1 - 1
        then Wall else g[cy][cx]))
  }

  /**
   The visit of interior cell (x, y) with `k` draws made so far: a Floor
   cell consumes one draw and stamps the obstacle it names; a Wall cell
   (one an earlier obstacle covered) draws nothing.
   */
  function Visit(g: Grid, width: nat, height: nat, room: Rect, oracle: Oracle, x: int, y: int, k: nat): (r: (Grid, nat))
    requires Shaped(g, width, height) && room.Within(width, height) && room.StrictlyInside(x, y)
    ensures Shaped(r.0, width, height) && AddsInteriorWallsOnly(g, r.0, width, height, room)
    ensures r.1 == (if g[y][x] == Floor then k + 1 else k)
    ensures (g[y][x] == Wall || oracle(k) == NoObstacle) ==> r.0 == g
    ensures g[y][x] == Floor && oracle(k).Obstacle? ==>
      r.0 == Stamp(g, width, height, room, x, y, oracle(k).width, oracle(k).height)
    ensures r.0[y][x] == Wall <==> g[y][x] == Wall || oracle(k).Obstacle?
  {
    if g[y][x] == Floor then
      match oracle(k)
      case NoObstacle => (g, k + 1)
      case Obstacle(w, h) => (Stamp(g, width, height, room, x, y, w, h), k + 1)
    else (g, k)
  }

  /** The Floor cells g[y][x'] with x <= x' < xEnd. */
  function FloorsInRow(g: Grid, width: nat, height: nat, y: int, x: int, xEnd: int): nat
    requires Shaped(g, width, height) && 0 <= y < height && 0 <= x && xEnd <= width
    decreases xEnd - x
  {
    if x >= xEnd then 0
    else (if g[y][x] == Floor then 1 else 0) + FloorsInRow(g, width, height, y, x + 1, xEnd)
  }

  /** The Floor cells g[y'][x'] with y <= y' < yEnd and x0 <= x' < xEnd. */
  function FloorsInRows(g: Grid, width: nat, height: nat, y: int, yEnd: int, x0: int, xEnd: int): nat
    requires Shaped(g, width, height) && 0 <= y && yEnd <= height && 0 <= x0 && xEnd <= width
    decreases yEnd - y
  {
    if y >= yEnd then 0
    else FloorsInRow(g, width, height, y, x0, xEnd) + FloorsInRows(g, width, height, y + 1, yEnd, x0, xEnd)
  }

  /** Adding Wall cells never adds Floor cells to a row. */
  lemma {:induction false} FloorsInRowMonotone(before: Grid, after: Grid, width: nat, height: nat, room: Rect, y: int, x: int, xEnd: int)
    requires Shaped(before, width, height) && Shaped(after, width, height)
    requires AddsInteriorWallsOnly(before, after, width, height, room)
    requires 0 <= y < height && 0 <= x && xEnd <= width
    ensures FloorsInRow(after, width, height, y, x, xEnd) <= FloorsInRow(before, width, height, y, x, xEnd)
    decreases xEnd - x
  {
    if x < xEnd {
      assert InBounds(width, height, x, y);
      FloorsInRowMonotone(before, after, width, height, room, y, x + 1, xEnd);
    }
  }

  /** Adding Wall cells never adds Floor cells to a band of rows. */
  lemma {:induction false} FloorsInRowsMonotone(before: Grid, after: Grid, width: nat, height: nat, room: Rect,
                                                y: int, yEnd: int, x0: int, xEnd: int)
    requires Shaped(before, width, height) && Shaped(after, width, height)
    requires AddsInteriorWallsOnly(before, after, width, height, room)
    requires 0 <= y && yEnd <= height && 0 <= x0 && xEnd <= width
    ensures FloorsInRows(after, width, height, y, yEnd, x0, xEnd) <= FloorsInRows(before, width, height, y, yEnd, x0, xEnd)
    decreases yEnd - y
  {
    if y < yEnd {
      FloorsInRowMonotone(before, after, width, height, room, y, x0, xEnd);
      FloorsInRowsMonotone(before, after, width, height, room, y + 1, yEnd, x0, xEnd);
    }
  }

  /** The inner loop: cells x.. of interior row y, left to right. */
  function ScatterRow(g: Grid, width: nat, height: nat, room: Rect, oracle: Oracle, y: int, x: int, k: nat): (r: (Grid, nat))
    requires Shaped(g, width, height) && room.Within(width, height)
    requires room.y0 < y < room.y1 - 1 && room.x0 < x
    ensures Shaped(r.0, width, height) && AddsInteriorWallsOnly(g, r.0, width, height, room)
    ensures r.1 >= k
    ensures (forall j: nat :: oracle(j) == NoObstacle) ==> r.0 == g
    ensures (forall j: nat :: oracle(j).Obstacle?) ==> forall x' :: x <= x' < room.x1 - 1 ==> r.0[y][x'] == Wall
    decreases room.x1 - 1 - x
  {
    if x >= room.x1 - 1 then (g, k)
    else
      var v := Visit(g, width, height, room, oracle, x, y, k);
      ScatterRow(v.0, width, height, room, oracle, y, x + 1, v.1)
  }

  /** A row scan draws at most once per cell of the row that is Floor before the scan. */
  lemma {:induction false} ScatterRowDrawsAtMost(g: Grid, width: nat, height: nat, room: Rect, oracle: Oracle, y: int, x: int, k: nat)
    requires Shaped(g, width, height) && room.Within(width, height)
    requires room.y0 < y < room.y1 - 1 && room.x0 < x
    ensures ScatterRow(g, width, height, room, oracle, y, x, k).1 - k <= FloorsInRow(g, width, height, y, x, room.x1 - 1)
    decreases room.x1 - 1 - x
  {
    if x < room.x1 - 1 {
      var v := Visit(g, width, height, room, oracle, x, y, k);
      assert ScatterRow(g, width, height, room, oracle, y, x, k) == ScatterRow(v.0, width, height, room, oracle, y, x + 1, v.1);
      assert InBounds(width, height, x, y);
      assert FloorsInRow(g, width, height, y, x, room.x1 - 1)
          == (if g[y][x] == Floor then 1 else 0) + FloorsInRow(g, width, height, y, x + 1, room.x1 - 1);
      ScatterRowDrawsAtMost(v.0, width, height, room, oracle, y, x + 1, v.1);
      FloorsInRowMonotone(g, v.0, width, height, room, y, x + 1, room.x1 - 1);
    }
  }

  /** A row scan draws at least once per cell of the row that is still Floor after the scan. */
  lemma {:induction false} ScatterRowDrawsAtLeast(g: Grid, width: nat, height: nat, room: Rect, oracle: Oracle, y: int, x: int, k: nat)
    requires Shaped(g, width, height) && room.Within(width, height)
    requires room.y0 < y < room.y1 - 1 && room.x0 < x
    ensures var r := ScatterRow(g, width, height, room, oracle, y, x, k);
      FloorsInRow(r.0, width, height, y, x, room.x1 - 1) <= r.1 - k
    decreases room.x1 - 1 - x
  {
    if x < room.x1 - 1 {
      var v := Visit(g, width, height, room, oracle, x, y, k);
      var r := ScatterRow(v.0, width, height, room, oracle, y, x + 1, v.1);
      assert ScatterRow(g, width, height, room, oracle, y, x, k) == r;
      assert InBounds(width, height, x, y);
      assert FloorsInRow(r.0, width, height, y, x, room.x1 - 1)
          == (if r.0[y][x] == Floor then 1 else 0) + FloorsInRow(r.0, width, height, y, x + 1, room.x1 - 1);
      ScatterRowDrawsAtLeast(v.0, width, height, room, oracle, y, x + 1, v.1);
      assert r.0[y][x] == Floor ==> v.0[y][x] == Floor;
    }
  }

  /** The outer loop: interior rows y.., top to bottom. */
  function ScatterRows(g: Grid, width: nat, height: nat, room: Rect, oracle: Oracle, y: int, k: nat): (r: (Grid, nat))
    requires Shaped(g, width, height) && room.Within(width, height) && room.y0 < y
    ensures Shaped(r.0, width, height) && AddsInteriorWallsOnly(g, r.0, width, height, room)
    ensures r.1 >= k
    ensures (forall j: nat :: oracle(j) == NoObstacle) ==> r.0 == g
    ensures (forall j: nat :: oracle(j).Obstacle?) ==>
      forall y', x' :: y <= y' < room.y1 - 1 && room.x0 < x' < room.x1 - 1 ==> r.0[y'][x'] == Wall
    decreases room.y1 - 1 - y
  {
    if y >= room.y1 - 1 then (g, k)
    else
      var row := ScatterRow(g, width, height, room, oracle, y, room.x0 + 1, k);
      ScatterRows(row.0, width, height, room, oracle, y + 1, row.1)
  }

  /** Scanning rows y.. draws at most once per interior Floor cell of those rows before the scan. */
  lemma {:induction false} ScatterRowsDrawsAtMost(g: Grid, width: nat, height: nat, room: Rect, oracle: Oracle, y: int, k: nat)
    requires Shaped(g, width, height) && room.Within(width, height) && room.y0 < y
    ensures ScatterRows(g, width, height, room, oracle, y, k).1 - k
         <= FloorsInRows(g, width, height, y, room.y1 - 1, room.x0 + 1, room.x1 - 1)
    decreases room.y1 - 1 - y
  {
    if y < room.y1 - 1 {
      var row := ScatterRow(g, width, height, room, oracle, y, room.x0 + 1, k);
      var rest := ScatterRows(row.0, width, height, room, oracle, y + 1, row.1);
      assert ScatterRows(g, width, height, room, oracle, y, k) == rest;
      var here := FloorsInRow(g, width, height, y, room.x0 + 1, room.x1 - 1);
      var below := FloorsInRows(g, width, height, y + 1, room.y1 - 1, room.x0 + 1, room.x1 - 1);
      assert FloorsInRows(g, width, height, y, room.y1 - 1, room.x0 + 1, room.x1 - 1) == here + below;
      ScatterRowDrawsAtMost(g, width, height, room, oracle, y, room.x0 + 1, k);
      ScatterRowsDrawsAtMost(row.0, width, height, room, oracle, y + 1, row.1);
      FloorsInRowsMonotone(g, row.0, width, height, room, y + 1, room.y1 - 1, room.x0 + 1, room.x1 - 1);
    }
  }

  /** Scanning rows y.. draws at least once per interior cell of those rows still Floor after the scan. */
  lemma {:induction false} ScatterRowsDrawsAtLeast(g: Grid, width: nat, height: nat, room: Rect, oracle: Oracle, y: int, k: nat)
    requires Shaped(g, width, height) && room.Within(width, height) && room.y0 < y
    ensures var r := ScatterRows(g, width, height, room, oracle, y, k);
      FloorsInRows(r.0, width, height, y, room.y1 - 1, room.x0 + 1, room.x1 - 1) <= r.1 - k
    decreases room.y1 - 1 - y
  {
    if y < room.y1 - 1 {
      var row := ScatterRow(g, width, height, room, oracle, y, room.x0 + 1, k);
      var r := ScatterRows(row.0, width, height, room, oracle, y + 1, row.1);
      assert ScatterRows(g, width, height, room, oracle, y, k) == r;
      var here := FloorsInRow(r.0, width, height, y, room.x0 + 1, room.x1 - 1);
      var below := FloorsInRows(r.0, width, height, y + 1, room.y1 - 1, room.x0 + 1, room.x1 - 1);
      assert FloorsInRows(r.0, width, height, y, room.y1 - 1, room.x0 + 1, room.x1 - 1) == here + below;
      ScatterRowDrawsAtLeast(g, width, height, room, oracle, y, room.x0 + 1, k);
      ScatterRowsDrawsAtLeast(row.0, width, height, room, oracle, y + 1, row.1);
      FloorsInRowMonotone(row.0, r.0, width, height, room, y, room.x0 + 1, room.x1 - 1);
    }
  }

  /** The obstacle-scattering pass over the whole room interior, starting with no draws made. */
  function Scatter(g: Grid, width: nat, height: nat, room: Rect, oracle: Oracle): (r: Grid)
    requires Shaped(g, width, height) && room.Within(width, height)
    ensures Shaped(r, width, height) && AddsInteriorWallsOnly(g, r, width, height, room)
    ensures (forall j: nat :: oracle(j) == NoObstacle) ==> r == g
    ensures (forall j: nat :: oracle(j).Obstacle?) ==>
      forall y, x :: room.StrictlyInside(x, y) ==> r[y][x] == Wall
  {
    ScatterRows(g, width, height, room, oracle, room.y0 + 1, 0).0
  }

  /**
   The scattering pass draws once per Floor cell it visits: at most once per
   interior Floor cell it starts from, and at least once per interior cell
   still Floor at the end (each of those was Floor when visited). With no
   obstacles drawn the grid never changes, so it draws exactly once per
   interior Floor cell.
   */
  lemma ScatterDrawsOncePerFloorCell(g: Grid, width: nat, height: nat, room: Rect, oracle: Oracle)
    requires Shaped(g, width, height) && room.Within(width, height)
    ensures var s := ScatterRows(g, width, height, room, oracle, room.y0 + 1, 0);
      && s.0 == Scatter(g, width, height, room, oracle)
      && FloorsInRows(s.0, width, height, room.y0 + 1, room.y1 - 1, room.x0 + 1, room.x1 - 1) <= s.1
      && s.1 <= FloorsInRows(g, width, height, room.y0 + 1, room.y1 - 1, room.x0 + 1, room.x1 - 1)
      && ((forall j: nat :: oracle(j) == NoObstacle) ==>
            s.1 == FloorsInRows(g, width, height, room.y0 + 1, room.y1 - 1, room.x0 + 1, room.x1 - 1))
  {
    ScatterRowsDrawsAtMost(g, width, height, room, oracle, room.y0 + 1, 0);
    ScatterRowsDrawsAtLeast(g, width, height, room, oracle, room.y0 + 1, 0);
  }

  /**
   The room centre (room_start + room_size / 2 on each axis): the middle
   cell of the room, or the later of the two middle cells when a side is even.
   */
  function RoomCentre(room: Rect): (c: Cell)
    ensures room.x0 < room.x1 ==> room.x1 - 1 - c.x <= c.x - room.x0 <= room.x1 - c.x
    ensures room.y0 < room.y1 ==> room.y1 - 1 - c.y <= c.y - room.y0 <= room.y1 - c.y
    ensures room.x0 < room.x1 && room.y0 < room.y1 ==> room.Contains(c.x, c.y)
  {
    Cell(room.x0 + (room.x1 - room.x0) / 2, room.y0 + (room.y1 - room.y0) / 2)
  }

  /**
   The full generator: hollow room, obstacles, the 3×3 clearing around the
   room centre (rows outside, columns inside), then the extra guarded write
   of the centre cell itself.
   */
  function Generate(width: nat, height: nat, oracle: Oracle): (a: ArenaGrid)
    requires width >= MIN_ROOM_SIZE_TILES && height >= MIN_ROOM_SIZE_TILES
    ensures a.width == width && a.height == height && a.Valid()
  {
    var room := RoomRect(width, height);
    var scattered := Scatter(HollowRoom(width, height, room), width, height, room, oracle);
    var c := RoomCentre(room);
    var cleared := ClearBlock(scattered, width, height, c.x, c.y, room, RowMajor);
    var g := if room.StrictlyInside(c.x, c.y) then SetTile(cleared, width, height, c.x, c.y, Floor) else cleared;
    ArenaGrid(g, width, height)
  }

  /**
   Rooms are at least MIN_ROOM_SIZE_TILES wide and high, so the whole 3×3
   block around the room centre lies strictly inside the room: none of the
   clearing writes is ever skipped by its guard.
   */
  lemma CentreBlockInsideRoom(width: nat, height: nat)
    requires width >= MIN_ROOM_SIZE_TILES && height >= MIN_ROOM_SIZE_TILES
    ensures var room := RoomRect(width, height);
            var c := RoomCentre(room);
            forall y, x :: InBlock(c.x, c.y, x, y) ==> room.StrictlyInside(x, y)
  {
  }

  /**
   Every generated room arena: each cell outside the room or on its ring is
   Wall (so in particular the whole grid border is), and every cell of the
   3×3 block around the room centre is Floor.
   */
  lemma GenerateInvariants(width: nat, height: nat, oracle: Oracle)
    requires width >= MIN_ROOM_SIZE_TILES && height >= MIN_ROOM_SIZE_TILES
    ensures var a := Generate(width, height, oracle);
            var room := RoomRect(width, height);
            var c := RoomCentre(room);
      && (forall y, x :: InBounds(width, height, x, y) && !room.StrictlyInside(x, y) ==> a.grid[y][x] == Wall)
      && BorderIsWall(a.grid, width, height)
      && (forall y, x :: InBlock(c.x, c.y, x, y) ==> InBounds(width, height, x, y) && a.grid[y][x] == Floor)
  {
    GenerateWallOutsideRoom(width, height, oracle);
    GenerateClearsCentreBlock(width, height, oracle);
  }

  /** Generate's grid is the clearing of the scattered hollow room, with the centre cell written again. */
  lemma GenerateUnfolded(width: nat, height: nat, oracle: Oracle)
    requires width >= MIN_ROOM_SIZE_TILES && height >= MIN_ROOM_SIZE_TILES
    ensures var room := RoomRect(width, height);
            var c := RoomCentre(room);
            var scattered := Scatter(HollowRoom(width, height, room), width, height, room, oracle);
            var cleared := ClearBlock(scattered, width, height, c.x, c.y, room, RowMajor);
      Generate(width, height, oracle).grid == SetTile(cleared, width, height, c.x, c.y, Floor)
  {
    CentreBlockInsideRoom(width, height);
  }

  /** Cells outside the room or on its ring stay Wall through every stage of generation. */
  lemma GenerateWallOutsideRoom(width: nat, height: nat, oracle: Oracle)
    requires width >= MIN_ROOM_SIZE_TILES && height >= MIN_ROOM_SIZE_TILES
    ensures var a := Generate(width, height, oracle);
            var room := RoomRect(width, height);
      forall y, x :: InBounds(width, height, x, y) && !room.StrictlyInside(x, y) ==> a.grid[y][x] == Wall
  {
    var room := RoomRect(width, height);
    var hollow := HollowRoom(width, height, room);
    GenerateUnfolded(width, height, oracle);
    var g := Generate(width, height, oracle).grid;
    forall y, x | InBounds(width, height, x, y) && !room.StrictlyInside(x, y)
      ensures g[y][x] == Wall
    {
      assert hollow[y][x] == Wall;
    }
  }

  /** The clearing pass leaves the whole 3×3 block around the room centre Floor. */
  lemma GenerateClearsCentreBlock(width: nat, height: nat, oracle: Oracle)
    requires width >= MIN_ROOM_SIZE_TILES && height >= MIN_ROOM_SIZE_TILES
    ensures var a := Generate(width, height, oracle);
            var c := RoomCentre(RoomRect(width, height));
      forall y, x :: InBlock(c.x, c.y, x, y) ==> InBounds(width, height, x, y) && a.grid[y][x] == Floor
  {
    CentreBlockInsideRoom(width, height);
    GenerateUnfolded(width, height, oracle);
  }

  /** If the oracle never places an obstacle the result is exactly the hollow room. */
  lemma NoObstaclesGivesHollowRoom(width: nat, height: nat, oracle: Oracle)
    requires width >= MIN_ROOM_SIZE_TILES && height >= MIN_ROOM_SIZE_TILES
    requires forall j: nat :: oracle(j) == NoObstacle
    ensures Generate(width, height, oracle).grid == HollowRoom(width, height, RoomRect(width, height))
  {
    var room := RoomRect(width, height);
    var hollow := HollowRoom(width, height, room);
    var c := RoomCentre(room);
    var cleared := ClearBlock(hollow, width, height, c.x, c.y, room, RowMajor);
    CentreBlockInsideRoom(width, height);
    var g := Generate(width, height, oracle).grid;
    assert g == SetTile(cleared, width, height, c.x, c.y, Floor);
    SameGrid(g, hollow, width, height);
  }

  /**
   A 10×10 arena without obstacles: an 8×8 room at offset 1, so Floor
   exactly on columns and rows 2..=7 and Wall everywhere else.
   */
  lemma TenByTenHollowRoom(width: nat, height: nat, oracle: Oracle)
    requires width == 10 && height == 10
    requires forall j: nat :: oracle(j) == NoObstacle
    ensures RoomRect(width, height) == Rect(1, 1, 9, 9)
    ensures var g := Generate(width, height, oracle).grid;
            forall y, x :: InBounds(width, height, x, y) ==> (g[y][x] == Floor <==> 2 <= x <= 7 && 2 <= y <= 7)
  {
    NoObstaclesGivesHollowRoom(width, height, oracle);
    TenByTenShape(width, height);
  }

  lemma TenByTenShape(width: nat, height: nat)
    requires width == 10 && height == 10
    ensures RoomRect(width, height) == Rect(1, 1, 9, 9)
    ensures var g := HollowRoom(width, height, RoomRect(width, height));
            forall y, x :: InBounds(width, height, x, y) ==> (g[y][x] == Floor <==> 2 <= x <= 7 && 2 <= y <= 7)
  {
    var room := RoomRect(width, height);
    assert room == Rect(1, 1, 9, 9);
    var g := HollowRoom(width, height, room);
    forall y, x | InBounds(width, height, x, y)
      ensures g[y][x] == Floor <==> 2 <= x <= 7 && 2 <= y <= 7
    {
      assert g[y][x] == Floor <==> room.StrictlyInside(x, y);
    }
  }
}
