/**
 The noise "cave" arena generator: an initial Floor/Wall classification
 (the thresholded noise field, taken here as an input) is smoothed by a
 cellular automaton, its outer ring is sealed to Wall, and the 3×3 block
 around the grid centre is cleared to Floor for the player's spawn.
 */
module Cave {
  import opened Grids

  const ARENA_WIDTH_TILES: nat := 86
  const ARENA_HEIGHT_TILES: nat := 49
  const TILE_SIZE: real := 15.0

  const SMOOTHING_ITERATIONS: nat := 3
  const WALL_CONVERSION_THRESHOLD: nat := 5
  const FLOOR_CONVERSION_THRESHOLD: nat := 4

  /**
   The eight neighbour offsets (i, j) in the order the counting loop visits
   them: i outer, j inner, both over -1..=1, with (0, 0) skipped.
   */
  function NeighbourOffset(k: nat): (o: (int, int))
    requires k < NeighbourCount
    ensures -1 <= o.0 <= 1 && -1 <= o.1 <= 1 && o != (0, 0)
  {
    match k
    case 0 => (-1, -1)
    case 1 => (-1, 0)
    case 2 => (-1, 1)
    case 3 => (0, -1)
    case 4 => (0, 1)
    case 5 => (1, -1)
    case 6 => (1, 0)
    case _ => (1, 1)
  }

  const NeighbourCount: nat := 8

  /**
   The table lists each of the eight neighbour offsets exactly once: no two
   steps share an offset, and every offset of the 3×3 block other than
   (0, 0) appears.
   */
  lemma NeighbourOffsetsAreTheEightNeighbours()
    ensures forall j, k :: 0 <= j < k < NeighbourCount ==> NeighbourOffset(j) != NeighbourOffset(k)
    ensures forall dx, dy :: InBlock(0, 0, dx, dy) && (dx, dy) != (0, 0) ==>
      exists k :: 0 <= k < NeighbourCount && NeighbourOffset(k) == (dx, dy)
  {
    forall dx, dy | InBlock(0, 0, dx, dy) && (dx, dy) != (0, 0)
      ensures exists k :: 0 <= k < NeighbourCount && NeighbourOffset(k) == (dx, dy)
    {
      var k := if dx == -1 then dy + 1 else if dx == 0 then (if dy == -1 then 3 else 4) else dy + 6;
      assert NeighbourOffset(k) == (dx, dy);
    }
  }

  /** What the neighbour count sees at (x, y): a Wall, or a cell beyond the grid. */
  predicate WallOrOffGrid(g: Grid, width: nat, height: nat, x: int, y: int)
    requires Shaped(g, width, height)
  {
    !InBounds(width, height, x, y) || g[y][x] == Wall
  }

  function Indicator(b: bool): nat {
    if b then 1 else 0
  }

  /** The neighbour of (x, y) at offset NeighbourOffset(k) is a Wall or off the grid. */
  predicate NeighbourIsWall(g: Grid, width: nat, height: nat, x: int, y: int, k: nat)
    requires Shaped(g, width, height) && k < NeighbourCount
  {
    WallOrOffGrid(g, width, height, x + NeighbourOffset(k).0, y + NeighbourOffset(k).1)
  }

  /** Walls among the neighbours NeighbourOffset(k..) of (x, y). */
  function CountFrom(g: Grid, width: nat, height: nat, x: int, y: int, k: nat): (n: nat)
    requires Shaped(g, width, height) && k <= NeighbourCount
    ensures n <= NeighbourCount - k
    decreases NeighbourCount - k
  {
    if k == NeighbourCount then 0
    else
      Indicator(NeighbourIsWall(g, width, height, x, y, k)) + CountFrom(g, width, height, x, y, k + 1)
  }

  /** The number of Wall cells among the eight neighbours of (x, y); a neighbour off the grid counts as Wall. */
  function CountWallNeighbors(g: Grid, width: nat, height: nat, x: nat, y: nat): (n: nat)
    requires Shaped(g, width, height)
    ensures n <= 8
  {
    CountFrom(g, width, height, x, y, 0)
  }

  /** Two counts agree when the neighbours they look at agree, term by term. */
  lemma {:induction false} CountFromCongruent(g1: Grid, width1: nat, height1: nat, x1: int, y1: int,
                                              g2: Grid, width2: nat, height2: nat, x2: int, y2: int, k: nat)
    requires Shaped(g1, width1, height1) && Shaped(g2, width2, height2) && k <= NeighbourCount
    requires forall j :: k <= j < NeighbourCount ==>
      NeighbourIsWall(g1, width1, height1, x1, y1, j) == NeighbourIsWall(g2, width2, height2, x2, y2, j)
    ensures CountFrom(g1, width1, height1, x1, y1, k) == CountFrom(g2, width2, height2, x2, y2, k)
    decreases NeighbourCount - k
  {
    if k < NeighbourCount {
      CountFromCongruent(g1, width1, height1, x1, y1, g2, width2, height2, x2, y2, k + 1);
    }
  }

  /** The count never looks at the cell itself: rewriting (x, y) leaves its own count unchanged. */
  lemma CountIgnoresCentre(g: Grid, width: nat, height: nat, x: nat, y: nat, t: Tile)
    requires Shaped(g, width, height) && InBounds(width, height, x, y)
    ensures CountWallNeighbors(SetTile(g, width, height, x, y, t), width, height, x, y)
         == CountWallNeighbors(g, width, height, x, y)
  {
    var g' := SetTile(g, width, height, x, y, t);
    forall j | 0 <= j < NeighbourCount
      ensures NeighbourIsWall(g', width, height, x, y, j) == NeighbourIsWall(g, width, height, x, y, j)
    {
      var o := NeighbourOffset(j);
      assert (x + o.0, y + o.1) != (x, y);
    }
    CountFromCongruent(g', width, height, x, y, g, width, height, x, y, 0);
  }

  /** Neighbours NeighbourOffset(k..) of (x, y) that lie off the grid. */
  function OffGridFrom(width: nat, height: nat, x: int, y: int, k: nat): (n: nat)
    requires k <= NeighbourCount
    decreases NeighbourCount - k
  {
    if k == NeighbourCount then 0
    else Indicator(!InBounds(width, height, x + NeighbourOffset(k).0, y + NeighbourOffset(k).1))
         + OffGridFrom(width, height, x, y, k + 1)
  }

  /** Every off-grid neighbour is counted, whatever the grid holds. */
  lemma {:induction false} CountAtLeastOffGrid(g: Grid, width: nat, height: nat, x: int, y: int, k: nat)
    requires Shaped(g, width, height) && k <= NeighbourCount
    ensures CountFrom(g, width, height, x, y, k) >= OffGridFrom(width, height, x, y, k)
    decreases NeighbourCount - k
  {
    if k < NeighbourCount {
      CountAtLeastOffGrid(g, width, height, x, y, k + 1);
    }
  }

  /** At the corner (0, 0) five of the eight neighbours lie off the grid, so the count is at least 5. */
  lemma CornerCountAtLeastFive(g: Grid, width: nat, height: nat)
    requires Shaped(g, width, height) && width >= 1 && height >= 1
    ensures CountWallNeighbors(g, width, height, 0, 0) >= 5
  {
    CountAtLeastOffGrid(g, width, height, 0, 0, 0);
  }

  /** `p` is `g` surrounded by an extra ring of Wall: cell (x, y) of `g` is cell (x+1, y+1) of `p`. */
  ghost predicate IsWallPadding(g: Grid, width: nat, height: nat, p: Grid)
    requires Shaped(g, width, height)
  {
    Shaped(p, width + 2, height + 2)
    && forall y, x :: InBounds(width + 2, height + 2, x, y) ==>
         p[y][x] == (if 1 <= x <= width && 1 <= y <= height then g[y - 1][x - 1] else Wall)
  }

  /** The grid `g` with a ring of Wall built around it. */
  function WallPadded(g: Grid, width: nat, height: nat): (p: Grid)
    requires Shaped(g, width, height)
    ensures IsWallPadding(g, width, height, p)
  {
    seq(height + 2, y requires 0 <= y < height + 2 =>
      seq(width + 2, x requires 0 <= x < width + 2 =>
        if 1 <= x <= width && 1 <= y <= height then g[y - 1][x - 1] else Wall))
  }

  /**
   Treating off-grid neighbours as Wall is the same as counting inside a grid
   that really has an extra ring of Wall around it, at the shifted point
   (x+1, y+1); this holds for every x and y, on the grid or not.
   */
  lemma OffGridCountsAsWallRing(g: Grid, width: nat, height: nat, p: Grid, x: nat, y: nat)
    requires Shaped(g, width, height) && IsWallPadding(g, width, height, p)
    ensures CountWallNeighbors(g, width, height, x, y) == CountWallNeighbors(p, width + 2, height + 2, x + 1, y + 1)
  {
    PaddedNeighbours(g, width, height, p, x, y);
    NeighboursAgree(g, width, height, x, y, p, width + 2, height + 2, x + 1, y + 1);
  }

  /** In particular, the count equals the count in the grid actually padded with Wall. */
  lemma CountInWallPadded(g: Grid, width: nat, height: nat, x: nat, y: nat)
    requires Shaped(g, width, height)
    ensures CountWallNeighbors(g, width, height, x, y)
         == CountWallNeighbors(WallPadded(g, width, height), width + 2, height + 2, x + 1, y + 1)
  {
    OffGridCountsAsWallRing(g, width, height, WallPadded(g, width, height), x, y);
  }

  /** Each neighbour of (x, y) in `g` reads the same as the matching neighbour of (x+1, y+1) in the padded grid. */
  lemma PaddedNeighbours(g: Grid, width: nat, height: nat, p: Grid, x: nat, y: nat)
    requires Shaped(g, width, height) && IsWallPadding(g, width, height, p)
    ensures forall j :: 0 <= j < NeighbourCount ==>
      NeighbourIsWall(g, width, height, x, y, j) == NeighbourIsWall(p, width + 2, height + 2, x + 1, y + 1, j)
  {
    forall j | 0 <= j < NeighbourCount
      ensures NeighbourIsWall(g, width, height, x, y, j) == NeighbourIsWall(p, width + 2, height + 2, x + 1, y + 1, j)
    {
      var o := NeighbourOffset(j);
      PaddedCell(g, width, height, p, x + o.0, y + o.1);
    }
  }

  /** Counts at two points agree when all eight neighbours of the one agree with those of the other. */
  lemma NeighboursAgree(g1: Grid, width1: nat, height1: nat, x1: nat, y1: nat,
                        g2: Grid, width2: nat, height2: nat, x2: nat, y2: nat)
    requires Shaped(g1, width1, height1) && Shaped(g2, width2, height2)
    requires forall j :: 0 <= j < NeighbourCount ==>
      NeighbourIsWall(g1, width1, height1, x1, y1, j) == NeighbourIsWall(g2, width2, height2, x2, y2, j)
    ensures CountWallNeighbors(g1, width1, height1, x1, y1) == CountWallNeighbors(g2, width2, height2, x2, y2)
  {
    CountFromCongruent(g1, width1, height1, x1, y1, g2, width2, height2, x2, y2, 0);
  }

  lemma PaddedCell(g: Grid, width: nat, height: nat, p: Grid, x: int, y: int)
    requires Shaped(g, width, height) && IsWallPadding(g, width, height, p)
    ensures WallOrOffGrid(g, width, height, x, y) == WallOrOffGrid(p, width + 2, height + 2, x + 1, y + 1)
  {
  }

  /** The smoothing rule for one interior cell with `wallNeighbours` Wall neighbours. */
  function NextTile(t: Tile, wallNeighbours: nat): Tile {
    match t
    case Wall => if wallNeighbours < FLOOR_CONVERSION_THRESHOLD then Floor else Wall
    case Floor => if wallNeighbours >= WALL_CONVERSION_THRESHOLD then Wall else Floor
  }

  /** What one smoothing pass writes at (x, y), computed from the previous grid `g` only. */
  function Smoothed(g: Grid, width: nat, height: nat, x: int, y: int): Tile
    requires Shaped(g, width, height) && InBounds(width, height, x, y)
  {
    NextTile(g[y][x], CountWallNeighbors(g, width, height, x, y))
  }

  /**
   One smoothing pass: a clone of `g` in which every interior cell is
   replaced by the rule's verdict on `g`; the outer ring is not visited.
   */
  function SmoothPass(g: Grid, width: nat, height: nat): (r: Grid)
    requires Shaped(g, width, height)
    ensures Shaped(r, width, height)
    ensures forall y, x :: InBounds(width, height, x, y) && OnBorder(width, height, x, y) ==> r[y][x] == g[y][x]
    ensures forall y, x :: InBounds(width, height, x, y) && !OnBorder(width, height, x, y) ==> r[y][x] == Smoothed(g, width, height, x, y)
  {
    seq(height, y requires 0 <= y < height =>
      seq(width, x requires 0 <= x < width =>
        if Rect(0, 0, width, height).StrictlyInside(x, y) then Smoothed(g, width, height, x, y) else g[y][x]))
  }

  /**
   The pass as a loop over an arbitrary visiting order: each visit reads the
   previous grid `prev` and writes into the working copy `next`.
   */
  function VisitInOrder(prev: Grid, next: Grid, width: nat, height: nat, order: seq<Cell>): (r: Grid)
    requires Shaped(prev, width, height) && Shaped(next, width, height)
    requires forall i :: 0 <= i < |order| ==> InBounds(width, height, order[i].x, order[i].y)
    ensures Shaped(r, width, height)
    ensures forall y, x :: InBounds(width, height, x, y) ==>
      r[y][x] == (if Cell(x, y) in order then Smoothed(prev, width, height, x, y) else next[y][x])
    decreases |order|
  {
    if |order| == 0 then next
    else
      var c := order[0];
      var r := VisitInOrder(prev, SetTile(next, width, height, c.x, c.y, Smoothed(prev, width, height, c.x, c.y)),
                            width, height, order[1..]);
      assert forall d :: d in order <==> d == c || d in order[1..] by {
        assert order == [c] + order[1..];
      }
      r
  }

  /**
   Because every visit reads the previous grid and writes a clone, visiting
   the interior cells in any order (each at least once, nothing else) gives
   exactly the pass.
   */
  lemma {:induction false} SmoothPassOrderIndependent(g: Grid, width: nat, height: nat, order: seq<Cell>)
    requires Shaped(g, width, height)
    requires forall i :: 0 <= i < |order| ==> InBounds(width, height, order[i].x, order[i].y) && !OnBorder(width, height, order[i].x, order[i].y)
    requires forall y, x :: InBounds(width, height, x, y) && !OnBorder(width, height, x, y) ==> Cell(x, y) in order
    ensures VisitInOrder(g, g, width, height, order) == SmoothPass(g, width, height)
  {
    var v := VisitInOrder(g, g, width, height, order);
    var s := SmoothPass(g, width, height);
    forall y, x | InBounds(width, height, x, y)
      ensures v[y][x] == s[y][x]
    {
      if Cell(x, y) in order {
        var i :| 0 <= i < |order| && order[i] == Cell(x, y);
        assert !OnBorder(width, height, order[i].x, order[i].y);
      }
    }
    SameGrid(v, s, width, height);
  }

  /**
   The rule as a pass applies it: an interior Wall cell with fewer than
   FLOOR_CONVERSION_THRESHOLD Wall neighbours becomes Floor, an interior
   Floor cell with at least WALL_CONVERSION_THRESHOLD becomes Wall, and every
   other interior cell keeps its tile; neighbours are counted in the grid
   before the pass.
   */
  lemma SmoothPassRule(g: Grid, width: nat, height: nat, x: nat, y: nat)
    requires Shaped(g, width, height) && InBounds(width, height, x, y) && !OnBorder(width, height, x, y)
    ensures var n := CountWallNeighbors(g, width, height, x, y);
            var r := SmoothPass(g, width, height)[y][x];
      && (g[y][x] == Wall && n < FLOOR_CONVERSION_THRESHOLD ==> r == Floor)
      && (g[y][x] == Floor && n >= WALL_CONVERSION_THRESHOLD ==> r == Wall)
      && (g[y][x] == Wall && n >= FLOOR_CONVERSION_THRESHOLD ==> r == Wall)
      && (g[y][x] == Floor && n < WALL_CONVERSION_THRESHOLD ==> r == Floor)
  {
  }

  /** `n` smoothing passes, each on the result of the previous one. */
  function Smooth(g: Grid, width: nat, height: nat, n: nat): (r: Grid)
    requires Shaped(g, width, height)
    ensures Shaped(r, width, height)
    ensures forall y, x :: InBounds(width, height, x, y) && OnBorder(width, height, x, y) ==> r[y][x] == g[y][x]
    decreases n
  {
    if n == 0 then g else Smooth(SmoothPass(g, width, height), width, height, n - 1)
  }

  /** The first sealing loop, columns x..: row 0 and row height-1 of each column become Wall. */
  function SealRows(g: Grid, width: nat, height: nat, x: nat): (r: Grid)
    requires Shaped(g, width, height) && height >= 1 && x <= width
    ensures Shaped(r, width, height)
    ensures forall y', x' :: InBounds(width, height, x', y') ==>
      r[y'][x'] == (if (y' == 0 || y' == height - 1) && x' >= x then Wall else g[y'][x'])
    decreases width - x
  {
    if x == width then g
    else
      var top := SetTile(g, width, height, x, 0, Wall);
      SealRows(SetTile(top, width, height, x, height - 1, Wall), width, height, x + 1)
  }

  /** The second sealing loop, rows y..: column 0 and column width-1 of each row become Wall. */
  function SealColumns(g: Grid, width: nat, height: nat, y: nat): (r: Grid)
    requires Shaped(g, width, height) && width >= 1 && y <= height
    ensures Shaped(r, width, height)
    ensures forall y', x' :: InBounds(width, height, x', y') ==>
      r[y'][x'] == (if (x' == 0 || x' == width - 1) && y' >= y then Wall else g[y'][x'])
    decreases height - y
  {
    if y == height then g
    else
      var left := SetTile(g, width, height, 0, y, Wall);
      SealColumns(SetTile(left, width, height, width - 1, y, Wall), width, height, y + 1)
  }

  /**
   Forces the outer ring to Wall: the row loop over every column, then the
   column loop over every row. Both loops index row height-1 and column
   width-1, so an empty dimension is excluded.
   */
  function SealBorder(g: Grid, width: nat, height: nat): (r: Grid)
    requires Shaped(g, width, height) && width >= 1 && height >= 1
    ensures Shaped(r, width, height)
    ensures BorderIsWall(r, width, height)
    ensures forall y, x :: InBounds(width, height, x, y) && !OnBorder(width, height, x, y) ==> r[y][x] == g[y][x]
  {
    SealColumns(SealRows(g, width, height, 0), width, height, 0)
  }

  /** The spawn clearing around (width/2, height/2), limited to cells strictly inside the border. */
  function ClearSpawn(g: Grid, width: nat, height: nat): (r: Grid)
    requires Shaped(g, width, height)
    ensures Shaped(r, width, height)
    ensures forall y, x :: InBounds(width, height, x, y) ==>
      r[y][x] == (if InBlock(width / 2, height / 2, x, y) && !OnBorder(width, height, x, y) then Floor else g[y][x])
  {
    ClearBlock(g, width, height, width / 2, height / 2, Rect(0, 0, width, height), ColumnMajor)
  }

  /**
   The generator after the noise step: three smoothing passes, border
   sealing, then the spawn clearing, which the source runs twice.
   */
  function Generate(noise: Grid, width: nat, height: nat): (a: ArenaGrid)
    requires width >= 1 && height >= 1 && Shaped(noise, width, height)
    ensures a.width == width && a.height == height && a.Valid()
  {
    var smoothed := Smooth(noise, width, height, SMOOTHING_ITERATIONS);
    var sealed := SealBorder(smoothed, width, height);
    var cleared := ClearSpawn(ClearSpawn(sealed, width, height), width, height);
    ArenaGrid(cleared, width, height)
  }

  /**
   Every generated cave: the whole border ring is Wall; every cell of the 3×3
   block around (width/2, height/2) that is not on the border is Floor; every
   other cell is what the smoothing produced.
   */
  lemma GenerateInvariants(noise: Grid, width: nat, height: nat)
    requires width >= 1 && height >= 1 && Shaped(noise, width, height)
    ensures var a := Generate(noise, width, height);
      && BorderIsWall(a.grid, width, height)
      && (forall y, x :: (InBounds(width, height, x, y) && !OnBorder(width, height, x, y)
            && InBlock(width / 2, height / 2, x, y)) ==> a.grid[y][x] == Floor)
      && (forall y, x :: (InBounds(width, height, x, y) && !OnBorder(width, height, x, y)
            && !InBlock(width / 2, height / 2, x, y)) ==>
              a.grid[y][x] == Smooth(noise, width, height, SMOOTHING_ITERATIONS)[y][x])
  {
    var smoothed := Smooth(noise, width, height, SMOOTHING_ITERATIONS);
    var sealed := SealBorder(smoothed, width, height);
    var once := ClearSpawn(sealed, width, height);
    ClearBlockIdempotent(sealed, width, height, width / 2, height / 2, Rect(0, 0, width, height), ColumnMajor);
    var g := Generate(noise, width, height).grid;
    assert g == once;

  }
}
