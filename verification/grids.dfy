/**
 The tile grid shared by both arena generators and by the enemy systems:
 a `height` × `width` array of Floor/Wall tiles indexed `grid[y][x]`,
 rectangles over it, the 3×3 "spawn clearing" write, and the row-major
 enumeration of the cells of a window that satisfy a test.
 */
module Grids {

  datatype Tile = Floor | Wall

  type Grid = seq<seq<Tile>>

  /** A grid cell, column `x` and row `y`. */
  datatype Cell = Cell(x: int, y: int)

  /** `g` has `height` rows of `width` tiles each. */
  predicate Shaped(g: Grid, width: nat, height: nat) {
    |g| == height && forall y :: 0 <= y < height ==> |g[y]| == width
  }

  function Min(a: int, b: int): int {
    if a <= b then a else b
  }

  function Max(a: int, b: int): int {
    if a >= b then a else b
  }

  predicate InBounds(width: int, height: int, x: int, y: int) {
    0 <= x < width && 0 <= y < height
  }

  /** The outer ring of the grid: row 0, row height-1, column 0 and column width-1. */
  predicate OnBorder(width: int, height: int, x: int, y: int) {
    x == 0 || x == width - 1 || y == 0 || y == height - 1
  }

  ghost predicate BorderIsWall(g: Grid, width: nat, height: nat)
    requires Shaped(g, width, height)
  {
    forall y, x :: InBounds(width, height, x, y) && OnBorder(width, height, x, y) ==> g[y][x] == Wall
  }

  /** The arena resource: the tiles together with the dimensions they were built for. */
  datatype ArenaGrid = ArenaGrid(grid: Grid, width: nat, height: nat) {
    predicate Valid() {
      Shaped(grid, width, height)
    }
  }

  /** The half-open rectangle [x0, x1) × [y0, y1). */
  datatype Rect = Rect(x0: int, y0: int, x1: int, y1: int) {

    predicate Contains(x: int, y: int) {
      x0 <= x < x1 && y0 <= y < y1
    }

    /** The rectangle's own outermost ring of cells. */
    predicate OnRing(x: int, y: int) {
      Contains(x, y) && (x == x0 || x == x1 - 1 || y == y0 || y == y1 - 1)
    }

    /** Strictly inside the ring: x0 < x < x1-1 and y0 < y < y1-1. */
    predicate StrictlyInside(x: int, y: int) {
      x0 < x < x1 - 1 && y0 < y < y1 - 1
    }

    predicate Within(width: int, height: int) {
      0 <= x0 && x1 <= width && 0 <= y0 && y1 <= height
    }
  }

  /** Two grids of the same shape that agree on every cell are equal. */
  lemma {:induction false} SameGrid(a: Grid, b: Grid, width: nat, height: nat)
    requires Shaped(a, width, height) && Shaped(b, width, height)
    requires forall y, x :: InBounds(width, height, x, y) ==> a[y][x] == b[y][x]
    ensures a == b
  {
    forall y | 0 <= y < height
      ensures a[y] == b[y]
    {
      assert forall x :: 0 <= x < width ==> a[y][x] == b[y][x] by {
        forall x | 0 <= x < width
          ensures a[y][x] == b[y][x]
        {
          assert InBounds(width, height, x, y);
        }
      }
    }
  }

  /** The single-cell write `grid[y][x] = t`. */
  function SetTile(g: Grid, width: nat, height: nat, x: int, y: int, t: Tile): (r: Grid)
    requires Shaped(g, width, height) && InBounds(width, height, x, y)
    ensures Shaped(r, width, height)
    ensures r[y][x] == t
    ensures forall y', x' :: InBounds(width, height, x', y') && (x', y') != (x, y) ==> r[y'][x'] == g[y'][x']
  {
    g[y := g[y][x := t]]
  }

  /** (x, y) lies in the 3×3 block centred on (cx, cy). */
  predicate InBlock(cx: int, cy: int, x: int, y: int) {
    -1 <= x - cx <= 1 && -1 <= y - cy <= 1
  }

  /**
   Which offset the 3×3 loops keep in the outer loop: `ColumnMajor` runs dx
   outside and dy inside, `RowMajor` the other way round.
   */
  datatype BlockOrder = ColumnMajor | RowMajor

  /** The visit number of offset (dx, dy) of the 3×3 block. */
  function BlockIndex(order: BlockOrder, dx: int, dy: int): int {
    match order
    case ColumnMajor => 3 * (dx + 1) + (dy + 1)
    case RowMajor => 3 * (dy + 1) + (dx + 1)
  }

  /** The offset (dx, dy) the 3×3 loops visit at step `k`. */
  function BlockOffset(order: BlockOrder, k: nat): (o: (int, int))
    requires k < 9
    ensures InBlock(0, 0, o.0, o.1) && BlockIndex(order, o.0, o.1) == k
    ensures forall dx, dy :: InBlock(0, 0, dx, dy) && BlockIndex(order, dx, dy) == k ==> (dx, dy) == o
  {
    var outer, inner := k / 3 - 1, k % 3 - 1;
    match order
    case ColumnMajor => (outer, inner)
    case RowMajor => (inner, outer)
  }

  /** Steps k.. of the spawn-clearing loops. */
  function ClearBlockFrom(g: Grid, width: nat, height: nat, cx: int, cy: int, area: Rect, order: BlockOrder, k: nat): (r: Grid)
    requires Shaped(g, width, height) && area.Within(width, height) && k <= 9
    ensures Shaped(r, width, height)
    ensures forall y, x :: InBounds(width, height, x, y) ==>
      r[y][x] == (if InBlock(cx, cy, x, y) && BlockIndex(order, x - cx, y - cy) >= k && area.StrictlyInside(x, y)
                  then Floor else g[y][x])
    decreases 9 - k
  {
    if k == 9 then g
    else
      var o := BlockOffset(order, k);
      var x, y := cx + o.0, cy + o.1;
      var g' := if area.StrictlyInside(x, y) then SetTile(g, width, height, x, y, Floor) else g;
      ClearBlockFrom(g', width, height, cx, cy, area, order, k + 1)
  }

  /**
   The spawn-clearing loops: every cell of the 3×3 block around (cx, cy)
   that lies strictly inside `area` is set to Floor, in the given order;
   every other cell keeps its value. The order makes no difference.
   */
  function ClearBlock(g: Grid, width: nat, height: nat, cx: int, cy: int, area: Rect, order: BlockOrder): (r: Grid)
    requires Shaped(g, width, height) && area.Within(width, height)
    ensures Shaped(r, width, height)
    ensures forall y, x :: InBounds(width, height, x, y) ==>
      r[y][x] == (if InBlock(cx, cy, x, y) && area.StrictlyInside(x, y) then Floor else g[y][x])
  {
    ClearBlockFrom(g, width, height, cx, cy, area, order, 0)
  }

  /** Clearing a block a second time changes nothing. */
  lemma ClearBlockIdempotent(g: Grid, width: nat, height: nat, cx: int, cy: int, area: Rect, order: BlockOrder)
    requires Shaped(g, width, height) && area.Within(width, height)
    ensures var once := ClearBlock(g, width, height, cx, cy, area, order);
            ClearBlock(once, width, height, cx, cy, area, order) == once
  {
    var once := ClearBlock(g, width, height, cx, cy, area, order);
    var twice := ClearBlock(once, width, height, cx, cy, area, order);
    SameGrid(twice, once, width, height);
  }

  /** `a` comes strictly before `b` in row-major order. */
  predicate Before(a: Cell, b: Cell) {
    a.y < b.y || (a.y == b.y && a.x < b.x)
  }

  /** Strictly increasing in row-major order, hence also free of repeats. */
  predicate InRowMajorOrder(s: seq<Cell>) {
    forall i, j :: 0 <= i < j < |s| ==> Before(s[i], s[j])
  }

  /**
   The cells (x, y) with xStart <= x <= xEnd that pass `p`, in the order a
   loop `for x in xStart..=xEnd` visits them.
   */
  function EnumerateRow(p: Cell -> bool, y: int, xStart: int, xEnd: int): (r: seq<Cell>)
    ensures forall c :: c in r <==> c.y == y && xStart <= c.x <= xEnd && p(c)
    ensures InRowMajorOrder(r)
    ensures forall i :: 0 <= i < |r| ==> r[i].y == y && xStart <= r[i].x
    decreases xEnd - xStart
  {
    if xStart > xEnd then []
    else
      var rest := EnumerateRow(p, y, xStart + 1, xEnd);
      if p(Cell(xStart, y)) then [Cell(xStart, y)] + rest else rest
  }

  /**
   The cells of the inclusive window [xStart, xEnd] × [yStart, yEnd] that
   pass `p`, in the order the nested loops `for y in yStart..=yEnd { for x
   in xStart..=xEnd }` visit them. An empty range yields nothing.
   */
  function Enumerate(p: Cell -> bool, xStart: int, xEnd: int, yStart: int, yEnd: int): (r: seq<Cell>)
    ensures forall c :: c in r <==> xStart <= c.x <= xEnd && yStart <= c.y <= yEnd && p(c)
    ensures InRowMajorOrder(r)
    ensures forall i :: 0 <= i < |r| ==> yStart <= r[i].y
    decreases yEnd - yStart
  {
    if yStart > yEnd then []
    else
      var row := EnumerateRow(p, yStart, xStart, xEnd);
      var rest := Enumerate(p, xStart, xEnd, yStart + 1, yEnd);
      var r := row + rest;
      assert forall i, j :: 0 <= i < |row| <= j < |r| ==> Before(r[i], r[j]) by {
        forall i, j | 0 <= i < |row| <= j < |r|
          ensures Before(r[i], r[j])
        {
          assert r[i] == row[i] && row[i] in row;
          assert r[j] == rest[j - |row|];
        }
      }
      r
  }
}
