/** Grid geometry of the snake game: cells and direction vectors as integer
    pairs, the bounds check, and the grid dimensions derived from the canvas
    size (script.js, `setCanvasSize`). */
module Geometry {

  /** A grid cell or a direction vector: the `{x, y}` objects of the game.
      Equality is by value. */
  datatype Point = Point(x: int, y: int)

  const Up := Point(0, -1)
  const Down := Point(0, 1)
  const Left := Point(-1, 0)
  const Right := Point(1, 0)

  function Add(p: Point, d: Point): Point
  {
    Point(p.x + d.x, p.y + d.y)
  }

  function Neg(d: Point): Point
  {
    Point(-d.x, -d.y)
  }

  /** One of the four moves a snake can make in one tick. */
  predicate IsUnit(d: Point)
  {
    d == Up || d == Down || d == Left || d == Right
  }

  /** `q` is one step away from `p`. */
  predicate Adjacent(p: Point, q: Point)
  {
    IsUnit(Point(q.x - p.x, q.y - p.y))
  }

  lemma AddUnitIsAdjacent(p: Point, d: Point)
    requires IsUnit(d)
    ensures Adjacent(p, Add(p, d))
    ensures Add(p, d) != p
    ensures Add(Add(p, d), Neg(d)) == p
  {
  }

  /** A unit move is never its own reversal. */
  lemma UnitNotSelfReverse(d: Point)
    requires IsUnit(d)
    ensures d != Neg(d)
    ensures IsUnit(Neg(d))
  {
    assert d.x != 0 || d.y != 0;
  }

  /** The playing field `[0, cols) x [0, rows)`. */
  predicate InGrid(c: Point, cols: int, rows: int)
  {
    0 <= c.x < cols && 0 <= c.y < rows
  }

  /** Side length of one cell, in canvas pixels. */
  const CellSize := 40

  /** The canvas is never made smaller than this in either dimension. */
  const MinCanvas := 200

  /** The canvas extent `setCanvasSize` stores for a requested size. */
  function CanvasExtent(v: int): (e: int)
    ensures e >= MinCanvas
    ensures e >= v
    ensures e == MinCanvas || e == v
  {
    if v < MinCanvas then MinCanvas else v
  }

  /** Number of whole cells that fit in a requested canvas length: the floor
      of the clamped length divided by the cell size. */
  function CellsAlong(v: int): (n: nat)
    ensures n * CellSize <= CanvasExtent(v) < (n + 1) * CellSize
    ensures n >= MinCanvas / CellSize
  {
    CanvasExtent(v) / CellSize
  }

  /** `(cols, rows)` after the canvas is resized to `w` by `h` pixels. */
  function GridDims(w: int, h: int): (d: (nat, nat))
    ensures d.0 * CellSize <= CanvasExtent(w) < (d.0 + 1) * CellSize
    ensures d.1 * CellSize <= CanvasExtent(h) < (d.1 + 1) * CellSize
    ensures d.0 >= 5 && d.1 >= 5
    ensures d.0 == 5 <==> w < 240
  {
    (CellsAlong(w), CellsAlong(h))
  }
}
