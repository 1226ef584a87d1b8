/** The item spawner (script.js, `spawnItem`): rejection sampling of random
    grid cells until one is not covered by the snake.

    The random number generator is outside the model. Its output is a stream
    of draws, each already a cell inside the grid (the floor of a uniform
    number in [0, 1) scaled by `cols` or `rows`). `SpawnItem` looks at a
    finite prefix of that stream; `None` means that no draw in the prefix
    was free, so the real loop would still be drawing. */
module Spawner {
  import opened Wrappers
  import opened Geometry

  /** A cell the spawner may return: inside the grid and on no segment of
      `body`. Only the snake's cells are excluded; the pellet and the
      power-up are not. */
  predicate FreeCell(c: Point, body: seq<Point>, cols: int, rows: int)
  {
    InGrid(c, cols, rows) && c !in body
  }

  predicate AllInGrid(cs: seq<Point>, cols: int, rows: int)
  {
    forall i :: 0 <= i < |cs| ==> InGrid(cs[i], cols, rows)
  }

  /** Index of the first draw that is not on `body`; `|draws|` when every
      draw is covered. */
  function FirstFree(body: seq<Point>, draws: seq<Point>): (k: nat)
    ensures k <= |draws|
    ensures forall j :: 0 <= j < k ==> draws[j] in body
    ensures k < |draws| ==> draws[k] !in body
    decreases |draws|
  {
    if |draws| == 0 || draws[0] !in body then 0
    else 1 + FirstFree(body, draws[1..])
  }

  /** One call of `spawnItem`, given the draws the generator produces. */
  function SpawnItem(body: seq<Point>, cols: int, rows: int, draws: seq<Point>): (r: Option<Point>)
    requires AllInGrid(draws, cols, rows)
    ensures r.Some? ==> FreeCell(r.value, body, cols, rows)
    ensures r.None? <==> forall i :: 0 <= i < |draws| ==> draws[i] in body
    ensures r.Some? ==> exists k :: 0 <= k < |draws| && draws[k] == r.value
                                    && forall j :: 0 <= j < k ==> draws[j] in body
  {
    var k := FirstFree(body, draws);
    if k < |draws| then Some(draws[k]) else None
  }
}
