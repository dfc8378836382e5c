/**
 Food placement and the board invariant shared by both variants.

 The source draws a column and a row with `random.randint(0, (w - BLOCK_SIZE) // BLOCK_SIZE)`
 (and likewise for the rows), scales them by the block size, and draws again
 while the cell lies on the snake. The random generator is not modelled: the
 caller supplies the successive draws, and `PlaceFood` follows the retry.
 */
module Board {
  import opened Grid

  datatype Option<T> = None | Some(value: T)

  /** One pair of results of the random generator: a column and a row index. */
  datatype Draw = Draw(col: int, row: int)

  /** Largest column index `randint` can return. For a positive divisor
      Dafny's `/` rounds down like Python's `//`. */
  function MaxCol(cfg: Config): int {
    (cfg.w - BlockSize) / BlockSize
  }

  /** Largest row index `randint` can return. */
  function MaxRow(cfg: Config): int {
    (cfg.h - BlockSize) / BlockSize
  }

  /** A draw `randint` can produce: both indices within their inclusive ranges. */
  predicate ValidDraw(cfg: Config, d: Draw) {
    0 <= d.col <= MaxCol(cfg) && 0 <= d.row <= MaxRow(cfg)
  }

  predicate ValidDraws(cfg: Config, draws: seq<Draw>) {
    forall k :: 0 <= k < |draws| ==> ValidDraw(cfg, draws[k])
  }

  /** The cell a draw names. */
  function Cell(d: Draw): Point {
    Point(d.col * BlockSize, d.row * BlockSize)
  }

  /** The draw that names an aligned cell. */
  function DrawOf(p: Point): Draw {
    Draw(p.x / BlockSize, p.y / BlockSize)
  }

  /** Where food may lie: a grid cell inside the field and off the snake. */
  predicate FoodSpot(cfg: Config, snake: seq<Point>, p: Point) {
    OnGrid(cfg, p) && p !in snake
  }

  /** Every cell `randint` can name is on the grid and inside the field. */
  lemma DrawIsOnGrid(cfg: Config, d: Draw)
    requires ValidDraw(cfg, d)
    ensures OnGrid(cfg, Cell(d))
  {
    assert d.col * BlockSize <= MaxCol(cfg) * BlockSize;
    assert d.row * BlockSize <= MaxRow(cfg) * BlockSize;
  }

  /** Every grid cell inside the field is named by exactly one valid draw. */
  lemma OnGridIsDrawn(cfg: Config, p: Point)
    requires OnGrid(cfg, p)
    ensures ValidDraw(cfg, DrawOf(p)) && Cell(DrawOf(p)) == p
    ensures forall d :: ValidDraw(cfg, d) && Cell(d) == p ==> d == DrawOf(p)
  {
  }

  /** The retry of `_place_food` / `place_food`: the first drawn cell that is
      off the snake, or `None` when every supplied draw lands on the snake
      (the source would then keep drawing). */
  function PlaceFood(cfg: Config, snake: seq<Point>, draws: seq<Draw>): (r: Option<Point>)
    requires ValidDraws(cfg, draws)
    ensures r.Some? ==> FoodSpot(cfg, snake, r.value)
    ensures r.None? <==> forall k :: 0 <= k < |draws| ==> Cell(draws[k]) in snake
    ensures r.Some? ==> exists k :: 0 <= k < |draws| && r.value == Cell(draws[k])
                                    && forall m :: 0 <= m < k ==> Cell(draws[m]) in snake
    decreases |draws|
  {
    if |draws| == 0 then None
    else if Cell(draws[0]) in snake then PlaceFood(cfg, snake, draws[1..])
    else DrawIsOnGrid(cfg, draws[0]); Some(Cell(draws[0]))
  }

  /** Conversely, every food spot is a possible outcome: one draw suffices to
      place the food on it. */
  lemma EveryFoodSpotReachable(cfg: Config, snake: seq<Point>, p: Point)
    requires FoodSpot(cfg, snake, p)
    ensures ValidDraws(cfg, [DrawOf(p)])
    ensures PlaceFood(cfg, snake, [DrawOf(p)]) == Some(p)
  {
    OnGridIsDrawn(cfg, p);
  }

  /** What the player and the random generator contribute before one tick:
      the direction in force for the tick (the last arrow key pressed, or the
      previous direction) and the cell the food search settles on if the tick
      eats. */
  datatype Input = Input(direction: Direction, food: Point)

  /** The board invariant both games keep: the field is well formed, the snake
      has at least three aligned cells with the head first, and the food lies
      on a grid cell off the snake. */
  predicate Consistent(cfg: Config, head: Point, snake: seq<Point>, food: Point) {
    && WellFormed(cfg)
    && |snake| >= 3
    && snake[0] == head
    && (forall i :: 0 <= i < |snake| ==> Aligned(snake[i]))
    && FoodSpot(cfg, snake, food)
  }
}
