/**
 Grid geometry shared by both variants of the snake game: cells, directions,
 the one-block head move, the playing-field bounds and the starting snake.

 Coordinates are pixel positions of a cell's top-left corner; y grows
 downwards, so `Up` decreases y.
 */
module Grid {

  /** Side of one cell in pixels; every move covers exactly one block. */
  const BlockSize: int := 20

  datatype Direction = Right | Left | Up | Down

  /** A cell of the grid, compared by its coordinates. */
  datatype Point = Point(x: int, y: int)

  /** Size of the playing field in pixels. */
  datatype Config = Config(w: int, h: int)

  /** The field size both games use when none is given. */
  const DefaultConfig: Config := Config(640, 480)

  /** Field sizes the model supports: positive even multiples of a block, so
      that the centre `w/2, h/2` is a whole number lying on the grid. */
  predicate WellFormed(cfg: Config) {
    && cfg.w > 0
    && cfg.h > 0
    && cfg.w % (2 * BlockSize) == 0
    && cfg.h % (2 * BlockSize) == 0
  }

  /** A length that is an even number of blocks is a whole number of blocks,
      and so is its half. */
  lemma EvenBlocks(n: int)
    ensures n % (2 * BlockSize) == 0 ==> n % BlockSize == 0 && (n / 2) % BlockSize == 0
  {
    if n % (2 * BlockSize) == 0 {
      var k := n / (2 * BlockSize);
      assert n == 2 * BlockSize * k;
      assert n / 2 == BlockSize * k;
    }
  }

  /** Both coordinates are multiples of the block size. */
  predicate Aligned(p: Point) {
    p.x % BlockSize == 0 && p.y % BlockSize == 0
  }

  function Abs(n: int): nat {
    if n < 0 then -n else n
  }

  function Opposite(d: Direction): (e: Direction)
    ensures e != d
  {
    match d
    case Right => Left
    case Left => Right
    case Up => Down
    case Down => Up
  }

  /** The head one block further in direction `d`: the two cells are one
      block apart, on the same row for a horizontal direction and on the
      same column for a vertical one, and the coordinate on `d`'s axis moves
      the way `d` points. */
  function Move(p: Point, d: Direction): (q: Point)
    ensures Abs(q.x - p.x) + Abs(q.y - p.y) == BlockSize
    ensures q.y == p.y <==> (d == Right || d == Left)
    ensures q.x == p.x <==> (d == Up || d == Down)
    ensures d == Right ==> q.x > p.x
    ensures d == Left ==> q.x < p.x
    ensures d == Down ==> q.y > p.y
    ensures d == Up ==> q.y < p.y
  {
    match d
    case Right => Point(p.x + BlockSize, p.y)
    case Left => Point(p.x - BlockSize, p.y)
    case Down => Point(p.x, p.y + BlockSize)
    case Up => Point(p.x, p.y - BlockSize)
  }

  /** Moving back the opposite way returns to the start, so distinct heads
      never move onto the same cell in the same direction. */
  lemma MoveUndoneByOpposite(p: Point, d: Direction)
    ensures Move(Move(p, d), Opposite(d)) == p
    ensures forall p' :: Move(p', d) == Move(p, d) ==> p' == p
  {
    forall p' | Move(p', d) == Move(p, d)
      ensures p' == p
    {
      assert Move(Move(p', d), Opposite(d)) == p';
    }
  }

  /** A move keeps a cell on the grid lines. */
  lemma MoveKeepsAligned(p: Point, d: Direction)
    requires Aligned(p)
    ensures Aligned(Move(p, d))
  {
  }

  /** The head lies outside `[0, w - BlockSize] x [0, h - BlockSize]`. For
      an aligned head on a field a whole number of blocks wide and high, this
      is the same as lying outside `[0, w) x [0, h)`. */
  predicate OutOfBounds(cfg: Config, p: Point)
    ensures Aligned(p) && cfg.w % BlockSize == 0 && cfg.h % BlockSize == 0 ==>
              (OutOfBounds(cfg, p) <==> !(0 <= p.x < cfg.w && 0 <= p.y < cfg.h))
  {
    LastBlockBound(p.x, cfg.w);
    LastBlockBound(p.y, cfg.h);
    p.x > cfg.w - BlockSize || p.x < 0 || p.y > cfg.h - BlockSize || p.y < 0
  }

  /** A cell that is aligned and fully inside the field. */
  predicate OnGrid(cfg: Config, p: Point) {
    Aligned(p) && !OutOfBounds(cfg, p)
  }

  /** On one axis: a multiple of the block size below a field length that is
      itself a multiple of the block size starts at least one block before
      the end. */
  lemma LastBlockBound(v: int, size: int)
    ensures v % BlockSize == 0 && size % BlockSize == 0 ==> (v < size <==> v <= size - BlockSize)
  {
    if v % BlockSize == 0 && size % BlockSize == 0 {
      var a, b := v / BlockSize, size / BlockSize;
      assert v == BlockSize * a && size == BlockSize * b;
      assert v < size <==> a < b;
    }
  }

  /** Python's slice `s[1:]`: everything after the head, empty for an empty list. */
  function Body(s: seq<Point>): (b: seq<Point>)
    ensures |s| > 0 ==> [s[0]] + b == s
    ensures |s| == 0 ==> b == []
  {
    if |s| == 0 then [] else s[1..]
  }

  /** Membership in `s[1:]` is equality with a cell at index 1 or later. */
  lemma InBody(s: seq<Point>, p: Point)
    ensures p in Body(s) <==> exists i :: 1 <= i < |s| && s[i] == p
  {
    if p in Body(s) {
      var i :| 0 <= i < |Body(s)| && Body(s)[i] == p;
      assert s[i + 1] == p;
    }
    if exists i :: 1 <= i < |s| && s[i] == p {
      var i :| 1 <= i < |s| && s[i] == p;
      assert Body(s)[i - 1] == p;
    }
  }

  /** No cell occurs twice. */
  predicate Distinct(s: seq<Point>) {
    forall i, j :: 0 <= i < j < |s| ==> s[i] != s[j]
  }

  /** The starting snake: three cells in a row at mid-height, head at the
      centre of the field, each further cell one block left of the one
      before it. */
  function StartSnake(cfg: Config): (s: seq<Point>)
    ensures |s| == 3
    ensures s[0] == Point(cfg.w / 2, cfg.h / 2)
    ensures forall i :: 0 <= i < 2 ==> s[i + 1] == Move(s[i], Left)
    ensures forall i :: 0 <= i < 3 ==> s[i].y == cfg.h / 2
    ensures Distinct(s)
    ensures WellFormed(cfg) ==> forall i :: 0 <= i < 3 ==> Aligned(s[i])
  {
    var head := Point(cfg.w / 2, cfg.h / 2);
    EvenBlocks(cfg.w);
    EvenBlocks(cfg.h);
    [head, Point(head.x - BlockSize, head.y), Point(head.x - 2 * BlockSize, head.y)]
  }
}
