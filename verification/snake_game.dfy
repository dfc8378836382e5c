/**
 The decomposed variant (`SnakeGame` in snake.py): no phase machine; a
 colliding step returns at once, leaving the new head inserted, so the
 snake is one cell longer at the moment of death.

 `Tick`, `Valid`, `NextHead`, `FoodOk`, `Feasible` and `Trace` mirror their
 twins in game_logic.dfy, as the source repeats them; they differ only in the
 step they are built on.
 */
module SnakeGame {
  import opened Grid
  import opened Board

  datatype Game = Game(
    cfg: Config,
    direction: Direction,
    head: Point,
    snake: seq<Point>,
    score: int,
    food: Point)

  /** What `play_step` returns, with the state it leaves behind. */
  datatype Tick = Tick(game: Game, gameOver: bool, score: int)

  /** The invariant every step keeps, the colliding one included. */
  predicate Valid(g: Game) {
    Consistent(g.cfg, g.head, g.snake, g.food) && g.score >= 0
  }

  /** `init_game_state`: `food` is where the initial food search settles. */
  function Init(cfg: Config, food: Point): (g: Game)
    requires WellFormed(cfg)
    requires FoodSpot(cfg, StartSnake(cfg), food)
    ensures Valid(g)
    ensures g.score == 0 && g.direction == Right && g.food == food && g.cfg == cfg
  {
    var snake := StartSnake(cfg);
    Game(cfg, Right, snake[0], snake, 0, food)
  }

  /** `init_snake`: three distinct cells in a row at mid-height, the head at
      mid-width and the others trailing to its left, one block apart. */
  lemma InitSnakeInARow(cfg: Config, food: Point)
    requires WellFormed(cfg)
    requires FoodSpot(cfg, StartSnake(cfg), food)
    ensures var s := Init(cfg, food).snake;
            && |s| == 3 && Distinct(s)
            && s[0] == Init(cfg, food).head == Point(cfg.w / 2, cfg.h / 2)
            && (forall i :: 0 <= i < 3 ==> s[i].y == cfg.h / 2 && s[i].x == cfg.w / 2 - i * BlockSize)
  {
    var s := Init(cfg, food).snake;
    assert s[1] == Move(s[0], Left);
    assert s[2] == Move(s[1], Left);
  }

  /** `head_in_boundary`: despite its name, true when the head is OUTSIDE
      `[0, w - BlockSize] x [0, h - BlockSize]`; for an aligned head on a
      well-formed field, when it has left `[0, w) x [0, h)`. */
  predicate HeadInBoundary(g: Game)
    ensures WellFormed(g.cfg) && Aligned(g.head) ==>
              (HeadInBoundary(g) <==> !(0 <= g.head.x < g.cfg.w && 0 <= g.head.y < g.cfg.h))
  {
    EvenBlocks(g.cfg.w);
    EvenBlocks(g.cfg.h);
    OutOfBounds(g.cfg, g.head)
  }

  /** `head_in_snake`: the head equals a cell of the snake other than the
      first. */
  predicate HeadInSnake(g: Game)
    ensures HeadInSnake(g) <==> exists i :: 1 <= i < |g.snake| && g.snake[i] == g.head
  {
    InBody(g.snake, g.head);
    g.head in Body(g.snake)
  }

  /** `is_collision`: for a grid-aligned head on a well-formed field, the
      head has left `[0, w) x [0, h)` or meets another cell of the snake. */
  predicate IsCollision(g: Game)
    ensures WellFormed(g.cfg) && Aligned(g.head) ==>
              (IsCollision(g) <==>
                 !(0 <= g.head.x < g.cfg.w && 0 <= g.head.y < g.cfg.h) ||
                 exists i :: 1 <= i < |g.snake| && g.snake[i] == g.head)
  {
    HeadInBoundary(g) || HeadInSnake(g)
  }

  /** `move`: the head moves one block in direction `d`; nothing else changes. */
  function MoveHead(g: Game, d: Direction): (g': Game)
    ensures Abs(g'.head.x - g.head.x) + Abs(g'.head.y - g.head.y) == BlockSize
    ensures g'.head == Move(g.head, d)
    ensures g' == g.(head := g'.head)
  {
    g.(head := Move(g.head, d))
  }

  /** The head after the next move. */
  function NextHead(g: Game): Point {
    Move(g.head, g.direction)
  }

  /** The step reaches `update_score_or_pop` with the head on the food. */
  predicate Eats(g: Game) {
    var moved := g.(head := NextHead(g), snake := [NextHead(g)] + g.snake);
    !IsCollision(moved) && NextHead(g) == g.food
  }

  /** What the caller must supply: when the step eats, `next` is a cell the
      food search can settle on, off the snake after the head is inserted. */
  predicate FoodOk(g: Game, next: Point) {
    Eats(g) ==> FoodSpot(g.cfg, [NextHead(g)] + g.snake, next)
  }

  /** `update_score_or_pop`: on the food the score rises by one and the food is
      re-placed off the snake; otherwise the last cell is dropped. */
  function UpdateScoreOrPop(g: Game, next: Point): (g': Game)
    requires |g.snake| > 0
    requires g.head == g.food ==> FoodSpot(g.cfg, g.snake, next)
    ensures g'.cfg == g.cfg && g'.direction == g.direction && g'.head == g.head
    ensures g.head == g.food ==>
              g'.score == g.score + 1 && g'.snake == g.snake && g'.food == next && g'.food !in g'.snake
    ensures g.head != g.food ==>
              && g'.score == g.score && g'.food == g.food
              && |g'.snake| == |g.snake| - 1
              && g.snake == g'.snake + [g.snake[|g.snake| - 1]]
  {
    if g.head == g.food then
      g.(score := g.score + 1, food := next)
    else
      g.(snake := g.snake[..|g.snake| - 1])
  }

  /** `play_step` without its event handling and drawing: move the head,
      insert it, and either report the collision at once or update the score
      or pop the tail. */
  function PlayStep(g: Game, next: Point): (t: Tick)
    requires FoodOk(g, next)
    ensures t.score == t.game.score
    ensures t.game.cfg == g.cfg && t.game.direction == g.direction
    ensures t.game.head == NextHead(g)
    ensures |g.snake| > 0 ==> |t.game.snake| >= |g.snake| && t.game.snake[0] == t.game.head
    ensures t.gameOver <==> OutOfBounds(g.cfg, NextHead(g)) || NextHead(g) in g.snake
    ensures t.gameOver ==>
              && t.game.snake == [NextHead(g)] + g.snake
              && t.score == g.score && t.game.food == g.food
    ensures !t.gameOver && !Eats(g) && |g.snake| > 0 ==>
              && |t.game.snake| == |g.snake|
              && t.game.snake[1..] == g.snake[..|g.snake| - 1]
              && t.score == g.score && t.game.food == g.food
    ensures Eats(g) ==>
              && t.game.snake == [NextHead(g)] + g.snake
              && t.score == g.score + 1
              && t.game.food == next && t.game.food !in t.game.snake
    ensures g.score <= t.score <= g.score + 1
  {
    var moved := MoveHead(g, g.direction);
    var moved := moved.(snake := [moved.head] + g.snake);
    if IsCollision(moved) then
      Tick(moved, true, moved.score)
    else
      var g' := UpdateScoreOrPop(moved, next);
      Tick(g', false, g'.score)
  }

  /** Every step keeps the invariant, the colliding one included: a colliding
      head is never on the food, so the food stays off the longer snake. */
  lemma StepPreservesValid(g: Game, next: Point)
    requires Valid(g) && FoodOk(g, next)
    ensures Valid(PlayStep(g, next).game)
  {
    var t := PlayStep(g, next);
    MoveKeepsAligned(g.head, g.direction);
    if t.gameOver || Eats(g) {
      assert t.game.snake == [NextHead(g)] + g.snake;
      forall i | 0 <= i < |t.game.snake|
        ensures Aligned(t.game.snake[i])
      {
        if i > 0 {
          assert t.game.snake[i] == g.snake[i - 1];
        }
      }
    } else {
      forall i | 0 <= i < |t.game.snake|
        ensures Aligned(t.game.snake[i])
      {
        if i > 0 {
          assert t.game.snake[i] == g.snake[i - 1];
        }
      }
      assert t.game.food !in t.game.snake by {
        assert t.game.snake == [NextHead(g)] + g.snake[..|g.snake| - 1];
      }
    }
  }

  /** The snake's length changes by exactly one on a collision or a meal and
      not at all otherwise. */
  lemma LengthChange(g: Game, next: Point)
    requires Valid(g) && FoodOk(g, next)
    ensures var t := PlayStep(g, next);
            |t.game.snake| == if t.gameOver || Eats(g) then |g.snake| + 1 else |g.snake|
  {
  }

  /** The caller supplies an input for every tick, and a food cell for every
      tick that eats. */
  predicate Feasible(g: Game, ins: seq<Input>)
    decreases |ins|
  {
    |ins| == 0 ||
    (var g0 := g.(direction := ins[0].direction);
     FoodOk(g0, ins[0].food) && Feasible(PlayStep(g0, ins[0].food).game, ins[1..]))
  }

  /** The results of successive `play_step` calls, each of which first lets
      `handle_events` set the direction from the arrow keys. Unlike
      `run_game`, the run goes on past a collision. */
  function Trace(g: Game, ins: seq<Input>): (ts: seq<Tick>)
    requires Feasible(g, ins)
    ensures |ts| == |ins|
    ensures |ins| > 0 ==>
              && FoodOk(g.(direction := ins[0].direction), ins[0].food)
              && ts[0] == PlayStep(g.(direction := ins[0].direction), ins[0].food)
    ensures forall k :: 0 < k < |ins| ==>
              && FoodOk(ts[k - 1].game.(direction := ins[k].direction), ins[k].food)
              && ts[k] == PlayStep(ts[k - 1].game.(direction := ins[k].direction), ins[k].food)
    decreases |ins|
  {
    if |ins| == 0 then []
    else
      var t := PlayStep(g.(direction := ins[0].direction), ins[0].food);
      [t] + Trace(t.game, ins[1..])
  }

  /** Over any run, whatever the player steers, the score never decreases,
      and it rises by at most one per tick. */
  lemma {:induction false} ScoreNeverDecreases(g: Game, ins: seq<Input>)
    requires Feasible(g, ins)
    ensures forall i :: 0 <= i < |ins| ==> g.score <= Trace(g, ins)[i].score <= g.score + i + 1
    ensures forall i, j :: 0 <= i <= j < |ins| ==>
              Trace(g, ins)[i].score <= Trace(g, ins)[j].score
    decreases |ins|
  {
    if |ins| > 0 {
      var ts := Trace(g, ins);
      var t := PlayStep(g.(direction := ins[0].direction), ins[0].food);
      var rest := Trace(t.game, ins[1..]);
      assert ts == [t] + rest;
      ScoreNeverDecreases(t.game, ins[1..]);
      assert g.score <= t.score <= g.score + 1;
      forall k | 0 < k < |ins|
        ensures ts[k] == rest[k - 1]
        ensures g.score <= ts[k].score <= g.score + k + 1
      {
        assert ts[k] == rest[k - 1];
      }
    }
  }
}
