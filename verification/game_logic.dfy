/**
 The game-logic variant (`GameLogic` in game.py): a step function gated by a
 phase machine `Playing` / `Paused` / `GameOver`.

 A colliding step does not return early: it records the game over and then
 still runs the eat-or-pop branch. `head` is kept as a field of its own, as in
 the source, and the invariant ties it to the first cell of the snake.
 */
module GameLogic {
  import opened Grid
  import opened Board

  datatype Phase = Playing | Paused | GameOver

  datatype Game = Game(
    cfg: Config,
    direction: Direction,
    head: Point,
    snake: seq<Point>,
    score: int,
    food: Point,
    phase: Phase)

  /** What `play_step` returns, with the state it leaves behind. */
  datatype Tick = Tick(game: Game, gameOver: bool, score: int)

  /** The invariant every reachable game keeps. */
  predicate Valid(g: Game) {
    Consistent(g.cfg, g.head, g.snake, g.food) && g.score >= 0
  }

  /** A fresh game: `food` is where the initial food search settles. */
  function Init(cfg: Config, food: Point): (g: Game)
    requires WellFormed(cfg)
    requires FoodSpot(cfg, StartSnake(cfg), food)
    ensures Valid(g)
    ensures g.phase == Playing && g.score == 0 && g.direction == Right
    ensures g.snake == StartSnake(cfg) && g.head == Point(cfg.w / 2, cfg.h / 2)
    ensures g.food == food && g.cfg == cfg
  {
    var snake := StartSnake(cfg);
    Game(cfg, Right, snake[0], snake, 0, food, Playing)
  }

  /** `_is_collision`, asked after the new head has been inserted: the head
      is outside `[0, w - BlockSize] x [0, h - BlockSize]` or equals a cell
      of the snake other than the first; for an aligned head on a
      well-formed field the bound test is leaving `[0, w) x [0, h)`. */
  predicate IsCollision(g: Game)
    ensures IsCollision(g) <==>
              || g.head.x < 0 || g.head.x > g.cfg.w - BlockSize
              || g.head.y < 0 || g.head.y > g.cfg.h - BlockSize
              || exists i :: 1 <= i < |g.snake| && g.snake[i] == g.head
    ensures WellFormed(g.cfg) && Aligned(g.head) ==>
              (IsCollision(g) <==>
                 !(0 <= g.head.x < g.cfg.w && 0 <= g.head.y < g.cfg.h) ||
                 exists i :: 1 <= i < |g.snake| && g.snake[i] == g.head)
  {
    InBody(g.snake, g.head);
    EvenBlocks(g.cfg.w);
    EvenBlocks(g.cfg.h);
    OutOfBounds(g.cfg, g.head) || g.head in Body(g.snake)
  }

  /** The head cell the next `Playing` step moves to. */
  function NextHead(g: Game): Point {
    Move(g.head, g.direction)
  }

  /** The step reaches the eat branch. */
  predicate Eats(g: Game) {
    g.phase == Playing && NextHead(g) == g.food
  }

  /** What the caller must supply: when the step eats, `next` is a cell the
      food search can settle on, off the snake after the head is inserted. */
  predicate FoodOk(g: Game, next: Point) {
    Eats(g) ==> FoodSpot(g.cfg, [NextHead(g)] + g.snake, next)
  }

  /** `play_step`: outside `Playing` nothing changes and no game over is
      reported; otherwise the head moves, a collision is reported and turns
      the phase to `GameOver`, and the snake either eats (grows by one, score
      up by one, food re-placed off the snake) or drops its last cell. */
  function PlayStep(g: Game, next: Point): (t: Tick)
    requires FoodOk(g, next)
    ensures t.score == t.game.score
    ensures t.game.cfg == g.cfg && t.game.direction == g.direction
    ensures g.phase != Playing ==> t.game == g && !t.gameOver
    ensures t.gameOver <==> g.phase == Playing && (OutOfBounds(g.cfg, NextHead(g)) || NextHead(g) in g.snake)
    ensures t.gameOver ==> t.game.phase == GameOver
    ensures g.phase == Playing && !t.gameOver ==> t.game.phase == Playing
    ensures g.phase == Playing && !Eats(g) ==> |t.game.snake| == |g.snake|
    ensures Eats(g) ==> |t.game.snake| == |g.snake| + 1
    ensures g.phase == Playing && |g.snake| > 0 ==>
              t.game.head == NextHead(g) && t.game.snake[0] == t.game.head
    ensures g.phase == Playing && !Eats(g) && |g.snake| > 0 ==>
              && t.game.snake[1..] == g.snake[..|g.snake| - 1]
              && t.game.score == g.score
              && t.game.food == g.food
    ensures Eats(g) ==>
              && t.game.snake[1..] == g.snake
              && t.game.score == g.score + 1
              && t.game.food == next
              && t.game.food !in t.game.snake
    ensures g.score <= t.score <= g.score + 1
  {
    if g.phase != Playing then
      Tick(g, false, g.score)
    else
      var head := NextHead(g);
      var moved := g.(head := head, snake := [head] + g.snake);
      var over := IsCollision(moved);
      var phase := if over then GameOver else Playing;
      if head == g.food then
        var g' := moved.(score := g.score + 1, food := next, phase := phase);
        Tick(g', over, g'.score)
      else
        var g' := moved.(snake := moved.snake[..|moved.snake| - 1], phase := phase);
        Tick(g', over, g'.score)
  }

  /** Every step keeps the invariant: the moved head stays on the grid lines
      and the food stays off the snake, re-placed when it is eaten. */
  lemma StepPreservesValid(g: Game, next: Point)
    requires Valid(g) && FoodOk(g, next)
    ensures Valid(PlayStep(g, next).game)
  {
    var t := PlayStep(g, next);
    if g.phase == Playing {
      MoveKeepsAligned(g.head, g.direction);
      if !Eats(g) {
        forall i | 0 <= i < |t.game.snake|
          ensures Aligned(t.game.snake[i])
        {
          if i > 0 {
            assert t.game.snake[i] == g.snake[i - 1];
          }
        }
        assert t.game.food !in t.game.snake by {
          assert t.game.snake == [NextHead(g)] + g.snake[..|g.snake| - 1];
        }
      } else {
        assert t.game.snake == [NextHead(g)] + g.snake;
      }
    }
  }

  /** In a valid game a colliding step never eats: the food lies inside the
      field and off the snake, and a colliding head is outside the field or
      on the snake. So the collision step still drops the tail cell and the
      snake keeps its length. */
  lemma CollisionStepKeepsLength(g: Game, next: Point)
    requires Valid(g) && FoodOk(g, next)
    requires PlayStep(g, next).gameOver
    ensures !Eats(g)
    ensures |PlayStep(g, next).game.snake| == |g.snake|
    ensures PlayStep(g, next).game.score == g.score
  {
  }

  /** A step that does not collide keeps the snake free of repeated cells. */
  lemma NonCollidingStepKeepsDistinct(g: Game, next: Point)
    requires Valid(g) && FoodOk(g, next) && Distinct(g.snake)
    requires !PlayStep(g, next).gameOver
    ensures Distinct(PlayStep(g, next).game.snake)
  {
    var t := PlayStep(g, next);
    if g.phase == Playing {
      var s := t.game.snake;
      forall i, j | 0 <= i < j < |s|
        ensures s[i] != s[j]
      {
        assert s[j] == g.snake[j - 1];
        if i > 0 {
          assert s[i] == g.snake[i - 1];
        } else {
          assert s[j] in g.snake;
        }
      }
    }
  }

  /** The body test runs before the tail is dropped, so moving onto the cell
      the tail is about to leave is a collision. */
  lemma ChasingTheTailCollides(g: Game, next: Point)
    requires Valid(g) && g.phase == Playing
    requires NextHead(g) == g.snake[|g.snake| - 1]
    requires FoodOk(g, next)
    ensures PlayStep(g, next).gameOver
  {
  }

  /** The head reached its cell by moving in direction `d` from the neck; a
      direction turned straight back against `d` is accepted and collides at
      once. */
  lemma ReversalIntoNeckCollides(g: Game, d: Direction, next: Point)
    requires Valid(g) && g.phase == Playing
    requires g.head == Move(g.snake[1], d) && g.direction == Opposite(d)
    requires FoodOk(g, next)
    ensures PlayStep(g, next).gameOver
  {
    MoveUndoneByOpposite(g.snake[1], d);
  }

  /** `p` key: the phase becomes `Paused`, whatever it was. */
  function Pause(g: Game): (g': Game)
    ensures g'.phase == Paused
    ensures g' == g.(phase := g'.phase)
  {
    g.(phase := Paused)
  }

  /** `r` key: the phase becomes `Playing`, whatever it was. */
  function Resume(g: Game): (g': Game)
    ensures g'.phase == Playing
    ensures g' == g.(phase := g'.phase)
  {
    g.(phase := Playing)
  }

  /** `n` key: only a finished game is replaced, by a fresh game of the
      default size; `food` is where its food search settles. */
  function Restart(g: Game, food: Point): (g': Game)
    requires g.phase == GameOver ==> FoodSpot(DefaultConfig, StartSnake(DefaultConfig), food)
    ensures g.phase != GameOver ==> g' == g
    ensures g.phase == GameOver ==>
              && Valid(g') && g'.phase == Playing && g'.score == 0
              && g'.cfg == DefaultConfig && g'.snake == StartSnake(DefaultConfig)
              && g'.direction == Right && g'.food == food && g'.head == Point(320, 240)
  {
    if g.phase == GameOver then Init(DefaultConfig, food) else g
  }

  /** The phase keys keep the board invariant: pausing and resuming leave the
      board as it is, and a restart starts a fresh valid game. */
  lemma PhaseKeysKeepValid(g: Game, food: Point)
    requires Valid(g)
    requires g.phase == GameOver ==> FoodSpot(DefaultConfig, StartSnake(DefaultConfig), food)
    ensures Valid(Pause(g)) && Valid(Resume(g)) && Valid(Restart(g, food))
    ensures Pause(g).snake == Resume(g).snake == g.snake && Pause(g).score == Resume(g).score == g.score
  {
  }

  /** A paused step is a no-op, and resuming restores the game as it was. */
  lemma PauseFreezesGame(g: Game, next: Point)
    requires g.phase == Playing
    ensures FoodOk(Pause(g), next)
    ensures PlayStep(Pause(g), next) == Tick(Pause(g), false, g.score)
    ensures Resume(PlayStep(Pause(g), next).game) == g
  {
  }

  /** The caller supplies an input for every tick, and a food cell for every
      tick that eats. */
  predicate Feasible(g: Game, ins: seq<Input>)
    decreases |ins|
  {
    |ins| == 0 ||
    (var g0 := g.(direction := ins[0].direction);
     FoodOk(g0, ins[0].food) && Feasible(PlayStep(g0, ins[0].food).game, ins[1..]))
  }

  /** The results of successive ticks: the arrow keys of `get_user_input`
      set the direction, then `play_step` runs on the state the previous
      tick left. Unlike `main_loop`, the run goes on past a game over. */
  function Trace(g: Game, ins: seq<Input>): (ts: seq<Tick>)
    requires Feasible(g, ins)
    ensures |ts| == |ins|
    ensures |ins| > 0 ==>
              && FoodOk(g.(direction := ins[0].direction), ins[0].food)
              && ts[0] == PlayStep(g.(direction := ins[0].direction), ins[0].food)
    ensures forall k :: 0 < k < |ins| ==>
              && FoodOk(ts[k - 1].game.(direction := ins[k].direction), ins[k].food)
              && ts[k] == PlayStep(ts[k - 1].game.(direction := ins[k].direction), ins[k].food)
    decreases |ins|
  {
    if |ins| == 0 then []
    else
      var t := PlayStep(g.(direction := ins[0].direction), ins[0].food);
      [t] + Trace(t.game, ins[1..])
  }

  /** Outside `Playing`, any number of ticks report nothing and change
      nothing but the direction the player chose. */
  lemma {:induction false} StoppedGameIsFrozen(g: Game, ins: seq<Input>)
    requires g.phase != Playing
    ensures Feasible(g, ins)
    ensures forall k :: 0 <= k < |ins| ==>
              Trace(g, ins)[k] == Tick(g.(direction := ins[k].direction), false, g.score)
    decreases |ins|
  {
    if |ins| > 0 {
      var g0 := g.(direction := ins[0].direction);
      StoppedGameIsFrozen(g0, ins[1..]);
      var ts := Trace(g, ins);
      var rest := Trace(g0, ins[1..]);
      assert ts == [Tick(g0, false, g.score)] + rest;
      forall k | 0 < k < |ins|
        ensures ts[k] == Tick(g.(direction := ins[k].direction), false, g.score)
      {
        assert ts[k] == rest[k - 1];
        assert ins[1..][k - 1] == ins[k];
        assert g0.(direction := ins[k].direction) == g.(direction := ins[k].direction);
      }
    }
  }

  /** The game over is reported at most once, and every later tick returns
      the same score and the same state, up to the direction the player
      chose. */
  lemma {:induction false} GameOverReportedOnce(g: Game, ins: seq<Input>)
    requires Feasible(g, ins)
    ensures forall i, j ::
              (0 <= i < |ins| && 0 <= j < |ins| &&
               Trace(g, ins)[i].gameOver && Trace(g, ins)[j].gameOver) ==> i == j
    ensures forall i, j :: 0 <= i < j < |ins| && Trace(g, ins)[i].gameOver ==>
              && !Trace(g, ins)[j].gameOver
              && Trace(g, ins)[j].game == Trace(g, ins)[i].game.(direction := ins[j].direction)
              && Trace(g, ins)[j].score == Trace(g, ins)[i].score
    decreases |ins|
  {
    if |ins| > 0 {
      var ts := Trace(g, ins);
      var t := PlayStep(g.(direction := ins[0].direction), ins[0].food);
      var rest := Trace(t.game, ins[1..]);
      assert ts == [t] + rest;
      if t.gameOver {
        StoppedGameIsFrozen(t.game, ins[1..]);
        forall k | 0 < k < |ins|
          ensures ts[k] == Tick(t.game.(direction := ins[k].direction), false, t.score)
        {
          assert ts[k] == rest[k - 1];
          assert ins[1..][k - 1] == ins[k];
        }
      } else {
        GameOverReportedOnce(t.game, ins[1..]);
        forall k | 0 < k < |ins|
          ensures ts[k] == rest[k - 1] && ins[k] == ins[1..][k - 1]
        {
        }
      }
    }
  }

  /** The reported score never decreases from one tick to the next, whatever
      the player steers. */
  lemma {:induction false} ScoreNeverDecreases(g: Game, ins: seq<Input>)
    requires Feasible(g, ins)
    ensures forall i :: 0 <= i < |ins| ==> g.score <= Trace(g, ins)[i].score
    ensures forall i, j :: 0 <= i <= j < |ins| ==>
              Trace(g, ins)[i].score <= Trace(g, ins)[j].score
    decreases |ins|
  {
    if |ins| > 0 {
      var ts := Trace(g, ins);
      var t := PlayStep(g.(direction := ins[0].direction), ins[0].food);
      var rest := Trace(t.game, ins[1..]);
      assert ts == [t] + rest;
      ScoreNeverDecreases(t.game, ins[1..]);
      assert g.score <= t.score;
      forall k | 0 < k < |ins|
        ensures ts[k] == rest[k - 1] && g.score <= ts[k].score
      {
      }
    }
  }

  /** The starting snake heading right with the food just ahead: one step
      eats, scoring 1 with four cells and the new food off the snake. */
  lemma EatAheadScenario(next: Point)
    requires FoodSpot(DefaultConfig, [Point(340, 240)] + StartSnake(DefaultConfig), next)
    ensures FoodSpot(DefaultConfig, StartSnake(DefaultConfig), Point(340, 240))
    ensures FoodOk(Init(DefaultConfig, Point(340, 240)), next)
    ensures var t := PlayStep(Init(DefaultConfig, Point(340, 240)), next);
            !t.gameOver && t.score == 1 && |t.game.snake| == 4 && t.game.food !in t.game.snake
  {
  }

  /** A snake at the left wall heading left collides on its next step. */
  lemma LeftWallScenario(g: Game, next: Point)
    requires Valid(g) && g.phase == Playing && g.head.x == 0 && g.direction == Left
    requires FoodOk(g, next)
    ensures PlayStep(g, next).gameOver
    ensures PlayStep(g, next).game.phase == GameOver
  {
  }
}
