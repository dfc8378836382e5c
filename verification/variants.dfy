/**
 How the two variants' steps relate. From the same playing state they move
 the head, detect collisions and eat alike; they differ only on the colliding
 step, where the game-logic variant still drops the tail and the decomposed
 variant leaves it in place.
 */
module Variants {
  import opened Grid
  import opened Board
  import GameLogic
  import SnakeGame

  /** The decomposed variant's view of a game-logic state: the same fields
      without the phase. */
  function Forget(g: GameLogic.Game): (s: SnakeGame.Game)
    ensures s.cfg == g.cfg && s.direction == g.direction && s.head == g.head
    ensures s.snake == g.snake && s.score == g.score && s.food == g.food
  {
    SnakeGame.Game(g.cfg, g.direction, g.head, g.snake, g.score, g.food)
  }

  /** Both variants detect a collision on exactly the same steps, report the
      same score, and agree on the whole state when there is no collision. */
  lemma StepsAgreeUnlessColliding(g: GameLogic.Game, next: Point)
    requires GameLogic.Valid(g) && g.phase == GameLogic.Playing
    requires GameLogic.FoodOk(g, next)
    ensures SnakeGame.FoodOk(Forget(g), next)
    ensures var a := GameLogic.PlayStep(g, next);
            var b := SnakeGame.PlayStep(Forget(g), next);
            && a.gameOver == b.gameOver
            && a.score == b.score
            && (!a.gameOver ==> Forget(a.game) == b.game)
  {
    var a := GameLogic.PlayStep(g, next);
    var b := SnakeGame.PlayStep(Forget(g), next);
    if a.gameOver {
      GameLogic.CollisionStepKeepsLength(g, next);
    } else if GameLogic.Eats(g) {
      assert SnakeGame.Eats(Forget(g));
      assert a.game.snake == [GameLogic.NextHead(g)] + g.snake;
    } else {
      assert !SnakeGame.Eats(Forget(g));
      assert a.game.snake == [GameLogic.NextHead(g)] + g.snake[..|g.snake| - 1];
      assert b.game.snake == [GameLogic.NextHead(g)] + g.snake[..|g.snake| - 1];
    }
  }

  /** On a colliding step the decomposed variant's snake is the game-logic
      variant's with the old tail cell still attached, one cell longer. */
  lemma CollidingStepsDifferByTail(g: GameLogic.Game, next: Point)
    requires GameLogic.Valid(g) && g.phase == GameLogic.Playing
    requires GameLogic.FoodOk(g, next)
    requires GameLogic.PlayStep(g, next).gameOver
    ensures SnakeGame.FoodOk(Forget(g), next)
    ensures var a := GameLogic.PlayStep(g, next);
            var b := SnakeGame.PlayStep(Forget(g), next);
            && b.gameOver
            && |b.game.snake| == |a.game.snake| + 1
            && b.game.snake == a.game.snake + [g.snake[|g.snake| - 1]]
            && a.game.food == b.game.food && a.score == b.score
  {
    var a := GameLogic.PlayStep(g, next);
    GameLogic.CollisionStepKeepsLength(g, next);
    assert a.game.snake == [GameLogic.NextHead(g)] + g.snake[..|g.snake| - 1];
    assert g.snake == g.snake[..|g.snake| - 1] + [g.snake[|g.snake| - 1]];
  }
}
