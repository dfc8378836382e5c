# Snake game step function in Dafny

This project models the core of a small grid Snake game, which the repository implements twice:

- `game.py` (`GameLogic`) puts the step behind a phase machine `PLAYING` / `PAUSED` / `GAME_OVER`.
- `snake.py` (`SnakeGame`) splits the same logic into small methods and has no phases.

Both variants keep the same state: a snake, which is an ordered list of grid cells with the head first; a direction; a score; and one food cell. On each tick the step does four things:

1. It moves the head one block (20 pixels) in the current direction.
2. It inserts the new head at the front of the snake.
3. It checks whether the head left the field or hit the body.
4. The snake then either eats the food, gaining a point and getting new food away from the snake, or drops its last cell.

Modules:

- `Grid` (grid.dfy): cells, directions, the one-block `Move`, the field bounds and the starting snake. Both variants share these.
- `Board` (board.dfy): food placement as a retry over random draws, and the board invariant `Consistent`. Both variants share these.
- `GameLogic` (game_logic.dfy): the game.py variant, with its phases, its step, the pause/resume/restart transitions and traces of several steps.
- `SnakeGame` (snake_game.dfy): the snake.py variant.
- `Variants` (variants.dfy): how the two steps relate when started from the same state.

Modelling choices:

- Coordinates are unbounded `int`s.
- A field is `WellFormed` when `w` and `h` are positive multiples of `2 * BLOCK_SIZE`, as the default 640x480 is. Then the Python `w/2` and `h/2` are whole numbers on the grid.
- Python's `//` rounds down. So does Dafny's `/` when the divisor is positive, and the block size always is.
- Randomness is supplied by the caller:
  - `Board.PlaceFood` is given the sequence of `randint` results and follows the recursive retry.
  - Each step function is given `next`, the cell where that retry settles. When the step eats, the step requires `next` to be a cell the retry can return: on the grid, inside the field and off the grown snake. `Board.EveryFoodSpotReachable` and `Board.PlaceFood` show that these are exactly the retry's possible outcomes.
- `head` is a field of its own, as in the source. The invariant `Valid` ties it to `snake[0]`.

Points where the two variants differ, or where the code's behaviour is easy to misread. The model follows the code in each:

- A colliding step leaves the body "grown", with the new head inserted and the tail kept, only in snake.py. game.py does not return early on a collision: it still runs the eat-or-pop branch. In a valid state a colliding head is never on the food, so game.py drops the tail and its snake keeps its length (`GameLogic.CollisionStepKeepsLength`, `Variants.CollidingStepsDifferByTail`).
- The collision bound is easily read as "outside `[0, w) x [0, h)`". The code tests `x > w - BLOCK_SIZE or x < 0` and the same for y. The two agree for grid-aligned heads on fields that are whole blocks wide and high (the contract of `Grid.OutOfBounds`). The model uses the code's test.
- The body test is made against the snake after the head is inserted and before the tail is dropped. Moving onto the cell the tail is about to leave therefore counts as a collision (`GameLogic.ChasingTheTailCollides`).
- In game.py the `r` key sets `PLAYING` from any phase, `GAME_OVER` included, and the `n` key restarts a finished game. `GameLogic.Resume` and `GameLogic.Restart` model both. The program itself never reaches them after a game over: `main_loop` quits on the first reported game over (game.py:134-137).
- A run of several ticks (`Trace` in both variants) takes one `Input` per tick: the direction in force for that tick, as the arrow keys may set it before every `play_step`, and the food cell for a tick that eats. The run lemmas therefore hold whatever the player steers. The game-over-once lemma (`GameLogic.GameOverReportedOnce`) covers runs without the pause, resume and restart keys.

## Model

| member | source | states |
|---|---|---|
| Grid.Move | game.py:70-81 | the new head is one block from the old one: on the same row for Left/Right and the same column for Up/Down, with the coordinate on the direction's axis moving the way the direction points |
| Grid.MoveUndoneByOpposite | snake.py:72-83 | moving back the opposite way returns the head to where it started, so `move` is injective for a fixed direction |
| Grid.MoveKeepsAligned | game.py:70-81 | a move keeps a grid-aligned head on the grid lines |
| Grid.OutOfBounds | game.py:64-65 | for an aligned head on a field a whole number of blocks wide and high, the bound test `x > w-B or x < 0 or y > h-B or y < 0` holds exactly when the head lies outside `[0, w) x [0, h)` |
| Grid.StartSnake | game.py:30-31 | the starting snake has three distinct cells at mid-height, head at `(w/2, h/2)`, each further cell one block left of the one before, all aligned on a well-formed field |
| Board.PlaceFood | game.py:37-42 | the retry returns the first drawn cell that is off the snake; that cell is aligned, inside `[0, w-B] x [0, h-B]` and not in the snake; it finds nothing exactly when every supplied draw lands on the snake |
| Board.DrawIsOnGrid | game.py:38-39 | every cell `randint(0, (w-B)//B) * B`, `randint(0, (h-B)//B) * B` can produce is aligned and inside the field |
| Board.OnGridIsDrawn | snake.py:54-55 | every aligned cell inside the field is produced by exactly one pair of `randint` results |
| Board.EveryFoodSpotReachable | snake.py:53-58 | every aligned in-field cell off the snake is a possible food placement, reached with a single draw |
| GameLogic.Init | game.py:26-35 | a new game has the starting snake with the head field equal to its first cell, score 0, direction Right, phase Playing, and food on a free grid cell |
| GameLogic.IsCollision | game.py:63-68 | `_is_collision` holds exactly when the head is outside `[0, w-B] x [0, h-B]` or equals some snake cell other than the first; for an aligned head on a well-formed field, exactly when it has left `[0, w) x [0, h)` or meets such a cell |
| GameLogic.PlayStep | game.py:44-61 | outside Playing nothing changes and `(False, score)` is returned. In Playing the head moves one block and is the first cell. A game over is reported exactly when the new head is off the field or on the old snake, and the phase then becomes GameOver. A miss keeps the length, drops the last cell and keeps score and food. A hit adds one cell and one point and puts the new food off the snake |
| GameLogic.StepPreservesValid | game.py:44-61 | every step keeps the invariant: at least three aligned cells, head first, food on a free grid cell, score non-negative |
| GameLogic.CollisionStepKeepsLength | game.py:51-59 | in a valid game a colliding step never eats, so it still pops the tail: length and score are unchanged |
| GameLogic.NonCollidingStepKeepsDistinct | game.py:47-59 | a step without collision keeps the snake free of repeated cells |
| GameLogic.ChasingTheTailCollides | game.py:47-53 | moving onto the cell the tail is about to leave is reported as a collision |
| GameLogic.ReversalIntoNeckCollides | game.py:47-53 | when the head came from the neck by moving in direction `d`, heading the opposite way is not prevented and collides at once |
| GameLogic.Pause | game.py:121-122 | the phase becomes Paused from any phase; nothing else changes |
| GameLogic.Resume | game.py:123-124 | the phase becomes Playing from any phase, GameOver included; nothing else changes |
| GameLogic.Restart | game.py:125-126 | only a finished game is replaced, by a valid fresh 640x480 game in phase Playing with score 0, the starting snake, head at (320, 240), direction Right and the food its own search settled on; any other game is left as it is |
| GameLogic.PhaseKeysKeepValid | game.py:121-126 | pausing, resuming and restarting keep the board invariant; pausing and resuming leave snake and score as they are |
| GameLogic.PauseFreezesGame | game.py:44-46 | a step of a paused game returns `(False, score)` and changes nothing, and resuming gives back the game as it was before the pause |
| GameLogic.Trace | game.py:128-131 | tick k of a run sets the direction to input k's and then steps the state tick k-1 left (the start state for tick 0), with input k's food for a tick that eats; one result per input. Unlike `main_loop`, the run goes on past the first game over |
| GameLogic.StoppedGameIsFrozen | game.py:44-46 | outside Playing, every tick of any run returns `(False, score)` and leaves the state as it was apart from the direction the player chose |
| GameLogic.GameOverReportedOnce | game.py:46-53 | in any run of ticks, with any steering, the game over is reported at most once, and every later tick returns False with the same score and the same state apart from the chosen direction |
| GameLogic.ScoreNeverDecreases | game.py:55-56 | in any run, with any steering, the reported score never decreases |
| GameLogic.EatAheadScenario | game.py:44-61 | from the 640x480 start with the food just right of the head, one step scores 1, leaves four cells and puts the new food off the snake |
| GameLogic.LeftWallScenario | game.py:63-65 | a playing snake at `x = 0` heading left collides on its next step and the phase becomes GameOver |
| SnakeGame.Init | snake.py:40-45 | a new game is valid, with score 0, direction Right and food on a free grid cell |
| SnakeGame.InitSnakeInARow | snake.py:47-51 | the starting snake is three distinct cells at `y = h/2`, the head at `x = w/2` and cell `i` at `x = w/2 - i*B` |
| SnakeGame.IsCollision | snake.py:60-61 | for an aligned head on a well-formed field, `is_collision` holds exactly when the head is outside `[0, w) x [0, h)` or equals a snake cell other than the first |
| SnakeGame.HeadInBoundary | snake.py:63-67 | despite its name, true exactly when an aligned head on a well-formed field has left `[0, w) x [0, h)` |
| SnakeGame.HeadInSnake | snake.py:69-70 | true exactly when the head equals a snake cell at index 1 or later |
| SnakeGame.MoveHead | snake.py:72-83 | only the head changes, and it moves to a cell one block away in the given direction |
| SnakeGame.UpdateScoreOrPop | snake.py:134-139 | on the food, the score rises by one, the snake is kept and the food moves off the snake; otherwise the score and food stay and exactly the last cell is removed |
| SnakeGame.PlayStep | snake.py:98-114 | the head moves one block and is the first cell. A collision is reported exactly when it is off the field or on the old snake, and then the snake keeps the inserted head (old length + 1) with score and food unchanged. A miss keeps the length and drops the last cell. A hit adds one cell and one point and puts the food off the snake |
| SnakeGame.StepPreservesValid | snake.py:98-114 | every step keeps the invariant, the colliding step included |
| SnakeGame.LengthChange | snake.py:101-112 | the snake grows by exactly one on a collision or a meal and keeps its length otherwise |
| SnakeGame.Trace | snake.py:141-148 | tick k of a run lets `handle_events` (snake.py:99) set the direction to input k's and then steps the state tick k-1 left (the start state for tick 0), with input k's food for a tick that eats; one result per input. Unlike `run_game`, the run goes on past a collision |
| SnakeGame.ScoreNeverDecreases | snake.py:134-137 | over any run, with any steering, the score never decreases and rises by at most one per tick |
| Variants.StepsAgreeUnlessColliding | game.py:47-59 | from the same playing state both variants report the same game-over flag and score, and without a collision they reach the same state |
| Variants.CollidingStepsDifferByTail | snake.py:104-107 | on a colliding step the snake.py snake is the game.py snake with the old tail cell still attached, one cell longer; food and score agree |

## Left out

- Drawing, fonts, the window, the clock and event polling are pygame I/O and are not modelled: `GameUI`, `init_display`, `update_ui`, `handle_events` and the `main_loop` / `run_game` loops.
- Mapping keys to directions is not modelled. The direction in force for each tick is an input of a run. Only the phase keys of game.py are modelled (`Pause`, `Resume`, `Restart`), and runs of ticks do not interleave them.
- The random generator is not modelled. Draws and the settled food cell are inputs. A full board is not modelled: there no draw is ever free, and the step's food requirement cannot be met.
- Board.PlaceFood: does not model Python's recursion limit. `_place_food` and `place_food` retry by calling themselves, so CPython raises `RecursionError` once the nesting passes the interpreter's limit (1000 frames by default, counting the caller's frames). That happens on a full board, and on a nearly full one after a long run of unlucky draws. The model instead returns the first free draw however many draws come before it. The exact depth depends on the call stack at run time, so the model states no bound.
- Python's float result of `w/2` is not modelled. Fields are restricted to positive multiples of 40 pixels, so the centre is an integer on the grid.
- Process exit, `quit()` and printing the final score are not modelled.
- Steps after the game is over in snake.py are not modelled: `run_game` stops at the first collision. The model's `SnakeGame.PlayStep` can still be applied after that.
