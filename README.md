# Snake game state machine, modelled in Dafny

This project models the game logic of a browser Snake game (`public/snake.js`).
The script keeps its state in module-level variables: the snake as a list of
`{x, y}` segments (head first), the score, the velocity `dx`/`dy`, the
direction lock `changingDirection`, and the food position `foodX`/`foodY`.
Four routines change or read that state:

- `advanceSnake` adds a new head one velocity step ahead. On the food it scores
  10 and places new food. Otherwise it drops the tail.
- `didGameEnd` reports whether the head lies on a segment at index 4 or later,
  or outside the canvas.
- `changeDirection` is the keydown handler, with the direction lock.
- `createFood` places food by drawing random grid cells until one is free.

The timer callback (`main`/`onTick`) fixes the order of one tick: the end test
first, then the lock is cleared, and only then does the snake advance.

Files:

- `rules.dfy`, module `SnakeRules`: value-level rules. It holds points and
  headings, the end-of-game condition, steering by key code, the lock as a
  function over a run of key presses, and food placement as rejection sampling
  over a sequence of random draws.
- `game.dfy`, module `SnakeGame`: class `Game`. Its fields are the script's
  variables. Its methods `CreateFood`, `Advance`, `DidGameEnd`,
  `ChangeDirection` and `Tick` update them in place, as the script does. The client method `DeliverKeys` hands a run of keydown
  events to the handler between two ticks, and three client methods at the end
  replay concrete games from the contracts alone.

`Game.Valid()` is the object invariant that every tick and every key press
preserve:

- the snake has at least 5 segments, all on the 10-pixel grid;
- each segment is one step from the next, and no segment sits two places behind itself;
- the score is 10 for every segment grown;
- the velocity is one of the four headings and never points into the neck;
- the food is a grid cell inside the field and not under the snake;
- while no key press has been accepted since the last step, the velocity is the one of that step.

From these facts, `CutoffIsExact` shows that the test from index 4 on misses
no self-collision: segments 1 to 3 can never be under the head.

The comment on `changingDirection` (`public/snake.js:29`) reads as if the flag
marks a turn in progress. The code (`public/snake.js:217-219`) sets it on every
key press made while unlocked, including keys that are not arrows and a rejected
reversal. The model follows the code.

## Model

| member | source | states |
|---|---|---|
| `SnakeGame.Game.constructor` | public/snake.js:10-48 | Start-up: the five-segment snake on row 150 with head (150,150), score 0, velocity (10,0), lock clear; the first food is the first free cell drawn; the invariant holds |
| `SnakeGame.Game.CreateFood` | public/snake.js:157-168 | The food ends up on the first drawn cell that is not under the snake, so it is under no segment |
| `SnakeRules.FirstFree` | public/snake.js:157-168 | Rejection sampling: the chosen index holds a free cell and every earlier draw was under the snake |
| `SnakeGame.Game.Advance` | public/snake.js:103-125 | New head = old head + (dx,dy). On the food: the snake is [head] + old snake (length +1), score +10, new food = first free draw for the grown snake. Otherwise: the snake is [head] + old snake without its last segment (length unchanged), score and food unchanged. The invariant is restored |
| `SnakeGame.Game.DidGameEnd` | public/snake.js:131-142 | True exactly when some segment at index >= 4 equals the head, or head.x < 0, head.x > width-10, head.y < 0 or head.y > height-10; under the invariant, exactly when the head lies on any other segment or outside the field |
| `SnakeRules.CutoffIsExact` | public/snake.js:131-134 | For a connected snake that never folded back, the index-4 test is equivalent to "the head lies on any other segment" |
| `SnakeRules.InitialSnakeAlive` | public/snake.js:10-25 | The start-up snake does not end the game on a field of at least 160 x 160 |
| `SnakeRules.KeyHeading` | public/snake.js:205-208 | Only the codes 37, 38, 39 and 40 ask for a heading, and each asks for one of the four headings |
| `SnakeRules.Steer` | public/snake.js:223-246 | An accepted key press keeps a heading a heading and never produces the exact reverse of the current velocity; the velocity becomes the heading of an arrow key exactly when that heading is not the reverse of the current velocity, and otherwise stays as it was |
| `SnakeGame.Game.ChangeDirection` | public/snake.js:204-247 | While locked nothing changes. Otherwise the lock is set whatever the key, and the velocity becomes Steer(old velocity, key); the four `going*` tests of the source compute exactly that. The invariant holds, so the velocity never points into the neck |
| `SnakeRules.LockedIgnoresKeys` | public/snake.js:217 | Once the lock is set, any run of further key presses changes neither velocity nor lock |
| `SnakeRules.FirstKeyDecides` | public/snake.js:217-219 | Between two ticks, a run of key presses has the effect of its first press alone |
| `SnakeRules.AtMostOneTurn` | public/snake.js:210-219 | However many keys arrive between two steps, the velocity turns at most once (to Steer of the first key, and only if unlocked), stays a heading and is never the reverse of what it was |
| `SnakeRules.TwoTurnsWouldReverse` | public/snake.js:210-215 | Without the lock, for every heading some two accepted key presses within one tick would take the snake to the reverse heading (for a snake moving right: down, then left), which is the scenario the lock exists for |
| `SnakeGame.DeliverKeys` | public/snake.js:204-247 | A run of keydown events handled by the game between two ticks leaves velocity and lock as `Presses` says, which is the effect of its first press alone; the velocity is never the reverse of what it was and turns at most once, to Steer of the first key; the invariant holds |
| `SnakeGame.Game.Tick` | public/snake.js:56-70 | If the game has ended nothing changes and the tick reports it. Otherwise the lock is clear afterwards and the snake has advanced with the velocity it had, growing and scoring exactly when the new head was on the food |
| `SnakeGame.StepRightScenario` | public/snake.js:103-124 | From start-up with food elsewhere, one tick gives head (160,150) and five segments, so the tail was dropped, and score 0 |
| `SnakeGame.EatScenario` | public/snake.js:112-120 | Food just ahead of the head: one tick gives six segments and score 10, and the new food skips a draw that lies on the snake |
| `SnakeGame.WallScenario` | public/snake.js:131-141 | On a field 160 wide the first tick runs and takes the head to x = 160, and the second tick reports that the game has ended |

## Left out

- Drawing (`clearCanvas`, `drawFood`, `drawSnake`, `drawSnakePart`, the colour constants) is left out. It changes no game state.
- DOM access is left out: the canvas lookup, the score text written at line 117, and the keydown listener. The canvas size becomes the constructor parameters `width` and `height`, required to be positive multiples of 10. A key event becomes its integer key code.
- `setTimeout` rescheduling and `GAME_SPEED` are left out. One tick is one call of `Tick`, and the caller decides whether to call again after it reports the end.
- `randomTen` uses floating point (`Math.random`, `Math.round`) and is not modelled. Its results become a sequence `draws` of grid cells inside the field. With a field whose sides are multiples of 10, `randomTen` returns exactly such cells.
- SnakeGame.Game.CreateFood: the source retries until it succeeds, which ends only with probability 1. The model requires that some supplied draw is free, so it does not model a board with no free cell. `Advance`, `Tick` and the constructor pass this requirement on for the case where food is eaten.
- Before the first `createFood` call, `foodX`/`foodY` are undefined. The constructor places the food at once, so that state does not exist in the model.
- SnakeGame.Game.Advance: requires the invariant without its last clause, since `Tick` clears the lock just before advancing. It is only ever called from `Tick`.
- The velocity fields `dx`/`dy` are outside the frame of `Advance` and `Tick`, so those methods leave the velocity unchanged.
- SnakeGame.Game.ChangeDirection: requires the object invariant, so the velocity before the call is one of the four headings. For any other velocity, the source's `going*` tests and `Steer` can differ, and such velocities never occur.
