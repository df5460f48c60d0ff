# goSnake game logic in Dafny

A model of the game logic of goSnake, a grid snake game written in Go on the
ebiten engine. The board has 64 × 48 cells: a 320 × 240 pixel screen in 5-pixel
tiles. The snake is a sequence of cells with the head first. It has a heading
and a counter of growth still pending. Each frame the engine calls `Update`.
A game in play counts frames and, once the count reaches `speed`, plays one
tick:

1. the snake moves one cell;
2. the arrow keys are read, under an axis lock with priority Left, Right, Up, Down;
3. the new head is checked against the walls and against the rest of the body;
4. the food is checked.

Eating adds a point and one unit of growth, puts new food on a random cell,
and cuts one frame from `speed`, but never below 2. A collision ends the game
and sets `speed` back to 10. A finished game waits for the R key, which calls
`restart`.

Layout, one module per component of `main.go`:

- `geometry.dfy` — module `Geometry`: the board constants, `Point`, the four
  headings, and the counting argument that distinct cells on the board number
  at most 64 · 48.
- `snake.dfy` — module `Snakes`: the `Snake` class (fields `body`,
  `direction`, `growCounter`; constructor = `NewSnake`; method `Move`), the
  function `MovedBody` that specifies `Move`, and the steering rule
  `NextDirection`.
- `game_rules.dfy` — module `GameRules`: the whole game state as a value and
  one function per method of `Game`.
- `game.dfy` — module `Games`: the `Game` class, with fields `snake`, `food`,
  `score`, `gameOver`, `updateCounter` and `speed`. Its methods update these in
  place, and each one is proved to leave `State()` equal to the `GameRules`
  function of the same name applied to the old state. `CheckCollisions` keeps
  the source's loop over `Body[1:]`, with its invariants.
- `game_properties.dfy` — module `GameProperties`: an invariant of every
  reachable state, runs of many frames (`Run`), lemmas about runs, and
  concrete scenarios.

External inputs are parameters:

- the held arrow keys are a `Keys` value of four booleans;
- the "R newly pressed" edge is a boolean;
- the cell `rand.Intn` would produce for new food is a `Point` that must lie
  on the board, because that is the range of `rand.Intn`.

Details of the code's behaviour that the model keeps and proves:

- `Update` moves the snake before it reads the arrow keys (main.go:150-152). A
  key press therefore steers the next tick (`KeyTakesEffectNextTick`).
- `CheckCollisions` calls `CheckFoodConsumption` even when it has just ended the
  game, so a snake that bites itself on the food cell still scores, grows and
  speeds up (`DeathTickStillEats`).
- `restart` does not reset `updateCounter`. This is harmless: a finished game
  always has the counter at 0 (`RestartGivesInitialState`).
- A length bound of 64 · 48 is proved only for a game in play; a finished
  game is proved to have at most 64 · 48 + 1 cells. A snake in play that fills
  the board with growth pending ends the game on its next tick with exactly
  64 · 48 + 1 cells (`FullBoardDeathOverflows`). The model does not prove that
  such a state can be reached.
- The program hands `RunGame` a zero-valued `Game`: nil snake, `speed` 0. Its
  first `Update` reaches the tick, because `1 < 0` is false, and calls `Move`
  through the nil snake. The model starts instead from the state `restart`
  produces (`GameRules.Initial`, `Games.Game.constructor`).

## Model

| member | source | states |
|---|---|---|
| `Geometry.DistinctCellsFitBoard` | main.go:15-19 | pairwise distinct cells that all lie on the 64 × 48 board are at most 64 · 48 in number |
| `Snakes.StartIsCentre` | main.go:59-65 | a fresh snake starts at (32, 24), the centre cell, which is on the board |
| `Snakes.MovedBody` | main.go:67-81 | after a step the head is the old head plus the heading and each later cell is the old cell one place ahead; the length grows by one exactly when growth is pending and is otherwise unchanged, so it stays at least 1 |
| `Snakes.NextDirection` | main.go:91-101 | a turn happens only on a held key that the axis lock allows; among allowed keys the first in the order Left, Right, Up, Down wins; with no allowed key the heading is kept; a unit heading stays a unit heading and is never reversed |
| `Snakes.TurnsArePerpendicular` | main.go:91-101 | from a horizontal heading the result is the same heading, Up or Down; from a vertical one it is the same heading, Left or Right |
| `Snakes.MovePreservesConnected` | main.go:67-81 | a step along a unit heading keeps every two consecutive body cells side by side |
| `Snakes.Snake.constructor` | main.go:59-65 | a new snake is the single cell START, heading right, with no growth pending |
| `Snakes.Snake.Move` | main.go:67-81 | the body becomes `MovedBody` of the old body, heading and counter; pending growth drops by one if positive; the heading is unchanged |
| `GameRules.NewFood` | main.go:50-57 | new food lies at the generator's chosen cell, on the board |
| `GameRules.Restart` | main.go:83-89 | score 0, speed 10, game in play, a one-cell snake at the centre heading right with no growth pending, food on the board; the frame counter is untouched |
| `GameRules.Initial` | main.go:83-89 | the starting state is in play with score 0, speed 10, frame counter 0 and a fresh snake |
| `GameRules.MakeGameOver` | main.go:104-108 | the game is over and speed is 10; every other part of the state is unchanged |
| `GameRules.CheckFoodConsumption` | main.go:110-120 | on the food cell: score + 1, growth + 1, food at the new cell on the board, speed − 1 only when above 2, nothing else changes; elsewhere the state is unchanged |
| `GameRules.CheckCollisions` | main.go:122-134 | the game is over afterwards exactly when it was over already, the head is outside [0,64) × [0,48), or the head equals a body cell at index 1 or later; the body, heading and counter are untouched; the food check follows, after game over if there was a collision |
| `GameRules.MoveSnake` | main.go:150 | the snake's step changes only the body and the growth counter: the body becomes `MovedBody` (head advanced by the heading, every later cell the old one a place ahead), so the length grows exactly when growth is pending |
| `GameRules.UpdateSnakeDirection` | main.go:91-102 | only the heading changes, and it changes by the steering rule |
| `GameRules.Tick` | main.go:148-155 | the tick moves the body on the heading held before the keys are read, then steers by the keys; the game is over afterwards exactly when it was already or the new head is off the board or on the rest of the moved body; the frame counter is not touched; when the new head is on the food the score and growth rise by one, the food moves to the chosen cell and the speed left by the collision checks drops by one if above 2, and otherwise score, food and speed (10 after a collision) stay |
| `GameRules.Update` | main.go:136-158 | a finished game ignores everything but R, and R restarts it; a game in play below the speed threshold only counts the frame; at the threshold the counter goes back to 0, the snake moves on the heading it had before the keys were read, then turns by the keys, then the checks run; the body never becomes empty |
| `Games.Game.constructor` | main.go:83-89 | the new game's state is `GameRules.Initial` with a fresh snake |
| `Games.Game.Restart` | main.go:83-89 | the state becomes `GameRules.Restart` of the old state, with a fresh snake object |
| `Games.Game.UpdateSnakeDirection` | main.go:91-102 | the state becomes `GameRules.UpdateSnakeDirection` of the old state and the keys |
| `Games.Game.MakeGameOver` | main.go:104-108 | the state becomes `GameRules.MakeGameOver` of the old state; only `gameOver` and `speed` may be written |
| `Games.Game.CheckFoodConsumption` | main.go:110-120 | the state becomes `GameRules.CheckFoodConsumption` of the old state |
| `Games.Game.CheckCollisions` | main.go:122-134 | the state becomes `GameRules.CheckCollisions` of the old state: the loop over `Body[1:]` ends the game exactly when the head meets one of those cells |
| `Games.Game.Update` | main.go:136-158 | the state becomes `GameRules.Update` of the old state and the frame's input; the game keeps its snake object unless a restart gives it a new one |
| `GameProperties.InitialInv` | main.go:83-89 | the starting state satisfies the invariant |
| `GameProperties.MoveKeepsDistinctOnBoard` | main.go:122-130 | a step whose new head passes the wall and body checks keeps every cell on the board and no cell repeated |
| `GameProperties.TickPreservesInv` | main.go:148-155 | a tick keeps the invariant: speed in [2,10], counter below speed, food on the board, unit heading, no step back into the neck, consecutive cells side by side, at most 64 · 48 + 1 cells, and a snake still in play on the board with no repeated cell |
| `GameProperties.UpdatePreservesInv` | main.go:136-158 | every frame keeps the invariant, including a restart from a finished game |
| `GameProperties.Run` | main.go:136-158 | the state after any number of frames still satisfies the invariant |
| `GameProperties.ReachableStates` | main.go:83-89 | from the starting state, whatever the keys and random choices: speed in [2,10], food on the board, between 1 and 64 · 48 + 1 body cells, consecutive cells side by side, and at most 64 · 48 cells while in play |
| `GameProperties.FullBoardDeathOverflows` | main.go:73-79 | a snake in play that fills the board with growth pending ends the game on its next tick with 64 · 48 + 1 cells |
| `GameProperties.LengthFitsBoard` | main.go:122-130 | in every state satisfying the invariant, a snake still in play has at most 64 · 48 cells |
| `GameProperties.ScoreStep` | main.go:136-158 | a frame that does not restart a finished game never lowers the score and raises it by at most one |
| `GameProperties.ScoreNeverDecreases` | main.go:110-120 | over any run in which no frame restarts the game (R may be held while in play) the score never falls and rises by at most one per frame |
| `GameProperties.GameOverWaitsForRestart` | main.go:137-142 | a finished game stays exactly as it is over any run without the restart key |
| `GameProperties.RestartGivesInitialState` | main.go:83-89 | restarting a reachable finished game gives exactly the starting state, frame counter 0 included |
| `GameProperties.RestartKeyIgnoredInPlay` | main.go:137-147 | in a game that is in play, the restart key makes no difference |
| `GameProperties.FeedEffect` | main.go:110-120 | n meals in a row add n points and n units of growth, bring speed to max(2, speed − n), and leave the body and the game-over flag alone |
| `GameProperties.SpeedAfterMeals` | main.go:116-118 | from speed 10, speed after n ≤ 8 meals is 10 − n, and after 8 or more it is 2 |
| `GameProperties.WallScenario` | main.go:122-125 | a snake at (63, 24) heading right dies on its next tick, whatever keys are held |
| `GameProperties.SelfCollisionScenario` | main.go:126-130 | a five-cell snake whose next head lands on its own body dies, with speed 10 and the score unchanged |
| `GameProperties.DeathTickStillEats` | main.go:132 | when the biting cell holds the food, the dying tick still adds a point, one unit of growth, and lowers speed to 9 |
| `GameProperties.KeyTakesEffectNextTick` | main.go:150-152 | Up held on the frame of a tick leaves the head one cell to the right, with the heading now Up |
| `GameProperties.EndToEndScenario` | main.go:136-142 | dying at the wall and then pressing R gives a game in play with score 0, speed 10, the snake at the centre and the new food cell |

## Left out

- `Draw`, `Layout` and `main` (main.go:46-48, main.go:160-201): drawing, window setup and the engine's run loop, which are calls into the graphics library with float32 pixel coordinates.
- Polling the keyboard through `ebiten.IsKeyPressed` and `inpututil.IsKeyJustPressed`: replaced by the booleans of `Keys` and `Input.restartPressed`.
- `rand.Intn` in `NewFood`: replaced by the chosen cell `Input.foodChoice`, which must lie on the board. The model has no probability, so it says nothing about uniformity. It also says nothing about food landing under the snake, which the source allows.
- The `error` result of `Update`: it is always nil, so the method returns nothing.
- The zero-valued `Game` given to `RunGame`, whose nil snake the first `Update` would dereference. The model starts from the state `restart` produces.
- Fonts, colours, text overlays and the score line.
- Go's `int` is 64 bits wide and the model's integers are unbounded. The frame counter stays below 10 in every reachable state (`GameProperties.Inv`). The score would need about 2^63 meals to overflow, so its wrap-around is not modelled.
- GameProperties.ReachableStates: bounds the body by 64 · 48 only while the game is in play, and by 64 · 48 + 1 once it is over. The tick that ends the game has already added the new head, and it keeps the tail when growth is pending, so a finished body can be one cell longer than the board.
