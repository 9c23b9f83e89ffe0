# Snake game engine — a Dafny model

This project models the engine of a single-player Snake game on a 40 × 30
grid. The game's state is the body of the snake, head first. It also holds a
direction (0 up, 1 right, 2 down, 3 left), a food cell, a count of food eaten
and a game-over flag. Four handlers change that state:

- start-up, which builds the start body and places the first food;
- the timer tick, which does nothing once the game is over and otherwise moves the snake;
- the arrow-key handler, which turns the snake unless the key points back the way it is heading;
- the restart button.

The project has three modules:

- `Board` (board.dfy): cells, directions and keys. It also holds Java's
  32-bit `int` increment, because the food counter is a Java `int`.
- `Engine` (engine.dfy): the engine as values. It defines the `State`, one
  function per handler (`TickSpec`, `KeySpec`, `RestartSpec`), runs of many
  events (`Run`) and the invariant `Inv` that every reachable state satisfies.
  The lemmas about these functions are here too.
- `SnakeGame` (game.dfy): the class `Game`, whose fields and methods mirror
  the game object's. Each method is proved to leave the fields equal to the
  matching `Engine` function applied to the old fields. The two index loops
  of the source are separate methods: `StartBody` builds the start body and
  `HeadCollides` scans for self-collision.

What the model captures, as the code does it:

- The start body is `StartLength(n)` cells stacked on the centre (20, 15).
  Its length is `n` when `0 < n < 1200`, and 1 otherwise. The shipped value
  of `n` is 4 (`StartLenSnake`). The model does not spread the cells out.
  `StackedStartOverlaps` shows such a body already meets the self-collision
  condition. `FirstTickAfterStart` shows that the first move never reports
  it, whichever direction a key selected before that move.
- A tick runs all three end-of-game checks; the bounds check does not
  return early (Main.java:186-203). Each check can only set the flag.
- Restart resets the body, the food, the direction and the flag, but not
  `foodCounter` (Main.java:229-240).
- The key handler does not read the flag (Main.java:105-118). It is attached
  to the game scene, and every line that sets the flag also switches to the
  game-over scene, so no key reaches it while the game is over.
- Food may land on the body: the replacement food cell is any in-bounds cell
  the caller supplies.
- `Inv` bounds the coordinates to [-1, 40] × [-1, 30], so the Java `int`
  coordinate arithmetic never overflows. The model uses unbounded `int` for
  coordinates for that reason.

The no-reverse rule compares a key with the pending direction, not with the
direction of the last move. So two keys pressed between ticks (up, then left,
while moving right) turn the snake back onto its neck.
`QuickTurnBackEndsGame` shows that the next tick then ends the game.

## Model

| member | source | states |
|---|---|---|
| `Board.Cell.Equals` | SnakeAI/src/sample/Main.java:258-264 | comparing two points field by field is exactly structural equality of cells |
| `Board.Step` | SnakeAI/src/sample/Main.java:171-176 | the new cell is at Manhattan distance 1. The x coordinate is kept exactly for up and down (codes 0, 2). The coordinate sum falls exactly for up and left (codes 0, 3) |
| `Board.Reverse` | SnakeAI/src/sample/Main.java:106-116 | the reverse of a direction differs from it and lies on the same axis (the pairs up/down and right/left the key handler tests) |
| `Board.StepThenReverse` | SnakeAI/src/sample/Main.java:171-176 | a step followed by a step in the reverse direction returns to the starting cell |
| `Board.NextDirection` | SnakeAI/src/sample/Main.java:105-118 | the resulting direction is never the reverse of the current one. It is either unchanged or the key's code. It is the key's code whenever the key is an arrow that does not reverse |
| `Board.Inc32` | SnakeAI/src/sample/Main.java:181 | incrementing the food counter agrees with two's-complement truncation of n + 1. It is n + 1 below the `int` maximum |
| `Engine.StartLength` | SnakeAI/src/sample/Main.java:121-123 | the start length lies in [1, 1200). It equals the configured length exactly when that is in (0, 1200), and is 1 otherwise |
| `Engine.StartSnake` | SnakeAI/src/sample/Main.java:121-128 | the start body has the normalised length and every cell is the centre |
| `Engine.Advance` | SnakeAI/src/sample/Main.java:172-184 | the moved body is non-empty and its head is one step ahead. Behind the head it is the old body (food reached) or the old body without its last cell |
| `Engine.MoveSpec` | SnakeAI/src/sample/Main.java:166-204 | a move of a running game keeps the invariant: body of 1 to 1200 cells, coordinates within one cell of the field, food on the field, counter an `int`, and while running the whole body on the field and shorter than the board |
| `Engine.TickSpec` | SnakeAI/src/sample/Main.java:137-145 | a timer event keeps the invariant |
| `Engine.KeySpec` | SnakeAI/src/sample/Main.java:105-118 | a key press keeps the invariant and changes only the direction; the handler does not read the over-flag. The new direction is never the reverse of the old |
| `Engine.RestartSpec` | SnakeAI/src/sample/Main.java:228-242 | a restart yields a state satisfying the invariant |
| `Engine.Run` | SnakeAI/src/sample/Main.java:132-154 | every sequence of timer, key and restart events keeps the invariant; in particular the body is never empty |
| `Engine.TickMovesHead` | SnakeAI/src/sample/Main.java:168-176 | after a tick of a running game the head is the old head moved one step in the current direction |
| `Engine.TickGrowth` | SnakeAI/src/sample/Main.java:179-184 | if the new head is on the food, the length grows by one, the counter is incremented and the food is replaced. Otherwise length, counter and food are unchanged |
| `Engine.TickKeepsBody` | SnakeAI/src/sample/Main.java:172-184 | behind the new head the body is the old body when the new head is on the food, and the old body less its last cell otherwise. The direction is unchanged |
| `Engine.TickEndsGame` | SnakeAI/src/sample/Main.java:186-203 | after a tick of a running game the flag is set exactly when the head is off the field, or equals a body cell at index 1 or more, or the length is 40 × 30 |
| `Engine.TickWhileOver` | SnakeAI/src/sample/Main.java:137-139 | a timer event while the game is over leaves the whole state unchanged |
| `Engine.RestartResets` | SnakeAI/src/sample/Main.java:229-240 | after a restart every cell is (20, 15) and the length is the configured length if in (0, 1200), else 1. The direction is 1, the flag is clear and the food is the new cell. The food counter is unchanged |
| `Engine.StackedStartOverlaps` | SnakeAI/src/sample/Main.java:124-127 | a stacked start body of more than one cell already meets the self-collision condition |
| `Engine.FirstTickAfterStart` | SnakeAI/src/sample/Main.java:121-130 | whatever direction keys selected before it, the first tick after a start ends the game exactly when the start body has 1199 cells and the first step reaches the food, filling the board |
| `Engine.OverUntilRestart` | SnakeAI/src/sample/Main.java:137-139 | once the game is over, any run of timer and key events leaves it over. Body, food and counter stay unchanged |
| `Engine.KeysOnlyTurn` | SnakeAI/src/sample/Main.java:105-118 | any run of key presses leaves body, food, counter and flag unchanged |
| `Engine.QuickTurnBackEndsGame` | SnakeAI/src/sample/Main.java:105-118 | for a snake of three cells moving right, the keys up then left followed by one tick end the game, wherever the food lies |
| `SnakeGame.StartBody` | SnakeAI/src/sample/Main.java:121-128 | the loop builds a body of the normalised start length whose every cell is the centre |
| `SnakeGame.HeadCollides` | SnakeAI/src/sample/Main.java:192-198 | the scan reports a hit exactly when some cell at index 1 or more equals the head |
| `SnakeGame.Game.constructor` | SnakeAI/src/sample/Main.java:121-130 | start-up yields the stacked start body, direction 1, the supplied first food, counter 0 and the flag clear, satisfying the invariant |
| `SnakeGame.Game.MoveSnake` | SnakeAI/src/sample/Main.java:166-204 | the fields after the move are those of `MoveSpec` applied to the old fields; the invariant is kept |
| `SnakeGame.Game.Tick` | SnakeAI/src/sample/Main.java:136-145 | the fields after a timer event are those of `TickSpec` applied to the old fields: no change once over, otherwise one move |
| `SnakeGame.Game.KeyPress` | SnakeAI/src/sample/Main.java:105-118 | the four sequential key tests leave the fields as `KeySpec` says: only the direction changes, to `NextDirection` |
| `SnakeGame.Game.Restart` | SnakeAI/src/sample/Main.java:228-242 | the fields after a restart are those of `RestartSpec`: stacked start body, new food, direction 1, flag clear, counter kept |

## Left out

- JavaFX presentation: drawing, labels, canvas, scenes and the game-over screen layout. Showing the game-over scene is represented only by the flag.
- The animation timer and its 100 ms throttle: a tick is a direct call of `Tick`, and `Run` feeds events in order. Concurrency and timing are not modelled.
- The elapsed-time display: it reads the wall clock and holds no logic. `startTime` is therefore not a field (restart does not reset it in the code anyway).
- The random number generator used to place food: the new food cell is a parameter. Its precondition is that it lies on the field, which is all the code promises.
- Application start-up (`main`, `launch`, stage set-up): the constructor stands for the engine part of `start`.
- `Board.Cell.Equals`: the Java method also returns false when compared with an object that is not a point. Cells are compared only with cells here.
- `SnakeGame.Game.MoveSnake`: it requires that the game is running. Its only caller, the timer handler, returns before moving when the game is over.
- `Engine.Run`: it allows key and restart events in every state. In the program the key handler is on the game scene and the restart button on the game-over scene, and the flag switches between them, so only one of the two is available at a time.
