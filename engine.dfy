/**
  The game engine as values: the state the game keeps, what one timer tick,
  one key press and one restart do to it, the invariant every reachable
  state satisfies, and runs of many events.
 */
module Engine {
  import opened Board

  /** The fields the engine updates: body (head first), heading, food, eaten-food counter, over-flag. */
  datatype State = State(
    snake: seq<Cell>,
    direction: Direction,
    food: Cell,
    foodCounter: int,
    isGameOver: bool)

  /**
    Every state the game can reach: a body of 1 to `BoardCells` cells, all
    on or just beside the field; food on the field; the counter a Java `int`.
    While the game runs the whole body is on the field and is shorter than
    the board.
   */
  predicate Inv(st: State)
  {
    && 1 <= |st.snake| <= BoardCells
    && (forall i :: 0 <= i < |st.snake| ==> NearBoard(st.snake[i]))
    && InBounds(st.food)
    && InInt32(st.foodCounter)
    && (!st.isGameOver ==>
          |st.snake| < BoardCells &&
          forall i :: 0 <= i < |st.snake| ==> InBounds(st.snake[i]))
  }

  /** The configured start length, normalised: out-of-range values give a single cell. */
  function StartLength(n: int): (r: int)
    ensures 1 <= r < BoardCells
    ensures r == n <==> 0 < n < BoardCells
    ensures r != n ==> r == 1
  {
    if n <= 0 || n >= BoardCells then 1 else n
  }

  /** The body of a new snake: `StartLength(n)` cells, all stacked on the centre. */
  function StartSnake(n: int): (r: seq<Cell>)
    ensures |r| == StartLength(n)
    ensures forall i :: 0 <= i < |r| ==> r[i] == Center()
  {
    seq(StartLength(n), _ => Center())
  }

  /** The head lies on another cell of the body. */
  predicate HeadHitsBody(s: seq<Cell>)
    requires |s| >= 1
  {
    exists i :: 1 <= i < |s| && s[i] == s[0]
  }

  /** The three conditions that end the game, checked on the body after a move. */
  predicate Collided(s: seq<Cell>)
    requires |s| >= 1
  {
    !InBounds(s[0]) || HeadHitsBody(s) || |s| == BoardCells
  }

  /** The head's next cell lands on the food. */
  predicate Eats(st: State)
    requires |st.snake| >= 1
  {
    Step(st.snake[0], st.direction) == st.food
  }

  /**
    The body after one move: a new head one step ahead; the tail cell is
    dropped unless the new head is on the food.
   */
  function Advance(s: seq<Cell>, d: Direction, food: Cell): (r: seq<Cell>)
    requires |s| >= 1
    ensures |r| >= 1 && r[0] == Step(s[0], d)
    ensures r[1..] == if Step(s[0], d) == food then s else s[..|s| - 1]
  {
    var grown := [Step(s[0], d)] + s;
    if grown[0] == food then grown else grown[..|grown| - 1]
  }

  /** One move of a running game; `newFood` is where food reappears if it is eaten. */
  function MoveSpec(st: State, newFood: Cell): (r: State)
    requires Inv(st) && !st.isGameOver && InBounds(newFood)
    ensures Inv(r)
  {
    var body := Advance(st.snake, st.direction, st.food);
    var ate := Eats(st);
    State(
      body,
      st.direction,
      if ate then newFood else st.food,
      if ate then Inc32(st.foodCounter) else st.foodCounter,
      st.isGameOver || Collided(body))
  }

  /** One timer event: nothing happens once the game is over. */
  function TickSpec(st: State, newFood: Cell): (r: State)
    requires Inv(st) && InBounds(newFood)
    ensures Inv(r)
  {
    if st.isGameOver then st else MoveSpec(st, newFood)
  }

  /** One key press: only the direction may change; the handler does not read the over-flag. */
  function KeySpec(st: State, k: Key): (r: State)
    ensures Inv(st) ==> Inv(r)
    ensures r.snake == st.snake && r.food == st.food
    ensures r.foodCounter == st.foodCounter && r.isGameOver == st.isGameOver
    ensures r.direction != Reverse(st.direction)
  {
    st.(direction := NextDirection(st.direction, k))
  }

  /** The restart button: a new start body, new food, heading right, running; the counter is kept. */
  function RestartSpec(st: State, startLen: int, newFood: Cell): (r: State)
    requires Inv(st) && InBounds(newFood)
    ensures Inv(r)
  {
    State(StartSnake(startLen), 1, newFood, st.foodCounter, false)
  }

  /** What can happen to the game between two observations. */
  datatype Event = Timer(timerFood: Cell) | KeyPressed(key: Key) | RestartButton(restartFood: Cell)

  /** Food cells handed to an event come from the field. */
  predicate EventOk(e: Event)
  {
    match e
    case Timer(f) => InBounds(f)
    case KeyPressed(_) => true
    case RestartButton(f) => InBounds(f)
  }

  function Apply(st: State, startLen: int, e: Event): (r: State)
    requires Inv(st) && EventOk(e)
    ensures Inv(r)
  {
    match e
    case Timer(f) => TickSpec(st, f)
    case KeyPressed(k) => KeySpec(st, k)
    case RestartButton(f) => RestartSpec(st, startLen, f)
  }

  /** The state after the events `evs`, in order. Every run keeps the invariant. */
  function Run(st: State, startLen: int, evs: seq<Event>): (r: State)
    requires Inv(st)
    requires forall i :: 0 <= i < |evs| ==> EventOk(evs[i])
    ensures Inv(r)
    decreases |evs|
  {
    if evs == [] then st else Run(Apply(st, startLen, evs[0]), startLen, evs[1..])
  }

  // Properties of one tick.

  /** The new head is the old head moved one cell in the current direction. */
  lemma TickMovesHead(st: State, newFood: Cell)
    requires Inv(st) && InBounds(newFood) && !st.isGameOver
    ensures TickSpec(st, newFood).snake[0] == Step(st.snake[0], st.direction)
    ensures Distance(TickSpec(st, newFood).snake[0], st.snake[0]) == 1
  {
  }

  /**
    Eating grows the body by one, counts the food and replaces it;
    otherwise length, counter and food stay as they were.
   */
  lemma TickGrowth(st: State, newFood: Cell)
    requires Inv(st) && InBounds(newFood) && !st.isGameOver
    ensures var r := TickSpec(st, newFood);
      if Step(st.snake[0], st.direction) == st.food then
        |r.snake| == |st.snake| + 1 && r.food == newFood && r.foodCounter == Inc32(st.foodCounter)
      else
        |r.snake| == |st.snake| && r.food == st.food && r.foodCounter == st.foodCounter
  {
  }

  /** Behind the new head the body is the old body, less its tail cell unless food was eaten. */
  lemma TickKeepsBody(st: State, newFood: Cell)
    requires Inv(st) && InBounds(newFood) && !st.isGameOver
    ensures var r := TickSpec(st, newFood);
      if Step(st.snake[0], st.direction) == st.food then r.snake[1..] == st.snake
      else r.snake[1..] == st.snake[..|st.snake| - 1]
    ensures TickSpec(st, newFood).direction == st.direction
  {
  }

  /** A tick of a running game ends it exactly when one of the three conditions holds. */
  lemma TickEndsGame(st: State, newFood: Cell)
    requires Inv(st) && InBounds(newFood) && !st.isGameOver
    ensures var s := TickSpec(st, newFood).snake;
      TickSpec(st, newFood).isGameOver <==>
        || !(0 <= s[0].x < Width && 0 <= s[0].y < Height)
        || (exists i :: 1 <= i < |s| && s[i] == s[0])
        || |s| == Width * Height
  {
  }

  /** A tick once the game is over changes nothing. */
  lemma TickWhileOver(st: State, newFood: Cell)
    requires Inv(st) && InBounds(newFood) && st.isGameOver
    ensures TickSpec(st, newFood) == st
  {
  }

  /** Restart builds the stacked start body, heads right and clears the flag, keeping the counter. */
  lemma RestartResets(st: State, startLen: int, newFood: Cell)
    requires Inv(st) && InBounds(newFood)
    ensures var r := RestartSpec(st, startLen, newFood);
      && |r.snake| == (if 0 < startLen < Width * Height then startLen else 1)
      && (forall i :: 0 <= i < |r.snake| ==> r.snake[i] == Cell(Width / 2, Height / 2))
      && r.direction == 1 && !r.isGameOver && r.food == newFood
      && r.foodCounter == st.foodCounter
  {
  }

  /**
    The stacked start body already overlaps itself: if it has more than one
    cell, the self-collision condition holds of it before any move.
   */
  lemma StackedStartOverlaps(n: int)
    requires 1 < n < BoardCells
    ensures HeadHitsBody(StartSnake(n))
  {
    assert StartSnake(n)[1] == StartSnake(n)[0];
  }

  /**
    The overlap is never observed: whatever direction keys have selected
    before it, the first tick after a start ends the game only when the
    start body plus the eaten food fills the board.
   */
  lemma FirstTickAfterStart(st: State, n: int, newFood: Cell)
    requires Inv(st) && InBounds(newFood)
    requires st.snake == StartSnake(n) && !st.isGameOver
    ensures TickSpec(st, newFood).isGameOver <==>
      StartLength(n) == BoardCells - 1 && Step(Center(), st.direction) == st.food
  {
  }

  // Properties of runs.

  /** Events other than the restart button leave a finished game's body, food and counter alone. */
  lemma {:induction false} OverUntilRestart(st: State, startLen: int, evs: seq<Event>)
    requires Inv(st) && st.isGameOver
    requires forall i :: 0 <= i < |evs| ==> EventOk(evs[i]) && !evs[i].RestartButton?
    ensures var r := Run(st, startLen, evs);
      r.isGameOver && r.snake == st.snake && r.food == st.food && r.foodCounter == st.foodCounter
    decreases |evs|
  {
    if evs != [] {
      var next := Apply(st, startLen, evs[0]);
      assert next.isGameOver && next.snake == st.snake && next.food == st.food;
      OverUntilRestart(next, startLen, evs[1..]);
    }
  }

  /** Key presses alone never move the snake or change the game's outcome. */
  lemma {:induction false} KeysOnlyTurn(st: State, startLen: int, evs: seq<Event>)
    requires Inv(st)
    requires forall i :: 0 <= i < |evs| ==> evs[i].KeyPressed?
    ensures var r := Run(st, startLen, evs);
      r.snake == st.snake && r.food == st.food &&
      r.foodCounter == st.foodCounter && r.isGameOver == st.isGameOver
    decreases |evs|
  {
    if evs != [] {
      KeysOnlyTurn(Apply(st, startLen, evs[0]), startLen, evs[1..]);
    }
  }

  /**
    The no-reverse rule compares a key with the pending direction, not with
    the last move: pressing up and then left between two ticks turns a snake
    that moved right back onto its own neck, and the next tick ends the game,
    whether or not the food lies on that neck cell.
   */
  lemma {:induction false} QuickTurnBackEndsGame(food: Cell, newFood: Cell)
    requires InBounds(food) && InBounds(newFood)
    ensures var st := State([Cell(5, 5), Cell(4, 5), Cell(3, 5)], 1, food, 0, false);
      && Inv(st)
      && Run(st, StartLenSnake, [KeyPressed(Up), KeyPressed(Left), Timer(newFood)]).isGameOver
  {
    var st := State([Cell(5, 5), Cell(4, 5), Cell(3, 5)], 1, food, 0, false);
    var evs := [KeyPressed(Up), KeyPressed(Left), Timer(newFood)];
    assert Inv(st);
    var up := Apply(st, StartLenSnake, evs[0]);
    var turned := Apply(up, StartLenSnake, evs[1]);
    assert turned == st.(direction := 3);
    var last := Apply(turned, StartLenSnake, evs[2]);
    var body := Advance(turned.snake, 3, food);
    if food == Cell(4, 5) {
      assert body == [Cell(4, 5), Cell(5, 5), Cell(4, 5), Cell(3, 5)];
    } else {
      assert body == [Cell(4, 5), Cell(5, 5), Cell(4, 5)];
    }
    assert body[2] == body[0];
    assert last.isGameOver;
    assert evs[1..] == [evs[1], evs[2]] && evs[1..][1..] == [evs[2]];
    assert Run(turned, StartLenSnake, [evs[2]]) == Run(last, StartLenSnake, []);
    assert Run(up, StartLenSnake, evs[1..]) == Run(turned, StartLenSnake, [evs[2]]);
    assert Run(st, StartLenSnake, evs) == Run(up, StartLenSnake, evs[1..]);
  }
}
