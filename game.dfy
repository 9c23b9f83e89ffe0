/**
  The game object: the mutable fields of the Snake window and the handlers
  that update them (start-up, the timer tick, the key handler, the restart
  button). Each handler is proved to do what the matching function of
  `Engine` says.
 */
module SnakeGame {
  import opened Board
  import opened Engine

  /** Builds the start body cell by cell, as a restart or the start-up does. */
  method StartBody(startLen: int) returns (body: seq<Cell>)
    ensures |body| == StartLength(startLen)
    ensures forall i :: 0 <= i < |body| ==> body[i] == Center()
  {
    body := [];
    if startLen <= 0 || startLen >= Width * Height {
      body := body + [Cell(Width / 2, Height / 2)];
    } else {
      var i := 0;
      while i < startLen
        invariant 0 <= i <= startLen
        invariant |body| == i
        invariant forall j :: 0 <= j < i ==> body[j] == Center()
      {
        body := body + [Cell(Width / 2, Height / 2)];
        i := i + 1;
      }
    }
  }

  /** Scans the body behind the head for a cell equal to the head, stopping at the first. */
  method HeadCollides(s: seq<Cell>) returns (hit: bool)
    requires |s| >= 1
    ensures hit <==> HeadHitsBody(s)
  {
    hit := false;
    var i := 1;
    while i < |s|
      invariant 1 <= i <= |s|
      invariant forall j :: 1 <= j < i ==> s[j] != s[0]
    {
      if s[0].Equals(s[i]) {
        hit := true;
        break;
      }
      i := i + 1;
    }
  }

  class Game {
    /** The body, head first. */
    var snake: seq<Cell>
    var direction: Direction
    var food: Cell
    var foodCounter: int
    var isGameOver: bool
    /** The configured start length (4 in the shipped game). */
    const startLen: int

    /** The engine state held in the fields. */
    function Model(): State
      reads this
    {
      State(snake, direction, food, foodCounter, isGameOver)
    }

    ghost predicate Valid()
      reads this
    {
      Inv(Model())
    }

    /**
      Start-up: the fields start heading right with no food eaten and the
      game running; the start body is built and the first food placed.
     */
    constructor (configuredLen: int, firstFood: Cell)
      requires InBounds(firstFood)
      ensures Valid()
      ensures startLen == configuredLen
      ensures Model() == State(StartSnake(configuredLen), 1, firstFood, 0, false)
    {
      startLen := configuredLen;
      direction := 1;
      foodCounter := 0;
      isGameOver := false;
      var body := StartBody(configuredLen);
      snake := body;
      food := firstFood;
    }

    /**
      One move: prepend the new head, eat or drop the tail, then run all
      three end-of-game checks, each of which can only set the flag.
     */
    method MoveSnake(newFood: Cell)
      requires Valid() && !isGameOver && InBounds(newFood)
      modifies this
      ensures Valid()
      ensures Model() == MoveSpec(old(Model()), newFood)
    {
      var head := snake[0];
      snake := [Step(head, direction)] + snake;

      if snake[0].Equals(food) {
        food := newFood;
        foodCounter := Inc32(foodCounter);
      } else {
        snake := snake[..|snake| - 1];
      }

      if snake[0].x < 0 || snake[0].x >= Width || snake[0].y < 0 || snake[0].y >= Height {
        isGameOver := true;
      }

      var hit := HeadCollides(snake);
      if hit {
        isGameOver := true;
      }

      if |snake| == Width * Height {
        isGameOver := true;
      }
    }

    /** A timer event: once the game is over it returns at once, otherwise it moves the snake. */
    method Tick(newFood: Cell)
      requires Valid() && InBounds(newFood)
      modifies this
      ensures Valid()
      ensures Model() == TickSpec(old(Model()), newFood)
    {
      if isGameOver {
        return;
      }
      MoveSnake(newFood);
    }

    /** The key handler: four independent tests, one per arrow key; the over-flag is not consulted. */
    method KeyPress(k: Key)
      requires Valid()
      modifies this
      ensures Valid()
      ensures Model() == KeySpec(old(Model()), k)
    {
      if k == Up && direction != 2 {
        direction := 0;
      }
      if k == Right && direction != 3 {
        direction := 1;
      }
      if k == Down && direction != 0 {
        direction := 2;
      }
      if k == Left && direction != 1 {
        direction := 3;
      }
    }

    /** The restart button: rebuild the body, place food, head right, clear the flag. */
    method Restart(newFood: Cell)
      requires Valid() && InBounds(newFood)
      modifies this
      ensures Valid()
      ensures Model() == RestartSpec(old(Model()), startLen, newFood)
    {
      var body := StartBody(startLen);
      snake := body;
      food := newFood;
      direction := 1;
      isGameOver := false;
    }
  }
}
