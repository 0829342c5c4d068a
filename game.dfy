/** The game state of public/snake.js as one object whose fields are the
    script's module-level variables, with the operations that update them. */
module SnakeGame {
  import opened SnakeRules

  class Game {
    /** Size of the canvas in pixels. */
    const width: int
    const height: int

    /** Segments, head first. */
    var snake: seq<Point>
    var score: int
    /** Velocity. */
    var dx: int
    var dy: int
    /** The direction lock: set by the first key press of a tick, whatever the key. */
    var changingDirection: bool
    var foodX: int
    var foodY: int

    function Velocity(): Point
      reads this
    {
      Point(dx, dy)
    }

    function Food(): Point
      reads this
    {
      Point(foodX, foodY)
    }

    function Steering(): Controls
      reads this
    {
      Controls(Velocity(), changingDirection)
    }

    /** The invariant every tick keeps: the snake is a connected chain of grid
        cells that never folds back, the score is 10 per segment grown, the
        velocity is a heading that does not point into the neck, and the food
        is a free cell of the field. */
    ghost predicate Sound()
      reads this
    {
      width > 0 && height > 0 && width % Unit == 0 && height % Unit == 0 &&
      |snake| >= InitialLength &&
      score == FoodPoints * (|snake| - InitialLength) &&
      IsHeading(Velocity()) &&
      (forall i :: 0 <= i < |snake| ==> OnGrid(snake[i])) &&
      Connected(snake) && NoFold(snake) &&
      Moved(snake[0], Velocity()) != snake[1] &&
      InField(Food(), width, height) && Food() !in snake
    }

    /** Between ticks, while no key press has been accepted yet, the velocity
        is the one of the last step. */
    ghost predicate Valid()
      reads this
    {
      Sound() && (!changingDirection ==> snake[0] == Moved(snake[1], Velocity()))
    }

    /** Start-up: the initial snake moving right, score 0, lock clear, and the
        first food placed. `draws` stands for the cells randomTen would return. */
    constructor (width: int, height: int, draws: seq<Point>)
      requires width > 0 && height > 0 && width % Unit == 0 && height % Unit == 0
      requires forall i :: 0 <= i < |draws| ==> InField(draws[i], width, height)
      requires SomeFree(draws, InitialSnake)
      ensures Valid()
      ensures this.width == width && this.height == height
      ensures snake == InitialSnake && score == 0
      ensures Velocity() == InitialVelocity && !changingDirection
      ensures Food() == draws[FirstFree(draws, InitialSnake)]
    {
      this.width := width;
      this.height := height;
      snake := InitialSnake;
      score := 0;
      dx, dy := Unit, 0;
      changingDirection := false;
      new;
      CreateFood(draws);
    }

    /** Draws random cells until one is not under the snake and puts the food
        there: the food ends up on the first free cell drawn. */
    method CreateFood(draws: seq<Point>)
      requires SomeFree(draws, snake)
      modifies this`foodX, this`foodY
      ensures Food() == draws[FirstFree(draws, snake)] && Food() !in snake
    {
      var i := 0;
      foodX, foodY := draws[0].x, draws[0].y;
      while Food() in snake
        invariant 0 <= i < |draws| && Food() == draws[i]
        invariant forall j :: 0 <= j < i ==> draws[j] in snake
        invariant exists k :: i <= k < |draws| && draws[k] !in snake
        decreases |draws| - i
      {
        i := i + 1;
        foodX, foodY := draws[i].x, draws[i].y;
      }
      var k := FirstFree(draws, snake);
      assert !(i < k) && !(k < i);
    }

    /** One step: a new head one velocity ahead; on the food the snake grows
        and scores, and new food is placed; otherwise the tail is dropped. */
    method Advance(draws: seq<Point>)
      requires Sound()
      requires forall i :: 0 <= i < |draws| ==> InField(draws[i], width, height)
      requires Moved(snake[0], Velocity()) == Food() ==> SomeFree(draws, [Food()] + snake)
      modifies this`snake, this`score, this`foodX, this`foodY
      ensures Valid()
      ensures var head := Moved(old(snake[0]), Velocity());
        if head == old(Food()) then
          snake == [head] + old(snake) && score == old(score) + FoodPoints &&
          Food() == draws[FirstFree(draws, snake)]
        else
          snake == [head] + old(snake[..|snake| - 1]) && score == old(score) && Food() == old(Food())
    {
      var head := Moved(snake[0], Velocity());
      ghost var body := snake;
      snake := [head] + snake;
      assert Connected(snake) by {
        forall i | 0 <= i < |snake| - 1 ensures Adjacent(snake[i], snake[i + 1]) {
          if i > 0 { assert snake[i] == body[i - 1] && snake[i + 1] == body[i]; }
        }
      }
      assert NoFold(snake) by {
        forall i | 0 <= i < |snake| - 2 ensures snake[i] != snake[i + 2] {
          if i > 0 { assert snake[i] == body[i - 1] && snake[i + 2] == body[i + 1]; }
        }
      }
      var didEatFood := snake[0].x == foodX && snake[0].y == foodY;
      if didEatFood {
        score := score + FoodPoints;
        CreateFood(draws);
      } else {
        snake := snake[..|snake| - 1];
        assert snake == [head] + body[..|body| - 1];
      }
    }

    /** True when the head lies on a segment at index 4 or later, or outside
        the field. */
    method DidGameEnd() returns (ended: bool)
      requires |snake| > 0
      ensures ended == GameOver(snake, width, height)
      ensures Sound() ==> (ended <==> snake[0] in snake[1..] || HitsWall(snake[0], width, height))
    {
      if Sound() {
        CutoffIsExact(snake, width, height);
      }
      var i := FirstBiteIndex;
      while i < |snake|
        invariant FirstBiteIndex <= i && (i <= |snake| || i == FirstBiteIndex)
        invariant forall j :: FirstBiteIndex <= j < i ==> snake[j] != snake[0]
      {
        if snake[i].x == snake[0].x && snake[i].y == snake[0].y {
          return true;
        }
        i := i + 1;
      }
      var hitLeftWall := snake[0].x < 0;
      var hitRightWall := snake[0].x > width - Unit;
      var hitTopWall := snake[0].y < 0;
      var hitBottomWall := snake[0].y > height - Unit;
      ended := hitLeftWall || hitRightWall || hitTopWall || hitBottomWall;
    }

    /** The keydown handler: nothing while the lock is set; otherwise set the
        lock, whatever the key, and turn for an arrow key unless that would
        reverse the snake. */
    method ChangeDirection(key: int)
      requires Valid()
      modifies this`dx, this`dy, this`changingDirection
      ensures Valid()
      ensures Steering() == KeyDown(old(Steering()), key)
      ensures changingDirection
      ensures Velocity() == if old(changingDirection) then old(Velocity()) else Steer(old(Velocity()), key)
    {
      if changingDirection {
        return;
      }
      changingDirection := true;
      var goingUp := dy == -Unit;
      var goingDown := dy == Unit;
      var goingRight := dx == Unit;
      var goingLeft := dx == -Unit;
      if key == LeftKey && !goingRight {
        dx, dy := -Unit, 0;
      }
      if key == UpKey && !goingDown {
        dx, dy := 0, -Unit;
      }
      if key == RightKey && !goingLeft {
        dx, dy := Unit, 0;
      }
      if key == DownKey && !goingUp {
        dx, dy := 0, Unit;
      }
    }

    /** One tick of the game loop: stop if the game has ended; otherwise clear
        the direction lock and then advance the snake. */
    method Tick(draws: seq<Point>) returns (over: bool)
      requires Valid()
      requires forall i :: 0 <= i < |draws| ==> InField(draws[i], width, height)
      requires !GameOver(snake, width, height) && Moved(snake[0], Velocity()) == Food() ==>
        SomeFree(draws, [Food()] + snake)
      modifies this`snake, this`score, this`foodX, this`foodY, this`changingDirection
      ensures Valid()
      ensures over == old(GameOver(snake, width, height))
      ensures over ==> (snake == old(snake) && score == old(score) && Food() == old(Food()) &&
                        changingDirection == old(changingDirection))
      ensures !over ==> !changingDirection && snake[0] == Moved(old(snake[0]), Velocity())
      ensures !over && snake[0] == old(Food()) ==>
        snake[1..] == old(snake) && score == old(score) + FoodPoints && Food() == draws[FirstFree(draws, snake)]
      ensures !over && snake[0] != old(Food()) ==>
        snake[1..] == old(snake[..|snake| - 1]) && score == old(score) && Food() == old(Food())
    {
      over := DidGameEnd();
      if over {
        return;
      }
      changingDirection := false;
      Advance(draws);
    }
  }
  // ---------------------------------------------------------------------------
  // Key events between two ticks.

  /** The browser delivering a run of keydown events to the handler before the
      next tick: the whole run acts as its first press alone, so the snake
      turns at most once and never reverses. */
  method DeliverKeys(g: Game, keys: seq<int>)
    requires g.Valid()
    modifies g`dx, g`dy, g`changingDirection
    ensures g.Valid()
    ensures g.Steering() == Presses(old(g.Steering()), keys)
    ensures keys != [] ==> g.Steering() == KeyDown(old(g.Steering()), keys[0])
    ensures g.Velocity() != Reverse(old(g.Velocity()))
    ensures g.Velocity() == old(g.Velocity()) ||
      (keys != [] && !old(g.changingDirection) && g.Velocity() == Steer(old(g.Velocity()), keys[0]))
  {
    ghost var start := g.Steering();
    var i := 0;
    while i < |keys|
      invariant 0 <= i <= |keys|
      invariant g.Valid()
      invariant Presses(g.Steering(), keys[i..]) == Presses(start, keys)
    {
      assert keys[i..][0] == keys[i] && keys[i..][1..] == keys[i + 1..];
      g.ChangeDirection(keys[i]);
      i := i + 1;
    }
    assert keys[i..] == [];
    AtMostOneTurn(start, keys);
    if keys != [] {
      FirstKeyDecides(start, keys);
    }
  }

  // ---------------------------------------------------------------------------
  // Scenarios: what callers can conclude from the contracts alone.

  /** A 300 x 300 field, food elsewhere: one tick moves the head to
      (160, 150) and keeps five segments, so the tail was dropped. */
  method StepRightScenario() returns (over: bool, head: Point, length: int, score: int)
    ensures !over && head == Point(160, 150) && length == 5 && score == 0
  {
    var draws := [Point(0, 0)];
    assert draws[0] !in InitialSnake;
    var g := new Game(300, 300, draws);
    over := g.Tick(draws);
    head, length, score := g.snake[0], |g.snake|, g.score;
  }

  /** Food right in front of the head: the tick scores 10, grows the snake to
      six segments, and the new food skips the draw that lies on the snake. */
  method EatScenario() returns (over: bool, length: int, score: int, food: Point)
    ensures !over && length == 6 && score == 10 && food == Point(0, 0)
  {
    var first := [Point(160, 150)];
    assert first[0] !in InitialSnake;
    var g := new Game(300, 300, first);
    var next := [Point(150, 150), Point(0, 0)];
    assert next[1] !in [g.Food()] + g.snake;
    over := g.Tick(next);
    length, score, food := |g.snake|, g.score, g.Food();
  }

  /** A field 160 pixels wide: the first tick takes the head to x = 160,
      beyond the last column, and the next tick ends the game. */
  method WallScenario() returns (first: bool, second: bool)
    ensures !first && second
  {
    var draws := [Point(0, 0)];
    assert draws[0] !in InitialSnake;
    var g := new Game(160, 300, draws);
    first := g.Tick(draws);
    second := g.Tick(draws);
  }
}
