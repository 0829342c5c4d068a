/** The value-level rules of the Snake game: grid geometry, key handling,
    food placement by rejection sampling and the end-of-game test.
    The game object that updates its state in place is in module SnakeGame. */
module SnakeRules {

  /** Side of a grid cell, of a snake segment and length of one step, in pixels. */
  const Unit := 10
  /** Points added to the score for each food eaten. */
  const FoodPoints := 10
  /** Number of segments of the snake when the game starts. */
  const InitialLength := 5
  /** Segments at these indices and beyond are the ones the end-of-game test compares with the head. */
  const FirstBiteIndex := 4

  /** Key codes of the four arrow keys. */
  const LeftKey := 37
  const UpKey := 38
  const RightKey := 39
  const DownKey := 40

  datatype Option<T> = None | Some(value: T)

  /** A position on the canvas, or a velocity (dx, dy). */
  datatype Point = Point(x: int, y: int)

  /** The snake at start-up: five segments on row 150, head at x = 150, moving right. */
  const InitialSnake := [Point(150, 150), Point(140, 150), Point(130, 150), Point(120, 150), Point(110, 150)]
  const InitialVelocity := Point(Unit, 0)

  function Moved(p: Point, v: Point): Point {
    Point(p.x + v.x, p.y + v.y)
  }

  function Reverse(v: Point): Point {
    Point(-v.x, -v.y)
  }

  /** One of the four axis-aligned velocities of length one grid unit. */
  predicate IsHeading(v: Point) {
    v == Point(Unit, 0) || v == Point(-Unit, 0) || v == Point(0, Unit) || v == Point(0, -Unit)
  }

  /** p is one step away from q. */
  predicate Adjacent(p: Point, q: Point) {
    IsHeading(Point(p.x - q.x, p.y - q.y))
  }

  predicate OnGrid(p: Point) {
    p.x % Unit == 0 && p.y % Unit == 0
  }

  /** A grid cell that lies wholly inside a width x height field. */
  predicate InField(p: Point, width: int, height: int) {
    OnGrid(p) && 0 <= p.x <= width - Unit && 0 <= p.y <= height - Unit
  }

  /** Every segment is one step away from the next one. */
  predicate Connected(body: seq<Point>) {
    forall i :: 0 <= i < |body| - 1 ==> Adjacent(body[i], body[i + 1])
  }

  /** No segment sits on the segment two places behind it: the snake never doubled back. */
  predicate NoFold(body: seq<Point>) {
    forall i :: 0 <= i < |body| - 2 ==> body[i] != body[i + 2]
  }

  // ---------------------------------------------------------------------------
  // End of the game

  predicate HitsWall(head: Point, width: int, height: int) {
    head.x < 0 || head.x > width - Unit || head.y < 0 || head.y > height - Unit
  }

  /** The head lies on a segment at index 4 or later. */
  predicate BitesItself(body: seq<Point>)
    requires |body| > 0
  {
    exists i :: FirstBiteIndex <= i < |body| && body[i] == body[0]
  }

  /** The condition under which the game stops scheduling ticks. */
  predicate GameOver(body: seq<Point>, width: int, height: int)
    requires |body| > 0
  {
    BitesItself(body) || HitsWall(body[0], width, height)
  }

  /** The game does not end before its first step on a field of at least 160 x 160 pixels. */
  lemma InitialSnakeAlive(width: int, height: int)
    requires width >= 160 && height >= 160
    ensures !GameOver(InitialSnake, width, height)
  {
  }

  /** Moving one step changes x + y by exactly one unit. */
  lemma AdjacentSum(p: Point, q: Point)
    requires Adjacent(p, q)
    ensures p.x + p.y - (q.x + q.y) == Unit || p.x + p.y - (q.x + q.y) == -Unit
  {
  }

  /** In a connected snake that never folded back, the head cannot lie on
      segments 1, 2 or 3, so comparing the head only with segments from
      index 4 on finds every self-collision. */
  lemma {:induction false} CutoffIsExact(body: seq<Point>, width: int, height: int)
    requires |body| > 0 && Connected(body) && NoFold(body)
    ensures GameOver(body, width, height) <==> body[0] in body[1..] || HitsWall(body[0], width, height)
  {
    if |body| > 1 {
      assert Adjacent(body[0], body[1]);
      assert body[0] != body[1];
    }
    if |body| > 2 {
      assert body[0] != body[2];
    }
    if |body| > 3 {
      AdjacentSum(body[0], body[1]);
      AdjacentSum(body[1], body[2]);
      AdjacentSum(body[2], body[3]);
      assert body[0] != body[3];
    }
    if body[0] in body[1..] {
      var j :| 0 <= j < |body[1..]| && body[1..][j] == body[0];
      assert body[j + 1] == body[0];
      assert BitesItself(body);
    }
    if BitesItself(body) {
      var i :| FirstBiteIndex <= i < |body| && body[i] == body[0];
      assert body[1..][i - 1] == body[0];
    }
  }

  // ---------------------------------------------------------------------------
  // Steering

  /** The heading an arrow key asks for; None for every other key. */
  function KeyHeading(key: int): (h: Option<Point>)
    ensures h.Some? ==> IsHeading(h.value)
    ensures h.Some? <==> key in {LeftKey, UpKey, RightKey, DownKey}
  {
    if key == LeftKey then Some(Point(-Unit, 0))
    else if key == UpKey then Some(Point(0, -Unit))
    else if key == RightKey then Some(Point(Unit, 0))
    else if key == DownKey then Some(Point(0, Unit))
    else None
  }

  /** The velocity after an accepted key press: an arrow key turns the snake
      unless it asks for the exact reverse of the current velocity. */
  function Steer(v: Point, key: int): (r: Point)
    ensures IsHeading(v) ==> IsHeading(r) && r != Reverse(v)
    ensures r == v || KeyHeading(key) == Some(r)
    ensures KeyHeading(key) == None ==> r == v
    ensures KeyHeading(key).Some? && KeyHeading(key).value != Reverse(v) ==> r == KeyHeading(key).value
  {
    var h := KeyHeading(key);
    if h.Some? && h.value != Reverse(v) then h.value else v
  }

  /** Velocity and direction lock, the state a key press acts on. */
  datatype Controls = Controls(velocity: Point, locked: bool)

  /** One key press: ignored while locked; otherwise it locks, whatever the key, and steers. */
  function KeyDown(c: Controls, key: int): Controls {
    if c.locked then c else Controls(Steer(c.velocity, key), true)
  }

  /** A run of key presses between two ticks. */
  function Presses(c: Controls, keys: seq<int>): Controls
    decreases |keys|
  {
    if keys == [] then c else Presses(KeyDown(c, keys[0]), keys[1..])
  }

  /** Once locked, further key presses change nothing. */
  lemma {:induction false} LockedIgnoresKeys(c: Controls, keys: seq<int>)
    requires c.locked
    ensures Presses(c, keys) == c
    decreases |keys|
  {
    if keys != [] {
      LockedIgnoresKeys(c, keys[1..]);
    }
  }

  /** Between two ticks only the first key press has any effect. */
  lemma {:induction false} FirstKeyDecides(c: Controls, keys: seq<int>)
    requires keys != []
    ensures Presses(c, keys) == KeyDown(c, keys[0])
  {
    LockedIgnoresKeys(KeyDown(c, keys[0]), keys[1..]);
  }

  /** However many keys arrive between two ticks, the velocity turns at most
      once, stays a heading, and never becomes the reverse of what it was. */
  lemma {:induction false} AtMostOneTurn(c: Controls, keys: seq<int>)
    requires IsHeading(c.velocity)
    ensures var r := Presses(c, keys);
      IsHeading(r.velocity) && r.velocity != Reverse(c.velocity) &&
      (r.velocity == c.velocity || (keys != [] && !c.locked && r.velocity == Steer(c.velocity, keys[0])))
  {
    if keys == [] {
    } else {
      FirstKeyDecides(c, keys);
    }
  }

  /** Without the lock two quick presses would turn a snake into its own neck,
      whatever its heading: for a snake moving right, down and then left. */
  lemma TwoTurnsWouldReverse(v: Point)
    requires IsHeading(v)
    ensures exists k1, k2 :: Steer(Steer(v, k1), k2) == Reverse(v)
  {
    if v == Point(Unit, 0) {
      assert Steer(Steer(v, DownKey), LeftKey) == Reverse(v);
    } else if v == Point(-Unit, 0) {
      assert Steer(Steer(v, UpKey), RightKey) == Reverse(v);
    } else if v == Point(0, Unit) {
      assert Steer(Steer(v, LeftKey), UpKey) == Reverse(v);
    } else {
      assert Steer(Steer(v, RightKey), DownKey) == Reverse(v);
    }
  }

  // ---------------------------------------------------------------------------
  // Food placement

  /** Some candidate cell is not under the snake. */
  predicate SomeFree(draws: seq<Point>, body: seq<Point>) {
    exists i :: 0 <= i < |draws| && draws[i] !in body
  }

  /** Rejection sampling over a sequence of random cells: the index of the
      first cell that is not under the snake. */
  function FirstFree(draws: seq<Point>, body: seq<Point>): (k: nat)
    requires SomeFree(draws, body)
    ensures k < |draws| && draws[k] !in body
    ensures forall j :: 0 <= j < k ==> draws[j] in body
    decreases |draws|
  {
    if draws[0] !in body then 0 else 1 + FirstFree(draws[1..], body)
  }
}
