// The rules of the Snake game as functions on an immutable snapshot of the
// game state: one tick of movement, the direction-input rule, and the
// initialise / start / reset transitions. The class in session.dfy updates
// its fields in place and is proved to follow these functions.

module Rules {
  import opened Grid

  datatype Direction = Up | Down | Left | Right

  datatype Option<T> = None | Some(value: T)

  /** Points added for each food eaten. */
  const Reward: int := 10
  /** Milliseconds taken off the tick interval for each food eaten. */
  const SpeedStep: int := 2
  /** The tick interval is only shortened while it is above this many milliseconds. */
  const MinSpeed: int := 50
  /** Tick interval in milliseconds when the page is loaded. */
  const InitialSpeed: int := 150
  /** The snake every game starts with: three cells in row 10, head first, facing right. */
  const InitialSnake: seq<Cell> := [Cell(5, 10), Cell(4, 10), Cell(3, 10)]

  /** `a` and `b` share a side. */
  predicate Adjacent(a: Cell, b: Cell) {
    (a.x == b.x && (a.y == b.y - 1 || a.y == b.y + 1)) ||
    (a.y == b.y && (a.x == b.x - 1 || a.x == b.x + 1))
  }

  /** The cell one tile from `c` in direction `d`; `Up` decreases y, `Down` increases it. */
  function Step(c: Cell, d: Direction): (r: Cell)
    ensures Adjacent(c, r)
    ensures d == Up ==> r.y < c.y
    ensures d == Down ==> r.y > c.y
    ensures d == Left ==> r.x < c.x
    ensures d == Right ==> r.x > c.x
  {
    match d
    case Up => Cell(c.x, c.y - 1)
    case Down => Cell(c.x, c.y + 1)
    case Left => Cell(c.x - 1, c.y)
    case Right => Cell(c.x + 1, c.y)
  }

  /** The reverse of `d`: the only direction a move in `d` can be undone by. */
  function Opposite(d: Direction): (r: Direction)
    ensures r != d
    ensures forall c :: Step(Step(c, d), r) == c
  {
    match d
    case Up => Down
    case Down => Up
    case Left => Right
    case Right => Left
  }

  /** Moving in `d` and then in `e` comes back to the start only when `e` is the opposite of `d`. */
  lemma StepBackOnlyByOpposite(c: Cell, d: Direction, e: Direction)
    ensures Step(Step(c, d), e) == c <==> e == Opposite(d)
  {
  }

  /** The direction chosen by a key, for the four arrow keys; every other key is ignored. */
  function KeyDirection(key: string): Option<Direction> {
    if key == "ArrowUp" then Some(Up)
    else if key == "ArrowDown" then Some(Down)
    else if key == "ArrowLeft" then Some(Left)
    else if key == "ArrowRight" then Some(Right)
    else None
  }

  /** The arrow key that selects `d`. */
  function ArrowKey(d: Direction): string {
    match d
    case Up => "ArrowUp"
    case Down => "ArrowDown"
    case Left => "ArrowLeft"
    case Right => "ArrowRight"
  }

  /** Each direction has its own arrow key, and only arrow keys select a direction. */
  lemma KeyDirectionInverse(d: Direction, key: string)
    ensures KeyDirection(ArrowKey(d)) == Some(d)
    ensures KeyDirection(key) == Some(d) ==> key == ArrowKey(d)
  {
  }

  /** A snapshot of the game: the page's global variables, apart from the timer handle. */
  datatype Game = Game(
    snake: seq<Cell>,        // head first
    food: Cell,
    direction: Direction,     // committed at the last tick
    nextDirection: Direction, // buffered input, committed at the next tick
    score: int,
    gameSpeed: int,           // tick interval in milliseconds
    running: bool)

  /** No cell occurs twice in `s`. */
  predicate Distinct(s: seq<Cell>) {
    forall i, j :: 0 <= i < j < |s| ==> s[i] != s[j]
  }

  /** Every cell of `s` is on a board of `n` x `n` tiles. */
  predicate AllInBounds(s: seq<Cell>, n: int) {
    forall i :: 0 <= i < |s| ==> InBounds(s[i], n)
  }

  /** The tick intervals reachable from the initial one: even, between the floor and the start value. */
  predicate SpeedOk(v: int) {
    MinSpeed <= v <= InitialSpeed && v % 2 == 0
  }

  /**
   * What holds of every game state the page can reach, on a board of
   * `n` x `n` tiles: the snake is on the board without crossing itself,
   * food is on the board and off the snake, the score is ten points per
   * cell grown, the interval is within its bounds, and the buffered
   * direction is never the reverse of the committed one.
   */
  predicate Inv(g: Game, n: int) {
    |InitialSnake| <= |g.snake| &&
    AllInBounds(g.snake, n) && Distinct(g.snake) &&
    InBounds(g.food, n) && g.food !in g.snake &&
    g.score == Reward * (|g.snake| - |InitialSnake|) &&
    SpeedOk(g.gameSpeed) &&
    g.nextDirection != Opposite(g.direction)
  }

  /** Where the head goes at the next tick. */
  function NextHead(g: Game): Cell
    requires g.snake != []
  {
    Step(g.snake[0], g.nextDirection)
  }

  /** The next tick ends the game: the head would leave the board or run into a segment, the tail included. */
  predicate Crashes(g: Game, n: int)
    requires g.snake != []
  {
    !InBounds(NextHead(g), n) || NextHead(g) in g.snake
  }

  /** The next tick eats the food. */
  predicate Eats(g: Game, n: int)
    requires g.snake != []
  {
    !Crashes(g, n) && NextHead(g) == g.food
  }

  /** The tick interval after one food is eaten. */
  function SpeedUp(v: int): int {
    if v > MinSpeed then v - SpeedStep else v
  }

  /** The game-over transition, state part only. */
  function Stop(g: Game): Game {
    g.(running := false)
  }

  /**
   * One tick on a board of `n` x `n` tiles. `newFood` is the cell the food
   * placement settles on; it is used only when food is eaten.
   */
  function Tick(g: Game, n: int, newFood: Cell): Game
    requires g.snake != []
  {
    var g1 := g.(direction := g.nextDirection);
    var head := NextHead(g);
    if Crashes(g, n) then
      Stop(g1)
    else if head == g.food then
      g1.(snake := [head] + g.snake, food := newFood,
          score := g.score + Reward, gameSpeed := SpeedUp(g.gameSpeed))
    else
      g1.(snake := [head] + g.snake[..|g.snake| - 1])
  }

  /** A direction input: ignored when it reverses the committed direction, otherwise buffered. */
  function Steer(g: Game, d: Direction): Game {
    if d == Opposite(g.direction) then g else g.(nextDirection := d)
  }

  /** A keyboard input: arrow keys steer, other keys do nothing. */
  function OnKey(g: Game, key: string): Game {
    match KeyDirection(key)
    case Some(d) => Steer(g, d)
    case None => g
  }

  /** Game initialisation with `f` as the food cell; the interval and the running flag are kept. */
  function Init(g: Game, f: Cell): Game {
    g.(snake := InitialSnake, food := f, score := 0, direction := Right, nextDirection := Right)
  }

  /** The start control: nothing happens while a game runs; otherwise a new game begins. */
  function Start(g: Game, f: Cell): Game {
    if g.running then g else Init(g, f).(running := true)
  }

  /** The reset control: stop, then initialise. */
  function Reset(g: Game, f: Cell): Game {
    Init(Stop(g), f)
  }

  // ---------------------------------------------------------------------
  // Properties of a tick

  /** A tick commits the buffered direction and keeps it buffered. */
  lemma TickCommitsDirection(g: Game, n: int, f: Cell)
    requires g.snake != []
    ensures Tick(g, n, f).direction == g.nextDirection
    ensures Tick(g, n, f).nextDirection == g.nextDirection
  {
  }

  /**
   * A tick that neither crashes nor eats moves the snake: the new head is
   * one cell from the old one in the committed direction, the rest is the
   * old snake without its last cell, and length, score, food and interval
   * do not change.
   */
  lemma TickMoves(g: Game, n: int, f: Cell)
    requires g.snake != [] && !Crashes(g, n) && !Eats(g, n)
    ensures var t := Tick(g, n, f);
      |t.snake| == |g.snake| &&
      t.snake[0] == Step(g.snake[0], g.nextDirection) &&
      t.snake[1..] == g.snake[..|g.snake| - 1] &&
      t.food == g.food && t.score == g.score &&
      t.gameSpeed == g.gameSpeed && t.running == g.running
  {
  }

  /**
   * A tick that eats grows the snake by its new head and keeps every old
   * segment, adds ten points, places the new food and speeds the game up.
   */
  lemma TickEats(g: Game, n: int, f: Cell)
    requires g.snake != [] && Eats(g, n)
    ensures var t := Tick(g, n, f);
      |t.snake| == |g.snake| + 1 &&
      t.snake[0] == Step(g.snake[0], g.nextDirection) && t.snake[1..] == g.snake &&
      t.score == g.score + Reward && t.food == f &&
      t.gameSpeed == SpeedUp(g.gameSpeed) && t.running == g.running
  {
  }

  /** A crashing tick only stops the game: snake, food, score and interval stay as they were. */
  lemma TickCrashes(g: Game, n: int, f: Cell)
    requires g.snake != [] && Crashes(g, n)
    ensures var t := Tick(g, n, f);
      !t.running && t.snake == g.snake && t.food == g.food &&
      t.score == g.score && t.gameSpeed == g.gameSpeed
  {
  }

  /** Moving into the cell the tail occupies ends the game, even though the tail would have moved on. */
  lemma TickIntoTailCrashes(g: Game, n: int, f: Cell)
    requires g.snake != [] && NextHead(g) == g.snake[|g.snake| - 1]
    ensures Crashes(g, n)
    ensures !Tick(g, n, f).running && Tick(g, n, f).snake == g.snake
  {
  }

  /** The interval changes at a tick only when food is eaten while it is above the floor, and then by exactly 2 ms. */
  lemma TickSpeed(g: Game, n: int, f: Cell)
    requires g.snake != []
    ensures Tick(g, n, f).gameSpeed != g.gameSpeed <==> Eats(g, n) && g.gameSpeed > MinSpeed
    ensures Tick(g, n, f).gameSpeed != g.gameSpeed ==> Tick(g, n, f).gameSpeed == g.gameSpeed - SpeedStep
  {
  }

  /** A tick leaves the length as it is or adds one cell. */
  lemma TickLength(g: Game, n: int, f: Cell)
    requires g.snake != []
    ensures |Tick(g, n, f).snake| == |g.snake| || |Tick(g, n, f).snake| == |g.snake| + 1
  {
  }

  /** The committed direction never turns back on itself from one tick to the next. */
  lemma TickNeverReverses(g: Game, n: int, f: Cell)
    requires g.snake != [] && g.nextDirection != Opposite(g.direction)
    ensures Tick(g, n, f).direction != Opposite(g.direction)
    ensures Tick(g, n, f).nextDirection != Opposite(Tick(g, n, f).direction)
  {
  }

  /** The interval never drops below the floor and stays even; this needs the evenness. */
  lemma SpeedUpKeepsBounds(v: int)
    requires SpeedOk(v)
    ensures SpeedOk(SpeedUp(v))
  {
  }

  /**
   * Every tick keeps the invariant, provided food placement settles on a
   * free board cell whenever food is eaten.
   */
  lemma TickKeepsInv(g: Game, n: int, f: Cell)
    requires Inv(g, n)
    requires Eats(g, n) ==> InBounds(f, n) && f !in [NextHead(g)] + g.snake
    ensures Inv(Tick(g, n, f), n)
  {
  }

  // ---------------------------------------------------------------------
  // Direction input

  /** The buffered direction after a burst of inputs between two ticks. */
  function SteerAll(g: Game, ds: seq<Direction>): Game
    decreases |ds|
  {
    if ds == [] then g else SteerAll(Steer(g, ds[0]), ds[1..])
  }

  /**
   * However many inputs arrive between two ticks, only the buffered
   * direction changes, it is the last input that does not reverse the
   * committed direction (or stays as it was), and it never becomes the
   * reverse of the committed direction.
   */
  lemma {:induction false} SteerAllKeepsNoReversal(g: Game, ds: seq<Direction>)
    requires g.nextDirection != Opposite(g.direction)
    decreases |ds|
    ensures SteerAll(g, ds) == g.(nextDirection := SteerAll(g, ds).nextDirection)
    ensures SteerAll(g, ds).nextDirection != Opposite(g.direction)
    ensures SteerAll(g, ds).nextDirection == g.nextDirection ||
            exists i :: 0 <= i < |ds| && ds[i] != Opposite(g.direction) && SteerAll(g, ds).nextDirection == ds[i]
    ensures (forall i :: 0 <= i < |ds| ==> ds[i] == Opposite(g.direction)) ==>
            SteerAll(g, ds).nextDirection == g.nextDirection
    ensures forall i :: 0 <= i < |ds| && ds[i] != Opposite(g.direction) &&
                        (forall j :: i < j < |ds| ==> ds[j] == Opposite(g.direction)) ==>
                        SteerAll(g, ds).nextDirection == ds[i]
  {
    if ds != [] {
      var g1 := Steer(g, ds[0]);
      var rest := ds[1..];
      assert forall j :: 0 <= j < |rest| ==> rest[j] == ds[j + 1];
      SteerAllKeepsNoReversal(g1, rest);
      var r := SteerAll(g1, rest).nextDirection;
      if r != g1.nextDirection {
        var i :| 0 <= i < |rest| && rest[i] != Opposite(g1.direction) && r == rest[i];
        assert ds[i + 1] == rest[i];
      } else if g1.nextDirection != g.nextDirection {
        assert ds[0] != Opposite(g.direction) && r == ds[0];
      }
      forall i | 0 <= i < |ds| && ds[i] != Opposite(g.direction) &&
                 (forall j :: i < j < |ds| ==> ds[j] == Opposite(g.direction))
        ensures r == ds[i]
      {
        if i == 0 {
          assert forall j :: 0 <= j < |rest| ==> rest[j] == Opposite(g1.direction);
        } else {
          assert rest[i - 1] == ds[i];
          assert forall j :: i - 1 < j < |rest| ==> rest[j] == Opposite(g1.direction);
        }
      }
    }
  }

  /** A keyboard input keeps the invariant. */
  lemma OnKeyKeepsInv(g: Game, n: int, key: string)
    requires Inv(g, n)
    ensures Inv(OnKey(g, key), n)
    ensures OnKey(g, key) == g.(nextDirection := OnKey(g, key).nextDirection)
  {
  }

  // ---------------------------------------------------------------------
  // Starting and resetting

  /** Initialising on a large enough board, with food off the starting snake, establishes the invariant. */
  lemma InitEstablishesInv(g: Game, n: int, f: Cell)
    requires 10 < n && SpeedOk(g.gameSpeed)
    requires InBounds(f, n) && f !in InitialSnake
    ensures Inv(Init(g, f), n)
    ensures Init(g, f).gameSpeed == g.gameSpeed && Init(g, f).running == g.running
    ensures Init(g, f).direction == Right && Init(g, f).nextDirection == Right
  {
  }

  /**
   * Pressing start while a game runs changes nothing, so a second press
   * right after the first is a no-op; pressing it while stopped begins a
   * fresh game with the interval of the previous one.
   */
  lemma StartIdempotent(g: Game, f1: Cell, f2: Cell)
    ensures g.running ==> Start(g, f1) == g
    ensures !g.running ==> Start(g, f1).snake == InitialSnake && Start(g, f1).score == 0 &&
                           Start(g, f1).direction == Right && Start(g, f1).nextDirection == Right &&
                           Start(g, f1).gameSpeed == g.gameSpeed
    ensures Start(g, f1).running
    ensures Start(Start(g, f1), f2) == Start(g, f1)
  {
  }

  /**
   * Reset leaves the game stopped with the starting snake, the new food,
   * score 0 and both directions right, but keeps the interval of the last game.
   */
  lemma ResetOutcome(g: Game, f: Cell)
    ensures !Reset(g, f).running
    ensures Reset(g, f).snake == InitialSnake && Reset(g, f).score == 0
    ensures Reset(g, f).food == f
    ensures Reset(g, f).direction == Right && Reset(g, f).nextDirection == Right
    ensures Reset(g, f).gameSpeed == g.gameSpeed
  {
  }

  // ---------------------------------------------------------------------
  // The interval over a whole session

  /** The tick interval after `k` foods have been eaten since the page was loaded. */
  function SpeedAfter(k: nat): int {
    if k == 0 then InitialSpeed else SpeedUp(SpeedAfter(k - 1))
  }

  /** After `k` foods the interval is 150 - 2k milliseconds, but never less than 50. */
  lemma {:induction false} SpeedAfterFormula(k: nat)
    ensures SpeedAfter(k) == if InitialSpeed - SpeedStep * k > MinSpeed then InitialSpeed - SpeedStep * k else MinSpeed
    ensures SpeedOk(SpeedAfter(k))
  {
    if k > 0 {
      SpeedAfterFormula(k - 1);
    }
  }

  // ---------------------------------------------------------------------
  // Scenarios

  /** The opening move: from a fresh game with the food elsewhere, the snake moves one cell right. */
  lemma OpeningMove(g: Game, n: int, f: Cell, f2: Cell)
    requires 10 < n && f != Cell(6, 10)
    ensures Tick(Init(g, f), n, f2).snake == [Cell(6, 10), Cell(5, 10), Cell(4, 10)]
    ensures Tick(Init(g, f), n, f2).score == 0
  {
  }

  /** A head on the left edge moving left ends the game. */
  lemma LeftWallEnds(g: Game, n: int, f: Cell)
    requires g.snake != [] && g.snake[0].x == 0 && g.nextDirection == Left
    ensures !Tick(g, n, f).running && Tick(g, n, f).snake == g.snake
  {
  }
}
