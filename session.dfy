// The page-level game session of script.js: the global variables become the
// fields of one object, and each function that updates them in place becomes
// a method proved to follow the corresponding function of module Rules.

module Session {
  import opened Grid
  import opened Rules

  class GameSession {
    /** Tiles per side of the board: the canvas width divided by the 20-pixel tile size. */
    const tileCount: int
    /** The snake's cells, head first. */
    var snake: seq<Cell>
    var food: Cell
    /** The direction committed at the last tick. */
    var direction: Direction
    /** The direction buffered by input, committed at the next tick. */
    var nextDirection: Direction
    var score: int
    /** The tick interval in milliseconds. */
    var gameSpeed: int
    var gameRunning: bool

    /** The current state as a value. */
    function Snapshot(): Game
      reads this
    {
      Game(snake, food, direction, nextDirection, score, gameSpeed, gameRunning)
    }

    ghost predicate Valid()
      reads this
    {
      10 < tileCount && Inv(Snapshot(), tileCount)
    }

    /**
     * Page load: the globals get their declared values and the game is
     * initialised once. The board must hold the starting snake, whose
     * cells lie in row 10.
     */
    constructor (tileCount: int)
      requires 10 < tileCount
      ensures Valid() && this.tileCount == tileCount
      ensures snake == InitialSnake && score == 0
      ensures direction == Right && nextDirection == Right
      ensures gameSpeed == InitialSpeed && !gameRunning
    {
      this.tileCount := tileCount;
      snake := [];
      food := Cell(0, 0);
      direction := Right;
      nextDirection := Right;
      score := 0;
      gameSpeed := InitialSpeed;
      gameRunning := false;
      new;
      InitGame();
    }

    /** Scans the snake segment by segment for cell `c`. */
    method OnSnake(c: Cell) returns (hit: bool)
      ensures hit <==> c in snake
    {
      var i := 0;
      while i < |snake|
        invariant 0 <= i <= |snake|
        invariant c !in snake[..i]
      {
        if snake[i] == c {
          return true;
        }
        i := i + 1;
      }
      assert snake[..i] == snake;
      return false;
    }

    /**
     * Places food on a board cell that no segment occupies. Each random
     * draw is a nondeterministic choice of a board cell; a draw found on
     * the snake is rejected and drawn again. Cells already rejected are not
     * drawn again, so the retries end.
     */
    method CreateFood()
      requires 0 <= tileCount && AllInBounds(snake, tileCount)
      requires |snake| < tileCount * tileCount
      modifies this`food
      ensures InBounds(food, tileCount) && food !in snake
    {
      FreeCellExists(snake, tileCount);
      ghost var free :| InBounds(free, tileCount) && free !in snake;
      var rejected: set<Cell> := {};
      var candidate :| InBounds(candidate, tileCount);
      var onSnake := OnSnake(candidate);
      while onSnake
        invariant rejected <= Cells(snake) && candidate !in rejected
        invariant InBounds(candidate, tileCount)
        invariant onSnake <==> candidate in snake
        decreases Cells(snake) - rejected
      {
        rejected := rejected + {candidate};
        assert InBounds(free, tileCount) && free !in rejected;
        candidate :| InBounds(candidate, tileCount) && candidate !in rejected;
        onSnake := OnSnake(candidate);
      }
      food := candidate;
    }

    /** Initialises a game: the starting snake, fresh food, score 0, facing right. */
    method InitGame()
      requires 10 < tileCount && SpeedOk(gameSpeed)
      modifies this
      ensures Valid()
      ensures Snapshot() == Init(old(Snapshot()), food)
    {
      snake := InitialSnake;
      BoardHoldsStart(tileCount);
      CreateFood();
      score := 0;
      direction := Right;
      nextDirection := Right;
      InitEstablishesInv(old(Snapshot()), tileCount, food);
    }

    /** Ends the game (the overlay drawn on the canvas is not modelled). */
    method GameOver()
      requires Valid()
      modifies this`gameRunning
      ensures Valid()
      ensures Snapshot() == Stop(old(Snapshot()))
    {
      gameRunning := false;
    }

    /**
     * One tick of the game loop. Food placement must be able to succeed
     * when food is eaten: the grown snake may not fill the board.
     */
    method Update()
      requires Valid()
      requires NextHead(Snapshot()) == food ==> |snake| + 1 < tileCount * tileCount
      modifies this
      ensures Valid()
      ensures Snapshot() == Tick(old(Snapshot()), tileCount, food)
    {
      ghost var g := Snapshot();
      direction := nextDirection;
      var head := Step(snake[0], direction);

      if !InBounds(head, tileCount) {
        GameOver();
        TickKeepsInv(g, tileCount, food);
        return;
      }

      var hit := OnSnake(head);
      if hit {
        GameOver();
        TickKeepsInv(g, tileCount, food);
        return;
      }

      snake := [head] + snake;

      if head == food {
        score := score + Reward;
        CreateFood();
        if gameSpeed > MinSpeed {
          gameSpeed := gameSpeed - SpeedStep;
        }
      } else {
        snake := snake[..|snake| - 1];
      }
      TickKeepsInv(g, tileCount, food);
    }

    /** Start control: begins a new game unless one is running. */
    method StartGame()
      requires Valid()
      modifies this
      ensures Valid()
      ensures Snapshot() == Start(old(Snapshot()), food)
    {
      if !gameRunning {
        InitGame();
        gameRunning := true;
      }
    }

    /** Reset control: stops any game and initialises a new one, which waits for start. */
    method ResetGame()
      requires Valid()
      modifies this
      ensures Valid()
      ensures Snapshot() == Reset(old(Snapshot()), food)
    {
      gameRunning := false;
      InitGame();
    }

    /** A direction button, or an arrow key once decoded: buffers `d` unless it reverses the committed direction. */
    method Turn(d: Direction)
      requires Valid()
      modifies this`nextDirection
      ensures Valid()
      ensures Snapshot() == Steer(old(Snapshot()), d)
    {
      if direction != Opposite(d) {
        nextDirection := d;
      }
    }

    /** A key press: the four arrow keys steer; every other key is ignored. */
    method KeyDown(key: string)
      requires Valid()
      modifies this`nextDirection
      ensures Valid()
      ensures Snapshot() == OnKey(old(Snapshot()), key)
    {
      match KeyDirection(key)
      case Some(d) => Turn(d);
      case None =>
    }
  }

  /** A board more than 10 tiles wide has room for more cells than the starting snake has. */
  lemma BoardHoldsStart(n: int)
    requires 10 < n
    ensures AllInBounds(InitialSnake, n) && |InitialSnake| < n * n
  {
    assert n * n > 10 * n;
  }
}
