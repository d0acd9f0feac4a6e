/**
  The game engine as an object whose fields are the engine's globals, updated in place by
  one method per external stimulus. Each stimulus method is proved to perform the matching
  transition of `Rules` and to keep the invariant.
 */
module Engine {
  import opened Wrappers
  import opened Board
  import Rules
  import Properties

  class SnakeGame {
    var snake: seq<Pos>
    var direction: Pos
    var apple: Pos
    var gift: Option<Pos>
    var giftTimerPending: bool
    var score: nat
    var applesEaten: nat
    var speed: real
    var isPaused: bool
    var gameOver: bool
    var overlayVisible: bool

    /** The engine's state as a value. */
    function State(): Rules.Game
      reads this
    {
      Rules.Game(snake, direction, apple, gift, giftTimerPending, score, applesEaten, speed,
                 isPaused, gameOver, overlayVisible)
    }

    ghost predicate Valid()
      reads this
    {
      Rules.Inv(State())
    }

    /** Page load: the popup starts hidden and there is no gift yet, then a game is set up. */
    constructor ()
      ensures Valid() && Rules.InitStep(None, State())
    {
      gift := None;
      overlayVisible := false;
      new;
      InitGame();
    }

    /** Sets up a new game. The apple is placed while the previous game's gift is still in
        place; only then is the gift cleared. */
    method InitGame()
      requires !overlayVisible
      modifies this
      ensures Valid() && Rules.InitStep(old(gift), State())
    {
      snake := Rules.StartSnake;
      direction := Pos(0, 0);
      apple := RandomApple();
      gift := None;
      giftTimerPending := false;
      score := 0;
      speed := Rules.BaseSpeed;
      applesEaten := 0;
      isPaused := true;
      gameOver := false;
      Properties.InitEstablishesInv(old(gift), State());
    }

    /** The apple's rejection loop: some free cell, off the snake and off the gift. */
    method RandomApple() returns (pos: Pos)
      requires |snake| + 1 < Area
      ensures Rules.AppleSpot(snake, gift, pos)
    {
      var taken := CellsOf(snake) + (if gift.Some? then {gift.value} else {});
      FreeCellExists(taken);
      var x, y :| 0 <= x < Size && 0 <= y < Size && Pos(x, y) !in taken;
      pos := Pos(x, y);
    }

    /** The gift's rejection loop: some free cell, off the snake and off the apple. */
    method RandomGift() returns (pos: Pos)
      requires |snake| + 1 < Area
      ensures Rules.GiftSpot(snake, apple, pos)
    {
      var taken := CellsOf(snake) + {apple};
      FreeCellExists(taken);
      var x, y :| 0 <= x < Size && 0 <= y < Size && Pos(x, y) !in taken;
      pos := Pos(x, y);
    }

    /** One tick of the game timer. The apple is eaten before the gift is considered; the
        collision test runs against the whole snake before it moves. Eating an apple leaves
        the game running (the timer is restarted at the new speed). */
    method Tick()
      requires Valid() && !isPaused
      requires Add(snake[0], direction) == apple ==> |snake| + 2 < Area
      modifies this
      ensures Valid() && Rules.Next(old(State()), Rules.TickEvent, State())
    {
      ghost var g := State();
      var head := Add(snake[0], direction);
      if !InBounds(head) || head in snake {
        TriggerGameOver();
        Properties.FatalTickStep(g);
        Properties.FatalTickKeepsInv(g);
        return;
      }
      snake := [head] + snake;
      if head == apple {
        EatApple(g);
      } else if gift == Some(head) {
        EatGift(g);
      } else {
        snake := snake[..|snake| - 1];
        Properties.MoveTickStep(g);
        Properties.MoveKeepsInv(g, head);
      }
    }

    /** The rest of a tick whose new head `snake[0]` is on the apple: five points, a faster
        timer, a new apple, and a gift after every third apple. */
    method EatApple(ghost g: Rules.Game)
      requires Rules.Inv(g) && !g.isPaused && !Rules.Collides(g) && Rules.NextHead(g) == g.apple
      requires State() == g.(snake := [Rules.NextHead(g)] + g.snake)
      requires |g.snake| + 2 < Area
      modifies this
      ensures Valid() && Rules.TickStep(g, State())
    {
      score := score + Rules.ApplePoints;
      applesEaten := applesEaten + 1;
      speed := speed * 0.95;
      apple := RandomApple();
      ghost var fed := State();
      if applesEaten % Rules.GiftEvery == 0 {
        SpawnGift();
      }
      Properties.AppleTickStep(g, fed, State());
      Properties.AppleMealKeepsInv(g, Rules.NextHead(g), fed, State());
    }

    /** The rest of a tick whose new head `snake[0]` is on the gift: twenty points, and the
        gift and its timer are gone. */
    method EatGift(ghost g: Rules.Game)
      requires Rules.Inv(g) && !Rules.Collides(g)
      requires Rules.NextHead(g) != g.apple && g.gift == Some(Rules.NextHead(g))
      requires State() == g.(snake := [Rules.NextHead(g)] + g.snake)
      modifies this
      ensures Valid() && Rules.TickStep(g, State())
    {
      score := score + Rules.GiftPoints;
      gift := None;
      giftTimerPending := false;
      Properties.GiftTickStep(g);
      Properties.GiftMealKeepsInv(g, Rules.NextHead(g));
    }

    /** Places a gift and (re)starts its removal timer, replacing any pending one. */
    method SpawnGift()
      requires |snake| + 1 < Area
      modifies this
      ensures Rules.SpawnGiftStep(old(State()), State())
    {
      var pos := RandomGift();
      gift := Some(pos);
      giftTimerPending := true;
    }

    /** Stops ticking, cancels the gift timer and shows the popup; the gift is kept. */
    method TriggerGameOver()
      modifies this
      ensures State() == Rules.GameOver(old(State()))
    {
      giftTimerPending := false;
      gameOver := true;
      isPaused := true;
      overlayVisible := true;
    }

    /** The gift's removal timer fires. */
    method GiftExpire()
      requires Valid() && giftTimerPending
      modifies this
      ensures Valid() && Rules.Next(old(State()), Rules.GiftTimeout, State())
    {
      gift := None;
      giftTimerPending := false;
    }

    /** The space bar: pause or resume unless the game is over. Pausing stops only the tick
        timer; a pending gift timer keeps running. */
    method Space()
      requires Valid()
      modifies this
      ensures Valid() && Rules.Next(old(State()), Rules.SpaceKey, State())
    {
      if gameOver {
        return;
      }
      if isPaused {
        isPaused := false;
      } else {
        isPaused := true;
      }
    }

    /** Starts or resumes ticking unless the game is over or already running. */
    method StartGame()
      modifies this
      ensures State() == Rules.StartGame(old(State()))
    {
      if gameOver {
        return;
      }
      if !isPaused {
        return;
      }
      isPaused := false;
    }

    /** A direction key: ignored if it is the exact reverse of the last accepted direction
        while the snake is longer than one cell; otherwise taken, and the game started. */
    method KeyDir(k: Key)
      requires Valid()
      modifies this
      ensures Valid() && Rules.Next(old(State()), Rules.DirectionKey(k), State())
    {
      var newDir := KeyVector(k);
      if |snake| > 1 && newDir.x == -direction.x && newDir.y == -direction.y {
        return;
      }
      direction := newDir;
      StartGame();
    }

    /** The Retry button on the popup: hides it and sets up a new game. */
    method Retry()
      requires Valid() && overlayVisible
      modifies this
      ensures Valid() && Rules.Next(old(State()), Rules.RetryClick, State())
    {
      overlayVisible := false;
      InitGame();
    }

    /** The End button on the popup: hides it and marks the game as finished for good. */
    method End()
      requires Valid() && overlayVisible
      modifies this
      ensures Valid() && Rules.Next(old(State()), Rules.EndClick, State())
    {
      overlayVisible := false;
      gameOver := true;
    }
  }

  /** A client of the engine: the space bar before any direction key, then one tick. */
  method SpaceBeforeAnyKey()
  {
    var game := new SnakeGame();
    game.Space();
    assert !game.isPaused && game.direction == Pos(0, 0);
    game.Tick();
    assert game.gameOver && game.score == 0 && game.snake == Rules.StartSnake;
  }
}
