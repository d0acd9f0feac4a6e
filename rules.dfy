/**
  The rules of the game as transitions on a value `Game` that holds the engine's state.
  Each external stimulus (a tick of the game timer, the gift timer firing, the space bar,
  a direction key, the Retry and End buttons) is one transition; the two random placements
  are left open and constrained only by the condition their rejection loops exit on.
 */
module Rules {
  import opened Wrappers
  import opened Board

  /** The engine's state: the snake (head first), the current direction, the food, the
      counters, and the flags of the lifecycle. `giftTimerPending` says that the gift's
      removal timer is scheduled; `overlayVisible` that the game-over popup, which holds the
      Retry and End buttons, is shown. The tick timer runs exactly while `isPaused` is false. */
  datatype Game = Game(
    snake: seq<Pos>,
    direction: Pos,
    apple: Pos,
    gift: Option<Pos>,
    giftTimerPending: bool,
    score: nat,
    applesEaten: nat,
    speed: real,
    isPaused: bool,
    gameOver: bool,
    overlayVisible: bool)

  /** The two-cell snake every game starts with. */
  const StartSnake: seq<Pos> := [Pos(10, 10), Pos(9, 10)]

  /** Milliseconds between ticks at the start of a game. */
  const BaseSpeed: real := 250.0

  /** Points for an apple and for a gift. */
  const ApplePoints: nat := 5
  const GiftPoints: nat := 20

  /** A gift appears after every `GiftEvery`-th apple. */
  const GiftEvery: nat := 3

  /** The tick interval after `n` apples: each apple multiplies it by 0.95. */
  function SpeedAfter(n: nat): (r: real)
    ensures 0.0 < r <= BaseSpeed
  {
    if n == 0 then BaseSpeed else SpeedAfter(n - 1) * 0.95
  }

  // ---------------------------------------------------------------- invariant

  /** The snake: at least the starting two cells plus one per apple, all on the board, none repeated. */
  ghost predicate SnakeOk(g: Game) {
    |g.snake| >= |StartSnake| + g.applesEaten &&
    (forall p :: p in g.snake ==> InBounds(p)) &&
    NoRepeats(g.snake)
  }

  /** The food: the apple and the gift (if any) lie on the board, off the snake and apart. */
  ghost predicate FoodOk(g: Game) {
    InBounds(g.apple) && g.apple !in g.snake &&
    (g.gift.Some? ==> InBounds(g.gift.value) && g.gift.value !in g.snake && g.gift.value != g.apple)
  }

  /** The counters: the snake grew one cell per apple and per gift, so the score is
      determined by the apples eaten and the snake's length; the speed by the apples eaten. */
  ghost predicate CountersOk(g: Game) {
    SnakeOk(g) &&
    g.score == ApplePoints * g.applesEaten + GiftPoints * (|g.snake| - |StartSnake| - g.applesEaten) &&
    g.speed == SpeedAfter(g.applesEaten)
  }

  /** The lifecycle: the direction is the idle vector or a unit step; only a spawned gift has
      a pending timer; a finished game neither ticks nor keeps a gift timer; the popup is
      shown only when the game is over. */
  ghost predicate LifecycleOk(g: Game) {
    (g.direction == Pos(0, 0) || IsUnit(g.direction)) &&
    (g.giftTimerPending ==> g.gift.Some?) &&
    (g.gameOver ==> g.isPaused && !g.giftTimerPending) &&
    (g.overlayVisible ==> g.gameOver)
  }

  ghost predicate Inv(g: Game) {
    SnakeOk(g) && FoodOk(g) && CountersOk(g) && LifecycleOk(g)
  }

  // ---------------------------------------------------------------- placement

  /** A cell the apple's rejection loop can stop at: on the board, off the snake, off the gift. */
  predicate AppleSpot(snake: seq<Pos>, gift: Option<Pos>, p: Pos) {
    InBounds(p) && p !in snake && gift != Some(p)
  }

  /** A cell the gift's rejection loop can stop at: on the board, off the snake, off the apple. */
  predicate GiftSpot(snake: seq<Pos>, apple: Pos, p: Pos) {
    InBounds(p) && p !in snake && p != apple
  }

  // ---------------------------------------------------------------- transitions

  /** A fresh game. `stale` is the gift left over from the previous game (none on first load):
      the apple is placed before the gift is cleared, so it avoids that cell too. */
  ghost predicate InitStep(stale: Option<Pos>, g': Game) {
    AppleSpot(StartSnake, stale, g'.apple) &&
    g' == Game(StartSnake, Pos(0, 0), g'.apple, None, false, 0, 0, BaseSpeed, true, false, false)
  }

  /** The cell the head moves to on the next tick. */
  function NextHead(g: Game): Pos
    requires g.snake != []
  {
    Add(g.snake[0], g.direction)
  }

  /** The tick is fatal: the head would leave the board or land on any cell of the snake,
      the current tail cell included. */
  predicate Collides(g: Game)
    requires g.snake != []
  {
    !InBounds(NextHead(g)) || NextHead(g) in g.snake
  }

  /** Game over: ticking stops, the gift timer is cancelled, the popup is shown; the gift stays. */
  function GameOver(g: Game): Game {
    g.(gameOver := true, isPaused := true, giftTimerPending := false, overlayVisible := true)
  }

  /** A gift appears on a free cell and its removal timer is (re)started. */
  ghost predicate SpawnGiftStep(g: Game, g': Game) {
    g'.gift.Some? && GiftSpot(g.snake, g.apple, g'.gift.value) &&
    g' == g.(gift := g'.gift, giftTimerPending := true)
  }

  /** One tick of the game timer. */
  ghost predicate TickStep(g: Game, g': Game) {
    g.snake != [] &&
    var head := NextHead(g);
    if Collides(g) then
      g' == GameOver(g)
    else
      var grown := [head] + g.snake;
      if head == g.apple then
        // the new apple is any cell its placement loop can stop at
        var fed := g.(snake := grown, score := g.score + ApplePoints,
                      applesEaten := g.applesEaten + 1, speed := g.speed * 0.95, apple := g'.apple);
        AppleSpot(grown, g.gift, g'.apple) &&
        if fed.applesEaten % GiftEvery == 0 then SpawnGiftStep(fed, g') else g' == fed
      else if g.gift == Some(head) then
        g' == g.(snake := grown, score := g.score + GiftPoints, gift := None, giftTimerPending := false)
      else
        g' == g.(snake := [head] + g.snake[..|g.snake| - 1])
  }

  /** The gift's removal timer fires. */
  function GiftExpire(g: Game): Game {
    g.(gift := None, giftTimerPending := false)
  }

  /** The space bar: pause or resume, unless the game is over. */
  function Space(g: Game): Game {
    if g.gameOver then g else g.(isPaused := !g.isPaused)
  }

  /** Start ticking if the game is paused and not over. */
  function StartGame(g: Game): Game {
    if g.gameOver || !g.isPaused then g else g.(isPaused := false)
  }

  /** The key is the exact reverse of the last direction accepted. */
  predicate Reverses(g: Game, k: Key) {
    |g.snake| > 1 && KeyVector(k).x == -g.direction.x && KeyVector(k).y == -g.direction.y
  }

  /** A direction key: ignored when it reverses the snake, otherwise it sets the direction
      and starts or resumes the game. */
  function KeyDir(g: Game, k: Key): Game {
    if Reverses(g, k) then g else StartGame(g.(direction := KeyVector(k)))
  }

  /** The End button: hides the popup and leaves the game finished. */
  function End(g: Game): Game {
    g.(overlayVisible := false, gameOver := true)
  }

  /** The external stimuli. */
  datatype Event = TickEvent | GiftTimeout | SpaceKey | DirectionKey(key: Key) | RetryClick | EndClick

  /** `g'` is a state the engine can be in after `e` happens in state `g`. The tick timer runs
      only while not paused, the gift timer only while pending, and the two buttons can be
      clicked only while the popup is shown. */
  ghost predicate Next(g: Game, e: Event, g': Game) {
    match e
    case TickEvent => !g.isPaused && TickStep(g, g')
    case GiftTimeout => g.giftTimerPending && g' == GiftExpire(g)
    case SpaceKey => g' == Space(g)
    case DirectionKey(k) => g' == KeyDir(g, k)
    case RetryClick => g.overlayVisible && InitStep(g.gift, g')
    case EndClick => g.overlayVisible && g' == End(g)
  }

  /** `gs` is a run of the engine driven by the events `es`. */
  ghost predicate IsRun(gs: seq<Game>, es: seq<Event>) {
    |gs| == |es| + 1 &&
    forall i :: 0 <= i < |es| ==> Next(gs[i], es[i], gs[i + 1])
  }
}
