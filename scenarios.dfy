/** Concrete plays of the game, stated on the rules. */
module Scenarios {
  import opened Wrappers
  import opened Board
  import opened Rules
  import opened Properties

  /** From a fresh game, "right" sets the direction to (1, 0) and starts the game. */
  lemma RightStartsGame(stale: Option<Pos>, g0: Game)
    requires InitStep(stale, g0)
    ensures KeyDir(g0, Right).direction == Pos(1, 0)
    ensures !KeyDir(g0, Right).isPaused && !KeyDir(g0, Right).gameOver
  {
  }

  /** The space bar before any direction key starts the game with the zero direction, and
      the first tick ends it with no points. */
  lemma SpaceBeforeKeyIsFatal(stale: Option<Pos>, g0: Game, g2: Game)
    requires InitStep(stale, g0) && TickStep(Space(g0), g2)
    ensures !Space(g0).isPaused
    ensures g2.gameOver && g2.score == 0 && g2.snake == StartSnake
  {
  }

  /** A first apple right in front of the snake: five points, one apple, three cells, the tick
      interval 237.5 ms, and a new apple elsewhere; no gift yet. */
  lemma FirstApple(g0: Game, g2: Game)
    requires InitStep(None, g0) && g0.apple == Pos(11, 10)
    requires Next(KeyDir(g0, Right), TickEvent, g2)
    ensures g2.snake == [Pos(11, 10), Pos(10, 10), Pos(9, 10)]
    ensures g2.score == 5 && g2.applesEaten == 1 && g2.speed == 237.5
    ensures g2.apple != Pos(11, 10) && g2.gift == None && !g2.gameOver
  {
    InitEstablishesInv(None, g0);
    var g1 := KeyDir(g0, Right);
    assert g1 == g0.(direction := Pos(1, 0), isPaused := false);
    assert Inv(g1) && !g1.isPaused;
    assert NextHead(g1) == Pos(11, 10) && !Collides(g1);
    AppleEaten(g1, g2);
    assert g2.speed == BaseSpeed * 0.95 == 237.5;
  }

  /** The reversal test looks at the last key accepted, not at the last step moved: moving
      right, "left" is ignored, but "up" followed by "left" before the next tick turns the
      snake back onto its own body, and that tick ends the game. */
  lemma QuickTurnsAreFatal(g: Game, g': Game)
    requires Inv(g) && g.snake == StartSnake && g.direction == Pos(1, 0) && !g.isPaused
    requires Next(KeyDir(KeyDir(g, Up), Left), TickEvent, g')
    ensures KeyDir(g, Left) == g
    ensures KeyDir(KeyDir(g, Up), Left).direction == Pos(-1, 0)
    ensures g'.gameOver && g'.score == g.score
  {
  }

  /** The third apple brings a gift with a pending timer; when the timer fires the gift is
      gone and nothing else has changed. */
  lemma ThirdAppleBringsGift(g: Game, g1: Game)
    requires Inv(g) && g.applesEaten == 2 && !g.isPaused
    requires NextHead(g) == g.apple && Next(g, TickEvent, g1)
    ensures g1.gift.Some? && g1.giftTimerPending && g1.score == g.score + 5
    ensures Next(g1, GiftTimeout, GiftExpire(g1)) && GiftExpire(g1).gift == None
    ensures GiftExpire(g1).snake == g1.snake && GiftExpire(g1).score == g1.score
  {
  }
}
