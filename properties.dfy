/** What the rules guarantee: the invariant is established by a fresh game and kept by every
    event, the score never falls, and each event does what the game promises. */
module Properties {
  import opened Wrappers
  import opened Board
  import opened Rules

  // ---------------------------------------------------------------- initialisation

  /** A fresh game satisfies the invariant: the two-cell snake sits on the board and the
      apple is off it. */
  lemma InitEstablishesInv(stale: Option<Pos>, g: Game)
    requires InitStep(stale, g)
    ensures Inv(g)
    ensures g.snake == [Pos(10, 10), Pos(9, 10)] && g.direction == Pos(0, 0)
    ensures g.score == 0 && g.applesEaten == 0 && g.isPaused && !g.gameOver
    ensures g.apple !in g.snake && g.gift == None && !g.giftTimerPending
  {
  }

  // ---------------------------------------------------------------- the tick

  /** Putting a new cell that is not on the snake in front of it keeps the cells distinct. */
  lemma PrependKeepsNoRepeats(h: Pos, s: seq<Pos>)
    requires NoRepeats(s) && h !in s
    ensures NoRepeats([h] + s)
  {
    var t := [h] + s;
    forall i, j | 0 <= i < j < |t| ensures t[i] != t[j] {
      if i == 0 {
        assert t[j] == s[j - 1];
      } else {
        assert t[i] == s[i - 1] && t[j] == s[j - 1];
      }
    }
  }

  /** A fatal tick keeps the invariant: it only stops the game. */
  lemma FatalTickKeepsInv(g: Game)
    requires Inv(g)
    ensures Inv(GameOver(g))
  {
  }

  /** A tick without food keeps the invariant: the head moves to a free cell off the food and
      the old tail cell is dropped. */
  lemma MoveKeepsInv(g: Game, head: Pos)
    requires Inv(g) && InBounds(head) && head !in g.snake
    requires head != g.apple && g.gift != Some(head)
    ensures Inv(g.(snake := [head] + g.snake[..|g.snake| - 1]))
  {
    var body := g.snake[..|g.snake| - 1];
    assert forall p :: p in body ==> p in g.snake;
    assert NoRepeats(body);
    PrependKeepsNoRepeats(head, body);
  }

  /** Eating the gift keeps the invariant: the snake grows onto the gift's cell, which the
      gift leaves, and the twenty points match the extra cell. */
  lemma GiftMealKeepsInv(g: Game, head: Pos)
    requires Inv(g) && InBounds(head) && head !in g.snake
    requires head != g.apple && g.gift == Some(head)
    ensures Inv(g.(snake := [head] + g.snake, score := g.score + GiftPoints, gift := None,
                   giftTimerPending := false))
  {
    PrependKeepsNoRepeats(head, g.snake);
  }

  /** Eating the apple keeps the invariant, whether or not a gift is spawned after it. */
  lemma AppleMealKeepsInv(g: Game, head: Pos, fed: Game, g': Game)
    requires Inv(g) && !g.isPaused && InBounds(head) && head !in g.snake && head == g.apple
    requires fed == g.(snake := [head] + g.snake, score := g.score + ApplePoints,
                       applesEaten := g.applesEaten + 1, speed := g.speed * 0.95, apple := fed.apple)
    requires AppleSpot(fed.snake, g.gift, fed.apple)
    requires if fed.applesEaten % GiftEvery == 0 then SpawnGiftStep(fed, g') else g' == fed
    ensures Inv(g')
  {
    PrependKeepsNoRepeats(head, g.snake);
    assert fed.speed == SpeedAfter(fed.applesEaten);
    assert Inv(fed);
  }

  /** The four outcomes of a tick, one lemma each, for callers that build the new state in
      steps. */
  lemma FatalTickStep(g: Game)
    requires g.snake != [] && Collides(g)
    ensures TickStep(g, GameOver(g))
  {
  }

  lemma MoveTickStep(g: Game)
    requires g.snake != [] && !Collides(g) && NextHead(g) != g.apple && g.gift != Some(NextHead(g))
    ensures TickStep(g, g.(snake := [NextHead(g)] + g.snake[..|g.snake| - 1]))
  {
  }

  lemma GiftTickStep(g: Game)
    requires g.snake != [] && !Collides(g) && NextHead(g) != g.apple && g.gift == Some(NextHead(g))
    ensures TickStep(g, g.(snake := [NextHead(g)] + g.snake, score := g.score + GiftPoints,
                           gift := None, giftTimerPending := false))
  {
  }

  lemma AppleTickStep(g: Game, fed: Game, g': Game)
    requires g.snake != [] && !Collides(g) && NextHead(g) == g.apple
    requires fed == g.(snake := [NextHead(g)] + g.snake, score := g.score + ApplePoints,
                       applesEaten := g.applesEaten + 1, speed := g.speed * 0.95, apple := fed.apple)
    requires AppleSpot(fed.snake, g.gift, fed.apple)
    requires if fed.applesEaten % GiftEvery == 0 then SpawnGiftStep(fed, g') else g' == fed
    ensures TickStep(g, g')
  {
    assert fed.apple == g'.apple;
  }

  /** Every tick keeps the invariant. */
  lemma TickPreservesInv(g: Game, g': Game)
    requires Inv(g) && !g.isPaused && TickStep(g, g')
    ensures Inv(g')
  {
    var head := NextHead(g);
    if Collides(g) {
      FatalTickKeepsInv(g);
    } else if head == g.apple {
      var fed := g.(snake := [head] + g.snake, score := g.score + ApplePoints,
                    applesEaten := g.applesEaten + 1, speed := g.speed * 0.95, apple := g'.apple);
      AppleMealKeepsInv(g, head, fed, g');
    } else if g.gift == Some(head) {
      GiftMealKeepsInv(g, head);
    } else {
      MoveKeepsInv(g, head);
    }
  }

  /** A tick is fatal exactly when the new head leaves the board or lands on the snake (its
      tail included). A fatal tick changes neither the snake, the score nor the food; it
      stops ticking, cancels the gift timer and shows the popup. */
  lemma TickFatalIff(g: Game, g': Game)
    requires Inv(g) && !g.isPaused && TickStep(g, g')
    ensures g'.gameOver <==> !InBounds(NextHead(g)) || NextHead(g) in g.snake
    ensures g'.gameOver ==>
      g'.snake == g.snake && g'.score == g.score && g'.apple == g.apple && g'.gift == g.gift &&
      g'.isPaused && !g'.giftTimerPending && g'.overlayVisible
    ensures !g'.gameOver ==> !g'.isPaused
  {
  }

  /** Before any direction key the direction is the zero vector, so a tick puts the head on
      the current head cell: it is fatal. */
  lemma IdleTickIsFatal(g: Game, g': Game)
    requires Inv(g) && g.direction == Pos(0, 0) && TickStep(g, g')
    ensures g'.gameOver && g'.snake == g.snake && g'.score == g.score
  {
  }

  /** Moving onto the current tail cell is fatal, even though the tail would move away on a
      tick without food. */
  lemma TailCellIsFatal(g: Game, g': Game)
    requires Inv(g) && NextHead(g) == g.snake[|g.snake| - 1] && TickStep(g, g')
    ensures g'.gameOver && g'.snake == g.snake
  {
  }

  /** A tick that is not fatal puts the new head in front of the old snake. Without food the
      old tail cell is dropped and the length stays; after an apple or a gift the snake
      keeps every cell and grows by exactly one. */
  lemma TickMovesSnake(g: Game, g': Game)
    requires Inv(g) && TickStep(g, g') && !Collides(g)
    ensures g'.snake[0] == NextHead(g) && g'.snake[1..] <= g.snake
    ensures var ate := NextHead(g) == g.apple || g.gift == Some(NextHead(g));
      |g'.snake| == |g.snake| + (if ate then 1 else 0)
  {
  }

  /** Eating the apple: five points, one more apple, a faster (but still positive) tick, and
      a new apple off the grown snake and off the gift. After every third apple a gift
      appears off the snake and off the new apple, replacing any earlier gift, with its
      removal timer pending; otherwise the gift and its timer stay as they were. */
  lemma AppleEaten(g: Game, g': Game)
    requires Inv(g) && !g.isPaused && TickStep(g, g') && !Collides(g) && NextHead(g) == g.apple
    ensures g'.score == g.score + 5 && g'.applesEaten == g.applesEaten + 1
    ensures 0.0 < g'.speed < g.speed
    ensures g'.snake == [g.apple] + g.snake
    ensures g'.apple !in g'.snake && g'.gift != Some(g'.apple)
    ensures g'.applesEaten % 3 == 0 ==>
      g'.gift.Some? && g'.giftTimerPending && g'.gift.value !in g'.snake && g'.gift.value != g'.apple
    ensures g'.applesEaten % 3 != 0 ==> g'.gift == g.gift && g'.giftTimerPending == g.giftTimerPending
    ensures !g'.gameOver && !g'.isPaused
  {
  }

  /** Eating the gift (the apple not being there): twenty points, the gift is gone and its
      timer cancelled, the apple stays. */
  lemma GiftEaten(g: Game, g': Game)
    requires Inv(g) && TickStep(g, g') && !Collides(g)
    requires NextHead(g) != g.apple && g.gift == Some(NextHead(g))
    ensures g'.score == g.score + 20 && g'.applesEaten == g.applesEaten
    ensures g'.gift == None && !g'.giftTimerPending && g'.apple == g.apple
  {
  }

  // ---------------------------------------------------------------- inputs

  /** Whatever key is pressed, the snake is never turned straight back on itself. */
  lemma KeyNeverReverses(g: Game, k: Key)
    requires |g.snake| > 1
    ensures KeyDir(g, k).direction != Neg(g.direction)
  {
    var v := KeyVector(k);
    if !Reverses(g, k) {
      assert KeyDir(g, k).direction == v;
    }
  }

  /** A direction key changes nothing exactly when it is the reverse of the last accepted
      direction, or repeats that direction while the game is running or over. */
  lemma KeyIgnoredIff(g: Game, k: Key)
    ensures KeyDir(g, k) == g <==>
      Reverses(g, k) || (g.direction == KeyVector(k) && (g.gameOver || !g.isPaused))
  {
  }

  /** An accepted key takes the key's direction; a game that is not over runs afterwards,
      whether it was idle, paused or running, with everything else unchanged. */
  lemma KeyAccepted(g: Game, k: Key)
    requires !Reverses(g, k)
    ensures KeyDir(g, k).direction == KeyVector(k)
    ensures !g.gameOver ==> !KeyDir(g, k).isPaused
    ensures g.gameOver ==> KeyDir(g, k).isPaused == g.isPaused && KeyDir(g, k).gameOver
    ensures KeyDir(g, k).snake == g.snake && KeyDir(g, k).score == g.score
    ensures KeyDir(g, k).gift == g.gift && KeyDir(g, k).giftTimerPending == g.giftTimerPending
  {
  }

  /** The space bar does nothing once the game is over; otherwise it flips between running
      and paused, so pressing it twice restores the state. It never touches the gift or its
      timer, so a gift can expire while the game is paused. */
  lemma SpaceToggles(g: Game)
    ensures g.gameOver ==> Space(g) == g
    ensures !g.gameOver ==> Space(g).isPaused == !g.isPaused && Space(Space(g)) == g
    ensures Space(g).gift == g.gift && Space(g).giftTimerPending == g.giftTimerPending
    ensures g.giftTimerPending ==> Next(Space(g), GiftTimeout, GiftExpire(Space(g)))
  {
  }

  /** The gift timer clears the gift and changes nothing else; the invariant survives. */
  lemma GiftExpireKeepsInv(g: Game)
    requires Inv(g) && g.giftTimerPending
    ensures Inv(GiftExpire(g)) && GiftExpire(g).gift == None
    ensures GiftExpire(g).(gift := g.gift, giftTimerPending := g.giftTimerPending) == g
  {
  }

  /** While the popup is shown no gift timer is pending, so a fresh game, which forgets the
      timer handle without cancelling it, leaves no timer behind. Retrying starts a valid
      game whose apple also avoids the gift left over from the finished game. */
  lemma RetryStartsClean(g: Game, g': Game)
    requires Inv(g) && Next(g, RetryClick, g')
    ensures !g.giftTimerPending && g.gameOver
    ensures Inv(g') && g'.score == 0 && g'.gift == None && !g'.giftTimerPending
    ensures g.gift.Some? ==> g'.apple != g.gift.value
  {
  }

  /** After End the game is frozen: no event changes the snake, the score or the food, and
      the game stays over with the popup hidden. */
  lemma EndIsFinal(g: Game, e: Event, g': Game)
    requires Inv(g) && g.gameOver && !g.overlayVisible && Next(g, e, g')
    ensures g'.gameOver && !g'.overlayVisible
    ensures g'.snake == g.snake && g'.score == g.score && g'.apple == g.apple && g'.gift == g.gift
  {
  }

  // ---------------------------------------------------------------- every event

  /** Every stimulus keeps the invariant. */
  lemma NextPreservesInv(g: Game, e: Event, g': Game)
    requires Inv(g) && Next(g, e, g')
    ensures Inv(g')
  {
    match e
    case TickEvent => TickPreservesInv(g, g');
    case GiftTimeout => GiftExpireKeepsInv(g);
    case SpaceKey => assert g' == Space(g);
    case DirectionKey(k) =>
      assert g' == KeyDir(g, k);
      assert IsUnit(KeyVector(k));
    case RetryClick => InitEstablishesInv(g.gift, g');
    case EndClick => assert g' == End(g);
  }

  /** Only Retry can lower the score. */
  lemma NextKeepsScore(g: Game, e: Event, g': Game)
    requires Next(g, e, g') && e != RetryClick
    ensures g.score <= g'.score
  {
  }

  /** Every state of a run that starts in a valid state is valid. */
  lemma {:induction false} RunKeepsInv(gs: seq<Game>, es: seq<Event>)
    requires IsRun(gs, es) && Inv(gs[0])
    ensures forall i :: 0 <= i < |gs| ==> Inv(gs[i])
  {
    if es != [] {
      var n := |es| - 1;
      assert IsRun(gs[..n + 1], es[..n]);
      RunKeepsInv(gs[..n + 1], es[..n]);
      assert Inv(gs[n]);
      NextPreservesInv(gs[n], es[n], gs[n + 1]);
      forall i | 0 <= i < |gs| ensures Inv(gs[i]) {
        if i <= n { assert gs[i] == gs[..n + 1][i]; }
      }
    }
  }

  /** Along a run without Retry the score never decreases. */
  lemma {:induction false} RunScoreMonotone(gs: seq<Game>, es: seq<Event>)
    requires IsRun(gs, es)
    requires forall i :: 0 <= i < |es| ==> es[i] != RetryClick
    ensures forall i, j :: 0 <= i <= j < |gs| ==> gs[i].score <= gs[j].score
  {
    if es != [] {
      var n := |es| - 1;
      assert IsRun(gs[..n + 1], es[..n]);
      RunScoreMonotone(gs[..n + 1], es[..n]);
      NextKeepsScore(gs[n], es[n], gs[n + 1]);
      forall i, j | 0 <= i <= j < |gs| ensures gs[i].score <= gs[j].score {
        if j <= n {
          assert gs[i] == gs[..n + 1][i] && gs[j] == gs[..n + 1][j];
        } else if i <= n {
          assert gs[i] == gs[..n + 1][i] && gs[n] == gs[..n + 1][n];
        }
      }
    }
  }
}
