# Snake game engine in Dafny

This project models the engine of a browser Snake game (`code.js`). A snake moves on a 20 x 20
board. It eats apples worth 5 points and, after every third apple, a short-lived gift worth 20
points. The game ends when the head leaves the board or runs into the snake.

The state is the engine's globals: the snake (head first), the direction, the apple, the
optional gift, whether the gift's removal timer is pending, the score, the apples eaten, the
tick interval, the paused and game-over flags, and whether the game-over popup is shown. The
external stimuli are the game timer's tick, the gift timer firing, the space bar, the four
direction keys, and the popup's Retry and End buttons.

The model has three layers:

- `Board` (`board.dfy`): cells, bounds, direction vectors, and the pigeonhole fact that a
  rejection loop always has a free cell to stop at.
- `Rules` (`rules.dfy`): the state as a value `Game`, the invariant `Inv`, and one transition
  per stimulus. The random placements are nondeterministic: the new apple or gift is any cell
  the placement loop's exit test accepts. `Next(g, e, g')` gathers the transitions and says
  when each stimulus can happen. The game timer runs only while the game is not paused. The
  gift timer runs only while it is pending. The buttons work only while the popup is shown.
- `Engine` (`engine.dfy`): the class `SnakeGame`. Its fields are the globals, and it has one
  method per stimulus that updates the fields in place. Each such method is proved to keep
  `Inv` and to make exactly the step `Rules.Next` allows.

`Properties` (`properties.dfy`) proves what the rules guarantee. `Scenarios` (`scenarios.dfy`)
works through concrete plays. The client method `Engine.SpaceBeforeAnyKey` replays one of them
on a `SnakeGame` object: the space bar before any direction key, then one tick that ends the
game.

Behaviours of the source kept on purpose:

- The space bar before any direction key starts the game with direction (0, 0). The first tick
  then puts the head on its own cell, and the game ends.
- The reversal test compares the key with the last key accepted, not the last step moved. Two
  quick turns can therefore reverse the snake into itself.
- The collision test includes the current tail cell.
- Pausing does not cancel the gift timer, so a gift can expire while the game is paused.
- At game over the gift is kept. On Retry the new apple is placed before the gift is cleared,
  so it also avoids that stale gift.

Two details of the code are kept as written:

- `initGame` forgets the gift-timer handle without cancelling it (`giftTimer = null`,
  code.js:22). This loses nothing. Retry is only reachable while the popup is shown, and while
  it is shown no gift timer is pending (`Properties.RetryStartsClean`).
- Any accepted direction key resumes a paused game, not only the first key
  (code.js:183-189, 218-219).

Two invariants tie the counters together. Every apple and every gift grows the snake by one
cell. So `score == 5 * applesEaten + 20 * (|snake| - 2 - applesEaten)`, and the tick interval
is `250 * 0.95^applesEaten` ms.

## Model

| member | source | states |
|---|---|---|
| `Board.KeyVector` | code.js:199-208 | each direction key maps to a unit step along one axis |
| `Board.FreeCellExists` | code.js:72-80 | when fewer than 400 cells are taken, some cell of the board is free, so the rejection loop can stop |
| `Rules.SpeedAfter` | code.js:120-122 | the tick interval after n apples stays positive and at most 250 ms |
| `Rules.AppleSpot` | code.js:77-80 | the exit test of the apple's loop: a board cell off the snake and off the gift |
| `Rules.GiftSpot` | code.js:91-94 | the exit test of the gift's loop: a board cell off the snake and off the apple |
| `Rules.InitStep` | code.js:14-27 | a fresh game: the two-cell snake, direction (0,0), an apple at a cell allowed by the previous gift, no gift, no timer, score 0, interval 250, no apples, paused, not over, popup hidden |
| `Rules.NextHead` | code.js:99-102 | the current head moved by the current direction |
| `Rules.Collides` | code.js:104-110 | the new head is off the board or on any snake cell, the tail included |
| `Rules.GameOver` | code.js:173-181 | ticking stops, the gift timer is cancelled, the game is over and the popup shown; all else, the gift included, is kept |
| `Rules.SpawnGiftStep` | code.js:143-153 | the gift moves to a cell off the snake and the apple, and its timer is pending; nothing else changes |
| `Rules.TickStep` | code.js:98-141 | a colliding tick is game over; otherwise the head is prepended and then the apple branch (points, count, interval, new apple, every third a gift), else the gift branch (points, gift and timer gone), else the tail is dropped |
| `Rules.GiftExpire` | code.js:149-152 | the gift and its pending flag are cleared |
| `Rules.Space` | code.js:160-171 | a no-op when over, otherwise paused and running swap |
| `Rules.StartGame` | code.js:183-189 | a no-op when over or running, otherwise the game runs |
| `Rules.Reverses` | code.js:212-216 | the snake is longer than one cell and the key's vector is the exact negation of the last accepted direction |
| `Rules.KeyDir` | code.js:210-220 | a reversing key changes nothing; any other key sets the direction and then starts the game |
| `Rules.End` | code.js:229-233 | the popup is hidden and the game is over |
| `Rules.Next` | code.js:191-233 | each stimulus's transition, enabled only when it can happen: ticks while not paused, the gift timer while pending, the buttons while the popup shows |
| `Properties.InitEstablishesInv` | code.js:14-27 | a fresh game has snake [(10,10),(9,10)], direction (0,0), score 0, no apples, paused, not over, no gift, no pending timer, an apple off the snake, and satisfies the invariant |
| `Properties.FatalTickKeepsInv` | code.js:104-113 | a colliding tick keeps the invariant |
| `Properties.MoveKeepsInv` | code.js:116-137 | a tick without food keeps the invariant: new head prepended, tail dropped |
| `Properties.GiftMealKeepsInv` | code.js:131-135 | eating the gift keeps the invariant, the twenty points matching the extra cell |
| `Properties.AppleMealKeepsInv` | code.js:119-128 | eating the apple keeps the invariant, with or without the gift that follows |
| `Properties.TickPreservesInv` | code.js:98-141 | every tick keeps the snake on the board without repeated cells, keeps apple and gift off the snake and apart, and keeps both counter identities |
| `Properties.TickFatalIff` | code.js:104-113 | a tick ends the game iff the new head is off the board or on any snake cell; then snake, score and food are unchanged, ticking stops, the gift timer is cancelled and the popup shows; otherwise the game keeps running |
| `Properties.IdleTickIsFatal` | code.js:99-110 | with direction (0,0) every tick ends the game, snake and score unchanged |
| `Properties.TailCellIsFatal` | code.js:110 | moving onto the current tail cell ends the game |
| `Properties.TickMovesSnake` | code.js:116-138 | after a non-fatal tick the new head leads and the rest is a prefix of the old snake; length unchanged without food, one longer after an apple or a gift |
| `Properties.AppleEaten` | code.js:119-128 | apple: +5 points, +1 apple, interval strictly smaller and positive, snake grows by the apple cell, new apple off the snake and the gift; on a multiple of 3 a gift off the snake and the new apple with a pending timer, otherwise gift and timer unchanged; game still running |
| `Properties.GiftEaten` | code.js:131-135 | gift (apple not hit): +20 points, gift gone, timer cancelled, apple and apple count unchanged |
| `Properties.KeyNeverReverses` | code.js:212-217 | with more than one cell, no key turns the direction into the exact opposite of the current one |
| `Properties.KeyIgnoredIff` | code.js:210-220 | a key leaves the state unchanged iff it reverses the last accepted direction, or repeats it while running or over |
| `Properties.KeyAccepted` | code.js:183-189 | an accepted key sets its direction and, unless the game is over, leaves the game running; snake, score and gift are untouched |
| `Properties.SpaceToggles` | code.js:160-171 | space is a no-op once over, otherwise flips paused/running and is its own inverse; gift and gift timer are untouched, so the gift can still expire while paused |
| `Properties.GiftExpireKeepsInv` | code.js:149-152 | the gift timer clears the gift and its pending flag, changes nothing else, and keeps the invariant |
| `Properties.RetryStartsClean` | code.js:224-227 | at Retry the game is over with no pending gift timer; the new game satisfies the invariant, has score 0 and no gift, and its apple avoids the stale gift |
| `Properties.EndIsFinal` | code.js:229-233 | after End no event changes snake, score or food, and the game stays over with the popup hidden |
| `Properties.NextPreservesInv` | code.js:98-233 | every stimulus keeps the invariant |
| `Properties.NextKeepsScore` | code.js:120-132 | no stimulus other than Retry lowers the score |
| `Properties.RunKeepsInv` | code.js:14-233 | every state of a run from a valid state is valid |
| `Properties.RunScoreMonotone` | code.js:120-132 | along any run without Retry the score never decreases |
| `Scenarios.RightStartsGame` | code.js:210-219 | from a fresh game, "right" gives direction (1,0) and a running game |
| `Scenarios.SpaceBeforeKeyIsFatal` | code.js:160-164 | space before any key starts the game, and the first tick ends it with score 0 and the starting snake |
| `Scenarios.FirstApple` | code.js:116-125 | an apple at (11,10) in front of the fresh snake: snake of three cells, score 5, one apple, interval 237.5, a new apple elsewhere, no gift |
| `Scenarios.QuickTurnsAreFatal` | code.js:212-218 | moving right, "left" is ignored, but "up" then "left" gives direction (-1,0), and the next tick ends the game |
| `Scenarios.ThirdAppleBringsGift` | code.js:127-128 | the third apple brings a gift with a pending timer; expiry removes it and keeps snake and score |
| `Engine.SnakeGame.constructor` | code.js:14-33 | page load sets up a valid fresh game with no previous gift |
| `Engine.SnakeGame.InitGame` | code.js:14-27 | sets up a fresh game whose apple avoids the previous gift, and establishes the invariant |
| `Engine.SnakeGame.RandomApple` | code.js:70-82 | returns a board cell off the snake and off the gift |
| `Engine.SnakeGame.RandomGift` | code.js:84-96 | returns a board cell off the snake and off the apple |
| `Engine.SnakeGame.Tick` | code.js:98-141 | performs one tick step of the rules in place and keeps the invariant |
| `Engine.SnakeGame.EatApple` | code.js:119-129 | the apple branch of a tick in place: the result is the tick step of the rules and keeps the invariant |
| `Engine.SnakeGame.EatGift` | code.js:131-135 | the gift branch of a tick in place: the result is the tick step of the rules and keeps the invariant |
| `Engine.SnakeGame.SpawnGift` | code.js:143-153 | places a gift on a free cell off the apple and sets its timer pending, changing nothing else |
| `Engine.SnakeGame.TriggerGameOver` | code.js:173-181 | stops ticking, cancels the gift timer, marks the game over and shows the popup; the gift stays |
| `Engine.SnakeGame.GiftExpire` | code.js:149-152 | the gift-timer step in place, keeping the invariant |
| `Engine.SnakeGame.Space` | code.js:160-171 | the space-bar step in place, keeping the invariant |
| `Engine.SnakeGame.StartGame` | code.js:183-189 | resumes ticking only if the game is paused and not over |
| `Engine.SnakeGame.KeyDir` | code.js:210-220 | the direction-key step in place, keeping the invariant |
| `Engine.SnakeGame.Retry` | code.js:224-227 | hides the popup and starts a valid fresh game whose apple avoids the stale gift |
| `Engine.SpaceBeforeAnyKey` | code.js:160-164 | a client: a new game, the space bar, one tick; the game is then over with score 0 and the starting snake |
| `Engine.SnakeGame.End` | code.js:229-233 | hides the popup and leaves the game over, keeping the invariant |

## Left out

- Rendering and the page: `createBoard`, `draw`, the element lookups, the status and score
  texts and the overlay's CSS classes (code.js:2-9, 28-68, 178-180) are display only. The
  overlay is kept only as the flag `overlayVisible`, because it decides when the Retry and End
  buttons can be clicked. The page's HTML is not part of this model; the model assumes the
  overlay starts hidden.
- Timers: `setInterval`, `setTimeout` and their cancellation are abstract events. The game
  timer ticks while `isPaused` is false. The gift timer fires while `giftTimerPending` is
  true. How long each interval is, and the restart of the game timer after an apple, are not
  modelled beyond "the game keeps running".
- Randomness: `Math.random` is not modelled. Each do/while placement loop becomes a choice of
  any cell its exit test accepts. That the loop ends almost surely is not modelled; the
  pigeonhole lemma only shows a cell to stop at exists.
- `Engine.SnakeGame.Tick`: when the apple is about to be eaten, it requires the snake to be
  shorter than 398 cells. That guarantees both placement loops have a free cell. On a fuller
  board the source's loops may never end, and the model does not describe that case.
- Floating point: `speed *= 0.95` is modelled on exact reals, not IEEE doubles.
- Key decoding: lower-casing `e.key`, the `dirMap` strings and listener registration
  (code.js:191-209) are not modelled. Only the resulting four direction vectors and the space
  key are.
