# Pastel Snake: a Dafny model of the game simulation

This project models the simulation core of a browser snake game (`script.js`).
A snake moves one cell per tick on a `cols` by `rows` grid. It eats a pellet to
grow and score. It dies on hitting a wall, and on hitting itself unless a
blueberry power-up has made it invincible for 20 seconds. A new game starts with a 3.5 s
"3-2-1-GO!" countdown. After death, a faster timer removes the body one tail
segment at a time and then shows "Game Over".

The game's globals are one immutable record, `Game.State`. Each entry point of
the script is a pure function on it:

- `Game.Reset` is `resetGame`.
- `Game.KeyDown` is the keydown handler.
- `Game.Tick` is `tick`.
- `Game.DeathStep` is one firing of the interval started by `die`.
- `Game.SpawnBlueberry` is one firing of the power-up timeout.
- `Game.Resize` is `setCanvasSize`.

Module by module:

- `Wrappers` holds the `Option` type.
- `Geometry` holds cells and direction vectors (`Point`), the grid bounds and the grid dimensions.
- `Spawner` holds the rejection sampler `spawnItem`.
- `Rules` holds case-by-case lemmas about single operations.
- `Trace` holds interleavings of events, the invariant every reachable state keeps, and multi-step properties.

Outside inputs are parameters:

- Time is the integer `now`, in milliseconds.
- The cell that `spawnItem` returns is the parameter `spawned`.
- The random stream behind `spawnItem` is a finite sequence of draws. `Spawner.SpawnItem` returns the first free draw, or `None` when no draw in the sequence is free; the real loop would then keep drawing.

Points the model makes explicit:

- With the narrowest canvas (200 px, so 5 columns) the starting tail is at x = -1. The starting snake is inside the grid exactly when `cols >= 6` and `rows >= 1` (`Rules.StartSnakeInGridIff`).
- Self-collision is checked against the pre-move body from index 1. This includes the tail cell that is about to move away.
- An invincible self-hit commits the move, so two segments can share a cell (`Rules.InvincibleOverlap`).
- The keydown handler compares the requested direction with the applied `dir`, not with the buffered `nextDir`. Because every tick copies `nextDir` into `dir` and the handler never buffers a reversal of `dir`, no tick ever reverses the previous tick's direction (`Trace.TickNeverReverses`).
- The power-up timer keeps firing with no phase check, including during the countdown and after death. `spawnItem` excludes only snake cells, so a blueberry can land on the pellet. Both items then take effect on the same tick (`Rules.PelletAndBlueberryTogether`).

## Model

| member | source | states |
|---|---|---|
| Geometry.CanvasExtent | script.js:18-19 | the stored canvas length is at least 200 and at least the requested length, and is one of the two |
| Geometry.CellsAlong | script.js:20-21 | the cell count is the floor of the clamped length over 40: `n*40 <= extent < (n+1)*40`, hence at least 5 |
| Geometry.GridDims | script.js:17-22 | both dimensions are floors of the clamped sizes over 40 and at least 5; there are exactly 5 columns when the width is below 240 px |
| Game.Resize | script.js:17-22 | after a resize, `(cols, rows)` equals the grid dimensions of the new canvas size, so each is at least 5; nothing else changes, and snake and items are not clamped |
| Spawner.FirstFree | script.js:83-89 | the index the sampling loop stops at: every earlier draw lies on the body, and the draw at the index (if any) does not |
| Spawner.SpawnItem | script.js:83-89 | a returned cell is the first draw that is off the body, so it is inside the grid and on no segment of the body; nothing is returned exactly when every draw lies on the body |
| Game.StartSnake | script.js:53-56 | the start body has 4 cells, its head is the centre cell `(cols/2, rows/2)`, and each later cell is one step left of the one before |
| Game.Reset | script.js:51-75 | a reset gives the start body, `dir = nextDir = (1,0)`, the spawned pellet, no blueberry, score 0, alive, invincibility 0, countdown on from `now`, and playSessions one higher |
| Game.KeyIntent | script.js:369-377 | ArrowUp/w/W map to up, ArrowDown/s/S to down, ArrowLeft/a/A to left, and ArrowRight/d/D to right, each if and only if; any other key maps to none |
| Game.KeyDown | script.js:366-378 | a key press either changes nothing or only sets `nextDir` to the key's direction; it changes nothing while dead or counting down; with a unit `dir` it never buffers the reversal of `dir` |
| Game.Tick | script.js:91-138 | a dead snake is left alone; score and length each rise by 0 or 1, and the score rises exactly when the length does; the body behind the new head is a prefix of the old body; blueberry and invincibility deadline are both kept unless the new head reaches the blueberry; a surviving move onto the blueberry always removes it and sets the deadline to `now + 20000`; a killing move leaves snake, score and pellet unchanged |
| Game.DeathStep | script.js:145-154 | a firing removes exactly the last segment and changes nothing else; game over is reported exactly when the body is empty, with the score unchanged |
| Game.SpawnBlueberry | script.js:80 | the blueberry becomes the new cell, replacing any previous one, whatever the phase; nothing else changes |
| Game.CountdownText | script.js:313-325 | the text is empty exactly from 3500 ms on, is "GO!" exactly in [3000, 3500), and is one character exactly before 3000 ms |
| Game.RemainingSeconds | script.js:135 | the seconds shown are 0 exactly when not invincible, and are otherwise the ceiling of the remaining ms over 1000 |
| Rules.StartSnakeInGridIff | script.js:53-56 | the start body is inside the grid if and only if `cols >= 6` and `rows >= 1` |
| Rules.NarrowGridTailOutside | script.js:54-56 | on the narrowest canvas the grid has 5 columns and the start tail is at x = -1 |
| Rules.ResetPelletFree | script.js:52-59 | the pellet placed by a reset is inside the grid and off the start body |
| Rules.KeyDownRejectsExactlyReversal | script.js:366-378 | while alive and past the countdown, a direction key is dropped if and only if it reverses the applied `dir`; otherwise it becomes `nextDir` |
| Rules.CountdownHolds | script.js:95-104 | a tick less than 3500 ms into the countdown changes nothing |
| Rules.CountdownEndsAndMoves | script.js:95-110 | the first tick at 3500 ms or later clears the countdown and, when the move does not collide, moves the head by `nextDir` in the same tick |
| Rules.CountdownLabelWhileHeld | script.js:97-104 | during the countdown, the label is non-empty if and only if a tick at that time leaves the state unchanged |
| Rules.CountdownDigit | script.js:313-321 | the digit shown is 3 minus the whole seconds elapsed |
| Rules.OrdinaryMove | script.js:106-133 | with no collision and no pellet, the body becomes `[head + nextDir] + body[..n-1]`; length, score and pellet are unchanged and `dir` becomes `nextDir`; when the blueberry is missed too, the new state differs from the old only in body, `dir` and a cleared countdown flag |
| Rules.MissBlueberryKeepsPowerUp | script.js:129-133 | a surviving move whose head misses the blueberry leaves the blueberry and the invincibility deadline unchanged |
| Rules.EatPellet | script.js:119-125 | eating keeps the tail: the body becomes `[head] + body` and the score rises by 1; the new pellet is inside the grid and off the new body |
| Rules.WallAlwaysKills | script.js:112-118 | a head outside the grid kills even when invincible; body, score and pellet are unchanged |
| Rules.SelfHitKillsIffNotInvincible | script.js:113-118 | inside the grid, a head on a pre-move segment at index 1 or later, the tail included, leaves the snake alive if and only if `now < invincibleUntil` |
| Rules.SingleSegmentNeverHitsSelf | script.js:113 | a one-segment snake cannot collide with itself |
| Rules.ChasingTailKills | script.js:113-116 | a head moving onto the current tail cell kills a snake that is not invincible, although the tail would move away in that tick |
| Rules.BlueberryGrantsInvincibility | script.js:129-136 | reaching the blueberry removes it; invincibility holds at time t exactly when `t < now + 20000`, and 20 s are shown |
| Rules.PelletAndBlueberryTogether | script.js:119-133 | when pellet and blueberry share the new head's cell, one tick both grows the snake and grants invincibility |
| Rules.InvincibleOverlap | script.js:113-127 | a concrete invincible self-hit leaves the snake alive with its head on the same cell as a later segment |
| Rules.FourTicksRight | script.js:51-127 | after a reset on a 10x10 grid and four ticks from 3500 ms, the head is at (9,5); length is 4, score 0, and the snake is alive |
| Rules.BlueberryFree | script.js:80 | a blueberry placed by `spawnItem` is inside the grid and off the snake |
| Rules.BlueberryReplaced | script.js:77-81 | two power-up firings leave only the second blueberry |
| Rules.DeathRunShrinks | script.js:145-148 | after n <= length firings of the death timer, exactly the last n segments are gone and nothing else has changed |
| Rules.DeathSequence | script.js:140-154 | after `|snake|` firings the body is empty with the score frozen; the next firing reports game over with that score |
| Trace.ResetEstablishesInv | script.js:51-58 | a reset state satisfies the invariant: unit directions that are not reversed, a non-empty connected body, and head one `dir` step past the neck |
| Trace.KeyDownPreservesInv | script.js:366-378 | key presses keep the invariant, in particular `nextDir` never reverses `dir` |
| Trace.TickPreservesInv | script.js:106-127 | ticks keep the invariant: the body stays connected and the head stays one `dir` step past the neck |
| Trace.DeathStepPreservesInv | script.js:145-148 | death-timer firings keep the invariant |
| Trace.Step | script.js:73-421 | one firing of the tick interval (73), the power-up timeout (80), the death interval (145), keydown (366), retry (382) or resize (407): every event keeps the invariant; only a retry lowers the score, to 0, and only a retry changes playSessions, adding one |
| Trace.Run | script.js:73-421 | any sequence of the browser's events (tick, power-up, death timer, keydown, retry, resize) from a state with the invariant ends in a state with the invariant |
| Trace.TickNeverReverses | script.js:107 | the direction a tick applies is never the reversal of the direction applied before it |
| Trace.NeverIntoNeck | script.js:107-113 | in a reachable live state, the next head is never the neck cell |
| Trace.ScoreNeverDecreases | script.js:119-126 | within one game (no retry), any sequence of events never lowers the score |
| Trace.DeadIgnoresInput | script.js:91-92 | once dead, key presses and ticks change nothing |
| Trace.LivingSnakeNeverShrinks | script.js:119-127 | a tick after which the snake is still alive never shortens it |
| Trace.CountdownFreezesRun | script.js:95-104 | with any spacing of ticks before 3500 ms and any other events except a retry, the snake, directions and score do not change, and the countdown stays on |
| Trace.TickKeepsInGrid | script.js:112-119 | a live snake whose segments are all inside the grid still has them all inside after a tick |

## Left out

- Drawing (`draw`, `drawPellet`, `drawBlueberry`, `drawSegment`, `roundRect`, `drawEye`, `drawWings`, the float-in animation, the grid lines) is rendering with floating-point geometry. The tail-fade lookup `snake.indexOf({x, y})` on line 255 compares object identity, so it is always -1 and has no gameplay effect.
- The countdown's scale factors (lines 315-324) are floating-point animation parameters. Only the text is modelled.
- The horror event, its audio and the 25% retry probability (lines 380-390, 427-538) are DOM, Web Audio and `Math.random` code. A retry is modelled as an immediate reset.
- Timer plumbing is not modelled. This covers `setInterval`, `setTimeout` and `clearInterval`, the 100 ms and 70 ms periods, and the random 15-30 s power-up delay (line 79). Each firing is an explicit event, in any order, except that the death timer does nothing to a living snake because it only exists after `die`.
- DOM wiring is not modelled: score and power text elements, the overlay, the grid toggle, and the fullscreen listeners beyond the resize itself.
- The first grid size is read from the HTML canvas (lines 12-13), which is outside the script. The model takes `cols` and `rows` from the state.
- Fractional window sizes are not modelled. `setCanvasSize` takes `Math.floor` of its arguments, and the model takes integer sizes.
- Spawner.SpawnItem: it models a finite prefix of the random draws. A grid covered by the snake, where the real loop never ends, appears as "no free draw yet", not as non-termination.
- Game.Tick: the two clock readings in one tick (lines 95 and 130) are taken as the same `now`. This is why `Rules.BlueberryGrantsInvincibility` can promise that 20 s are shown; if the second reading is even 1 ms later, line 135 shows 21 s.
