/** Properties of single game operations: what one reset, key press, tick,
    death-timer firing or power-up firing does, case by case. */
module Rules {
  import opened Wrappers
  import opened Geometry
  import opened Spawner
  import opened Game

  // ---------------------------------------------------------------- reset

  /** The starting snake lies inside the grid exactly when the grid has at
      least six columns and one row. With five columns (the narrowest grid
      the canvas allows) the tail starts at x = -1. */
  lemma StartSnakeInGridIff(cols: nat, rows: nat)
    ensures (forall i :: 0 <= i < StartLen ==> InGrid(StartSnake(cols, rows)[i], cols, rows))
            <==> cols >= 6 && rows >= 1
  {
    var body := StartSnake(cols, rows);
    assert body[3] == Point(cols / 2 - 3, rows / 2);
    if cols >= 6 && rows >= 1 {
      forall i | 0 <= i < StartLen
        ensures InGrid(body[i], cols, rows)
      {
        assert body[i] == Point(cols / 2 - i, rows / 2);
      }
    }
  }

  /** The narrowest canvas gives five columns and a tail outside the grid. */
  lemma NarrowGridTailOutside(h: int)
    ensures GridDims(MinCanvas, h).0 == 5
    ensures StartSnake(5, GridDims(MinCanvas, h).1)[3].x == -1
  {
  }

  /** The pellet placed by a reset is inside the grid and off the snake,
      when the sampler has found a free cell. */
  lemma ResetPelletFree(s: State, now: int, draws: seq<Point>)
    requires AllInGrid(draws, s.cols, s.rows)
    requires SpawnItem(StartSnake(s.cols, s.rows), s.cols, s.rows, draws).Some?
    ensures var r := Reset(s, now, SpawnItem(StartSnake(s.cols, s.rows), s.cols, s.rows, draws).value);
            InGrid(r.pellet, r.cols, r.rows) && r.pellet !in r.snake
  {
  }

  // ---------------------------------------------------------------- input

  /** With a unit applied direction, the component tests of the keydown
      handler drop exactly the reversal of `dir`; every other arrow or WASD
      key replaces the buffered intent. The buffered `nextDir` plays no part. */
  lemma KeyDownRejectsExactlyReversal(s: State, key: string)
    requires s.alive && !s.countdownActive
    requires IsUnit(s.dir)
    requires KeyIntent(key).Some?
    ensures var d := KeyIntent(key).value;
            KeyDown(s, key) == if d == Neg(s.dir) then s else s.(nextDir := d)
  {
  }

  // ---------------------------------------------------------------- countdown

  /** Before the countdown has run 3500 ms, a tick changes nothing. */
  lemma CountdownHolds(s: State, now: int, spawned: Point)
    requires s.alive && s.countdownActive && !CountdownOver(s, now)
    ensures Tick(s, now, spawned) == s
  {
  }

  /** The first tick at or after 3500 ms clears the countdown and moves the
      snake in the same tick. */
  lemma CountdownEndsAndMoves(s: State, now: int, spawned: Point)
    requires s.alive && s.countdownActive && CountdownOver(s, now)
    requires |s.snake| > 0 && !Collides(s, now)
    ensures var r := Tick(s, now, spawned);
            !r.countdownActive && r.alive && r.snake[0] == NextHead(s) && r.dir == s.nextDir
  {
  }

  /** The label is drawn for exactly as long as ticks hold the snake still. */
  lemma CountdownLabelWhileHeld(s: State, now: int, spawned: Point)
    requires s.alive && s.countdownActive
    requires |s.snake| > 0
    ensures CountdownText(now - s.countdownStartTime) != "" <==> Tick(s, now, spawned) == s
  {
    if CountdownOver(s, now) {
      assert !Tick(s, now, spawned).countdownActive;
    }
  }

  /** An independent reading of the digit phase: the digit is three minus
      the number of whole seconds elapsed. */
  lemma CountdownDigit(elapsed: int)
    requires 0 <= elapsed < 3000
    ensures CountdownText(elapsed) == [('0' as int + 3 - elapsed / 1000) as char]
  {
  }

  // ---------------------------------------------------------------- moves

  /** No collision and no pellet: the head advances by the buffered
      direction and the tail cell is dropped. When the blueberry is not on
      the new head either, nothing else changes. */
  lemma OrdinaryMove(s: State, now: int, spawned: Point)
    requires Moves(s, now) && |s.snake| > 0
    requires !Collides(s, now) && NextHead(s) != s.pellet
    ensures var r := Tick(s, now, spawned);
            && r.alive
            && r.snake == [Add(s.snake[0], s.nextDir)] + s.snake[..|s.snake| - 1]
            && |r.snake| == |s.snake|
            && r.score == s.score && r.pellet == s.pellet
            && r.dir == s.nextDir
    ensures s.blueberry != Some(NextHead(s)) ==>
              Tick(s, now, spawned)
              == s.(snake := [NextHead(s)] + s.snake[..|s.snake| - 1],
                    dir := s.nextDir, countdownActive := false)
  {
  }

  /** A surviving move whose head misses the blueberry leaves the blueberry
      and the invincibility deadline as they were, pellet or no pellet. */
  lemma MissBlueberryKeepsPowerUp(s: State, now: int, spawned: Point)
    requires Moves(s, now) && |s.snake| > 0
    requires !Collides(s, now) && s.blueberry != Some(NextHead(s))
    ensures var r := Tick(s, now, spawned);
            r.blueberry == s.blueberry && r.invincibleUntil == s.invincibleUntil
  {
  }

  /** Eating the pellet keeps the tail, adds one to the score, and puts the
      new pellet inside the grid and off the grown snake. */
  lemma EatPellet(s: State, now: int, draws: seq<Point>)
    requires Moves(s, now) && |s.snake| > 0
    requires !Collides(s, now) && NextHead(s) == s.pellet
    requires AllInGrid(draws, s.cols, s.rows)
    requires SpawnItem([NextHead(s)] + s.snake, s.cols, s.rows, draws).Some?
    ensures var r := Tick(s, now, SpawnItem([NextHead(s)] + s.snake, s.cols, s.rows, draws).value);
            && r.alive
            && r.snake == [NextHead(s)] + s.snake
            && r.score == s.score + 1
            && InGrid(r.pellet, r.cols, r.rows) && r.pellet !in r.snake
  {
  }

  /** A head outside the grid ends the game whatever the invincibility, and
      death leaves the body, score and pellet as they were. */
  lemma WallAlwaysKills(s: State, now: int, spawned: Point)
    requires Moves(s, now) && |s.snake| > 0
    requires HitsWall(s)
    ensures var r := Tick(s, now, spawned);
            && !r.alive
            && r.snake == s.snake && r.score == s.score && r.pellet == s.pellet
            && r.dir == s.nextDir
  {
  }

  /** Inside the grid, running into a pre-move segment other than the head
      (the tail included) ends the game exactly when the invincibility has
      run out. */
  lemma SelfHitKillsIffNotInvincible(s: State, now: int, spawned: Point)
    requires Moves(s, now) && |s.snake| > 0
    requires !HitsWall(s) && HitsSelf(s)
    ensures Tick(s, now, spawned).alive <==> now < s.invincibleUntil
  {
  }

  /** A snake of one segment has no body to run into. */
  lemma SingleSegmentNeverHitsSelf(s: State)
    requires |s.snake| == 1
    ensures !HitsSelf(s)
  {
  }

  /** The collision test runs on the body before the move, so stepping onto
      the current tail cell kills a snake that is not invincible, although
      that tail would have moved away in the same tick. */
  lemma ChasingTailKills(s: State, now: int, spawned: Point)
    requires Moves(s, now) && |s.snake| > 1
    requires NextHead(s) == s.snake[|s.snake| - 1]
    requires !Invincible(s, now)
    ensures !Tick(s, now, spawned).alive
  {
    assert s.snake[1..][|s.snake| - 2] == s.snake[|s.snake| - 1];
  }

  /** Reaching the blueberry removes it and makes the snake invincible for
      exactly the next 20000 ms. */
  lemma BlueberryGrantsInvincibility(s: State, now: int, spawned: Point)
    requires Moves(s, now) && |s.snake| > 0
    requires !Collides(s, now) && s.blueberry == Some(NextHead(s))
    ensures var r := Tick(s, now, spawned);
            && r.blueberry == None
            && (forall t :: Invincible(r, t) <==> t < now + InvincibleMs)
            && RemainingSeconds(r, now) == InvincibleMs / 1000
  {
  }

  /** The pellet and the blueberry rules are independent: when both sit on
      the new head, one tick grows the snake and grants invincibility. */
  lemma PelletAndBlueberryTogether(s: State, now: int, spawned: Point)
    requires Moves(s, now) && |s.snake| > 0
    requires !Collides(s, now)
    requires s.pellet == NextHead(s) && s.blueberry == Some(NextHead(s))
    ensures var r := Tick(s, now, spawned);
            && r.score == s.score + 1 && |r.snake| == |s.snake| + 1
            && r.blueberry == None && r.invincibleUntil == now + InvincibleMs
  {
  }

  /** An invincible run into the body commits the move, so two segments of
      the body can share a cell: body cells are not distinct in general. */
  lemma InvincibleOverlap()
    ensures var s := State(
              snake := [Point(2, 2), Point(2, 3), Point(3, 3), Point(3, 2), Point(3, 1)],
              dir := Up, nextDir := Right, pellet := Point(0, 0), blueberry := None,
              score := 0, alive := true, invincibleUntil := 1000,
              countdownActive := false, countdownStartTime := 0, playSessions := 1,
              cols := 10, rows := 10);
            var r := Tick(s, 500, Point(0, 0));
            r.alive && r.snake[0] == r.snake[4]
  {
  }

  /** Four ticks after a reset on a 10 by 10 grid, with no turns and the
      pellet out of the way, the head is four cells further right, the
      length is unchanged and the score is 0. */
  lemma FourTicksRight(s: State)
    requires s.cols == 10 && s.rows == 10
    ensures var r0 := Reset(s, 0, Point(0, 0));
            var r := Tick(Tick(Tick(Tick(r0, 3500, r0.pellet), 3600, r0.pellet), 3700, r0.pellet), 3800, r0.pellet);
            r.snake[0] == Point(9, 5) && |r.snake| == StartLen && r.score == 0 && r.alive
  {
    var p := Point(0, 0);
    var r0 := Reset(s, 0, p);
    assert r0.snake == [Point(5, 5), Point(4, 5), Point(3, 5), Point(2, 5)];
    var r1 := MoveRightOnRow5(r0, 3500, 6);
    var r2 := MoveRightOnRow5(r1, 3600, 7);
    var r3 := MoveRightOnRow5(r2, 3700, 8);
    var r4 := MoveRightOnRow5(r3, 3800, 9);
  }

  /** One ordinary tick of a four-segment snake heading right along row 5
      with its head entering column `x`. */
  lemma MoveRightOnRow5(s: State, now: int, x: int) returns (r: State)
    requires s.cols == 10 && s.rows == 10 && 1 <= x < 10
    requires s.alive && s.nextDir == Right && s.pellet == Point(0, 0)
    requires s.snake == [Point(x - 1, 5), Point(x - 2, 5), Point(x - 3, 5), Point(x - 4, 5)]
    requires !s.countdownActive || CountdownOver(s, now)
    ensures r == Tick(s, now, Point(0, 0))
    ensures r.snake == [Point(x, 5), Point(x - 1, 5), Point(x - 2, 5), Point(x - 3, 5)]
    ensures r.alive && r.nextDir == Right && r.pellet == Point(0, 0) && r.score == s.score
    ensures !r.countdownActive && r.cols == 10 && r.rows == 10
  {
    assert NextHead(s) == Point(x, 5);
    assert !HitsSelf(s);
    OrdinaryMove(s, now, Point(0, 0));
    r := Tick(s, now, Point(0, 0));
  }

  // ---------------------------------------------------------------- power-up timer

  /** The blueberry a firing places, as sampled by `spawnItem`, is inside
      the grid and off the snake (though it may share the pellet's cell). */
  lemma BlueberryFree(s: State, draws: seq<Point>)
    requires AllInGrid(draws, s.cols, s.rows)
    requires SpawnItem(s.snake, s.cols, s.rows, draws).Some?
    ensures var r := SpawnBlueberry(s, SpawnItem(s.snake, s.cols, s.rows, draws).value);
            && r.blueberry.Some?
            && InGrid(r.blueberry.value, r.cols, r.rows) && r.blueberry.value !in r.snake
  {
  }

  /** A second firing before the first blueberry is eaten replaces it: there
      is never more than one. */
  lemma BlueberryReplaced(s: State, a: Point, b: Point)
    ensures SpawnBlueberry(SpawnBlueberry(s, a), b) == SpawnBlueberry(s, b)
  {
  }

  // ---------------------------------------------------------------- death

  /** `n` firings of the death timer, stopping at the first game-over. */
  function DeathRun(s: State, n: nat): DeathTick
    decreases n
  {
    if n == 0 then Popped(s)
    else
      match DeathStep(s)
      case GameOver(f) => GameOver(f)
      case Popped(t) => DeathRun(t, n - 1)
  }

  /** After `n` firings, `n` at most the body length, exactly the last `n`
      segments are gone and nothing else has changed. */
  lemma {:induction false} DeathRunShrinks(s: State, n: nat)
    requires n <= |s.snake|
    ensures DeathRun(s, n) == Popped(s.(snake := s.snake[..|s.snake| - n]))
    decreases n
  {
    if n == 0 {
      assert s.snake[..|s.snake|] == s.snake;
    } else {
      var t := s.(snake := s.snake[..|s.snake| - 1]);
      assert DeathStep(s) == Popped(t);
      DeathRunShrinks(t, n - 1);
      assert t.snake[..|t.snake| - (n - 1)] == s.snake[..|s.snake| - n];
    }
  }

  /** The death sequence empties the body in `|snake|` firings with the
      score frozen, and the next firing reports game over with that score. */
  lemma DeathSequence(s: State)
    ensures DeathRun(s, |s.snake|) == Popped(s.(snake := []))
    ensures DeathRun(s, |s.snake| + 1) == GameOver(s.score)
  {
    DeathRunShrinks(s, |s.snake|);
    DeathRunThenStep(s, |s.snake|);
  }

  /** One more firing after `n` firings that left a state. */
  lemma {:induction false} DeathRunThenStep(s: State, n: nat)
    requires DeathRun(s, n).Popped?
    ensures DeathRun(s, n + 1) == match DeathStep(DeathRun(s, n).next)
                                  case GameOver(f) => GameOver(f)
                                  case Popped(t) => Popped(t)
    decreases n
  {
    if n > 0 {
      match DeathStep(s)
      case Popped(t) => DeathRunThenStep(t, n - 1);
      case GameOver(_) =>
    }
  }
}
