/** Interleavings of the game's entry points. The browser calls the
    keydown handler, the 100 ms tick, the 70 ms death timer, the power-up
    timer, the retry button and the resize handler in some order on one
    thread; an `Event` is one such call and `Run` applies a list of them.
    The timers' periods and random delays are not modelled: any order of
    firings is allowed, except that the death timer fires only after `die`. */
module Trace {
  import opened Wrappers
  import opened Geometry
  import opened Game

  datatype Event =
    | KeyPress(key: string)
    | TickAt(now: int, spawned: Point)
    | DeathTimer
    | BlueberryTimer(cell: Point)
    | Retry(now: int, spawned: Point)
    | ResizeTo(w: int, h: int)

  /** Every pair of neighbouring segments is one unit step apart. */
  predicate Linked(body: seq<Point>)
  {
    forall i :: 0 < i < |body| ==> Adjacent(body[i], body[i - 1])
  }

  /** What every reachable state satisfies. The applied and buffered
      directions are unit moves and the buffered one never reverses the
      applied one; a living snake is non-empty and connected, and its head
      sits one `dir` step past its neck. */
  predicate Inv(s: State)
  {
    && IsUnit(s.dir) && IsUnit(s.nextDir) && s.nextDir != Neg(s.dir)
    && (s.alive ==> |s.snake| > 0)
    && Linked(s.snake)
    && (s.alive && |s.snake| > 1 ==> s.snake[0] == Add(s.snake[1], s.dir))
  }

  lemma ResetEstablishesInv(s: State, now: int, spawned: Point)
    ensures Inv(Reset(s, now, spawned))
  {
    var r := Reset(s, now, spawned);
    forall i | 0 < i < |r.snake|
      ensures Adjacent(r.snake[i], r.snake[i - 1])
    {
      assert r.snake[i - 1] == Add(r.snake[i], Right);
    }
  }

  lemma KeyDownPreservesInv(s: State, key: string)
    requires Inv(s)
    ensures Inv(KeyDown(s, key))
  {
  }

  /** A prefix of a connected body is connected. */
  lemma {:induction false} LinkedPrefix(body: seq<Point>, n: nat)
    requires Linked(body) && n <= |body|
    ensures Linked(body[..n])
  {
    forall i | 0 < i < n
      ensures Adjacent(body[..n][i], body[..n][i - 1])
    {
      assert body[..n][i] == body[i] && body[..n][i - 1] == body[i - 1];
    }
  }

  /** Prepending a cell one step from the old head keeps a body connected. */
  lemma {:induction false} LinkedPrepend(head: Point, body: seq<Point>)
    requires Linked(body) && |body| > 0 && Adjacent(body[0], head)
    ensures Linked([head] + body)
  {
    var b := [head] + body;
    forall i | 0 < i < |b|
      ensures Adjacent(b[i], b[i - 1])
    {
      if i > 1 {
        assert b[i] == body[i - 1] && b[i - 1] == body[i - 2];
      }
    }
  }

  /** A tick that does not get past the countdown, or finds the snake
      dead, changes nothing. */
  lemma TickHeld(s: State, now: int, spawned: Point)
    requires !Moves(s, now)
    ensures Tick(s, now, spawned) == s
  {
  }

  /** A killing tick applies the buffered direction and ends the game. */
  lemma TickKills(s: State, now: int, spawned: Point)
    requires Moves(s, now) && |s.snake| > 0 && Collides(s, now)
    ensures Tick(s, now, spawned)
            == s.(countdownActive := false, dir := s.nextDir, alive := false)
  {
  }

  /** A surviving tick applies the buffered direction and puts the new
      head in front of the old body, keeping or dropping its tail. */
  lemma TickMovesHead(s: State, now: int, spawned: Point)
    requires Moves(s, now) && |s.snake| > 0 && !Collides(s, now)
    ensures var r := Tick(s, now, spawned);
            var grown := [NextHead(s)] + s.snake;
            && r.alive && r.dir == s.nextDir && r.nextDir == s.nextDir
            && (r.snake == grown || r.snake == grown[..|grown| - 1])
  {
  }

  /** The invariant after a move: the head steps ahead by the buffered
      direction, the old body follows with or without its tail. */
  lemma InvAfterMove(s: State, r: State)
    requires Inv(s) && |s.snake| > 0
    requires r.alive && r.dir == s.nextDir && r.nextDir == s.nextDir
    requires var grown := [NextHead(s)] + s.snake;
             r.snake == grown || r.snake == grown[..|grown| - 1]
    ensures Inv(r)
  {
    UnitNotSelfReverse(s.nextDir);
    var head := NextHead(s);
    AddUnitIsAdjacent(s.snake[0], s.nextDir);
    LinkedPrepend(head, s.snake);
    var grown := [head] + s.snake;
    LinkedPrefix(grown, |grown| - 1);
  }

  lemma TickPreservesInv(s: State, now: int, spawned: Point)
    requires Inv(s)
    ensures Inv(Tick(s, now, spawned))
  {
    if !Moves(s, now) {
      TickHeld(s, now, spawned);
    } else if Collides(s, now) {
      TickKills(s, now, spawned);
      UnitNotSelfReverse(s.nextDir);
    } else {
      TickMovesHead(s, now, spawned);
      InvAfterMove(s, Tick(s, now, spawned));
    }
  }

  lemma DeathStepPreservesInv(s: State)
    requires Inv(s) && !s.alive && DeathStep(s).Popped?
    ensures Inv(DeathStep(s).next)
  {
    LinkedPrefix(s.snake, |s.snake| - 1);
  }

  /** One event. The death timer exists only between `die` and game over,
      so it does nothing to a living snake; game over stops it. */
  function Step(s: State, e: Event): (r: State)
    requires Inv(s)
    ensures Inv(r)
    ensures !e.Retry? ==> r.score >= s.score && r.playSessions == s.playSessions
    ensures e.Retry? ==> r.score == 0 && r.playSessions == s.playSessions + 1
  {
    match e
    case KeyPress(key) =>
      KeyDownPreservesInv(s, key);
      KeyDown(s, key)
    case TickAt(now, spawned) =>
      TickPreservesInv(s, now, spawned);
      Tick(s, now, spawned)
    case DeathTimer =>
      if s.alive then s
      else (
        match DeathStep(s)
        case Popped(t) =>
          DeathStepPreservesInv(s);
          t
        case GameOver(_) => s)
    case BlueberryTimer(cell) => SpawnBlueberry(s, cell)
    case Retry(now, spawned) =>
      ResetEstablishesInv(s, now, spawned);
      Reset(s, now, spawned)
    case ResizeTo(w, h) => Resize(s, w, h)
  }

  /** The events in order, from a state satisfying the invariant. */
  function Run(s: State, events: seq<Event>): (r: State)
    requires Inv(s)
    ensures Inv(r)
    decreases |events|
  {
    if |events| == 0 then s else Run(Step(s, events[0]), events[1..])
  }

  // ---------------------------------------------------------------- consequences

  /** The direction a tick applies is never the reversal of the direction
      the previous tick applied. */
  lemma TickNeverReverses(s: State, now: int, spawned: Point)
    requires Inv(s)
    ensures Tick(s, now, spawned).dir != Neg(s.dir)
  {
    UnitNotSelfReverse(s.dir);
    if !Moves(s, now) {
      TickHeld(s, now, spawned);
    } else if Collides(s, now) {
      TickKills(s, now, spawned);
    } else {
      TickMovesHead(s, now, spawned);
    }
  }

  /** Hence a move never takes the head back onto its own neck. */
  lemma NeverIntoNeck(s: State)
    requires Inv(s) && s.alive && |s.snake| > 1
    ensures NextHead(s) != s.snake[1]
  {
    AddUnitIsAdjacent(s.snake[1], s.dir);
  }

  predicate NoRetry(events: seq<Event>)
  {
    forall i :: 0 <= i < |events| ==> !events[i].Retry?
  }

  lemma NoRetryTail(events: seq<Event>)
    requires |events| > 0 && NoRetry(events)
    ensures !events[0].Retry? && NoRetry(events[1..])
  {
    forall i | 0 <= i < |events[1..]|
      ensures !events[1..][i].Retry?
    {
      assert events[1..][i] == events[i + 1];
    }
  }

  /** Within one game (no retry) the score never goes down. */
  lemma {:induction false} ScoreNeverDecreases(s: State, events: seq<Event>)
    requires Inv(s) && NoRetry(events)
    ensures Run(s, events).score >= s.score
    decreases |events|
  {
    if |events| > 0 {
      NoRetryTail(events);
      ScoreNeverDecreases(Step(s, events[0]), events[1..]);
    }
  }

  /** Once the snake is dead, only the death timer, the power-up timer, a
      resize and a retry change anything; key presses and ticks are no-ops. */
  lemma DeadIgnoresInput(s: State, e: Event)
    requires Inv(s) && !s.alive
    requires e.KeyPress? || e.TickAt?
    ensures Step(s, e) == s
  {
  }

  /** A tick that leaves the snake alive never shortens it. */
  lemma LivingSnakeNeverShrinks(s: State, now: int, spawned: Point)
    requires Inv(s)
    requires Tick(s, now, spawned).alive
    ensures |Tick(s, now, spawned).snake| >= |s.snake|
  {
  }

  /** Ticks before `deadline`, with any key presses, power-up firings,
      resizes or death-timer firings in between. */
  predicate AllBefore(events: seq<Event>, deadline: int)
  {
    forall i :: 0 <= i < |events| && events[i].TickAt? ==> events[i].now < deadline
  }

  /** One event before the deadline leaves a counting-down snake as it was. */
  lemma StepDuringCountdown(s: State, e: Event)
    requires Inv(s) && s.alive && s.countdownActive
    requires !e.Retry? && (e.TickAt? ==> e.now < s.countdownStartTime + CountdownMs)
    ensures var t := Step(s, e);
            && t.snake == s.snake && t.dir == s.dir && t.nextDir == s.nextDir
            && t.score == s.score && t.alive && t.countdownActive
            && t.countdownStartTime == s.countdownStartTime
  {
    match e
    case TickAt(now, spawned) =>
      assert !Moves(s, now);
      TickHeld(s, now, spawned);
      assert Step(s, e) == s;
    case KeyPress(key) =>
      assert Step(s, e) == s;
    case DeathTimer =>
      assert Step(s, e) == s;
    case BlueberryTimer(cell) =>
      assert Step(s, e) == SpawnBlueberry(s, cell);
    case ResizeTo(w, h) =>
      assert Step(s, e) == Resize(s, w, h);
    case Retry(_, _) =>
  }

  /** However the ticks are spaced, nothing moves before the countdown has
      run its full 3500 ms: the snake, its directions and the score stay as
      they were and the countdown stays on. */
  lemma {:induction false} CountdownFreezesRun(s: State, events: seq<Event>)
    requires Inv(s) && s.alive && s.countdownActive
    requires NoRetry(events) && AllBefore(events, s.countdownStartTime + CountdownMs)
    ensures var r := Run(s, events);
            && r.snake == s.snake && r.dir == s.dir && r.nextDir == s.nextDir
            && r.score == s.score && r.alive && r.countdownActive
            && r.countdownStartTime == s.countdownStartTime
    decreases |events|
  {
    if |events| > 0 {
      NoRetryTail(events);
      StepDuringCountdown(s, events[0]);
      var t := Step(s, events[0]);
      assert AllBefore(events[1..], s.countdownStartTime + CountdownMs) by {
        forall i | 0 <= i < |events[1..]| && events[1..][i].TickAt?
          ensures events[1..][i].now < s.countdownStartTime + CountdownMs
        {
          assert events[1..][i] == events[i + 1];
        }
      }
      CountdownFreezesRun(t, events[1..]);
    }
  }

  /** A living snake whose segments are all inside the grid keeps them
      there: a move that would leave the grid kills instead. */
  lemma TickKeepsInGrid(s: State, now: int, spawned: Point)
    requires Inv(s) && s.alive
    requires forall i :: 0 <= i < |s.snake| ==> InGrid(s.snake[i], s.cols, s.rows)
    ensures var r := Tick(s, now, spawned);
            forall i :: 0 <= i < |r.snake| ==> InGrid(r.snake[i], r.cols, r.rows)
  {
    var r := Tick(s, now, spawned);
    if r.snake != s.snake {
      forall i | 0 <= i < |r.snake|
        ensures InGrid(r.snake[i], r.cols, r.rows)
      {
        if i > 0 {
          assert r.snake[i] == r.snake[1..][i - 1];
        }
      }
    }
  }
}
