/** The game state machine of script.js: one immutable record for the
    game's globals and one pure function per entry point that changes them
    (`resetGame`, the keydown handler, `tick`, one firing of the death timer
    started by `die`, one firing of the power-up timer of
    `scheduleBlueberry`), plus the two integer read-outs the screen shows
    (the countdown text and the remaining invincible seconds).

    Time is the integer `now`, in milliseconds, supplied by the caller. A
    cell produced by `spawnItem` is supplied by the caller too; see module
    Spawner for the sampler that produces it. */
module Game {
  import opened Wrappers
  import opened Geometry

  /** Length of a fresh snake. */
  const StartLen := 4
  /** Duration of the 3-2-1-GO countdown, in milliseconds. */
  const CountdownMs := 3500
  /** Duration of the invincibility granted by a blueberry, in milliseconds. */
  const InvincibleMs := 20000

  /** The game's globals. The head of the snake is `snake[0]`; `dir` is the
      direction applied at the last move and `nextDir` the buffered intent. */
  datatype State = State(
    snake: seq<Point>,
    dir: Point,
    nextDir: Point,
    pellet: Point,
    blueberry: Option<Point>,
    score: nat,
    alive: bool,
    invincibleUntil: int,
    countdownActive: bool,
    countdownStartTime: int,
    playSessions: nat,
    cols: nat,
    rows: nat)

  /** A resize of the canvas to `w` by `h` pixels (`setCanvasSize`): only the
      grid dimensions change; cells already placed are not clamped. */
  function Resize(s: State, w: int, h: int): (r: State)
    ensures (r.cols, r.rows) == GridDims(w, h)
    ensures r.cols >= 5 && r.rows >= 5
    ensures r.(cols := s.cols, rows := s.rows) == s
  {
    var d := GridDims(w, h);
    s.(cols := d.0, rows := d.1)
  }

  // ---------------------------------------------------------------- reset

  /** The horizontal starting snake, head at the centre cell, trailing to
      the left. */
  function StartSnake(cols: nat, rows: nat): (body: seq<Point>)
    ensures |body| == StartLen
    ensures body[0] == Point(cols / 2, rows / 2)
    ensures forall i :: 0 < i < |body| ==> body[i] == Add(body[i - 1], Left)
  {
    seq(StartLen, i => Point(cols / 2 - i, rows / 2))
  }

  /** `resetGame`: a new game, counting down from `now`, with `spawned` as
      the pellet. */
  function Reset(s: State, now: int, spawned: Point): (r: State)
    ensures r.snake == StartSnake(s.cols, s.rows)
    ensures r.dir == Right && r.nextDir == Right
    ensures r.pellet == spawned && r.blueberry == None
    ensures r.score == 0 && r.alive && r.invincibleUntil == 0
    ensures r.countdownActive && r.countdownStartTime == now
    ensures r.playSessions == s.playSessions + 1
    ensures r.cols == s.cols && r.rows == s.rows
  {
    State(
      snake := StartSnake(s.cols, s.rows),
      dir := Right,
      nextDir := Right,
      pellet := spawned,
      blueberry := None,
      score := 0,
      alive := true,
      invincibleUntil := 0,
      countdownActive := true,
      countdownStartTime := now,
      playSessions := s.playSessions + 1,
      cols := s.cols,
      rows := s.rows)
  }

  // ---------------------------------------------------------------- input

  /** The direction a key asks for: arrows and WASD in either case. */
  function KeyIntent(key: string): (d: Option<Point>)
    ensures d.Some? ==> IsUnit(d.value)
    ensures d == Some(Up) <==> key == "ArrowUp" || key == "w" || key == "W"
    ensures d == Some(Down) <==> key == "ArrowDown" || key == "s" || key == "S"
    ensures d == Some(Left) <==> key == "ArrowLeft" || key == "a" || key == "A"
    ensures d == Some(Right) <==> key == "ArrowRight" || key == "d" || key == "D"
    ensures d.None? <==> key !in {"ArrowUp", "w", "W", "ArrowDown", "s", "S",
                                  "ArrowLeft", "a", "A", "ArrowRight", "d", "D"}
  {
    if key == "ArrowUp" || key == "w" || key == "W" then Some(Up)
    else if key == "ArrowDown" || key == "s" || key == "S" then Some(Down)
    else if key == "ArrowLeft" || key == "a" || key == "A" then Some(Left)
    else if key == "ArrowRight" || key == "d" || key == "D" then Some(Right)
    else None
  }

  /** Whether the keydown handler drops intent `d` because of the applied
      direction `dir`; each key tests one component of `dir`. */
  predicate Blocked(dir: Point, d: Point)
  {
    if d == Up then dir.y == 1
    else if d == Down then dir.y == -1
    else if d == Left then dir.x == 1
    else dir.x == -1
  }

  /** The keydown handler: buffers a direction intent in `nextDir`. */
  function KeyDown(s: State, key: string): (r: State)
    ensures r == s || (KeyIntent(key).Some? && r == s.(nextDir := KeyIntent(key).value))
    ensures !s.alive || s.countdownActive ==> r == s
    ensures IsUnit(s.dir) ==> r == s || r.nextDir != Neg(s.dir)
  {
    if !s.alive || s.countdownActive then s
    else
      match KeyIntent(key)
      case None => s
      case Some(d) => if Blocked(s.dir, d) then s else s.(nextDir := d)
  }

  // ---------------------------------------------------------------- tick

  /** The countdown has run its full length at time `now`. */
  predicate CountdownOver(s: State, now: int)
  {
    now - s.countdownStartTime >= CountdownMs
  }

  /** A tick at `now` gets past the countdown and tries to move. */
  predicate Moves(s: State, now: int)
  {
    s.alive && (!s.countdownActive || CountdownOver(s, now))
  }

  predicate Invincible(s: State, now: int)
  {
    now < s.invincibleUntil
  }

  /** The cell the head would enter with the buffered direction. */
  function NextHead(s: State): Point
    requires |s.snake| > 0
  {
    Add(s.snake[0], s.nextDir)
  }

  predicate HitsWall(s: State)
    requires |s.snake| > 0
  {
    !InGrid(NextHead(s), s.cols, s.rows)
  }

  /** The candidate head is on a pre-move segment other than the head,
      the tail that is about to move away included. */
  predicate HitsSelf(s: State)
    requires |s.snake| > 0
  {
    NextHead(s) in s.snake[1..]
  }

  /** The move at `now` ends the game. */
  predicate Collides(s: State, now: int)
    requires |s.snake| > 0
  {
    HitsWall(s) || (HitsSelf(s) && !Invincible(s, now))
  }

  /** `tick` at time `now`. `spawned` is the cell `spawnItem` returns if the
      pellet is eaten; it is ignored otherwise. */
  function Tick(s: State, now: int, spawned: Point): (r: State)
    requires Moves(s, now) ==> |s.snake| > 0
    ensures !s.alive ==> r == s
    ensures r.cols == s.cols && r.rows == s.rows && r.playSessions == s.playSessions
    ensures r.countdownStartTime == s.countdownStartTime
    ensures r.score == s.score || r.score == s.score + 1
    ensures |r.snake| == |s.snake| || |r.snake| == |s.snake| + 1
    ensures r.score == s.score + 1 <==> |r.snake| == |s.snake| + 1
    ensures r.snake == s.snake || (|r.snake| > 0 && r.snake[1..] <= s.snake)
    ensures || (r.blueberry == s.blueberry && r.invincibleUntil == s.invincibleUntil)
            || (r.alive && |r.snake| > 0 && s.blueberry == Some(r.snake[0])
                && r.blueberry == None && r.invincibleUntil == now + InvincibleMs)
    ensures Moves(s, now) && r.alive && s.blueberry == Some(NextHead(s))
            ==> r.blueberry == None && r.invincibleUntil == now + InvincibleMs
    ensures s.alive && !r.alive ==> r.snake == s.snake && r.score == s.score && r.pellet == s.pellet
  {
    if !s.alive then s
    else
      var s1 := if s.countdownActive && CountdownOver(s, now) then s.(countdownActive := false) else s;
      if s1.countdownActive then s1
      else
        var head := NextHead(s1);
        if Collides(s1, now) then s1.(dir := s1.nextDir, alive := false)
        else
          var grown := [head] + s1.snake;
          var s2 :=
            if head == s1.pellet then
              s1.(dir := s1.nextDir, snake := grown, score := s1.score + 1, pellet := spawned)
            else
              s1.(dir := s1.nextDir, snake := grown[..|grown| - 1]);
          if s2.blueberry == Some(head) then
            s2.(invincibleUntil := now + InvincibleMs, blueberry := None)
          else
            s2
  }

  // ---------------------------------------------------------------- death

  /** What one firing of the death timer does. */
  datatype DeathTick = Popped(next: State) | GameOver(finalScore: nat)

  /** One firing of the timer `die` starts: drop the tail segment, or, once
      the body is empty, stop and show the final score. */
  function DeathStep(s: State): (r: DeathTick)
    ensures r.GameOver? <==> |s.snake| == 0
    ensures r.GameOver? ==> r.finalScore == s.score
    ensures r.Popped? ==> r.next.snake + [s.snake[|s.snake| - 1]] == s.snake
    ensures r.Popped? ==> r.next == s.(snake := r.next.snake)
  {
    if |s.snake| > 0 then Popped(s.(snake := s.snake[..|s.snake| - 1]))
    else GameOver(s.score)
  }

  // ---------------------------------------------------------------- power-up

  /** One firing of the power-up timer: the single optional blueberry is
      replaced by `cell`, whatever the phase of the game. */
  function SpawnBlueberry(s: State, cell: Point): (r: State)
    ensures r.blueberry == Some(cell)
    ensures r.(blueberry := s.blueberry) == s
  {
    s.(blueberry := Some(cell))
  }

  // ---------------------------------------------------------------- read-outs

  /** The text drawn `elapsed` milliseconds into the countdown. */
  function CountdownText(elapsed: int): (t: string)
    ensures t == "" <==> elapsed >= CountdownMs
    ensures t == "GO!" <==> 3000 <= elapsed < CountdownMs
    ensures |t| == 1 <==> elapsed < 3000
  {
    if elapsed < 1000 then "3"
    else if elapsed < 2000 then "2"
    else if elapsed < 3000 then "1"
    else if elapsed < 3500 then "GO!"
    else ""
  }

  /** Whole seconds of invincibility left at `now`, rounded up. */
  function RemainingSeconds(s: State, now: int): (n: nat)
    ensures n == 0 <==> !Invincible(s, now)
    ensures n > 0 ==> (n - 1) * 1000 < s.invincibleUntil - now <= n * 1000
  {
    if s.invincibleUntil - now <= 0 then 0
    else (s.invincibleUntil - now + 999) / 1000
  }
}
