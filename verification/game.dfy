/** The game proper: one record holding everything that changes, the handler
    that applies a single input event to it, and the tick that advances the
    simulation by one frame while a point is being played. */
module Game {
  import opened Geometry
  import opened Field
  import opened Input
  import opened Paddles
  import opened BallPhysics

  /** `GameOn` while a point is played, `GameStop` between points,
      `GameOver` once a player has reached the winning score. */
  datatype GameStatus = GameOn | GameStop | GameOver

  datatype GameState = GameState(
    left: Paddle,
    right: Paddle,
    ball: Ball,
    status: GameStatus,
    leftScore: nat,
    rightScore: nat)

  /** The outcome of an event: the game goes on in a new state, or the
      player has asked to leave. */
  datatype Reaction = Continue(state: GameState) | Exit

  /** The state the program starts in: no match running, 0-0, paddles and
      ball at their spawn positions, the ball about to move right. */
  const Initial := GameState(
    Paddle(LeftPaddleSpawn, Stop),
    Paddle(RightPaddleSpawn, Stop),
    Ball(BallSpawn, Velocity(BallSpeed, 0)),
    GameOver, 0, 0)

  /** Any key press starts play when no point is being played, with the serve
      velocity drawn for it; scores are reset only when a match was over. */
  function StartPlay(s: GameState, serve: Velocity): (r: GameState)
    ensures r.left == s.left && r.right == s.right && r.ball.rect == s.ball.rect
    ensures r.status == GameOn
    ensures s.status == GameOn ==> r == s
    ensures s.status != GameOn ==> r.ball.velocity == serve
    ensures s.status == GameOver ==> r.leftScore == 0 && r.rightScore == 0
    ensures s.status != GameOver ==> r.leftScore == s.leftScore && r.rightScore == s.rightScore
  {
    match s.status
    case GameOn => s
    case GameOver => s.(ball := s.ball.(velocity := serve), status := GameOn, leftScore := 0, rightScore := 0)
    case GameStop => s.(ball := s.ball.(velocity := serve), status := GameOn)
  }

  /** The paddle transitions of a key press, a chain that acts on the first
      matching (key, stopped paddle) pair. Because every key belongs to one
      paddle, the chain is the two paddles reacting independently. */
  function PressPaddles(s: GameState, k: Key): (r: GameState)
    ensures r == s.(left := s.left.(state := OnPress(s.left.state, k, KeyW, KeyS)),
                    right := s.right.(state := OnPress(s.right.state, k, KeyUp, KeyDown)))
    // A paddle changes state only from Stop, and only for one of its keys.
    ensures r.left.state != s.left.state ==> s.left.state == Stop && (k == KeyW || k == KeyS)
    ensures r.right.state != s.right.state ==> s.right.state == Stop && (k == KeyUp || k == KeyDown)
    // A key of a moving paddle leaves both paddles as they are.
    ensures (k == KeyW || k == KeyS) && s.left.state != Stop ==> r == s
    ensures (k == KeyUp || k == KeyDown) && s.right.state != Stop ==> r == s
  {
    if k == KeyW && s.left.state == Stop then s.(left := s.left.(state := MoveUp))
    else if k == KeyS && s.left.state == Stop then s.(left := s.left.(state := MoveDown))
    else if k == KeyUp && s.right.state == Stop then s.(right := s.right.(state := MoveUp))
    else if k == KeyDown && s.right.state == Stop then s.(right := s.right.(state := MoveDown))
    else s
  }

  /** The paddle transitions of a key release, again a chain equal to the two
      paddles reacting independently. */
  function ReleasePaddles(s: GameState, k: Key): (r: GameState)
    ensures r == s.(left := s.left.(state := OnRelease(s.left.state, k, KeyW, KeyS)),
                    right := s.right.(state := OnRelease(s.right.state, k, KeyUp, KeyDown)))
    // A paddle only ever stops, and only on the key of its own direction.
    ensures r.left.state != s.left.state <==>
              (s.left.state == MoveUp && k == KeyW) || (s.left.state == MoveDown && k == KeyS)
    ensures r.right.state != s.right.state <==>
              (s.right.state == MoveUp && k == KeyUp) || (s.right.state == MoveDown && k == KeyDown)
    ensures r.left.state != s.left.state ==> r.left.state == Stop
    ensures r.right.state != s.right.state ==> r.right.state == Stop
  {
    if k == KeyW && s.left.state == MoveUp then s.(left := s.left.(state := Stop))
    else if k == KeyS && s.left.state == MoveDown then s.(left := s.left.(state := Stop))
    else if k == KeyUp && s.right.state == MoveUp then s.(right := s.right.(state := Stop))
    else if k == KeyDown && s.right.state == MoveDown then s.(right := s.right.(state := Stop))
    else s
  }

  /** The events that end the program: a quit request or pressing Escape. */
  predicate Leaves(e: Event) {
    e.Quit? || e == Press(KeyEscape)
  }

  /** Applying one input event. Quitting or pressing Escape leaves the game.
      Any other key press first starts play if no point is running (with
      `serve` as the new ball velocity) and then updates the paddle states; a
      key release only updates the paddle states. No event moves anything. */
  function HandleEvent(s: GameState, e: Event, serve: Velocity): (r: Reaction)
    ensures r.Exit? <==> Leaves(e)
    ensures r.Continue? ==>
              && r.state.left.rect == s.left.rect && r.state.right.rect == s.right.rect
              && r.state.ball.rect == s.ball.rect
    ensures e.Press? && r.Continue? ==> r.state.status == GameOn
    ensures e.Press? && r.Continue? && s.status != GameOn ==> r.state.ball.velocity == serve
    ensures e.Press? && r.Continue? && s.status == GameOver ==>
              r.state.leftScore == 0 && r.state.rightScore == 0
    ensures r.Continue? && (s.status != GameOver || e.Release?) ==>
              r.state.leftScore == s.leftScore && r.state.rightScore == s.rightScore
    ensures r.Continue? && (s.status == GameOn || e.Release?) ==>
              r.state.status == s.status && r.state.ball == s.ball
  {
    match e
    case Quit => Exit
    case Press(k) => if k == KeyEscape then Exit else Continue(PressPaddles(StartPlay(s, serve), k))
    case Release(k) => Continue(ReleasePaddles(s, k))
  }

  /** A miss: a ball colliding with the left wall scores for the right
      player and one colliding with the right wall scores for the left
      player. The point then ends, the match too if a player has reached the
      winning score, and the ball is put back at the centre of the field. */
  function ScoreMiss(s: GameState): (r: GameState)
    ensures r.left == s.left && r.right == s.right && r.ball.velocity == s.ball.velocity
    ensures r.rightScore == s.rightScore + (if Overlaps(s.ball.rect, LeftBoundary) then 1 else 0)
    ensures r.leftScore == s.leftScore + (if Overlaps(s.ball.rect, RightBoundary) then 1 else 0)
    ensures Overlaps(s.ball.rect, LeftBoundary) || Overlaps(s.ball.rect, RightBoundary) ==>
              && r.status == (if r.leftScore == MaxScore || r.rightScore == MaxScore then GameOver else GameStop)
              && r.ball.rect == s.ball.rect.WithCenter(WindowWidth / 2, WindowHeight / 2)
    ensures !Overlaps(s.ball.rect, LeftBoundary) && !Overlaps(s.ball.rect, RightBoundary) ==> r == s
  {
    if Overlaps(s.ball.rect, LeftBoundary) || Overlaps(s.ball.rect, RightBoundary) then
      var rightScore := if Overlaps(s.ball.rect, LeftBoundary) then s.rightScore + 1 else s.rightScore;
      var leftScore := if Overlaps(s.ball.rect, RightBoundary) then s.leftScore + 1 else s.leftScore;
      var status := if leftScore == MaxScore || rightScore == MaxScore then GameOver else GameStop;
      var centred := s.ball.rect.WithCenter(WindowWidth / 2, WindowHeight / 2);
      s.(ball := s.ball.(rect := centred), status := status,
         leftScore := leftScore, rightScore := rightScore)
    else
      s
  }

  /** One frame of simulation, which only runs while a point is played: the
      paddles move and stop at the walls, the ball moves, bounces off a
      paddle, may be missed, and bounces off the top or bottom wall. */
  function Tick(s: GameState): (r: GameState)
    ensures s.status != GameOn ==> r == s
    // While play runs, each paddle takes exactly its own move-and-clamp step.
    ensures s.status == GameOn ==> r.left == Step(s.left) && r.right == Step(s.right)
    // Scores never go down and rise by at most one a tick.
    ensures s.leftScore <= r.leftScore <= s.leftScore + 1
    ensures s.rightScore <= r.rightScore <= s.rightScore + 1
    // A point ends exactly when somebody scores.
    ensures s.status == GameOn ==>
              (r.status == GameOn <==> r.leftScore == s.leftScore && r.rightScore == s.rightScore)
    // A point that ends with a player at the winning score ends the match.
    ensures s.status == GameOn && r.status != GameOn ==>
              (r.status == GameOver <==> r.leftScore == MaxScore || r.rightScore == MaxScore)
    // Bounces only ever reverse velocity components.
    ensures r.ball.velocity.SpeedSquared() == s.ball.velocity.SpeedSquared()
    ensures r.ball.velocity.vx == s.ball.velocity.vx || r.ball.velocity.vx == -s.ball.velocity.vx
    ensures r.ball.velocity.vy == s.ball.velocity.vy || r.ball.velocity.vy == -s.ball.velocity.vy
    // Shapes and horizontal paddle positions never change.
    ensures r.left.rect.w == s.left.rect.w && r.left.rect.h == s.left.rect.h && r.left.rect.left == s.left.rect.left
    ensures r.right.rect.w == s.right.rect.w && r.right.rect.h == s.right.rect.h && r.right.rect.left == s.right.rect.left
    ensures r.ball.rect.w == s.ball.rect.w && r.ball.rect.h == s.ball.rect.h
  {
    if s.status == GameOn then
      var left := Step(s.left);
      var right := Step(s.right);
      var ball := BounceOffPaddles(Advance(s.ball), left.rect, right.rect);
      var scored := ScoreMiss(s.(left := left, right := right, ball := ball));
      scored.(ball := BounceOffWalls(scored.ball))
    else
      s
  }
}
