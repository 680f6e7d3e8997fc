/** The main loop: every frame drains the pending input events in order and
    then runs one tick. This module states the invariant the loop keeps and
    proves it for every sequence of frames. */
module Loop {
  import opened Geometry
  import opened Field
  import opened Input
  import opened Paddles
  import opened BallPhysics
  import opened Game

  /** A pending event together with the serve velocity that would be drawn
      if the event starts play. */
  datatype Pending = Pending(event: Event, serve: Velocity)

  /** Scores never pass the winning score, and only a finished match holds a
      winning score. */
  predicate ScoresValid(s: GameState) {
    && s.leftScore <= MaxScore && s.rightScore <= MaxScore
    && (s.status != GameOver ==> s.leftScore < MaxScore && s.rightScore < MaxScore)
  }

  /** A paddle keeps its spawn column and size and stays between the walls. */
  predicate PaddleSound(p: Paddle, spawn: Rect) {
    && p.rect.left == spawn.left && p.rect.w == spawn.w && p.rect.h == spawn.h
    && BetweenWalls(p.rect)
  }

  /** The ball keeps its size and, whenever no point is being played, rests
      at the centre of the field. */
  predicate BallSound(s: GameState) {
    && s.ball.rect.w == BallSize && s.ball.rect.h == BallSize
    && (s.status != GameOn ==> s.ball.rect == BallSpawn || s.ball.rect == BallCentred)
  }

  /** The invariant of the main loop. */
  predicate Valid(s: GameState) {
    && ScoresValid(s)
    && PaddleSound(s.left, LeftPaddleSpawn)
    && PaddleSound(s.right, RightPaddleSpawn)
    && BallSound(s)
  }

  /** The program starts in a state satisfying the invariant. */
  lemma InitialValid()
    ensures Valid(Initial)
  {
  }

  /** Events keep the invariant: they start play only from a state whose
      scores are below the winning score (or reset them), and move nothing. */
  lemma HandleEventPreservesValid(s: GameState, e: Event, serve: Velocity)
    requires Valid(s)
    ensures HandleEvent(s, e, serve).Continue? ==> Valid(HandleEvent(s, e, serve).state)
  {
  }

  /** A tick keeps the invariant: paddles cannot pass the walls, a score
      rises only by one and only from below the winning score, and a point
      ends with the ball put back at the centre. */
  lemma TickPreservesValid(s: GameState)
    requires Valid(s)
    ensures Valid(Tick(s))
  {
  }

  /** Applying the pending events of one frame in order; leaving the game
      discards the rest. */
  function Drain(s: GameState, events: seq<Pending>): (r: Reaction)
    ensures r.Exit? <==> exists i :: 0 <= i < |events| && Leaves(events[i].event)
    decreases |events|
  {
    if |events| == 0 then Continue(s)
    else
      match HandleEvent(s, events[0].event, events[0].serve)
      case Exit => Exit
      case Continue(t) => Drain(t, events[1..])
  }

  /** One pass of the main loop: the frame's events, then one tick. */
  function Frame(s: GameState, events: seq<Pending>): (r: Reaction)
    ensures r.Exit? <==> exists i :: 0 <= i < |events| && Leaves(events[i].event)
  {
    match Drain(s, events)
    case Exit => Exit
    case Continue(t) => Continue(Tick(t))
  }

  /** Running the loop over a sequence of frames until the player leaves. */
  function Play(s: GameState, frames: seq<seq<Pending>>): (r: Reaction)
    ensures r.Exit? <==> exists i, j :: 0 <= i < |frames| && 0 <= j < |frames[i]| && Leaves(frames[i][j].event)
    decreases |frames|
  {
    if |frames| == 0 then Continue(s)
    else
      match Frame(s, frames[0])
      case Exit => Exit
      case Continue(t) => Play(t, frames[1..])
  }

  /** Draining any sequence of events keeps the invariant. */
  lemma {:induction false} DrainPreservesValid(s: GameState, events: seq<Pending>)
    requires Valid(s)
    ensures Drain(s, events).Continue? ==> Valid(Drain(s, events).state)
    decreases |events|
  {
    if |events| > 0 {
      HandleEventPreservesValid(s, events[0].event, events[0].serve);
      match HandleEvent(s, events[0].event, events[0].serve)
      case Exit =>
      case Continue(t) => DrainPreservesValid(t, events[1..]);
    }
  }

  /** A whole pass of the loop keeps the invariant. */
  lemma FramePreservesValid(s: GameState, events: seq<Pending>)
    requires Valid(s)
    ensures Frame(s, events).Continue? ==> Valid(Frame(s, events).state)
  {
    DrainPreservesValid(s, events);
    match Drain(s, events)
    case Exit =>
    case Continue(t) => TickPreservesValid(t);
  }

  /** The invariant holds after every sequence of frames. */
  lemma {:induction false} PlayPreservesValid(s: GameState, frames: seq<seq<Pending>>)
    requires Valid(s)
    ensures Play(s, frames).Continue? ==> Valid(Play(s, frames).state)
    decreases |frames|
  {
    if |frames| > 0 {
      FramePreservesValid(s, frames[0]);
      match Frame(s, frames[0])
      case Exit =>
      case Continue(t) => PlayPreservesValid(t, frames[1..]);
    }
  }

  /** From the start of the program, whatever the frames, no score ever
      exceeds the winning score and no paddle ever collides with the top or
      bottom wall. */
  lemma PlayKeepsScoresAndPaddlesInBounds(frames: seq<seq<Pending>>)
    ensures Play(Initial, frames).Continue? ==>
              var s := Play(Initial, frames).state;
              && s.leftScore <= MaxScore && s.rightScore <= MaxScore
              && !Overlaps(s.left.rect, TopBoundary) && !Overlaps(s.left.rect, BottomBoundary)
              && !Overlaps(s.right.rect, TopBoundary) && !Overlaps(s.right.rect, BottomBoundary)
  {
    InitialValid();
    PlayPreservesValid(Initial, frames);
  }

  /** With the invariant in place, a tick that ends a point ends the match
      exactly when a player has reached the winning score. */
  lemma TickOverIffWinningScore(s: GameState)
    requires Valid(s) && s.status == GameOn
    ensures Tick(s).status == GameOver <==> Tick(s).leftScore == MaxScore || Tick(s).rightScore == MaxScore
  {
  }
}
