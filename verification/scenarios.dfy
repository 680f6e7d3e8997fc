/** Concrete runs of the event handler and the tick, each checking one
    situation of play against the expected outcome. */
module Scenarios {
  import opened Geometry
  import opened Field
  import opened Input
  import opened Paddles
  import opened BallPhysics
  import opened Game

  /** Starting from the initial state, any ordinary key starts a match at
      0-0 with the drawn serve, the ball waiting at the centre. */
  lemma FirstKeyStartsMatch(serve: Velocity)
    ensures HandleEvent(Initial, Press(KeyOther), serve)
            == Continue(Initial.(ball := Ball(BallSpawn, serve), status := GameOn))
  {
  }

  /** A ball moving left into the left paddle is put against the paddle's
      right edge and sent back at the same speed. */
  lemma BallBouncesOffLeftPaddle()
    ensures var s := Initial.(ball := Ball(Rect(LeftPaddleSpawn.right, 230, BallSize, BallSize), Velocity(-8, 0)),
                              status := GameOn);
            var r := Tick(s);
            r.ball == Ball(Rect(LeftPaddleSpawn.right, 230, BallSize, BallSize), Velocity(8, 0))
            && r.status == GameOn
  {
  }

  /** A paddle moving up into the top wall stops just below it. */
  lemma PaddleStopsAtTopWall()
    ensures var s := Initial.(left := Paddle(LeftPaddleSpawn.WithTop(0), MoveUp), status := GameOn);
            Tick(s).left == Paddle(LeftPaddleSpawn.WithTop(TopBoundary.bottom), Stop)
  {
  }

  /** The left player's eleventh point ends the match. */
  lemma WinningPointEndsMatch()
    ensures var s := Initial.(ball := Ball(Rect(630, 100, BallSize, BallSize), Velocity(8, 0)),
                              status := GameOn, leftScore := 10, rightScore := 4);
            var r := Tick(s);
            r.leftScore == 11 && r.rightScore == 4 && r.status == GameOver && r.ball.rect == BallCentred
  {
  }

  /** Restarting after a point keeps the score. */
  lemma RestartKeepsScore(serve: Velocity)
    ensures var s := Initial.(ball := Ball(BallCentred, Velocity(8, 0)), status := GameStop,
                              leftScore := 5, rightScore := 3);
            var r := HandleEvent(s, Press(KeyOther), serve);
            r.Continue? && r.state.status == GameOn && r.state.leftScore == 5 && r.state.rightScore == 3
  {
  }
}
