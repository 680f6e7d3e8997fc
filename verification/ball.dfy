/** The ball: a square rectangle with an integer velocity. Each tick it moves
    by its velocity and may bounce off a paddle (reversing its horizontal
    speed) or off the top or bottom wall (reversing its vertical speed). */
module BallPhysics {
  import opened Geometry
  import opened Field

  /** Pixels per tick along each axis. */
  datatype Velocity = Velocity(vx: int, vy: int) {
    /** The squared magnitude, which bounces keep. */
    function SpeedSquared(): nat {
      vx * vx + vy * vy
    }
  }

  datatype Ball = Ball(rect: Rect, velocity: Velocity)

  /** Moving the ball by its velocity. */
  function Advance(b: Ball): (r: Ball)
    ensures r.velocity == b.velocity
    ensures r.rect.w == b.rect.w && r.rect.h == b.rect.h
    ensures r.rect.left == b.rect.left + b.velocity.vx && r.rect.top == b.rect.top + b.velocity.vy
  {
    b.(rect := b.rect.Translate(b.velocity.vx, b.velocity.vy))
  }

  /** Bouncing off the paddles. A ball colliding with the left paddle is put
      against that paddle's right edge; otherwise a ball colliding with the
      right paddle is put against that paddle's left edge. Either way the
      horizontal speed is reversed and nothing else about the ball changes. */
  function BounceOffPaddles(b: Ball, leftPaddle: Rect, rightPaddle: Rect): (r: Ball)
    ensures r.rect.w == b.rect.w && r.rect.h == b.rect.h && r.rect.top == b.rect.top
    ensures r.velocity.vy == b.velocity.vy
    ensures r.velocity.SpeedSquared() == b.velocity.SpeedSquared()
    ensures Overlaps(b.rect, leftPaddle) ==>
              r.rect.left == leftPaddle.right && r.velocity.vx == -b.velocity.vx
    ensures !Overlaps(b.rect, leftPaddle) && Overlaps(b.rect, rightPaddle) ==>
              r.rect.right == rightPaddle.left && r.velocity.vx == -b.velocity.vx
    ensures !Overlaps(b.rect, leftPaddle) && !Overlaps(b.rect, rightPaddle) ==> r == b
    // The paddle that was hit no longer collides with the ball.
    ensures Overlaps(b.rect, leftPaddle) ==> !Overlaps(r.rect, leftPaddle)
    ensures !Overlaps(b.rect, leftPaddle) && Overlaps(b.rect, rightPaddle) ==> !Overlaps(r.rect, rightPaddle)
  {
    if Overlaps(b.rect, leftPaddle) || Overlaps(b.rect, rightPaddle) then
      var rect := if Overlaps(b.rect, leftPaddle) then b.rect.WithLeft(leftPaddle.right)
                  else b.rect.WithRight(rightPaddle.left);
      Ball(rect, b.velocity.(vx := -b.velocity.vx))
    else
      b
  }

  /** Bouncing off the top and bottom walls. A ball colliding with the top
      wall is put just below it; otherwise a ball colliding with the bottom
      wall is put just above it. Either way the vertical speed is reversed
      and nothing else about the ball changes. */
  function BounceOffWalls(b: Ball): (r: Ball)
    ensures r.rect.w == b.rect.w && r.rect.h == b.rect.h && r.rect.left == b.rect.left
    ensures r.velocity.vx == b.velocity.vx
    ensures r.velocity.SpeedSquared() == b.velocity.SpeedSquared()
    ensures Overlaps(b.rect, TopBoundary) ==>
              r.rect.top == TopBoundary.bottom && r.velocity.vy == -b.velocity.vy
    ensures !Overlaps(b.rect, TopBoundary) && Overlaps(b.rect, BottomBoundary) ==>
              r.rect.bottom == BottomBoundary.top && r.velocity.vy == -b.velocity.vy
    ensures !Overlaps(b.rect, TopBoundary) && !Overlaps(b.rect, BottomBoundary) ==> r == b
    // The wall that was hit no longer collides with the ball.
    ensures Overlaps(b.rect, TopBoundary) ==> !Overlaps(r.rect, TopBoundary)
    ensures !Overlaps(b.rect, TopBoundary) && Overlaps(b.rect, BottomBoundary) ==> !Overlaps(r.rect, BottomBoundary)
  {
    if Overlaps(b.rect, TopBoundary) || Overlaps(b.rect, BottomBoundary) then
      var rect := if Overlaps(b.rect, TopBoundary) then b.rect.WithTop(TopBoundary.bottom)
                  else b.rect.WithBottom(BottomBoundary.top);
      Ball(rect, b.velocity.(vy := -b.velocity.vy))
    else
      b
  }
}
