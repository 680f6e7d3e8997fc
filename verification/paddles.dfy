/** The paddles: each has a rectangle and a three-state motion machine. Keys
    start and stop the motion; each tick moves a paddle by its state and then
    stops it against the top or bottom wall. */
module Paddles {
  import opened Geometry
  import opened Field
  import opened Input

  datatype PaddleState = Stop | MoveUp | MoveDown

  datatype Paddle = Paddle(rect: Rect, state: PaddleState)

  /** One paddle's reaction to a key press, with `up` and `down` its own two
      keys: only a stopped paddle starts moving, in the direction of the key. */
  function OnPress(st: PaddleState, k: Key, up: Key, down: Key): PaddleState {
    if st == Stop && k == up then MoveUp
    else if st == Stop && k == down then MoveDown
    else st
  }

  /** One paddle's reaction to a key release: a moving paddle stops when the
      key of its own direction is released. */
  function OnRelease(st: PaddleState, k: Key, up: Key, down: Key): PaddleState {
    if st == MoveUp && k == up then Stop
    else if st == MoveDown && k == down then Stop
    else st
  }

  /** The per-tick motion: up decreases y by the paddle speed, down increases
      it, a stopped paddle stays where it is. */
  function Move(p: Paddle): (r: Paddle)
    ensures r.state == p.state
    ensures r.rect.w == p.rect.w && r.rect.h == p.rect.h && r.rect.left == p.rect.left
    ensures p.state == Stop ==> r == p
    ensures p.state == MoveUp ==> r.rect.top == p.rect.top - PaddleSpeed
    ensures p.state == MoveDown ==> r.rect.top == p.rect.top + PaddleSpeed
  {
    match p.state
    case MoveUp => p.(rect := p.rect.Translate(0, -PaddleSpeed))
    case MoveDown => p.(rect := p.rect.Translate(0, PaddleSpeed))
    case Stop => p
  }

  /** Stopping at the walls: a paddle that collides with the top wall is put
      just below it, one that then collides with the bottom wall is put just
      above that, and either collision forces the paddle to stop. */
  function Clamp(p: Paddle): (r: Paddle)
    ensures r.rect.w == p.rect.w && r.rect.h == p.rect.h && r.rect.left == p.rect.left
    ensures Overlaps(p.rect, TopBoundary) || Overlaps(p.rect, BottomBoundary) ==> r.state == Stop
    ensures !Overlaps(p.rect, TopBoundary) && !Overlaps(p.rect, BottomBoundary) ==> r == p
    ensures Overlaps(p.rect, TopBoundary) && p.rect.h <= BottomBoundary.top - TopBoundary.bottom
            ==> r.rect.top == TopBoundary.bottom
    ensures !Overlaps(p.rect, TopBoundary) && Overlaps(p.rect, BottomBoundary)
            ==> r.rect.bottom == BottomBoundary.top
    // A paddle no taller than the gap between the walls that has not moved
    // clean past a wall ends up colliding with neither.
    ensures p.rect.h <= BottomBoundary.top - TopBoundary.bottom
            && TopBoundary.top < p.rect.bottom && p.rect.top < BottomBoundary.bottom
            ==> !Overlaps(r.rect, TopBoundary) && !Overlaps(r.rect, BottomBoundary)
  {
    var afterTop :=
      if Overlaps(p.rect, TopBoundary) then Paddle(p.rect.WithTop(TopBoundary.bottom), Stop) else p;
    if Overlaps(afterTop.rect, BottomBoundary) then Paddle(afterTop.rect.WithBottom(BottomBoundary.top), Stop)
    else afterTop
  }

  /** A paddle's whole share of a tick. A full-size paddle standing between
      the walls is still between them afterwards: it cannot move far enough
      in one tick to pass a wall, so the clamp always catches it. */
  function Step(p: Paddle): (r: Paddle)
    ensures r.rect.w == p.rect.w && r.rect.h == p.rect.h && r.rect.left == p.rect.left
    ensures p.rect.w > 0 && p.rect.h == PaddleHeight && InWindow(p.rect) && BetweenWalls(p.rect)
            ==> BetweenWalls(r.rect)
  {
    Clamp(Move(p))
  }
}
