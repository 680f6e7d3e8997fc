/** The fixed playing field: the game's size constants, the four boundary
    walls, the decorative net and the spawn rectangles of the paddles and the
    ball, all derived from the window size and the thickness constants. */
module Field {
  import opened Geometry

  const WindowWidth: nat := 640
  const WindowHeight: nat := 480
  const BoundaryThickness: nat := 5
  const NetWidth: nat := 10
  const PaddleWidth: nat := 10
  const PaddleHeight: nat := 60
  const PaddleOffset: nat := 10
  /** Pixels a moving paddle travels per tick. */
  const PaddleSpeed: int := 10
  /** Magnitude of a serve's velocity, in pixels per tick. */
  const BallSpeed: int := 8
  const BallSize: nat := 9
  /** The score that ends a match. */
  const MaxScore: nat := 11

  /** The coordinates below are computed with real division and then stored
      in an integer rectangle, which truncates them; every such quantity is
      non-negative, so truncation is the floor computed here. */
  const Net := Rect((WindowWidth - NetWidth) / 2, 0, NetWidth, WindowHeight)
  const TopBoundary := Rect(0, 0, WindowWidth, BoundaryThickness)
  const BottomBoundary := Rect(0, WindowHeight - BoundaryThickness, WindowWidth, BoundaryThickness)
  const LeftBoundary := Rect(0, 0, BoundaryThickness, WindowHeight)
  const RightBoundary := Rect(WindowWidth - BoundaryThickness, 0, BoundaryThickness, WindowHeight)

  const LeftPaddleSpawn := Rect(BoundaryThickness + PaddleOffset,
                                (WindowHeight - PaddleHeight) / 2,
                                PaddleWidth, PaddleHeight)
  const RightPaddleSpawn := Rect(WindowWidth - BoundaryThickness - PaddleOffset - PaddleWidth,
                                 (WindowHeight - PaddleHeight) / 2,
                                 PaddleWidth, PaddleHeight)
  /** The ball before the first serve: 315.5 and 235.5 truncated. */
  const BallSpawn := Rect((WindowWidth - BallSize) / 2, (WindowHeight - BallSize) / 2,
                          BallSize, BallSize)
  /** The ball after a point has been scored: centred with integer halving,
      one pixel right of and below the spawn position. */
  const BallCentred := BallSpawn.WithCenter(WindowWidth / 2, WindowHeight / 2)

  /** True if r lies inside the window. */
  predicate InWindow(r: Rect) {
    0 <= r.left && r.right <= WindowWidth && 0 <= r.top && r.bottom <= WindowHeight
  }

  /** True if r lies in the area the four walls enclose. */
  predicate InPlayArea(r: Rect) {
    && LeftBoundary.right <= r.left && r.right <= RightBoundary.left
    && TopBoundary.bottom <= r.top && r.bottom <= BottomBoundary.top
  }

  /** True if r lies vertically between the top and bottom walls. */
  predicate BetweenWalls(r: Rect) {
    TopBoundary.bottom <= r.top && r.bottom <= BottomBoundary.top
  }

  /** The walls enclose the play area: a non-empty rectangle inside the
      window touches no wall exactly when it lies in the play area. */
  lemma WallsEnclosePlayArea(r: Rect)
    requires r.w > 0 && r.h > 0 && InWindow(r)
    ensures InPlayArea(r) <==>
              && !Overlaps(r, TopBoundary) && !Overlaps(r, BottomBoundary)
              && !Overlaps(r, LeftBoundary) && !Overlaps(r, RightBoundary)
  {
  }

  /** A non-empty rectangle that shares a column and a row with the window
      collides with neither the top nor the bottom wall exactly when it lies
      between them. */
  lemma BetweenWallsIffClear(r: Rect)
    requires r.w > 0 && r.h > 0 && 0 < r.right && r.left < WindowWidth
    requires 0 < r.bottom && r.top < WindowHeight
    ensures BetweenWalls(r) <==> !Overlaps(r, TopBoundary) && !Overlaps(r, BottomBoundary)
  {
  }

  /** Both paddles and the ball start inside the play area, each paddle on
      its own side of the net, and the ball keeps its size when centred. */
  lemma SpawnsInPlayArea()
    ensures InPlayArea(LeftPaddleSpawn) && InPlayArea(RightPaddleSpawn)
    ensures InPlayArea(BallSpawn) && InPlayArea(BallCentred)
    ensures LeftPaddleSpawn.right <= Net.left && Net.right <= RightPaddleSpawn.left
    ensures LeftPaddleSpawn.left - LeftBoundary.right == RightBoundary.left - RightPaddleSpawn.right
    ensures BallCentred == BallSpawn.Translate(1, 1)
  {
  }
}
