# Pong simulation core in Dafny

This project models the simulation core of a two-player Pong game written in
Python on top of pygame. The game loop, stripped of its window, drawing and
clock, is a deterministic state machine. The model writes it as pure functions
over one immutable `GameState` record:

- **Geometry** (`geometry.dfy`): pygame's integer `Rect` has a top-left anchor,
  a size and the `top`/`bottom`/`left`/`right` attributes. Its setters move the
  rectangle and keep its size. `Overlaps` is `colliderect`. Empty rectangles
  collide with nothing, and rectangles that only share an edge do not collide.
- **Field** (`field.dfy`): holds the size constants, the four boundary walls,
  the net, and the spawn rectangles of the paddles and the ball.
- **Input** (`input.dfy`): events are a quit request, key presses and key
  releases. The keys are W/S (left paddle), Up/Down (right paddle), Escape,
  and any other key.
- **Paddles** (`paddles.dfy`): each paddle has a stop/up/down state machine.
  It moves by its state each tick and is clamped at the top and bottom walls.
- **BallPhysics** (`ball.dfy`): the ball moves by an integer velocity. It
  bounces off the paddles, with the left paddle taking precedence, and off the
  top and bottom walls, with the top taking precedence.
- **Game** (`game.dfy`): holds the game state (`GameOn`, `GameStop`,
  `GameOver`) and the scores. `HandleEvent` applies one input event. `Tick`
  runs one frame of simulation, including scoring a miss on the left or right
  wall.
- **Loop** (`loop.dfy`): models the main loop, where each frame drains its
  pending events and then ticks. It also holds the loop invariant `Valid`,
  proved for every sequence of frames from the initial state.
- **Scenarios** (`scenarios.dfy`): concrete runs of the handler and the tick.

Floats in the source become integers here:

- The source builds some rectangles from float expressions. pygame truncates
  these when it stores them. The ball therefore spawns at (315, 235).
- Assigning `center` halves the size in integer arithmetic. After a point, the
  ball is put at (316, 236).
- The model keeps both positions as they are.

The serve velocity is drawn at random from a float angle in the source. Here it
is a parameter of `HandleEvent`, so every bounce property holds exactly.

The code does not re-centre the ball when play starts. The ball is re-centred
when a point ends, and it is at its spawn position before the first serve. The
model follows the code. The invariant `Loop.Valid` shows that, whenever no
point is being played, the ball rests at one of those two centre positions.

## Model

| member | source | states |
|---|---|---|
| Geometry.OverlapsIffSharedPixel | pong.py:161-173 | Two rectangles collide exactly when some integer pixel lies inside both. This is the independent reference for the edge-comparison test. |
| Geometry.TouchingDoesNotOverlap | pong.py:180-185 | Rectangles whose edges only touch do not collide. A ball snapped against a paddle edge is therefore clear of it. |
| Field.WallsEnclosePlayArea | pong.py:51-66 | A non-empty rectangle inside the window touches none of the four walls if and only if it lies in the play area they enclose. |
| Field.BetweenWallsIffClear | pong.py:51-58 | A rectangle sharing a row and a column with the window is clear of both the top and the bottom wall if and only if it lies between them. |
| Field.SpawnsInPlayArea | pong.py:49-83 | Both paddles and the ball (spawned or re-centred) start inside the play area. The paddles sit on opposite sides of the net, each at the same distance from its wall. The re-centred ball is the spawned ball moved by (1, 1). |
| Paddles.Move | pong.py:150-158 | A paddle moving up has its top decreased by exactly the paddle speed (10), one moving down has it increased by exactly that amount, and a stopped paddle is unchanged. Column, size and state are kept. |
| Paddles.Clamp | pong.py:160-173 | A paddle colliding with a wall is stopped. After a top collision its top equals the top wall's bottom; after a bottom-only collision its bottom equals the bottom wall's top. A paddle touching neither wall is unchanged. A paddle no taller than the gap and not already past a wall ends up touching neither wall. |
| Paddles.Step | pong.py:150-173 | A full-size paddle that starts between the walls is still between them after moving and clamping. |
| BallPhysics.Advance | pong.py:176-177 | The ball moves by exactly its velocity. Its size and velocity are kept. |
| BallPhysics.BounceOffPaddles | pong.py:180-185 | After a left-paddle hit, the ball's left edge equals the paddle's right edge; this wins when both paddles are hit. After a right-only hit, the ball's right edge equals the paddle's left edge. Only vx is negated, so the squared speed is kept. The ball is then clear of the paddle it hit. With no hit, the ball is unchanged. |
| BallPhysics.BounceOffWalls | pong.py:197-202 | On a top hit, the ball snaps below the top wall. On a bottom-only hit, it snaps above the bottom wall. Only vy is negated, so the squared speed is kept, and the ball is clear of the wall it hit. With no hit, the ball is unchanged. |
| Game.StartPlay | pong.py:116-127 | From stop or over, a key press moves the game to on with the serve velocity. Scores become 0-0 only when the game was over and are kept when it was stopped. In state on, nothing changes. |
| Game.PressPaddles | pong.py:129-136 | The elif chain of key-down transitions equals each paddle reacting independently to its own keys. A paddle changes state only from stop. A key of a moving paddle changes nothing. |
| Game.ReleasePaddles | pong.py:139-146 | The key-up chain equals each paddle reacting independently. A paddle changes state if and only if the released key matches its current direction, and then it becomes stopped. |
| Game.HandleEvent | pong.py:107-146 | Quit and Escape, and only those, exit. No event moves a rectangle. A press starts play, resetting scores only from over. In state on, or on any release, the game state, scores and ball are unchanged. |
| Game.ScoreMiss | pong.py:187-195 | A left-wall miss adds exactly one to the right score, and a right-wall miss adds exactly one to the left score. The game becomes over when a score equals the winning score, otherwise stop. The ball is re-centred. Without a miss, nothing changes. |
| Game.Tick | pong.py:149-202 | When the game is not on, a tick changes nothing. While it is on, each paddle takes exactly its own move-and-clamp step. Scores never decrease and rise by at most one. From on, the game stays on exactly when no score changed, and a point that ends the match leaves a winning score. Each velocity component is kept or negated, so the squared speed is kept. Sizes and paddle columns are kept. |
| Loop.Drain | pong.py:107-146 | Draining a frame's events exits if and only if one of them is quit or Escape. |
| Loop.Frame | pong.py:105-202 | One loop pass exits if and only if one of its events is quit or Escape. |
| Loop.Play | pong.py:105-225 | A run of frames exits if and only if some event in some frame is quit or Escape. |
| Loop.InitialValid | pong.py:67-90 | The program's starting state satisfies the loop invariant. |
| Loop.HandleEventPreservesValid | pong.py:116-146 | Every event keeps the loop invariant: scores stay within bounds, paddles stay between the walls, and the ball rests at the centre when play is not running. |
| Loop.TickPreservesValid | pong.py:149-202 | Every tick keeps the loop invariant. |
| Loop.DrainPreservesValid | pong.py:107-146 | Draining any sequence of events keeps the loop invariant. |
| Loop.FramePreservesValid | pong.py:105-202 | One loop pass keeps the loop invariant. |
| Loop.PlayPreservesValid | pong.py:105-225 | Any sequence of frames keeps the loop invariant. |
| Loop.PlayKeepsScoresAndPaddlesInBounds | pong.py:88-202 | From the start of the program, both scores stay at most the winning score and no paddle ever collides with the top or bottom wall. |
| Loop.TickOverIffWinningScore | pong.py:187-195 | Under the invariant, a tick from on ends the match if and only if a score equals the winning score. |
| Scenarios.FirstKeyStartsMatch | pong.py:116-127 | From the initial state, an ordinary key starts a 0-0 match with the serve velocity. The ball stays at its spawn position. |
| Scenarios.BallBouncesOffLeftPaddle | pong.py:180-185 | A ball moving left into the left paddle is put back against the paddle's right edge with velocity (8, 0). |
| Scenarios.PaddleStopsAtTopWall | pong.py:160-163 | A paddle at the top moving up ends just below the top wall, stopped. |
| Scenarios.WinningPointEndsMatch | pong.py:187-195 | At 10-4, a ball entering the right wall makes it 11-4. The game becomes over and the ball is re-centred. |
| Scenarios.RestartKeepsScore | pong.py:116-127 | Restarting from stop at 5-3 starts play and keeps the score at 5-3. |

## Left out

- pygame initialisation, the window, fonts, score text and drawing (pong.py:92-102, 204-224) are presentation only.
- Quit and Escape are modelled as an `Exit` reaction. The teardown they trigger (`pygame.quit`, `sys.exit`) is process control and is not modelled.
- The frame-rate throttle (pong.py:225) is timing only, so a frame is modelled as one pass of the loop.
- The random serve angle and its sine/cosine decomposition (pong.py:118-122) use randomness and floating point. The serve velocity is a parameter of `HandleEvent`, so the serve angle range (30 degrees) is not modelled and `BallSpeed` only sets the velocity of the initial state.
- With float velocities, pygame truncates `ball.x += vx` back to an integer (pong.py:176-177). Velocities are integers here, so that truncation does not arise.
- Rect coordinates are C integers in pygame. They stay small in this game, so 32-bit wrap-around is not modelled. Rectangles with negative sizes, which pygame normalises, are not modelled either: sizes are `nat`.
- The constants are fixed at the source's values, not configuration parameters.
