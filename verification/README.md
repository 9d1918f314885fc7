# Hit the Block — a Dafny model of the frame step

Hit the Block is a browser brick-breaker written as one script, `script.js`.
A ball bounces around an 800×600 canvas. A paddle at the bottom is moved with
the arrow keys. Above it is a field of 8 columns × 5 rows of bricks. Every
animation frame, `draw()` does the following in a fixed order:

1. `collisionDetection` destroys an active brick whose rectangle strictly
   contains the ball centre. It negates the vertical velocity and scores a
   point. At 40 points the game is won.
2. The ball reflects off the side walls and the top wall.
3. At the bottom edge the paddle either catches the ball, or a life is lost.
   Losing a life resets ball and paddle; losing the last one ends the game.
4. The paddle moves 7 units according to the held keys.
5. The ball moves by its velocity.

Two key handlers set and clear the flags for the held keys.

The model is a pure state machine over an immutable `State`. It holds the
ball position and velocity, the paddle position, the brick field as
`bricks[c][r]`, the score, the lives, the two key flags and a phase. The two
`alert` + `document.location.reload()` exits are the terminal phases `Won`
and `GameOver`. Every quantity in the script is a small integer (speed ±2,
paddle step 7, integral brick geometry), so `int` models the JavaScript
numbers exactly.

Modules, one per concern:

- `Geometry` (geometry.dfy): the constants, brick rectangles from grid
  indices, the containment test, and a reference `CellAt` that finds the
  brick under a point by division.
- `Bricks` (bricks.dfy): the field, destroying a brick, and counting
  destroyed bricks.
- `Collision` (collision.dfy): the nested column-major scan of
  `collisionDetection`, proved equal to the single-cell reference.
- `Game` (game.dfy): the state, the invariant, and each phase of `draw()`
  and `Step`.
- `Keyboard` (keyboard.dfy): `keyDownHandler` and `keyUpHandler`.
- `Session` (session.dfy): a run of frames and key events from page load.

`script.js` has no power-ups, particles, levels, speed scaling, pause,
pointer control or high score, and neither does the model.

## Model

| member | source | states |
|---|---|---|
| Geometry.BrickX | script.js:56 | A brick's left edge is column × (75 + 10) + 30, and every column of the field lies inside the canvas width |
| Geometry.BrickY | script.js:57 | A brick's top edge is row × (20 + 10) + 30, and every row of the field lies inside the canvas, well above the bottom edge where the ball is caught or lost |
| Geometry.Contains | script.js:75 | The collision test: the ball centre lies strictly inside brick (c, r), with all four comparisons strict |
| Geometry.ContainsIffCellAt | script.js:75 | For every brick of the field, the strict point-in-rectangle test holds exactly when the division-based reference names that brick |
| Geometry.AtMostOneBrickContains | script.js:56-57 | The 85-unit column pitch, the 30-unit row pitch and the 10-unit padding keep the bricks apart: no point lies strictly inside two bricks |
| Geometry.NoBrickBelowField | script.js:57 | No brick reaches below y = 170, so a ball centre there touches no brick |
| Bricks.InitialGrid | script.js:28-34 | The field at load has 8 columns of 5 bricks, all active, with none destroyed |
| Bricks.SetDestroyed | script.js:77 | Destroying brick (c, r) marks it destroyed and leaves every other brick as it was |
| Bricks.CountColumnSet | script.js:77-78 | Destroying an active brick adds exactly one to its column's count |
| Bricks.DestroyedCountSet | script.js:77-78 | Destroying an active brick adds exactly one to the field's count, matching the one `score++` |
| Bricks.DestroyedCountFull | script.js:80 | A field's count reaches 5 per column exactly when every brick is destroyed |
| Bricks.ClearedIffFullCount | script.js:80 | The count never exceeds 40, and it is 40 exactly when the whole field is cleared |
| Collision.Visit | script.js:74-83 | The inner-loop body for one brick: if it is active and contains the ball, negate dy, destroy it, add a point and raise the win flag at 40. It keeps the field 8×5 |
| Collision.VisitDestroysOnlyContainingBrick | script.js:74-83 | One visit changes the field exactly when the brick is active and contains the ball centre. It never reactivates a brick, adds one point per destroyed brick and at most one, and negates dy exactly when the brick goes |
| Collision.ScanRows | script.js:72-86 | The inner loop: rows r, r+1, …, 4 of one column in ascending order, keeping the field 8×5 |
| Collision.ScanColumns | script.js:71-87 | The outer loop: columns c, c+1, …, 7 in ascending order, each scanned by rows. This is the column-major, row-ascending tie-break of the source |
| Collision.ScanRowsVisitsOnlyCellAt | script.js:72-86 | The inner loop over the remaining rows has an effect only at the brick under the ball, and only if that brick lies in those rows |
| Collision.ScanColumnsVisitsOnlyCellAt | script.js:71-87 | The outer loop over the remaining columns has an effect only at the brick under the ball, and only if that brick lies in those columns |
| Collision.VisitCellAtIsReference | script.js:74-83 | Visiting the brick the division-based lookup names has the same effect as the reference |
| Collision.ScanMatchesReference | script.js:70-88 | The full column-major scan gives the same result as looking up the one brick under the ball and destroying it if it is active |
| Collision.ReferenceHitsAtMostOne | script.js:74-83 | The lookup destroys at most one brick and reactivates none. It negates the velocity exactly when a brick is destroyed, and the score rises by the number of bricks destroyed. The win flag is raised exactly when a hit makes the score 40 |
| Collision.CollisionDetection | script.js:70-88 | collisionDetection equals the reference. So one call destroys at most one brick, never reactivates one, negates ballDY once exactly when a brick goes, keeps score and destroyed count in step, and wins exactly when the score reaches 40 |
| Collision.OnlyContainingBrickChanges | script.js:74-77 | A brick changes in a frame exactly when it was active and strictly contains the ball centre |
| Game.Init | script.js:7-34 | The page-load state satisfies the invariant: playing, score 0, 3 lives, every brick active |
| Game.ReflectX | script.js:105-107 | The horizontal velocity flips exactly when the next position would leave [10, 790], and is otherwise unchanged. A ball in [10, 790] at speed 2 stays there after the move |
| Game.LoseLife | script.js:114-125 | A lost life takes exactly one life. At zero lives the game is over with the ball where it was; otherwise ball, velocity and paddle are back at their page-load values and nothing else changes |
| Game.VerticalEdge | script.js:108-127 | A life is lost exactly on an uncaught crossing of the bottom edge. Otherwise only ballDY may change. It is negated exactly when the ball would leave [10, 590], whether at the top wall or on the paddle, and a ball in range at speed 2 stays in range |
| Game.PaddleCatches | script.js:111 | The paddle catches the ball when the ball centre is strictly between the paddle's two ends |
| Game.MovePaddle | script.js:129-133 | The paddle moves right exactly when right is held and x < 700, and left exactly when it does not move right, left is held and x > 0. It stays on multiples of 7 inside [0, 700] |
| Game.Move | script.js:105-136 | After the scan, the frame leaves bricks, score and keys alone and costs a life exactly on a miss. Without a miss: dx is the wall-reflected velocity, dy is negated exactly when the ball would leave [10, 590], the paddle moves by the key rule, and the ball then moves by exactly the new velocity. On a miss with lives to spare, the ball ends at the restart point moved once, (402, 568), and the paddle at 350 moved once |
| Game.Step | script.js:98-137 | A frame never reactivates a brick and destroys at most one. The score rises by exactly the bricks destroyed, at most one life is lost, and the key flags are untouched. A terminal state does not change |
| Game.FrameMovesBallByItsVelocity | script.js:105-136 | In a frame that neither wins nor costs a life, the ball moves by exactly its new velocity. dx is reflected at the side walls. dy is the velocity the collision scan left, negated again only if the ball would leave [10, 590]. The paddle has moved by the key rule |
| Game.MovePreservesInv | script.js:105-136 | Walls, bottom edge, paddle and integration keep ball and paddle inside the field and the phase in step with the lives |
| Game.StepPreservesInv | script.js:98-137 | Every frame keeps the invariant: score equals destroyed bricks, Won exactly at 40 points, GameOver exactly at 0 lives, ball in [10, 790]×[10, 590] at speed 2, paddle in [0, 700] on multiples of 7 |
| Game.LifeLossFrame | script.js:114-136 | An uncaught ball with lives to spare costs one life. It ends the frame at (402, 568) moving (2, −2), with the paddle at 350 moved once by the held keys, and the bricks and score unchanged |
| Game.LastLifeEndsGame | script.js:114-118 | An uncaught ball on the last life ends the game with 0 lives |
| Game.ClearingFieldWins | script.js:78-83 | After a frame, the game is won exactly when every brick is destroyed |
| Game.FrameFromStart | script.js:135-136 | From the start position with no key held, a frame hits no brick and moves the ball from (400, 570) to (402, 568) |
| Keyboard.KeyDown | script.js:147-153 | A key press sets rightPressed for 'Right'/'ArrowRight' and leftPressed for 'Left'/'ArrowLeft'. Nothing else changes, and other keys change nothing |
| Keyboard.KeyUp | script.js:155-161 | A key release clears the matching flag. Nothing else changes, and other keys change nothing |
| Keyboard.KeyUpUndoesKeyDown | script.js:147-161 | Releasing a key that was pressed from the released position restores the state exactly |
| Keyboard.KeysPreserveInv | script.js:147-161 | Key events keep the invariant |
| Session.Apply | script.js:138-145 | One event never reactivates a brick and keeps score and destroyed count in step. After Won or GameOver, events change nothing |
| Session.Run | script.js:138-145 | Over any sequence of events, bricks are never reactivated and score and destroyed count stay in step. A terminal state stays as it is |
| Session.ApplyPreservesInv | script.js:98-161 | Every event, frame or key, keeps the invariant |
| Session.RunPreservesInv | script.js:98-161 | Every sequence of events keeps the invariant |
| Session.SessionBounds | script.js:7-34 | From page load, after any events: the score equals the destroyed bricks and is at most 40. The game is won exactly when all bricks are gone and over exactly at 0 lives. The ball centre stays in [10, 790]×[10, 590], and the paddle stays in [0, 700] on multiples of 7 |

## Left out

- Drawing (`drawBall`, `drawPaddle`, the `ctx` calls of `drawBricks`, `clearRect`): rendering with no effect on the game state.
- The `x`/`y` stored in each brick object: `drawBricks` writes them for every active brick earlier in the same frame that `collisionDetection` reads them, and only active bricks are tested. So the model computes the rectangle from the indices instead.
- `updateScore`, `updateLives` and `alert`: text output. The score and lives they show are in the state.
- `document.location.reload()`: modelled as the terminal phases `Won` and `GameOver`. The script keeps running the rest of that frame before the reload discards everything, so the model ends the frame at the exit point and ignores every later event.
- `requestAnimationFrame` and `addEventListener`: the host loop. A session is an explicit sequence of frame and key events.
- Keyboard events are reduced to their `key` string, the only field the handlers read.
- Game.MovePaddle: "right wins when both keys are held" holds only while the paddle can still move right. At x = 700 with both keys held the `else if` moves it left, and the contract states that exact rule.
