/** The per-frame simulation step of draw() (script.js lines 98-139) over an
    explicit game state, with the two alert-and-reload exits as terminal
    phases. */
module Game {
  import opened Geometry
  import opened Bricks
  import opened Collision

  /** `Won` and `GameOver` stand for the alert followed by a page reload:
      nothing of the session survives them. */
  datatype Phase = Playing | Won | GameOver

  datatype State = State(
    ballX: int, ballY: int,
    ballDX: int, ballDY: int,
    paddleX: int,
    bricks: Grid,
    score: int,
    lives: int,
    rightPressed: bool, leftPressed: bool,
    phase: Phase)

  const StartBallX: int := CanvasWidth / 2
  const StartBallY: int := CanvasHeight - 30
  const StartDX: int := 2
  const StartDY: int := -2
  const StartPaddleX: int := (CanvasWidth - PaddleWidth) / 2
  const StartLives: int := 3

  /** The ball moves two units per axis per frame. */
  predicate UnitSpeed(d: int)
  {
    d == 2 || d == -2
  }

  /** What every reachable state satisfies. */
  ghost predicate Inv(s: State)
  {
    && WellFormed(s.bricks)
    && s.score == DestroyedCount(s.bricks)
    && (s.phase == Won <==> s.score == WinningScore)
    && (s.phase == GameOver <==> s.lives == 0)
    && 0 <= s.lives <= StartLives
    && BallRadius <= s.ballX <= CanvasWidth - BallRadius
    && BallRadius <= s.ballY <= CanvasHeight - BallRadius
    && UnitSpeed(s.ballDX) && UnitSpeed(s.ballDY)
    && 0 <= s.paddleX <= CanvasWidth - PaddleWidth
    && s.paddleX % PaddleStep == 0
  }

  /** The state at page load (script.js lines 7-34, 141-142). */
  function Init(): (s: State)
    ensures Inv(s)
    ensures s.phase == Playing && s.score == 0 && s.lives == StartLives
    ensures forall c, r :: InField(c, r) ==> s.bricks[c][r] == Active
  {
    State(StartBallX, StartBallY, StartDX, StartDY, StartPaddleX,
          InitialGrid(), 0, StartLives, false, false, Playing)
  }

  /** Side walls (script.js lines 105-107): the horizontal velocity is
      negated exactly when the next position would leave
      [ballRadius, canvas.width - ballRadius], which keeps the ball between
      the walls. */
  function ReflectX(x: int, dx: int): (dx': int)
    ensures dx' == dx || dx' == -dx
    ensures dx' == dx <==> dx == 0 || BallRadius <= x + dx <= CanvasWidth - BallRadius
    ensures BallRadius <= x <= CanvasWidth - BallRadius && UnitSpeed(dx) ==>
              UnitSpeed(dx') && BallRadius <= x + dx' <= CanvasWidth - BallRadius
  {
    if x + dx > CanvasWidth - BallRadius || x + dx < BallRadius then -dx else dx
  }

  /** The paddle catches the ball when the ball centre lies strictly between
      the paddle's ends (script.js line 111). */
  predicate PaddleCatches(ballX: int, paddleX: int)
  {
    paddleX < ballX < paddleX + PaddleWidth
  }

  /** The ball is about to cross the bottom edge without being caught. */
  predicate Misses(s: State)
  {
    && !(s.ballY + s.ballDY < BallRadius)
    && s.ballY + s.ballDY > CanvasHeight - BallRadius
    && !PaddleCatches(s.ballX, s.paddleX)
  }

  /** A lost life (script.js lines 114-125): the game ends when none are
      left, otherwise ball and paddle return to their starting places. */
  function LoseLife(s: State): (r: State)
    ensures r.lives == s.lives - 1
    ensures r.bricks == s.bricks && r.score == s.score
    ensures r.rightPressed == s.rightPressed && r.leftPressed == s.leftPressed
    ensures r.lives == 0 ==> r.phase == GameOver
    ensures r.lives == 0 ==> r.ballX == s.ballX && r.ballY == s.ballY && r.paddleX == s.paddleX
    ensures r.lives != 0 ==>
              && r.phase == s.phase
              && r == Init().(bricks := s.bricks, score := s.score, lives := r.lives,
                              rightPressed := s.rightPressed, leftPressed := s.leftPressed,
                              phase := s.phase)
  {
    var lives := s.lives - 1;
    if lives == 0 then
      s.(lives := lives, phase := GameOver)
    else
      s.(lives := lives, ballX := StartBallX, ballY := StartBallY,
         ballDX := StartDX, ballDY := StartDY, paddleX := StartPaddleX)
  }

  /** Top wall and bottom edge (script.js lines 108-127). A life is lost
      exactly on a miss; otherwise only ballDY may change, and it is negated
      when the ball would leave the field vertically. */
  function VerticalEdge(s: State): (r: State)
    ensures Misses(s) ==> r == LoseLife(s)
    ensures !Misses(s) ==> r == s.(ballDY := r.ballDY)
    ensures !Misses(s) ==> (r.ballDY == s.ballDY || r.ballDY == -s.ballDY)
    ensures !Misses(s) && BallRadius <= s.ballY + s.ballDY <= CanvasHeight - BallRadius ==>
              r.ballDY == s.ballDY
    ensures !Misses(s) && !(BallRadius <= s.ballY + s.ballDY <= CanvasHeight - BallRadius) ==>
              r.ballDY == -s.ballDY
    ensures !Misses(s) && BallRadius <= s.ballY <= CanvasHeight - BallRadius && UnitSpeed(s.ballDY) ==>
              UnitSpeed(r.ballDY) && BallRadius <= s.ballY + r.ballDY <= CanvasHeight - BallRadius
  {
    if s.ballY + s.ballDY < BallRadius then
      s.(ballDY := -s.ballDY)
    else if s.ballY + s.ballDY > CanvasHeight - BallRadius then
      if PaddleCatches(s.ballX, s.paddleX) then s.(ballDY := -s.ballDY)
      else LoseLife(s)
    else
      s
  }

  /** Paddle movement (script.js lines 129-133): right when the right key is
      held and there is room, else left when the left key is held and there
      is room. The paddle stays on a 7-unit lattice inside [0, 700]. */
  function MovePaddle(x: int, right: bool, left: bool): (x': int)
    ensures x' == x + PaddleStep <==> right && x < CanvasWidth - PaddleWidth
    ensures x' == x - PaddleStep <==> !(right && x < CanvasWidth - PaddleWidth) && left && x > 0
    ensures x' == x || x' == x + PaddleStep || x' == x - PaddleStep
    ensures 0 <= x <= CanvasWidth - PaddleWidth && x % PaddleStep == 0 ==>
              0 <= x' <= CanvasWidth - PaddleWidth && x' % PaddleStep == 0
  {
    if right && x < CanvasWidth - PaddleWidth then x + PaddleStep
    else if left && x > 0 then x - PaddleStep
    else x
  }

  /** The last two lines of draw(): ball moves by its velocity. */
  function Integrate(s: State): (r: State)
    ensures r == s.(ballX := r.ballX, ballY := r.ballY)
    ensures r.ballX - s.ballX == s.ballDX && r.ballY - s.ballY == s.ballDY
  {
    s.(ballX := s.ballX + s.ballDX, ballY := s.ballY + s.ballDY)
  }

  /** The part of draw() after the collision scan (script.js lines 105-136):
      side walls, top wall and bottom edge, paddle movement, integration.
      A frame that ends the game stops at the lost life. */
  function Move(s: State): (r: State)
    ensures r.bricks == s.bricks && r.score == s.score
    ensures r.rightPressed == s.rightPressed && r.leftPressed == s.leftPressed
    ensures r.lives == s.lives - 1 <==> Misses(s.(ballDX := ReflectX(s.ballX, s.ballDX)))
    ensures r.lives == s.lives || r.lives == s.lives - 1
    ensures !Misses(s) && s.phase != GameOver ==>
              && r.phase == s.phase && r.lives == s.lives
              && r.ballDX == ReflectX(s.ballX, s.ballDX)
              && r.ballDY == (if BallRadius <= s.ballY + s.ballDY <= CanvasHeight - BallRadius
                              then s.ballDY else -s.ballDY)
              && r.paddleX == MovePaddle(s.paddleX, s.rightPressed, s.leftPressed)
              && r.ballX == s.ballX + r.ballDX && r.ballY == s.ballY + r.ballDY
    ensures Misses(s) && s.lives != 1 && s.phase != GameOver ==>
              && r.phase == s.phase
              && r.ballDX == StartDX && r.ballDY == StartDY
              && r.paddleX == MovePaddle(StartPaddleX, s.rightPressed, s.leftPressed)
              && r.ballX == StartBallX + StartDX && r.ballY == StartBallY + StartDY
  {
    var s2 := s.(ballDX := ReflectX(s.ballX, s.ballDX));
    var s3 := VerticalEdge(s2);
    if s3.phase == GameOver then
      s3
    else
      Integrate(s3.(paddleX := MovePaddle(s3.paddleX, s3.rightPressed, s3.leftPressed)))
  }

  /** One frame of draw(), in the source's order: brick collisions against
      the pre-move ball centre, then Move. Terminal phases do not move. */
  function Step(s: State): (r: State)
    requires WellFormed(s.bricks)
    ensures WellFormed(r.bricks)
    ensures s.phase != Playing ==> r == s
    ensures Subsumes(s.bricks, r.bricks)
    ensures DestroyedCount(r.bricks) <= DestroyedCount(s.bricks) + 1
    ensures r.score - s.score == DestroyedCount(r.bricks) - DestroyedCount(s.bricks)
    ensures r.lives == s.lives || r.lives == s.lives - 1
    ensures r.rightPressed == s.rightPressed && r.leftPressed == s.leftPressed
  {
    if s.phase != Playing then s
    else
      var hit := CollisionDetection(s.bricks, s.ballX, s.ballY, s.ballDY, s.score);
      var s1 := s.(bricks := hit.bricks, ballDY := hit.dy, score := hit.score);
      if hit.won then s1.(phase := Won)
      else Move(s1)
  }

  /** The walls, the bottom edge and the paddle keep ball and paddle in the
      field and the phase in step with the lives left. */
  lemma MovePreservesInv(s: State)
    requires Inv(s) && s.phase == Playing
    ensures Inv(Move(s))
  {
  }

  /** Every frame keeps the invariant: the score counts the destroyed
      bricks, the game is won exactly at 40 points and over exactly at zero
      lives, and ball and paddle stay inside the field. */
  lemma StepPreservesInv(s: State)
    requires Inv(s)
    ensures Inv(Step(s))
  {
  }

  /** A frame that neither wins nor costs a life moves the ball by exactly
      its new velocity. The vertical velocity is the one the collision scan
      left, negated once more only if the ball would leave [10, 590]; the
      horizontal one is reflected at the side walls; and the paddle has moved
      before the ball. */
  lemma FrameMovesBallByItsVelocity(s: State)
    requires Inv(s) && s.phase == Playing
    ensures var r := Step(s);
            var dy := CollisionDetection(s.bricks, s.ballX, s.ballY, s.ballDY, s.score).dy;
      r.phase == Playing && r.lives == s.lives ==>
        && r.ballDX == ReflectX(s.ballX, s.ballDX)
        && r.ballDY == (if BallRadius <= s.ballY + dy <= CanvasHeight - BallRadius then dy else -dy)
        && r.paddleX == MovePaddle(s.paddleX, s.rightPressed, s.leftPressed)
        && r.ballX == s.ballX + r.ballDX && r.ballY == s.ballY + r.ballDY
  {
  }

  /** A frame in which the ball crosses the bottom edge uncaught with lives
      to spare ends with the ball restarted and already moved once: at
      (402, 568) moving (2, -2), the paddle at 350 or one step from it. */
  lemma LifeLossFrame(s: State)
    requires Inv(s) && s.phase == Playing && s.lives > 1
    requires s.ballY + s.ballDY > CanvasHeight - BallRadius
    requires !PaddleCatches(s.ballX, s.paddleX)
    ensures var r := Step(s);
      && r.lives == s.lives - 1 && r.phase == Playing
      && r.ballX == StartBallX + StartDX && r.ballY == StartBallY + StartDY
      && r.ballDX == StartDX && r.ballDY == StartDY
      && r.paddleX == MovePaddle(StartPaddleX, s.rightPressed, s.leftPressed)
      && r.bricks == s.bricks && r.score == s.score
  {
    match CellAt(s.ballX, s.ballY)
    case Some(Cell(c, r)) =>
      ContainsIffCellAt(s.ballX, s.ballY, c, r);
      NoBrickBelowField(s.ballX, s.ballY, c, r);
    case None =>
  }

  /** The last life lost ends the game (script.js lines 114-118). */
  lemma LastLifeEndsGame(s: State)
    requires Inv(s) && s.phase == Playing && s.lives == 1
    requires s.ballY + s.ballDY > CanvasHeight - BallRadius
    requires !PaddleCatches(s.ballX, s.paddleX)
    ensures Step(s).phase == GameOver && Step(s).lives == 0
  {
    match CellAt(s.ballX, s.ballY)
    case Some(Cell(c, r)) =>
      ContainsIffCellAt(s.ballX, s.ballY, c, r);
      NoBrickBelowField(s.ballX, s.ballY, c, r);
    case None =>
  }

  /** A frame destroying the last active brick wins the game
      (script.js lines 78-83). */
  lemma ClearingFieldWins(s: State)
    requires Inv(s) && s.phase == Playing
    ensures AllDestroyed(Step(s).bricks) <==> Step(s).phase == Won
  {
    StepPreservesInv(s);
    ClearedIffFullCount(Step(s).bricks);
  }

  /** A frame that starts from the restart position with no key held hits
      no brick, leaves the paddle alone and moves the ball from (400, 570) to
      (402, 568); the first frame after page load is one of these. */
  lemma FrameFromStart(s: State)
    requires WellFormed(s.bricks) && s.phase == Playing
    requires s.ballX == StartBallX && s.ballY == StartBallY
    requires s.ballDX == StartDX && s.ballDY == StartDY
    requires !s.rightPressed && !s.leftPressed
    ensures var r := Step(s);
      && r.phase == Playing && r.lives == s.lives && r.score == s.score
      && r.bricks == s.bricks
      && r.ballX == 402 && r.ballY == 568
      && r.ballDX == StartDX && r.ballDY == StartDY
      && r.paddleX == s.paddleX
  {
    assert CellAt(s.ballX, s.ballY) == None;
    var hit := CollisionDetection(s.bricks, s.ballX, s.ballY, s.ballDY, s.score);
    assert hit == Outcome(s.bricks, s.ballDY, s.score, false);
    assert Step(s) == Move(s);
  }
}
