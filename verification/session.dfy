/** A session: the page's state driven by a sequence of events, each either
    an animation frame (one call of draw()) or a key event. The browser's
    requestAnimationFrame and addEventListener scheduling is replaced by the
    order of the sequence. */
module Session {
  import opened Geometry
  import opened Bricks
  import opened Collision
  import opened Game
  import opened Keyboard

  datatype Event = Frame | Down(key: string) | Up(key: string)

  /** Applies one event. After a terminal phase the page reloads, so the
      session ignores every later event. */
  function Apply(s: State, e: Event): (r: State)
    requires WellFormed(s.bricks)
    ensures WellFormed(r.bricks)
    ensures s.phase != Playing ==> r == s
    ensures Subsumes(s.bricks, r.bricks)
    ensures r.score - s.score == DestroyedCount(r.bricks) - DestroyedCount(s.bricks)
  {
    if s.phase != Playing then s
    else
      match e
      case Frame => Step(s)
      case Down(k) => KeyDown(s, k)
      case Up(k) => KeyUp(s, k)
  }

  /** Applies the events in order. */
  function Run(s: State, events: seq<Event>): (r: State)
    requires WellFormed(s.bricks)
    ensures WellFormed(r.bricks)
    ensures Subsumes(s.bricks, r.bricks)
    ensures r.score - s.score == DestroyedCount(r.bricks) - DestroyedCount(s.bricks)
    ensures s.phase != Playing ==> r == s
    decreases |events|
  {
    if |events| == 0 then s
    else Run(Apply(s, events[0]), events[1..])
  }

  lemma ApplyPreservesInv(s: State, e: Event)
    requires Inv(s)
    ensures Inv(Apply(s, e))
  {
    if s.phase == Playing {
      match e
      case Frame => StepPreservesInv(s);
      case Down(k) => KeysPreserveInv(s, k);
      case Up(k) => KeysPreserveInv(s, k);
    }
  }

  lemma {:induction false} RunPreservesInv(s: State, events: seq<Event>)
    requires Inv(s)
    ensures Inv(Run(s, events))
    decreases |events|
  {
    if |events| > 0 {
      ApplyPreservesInv(s, events[0]);
      RunPreservesInv(Apply(s, events[0]), events[1..]);
    }
  }

  /** Whatever the events, from page load: the score equals the number of
      destroyed bricks and never exceeds 40, the game is won exactly when
      every brick is destroyed, the ball centre stays in [10, 790] x [10, 590],
      and the paddle stays in [0, 700] on multiples of 7. */
  lemma SessionBounds(events: seq<Event>)
    ensures var s := Run(Init(), events);
      && WellFormed(s.bricks)
      && s.score == DestroyedCount(s.bricks) <= WinningScore
      && (s.phase == Won <==> AllDestroyed(s.bricks))
      && (s.phase == GameOver <==> s.lives == 0)
      && BallRadius <= s.ballX <= CanvasWidth - BallRadius
      && BallRadius <= s.ballY <= CanvasHeight - BallRadius
      && 0 <= s.paddleX <= CanvasWidth - PaddleWidth
      && s.paddleX % PaddleStep == 0
  {
    RunPreservesInv(Init(), events);
    ClearedIffFullCount(Run(Init(), events).bricks);
  }
}
