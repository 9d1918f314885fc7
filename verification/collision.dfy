/** collisionDetection (script.js lines 70-88): a column-major scan of the
    field that destroys every active brick whose rectangle strictly contains
    the ball centre, negating the vertical velocity and adding one to the
    score for each, and flags the win when the score reaches 40. */
module Collision {
  import opened Geometry
  import opened Bricks

  /** Score at which the game is won: one point per brick. */
  const WinningScore: int := BrickRowCount * BrickColumnCount

  /** What the scan may change: the field, ballDY, the score, and whether
      the win alert fired. */
  datatype Outcome = Outcome(bricks: Grid, dy: int, score: int, won: bool)

  /** The body of the inner loop for brick (c, r). */
  function Visit(o: Outcome, x: int, y: int, c: int, r: int): (o': Outcome)
    requires WellFormed(o.bricks) && InField(c, r)
    ensures WellFormed(o'.bricks)
  {
    if o.bricks[c][r] == Active && Contains(x, y, c, r) then
      var score := o.score + 1;
      Outcome(SetDestroyed(o.bricks, c, r), -o.dy, score, o.won || score == WinningScore)
    else
      o
  }

  /** One visit destroys the visited brick exactly when it is active and
      contains the ball centre; it then negates dy and adds one point. */
  lemma VisitDestroysOnlyContainingBrick(o: Outcome, x: int, y: int, c: int, r: int)
    requires WellFormed(o.bricks) && InField(c, r)
    ensures var o' := Visit(o, x, y, c, r);
      && Subsumes(o.bricks, o'.bricks)
      && (o'.bricks != o.bricks <==> o.bricks[c][r] == Active && Contains(x, y, c, r))
      && o'.score - o.score == DestroyedCount(o'.bricks) - DestroyedCount(o.bricks) <= 1
      && o'.dy == (if o'.bricks == o.bricks then o.dy else -o.dy)
  {
    if o.bricks[c][r] == Active && Contains(x, y, c, r) {
      DestroyedCountSet(o.bricks, c, r);
      assert SetDestroyed(o.bricks, c, r)[c][r] != o.bricks[c][r];
    }
  }

  /** The inner loop: rows r, r+1, ..., 4 of column c. */
  function ScanRows(o: Outcome, x: int, y: int, c: int, r: nat): (o': Outcome)
    requires WellFormed(o.bricks) && 0 <= c < BrickColumnCount && r <= BrickRowCount
    ensures WellFormed(o'.bricks)
    decreases BrickRowCount - r
  {
    if r == BrickRowCount then o
    else ScanRows(Visit(o, x, y, c, r), x, y, c, r + 1)
  }

  /** The outer loop: columns c, c+1, ..., 7. */
  function ScanColumns(o: Outcome, x: int, y: int, c: nat): (o': Outcome)
    requires WellFormed(o.bricks) && c <= BrickColumnCount
    ensures WellFormed(o'.bricks)
    decreases BrickColumnCount - c
  {
    if c == BrickColumnCount then o
    else ScanColumns(ScanRows(o, x, y, c, 0), x, y, c + 1)
  }

  /** Reference: look up the single brick under the ball by division and
      destroy it if it is active. */
  function Reference(g: Grid, x: int, y: int, dy: int, score: int): Outcome
    requires WellFormed(g)
  {
    match CellAt(x, y)
    case Some(Cell(c, r)) =>
      if g[c][r] == Active then
        Outcome(SetDestroyed(g, c, r), -dy, score + 1, score + 1 == WinningScore)
      else
        Outcome(g, dy, score, false)
    case None => Outcome(g, dy, score, false)
  }

  /** What the remaining rows of column c do: at most the brick under the
      ball, if it lies in those rows, is visited with effect. */
  lemma {:induction false} ScanRowsVisitsOnlyCellAt(o: Outcome, x: int, y: int, c: int, r: nat)
    requires WellFormed(o.bricks) && 0 <= c < BrickColumnCount && r <= BrickRowCount
    ensures var cell := CellAt(x, y);
      ScanRows(o, x, y, c, r) ==
        if cell.Some? && cell.value.col == c && cell.value.row >= r
        then Visit(o, x, y, c, cell.value.row)
        else o
    decreases BrickRowCount - r
  {
    if r < BrickRowCount {
      ContainsIffCellAt(x, y, c, r);
      ScanRowsVisitsOnlyCellAt(Visit(o, x, y, c, r), x, y, c, r + 1);
    }
  }

  /** What the remaining columns do: at most the brick under the ball, if it
      lies in those columns, is visited with effect. */
  lemma {:induction false} ScanColumnsVisitsOnlyCellAt(o: Outcome, x: int, y: int, c: nat)
    requires WellFormed(o.bricks) && c <= BrickColumnCount
    ensures var cell := CellAt(x, y);
      ScanColumns(o, x, y, c) ==
        if cell.Some? && cell.value.col >= c
        then Visit(o, x, y, cell.value.col, cell.value.row)
        else o
    decreases BrickColumnCount - c
  {
    if c < BrickColumnCount {
      ScanRowsVisitsOnlyCellAt(o, x, y, c, 0);
      ScanColumnsVisitsOnlyCellAt(ScanRows(o, x, y, c, 0), x, y, c + 1);
    }
  }

  /** The reference destroys at most one brick, the one under the ball, and
      negates the velocity and scores exactly when it does. */
  lemma ReferenceHitsAtMostOne(g: Grid, x: int, y: int, dy: int, score: int)
    requires WellFormed(g)
    ensures var o := Reference(g, x, y, dy, score);
      && WellFormed(o.bricks)
      && Subsumes(g, o.bricks)
      && DestroyedCount(o.bricks) <= DestroyedCount(g) + 1
      && o.score - score == DestroyedCount(o.bricks) - DestroyedCount(g)
      && o.dy == (if o.bricks == g then dy else -dy)
      && (o.won <==> o.bricks != g && o.score == WinningScore)
  {
    match CellAt(x, y)
    case Some(Cell(c, r)) =>
      if g[c][r] == Active {
        DestroyedCountSet(g, c, r);
        assert SetDestroyed(g, c, r) != g by {
          assert SetDestroyed(g, c, r)[c][r] != g[c][r];
        }
      }
    case None =>
  }

  /** collisionDetection. Because at most one brick contains the ball, the
      full scan agrees with the single-cell reference, so one call destroys
      at most one brick and negates ballDY at most once. */
  function CollisionDetection(g: Grid, x: int, y: int, dy: int, score: int): (o: Outcome)
    requires WellFormed(g)
    ensures o == Reference(g, x, y, dy, score)
    ensures WellFormed(o.bricks)
    ensures Subsumes(g, o.bricks)
    ensures DestroyedCount(o.bricks) <= DestroyedCount(g) + 1
    ensures o.score - score == DestroyedCount(o.bricks) - DestroyedCount(g)
    ensures o.dy == if o.bricks == g then dy else -dy
    ensures o.won <==> o.bricks != g && o.score == WinningScore
  {
    ScanMatchesReference(g, x, y, dy, score);
    ReferenceHitsAtMostOne(g, x, y, dy, score);
    ScanColumns(Outcome(g, dy, score, false), x, y, 0)
  }

  /** Visiting the brick under the ball does what the reference does. */
  lemma VisitCellAtIsReference(g: Grid, x: int, y: int, dy: int, score: int, c: int, r: int)
    requires WellFormed(g) && CellAt(x, y) == Some(Cell(c, r))
    ensures Visit(Outcome(g, dy, score, false), x, y, c, r) == Reference(g, x, y, dy, score)
  {
    ContainsIffCellAt(x, y, c, r);
  }

  /** The column-major scan of the whole field equals the reference. */
  lemma ScanMatchesReference(g: Grid, x: int, y: int, dy: int, score: int)
    requires WellFormed(g)
    ensures ScanColumns(Outcome(g, dy, score, false), x, y, 0) == Reference(g, x, y, dy, score)
  {
    ScanColumnsVisitsOnlyCellAt(Outcome(g, dy, score, false), x, y, 0);
    if CellAt(x, y).Some? {
      VisitCellAtIsReference(g, x, y, dy, score, CellAt(x, y).value.col, CellAt(x, y).value.row);
    }
  }

  /** The brick destroyed by a collision is the one under the ball: a
      brick changes only if it was active and contains the ball centre. */
  lemma OnlyContainingBrickChanges(g: Grid, x: int, y: int, dy: int, score: int, c: int, r: int)
    requires WellFormed(g) && InField(c, r)
    ensures CollisionDetection(g, x, y, dy, score).bricks[c][r] != g[c][r] <==>
            g[c][r] == Active && Contains(x, y, c, r)
  {
    ContainsIffCellAt(x, y, c, r);
  }
}
