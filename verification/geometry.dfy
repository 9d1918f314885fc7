/** Constants of the playing field and the rectangle of every brick
    (script.js lines 4-23 and the position arithmetic of drawBricks).
    Every quantity of the game is a small integer, so `int` is exact. */
module Geometry {

  const CanvasWidth: int := 800
  const CanvasHeight: int := 600

  const PaddleWidth: int := 100
  /** Horizontal distance the paddle moves in one frame. */
  const PaddleStep: int := 7

  const BallRadius: int := 10

  const BrickRowCount: int := 5
  const BrickColumnCount: int := 8
  const BrickWidth: int := 75
  const BrickHeight: int := 20
  const BrickPadding: int := 10
  const BrickOffsetTop: int := 30
  const BrickOffsetLeft: int := 30

  datatype Option<T> = None | Some(value: T)

  /** A grid position: column `col`, row `row`, as in `bricks[c][r]`. */
  datatype Cell = Cell(col: int, row: int)

  predicate InField(c: int, r: int)
  {
    0 <= c < BrickColumnCount && 0 <= r < BrickRowCount
  }

  /** Left edge of every brick of column `c`. */
  function BrickX(c: int): (x: int)
    ensures 0 <= c < BrickColumnCount ==> 0 < x && x + BrickWidth < CanvasWidth
  {
    c * (BrickWidth + BrickPadding) + BrickOffsetLeft
  }

  /** Top edge of every brick of row `r`. */
  function BrickY(r: int): (y: int)
    ensures 0 <= r < BrickRowCount ==> 0 < y && y + BrickHeight < CanvasHeight - 2 * BallRadius
  {
    r * (BrickHeight + BrickPadding) + BrickOffsetTop
  }

  /** The collision test: the ball centre lies strictly inside the
      rectangle of brick (c, r). */
  predicate Contains(x: int, y: int, c: int, r: int)
  {
    && BrickX(c) < x < BrickX(c) + BrickWidth
    && BrickY(r) < y < BrickY(r) + BrickHeight
  }

  /** Reference definition of "the brick under the point (x, y)", found by
      dividing the offset from the field's corner by the brick pitch rather
      than by searching the grid. */
  function CellAt(x: int, y: int): (cell: Option<Cell>)
    ensures cell.Some? ==> InField(cell.value.col, cell.value.row)
  {
    var u := x - BrickOffsetLeft;
    var v := y - BrickOffsetTop;
    var c := u / (BrickWidth + BrickPadding);
    var r := v / (BrickHeight + BrickPadding);
    if && InField(c, r)
       && 0 < u % (BrickWidth + BrickPadding) < BrickWidth
       && 0 < v % (BrickHeight + BrickPadding) < BrickHeight
    then Some(Cell(c, r))
    else None
  }

  /** The scan's test and the reference agree on every brick of the field. */
  lemma ContainsIffCellAt(x: int, y: int, c: int, r: int)
    requires InField(c, r)
    ensures Contains(x, y, c, r) <==> CellAt(x, y) == Some(Cell(c, r))
  {
    if Contains(x, y, c, r) {
      var u := x - BrickOffsetLeft;
      var v := y - BrickOffsetTop;
      assert u == c * (BrickWidth + BrickPadding) + (u - BrickX(c) + BrickOffsetLeft);
      assert u / (BrickWidth + BrickPadding) == c;
      assert v / (BrickHeight + BrickPadding) == r;
    }
  }

  /** The 10-unit padding and the strict comparisons make the rectangles
      disjoint: at most one brick of the field contains any point. */
  lemma AtMostOneBrickContains(x: int, y: int, c1: int, r1: int, c2: int, r2: int)
    requires InField(c1, r1) && InField(c2, r2)
    requires Contains(x, y, c1, r1) && Contains(x, y, c2, r2)
    ensures c1 == c2 && r1 == r2
  {
    ContainsIffCellAt(x, y, c1, r1);
    ContainsIffCellAt(x, y, c2, r2);
  }

  /** No brick reaches below y = 170, so a ball centre at or below that line
      is inside no brick. */
  lemma NoBrickBelowField(x: int, y: int, c: int, r: int)
    requires InField(c, r)
    requires y >= BrickY(BrickRowCount - 1) + BrickHeight
    ensures !Contains(x, y, c, r)
  {
  }
}
