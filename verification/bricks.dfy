/** The brick field: `bricks[c][r]` for 8 columns of 5 rows, each brick
    active (status 1) or destroyed (status 0) (script.js lines 17-18, 28-34).
    The stored x/y of a brick is not kept: it is always recomputed from the
    indices (Geometry.BrickX / BrickY) before it is read. */
module Bricks {
  import opened Geometry

  datatype Status = Active | Destroyed

  type Column = seq<Status>
  type Grid = seq<Column>

  /** Eight columns of five bricks each. */
  predicate WellFormed(g: Grid)
  {
    |g| == BrickColumnCount && forall c :: 0 <= c < |g| ==> |g[c]| == BrickRowCount
  }

  /** Every brick of the field has been destroyed. */
  ghost predicate AllDestroyed(g: Grid)
    requires WellFormed(g)
  {
    forall c, r :: InField(c, r) ==> g[c][r] == Destroyed
  }

  /** `g'` keeps every brick that `g` has destroyed destroyed: bricks are
      never reactivated. */
  ghost predicate Subsumes(g: Grid, g': Grid)
    requires WellFormed(g) && WellFormed(g')
  {
    forall c, r :: InField(c, r) && g[c][r] == Destroyed ==> g'[c][r] == Destroyed
  }

  /** The field at page load: every brick active. */
  function InitialGrid(): (g: Grid)
    ensures WellFormed(g)
    ensures forall c, r :: InField(c, r) ==> g[c][r] == Active
    ensures DestroyedCount(g) == 0
  {
    var g := seq(BrickColumnCount, _ => seq(BrickRowCount, _ => Active));
    NoneDestroyed(g);
    g
  }

  /** Destroys brick (c, r), as `b.status = 0` does. */
  function SetDestroyed(g: Grid, c: int, r: int): (g': Grid)
    requires WellFormed(g) && InField(c, r)
    ensures WellFormed(g')
    ensures g'[c][r] == Destroyed
    ensures forall c', r' :: InField(c', r') && (c', r') != (c, r) ==> g'[c'][r'] == g[c'][r']
  {
    g[c := g[c][r := Destroyed]]
  }

  /** Number of destroyed bricks in one column. */
  function CountColumn(col: Column): (n: nat)
    ensures n <= |col|
  {
    if |col| == 0 then 0
    else (if col[0] == Destroyed then 1 else 0) + CountColumn(col[1..])
  }

  /** Number of destroyed bricks in the whole field. */
  function DestroyedCount(g: Grid): (n: nat)
    ensures (forall c :: 0 <= c < |g| ==> |g[c]| == BrickRowCount) ==> n <= BrickRowCount * |g|
  {
    if |g| == 0 then 0
    else CountColumn(g[0]) + DestroyedCount(g[1..])
  }

  lemma {:induction false} NoneDestroyed(g: Grid)
    requires forall c, r :: 0 <= c < |g| && 0 <= r < |g[c]| ==> g[c][r] == Active
    ensures DestroyedCount(g) == 0
  {
    if |g| > 0 {
      NoneDestroyedColumn(g[0]);
      NoneDestroyed(g[1..]);
    }
  }

  lemma {:induction false} NoneDestroyedColumn(col: Column)
    requires forall r :: 0 <= r < |col| ==> col[r] == Active
    ensures CountColumn(col) == 0
  {
    if |col| > 0 {
      NoneDestroyedColumn(col[1..]);
    }
  }

  /** Destroying an active brick adds exactly one to its column's count. */
  lemma {:induction false} CountColumnSet(col: Column, i: int)
    requires 0 <= i < |col| && col[i] == Active
    ensures CountColumn(col[i := Destroyed]) == CountColumn(col) + 1
  {
    if i == 0 {
      assert col[i := Destroyed][1..] == col[1..];
    } else {
      assert col[i := Destroyed][1..] == col[1..][i - 1 := Destroyed];
      CountColumnSet(col[1..], i - 1);
    }
  }

  /** Destroying an active brick adds exactly one to the field's count. */
  lemma {:induction false} DestroyedCountSet(g: Grid, c: int, r: int)
    requires 0 <= c < |g| && 0 <= r < |g[c]| && g[c][r] == Active
    ensures DestroyedCount(g[c := g[c][r := Destroyed]]) == DestroyedCount(g) + 1
  {
    var g' := g[c := g[c][r := Destroyed]];
    if c == 0 {
      assert g'[1..] == g[1..];
      CountColumnSet(g[0], r);
    } else {
      assert g'[1..] == g[1..][c - 1 := g[1..][c - 1][r := Destroyed]];
      DestroyedCountSet(g[1..], c - 1, r);
    }
  }

  /** A column's count equals its length exactly when all of it is destroyed. */
  lemma {:induction false} CountColumnFull(col: Column)
    ensures CountColumn(col) == |col| <==> forall i :: 0 <= i < |col| ==> col[i] == Destroyed
  {
    if |col| > 0 {
      CountColumnFull(col[1..]);
      if CountColumn(col) == |col| {
        forall i | 0 <= i < |col|
          ensures col[i] == Destroyed
        {
          if i > 0 {
            assert col[i] == col[1..][i - 1];
          }
        }
      } else {
        assert exists i :: 0 <= i < |col| && col[i] != Destroyed by {
          if col[0] == Destroyed {
            var j :| 0 <= j < |col[1..]| && col[1..][j] != Destroyed;
            assert col[j + 1] != Destroyed;
          }
        }
      }
    }
  }

  /** A field whose columns all hold five bricks reaches the maximal count
      exactly when every brick is destroyed. */
  lemma {:induction false} DestroyedCountFull(g: Grid)
    requires forall c :: 0 <= c < |g| ==> |g[c]| == BrickRowCount
    ensures DestroyedCount(g) == BrickRowCount * |g| <==>
            forall c, r :: 0 <= c < |g| && 0 <= r < BrickRowCount ==> g[c][r] == Destroyed
  {
    if |g| > 0 {
      DestroyedCountFull(g[1..]);
      CountColumnFull(g[0]);
      if DestroyedCount(g) == BrickRowCount * |g| {
        forall c, r | 0 <= c < |g| && 0 <= r < BrickRowCount
          ensures g[c][r] == Destroyed
        {
          if c > 0 {
            assert g[c] == g[1..][c - 1];
          }
        }
      } else {
        assert exists c, r :: 0 <= c < |g| && 0 <= r < BrickRowCount && g[c][r] != Destroyed by {
          if CountColumn(g[0]) == BrickRowCount {
            var c, r :| 0 <= c < |g[1..]| && 0 <= r < BrickRowCount && g[1..][c][r] != Destroyed;
            assert g[c + 1][r] != Destroyed;
          } else {
            var r :| 0 <= r < |g[0]| && g[0][r] != Destroyed;
            assert g[0][r] != Destroyed;
          }
        }
      }
    }
  }

  /** The count of a well-formed field reaches 40 exactly when the field is
      cleared, which is the win test `score === brickRowCount * brickColumnCount`. */
  lemma ClearedIffFullCount(g: Grid)
    requires WellFormed(g)
    ensures DestroyedCount(g) <= BrickRowCount * BrickColumnCount
    ensures DestroyedCount(g) == BrickRowCount * BrickColumnCount <==> AllDestroyed(g)
  {
    DestroyedCountFull(g);
  }
}
