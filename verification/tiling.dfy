/**
  The grid tiler of `create_hexagonal_grid`: the row-by-row walk over an
  extent that emits one hexagon centre per lattice position, with odd rows
  shifted right by three quarters of a hexagon width.

  `RowFrom`, `RowsFrom` and `Cells` follow the script's two `while` loops as
  recursion on the accumulated coordinates; `EnumerateCentres` is the loops
  themselves, proved to emit exactly `Cells`. Coordinates are exact reals.
*/
module Tiling {

  /** Bounding box `(x_min, y_min, x_max, y_max)` of the input layer. */
  datatype Extent = Extent(xMin: real, yMin: real, xMax: real, yMax: real)

  /** One emitted centre: its coordinates, its lattice position and its feature id. */
  datatype HexCell = HexCell(x: real, y: real, row: nat, col: nat, id: nat)

  /** Width (twice the circumradius) and height (sqrt 3 times it) of one hexagon. */
  datatype HexSize = HexSize(width: real, height: real) {

    predicate Valid() {
      width > 0.0 && height > 0.0
    }

    /** Horizontal distance between neighbouring centres of one row. */
    function ColumnStep(): real {
      width * 1.5
    }

    /** Vertical distance between consecutive rows. */
    function RowStep(): real {
      height * 0.5
    }

    /** Horizontal shift of a row's first centre: odd rows are staggered. */
    function RowOffset(row: nat): real {
      if row % 2 == 1 then width * 0.75 else 0.0
    }
  }

  /** Position after `k` additions of `step` to `start`, as the loops accumulate it. */
  function Offset(start: real, step: real, k: nat): real {
    if k == 0 then start else Offset(start, step, k - 1) + step
  }

  /** Repeated addition is multiplication. */
  lemma {:induction false} OffsetClosedForm(start: real, step: real, k: nat)
    ensures Offset(start, step, k) == start + k as real * step
  {
    if k > 0 {
      OffsetClosedForm(start, step, k - 1);
    }
  }

  /** Starting one step further on is taking one step more. */
  lemma {:induction false} OffsetShift(start: real, step: real, k: nat)
    ensures Offset(start + step, step, k) == Offset(start, step, k + 1)
  {
    if k > 0 {
      OffsetShift(start, step, k - 1);
    }
  }

  lemma {:induction false} OffsetIncreasing(start: real, step: real, i: nat, j: nat)
    requires step > 0.0 && i < j
    ensures Offset(start, step, i) < Offset(start, step, j)
    decreases j
  {
    if i < j - 1 {
      OffsetIncreasing(start, step, i, j - 1);
    }
  }

  /** With a positive step, positions are ordered as their step counts. */
  lemma OffsetOrder(start: real, step: real, i: nat, j: nat)
    requires step > 0.0
    ensures Offset(start, step, i) < Offset(start, step, j) <==> i < j
  {
    OffsetClosedForm(start, step, i);
    OffsetClosedForm(start, step, j);
    ScaleBelow(i as real, j as real, step);
  }

  /** Smallest integer not below `t`. */
  function Ceiling(t: real): (c: int)
    ensures t <= c as real < t + 1.0
  {
    -((-t).Floor)
  }

  /** The integers below the ceiling of `t` are those below `t`. */
  lemma CeilingBelow(k: int, t: real)
    ensures k < Ceiling(t) <==> (k as real) < t
  {
    var c := Ceiling(t);
    if k < c {
      assert (k + 1) as real <= c as real;
    }
  }

  lemma ScaleBelow(k: real, t: real, step: real)
    requires step > 0.0
    ensures k < t <==> k * step < t * step
  {
  }

  /** `n` is the number of passes of `while p < bound: p += step` started at `p = start`. */
  ghost predicate IsStepCount(start: real, bound: real, step: real, n: nat) {
    forall k: nat {:trigger Offset(start, step, k)} :: k < n <==> Offset(start, step, k) < bound
  }

  /** With a positive step the loop runs `ceiling((bound - start) / step)` times, or not at all. */
  lemma StepCountExists(start: real, bound: real, step: real) returns (n: nat)
    requires step > 0.0
    ensures IsStepCount(start, bound, step, n)
    ensures start < bound ==> n == Ceiling((bound - start) / step)
  {
    if start < bound {
      var t := (bound - start) / step;
      assert t * step == bound - start;
      assert t > 0.0 by { ScaleBelow(0.0, t, step); }
      var c := Ceiling(t);
      forall k: nat ensures k < c <==> Offset(start, step, k) < bound {
        OffsetClosedForm(start, step, k);
        ScaleBelow(k as real, t, step);
        CeilingBelow(k, t);
        assert Offset(start, step, k) < bound <==> k as real * step < t * step;
      }
      n := c;
    } else {
      forall k: nat ensures !(Offset(start, step, k) < bound) {
        OffsetClosedForm(start, step, k);
        ScaleBelow(0.0, k as real, step);
      }
      n := 0;
    }
  }

  /** Number of passes of `while p < bound: p += step` started at `p = start`. */
  ghost function StepCount(start: real, bound: real, step: real): (n: nat)
    requires step > 0.0
    ensures IsStepCount(start, bound, step, n)
  {
    assert exists n: nat :: IsStepCount(start, bound, step, n) by {
      var m := StepCountExists(start, bound, step);
    }
    var n :| IsStepCount(start, bound, step, n);
    n
  }

  /** Each pass of such a loop leaves one pass fewer: the termination measure of the loops. */
  lemma StepCountShrinks(start: real, bound: real, step: real)
    requires step > 0.0 && start < bound
    ensures StepCount(start + step, bound, step) < StepCount(start, bound, step)
  {
    var n := StepCount(start, bound, step);
    var n' := StepCount(start + step, bound, step);
    assert Offset(start, step, 0) < bound;
    assert 0 < n;
    OffsetShift(start, step, n - 1);
    assert !(Offset(start, step, n) < bound);
    assert !(Offset(start + step, step, n - 1) < bound);
    assert n' <= n - 1;
  }

  /** x of the first centre of `row`. */
  function RowStartX(e: Extent, s: HexSize, row: nat): real {
    e.xMin + s.RowOffset(row)
  }

  function CentreX(e: Extent, s: HexSize, row: nat, col: nat): real {
    Offset(RowStartX(e, s, row), s.ColumnStep(), col)
  }

  function CentreY(e: Extent, s: HexSize, row: nat): real {
    Offset(e.yMin, s.RowStep(), row)
  }

  /** The lattice position (row, col) lies below both upper bounds of the extent. */
  predicate Inside(e: Extent, s: HexSize, row: nat, col: nat) {
    CentreY(e, s, row) < e.yMax && CentreX(e, s, row, col) < e.xMax
  }

  /** `c` sits on its lattice position and inside the extent's upper bounds. */
  predicate Placed(e: Extent, s: HexSize, c: HexCell) {
    c.x == CentreX(e, s, c.row, c.col) && c.y == CentreY(e, s, c.row) && Inside(e, s, c.row, c.col)
  }

  /** Row-major order of lattice positions. */
  predicate Precedes(a: HexCell, b: HexCell) {
    a.row < b.row || (a.row == b.row && a.col < b.col)
  }

  /** `b` is the centre the loops emit right after `a`: the next column, or the first of a later row. */
  predicate Follows(a: HexCell, b: HexCell) {
    (b.row == a.row && b.col == a.col + 1) || (b.row > a.row && b.col == 0)
  }

  /**
    The inner loop from column `col` on, at `x`: one centre per pass while
    `x < x_max`, each taking the next id.
  */
  function RowFrom(e: Extent, s: HexSize, x: real, y: real, row: nat, col: nat, nextId: nat): (r: seq<HexCell>)
    requires s.Valid() && x == CentreX(e, s, row, col) && y == CentreY(e, s, row)
    decreases StepCount(x, e.xMax, s.ColumnStep())
  {
    if x < e.xMax then
      StepCountShrinks(x, e.xMax, s.ColumnStep());
      [HexCell(x, y, row, col, nextId)] + RowFrom(e, s, x + s.ColumnStep(), y, row, col + 1, nextId + 1)
    else
      []
  }

  /**
    The inner loop emits the consecutive columns from `col` on, with
    consecutive ids, each centre left of `x_max`, and stops at the first
    column whose centre is not.
  */
  lemma {:induction false} RowFromFacts(e: Extent, s: HexSize, x: real, y: real, row: nat, col: nat, nextId: nat)
    requires s.Valid() && x == CentreX(e, s, row, col) && y == CentreY(e, s, row)
    ensures var r := RowFrom(e, s, x, y, row, col, nextId);
      && (forall k :: 0 <= k < |r| ==> r[k] == HexCell(CentreX(e, s, row, col + k), y, row, col + k, nextId + k))
      && (forall k :: 0 <= k < |r| ==> r[k].x < e.xMax)
      && e.xMax <= CentreX(e, s, row, col + |r|)
    decreases StepCount(x, e.xMax, s.ColumnStep())
  {
    if x < e.xMax {
      StepCountShrinks(x, e.xMax, s.ColumnStep());
      var rest := RowFrom(e, s, x + s.ColumnStep(), y, row, col + 1, nextId + 1);
      RowFromFacts(e, s, x + s.ColumnStep(), y, row, col + 1, nextId + 1);
      RowFromStep(e, s, x, y, row, col, nextId);
      var r := [HexCell(x, y, row, col, nextId)] + rest;
      forall k | 0 <= k < |r|
        ensures r[k] == HexCell(CentreX(e, s, row, col + k), y, row, col + k, nextId + k)
        ensures r[k].x < e.xMax
      {
        if k > 0 {
          assert r[k] == rest[k - 1];
        }
      }
    }
  }

  /** One pass of the inner loop. */
  lemma RowFromStep(e: Extent, s: HexSize, x: real, y: real, row: nat, col: nat, nextId: nat)
    requires s.Valid() && x == CentreX(e, s, row, col) && y == CentreY(e, s, row) && x < e.xMax
    ensures RowFrom(e, s, x, y, row, col, nextId)
      == [HexCell(x, y, row, col, nextId)] + RowFrom(e, s, x + s.ColumnStep(), y, row, col + 1, nextId + 1)
  {
  }

  /**
    The outer loop from row `row` on, at `y`: while `y < y_max`, the row's
    centres starting at its staggered x, then the next row. What it emits is
    stated by `RowsFromFacts`.
  */
  function RowsFrom(e: Extent, s: HexSize, y: real, row: nat, nextId: nat): (r: seq<HexCell>)
    requires s.Valid() && y == CentreY(e, s, row)
    decreases StepCount(y, e.yMax, s.RowStep())
  {
    if y < e.yMax then
      StepCountShrinks(y, e.yMax, s.RowStep());
      RowFrom(e, s, RowStartX(e, s, row), y, row, 0, nextId)
        + RowsFrom(e, s, y + s.RowStep(), row + 1, nextId + |RowFrom(e, s, RowStartX(e, s, row), y, row, 0, nextId)|)
    else
      []
  }

  /**
    What the outer loop emits from row `row` on, with ids from `nextId`:
    dense ids, placed centres no lower than `row`, a first centre in column 0,
    and each centre following its predecessor.
  */
  ghost predicate RowsShape(e: Extent, s: HexSize, row: nat, nextId: nat, r: seq<HexCell>) {
    && (forall k :: 0 <= k < |r| ==> r[k].id == nextId + k)
    && (forall k :: 0 <= k < |r| ==> row <= r[k].row && Placed(e, s, r[k]))
    && (|r| > 0 ==> r[0].col == 0)
    && (forall i, j {:trigger r[i], r[j]} :: 0 <= i < j < |r| && j == i + 1 ==> Follows(r[i], r[j]))
  }

  /** What the inner loop emits for a whole row: columns 0, 1, … in order, with ids from `nextId`. */
  ghost predicate RowShape(e: Extent, s: HexSize, y: real, row: nat, nextId: nat, r: seq<HexCell>) {
    forall k :: 0 <= k < |r| ==> r[k] == HexCell(CentreX(e, s, row, k), y, row, k, nextId + k) && r[k].x < e.xMax
  }

  lemma WholeRowFacts(e: Extent, s: HexSize, y: real, row: nat, nextId: nat)
    requires s.Valid() && y == CentreY(e, s, row)
    ensures RowShape(e, s, y, row, nextId, RowFrom(e, s, RowStartX(e, s, row), y, row, 0, nextId))
  {
    RowFromFacts(e, s, RowStartX(e, s, row), y, row, 0, nextId);
  }

  lemma {:induction false} RowsFromFacts(e: Extent, s: HexSize, y: real, row: nat, nextId: nat)
    requires s.Valid() && y == CentreY(e, s, row)
    ensures RowsShape(e, s, row, nextId, RowsFrom(e, s, y, row, nextId))
    decreases StepCount(y, e.yMax, s.RowStep())
  {
    if y < e.yMax {
      StepCountShrinks(y, e.yMax, s.RowStep());
      var here := RowFrom(e, s, RowStartX(e, s, row), y, row, 0, nextId);
      var rest := RowsFrom(e, s, y + s.RowStep(), row + 1, nextId + |here|);
      RowsFromStep(e, s, y, row, nextId);
      RowsFromFacts(e, s, y + s.RowStep(), row + 1, nextId + |here|);
      WholeRowFacts(e, s, y, row, nextId);
      JoinRows(e, s, y, row, nextId, here, rest);
      assert RowsFrom(e, s, y, row, nextId) == here + rest;
    } else {
      assert RowsFrom(e, s, y, row, nextId) == [];
    }
  }

  /** A row followed by the rows above it has the shape of the rows from that row on. */
  lemma JoinRows(e: Extent, s: HexSize, y: real, row: nat, nextId: nat, here: seq<HexCell>, rest: seq<HexCell>)
    requires y == CentreY(e, s, row) && y < e.yMax
    requires RowShape(e, s, y, row, nextId, here)
    requires RowsShape(e, s, row + 1, nextId + |here|, rest)
    ensures RowsShape(e, s, row, nextId, here + rest)
  {
    var r := here + rest;
    forall k | 0 <= k < |r|
      ensures r[k].id == nextId + k
      ensures row <= r[k].row && Placed(e, s, r[k])
    {
      if k < |here| {
        assert r[k] == here[k];
      } else {
        assert r[k] == rest[k - |here|];
      }
    }
    forall i, j | 0 <= i < j < |r| && j == i + 1
      ensures Follows(r[i], r[j])
    {
      if j < |here| {
        assert r[i] == here[i] && r[j] == here[j];
      } else if j == |here| {
        assert r[i] == here[i] && r[j] == rest[0];
      } else {
        assert r[i] == rest[i - |here|] && r[j] == rest[j - |here|];
      }
    }
  }

  /** One pass of the outer loop. */
  lemma RowsFromStep(e: Extent, s: HexSize, y: real, row: nat, nextId: nat)
    requires s.Valid() && y == CentreY(e, s, row) && y < e.yMax
    ensures var here := RowFrom(e, s, RowStartX(e, s, row), y, row, 0, nextId);
      RowsFrom(e, s, y, row, nextId) == here + RowsFrom(e, s, y + s.RowStep(), row + 1, nextId + |here|)
  {
  }

  /** A chain of `Follows` steps is in strictly increasing row-major order. */
  lemma {:induction false} FollowsChainOrdered(r: seq<HexCell>, lo: nat, hi: nat)
    requires forall i, j {:trigger r[i], r[j]} :: 0 <= i < j < |r| && j == i + 1 ==> Follows(r[i], r[j])
    requires lo < hi < |r|
    ensures Precedes(r[lo], r[hi])
    decreases hi - lo
  {
    if hi > lo + 1 {
      FollowsChainOrdered(r, lo, hi - 1);
      assert Follows(r[hi - 1], r[hi]);
    } else {
      assert Follows(r[lo], r[hi]);
    }
  }

  /** The centres the grid generator emits for extent `e`, in emission order. */
  function Cells(e: Extent, s: HexSize): (r: seq<HexCell>)
    requires s.Valid()
    // dense sequential ids 0, 1, ..., |r| - 1 in emission order
    ensures forall k :: 0 <= k < |r| ==> r[k].id == k
    // even rows start at x_min and odd rows 0.75 * width further right;
    // columns advance by 1.5 * width and rows by 0.5 * height
    ensures forall k :: 0 <= k < |r| ==>
      && r[k].x == e.xMin + s.RowOffset(r[k].row) + r[k].col as real * s.ColumnStep()
      && r[k].y == e.yMin + r[k].row as real * s.RowStep()
    // every centre lies in the half-open extent
    ensures forall k :: 0 <= k < |r| ==>
      e.xMin <= r[k].x < e.xMax && e.yMin <= r[k].y < e.yMax
  {
    var r := RowsFrom(e, s, e.yMin, 0, 0);
    RowsFromFacts(e, s, e.yMin, 0, 0);
    Placement(e, s, r);
    r
  }

  /**
    Emission order: row-major, so no lattice position is emitted twice; each
    centre is the next column of its predecessor's row, one column step to
    the right at equal height, or the first centre of a higher row.
  */
  lemma CellsOrder(e: Extent, s: HexSize)
    requires s.Valid()
    ensures var r := Cells(e, s);
      forall i, j :: 0 <= i < j < |r| ==> Precedes(r[i], r[j])
    ensures var r := Cells(e, s);
      forall i, j {:trigger r[i], r[j]} :: 0 <= i < j < |r| && j == i + 1 ==>
        && Follows(r[i], r[j])
        && if r[j].row == r[i].row then r[j].x == r[i].x + s.ColumnStep() && r[j].y == r[i].y
           else r[j].y > r[i].y
  {
    var r := Cells(e, s);
    RowsFromFacts(e, s, e.yMin, 0, 0);
    Neighbours(e, s, r);
    forall i, j | 0 <= i < j < |r| ensures Precedes(r[i], r[j]) {
      FollowsChainOrdered(r, i, j);
    }
  }

  /** Coordinates of placed centres. */
  lemma Placement(e: Extent, s: HexSize, r: seq<HexCell>)
    requires s.Valid()
    requires forall k :: 0 <= k < |r| ==> Placed(e, s, r[k])
    ensures forall k :: 0 <= k < |r| ==>
      && r[k].x == e.xMin + s.RowOffset(r[k].row) + r[k].col as real * s.ColumnStep()
      && r[k].y == e.yMin + r[k].row as real * s.RowStep()
    ensures forall k :: 0 <= k < |r| ==>
      e.xMin <= r[k].x < e.xMax && e.yMin <= r[k].y < e.yMax
  {
    forall k | 0 <= k < |r|
      ensures r[k].x == e.xMin + s.RowOffset(r[k].row) + r[k].col as real * s.ColumnStep()
      ensures r[k].y == e.yMin + r[k].row as real * s.RowStep()
      ensures e.xMin <= r[k].x < e.xMax && e.yMin <= r[k].y < e.yMax
    {
      var c := r[k];
      OffsetClosedForm(RowStartX(e, s, c.row), s.ColumnStep(), c.col);
      OffsetClosedForm(e.yMin, s.RowStep(), c.row);
      if c.col > 0 {
        OffsetIncreasing(RowStartX(e, s, c.row), s.ColumnStep(), 0, c.col);
      }
      if c.row > 0 {
        OffsetIncreasing(e.yMin, s.RowStep(), 0, c.row);
      }
    }
  }

  /** Consecutive placed centres emitted in loop order. */
  lemma Neighbours(e: Extent, s: HexSize, r: seq<HexCell>)
    requires s.Valid()
    requires forall k :: 0 <= k < |r| ==> Placed(e, s, r[k])
    requires forall i, j {:trigger r[i], r[j]} :: 0 <= i < j < |r| && j == i + 1 ==> Follows(r[i], r[j])
    ensures forall i, j {:trigger r[i], r[j]} :: 0 <= i < j < |r| && j == i + 1 ==> 
      if r[j].row == r[i].row then r[j].x == r[i].x + s.ColumnStep() && r[j].y == r[i].y
      else r[j].y > r[i].y
  {
    forall i, j | 0 <= i < j < |r| && j == i + 1
      ensures if r[j].row == r[i].row then r[j].x == r[i].x + s.ColumnStep() && r[j].y == r[i].y
              else r[j].y > r[i].y
    {
      assert Follows(r[i], r[j]);
      if r[j].row != r[i].row {
        OffsetIncreasing(e.yMin, s.RowStep(), r[i].row, r[j].row);
      }
    }
  }

  /** Centres one row apart are exactly half a hexagon height apart vertically. */
  lemma RowSpacing(e: Extent, s: HexSize, i: nat, j: nat)
    requires s.Valid() && i < |Cells(e, s)| && j < |Cells(e, s)|
    requires Cells(e, s)[j].row == Cells(e, s)[i].row + 1
    ensures Cells(e, s)[j].y == Cells(e, s)[i].y + 0.5 * s.height
  {
    var r := Cells(e, s);
    assert Offset(e.yMin, s.RowStep(), r[j].row) == Offset(e.yMin, s.RowStep(), r[i].row) + s.RowStep();
  }

  /** Every column from `col` on whose centre lies left of `x_max` is emitted by `RowFrom`. */
  lemma RowFromComplete(e: Extent, s: HexSize, x: real, y: real, row: nat, col: nat, nextId: nat, c: nat)
    returns (k: nat)
    requires s.Valid() && x == CentreX(e, s, row, col) && y == CentreY(e, s, row)
    requires col <= c && CentreX(e, s, row, c) < e.xMax
    ensures k < |RowFrom(e, s, x, y, row, col, nextId)|
    ensures RowFrom(e, s, x, y, row, col, nextId)[k].col == c
  {
    var r := RowFrom(e, s, x, y, row, col, nextId);
    RowFromFacts(e, s, x, y, row, col, nextId);
    OffsetOrder(RowStartX(e, s, row), s.ColumnStep(), c, col + |r|);
    k := c - col;
  }

  /** Every lattice position inside the extent at row `row` or later is emitted by `RowsFrom`. */
  lemma {:induction false} RowsFromComplete(e: Extent, s: HexSize, y: real, row: nat, nextId: nat, rr: nat, c: nat)
    returns (k: nat)
    requires s.Valid() && y == CentreY(e, s, row)
    requires row <= rr && Inside(e, s, rr, c)
    ensures k < |RowsFrom(e, s, y, row, nextId)|
    ensures RowsFrom(e, s, y, row, nextId)[k].row == rr && RowsFrom(e, s, y, row, nextId)[k].col == c
    decreases StepCount(y, e.yMax, s.RowStep())
  {
    if row < rr {
      OffsetIncreasing(e.yMin, s.RowStep(), row, rr);
    }
    assert y < e.yMax;
    var x := e.xMin + s.RowOffset(row);
    var here := RowFrom(e, s, x, y, row, 0, nextId);
    var rest := RowsFrom(e, s, y + s.RowStep(), row + 1, nextId + |here|);
    RowsFromStep(e, s, y, row, nextId);
    if rr == row {
      var j := RowFromComplete(e, s, x, y, row, 0, nextId, c);
      RowFromFacts(e, s, x, y, row, 0, nextId);
      k := j;
      assert (here + rest)[k] == here[j];
    } else {
      StepCountShrinks(y, e.yMax, s.RowStep());
      var j := RowsFromComplete(e, s, y + s.RowStep(), row + 1, nextId + |here|, rr, c);
      k := |here| + j;
      assert (here + rest)[k] == rest[j];
    }
  }

  /**
    A lattice position is emitted exactly when its centre lies below both
    upper bounds of the extent, and then at exactly one index.
  */
  lemma CellsExactlyInside(e: Extent, s: HexSize, row: nat, col: nat)
    requires s.Valid()
    ensures (exists k :: 0 <= k < |Cells(e, s)| && Cells(e, s)[k].row == row && Cells(e, s)[k].col == col)
            <==> Inside(e, s, row, col)
    ensures forall i, j :: 0 <= i < j < |Cells(e, s)| ==>
      Cells(e, s)[i].row != Cells(e, s)[j].row || Cells(e, s)[i].col != Cells(e, s)[j].col
  {
    var r := Cells(e, s);
    if Inside(e, s, row, col) {
      var k := RowsFromComplete(e, s, e.yMin, 0, 0, row, col);
      assert r[k].row == row && r[k].col == col;
    }
    forall k | 0 <= k < |r| && r[k].row == row && r[k].col == col
      ensures Inside(e, s, row, col)
    {
      OffsetClosedForm(RowStartX(e, s, row), s.ColumnStep(), col);
      OffsetClosedForm(e.yMin, s.RowStep(), row);
    }
    CellsOrder(e, s);
    forall i, j | 0 <= i < j < |r| ensures r[i].row != r[j].row || r[i].col != r[j].col {
      assert Precedes(r[i], r[j]);
    }
  }

  /** Rows with no room for a first centre contribute nothing, and the row loop still ends. */
  lemma {:induction false} NoColumnsNoCells(e: Extent, s: HexSize, y: real, row: nat, nextId: nat)
    requires s.Valid() && y == CentreY(e, s, row) && e.xMax <= e.xMin
    ensures RowsFrom(e, s, y, row, nextId) == []
    decreases StepCount(y, e.yMax, s.RowStep())
  {
    if y < e.yMax {
      RowsFromStep(e, s, y, row, nextId);
      StepCountShrinks(y, e.yMax, s.RowStep());
      NoColumnsNoCells(e, s, y + s.RowStep(), row + 1, nextId);
    }
  }

  /** An extent with no width or no height gets no centres. */
  lemma EmptyExtentHasNoCells(e: Extent, s: HexSize)
    requires s.Valid() && (e.xMax <= e.xMin || e.yMax <= e.yMin)
    ensures Cells(e, s) == []
  {
    if e.xMax <= e.xMin {
      NoColumnsNoCells(e, s, e.yMin, 0, 0);
    }
  }

  lemma AppendAssoc<T>(a: seq<T>, b: seq<T>, c: seq<T>)
    ensures a + (b + c) == (a + b) + c
  {
  }

  /**
    The script's inner `while` loop for one row at height `y`: `x` starts at
    `x_min`, shifted by `0.75 * width` on odd rows, and grows by
    `1.5 * width` per centre while it stays below `x_max`; each centre takes
    the next `feature_id`.
  */
  method EnumerateRow(e: Extent, s: HexSize, y: real, row: nat, firstId: nat) returns (rowCells: seq<HexCell>)
    requires s.Valid() && y == CentreY(e, s, row)
    ensures rowCells == RowFrom(e, s, RowStartX(e, s, row), y, row, 0, firstId)
  {
    rowCells := [];
    var featureId := firstId;
    var x := e.xMin;
    if row % 2 == 1 {
      x := x + s.width * 0.75;
    }
    var col: nat := 0;
    while x < e.xMax
      invariant x == CentreX(e, s, row, col)
      invariant featureId == firstId + col && |rowCells| == col
      invariant rowCells + RowFrom(e, s, x, y, row, col, featureId)
             == RowFrom(e, s, RowStartX(e, s, row), y, row, 0, firstId)
      decreases StepCount(x, e.xMax, s.ColumnStep())
    {
      RowFromStep(e, s, x, y, row, col, featureId);
      StepCountShrinks(x, e.xMax, s.ColumnStep());
      AppendAssoc(rowCells, [HexCell(x, y, row, col, featureId)],
                  RowFrom(e, s, x + s.ColumnStep(), y, row, col + 1, featureId + 1));
      rowCells := rowCells + [HexCell(x, y, row, col, featureId)];
      featureId := featureId + 1;
      x := x + s.width * 1.5;
      col := col + 1;
    }
  }

  /** Appending one emitted row keeps the outer loop's invariant. */
  lemma NextRow(e: Extent, s: HexSize, y: real, row: nat, cells: seq<HexCell>, rowCells: seq<HexCell>)
    requires s.Valid() && y == CentreY(e, s, row) && y < e.yMax
    requires rowCells == RowFrom(e, s, RowStartX(e, s, row), y, row, 0, |cells|)
    ensures cells + RowsFrom(e, s, y, row, |cells|)
         == (cells + rowCells) + RowsFrom(e, s, y + s.RowStep(), row + 1, |cells + rowCells|)
  {
    RowsFromStep(e, s, y, row, |cells|);
    AppendAssoc(cells, rowCells, RowsFrom(e, s, y + s.RowStep(), row + 1, |cells| + |rowCells|));
  }

  /**
    The script's outer `while` loop: `y` starts at `y_min` and grows by
    `0.5 * height` per row while it stays below `y_max`; ids run on across
    rows.
  */
  method EnumerateCentres(e: Extent, s: HexSize) returns (cells: seq<HexCell>)
    requires s.Valid()
    ensures cells == Cells(e, s)
  {
    cells := [];
    var y := e.yMin;
    var row: nat := 0;
    while y < e.yMax
      invariant y == CentreY(e, s, row)
      invariant cells + RowsFrom(e, s, y, row, |cells|) == RowsFrom(e, s, e.yMin, 0, 0)
      decreases StepCount(y, e.yMax, s.RowStep())
    {
      var rowCells := EnumerateRow(e, s, y, row, |cells|);
      NextRow(e, s, y, row, cells, rowCells);
      cells := cells + rowCells;
      StepCountShrinks(y, e.yMax, s.RowStep());
      y := y + s.height * 0.5;
      row := row + 1;
    }
    assert RowsFrom(e, s, y, row, |cells|) == [];
    assert cells + [] == cells;
  }
}
