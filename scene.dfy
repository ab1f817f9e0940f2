/**
 * The program's global state and the functions that work on it: the grid
 * populateGrid lays out, the queue of active cells, the balls, the scene
 * bounds, the null cell findSquare returns when it finds nothing, and the
 * cell most recently found. The driver advances the balls, activates the
 * cells they touch and hands the queue to draw, which empties it.
 */
module Engine {

  import opened Vectors
  import opened Config
  import opened States
  import opened Bounds
  import opened Balls
  import opened Squares
  import opened Grid

  /**
   * What draw emits for one queued cell: the cell's top-left corner (the
   * translation), its colour, and the index into squareStateLookup of the
   * triangles it draws.
   */
  datatype Rendered = Rendered(origin: Vec3, color: Vec4, shape: int)

  class Scene {
    const grid: seq<seq<MarchingSquare>>
    var activeSquares: seq<MarchingSquare>
    var balls: seq<Ball>
    const sceneBounds: SceneBounds
    const nullSqr: MarchingSquare
    var centerSquare: MarchingSquare?

    /**
     * The globals once main has populated the grid: every cell laid out,
     * blue and EMPTY, each a new object, no active cells, the given balls.
     */
    constructor (roster: seq<Ball>)
      ensures WellFormed(grid) && AllEmpty()
      ensures forall c :: c in CellsOf(grid) ==> fresh(c)
      ensures forall i, j :: 0 <= i < |grid| && 0 <= j < |grid[i]| ==> grid[i][j].color == DefaultColor
      ensures activeSquares == [] && balls == roster && centerSquare == null
      ensures sceneBounds == TheSceneBounds
      ensures nullSqr.row == -1 && nullSqr.col == -1 && nullSqr.p0 == Zero
      ensures nullSqr.color == DefaultColor && nullSqr.state == Empty
    {
      var cells := PopulateGrid();
      grid := cells;
      activeSquares := [];
      balls := roster;
      sceneBounds := TheSceneBounds;
      nullSqr := new MarchingSquare(-1, -1, Zero, DefaultColor, Empty);
      centerSquare := null;
    }

    /** Cell s is the one stored at the index its row and column name. */
    predicate IsGridCell(s: MarchingSquare)
    {
      0 <= s.row - 1 < |grid| && 0 <= s.col < |grid[s.row - 1]| && grid[s.row - 1][s.col] == s
    }

    /** Every cell is in state EMPTY. */
    ghost predicate AllEmpty()
      reads this, CellsOf(grid)
    {
      forall c {:trigger c in CellsOf(grid)} :: c in CellsOf(grid) ==> c.state == Empty
    }

    /** The ball vector holds each ball once (it holds them by value). */
    ghost predicate BallsDistinct()
      reads this
    {
      forall a, b :: 0 <= a < b < |balls| ==> balls[a] != balls[b]
    }

    /** The positions of the balls in bs, in order. */
    ghost function PositionsOf(bs: seq<Ball>): (ps: seq<Vec3>)
      reads bs
      ensures |ps| == |bs| && forall k :: 0 <= k < |bs| ==> ps[k] == bs[k].position
    {
      if bs == [] then [] else PositionsOf(bs[..|bs| - 1]) + [bs[|bs| - 1].position]
    }

    /** The balls' positions, in order. */
    ghost function Positions(): (ps: seq<Vec3>)
      reads this`balls, balls
      ensures |ps| == |balls| && forall k :: 0 <= k < |balls| ==> ps[k] == balls[k].position
    {
      PositionsOf(balls)
    }

    /** The passes of the balls where they stand, in order. */
    ghost function BallPasses(): (passes: seq<Pass>)
      reads this`balls, balls
      requires Rectangular(grid)
      ensures |passes| == |balls|
    {
      Passes(grid, balls, Positions())
    }

    /**
     * The centre cell after searches whose last find is `last`: the cell at
     * that index, or `before` when no search found one.
     */
    ghost predicate CentreIsLast(centre: MarchingSquare?, before: MarchingSquare?, last: Found)
    {
      (last.NotFound? ==> centre == before) &&
      (last.FoundAt? ==> centre != null && IsGridCell(centre) && IndexOf(centre) == last)
    }

    /** A search that finds nothing leaves the centre cell as it was; one that finds a cell makes it the centre. */
    lemma CentreStep(c0: MarchingSquare?, c1: MarchingSquare?, c2: MarchingSquare?, last: Found, found: Found)
      requires CentreIsLast(c1, c0, last) && CentreIsLast(c2, c1, found)
      ensures CentreIsLast(c2, c0, if found.FoundAt? then found else last)
    {
    }

    /**
     * A centre cell that is the last find of the balls' searches contains
     * the position of one of the balls.
     */
    lemma CentreContainsSomeBall(before: MarchingSquare?)
      requires WellFormed(grid)
      requires CentreIsLast(centerSquare, before, LastFound(Searches(Positions())))
      ensures centerSquare == before ||
        (centerSquare != null && IsGridCell(centerSquare) &&
         exists k :: 0 <= k < |balls| && centerSquare.Contains(balls[k].position))
    {
      var ps := Positions();
      CentreContainsSomePosition(centerSquare, before, ps);
      if centerSquare != before {
        var k :| 0 <= k < |ps| && centerSquare.Contains(ps[k]);
        assert ps[k] == balls[k].position;
      }
    }

    /**
     * A centre cell that is the last find of the searches for ps contains
     * one of the positions in ps.
     */
    lemma CentreContainsSomePosition(centre: MarchingSquare?, before: MarchingSquare?, ps: seq<Vec3>)
      requires WellFormed(grid)
      requires CentreIsLast(centre, before, LastFound(Searches(ps)))
      ensures centre == before ||
        (centre != null && IsGridCell(centre) && exists k :: 0 <= k < |ps| && centre.Contains(ps[k]))
    {
      var last := LastFound(Searches(ps));
      if last.FoundAt? {
        LastFoundIsLast(Searches(ps));
        var k :| 0 <= k < |ps| && last == Searches(ps)[k];
        assert last == FoundIndex(ps[k]);
        assert centre == grid[last.i][last.j];
        ContainsAtIndex(grid, last.i, last.j, ps[k]);
      }
    }

    /** The grid index a search result names: none for the null cell, (row - 1, col) otherwise. */
    ghost function IndexOf(s: MarchingSquare): Found
    {
      if s == nullSqr then NotFound else FoundAt(s.row - 1, s.col)
    }

    /**
     * findSquare: from the guessed cell, probe the rows within 4 of its
     * stored row and the columns within 4 of its column that pass the guard,
     * replace the result by each probed cell that contains pos, and leave a
     * row as soon as a cell has been found. The result is the cell at
     * FoundIndex(pos), or the null cell when that is NotFound: a probed grid
     * cell containing pos, or the null cell exactly when no probed cell
     * contains pos.
     */
    method FindSquare(pos: Vec3) returns (found: MarchingSquare)
      requires WellFormed(grid) && nullSqr.row == -1
      requires Approximable(pos)
      ensures IndexOf(found) == FoundIndex(pos)
      ensures found != nullSqr ==>
        IsGridCell(found) && Searched(pos, found.row - 1, found.col) && found.Contains(pos)
      ensures found == nullSqr <==> forall i, j :: Searched(pos, i, j) ==> !CellContains(i, j, pos)
    {
      found := nullSqr;
      var origin := grid[ApproxRow(pos)][ApproxCol(pos)];
      assert CellAt(origin, ApproxRow(pos), ApproxCol(pos));
      ghost var jlo, jhi := ApproxCol(pos) - 4, ApproxCol(pos) + 5;
      var i := origin.row - 4;
      while i <= origin.row + 4
        invariant origin.row - 4 <= i <= origin.row + 5
        invariant found == nullSqr || IsGridCell(found)
        invariant ScanRows(pos, i, origin.row + 5, jlo, jhi, IndexOf(found)) == FoundIndex(pos)
      {
        ghost var before := IndexOf(found);
        found := SearchRow(pos, i, origin.col, found);
        assert ScanRows(pos, i, origin.row + 5, jlo, jhi, before) ==
               ScanRows(pos, i + 1, origin.row + 5, jlo, jhi, IndexOf(found));
        i := i + 1;
      }
      assert IndexOf(found) == FoundIndex(pos);
      if found != nullSqr {
        ContainsAtIndex(grid, found.row - 1, found.col, pos);
      }
    }

    /**
     * findSquare's inner loop over grid row i: probe the columns within 4 of
     * col that pass the guard, replace the carried result by each probed cell
     * that contains pos, and leave the row at the first probed column once a
     * cell has been found (found on entry counts). The result is the one
     * ScanRow gives.
     */
    method SearchRow(pos: Vec3, i: int, col: int, found0: MarchingSquare) returns (found: MarchingSquare)
      requires WellFormed(grid) && nullSqr.row == -1
      ensures found == found0 || IsGridCell(found)
      ensures IndexOf(found) == ScanRow(pos, i, col - 4, col + 5, IndexOf(found0))
    {
      found := found0;
      var j := col - 4;
      while j <= col + 4
        invariant col - 4 <= j <= col + 5
        invariant found == found0 || IsGridCell(found)
        invariant ScanRow(pos, i, j, col + 5, IndexOf(found)) == ScanRow(pos, i, col - 4, col + 5, IndexOf(found0))
      {
        if i < Dimension + 1 && i > 0 && j < Dimension + 1 && j > 0 {
          ContainsAtIndex(grid, i, j, pos);
          if grid[i][j].Contains(pos) {
            assert CellAt(grid[i][j], i, j);
            found := grid[i][j];
          }
          if found != nullSqr {
            break;
          }
        }
        j := j + 1;
      }
    }

    /**
     * activateSquare: colour the cell with the ball's colour, OR in the state
     * the corner mask selects, and queue the cell (once per call, so a cell
     * activated twice is queued twice).
     */
    method ActivateSquare(square: MarchingSquare, ball: Ball, state: int)
      modifies square, this`activeSquares
      ensures square.color == ball.color
      ensures square.state == Merge(old(square.state), StateForMask(state))
      ensures activeSquares == old(activeSquares) + [square]
    {
      square.Activate(ball.color, StateForMask(state));
      activeSquares := activeSquares + [square];
    }

    /**
     * The corner test in resolveSquareStates' inner loop: one bit per corner
     * of the cell that lies inside the ball, 1 for p0, 2 for p1, 4 for p2
     * and 8 for p3.
     */
    method CornerState(ball: Ball, cell: MarchingSquare, ghost i: int, ghost j: int, ghost masks: (int, int) -> bv4)
      returns (state: bv4)
      requires CellAt(cell, i, j) && MasksOf(masks, ball.position, ball.radius)
      ensures state == CornerMask(ball.position, ball.radius, cell.p0, cell.p1, cell.p2, cell.p3)
      ensures state == masks(i, j)
    {
      MaskOfCell(cell, ball.position, ball.radius, i, j);
      state := 0;
      if Contains(ball.position, ball.radius, cell.p0) {
        state := state | 1;
      }
      if Contains(ball.position, ball.radius, cell.p1) {
        state := state | 2;
      }
      if Contains(ball.position, ball.radius, cell.p2) {
        state := state | 4;
      }
      if Contains(ball.position, ball.radius, cell.p3) {
        state := state | 8;
      }
    }

    /**
     * One iteration of resolveSquareStates' inner loop, at index (i, j): past
     * the guard, compute the mask of the cell's corners inside the ball and,
     * if it is not zero, activate the cell with it. The ghost parameter masks
     * names the corner mask of every index; the precondition ties it to the
     * ball's geometry.
     */
    method ResolveCell(ball: Ball, i: int, j: int, ghost masks: (int, int) -> bv4)
      requires WellFormed(grid)
      requires MasksOf(masks, ball.position, ball.radius)
      modifies CellsOf(grid), this`activeSquares
      ensures activeSquares == old(activeSquares) + VisitCell(grid, masks, i, j)
      ensures forall c {:trigger c in CellsOf(grid)} :: c in CellsOf(grid) ==>
        c.color == (if Hit(masks, c.row - 1, c.col, i, i + 1, j, j + 1) then ball.color else old(c.color)) &&
        c.state == (if Hit(masks, c.row - 1, c.col, i, i + 1, j, j + 1) then Merge(old(c.state), MaskState(masks(c.row - 1, c.col))) else old(c.state))
    {
      if i < Dimension + 1 && i > 0 && j < Dimension + 1 && j > 0 {
        var cell := grid[i][j];
        assert CellAt(cell, i, j);
        var state := CornerState(ball, cell, i, j, masks);
        MaskStateAgrees(state);
        OtherCellsElsewhere(grid, i, j);
        if state != 0 {
          ActivateSquare(cell, ball, state as int);
        }
      }
    }

    /**
     * resolveSquareStates' inner loop over the columns of grid row i: the
     * cells of that row which the ball touches are activated left to right.
     */
    method ResolveRow(ball: Ball, square: MarchingSquare, i: int, ghost masks: (int, int) -> bv4)
      requires WellFormed(grid)
      requires MasksOf(masks, ball.position, ball.radius)
      modifies CellsOf(grid), this`activeSquares
      ensures activeSquares == old(activeSquares) +
        RowCells(grid, masks, i, WindowLo(square.col, ball.radius), WindowHi(square.col, ball.radius))
      ensures forall c {:trigger c in CellsOf(grid)} :: c in CellsOf(grid) ==>
        c.color == (if Hit(masks, c.row - 1, c.col, i, i + 1, WindowLo(square.col, ball.radius), WindowHi(square.col, ball.radius)) then ball.color else old(c.color)) &&
        c.state == (if Hit(masks, c.row - 1, c.col, i, i + 1, WindowLo(square.col, ball.radius), WindowHi(square.col, ball.radius)) then Merge(old(c.state), MaskState(masks(c.row - 1, c.col))) else old(c.state))
    {
      ghost var jlo, jhi := WindowLo(square.col, ball.radius), WindowHi(square.col, ball.radius);
      var j := square.col - ball.radius * 2;
      while j <= square.col + ball.radius * 2
        invariant jlo <= j && (j <= jhi || j == jlo)
        invariant activeSquares == old(activeSquares) + RowCells(grid, masks, i, jlo, j)
        invariant forall c {:trigger c in CellsOf(grid)} :: c in CellsOf(grid) ==>
          c.color == (if Hit(masks, c.row - 1, c.col, i, i + 1, jlo, j) then ball.color else old(c.color)) &&
          c.state == (if Hit(masks, c.row - 1, c.col, i, i + 1, jlo, j) then Merge(old(c.state), MaskState(masks(c.row - 1, c.col))) else old(c.state))
      {
        ResolveCell(ball, i, j, masks);
        AppendAssociates(old(activeSquares), RowCells(grid, masks, i, jlo, j), VisitCell(grid, masks, i, j));
        j := j + 1;
      }
      if j == jlo {
        assert RowCells(grid, masks, i, jlo, j) == RowCells(grid, masks, i, jlo, jhi);
      }
    }

    /**
     * resolveSquareStates: every cell of the window around `square` that
     * passes the guard and has a corner inside the ball is activated once,
     * in row-major order, with the mask of its corners; no other cell
     * changes.
     */
    method ResolveSquareStates(ball: Ball, square: MarchingSquare, ghost masks: (int, int) -> bv4)
      requires WellFormed(grid)
      requires MasksOf(masks, ball.position, ball.radius)
      modifies CellsOf(grid), this`activeSquares
      ensures activeSquares == old(activeSquares) +
        WindowCells(grid, masks, WindowLo(square.row, ball.radius), WindowHi(square.row, ball.radius),
                    WindowLo(square.col, ball.radius), WindowHi(square.col, ball.radius))
      ensures forall c {:trigger c in CellsOf(grid)} :: c in CellsOf(grid) ==>
        c.color == (if Hit(masks, c.row - 1, c.col, WindowLo(square.row, ball.radius), WindowHi(square.row, ball.radius), WindowLo(square.col, ball.radius), WindowHi(square.col, ball.radius)) then ball.color else old(c.color)) &&
        c.state == (if Hit(masks, c.row - 1, c.col, WindowLo(square.row, ball.radius), WindowHi(square.row, ball.radius), WindowLo(square.col, ball.radius), WindowHi(square.col, ball.radius)) then Merge(old(c.state), MaskState(masks(c.row - 1, c.col))) else old(c.state))
    {
      ghost var lo, hi := WindowLo(square.row, ball.radius), WindowHi(square.row, ball.radius);
      ghost var jlo, jhi := WindowLo(square.col, ball.radius), WindowHi(square.col, ball.radius);
      var i := square.row - ball.radius * 2;
      while i <= square.row + ball.radius * 2
        invariant lo <= i && (i <= hi || i == lo)
        invariant activeSquares == old(activeSquares) + WindowCells(grid, masks, lo, i, jlo, jhi)
        invariant forall c {:trigger c in CellsOf(grid)} :: c in CellsOf(grid) ==>
          c.color == (if Hit(masks, c.row - 1, c.col, lo, i, jlo, jhi) then ball.color else old(c.color)) &&
          c.state == (if Hit(masks, c.row - 1, c.col, lo, i, jlo, jhi) then Merge(old(c.state), MaskState(masks(c.row - 1, c.col))) else old(c.state))
      {
        ResolveRow(ball, square, i, masks);
        AppendAssociates(old(activeSquares), WindowCells(grid, masks, lo, i, jlo, jhi), RowCells(grid, masks, i, jlo, jhi));
        i := i + 1;
      }
      if i == lo {
        assert WindowCells(grid, masks, lo, i, jlo, jhi) == WindowCells(grid, masks, lo, hi, jlo, jhi);
      }
    }

    /**
     * draw's queue drain: pop each queued cell, render the triangles of
     * squareStateLookup at its state minus one (a cell queued a second time
     * was emptied at its first pop, so it renders FILLED), then empty it.
     */
    method Draw() returns (rendered: seq<Rendered>)
      requires forall k :: 0 <= k < |activeSquares| ==> activeSquares[k].state != TopLeft
      modifies this`activeSquares, activeSquares
      ensures activeSquares == []
      ensures |rendered| == |old(activeSquares)|
      ensures forall k {:trigger rendered[k]} :: 0 <= k < |rendered| ==>
        rendered[k] == Rendered(old(activeSquares)[k].p0, old(activeSquares[k].color),
                                if old(activeSquares)[k] in old(activeSquares)[..k] then Filled as int
                                else old(activeSquares[k].state) as int - 1)
      ensures forall c {:trigger c in old(activeSquares)} :: c in old(activeSquares) ==> c.state == Empty && c.color == old(c.color)
    {
      ghost var queue := activeSquares;
      rendered := [];
      while activeSquares != []
        invariant |rendered| <= |queue| && activeSquares == queue[|rendered|..]
        invariant forall k {:trigger rendered[k]} :: 0 <= k < |rendered| ==>
          rendered[k] == Rendered(queue[k].p0, old(queue[k].color),
                                  if queue[k] in queue[..k] then Filled as int else old(queue[k].state) as int - 1)
        invariant forall c {:trigger c in queue} :: c in queue ==> c.color == old(c.color)
        invariant forall c {:trigger c in queue} :: c in queue ==> c.state == if c in queue[..|rendered|] then Empty else old(c.state)
        decreases |activeSquares|
      {
        var square := activeSquares[0];
        ghost var n := |rendered|;
        assert square == queue[n] && square in queue;
        assert queue[..n + 1] == queue[..n] + [square];
        activeSquares := activeSquares[1..];
        rendered := rendered + [Rendered(square.p0, square.color, square.state as int - 1)];
        square.EmptyState();
      }
    }

    /**
     * The bounds check of the driver's first loop, on a ball that has just
     * moved: if its flag is clear and it is out of bounds, set the flag and
     * bounce it off the wall normal; otherwise, if the flag is set, clear it.
     */
    method CheckBounds(ball: Ball, draw: int)
      requires 1 <= draw <= 3
      modifies ball
      ensures ball.Motion() ==
        Settle(old(ball.outOfBounds), old(ball.position), old(ball.facing), ball.radius, sceneBounds, draw)
    {
      if !ball.outOfBounds && sceneBounds.OutOfBounds(ball.position, ball.radius) {
        ball.SetOutOfBounds();
        var normal := sceneBounds.WallNormal(ball.position, ball.radius);
        ball.Bounce(normal, draw);
      } else if ball.outOfBounds {
        ball.ClearOutOfBounds();
      }
    }

    /** One iteration of the driver's first loop: move the ball, then check the bounds. */
    method UpdateBall(ball: Ball, draw: int)
      requires 1 <= draw <= 3
      modifies ball
      ensures ball.Motion() == Tick(old(ball.Motion()), ball.radius, ball.speed, sceneBounds, draw)
    {
      ghost var m := ball.Motion();
      ball.Move();
      CheckBounds(ball, draw);
    }

    /** The driver's first loop: every ball takes one tick, ball k with draw draws[k]. */
    method MoveBalls(draws: seq<int>)
      requires BallsDistinct()
      requires |draws| == |balls| && ValidDraws(draws)
      modifies balls
      ensures forall k :: 0 <= k < |balls| ==>
        balls[k].Motion() == Tick(old(balls[k].Motion()), balls[k].radius, balls[k].speed, sceneBounds, draws[k])
    {
      var i := 0;
      while i < |balls|
        invariant 0 <= i <= |balls|
        invariant forall k :: 0 <= k < i ==>
          balls[k].Motion() == Tick(old(balls[k].Motion()), balls[k].radius, balls[k].speed, sceneBounds, draws[k])
        invariant forall k :: i <= k < |balls| ==> balls[k].Motion() == old(balls[k].Motion())
      {
        assert forall k :: 0 <= k < |balls| && k != i ==> balls[k] != balls[i];
        UpdateBall(balls[i], draws[i]);
        i := i + 1;
      }
    }

    /**
     * One iteration of the driver's second loop: find the cell containing the
     * ball's centre and, if there is one, make it the centre cell and resolve
     * the cells around it, queueing the touched cells of its window in
     * row-major order; otherwise nothing changes. Cells that start EMPTY stay
     * EMPTY, since EMPTY absorbs every activation, and every queued cell is a
     * grid cell.
     */
    method ResolveBall(ball: Ball) returns (epicenter: MarchingSquare)
      requires WellFormed(grid) && nullSqr.row == -1
      requires AllEmpty()
      requires forall k :: 0 <= k < |activeSquares| ==> activeSquares[k] in CellsOf(grid)
      requires Approximable(ball.position)
      modifies this`activeSquares, this`centerSquare, CellsOf(grid)
      ensures AllEmpty()
      ensures forall k :: 0 <= k < |activeSquares| ==> activeSquares[k] in CellsOf(grid)
      ensures epicenter == nullSqr ==>
        centerSquare == old(centerSquare) && activeSquares == old(activeSquares) &&
        forall i, j :: Searched(ball.position, i, j) ==> !CellContains(i, j, ball.position)
      ensures epicenter != nullSqr ==>
        centerSquare == epicenter && IsGridCell(epicenter) && epicenter.Contains(ball.position) &&
        activeSquares == old(activeSquares) +
          WindowCells(grid, CornerMasks(ball.position, ball.radius),
                      WindowLo(epicenter.row, ball.radius), WindowHi(epicenter.row, ball.radius),
                      WindowLo(epicenter.col, ball.radius), WindowHi(epicenter.col, ball.radius))
      ensures IndexOf(epicenter) == FoundIndex(ball.position)
      ensures forall c {:trigger c in CellsOf(grid)} :: c in CellsOf(grid) ==>
        c.color == (if epicenter != nullSqr &&
                       Hit(CornerMasks(ball.position, ball.radius), c.row - 1, c.col,
                           WindowLo(epicenter.row, ball.radius), WindowHi(epicenter.row, ball.radius),
                           WindowLo(epicenter.col, ball.radius), WindowHi(epicenter.col, ball.radius))
                    then ball.color else old(c.color))
    {
      epicenter := FindSquare(ball.position);
      if epicenter != nullSqr {
        centerSquare := epicenter;
        ghost var masks := CornerMasks(ball.position, ball.radius);
        ResolveSquareStates(ball, epicenter, masks);
        WindowCellsInGrid(grid, masks, WindowLo(epicenter.row, ball.radius), WindowHi(epicenter.row, ball.radius),
                          WindowLo(epicenter.col, ball.radius), WindowHi(epicenter.col, ball.radius));
        forall c {:trigger c in CellsOf(grid)} | c in CellsOf(grid) ensures c.state == Empty {
          EmptyAbsorbs(MaskState(masks(c.row - 1, c.col)));
        }
      }
    }

    /**
     * One iteration of the driver's second loop: ResolveBall for ball j. It
     * does what the ball's pass says: the pass's cells are queued after the
     * ones already queued, the cells at the pass's touched indices take the
     * ball's colour and every other cell keeps its colour. The centre cell
     * becomes the cell that ball's search finds, if it finds one.
     */
    method ResolveBallAt(j: nat)
      requires j < |balls|
      requires WellFormed(grid) && nullSqr.row == -1
      requires AllEmpty()
      requires forall k :: 0 <= k < |activeSquares| ==> activeSquares[k] in CellsOf(grid)
      requires Approximable(balls[j].position)
      modifies this`activeSquares, this`centerSquare, CellsOf(grid)
      ensures AllEmpty()
      ensures forall k :: 0 <= k < |activeSquares| ==> activeSquares[k] in CellsOf(grid)
      ensures CentreIsLast(centerSquare, old(centerSquare), FoundIndex(balls[j].position))
      ensures activeSquares == old(activeSquares) + PassOf(grid, balls[j].position, balls[j].radius, balls[j].color).queued
      ensures forall c {:trigger c in CellsOf(grid)} :: c in CellsOf(grid) ==>
        c.color == if (c.row - 1, c.col) in PassOf(grid, balls[j].position, balls[j].radius, balls[j].color).touched
                   then balls[j].color else old(c.color)
    {
      var ball := balls[j];
      var epicenter := ResolveBall(ball);
      PassOfWindow(grid, ball.position, ball.radius, ball.color);
      if epicenter == nullSqr {
        assert FoundIndex(ball.position).NotFound?;
      } else {
        assert FoundIndex(ball.position) == FoundAt(epicenter.row - 1, epicenter.col);
      }
    }

    /**
     * ResolveBallAt(j), seen through the searches of the balls at positions
     * ps: a centre cell that was the last find of the first j balls (or
     * before, when none found a cell) is afterwards the last find of the
     * first j + 1. The queue and the colours change as ball j's pass says.
     */
    method AdvanceCentre(j: nat, ghost before: MarchingSquare?, ghost ps: seq<Vec3>)
      requires j < |balls| == |ps| && ps[j] == balls[j].position
      requires WellFormed(grid) && nullSqr.row == -1
      requires AllEmpty()
      requires forall k :: 0 <= k < |activeSquares| ==> activeSquares[k] in CellsOf(grid)
      requires Approximable(balls[j].position)
      requires CentreIsLast(centerSquare, before, LastFound(Searches(ps[..j])))
      modifies this`activeSquares, this`centerSquare, CellsOf(grid)
      ensures AllEmpty()
      ensures forall k :: 0 <= k < |activeSquares| ==> activeSquares[k] in CellsOf(grid)
      ensures CentreIsLast(centerSquare, before, LastFound(Searches(ps[..j + 1])))
      ensures activeSquares == old(activeSquares) + PassOf(grid, balls[j].position, balls[j].radius, balls[j].color).queued
      ensures forall c {:trigger c in CellsOf(grid)} :: c in CellsOf(grid) ==>
        c.color == if (c.row - 1, c.col) in PassOf(grid, balls[j].position, balls[j].radius, balls[j].color).touched
                   then balls[j].color else old(c.color)
    {
      ghost var previous := centerSquare;
      SearchesStep(ps, j);
      ResolveBallAt(j);
      CentreStep(before, previous, centerSquare, LastFound(Searches(ps[..j])), FoundIndex(ps[j]));
    }

    /**
     * AdvanceCentre(j), seen through the passes of the balls at positions
     * ps: a queue that held q0 and then the cells of the first j passes
     * afterwards holds q0 and the cells of the first j + 1, and the colour
     * of every cell is the one the first j + 1 passes leave on its starting
     * colour in c0.
     */
    method ResolveStep(j: nat, ghost before: MarchingSquare?, ghost ps: seq<Vec3>, ghost passes: seq<Pass>,
                       ghost q0: seq<MarchingSquare>, ghost c0: map<MarchingSquare, Vec4>)
      requires j < |balls| == |ps| && ps[j] == balls[j].position
      requires Rectangular(grid) && passes == Passes(grid, balls, ps)
      requires WellFormed(grid) && nullSqr.row == -1
      requires AllEmpty()
      requires forall k :: 0 <= k < |activeSquares| ==> activeSquares[k] in CellsOf(grid)
      requires Approximable(balls[j].position)
      requires CentreIsLast(centerSquare, before, LastFound(Searches(ps[..j])))
      requires activeSquares == q0 + Queued(passes, j)
      requires forall c {:trigger c in CellsOf(grid)} :: c in CellsOf(grid) ==>
        c in c0 && c.color == ColourAfter(c.row - 1, c.col, passes, j, c0[c])
      modifies this`activeSquares, this`centerSquare, CellsOf(grid)
      ensures AllEmpty()
      ensures forall k :: 0 <= k < |activeSquares| ==> activeSquares[k] in CellsOf(grid)
      ensures CentreIsLast(centerSquare, before, LastFound(Searches(ps[..j + 1])))
      ensures activeSquares == q0 + Queued(passes, j + 1)
      ensures forall c {:trigger c in CellsOf(grid)} :: c in CellsOf(grid) ==>
        c in c0 && c.color == ColourAfter(c.row - 1, c.col, passes, j + 1, c0[c])
    {
      assert passes[j] == PassOf(grid, balls[j].position, balls[j].radius, balls[j].color);
      AdvanceCentre(j, before, ps);
      AppendAssociates(q0, Queued(passes, j), passes[j].queued);
    }

    /**
     * The driver's second loop, seen through the balls' positions ps, their
     * passes and the cells' colours c0 on entry: the queue gains the cells
     * of each pass, ball by ball, every cell ends with the colour the passes
     * leave on its colour in c0, and the centre cell ends as the last find
     * of the searches for ps, or as it was when none found a cell.
     */
    method ResolveEach(ghost ps: seq<Vec3>, ghost passes: seq<Pass>, ghost c0: map<MarchingSquare, Vec4>)
      requires WellFormed(grid) && nullSqr.row == -1
      requires AllEmpty()
      requires forall k :: 0 <= k < |activeSquares| ==> activeSquares[k] in CellsOf(grid)
      requires |ps| == |balls| && forall k :: 0 <= k < |balls| ==> ps[k] == balls[k].position && Approximable(ps[k])
      requires passes == Passes(grid, balls, ps)
      requires forall c {:trigger c in CellsOf(grid)} :: c in CellsOf(grid) ==> c in c0 && c0[c] == c.color
      modifies this`activeSquares, this`centerSquare, CellsOf(grid)
      ensures AllEmpty()
      ensures forall k :: 0 <= k < |activeSquares| ==> activeSquares[k] in CellsOf(grid)
      ensures activeSquares == old(activeSquares) + Queued(passes, |balls|)
      ensures forall c {:trigger c in CellsOf(grid)} :: c in CellsOf(grid) ==>
        c.color == ColourAfter(c.row - 1, c.col, passes, |balls|, c0[c])
      ensures CentreIsLast(centerSquare, old(centerSquare), LastFound(Searches(ps)))
    {
      var j := 0;
      while j < |balls|
        invariant 0 <= j <= |balls|
        invariant AllEmpty()
        invariant forall k :: 0 <= k < |activeSquares| ==> activeSquares[k] in CellsOf(grid)
        invariant CentreIsLast(centerSquare, old(centerSquare), LastFound(Searches(ps[..j])))
        invariant activeSquares == old(activeSquares) + Queued(passes, j)
        invariant forall c {:trigger c in CellsOf(grid)} :: c in CellsOf(grid) ==>
          c in c0 && c.color == ColourAfter(c.row - 1, c.col, passes, j, c0[c])
      {
        ResolveStep(j, old(centerSquare), ps, passes, old(activeSquares), c0);
        j := j + 1;
      }
      assert ps[..j] == ps;
    }

    /**
     * The driver's second loop: ResolveBall for every ball in order. The
     * queue gains the cells of each ball's pass, ball by ball; every cell
     * ends with the colour of the last ball whose pass touches it, or with
     * its colour on entry when none does; and the centre cell ends as the
     * cell found by the last search that found one, or as it was when none
     * did.
     */
    method ResolveBalls()
      requires WellFormed(grid) && nullSqr.row == -1
      requires AllEmpty()
      requires forall k :: 0 <= k < |activeSquares| ==> activeSquares[k] in CellsOf(grid)
      requires forall k :: 0 <= k < |balls| ==> Approximable(balls[k].position)
      modifies this`activeSquares, this`centerSquare, CellsOf(grid)
      ensures AllEmpty()
      ensures forall k :: 0 <= k < |activeSquares| ==> activeSquares[k] in CellsOf(grid)
      ensures activeSquares == old(activeSquares) + Queued(BallPasses(), |balls|)
      ensures forall c {:trigger c in CellsOf(grid)} :: c in CellsOf(grid) ==>
        c.color == ColourAfter(c.row - 1, c.col, BallPasses(), |balls|, old(c.color))
      ensures centerSquare == old(centerSquare) ||
        (centerSquare != null && IsGridCell(centerSquare) &&
         exists k :: 0 <= k < |balls| && centerSquare.Contains(balls[k].position))
      ensures CentreIsLast(centerSquare, old(centerSquare), LastFound(Searches(Positions())))
    {
      ghost var ps := Positions();
      ghost var c0 := map c | c in CellsOf(grid) :: c.color;
      ResolveEach(ps, Passes(grid, balls, ps), c0);
      CentreContainsSomeBall(old(centerSquare));
    }

    /**
     * The driver's last loop from a scene whose cells are all EMPTY: every
     * queued cell is rendered FILLED, every cell is still EMPTY after, and
     * the balls stay where they are.
     */
    method DrainQueue() returns (rendered: seq<Rendered>)
      requires AllEmpty()
      requires forall k :: 0 <= k < |activeSquares| ==> activeSquares[k] in CellsOf(grid)
      modifies this`activeSquares, CellsOf(grid)
      ensures activeSquares == [] && AllEmpty()
      ensures |rendered| == |old(activeSquares)|
      ensures forall c {:trigger c in CellsOf(grid)} :: c in CellsOf(grid) ==> c.color == old(c.color)
      ensures forall k {:trigger rendered[k]} :: 0 <= k < |rendered| ==>
        rendered[k] == Rendered(old(activeSquares)[k].p0, old(activeSquares)[k].color, Filled as int)
      ensures Positions() == old(Positions())
    {
      ghost var queue := activeSquares;
      rendered := Draw();
      forall c {:trigger c in CellsOf(grid)} | c in CellsOf(grid)
        ensures c.state == Empty && c.color == old(c.color)
      {
        if c in queue {
          assert c.state == Empty;
        }
      }
      forall k | 0 <= k < |rendered|
        ensures rendered[k] == Rendered(queue[k].p0, queue[k].color, Filled as int)
      {
        assert queue[k] in CellsOf(grid);
      }
    }

    /** The driver's first two loops: advance every ball one tick, then resolve the cells around each. */
    method MoveAndResolve(draws: seq<int>)
      requires WellFormed(grid) && nullSqr.row == -1
      requires AllEmpty()
      requires forall k :: 0 <= k < |activeSquares| ==> activeSquares[k] in CellsOf(grid)
      requires BallsDistinct()
      requires |draws| == |balls| && ValidDraws(draws)
      requires forall k :: 0 <= k < |balls| ==>
        Approximable(Tick(balls[k].Motion(), balls[k].radius, balls[k].speed, sceneBounds, draws[k]).position)
      modifies this`activeSquares, this`centerSquare, CellsOf(grid), balls
      ensures forall k :: 0 <= k < |balls| ==>
        balls[k].Motion() == Tick(old(balls[k].Motion()), balls[k].radius, balls[k].speed, sceneBounds, draws[k])
      ensures AllEmpty()
      ensures forall k :: 0 <= k < |activeSquares| ==> activeSquares[k] in CellsOf(grid)
      ensures activeSquares == old(activeSquares) + Queued(BallPasses(), |balls|)
      ensures forall c {:trigger c in CellsOf(grid)} :: c in CellsOf(grid) ==>
        c.color == ColourAfter(c.row - 1, c.col, BallPasses(), |balls|, old(c.color))
      ensures centerSquare == old(centerSquare) ||
        (centerSquare != null && IsGridCell(centerSquare) &&
         exists k :: 0 <= k < |balls| && centerSquare.Contains(balls[k].position))
      ensures CentreIsLast(centerSquare, old(centerSquare), LastFound(Searches(Positions())))
    {
      MoveBalls(draws);
      ResolveBalls();
      CentreContainsSomeBall(old(centerSquare));
    }

    /**
     * driver: advance every ball one tick (draws[k] is the bounce draw of
     * ball k), then resolve the cells around each ball, then drain the
     * queue. Every cell starts and ends EMPTY, and since EMPTY absorbs every
     * activation, every queued cell is rendered FILLED. The centre cell ends
     * as the cell found by the last ball's search that found one.
     */
    method Driver(draws: seq<int>) returns (rendered: seq<Rendered>)
      requires WellFormed(grid) && nullSqr.row == -1
      requires AllEmpty()
      requires forall k :: 0 <= k < |activeSquares| ==> activeSquares[k] in CellsOf(grid)
      requires BallsDistinct()
      requires |draws| == |balls| && ValidDraws(draws)
      requires forall k :: 0 <= k < |balls| ==>
        Approximable(Tick(balls[k].Motion(), balls[k].radius, balls[k].speed, sceneBounds, draws[k]).position)
      modifies this`activeSquares, this`centerSquare, CellsOf(grid), balls
      ensures forall k :: 0 <= k < |balls| ==>
        balls[k].Motion() == Tick(old(balls[k].Motion()), balls[k].radius, balls[k].speed, sceneBounds, draws[k])
      ensures activeSquares == [] && AllEmpty()
      ensures var queue := old(activeSquares) + Queued(BallPasses(), |balls|);
        |rendered| == |queue| &&
        forall k {:trigger rendered[k]} :: 0 <= k < |rendered| ==>
          rendered[k] == Rendered(queue[k].p0, queue[k].color, Filled as int)
      ensures forall c {:trigger c in CellsOf(grid)} :: c in CellsOf(grid) ==>
        c.color == ColourAfter(c.row - 1, c.col, BallPasses(), |balls|, old(c.color))
      ensures centerSquare == old(centerSquare) ||
        (centerSquare != null && IsGridCell(centerSquare) &&
         exists k :: 0 <= k < |balls| && centerSquare.Contains(balls[k].position))
      ensures CentreIsLast(centerSquare, old(centerSquare), LastFound(Searches(Positions())))
    {
      MoveAndResolve(draws);
      rendered := DrainQueue();
      CentreContainsSomeBall(old(centerSquare));
    }
  }
}
