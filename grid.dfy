/**
 * The layout of the grid populateGrid builds, the cell findSquare approximates
 * and then searches around, and the cells resolveSquareStates activates, all
 * as functions of the grid's cells and the ball's centre and radius.
 */
module Grid {

  import opened Vectors
  import opened Config
  import opened States
  import opened Balls
  import opened Squares

  /** The grid has DIMENSION + 1 rows and as many columns. */
  const GridSize: int := Dimension + 1

  /** The top-left corner of the cell at grid index (i, j). */
  function CellOrigin(i: int, j: int): Vec3
  {
    Vec3(-1 * Dimension + SquareWidth * j, Dimension - SquareWidth * i, -1)
  }

  /**
   * The cell populateGrid places at index (i, j): its stored row is i + 1 (the
   * grid's size once the row has been pushed), its stored column is j.
   */
  predicate CellAt(s: MarchingSquare, i: int, j: int)
  {
    s.row == i + 1 && s.col == j && s.p0 == CellOrigin(i, j) && s.Shaped()
  }

  /** The grid has GridSize rows of GridSize cells. */
  predicate Rectangular(g: seq<seq<MarchingSquare>>)
  {
    |g| == GridSize && forall i :: 0 <= i < |g| ==> |g[i]| == GridSize
  }

  /** Every cell of g. */
  ghost function CellsOf(g: seq<seq<MarchingSquare>>): set<MarchingSquare>
  {
    set i, j | 0 <= i < |g| && 0 <= j < |g[i]| :: g[i][j]
  }

  /** Every cell is the one populateGrid places at its index. */
  predicate WellFormed(g: seq<seq<MarchingSquare>>)
  {
    Rectangular(g) &&
    forall i, j {:trigger CellAt(g[i][j], i, j)} :: 0 <= i < GridSize && 0 <= j < GridSize ==> CellAt(g[i][j], i, j)
  }

  /**
   * populateGrid: one row per y from DIMENSION down to -DIMENSION and one
   * cell per x from -DIMENSION up to DIMENSION, in steps of SQUARE_WIDTH,
   * every cell blue and EMPTY. A cell's stored row is the grid's size once
   * its row has been pushed, its stored column the row's size before the
   * cell is pushed. Every cell is a new object.
   */
  method PopulateGrid() returns (grid: seq<seq<MarchingSquare>>)
    ensures WellFormed(grid)
    ensures forall i, j :: 0 <= i < |grid| && 0 <= j < |grid[i]| ==>
      grid[i][j].color == DefaultColor && grid[i][j].state == Empty
    ensures forall c :: c in CellsOf(grid) ==> fresh(c)
  {
    grid := [];
    var y := Dimension;
    while y >= -1 * Dimension
      invariant |grid| <= GridSize
      invariant y == Dimension - 2 * |grid|
      invariant forall r :: 0 <= r < |grid| ==> |grid[r]| == GridSize
      invariant forall r, c :: 0 <= r < |grid| && 0 <= c < |grid[r]| ==>
        grid[r][c].row == r + 1 && grid[r][c].col == c && grid[r][c].p0 == CellOrigin(r, c) &&
        grid[r][c].Shaped() && grid[r][c].color == DefaultColor && grid[r][c].state == Empty
    invariant forall r, c :: 0 <= r < |grid| && 0 <= c < |grid[r]| ==> fresh(grid[r][c])
    {
      var line: seq<MarchingSquare> := [];
      var x := -1 * Dimension;
      while x <= Dimension
        invariant forall r, c :: 0 <= r < |grid| && 0 <= c < |grid[r]| ==>
          grid[r][c].color == DefaultColor && grid[r][c].state == Empty && fresh(grid[r][c])
        invariant |line| <= GridSize
        invariant x == -1 * Dimension + 2 * |line|
        invariant forall c :: 0 <= c < |line| ==>
          line[c].row == |grid| + 1 && line[c].col == c && line[c].p0 == CellOrigin(|grid|, c) &&
          line[c].Shaped() && line[c].color == DefaultColor && line[c].state == Empty && fresh(line[c])
      {
        var cell := new MarchingSquare(|grid| + 1, |line|, Vec3(x, y, -1), DefaultColor, Empty);
        line := line + [cell];
        x := x + SquareWidth;
      }
      grid := grid + [line];
      y := y - SquareWidth;
    }
    forall i, j | 0 <= i < GridSize && 0 <= j < GridSize
      ensures CellAt(grid[i][j], i, j)
    {
    }
  }

  /** Cell (i, j) of the layout contains point pos (edges included). */
  predicate CellContains(i: int, j: int, pos: Vec3)
  {
    var o := CellOrigin(i, j);
    o.x <= pos.x <= o.x + SquareWidth && o.y - SquareWidth <= pos.y <= o.y
  }

  /** A cell laid out at (i, j) answers Contains as the layout says. */
  lemma ContainsAtIndex(g: seq<seq<MarchingSquare>>, i: int, j: int, pos: Vec3)
    requires WellFormed(g) && 0 <= i < GridSize && 0 <= j < GridSize
    ensures g[i][j].Contains(pos) <==> CellContains(i, j, pos)
  {
    assert CellAt(g[i][j], i, j);
  }

  /** C's integer division by 2, which truncates toward zero. */
  function TruncDiv2(n: int): (q: int)
    ensures n >= 0 ==> 2 * q <= n <= 2 * q + 1
    ensures n < 0 ==> 2 * q - 1 <= n <= 2 * q
  {
    if n >= 0 then n / 2 else -((-n) / 2)
  }

  /**
   * findSquare's first guess at the grid index containing pos. For a point
   * at or below the top edge the guessed row spans the point's y.
   */
  function ApproxRow(pos: Vec3): (r: int)
    ensures pos.y <= Dimension ==> r >= 0 && CellOrigin(r, 0).y - SquareWidth <= pos.y <= CellOrigin(r, 0).y
  {
    TruncDiv2(Dimension - pos.y)
  }

  /** For a point at or right of the left edge the guessed column spans the point's x. */
  function ApproxCol(pos: Vec3): (c: int)
    ensures pos.x >= -1 * Dimension ==> c >= 0 && CellOrigin(0, c).x <= pos.x <= CellOrigin(0, c).x + SquareWidth
  {
    TruncDiv2(pos.x + Dimension)
  }

  /** The guess indexes an existing cell, as grid.at demands. */
  predicate Approximable(pos: Vec3)
  {
    0 <= ApproxRow(pos) < GridSize && 0 <= ApproxCol(pos) < GridSize
  }

  /**
   * The guard of the search loops: indices 1..DIMENSION, so row 0 and
   * column 0 are never looked at.
   */
  predicate InRange(i: int, j: int)
  {
    0 < i < Dimension + 1 && 0 < j < Dimension + 1
  }

  /**
   * The indices findSquare probes around its guess. The window is centred on
   * the guessed cell's stored row, which is its index plus one.
   */
  predicate Searched(pos: Vec3, i: int, j: int)
  {
    InRange(i, j) &&
    ApproxRow(pos) + 1 - 4 <= i <= ApproxRow(pos) + 1 + 4 &&
    ApproxCol(pos) - 4 <= j <= ApproxCol(pos) + 4
  }

  /**
   * For a point with -98 <= x <= 101 and -101 <= y <= 98 the guessed cell
   * exists, is probed, and contains the point, so findSquare finds a cell.
   */
  lemma LocateCovers(pos: Vec3)
    requires -1 * Dimension + 2 <= pos.x <= Dimension + 1
    requires -1 * Dimension - 1 <= pos.y <= Dimension - 2
    ensures Approximable(pos)
    ensures Searched(pos, ApproxRow(pos), ApproxCol(pos))
    ensures CellContains(ApproxRow(pos), ApproxCol(pos), pos)
  {
  }

  /** What findSquare's search carries: no cell yet, or the grid index of the cell found. */
  datatype Found = NotFound | FoundAt(i: int, j: int)

  /**
   * findSquare's inner loop over columns j..hi-1 of row i, carrying `found`:
   * at a guarded column, a cell containing pos replaces `found`, and once
   * something has been found the row is left there. So with a cell found in
   * an earlier row, only the row's first guarded column is looked at.
   */
  function ScanRow(pos: Vec3, i: int, j: int, hi: int, found: Found): Found
    decreases hi - j
  {
    if hi <= j then found
    else if InRange(i, j) then
      var f := if CellContains(i, j, pos) then FoundAt(i, j) else found;
      if f.FoundAt? then f else ScanRow(pos, i, j + 1, hi, f)
    else ScanRow(pos, i, j + 1, hi, found)
  }

  /**
   * findSquare's outer loop over rows i..hi-1, each scanned over columns
   * jlo..jhi-1 with the result carried from row to row.
   */
  function ScanRows(pos: Vec3, i: int, hi: int, jlo: int, jhi: int, found: Found): Found
    decreases hi - i
  {
    if hi <= i then found else ScanRows(pos, i + 1, hi, jlo, jhi, ScanRow(pos, i, jlo, jhi, found))
  }

  /**
   * A row scan keeps `found` or returns a guarded cell of the row that
   * contains pos, and it returns NotFound exactly when `found` is NotFound
   * and no guarded cell of the row contains pos.
   */
  lemma {:induction false} ScanRowLocates(pos: Vec3, i: int, j: int, hi: int, found: Found)
    decreases hi - j
    ensures var r := ScanRow(pos, i, j, hi, found);
      r == found || (r.FoundAt? && r.i == i && j <= r.j < hi && InRange(i, r.j) && CellContains(i, r.j, pos))
    ensures ScanRow(pos, i, j, hi, found).NotFound? <==>
      found.NotFound? && forall b :: j <= b < hi && InRange(i, b) ==> !CellContains(i, b, pos)
  {
    if hi > j {
      var f := if InRange(i, j) && CellContains(i, j, pos) then FoundAt(i, j) else found;
      if !(InRange(i, j) && f.FoundAt?) {
        ScanRowLocates(pos, i, j + 1, hi, f);
      }
    }
  }

  /** The same for a scan of rows i..hi-1 and columns jlo..jhi-1. */
  lemma {:induction false} ScanRowsLocates(pos: Vec3, i: int, hi: int, jlo: int, jhi: int, found: Found)
    decreases hi - i
    ensures var r := ScanRows(pos, i, hi, jlo, jhi, found);
      r == found ||
      (r.FoundAt? && i <= r.i < hi && jlo <= r.j < jhi && InRange(r.i, r.j) && CellContains(r.i, r.j, pos))
    ensures ScanRows(pos, i, hi, jlo, jhi, found).NotFound? <==>
      found.NotFound? && forall a, b :: i <= a < hi && jlo <= b < jhi && InRange(a, b) ==> !CellContains(a, b, pos)
  {
    if hi > i {
      ScanRowLocates(pos, i, jlo, jhi, found);
      ScanRowsLocates(pos, i + 1, hi, jlo, jhi, ScanRow(pos, i, jlo, jhi, found));
    }
  }

  /**
   * The index of the cell findSquare returns for pos, over the rows within 4
   * of the guessed cell's stored row and the columns within 4 of its column.
   * A found index is probed and its cell contains pos; nothing is found
   * exactly when no probed cell contains pos.
   */
  function FoundIndex(pos: Vec3): (r: Found)
    ensures r.FoundAt? ==> Searched(pos, r.i, r.j) && CellContains(r.i, r.j, pos)
    ensures r.NotFound? <==> forall i, j :: Searched(pos, i, j) ==> !CellContains(i, j, pos)
  {
    ScanRowsLocates(pos, ApproxRow(pos) + 1 - 4, ApproxRow(pos) + 1 + 5, ApproxCol(pos) - 4, ApproxCol(pos) + 5, NotFound);
    ScanRows(pos, ApproxRow(pos) + 1 - 4, ApproxRow(pos) + 1 + 5, ApproxCol(pos) - 4, ApproxCol(pos) + 5, NotFound)
  }

  /**
   * What a run of searches leaves behind, given their results in order: the
   * last index found, or none when no search found one.
   */
  function LastFound(fs: seq<Found>): (r: Found)
    ensures r.FoundAt? ==> r in fs
  {
    if fs == [] then NotFound
    else if fs[|fs| - 1].FoundAt? then fs[|fs| - 1]
    else LastFound(fs[..|fs| - 1])
  }

  /** The results of findSquare for a run of positions, in order. */
  function Searches(ps: seq<Vec3>): (fs: seq<Found>)
    ensures |fs| == |ps| && forall k :: 0 <= k < |ps| ==> fs[k] == FoundIndex(ps[k])
  {
    seq(|ps|, k requires 0 <= k < |ps| => FoundIndex(ps[k]))
  }

  /** One more search either finds a cell, which becomes the last find, or leaves the last find as it was. */
  lemma SearchesStep(ps: seq<Vec3>, j: nat)
    requires j < |ps|
    ensures LastFound(Searches(ps[..j + 1])) ==
      if FoundIndex(ps[j]).FoundAt? then FoundIndex(ps[j]) else LastFound(Searches(ps[..j]))
  {
    assert Searches(ps[..j + 1])[..j] == Searches(ps[..j]);
  }

  /**
   * LastFound is nothing exactly when no search found a cell, and otherwise
   * the result of some search after which no search found one.
   */
  lemma {:induction false} LastFoundIsLast(fs: seq<Found>)
    ensures LastFound(fs).NotFound? <==> forall k :: 0 <= k < |fs| ==> fs[k].NotFound?
    ensures LastFound(fs).FoundAt? ==>
      exists k :: 0 <= k < |fs| && LastFound(fs) == fs[k] && forall l :: k < l < |fs| ==> fs[l].NotFound?
  {
    if fs != [] {
      var n := |fs| - 1;
      var init := fs[..n];
      assert LastFound(fs) == if fs[n].FoundAt? then fs[n] else LastFound(init);
      if fs[n].FoundAt? {
        assert 0 <= n < |fs| && LastFound(fs) == fs[n];
      } else {
        LastFoundIsLast(init);
        if LastFound(init).FoundAt? {
          var k :| 0 <= k < |init| && LastFound(init) == init[k] && forall l :: k < l < |init| ==> init[l].NotFound?;
          assert init[k] == fs[k];
          forall l | k < l < |fs| ensures fs[l].NotFound? {
            if l < n { assert init[l] == fs[l]; }
          }
        } else {
          forall k | 0 <= k < |fs| ensures fs[k].NotFound? {
            if k < n { assert init[k] == fs[k]; }
          }
        }
      }
    }
  }

  /**
   * The corner mask resolveSquareStates computes for a cell with corners
   * p0..p3: bit 1 when the ball contains p0, 2 for p1, 4 for p2 and 8 for p3.
   */
  function CornerMask(centre: Vec3, radius: int, p0: Vec3, p1: Vec3, p2: Vec3, p3: Vec3): (m: bv4)
    ensures HasBit(m, 0) <==> Contains(centre, radius, p0)
    ensures HasBit(m, 1) <==> Contains(centre, radius, p1)
    ensures HasBit(m, 2) <==> Contains(centre, radius, p2)
    ensures HasBit(m, 3) <==> Contains(centre, radius, p3)
  {
    (if Contains(centre, radius, p0) then 1 else 0) |
    (if Contains(centre, radius, p1) then 2 else 0) |
    (if Contains(centre, radius, p2) then 4 else 0) |
    (if Contains(centre, radius, p3) then 8 else 0)
  }

  /** The mask of the cell laid out at index (i, j). */
  function MaskAt(centre: Vec3, radius: int, i: int, j: int): bv4
  {
    var o := CellOrigin(i, j);
    CornerMask(centre, radius, o, Vec3(o.x, o.y - SquareWidth, o.z),
               Vec3(o.x + SquareWidth, o.y - SquareWidth, o.z), Vec3(o.x + SquareWidth, o.y, o.z))
  }

  /** masks gives every index the corner mask of its cell, for a ball with this centre and radius. */
  ghost predicate MasksOf(masks: (int, int) -> bv4, centre: Vec3, radius: int)
  {
    forall a, b {:trigger MaskAt(centre, radius, a, b)} :: masks(a, b) == MaskAt(centre, radius, a, b)
  }

  /** A cell laid out at index (i, j) has the layout's mask. */
  lemma MaskOfCell(s: MarchingSquare, centre: Vec3, radius: int, i: int, j: int)
    requires CellAt(s, i, j)
    ensures CornerMask(centre, radius, s.p0, s.p1, s.p2, s.p3) == MaskAt(centre, radius, i, j)
  {
  }

  /** In a well-formed grid, every cell other than the one stored at (i, j) records another index. */
  lemma OtherCellsElsewhere(g: seq<seq<MarchingSquare>>, i: int, j: int)
    requires WellFormed(g) && 0 <= i < |g| && 0 <= j < |g[i]|
    ensures forall c {:trigger c in CellsOf(g)} :: c in CellsOf(g) && c != g[i][j] ==> c.row - 1 != i || c.col != j
  {
    forall c | c in CellsOf(g) && c != g[i][j]
      ensures c.row - 1 != i || c.col != j
    {
      var a, b :| 0 <= a < |g| && 0 <= b < |g[a]| && g[a][b] == c;
      assert CellAt(g[a][b], a, b);
    }
  }

  /** Index (a, b) lies in rows lo..hi-1 and columns jlo..jhi-1. */
  predicate InWindow(a: int, b: int, lo: int, hi: int, jlo: int, jhi: int)
  {
    lo <= a < hi && jlo <= b < jhi
  }

  /**
   * A scan over rows lo..hi-1 and columns jlo..jhi-1 activates index (a, b):
   * it is scanned, passes the guard, and its corner mask is not zero.
   */
  predicate Hit(masks: (int, int) -> bv4, a: int, b: int, lo: int, hi: int, jlo: int, jhi: int)
  {
    InWindow(a, b, lo, hi, jlo, jhi) && InRange(a, b) && masks(a, b) != 0
  }

  /** The corner mask of every index, for a ball with this centre and radius. */
  function CornerMasks(centre: Vec3, radius: int): (int, int) -> bv4
  {
    (i, j) => MaskAt(centre, radius, i, j)
  }

  /** What one iteration at index (i, j) contributes: the index, if it passes the guard and its mask is not zero. */
  function Visit(masks: (int, int) -> bv4, i: int, j: int): seq<(int, int)>
  {
    if InRange(i, j) && masks(i, j) != 0 then [(i, j)] else []
  }

  /** The indices of row i, columns lo..hi-1, that a scan activates, in order. */
  function RowHits(masks: (int, int) -> bv4, i: int, lo: int, hi: int): seq<(int, int)>
    decreases hi - lo
  {
    if hi <= lo then [] else RowHits(masks, i, lo, hi - 1) + Visit(masks, i, hi - 1)
  }

  /** The same for rows lo..hi-1 and columns jlo..jhi-1, row by row. */
  function WindowHits(masks: (int, int) -> bv4, lo: int, hi: int, jlo: int, jhi: int): seq<(int, int)>
    decreases hi - lo
  {
    if hi <= lo then [] else WindowHits(masks, lo, hi - 1, jlo, jhi) + RowHits(masks, hi - 1, jlo, jhi)
  }

  /** The first index of the window resolveSquareStates scans around index c. */
  function WindowLo(c: int, radius: int): int
  {
    c - 2 * radius
  }

  /** One past the last index of that window. */
  function WindowHi(c: int, radius: int): int
  {
    c + 2 * radius + 1
  }

  /**
   * The indices of the cells one call of resolveSquareStates activates, in
   * order, for a ball with this centre and radius and a cell with stored row
   * `row` and column `col`.
   */
  function Hits(centre: Vec3, radius: int, row: int, col: int): (hs: seq<(int, int)>)
    ensures forall k :: 0 <= k < |hs| ==> InRange(hs[k].0, hs[k].1)
  {
    WindowHitsInRange(CornerMasks(centre, radius),
                      WindowLo(row, radius), WindowHi(row, radius), WindowLo(col, radius), WindowHi(col, radius));
    WindowHits(CornerMasks(centre, radius),
               WindowLo(row, radius), WindowHi(row, radius), WindowLo(col, radius), WindowHi(col, radius))
  }

  /**
   * Cell (i, j) is activated by that call: within twice the radius of the
   * cell's row and column, past the guard, and with a corner inside the ball.
   */
  predicate IsHit(i: int, j: int, centre: Vec3, radius: int, row: int, col: int)
  {
    row - 2 * radius <= i <= row + 2 * radius && col - 2 * radius <= j <= col + 2 * radius &&
    InRange(i, j) && MaskAt(centre, radius, i, j) != 0
  }

  /** (a, b) appears in Visit(masks, i, j) once if it is (i, j) and activated there, and otherwise not at all. */
  lemma VisitCount(masks: (int, int) -> bv4, i: int, j: int, a: int, b: int)
    ensures multiset(Visit(masks, i, j))[(a, b)] == if a == i && b == j && InRange(a, b) && masks(a, b) != 0 then 1 else 0
  {
  }

  /** (a, b) appears in RowHits once if the row scan activates it, and otherwise not at all. */
  lemma {:induction false} RowHitsExactly(masks: (int, int) -> bv4, i: int, lo: int, hi: int, a: int, b: int)
    decreases hi - lo
    ensures multiset(RowHits(masks, i, lo, hi))[(a, b)] == if Hit(masks, a, b, i, i + 1, lo, hi) then 1 else 0
  {
    if hi > lo {
      RowHitsExactly(masks, i, lo, hi - 1, a, b);
      VisitCount(masks, i, hi - 1, a, b);
      assert RowHits(masks, i, lo, hi) == RowHits(masks, i, lo, hi - 1) + Visit(masks, i, hi - 1);
    }
  }

  /** (a, b) appears in WindowHits once if the window scan activates it, and otherwise not at all. */
  lemma {:induction false} WindowHitsExactly(masks: (int, int) -> bv4, lo: int, hi: int, jlo: int, jhi: int, a: int, b: int)
    decreases hi - lo
    ensures multiset(WindowHits(masks, lo, hi, jlo, jhi))[(a, b)] == if Hit(masks, a, b, lo, hi, jlo, jhi) then 1 else 0
  {
    if hi > lo {
      WindowHitsExactly(masks, lo, hi - 1, jlo, jhi, a, b);
      RowHitsExactly(masks, hi - 1, jlo, jhi, a, b);
    }
  }

  /**
   * One call of resolveSquareStates activates each touched cell of its window
   * exactly once and no other cell.
   */
  lemma HitsExactly(centre: Vec3, radius: int, row: int, col: int, a: int, b: int)
    ensures multiset(Hits(centre, radius, row, col))[(a, b)] ==
      if IsHit(a, b, centre, radius, row, col) then 1 else 0
    ensures (a, b) in Hits(centre, radius, row, col) <==> IsHit(a, b, centre, radius, row, col)
  {
    WindowHitsExactly(CornerMasks(centre, radius),
                      WindowLo(row, radius), WindowHi(row, radius), WindowLo(col, radius), WindowHi(col, radius), a, b);
  }

  /** Every index RowHits lists passes the guard. */
  lemma {:induction false} RowHitsInRange(masks: (int, int) -> bv4, i: int, lo: int, hi: int)
    decreases hi - lo
    ensures forall k :: 0 <= k < |RowHits(masks, i, lo, hi)| ==>
      InRange(RowHits(masks, i, lo, hi)[k].0, RowHits(masks, i, lo, hi)[k].1)
  {
    if hi > lo {
      RowHitsInRange(masks, i, lo, hi - 1);
      var front: seq<(int, int)> := RowHits(masks, i, lo, hi - 1);
      var last: seq<(int, int)> := Visit(masks, i, hi - 1);
      assert RowHits(masks, i, lo, hi) == front + last;
      forall k | 0 <= k < |front + last|
        ensures InRange((front + last)[k].0, (front + last)[k].1)
      {
        if k < |front| {
          assert (front + last)[k] == front[k];
          assert InRange(front[k].0, front[k].1);
        }
      }
    }
  }

  /** Every index WindowHits lists passes the guard. */
  lemma {:induction false} WindowHitsInRange(masks: (int, int) -> bv4, lo: int, hi: int, jlo: int, jhi: int)
    decreases hi - lo
    ensures forall k :: 0 <= k < |WindowHits(masks, lo, hi, jlo, jhi)| ==>
      InRange(WindowHits(masks, lo, hi, jlo, jhi)[k].0, WindowHits(masks, lo, hi, jlo, jhi)[k].1)
  {
    if hi > lo {
      WindowHitsInRange(masks, lo, hi - 1, jlo, jhi);
      RowHitsInRange(masks, hi - 1, jlo, jhi);
      var front: seq<(int, int)> := WindowHits(masks, lo, hi - 1, jlo, jhi);
      var last: seq<(int, int)> := RowHits(masks, hi - 1, jlo, jhi);
      assert WindowHits(masks, lo, hi, jlo, jhi) == front + last;
      forall k | 0 <= k < |front + last|
        ensures InRange((front + last)[k].0, (front + last)[k].1)
      {
        if k < |front| {
          assert (front + last)[k] == front[k];
          assert InRange(front[k].0, front[k].1);
        } else {
          assert (front + last)[k] == last[k - |front|];
          assert InRange(last[k - |front|].0, last[k - |front|].1);
        }
      }
    }
  }

  /** The cells of g at the indices hs, which pass the guard, in order. */
  function CellsAt(g: seq<seq<MarchingSquare>>, hs: seq<(int, int)>): (cells: seq<MarchingSquare>)
    requires Rectangular(g)
    requires forall k :: 0 <= k < |hs| ==> InRange(hs[k].0, hs[k].1)
    ensures |cells| == |hs|
    ensures forall k :: 0 <= k < |hs| ==> InRange(hs[k].0, hs[k].1) && cells[k] == g[hs[k].0][hs[k].1]
  {
    seq(|hs|, k requires 0 <= k < |hs| && InRange(hs[k].0, hs[k].1) => g[hs[k].0][hs[k].1])
  }

  lemma CellsAtAppend(g: seq<seq<MarchingSquare>>, a: seq<(int, int)>, b: seq<(int, int)>)
    requires Rectangular(g)
    requires forall k :: 0 <= k < |a| ==> InRange(a[k].0, a[k].1)
    requires forall k :: 0 <= k < |b| ==> InRange(b[k].0, b[k].1)
    ensures forall k :: 0 <= k < |a + b| ==> InRange((a + b)[k].0, (a + b)[k].1)
    ensures CellsAt(g, a + b) == CellsAt(g, a) + CellsAt(g, b)
  {
  }

  /** The cell one iteration at index (i, j) queues, if any. */
  function VisitCell(g: seq<seq<MarchingSquare>>, masks: (int, int) -> bv4, i: int, j: int): seq<MarchingSquare>
    requires Rectangular(g)
  {
    if InRange(i, j) && masks(i, j) != 0 then [g[i][j]] else []
  }

  /** The cells of row i, columns lo..hi-1, that a row scan queues, in order. */
  function RowCells(g: seq<seq<MarchingSquare>>, masks: (int, int) -> bv4, i: int, lo: int, hi: int): (r: seq<MarchingSquare>)
    requires Rectangular(g)
    decreases hi - lo
    ensures |r| <= (if hi <= lo then 0 else hi - lo)
  {
    if hi <= lo then [] else RowCells(g, masks, i, lo, hi - 1) + VisitCell(g, masks, i, hi - 1)
  }

  /** The same for rows lo..hi-1, row by row. */
  function WindowCells(g: seq<seq<MarchingSquare>>, masks: (int, int) -> bv4, lo: int, hi: int, jlo: int, jhi: int): (r: seq<MarchingSquare>)
    requires Rectangular(g)
    decreases hi - lo
    ensures |r| <= (if hi <= lo then 0 else hi - lo) * (if jhi <= jlo then 0 else jhi - jlo)
  {
    if hi <= lo then []
    else
      var width := if jhi <= jlo then 0 else jhi - jlo;
      assert (hi - lo) * width == (if hi - 1 <= lo then 0 else hi - 1 - lo) * width + width;
      WindowCells(g, masks, lo, hi - 1, jlo, jhi) + RowCells(g, masks, hi - 1, jlo, jhi)
  }

  /** The cells a row scan queues are the cells at the indices it activates. */
  lemma {:induction false} RowCellsAreHits(g: seq<seq<MarchingSquare>>, masks: (int, int) -> bv4, i: int, lo: int, hi: int)
    requires Rectangular(g)
    decreases hi - lo
    ensures forall k :: 0 <= k < |RowHits(masks, i, lo, hi)| ==>
      InRange(RowHits(masks, i, lo, hi)[k].0, RowHits(masks, i, lo, hi)[k].1)
    ensures RowCells(g, masks, i, lo, hi) == CellsAt(g, RowHits(masks, i, lo, hi))
  {
    RowHitsInRange(masks, i, lo, hi);
    if hi > lo {
      RowCellsAreHits(g, masks, i, lo, hi - 1);
      CellsAtAppend(g, RowHits(masks, i, lo, hi - 1), Visit(masks, i, hi - 1));
    }
  }

  /** The cells a window scan queues are the cells at the indices it activates. */
  lemma {:induction false} WindowCellsAreHits(g: seq<seq<MarchingSquare>>, masks: (int, int) -> bv4, lo: int, hi: int, jlo: int, jhi: int)
    requires Rectangular(g)
    decreases hi - lo
    ensures forall k :: 0 <= k < |WindowHits(masks, lo, hi, jlo, jhi)| ==>
      InRange(WindowHits(masks, lo, hi, jlo, jhi)[k].0, WindowHits(masks, lo, hi, jlo, jhi)[k].1)
    ensures WindowCells(g, masks, lo, hi, jlo, jhi) == CellsAt(g, WindowHits(masks, lo, hi, jlo, jhi))
  {
    WindowHitsInRange(masks, lo, hi, jlo, jhi);
    if hi > lo {
      WindowCellsAreHits(g, masks, lo, hi - 1, jlo, jhi);
      RowCellsAreHits(g, masks, hi - 1, jlo, jhi);
      CellsAtAppend(g, WindowHits(masks, lo, hi - 1, jlo, jhi), RowHits(masks, hi - 1, jlo, jhi));
    }
  }

  /** Every cell a window scan queues is a cell of the grid. */
  lemma WindowCellsInGrid(g: seq<seq<MarchingSquare>>, masks: (int, int) -> bv4, lo: int, hi: int, jlo: int, jhi: int)
    requires Rectangular(g)
    ensures forall k :: 0 <= k < |WindowCells(g, masks, lo, hi, jlo, jhi)| ==>
      WindowCells(g, masks, lo, hi, jlo, jhi)[k] in CellsOf(g)
  {
    WindowCellsAreHits(g, masks, lo, hi, jlo, jhi);
    var hs := WindowHits(masks, lo, hi, jlo, jhi);
    forall k | 0 <= k < |hs|
      ensures CellsAt(g, hs)[k] in CellsOf(g)
    {
      assert InRange(hs[k].0, hs[k].1);
      assert CellsAt(g, hs)[k] == g[hs[k].0][hs[k].1];
    }
  }

  /**
   * The cells one ball's iteration of the driver's second loop queues: none
   * when findSquare finds no cell, otherwise the touched cells of the window
   * resolveSquareStates scans around the found cell's stored row (its index
   * plus one) and its column.
   */
  function BallCells(g: seq<seq<MarchingSquare>>, pos: Vec3, radius: int): seq<MarchingSquare>
    requires Rectangular(g)
  {
    var f := FoundIndex(pos);
    if f.NotFound? then []
    else WindowCells(g, CornerMasks(pos, radius), WindowLo(f.i + 1, radius), WindowHi(f.i + 1, radius),
                     WindowLo(f.j, radius), WindowHi(f.j, radius))
  }

  /**
   * That iteration recolours the cell at index (a, b): findSquare found a
   * cell, and (a, b) is a touched index of the window around it.
   */
  predicate BallTouches(pos: Vec3, radius: int, a: int, b: int)
  {
    var f := FoundIndex(pos);
    f.FoundAt? &&
    Hit(CornerMasks(pos, radius), a, b, WindowLo(f.i + 1, radius), WindowHi(f.i + 1, radius),
        WindowLo(f.j, radius), WindowHi(f.j, radius))
  }

  /** The grid cell at (a, b) is among the cells at the indices hs exactly when (a, b) is one of them. */
  lemma CellsAtHas(g: seq<seq<MarchingSquare>>, hs: seq<(int, int)>, a: int, b: int)
    requires WellFormed(g) && 0 <= a < GridSize && 0 <= b < GridSize
    requires forall k :: 0 <= k < |hs| ==> InRange(hs[k].0, hs[k].1)
    ensures g[a][b] in CellsAt(g, hs) <==> (a, b) in hs
  {
    var cells := CellsAt(g, hs);
    if g[a][b] in cells {
      var k :| 0 <= k < |cells| && cells[k] == g[a][b];
      assert CellAt(g[a][b], a, b);
      assert CellAt(g[hs[k].0][hs[k].1], hs[k].0, hs[k].1);
      assert hs[k] == (a, b);
    }
    if (a, b) in hs {
      var k :| 0 <= k < |hs| && hs[k] == (a, b);
      assert cells[k] == g[a][b];
    }
  }

  /** A grid cell is among the cells a window scan queues exactly when the scan activates its index. */
  lemma WindowCellIffHit(g: seq<seq<MarchingSquare>>, masks: (int, int) -> bv4, lo: int, hi: int, jlo: int, jhi: int, a: int, b: int)
    requires WellFormed(g) && 0 <= a < GridSize && 0 <= b < GridSize
    ensures g[a][b] in WindowCells(g, masks, lo, hi, jlo, jhi) <==> Hit(masks, a, b, lo, hi, jlo, jhi)
  {
    WindowCellsAreHits(g, masks, lo, hi, jlo, jhi);
    WindowHitsExactly(masks, lo, hi, jlo, jhi, a, b);
    var hs := WindowHits(masks, lo, hi, jlo, jhi);
    CellsAtHas(g, hs, a, b);
    assert (a, b) in hs <==> (a, b) in multiset(hs);
  }

  /** The indices of the cells a ball's iteration recolours. */
  function TouchedBy(pos: Vec3, radius: int): set<(int, int)>
  {
    set a, b | 0 < a < Dimension + 1 && 0 < b < Dimension + 1 && BallTouches(pos, radius, a, b) :: (a, b)
  }

  /** TouchedBy holds exactly the indices the ball's iteration touches. */
  lemma TouchedByIsTouches(pos: Vec3, radius: int, a: int, b: int)
    ensures (a, b) in TouchedBy(pos, radius) <==> BallTouches(pos, radius, a, b)
  {
  }

  /**
   * What one ball's iteration of the driver's second loop does: the cells
   * it queues, in order, the indices of the cells it recolours, and the
   * colour it gives them.
   */
  datatype Pass = Pass(queued: seq<MarchingSquare>, touched: set<(int, int)>, colour: Vec4)

  /** The pass of a ball with this centre, radius and colour. */
  function PassOf(g: seq<seq<MarchingSquare>>, pos: Vec3, radius: int, colour: Vec4): Pass
    requires Rectangular(g)
  {
    Pass(BallCells(g, pos, radius), TouchedBy(pos, radius), colour)
  }

  /**
   * A pass recolours a grid index exactly when the ball's iteration touches
   * it, and it queues the grid cell there exactly then too.
   */
  lemma PassOfAgrees(g: seq<seq<MarchingSquare>>, pos: Vec3, radius: int, colour: Vec4, a: int, b: int)
    requires WellFormed(g) && 0 <= a < GridSize && 0 <= b < GridSize
    ensures (a, b) in PassOf(g, pos, radius, colour).touched <==> BallTouches(pos, radius, a, b)
    ensures g[a][b] in PassOf(g, pos, radius, colour).queued <==> BallTouches(pos, radius, a, b)
  {
    var f := FoundIndex(pos);
    if f.FoundAt? {
      WindowCellIffHit(g, CornerMasks(pos, radius), WindowLo(f.i + 1, radius), WindowHi(f.i + 1, radius),
                       WindowLo(f.j, radius), WindowHi(f.j, radius), a, b);
    }
  }

  /**
   * A pass seen through the search's result: a ball whose search finds
   * nothing queues nothing and recolours nothing; otherwise it queues the
   * touched cells of the window around the found cell's stored row and its
   * column, and recolours exactly the indices that window scan activates.
   */
  lemma PassOfWindow(g: seq<seq<MarchingSquare>>, pos: Vec3, radius: int, colour: Vec4)
    requires Rectangular(g)
    ensures var f := FoundIndex(pos);
      f.NotFound? ==> PassOf(g, pos, radius, colour).queued == [] && PassOf(g, pos, radius, colour).touched == {}
    ensures var f := FoundIndex(pos);
      f.FoundAt? ==>
        PassOf(g, pos, radius, colour).queued ==
          WindowCells(g, CornerMasks(pos, radius), WindowLo(f.i + 1, radius), WindowHi(f.i + 1, radius),
                      WindowLo(f.j, radius), WindowHi(f.j, radius)) &&
        forall a, b :: (a, b) in PassOf(g, pos, radius, colour).touched <==>
          Hit(CornerMasks(pos, radius), a, b, WindowLo(f.i + 1, radius), WindowHi(f.i + 1, radius),
              WindowLo(f.j, radius), WindowHi(f.j, radius))
  {
    forall a, b
      ensures (a, b) in TouchedBy(pos, radius) <==> BallTouches(pos, radius, a, b)
    {
      TouchedByIsTouches(pos, radius, a, b);
    }
  }

  /** The passes of balls bs at positions ps, in order. */
  function Passes(g: seq<seq<MarchingSquare>>, bs: seq<Ball>, ps: seq<Vec3>): (passes: seq<Pass>)
    requires Rectangular(g) && |bs| == |ps|
    ensures |passes| == |bs|
  {
    seq(|bs|, k requires 0 <= k < |bs| => PassOf(g, ps[k], bs[k].radius, bs[k].color))
  }

  /** The cells the first n passes queue, pass by pass, in order. */
  function Queued(passes: seq<Pass>, n: nat): seq<MarchingSquare>
    requires n <= |passes|
  {
    if n == 0 then [] else Queued(passes, n - 1) + passes[n - 1].queued
  }

  /**
   * The colour the first n passes leave at index (a, b), starting from c0:
   * the colour of the last of them that recolours it, or c0 when none does.
   */
  function ColourAfter(a: int, b: int, passes: seq<Pass>, n: nat, c0: Vec4): Vec4
    requires n <= |passes|
  {
    if n == 0 then c0
    else if (a, b) in passes[n - 1].touched then passes[n - 1].colour
    else ColourAfter(a, b, passes, n - 1, c0)
  }

  /** A cell is queued by the first n passes exactly when one of them queues it. */
  lemma {:induction false} QueuedByOne(passes: seq<Pass>, n: nat, c: MarchingSquare)
    requires n <= |passes|
    ensures c in Queued(passes, n) <==> exists k :: 0 <= k < n && c in passes[k].queued
  {
    if n > 0 {
      QueuedByOne(passes, n - 1, c);
    }
  }

  /**
   * The first n passes leave index (a, b) with c0 when none of them
   * recolours it, and otherwise with the colour of one that does and after
   * which none does.
   */
  lemma {:induction false} ColourAfterIsLastTouch(a: int, b: int, passes: seq<Pass>, n: nat, c0: Vec4)
    requires n <= |passes|
    ensures (forall k :: 0 <= k < n ==> (a, b) !in passes[k].touched) ==> ColourAfter(a, b, passes, n, c0) == c0
    ensures (exists k :: 0 <= k < n && (a, b) in passes[k].touched) ==>
      exists k :: 0 <= k < n && (a, b) in passes[k].touched && ColourAfter(a, b, passes, n, c0) == passes[k].colour &&
        forall l :: k < l < n ==> (a, b) !in passes[l].touched
  {
    if n > 0 {
      ColourAfterIsLastTouch(a, b, passes, n - 1, c0);
    }
  }

  /** Every cell a pass queues is a cell of the grid. */
  lemma PassQueuedInGrid(g: seq<seq<MarchingSquare>>, pos: Vec3, radius: int, colour: Vec4)
    requires Rectangular(g)
    ensures forall c :: c in PassOf(g, pos, radius, colour).queued ==> c in CellsOf(g)
  {
    var f := FoundIndex(pos);
    if f.FoundAt? {
      WindowCellsInGrid(g, CornerMasks(pos, radius), WindowLo(f.i + 1, radius), WindowHi(f.i + 1, radius),
                        WindowLo(f.j, radius), WindowHi(f.j, radius));
    }
  }

  /** When each pass queues only cells of the grid, so do the first n together. */
  lemma {:induction false} QueuedInGrid(g: seq<seq<MarchingSquare>>, passes: seq<Pass>, n: nat)
    requires n <= |passes|
    requires forall k, c :: 0 <= k < n && c in passes[k].queued ==> c in CellsOf(g)
    ensures forall c :: c in Queued(passes, n) ==> c in CellsOf(g)
  {
    if n > 0 {
      QueuedInGrid(g, passes, n - 1);
    }
  }

  /**
   * The passes of balls bs at positions ps queue the grid cell at (a, b)
   * exactly when the iteration of one of the balls touches that index.
   */
  lemma PassesQueueTouched(g: seq<seq<MarchingSquare>>, bs: seq<Ball>, ps: seq<Vec3>, a: int, b: int)
    requires WellFormed(g) && |bs| == |ps| && 0 <= a < GridSize && 0 <= b < GridSize
    ensures g[a][b] in Queued(Passes(g, bs, ps), |bs|) <==>
      exists k :: 0 <= k < |bs| && BallTouches(ps[k], bs[k].radius, a, b)
  {
    var passes := Passes(g, bs, ps);
    QueuedByOne(passes, |bs|, g[a][b]);
    forall k | 0 <= k < |bs|
      ensures g[a][b] in passes[k].queued <==> BallTouches(ps[k], bs[k].radius, a, b)
    {
      PassOfAgrees(g, ps[k], bs[k].radius, bs[k].color, a, b);
    }
  }

  /**
   * The passes of balls bs at positions ps leave index (a, b) with c0 when
   * no ball's iteration touches it, and otherwise with the colour of a ball
   * whose iteration touches it and after which none does.
   */
  lemma PassesColourLastTouch(g: seq<seq<MarchingSquare>>, bs: seq<Ball>, ps: seq<Vec3>, a: int, b: int, c0: Vec4)
    requires Rectangular(g) && |bs| == |ps|
    ensures (forall k :: 0 <= k < |bs| ==> !BallTouches(ps[k], bs[k].radius, a, b)) ==>
      ColourAfter(a, b, Passes(g, bs, ps), |bs|, c0) == c0
    ensures (exists k :: 0 <= k < |bs| && BallTouches(ps[k], bs[k].radius, a, b)) ==>
      exists k :: 0 <= k < |bs| && BallTouches(ps[k], bs[k].radius, a, b) &&
        ColourAfter(a, b, Passes(g, bs, ps), |bs|, c0) == bs[k].color &&
        forall l :: k < l < |bs| ==> !BallTouches(ps[l], bs[l].radius, a, b)
  {
    var passes := Passes(g, bs, ps);
    ColourAfterIsLastTouch(a, b, passes, |bs|, c0);
    forall k | 0 <= k < |bs|
      ensures (a, b) in passes[k].touched <==> BallTouches(ps[k], bs[k].radius, a, b)
    {
      TouchedByIsTouches(ps[k], bs[k].radius, a, b);
    }
  }

  /** Concatenation is associative. */
  lemma AppendAssociates<T>(a: seq<T>, b: seq<T>, c: seq<T>)
    ensures (a + b) + c == a + (b + c)
  {
  }
}
