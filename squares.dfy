/**
 * One cell of the marching-squares grid: its four corners, its centre, its
 * place in the grid, and the colour and state that activation changes.
 *
 *   p0----p3
 *   |      |
 *   |      |
 *   p1----p2
 */
module Squares {

  import opened Vectors
  import opened Config
  import opened States

  /** The default cell colour (the source's blue). */
  const DefaultColor: Vec4 := Vec4(0.2, 0.29, 0.82, 1.0)

  class MarchingSquare {
    const p0: Vec3
    const p1: Vec3
    const p2: Vec3
    const p3: Vec3
    const center: Vec3
    var color: Vec4
    const row: int
    const col: int
    var state: bv4

    /**
     * The corners are laid out from p0: p1 one width below, p2 one width
     * below and one to the right, p3 one to the right, all on p0's plane;
     * the centre is the midpoint of the diagonal p0-p2, on the plane z = -1.
     */
    predicate Shaped()
    {
      p1 == Vec3(p0.x, p0.y - SquareWidth, p0.z) &&
      p2 == Vec3(p0.x + SquareWidth, p0.y - SquareWidth, p0.z) &&
      p3 == Vec3(p0.x + SquareWidth, p0.y, p0.z) &&
      center.x + center.x == p0.x + p2.x && center.y + center.y == p0.y + p2.y &&
      center.z == -1
    }

    constructor (row: int, col: int, p0: Vec3, color: Vec4, state: bv4)
      ensures this.row == row && this.col == col && this.p0 == p0 && Shaped()
      ensures this.color == color && this.state == state
    {
      this.p0 := p0;
      p1 := Add(p0, Vec3(0, -1 * SquareWidth, 0));
      p2 := Add(p0, Vec3(SquareWidth, -1 * SquareWidth, 0));
      p3 := Add(p0, Vec3(SquareWidth, 0, 0));
      var mid := Half(Add(p0, Add(p0, Vec3(SquareWidth, -1 * SquareWidth, 0))));
      center := Vec3(mid.x, mid.y, -1);
      this.color := color;
      this.state := state;
      this.row := row;
      this.col := col;
    }

    /**
     * MarchingSquare::contains: the test is closed on all four sides, so a
     * point on an edge or a corner belongs to the cell (and to its
     * neighbours along that edge).
     */
    function Contains(point: Vec3): (inside: bool)
      ensures Shaped() ==>
        (inside <==> p0.x <= point.x <= p0.x + SquareWidth &&
                     p0.y - SquareWidth <= point.y <= p0.y)
    {
      point.x >= p0.x && point.x <= p3.x && point.y >= p1.y && point.y <= p0.y
    }

    /** MarchingSquare::activate: take the colour, OR the state in. */
    method Activate(color: Vec4, s: bv4)
      modifies this
      ensures this.color == color && state == Merge(old(state), s)
    {
      this.color := color;
      state := state | s;
    }

    /** MarchingSquare::emptyState. */
    method EmptyState()
      modifies this
      ensures state == Empty && color == old(color)
    {
      state := Empty;
    }
  }

  /**
   * A cell contains its four corners and its centre, and two cells side by
   * side share the edge between them.
   */
  lemma ContainsCornersAndCentre(s: MarchingSquare, t: MarchingSquare, point: Vec3)
    requires s.Shaped() && t.Shaped()
    ensures s.Contains(s.p0) && s.Contains(s.p1) && s.Contains(s.p2) && s.Contains(s.p3)
    ensures s.Contains(s.center)
    ensures t.p0 == s.p3 && s.Contains(point) && point.x == s.p3.x ==> t.Contains(point)
  {
  }
}
