/**
 * SceneBounds: the playable rectangle, the test that a ball has crossed one of
 * its walls, and the inward normal of the first wall crossed.
 */
module Bounds {

  import opened Vectors
  import opened Config

  /** The four walls, in the order getWallNormal tests them. */
  datatype Wall = MaxXWall | MinXWall | MaxYWall | MinYWall

  function Rank(w: Wall): nat
  {
    match w
    case MaxXWall => 0
    case MinXWall => 1
    case MaxYWall => 2
    case MinYWall => 3
  }

  /** The unit vector perpendicular to wall w, pointing into the rectangle. */
  function InwardNormal(w: Wall): Vec3
  {
    match w
    case MaxXWall => Vec3(-1, 0, 0)
    case MinXWall => Vec3(1, 0, 0)
    case MaxYWall => Vec3(0, -1, 0)
    case MinYWall => Vec3(0, 1, 0)
  }

  /** A unit vector along the x or the y axis. */
  predicate IsAxisUnit(n: Vec3)
  {
    n.z == 0 && ((n.x == 0 && (n.y == 1 || n.y == -1)) || (n.y == 0 && (n.x == 1 || n.x == -1)))
  }

  datatype SceneBounds = SceneBounds(maxX: int, minX: int, maxY: int, minY: int)
  {
    /** A ball of this radius at this position reaches strictly past wall w. */
    predicate Violates(w: Wall, position: Vec3, radius: int)
    {
      match w
      case MaxXWall => position.x + radius > maxX
      case MinXWall => position.x - radius < minX
      case MaxYWall => position.y + radius > maxY
      case MinYWall => position.y - radius < minY
    }

    /**
     * SceneBounds::outOfBounds: the comparisons are strict, so a ball whose
     * bounding square touches a wall is still in bounds.
     */
    predicate OutOfBounds(position: Vec3, radius: int)
      ensures !OutOfBounds(position, radius) <==>
                minX <= position.x - radius && position.x + radius <= maxX &&
                minY <= position.y - radius && position.y + radius <= maxY
    {
      position.x + radius > maxX || position.x - radius < minX ||
      position.y + radius > maxY || position.y - radius < minY
    }

    /**
     * SceneBounds::getWallNormal, called only for a ball that is out of
     * bounds: the inward normal of the violated wall that comes first in the
     * order maxX, minX, maxY, minY.
     */
    function WallNormal(position: Vec3, radius: int): (normal: Vec3)
      requires OutOfBounds(position, radius)
      ensures IsAxisUnit(normal)
    {
      if position.x + radius > maxX then Vec3(-1, 0, 0)
      else if position.x - radius < minX then Vec3(1, 0, 0)
      else if position.y + radius > maxY then Vec3(0, -1, 0)
      else Vec3(0, 1, 0)
    }

    /** The first wall, in the order maxX, minX, maxY, minY, that is violated. */
    function FirstViolated(position: Vec3, radius: int): (w: Wall)
      requires OutOfBounds(position, radius)
      ensures Violates(w, position, radius)
      ensures forall v :: Rank(v) < Rank(w) ==> !Violates(v, position, radius)
    {
      if position.x + radius > maxX then MaxXWall
      else if position.x - radius < minX then MinXWall
      else if position.y + radius > maxY then MaxYWall
      else MinYWall
    }
  }

  /** getWallNormal returns the inward normal of the first violated wall. */
  lemma WallNormalIsFirstViolated(b: SceneBounds, position: Vec3, radius: int)
    requires b.OutOfBounds(position, radius)
    ensures b.WallNormal(position, radius) == InwardNormal(b.FirstViolated(position, radius))
  {
  }

  /** A ball is out of bounds exactly when it violates some wall. */
  lemma OutOfBoundsIffViolates(b: SceneBounds, position: Vec3, radius: int)
    ensures b.OutOfBounds(position, radius) <==> exists w :: b.Violates(w, position, radius)
  {
    if b.OutOfBounds(position, radius) {
      var w := if position.x + radius > b.maxX then MaxXWall
        else if position.x - radius < b.minX then MinXWall
        else if position.y + radius > b.maxY then MaxYWall
        else MinYWall;
      assert b.Violates(w, position, radius);
    }
  }

  /** The bounds the program runs with: x in [-96, 100], y in [-100, 96]. */
  const TheSceneBounds: SceneBounds :=
    SceneBounds(Dimension, -1 * Dimension + 4, Dimension - 4, -1 * Dimension)

  /**
   * The converse of WallNormal's contract: when w is violated and no wall
   * before it in the order is, the normal returned is w's.
   */
  lemma WallNormalOfFirstViolated(b: SceneBounds, position: Vec3, radius: int, w: Wall)
    requires b.Violates(w, position, radius)
    requires forall v :: Rank(v) < Rank(w) ==> !b.Violates(v, position, radius)
    ensures b.OutOfBounds(position, radius)
    ensures b.WallNormal(position, radius) == InwardNormal(w)
  {
    assert Rank(MaxXWall) == 0 && Rank(MinXWall) == 1 && Rank(MaxYWall) == 2;
  }
}
