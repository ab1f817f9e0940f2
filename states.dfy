/**
 * The MarchingSquareState enumeration, the mapping from a corner-occupancy
 * mask to a state (activateSquare's switch), the way MarchingSquare::activate
 * merges states, and the squareStateLookup table of triangle fans.
 *
 * The source casts the enumeration to int and ORs ordinals together; every
 * value involved lies in 0..15, so ordinals and masks are four-bit vectors.
 */
module States {

  import opened Vectors

  /** The ordinals of MarchingSquareState, in declaration order. */
  const TopLeft: bv4 := 0
  const BotLeft: bv4 := 1
  const Left: bv4 := 2
  const BotRight: bv4 := 3
  const NegDiag: bv4 := 4
  const Bottom: bv4 := 5
  const InvTopRight: bv4 := 6
  const TopRight: bv4 := 7
  const Upper: bv4 := 8
  const PosDiag: bv4 := 9
  const InvBotRight: bv4 := 10
  const Right: bv4 := 11
  const InvBotLeft: bv4 := 12
  const InvTopLeft: bv4 := 13
  const Filled: bv4 := 14
  const Empty: bv4 := 15

  /**
   * activateSquare's switch: the corner mask m (1..15) selects the state whose
   * ordinal is m - 1; every other value falls to the default case, FILLED.
   */
  function StateForMask(mask: int): (s: bv4)
    ensures 1 <= mask <= 15 ==> s as int == mask - 1
    ensures !(1 <= mask <= 15) ==> s == Filled
  {
    if mask == 1 then TopLeft
    else if mask == 2 then BotLeft
    else if mask == 3 then Left
    else if mask == 4 then BotRight
    else if mask == 5 then NegDiag
    else if mask == 6 then Bottom
    else if mask == 7 then InvTopRight
    else if mask == 8 then TopRight
    else if mask == 9 then Upper
    else if mask == 10 then PosDiag
    else if mask == 11 then InvBotRight
    else if mask == 12 then Right
    else if mask == 13 then InvBotLeft
    else if mask == 14 then InvTopLeft
    else Filled
  }

  /**
   * The same selection for a mask held in four bits: a non-zero mask selects
   * the state one below it, the zero mask (which resolveSquareStates never
   * passes) the default, FILLED.
   */
  function MaskState(m: bv4): bv4
  {
    if m == 0 then Filled else m - 1
  }

  /** MaskState agrees with activateSquare's switch on every four-bit mask. */
  lemma MaskStateAgrees(m: bv4)
    ensures MaskState(m) == StateForMask(m as int)
  {
  }

  /** MarchingSquare::activate's update of the state: the two ordinals OR-ed. */
  function Merge(current: bv4, incoming: bv4): (r: bv4)
    ensures forall k :: 0 <= k < 4 ==> (HasBit(r, k) <==> HasBit(current, k) || HasBit(incoming, k))
  {
    current | incoming
  }

  /**
   * Merge is the least upper bound of its arguments in the bitwise order: it
   * keeps every bit of both and any state keeping both bits keeps all of it.
   */
  lemma MergeIsJoin(current: bv4, incoming: bv4, other: bv4)
    ensures Merge(current, incoming) & current == current
    ensures Merge(current, incoming) & incoming == incoming
    ensures other & current == current && other & incoming == incoming ==>
              other & Merge(current, incoming) == Merge(current, incoming)
  {
  }

  /**
   * EMPTY is ordinal 15, all four bits set, so merging anything into an EMPTY
   * state leaves it EMPTY.
   */
  lemma EmptyAbsorbs(incoming: bv4)
    ensures Merge(Empty, incoming) == Empty
  {
  }

  /** Three vertices, in the order glVertex3f is called on them. */
  datatype Triangle = Triangle(a: Vec3, b: Vec3, c: Vec3)

  /**
   * squareStateLookup, indexed by ordinal: for each state, its triangles, in
   * cell-local coordinates counted in tenths of a unit (the source's 0.1 is 1
   * here, its 1.0 is 10). The source stores the nine floats of each triangle
   * in a flat vector; here they are grouped by triangle.
   */
  function SquareStateLookup(index: int): (p: seq<Triangle>)
    requires 0 <= index < 15
    ensures 1 <= |p| <= 6
  {
    // TOP_LEFT
    if index == 0 then
      [ Triangle(Vec3(-1, 10, -10), Vec3(-10, 10, -10), Vec3(-10, 1, -10)) ]
    // BOT_LEFT
    else if index == 1 then
      [ Triangle(Vec3(-10, -10, -10), Vec3(-1, -10, -10), Vec3(-10, -1, -10)) ]
    // LEFT
    else if index == 2 then
      [ Triangle(Vec3(-10, -10, -10), Vec3(-1, -10, -10), Vec3(-10, 0, -10)),
        Triangle(Vec3(-1, -10, -10), Vec3(-1, 10, -10), Vec3(-10, 0, -10)),
        Triangle(Vec3(-10, 0, -10), Vec3(-10, 10, -10), Vec3(-1, 10, -10)) ]
    // BOT_RIGHT
    else if index == 3 then
      [ Triangle(Vec3(1, -10, -10), Vec3(10, -10, -10), Vec3(10, -1, -10)) ]
    // NEG_DIAG
    else if index == 4 then
      [ Triangle(Vec3(1, -10, -10), Vec3(10, -10, -10), Vec3(10, -1, -10)),
        Triangle(Vec3(-1, 10, -10), Vec3(-10, 10, -10), Vec3(-10, 1, -10)),
        Triangle(Vec3(-10, 1, -10), Vec3(1, -10, -10), Vec3(10, -1, -10)),
        Triangle(Vec3(10, -1, -10), Vec3(-1, 10, -10), Vec3(-10, 1, -10)) ]
    // BOTTOM
    else if index == 5 then
      [ Triangle(Vec3(0, -10, -10), Vec3(10, -10, -10), Vec3(10, -1, -10)),
        Triangle(Vec3(10, -1, -10), Vec3(-10, -1, -10), Vec3(0, -10, -10)),
        Triangle(Vec3(-10, -1, -10), Vec3(-10, -10, -10), Vec3(0, -10, -10)) ]
    // INV_TOP_RIGHT
    else if index == 6 then
      [ Triangle(Vec3(-10, -10, -10), Vec3(-1, -10, -10), Vec3(-10, -1, -10)),
        Triangle(Vec3(-1, -10, -10), Vec3(10, -10, -10), Vec3(10, 1, -10)),
        Triangle(Vec3(-1, -10, -10), Vec3(10, 1, -10), Vec3(-10, -1, -10)),
        Triangle(Vec3(-10, -1, -10), Vec3(10, 1, -10), Vec3(1, 10, -10)),
        Triangle(Vec3(1, 10, -10), Vec3(-10, 10, -10), Vec3(-10, -1, -10)) ]
    // TOP_RIGHT
    else if index == 7 then
      [ Triangle(Vec3(10, 1, -10), Vec3(10, 10, -10), Vec3(1, 10, -10)) ]
    // UPPER
    else if index == 8 then
      [ Triangle(Vec3(0, 10, -10), Vec3(-10, 10, -10), Vec3(-10, 1, -10)),
        Triangle(Vec3(-10, 1, -10), Vec3(10, 1, -10), Vec3(0, 10, -10)),
        Triangle(Vec3(10, 1, -10), Vec3(10, 10, -10), Vec3(0, 10, -10)) ]
    // POS_DIAG
    else if index == 9 then
      [ Triangle(Vec3(-10, -10, -10), Vec3(-1, -10, -10), Vec3(-10, -1, -10)),
        Triangle(Vec3(-1, -10, -10), Vec3(10, 1, -10), Vec3(-10, -1, -10)),
        Triangle(Vec3(-10, -1, -10), Vec3(1, 10, -10), Vec3(10, 1, -10)),
        Triangle(Vec3(10, 1, -10), Vec3(10, 10, -10), Vec3(1, 10, -10)) ]
    // INV_BOT_RIGHT
    else if index == 10 then
      [ Triangle(Vec3(10, 10, -10), Vec3(-1, 10, -10), Vec3(10, -1, -10)),
        Triangle(Vec3(-1, 10, -10), Vec3(-10, 10, -10), Vec3(-10, 1, -10)),
        Triangle(Vec3(-10, 1, -10), Vec3(-10, -10, -10), Vec3(1, -10, -10)),
        Triangle(Vec3(1, -10, -10), Vec3(10, -1, -10), Vec3(-10, 1, -10)),
        Triangle(Vec3(-10, 1, -10), Vec3(-1, 10, -10), Vec3(10, -1, -10)) ]
    // RIGHT
    else if index == 11 then
      [ Triangle(Vec3(10, 10, -10), Vec3(1, 10, -10), Vec3(10, 0, -10)),
        Triangle(Vec3(1, 10, -10), Vec3(1, -10, -10), Vec3(10, 0, -10)),
        Triangle(Vec3(10, 0, -10), Vec3(10, -10, -10), Vec3(1, -10, -10)) ]
    // INV_BOT_LEFT
    else if index == 12 then
      [ Triangle(Vec3(10, 10, -10), Vec3(1, 10, -10), Vec3(10, 1, -10)),
        Triangle(Vec3(1, 10, -10), Vec3(-10, 10, -10), Vec3(-10, -1, -10)),
        Triangle(Vec3(1, 10, -10), Vec3(-10, -1, -10), Vec3(10, 1, -10)),
        Triangle(Vec3(10, 1, -10), Vec3(-10, -1, -10), Vec3(-1, -10, -10)),
        Triangle(Vec3(-1, -10, -10), Vec3(10, -10, -10), Vec3(10, 1, -10)) ]
    // INV_TOP_LEFT
    else if index == 13 then
      [ Triangle(Vec3(-10, -10, -10), Vec3(1, -10, -10), Vec3(-10, 1, -10)),
        Triangle(Vec3(1, -10, -10), Vec3(10, -10, -10), Vec3(10, -1, -10)),
        Triangle(Vec3(10, -1, -10), Vec3(10, 10, -10), Vec3(-1, 10, -10)),
        Triangle(Vec3(-1, 10, -10), Vec3(-10, 1, -10), Vec3(10, -1, -10)),
        Triangle(Vec3(10, -1, -10), Vec3(1, -10, -10), Vec3(-10, 1, -10)) ]
    // FILLED
    else
      [ Triangle(Vec3(0, 10, -10), Vec3(-10, 10, -10), Vec3(-10, 0, -10)),
        Triangle(Vec3(-10, 0, -10), Vec3(10, 0, -10), Vec3(0, 10, -10)),
        Triangle(Vec3(10, 0, -10), Vec3(10, 10, -10), Vec3(0, 10, -10)),
        Triangle(Vec3(0, -10, -10), Vec3(10, -10, -10), Vec3(10, 0, -10)),
        Triangle(Vec3(10, 0, -10), Vec3(-10, 0, -10), Vec3(0, -10, -10)),
        Triangle(Vec3(-10, 0, -10), Vec3(-10, -10, -10), Vec3(0, -10, -10)) ]
  }

  /**
   * Every vertex of the pattern lies in the cell-local square [-1, 1] x [-1, 1]
   * (in tenths) on the plane z = -1.
   */
  predicate InCellPlane(p: seq<Triangle>)
  {
    forall i :: 0 <= i < |p| ==> InCell(p[i].a) && InCell(p[i].b) && InCell(p[i].c)
  }

  predicate InCell(v: Vec3)
  {
    -10 <= v.x <= 10 && -10 <= v.y <= 10 && v.z == -10
  }

  /**
   * Corner k of a cell in cell-local tenths, numbered by its mask bit:
   * bit 0 top-left (p0), bit 1 bottom-left (p1), bit 2 bottom-right (p2),
   * bit 3 top-right (p3).
   */
  function Corner(k: nat): Vec3
    requires k < 4
  {
    Vec3(if k <= 1 then -10 else 10, if k == 0 || k == 3 then 10 else -10, -10)
  }

  /** Bit k of a mask. */
  predicate HasBit(m: bv4, k: nat)
    requires k < 4
  {
    (m >> k) & 1 == 1
  }

  /** The number of corners set in a mask. */
  function CornerCount(m: bv4): nat
  {
    (if HasBit(m, 0) then 1 else 0) + (if HasBit(m, 1) then 1 else 0) +
    (if HasBit(m, 2) then 1 else 0) + (if HasBit(m, 3) then 1 else 0)
  }

  /** The two masks whose corners are diagonally opposite. */
  predicate IsDiagonal(m: bv4)
  {
    m == 5 || m == 10
  }

  /** Each of the fifteen patterns lies inside the cell-local square. */
  lemma LookupInCell(index: int)
    requires 0 <= index < 15
    ensures InCellPlane(SquareStateLookup(index))
  {
    if index < 8 {
      LookupInCellLow(index);
    } else {
      LookupInCellHigh(index);
    }
  }

  /** The patterns for masks 1 to 8 (TOP_LEFT to TOP_RIGHT) lie inside the cell-local square. */
  lemma LookupInCellLow(index: int)
    requires 0 <= index < 8
    ensures InCellPlane(SquareStateLookup(index))
  {
  }

  /** The patterns for masks 9 to 15 (UPPER to FILLED) lie inside the cell-local square. */
  lemma LookupInCellHigh(index: int)
    requires 8 <= index < 15
    ensures InCellPlane(SquareStateLookup(index))
  {
  }

  /**
   * Table entry m - 1, the entry at the ordinal activateSquare stores for
   * mask m, has one triangle for a single corner, three
   * for two adjacent corners, four for the two diagonal cases, five for three
   * corners and six for the full cell.
   */
  lemma LookupTriangles(m: bv4)
    requires m != 0
    ensures |SquareStateLookup(m as int - 1)| ==
      (match CornerCount(m)
         case 1 => 1
         case 2 => if IsDiagonal(m) then 4 else 3
         case 3 => 5
         case _ => 6)
  {
  }

  /**
   * Table entry m - 1, the entry at the ordinal activateSquare stores for
   * mask m, reaches corner k of the cell exactly when bit k of m is set: the
   * table follows the corner-bit convention.
   */
  lemma LookupCorners(m: bv4, k: nat)
    requires m != 0 && k < 4
    ensures HasVertex(SquareStateLookup(m as int - 1), Corner(k)) <==> HasBit(m, k)
  {
    if m < 8 {
      LookupCornersLow(m, k);
    } else {
      LookupCornersHigh(m, k);
    }
  }

  /** LookupCorners for the masks 1 to 7. */
  lemma LookupCornersLow(m: bv4, k: nat)
    requires 0 < m < 8 && k < 4
    ensures HasVertex(SquareStateLookup(m as int - 1), Corner(k)) <==> HasBit(m, k)
  {
    var p := SquareStateLookup(m as int - 1);
    if m == 1 {
      assert k == 0 ==> p[0].b == Corner(0);
    } else if m == 2 {
      assert k == 1 ==> p[0].a == Corner(1);
    } else if m == 3 {
      assert k == 0 ==> p[2].b == Corner(0);
      assert k == 1 ==> p[0].a == Corner(1);
    } else if m == 4 {
      assert k == 2 ==> p[0].b == Corner(2);
    } else if m == 5 {
      assert k == 0 ==> p[1].b == Corner(0);
      assert k == 2 ==> p[0].b == Corner(2);
    } else if m == 6 {
      assert k == 1 ==> p[2].b == Corner(1);
      assert k == 2 ==> p[0].b == Corner(2);
    } else if m == 7 {
      assert k == 0 ==> p[4].b == Corner(0);
      assert k == 1 ==> p[0].a == Corner(1);
      assert k == 2 ==> p[1].b == Corner(2);
    }
  }

  /** LookupCorners for the masks 8 to 15. */
  lemma LookupCornersHigh(m: bv4, k: nat)
    requires 8 <= m && k < 4
    ensures HasVertex(SquareStateLookup(m as int - 1), Corner(k)) <==> HasBit(m, k)
  {
    var p := SquareStateLookup(m as int - 1);
    if m == 8 {
      assert k == 3 ==> p[0].b == Corner(3);
    } else if m == 9 {
      assert k == 0 ==> p[0].b == Corner(0);
      assert k == 3 ==> p[2].b == Corner(3);
    } else if m == 10 {
      assert k == 1 ==> p[0].a == Corner(1);
      assert k == 3 ==> p[3].b == Corner(3);
    } else if m == 11 {
      assert k == 0 ==> p[1].b == Corner(0);
      assert k == 1 ==> p[2].b == Corner(1);
      assert k == 3 ==> p[0].a == Corner(3);
    } else if m == 12 {
      assert k == 2 ==> p[2].b == Corner(2);
      assert k == 3 ==> p[0].a == Corner(3);
    } else if m == 13 {
      assert k == 0 ==> p[1].b == Corner(0);
      assert k == 2 ==> p[4].b == Corner(2);
      assert k == 3 ==> p[0].a == Corner(3);
    } else if m == 14 {
      assert k == 1 ==> p[0].a == Corner(1);
      assert k == 2 ==> p[1].b == Corner(2);
      assert k == 3 ==> p[2].b == Corner(3);
    } else if m == 15 {
      assert k == 0 ==> p[0].b == Corner(0);
      assert k == 1 ==> p[5].b == Corner(1);
      assert k == 2 ==> p[3].b == Corner(2);
      assert k == 3 ==> p[2].b == Corner(3);
    }
  }

  /**
   * draw subtracts one from the stored ordinal once more before it indexes
   * the table, so a cell activated with mask m >= 2 is drawn with entry
   * m - 2: the pattern of mask m - 1, whose corners are the bits of m - 1.
   */
  lemma DrawnPatternLagsMask(m: bv4, k: nat)
    requires 2 <= m && k < 4
    ensures StateForMask(m as int) as int - 1 == m as int - 2
    ensures HasVertex(SquareStateLookup(StateForMask(m as int) as int - 1), Corner(k)) <==> HasBit(m - 1, k)
  {
    LookupCorners(m - 1, k);
  }

  /** Some triangle of p has v as a vertex. */
  predicate HasVertex(p: seq<Triangle>, v: Vec3)
  {
    exists i :: 0 <= i < |p| && (p[i].a == v || p[i].b == v || p[i].c == v)
  }
}
