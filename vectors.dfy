/**
 * Three- and four-component vectors and the vector arithmetic the marching
 * squares engine uses. On every path the program runs, positions, headings,
 * corners and normals have whole-number coordinates, so `Vec3` is over `int`;
 * colours are never computed on and are kept as `real`.
 */
module Vectors {

  datatype Vec3 = Vec3(x: int, y: int, z: int)

  /** An RGBA colour (the source's vec4). */
  datatype Vec4 = Vec4(x: real, y: real, z: real, w: real)

  const Zero: Vec3 := Vec3(0, 0, 0)

  /** operator+ : component-wise sum. */
  function Add(u: Vec3, v: Vec3): (r: Vec3)
  {
    Vec3(u.x + v.x, u.y + v.y, u.z + v.z)
  }

  /** operator- : component-wise difference. */
  function Sub(u: Vec3, v: Vec3): (r: Vec3)
    ensures r == Zero <==> u == v
  {
    Vec3(u.x - v.x, u.y - v.y, u.z - v.z)
  }

  /** operator* : scaling by a scalar. */
  function Scale(v: Vec3, s: int): (r: Vec3)
    ensures s == 1 ==> r == v
    ensures s == 0 || v == Zero ==> r == Zero
  {
    Vec3(v.x * s, v.y * s, v.z * s)
  }

  function Dot(u: Vec3, v: Vec3): int
  {
    u.x * v.x + u.y * v.y + u.z * v.z
  }

  /** cross : the vector product. */
  function Cross(u: Vec3, v: Vec3): (r: Vec3)
    ensures u == v || u == Zero || v == Zero ==> r == Zero
  {
    Vec3(u.y * v.z - u.z * v.y, u.z * v.x - u.x * v.z, u.x * v.y - u.y * v.x)
  }

  /**
   * operator/ by the scalar 2, on a vector whose components are even: then the
   * division is exact, which is the only way the model uses it (a cell's
   * centre is (p0 + p2) / 2 and p0 + p2 has even components).
   */
  function Half(v: Vec3): (r: Vec3)
    requires v.x % 2 == 0 && v.y % 2 == 0 && v.z % 2 == 0
    ensures r.x + r.x == v.x && r.y + r.y == v.y && r.z + r.z == v.z
  {
    Vec3(v.x / 2, v.y / 2, v.z / 2)
  }

  /**
   * Subtraction undoes addition, of either summand; addition commutes; and
   * subtraction is addition of the negation.
   */
  lemma SubUndoesAdd(u: Vec3, v: Vec3)
    ensures Sub(Add(u, v), v) == u && Sub(Add(u, v), u) == v
    ensures Add(u, v) == Add(v, u)
    ensures Sub(u, v) == Add(u, Scale(v, -1))
  {
  }

  /** Scaling distributes over the sum: a ball moving twice moves by the sum. */
  lemma ScaleDistributes(u: Vec3, v: Vec3, s: int)
    ensures Scale(Add(u, v), s) == Add(Scale(u, s), Scale(v, s))
  {
  }

  /** The cross product is perpendicular to both factors and anti-commutes. */
  lemma CrossPerpendicular(u: Vec3, v: Vec3)
    ensures Dot(Cross(u, v), u) == 0 && Dot(Cross(u, v), v) == 0
    ensures Cross(v, u) == Scale(Cross(u, v), -1)
  {
  }
}
