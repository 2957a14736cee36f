/** Plain value types standing in for the rendering library's vector and colour
    objects, with the vector arithmetic the normal computation uses. Coordinates
    are exact reals: floating-point rounding is not modelled. */
module Vectors {

  /** A 3D position or direction. */
  datatype Vec3 = Vec3(x: real, y: real, z: real)

  /** A vertex colour with red, green and blue channels. */
  datatype Rgb = Rgb(r: real, g: real, b: real)

  const Zero := Vec3(0.0, 0.0, 0.0)

  function Add(p: Vec3, q: Vec3): Vec3
  {
    Vec3(p.x + q.x, p.y + q.y, p.z + q.z)
  }

  function Sub(p: Vec3, q: Vec3): (r: Vec3)
    ensures Add(r, q) == p
  {
    Vec3(p.x - q.x, p.y - q.y, p.z - q.z)
  }

  function Neg(p: Vec3): (r: Vec3)
    ensures Add(p, r) == Zero
  {
    Vec3(-p.x, -p.y, -p.z)
  }

  function Dot(p: Vec3, q: Vec3): real
  {
    p.x * q.x + p.y * q.y + p.z * q.z
  }

  /** The right-handed cross product p x q. */
  function Cross(p: Vec3, q: Vec3): (r: Vec3)
    ensures Dot(r, p) == 0.0 && Dot(r, q) == 0.0
  {
    var r := Vec3(p.y * q.z - p.z * q.y, p.z * q.x - p.x * q.z, p.x * q.y - p.y * q.x);
    assert Dot(r, p) == 0.0 by { OrthogonalTerms(p, q); }
    assert Dot(r, q) == 0.0 by { OrthogonalTerms(p, q); }
    r
  }

  /** Expanding both dot products leaves terms that cancel pairwise. */
  lemma OrthogonalTerms(p: Vec3, q: Vec3)
    ensures (p.y * q.z - p.z * q.y) * p.x + (p.z * q.x - p.x * q.z) * p.y + (p.x * q.y - p.y * q.x) * p.z == 0.0
    ensures (p.y * q.z - p.z * q.y) * q.x + (p.z * q.x - p.x * q.z) * q.y + (p.x * q.y - p.y * q.x) * q.z == 0.0
  {
  }

  /** Swapping the operands of a cross product reverses its direction. */
  lemma CrossAntiCommutes(p: Vec3, q: Vec3)
    ensures Cross(q, p) == Neg(Cross(p, q))
  {
  }

  /** The product is right-handed: x cross y is z. */
  lemma CrossRightHanded()
    ensures Cross(Vec3(1.0, 0.0, 0.0), Vec3(0.0, 1.0, 0.0)) == Vec3(0.0, 0.0, 1.0)
  {
  }

  /** Lagrange's identity: the squared length of p x q is |p|^2 |q|^2 - (p . q)^2,
      the squared area of the parallelogram p and q span. */
  lemma CrossMagnitude(p: Vec3, q: Vec3)
    ensures Dot(Cross(p, q), Cross(p, q)) == Dot(p, p) * Dot(q, q) - Dot(p, q) * Dot(p, q)
  {
  }

  lemma AddAssociates(p: Vec3, q: Vec3, s: Vec3)
    ensures Add(Add(p, q), s) == Add(p, Add(q, s))
  {
  }

  lemma AddCommutes(p: Vec3, q: Vec3)
    ensures Add(p, q) == Add(q, p)
  {
  }

  lemma AddZero(p: Vec3)
    ensures Add(p, Zero) == p && Add(Zero, p) == p
  {
  }
}
