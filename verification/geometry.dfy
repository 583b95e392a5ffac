/** Points, vectors and 2D affine transforms over exact reals.
    `Vec2`/`Vec3` stand for Unity's `Vector2`/`Vector3`; `Affine` stands for the
    vector-graphics package's `Matrix2D`, a 2x3 affine matrix whose product with a
    point applies the linear part and then the translation. */
module Geometry {

  datatype Vec2 = Vec2(x: real, y: real)

  datatype Vec3 = Vec3(x: real, y: real, z: real)

  function Add(a: Vec2, b: Vec2): Vec2 {
    Vec2(a.x + b.x, a.y + b.y)
  }

  function Sub(a: Vec2, b: Vec2): Vec2 {
    Vec2(a.x - b.x, a.y - b.y)
  }

  function Scale(a: Vec2, k: real): Vec2 {
    Vec2(a.x * k, a.y * k)
  }

  /** `ps.Select(v => v.x)`. */
  function Xs(ps: seq<Vec2>): (r: seq<real>)
    ensures |r| == |ps| && forall i :: 0 <= i < |ps| ==> r[i] == ps[i].x
  {
    seq(|ps|, i requires 0 <= i < |ps| => ps[i].x)
  }

  /** `ps.Select(v => v.y)`. */
  function Ys(ps: seq<Vec2>): (r: seq<real>)
    ensures |r| == |ps| && forall i :: 0 <= i < |ps| ==> r[i] == ps[i].y
  {
    seq(|ps|, i requires 0 <= i < |ps| => ps[i].y)
  }

  /** `v.y *= -1`, the conversion between the SVG's top-down and the engine's
      bottom-up vertical axis. */
  function FlipY(a: Vec2): (r: Vec2)
    ensures r.x == a.x && r.y == -a.y
  {
    Vec2(a.x, -a.y)
  }

  /** The implicit `Vector2 -> Vector3` conversion: z becomes 0. */
  function To3(a: Vec2): Vec3 {
    Vec3(a.x, a.y, 0.0)
  }

  function Add3(a: Vec3, b: Vec3): Vec3 {
    Vec3(a.x + b.x, a.y + b.y, a.z + b.z)
  }

  function Sub3(a: Vec3, b: Vec3): Vec3 {
    Vec3(a.x - b.x, a.y - b.y, a.z - b.z)
  }

  /** Row-major 2x3 affine matrix:
        | m00 m01 m02 |
        | m10 m11 m12 |
      with an implicit last row (0 0 1). */
  datatype Affine = Affine(m00: real, m01: real, m02: real,
                           m10: real, m11: real, m12: real)

  const Identity: Affine := Affine(1.0, 0.0, 0.0, 0.0, 1.0, 0.0)

  /** `matrix * point` for a `Matrix2D` and a `Vector2`. */
  function Apply(m: Affine, p: Vec2): Vec2 {
    Vec2(m.m00 * p.x + m.m01 * p.y + m.m02,
         m.m10 * p.x + m.m11 * p.y + m.m12)
  }

  /** `a * b` for two `Matrix2D`s: the matrix that applies `b` first, then `a`. */
  function Compose(a: Affine, b: Affine): Affine
  {
    Affine(a.m00 * b.m00 + a.m01 * b.m10,
           a.m00 * b.m01 + a.m01 * b.m11,
           a.m00 * b.m02 + a.m01 * b.m12 + a.m02,
           a.m10 * b.m00 + a.m11 * b.m10,
           a.m10 * b.m01 + a.m11 * b.m11,
           a.m10 * b.m02 + a.m11 * b.m12 + a.m12)
  }

  /** Flipping twice gives the point back. */
  lemma FlipYInvolution(a: Vec2)
    ensures FlipY(FlipY(a)) == a
  {
  }

  /** Applying a composed matrix is applying its factors right to left. */
  lemma ComposeApply(a: Affine, b: Affine, p: Vec2)
    ensures Apply(Compose(a, b), p) == Apply(a, Apply(b, p))
  {
    ComposedRow(a.m00, a.m01, a.m02, b.m00, b.m01, b.m02, b.m10, b.m11, b.m12, p.x, p.y);
    assert Apply(Compose(a, b), p).x == Apply(a, Apply(b, p)).x;
    ComposedRow(a.m10, a.m11, a.m12, b.m00, b.m01, b.m02, b.m10, b.m11, b.m12, p.x, p.y);
    assert Apply(Compose(a, b), p).y == Apply(a, Apply(b, p)).y;
  }

  /** One row of `ComposeApply`: a polynomial identity in the matrix entries. */
  lemma ComposedRow(c0: real, c1: real, c2: real,
                    b00: real, b01: real, b02: real, b10: real, b11: real, b12: real,
                    x: real, y: real)
    ensures (c0 * b00 + c1 * b10) * x + (c0 * b01 + c1 * b11) * y + (c0 * b02 + c1 * b12 + c2)
         == c0 * (b00 * x + b01 * y + b02) + c1 * (b10 * x + b11 * y + b12) + c2
  {
  }

  lemma IdentityIsNeutral(m: Affine)
    ensures Compose(Identity, m) == m
    ensures Compose(m, Identity) == m
    ensures forall p :: Apply(Identity, p) == p
  {
  }
}
