/** The parts of the splines package the core builds and reads: knots with
    tangents, splines as knot lists with a closed flag, and the cubic curve
    between two consecutive knots. Knot rotation is always the identity here. */
module Splines {
  import opened Geometry

  /** `BezierKnot(position, tangentIn, tangentOut)`; the tangents are offsets
      from the position. */
  datatype Knot = Knot(position: Vec3, tangentIn: Vec3, tangentOut: Vec3)

  datatype Spline = Spline(knots: seq<Knot>, closed: bool)

  /** A cubic `BezierCurve` by its four control points. */
  datatype Curve = Curve(p0: Vec3, p1: Vec3, p2: Vec3, p3: Vec3)

  /** `new BezierCurve(a, b)`: from one knot's position along its out tangent,
      and into the next knot's position along its in tangent. */
  function CurveBetween(a: Knot, b: Knot): Curve {
    Curve(a.position, Add3(a.position, a.tangentOut), Add3(b.position, b.tangentIn), b.position)
  }

  /** `(idx + 1) % count`: the following position, wrapping to the first. */
  function NextIndex(idx: nat, count: nat): (r: nat)
    requires idx < count
    ensures r < count && r == (idx + 1) % count
  {
    if idx + 1 < count then idx + 1 else 0
  }

  /** `(count + idx - 1) % count`: the preceding position, wrapping to the last. */
  function PrevIndex(idx: nat, count: nat): (r: nat)
    requires idx < count
    ensures r < count && r == (count + idx - 1) % count
  {
    var r := if idx == 0 then count - 1 else idx - 1;
    ShiftedRemainder(r, count);
    r
  }

  /** A value below `count`, shifted up by `count` or not, leaves itself as the
      remainder. */
  lemma ShiftedRemainder(a: int, count: int)
    requires 0 <= a < count
    ensures a % count == a && (count + a) % count == a
  {
    assert (count + a) / count == 1;
  }
}
