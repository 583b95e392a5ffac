/** `MergedPathes`: the merge of the first two child paths into one, and the
    intersection test of two line segments by Cramer's rule with a strict
    x-range check. */
module MergedPaths {
  import opened Geometry
  import opened Linq
  import opened Results
  import Mathf

  /** The serialized `Line` struct. */
  datatype Line = Line(start: Vec2, end: Vec2)

  /** The `bool` result and the `out` point of `LineIntersection`. */
  datatype Intersection = Intersection(success: bool, point: Vec2)

  /** A child `PathObject`: its local points and the world transform its
      `TransformPoint` applies. */
  datatype PathObject = PathObject(path: seq<Vec2>, transform: Affine)

  datatype MergeError =
    /** `pathes[0]` or `pathes[1]` past the end of the list throws. */
    | TooFewPaths

  /** `a * x + b * y = c`: the implicit equation the code forms for a line
      through both endpoints. */
  function A(l: Line): real { l.end.y - l.start.y }
  function B(l: Line): real { l.start.x - l.end.x }
  function C(l: Line): real { A(l) * l.start.x + B(l) * l.start.y }

  /** The determinant `a1 * b2 - a2 * b1` of two line equations. */
  function Det(a1: real, b1: real, a2: real, b2: real): real {
    a1 * b2 - a2 * b1
  }

  /** `delta`: the determinant of the two lines' equations. */
  function Delta(l1: Line, l2: Line): real {
    Det(A(l1), B(l1), A(l2), B(l2))
  }

  /** `min < x && x < max` over one line's endpoint x's. */
  predicate StrictlyInsideX(l: Line, x: real) {
    var (lo, hi) := (Mathf.Min(l.start.x, l.end.x), Mathf.Max(l.start.x, l.end.x));
    lo < x < hi
  }

  /** `LineIntersection(l1, l2, out point)`. */
  function LineIntersection(l1: Line, l2: Line): (r: Intersection)
    ensures Delta(l1, l2) == 0.0 ==> !r.success && r.point == Vec2(0.0, 0.0)
    ensures r.success ==> StrictlyInsideX(l1, r.point.x) && StrictlyInsideX(l2, r.point.x)
  {
    var delta := Delta(l1, l2);
    var success := 0.0 != delta;
    var point := if success
                 then Solve(A(l1), B(l1), C(l1), A(l2), B(l2), C(l2))
                 else Vec2(0.0, 0.0);
    var success := success && StrictlyInsideX(l1, point.x);
    var success := success && StrictlyInsideX(l2, point.x);
    Intersection(success, point)
  }

  /** `p` is on the infinite line through both endpoints of `l`. */
  predicate OnLine(l: Line, p: Vec2) {
    (l.end.x - l.start.x) * (p.y - l.start.y) == (l.end.y - l.start.y) * (p.x - l.start.x)
  }

  /** The implicit equation the code solves is the collinearity of the point
      with the endpoints. */
  lemma EquationIsOnLine(l: Line, p: Vec2)
    ensures A(l) * p.x + B(l) * p.y == C(l) <==> OnLine(l, p)
  {
    assert A(l) * p.x + B(l) * p.y - C(l)
        == (l.end.y - l.start.y) * (p.x - l.start.x) - (l.end.x - l.start.x) * (p.y - l.start.y);
  }

  /** Cramer's rule for `a1 x + b1 y = c1`, `a2 x + b2 y = c2`, as the code
      writes it out. */
  function Solve(a1: real, b1: real, c1: real, a2: real, b2: real, c2: real): Vec2
    requires Det(a1, b1, a2, b2) != 0.0
  {
    Vec2((b2 * c1 - b1 * c2) / (a1 * b2 - a2 * b1), (a1 * c2 - a2 * c1) / (a1 * b2 - a2 * b1))
  }

  /** The Cramer solution satisfies both equations. */
  lemma SolvesSystem(a1: real, b1: real, c1: real, a2: real, b2: real, c2: real)
    requires Det(a1, b1, a2, b2) != 0.0
    ensures var p := Solve(a1, b1, c1, a2, b2, c2);
            a1 * p.x + b1 * p.y == c1 && a2 * p.x + b2 * p.y == c2
  {
    var d := a1 * b2 - a2 * b1;
    var p := Solve(a1, b1, c1, a2, b2, c2);
    var (x, y) := (p.x, p.y);
    assert x * d == b2 * c1 - b1 * c2;
    assert y * d == a1 * c2 - a2 * c1;
    assert (a1 * x + b1 * y) * d == a1 * (x * d) + b1 * (y * d);
    assert (a1 * x + b1 * y) * d == c1 * d;
    assert (a2 * x + b2 * y) * d == a2 * (x * d) + b2 * (y * d);
    assert (a2 * x + b2 * y) * d == c2 * d;
  }

  /** Any solution of the system is the Cramer solution. */
  lemma UniqueSolution(a1: real, b1: real, c1: real, a2: real, b2: real, c2: real, q: Vec2)
    requires Det(a1, b1, a2, b2) != 0.0
    requires a1 * q.x + b1 * q.y == c1 && a2 * q.x + b2 * q.y == c2
    ensures q == Solve(a1, b1, c1, a2, b2, c2)
  {
    var d := a1 * b2 - a2 * b1;
    var (x, y) := (q.x, q.y);
    assert b2 * c1 - b1 * c2 == b2 * (a1 * x + b1 * y) - b1 * (a2 * x + b2 * y);
    assert b2 * c1 - b1 * c2 == x * d;
    assert a1 * c2 - a2 * c1 == a1 * (a2 * x + b2 * y) - a2 * (a1 * x + b1 * y);
    assert a1 * c2 - a2 * c1 == y * d;
  }

  /** Cramer's rule: when the determinant is not 0 the computed point lies on
      both lines. */
  lemma CramerSolves(l1: Line, l2: Line)
    requires Delta(l1, l2) != 0.0
    ensures OnLine(l1, LineIntersection(l1, l2).point) && OnLine(l2, LineIntersection(l1, l2).point)
  {
    var p := Solve(A(l1), B(l1), C(l1), A(l2), B(l2), C(l2));
    assert LineIntersection(l1, l2).point == p;
    SolvesSystem(A(l1), B(l1), C(l1), A(l2), B(l2), C(l2));
    EquationIsOnLine(l1, p);
    EquationIsOnLine(l2, p);
  }

  /** ... and it is the only point that does. */
  lemma CramerUnique(l1: Line, l2: Line, q: Vec2)
    requires Delta(l1, l2) != 0.0
    requires OnLine(l1, q) && OnLine(l2, q)
    ensures q == LineIntersection(l1, l2).point
  {
    EquationIsOnLine(l1, q);
    EquationIsOnLine(l2, q);
    UniqueSolution(A(l1), B(l1), C(l1), A(l2), B(l2), C(l2), q);
    IntersectionPoint(l1, l2);
  }

  /** With a non-zero determinant the point is the Cramer solution. */
  lemma IntersectionPoint(l1: Line, l2: Line)
    requires Delta(l1, l2) != 0.0
    ensures LineIntersection(l1, l2).point == Solve(A(l1), B(l1), C(l1), A(l2), B(l2), C(l2))
  {
  }

  /** Success exactly when the lines cross at a single point whose x lies
      strictly inside both segments' x ranges. */
  lemma IntersectionSucceeds(l1: Line, l2: Line)
    ensures LineIntersection(l1, l2).success
        <==> Delta(l1, l2) != 0.0
             && StrictlyInsideX(l1, LineIntersection(l1, l2).point.x)
             && StrictlyInsideX(l2, LineIntersection(l1, l2).point.x)
  {
  }

  /** A vertical segment has an empty open x range, so it never intersects. */
  lemma VerticalNeverIntersects(l1: Line, l2: Line)
    requires l1.start.x == l1.end.x || l2.start.x == l2.end.x
    ensures !LineIntersection(l1, l2).success
  {
  }

  /** `po.Path.Select(p => (Vector2)po.transform.TransformPoint(p))`. */
  function WorldPath(po: PathObject): (r: seq<Vec2>)
    ensures |r| == |po.path|
    ensures forall i :: 0 <= i < |po.path| ==> r[i] == Apply(po.transform, po.path[i])
  {
    seq(|po.path|, i requires 0 <= i < |po.path| => Apply(po.transform, po.path[i]))
  }

  /** `Merge()`: the first child's world path followed by the second's; the
      other children are ignored. */
  function Merge(children: seq<PathObject>): (r: Result<seq<Vec2>, MergeError>)
    ensures r.Err? <==> |children| < 2
    ensures r.Ok? ==> |r.value| == |children[0].path| + |children[1].path|
  {
    if |children| < 2 then Err(TooFewPaths)
    else Ok(WorldPath(children[0]) + WorldPath(children[1]))
  }

  /** Splitting the merged path at the first path's length gives back both world
      paths, point for point. */
  lemma MergeSplits(children: seq<PathObject>)
    requires |children| >= 2
    ensures var m := Merge(children).value;
            var n := |children[0].path|;
            && (forall i :: 0 <= i < n ==> m[i] == Apply(children[0].transform, children[0].path[i]))
            && (forall j :: 0 <= j < |children[1].path| ==>
                  m[n + j] == Apply(children[1].transform, children[1].path[j]))
  {
  }
}
