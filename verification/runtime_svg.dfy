/** `RuntimeSvg.OnEnable`: every contour of the scene, collected by
    `GetAllBeziers` without any transform, is tessellated, centred on the mean of
    its own points, scaled by 50 over the mean's height, flipped, and stripped
    of repeats; the fan mesh is built from the resulting paths. The
    mesh builder is the same one `LaserMeshGenerator` uses. */
module RuntimeSvg {
  import opened Geometry
  import opened Linq
  import opened Results
  import opened SvgScene
  import opened Tessellation
  import FanMesh

  type Path = seq<Vec2>

  datatype RuntimeError =
    /** `Average()` of an empty polyline throws. */
    | EmptyPolyline
    /** A polyline whose mean has y = 0 is scaled by `50f / 0`. */
    | CentreOnAxis
    /** The fan-mesh builder rejected the paths. */
    | MeshFailed(error: FanMesh.MeshError)

  /** `new Vector2(path.Average(v2 => v2.x), path.Average(v2 => v2.y))`. */
  function Mean(path: Path): Vec2
    requires |path| > 0
  {
    Vec2(Average(Xs(path)), Average(Ys(path)))
  }

  /** The per-point lambda: subtract the centre, scale by `50 / center.y`, flip y. */
  function CentrePoint(p: Vec2, center: Vec2): Vec2
    requires center.y != 0.0
  {
    FlipY(Scale(Sub(p, center), 50.0 / center.y))
  }

  /** The inverse of the per-point lambda. */
  function UncentrePoint(u: Vec2, center: Vec2): Vec2 {
    Add(Scale(FlipY(u), center.y / 50.0), center)
  }

  lemma CentreRoundTrip(p: Vec2, center: Vec2)
    requires center.y != 0.0
    ensures UncentrePoint(CentrePoint(p, center), center) == p
  {
    var k := 50.0 / center.y;
    assert k * (center.y / 50.0) == 1.0;
    assert (p.x - center.x) * k * (center.y / 50.0) == p.x - center.x;
    assert -(-((p.y - center.y) * k)) * (center.y / 50.0) == p.y - center.y;
  }

  lemma UncentreRoundTrip(u: Vec2, center: Vec2)
    requires center.y != 0.0
    ensures CentrePoint(UncentrePoint(u, center), center) == u
  {
    var k := 50.0 / center.y;
    assert (center.y / 50.0) * k == 1.0;
    assert u.x * (center.y / 50.0) * k == u.x;
    assert -u.y * (center.y / 50.0) * k == -u.y;
  }

  /** The per-point lambda over a polyline. */
  function Centred(path: Path, center: Vec2): (r: Path)
    requires center.y != 0.0
    ensures |r| == |path|
    ensures forall i :: 0 <= i < |path| ==> r[i] == CentrePoint(path[i], center)
  {
    seq(|path|, i requires 0 <= i < |path| => CentrePoint(path[i], center))
  }

  lemma CentredAppend(a: Path, b: Path, center: Vec2)
    requires center.y != 0.0
    ensures Centred(a + b, center) == Centred(a, center) + Centred(b, center)
  {
  }

  /** Tessellated points `TessellatedPath` rejects: none at all, or a mean on
      the x axis. */
  predicate FailingPoints(points: Path) {
    |points| == 0 || Mean(points).y == 0.0
  }

  /** Some contour tessellates to points `TessellatedPath` rejects. */
  predicate SomeContourFails(cs: seq<Contour>, tessellate: Tessellator, options: TessellationOptions) {
    exists k :: 0 <= k < |cs| && FailingPoints(tessellate(cs[k], options))
  }

  /** `TessellateBezierPath` after the tessellator: the centre is the mean of the
      tessellated points, taken before a closed contour gets its first point
      appended; then every point is centred and `Distinct` drops repeats. The
      appended closing point is a repeat, so `Distinct` removes it again and the
      closed flag makes no difference. */
  function TessellatedPath(points: Path, closed: bool): (r: Result<Path, RuntimeError>)
    ensures r == Err(EmptyPolyline) <==> |points| == 0
    ensures |points| > 0 ==> (r == Err(CentreOnAxis) <==> Mean(points).y == 0.0)
    ensures r.Err? ==> r.error == EmptyPolyline || r.error == CentreOnAxis
    ensures r.Ok? ==> r.value == Distinct(Centred(points, Mean(points)))
  {
    if |points| == 0 then Err(EmptyPolyline)
    else
      var center := Mean(points);
      if center.y == 0.0 then Err(CentreOnAxis)
      else
        var path := if closed then points + [points[0]] else points;
        CentredAppend(points, [points[0]], center);
        DistinctIgnoresRepeat(Centred(points, center), CentrePoint(points[0], center));
        Ok(Distinct(Centred(path, center)))
  }

  /** `TessellatedPath` succeeds exactly when there are points and their mean
      is off the x axis. */
  lemma TessellatedPathSucceeds(points: Path, closed: bool)
    ensures TessellatedPath(points, closed).Ok? <==> |points| > 0 && Mean(points).y != 0.0
  {
  }

  /** The polyline has no repeated point, holds the centred image of every
      tessellated point and nothing else, in first-occurrence order. */
  lemma TessellatedPathContents(points: Path, closed: bool)
    requires |points| > 0 && Mean(points).y != 0.0
    ensures var centred := Centred(points, Mean(points));
            && TessellatedPath(points, closed) == Ok(Distinct(centred))
            && NoDuplicates(Distinct(centred))
            && (forall q :: q in Distinct(centred) <==> q in centred)
            && InFirstOccurrenceOrder(centred, Distinct(centred))
  {
    var centred := Centred(points, Mean(points));
    DistinctSameElements(centred);
    DistinctKeepsFirstOccurrenceOrder(centred);
  }

  /** The centre really is the mean: the centred points, before `Distinct`,
      balance around the origin in both coordinates. */
  lemma CentredPointsBalance(points: Path)
    requires |points| > 0 && Mean(points).y != 0.0
    ensures Sum(Xs(Centred(points, Mean(points)))) == 0.0
    ensures Sum(Ys(Centred(points, Mean(points)))) == 0.0
  {
    CentredXsBalance(points);
    CentredYsBalance(points);
  }

  lemma CentredXsBalance(points: Path)
    requires |points| > 0 && Mean(points).y != 0.0
    ensures Sum(Xs(Centred(points, Mean(points)))) == 0.0
  {
    var c := Mean(points);
    var k := 50.0 / c.y;
    var xs := Xs(Centred(points, c));
    forall i | 0 <= i < |points|
      ensures xs[i] == (Xs(points)[i] - c.x) * k
    {
    }
    SumAroundAverage(Xs(points), xs, k);
  }

  lemma CentredYsBalance(points: Path)
    requires |points| > 0 && Mean(points).y != 0.0
    ensures Sum(Ys(Centred(points, Mean(points)))) == 0.0
  {
    var c := Mean(points);
    var k := 50.0 / c.y;
    var ys := Ys(Centred(points, c));
    forall i | 0 <= i < |points|
      ensures ys[i] == (Ys(points)[i] - c.y) * -k
    {
    }
    SumAroundAverage(Ys(points), ys, -k);
  }

  /** The scale `50 / center.y` is chosen so that the axis y = 0 lands at height
      50: a point maps there exactly when it lies on that axis. */
  lemma AxisLandsAtFifty(p: Vec2, center: Vec2)
    requires center.y != 0.0
    ensures CentrePoint(p, center).y == 50.0 <==> p.y == 0.0
  {
    var k := 50.0 / center.y;
    assert center.y * k == 50.0;
    if CentrePoint(p, center).y == 50.0 {
      assert (p.y - center.y) * k == -50.0;
      assert p.y * k == 0.0;
    }
  }

  /** The polylines of the contours, in contour order. */
  function Polylines(cs: seq<Contour>, tessellate: Tessellator, options: TessellationOptions)
    : (r: Result<seq<Path>, RuntimeError>)
    ensures r.Ok? ==> |r.value| == |cs|
    ensures r.Err? ==> !r.error.MeshFailed?
  {
    if |cs| == 0 then Ok([])
    else
      var first := TessellatedPath(tessellate(cs[0], options), cs[0].closed);
      if first.Err? then Err(first.error)
      else
        var rest := Polylines(cs[1..], tessellate, options);
        if rest.Err? then Err(rest.error)
        else Ok([first.value] + rest.value)
  }

  /** The loop fails exactly when one contour fails; otherwise polyline `k` is
      the tessellation of contour `k`. */
  lemma PolylinesContents(cs: seq<Contour>, tessellate: Tessellator, options: TessellationOptions)
    ensures Polylines(cs, tessellate, options).Err? <==> SomeContourFails(cs, tessellate, options)
    ensures var r := Polylines(cs, tessellate, options);
            r.Ok? ==> forall k :: 0 <= k < |cs| ==>
              TessellatedPath(tessellate(cs[k], options), cs[k].closed) == Ok(r.value[k])
  {
    PolylinesMatch(cs, tessellate, options);
    if Polylines(cs, tessellate, options).Err? {
      PolylinesFailingContour(cs, tessellate, options);
    } else {
      forall k | 0 <= k < |cs|
        ensures !FailingPoints(tessellate(cs[k], options))
      {
        assert TessellatedPath(tessellate(cs[k], options), cs[k].closed).Ok?;
      }
    }
  }

  /** When the loop succeeds, polyline `k` is the tessellation of contour `k`. */
  lemma {:induction false} PolylinesMatch(cs: seq<Contour>, tessellate: Tessellator, options: TessellationOptions)
    ensures var r := Polylines(cs, tessellate, options);
            r.Ok? ==> forall k :: 0 <= k < |cs| ==>
              TessellatedPath(tessellate(cs[k], options), cs[k].closed) == Ok(r.value[k])
    decreases |cs|
  {
    if |cs| > 0 && Polylines(cs, tessellate, options).Ok? {
      var first := TessellatedPath(tessellate(cs[0], options), cs[0].closed);
      var rest := Polylines(cs[1..], tessellate, options);
      PolylinesCons(cs, tessellate, options);
      PolylinesMatch(cs[1..], tessellate, options);
      var r := Polylines(cs, tessellate, options).value;
      assert r == [first.value] + rest.value;
      forall k | 0 <= k < |cs|
        ensures TessellatedPath(tessellate(cs[k], options), cs[k].closed) == Ok(r[k])
      {
        if k > 0 {
          assert cs[k] == cs[1..][k - 1];
        }
      }
    }
  }

  /** A loop that fails has a contour whose points fail. */
  lemma {:induction false} PolylinesFailingContour(cs: seq<Contour>, tessellate: Tessellator,
                                                   options: TessellationOptions)
    requires Polylines(cs, tessellate, options).Err?
    ensures SomeContourFails(cs, tessellate, options)
    decreases |cs|
  {
    assert |cs| > 0;
    var first := TessellatedPath(tessellate(cs[0], options), cs[0].closed);
    PolylinesCons(cs, tessellate, options);
    if first.Err? {
      assert FailingPoints(tessellate(cs[0], options));
    } else {
      PolylinesFailingContour(cs[1..], tessellate, options);
      var k' :| 0 <= k' < |cs| - 1 && FailingPoints(tessellate(cs[1..][k'], options));
      assert cs[k' + 1] == cs[1..][k'];
    }
  }

  /** One step of the loop over contours: the first contour's polyline, then
      the rest's, and the first failure wins. */
  lemma PolylinesCons(cs: seq<Contour>, tessellate: Tessellator, options: TessellationOptions)
    requires |cs| > 0
    ensures var first := TessellatedPath(tessellate(cs[0], options), cs[0].closed);
            var rest := Polylines(cs[1..], tessellate, options);
            Polylines(cs, tessellate, options)
              == if first.Err? then Err(first.error)
                 else if rest.Err? then Err(rest.error)
                 else Ok([first.value] + rest.value)
  {
  }

  /** `OnEnable` from the parsed scene on: the tessellation options from the
      scene's bounding box (`width` by `height`), one polyline per contour
      `GetAllBeziers` collects, and the fan mesh of those polylines. A mesh is
      built exactly when every contour gives a polyline and those polylines are
      drawable; the errors other than the mesh builder's are exactly the
      contours that tessellate to nothing or whose mean lies on the x axis. */
  function OnEnable(root: Node, width: real, height: real, tessellate: Tessellator)
    : (r: Result<FanMesh.Mesh, RuntimeError>)
    ensures var p := ScenePolylines(root, width, height, tessellate);
            r.Ok? <==> p.Ok? && FanMesh.Drawable(p.value)
    ensures r.Err? && !r.error.MeshFailed? <==>
              SomeContourFails(AllContours(root), tessellate, ComputeTessellationOptions(width, height))
  {
    var p := ScenePolylines(root, width, height, tessellate);
    if p.Err? then Err(p.error)
    else
      match FanMesh.GenerateMesh(p.value)
      case Ok(m) => Ok(m)
      case Err(e) => Err(MeshFailed(e))
  }

  /** The polylines `OnEnable` hands to the mesh builder; they fail exactly
      when some contour's points fail, and never with a mesh error. */
  function ScenePolylines(root: Node, width: real, height: real, tessellate: Tessellator)
    : (r: Result<seq<Path>, RuntimeError>)
    ensures r.Ok? ==> |r.value| == |AllContours(root)|
    ensures r.Err? <==> SomeContourFails(AllContours(root), tessellate, ComputeTessellationOptions(width, height))
    ensures r.Err? ==> !r.error.MeshFailed?
  {
    var cs := AllContours(root);
    var options := ComputeTessellationOptions(width, height);
    PolylinesContents(cs, tessellate, options);
    Polylines(cs, tessellate, options)
  }

  /** A mesh is built exactly when every contour gives a polyline and those
      polylines are drawable; it is then their fan mesh, and each of its paths
      is free of repeated points. */
  lemma OnEnableIsFanOfPolylines(root: Node, width: real, height: real, tessellate: Tessellator)
    ensures OnEnable(root, width, height, tessellate).Ok?
        <==> ScenePolylines(root, width, height, tessellate).Ok?
             && FanMesh.Drawable(ScenePolylines(root, width, height, tessellate).value)
    ensures OnEnable(root, width, height, tessellate).Ok? ==>
              var paths := ScenePolylines(root, width, height, tessellate).value;
              && FanMesh.GenerateMesh(paths).Ok?
              && OnEnable(root, width, height, tessellate).value == FanMesh.GenerateMesh(paths).value
              && forall k :: 0 <= k < |paths| ==> NoDuplicates(paths[k])
  {
    var r := ScenePolylines(root, width, height, tessellate);
    if r.Ok? {
      var cs := AllContours(root);
      var options := ComputeTessellationOptions(width, height);
      PolylinesContents(cs, tessellate, options);
      forall k | 0 <= k < |r.value|
        ensures NoDuplicates(r.value[k])
      {
        TessellatedPathContents(tessellate(cs[k], options), cs[k].closed);
      }
    }
  }
}
