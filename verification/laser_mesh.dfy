/** `LaserMeshGenerator.GenerateMesh(SceneInfo)`: every contour of every shape is
    tessellated and mapped through its shape's world transform, the whole point
    cloud is centred on its bounding box and scaled to a height of 100 with y
    pointing up, and the fan mesh is built from the resulting paths. The
    tessellator and the scene's bounding box come from the vector-graphics
    package and are parameters here. */
module LaserMesh {
  import opened Geometry
  import opened Linq
  import opened Results
  import opened SvgScene
  import opened Tessellation
  import FanMesh

  type Path = seq<Vec2>

  datatype LaserError =
    /** `path[0]` on the empty polyline of a closed contour throws. */
    | ClosedEmptyContour
    /** `Min()` of an empty point sequence throws. */
    | NoPoints
    /** A bounding box of height 0 makes the scaling divide by zero. */
    | FlatScene
    /** The fan-mesh builder rejected the normalized paths. */
    | MeshFailed(error: FanMesh.MeshError)

  /** `p => transform * p` over a polyline. */
  function Transformed(m: Affine, ps: seq<Vec2>): (r: seq<Vec2>)
    ensures |r| == |ps|
    ensures forall i :: 0 <= i < |ps| ==> r[i] == Apply(m, ps[i])
  {
    seq(|ps|, i requires 0 <= i < |ps| => Apply(m, ps[i]))
  }

  lemma TransformedAppend(m: Affine, a: seq<Vec2>, b: seq<Vec2>)
    ensures Transformed(m, a + b) == Transformed(m, a) + Transformed(m, b)
  {
  }

  /** `TessellateBezierPath` after the tessellator: a closed contour gets its
      first point appended, every point is mapped through the shape's fill
      transform, and `Distinct` drops repeats. */
  function TessellatedPath(points: seq<Vec2>, closed: bool, transform: Affine): (r: Result<Path, LaserError>)
    ensures r.Err? <==> closed && |points| == 0
  {
    if closed && |points| == 0 then Err(ClosedEmptyContour)
    else
      var path := if closed then points + [points[0]] else points;
      Ok(Distinct(Transformed(transform, path)))
  }

  /** The closing point is a repeat of the first, so `Distinct` removes it again:
      a closed contour gives the same polyline as an open one, and neither is
      closed up by a repeated vertex. */
  lemma ClosingPointDropped(points: seq<Vec2>, transform: Affine)
    requires |points| > 0
    ensures TessellatedPath(points, true, transform) == TessellatedPath(points, false, transform)
    ensures TessellatedPath(points, false, transform) == Ok(Distinct(Transformed(transform, points)))
  {
    TransformedAppend(transform, points, [points[0]]);
    DistinctIgnoresRepeat(Transformed(transform, points), Apply(transform, points[0]));
  }

  /** The polyline has no repeated point, holds the image of every tessellated
      point and nothing else, and lists the images in the order they first
      appear. */
  lemma TessellatedPathContents(points: seq<Vec2>, closed: bool, transform: Affine)
    requires !(closed && |points| == 0)
    ensures var r := TessellatedPath(points, closed, transform).value;
            && NoDuplicates(r)
            && (forall q :: q in r <==> q in Transformed(transform, points))
            && InFirstOccurrenceOrder(Transformed(transform, points), r)
  {
    if |points| > 0 {
      ClosingPointDropped(points, transform);
    }
    var mapped := Transformed(transform, points);
    assert TessellatedPath(points, closed, transform).value == Distinct(mapped);
    DistinctSameElements(mapped);
    DistinctKeepsFirstOccurrenceOrder(mapped);
  }

  /** The corners of the axis-aligned bounding box of a point set. */
  datatype Box = Box(min: Vec2, max: Vec2)

  /** `new Vector2(ps.Select(v => v.x).Min(), ps.Select(v => v.y).Min())` and the
      same with `Max()`. */
  function BoundingBox(ps: seq<Vec2>): (b: Box)
    requires |ps| > 0
    ensures forall i :: 0 <= i < |ps| ==>
              b.min.x <= ps[i].x <= b.max.x && b.min.y <= ps[i].y <= b.max.y
  {
    Box(Vec2(MinOf(Xs(ps)), MinOf(Ys(ps))), Vec2(MaxOf(Xs(ps)), MaxOf(Ys(ps))))
  }

  /** `(min + max) / 2f`. */
  function Center(b: Box): Vec2 {
    Vec2((b.min.x + b.max.x) / 2.0, (b.min.y + b.max.y) / 2.0)
  }

  /** `max - min`. */
  function Size(b: Box): Vec2 {
    Sub(b.max, b.min)
  }

  /** The normalisation lambda: subtract the centre, divide by the height, scale
      by 100 and flip y. */
  function NormalizePoint(v: Vec2, center: Vec2, height: real): Vec2
    requires height != 0.0
  {
    FlipY(Vec2((v.x - center.x) / height * 100.0, (v.y - center.y) / height * 100.0))
  }

  /** The inverse of the normalisation. */
  function DenormalizePoint(u: Vec2, center: Vec2, height: real): Vec2 {
    Vec2(u.x / 100.0 * height + center.x, -u.y / 100.0 * height + center.y)
  }

  lemma NormalizeRoundTrip(v: Vec2, center: Vec2, height: real)
    requires height != 0.0
    ensures DenormalizePoint(NormalizePoint(v, center, height), center, height) == v
  {
    UnscaleScaled(v.x - center.x, height);
    UnscaleScaled(v.y - center.y, height);
  }

  lemma DenormalizeRoundTrip(u: Vec2, center: Vec2, height: real)
    requires height != 0.0
    ensures NormalizePoint(DenormalizePoint(u, center, height), center, height) == u
  {
    ScaledUnscaled(u.x, height);
    ScaledUnscaled(-u.y, height);
  }

  lemma UnscaleScaled(d: real, h: real)
    requires h != 0.0
    ensures d / h * 100.0 / 100.0 * h == d
  {
  }

  lemma ScaledUnscaled(u: real, h: real)
    requires h != 0.0
    ensures (u / 100.0 * h) / h * 100.0 == u
  {
  }

  /** Every path with every point normalized. */
  function NormalizePaths(paths: seq<Path>, center: Vec2, height: real): (r: seq<Path>)
    requires height != 0.0
    ensures |r| == |paths|
    ensures forall j :: 0 <= j < |paths| ==> |r[j]| == |paths[j]|
    ensures forall j, i :: 0 <= j < |paths| && 0 <= i < |paths[j]| ==>
              r[j][i] == NormalizePoint(paths[j][i], center, height)
  {
    seq(|paths|, j requires 0 <= j < |paths| =>
      seq(|paths[j]|, i requires 0 <= i < |paths[j]| => NormalizePoint(paths[j][i], center, height)))
  }

  /** All points at one height: the box has height 0. */
  predicate SameHeight(ps: seq<Vec2>) {
    forall i :: 0 <= i < |ps| ==> ps[i].y == ps[0].y
  }

  /** The box of a point set is flat exactly when all points share a height. */
  lemma FlatIffSameHeight(ps: seq<Vec2>)
    requires |ps| > 0
    ensures Size(BoundingBox(ps)).y == 0.0 <==> SameHeight(ps)
  {
    var ys := Ys(ps);
    var lo, hi := MinOf(ys), MaxOf(ys);
    if SameHeight(ps) {
      var a :| 0 <= a < |ys| && ys[a] == lo;
      var z :| 0 <= z < |ys| && ys[z] == hi;
      assert lo == ps[0].y == hi;
    } else {
      var i :| 0 <= i < |ps| && ps[i].y != ps[0].y;
      assert ys[i] != ys[0];
    }
  }

  /** Lines 67-81 of `GenerateMesh(SceneInfo)`: the bounding box of all points,
      then every point normalized against it. No point at all makes `Min()`
      throw; points all at one height make the box flat and the scaling divide
      by zero; otherwise every path keeps its length. */
  function NormalizeScene(paths: seq<Path>): (r: Result<seq<Path>, LaserError>)
    ensures r == Err(NoPoints) <==> |Flatten(paths)| == 0
    ensures r == Err(FlatScene) <==> |Flatten(paths)| > 0 && SameHeight(Flatten(paths))
    ensures r.Ok? <==> |Flatten(paths)| > 0 && !SameHeight(Flatten(paths))
    ensures r.Ok? ==> |r.value| == |paths| && forall j :: 0 <= j < |paths| ==> |r.value[j]| == |paths[j]|
  {
    var ps := Flatten(paths);
    if |ps| == 0 then Err(NoPoints)
    else
      var b := BoundingBox(ps);
      FlatIffSameHeight(ps);
      if Size(b).y == 0.0 then Err(FlatScene)
      else Ok(NormalizePaths(paths, Center(b), Size(b).y))
  }

  /** Normalisation is against the box of all points: the box centre lands on
      the origin and every point can be mapped back. */
  lemma NormalizedSceneRoundTrip(paths: seq<Path>)
    requires NormalizeScene(paths).Ok?
    ensures |Flatten(paths)| > 0 && Size(BoundingBox(Flatten(paths))).y != 0.0
    ensures var b := BoundingBox(Flatten(paths));
            NormalizePoint(Center(b), Center(b), Size(b).y) == Vec2(0.0, 0.0)
    ensures var b := BoundingBox(Flatten(paths));
            var r := NormalizeScene(paths).value;
            forall j, i :: 0 <= j < |paths| && 0 <= i < |paths[j]| ==>
              DenormalizePoint(r[j][i], Center(b), Size(b).y) == paths[j][i]
  {
    var ps := Flatten(paths);
    var b := BoundingBox(ps);
    var c, h := Center(b), Size(b).y;
    FlatIffSameHeight(ps);
    assert h != 0.0;
    var r := NormalizePaths(paths, c, h);
    assert NormalizeScene(paths) == Ok(r);
    CenterNormalized(c, h);
    NormalizePathsRoundTrip(paths, c, h);
  }

  /** The centre itself goes to the origin. */
  lemma CenterNormalized(center: Vec2, height: real)
    requires height != 0.0
    ensures NormalizePoint(center, center, height) == Vec2(0.0, 0.0)
  {
    assert (center.x - center.x) / height == 0.0;
    assert (center.y - center.y) / height == 0.0;
  }

  /** Every normalized point maps back to the point it came from. */
  lemma NormalizePathsRoundTrip(paths: seq<Path>, center: Vec2, height: real)
    requires height != 0.0
    ensures var r := NormalizePaths(paths, center, height);
            forall j, i :: 0 <= j < |paths| && 0 <= i < |paths[j]| ==>
              DenormalizePoint(r[j][i], center, height) == paths[j][i]
  {
    var r := NormalizePaths(paths, center, height);
    forall j, i | 0 <= j < |paths| && 0 <= i < |paths[j]|
      ensures DenormalizePoint(r[j][i], center, height) == paths[j][i]
    {
      NormalizeRoundTrip(paths[j][i], center, height);
    }
  }

  /** The band -50 .. 50 is reached at both ends: the lowest point goes to 50
      and the highest to -50, because y is flipped. */
  lemma NormalizedSceneReachesBand(paths: seq<Path>)
    requires NormalizeScene(paths).Ok?
    ensures var r := NormalizeScene(paths).value;
            exists j, i :: 0 <= j < |r| && 0 <= i < |r[j]| && r[j][i].y == 50.0
    ensures var r := NormalizeScene(paths).value;
            exists j, i :: 0 <= j < |r| && 0 <= i < |r[j]| && r[j][i].y == -50.0
  {
    var ps := Flatten(paths);
    var b := BoundingBox(ps);
    var c, h := Center(b), Size(b).y;
    var r := NormalizePaths(paths, c, h);
    assert NormalizeScene(paths) == Ok(r);
    var j, i := PointAtHeight(paths, b.min.y);
    BoxEdgesNormalized(paths[j][i], b);
    assert r[j][i] == NormalizePoint(paths[j][i], c, h);
    var j', i' := PointAtHeight(paths, b.max.y);
    BoxEdgesNormalized(paths[j'][i'], b);
    assert r[j'][i'] == NormalizePoint(paths[j'][i'], c, h);
  }

  /** A height some point of the flattened paths has is the height of a point
      of one of the paths. */
  lemma PointAtHeight(paths: seq<Path>, y: real) returns (j: nat, i: nat)
    requires y in Ys(Flatten(paths))
    ensures j < |paths| && i < |paths[j]| && paths[j][i].y == y
  {
    var ps := Flatten(paths);
    var t :| 0 <= t < |ps| && Ys(ps)[t] == y;
    FlattenMember(paths, ps[t]);
    j, i :| 0 <= j < |paths| && 0 <= i < |paths[j]| && paths[j][i] == ps[t];
  }

  /** The bottom and top of a band sit half its height below and above its
      middle. */
  lemma EdgeHeight(lo: real, hi: real)
    requires hi - lo != 0.0
    ensures (lo - (lo + hi) / 2.0) / (hi - lo) * 100.0 == -50.0
    ensures (hi - (lo + hi) / 2.0) / (hi - lo) * 100.0 == 50.0
  {
    assert lo - (lo + hi) / 2.0 == -0.5 * (hi - lo);
    assert hi - (lo + hi) / 2.0 == 0.5 * (hi - lo);
  }

  /** A point on the bottom edge of the box goes to 50 and one on the top edge
      to -50. */
  lemma BoxEdgesNormalized(v: Vec2, b: Box)
    requires Size(b).y != 0.0
    ensures v.y == b.min.y ==> NormalizePoint(v, Center(b), Size(b).y).y == 50.0
    ensures v.y == b.max.y ==> NormalizePoint(v, Center(b), Size(b).y).y == -50.0
  {
    EdgeHeight(b.min.y, b.max.y);
  }

  /** After normalisation every point lies in the band -50 <= y <= 50. */
  lemma NormalizedHeights(paths: seq<Path>)
    ensures NormalizeScene(paths).Ok? ==> FanMesh.HeightsWithin(NormalizeScene(paths).value, -50.0, 50.0)
  {
    if NormalizeScene(paths).Err? {
      return;
    }
    var b := BoundingBox(Flatten(paths));
    var r: seq<Path> := NormalizePaths(paths, Center(b), Size(b).y);
    assert NormalizeScene(paths) == Ok(r);
    forall j, i | 0 <= j < |r| && 0 <= i < |r[j]|
      ensures -50.0 <= r[j][i].y <= 50.0
    {
      PointInBox(paths, j, i);
      HeightInBand(paths[j][i], b);
    }
  }

  /** Every point of every path lies inside the box of all points. */
  lemma PointInBox(paths: seq<Path>, j: nat, i: nat)
    requires j < |paths| && i < |paths[j]|
    ensures |Flatten(paths)| > 0
    ensures var b := BoundingBox(Flatten(paths));
            b.min.y <= paths[j][i].y <= b.max.y && b.min.x <= paths[j][i].x <= b.max.x
  {
    FlattenIndex(paths, j, i);
  }

  /** A point whose height is inside the box maps into [-50, 50]. */
  lemma HeightInBand(v: Vec2, b: Box)
    requires b.min.y <= v.y <= b.max.y && Size(b).y != 0.0
    ensures -50.0 <= NormalizePoint(v, Center(b), Size(b).y).y <= 50.0
  {
    var h := Size(b).y;
    var d := v.y - Center(b).y;
    var q := d / h;
    assert q * h == d;
    if q > 0.5 {
      Mathf.MulNonneg(q - 0.5, h);
    }
    if q < -0.5 {
      Mathf.MulNonneg(-0.5 - q, h);
    }
  }

  /** The polylines of one shape's contours, in contour order. */
  function ContourPaths(cs: seq<Contour>, fill: Affine, tessellate: Tessellator,
                        options: TessellationOptions): (r: Result<seq<Path>, LaserError>)
    ensures r.Ok? ==> |r.value| == |cs|
    ensures r.Err? ==> r.error == ClosedEmptyContour
  {
    if |cs| == 0 then Ok([])
    else
      var first :- TessellatedPath(tessellate(cs[0], options), cs[0].closed, fill);
      var rest :- ContourPaths(cs[1..], fill, tessellate, options);
      Ok([first] + rest)
  }

  /** One shape fails exactly when one of its closed contours tessellates to
      nothing; otherwise polyline `k` is the tessellation of contour `k`. */
  lemma ContourPathsContents(cs: seq<Contour>, fill: Affine, tessellate: Tessellator, options: TessellationOptions)
    ensures var r := ContourPaths(cs, fill, tessellate, options);
            r.Err? <==> exists k :: 0 <= k < |cs| && cs[k].closed && |tessellate(cs[k], options)| == 0
    ensures var r := ContourPaths(cs, fill, tessellate, options);
            r.Ok? ==> forall k :: 0 <= k < |cs| ==>
              TessellatedPath(tessellate(cs[k], options), cs[k].closed, fill) == Ok(r.value[k])
  {
    ContourPathsMatch(cs, fill, tessellate, options);
    if ContourPaths(cs, fill, tessellate, options).Err? {
      ContourPathsFailingContour(cs, fill, tessellate, options);
    } else {
      forall k | 0 <= k < |cs|
        ensures !(cs[k].closed && |tessellate(cs[k], options)| == 0)
      {
        assert TessellatedPath(tessellate(cs[k], options), cs[k].closed, fill).Ok?;
      }
    }
  }

  /** When a shape succeeds, polyline `k` is the tessellation of contour `k`. */
  lemma {:induction false} ContourPathsMatch(cs: seq<Contour>, fill: Affine, tessellate: Tessellator,
                                             options: TessellationOptions)
    ensures var r := ContourPaths(cs, fill, tessellate, options);
            r.Ok? ==> forall k :: 0 <= k < |cs| ==>
              TessellatedPath(tessellate(cs[k], options), cs[k].closed, fill) == Ok(r.value[k])
    decreases |cs|
  {
    if |cs| > 0 && ContourPaths(cs, fill, tessellate, options).Ok? {
      var first := TessellatedPath(tessellate(cs[0], options), cs[0].closed, fill);
      var rest := ContourPaths(cs[1..], fill, tessellate, options);
      ContourPathsCons(cs, fill, tessellate, options);
      ContourPathsMatch(cs[1..], fill, tessellate, options);
      var r := ContourPaths(cs, fill, tessellate, options).value;
      assert r == [first.value] + rest.value;
      forall k | 0 <= k < |cs|
        ensures TessellatedPath(tessellate(cs[k], options), cs[k].closed, fill) == Ok(r[k])
      {
        if k > 0 {
          assert cs[k] == cs[1..][k - 1] && r[k] == rest.value[k - 1];
        }
      }
    }
  }

  /** A shape that fails has a closed contour that tessellates to nothing. */
  lemma {:induction false} ContourPathsFailingContour(cs: seq<Contour>, fill: Affine, tessellate: Tessellator,
                                                      options: TessellationOptions)
    requires ContourPaths(cs, fill, tessellate, options).Err?
    ensures exists k :: 0 <= k < |cs| && cs[k].closed && |tessellate(cs[k], options)| == 0
    decreases |cs|
  {
    assert |cs| > 0;
    var first := TessellatedPath(tessellate(cs[0], options), cs[0].closed, fill);
    ContourPathsCons(cs, fill, tessellate, options);
    if first.Err? {
      assert cs[0].closed && |tessellate(cs[0], options)| == 0;
    } else {
      ContourPathsFailingContour(cs[1..], fill, tessellate, options);
      var k' :| 0 <= k' < |cs| - 1 && cs[1..][k'].closed && |tessellate(cs[1..][k'], options)| == 0;
      assert cs[k' + 1] == cs[1..][k'];
    }
  }

  /** One step of the loop over a shape's contours: the first contour's
      polyline, then the rest's, and the first failure wins. */
  lemma ContourPathsCons(cs: seq<Contour>, fill: Affine, tessellate: Tessellator, options: TessellationOptions)
    requires |cs| > 0
    ensures var first := TessellatedPath(tessellate(cs[0], options), cs[0].closed, fill);
            var rest := ContourPaths(cs[1..], fill, tessellate, options);
            ContourPaths(cs, fill, tessellate, options)
              == if first.Err? then Err(first.error)
                 else if rest.Err? then Err(rest.error)
                 else Ok([first.value] + rest.value)
  {
  }

  /** The `foreach` over shapes and their contours: every polyline, shape by shape. */
  function ShapePaths(ps: seq<PlacedShape>, tessellate: Tessellator,
                      options: TessellationOptions): (r: Result<seq<Path>, LaserError>)
    ensures r.Ok? ==> |r.value| == |PlacedContours(ps)|
    ensures r.Err? ==> r.error == ClosedEmptyContour
  {
    if |ps| == 0 then Ok([])
    else
      var first :- ContourPaths(ps[0].shape.contours, ps[0].fill, tessellate, options);
      var rest :- ShapePaths(ps[1..], tessellate, options);
      PlacedContoursCons(ps);
      Ok(first + rest)
  }

  /** The contours of a non-empty shape list: the first shape's, then the rest's. */
  lemma PlacedContoursCons(ps: seq<PlacedShape>)
    requires |ps| > 0
    ensures PlacedContours(ps) == ps[0].shape.contours + PlacedContours(ps[1..])
  {
    assert ps == [ps[0]] + ps[1..];
    PlacedContoursAppend([ps[0]], ps[1..]);
    assert Select([ps[0]], (p: PlacedShape) => p.shape.contours) == [ps[0].shape.contours];
    assert Flatten([ps[0].shape.contours]) == ps[0].shape.contours by {
      assert [ps[0].shape.contours][..0] == [];
    }
  }

  /** The fill transform each contour of `PlacedContours(ps)` is drawn with:
      the one of the shape it belongs to. */
  function ContourFills(ps: seq<PlacedShape>): (r: seq<Affine>)
    ensures |r| == |PlacedContours(ps)|
    decreases |ps|
  {
    if |ps| == 0 then []
    else
      PlacedContoursCons(ps);
      seq(|ps[0].shape.contours|, _ => ps[0].fill) + ContourFills(ps[1..])
  }

  /** The whole scene fails exactly when some closed contour of some shape
      tessellates to nothing. */
  lemma ShapePathsFailure(ps: seq<PlacedShape>, tessellate: Tessellator, options: TessellationOptions)
    ensures var cs := PlacedContours(ps);
            ShapePaths(ps, tessellate, options).Err? <==>
              exists k :: 0 <= k < |cs| && cs[k].closed && |tessellate(cs[k], options)| == 0
  {
    if ShapePaths(ps, tessellate, options).Ok? {
      ShapePathsNoFailingContour(ps, tessellate, options);
    } else {
      ShapePathsFailingContour(ps, tessellate, options);
    }
  }

  /** A scene that succeeds has no closed contour that tessellates to nothing. */
  lemma ShapePathsNoFailingContour(ps: seq<PlacedShape>, tessellate: Tessellator, options: TessellationOptions)
    requires ShapePaths(ps, tessellate, options).Ok?
    ensures var cs := PlacedContours(ps);
            forall k :: 0 <= k < |cs| ==> !(cs[k].closed && |tessellate(cs[k], options)| == 0)
  {
    var cs, fs := PlacedContours(ps), ContourFills(ps);
    ShapePathsContents(ps, tessellate, options);
    forall k | 0 <= k < |cs|
      ensures !(cs[k].closed && |tessellate(cs[k], options)| == 0)
    {
      assert TessellatedPath(tessellate(cs[k], options), cs[k].closed, fs[k]).Ok?;
    }
  }

  /** A scene that fails has a closed contour that tessellates to nothing. */
  lemma {:induction false} ShapePathsFailingContour(ps: seq<PlacedShape>, tessellate: Tessellator,
                                                    options: TessellationOptions)
    requires ShapePaths(ps, tessellate, options).Err?
    ensures var cs := PlacedContours(ps);
            exists k :: 0 <= k < |cs| && cs[k].closed && |tessellate(cs[k], options)| == 0
    decreases |ps|
  {
    assert |ps| > 0;
    var first := ContourPaths(ps[0].shape.contours, ps[0].fill, tessellate, options);
    if first.Err? {
      ContourPathsContents(ps[0].shape.contours, ps[0].fill, tessellate, options);
      FailingContourShifts(ps, tessellate, options, true);
    } else {
      ShapePathsCons(ps, tessellate, options);
      ShapePathsFailingContour(ps[1..], tessellate, options);
      FailingContourShifts(ps, tessellate, options, false);
    }
  }

  /** A closed contour that tessellates to nothing, found in the first shape or
      in the later ones, is one of the whole list. */
  lemma FailingContourShifts(ps: seq<PlacedShape>, tessellate: Tessellator, options: TessellationOptions,
                             inFirst: bool)
    requires |ps| > 0
    requires var cs := if inFirst then ps[0].shape.contours else PlacedContours(ps[1..]);
             exists k :: 0 <= k < |cs| && cs[k].closed && |tessellate(cs[k], options)| == 0
    ensures var cs := PlacedContours(ps);
            exists k :: 0 <= k < |cs| && cs[k].closed && |tessellate(cs[k], options)| == 0
  {
    var c0, cs' := ps[0].shape.contours, PlacedContours(ps[1..]);
    PlacedContoursCons(ps);
    var cs := c0 + cs';
    if inFirst {
      var k :| 0 <= k < |c0| && c0[k].closed && |tessellate(c0[k], options)| == 0;
      assert cs[k] == c0[k];
    } else {
      var k :| 0 <= k < |cs'| && cs'[k].closed && |tessellate(cs'[k], options)| == 0;
      assert cs[|c0| + k] == cs'[k];
    }
  }

  /** When the scene succeeds, polyline `k` is the tessellation of contour `k`,
      drawn with the fill transform of its shape. */
  lemma {:induction false} ShapePathsContents(ps: seq<PlacedShape>, tessellate: Tessellator,
                                              options: TessellationOptions)
    ensures var cs, fs, r := PlacedContours(ps), ContourFills(ps), ShapePaths(ps, tessellate, options);
            r.Ok? ==> forall k :: 0 <= k < |cs| ==>
              TessellatedPath(tessellate(cs[k], options), cs[k].closed, fs[k]) == Ok(r.value[k])
    decreases |ps|
  {
    var cs, fs, r := PlacedContours(ps), ContourFills(ps), ShapePaths(ps, tessellate, options);
    if |ps| == 0 {
      assert cs == [] by { assert Select(ps, (p: PlacedShape) => p.shape.contours) == []; }
    } else if r.Ok? {
      var c0, f0 := ps[0].shape.contours, ps[0].fill;
      var first := ContourPaths(c0, f0, tessellate, options);
      var rest := ShapePaths(ps[1..], tessellate, options);
      ShapePathsCons(ps, tessellate, options);
      ShapePathsContents(ps[1..], tessellate, options);
      ContourPathsMatch(c0, f0, tessellate, options);
      PlacedContoursCons(ps);
      var cs', fs' := PlacedContours(ps[1..]), ContourFills(ps[1..]);
      var fs0 := seq(|c0|, _ => f0);
      assert fs == fs0 + fs';
      var matches := (c: Contour, f: Affine, path: Path) =>
        TessellatedPath(tessellate(c, options), c.closed, f) == Ok(path);
      assert forall k :: 0 <= k < |c0| ==> matches(c0[k], fs0[k], first.value[k]);
      assert forall k :: 0 <= k < |cs'| ==> matches(cs'[k], fs'[k], rest.value[k]);
      PointwiseConcat(c0, cs', fs0, fs', first.value, rest.value, matches);
    }
  }

  /** One step of the `foreach` over shapes: the first shape's polylines, then
      the rest's, and the first failure wins. */
  lemma ShapePathsCons(ps: seq<PlacedShape>, tessellate: Tessellator, options: TessellationOptions)
    requires |ps| > 0
    ensures var first := ContourPaths(ps[0].shape.contours, ps[0].fill, tessellate, options);
            var rest := ShapePaths(ps[1..], tessellate, options);
            ShapePaths(ps, tessellate, options)
              == if first.Err? then Err(first.error)
                 else if rest.Err? then Err(rest.error)
                 else Ok(first.value + rest.value)
  {
  }

  /** Every polyline `ShapePaths` returns is free of repeated points. */
  lemma {:induction false} ShapePathsDistinct(ps: seq<PlacedShape>, tessellate: Tessellator,
                                              options: TessellationOptions)
    requires ShapePaths(ps, tessellate, options).Ok?
    ensures forall k :: 0 <= k < |ShapePaths(ps, tessellate, options).value| ==>
              NoDuplicates(ShapePaths(ps, tessellate, options).value[k])
    decreases |ps|
  {
    if |ps| > 0 {
      var s := ps[0];
      var first := ContourPaths(s.shape.contours, s.fill, tessellate, options).value;
      ShapePathsDistinct(ps[1..], tessellate, options);
      var rest := ShapePaths(ps[1..], tessellate, options).value;
      ContourPathsContents(s.shape.contours, s.fill, tessellate, options);
      forall k | 0 <= k < |first|
        ensures NoDuplicates(first[k])
      {
        var c := s.shape.contours[k];
        TessellatedPathContents(tessellate(c, options), c.closed, s.fill);
      }
      assert ShapePaths(ps, tessellate, options).value == first + rest;
    }
  }

  /** Some closed contour tessellates to no points at all. */
  predicate SomeClosedContourEmpty(cs: seq<Contour>, tessellate: Tessellator, options: TessellationOptions) {
    exists k :: 0 <= k < |cs| && cs[k].closed && |tessellate(cs[k], options)| == 0
  }

  /** `GenerateMesh(SceneInfo)`: tessellation options from the scene's bounding
      box (`width` by `height`), shapes placed by `GetAllShapes` from the root's
      own transform, every contour tessellated, the paths normalized, and the
      fan mesh built from them. A mesh is built exactly when the normalized
      paths are drawable; a closed contour that tessellates to nothing is the
      one cause of `ClosedEmptyContour`; and every vertex lies in the band
      -50 <= y <= 50. */
  function GenerateMesh(root: Node, width: real, height: real, tessellate: Tessellator)
    : (r: Result<FanMesh.Mesh, LaserError>)
    ensures var n := NormalizedScenePaths(root, width, height, tessellate);
            r.Ok? <==> n.Ok? && FanMesh.Drawable(n.value)
    ensures r == Err(ClosedEmptyContour) <==>
              SomeClosedContourEmpty(AllContours(root), tessellate, ComputeTessellationOptions(width, height))
    ensures r.Ok? ==> forall v :: 0 <= v < |r.value.vertices| ==> -50.0 <= r.value.vertices[v].y <= 50.0
  {
    var n := NormalizedScenePaths(root, width, height, tessellate);
    if n.Err? then Err(n.error)
    else if FanMesh.Drawable(n.value) then
      FanMesh.MeshHeightsWithin(n.value, -50.0, 50.0);
      Ok(FanMesh.GenerateMesh(n.value).value)
    else
      Err(MeshFailed(FanMesh.GenerateMesh(n.value).error))
  }

  /** The paths `GenerateMesh` hands to the fan-mesh builder: one per contour of
      the scene, all inside the band -50 <= y <= 50. */
  function NormalizedScenePaths(root: Node, width: real, height: real, tessellate: Tessellator)
    : (r: Result<seq<Path>, LaserError>)
    ensures r == Err(ClosedEmptyContour) <==>
              SomeClosedContourEmpty(AllContours(root), tessellate, ComputeTessellationOptions(width, height))
    ensures r.Ok? ==> |r.value| == |AllContours(root)|
    ensures r.Ok? ==> FanMesh.HeightsWithin(r.value, -50.0, 50.0)
  {
    var options := ComputeTessellationOptions(width, height);
    var shapes := AllShapes(root, root.transform);
    ShapesAndContoursAgree(root, root.transform);
    ShapePathsFailure(shapes, tessellate, options);
    var paths :- ShapePaths(shapes, tessellate, options);
    NormalizedHeights(paths);
    NormalizeScene(paths)
  }

  /** A built laser mesh is the fan mesh of the normalized paths, one path per
      contour of the scene. */
  lemma GenerateMeshIsFanOfNormalized(root: Node, width: real, height: real, tessellate: Tessellator)
    requires GenerateMesh(root, width, height, tessellate).Ok?
    ensures var paths := NormalizedScenePaths(root, width, height, tessellate).value;
            && |paths| == |AllContours(root)|
            && FanMesh.GenerateMesh(paths).Ok?
            && GenerateMesh(root, width, height, tessellate).value == FanMesh.GenerateMesh(paths).value
  {
  }
}
