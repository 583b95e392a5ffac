# RuntimeSVG core, modelled in Dafny

RuntimeSVG is a set of Unity scripts. They turn the vector scene of an SVG file into geometry the engine can draw or animate. This project models the geometric core of those scripts as pure functions over exact `real` coordinates, and proves what each step guarantees.

- **Laser fan mesh** (`LaserMeshGenerator`, `RuntimeSvg`). Every contour of the scene is tessellated into a polyline.
  - `LaserMeshGenerator` maps each polyline through its shape's world transform and normalises the whole scene by its bounding box (centre, scale to a height of 100, y flipped).
  - `RuntimeSvg` centres each polyline on its own mean point and scales it by `50 / centre.y`, y flipped.
  - Either way, repeated points are removed with `Distinct`. The polylines then become one mesh: an apex at the origin, every point at depth 100, a fan of triangles `(0, idx0 + i + 1, idx0 + i)` per polyline, and a UV strip along x that runs from 0 to 1 over all edges.
- **Arc-length lookup** (`VFXSplineBinder.UpdateTexture`).
  - The Bezier curves between consecutive knots of every spline are selected; an open spline drops the curve that closes the loop.
  - Curves of length 0 are dropped.
  - Each remaining curve gets its start as a fraction of the total length, and those fractions become the keyframes of a lookup curve.
  - Each curve is packed as four texels.
- **SVG to splines** (`SVGToSpline`). Every control point goes through the node's composed matrix, is shifted so the canvas centre lands on the origin, and is y-flipped. Each segment then becomes a knot whose tangents reach the segment's first control and the previous segment's second control.
- **Drawn paths** (`DrawingPath.Points2Segments`). A closed loop of points becomes one cubic Bezier segment per point. The controls lie on the chords through the neighbouring points, shortened by a factor from 6 to 36 that depends on the turning angle.
- **Merged paths** (`MergedPathes`). Two child paths are concatenated in world space. Two segments are intersected by Cramer's rule with a strict x-range test.

Modules, one file each:

| module | file | contents |
|---|---|---|
| `Results` | results.dfy | `Option` and `Result` (with `:-` support) |
| `Geometry` | geometry.dfy | `Vec2`, `Vec3`, 2x3 affine matrices (`Matrix2D`), composition, y flip |
| `Mathf` | mathf.dfy | the engine's `Min`, `Max`, `Clamp01`, `Lerp`, `InverseLerp`; small real-division facts |
| `Linq` | linq.dfy | `Select`, `Where` (plain and indexed), `SelectMany`, `Sum`, `Average`, `Min`, `Max`, `Distinct` |
| `SvgScene` | scene.dfy | the scene tree (nodes, shapes, contours, segments) and both tree walks |
| `FanMesh` | fan_mesh.dfy | `GenerateMesh(List<Vector2[]>)`, identical in both mesh classes |
| `Tessellation` | tessellation.dfy | `ComputeTessellationOptions` and the tessellator's signature |
| `LaserMesh` | laser_mesh.dfy | `LaserMeshGenerator.GenerateMesh(SceneInfo)` and its helpers |
| `RuntimeSvg` | runtime_svg.dfy | `RuntimeSvg.OnEnable` and its helpers |
| `Splines` | splines.dfy | knots, splines, cubic curves and cyclic index arithmetic |
| `SplineBinder` | spline_binder.dfy | `VFXSplineBinder.UpdateTexture` |
| `SvgToSpline` | svg_to_spline.dfy | `SVGToSpline.Convert` and `AddNode` |
| `DrawingPath` | drawing_path.dfy | `DrawingPath.Points2Segments` |
| `MergedPaths` | merged_paths.dfy | `MergedPathes.Merge` and `LineIntersection` |

The C# code throws, or quietly produces NaN or infinity, on some inputs. The model reports each such case as an `Err` instead:

- a path with no points;
- a one-point path, which makes the UV fraction 0/0;
- a scene with zero height;
- a centre on the x axis;
- no curves left to bind;
- zero pixels per unit;
- fewer than two paths to merge.

Two facts about the code shape the mesh:

- **Fan triangles.** `GenerateMesh` emits `len - 1` triangles per polyline, each `(0, idx0 + i + 1, idx0 + i)`. No triangle joins a polyline's last point back to its first, whether its contour was closed or open (`FanMesh.TriangleLayout`).
- **Closed contours.** The closing point a closed contour appends is a repeat of its first point, so `Distinct` removes it again (`LaserMesh.ClosingPointDropped`). A closed contour therefore produces the same polyline as an open one.

## Model

| member | source | states |
|---|---|---|
| FanMesh.GenerateMesh | Assets/RuntimeSVG/Scripts/LaserMeshGenerator.cs:143-175 | A mesh is built exactly when every path has at least two points; an empty path (the range of length -1 throws) or a one-point path (0/0 UV) is reported with its index. The mesh has `1 + Σ len` vertices and as many UVs, and `3 · Σ (len - 1)` indices. |
| FanMesh.Fan | Assets/RuntimeSVG/Scripts/LaserMeshGenerator.cs:163-166 | The fan of one path has three indices per edge. |
| FanMesh.FanTriangle | Assets/RuntimeSVG/Scripts/LaserMeshGenerator.cs:163-166 | Triangle t of a fan is `(0, idx0 + t + 1, idx0 + t)`. |
| FanMesh.FanEntries | Assets/RuntimeSVG/Scripts/LaserMeshGenerator.cs:163-166 | Every fan entry is the apex or a vertex of the path's own block `idx0 .. idx0 + n`. |
| FanMesh.PathUvs | Assets/RuntimeSVG/Scripts/LaserMeshGenerator.cs:159-162 | One UV per point of the path. |
| FanMesh.PathUvsValue | Assets/RuntimeSVG/Scripts/LaserMeshGenerator.cs:156-161 | `Lerp(x0, x0 + (len-1)/strokeCount, i/(len-1))` is exactly `x0 + i/strokeCount`, with UV.y = 1. |
| FanMesh.Vertices | Assets/RuntimeSVG/Scripts/LaserMeshGenerator.cs:147-158 | After k paths the vertex list holds the apex (0,0,0) first and one vertex per point so far. |
| FanMesh.Uvs | Assets/RuntimeSVG/Scripts/LaserMeshGenerator.cs:148-162 | After k paths the UV list holds the apex UV (0,0) first and one UV per point so far. |
| FanMesh.Indices | Assets/RuntimeSVG/Scripts/LaserMeshGenerator.cs:149-166 | After k paths the index list has three entries per edge so far. |
| FanMesh.VerticesLayout | Assets/RuntimeSVG/Scripts/LaserMeshGenerator.cs:155-158 | Point i of path j is vertex `1 + (points of earlier paths) + i`, at (x, y, 100), and later paths do not move it. |
| FanMesh.UvsLayout | Assets/RuntimeSVG/Scripts/LaserMeshGenerator.cs:156-162 | Point i of path j gets UV `((edges of earlier paths + i) / strokeCount, 1)`. |
| FanMesh.IndicesLayout | Assets/RuntimeSVG/Scripts/LaserMeshGenerator.cs:155-166 | Triangle t of path j is triangle number `edges of earlier paths + t` and reads `(0, idx0 + t + 1, idx0 + t)`. |
| FanMesh.IndicesBelowVertexCount | Assets/RuntimeSVG/Scripts/LaserMeshGenerator.cs:155-166 | Every index is non-negative and below the vertex count. |
| FanMesh.VertexLayout | Assets/RuntimeSVG/Scripts/LaserMeshGenerator.cs:155-162 | In the finished mesh, point i of path j is vertex `1 + Σ earlier len + i` at depth 100, with UV `((Σ earlier edges + i) / strokeCount, 1)`. |
| FanMesh.TriangleLayout | Assets/RuntimeSVG/Scripts/LaserMeshGenerator.cs:151-166 | Path j owns exactly `len - 1` consecutive triangles `(0, idx0 + t + 1, idx0 + t)`, whose non-apex corners stay inside the path's own vertex block; there is no wrap-around triangle. |
| FanMesh.IndicesInRange | Assets/RuntimeSVG/Scripts/RuntimeSvg.cs:115-126 | Every index of the mesh is a valid vertex index. |
| FanMesh.UvStripStartsAtZero | Assets/RuntimeSVG/Scripts/LaserMeshGenerator.cs:148-157 | The first path's strip starts at UV.x = 0. |
| FanMesh.UvStripsContiguous | Assets/RuntimeSVG/Scripts/RuntimeSvg.cs:116-122 | Each path's strip starts exactly at the UV of the previous path's last point. |
| FanMesh.UvStripEndsAtOne | Assets/RuntimeSVG/Scripts/LaserMeshGenerator.cs:151-161 | The last point of the last path has UV.x = 1. |
| FanMesh.UvIncreasingAlongPath | Assets/RuntimeSVG/Scripts/LaserMeshGenerator.cs:159-162 | Within a path, UV.x strictly increases with the point index. |
| FanMesh.MeshHeightsWithin | Assets/RuntimeSVG/Scripts/LaserMeshGenerator.cs:147-158 | Any height band that holds the apex and every input point holds every vertex. |
| Tessellation.ComputeTessellationOptions | Assets/RuntimeSVG/Scripts/LaserMeshGenerator.cs:121-141 | The cord tolerance is at least 0.01, the tangent tolerance at least 0.1, the sampling step 1/100 and the step distance 1. |
| Tessellation.CordDeviationByScale | Assets/RuntimeSVG/Scripts/LaserMeshGenerator.cs:128-139 | The cord tolerance is the floor up to 200 pixels across and `maxDim / 20000` beyond. |
| Tessellation.TanAngleDeviationByScale | Assets/RuntimeSVG/Scripts/RuntimeSvg.cs:88-100 | The tangent tolerance is the floor up to 4000/3 pixels across and `3 · maxDim / 40000` beyond. |
| Tessellation.TolerancesMonotone | Assets/RuntimeSVG/Scripts/LaserMeshGenerator.cs:130-140 | A larger bounding box never gets a smaller tolerance. |
| SvgScene.Place | Assets/RuntimeSVG/Scripts/LaserMeshGenerator.cs:89-94 | Each own shape of a node is kept, in order, with the node's world transform as its fill transform. |
| SvgScene.AllShapes | Assets/RuntimeSVG/Scripts/LaserMeshGenerator.cs:86-104 | `GetAllShapes` lists the node's own shapes first, placed at the world transform. |
| SvgScene.AllContours | Assets/RuntimeSVG/Scripts/RuntimeSvg.cs:52-61 | `GetAllBeziers` lists the node's own shapes' contours first, untransformed. |
| SvgScene.ShapesAndContoursAgree | Assets/RuntimeSVG/Scripts/LaserMeshGenerator.cs:86-104 | Both tree walks visit the same contours in the same pre-order, whatever the world transform. |
| SvgScene.WorldTransformFactors | Assets/RuntimeSVG/Scripts/LaserMeshGenerator.cs:97-101 | The transform each shape receives is the root's world transform composed with the product of local transforms down to the shape. |
| Geometry.ComposeApply | Assets/RuntimeSVG/Scripts/SVGToSpline.cs:29 | Applying `a * b` is applying b, then a. |
| Geometry.IdentityIsNeutral | Assets/RuntimeSVG/Scripts/SVGToSpline.cs:22 | The identity matrix is neutral on both sides of a product and fixes every point. |
| Geometry.FlipYInvolution | Assets/RuntimeSVG/Scripts/LaserMeshGenerator.cs:78 | Negating y twice gives the point back. |
| Linq.Distinct | Assets/RuntimeSVG/Scripts/LaserMeshGenerator.cs:118 | `Distinct` has no repeats, keeps every input element, adds none and is no longer than its input. |
| Linq.DistinctKeepsFirstOccurrenceOrder | Assets/RuntimeSVG/Scripts/RuntimeSvg.cs:78 | `Distinct` lists the elements in the order of their first occurrence. |
| Linq.DistinctSameElements | Assets/RuntimeSVG/Scripts/LaserMeshGenerator.cs:118 | An element is in the output exactly when it is in the input. |
| Linq.DistinctIgnoresRepeat | Assets/RuntimeSVG/Scripts/LaserMeshGenerator.cs:113-118 | Appending an element that is already present leaves `Distinct` unchanged. |
| Linq.FlattenMembers | Assets/RuntimeSVG/Scripts/LaserMeshGenerator.cs:67 | An element is in `SelectMany` exactly when it is in one of the sequences. |
| Linq.FlattenIndex | Assets/RuntimeSVG/Scripts/LaserMeshGenerator.cs:67 | Element i of sequence k sits in `SelectMany` right after the elements of the earlier sequences. |
| Linq.MinOf | Assets/RuntimeSVG/Scripts/LaserMeshGenerator.cs:68 | `Min` is a lower bound that occurs in the sequence. |
| Linq.MaxOf | Assets/RuntimeSVG/Scripts/LaserMeshGenerator.cs:69 | `Max` is an upper bound that occurs in the sequence. |
| Linq.Average | Assets/RuntimeSVG/Scripts/RuntimeSvg.cs:69 | The average times the count is the sum. |
| Linq.SumAroundAverage | Assets/RuntimeSVG/Scripts/RuntimeSvg.cs:69-75 | Values measured from their average and then scaled sum to zero. |
| Linq.WhereIndexedPrefix | Assets/RuntimeSVG/Scripts/VFXSplineBinder.cs:45 | An index test that keeps exactly the positions below m keeps the first m elements. |
| Linq.WhereMembers | Assets/RuntimeSVG/Scripts/VFXSplineBinder.cs:47 | `Where` keeps an element exactly when it is in the input and passes the test. |
| Linq.PositivePrefixSums | Assets/RuntimeSVG/Scripts/VFXSplineBinder.cs:56-58 | Over positive values a longer prefix has a strictly larger sum, and no prefix sum is negative. |
| LaserMesh.Transformed | Assets/RuntimeSVG/Scripts/LaserMeshGenerator.cs:114-117 | Point i of the result is the transform applied to point i. |
| LaserMesh.TessellatedPath | Assets/RuntimeSVG/Scripts/LaserMeshGenerator.cs:106-120 | Fails exactly when a closed contour tessellates to no point (`path[0]` throws). |
| LaserMesh.ClosingPointDropped | Assets/RuntimeSVG/Scripts/LaserMeshGenerator.cs:111-118 | A closed contour gives the same polyline as an open one: `Distinct` removes the appended first point again. |
| LaserMesh.TessellatedPathContents | Assets/RuntimeSVG/Scripts/LaserMeshGenerator.cs:114-118 | The polyline has no repeated point, holds the image of every tessellated point and nothing else, in first-occurrence order. |
| LaserMesh.BoundingBox | Assets/RuntimeSVG/Scripts/LaserMeshGenerator.cs:68-69 | Every point lies inside the box of per-axis minima and maxima. |
| LaserMesh.NormalizeRoundTrip | Assets/RuntimeSVG/Scripts/LaserMeshGenerator.cs:73-81 | Normalising a point and mapping it back gives the point. |
| LaserMesh.DenormalizeRoundTrip | Assets/RuntimeSVG/Scripts/LaserMeshGenerator.cs:73-81 | Mapping a normalised point back and normalising it again gives the same normalised point. |
| LaserMesh.NormalizePaths | Assets/RuntimeSVG/Scripts/LaserMeshGenerator.cs:73-81 | Every path keeps its length, and each point is replaced by its normalised image. |
| LaserMesh.FlatIffSameHeight | Assets/RuntimeSVG/Scripts/LaserMeshGenerator.cs:68-71 | The box of a non-empty point set has height 0 exactly when all points share one y. |
| LaserMesh.NormalizeScene | Assets/RuntimeSVG/Scripts/LaserMeshGenerator.cs:67-81 | `Err(NoPoints)` exactly when the scene has no point (`Min` throws); `Err(FlatScene)` exactly when there are points and all share one height (the division by `size.y` is by 0); it succeeds exactly when there are points at two heights, and then every path keeps its length. |
| LaserMesh.NormalizedSceneRoundTrip | Assets/RuntimeSVG/Scripts/LaserMeshGenerator.cs:67-81 | On success the box is not flat, its centre maps to the origin, and every normalised point maps back to its input point. |
| LaserMesh.NormalizePathsRoundTrip | Assets/RuntimeSVG/Scripts/LaserMeshGenerator.cs:73-81 | Every point of every normalised path maps back to the point it came from. |
| LaserMesh.BoxEdgesNormalized | Assets/RuntimeSVG/Scripts/LaserMeshGenerator.cs:70-79 | A point at the box's lowest y goes to y = 50 and one at its highest y to y = -50. |
| LaserMesh.NormalizedSceneReachesBand | Assets/RuntimeSVG/Scripts/LaserMeshGenerator.cs:67-81 | On success some normalised point has y = 50 (the lowest input point) and some has y = -50 (the highest). |
| LaserMesh.HeightInBand | Assets/RuntimeSVG/Scripts/LaserMeshGenerator.cs:70-79 | A point whose height is inside the box lands in [-50, 50]. |
| LaserMesh.NormalizedHeights | Assets/RuntimeSVG/Scripts/LaserMeshGenerator.cs:67-80 | After normalisation every point lies in -50 <= y <= 50. |
| LaserMesh.ContourPathsContents | Assets/RuntimeSVG/Scripts/LaserMeshGenerator.cs:60-65 | A shape fails exactly when one of its closed contours tessellates empty; otherwise polyline k is contour k's tessellated path. |
| LaserMesh.ShapePaths | Assets/RuntimeSVG/Scripts/LaserMeshGenerator.cs:58-65 | One polyline per contour of every collected shape. |
| LaserMesh.ShapePathsFailure | Assets/RuntimeSVG/Scripts/LaserMeshGenerator.cs:58-65 | The scene fails exactly when some closed contour of some collected shape tessellates to no point. |
| LaserMesh.ShapePathsContents | Assets/RuntimeSVG/Scripts/LaserMeshGenerator.cs:58-65 | On success polyline k is the tessellated path of contour k of the scene, with that contour's closed flag and the fill transform of its shape. |
| LaserMesh.ShapePathsDistinct | Assets/RuntimeSVG/Scripts/LaserMeshGenerator.cs:58-65 | Every collected polyline is free of repeated points. |
| LaserMesh.NormalizedScenePaths | Assets/RuntimeSVG/Scripts/LaserMeshGenerator.cs:49-81 | `Err(ClosedEmptyContour)` exactly when some closed contour of the scene tessellates to no point; on success there is one path per contour and every point lies in -50 <= y <= 50. |
| LaserMesh.GenerateMesh | Assets/RuntimeSVG/Scripts/LaserMeshGenerator.cs:43-84 | A mesh is built exactly when the normalised paths are drawable; `Err(ClosedEmptyContour)` exactly when some closed contour tessellates to no point; every vertex of a built mesh lies in -50 <= y <= 50. |
| LaserMesh.GenerateMeshIsFanOfNormalized | Assets/RuntimeSVG/Scripts/LaserMeshGenerator.cs:82-83 | A built mesh is the fan mesh of the normalised paths, one path per contour of the scene. |
| RuntimeSvg.CentreRoundTrip | Assets/RuntimeSVG/Scripts/RuntimeSvg.cs:72-77 | Centring a point and undoing it gives the point back. |
| RuntimeSvg.UncentreRoundTrip | Assets/RuntimeSVG/Scripts/RuntimeSvg.cs:72-77 | Undoing and then redoing the centring gives the centred point back. |
| RuntimeSvg.Centred | Assets/RuntimeSVG/Scripts/RuntimeSvg.cs:72-77 | Point i of the result is the centred image of point i. |
| RuntimeSvg.TessellatedPath | Assets/RuntimeSVG/Scripts/RuntimeSvg.cs:63-80 | `Err(EmptyPolyline)` exactly when there are no points (`Average` throws); with points, `Err(CentreOnAxis)` exactly when the mean's y is 0; no other error occurs. On success it is `Distinct` of the points centred on their mean, open or closed alike. |
| RuntimeSvg.TessellatedPathSucceeds | Assets/RuntimeSVG/Scripts/RuntimeSvg.cs:63-80 | The polyline is built exactly when there are points and their mean is off the x axis. |
| RuntimeSvg.TessellatedPathContents | Assets/RuntimeSVG/Scripts/RuntimeSvg.cs:69-78 | The polyline has no repeated point, holds the centred image of every point and nothing else, in first-occurrence order. |
| RuntimeSvg.CentredPointsBalance | Assets/RuntimeSVG/Scripts/RuntimeSvg.cs:69-77 | The centre is the mean: the centred points sum to zero in both coordinates. |
| RuntimeSvg.AxisLandsAtFifty | Assets/RuntimeSVG/Scripts/RuntimeSvg.cs:74-76 | A point lands at height 50 exactly when it lies on y = 0. |
| RuntimeSvg.PolylinesContents | Assets/RuntimeSVG/Scripts/RuntimeSvg.cs:41-47 | The loop fails exactly when some contour tessellates to no point or to points whose mean lies on the x axis; otherwise polyline k is contour k's tessellated path. |
| RuntimeSvg.ScenePolylines | Assets/RuntimeSVG/Scripts/RuntimeSvg.cs:41-47 | One polyline per contour of the scene; it fails exactly when some contour tessellates to no point or to points whose mean lies on the x axis, and never with a mesh error. |
| RuntimeSvg.OnEnable | Assets/RuntimeSVG/Scripts/RuntimeSvg.cs:19-50 | A mesh is built exactly when every contour gives a polyline and the polylines are drawable; the errors other than the mesh builder's occur exactly when some contour tessellates to no point or to points whose mean lies on the x axis. |
| RuntimeSvg.OnEnableIsFanOfPolylines | Assets/RuntimeSVG/Scripts/RuntimeSvg.cs:19-50 | A mesh is built exactly when every contour gives a polyline and all are drawable; it is their fan mesh, and no polyline repeats a point. |
| Splines.NextIndex | Assets/RuntimeSVG/Scripts/VFXSplineBinder.cs:41 | `(idx + 1) % count`, below count. |
| Splines.PrevIndex | Assets/RuntimeSVG/Scripts/SVGToSpline.cs:54 | `(count + idx - 1) % count`, below count. |
| SplineBinder.KnotCurves | Assets/RuntimeSVG/Scripts/VFXSplineBinder.cs:39-44 | Curve i joins knot i to knot `(i + 1) % n`, one per knot. |
| SplineBinder.CandidateCurves | Assets/RuntimeSVG/Scripts/VFXSplineBinder.cs:39-45 | n curves for a closed spline, n - 1 for an open one (none for no knots); curve i joins knot i to knot `(i + 1) % n`. |
| SplineBinder.MeasuredCurvesKeepPositive | Assets/RuntimeSVG/Scripts/VFXSplineBinder.cs:46-47 | A candidate is kept exactly when its length is positive, and it carries that length. |
| SplineBinder.SelectedCurves | Assets/RuntimeSVG/Scripts/VFXSplineBinder.cs:37-49 | Every selected curve has a positive length. |
| SplineBinder.SelectedCurvesFlatten | Assets/RuntimeSVG/Scripts/VFXSplineBinder.cs:37-49 | The selection is the kept curves of each spline, one spline after another (`SelectMany`). |
| SplineBinder.SelectedCurvesMembers | Assets/RuntimeSVG/Scripts/VFXSplineBinder.cs:37-49 | A curve is selected exactly when it is a kept curve of one of the splines. |
| SplineBinder.TotalIsPositive | Assets/RuntimeSVG/Scripts/VFXSplineBinder.cs:56 | The total of a non-empty selection is positive. |
| SplineBinder.CurveStarts | Assets/RuntimeSVG/Scripts/VFXSplineBinder.cs:57-59 | One start per curve; the first is 0, they strictly increase, and all lie in [0, 1). |
| SplineBinder.StartGaps | Assets/RuntimeSVG/Scripts/VFXSplineBinder.cs:56-64 | The gap after start i is curve i's share of the total; the last gap runs up to 1. |
| SplineBinder.Keyframes | Assets/RuntimeSVG/Scripts/VFXSplineBinder.cs:60-66 | `count + 1` keyframes. |
| SplineBinder.KeyframePositions | Assets/RuntimeSVG/Scripts/VFXSplineBinder.cs:60-66 | Keyframe i is at (start i, i) and the last at (1, count); the first in tangent and the last out tangent are 0. |
| SplineBinder.KeyframeTangentShared | Assets/RuntimeSVG/Scripts/VFXSplineBinder.cs:63-66 | The out tangent of keyframe i equals the in tangent of keyframe i + 1, and both are `1 / gap`, where the gap runs from start i to start i + 1 (to 1 after the last start) and is positive. |
| SplineBinder.KeyframeSlope | Assets/RuntimeSVG/Scripts/VFXSplineBinder.cs:56-66 | For the selected curves, the tangent between keyframes i and i + 1 is `total / length_i`, their values differ by 1, so the lookup curve rises by one curve per share of the total length. |
| SplineBinder.CurveTexelChannels | Assets/RuntimeSVG/Scripts/VFXSplineBinder.cs:72-77 | Texel k holds control point k; the alphas are the start, the length, the total and total / length. |
| SplineBinder.PackTexels | Assets/RuntimeSVG/Scripts/VFXSplineBinder.cs:69-78 | Four texels per curve, and texels 4i .. 4i+3 are curve i's. |
| SplineBinder.UpdateTexture | Assets/RuntimeSVG/Scripts/VFXSplineBinder.cs:37-78 | Fails exactly when no curve is selected (`Last()` throws). Otherwise the total is positive and the starts, keyframes and texels are the ones above. |
| SvgToSpline.MapPointInverse | Assets/RuntimeSVG/Scripts/SVGToSpline.cs:44-49 | Flipping back and adding the canvas offset recovers `matrix * p`. |
| SvgToSpline.MapSegments | Assets/RuntimeSVG/Scripts/SVGToSpline.cs:42-50 | Every segment is kept in place with its three control points mapped. |
| SvgToSpline.SegmentKnots | Assets/RuntimeSVG/Scripts/SVGToSpline.cs:51-60 | One knot per segment. |
| SvgToSpline.KnotTangents | Assets/RuntimeSVG/Scripts/SVGToSpline.cs:53-58 | Knot i sits on segment i's P0; `pos + tOut` is segment i's P1 and `pos + tIn` is P2 of segment `(n + i - 1) % n`. |
| SvgToSpline.KnotsRebuildSegments | Assets/RuntimeSVG/Scripts/SVGToSpline.cs:51-58 | The curve from knot i to knot `(i + 1) % n` is segment i again, ending at the next segment's start. |
| SvgToSpline.ContourSpline | Assets/RuntimeSVG/Scripts/SVGToSpline.cs:39-60 | The spline keeps the contour's closed flag and has one knot per segment. |
| SvgToSpline.ContourSplineKnots | Assets/RuntimeSVG/Scripts/SVGToSpline.cs:44-55 | Knot i sits on the mapped start of segment i. |
| SvgToSpline.ShapeSplines | Assets/RuntimeSVG/Scripts/SVGToSpline.cs:35-62 | One spline per contour, in order. |
| SvgToSpline.AddNode | Assets/RuntimeSVG/Scripts/SVGToSpline.cs:25-67 | One converted child per scene child; a container exactly when the node has shapes, holding the splines of all its shapes' contours under `base * node.Transform`; child k is converted under that same composed matrix. |
| SvgToSpline.AddNodeKnots | Assets/RuntimeSVG/Scripts/SVGToSpline.cs:29-55 | Spline k of the container keeps contour k's closed flag, and its knot i sits on segment i's start taken through the node's transform, then the base, then shifted by the canvas offset and y-flipped. |
| SvgToSpline.NodeMatrixApplies | Assets/RuntimeSVG/Scripts/SVGToSpline.cs:29-49 | Mapping through `base * node.Transform` is mapping through the node's transform, then the base. |
| SvgToSpline.Convert | Assets/RuntimeSVG/Scripts/SVGToSpline.cs:16-23 | Fails exactly when pixels per unit is 0; otherwise the result is the root added under the identity with the canvas offset, so the root's container uses the root's own transform and child k is added under it. |
| SvgToSpline.CanvasCentred | Assets/RuntimeSVG/Scripts/SVGToSpline.cs:44-49 | For any canvas size and non-zero pixels per unit, a point maps to the origin exactly when the matrix takes it to the canvas centre; the canvas corners (0, 0) and (size / ppu) map to (-h.x, h.y) and (h.x, -h.y). |
| Mathf.InverseLerp | Assets/RuntimeSVG/Scripts/DrawingPath.cs:80 | The clamped fraction lies in [0, 1]. |
| Mathf.LerpBetween | Assets/RuntimeSVG/Scripts/DrawingPath.cs:81 | `Lerp` lies between its ends for every t. |
| Mathf.LerpInverseLerp | Assets/RuntimeSVG/Scripts/DrawingPath.cs:80-81 | Inside the range, `InverseLerp` undoes `Lerp`. |
| DrawingPath.Points2Segments | Assets/RuntimeSVG/Scripts/DrawingPath.cs:66-91 | One segment per point; no points give no segments. |
| DrawingPath.AroundIsCyclic | Assets/RuntimeSVG/Scripts/DrawingPath.cs:72-77 | Segment i uses points i - 1, i, i + 1 and i + 2, cyclically. |
| DrawingPath.SharpnessRange | Assets/RuntimeSVG/Scripts/DrawingPath.cs:79-81 | The factor lies in [6, 36]; it is 6 up to 30 degrees and 36 from 90 degrees on. |
| DrawingPath.SegmentsStartAtPoints | Assets/RuntimeSVG/Scripts/DrawingPath.cs:83-85 | Segment i starts at point i. |
| DrawingPath.ControlsOnChords | Assets/RuntimeSVG/Scripts/DrawingPath.cs:83-87 | `P1 - p[1] == (p[2] - p[0]) / val` and `P2 - p[2] == (p[1] - p[3]) / val`. |
| DrawingPath.SmoothAtPoints | Assets/RuntimeSVG/Scripts/DrawingPath.cs:72-87 | At every point, the control leaving it and the control entering it point in opposite directions along the chord from the previous to the next point. |
| MergedPaths.LineIntersection | Assets/RuntimeSVG/Scripts/MergedPathes.cs:32-52 | A zero determinant gives false and (0, 0); success puts the point's x strictly inside both segments' x ranges. |
| MergedPaths.EquationIsOnLine | Assets/RuntimeSVG/Scripts/MergedPathes.cs:34-40 | `a·x + b·y == c` holds exactly when the point is collinear with the segment's endpoints. |
| MergedPaths.CramerSolves | Assets/RuntimeSVG/Scripts/MergedPathes.cs:34-45 | With a non-zero determinant the point lies on both lines. |
| MergedPaths.CramerUnique | Assets/RuntimeSVG/Scripts/MergedPathes.cs:42-45 | With a non-zero determinant any point on both lines is the computed point. |
| MergedPaths.IntersectionSucceeds | Assets/RuntimeSVG/Scripts/MergedPathes.cs:44-51 | Success exactly when the determinant is non-zero and the point's x is strictly inside both ranges. |
| MergedPaths.VerticalNeverIntersects | Assets/RuntimeSVG/Scripts/MergedPathes.cs:46-50 | A vertical segment never succeeds. |
| MergedPaths.WorldPath | Assets/RuntimeSVG/Scripts/MergedPathes.cs:17-20 | Point i of a child's path is its transform applied to point i. |
| MergedPaths.Merge | Assets/RuntimeSVG/Scripts/MergedPathes.cs:15-24 | Fails exactly when there are fewer than two paths; otherwise the length is the sum of the first two paths' lengths. |
| MergedPaths.MergeSplits | Assets/RuntimeSVG/Scripts/MergedPathes.cs:22-23 | The merged path is the first world path, point for point, followed by the second. |

## Left out

- Floating point: coordinates are exact reals. Rounding is not modelled. NaN and infinity are not modelled as values: the inputs that produce them (0/0 UVs, zero scene height, a centre on the axis, zero pixels per unit) are error results instead.
- File reading and SVG parsing (`StreamReader`, `SVGParser.ImportSVG`), the editor menu items, `ShowInfo` and the asset database: input and output only. The model starts from the parsed scene tree.
- The vector-graphics package's `TessellatePath` is a function parameter that maps a contour and the options to a polyline. So are the splines package's `CurveUtility.CalculateLength` (a curve to a length) and `Vector2.Angle`. Their algorithms are not in this repository.
- `ApproximateSceneNodeBounds`: the bounding box's width and height are parameters of `ComputeTessellationOptions`.
- `ComputeTessellationOptions` sets `stepDist` to `float.MaxValue`, but no caller reads it. The path properties (tipped corners, chopped ends) are fixed arguments to the tessellator and are not modelled.
- The engine objects are left out: `Mesh`, `Texture2D`, `AnimationCurve` (its evaluation), `SplineContainer`, `GameObject` and `VisualEffect`. The model keeps their contents as sequences: vertex, UV and index lists, texels, keyframes, and the tree of spline containers.
- `SvgToSpline.AddNode`: knot rotations are taken as the identity, the default of the constructor the code calls.
- `SplineBinder.KnotCurves`: `new BezierCurve(knot, next)` rotates each knot's tangents by the knot's rotation. The model's knots carry no rotation, so it covers only knots whose rotation is the identity. This is what `SVGToSpline` produces, but a spline edited in the engine may have other rotations.
- `SvgScene.AllShapes`: `GetAllShapes` assigns `FillTransform` on the scene's own `Shape` objects (LaserMeshGenerator.cs:90-94). It thereby changes the input scene. A shape object shared by two nodes keeps only the last transform written, and both occurrences are then tessellated with it. The model instead pairs each occurrence with its own world transform, and it leaves the input unchanged.
- `SvgToSpline.AddNode`: the C# loop overwrites the scene's segment arrays in place. A contour reached twice would be mapped twice; the model maps a fresh copy each time.
- `VFXSplineBinder`: the early return when `Target` is null, the texture reallocation and `UpdateSubProperty` are left out. These are engine state, not geometry.
- `DrawingPath`'s input handling in `Update`, the Douglas-Peucker simplification library, the sprite building and the gizmos: interactive and rendering code. Only `Points2Segments` is modelled.
- `MergedPathes`: `GetComponentsInChildren` becomes the list of child paths, each with a 2D affine world transform. The third coordinate of `TransformPoint` is dropped, as the cast to `Vector2` does.
- The gizmo methods, `CsvToTex`, `CombineSpline`, `PathObject` and the scratch `AnimationCurve/Scripts/RuntimeSvg.cs`: plumbing with no geometry of its own.
- `GenerateMesh(List<Vector2[]>)` exists twice, identically, in `LaserMeshGenerator` and `RuntimeSvg`. It is modelled once, as `FanMesh.GenerateMesh`.
