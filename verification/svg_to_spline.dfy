/** `SVGToSpline.AddNode`: the scene tree becomes a tree of spline containers.
    Every contour of a node's shapes is mapped through the node's accumulated
    matrix, moved so that the SVG canvas is centred on the origin, flipped to a
    y-up axis, and turned into a spline with one knot per segment. */
module SvgToSpline {
  import opened Geometry
  import opened Results
  import opened SvgScene
  import opened Splines

  /** The serialized fields `pixelsPerUnit` and `svgSize`. */
  datatype Settings = Settings(pixelsPerUnit: int, svgSize: Vec2)

  /** The defaults of the serialized fields. */
  const DefaultSettings: Settings := Settings(100, Vec2(512.0, 512.0))

  datatype ConvertError =
    /** `svgSize * 0.5f / 0` makes every coordinate infinite or undefined. */
    | ZeroPixelsPerUnit

  /** The node `AddNode` creates: a spline container when the scene node has at
      least one shape, and one child per scene child. */
  datatype SplineNode = SplineNode(container: Option<seq<Spline>>, children: seq<SplineNode>)

  /** `svgSize * 0.5f / pixelsPerUnit`: half the canvas, in units. */
  function CanvasOffset(s: Settings): Vec2
    requires s.pixelsPerUnit != 0
  {
    Scale(s.svgSize, 0.5 / s.pixelsPerUnit as real)
  }

  /** `matrix * p - offset`, then `p.y = -p.y`. */
  function MapPoint(matrix: Affine, p: Vec2, offset: Vec2): Vec2 {
    FlipY(Sub(Apply(matrix, p), offset))
  }

  /** Flipping back and adding the offset recovers `matrix * p`. */
  lemma MapPointInverse(matrix: Affine, p: Vec2, offset: Vec2)
    ensures Add(FlipY(MapPoint(matrix, p, offset)), offset) == Apply(matrix, p)
  {
  }

  function MapSegment(matrix: Affine, seg: Segment, offset: Vec2): Segment {
    Segment(MapPoint(matrix, seg.p0, offset), MapPoint(matrix, seg.p1, offset), MapPoint(matrix, seg.p2, offset))
  }

  /** The first loop: every control point of every segment mapped. */
  function MapSegments(matrix: Affine, segs: seq<Segment>, offset: Vec2): (r: seq<Segment>)
    ensures |r| == |segs|
    ensures forall i :: 0 <= i < |segs| ==> r[i] == MapSegment(matrix, segs[i], offset)
  {
    seq(|segs|, i requires 0 <= i < |segs| => MapSegment(matrix, segs[i], offset))
  }

  /** The knot of segment `i`: at the segment's start, with the in tangent
      pointing to the previous segment's second control and the out tangent to
      this segment's first control. */
  function KnotAt(segs: seq<Segment>, i: nat): Knot
    requires i < |segs|
  {
    var segment := segs[i];
    var prev := segs[PrevIndex(i, |segs|)];
    var pos := To3(segment.p0);
    Knot(pos, Sub3(To3(prev.p2), pos), Sub3(To3(segment.p1), pos))
  }

  /** The second loop: one knot per segment, in segment order. */
  function SegmentKnots(segs: seq<Segment>): (r: seq<Knot>)
    ensures |r| == |segs|
  {
    seq(|segs|, i requires 0 <= i < |segs| => KnotAt(segs, i))
  }

  /** Knot i sits on segment i's start; adding its out tangent reaches the
      segment's first control, adding its in tangent reaches the second control
      of segment (i - 1) mod n, so knot 0 takes it from the last segment. */
  lemma KnotTangents(segs: seq<Segment>, i: nat)
    requires i < |segs|
    ensures var k := SegmentKnots(segs)[i];
            && k.position == To3(segs[i].p0)
            && Add3(k.position, k.tangentOut) == To3(segs[i].p1)
            && Add3(k.position, k.tangentIn) == To3(segs[(|segs| + i - 1) % |segs|].p2)
  {
  }

  /** The round trip: the curve the splines package draws from knot i to knot
      (i + 1) mod n is segment i again, ending where the following segment
      starts. */
  lemma KnotsRebuildSegments(segs: seq<Segment>, i: nat)
    requires i < |segs|
    ensures var knots := SegmentKnots(segs);
            var j := (i + 1) % |segs|;
            CurveBetween(knots[i], knots[j])
            == Curve(To3(segs[i].p0), To3(segs[i].p1), To3(segs[i].p2), To3(segs[j].p0))
  {
    var j := NextIndex(i, |segs|);
    assert PrevIndex(j, |segs|) == i;
    assert SegmentKnots(segs)[j] == KnotAt(segs, j);
  }

  /** The spline of one contour: the mapped segments' knots and the contour's
      closed flag. */
  function ContourSpline(matrix: Affine, c: Contour, offset: Vec2): (r: Spline)
    ensures r.closed == c.closed && |r.knots| == |c.segments|
  {
    Spline(SegmentKnots(MapSegments(matrix, c.segments, offset)), c.closed)
  }

  /** Knot i of a contour's spline sits on the mapped start of segment i. */
  lemma ContourSplineKnots(matrix: Affine, c: Contour, offset: Vec2, i: nat)
    requires i < |c.segments|
    ensures ContourSpline(matrix, c, offset).knots[i].position
            == To3(MapPoint(matrix, c.segments[i].p0, offset))
  {
    var mapped := MapSegments(matrix, c.segments, offset);
    assert SegmentKnots(mapped)[i] == KnotAt(mapped, i);
  }

  /** `node.Shapes.ForEach(shape => foreach (var bezier in shape.Contours) ...)`:
      one spline per contour, shape by shape. */
  function ShapeSplines(matrix: Affine, cs: seq<Contour>, offset: Vec2): (r: seq<Spline>)
    ensures |r| == |cs|
    ensures forall k :: 0 <= k < |cs| ==> r[k] == ContourSpline(matrix, cs[k], offset)
  {
    seq(|cs|, k requires 0 <= k < |cs| => ContourSpline(matrix, cs[k], offset))
  }

  /** `AddNode(node, parent, baseTransform)`: the node's matrix is
      `baseTransform * node.Transform`; a container holds the splines of the
      node's contours, mapped through that matrix, when the node has shapes,
      and every child is added with that matrix as its base. */
  function AddNode(node: Node, base: Affine, offset: Vec2): (r: SplineNode)
    ensures |r.children| == |node.children|
    ensures r.container.Some? <==> |node.shapes| > 0
    ensures r.container.Some? ==>
              r.container.value == ShapeSplines(Compose(base, node.transform), ShapeContours(node.shapes), offset)
    ensures forall k :: 0 <= k < |node.children| ==>
              r.children[k] == AddNode(node.children[k], Compose(base, node.transform), offset)
    decreases node
  {
    var matrix := Compose(base, node.transform);
    var container := if 0 < |node.shapes| then Some(ShapeSplines(matrix, ShapeContours(node.shapes), offset)) else None;
    SplineNode(container, seq(|node.children|, k requires 0 <= k < |node.children| =>
                                AddNode(node.children[k], matrix, offset)))
  }

  /** Knot i of spline k in a node's container sits where the node's own
      transform, then the base matrix, then the canvas shift and the flip take
      the start of segment i of contour k. */
  lemma AddNodeKnots(node: Node, base: Affine, offset: Vec2, k: nat, i: nat)
    requires k < |ShapeContours(node.shapes)| && i < |ShapeContours(node.shapes)[k].segments|
    ensures AddNode(node, base, offset).container.Some?
    ensures var c := ShapeContours(node.shapes)[k];
            var splines := AddNode(node, base, offset).container.value;
            k < |splines| && i < |splines[k].knots| && splines[k].closed == c.closed
            && splines[k].knots[i].position
               == To3(FlipY(Sub(Apply(base, Apply(node.transform, c.segments[i].p0)), offset)))
  {
    var c := ShapeContours(node.shapes)[k];
    ContourSplineKnots(Compose(base, node.transform), c, offset, i);
    NodeMatrixApplies(node, base, offset, c.segments[i].p0);
  }

  /** A control point of a node's contour lands where the base matrix takes the
      node's own transform of it: composing the matrices is applying them one
      after the other. */
  lemma NodeMatrixApplies(node: Node, base: Affine, offset: Vec2, p: Vec2)
    ensures MapPoint(Compose(base, node.transform), p, offset)
            == FlipY(Sub(Apply(base, Apply(node.transform, p)), offset))
  {
    ComposeApply(base, node.transform, p);
  }

  /** `Convert()` after the import: the root is added with the identity as its
      base, so the root's own transform is its matrix and is what its children
      receive. */
  function Convert(root: Node, s: Settings): (r: Result<SplineNode, ConvertError>)
    ensures r.Err? <==> s.pixelsPerUnit == 0
    ensures r.Ok? ==> r.value == AddNode(root, Identity, CanvasOffset(s))
    ensures r.Ok? && |root.shapes| > 0 ==>
              r.value.container == Some(ShapeSplines(root.transform, ShapeContours(root.shapes), CanvasOffset(s)))
    ensures r.Ok? ==> forall k :: 0 <= k < |root.children| ==>
              r.value.children[k] == AddNode(root.children[k], root.transform, CanvasOffset(s))
  {
    if s.pixelsPerUnit == 0 then Err(ZeroPixelsPerUnit)
    else
      IdentityIsNeutral(root.transform);
      Ok(AddNode(root, Identity, CanvasOffset(s)))
  }

  /** The canvas, in units, is centred on the origin: the point the matrix
      takes to half the canvas lands on the origin, and nothing else does; the
      canvas corners at (0, 0) and at the full size land on opposite corners,
      with y flipped. */
  lemma CanvasCentred(s: Settings, matrix: Affine, p: Vec2)
    requires s.pixelsPerUnit != 0
    ensures MapPoint(matrix, p, CanvasOffset(s)) == Vec2(0.0, 0.0)
            <==> Apply(matrix, p) == Scale(s.svgSize, 0.5 / s.pixelsPerUnit as real)
    ensures var h := CanvasOffset(s);
            && MapPoint(Identity, Vec2(0.0, 0.0), h) == Vec2(-h.x, h.y)
            && MapPoint(Identity, Scale(s.svgSize, 1.0 / s.pixelsPerUnit as real), h) == Vec2(h.x, -h.y)
  {
    IdentityIsNeutral(matrix);
    var u := s.pixelsPerUnit as real;
    assert s.svgSize.x * (1.0 / u) - s.svgSize.x * (0.5 / u) == s.svgSize.x * (0.5 / u);
    assert s.svgSize.y * (1.0 / u) - s.svgSize.y * (0.5 / u) == s.svgSize.y * (0.5 / u);
  }
}
