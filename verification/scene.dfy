/** The vector-graphics scene the SVG importer produces, and the two ways the
    core walks it: `LaserMeshGenerator.GetAllShapes`, which hands every shape the
    world transform of its node, and `RuntimeSvg.GetAllBeziers`, which lists the
    contours without any transform. A `null` shape or child list is the empty
    sequence. */
module SvgScene {
  import opened Geometry
  import opened Linq

  /** `BezierPathSegment`: a cubic piece from `p0` with controls `p1`, `p2`; its end
      point is the next segment's `p0`. */
  datatype Segment = Segment(p0: Vec2, p1: Vec2, p2: Vec2)

  /** `BezierContour`. */
  datatype Contour = Contour(segments: seq<Segment>, closed: bool)

  datatype Shape = Shape(contours: seq<Contour>)

  /** `SceneNode`: a local transform, the node's own shapes and its children. */
  datatype Node = Node(transform: Affine, shapes: seq<Shape>, children: seq<Node>)

  /** A shape with the `FillTransform` the walk assigned to it. */
  datatype PlacedShape = PlacedShape(shape: Shape, fill: Affine)

  /** `shapes.SelectMany(s => s.Contours)`. */
  function ShapeContours(shapes: seq<Shape>): seq<Contour> {
    Flatten(Select(shapes, (s: Shape) => s.contours))
  }

  /** The contours of placed shapes, one shape after another. */
  function PlacedContours(ps: seq<PlacedShape>): seq<Contour> {
    Flatten(Select(ps, (p: PlacedShape) => p.shape.contours))
  }

  /** Every own shape of a node, given the node's world transform. */
  function Place(shapes: seq<Shape>, world: Affine): (r: seq<PlacedShape>)
    ensures |r| == |shapes|
    ensures forall i :: 0 <= i < |shapes| ==> r[i].shape == shapes[i] && r[i].fill == world
  {
    Select(shapes, (s: Shape) => PlacedShape(s, world))
  }

  /** `GetAllShapes(node, worldTransform)`: the node's own shapes placed at
      `world`, then, child by child, the child's shapes placed at
      `world * child.Transform`. */
  function AllShapes(node: Node, world: Affine): (r: seq<PlacedShape>)
    ensures |r| >= |node.shapes|
    ensures r[..|node.shapes|] == Place(node.shapes, world)
    decreases node
  {
    Place(node.shapes, world) + ChildShapes(node.children, world)
  }

  function ChildShapes(children: seq<Node>, world: Affine): seq<PlacedShape>
    decreases children
  {
    if |children| == 0 then []
    else AllShapes(children[0], Compose(world, children[0].transform)) + ChildShapes(children[1..], world)
  }

  /** `GetAllBeziers(node)`: the contours of the node's own shapes first, then each
      child's list in child order (a pre-order walk); no transform is applied. */
  function AllContours(node: Node): (r: seq<Contour>)
    ensures |r| >= |ShapeContours(node.shapes)|
    ensures r[..|ShapeContours(node.shapes)|] == ShapeContours(node.shapes)
    decreases node
  {
    ShapeContours(node.shapes) + ChildContours(node.children)
  }

  function ChildContours(children: seq<Node>): seq<Contour>
    decreases children
  {
    if |children| == 0 then [] else AllContours(children[0]) + ChildContours(children[1..])
  }

  lemma PlacedContoursAppend(a: seq<PlacedShape>, b: seq<PlacedShape>)
    ensures PlacedContours(a + b) == PlacedContours(a) + PlacedContours(b)
  {
    SelectAppend(a, b, (p: PlacedShape) => p.shape.contours);
    FlattenAppend(Select(a, (p: PlacedShape) => p.shape.contours), Select(b, (p: PlacedShape) => p.shape.contours));
  }

  lemma PlacedContoursOfPlace(shapes: seq<Shape>, world: Affine)
    ensures PlacedContours(Place(shapes, world)) == ShapeContours(shapes)
  {
    assert Select(Place(shapes, world), (p: PlacedShape) => p.shape.contours)
        == Select(shapes, (s: Shape) => s.contours);
  }

  /** Both walks visit the same contours in the same order: the contours of the
      shapes `GetAllShapes` collects are exactly what `GetAllBeziers` returns,
      whatever the root transform. */
  lemma {:induction false} ShapesAndContoursAgree(node: Node, world: Affine)
    ensures PlacedContours(AllShapes(node, world)) == AllContours(node)
    decreases node
  {
    PlacedContoursAppend(Place(node.shapes, world), ChildShapes(node.children, world));
    PlacedContoursOfPlace(node.shapes, world);
    ChildrenAgree(node.children, world);
  }

  lemma {:induction false} ChildrenAgree(children: seq<Node>, world: Affine)
    ensures PlacedContours(ChildShapes(children, world)) == ChildContours(children)
    decreases children
  {
    if |children| > 0 {
      var c := children[0];
      PlacedContoursAppend(AllShapes(c, Compose(world, c.transform)), ChildShapes(children[1..], world));
      ShapesAndContoursAgree(c, Compose(world, c.transform));
      ChildrenAgree(children[1..], world);
    }
  }

  /** `xs` is `ys` seen through the outer transform `w`: the same shapes, and each
      fill transform of `xs` maps a point as `w` applied after the matching fill
      transform of `ys`. */
  ghost predicate SeenThrough(xs: seq<PlacedShape>, ys: seq<PlacedShape>, w: Affine) {
    && |xs| == |ys|
    && forall i :: 0 <= i < |xs| ==>
         && xs[i].shape == ys[i].shape
         && forall p :: Apply(xs[i].fill, p) == Apply(w, Apply(ys[i].fill, p))
  }

  lemma SeenThroughAppend(xs: seq<PlacedShape>, ys: seq<PlacedShape>,
                          xs': seq<PlacedShape>, ys': seq<PlacedShape>, w: Affine)
    requires SeenThrough(xs, ys, w) && SeenThrough(xs', ys', w)
    ensures SeenThrough(xs + xs', ys + ys', w)
  {
    forall i | |xs| <= i < |xs + xs'|
      ensures (xs + xs')[i] == xs'[i - |xs|] && (ys + ys')[i] == ys'[i - |xs|]
    {
    }
  }

  lemma SeenThroughCompose(xs: seq<PlacedShape>, ys: seq<PlacedShape>, zs: seq<PlacedShape>,
                           w: Affine, t: Affine)
    requires SeenThrough(xs, zs, Compose(w, t)) && SeenThrough(ys, zs, t)
    ensures SeenThrough(xs, ys, w)
  {
    forall i, p | 0 <= i < |xs|
      ensures Apply(xs[i].fill, p) == Apply(w, Apply(ys[i].fill, p))
    {
      ComposeApply(w, t, Apply(zs[i].fill, p));
    }
  }

  /** The world transform `GetAllShapes` gives a shape is the root's transform
      composed with the product of the local transforms down to the shape's node:
      walking from `world` is walking from the identity and then applying `world`. */
  lemma {:induction false} WorldTransformFactors(node: Node, world: Affine)
    ensures SeenThrough(AllShapes(node, world), AllShapes(node, Identity), world)
    decreases node
  {
    IdentityIsNeutral(world);
    assert SeenThrough(Place(node.shapes, world), Place(node.shapes, Identity), world);
    ChildrenTransformsFactor(node.children, world);
    SeenThroughAppend(Place(node.shapes, world), Place(node.shapes, Identity),
                      ChildShapes(node.children, world), ChildShapes(node.children, Identity), world);
  }

  lemma {:induction false} ChildrenTransformsFactor(children: seq<Node>, world: Affine)
    ensures SeenThrough(ChildShapes(children, world), ChildShapes(children, Identity), world)
    decreases children
  {
    if |children| > 0 {
      var c := children[0];
      IdentityIsNeutral(c.transform);
      WorldTransformFactors(c, Compose(world, c.transform));
      WorldTransformFactors(c, c.transform);
      SeenThroughCompose(AllShapes(c, Compose(world, c.transform)), AllShapes(c, c.transform),
                         AllShapes(c, Identity), world, c.transform);
      ChildrenTransformsFactor(children[1..], world);
      SeenThroughAppend(AllShapes(c, Compose(world, c.transform)), AllShapes(c, Compose(Identity, c.transform)),
                        ChildShapes(children[1..], world), ChildShapes(children[1..], Identity), world);
    }
  }
}
