/** `DrawingPath.Points2Segments`: a closed loop of drawn points becomes one
    cubic Bezier segment per point. Segment i starts at point i; its controls
    sit on the chords through the neighbouring points, shortened by a factor
    between 6 and 36 that grows with the turning angle at the point. The angle
    function is the engine's `Vector2.Angle` and is a parameter. */
module DrawingPath {
  import opened Geometry
  import opened Mathf
  import opened SvgScene
  import opened Splines

  /** `Vector2.Angle(from, to)`, in degrees. */
  type AngleFn = (Vec2, Vec2) -> real

  /** `v / d` for a vector. */
  function Div(v: Vec2, d: real): Vec2
    requires d != 0.0
  {
    Vec2(v.x / d, v.y / d)
  }

  /** `index % count`, for the non-negative indices the loop forms. */
  function Wrap(index: nat, count: nat): (r: nat)
    requires count > 0
    ensures r < count
  {
    index % count
  }

  /** The four points around segment i: `points[(count + i + k) % count]` for
      k = -1, 0, 1, 2. */
  function Around(points: seq<Vec2>, i: nat): (p: seq<Vec2>)
    requires i < |points|
    ensures |p| == 4
  {
    var count := |points|;
    [points[Wrap(count + i - 1, count)], points[Wrap(count + i, count)],
     points[Wrap(count + i + 1, count)], points[Wrap(count + i + 2, count)]]
  }

  /** `Mathf.Lerp(6f, 36f, Mathf.InverseLerp(30f, 90f, angle))`. */
  function Sharpness(angle: real): real {
    Lerp(6.0, 36.0, InverseLerp(30.0, 90.0, angle))
  }

  /** The factor lies in [6, 36] for every angle, since both `InverseLerp` and
      `Lerp` clamp; it is 6 up to 30 degrees and 36 from 90 degrees on. */
  lemma SharpnessRange(angle: real)
    ensures 6.0 <= Sharpness(angle) <= 36.0
    ensures angle <= 30.0 ==> Sharpness(angle) == 6.0
    ensures angle >= 90.0 ==> Sharpness(angle) == 36.0
  {
    LerpBetween(6.0, 36.0, InverseLerp(30.0, 90.0, angle));
  }

  /** The factor of segment i, from the angle between the incoming and the
      outgoing chord at point i. */
  function SharpnessAt(points: seq<Vec2>, i: nat, angle: AngleFn): (val: real)
    requires i < |points|
    ensures 6.0 <= val <= 36.0
  {
    var p := Around(points, i);
    var val := Sharpness(angle(Sub(p[1], p[0]), Sub(p[2], p[1])));
    SharpnessRange(angle(Sub(p[1], p[0]), Sub(p[2], p[1])));
    val
  }

  /** Segment i: `P0 = p[1]`, `P1 = (-p[0] + val * p[1] + p[2]) / val`,
      `P2 = (p[1] + val * p[2] - p[3]) / val`. */
  function SegmentAt(points: seq<Vec2>, i: nat, angle: AngleFn): Segment
    requires i < |points|
  {
    var p := Around(points, i);
    var val := SharpnessAt(points, i, angle);
    Segment(p[1],
            Div(Add(Add(Scale(p[0], -1.0), Scale(p[1], val)), p[2]), val),
            Div(Sub(Add(p[1], Scale(p[2], val)), p[3]), val))
  }

  /** `Points2Segments(points)`: one segment per point, none for no points. */
  function Points2Segments(points: seq<Vec2>, angle: AngleFn): (r: seq<Segment>)
    ensures |r| == |points|
  {
    seq(|points|, i requires 0 <= i < |points| => SegmentAt(points, i, angle))
  }

  /** The neighbour indices the loop forms are the cyclic ones: point i itself,
      the previous, the next and the one after. */
  lemma AroundIsCyclic(points: seq<Vec2>, i: nat)
    requires i < |points|
    ensures var n := |points|;
            Around(points, i) == [points[PrevIndex(i, n)], points[i],
                                  points[NextIndex(i, n)], points[NextIndex(NextIndex(i, n), n)]]
  {
    var n := |points|;
    ShiftedRemainder(i, n);
    OneAhead(i, n);
    TwoAhead(i, n);
  }

  /** `(n + i + 1) % n` is the next index. */
  lemma OneAhead(i: nat, n: nat)
    requires i < n
    ensures (n + i + 1) % n == NextIndex(i, n)
  {
    if i + 1 < n {
      ShiftedRemainder(i + 1, n);
    } else {
      assert n + i + 1 == 2 * n;
    }
  }

  /** `(n + i + 2) % n` is two steps ahead of i. */
  lemma TwoAhead(i: nat, n: nat)
    requires i < n
    ensures (n + i + 2) % n == NextIndex(NextIndex(i, n), n)
  {
    if i + 2 < n {
      ShiftedRemainder(i + 2, n);
    } else if i + 2 < 2 * n {
      assert n + i + 2 == 2 * n + (i + 2 - n);
      assert (n + i + 2) / n == 2;
    } else {
      assert n == 1 && i == 0;
    }
  }

  /** Segment i starts at point i, and the loop's segments follow the points. */
  lemma SegmentsStartAtPoints(points: seq<Vec2>, angle: AngleFn, i: nat)
    requires i < |points|
    ensures Points2Segments(points, angle)[i].p0 == points[i]
  {
    AroundIsCyclic(points, i);
  }

  /** The controls of segment i sit on the chords through the neighbours: the
      first control is point i moved by (next - previous) / val, the second is
      the next point moved by (point i - the one after next) / val. */
  lemma ControlsOnChords(points: seq<Vec2>, angle: AngleFn, i: nat)
    requires i < |points|
    ensures var n := |points|;
            var s := Points2Segments(points, angle)[i];
            var val := SharpnessAt(points, i, angle);
            && Sub(s.p1, points[i]) == Div(Sub(points[NextIndex(i, n)], points[PrevIndex(i, n)]), val)
            && Sub(s.p2, points[NextIndex(i, n)])
               == Div(Sub(points[i], points[NextIndex(NextIndex(i, n), n)]), val)
  {
    AroundIsCyclic(points, i);
    var p := Around(points, i);
    var val := SharpnessAt(points, i, angle);
    ChordOffset(p[0], p[1], p[2], val);
    ChordOffset(p[3], p[2], p[1], val);
    assert Sub(Add(p[1], Scale(p[2], val)), p[3]) == Add(Add(Scale(p[3], -1.0), Scale(p[2], val)), p[1]);
  }

  /** `(-a + val * b + c) / val - b == (c - a) / val`. */
  lemma ChordOffset(a: Vec2, b: Vec2, c: Vec2, val: real)
    requires val != 0.0
    ensures Sub(Div(Add(Add(Scale(a, -1.0), Scale(b, val)), c), val), b) == Div(Sub(c, a), val)
  {
    ChordOffsetAxis(a.x, b.x, c.x, val);
    ChordOffsetAxis(a.y, b.y, c.y, val);
  }

  /** One coordinate of `ChordOffset`. */
  lemma ChordOffsetAxis(a: real, b: real, c: real, val: real)
    requires val != 0.0
    ensures (-a + b * val + c) / val - b == (c - a) / val
  {
    var q := (c - a) / val;
    assert q * val == c - a;
    assert (q + b) * val == -a + b * val + c;
    QuotientUnique(q + b, -a + b * val + c, val);
  }

  /** The curve is smooth through every point: the control entering point i
      (from the previous segment) and the one leaving it point in opposite
      directions along the same chord from the previous to the next point. */
  lemma SmoothAtPoints(points: seq<Vec2>, angle: AngleFn, i: nat)
    requires i < |points|
    ensures var n := |points|;
            var h := PrevIndex(i, n);
            var chord := Sub(points[NextIndex(i, n)], points[h]);
            var segs := Points2Segments(points, angle);
            && Scale(Sub(segs[i].p1, points[i]), SharpnessAt(points, i, angle)) == chord
            && Scale(Sub(segs[h].p2, points[i]), SharpnessAt(points, h, angle)) == Scale(chord, -1.0)
  {
    var n := |points|;
    var h := PrevIndex(i, n);
    ControlsOnChords(points, angle, i);
    ControlsOnChords(points, angle, h);
    NextPrev(i, n);
    UndoDiv(Sub(points[NextIndex(i, n)], points[h]), SharpnessAt(points, i, angle));
    UndoDiv(Sub(points[h], points[NextIndex(i, n)]), SharpnessAt(points, h, angle));
  }

  lemma NextPrev(i: nat, n: nat)
    requires i < n
    ensures NextIndex(PrevIndex(i, n), n) == i
    ensures NextIndex(NextIndex(PrevIndex(i, n), n), n) == NextIndex(i, n)
  {
  }

  lemma UndoDiv(v: Vec2, d: real)
    requires d != 0.0
    ensures Scale(Div(v, d), d) == v
  {
  }
}
