/** `VFXSplineBinder.UpdateTexture`: the Bezier curves between consecutive knots
    of every spline, without the zero-length ones, become an arclength lookup
    table — a keyframe curve mapping the start fraction of each curve to its
    index, and a texture of four texels per curve holding its control points and
    its start, length, the total length and the length ratio. Curve lengths come
    from the splines package's estimator and are a parameter. */
module SplineBinder {
  import opened Geometry
  import opened Linq
  import opened Results
  import opened Splines
  import Mathf

  /** The `(curve, length)` pairs the selection produces. */
  datatype MeasuredCurve = MeasuredCurve(curve: Curve, length: real)

  /** `new Keyframe(time, value, inTangent, outTangent)`. */
  datatype Keyframe = Keyframe(time: real, value: real, inTangent: real, outTangent: real)

  /** One RGBA float texel: the colour holds a control point, alpha a scalar. */
  datatype Texel = Texel(rgb: Vec3, a: real)

  datatype BinderError =
    /** With no curve left, `curveStarts.Last()` throws. */
    | NoCurves

  /** What `UpdateTexture` computes: the selected curves, their total length,
      their start fractions, the keyframes of `curveStartLUT` and the pixels of
      `splineMap`. */
  datatype LookupTables = LookupTables(curves: seq<MeasuredCurve>, total: real, starts: seq<real>,
                                       keys: seq<Keyframe>, texels: seq<Texel>)

  /** `spline.Knots.Select((knot, idx) => new BezierCurve(knot, next))` with
      `next` the knot at `(idx + 1) % count`. */
  function KnotCurves(knots: seq<Knot>): (r: seq<Curve>)
    ensures |r| == |knots|
    ensures forall i :: 0 <= i < |knots| ==> r[i] == CurveBetween(knots[i], knots[NextIndex(i, |knots|)])
  {
    seq(|knots|, idx requires 0 <= idx < |knots| => CurveBetween(knots[idx], knots[NextIndex(idx, |knots|)]))
  }

  /** The test of `Where((c, idx) => idx < count - 1 | spline.Closed)`. */
  function KeepCurveAt(count: int, closed: bool): (Curve, nat) -> bool {
    (c: Curve, idx: nat) => idx < count - 1 || closed
  }

  /** The curves of one spline the index test lets through. */
  function Candidates(s: Spline): seq<Curve> {
    WhereIndexed(KnotCurves(s.knots), KeepCurveAt(|s.knots|, s.closed))
  }

  /** An open spline of n knots gives its n - 1 inner curves, a closed one all n
      curves including the one from the last knot back to the first; curve i
      joins knot i to knot (i + 1) mod n. */
  lemma CandidateCurves(s: Spline)
    ensures |Candidates(s)| == if s.closed then |s.knots| else if |s.knots| == 0 then 0 else |s.knots| - 1
    ensures forall i :: 0 <= i < |Candidates(s)| ==>
              Candidates(s)[i] == CurveBetween(s.knots[i], s.knots[(i + 1) % |s.knots|])
  {
    var n := |s.knots|;
    var m: nat := if s.closed then n else if n == 0 then 0 else n - 1;
    KeepsFirst(n, s.closed, m);
    var all := KnotCurves(s.knots);
    WhereIndexedPrefix(all, KeepCurveAt(n, s.closed), m);
    forall i | 0 <= i < m
      ensures all[..m][i] == CurveBetween(s.knots[i], s.knots[(i + 1) % n])
    {
      assert all[..m][i] == all[i];
      assert NextIndex(i, n) == (i + 1) % n;
    }
  }

  /** The index test keeps the positions below `m`: all of them on a closed
      spline, all but the last on an open one. */
  lemma KeepsFirst(n: nat, closed: bool, m: nat)
    requires m == if closed then n else if n == 0 then 0 else n - 1
    ensures forall x, i: nat :: i < n ==> (KeepCurveAt(n, closed)(x, i) <==> i < m)
  {
  }

  /** `.Select(c => (curve: c, length: CalculateLength(c)))`. */
  function Measure(cs: seq<Curve>, length: Curve -> real): (r: seq<MeasuredCurve>)
    ensures |r| == |cs|
    ensures forall i :: 0 <= i < |cs| ==> r[i] == MeasuredCurve(cs[i], length(cs[i]))
  {
    seq(|cs|, i requires 0 <= i < |cs| => MeasuredCurve(cs[i], length(cs[i])))
  }

  /** The test of `.Where(c => 0 < c.length)`. */
  const HasLength: MeasuredCurve -> bool := (m: MeasuredCurve) => 0.0 < m.length

  /** The curves of one spline paired with their lengths, without those of
      length 0. */
  function MeasuredCurves(s: Spline, length: Curve -> real): seq<MeasuredCurve> {
    Where(Measure(Candidates(s), length), HasLength)
  }

  /** A curve of a spline is kept exactly when its length is positive, and it
      carries that length. */
  lemma MeasuredCurvesKeepPositive(s: Spline, length: Curve -> real)
    ensures forall m :: m in MeasuredCurves(s, length) <==>
              m.curve in Candidates(s) && m.length == length(m.curve) && 0.0 < m.length
  {
    var cs := Candidates(s);
    var measured := Measure(cs, length);
    WhereMembers(measured, HasLength);
    forall m: MeasuredCurve | m.curve in cs && m.length == length(m.curve)
      ensures m in measured
    {
      var i :| 0 <= i < |cs| && cs[i] == m.curve;
      assert measured[i] == m;
    }
  }

  /** `Target.Splines.SelectMany(...)`: the kept curves of every spline, spline
      by spline. Every kept length is positive. */
  function SelectedCurves(splines: seq<Spline>, length: Curve -> real): (r: seq<MeasuredCurve>)
    ensures forall i :: 0 <= i < |r| ==> 0.0 < r[i].length
  {
    if |splines| == 0 then []
    else
      var n := |splines| - 1;
      SelectedCurves(splines[..n], length) + MeasuredCurves(splines[n], length)
  }

  /** The kept curves of each spline, one group per spline. */
  function CurveGroups(splines: seq<Spline>, length: Curve -> real): (r: seq<seq<MeasuredCurve>>)
    ensures |r| == |splines|
    ensures forall k :: 0 <= k < |splines| ==> r[k] == MeasuredCurves(splines[k], length)
  {
    seq(|splines|, k requires 0 <= k < |splines| => MeasuredCurves(splines[k], length))
  }

  /** The selection is the groups of kept curves one after another, spline by
      spline. */
  lemma {:induction false} SelectedCurvesFlatten(splines: seq<Spline>, length: Curve -> real)
    ensures SelectedCurves(splines, length) == Flatten(CurveGroups(splines, length))
    decreases |splines|
  {
    if |splines| > 0 {
      var n := |splines| - 1;
      var groups := CurveGroups(splines, length);
      SelectedCurvesFlatten(splines[..n], length);
      assert groups[..n] == CurveGroups(splines[..n], length);
    }
  }

  /** A curve is selected exactly when it is a kept curve of one of the
      splines. */
  lemma SelectedCurvesMembers(splines: seq<Spline>, length: Curve -> real)
    ensures forall m :: m in SelectedCurves(splines, length) <==>
              exists k :: 0 <= k < |splines| && m in MeasuredCurves(splines[k], length)
  {
    var groups := CurveGroups(splines, length);
    SelectedCurvesFlatten(splines, length);
    FlattenMembers(groups);
  }

  function Lengths(curves: seq<MeasuredCurve>): (r: seq<real>)
    ensures |r| == |curves| && forall i :: 0 <= i < |curves| ==> r[i] == curves[i].length
  {
    seq(|curves|, i requires 0 <= i < |curves| => curves[i].length)
  }

  /** `bezierCurves.Sum(bc => bc.length)`. */
  function TotalArcLength(curves: seq<MeasuredCurve>): real {
    Sum(Lengths(curves))
  }

  /** The total of positive lengths is positive. */
  lemma TotalIsPositive(curves: seq<MeasuredCurve>)
    requires |curves| > 0 && AllPositive(Lengths(curves))
    ensures TotalArcLength(curves) > 0.0
  {
    var ls := Lengths(curves);
    PositivePrefixSums(ls, 0, |ls|);
    assert ls[..|ls|] == ls;
  }

  /** `curveStarts`: the length of the curves before each curve, as a fraction
      of the total. The fractions begin at 0, strictly increase, and stay
      below 1. */
  function CurveStarts(curves: seq<MeasuredCurve>): (r: seq<real>)
    requires |curves| > 0 && AllPositive(Lengths(curves))
    ensures |r| == |curves|
    ensures r[0] == 0.0
    ensures forall i, j :: 0 <= i < j < |curves| ==> r[i] < r[j]
    ensures forall i :: 0 <= i < |curves| ==> 0.0 <= r[i] < 1.0
  {
    var ls := Lengths(curves);
    TotalIsPositive(curves);
    var r := seq(|curves|, idx requires 0 <= idx < |curves| => Sum(ls[..idx]) / TotalArcLength(curves));
    StartFractions(ls, TotalArcLength(curves), r);
    r
  }

  /** Prefix sums of positive values over their total: 0 first, strictly
      increasing, below 1. */
  lemma StartFractions(ls: seq<real>, total: real, r: seq<real>)
    requires |ls| > 0 && AllPositive(ls) && total == Sum(ls) && 0.0 < total
    requires |r| == |ls| && forall i :: 0 <= i < |ls| ==> r[i] == Sum(ls[..i]) / total
    ensures r[0] == 0.0
    ensures forall i, j :: 0 <= i < j < |ls| ==> r[i] < r[j]
    ensures forall i :: 0 <= i < |ls| ==> 0.0 <= r[i] < 1.0
  {
    assert ls[..0] == [];
    forall i, j | 0 <= i < j < |ls|
      ensures r[i] < r[j]
    {
      StartsOrdered(ls, total, i, j);
    }
    forall i | 0 <= i < |ls|
      ensures 0.0 <= r[i] < 1.0
    {
      StartBelowOne(ls, total, i);
    }
  }

  lemma StartsOrdered(ls: seq<real>, total: real, i: nat, j: nat)
    requires AllPositive(ls) && 0.0 < total && i < j <= |ls|
    ensures Sum(ls[..i]) / total < Sum(ls[..j]) / total
  {
    PositivePrefixSums(ls, i, j);
    DivideStrictly(Sum(ls[..i]), Sum(ls[..j]), total);
  }

  lemma StartBelowOne(ls: seq<real>, total: real, i: nat)
    requires AllPositive(ls) && total == Sum(ls) && 0.0 < total && i < |ls|
    ensures 0.0 <= Sum(ls[..i]) / total < 1.0
  {
    PositivePrefixSums(ls, i, |ls|);
    assert ls[..|ls|] == ls;
    Mathf.FractionBelowOne(Sum(ls[..i]), total);
  }

  /** The gap after each start is that curve's share of the total, the last gap
      running up to 1. */
  lemma StartGaps(curves: seq<MeasuredCurve>, i: nat)
    requires |curves| > 0 && AllPositive(Lengths(curves)) && i < |curves|
    ensures TotalArcLength(curves) > 0.0
    ensures var starts := CurveStarts(curves);
            var next := if i + 1 < |curves| then starts[i + 1] else 1.0;
            next - starts[i] == curves[i].length / TotalArcLength(curves)
  {
    var ls := Lengths(curves);
    var total := TotalArcLength(curves);
    TotalIsPositive(curves);
    SumPrefixStep(ls, i);
    Mathf.DivideSum(Sum(ls[..i]), ls[i], total);
    if i + 1 == |curves| {
      assert ls[..i + 1] == ls;
      assert total / total == 1.0;
    }
  }

  lemma DivideStrictly(a: real, b: real, d: real)
    requires a < b && 0.0 < d
    ensures a / d < b / d
  {
    assert b / d - a / d == (b - a) / d;
  }

  /** The start fractions as `CurveStarts` delivers them. */
  predicate IsStartFractions(starts: seq<real>) {
    && |starts| > 0
    && (forall i, j :: 0 <= i < j < |starts| ==> starts[i] < starts[j])
    && (forall i :: 0 <= i < |starts| ==> starts[i] < 1.0)
  }

  /** The keyframe of curve `idx`: at its start fraction with its index as value;
      tangents are the reciprocal gaps to the neighbours, 0 before the first. */
  function CurveKey(starts: seq<real>, idx: nat): Keyframe
    requires IsStartFractions(starts) && idx < |starts|
  {
    var count := |starts|;
    Keyframe(starts[idx], idx as real,
             if 0 < idx then 1.0 / (starts[idx] - starts[idx - 1]) else 0.0,
             if idx < count - 1 then 1.0 / (starts[idx + 1] - starts[idx]) else 1.0 / (1.0 - starts[idx]))
  }

  /** `keyFrames`: one per curve, then the final one at (1, count) with out
      tangent 0. */
  function Keyframes(starts: seq<real>): (keys: seq<Keyframe>)
    requires IsStartFractions(starts)
    ensures |keys| == |starts| + 1
  {
    var count := |starts|;
    seq(count, idx requires 0 <= idx < count => CurveKey(starts, idx))
    + [Keyframe(1.0, count as real, 1.0 / (1.0 - starts[count - 1]), 0.0)]
  }

  /** Keyframe i sits at (starts[i], i) and the last at (1, count); the curve is
      flat at both ends. */
  lemma KeyframePositions(starts: seq<real>)
    requires IsStartFractions(starts)
    ensures var keys := Keyframes(starts);
            && (forall i :: 0 <= i < |starts| ==> keys[i].time == starts[i] && keys[i].value == i as real)
            && keys[|starts|].time == 1.0 && keys[|starts|].value == |starts| as real
            && keys[0].inTangent == 0.0 && keys[|starts|].outTangent == 0.0
  {
    var keys := Keyframes(starts);
    forall i | 0 <= i < |starts|
      ensures keys[i] == CurveKey(starts, i)
    {
    }
  }

  /** The out tangent of keyframe i is positive and equals the in tangent of
      keyframe i + 1: both are the reciprocal of the gap between them. */
  lemma KeyframeTangentShared(starts: seq<real>, i: nat)
    requires IsStartFractions(starts) && i < |starts|
    ensures var keys := Keyframes(starts);
            keys[i].outTangent == keys[i + 1].inTangent && 0.0 < keys[i].outTangent
    ensures var gap := (if i + 1 < |starts| then starts[i + 1] else 1.0) - starts[i];
            0.0 < gap && Keyframes(starts)[i].outTangent == 1.0 / gap
  {
    var keys := Keyframes(starts);
    var n := |starts|;
    var gap := (if i + 1 < n then starts[i + 1] else 1.0) - starts[i];
    assert 0.0 < gap;
    assert keys[i] == CurveKey(starts, i);
    assert keys[i].outTangent == 1.0 / gap;
    if i + 1 < n {
      assert keys[i + 1] == CurveKey(starts, i + 1);
    } else {
      assert keys[i + 1] == Keyframe(1.0, n as real, 1.0 / gap, 0.0);
    }
    ReciprocalPositive(gap);
  }

  /** On the lookup curve the tangent shared by keyframes i and i + 1 is the
      slope of the chord between them: one curve index per share
      `length / total` of the arc, i.e. `total / length` of curve i. */
  lemma KeyframeSlope(curves: seq<MeasuredCurve>, i: nat)
    requires |curves| > 0 && AllPositive(Lengths(curves)) && i < |curves|
    ensures TotalArcLength(curves) > 0.0 && IsStartFractions(CurveStarts(curves))
    ensures var keys := Keyframes(CurveStarts(curves));
            && keys[i].outTangent == TotalArcLength(curves) / curves[i].length
            && keys[i + 1].inTangent == keys[i].outTangent
            && keys[i + 1].value - keys[i].value == 1.0
  {
    var starts := CurveStarts(curves);
    var total := TotalArcLength(curves);
    var keys := Keyframes(starts);
    var gap := (if i + 1 < |starts| then starts[i + 1] else 1.0) - starts[i];
    StartGaps(curves, i);
    assert gap == curves[i].length / total;
    KeyframeTangentShared(starts, i);
    assert keys[i].outTangent == 1.0 / gap;
    assert Lengths(curves)[i] == curves[i].length;
    ReciprocalOfShare(curves[i].length, total);
    assert keys[i].outTangent == total / curves[i].length;
    KeyframePositions(starts);
  }

  lemma ReciprocalOfShare(l: real, t: real)
    requires 0.0 < l && 0.0 < t
    ensures 1.0 / (l / t) == t / l
  {
  }

  lemma ReciprocalPositive(g: real)
    requires 0.0 < g
    ensures 0.0 < 1.0 / g
  {
  }

  /** The four texels one curve contributes, as the loop adds them. */
  function CurveTexels(m: MeasuredCurve, start: real, total: real): (r: seq<Texel>)
    requires m.length != 0.0 && total != 0.0
    ensures |r| == 4
  {
    [Texel(m.curve.p0, start), Texel(m.curve.p1, m.length),
     Texel(m.curve.p2, total), Texel(m.curve.p3, 1.0 / (m.length / total))]
  }

  /** Texel k of a curve holds control point k; the alphas are the start, the
      length, the total and the ratio of total to length. */
  lemma CurveTexelChannels(m: MeasuredCurve, start: real, total: real)
    requires m.length != 0.0 && total != 0.0
    ensures var r := CurveTexels(m, start, total);
            && r[0].rgb == m.curve.p0 && r[1].rgb == m.curve.p1
            && r[2].rgb == m.curve.p2 && r[3].rgb == m.curve.p3
            && r[0].a == start && r[1].a == m.length && r[2].a == total
            && r[3].a == total / m.length
  {
    assert (m.length / total) * (total / m.length) == 1.0;
  }

  /** The `for` loop filling `colors`: four texels per curve, curve by curve. */
  method PackTexels(curves: seq<MeasuredCurve>, starts: seq<real>, total: real) returns (colors: seq<Texel>)
    requires |starts| == |curves| && total != 0.0
    requires forall i :: 0 <= i < |curves| ==> curves[i].length != 0.0
    ensures |colors| == 4 * |curves|
    ensures forall i :: 0 <= i < |curves| ==>
              colors[4 * i..4 * i + 4] == CurveTexels(curves[i], starts[i], total)
  {
    colors := [];
    var i := 0;
    while i < |curves|
      invariant 0 <= i <= |curves|
      invariant |colors| == 4 * i
      invariant forall j :: 0 <= j < i ==> colors[4 * j..4 * j + 4] == CurveTexels(curves[j], starts[j], total)
    {
      var added := CurveTexels(curves[i], starts[i], total);
      forall j | 0 <= j < i
        ensures (colors + added)[4 * j..4 * j + 4] == colors[4 * j..4 * j + 4]
      {
      }
      assert (colors + added)[4 * i..4 * i + 4] == added;
      colors := colors + added;
      i := i + 1;
    }
  }

  /** `UpdateTexture` once the target is set: select the curves, fail when none
      is left, then the start fractions, the keyframes and the texels. */
  method UpdateTexture(splines: seq<Spline>, length: Curve -> real) returns (r: Result<LookupTables, BinderError>)
    ensures r.Err? <==> |SelectedCurves(splines, length)| == 0
    ensures r.Ok? ==>
              && r.value.curves == SelectedCurves(splines, length)
              && r.value.total == TotalArcLength(r.value.curves) && 0.0 < r.value.total
              && r.value.starts == CurveStarts(r.value.curves)
              && r.value.keys == Keyframes(r.value.starts)
              && |r.value.texels| == 4 * |r.value.curves|
    ensures r.Ok? ==> forall i :: 0 <= i < |r.value.curves| ==>
              r.value.texels[4 * i..4 * i + 4]
              == CurveTexels(r.value.curves[i], r.value.starts[i], r.value.total)
  {
    var curves := SelectedCurves(splines, length);
    if |curves| == 0 {
      return Err(NoCurves);
    }
    TotalIsPositive(curves);
    var starts := CurveStarts(curves);
    var keys := Keyframes(starts);
    var total := TotalArcLength(curves);
    var texels := PackTexels(curves, starts, total);
    r := Ok(LookupTables(curves, total, starts, keys, texels));
  }
}
