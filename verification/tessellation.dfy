/** The tessellation settings both `LaserMeshGenerator` and `RuntimeSvg` derive
    from the scene's bounding box before tessellating any contour. Both classes
    carry the same `ComputeTessellationOptions` and call it with a target
    resolution of 400 and a multiplier of 1. */
module Tessellation {
  import opened Mathf
  import opened Geometry
  import opened SvgScene

  /** The pixels-per-unit constant the bounding box is divided by. */
  const PixelsPerUnit: real := 100.0

  /** The arguments of the only calls to `ComputeTessellationOptions`. */
  const TargetResolution: real := 400.0
  const Multiplier: real := 1.0

  /** `samplingStepDist`: the sampling step size is its reciprocal. */
  const SamplingStepDist: real := 100.0

  /** The lower bounds of the two tolerances. */
  const MinCordDeviation: real := 0.01
  const MinTanAngleDeviation: real := 0.1

  /** The `VectorUtils.TessellationOptions` fields the core sets. */
  datatype TessellationOptions = TessellationOptions(
    maxCordDeviation: real,
    maxTanAngleDeviation: real,
    samplingStepSize: real,
    stepDistance: real)

  /** `VectorUtils.TessellatePath` for the fixed path properties (tipped corners,
      chopped ends): a contour and the options give the contour's polyline. The
      tessellator belongs to the vector-graphics package and is a parameter. */
  type Tessellator = (Contour, TessellationOptions) -> seq<Vec2>

  /** `maxDim / (targetResolution * multiplier)`, with `maxDim` the larger side of
      the bounding box in units. */
  function SceneRatio(width: real, height: real): real {
    Max(width, height) / PixelsPerUnit / (TargetResolution * Multiplier)
  }

  /** `ComputeTessellationOptions` followed by the assignments to the options
      object: both tolerances grow with the scene ratio but never drop below
      their floors; the sampling step is 1/100 and the step distance 1. */
  function ComputeTessellationOptions(width: real, height: real): (o: TessellationOptions)
    ensures o.maxCordDeviation >= MinCordDeviation
    ensures o.maxTanAngleDeviation >= MinTanAngleDeviation
    ensures o.samplingStepSize == 1.0 / SamplingStepDist && o.stepDistance == 1.0
  {
    var ratio := SceneRatio(width, height);
    TessellationOptions(Max(MinCordDeviation, 2.0 * ratio), Max(MinTanAngleDeviation, 3.0 * ratio),
                        1.0 / SamplingStepDist, 1.0)
  }

  /** The cord tolerance is the floor for scenes up to 200 pixels across and
      `maxDim / 20000` beyond that. */
  lemma CordDeviationByScale(width: real, height: real)
    ensures Max(width, height) <= 200.0 ==>
              ComputeTessellationOptions(width, height).maxCordDeviation == MinCordDeviation
    ensures Max(width, height) >= 200.0 ==>
              ComputeTessellationOptions(width, height).maxCordDeviation == Max(width, height) / 20000.0
  {
  }

  /** The tangent tolerance is the floor for scenes up to 4000/3 pixels across
      and `maxDim / 40000 * 3` beyond that. */
  lemma TanAngleDeviationByScale(width: real, height: real)
    ensures 3.0 * Max(width, height) <= 4000.0 ==>
              ComputeTessellationOptions(width, height).maxTanAngleDeviation == MinTanAngleDeviation
    ensures 3.0 * Max(width, height) >= 4000.0 ==>
              ComputeTessellationOptions(width, height).maxTanAngleDeviation == 3.0 * Max(width, height) / 40000.0
  {
  }

  /** A larger scene never gets a finer tolerance. */
  lemma TolerancesMonotone(width: real, height: real, width': real, height': real)
    requires width <= width' && height <= height'
    ensures ComputeTessellationOptions(width, height).maxCordDeviation
         <= ComputeTessellationOptions(width', height').maxCordDeviation
    ensures ComputeTessellationOptions(width, height).maxTanAngleDeviation
         <= ComputeTessellationOptions(width', height').maxTanAngleDeviation
  {
  }
}
