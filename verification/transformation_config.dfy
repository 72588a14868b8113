/** The description of one render job. */
module TransformationConfigs {
  import opened Domain

  /** An immutable record: the transformation (an opaque point map), the iterations per
      sample, the world rectangle, the number of samples and the symmetry order, which
      defaults to 1. */
  datatype TransformationConfig = TransformationConfig(
    transformation: Point -> Point,
    iterations: int,
    world: Rect,
    samples: int,
    symmetry: int := 1)
}
