/**
 * Transformation matrices, kept symbolic.
 *
 * The scene graph never inspects a matrix: it stores, composes and hands them on.
 * A `Matrix` is therefore a term that records how it was built, so that the model
 * can say exactly which transform a node ends up with without doing any
 * floating-point arithmetic.
 */
module Transforms {

  datatype Matrix =
    | Identity
      /** Rotation about the Y axis by `steps` * pi / 360 radians. */
    | RotationY(steps: int)
    | Scale(sx: real, sy: real, sz: real)
    | Translation(tx: real, ty: real, tz: real)
      /** The matrix product `left * right` (row-vector convention: `left` applies first). */
    | Product(left: Matrix, right: Matrix)
}
