/**
 * The geometry the controller needs, kept abstract: a point or vector in three
 * dimensions, an orientation, and a pose pairing the two. Numerics of the
 * rendering and physics libraries play no role in the assignment rules, so
 * coordinates are plain reals.
 */
module Space {

  datatype Vec3 = Vec3(x: real, y: real, z: real)

  /** An orientation as a quaternion (w, x, y, z). */
  datatype Quat = Quat(w: real, x: real, y: real, z: real)

  /** A position together with an orientation: what is copied between a mesh and a body. */
  datatype Pose = Pose(position: Vec3, orientation: Quat)

  const Origin: Vec3 := Vec3(0.0, 0.0, 0.0)

  /** The identity orientation. The Euler angles (0, 0, 0) that a rotation tween aims for denote it. */
  const Upright: Quat := Quat(1.0, 0.0, 0.0, 0.0)

  /** Where a body is moved while it sleeps, far above the play area, so that it touches nothing. */
  const Parked: Vec3 := Vec3(0.0, 1000.0, 0.0)

  /** The pose every new mesh starts in. */
  const Rest: Pose := Pose(Origin, Upright)
}
