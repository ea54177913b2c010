/**
 * One cube of the demo: a rendered mesh paired with a rigid body. The mesh has
 * a visual pose; the body has a physics pose, a linear velocity and a sleep
 * flag. Each of the mesh's two animated channels (position and rotation) may
 * carry one pending tween, represented by the value it is heading for.
 *
 * A cube is in one of two regimes: awake, when the physics engine moves the
 * body and each frame copies the body's pose onto the mesh; or asleep, when
 * the body is parked out of the way and only the tweens move the mesh.
 */
module Cubes {
  import opened Options
  import opened Space

  datatype Cube = Cube(
    visual: Pose,
    physics: Pose,
    velocity: Vec3,
    sleeping: bool,
    positionTween: Option<Vec3>,
    rotationTween: Option<Quat>)

  /** No tween is pending on either channel. */
  predicate Idle(c: Cube) {
    c.positionTween.None? && c.rotationTween.None?
  }

  /**
   * What the controller keeps true of every cube: the two channels are
   * animated together, only a sleeping cube is animated, a rotation tween
   * always aims for the upright orientation, and a sleeping body is parked.
   */
  predicate Coherent(c: Cube) {
    && (c.positionTween.Some? <==> c.rotationTween.Some?)
    && (c.positionTween.Some? ==> c.sleeping)
    && (c.rotationTween.Some? ==> c.rotationTween.value == Upright)
    && (c.sleeping ==> c.physics.position == Parked)
  }

  /** A freshly created cube: the mesh at rest, an awake body at `at`, upright and not moving. */
  function Spawn(at: Vec3): (c: Cube)
    ensures !c.sleeping && Idle(c) && Coherent(c)
    ensures c.physics.position == at && c.visual == Rest
  {
    Cube(Rest, Pose(at, Upright), Origin, false, None, None)
  }

  /** Cancels whatever is pending on the mesh's position and rotation; nothing else changes. */
  function KillTweens(c: Cube): (r: Cube)
    ensures Idle(r)
    ensures r.visual == c.visual && r.physics == c.physics
    ensures r.velocity == c.velocity && r.sleeping == c.sleeping
  {
    c.(positionTween := None, rotationTween := None)
  }

  /**
   * Hands control back to physics: the body takes the mesh's current pose (so
   * the cube does not jump) and wakes up. The body's velocity is kept.
   */
  function Handoff(c: Cube): (r: Cube)
    ensures !r.sleeping && r.physics == c.visual
    ensures r.visual == c.visual && r.velocity == c.velocity
    ensures r.positionTween == c.positionTween && r.rotationTween == c.rotationTween
  {
    c.(physics := c.visual, sleeping := false)
  }

  /**
   * One cube's step of formText: cancel both tweens, then either put the body
   * to sleep, park it and animate the mesh towards `target` and upright, or,
   * when there is no target, hand the cube back to physics.
   */
  function Reassign(c: Cube, target: Option<Vec3>): (r: Cube)
    ensures Coherent(r)
    ensures r.visual == c.visual && r.velocity == c.velocity
    ensures target.Some? ==>
      && r.sleeping
      && r.physics == Pose(Parked, c.physics.orientation)
      && r.positionTween == target && r.rotationTween == Some(Upright)
    ensures target.None? ==> !r.sleeping && Idle(r) && r.physics == c.visual
  {
    var k := KillTweens(c);
    match target
    case Some(p) =>
      k.(sleeping := true,
         physics := k.physics.(position := Parked),
         positionTween := Some(p),
         rotationTween := Some(Upright))
    case None =>
      Handoff(k)
  }

  /** One cube's step of fallDown: cancel both tweens, hand over to physics, and push with `kick`. */
  function Scatter(c: Cube, kick: Vec3): (r: Cube)
    ensures Coherent(r) && Idle(r) && !r.sleeping
    ensures r.visual == c.visual && r.physics == c.visual && r.velocity == kick
  {
    Handoff(KillTweens(c)).(velocity := kick)
  }

  /** One cube's share of a frame: an awake mesh follows its body, a sleeping one is left alone. */
  function Sync(c: Cube): (r: Cube)
    ensures Coherent(c) ==> Coherent(r)
    ensures c.sleeping ==> r == c
    ensures !c.sleeping ==> r.visual == r.physics
    ensures r.physics == c.physics && r.velocity == c.velocity && r.sleeping == c.sleeping
    ensures r.positionTween == c.positionTween && r.rotationTween == c.rotationTween
  {
    if c.sleeping then c else c.(visual := c.physics)
  }

  /**
   * The tweens pending on a cube run to completion: each channel lands on its
   * target and is no longer pending. Nothing else about the cube changes.
   */
  function Settle(c: Cube): (r: Cube)
    ensures Coherent(c) ==> Coherent(r)
    ensures Idle(r)
    ensures c.positionTween.Some? ==> r.visual.position == c.positionTween.value
    ensures c.positionTween.None? ==> r.visual.position == c.visual.position
    ensures c.rotationTween.Some? ==> r.visual.orientation == c.rotationTween.value
    ensures c.rotationTween.None? ==> r.visual.orientation == c.visual.orientation
    ensures r.physics == c.physics && r.velocity == c.velocity && r.sleeping == c.sleeping
  {
    var position := match c.positionTween case Some(p) => p case None => c.visual.position;
    var orientation := match c.rotationTween case Some(q) => q case None => c.visual.orientation;
    c.(visual := Pose(position, orientation), positionTween := None, rotationTween := None)
  }
}
