/**
 * The cube assignment controller: the operations that move the whole row of
 * cubes between the awake and the asleep regime, and the per-frame copy from
 * physics to the meshes. A cube's place in the sequence is its index, which is
 * fixed for the life of the page.
 */
module Controller {
  import opened Options
  import opened Space
  import opened Cubes

  predicate AllCoherent(cs: seq<Cube>) {
    forall i :: 0 <= i < |cs| ==> Coherent(cs[i])
  }

  /** The target handed to the cube at `index`: the point with the same index, if there is one. */
  function TargetFor(targets: seq<Vec3>, index: nat): (t: Option<Vec3>)
    ensures t.Some? <==> index < |targets|
    ensures t.Some? ==> t.value == targets[index]
  {
    if index < |targets| then Some(targets[index]) else None
  }

  /** The cubes the page creates at start-up, one per spawn point; a count below one creates none. */
  function SpawnAll(numCubes: int, spawn: nat -> Vec3): (cs: seq<Cube>)
    ensures |cs| == if numCubes < 0 then 0 else numCubes
    ensures AllCoherent(cs)
    ensures forall i :: 0 <= i < |cs| ==>
      !cs[i].sleeping && Idle(cs[i]) && cs[i].physics.position == spawn(i)
  {
    var n := if numCubes < 0 then 0 else numCubes;
    var r := seq(n, i requires 0 <= i < n => Spawn(spawn(i)));
    assert forall i :: 0 <= i < n ==> r[i] == Spawn(spawn(i));
    r
  }

  /**
   * Assigns the targets to the cubes by index. Every cube loses its pending
   * tweens. A cube whose index has a target sleeps, is parked and is animated
   * towards that target and upright; every other cube is handed back to
   * physics from where its mesh is. Targets beyond the last cube are unused.
   */
  function FormText(cs: seq<Cube>, targets: seq<Vec3>): (r: seq<Cube>)
    ensures |r| == |cs|
    ensures AllCoherent(r)
    ensures forall i :: 0 <= i < |r| ==> r[i].visual == cs[i].visual && r[i].velocity == cs[i].velocity
    ensures forall i :: 0 <= i < |r| && i < |targets| ==>
      && r[i].sleeping
      && r[i].physics.position == Parked
      && r[i].positionTween == Some(targets[i])
      && r[i].rotationTween == Some(Upright)
    ensures forall i :: |targets| <= i < |r| ==>
      !r[i].sleeping && Idle(r[i]) && r[i].physics == cs[i].visual
  {
    seq(|cs|, i requires 0 <= i < |cs| => Reassign(cs[i], TargetFor(targets, i)))
  }

  /**
   * Releases every cube: tweens cancelled, the body takes the mesh's pose, is
   * given the velocity `kick(i)` and wakes up.
   */
  function FallDown(cs: seq<Cube>, kick: nat -> Vec3): (r: seq<Cube>)
    ensures |r| == |cs|
    ensures AllCoherent(r)
    ensures forall i :: 0 <= i < |r| ==>
      && !r[i].sleeping
      && Idle(r[i])
      && r[i].visual == cs[i].visual
      && r[i].physics == cs[i].visual
      && r[i].velocity == kick(i)
  {
    var r := seq(|cs|, i requires 0 <= i < |cs| => Scatter(cs[i], kick(i)));
    assert forall i :: 0 <= i < |cs| ==> r[i] == Scatter(cs[i], kick(i));
    r
  }

  /**
   * The read-back at the end of a frame: each awake cube's mesh takes its
   * body's pose, and each sleeping cube is left exactly as it was, so that the
   * tweens driving it are never overwritten.
   */
  function FrameSync(cs: seq<Cube>): (r: seq<Cube>)
    ensures |r| == |cs|
    ensures AllCoherent(cs) ==> AllCoherent(r)
    ensures forall i :: 0 <= i < |r| && cs[i].sleeping ==> r[i] == cs[i]
    ensures forall i :: 0 <= i < |r| && !cs[i].sleeping ==>
      && r[i].visual == cs[i].physics
      && r[i].physics == cs[i].physics
      && r[i].velocity == cs[i].velocity
      && !r[i].sleeping
      && r[i].positionTween == cs[i].positionTween
      && r[i].rotationTween == cs[i].rotationTween
  {
    seq(|cs|, i requires 0 <= i < |cs| => Sync(cs[i]))
  }

  /** Every pending tween runs to its end. */
  function SettleAll(cs: seq<Cube>): (r: seq<Cube>)
    ensures |r| == |cs|
    ensures AllCoherent(cs) ==> AllCoherent(r)
    ensures forall i :: 0 <= i < |r| ==> Idle(r[i]) && r[i].sleeping == cs[i].sleeping
    ensures forall i :: 0 <= i < |r| ==>
      && r[i].visual.position == (if cs[i].positionTween.Some? then cs[i].positionTween.value else cs[i].visual.position)
      && r[i].visual.orientation == (if cs[i].rotationTween.Some? then cs[i].rotationTween.value else cs[i].visual.orientation)
      && r[i].physics == cs[i].physics
      && r[i].velocity == cs[i].velocity
  {
    var r := seq(|cs|, i requires 0 <= i < |cs| => Settle(cs[i]));
    assert forall i :: 0 <= i < |cs| ==> r[i] == Settle(cs[i]);
    r
  }

  /** How many cubes are asleep. */
  function AsleepCount(cs: seq<Cube>): (n: nat)
    ensures n <= |cs|
  {
    if cs == [] then 0 else (if cs[0].sleeping then 1 else 0) + AsleepCount(cs[1..])
  }

  /** A row whose cubes sleep exactly below index `k` has min(k, length) sleepers. */
  lemma {:induction false} AsleepCountOfPrefix(cs: seq<Cube>, k: nat)
    requires forall i :: 0 <= i < |cs| ==> (cs[i].sleeping <==> i < k)
    ensures AsleepCount(cs) == if k < |cs| then k else |cs|
  {
    if cs != [] {
      var k' := if k == 0 then 0 else k - 1;
      forall i | 0 <= i < |cs[1..]|
        ensures cs[1..][i].sleeping <==> i < k'
      {
        assert cs[1..][i] == cs[i + 1];
      }
      AsleepCountOfPrefix(cs[1..], k');
    }
  }

  /** formText puts to sleep exactly as many cubes as there are cubes and targets, whichever is fewer. */
  lemma FormTextAsleepCount(cs: seq<Cube>, targets: seq<Vec3>)
    ensures AsleepCount(FormText(cs, targets)) == if |targets| < |cs| then |targets| else |cs|
  {
    AsleepCountOfPrefix(FormText(cs, targets), |targets|);
  }

  /**
   * More targets than cubes: every cube is assigned, and only the first
   * |cs| targets matter, the rest are dropped.
   */
  lemma FormTextOverSupply(cs: seq<Cube>, targets: seq<Vec3>)
    requires |cs| <= |targets|
    ensures FormText(cs, targets) == FormText(cs, targets[..|cs|])
    ensures forall i :: 0 <= i < |cs| ==> FormText(cs, targets)[i].sleeping
  {
    var a := FormText(cs, targets);
    var b := FormText(cs, targets[..|cs|]);
    forall i | 0 <= i < |cs|
      ensures a[i] == b[i]
    {
      assert TargetFor(targets, i) == TargetFor(targets[..|cs|], i);
    }
  }

  /** No targets at all: formText releases every cube, like fallDown with each body keeping its velocity. */
  lemma FormTextNoTargets(cs: seq<Cube>)
    ensures FormText(cs, []) == FallDown(cs, (i: nat) => if i < |cs| then cs[i].velocity else Origin)
  {
  }

  /**
   * A cube "looks the same" under the controller in two states when its mesh,
   * its regime and its pending tweens agree, and so does whatever part of the
   * body is in use: the parked position while asleep, the whole body while awake.
   */
  predicate SameControl(a: Cube, b: Cube) {
    && a.visual == b.visual
    && a.sleeping == b.sleeping
    && a.positionTween == b.positionTween
    && a.rotationTween == b.rotationTween
    && a.velocity == b.velocity
    && a.physics.position == b.physics.position
    && (!a.sleeping ==> a.physics == b.physics)
  }

  /**
   * Last submission wins: formText with `second` right after formText with
   * `first` leaves every cube as formText with `second` alone would, apart
   * from the stale orientation of a parked body. No tween of `first` survives.
   */
  lemma FormTextSupersedes(cs: seq<Cube>, first: seq<Vec3>, second: seq<Vec3>)
    ensures |FormText(FormText(cs, first), second)| == |cs|
    ensures forall i :: 0 <= i < |cs| ==>
      SameControl(FormText(FormText(cs, first), second)[i], FormText(cs, second)[i])
  {
  }

  /** fallDown after formText is just fallDown: the release discards the assignment entirely. */
  lemma FallDownSupersedesFormText(cs: seq<Cube>, targets: seq<Vec3>, kick: nat -> Vec3)
    ensures FallDown(FormText(cs, targets), kick) == FallDown(cs, kick)
  {
  }

  /** fallDown twice: every cube is awake both times, and only the last kick remains. */
  lemma FallDownTwice(cs: seq<Cube>, kick1: nat -> Vec3, kick2: nat -> Vec3)
    ensures forall i :: 0 <= i < |cs| ==> !FallDown(cs, kick1)[i].sleeping
    ensures forall i :: 0 <= i < |cs| ==> !FallDown(FallDown(cs, kick1), kick2)[i].sleeping
    ensures FallDown(FallDown(cs, kick1), kick2) == FallDown(cs, kick2)
  {
  }

  /** A second read-back in the same frame changes nothing. */
  lemma FrameSyncIdempotent(cs: seq<Cube>)
    ensures FrameSync(FrameSync(cs)) == FrameSync(cs)
  {
  }

  /** Because fallDown hands the mesh's pose to the body, the next read-back moves no mesh. */
  lemma FallDownNoJump(cs: seq<Cube>, kick: nat -> Vec3)
    ensures FrameSync(FallDown(cs, kick)) == FallDown(cs, kick)
  {
  }

  /** Likewise after formText: released cubes stay where they were and assigned ones are left to their tweens. */
  lemma FormTextNoJump(cs: seq<Cube>, targets: seq<Vec3>)
    ensures FrameSync(FormText(cs, targets)) == FormText(cs, targets)
  {
  }

  /**
   * The intended end state of formText: once the tweens have run and a frame
   * has been read back, each assigned cube sits upright on its target and each
   * released cube is where its mesh was when the text was submitted.
   */
  lemma FormTextAssembles(cs: seq<Cube>, targets: seq<Vec3>)
    ensures |FrameSync(SettleAll(FormText(cs, targets)))| == |cs|
    ensures forall i :: 0 <= i < |cs| && i < |targets| ==>
      FrameSync(SettleAll(FormText(cs, targets)))[i].visual == Pose(targets[i], Upright)
    ensures forall i :: |targets| <= i < |cs| ==>
      FrameSync(SettleAll(FormText(cs, targets)))[i].visual == cs[i].visual
  {
  }
}
