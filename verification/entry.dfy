/**
 * The page's entry points around the controller: the cube count read at
 * start-up, the start-up itself, the formText guard on the font, and the
 * submit button's dispatch between formText and fallDown.
 */
module Entry {
  import opened Options
  import opened Space
  import opened Cubes
  import opened Controller
  import opened Targets

  /** What integer parsing of the `numCubes` query parameter yields: not a number, or an integer. */
  datatype ParsedInt = NaN | Int(value: int)

  const DefaultCubeCount: int := 500

  /**
   * The cube count: the parsed value, unless parsing gave NaN or 0 (the two
   * falsy outcomes), in which case the default of 500. A negative value is
   * kept as it is.
   */
  function CubeCount(p: ParsedInt): (n: int)
    ensures n != 0
    ensures n == DefaultCubeCount <==> (p.NaN? || p.value == 0 || p.value == DefaultCubeCount)
    ensures p.Int? && p.value != 0 ==> n == p.value
  {
    match p
    case NaN => DefaultCubeCount
    case Int(v) => if v == 0 then DefaultCubeCount else v
  }

  /**
   * The whole scene as the controller sees it: the cube count the page was
   * started with, its cubes, and whether the font has arrived.
   */
  datatype Simulation = Simulation(numCubes: int, cubes: seq<Cube>, fontReady: bool)

  /** What start-up establishes and every later step keeps: one cube per count, all coherent. */
  predicate Valid(sim: Simulation) {
    && |sim.cubes| == (if sim.numCubes < 0 then 0 else sim.numCubes)
    && AllCoherent(sim.cubes)
  }

  /** Start-up: the count from the query string, the cubes spawned, the font not yet loaded. */
  function Start(p: ParsedInt, spawn: nat -> Vec3): (sim: Simulation)
    ensures Valid(sim) && !sim.fontReady
    ensures sim.numCubes == CubeCount(p)
    ensures forall i :: 0 <= i < |sim.cubes| ==> !sim.cubes[i].sleeping && Idle(sim.cubes[i])
  {
    Simulation(CubeCount(p), SpawnAll(CubeCount(p), spawn), false)
  }

  /** The font has arrived; from now on formText is enabled. */
  function FontLoaded(sim: Simulation): (r: Simulation)
    ensures r.fontReady && r.cubes == sim.cubes && r.numCubes == sim.numCubes
  {
    sim.(fontReady := true)
  }

  /**
   * The points formText may assign for the given detail setting. For
   * "detailed", one per cube, namely the sampler's first draws in some order;
   * for any other value, the coarse vertex array read three numbers at a time,
   * in order.
   */
  predicate TargetsOf(detail: string, numCubes: int, vertices: seq<real>, draw: nat -> Vec3,
                      targets: seq<Vec3>)
  {
    if detail == "detailed" then
      && |targets| == (if numCubes < 0 then 0 else numCubes)
      && multiset(targets) == multiset(Draws(|targets|, draw))
    else
      && 3 * |targets| == |vertices|
      && forall j :: 0 <= j < |targets| ==>
           targets[j] == Vec3(vertices[3 * j], vertices[3 * j + 1], vertices[3 * j + 2])
  }

  /**
   * formText: without a font nothing happens. Otherwise the targets come from
   * the detailed sampler when the detail selector reads "detailed" and from
   * the coarse vertex array for any other value, and are assigned to the cubes.
   * `vertices` is the coarse text mesh's position array; `draw` and `swaps`
   * are the detailed mesh's samples and the shuffle's randomness. The targets
   * used are returned alongside the new scene.
   */
  method FormTextCommand(sim: Simulation, detail: string, vertices: seq<real>,
                         draw: nat -> Vec3, swaps: seq<(nat, nat)>)
    returns (r: Simulation, targets: seq<Vec3>)
    requires |vertices| % 3 == 0
    ensures !sim.fontReady ==> r == sim
    ensures sim.fontReady ==> TargetsOf(detail, sim.numCubes, vertices, draw, targets)
    ensures sim.fontReady ==> r == sim.(cubes := FormText(sim.cubes, targets))
    ensures Valid(sim) ==> Valid(r)
    ensures sim.fontReady && detail == "detailed" && Valid(sim) ==>
      forall i :: 0 <= i < |r.cubes| ==> r.cubes[i].sleeping
    ensures sim.fontReady && detail != "detailed" ==>
      forall i :: 0 <= i < |r.cubes| ==>
        && (r.cubes[i].sleeping <==> i < |vertices| / 3)
        && (i < |vertices| / 3 ==>
              r.cubes[i].positionTween == Some(Vec3(vertices[3 * i], vertices[3 * i + 1], vertices[3 * i + 2])))
  {
    if !sim.fontReady {
      return sim, [];
    }
    if detail == "detailed" {
      targets := DetailedTargets(sim.numCubes, draw, swaps);
    } else {
      targets := CoarseTargets(vertices);
    }
    r := sim.(cubes := FormText(sim.cubes, targets));
  }

  /**
   * The submit button's handler: empty text releases every cube exactly as
   * fallDown does, and the handler itself does not look at the font for that;
   * any other text goes to formText, whose targets are returned.
   */
  method Submit(sim: Simulation, text: string, detail: string, vertices: seq<real>,
                draw: nat -> Vec3, swaps: seq<(nat, nat)>, kick: nat -> Vec3)
    returns (r: Simulation, targets: seq<Vec3>)
    requires |vertices| % 3 == 0
    ensures text == "" ==> r == sim.(cubes := FallDown(sim.cubes, kick))
    ensures text != "" && !sim.fontReady ==> r == sim
    ensures text != "" && sim.fontReady ==>
      && TargetsOf(detail, sim.numCubes, vertices, draw, targets)
      && r == sim.(cubes := FormText(sim.cubes, targets))
    ensures Valid(sim) ==> Valid(r)
  {
    if text == "" {
      r := sim.(cubes := FallDown(sim.cubes, kick));
      targets := [];
    } else {
      r, targets := FormTextCommand(sim, detail, vertices, draw, swaps);
    }
  }

  /**
   * A frame's read-back: each awake cube's mesh takes its body's pose, a
   * sleeping cube is not touched, and the scene stays valid.
   */
  function Frame(sim: Simulation): (r: Simulation)
    ensures Valid(sim) ==> Valid(r)
    ensures r.numCubes == sim.numCubes && r.fontReady == sim.fontReady && |r.cubes| == |sim.cubes|
    ensures forall i :: 0 <= i < |r.cubes| && sim.cubes[i].sleeping ==> r.cubes[i] == sim.cubes[i]
    ensures forall i :: 0 <= i < |r.cubes| && !sim.cubes[i].sleeping ==>
      && r.cubes[i].visual == sim.cubes[i].physics
      && r.cubes[i].physics == sim.cubes[i].physics
      && !r.cubes[i].sleeping
  {
    sim.(cubes := FrameSync(sim.cubes))
  }
}
