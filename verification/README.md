# CubeText: the cube assignment controller

CubeText is a browser demo in which a few hundred physically simulated cubes
fall onto a floor. When the user submits some text, the cubes fly into the
shape of the letters; when the text is empty, they are released to fall
again. This project models the part of `main.js` that decides what each cube
does. That part is the assignment controller, together with the small steps
that feed it.

Each cube pairs a three.js mesh with a cannon-es body. The model records:

- the mesh's visual pose;
- the body's physics pose, velocity and sleep flag;
- the GSAP tweens pending on the mesh's position and rotation. A tween is
  represented only by the value it is heading for.

A cube is either awake, so physics moves it and each frame copies the body onto
the mesh, or asleep, so the body is parked at (0, 1000, 0) and only the tweens
move the mesh.

Modules:

- `Options`: the optional value of a tween channel.
- `Space`: points, orientations and poses over reals. Also the constants
  `Parked` (0, 1000, 0) and `Upright` (the identity orientation, which is the
  Euler rotation (0, 0, 0)).
- `Cubes`: the cube record, its invariant `Coherent`, and the per-cube steps.
  These are spawning, cancelling tweens, the handoff to physics, formText's
  per-cube step, fallDown's per-cube step, the frame read-back, and a tween
  running to its end.
- `Controller`: `FormText`, `FallDown`, `FrameSync`, `SettleAll` and `SpawnAll`
  over the whole row of cubes, plus the lemmas that relate them.
- `Targets`: coarse extraction from a vertex array, detailed sampling, and the
  shuffle.
- `Entry`: the cube-count default, start-up, the font guard of formText, the
  submit dispatch and the per-frame read-back on the whole scene.

The text geometry, the surface sampler and every random number are inputs:

- the coarse mesh's vertex position array;
- the sampler's draws, `draw(i)` being the i-th sample;
- the shuffle's exchanges;
- the spawn positions;
- the velocity kicks.

## Model

| member | source | states |
|---|---|---|
| Cubes.Reassign | main.js:187-217 | with a target: asleep, parked at (0,1000,0), tweening to the target and upright; without: awake, no tween, body at the mesh's pose; the result is always coherent |
| Controller.SpawnAll | main.js:71-87 | the count of cubes is the cube count, or zero for a negative count; each is awake, idle and at its spawn point |
| Controller.FormText | main.js:186-218 | partial fill: every index below the number of targets is asleep, parked, and tweening to its own target and upright; every other index is awake, idle, with its body at its mesh's pose; meshes and velocities are unchanged |
| Controller.FallDown | main.js:224-240 | every cube is awake and idle afterwards, its body has its mesh's pose, and its velocity is its kick |
| Controller.FrameSync | main.js:252-257 | sleeping cubes are untouched (sleep flags too); awake meshes take their body's pose; coherence is kept |
| Controller.SettleAll | main.js:197-210 | each pending position tween lands the mesh on its target and each pending rotation tween turns it upright; an idle channel keeps its value; body, velocity and sleep flag are unchanged; no tween is left; coherence is kept |
| Controller.AsleepCountOfPrefix | main.js:191 | a row asleep exactly below index k has min(k, length) sleeping cubes |
| Controller.FormTextAsleepCount | main.js:183 | formText puts exactly min(number of cubes, number of targets) cubes to sleep |
| Controller.FormTextOverSupply | main.js:191-195 | with more targets than cubes, every cube is assigned and only the first cube-count targets are used |
| Controller.FormTextNoTargets | main.js:212-217 | with no targets, formText releases every cube like fallDown with each body keeping its own velocity |
| Controller.FormTextSupersedes | main.js:186-195 | in the model, formText right after another formText leaves each cube as the second call alone would, apart from a parked body's orientation; no tween of the first call survives (the velocity reset of sleep() is left out) |
| Controller.FallDownSupersedesFormText | main.js:224-230 | in the model, fallDown after formText gives exactly what fallDown alone gives (sleep()'s velocity reset and angular velocity are left out) |
| Controller.FallDownTwice | main.js:224-240 | after fallDown, and after fallDown again, every cube is awake; only the second kick remains |
| Controller.FrameSyncIdempotent | main.js:252-257 | a second read-back in the same frame changes nothing |
| Controller.FallDownNoJump | main.js:229-230 | because of the handoff, copying bodies onto meshes right after fallDown, before any physics step, moves no mesh |
| Controller.FormTextNoJump | main.js:214-215 | copying bodies onto meshes right after formText, before any physics step, moves no mesh: released bodies were set to their mesh, assigned cubes sleep |
| Controller.FormTextAssembles | main.js:191-210 | once the tweens have run and bodies are copied onto meshes, each assigned cube sits upright on its target; a released cube is where its mesh was only because the physics step between frames is left out |
| Targets.CoarseTargets | main.js:171-174 | a vertex array of length 3k gives exactly k points in array order, point j being (a[3j], a[3j+1], a[3j+2]); flattening them gives the array back |
| Targets.DrawsAt | main.js:150-153 | the j-th entry of the first n draws is the j-th draw |
| Targets.SampleTargets | main.js:149-153 | one sample per cube (none for a count below one), in the order drawn |
| Targets.Shuffle | main.js:157 | the shuffled sequence has the same length and the same multiset of points |
| Targets.DetailedTargets | main.js:150-157 | detailed mode yields exactly cube-count points, and they are the sampler's first draws in some order |
| Entry.CubeCount | main.js:58 | the count is the parsed integer, or 500 when parsing gave NaN or 0; it is never 0 |
| Entry.Start | main.js:57-95 | start-up gives a valid scene with the font not loaded and every cube awake and idle |
| Entry.FontLoaded | main.js:99-101 | loading the font enables formText and leaves the cubes alone |
| Entry.FormTextCommand | main.js:122-218 | without a font no state changes; otherwise the result is formText on the targets used, which in detailed mode are one per cube and a reordering of the sampler's draws, and otherwise the vertex triples in array order |
| Entry.Submit | main.js:110-117 | empty text is exactly fallDown, and the handler itself does not check the font; other text without a font changes nothing; other text with a font is formText on detailed or coarse targets as above; validity is kept |
| Entry.Frame | main.js:246-257 | a frame's read-back copies each awake body's pose onto its mesh, never touches a sleeping cube, and keeps the scene valid |

## Left out

- Rendering, camera, lights, orbit controls, window resizing, and the DOM
  wiring: the restart button, the input fields and the disabled state of the
  submit button. These are presentation and I/O.
- Loading the font over the network. It is modelled only as the flag
  `fontReady`, set by `FontLoaded`. A failed load just leaves the flag false.
- The physics engine: gravity, contact materials, the ground plane and
  `world.step`. The model keeps the body's pose and velocity but does not
  advance them.
- cannon-es's own side effects of `sleep()` and `wakeUp()`, such as zeroing
  velocities or waking on contact. These are inside that library, and its
  source is not part of this model. In the sleep branch the model keeps the
  body's velocity and orientation as they were.
- Angular velocity. The source never writes it.
- Building the text meshes (`TextGeometry`, `center()`) and area-weighted
  surface sampling. The coarse vertex array and the sampler's draws are inputs.
- Targets.CoarseTargets: it requires the array length to be a multiple of
  three. A position attribute with three numbers per vertex always has such a
  length. On a ragged tail the source would build a point with undefined
  coordinates, and that case is not modelled.
- Targets.Shuffle: the source sorts with a random comparator. The model
  replaces this with an arbitrary sequence of exchanges. Both always give some
  permutation of the points. The statistical bias of the comparator sort is
  not modelled.
- Entry.CubeCount: it takes the outcome of `parseInt` as its input, not the
  query string. JavaScript's parsing rules (leading blanks, sign, hex prefix,
  a missing parameter read as "null") are not modelled.
- The numeric ranges of the random spawn positions and velocity kicks. Both
  are arbitrary inputs.
- Controller.FallDownNoJump, Controller.FormTextNoJump: they hold for the
  read-back alone. In the program a physics step (`world.step`) runs before
  every read-back and moves awake bodies, and that step is not modelled.
- Controller.FormTextAssembles: the released-cube half holds only without the
  physics step. During the two seconds of the tweens, released cubes fall under
  physics.
- Controller.FormTextSupersedes: the velocity equality holds in the model only.
  cannon-es's `sleep()` zeroes the velocity of a cube put to sleep, which can
  make a cube released by the second call differ from the same cube under the
  second call alone.
- Controller.FallDownSupersedesFormText: the equality ignores angular velocity
  and the velocity reset of `sleep()`. The model has neither.
- Entry.CubeCount: a digit string too long for a double makes `parseInt` give
  `Infinity`, which `|| 500` keeps. The spawn loop would then not end.
  `ParsedInt` has no value for that outcome.
- GSAP easing, durations and in-between frames of a tween. A tween is only its
  pending target. `Settle` models it reaching that target.
