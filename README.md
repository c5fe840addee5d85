# Circle game: game-state model

This project models the game state of the circle game (`script.js`). A circle
at the bottom of the canvas fires lasers upward at a grid of 4 × 8 bricks.
A laser that hits a brick breaks it and starts a burst of five particles.
The model holds the three lists the script mutates in place:

- the laser list;
- the brick grid (`bricks[row][col]`, each brick with `x`, `y` and a
  `status` that is 1 while the brick exists);
- the particle list.

It gives one method for each way the script changes this state: building
the grid at load time, firing, the laser movement pass, the laser update
(collision) pass, creating a burst, the particle pass, and one whole frame.

The script's passes are `Array.prototype.forEach` loops whose callback calls
`splice` on the array being walked. The methods in `game.dfy` follow
`forEach` exactly:

- the length is read once, when the loop starts;
- the index always advances by one;
- an index at or past the current length is skipped.

Each method is proved equal to a declarative definition in `passes.dfy`:

- `Sweep` covers the movement and particle passes.
- `UpdatePass` covers the update pass.

Both definitions state outright that the element which slides into a
removed slot is not visited: it is kept unchanged, and the walk resumes
after it. Lemmas then state what the passes guarantee:

- how far lasers move;
- that bricks only break and are never restored;
- that one laser breaks at most one brick, because the 10-unit padding
  keeps bricks disjoint;
- that each brick breaks at most once;
- that the live-brick count drops by exactly the number of hits;
- that every hit yields exactly five particles at the brick's corner;
- that the radius clamp means no particle is ever removed.

Files:

- `board.dfy` (module `Board`): the layout constants, the records, the
  grid-building loops, the strict hit test, brick disjointness and the
  live-brick count.
- `passes.dfy` (module `Passes`): the pass definitions and their lemmas.
- `game.dfy` (module `Arcade`): class `Game`, with fields `lasers`, `bricks`
  and `particles`.

`script.js` has no level-completion check, no grid regeneration and no
score, so the model has none. The particle pass carries the comment
"Remove faded particles" and splices out a particle whose radius is 0 or
less (script.js:89-92). The clamp `Math.max(0.1, …)` just before it
(script.js:81) keeps every radius at 0.1 or more, so that removal never
fires. The model keeps the test and proves that no particle is ever removed
(`Passes.ParticlePassKeepsAll`).

## Model

| member | source | states |
|---|---|---|
| `Board.BuildGrid` | script.js:33-42 | The grid has 4 rows of 8 bricks. Brick (row, col) is at x = 50·col + 30, y = 30·row + 30, with status 1. |
| `Board.InitialGridIsFull` | script.js:33-42 | The grid built at load time is well formed and all 32 bricks stand. |
| `Board.HitIsStrict` | script.js:62-67 | A laser exactly on a brick's left, right, top or bottom edge does not hit it. |
| `Board.CellOfPoint` | script.js:26-38 | A point strictly inside brick (row, col) determines col = (x − 30) div 50 and row = (y − 30) div 30. |
| `Board.BrickOrigin` | script.js:37-38 | Every brick lies at or right of x = 30 and at or below y = 30. |
| `Board.BricksDisjoint` | script.js:26-38 | Because of the padding, two different cells have no point in common. |
| `Board.HitIsUnique` | script.js:58-67 | A laser point lies in at most one standing brick. |
| `Passes.SweepElements` | script.js:107-118 | After a forEach-with-splice pass, each element is either the input element right after one that was spliced out (never visited, unchanged), or a visited input element after its step that the removal test kept. There are never more elements. |
| `Passes.SweepSkipsSuccessor` | script.js:107-118 | If element i is the first to be spliced out, elements before i are stepped, element i+1 is left exactly as it was, and the walk resumes at i+2. |
| `Passes.SweepKeepsAll` | script.js:78-93 | When the removal test never holds after a step, every element is visited once and none is removed. |
| `Passes.SweepVisit` | script.js:108-116 | One forEach visit inside the list (step in place, splice if the test holds, index + 1) preserves what the whole pass comes to. |
| `Passes.SweepPastEnd` | script.js:108 | An index at or past the current length is skipped, and at that point the current list is the outcome of the pass. |
| `Passes.MovePassLasers` | script.js:107-118 | After the movement pass, each laser is either an input laser moved up exactly 5 with y ≥ 0, or the input laser right after one that left the canvas, skipped and unchanged. |
| `Passes.MovePassSkipExample` | script.js:111-116 | Two lasers at y = 3: the first is removed, and the second slides into its slot and stays at y = 3, unmoved. |
| `Passes.FindHit` | script.js:58-67 | The cell returned exists and is hit by the laser; None means no standing brick is hit. |
| `Passes.BreakFacts` | script.js:68 | Breaking a standing brick keeps the grid well formed, sets only that status from 1 to 0, and lowers the live count by one. |
| `Passes.UpdateVisit` | script.js:54-75 | One visit of the update pass (move up 5, then break the hit brick and splice the laser, if any) preserves what the whole pass comes to. |
| `Passes.UpdatePastEnd` | script.js:54 | Indices past the end are skipped; at the end the current lasers and grid are the outcome of the update pass. |
| `Passes.UpdatePassAccounting` | script.js:54-75 | The update pass removes lasers only on a hit, one per broken brick. Statuses only go from 1 to 0, and the live count drops by exactly the number of bricks broken. |
| `Passes.UpdatePassBreaksOnce` | script.js:61-68 | Every broken cell was standing before the pass and is broken after it, and no cell is broken twice. |
| `Passes.UpdatePassLasers` | script.js:54-69 | Each laser left by the update pass is an input laser, either moved up exactly 5 or unchanged. |
| `Passes.UpdatePassSkipExample` | script.js:54-75 | Two lasers inside the top-left brick: the first breaks it and is removed, and the second slides into its slot and is neither moved nor tested. |
| `Passes.UpdateKeepsNegativeLaser` | script.js:54-75 | A laser at y = 7 that hits nothing ends the frame at y = −3 and is still in the list, because the update pass removes lasers only on a hit. |
| `Passes.FrameLasers` | script.js:50-75 | Over one frame, every remaining laser is an input laser lowered by 0, 5 or 10. |
| `Passes.ParticlePassKeepsAll` | script.js:78-93 | The clamp keeps every radius ≥ 0.1, so the `radius <= 0` removal never fires. Every particle is faded in place and the count is unchanged. |
| `Passes.BurstLength` | script.js:137-141 | Each broken brick contributes exactly five particles. |
| `Passes.BurstAppend` | script.js:70 | The bursts of two runs of hits are the bursts of the first followed by those of the second. |
| `Arcade.Game.constructor` | script.js:14-42 | At load, there are no lasers and no particles, and the grid is the initial grid with 32 standing bricks. |
| `Arcade.Game.Fire` | script.js:16-21 | Firing appends exactly one laser at (circleX, height − 10). Existing lasers, bricks and particles are unchanged. |
| `Arcade.Game.MoveLasers` | script.js:107-118 | The laser list becomes the movement pass of the old list. Bricks and particles are unchanged. |
| `Arcade.Game.CreateParticles` | script.js:136-150 | Exactly five particles are appended, starting at (x, y), each with radius in [2, 5). Existing particles are unchanged. |
| `Arcade.Game.ScanBricks` | script.js:58-74 | If the laser hits no standing brick, nothing changes. Otherwise exactly that brick breaks, the laser at index k is spliced out once and one burst starts at the brick's (x, y). |
| `Arcade.Game.VisitLaser` | script.js:54-75 | One callback of the update pass moves lasers[i] up 5 and changes no other laser. If it hits a standing brick, that brick breaks, lasers[i] is spliced out and the brick's burst is appended; otherwise the bricks and particles are unchanged. This advances the update pass by one index. |
| `Arcade.Game.UpdateLasers` | script.js:54-75 | Lasers and bricks become those of the update pass. The particles are the old ones followed by one burst per broken brick, in order. |
| `Arcade.Game.FadeParticles` | script.js:78-93 | The particle list becomes the particle pass of the old list, with the radius clamped to max(0.1, r − 0.1). Lasers and bricks are unchanged. |
| `Arcade.Game.Frame` | script.js:45-93 | One frame runs the movement pass, the update pass, then the particle pass. Bricks only break, and the live count drops by the number of hits. Particles grow by 5 per hit, starting at the broken bricks. Every old particle is faded in place; every new one has radius in [1.9, 4.9) after its first fade. Every laser moved up by at most 10. |

## Left out

- Canvas drawing (`clearRect`, `arc`, `fillRect`, colours), `drawCircle`
  and the drawing part of `drawBricks` are left out. They are calls into
  the browser's rendering API and change no game state.
- Event wiring (mouse move, click, load, resize), `resizeCanvas` and the
  `requestAnimationFrame` driver are left out. They are browser I/O and an
  unbounded frame loop. The mouse x and the canvas height are parameters of
  `Fire`, and `Frame` models a single frame.
- Particle velocities, positions and colour are left out: they are random
  floating-point values. A particle keeps the point its burst started from,
  and its radius.
- `Arcade.Game.CreateParticles`: the radius `Math.random() * 3 + 2` is any
  real in [2, 5), chosen nondeterministically. The contract states only
  that range, because the random source is not modelled.
- `Passes.ParticlePassKeepsAll`: radii are exact reals. The clamp
  `Math.max(0.1, r - 0.1)` is computed without floating-point rounding.
- Coordinates are integers. JavaScript numbers are doubles, but every
  brick constant is an integer, and the mouse x is taken as an integer.
- Lasers, bricks and particles are values in sequences that the methods
  reassign, not shared objects. Each object sits in exactly one list, and
  the update callback keeps using the laser it was given after splicing it
  out, so no aliasing is lost.
- The initial circle position `canvas.width / 2` and the mouse tracking
  are not modelled: the circle's x is the parameter of `Fire`.
