# Sand pile: the particle-settling tick

This project models the simulation core of SandPile's `sand.js`. Particles of sand are
integer grid cells kept in one flat array. On every call of `update`, the program does two
things:

1. It appends a new particle at the spawn cell (200, 10).
2. It walks the array from the last index down to index 0 and moves each particle in place:
   - a particle on the floor row (y = 300) stays put;
   - otherwise, a particle drops one row if the cell beneath it is free;
   - if that cell is taken, it slides to a free lower diagonal, with `randomDirection`
     choosing the side when both diagonals are free;
   - if all three lower cells are taken, it stays where it is.

Occupancy is checked by `isFree`, a linear scan of the array.

Modules:

- `Particles` (particles.dfy): the `Particle` record, the floor and spawn constants, and the
  occupancy queries `IsFree` and `HasParticleBelow`. It also defines `Occupied`, the
  existential statement those queries are proved against.
- `Sand` (sand.dfy):
  - `Move` is one particle's move, and `Step` is the loop body for one index.
  - `Sweep` is the loop itself: it folds `Step` over indices k-1 down to 0, each step seeing
    the array left by the previous one.
  - `Spawn` is `generateParticle`, and `Update` is one call of `update`.
- `Ticks` (ticks.dfy): properties of a whole tick and of a run of ticks (`Simulate`):
  - no entry is removed or reordered;
  - each particle moves at most one cell per tick;
  - particles stay inside the cone below the spawn cell, so never below the floor;
  - particles on the floor never move again;
  - the movement loop keeps cells pairwise distinct.

  `UpdateScreen`, also in this module, is the tick written imperatively with a down-counting
  index, and is proved equal to `Update`.

Modelling choices:

- `randomDirection` becomes an oracle `dirs: nat -> Dir`, where `Dir` is the set {1, -1}.
  `dirs(i)` is the value the call would return while index `i` is visited. sand.js draws
  only in the both-diagonals-free branch. The draws are independent, so indexing them by
  particle gives the same set of possible outcomes.
- Repeated `update` calls from the animation loop become `Simulate`, with one oracle per tick.
- sand.js mutates `particle.x`/`particle.y` of the array entry in place. The model
  rewrites entry `i` of a sequence, so the particles visited later in the same tick see it.

Behaviour of sand.js worth knowing before reading the contracts:

- Every particle lives in one array, and each occupancy query rescans the whole array.
- The spawn does not check that the spawn cell is free. When the three cells beneath the spawn
  cell are taken, the new particle stays on the spawn cell for that tick
  (`Ticks.SpawnStaysWhenBlocked`). `Ticks.SpawnCanDuplicate` gives an array on which this
  leaves two particles in one cell. Distinctness is therefore proved only for a tick whose
  spawn cell starts empty (`Ticks.UpdateKeepsDistinct`).
- The new particle is stepped in the same tick it is spawned. After the first tick on an
  empty field it is therefore at (200, 11), one row below the spawn cell (`Ticks.FirstTick`).
- A particle blocked on all three sides stays put but is visited again on every later tick.
  It is never permanently settled.

## Model

| member | source | states |
|---|---|---|
| Particles.IsFree | sand.js:45-55 | true exactly when no array entry has both the given x and the given y; equivalently no particle occupies the cell |
| Particles.HasParticleBelow | sand.js:57-60 | true exactly when some entry sits at (p.x, p.y + 1) |
| Sand.Move | sand.js:88-112 | a particle either stays or goes one row down and at most one column sideways, never off the floor row; it only moves into a cell no particle occupied at that moment; off the floor it stays exactly when all three lower cells are taken |
| Sand.Step | sand.js:87-113 | the loop body for index i rewrites only entry i, keeps the length, and moves that entry by a legal one-cell step into a then-free cell |
| Sand.Sweep | sand.js:87-113 | the down-counting loop over indices below k keeps the array length and leaves every entry at index k or above untouched |
| Sand.Spawn | sand.js:32-34 | appends exactly one particle, at (200, 10), keeping every existing entry in place, with no occupancy check |
| Sand.Update | sand.js:82-114 | one call of update leaves the array exactly one entry longer |
| Sand.MoveOnFloor | sand.js:89-91 | a particle on the floor row is left unchanged |
| Sand.MoveFalls | sand.js:92-112 | off the floor with the cell beneath empty, the particle goes to (x, y + 1) |
| Sand.MoveSlidesEitherWay | sand.js:93-98 | below taken and both diagonals empty: the particle goes to (x + d, y + 1) for the randomDirection value d, which is one of the two diagonals |
| Sand.MoveSlidesLeft | sand.js:100-104 | below taken, only lower-left empty: the particle goes to (x - 1, y + 1) |
| Sand.MoveSlidesRight | sand.js:105-109 | below taken, only lower-right empty: the particle goes to (x + 1, y + 1) |
| Sand.MoveStalls | sand.js:110 | all three lower cells taken: the particle stays where it is |
| Sand.StepKeepsDistinct | sand.js:92-112 | if no two entries share a cell before a loop step, none do after it |
| Ticks.Simulate | sand.js:128 | repeated update calls grow the array by exactly one entry per tick |
| Ticks.SweepAdvancesAt | sand.js:87-113 | during one sweep, a single visited entry moves at most one legal cell, even though it sees earlier moves of the same sweep |
| Ticks.SweepAdvances | sand.js:87-113 | during one sweep every visited entry moves at most one legal cell |
| Ticks.SweepKeepsApart | sand.js:87-113 | in an array without shared cells, any two entries are in different cells after the movement loop |
| Ticks.SweepKeepsDistinct | sand.js:87-113 | the movement loop preserves pairwise distinct cells |
| Ticks.UpdateAdvances | sand.js:82-114 | a tick appends one entry that starts at the spawn cell and moves at most one cell; every old entry keeps its index and moves at most one cell; nothing is removed or reordered |
| Ticks.UpdateKeepsDistinct | sand.js:84-113 | distinct cells before a tick whose spawn cell is empty stay distinct after it |
| Ticks.SpawnStaysWhenBlocked | sand.js:32-34 | for any array whose three cells beneath the spawn cell are taken, the particle appended by the tick is still on the spawn cell at the end of it |
| Ticks.SpawnCanDuplicate | sand.js:32-34 | example: the distinct array [(199, 11), (200, 11), (201, 11), (200, 10)] has two particles on the spawn cell after one tick, because the spawn does not check the cell |
| Ticks.FirstTick | sand.js:82-113 | the first tick on an empty array yields a single particle at (200, 11) |
| Ticks.ColumnFallsTogether | sand.js:87-92 | example: one tick on [(200, 11), (200, 12)] gives [(200, 12), (200, 13), (200 + d, 11)]; the upper particle, visited after the lower one, falls into the cell the lower one vacated |
| Ticks.UpperVisitedFirstSlides | sand.js:87-98 | example: one tick on [(200, 12), (200, 11)] gives [(200, 13), (200 + d1, 12), (200 + d2, 11)]; the upper particle, visited while the lower one still sits beneath it, slides diagonally |
| Ticks.UpdateKeepsCone | sand.js:84-113 | a tick keeps every particle at or below the spawn row, at or above the floor, and within the diagonal cone under the spawn cell |
| Ticks.UpdateKeepsSettled | sand.js:89-91 | a particle on the floor is unchanged by a whole tick |
| Ticks.SimulateKeepsCone | sand.js:82-114 | over any number of ticks the array grows by one per tick and every particle stays in the cone, so never below the floor |
| Ticks.NeverBelowFloor | sand.js:11 | starting from an empty array, every particle's y stays at most 300 for ever |
| Ticks.SimulateDescends | sand.js:87-113 | over n ticks an entry keeps its index, never rises, drops at most n rows, and never moves again once on the floor |
| Ticks.UpdateScreen | sand.js:84-113 | the in-place down-counting loop produces one more entry than before; each old entry and the new spawn advance at most one legal cell; the result is the same as the functional tick |

## Left out

- Drawing: the canvas pixel writer, the `draw` method and the label text writes. They are
  rendering side effects.
- The animation driver `beginLoop`, which uses `requestAnimationFrame` and `Date.now`. Its
  repeated calls are modelled only as the sequence of ticks in `Ticks.Simulate`.
- The frames-per-second value computed at the start of `update`. It is floating point and
  diagnostic only.
- The `random` helper built on `Math.random`. The direction it yields is an input (`dirs`).
- The `gravity` and `bounciness` constants. They are never read.
- Sand.MoveSlidesEitherWay: does not model the 0.5 threshold on a uniform sample that picks
  the side; any sequence of choices is allowed.
- Number representation: JavaScript numbers are doubles, and the model uses unbounded
  integers. The two agree because `Ticks.UpdateKeepsCone` keeps every coordinate a small
  integer, between 10 and 300 for y and within 290 of 200 for x.
