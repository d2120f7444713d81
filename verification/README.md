# Poisson-disc sampler

A Dafny model of the `PoissonDisc` class of js-poisson-disc, which places
points in a `width` x `height` area by Bridson's Poisson-disc sampling. The
class keeps three pieces of state:

- `points`, an append-only store of `{px, py, gx, gy}`;
- `grid`, a `(rows + 1) x (cols + 1)` table of point indices, where `-1`
  means the cell is empty;
- `active`, the indices of the points that may still spawn neighbours.

`step` picks an active point and makes `k` tries around it. A candidate is
accepted when it lies strictly inside the area, its cell is empty, and no
point in a scanned neighbour cell is closer than `r`. When no try is
accepted, the picked entry is spliced out of `active`. `run` resets the
sampler and steps until `active` is empty.

The project has three modules:

- `Sampling` (sampling.dfy) is the pure specification:
  - the configuration and the points;
  - the acceptance test `Admissible`;
  - `Extend`, the effect of the `k` tries on the point store;
  - `Iterate`, the effect of one iteration on the store and the active
    list, and `Steps` for `step(n)`;
  - the invariants `PointsWf` and `ActiveWf`.
- `SamplingFacts` (sampling_facts.dfy) proves what those definitions
  guarantee: invariants kept, append-only growth, no re-entry into the active
  list, local exclusion, and the bound on the number of points that makes
  `run` terminate.
- `PoissonDiscSampler` (poisson_disc.dfy) holds the class `PoissonDisc`.
  Its fields are `points: seq<Point>`, `active: seq<nat>` and
  `grid: array2<int>`. Its methods follow the source's loops and are proved
  against the `Sampling` functions. Its invariant `Valid()` says three
  things:
  - the configuration holds;
  - the grid mirrors the point store (`GridMirrorsPoints`);
  - the abstract state satisfies `Wf`.

Modelling choices:

- **Randomness.** Each value of `Math.random()` is an input `u` in `[0, 1)`.
  `getRandom(min, max)` is `floor(u * (max - min)) + min` over the reals.
  - `Reset` takes the two seed values.
  - One iteration takes a `Draw`: the value behind the choice of the active
    entry, plus the `k` candidate offsets.
  - `Run` takes an endless supply of draws as a function `nat -> Draw`.
- **Candidates.** A candidate is the current point plus an integer offset. In
  the source the offset is `floor(px + cos(a) * d) - px`. Since `px` is an
  integer, the candidate itself is exact.
- **Cell size.** The source computes `cellSize = floor(r / sqrt(n))`. The
  model uses the integer characterisation: the largest `c` with
  `c * c * n <= r * r` (`CellSize`).
- **Distance test.** `sqrt(dx*dx + dy*dy) < r` is compared as
  `dx*dx + dy*dy < r*r`; for integer coordinates and `r > 0` the two agree.

Two behaviours of the code are kept as written:

- **No validation of the parameters.** The class checks nothing. With
  `cellSize == 0`, the divisions at js/poisson-disc.js:34-35 make `cols` and
  `rows` infinite, and `initialiseGrid` never finishes. The constructor
  therefore requires `n <= r * r`, which is exactly `cellSize >= 1`.
- **Exclusion holds only for scanned cells.** The neighbour scan stops at
  `cols - 1` and `rows - 1` (js/poisson-disc.js:116-117). The grid has one
  more column and one more row, and points in them are never scanned. So:
  - `LocalExclusion` proves exclusion only for the scanned cells;
  - `LastColumnNotScanned` gives a run, from `reset` through two steps, that
    stores two points 3 apart in adjacent cells, where `r` is 5.

The repository also ships dist/js/poisson-disc-dist.js, the same class
transpiled to ES5. Its methods follow js/poisson-disc.js line for line:

| method | line in the transpiled file |
|---|---|
| the constructor | 8-23 |
| `reset` | 27-33 |
| `run` | 36-41 |
| `step` | 44-92 |
| `addPoint` | 95-106 |
| `initialiseGrid` | 109-116 |
| `getRandom` | 118-121 |

The model therefore covers both files, and the table below cites the ES6
source.

## Model

| member | source | states |
|---|---|---|
| Sampling.Admissible | js/poisson-disc.js:96-144 | definition of the candidate test: strictly inside the area, an empty cell, and every point in a scanned neighbour cell at distance `r` or more; `CheckCandidate` is proved to decide it, and `BorderRejected` and `LocalExclusion` are proved about it |
| Sampling.Accept | js/poisson-disc.js:145-149 | definition of one try's effect on the store: the candidate is appended when admissible; `Try` is proved to perform it, and `AcceptKeepsPointsWf` and `TryKeepsPointsWf` are proved about it |
| Sampling.Extend | js/poisson-disc.js:79-150 | the `k` tries in turn, each seeing the points the earlier ones accepted; the store grows by at most one point per try; `ExtendPrefix`, `ExtendAcceptsInOrder` and `ExtendKeepsPointsWf` are proved about it |
| Sampling.ActiveAfter | js/poisson-disc.js:152-156 | definition of the active list after an iteration: the picked entry spliced out when nothing was added, the new indices pushed otherwise; `ActiveAfterKeepsDistinct` is proved about it |
| Sampling.Iterate | js/poisson-disc.js:69-157 | definition of one pass of `step`'s loop; `StepOnce` is proved to perform it, and `IterateKeepsWf`, `IterateProgress`, `IterateAppends` and `IterateKeepsOut` are proved about it |
| Sampling.Steps | js/poisson-disc.js:63-159 | definition of `step(n)` as `n` iterations; `Step` is proved to perform it, and `StepsKeepWf`, `StepsAppendOnly`, `StepsAddAtMostK` and `RemovedNeverReturns` are proved about it |
| Sampling.DrawsOf | js/poisson-disc.js:56-58 | the draws `run`'s first `m` calls of `step(1)` consume: `m` of them, the `i`-th being the `i`-th of the supply |
| Sampling.PointsWf | js/poisson-disc.js:96-149 | definition of the point-store invariant: each point carries its floored cell and lies in the area, no two share a cell, and later points keep distance `r` from earlier points in scanned neighbour cells; kept by every iteration (`IterateKeepsWf`) |
| Sampling.ActiveWf | js/poisson-disc.js:145-156 | definition of the active-list invariant: distinct indices into the store; kept by every iteration (`IterateKeepsActiveWf`) |
| Sampling.Wf | js/poisson-disc.js:44-159 | both invariants together; established by `reset` (`SeedIsWf`) and kept by `step` (`StepsKeepWf`) |
| SamplingFacts.StepsSnoc | js/poisson-disc.js:54-59 | one more draw for `step` is one more iteration at the end of the state the earlier draws reach |
| SamplingFacts.RunPass | js/poisson-disc.js:56-58 | one pass of `run`'s loop reaches the state of the draws so far plus one, keeps the invariants, and either adds a point or shortens `active`, which bounds the loop |
| PoissonDiscSampler.PoissonDisc.GridMirrorsPoints | js/poisson-disc.js:103-140 | definition of grid consistency: the grid is `(rows + 1) x (cols + 1)`, each point's cell holds its index, and every cell holds -1 or the index of a point in that cell; established by `Reset`, kept by `AddPoint` into an empty cell and by `Try`, `TryNext`, `TryCandidates`, `StepOnce` and `Step`, and relied on by `CheckCandidate`, `ScanNeighbours` and `NoSharedCell` |
| PoissonDiscSampler.PoissonDisc.Valid | js/poisson-disc.js:27-59 | the class invariant: the configuration holds (`cellSize >= 1`, `cols` and `rows` derived from it), the grid mirrors the store, and the store and active list satisfy `Wf`; established by the constructor and `Reset`, kept by `Step` and `Run` |
| Sampling.GetRandom | js/poisson-disc.js:197-199 | for `min < max` the result lies in `[min, max)`; for `min == max` it is `min` |
| Sampling.CellSize | js/poisson-disc.js:33 | `cellSize` is the largest `c` with `c * c * n <= r * r`, i.e. `floor(r / sqrt(n))` |
| Sampling.PointAt | js/poisson-disc.js:168-173 | the stored point keeps `x` and `y`, and its cell `(gx, gy)` is the floored cell, `gx * cellSize <= x < (gx + 1) * cellSize` (same for `y`) |
| Sampling.RemoveAt | js/poisson-disc.js:155 | `splice(i, 1)` shortens the list by one, keeps the entries before `i` in place, shifts those after it down by one, and removes exactly one copy of `s[i]` from the multiset |
| Sampling.ExtendPrefix | js/poisson-disc.js:79-149 | the tries of one iteration keep every point stored before them unchanged and in place |
| Sampling.IndicesAt | js/poisson-disc.js:174-177 | the indices pushed for new points are `lo, lo + 1, ..., hi - 1` in order |
| Sampling.AcceptKeepsPointsWf | js/poisson-disc.js:145-149 | adding an admissible candidate keeps the point-store invariants: each point carries its own cell and lies in the area, no two points share a cell, and later points keep distance `r` from earlier points in scanned neighbour cells |
| Sampling.TryKeepsPointsWf | js/poisson-disc.js:82-149 | one try, accepted or rejected, keeps the point-store invariants |
| Sampling.ExtendKeepsPointsWf | js/poisson-disc.js:79-150 | all `k` tries of an iteration keep the point-store invariants |
| Sampling.ActiveAfterKeepsDistinct | js/poisson-disc.js:152-156 | after an iteration the active list still holds distinct indices below the new store length, whether an entry was spliced out or new indices were pushed |
| Sampling.IterateKeepsActiveWf | js/poisson-disc.js:69-157 | one iteration keeps `active` a list of distinct valid indices |
| Sampling.IterateKeepsWf | js/poisson-disc.js:69-157 | one iteration keeps all invariants of the point store and the active list |
| SamplingFacts.SeedIsWf | js/poisson-disc.js:44-50 | the state `reset` leaves (one point in `[0, width) x [0, height)`, `active == [0]`) satisfies all invariants |
| SamplingFacts.ExtendAcceptsInOrder | js/poisson-disc.js:96-149 | every point an iteration appends is its own `PointAt` and was admissible against all points before it, including those accepted by earlier tries of the same iteration |
| SamplingFacts.TryAdvances | js/poisson-disc.js:145-148 | after each try the active list is the starting list followed by the indices of all points accepted so far |
| SamplingFacts.ExtendAdvances | js/poisson-disc.js:79-149 | after the try at position `t`, the tries after it lead to the same final point store as the tries from `t` on |
| SamplingFacts.BorderRejected | js/poisson-disc.js:99 | a candidate on the border (`x == 0`, `x == width`, `y == 0` or `y == height`) is rejected |
| SamplingFacts.IterateProgress | js/poisson-disc.js:69-157 | an iteration on a non-empty active list either appends 1 to `k` points, each of whose indices joins the end of `active`, or keeps the store and shortens `active` by one, removing an entry it held |
| SamplingFacts.IterateAppends | js/poisson-disc.js:79-150 | one iteration keeps the stored points and adds at most `k` |
| SamplingFacts.IterateKeepsOut | js/poisson-disc.js:152-156 | an index of the store that is not active stays inactive after an iteration |
| SamplingFacts.IdleStepsChangeNothing | js/poisson-disc.js:66-69 | `step(n)` with an empty active list leaves the point store and the active list unchanged |
| SamplingFacts.StepsKeepWf | js/poisson-disc.js:63-159 | `step(n)` keeps all invariants |
| SamplingFacts.StepsAppendOnly | js/poisson-disc.js:63-159 | `step(n)` only appends: the points stored before it are unchanged |
| SamplingFacts.StepsAddAtMostK | js/poisson-disc.js:66-79 | `step(n)` adds at most `k * n` points |
| SamplingFacts.RemovedNeverReturns | js/poisson-disc.js:152-156 | an index that has left the active list never comes back, however many steps follow |
| SamplingFacts.Separated | js/poisson-disc.js:116-132 | an earlier point in a scanned neighbour cell of a later point is at distance `r` or more from it |
| SamplingFacts.LocalExclusion | js/poisson-disc.js:103-136 | any two stored points in adjacent cells inside `[0, cols) x [0, rows)` are at distance `r` or more, whichever came first |
| SamplingFacts.LastColumnNotScanned | js/poisson-disc.js:44-159 | with width 50, height 50, r 5, k 2 and n 2, reset with random values 0.96 and 0.2 seeds (48, 10) in column 16 == cols; two steps whose tries lie at angles 0 and pi with distances in [5, 10) then store (45, 10) in column 15, at distance 3 < r from the seed, because the scan never visits column 16 |
| SamplingFacts.MinimalRandomScenario | js/poisson-disc.js:27-159 | with width 50, height 50, r 5, k 1, n 2 and all random values 0: cellSize 3, 16 columns and rows, seed at (0, 0), the one try at offset (5, 0) is rejected and the seed leaves `active` |
| SamplingFacts.PointsBound | js/poisson-disc.js:183-185 | a valid point store holds at most `(cols + 1) * (rows + 1)` points, one per grid cell |
| PoissonDiscSampler.PoissonDisc.NoSharedCell | js/poisson-disc.js:176 | because the grid holds one index per cell, no two stored points share a cell |
| PoissonDiscSampler.PoissonDisc.constructor | js/poisson-disc.js:27-40 | stores the parameters, derives `cellSize`, `cols` and `rows`, and leaves the state `reset` produces |
| PoissonDiscSampler.PoissonDisc.Reset | js/poisson-disc.js:44-50 | a fresh grid that is all `-1` except the seed cell, which holds 0; one seed point in `[0, width) x [0, height)`; `active == [0]`; all invariants hold |
| PoissonDiscSampler.PoissonDisc.InitialiseGrid | js/poisson-disc.js:182-189 | allocates a `(rows + 1) x (cols + 1)` grid with every cell `-1` and leaves points and active alone |
| PoissonDiscSampler.PoissonDisc.AddPoint | js/poisson-disc.js:167-178 | appends the point for `(x, y)`, writes its index (the old length) into its cell and nowhere else, and appends that index to `active`; into an empty cell this keeps the grid mirroring the store |
| PoissonDiscSampler.PoissonDisc.CheckCandidate | js/poisson-disc.js:96-144 | the candidate test answers valid exactly when the candidate is admissible against the stored points |
| PoissonDiscSampler.PoissonDisc.ScanNeighbours | js/poisson-disc.js:107-136 | the 3 x 3 scan answers true exactly when every point in a scanned neighbour cell is at distance `r` or more |
| PoissonDiscSampler.PoissonDisc.ScanRow | js/poisson-disc.js:109-135 | one row of the scan extends the "all visited cells far" fact by the three cells of row `i` |
| PoissonDiscSampler.PoissonDisc.Try | js/poisson-disc.js:94-149 | one try adds the candidate exactly when it is admissible, and pushes its index onto `active`; otherwise nothing changes |
| PoissonDiscSampler.PoissonDisc.TryNext | js/poisson-disc.js:79-150 | the try at position `t` reports whether the candidate is admissible and leaves `Accept` of the store; the remaining tries still lead to the iteration's final store, and `active` still ends with the indices accepted so far |
| PoissonDiscSampler.PoissonDisc.TryCandidates | js/poisson-disc.js:76-150 | the `k` tries produce exactly `Extend` of the store, push the new indices in order, keep the grid mirroring the store, and report whether any try was valid |
| PoissonDiscSampler.PoissonDisc.StepOnce | js/poisson-disc.js:69-157 | one pass of the loop takes the sampler to `Iterate` of its state and keeps the grid mirroring the store |
| PoissonDiscSampler.PoissonDisc.Step | js/poisson-disc.js:63-159 | `step(n)` for `n` draws takes the state to `Steps` of the draws, keeps all invariants, and leaves every grid cell unchanged when no point was added |
| PoissonDiscSampler.PoissonDisc.Run | js/poisson-disc.js:54-59 | `run` terminates with all invariants holding and `active` empty, in the state that `Steps` reaches from the seed with the first `m` draws of the supply, for some `m` |

## Left out

- The candidate geometry is not modelled: the angle `tries * (2π / k)`, the distance draw `getRandom(r, 2r)`, and `Math.cos`/`Math.sin` (js/poisson-disc.js:86-93). This is floating-point geometry, so each try's floored integer offset is an input instead.
- `Math.random()` is not modelled. Its values are inputs in `[0, 1)`, and the product inside `getRandom` is taken over the reals, without floating-point rounding.
- `Math.sqrt` is replaced by integer characterisations:
  - in the cell size, `CellSize` is exact for integer `r` and `n`;
  - in the distance test, the comparison is on squares.
- `parseInt` in `addPoint` is not modelled, because it is the identity on the integer coordinates it receives.
- `width`, `height`, `r`, `k` and `n` are integers, where the source accepts any JavaScript number. With a fractional `k` the tries loop runs `ceil(k)` times (js/poisson-disc.js:79), and this is not modelled.
- `step`'s count is the length of its list of draws, a natural number. In the source, `step(2.5)` runs 3 passes (js/poisson-disc.js:66), and this is not modelled.
- The commented-out random-angle line (js/poisson-disc.js:85) is dead code.
- The class-definition helpers `_createClass` and `_classCallCheck` (dist/js/poisson-disc-dist.js:3-5) hold no sampling logic.
- PoissonDiscSampler.PoissonDisc.constructor: it requires `n >= 1`, `n <= r * r` (so `cellSize >= 1`) and positive `w`, `h`, `r` and `k`. The source performs no validation. For `cellSize == 0` its grid initialisation does not terminate. For `n == 0`, `cellSize` is infinite and `cols == rows == 0`, and for a negative `n` it is NaN, so `addPoint` fails on the grid lookup at js/poisson-disc.js:176; neither case is modelled.
- PoissonDiscSampler.PoissonDisc.Step: it takes one draw per pass. A pass on an empty active list consumes its draw without using it.
