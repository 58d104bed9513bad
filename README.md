# Poisson-disc sampling, modelled in Dafny

This project models `PoissonDiskSampling`, a two-dimensional Poisson-disc point
sampler in the style of Bridson's method. The sampler covers a
`width` x `height` rectangle with a grid of square cells of side
`cellSize = minDist / sqrt(2)`. The grid has `cols = floor(width / cellSize)`
columns and `rows = floor(height / cellSize)` rows. It is stored as one flat
list of `cols * rows` cells, and a point hashes to cell
`floor(x / cellSize) + floor(y / cellSize) * cols`. An empty cell holds the
sentinel point `(-1, -1, 0)`.

A run works in four steps:

- It builds the grid.
- It stores one seed point and makes it active.
- While the active list is non-empty, it picks an active point at random and
  tries up to `Attempts(timeOut)` candidates at distance exactly `minDist`
  from it, each along a random bearing. `Attempts(timeOut)` is the least
  natural number not below `timeOut` (3 for 2.5, 0 for a `timeOut` of at most
  0), the number of times the source's `for (i = 0; i < timeOut; i++)` runs.
- A candidate is stored, and appended to the active list, when three things
  hold: it lies in the inset rectangle `[1, width-1] x [1, height-1]`, the
  nine-cell neighbourhood scan finds no stored point closer than `minDist`,
  and its linear index is below the number of cells. When no candidate is
  stored, the active point is removed from the active list.

Files:

- `geometry.dfy` (module `Geometry`): points, squared distance, the sentinel,
  the inset rectangle, cell hashing, and the small real-arithmetic lemmas the
  proofs use.
- `neighbourhood.dfy` (module `Neighbourhood`): the indices the scan visits
  and what makes it reject a candidate (`Rejects`, `Clear`). It also holds the
  grid invariants `WellPlaced`, `AllInterior` and `Separated`, and the set
  `StoredPoints`.
- `poisson.dfy` (module `Poisson`): the class `PoissonDiskSampling`. It has
  the source's fields (`cellSize`, `cols`, `rows`, `grid`, `active`, `width`,
  `height`, `timeOut`, `minDist`), the source's implicit parameterless
  constructor, and one method per source method. `grid` and `active` are
  `seq` fields that the methods reassign. Each mutating method names the
  fields it may change in its `modifies` clause. Beside the class, the module
  defines on values what the driver does: `Admits` (the test a candidate
  passes), `FirstAdmitted` (the attempt at which `generatePoint`'s loop
  stops), `Round` (one iteration of `generatePoints`' loop) and `Run` (the
  rounds until the active list is empty or the draws run out), over a
  `Config` value holding the sampler's parameters. The methods' `ensures`
  state the new `grid` and `active` through these functions.
- `findings.dfy` (module `PoissonFindings`): two defects of the code as
  written, each with a concrete counterexample and a corrected test whose
  intended property is proved.

Randomness is replaced by values the caller passes in:

- seed positions, a sequence of points each drawn from the seed range. Unity's
  float `Random.Range(1, side - 1)` swaps its bounds when `side - 1 < 1`, so a
  coordinate lies between `1` and `side - 1` in whichever order they come
  (predicate `Geometry.InSeedRange`). For sides of at least 2 this is the inset
  rectangle; for a side below 2 it is `[side - 1, 1]`, outside it;
- one `Bearing` per attempt, the sine and cosine of the random angle. The
  members that promise a distance (`SpawnOrRetire`, `GeneratePoints`,
  `Samples`) require every bearing to be a unit vector, `sin^2 + cos^2 = 1`
  (predicates `IsUnit` and `AllUnit`). `GeneratePoint` does not: what it
  promises holds for any bearings;
- one uniform draw `u` in `[0, 1)` per round of the driver, turned into the
  index `floor(u * |active|)`.

`cellSize` is passed in, with the precondition `Geometry.IsCellSize(cellSize,
minDist)`: both are positive and `2 * cellSize^2 == minDist^2`, which is
`cellSize = minDist / sqrt(2)` (PoissonSampling.cs:31) stated on squares.
Distances are compared on squares over `real`. `timeOut` defaults to 30, as in
the source's `Samples` (PoissonSampling.cs:153).

Behaviour of the code that its comments or its callers might not expect:

- The seed loop (PoissonSampling.cs:48-55) exits only on a draw whose linear
  index is below `grid.Count`. With no cells that needs a negative index,
  which a side below 1 allows, and then the store at PoissonSampling.cs:58
  throws; otherwise the loop runs forever. The model requires some draw whose
  index is below `grid.Count`.
- For a side below 2 the seed is drawn outside the inset rectangle. With a
  side in `[1, 2)` it is stored all the same, but the inset rectangle
  `[1, side - 1]` is then empty, so no candidate is ever admitted: the result
  is the seed alone. With a side below 1 the seed's index can be negative,
  and `grid[index]` (PoissonSampling.cs:58) then throws; the model returns
  the outcome `IndexOutOfRange`.
- The comment at PoissonSampling.cs:120 says a stored candidate is at least
  `minDist` from all adjacent points. With the cell size of
  PoissonSampling.cs:31 the nine-cell check misses points two columns away
  (finding 1).
- A stored point can later be overwritten by a distant point whose column
  wraps into the next row (finding 2), so an active point need not still be in
  the grid.

## Model

| member | source | states |
|---|---|---|
| Geometry.CellIndex | PoissonSampling.cs:121-125 | The linear index `floor(x/c) + floor(y/c)*cols` of a point's cell is never negative for a point with non-negative coordinates, so writing a point of the first quadrant never indexes below 0. |
| Neighbourhood.StoreKeepsPlacement | PoissonSampling.cs:121-126 | Writing a point of the seed range into the cell it hashes to keeps every occupied cell holding a point of the seed range that hashes to that cell. No occupied cell becomes empty. |
| Poisson.Candidate | PoissonSampling.cs:110-111 | A candidate spawned along a unit bearing (sin^2 + cos^2 = 1) is exactly `minDist` from its active point. |
| Poisson.Attempts | PoissonSampling.cs:106 | The loop `for (i = 0; i < timeOut; i++)` runs `n` times, where `n` is the least natural number not below the real `timeOut`. |
| Poisson.PickIndex | PoissonSampling.cs:139 | The randomly picked active index is always in `[0, active.Count)`. |
| Poisson.RemoveAt | PoissonSampling.cs:147 | Removing the element at `i` shortens the list by one. The elements before `i` stay in place, and those after it move down by one, in order. |
| Poisson.FirstLanding | PoissonSampling.cs:48-55 | The seed loop stops at the first draw whose linear index is below `grid.Count`. Every earlier draw is at or beyond the end of the grid. |
| Poisson.PoissonDiskSampling.CreateGrid | PoissonSampling.cs:27-39 | Sets `cols = floor(width/c)` and `rows = floor(height/c)`. Afterwards `grid` has exactly `cols*rows` cells, every cell is the sentinel, and `active` is empty. Only `grid`, `active`, `cellSize`, `cols` and `rows` change. |
| Poisson.PoissonDiskSampling.GenerateSeed | PoissonSampling.cs:41-60 | Takes the first draw whose index is below `grid.Count`. It stores the seed exactly when that index is not negative: the new grid is the old one with exactly that cell set to the seed, and the seed is appended to `active`. A negative index, where the source's `grid[index]` throws, leaves both unchanged; it cannot happen when both sides are at least 1. The class invariant is kept. |
| Poisson.PoissonDiskSampling.CheckAdjacentCells | PoissonSampling.cs:62-102 | Returns false exactly when one of the nine indices `(pc+dc) + (pr+dr)*cols`, `dc, dr` in {-1,0,1}, lies in `[0, grid.Count)` and holds a non-sentinel point other than the candidate that is closer than `minDist`. It changes nothing: it has no `modifies` clause. |
| Poisson.FirstAdmitted | PoissonSampling.cs:106-128 | The attempt at which the loop stops: no candidate before it is admitted (inset rectangle, nine-cell scan, index below `grid.Count`), and it is admitted itself unless it equals `Attempts(timeOut)`, meaning that none of the candidates was. |
| Poisson.FirstAdmittedIsUnique | PoissonSampling.cs:106-131 | Only one attempt has both properties, so the draws decide where the loop stops. |
| Poisson.Round | PoissonSampling.cs:139-148 | One round of the driver: the first admitted candidate of `active[i]` is written into its cell and appended, or else element `i` is removed. The grid keeps its number of cells. |
| Poisson.Run | PoissonSampling.cs:137-149 | The rounds the driver runs, the k-th picking with `picks[k]` and spawning along `bearings[k]`, until the active list is empty or the picks run out. The grid keeps its number of cells. |
| Poisson.RoundKeepsGrid | PoissonSampling.cs:121-126 | A round keeps the grid well placed and inside the seed range, and empties no occupied cell. When a side is below 2 it does not change the grid. |
| Poisson.RoundSpawnsAtMinDist | PoissonSampling.cs:110-111 | With unit bearings a round either removes exactly element `i`, or keeps the list and appends one point exactly `minDist` from `active[i]`. |
| Poisson.RunKeepsGrid | PoissonSampling.cs:137-150 | The same holds for the whole run: the grid stays well placed and inside the seed range, no occupied cell ever empties, and a side below 2 leaves the grid unchanged. |
| Poisson.RunWithoutAttemptsRetiresAll | PoissonSampling.cs:106 | With `timeOut <= 0` the candidate loop runs zero times, so every round retires its point. As many picks as active points empty the list and leave the grid unchanged. |
| Poisson.PoissonDiskSampling.GeneratePoint | PoissonSampling.cs:104-132 | Looks only at the first `Attempts(timeOut)` candidates, the k-th along `bearings[k]`. It succeeds exactly when one of them is admitted. On success the first admitted one, per `FirstAdmitted`, is written into exactly its cell and appended to `active`. On failure `grid` and `active` are unchanged. The class invariant is kept. |
| Poisson.PoissonDiskSampling.SpawnOrRetire | PoissonSampling.cs:139-148 | For `0 <= randIndex < active.Count` and unit bearings, the new `grid` and `active` are exactly one `Round`. The point is retired exactly when none of the first `Attempts(timeOut)` candidates is admitted. It is then removed, the rest stay in order and `grid` is unchanged. Otherwise the list is kept and the appended point is exactly `minDist` from `active[randIndex]`. |
| Poisson.PoissonDiskSampling.GeneratePoints | PoissonSampling.cs:134-151 | The final `grid` and `active` are exactly those of `Run` from the initial state, the k-th round picking index `floor(picks[k] * active.Count)`. It returns the grid exactly when `active` has become empty. The class invariant holds, the grid keeps its size, and no occupied cell ever empties. When a side is below 2 no candidate is ever admitted and the grid does not change. |
| Poisson.PoissonDiskSampling.Samples | PoissonSampling.cs:153-168 | Records the parameters, with `timeOut` defaulting to 30, and derives the grid size from them. The outcome is `IndexOutOfRange` exactly when the seed's index is negative, which needs a side below 1. Otherwise `grid` and `active` are exactly `Run` from the empty grid with the seed in its cell and the active list `[seed]`. The outcome is `Sampled` exactly when that run empties the active list, and `DrawsExhausted` otherwise. A returned grid has `cols*rows` cells and the seed's cell is occupied. When a side is below 2 it holds the seed alone; otherwise every point in it lies in the inset rectangle and in the cell it hashes to. |
| Geometry.SeedRangeBounds | PoissonSampling.cs:50-51 | The seed range contains the inset rectangle, equals it when both sides are at least 2, and lies in the first quadrant when both sides are at least 1. |
| Neighbourhood.SeedRangeIsInterior | PoissonSampling.cs:50-51 | With both sides at least 2, a grid whose points all lie in the seed range has them all in the inset rectangle. |
| PoissonFindings.SourceCellSizeFits | PoissonSampling.cs:31 | With `cellSize = minDist/sqrt(2)`, a cell is narrower than `minDist` but at least half as wide. |
| PoissonFindings.NarrowScanAdmitsCloseCandidate | PoissonSampling.cs:68-96 | Gives a valid 10 x 10 grid (`floor(10/1) = 10` columns) and a candidate at distance `minDist` from a stored point that the nine-cell scan clears. The candidate is nevertheless closer than `minDist` to another stored point two columns away. |
| PoissonFindings.WideScanFindsEveryCloseNeighbour | PoissonSampling.cs:68-96 | A 25-cell scan (offsets -2..2) clears a candidate only if every stored point other than the candidate is at least `minDist` from it. |
| PoissonFindings.CloseNeighbourWithinTwoCells | PoissonSampling.cs:31 | With `cellSize = minDist/sqrt(2)`, a stored point closer than `minDist` to a candidate sits at most two columns and two rows from the candidate's cell, where the 25-cell scan rejects the candidate. |
| PoissonFindings.WideScanKeepsSeparation | PoissonSampling.cs:68-96 | Storing a point that the 25-cell scan clears keeps the grid well placed and keeps every two stored points at least `minDist` apart. |
| PoissonFindings.ColumnWrapOverwritesDistantPoint | PoissonSampling.cs:121-125 | Gives an interior candidate whose column equals `cols`, so its linear index aliases column 0 of the next row. The scan clears it and the index test passes, yet writing it removes a distant, already accepted point from the grid. |
| PoissonFindings.BoundedStoreKeepsEveryPoint | PoissonSampling.cs:121-125 | When column and row are each bounded by `cols` and `rows`, storing a cleared point adds exactly that point to the stored set and loses none. |
| PoissonFindings.CorrectedStoreKeepsSamples | PoissonSampling.cs:113-126 | With both corrections, storing an admitted point keeps all the invariants (placement, bounds, inset rectangle, pairwise separation) and grows the stored points by exactly the new one. |

## Left out

- Unity's `Random.Range` (seed coordinates, angles and the active index) is not modelled. Its values are caller-supplied sequences, with preconditions for their ranges: seed points in the seed range, index draws in `[0, 1)`, and bearings that are unit vectors. The index draw is modelled as `floor(u * n)` for `u` in `[0, 1)`.
- `Mathf.Sin`, `Mathf.Cos`, `Mathf.Sqrt(2)`, `Vector2.Distance` and float rounding are not modelled. Points are pairs of `real`s, `cellSize` is a parameter satisfying `2 * cellSize^2 == minDist^2`, and distances are compared as squares. The edge cases of `FloorToInt` on floats are out of scope.
- The 32-bit width of `int`, including `cols * rows`, is not modelled; the model's integers are unbounded.
- `Geometry.Point` is not part of this model. `adjPoint == newPoint` is taken to be value equality. The point's third coordinate is left out, on the assumption that it is 0 for every point the sampler creates (`new Point(x, y)` and the sentinel `new Point(-1, -1, 0)`); what the two-argument constructor stores there is not modelled.
- Poisson.PoissonDiskSampling.GenerateSeed: requires some seed draw whose linear index is below `grid.Count` (a negative index counts, and leads to `IndexOutOfRange`). The source loops forever when there is none, for instance when the grid has no cells and both sides are at least 1.
- Poisson.PoissonDiskSampling.GeneratePoints: the loop also stops when the supplied draws run out (`Run` stops there too), and then returns `None`. Termination of the source's loop for every random sequence is not proved.
- Poisson.PoissonDiskSampling.Samples: promises that the seed's cell is occupied, not that it still holds the seed, because a later point can overwrite it (finding 2).
- Poisson.PoissonDiskSampling.Samples: requires `width`, `height` and `minDist` to be positive. For other values the float behaviour of the source (division by zero, `FloorToInt` of infinity) is not modelled.
- Poisson.PoissonDiskSampling.GeneratePoints: does not promise that stored points are pairwise `minDist` apart, nor that every active point is still in the grid. Neither holds of the code as written (see Findings).
- The `using` lines for UIElements, Threading and CompilerServices carry no program logic and are left out.

## Findings

| source | as written | input that shows it | evidently intended | confidence | as-written member | corrected member |
|---|---|---|---|---|---|---|
| PoissonSampling.cs:68-96 | The scan visits offsets -1..1 around the candidate's cell. With `cellSize = minDist/sqrt(2)`, a point closer than `minDist` can be two cells away. | `cellSize = 1`, `minDist = sqrt(2)`, 10 x 10 grid holding `(1.99, 3.5 - sqrt(2))` and `(3.01, 3.5)`. The candidate `(1.99, 3.5)` is spawned from the first along bearing 0. It is admitted, although it is 1.02 from the second. The grid is well placed, inside the inset rectangle and pairwise separated; the witness is not shown to be reached by a run from a seed. | Every accepted point is at least `minDist` from every other, which needs offsets -2..2. | high (proved; not executed) | PoissonFindings.NarrowScanAdmitsCloseCandidate | PoissonFindings.WideScanKeepsSeparation |
| PoissonSampling.cs:121-125 | Only the linear index is compared with `grid.Count`. An interior `x` in `[cols*cellSize, width-1]` yields column `cols`, whose index aliases column 0 of the next row. | `cellSize = 2`, `minDist = sqrt(8)`, `width = height = 7.5` (3 x 3 grid). `(1.2, 3.9)` is stored in cell 3. The candidate `(6.2, 1.5)` also hashes to 3, passes the scan, and overwrites it. The grid is well placed, inside the inset rectangle and pairwise separated; the witness is not shown to be reached by a run from a seed. | An accepted point is never lost, which needs column and row each checked against `cols` and `rows`. | high (proved; not executed) | PoissonFindings.ColumnWrapOverwritesDistantPoint | PoissonFindings.BoundedStoreKeepsEveryPoint |

The class `PoissonDiskSampling` models the code as written: a nine-cell scan
and a linear index test. The corrected tests are combined in
`PoissonFindings.AdmitsCorrected`, and `PoissonFindings.CorrectedStoreKeepsSamples`
proves that storing a point admitted by them keeps every invariant, including
pairwise separation.
