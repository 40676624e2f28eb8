# Robin-Newton: a verified model of a radial heat-conduction step

This project models the core of `robin_newton.py`. That program simulates transient heat
conduction through the wall of a pipe, between an inner radius R1 and an outer radius R2. It
splits the wall into n concentric cells and uses convective (Newton-Richmann) boundary conditions
on both faces. Time is advanced by an explicit finite-volume step.

The model has three parts, in four modules:

- `PairIter` (`pair_iter.dfy`) is the two-cursor "tee": `pair_iterator.__next__`, `pair_iter`
  and `pair`.
  - The shared state of the two cursors is one class, `Tee`. It holds the source as a sequence
    plus a read position, the shared FIFO `buff` and the shared `flag[0]`.
  - A cursor is named by its `my` flag, which is passed to `Tee.Next`.
  - Ghost counters record how many elements each cursor has returned. The class invariant ties
    `buff`, `flag` and the read position to those counters.
  - `Pair` runs `pair` on a fresh `Tee`; `Interleave` drives one under any schedule of calls.
- `Physics` (`physics.dfy`) is `Behavior`: the constants built by `__init__` (`Make`), the
  boundary fluxes `P1`/`P2`, the conductive flux `PowerDiv` with its area term `Area`, the radius
  ratio `Ratio` and the increment `DTemp`. All arithmetic is over `real`.
- `Transition` (`transition.dfy`) is `State` and `getNext`.
  - The generators `_power_div` and `_dtemp` are pure functions (`Fluxes`, `Increments`) over the
    field and its adjacent pairs.
  - `Next` is `getNext`; `Iterate` applies it k times.
  - `Heat` is the heat content of a field: the sum over cells of capacity times temperature.
    The per-cell heats are `CellHeats`; `HeatBalanced` says that a field's heat is another's
    plus the energy let in at the inner face minus that let out at the outer face.
- `Simulation` (`simulation.dfy`) is `run`. It has the initial averaging (`Initial`), the loop
  over `range(dtime_int)` (a `for` loop in `Run`) and the re-expansion to nodes (`Output`).
  `Run` calls the tee-based `Pair` exactly where the source calls `pair`.

Modelling choices:

- `pi` is the constant `Pi` (the digits of `math.pi`). No proof uses its value, only that it is
  positive.
- Every division the source makes is a precondition that its divisor is not zero. Python raises
  ZeroDivisionError there.
  - `dtime_int != 0` is required only when `n > 0`, because `n <= 0` raises before that
    division.
  - `CellDefined` / `Ready` say that the divisors of `dtemp` and `power_div` are non-zero.
  - `PhysicalIsReady` proves that a physically meaningful wall satisfies them.
- The number of steps is `Steps(p) = max(dtime_int, 0)`, the length of `range(dtime_int)`.
- `getNext` is defined only for n >= 3.
  - For n = 1 the first `next(t)` in `_power_div` has no pair to take.
  - For n = 2 the variable `t_p` is never bound.
  - So `Next` requires at least 3 cells, and `Run` requires n >= 3 only when at least one step
    is taken.
- `run` does not check that it gets n+1 samples, so `Run` requires it.
- `State.get` is the datatype field `temp`.
- States are values, so `getNext` leaves the old state unchanged by construction.

Where the source's comments and its code disagree, the model follows the code:

- The comments at robin_newton.py:55-56 call P1 the power received by cell 0 and P2 the power
  given by the last cell. The code computes P1 from the second cell's temperature, T[1]
  (robin_newton.py:131-132), and P2 from `t_p`, which is T[n-2] (robin_newton.py:139).
- The comment at robin_newton.py:36 calls `per1` the perimeter of the cell at face 1, and the
  comment at robin_newton.py:78-79 says `b` is the ratio of the radii (so of the volumes) of
  cells i and 0. The code builds `per1` from `(rad1 + dr)/2` rather than from the mean radius
  `rad1 + dr/2`.
  - So `heatCap1_div` matches the true capacity of cell 0 only when rad1 = 0
    (`Cell0CapacityQuirk`).
  - The ratio `b` itself is the true area ratio (`RatioIsAreaRatio`).
- The docstring at robin_newton.py:63 calls `power_div(i, temp_i, temp_next)` the power passed
  from cell i to the next, and `dtemp` (robin_newton.py:75-76) subtracts it from cell i and
  adds it to cell i+1. The code at robin_newton.py:72 computes it as
  `(temp_next - temp_i) * ...`, which is positive when cell i+1 is the hotter one.
  - So conduction runs from the colder cell to the hotter one. An interior cell hotter than
    both neighbours grows hotter in a transition (`Transition.HotSpotGrows`).
  - The convective powers P1 and P2 have the physical sign (`Physics.P1`, `Physics.P2`).
- `run` fails for n = 1 once a step is taken: one cell has no adjacent pair, so the first
  `next(t)` at robin_newton.py:131 finds no pair. For n = 2 the loop at robin_newton.py:136
  runs zero times and `t_p` is never bound. `Run`'s precondition excludes both.

## Model

| member | source | states |
|---|---|---|
| `PairIter.AdjacentPairs` | robin_newton.py:115-118 | the pairs `pair` yields: m-1 pairs for m >= 1, pair k being (x[k], x[k+1]) |
| `PairIter.CountSplit` | robin_newton.py:94-104 | each `__next__` call goes to exactly one of the two cursors |
| `PairIter.PulledBound` | robin_newton.py:94-104 | the leader's count of calls, capped at the source length, is at most the number of calls; `Interleave` uses it, through `CountSplit`, to show that the shared source is pulled at most once per call |
| `PairIter.Tee.constructor` | robin_newton.py:108-113 | `pair_iter` starts with an empty buffer, an unset flag and nothing pulled or returned |
| `PairIter.Tee.Pull` | robin_newton.py:96-102 | `next(self._i)` returns the element at the read position and advances; an exhausted source returns end of iteration and does not move |
| `PairIter.Tee.Next` | robin_newton.py:94-104 | under any interleaving a cursor returns the next source element it has not returned, or end of iteration once it has returned all; it pulls from the source only when it is not behind; after it, the buffer is what the leader returned and the trailer did not, and the flag names the trailer; a failed call changes nothing |
| `PairIter.Interleave` | robin_newton.py:94-113 | under any schedule of calls, each cursor's outputs are a prefix of the source in order; the source is pulled once per element the leader returned, so at most once per call; the buffer ends as the leader's surplus |
| `PairIter.Pair` | robin_newton.py:115-118 | `pair(x)` fails for an empty x; otherwise it returns exactly the m-1 adjacent pairs in order and pulls the source exactly m times |
| `Physics.Make` | robin_newton.py:14-47 | construction fails exactly when n <= 0; otherwise n cells of width dr span rad2-rad1, dtime_int quanta of dt span dtime_s, and heatCap1_div = c*rho*pi*dr*(rad1+dr) |
| `Physics.NewtonRichmann` | robin_newton.py:50-53 | no convective power without coupling, temperature difference or radius; with positive coupling and radius the power is positive exactly when t0 > t1 |
| `Physics.P1` | robin_newton.py:57 | the inner boundary power is zero when alpha1 = 0 or the cell is at T1; with positive alpha1 and rad1, heat flows in exactly when the cell is colder than T1 |
| `Physics.P2` | robin_newton.py:58 | the outer boundary power is zero when alpha2 = 0 or the cell is at T2; with positive alpha2 and rad2, heat flows out exactly when the cell is hotter than T2 |
| `Physics.Area` | robin_newton.py:67-70 | the area term is 2*pi*rad1 at i = -1 and 2*pi*rad2 at i = n-1, as the comment table says |
| `Physics.AreaAtInterface` | robin_newton.py:67-70 | with the dr of `Make`, the area term is the circumference 2*pi*(rad1 + (i+1)*dr) |
| `Physics.PowerDiv` | robin_newton.py:60-72 | no conductive power between equal temperatures; with positive conductivity, width and area, p, the power line 63 calls passed from cell i to the next, is positive exactly when cell i+1 is hotter |
| `Physics.PeakGains` | robin_newton.py:60-81 | a cell hotter than both neighbours has a positive increment when `dtemp` takes `power_div` of its two faces, given a positive conductivity, width, areas, capacity and dt |
| `Physics.PowerDivAntisymmetric` | robin_newton.py:72 | swapping the two temperatures negates the conductive power |
| `Physics.Ratio` | robin_newton.py:78-80 | b(0) = 1 |
| `Physics.RatioIsAreaRatio` | robin_newton.py:78-80 | b(i) is exactly the area ratio of annulus i to annulus 0 |
| `Physics.MeanRadiusRatio` | robin_newton.py:78-80 | for two annuli of equal width, the ratio of mean radii that `b` computes equals the ratio of their areas |
| `Physics.DTemp` | robin_newton.py:74-81 | heatCap1_div * b(i) * dtemp(i, Pp, Pn) = (Pp - Pn) * dt; the increment is zero exactly when Pp = Pn or dt = 0 |
| `Physics.PhysicalIsPositive` | robin_newton.py:28-39 | with 0 < n, dtime_int != 0, 0 <= rad1 < rad2 and positive density and heat capacity, construction succeeds with a positive cell width and a positive cell-0 capacity |
| `Physics.PositiveCell` | robin_newton.py:78-80 | with a non-negative inner radius, positive width and positive cell-0 capacity, every cell i >= 0 has a positive capacity, so `dtemp` never divides by zero |
| `Physics.PhysicalIsReady` | robin_newton.py:28-81 | with 0 < n, dtime_int != 0, 0 <= rad1 < rad2 and positive density and heat capacity, construction succeeds and every divisor of a step is non-zero |
| `Physics.Cell0CapacityQuirk` | robin_newton.py:36-39 | heatCap1_div equals c*rho times the true area of cell 0 exactly when rad1 = 0 |
| `Transition.Interior` | robin_newton.py:136-137 | the interior loop gives one power per pair, `power_div(i+k, pair k)` |
| `Transition.PowersOfPairs` | robin_newton.py:129-139 | `_power_div` over k >= 2 pairs gives k+2 powers: P1 of the first pair's second value, `power_div(k', pair k')` for each pair, then P2 of the last pair's first value |
| `Transition.Fluxes` | robin_newton.py:129-139 | for n >= 3 cells: n+1 fluxes, P[0] = P1(T[1]), P[i] = power_div(i-1, T[i-1], T[i]) for 1 <= i < n, P[n] = P2(T[n-2]) |
| `Transition.Deltas` | robin_newton.py:143-144 | the loop of `_dtemp` gives one increment per pair, `dtemp(i+k, pair k)` |
| `Transition.Increments` | robin_newton.py:141-144 | `_dtemp` over n+1 powers gives n increments, D[i] = dtemp(i, P[i], P[i+1]) |
| `Transition.ZipSum` | robin_newton.py:150 | `map(sum, zip(xs, ys))` is as long as the shorter input, with element k equal to xs[k] + ys[k] |
| `Transition.Next` | robin_newton.py:146-155 | for n >= 3, `getNext` keeps the Behavior and n cells, adds 1 to time, and sets T'[i] = T[i] + dtemp(i, P[i], P[i+1]) |
| `Transition.Iterate` | robin_newton.py:191-192 | k chained transitions advance time by exactly k and keep the Behavior and the cell count |
| `Transition.Telescope` | robin_newton.py:141-144 | when every entry of one sum exceeds the other's by P[i]*dt - P[i+1]*dt, as `_dtemp` updates each cell from P[i] and P[i+1], the first k entries differ by P[0]*dt - P[k]*dt |
| `Transition.SumsTelescope` | robin_newton.py:141-144 | over all n entries the two sums differ by (P[0] - P[n]) * dt |
| `Transition.CellBalance` | robin_newton.py:74-81 | a cell updated by `dtemp` gains in heat (capacity times temperature) its inner-face energy minus its outer-face energy, P[i]*dt - P[i+1]*dt |
| `Transition.CellGains` | robin_newton.py:141-150 | in a field updated cell by cell by `dtemp`, each cell's heat rises by exactly that cell's net energy |
| `Transition.Balance` | robin_newton.py:141-150 | a field updated cell by cell by `dtemp` from powers P holds the heat of the old field plus (P[0] - P[n]) * dt |
| `Transition.StepBalance` | robin_newton.py:146-155 | one transition changes the heat content by exactly (P[0] - P[n]) * dt, P being the fluxes of the field: only the two faces exchange heat |
| `Transition.InsulatedConserves` | robin_newton.py:146-155 | with alpha1 = alpha2 = 0, a transition leaves the heat content unchanged |
| `Transition.UniformAmbientIsFixed` | robin_newton.py:129-155 | a uniform field at T1 = T2 is unchanged by a transition |
| `Transition.HotSpotGrows` | robin_newton.py:129-155 | in a transition, an interior cell hotter than both neighbours grows hotter still: conduction runs from the colder cell to the hotter one |
| `Simulation.Midpoints` | robin_newton.py:188-189 | the averaging map gives, for each pair, the mean of its two values |
| `Simulation.Initial` | robin_newton.py:188-190 | the initial state has time 0 and n cells, with cell i = (s[i] + s[i+1]) / 2 |
| `Simulation.Output` | robin_newton.py:194-200 | the output has n+1 values: temp1, then the n-1 means of adjacent final cells, then temp2 |
| `Simulation.ZeroStepsSmooths` | robin_newton.py:188-200 | with no step, interior output node k is (s[k-1] + 2*s[k] + s[k+1]) / 4 |
| `Simulation.Run` | robin_newton.py:160-200 | `run` fails exactly when n <= 0; otherwise it returns the output profile of the field reached from the initial averages by exactly max(dtime_int, 0) transitions: n+1 values from temp1 to temp2 |

## Left out

- `main` (robin_newton.py:203-242) is not modelled. It reads argv, loads the JSON parameters and
  the CSV samples, adjusts the recursion limit and prints. It is I/O only.
- Floating-point rounding is not modelled; all arithmetic is exact over `real`. Stability or
  divergence of the explicit scheme is not studied.
- Lazy evaluation is not modelled.
  - The source chains generators and builds each new state's field lazily from the previous
    one, so recursion depth grows with the step count. The model computes each field eagerly.
  - In the source the new state consumes the old state's field iterator. The model treats
    states as immutable values.
  - Only the tee is modelled with state. `Fluxes`, `Increments` and `Initial` use the adjacent
    pairs directly; `Tee.Next` and `Pair` justify this, since each cursor yields the source in
    order under any interleaving.
- The cursors are not separate objects. The two `pair_iterator` objects are modelled as the
  `my` argument of one shared `Tee`, which holds their shared list and flag. `__iter__`, which
  returns the cursor itself, is not modelled.
- The exact Python exceptions are not modelled.
  - For n = 1 or n = 2 with at least one step, the source fails inside a generator or on an
    unbound name. This is a precondition here.
  - ZeroDivisionError is a precondition here.
  - A sample count other than n+1 is a precondition.
- The integer cell count is modelled as an integer. A non-integer `n` coming from the JSON file
  is not modelled.
- A linear temperature profile with a non-zero slope is not a fixed point of this scheme.
  - The areas are cylindrical and the boundary fluxes read T[1] and T[n-2], so a linear profile
    with a non-zero slope changes under a transition. No lemma about linear profiles is stated.
  - The model proves instead that a uniform field at a common ambient temperature is a fixed
    point (`Transition.UniformAmbientIsFixed`).
  - It also proves that an insulated wall conserves heat (`Transition.InsulatedConserves`).
