# LIFE simulation engine in Dafny

This project models the simulation engine of LIFE, the Rust program in
`src/main.rs`. LIFE is an artificial-life program. A square toroidal grid holds cells that are either empty
(`-1`) or hold one individual of a species `0..N-1`. Each species has a
population counter, a food counter, a carnivore fitness, a herbivore fitness
and a `can_eat` row saying which species it may prey on. A hazard overlay
(`lava_map`) and a food-availability overlay (`food_map`) lie over the grid.

One tick (`run_simulation_once`) runs three sweeps over the whole grid:
- predation and foraging (`try_eat`, with `look_up`, `look_right`, `look_down`,
  `look_left` and `can_eat`);
- starvation (`starve`, with `die`);
- reproduction (`reproduce`).

When asked, the tick then also runs evolutionary pressure (`mutate`, with
`change_can_eat`) and lava decay (`decay_lava`). Each sweep visits the rows in a
shuffled order and, within each row, the columns in a freshly shuffled order.

The files:
- `torus.dfy` (module `Torus`): the row-major index of a cell, the wrap-around
  neighbours, the four orthogonal and eight Moore neighbours, and the visiting
  order of a sweep, with the proof that it visits every cell exactly once.
- `census.dfy` (module `Census`): head counts of a grid, their sum, and the
  number of lava cells.
- `rules.dfy` (module `Rules`): the rules of one visit of each sweep as
  functions on values (`Env` is what a sweep reads, `World` is what it changes).
  It also holds the lava decay and the `can_eat` rerolls as functions, and the
  lemmas stating what each rule keeps and promises.
- `simulation.dfy` (module `Life`): the class `Simulation`, whose methods run
  the program's loops in place on arrays. Each method is proved to end in the
  state the rules of `Rules` (for init, `Drawn` and `Tally`) prescribe.

Modelling choices:
- The grid side `SIZE` and the species count `NUMBER_OF_ORGANISMS` are
  constructor parameters (`size`, `n`, both at least 1).
- The 2-D arrays are flattened row-major: cell `(y, x)` is entry
  `Idx(y, x, size)`, and `can_eat` of species `s` for species `t` is entry
  `Idx(s, t, n)`.
- The random source is given to the constructor as three outcome sequences,
  each of which repeats without end:
  - the draws of `gen::<f32>()`, as reals in `[0, 1)`;
  - the draws of `gen_range(0, N)`, in `[0, N)`;
  - the results of shuffling `0..SIZE`, as permutations.

  The methods consume them through counters in the order the program does.
  `change_can_eat` draws from the same `gen::<f32>()` stream.
- Two behaviours of the code are kept:
  - `can_eat(me, them)` is evaluated before `*eaten == false`. So a look still
    consumes a draw when the neighbour is edible, even after the predator has
    eaten (`Rules.LookAfterMeal`).
  - The reproduction scan runs over categories `1..N-1`. So category `N`,
    species `N-1`, is never born (`Rules.BirthCellPreserves`,
    `Life.Simulation.Reproduce`).

  The model follows the code, which never considers species `N-1`.
- The "at most one meal" rule holds per visit of an occupied cell. A species can
  still gain food from several of its individuals in one sweep.

## Model

| member | source | states |
|---|---|---|
| Torus.Prev | src/main.rs:102-105 | the "up"/"left" neighbour of i is on the ring, and stepping forward from it with wrap-around `% size` returns to i: row 0's up is row size-1 |
| Torus.Next | src/main.rs:132 | the "right"/"down" neighbour is `(i + 1) % size`, on the ring |
| Torus.PrevNextInverse | src/main.rs:287-304 | the wrapped neighbours before and after undo each other |
| Torus.IdxInjective | src/main.rs:37 | distinct cells of the flattened grid have distinct indices |
| Torus.Orthogonal | src/main.rs:173-176 | the four cells try_eat examines lie on the grid |
| Torus.Moore | src/main.rs:287-314 | the eight Moore neighbours reproduce tallies lie on the grid |
| Torus.VisitsEachCellOnce | src/main.rs:152-158 | a shuffled row order with a shuffled column order per row visits every cell exactly once |
| Torus.TraversalInRange | src/main.rs:152-158 | every visit of such a traversal lies on the grid |
| Census.HeadCountTotal | src/main.rs:35-37 | with cells in [-1, n), the per-species head counts plus the empty cells add up to the number of cells |
| Census.CountsClear | src/main.rs:108-110 | emptying a cell takes one from its species' head count and changes no other |
| Census.CountsFill | src/main.rs:327-328 | placing a species in an empty cell adds one to its head count and changes no other |
| Census.FewerHazards | src/main.rs:58-60 | a lava grid whose lava cells were all lava before has no more lava cells |
| Rules.Edible | src/main.rs:354 | the non-random part of can_eat: the neighbour is occupied, its species is one the predator's can_eat row allows, and it is not the predator's own species |
| Rules.Prey | src/main.rs:354 | an Edible neighbour whose carnivore fitness is strictly below the predator's, the only case in which a draw in [0, 1) can fall below the fitness difference |
| Rules.LookAt | src/main.rs:106-112 | one look: it draws only when the neighbour is Edible; it eats only when that draw is below the fitness difference and nothing was eaten yet, emptying the neighbour's cell, taking one from its counter and giving the predator one food |
| Rules.Looks | src/main.rs:173-176 | the looks at a list of neighbours in order, the eaten flag starting false and passed from each look to the next |
| Rules.Forage | src/main.rs:221-226 | two draws, always taken; one food for the occupant when the first exceeds the cell's food availability, the second is below its herbivore fitness and nothing was eaten |
| Rules.TryEatCell | src/main.rs:159-226 | one visit of try_eat: an empty cell is left as it is; otherwise the four looks up, right, down, left, then foraging |
| Rules.LookAfterMeal | src/main.rs:107 | after a meal a look changes nothing but the draw position, which still advances when the neighbour is edible |
| Rules.LookEatsOnlyPrey | src/main.rs:353-355 | a look eats only an occupied neighbour of another species that the predator's can_eat allows and whose carnivore fitness is strictly lower; it empties exactly that cell |
| Rules.LooksMeal | src/main.rs:173-176 | after the four looks nothing was eaten and nothing changed, or exactly one Prey neighbour was eaten, emptying its cell, taking one from its counter and giving the predator one food |
| Rules.TryEatCellMeal | src/main.rs:158-226 | one visit of an occupied cell empties at most one orthogonal Prey neighbour; the occupant's food rises by at most one, by one after a meal and otherwise exactly when both foraging draws succeed; no other species' food changes |
| Rules.LookAtPreserves | src/main.rs:101-113 | a look keeps the population invariant and food non-negative, only empties cells and never lowers food |
| Rules.LooksPreserve | src/main.rs:173-176 | the same for any number of looks |
| Rules.TryEatCellPreserves | src/main.rs:158-227 | the same for one visit of try_eat |
| Rules.Dies | src/main.rs:350 | die's test: the draw times the species' population exceeds its food; with no individuals it holds exactly when food is negative |
| Rules.DieNeedsHunger | src/main.rs:349-351 | with a draw in [0, 1) the death test can succeed only when the species' food is below its population |
| Rules.StarveCell | src/main.rs:240-258 | one visit of starve: an empty cell is left as it is; a lava occupant dies without a draw; otherwise one draw, death when Dies holds, and else the species loses one food, floored at 0 |
| Rules.StarveCellPreserves | src/main.rs:239-259 | one visit of starve keeps the population invariant and non-negative food, never raises food, only empties cells, changes no other cell, and always empties an occupied lava cell |
| Rules.StarveCellFate | src/main.rs:245-258 | off lava, an occupant dies only when its species' food is below its population; a survivor's species loses one food, floored at 0, and no other food changes |
| Rules.TallyUpTo | src/main.rs:306-314 | number_around after its first t increments, all entries 0 at first, with k entries |
| Rules.TallyUpToCounts | src/main.rs:306-314 | entry c of number_around after the increments is the number of neighbours in category c |
| Rules.Winner | src/main.rs:316-323 | the scan's pair is (0, 0), or a category c in 1..N-1 together with its own tally, which is positive |
| Rules.WinnerIsFirstMax | src/main.rs:316-323 | the scan picks the lowest category among 1..N-1 with the largest positive tally, together with that tally |
| Rules.Categories | src/main.rs:286-314 | the eight categories reproduce tallies around (y, x): 0 for an empty Moore neighbour, s + 1 for a neighbour of species s |
| Rules.CategoriesAt | src/main.rs:287-314 | the tallied categories are the wrapped Moore neighbours' cells plus one, each in [0, N] |
| Rules.BirthCell | src/main.rs:282-329 | one visit of reproduce: an occupied cell is left alone; an empty cell tallies its Moore categories, takes the scan's Winner over 1..N-1 and, when its tally reaches REPRO_LIMIT, receives a newborn of species Winner - 1 |
| Rules.Born | src/main.rs:325-329 | a newborn of species s fills cell c and s's counter rises by one; food and draws are kept |
| Rules.BornPreserves | src/main.rs:325-329 | a birth in an empty cell keeps the population invariant, changes only that cell and raises only the newborn's counter |
| Rules.BirthCellPreserves | src/main.rs:281-330 | one visit of reproduce keeps the population invariant, food and draws; it changes at most the visited cell and never an occupied one, places only species below N-1, raises exactly the newborn's counter and never lowers a counter |
| Rules.BirthCellChoice | src/main.rs:306-329 | a newborn has at least REPRO_LIMIT neighbours of its species, at least as many as any species below N-1 and more than any lower species; an empty cell stays empty only when no such species reaches REPRO_LIMIT |
| Rules.Step | src/main.rs:158 | the visit of one cell by the given sweep: try_eat's, starve's or reproduce's rule |
| Rules.Sweep | src/main.rs:154-158 | the world after a sweep has visited the given cells in order, each visit starting from the world the previous one left |
| Rules.SweepSnoc | src/main.rs:154-158 | a sweep extended by one visit runs that visit's rule on the world the sweep reached |
| Rules.SweepAppend | src/main.rs:154-158 | a sweep over a + b is the sweep over a followed by the sweep over b |
| Rules.EatSweepPreserves | src/main.rs:151-229 | a whole try_eat sweep keeps the population invariant and non-negative food, only empties cells and never lowers food |
| Rules.StarveSweepPreserves | src/main.rs:231-261 | a whole starve sweep keeps the population invariant and non-negative food, only empties cells and never raises food |
| Rules.StarveSweepClearsLava | src/main.rs:245-248 | after a starve sweep every visited lava cell is empty |
| Rules.BirthSweepPreserves | src/main.rs:263-332 | a whole reproduce sweep keeps the population invariant, food and draws, changes only empty cells, places only species below N-1, never lowers a counter and leaves species N-1's counter as it was |
| Rules.Decayed | src/main.rs:56-62 | the lava map after decay_lava has visited the first m cells in row-major order: each visited lava cell takes the next draw and stays lava below 0.95 |
| Rules.DecayedAt | src/main.rs:56-62 | a visited lava cell stays lava exactly when its own draw is below 0.95; every other cell is as it was |
| Rules.DecayOnlyClears | src/main.rs:58-60 | decay never turns a plain cell into lava, so the number of lava cells never grows |
| Rules.FirstMaxUnique | src/main.rs:79-82 | only one species is the lowest-indexed most populous |
| Rules.FirstMinUnique | src/main.rs:83-85 | only one species is the lowest-indexed least populous |
| Rules.RerollRow | src/main.rs:24-30 | change_can_eat for one species on the flattened table: above 0.95 every entry of its row is replaced, in order, by the next draw being below 0.65; otherwise the table is unchanged |
| Rules.Rerolls | src/main.rs:95-97 | the can_eat table after change_can_eat has run for species 0..i-1 in turn, each gate draw where the previous species' draws end |
| Rules.RerollDraw | src/main.rs:95-97 | species i's gate draw comes at least i draws after the first |
| Rules.RerollRowAt | src/main.rs:24-30 | change_can_eat for species i rerolls every entry of row i, the self entry included, from its own draw when the gate draw exceeds 0.95, and leaves every other row alone |
| Rules.RerollsAt | src/main.rs:95-97 | after change_can_eat for species 0..i-1, entry (a, j) is rerolled exactly when a < i passed its gate, and is as before otherwise |
| Rules.Nth | src/main.rs:40 | an outcome of an injected source is one of its outcomes, or the default when it has none |
| Life.Tally | src/main.rs:50 | the counters after init has counted the given cells: each base counter plus the head count of its species |
| Life.TallySnoc | src/main.rs:50 | counting one more cell of species v adds one to v's counter only |
| Life.ScanMax | src/main.rs:316-323 | the loop over categories 1..N-1 computes the scan's Winner of number_around |
| Life.FindExtremes | src/main.rs:76-86 | the first loop of mutate finds the lowest-indexed most and least populous species |
| Life.Simulation.constructor | src/main.rs:33-42 | the fields hold the given overlays, traits and random source; the grid cells and all counters are 0 |
| Life.Simulation.IntDraw | src/main.rs:49 | a `gen_range(0, N)` draw is a species |
| Life.Simulation.Order | src/main.rs:152-153 | each shuffle is a permutation of 0..SIZE |
| Life.Simulation.NextReal | src/main.rs:59 | one `gen::<f32>()` draw in [0, 1), the next of the stream |
| Life.Simulation.NextInt | src/main.rs:49 | one `gen_range(0, N)` draw, the next of the stream, a species |
| Life.Simulation.Shuffle | src/main.rs:152-153 | the next shuffle of 0..SIZE, a permutation |
| Life.Simulation.ColumnOrdersAt | src/main.rs:155-156 | row a of a sweep uses the shuffle drawn a + 1 shuffles after the row order |
| Life.Simulation.PhasePrefixIsTraversal | src/main.rs:154-158 | the visits of the first i rows are the traversal of the first i rows; all rows give the whole sweep |
| Life.Simulation.SweepRowsNext | src/main.rs:154-158 | sweeping one more row continues from where the previous rows left the world |
| Life.Simulation.SweepRowsIsSweep | src/main.rs:154-158 | sweeping row by row is sweeping the visits in order |
| Life.Simulation.PhaseIsSweep | src/main.rs:152-158 | a whole sweep row by row is the sweep over the phase's visits, all on the grid |
| Life.Simulation.PhaseVisitsEachCellOnce | src/main.rs:152-158 | each of try_eat, starve and reproduce visits every cell exactly once |
| Life.Simulation.Drawn | src/main.rs:49 | the species init draws for its first m cells in row-major order: the next m gen_range draws |
| Life.Simulation.SeedStep | src/main.rs:49-50 | drawing and counting one cell extends both loop invariants of init by that cell |
| Life.Simulation.Seed | src/main.rs:49-50 | one cell gets the next drawn species, which is counted |
| Life.Simulation.SeedRow | src/main.rs:48-51 | a row's cells get the next SIZE draws, each counted |
| Life.Simulation.Init | src/main.rs:46-53 | every cell holds the drawn species, none is empty, and each counter rises by its head count; from zeroed counters the population invariant holds and the counters add up to the number of cells |
| Life.Simulation.DecayCell | src/main.rs:58-60 | one cell of decay_lava: a lava cell draws and stays lava below 0.95; a plain cell draws nothing |
| Life.Simulation.DecayRow | src/main.rs:57-61 | one row of decay_lava |
| Life.Simulation.DecayRows | src/main.rs:56-62 | all rows of decay_lava, one draw per lava cell |
| Life.Simulation.DecayLava | src/main.rs:55-63 | the lava map becomes the decayed map, one draw per lava cell; no cell becomes lava and the lava count never grows; map and populations are untouched |
| Life.Simulation.CanEat | src/main.rs:353-355 | true exactly when the neighbour is edible and the draw is below the fitness difference; a draw is taken only when edible |
| Life.Simulation.Look | src/main.rs:106-112 | the shared body of the look_* methods follows the look rule |
| Life.Simulation.LookUp | src/main.rs:101-113 | look_up looks at the wrapped cell above |
| Life.Simulation.LookRight | src/main.rs:130-139 | look_right looks at the wrapped cell to the right |
| Life.Simulation.LookDown | src/main.rs:141-149 | look_down looks at the wrapped cell below |
| Life.Simulation.LookLeft | src/main.rs:115-128 | look_left looks at the wrapped cell to the left |
| Life.Simulation.LookAround | src/main.rs:173-176 | the four looks in the order up, right, down, left |
| Life.Simulation.ForageAt | src/main.rs:221-226 | the two foraging draws, and one food only when both succeed and nothing was eaten |
| Life.Simulation.TryEatAt | src/main.rs:159-226 | try_eat's loop body follows the rule of one try_eat visit |
| Life.Simulation.Die | src/main.rs:349-351 | one draw; true exactly when the draw times the population exceeds the food |
| Life.Simulation.StarveAt | src/main.rs:240-258 | starve's loop body follows the rule of one starve visit |
| Life.Simulation.Bump | src/main.rs:306 | one increment of number_around extends the tally by one category |
| Life.Simulation.MooreCoordinates | src/main.rs:287-304 | the wrapped rows and columns around (y, x) are the ring neighbours |
| Life.Simulation.BumpFour | src/main.rs:306-309 | four increments extend the tally by four categories |
| Life.Simulation.BumpAll | src/main.rs:306-314 | the eight increments give the full tally |
| Life.Simulation.NeighbourCategories | src/main.rs:306-314 | the categories read off the grid are those of the eight Moore neighbours, each in [0, N] |
| Life.Simulation.Tally8 | src/main.rs:286-314 | number_around is the tally of the Moore neighbours' categories |
| Life.Simulation.Choose | src/main.rs:286-323 | the pair (max_species, max) is the scan's Winner of that tally |
| Life.Simulation.ReproduceAt | src/main.rs:282-329 | reproduce's loop body follows the rule of one reproduce visit |
| Life.Simulation.Bear | src/main.rs:325-329 | a newborn fills the cell and is counted |
| Life.Simulation.Visit | src/main.rs:158-227 | the loop body of each sweep follows that sweep's rule |
| Life.Simulation.VisitNext | src/main.rs:158 | one more visit extends the sweep by that cell |
| Life.Simulation.SweepColumns | src/main.rs:158 | the inner loop sweeps the row's cells in column order |
| Life.Simulation.SweepRow | src/main.rs:154-157 | one row: a fresh column shuffle, then the inner loop |
| Life.Simulation.SweepRowsInOrder | src/main.rs:154 | the outer loop sweeps the rows in the row order |
| Life.Simulation.SweepCells | src/main.rs:152-158 | a whole sweep consumes SIZE + 1 shuffles and is the sweep over the phase's visits |
| Life.Simulation.TryEat | src/main.rs:151-229 | try_eat keeps the population invariant, cell range and non-negative food; it only empties cells and never lowers food |
| Life.Simulation.Starve | src/main.rs:231-261 | starve keeps the population invariant, cell range and non-negative food; it only empties cells and never raises food; afterwards no lava cell is occupied |
| Life.Simulation.Reproduce | src/main.rs:263-332 | reproduce keeps the population invariant, cell range, food and the draws; it changes only empty cells, never lowers a counter and never gives birth to species N-1 |
| Life.Simulation.ChangeCanEat | src/main.rs:24-30 | one gate draw; above 0.95 every entry of the species' row is rerolled in order, and other rows are untouched |
| Life.Simulation.Rebalance | src/main.rs:76-92 | the lowest-indexed most populous species' carnivore fitness halves and the lowest-indexed least populous one's doubles, both when they coincide |
| Life.Simulation.Mutate | src/main.rs:75-99 | the fitness rebalance, then change_can_eat for every species in turn |
| Life.Simulation.RunPhase | src/main.rs:66-68 | the chosen sweep (try_eat, starve or reproduce) consumes SIZE + 1 shuffles and ends in that sweep's rule applied over its visits to the world it started from |
| Life.Simulation.Sweeps | src/main.rs:66-68 | try_eat runs on the world before the tick, starve on the world try_eat left and reproduce on the world starve left, each over the traversal of its own SIZE + 1 shuffles; the population invariant, cell range and non-negative food hold afterwards |
| Life.Simulation.RunSimulationOnce | src/main.rs:65-73 | the three sweeps chained in that order; then, with mutate, the rebalanced fitness, the can_eat rerolls and the decayed lava map, drawn from where reproduce left the stream; without mutate, traits and lava are untouched; lava never spreads and the invariants hold |

## Left out

- `main`: the window, the key and exit loop, frame timing and rendering are
  input and output. The Perlin-noise `lava_map` and the random `food_map` come
  from a foreign library, so both overlays are constructor inputs.
- `print_map` is standard output only.
- The internals of `ThreadRng` are not modelled. The draws and shuffles are
  injected as outcome sequences, and no claim about their distribution is made.
- `f32` arithmetic is modelled as exact real arithmetic, so rounding is not modelled.
- `i32` overflow of the counters is not modelled: `populations` and `food` are
  unbounded integers.
- The `name` and `color` fields of `Organism` are presentation only.
- The `look_functions` table and the commented-out code in `try_eat` are not
  modelled, because they have no effect.
- The `is_dead` vector of `reproduce` is computed but never used.
- `food_map` and `herbivore_fitness` never change, so they are immutable sequences
  rather than arrays.
- `can_eat` is one flattened `n × n` array rather than a row inside each
  organism.
- Life.Simulation.Init: its population invariant is stated for counters that
  start at 0, as the program's start-up leaves them. For other counters it
  states only that each counter rises by its head count.
