/**
 The simulation engine of LIFE: a size × size toroidal grid in which every
 cell is empty (-1) or holds one individual of a species 0..n-1, per-species
 population and food counters, a hazard ("lava") overlay, a food-availability
 overlay, and per-species traits. Each tick runs predation and foraging,
 starvation and reproduction, and, when asked, evolutionary pressure and lava
 decay. All randomness comes from an injected source. The class runs the
 phases in place, and each method is proved to follow the rules of module Rules
 (for init, the draws Drawn and the counters Tally).
 */
module Life {
  import opened Torus
  import opened Census
  import opened Rules

  /** Base counters plus, for each species, its head count among `cells`. */
  ghost function Tally(base: seq<int>, cells: seq<int>): (t: seq<int>)
    ensures |t| == |base|
  {
    var c := Counts(cells, |base|);
    seq(|base|, s requires 0 <= s < |base| => base[s] + c[s])
  }

  /** Counting one more cell holding species v adds one to v's counter and changes no other. */
  lemma TallySnoc(base: seq<int>, cells: seq<int>, v: int)
    requires 0 <= v < |base|
    ensures Tally(base, cells + [v]) == Tally(base, cells)[v := Tally(base, cells)[v] + 1]
  {
    CountsSnoc(cells, v, |base|);
  }

  /** reproduce's scan `for i in 1..n` over number_around (length n + 1): category n is never examined. */
  method ScanMax(numberAround: array<int>, n: nat) returns (maxSpecies: nat, max: int)
    requires 1 <= n && numberAround.Length == n + 1
    ensures (maxSpecies, max) == Winner(numberAround[..], n)
  {
    maxSpecies, max := 0, 0;
    var i := 1;
    while i < n
      invariant 1 <= i <= n
      invariant (maxSpecies, max) == Winner(numberAround[..], i)
    {
      if numberAround[i] > max {
        max := numberAround[i];
        maxSpecies := i;
      }
      i := i + 1;
    }
  }

  /** The first loop of `mutate`: the most and the least populous species, lowest index on ties. */
  method FindExtremes(populations: array<int>) returns (highest: nat, lowest: nat)
    requires populations.Length >= 1
    ensures IsFirstMax(populations[..], highest) && IsFirstMin(populations[..], lowest)
  {
    highest, lowest := 0, 0;
    var i := 0;
    while i < populations.Length
      invariant 0 <= i <= populations.Length
      invariant highest < populations.Length && lowest < populations.Length
      invariant highest < i || highest == 0
      invariant lowest < i || lowest == 0
      invariant forall j | 0 <= j < i :: populations[j] <= populations[highest]
      invariant forall j | 0 <= j < highest :: populations[j] < populations[highest]
      invariant forall j | 0 <= j < i :: populations[lowest] <= populations[j]
      invariant forall j | 0 <= j < lowest :: populations[lowest] < populations[j]
    {
      if populations[i] > populations[highest] {
        highest := i;
      }
      if populations[i] < populations[lowest] {
        lowest := i;
      }
      i := i + 1;
    }
  }

  class Simulation {
    /** SIZE: the grid has size rows and size columns. */
    const size: nat
    /** NUMBER_OF_ORGANISMS: the number of species. */
    const n: nat
    /** The occupancy grid `map`, row-major: -1 for an empty cell, otherwise the species living there. */
    const grid: array<int>
    /** The hazard overlay `lava_map`, row-major. */
    const lavaMap: array<bool>
    /** The food-availability overlay `food_map`, row-major. */
    const foodMap: seq<real>
    const populations: array<int>
    const food: array<int>
    /** organisms[s].carnivore_fitness */
    const carnivoreFitness: array<real>
    /** organisms[s].herbivore_fitness */
    const herbivoreFitness: seq<real>
    /** organisms[s].can_eat[t], row-major: entry Idx(s, t, n). */
    const canEat: array<bool>

    /** The injected random source: the outcomes of `gen::<f32>()`, repeated without end. */
    const reals: seq<Draw>
    /** The outcomes of `gen_range(0, n)`, repeated without end. */
    const ints: seq<int>
    /** The outcomes of shuffling the vector 0..size, repeated without end. */
    const shuffles: seq<seq<nat>>
    /** How many draws of each kind have been consumed. */
    var realPos: nat
    var intPos: nat
    var orderPos: nat

    /** The k-th `gen::<f32>()` draw. */
    function RealDraw(k: nat): Draw {
      Real(reals, k)
    }

    /** The k-th `gen_range(0, n)` draw. */
    function IntDraw(k: nat): (r: int)
      ensures SourceValid() ==> 0 <= r < n
    {
      Nth(ints, k, 0)
    }

    /** The k-th shuffle of 0..size. */
    function Order(k: nat): (r: seq<nat>)
      ensures SourceValid() ==> IsPermutation(r, size)
    {
      Nth(shuffles, k, [])
    }

    /** Shapes of the arrays and which of them are distinct (all fixed once built). */
    ghost predicate Shaped() {
      size >= 1 && n >= 1 &&
      grid.Length == Cells(size, size) && lavaMap.Length == Cells(size, size) && |foodMap| == Cells(size, size) &&
      populations.Length == n && food.Length == n &&
      carnivoreFitness.Length == n && |herbivoreFitness| == n && canEat.Length == Cells(n, n) &&
      grid != populations && grid != food && populations != food &&
      canEat != lavaMap
    }

    /** The shapes, a well-formed occupancy grid and food never negative. */
    ghost predicate Valid()
      reads grid, food
    {
      Shaped() && Occupancy(size, n, grid[..]) && Stocked(food[..])
    }

    /** The ranges of the injected draws: `gen_range(0, n)` lies in [0, n) and every shuffle is a permutation of 0..size. */
    ghost predicate SourceValid() {
      |ints| >= 1 && (forall k | 0 <= k < |ints| :: 0 <= ints[k] < n) &&
      |shuffles| >= 1 && (forall k | 0 <= k < |shuffles| :: IsPermutation(shuffles[k], size))
    }

    /** The population invariant: each species' counter is the number of cells it occupies. */
    ghost predicate Consistent()
      reads grid, populations
    {
      populations[..] == Counts(grid[..], n)
    }

    /** What the sweeps read and do not change, as a value. */
    ghost function Context(): Env
      reads canEat, carnivoreFitness, lavaMap
    {
      Env(size, n, canEat[..], carnivoreFitness[..], herbivoreFitness, foodMap, lavaMap[..], reals)
    }

    /** The state the sweeps change, as a value. */
    ghost function Now(): World
      reads this, grid, populations, food
    {
      World(grid[..], populations[..], food[..], realPos)
    }

    /**
     Builds the world as the program's start-up does: every cell of `map` holds
     0 and every counter is 0 (so the population invariant holds only after
     Init); the overlays, the traits and the random source are given.
     */
    constructor (size: nat, n: nat, lava: seq<bool>, foodAvailability: seq<real>,
                 carnivore: seq<real>, herbivore: seq<real>, eats: seq<bool>,
                 reals: seq<Draw>, ints: seq<int>, shuffles: seq<seq<nat>>)
      requires size >= 1 && n >= 1
      requires |lava| == Cells(size, size) && |foodAvailability| == Cells(size, size)
      requires |carnivore| == n && |herbivore| == n && |eats| == Cells(n, n)
      requires |ints| >= 1 && forall k | 0 <= k < |ints| :: 0 <= ints[k] < n
      requires |shuffles| >= 1 && forall k | 0 <= k < |shuffles| :: IsPermutation(shuffles[k], size)
      ensures Valid() && SourceValid()
      ensures this.size == size && this.n == n
      ensures this.reals == reals && this.ints == ints && this.shuffles == shuffles
      ensures realPos == 0 && intPos == 0 && orderPos == 0
      ensures forall k | 0 <= k < grid.Length :: grid[k] == 0
      ensures forall s | 0 <= s < n :: populations[s] == 0 && food[s] == 0
      ensures lavaMap[..] == lava && foodMap == foodAvailability
      ensures carnivoreFitness[..] == carnivore && herbivoreFitness == herbivore && canEat[..] == eats
      ensures fresh(grid) && fresh(lavaMap) && fresh(populations) && fresh(food)
      ensures fresh(carnivoreFitness) && fresh(canEat)
    {
      this.size := size;
      this.n := n;
      this.reals := reals;
      this.ints := ints;
      this.shuffles := shuffles;
      grid := new int[Cells(size, size)](_ => 0);
      lavaMap := new bool[Cells(size, size)](k requires 0 <= k < Cells(size, size) => lava[k]);
      foodMap := foodAvailability;
      populations := new int[n](_ => 0);
      food := new int[n](_ => 0);
      carnivoreFitness := new real[n](s requires 0 <= s < n => carnivore[s]);
      herbivoreFitness := herbivore;
      canEat := new bool[Cells(n, n)](k requires 0 <= k < Cells(n, n) => eats[k]);
      realPos, intPos, orderPos := 0, 0, 0;
      new;
      assert lavaMap[..] == lava;
      assert carnivoreFitness[..] == carnivore;
      assert canEat[..] == eats;
    }

    // ---------------------------------------------------------------------
    // The random source

    /** One `gen::<f32>()` draw. */
    method NextReal() returns (r: real)
      modifies this`realPos
      ensures realPos == old(realPos) + 1 && r == RealDraw(old(realPos))
      ensures 0.0 <= r < 1.0
    {
      r := RealDraw(realPos);
      realPos := realPos + 1;
    }

    /** One `gen_range(0, n)` draw. */
    method NextInt() returns (r: int)
      requires SourceValid()
      modifies this`intPos
      ensures intPos == old(intPos) + 1 && r == IntDraw(old(intPos))
      ensures 0 <= r < n
    {
      r := IntDraw(intPos);
      intPos := intPos + 1;
    }

    /** `(0..size).collect()` followed by `shuffle`. */
    method Shuffle() returns (order: seq<nat>)
      requires SourceValid()
      modifies this`orderPos
      ensures orderPos == old(orderPos) + 1 && order == Order(old(orderPos))
      ensures IsPermutation(order, size)
    {
      order := Order(orderPos);
      orderPos := orderPos + 1;
    }

    /** The column orders a phase that started at shuffle p0 draws for its first `rows` rows. */
    ghost function ColumnOrders(p0: nat, rows: nat): (cols: seq<seq<nat>>)
      ensures |cols| == rows
    {
      seq(rows, a requires 0 <= a < rows => Order(p0 + 1 + a))
    }

    /** Row a of a phase's column orders is the shuffle drawn a + 1 shuffles after the row order. */
    lemma ColumnOrdersAt(p0: nat, rows: nat, a: nat)
      requires a < rows
      ensures ColumnOrders(p0, rows)[a] == Order(p0 + 1 + a)
    {
    }

    /** The cells a phase that started at shuffle p0 visits, in visiting order. */
    ghost function PhaseVisits(p0: nat): seq<(nat, nat)>
      requires |Order(p0)| == size
    {
      Traversal(Order(p0), ColumnOrders(p0, size))
    }

    /** The cells a phase that started at shuffle p0 visits in its first i rows. */
    ghost function PhasePrefix(p0: nat, i: nat): seq<(nat, nat)>
      requires |Order(p0)| == size && i <= size
    {
      if i == 0 then [] else PhasePrefix(p0, i - 1) + Row(Order(p0)[i - 1], Order(p0 + i))
    }

    /** Row by row, the prefix is the traversal of the first i rows; at i = size it is the whole phase. */
    lemma {:induction false} PhasePrefixIsTraversal(p0: nat, i: nat)
      requires |Order(p0)| == size && i <= size
      ensures PhasePrefix(p0, i) == Traversal(Order(p0)[..i], ColumnOrders(p0, size)[..i])
      ensures i == size ==> PhasePrefix(p0, i) == PhaseVisits(p0)
    {
      if i > 0 {
        PhasePrefixIsTraversal(p0, i - 1);
        TraversalStep(Order(p0), ColumnOrders(p0, size), i - 1);
        ColumnOrdersAt(p0, size, i - 1);
      }
      assert Order(p0)[..size] == Order(p0) && ColumnOrders(p0, size)[..size] == ColumnOrders(p0, size);
    }

    /** The world after the first i rows of a phase that started at shuffle p0, row by row. */
    ghost function SweepRows(e: Env, phase: Phase, w: World, p0: nat, i: nat): (r: World)
      requires SourceValid() && Fits(e, w) && e.size == size && i <= size
      ensures Fits(e, r)
    {
      if i == 0 then w
      else
        var row := Row(Order(p0)[i - 1], Order(p0 + i));
        assert OnGrid(size, row);
        Sweep(e, phase, SweepRows(e, phase, w, p0, i - 1), row)
    }

    /** One more row of the row-by-row sweep sweeps that row's cells from where the previous rows left the world. */
    lemma SweepRowsNext(e: Env, phase: Phase, w: World, p0: nat, i: nat)
      requires SourceValid() && Fits(e, w) && e.size == size && i < size
      ensures OnGrid(size, Row(Order(p0)[i], Order(p0 + 1 + i)))
      ensures SweepRows(e, phase, w, p0, i + 1) == Sweep(e, phase, SweepRows(e, phase, w, p0, i), Row(Order(p0)[i], Order(p0 + 1 + i)))
    {
    }

    /** Sweeping row by row is sweeping the phase's visits in order. */
    lemma {:induction false} SweepRowsIsSweep(e: Env, phase: Phase, w: World, p0: nat, i: nat)
      requires SourceValid() && Fits(e, w) && e.size == size && i <= size
      ensures OnGrid(size, PhasePrefix(p0, i))
      ensures SweepRows(e, phase, w, p0, i) == Sweep(e, phase, w, PhasePrefix(p0, i))
    {
      if i > 0 {
        SweepRowsIsSweep(e, phase, w, p0, i - 1);
        SweepRowsNext(e, phase, w, p0, i - 1);
        SweepAppend(e, phase, w, PhasePrefix(p0, i - 1), Row(Order(p0)[i - 1], Order(p0 + i)));
      }
    }

    /** Sweeping a whole phase row by row is sweeping its visits in order. */
    lemma PhaseIsSweep(e: Env, phase: Phase, w: World, p0: nat)
      requires SourceValid() && Fits(e, w) && e.size == size
      ensures OnGrid(size, PhaseVisits(p0))
      ensures SweepRows(e, phase, w, p0, size) == Sweep(e, phase, w, PhaseVisits(p0))
    {
      SweepRowsIsSweep(e, phase, w, p0, size);
      PhasePrefixIsTraversal(p0, size);
    }

    /** Each phase visits every cell of the grid exactly once, and nothing off the grid. */
    lemma PhaseVisitsEachCellOnce(p0: nat)
      requires SourceValid()
      ensures OnGrid(size, PhaseVisits(p0))
      ensures forall y, x | 0 <= y < size && 0 <= x < size :: multiset(PhaseVisits(p0))[(y, x)] == 1
    {
      var cols := ColumnOrders(p0, size);
      forall a | 0 <= a < size
        ensures IsPermutation(cols[a], size)
      {
        ColumnOrdersAt(p0, size, a);
      }
      TraversalInRange(Order(p0), cols, size);
      forall y, x | 0 <= y < size && 0 <= x < size
        ensures multiset(PhaseVisits(p0))[(y, x)] == 1
      {
        VisitsEachCellOnce(Order(p0), cols, size, y, x);
      }
    }

    // ---------------------------------------------------------------------
    // init

    /** The species drawn for the first m cells when the draws start at p0. */
    ghost function Drawn(p0: nat, m: nat): (d: seq<int>)
      ensures |d| == m
    {
      seq(m, k requires 0 <= k < m => IntDraw(p0 + k))
    }

    /** Drawing cell c's species and counting it extends both init loop invariants by one cell. */
    lemma SeedStep(p0: nat, pops0: seq<int>, g: seq<int>, pp: seq<int>, c: nat)
      requires SourceValid() && c < |g| && |pops0| == n
      requires g[..c] == Drawn(p0, c) && pp == Tally(pops0, g[..c])
      ensures g[c := IntDraw(p0 + c)][..c + 1] == Drawn(p0, c + 1)
      ensures pp[IntDraw(p0 + c) := pp[IntDraw(p0 + c)] + 1] == Tally(pops0, g[c := IntDraw(p0 + c)][..c + 1])
    {
      var v := IntDraw(p0 + c);
      assert g[c := v][..c + 1] == g[..c] + [v];
      TallySnoc(pops0, g[..c], v);
    }

    /**
     One step of init's inner loop: cell c, the next cell in row-major order,
     gets the next drawn species, and that species is counted.
     */
    method Seed(c: nat, ghost p0: nat, ghost pops0: seq<int>)
      requires Valid() && SourceValid() && c < grid.Length && |pops0| == n
      requires intPos == p0 + c
      requires grid[..c] == Drawn(p0, c) && populations[..] == Tally(pops0, grid[..c])
      modifies this`intPos, grid, populations
      ensures Valid()
      ensures intPos == p0 + c + 1
      ensures grid[..c + 1] == Drawn(p0, c + 1) && populations[..] == Tally(pops0, grid[..c + 1])
    {
      ghost var g, pp := grid[..], populations[..];
      SeedStep(p0, pops0, g, pp, c);
      var v := NextInt();
      grid[c] := v;
      populations[grid[c]] := populations[grid[c]] + 1;
      assert grid[..] == g[c := v];
    }

    /** init's inner loop for row y: the cells of row y get the next size draws, each counted. */
    method SeedRow(y: nat, start: nat, ghost p0: nat, ghost pops0: seq<int>)
      requires Valid() && SourceValid() && y < size && start == Cells(y, size) && |pops0| == n
      requires start + size <= grid.Length
      requires intPos == p0 + start
      requires grid[..start] == Drawn(p0, start)
      requires populations[..] == Tally(pops0, grid[..start])
      modifies this`intPos, grid, populations
      ensures Valid()
      ensures intPos == p0 + start + size
      ensures grid[..start + size] == Drawn(p0, start + size)
      ensures populations[..] == Tally(pops0, grid[..start + size])
    {
      var x := 0;
      while x < size
        invariant 0 <= x <= size
        invariant Valid()
        invariant intPos == p0 + start + x
        invariant grid[..start + x] == Drawn(p0, start + x)
        invariant populations[..] == Tally(pops0, grid[..start + x])
      {
        var c := start + x;
        Seed(c, p0, pops0);
        x := x + 1;
      }
    }

    /**
     init: fills every cell, row by row, with a species drawn from 0..n-1 and
     counts it. From zeroed counters this establishes the population invariant
     with no cell empty, so the counters add up to the number of cells.
     */
    method Init()
      requires Valid() && SourceValid()
      modifies this`intPos, grid, populations
      ensures Valid()
      ensures intPos == old(intPos) + Cells(size, size)
      ensures grid[..] == Drawn(old(intPos), Cells(size, size))
      ensures forall k | 0 <= k < grid.Length :: 0 <= grid[k] < n
      ensures populations[..] == Tally(old(populations[..]), grid[..])
      ensures (forall s | 0 <= s < n :: old(populations[s]) == 0) ==>
                Consistent() && Sum(populations[..]) == Cells(size, size)
    {
      ghost var p0 := intPos;
      ghost var pops0 := populations[..];
      var start := 0;
      var y := 0;
      while y < size
        invariant 0 <= y <= size
        invariant start == Cells(y, size) && start <= Cells(size, size)
        invariant Valid()
        invariant intPos == p0 + start
        invariant grid[..start] == Drawn(p0, start)
        invariant populations[..] == Tally(pops0, grid[..start])
      {
        RowInside(y, size, size);
        SeedRow(y, start, p0, pops0);
        y := y + 1;
        start := start + size;
      }
      assert grid[..start] == grid[..];
      assert forall k | 0 <= k < grid.Length :: grid[k] == Drawn(p0, start)[k] == IntDraw(p0 + k);
      if forall s | 0 <= s < n :: old(populations[s]) == 0 {
        assert populations[..] == Counts(grid[..], n);
        assert -1 !in grid[..];
        HeadCountTotal(grid[..], n);
      }
    }

    // ---------------------------------------------------------------------
    // decay_lava

    /** One step of decay_lava's inner loop, at cell c, the next cell in row-major order. */
    method DecayCell(c: nat, ghost p0: nat, ghost lava0: seq<bool>)
      requires c < lavaMap.Length == |lava0|
      requires realPos == p0 + Hazards(lava0[..c]) && lavaMap[..] == Decayed(reals, p0, lava0, c)
      modifies this`realPos, lavaMap
      ensures realPos == p0 + Hazards(lava0[..c + 1]) && lavaMap[..] == Decayed(reals, p0, lava0, c + 1)
    {
      HazardsSnoc(lava0, c);
      DecayedAt(reals, p0, lava0, c, c);
      assert lavaMap[c] == lava0[c];
      ghost var l := lavaMap[..];
      if lavaMap[c] == true {
        var d := NextReal();
        lavaMap[c] := d < LAVA_KEEP;
        assert lavaMap[..] == l[c := lavaMap[c]];
      } else {
        assert l == l[c := false];
      }
    }

    /** decay_lava's inner loop for row y. */
    method DecayRow(y: nat, start: nat, ghost p0: nat, ghost lava0: seq<bool>)
      requires y < size && start == Cells(y, size) && start + size <= lavaMap.Length == |lava0|
      requires realPos == p0 + Hazards(lava0[..start]) && lavaMap[..] == Decayed(reals, p0, lava0, start)
      modifies this`realPos, lavaMap
      ensures realPos == p0 + Hazards(lava0[..start + size]) && lavaMap[..] == Decayed(reals, p0, lava0, start + size)
    {
      var x := 0;
      while x < size
        invariant 0 <= x <= size
        invariant realPos == p0 + Hazards(lava0[..start + x]) && lavaMap[..] == Decayed(reals, p0, lava0, start + x)
      {
        var c := Idx(y, x, size);
        DecayCell(c, p0, lava0);
        x := x + 1;
      }
    }

    /**
     decay_lava: visits the cells row by row; each lava cell draws a number and
     stays lava only when the draw is below LAVA_KEEP. Lava never appears, so
     the number of lava cells never grows; `map` and `populations` are not touched.
     */
    method DecayLava()
      requires Shaped()
      modifies this`realPos, lavaMap
      ensures realPos == old(realPos) + Hazards(old(lavaMap[..]))
      ensures lavaMap[..] == Decayed(reals, old(realPos), old(lavaMap[..]), lavaMap.Length)
      ensures forall k | 0 <= k < lavaMap.Length :: lavaMap[k] ==> old(lavaMap[k])
      ensures Hazards(lavaMap[..]) <= Hazards(old(lavaMap[..]))
    {
      ghost var p0 := realPos;
      ghost var lava0 := lavaMap[..];
      DecayRows(p0, lava0);
      DecayOnlyClears(reals, p0, lava0, lavaMap[..]);
    }

    /** decay_lava's outer loop: the rows from top to bottom. */
    method DecayRows(ghost p0: nat, ghost lava0: seq<bool>)
      requires Shaped() && realPos == p0 && lavaMap[..] == lava0
      modifies this`realPos, lavaMap
      ensures realPos == p0 + Hazards(lava0) && lavaMap[..] == Decayed(reals, p0, lava0, |lava0|)
    {
      var start := 0;
      var y := 0;
      while y < size
        invariant 0 <= y <= size
        invariant start == Cells(y, size) && start <= Cells(size, size)
        invariant realPos == p0 + Hazards(lava0[..start]) && lavaMap[..] == Decayed(reals, p0, lava0, start)
      {
        RowInside(y, size, size);
        DecayRow(y, start, p0, lava0);
        y := y + 1;
        start := start + size;
      }
      assert lava0[..start] == lava0;
    }

    // ---------------------------------------------------------------------
    // Predation and foraging (try_eat, look_*, can_eat)

    /**
     can_eat: Edible, then a draw below the fitness difference. The draw is
     taken only when the first three tests pass (`&&` stops at the first false).
     */
    method CanEat(me: nat, them: int) returns (b: bool)
      requires Shaped() && me < n && -1 <= them < n
      modifies this`realPos
      ensures realPos == old(realPos) + (if Edible(Context(), me, them) then 1 else 0)
      ensures b == (Edible(Context(), me, them) && RealDraw(old(realPos)) < carnivoreFitness[me] - carnivoreFitness[them])
    {
      b := false;
      if them != -1 && canEat[Idx(me, them, n)] && me != them {
        var d := NextReal();
        b := d < carnivoreFitness[me] - carnivoreFitness[them];
      }
    }

    /** The body the four look_* methods share, applied to the neighbour in cell k. */
    method Look(k: nat, me: nat, eaten: bool) returns (eatenOut: bool)
      requires Shaped() && Fits(Context(), Now()) && k < grid.Length && me < n
      modifies this`realPos, grid, food, populations
      ensures (Now(), eatenOut) == LookAt(Context(), old(Now()), k, me, eaten)
    {
      assert Resident(n, grid[k]);
      var them := grid[k];
      var can := CanEat(me, them);
      eatenOut := eaten;
      if can && eaten == false {
        grid[k] := -1;
        food[me] := food[me] + 1;
        populations[them] := populations[them] - 1;
        eatenOut := true;
      }
    }

    /** look_up: the neighbour in the row above, row size-1 above row 0. */
    method LookUp(x: nat, y: nat, me: nat, eaten: bool) returns (eatenOut: bool)
      requires Shaped() && Fits(Context(), Now()) && x < size && y < size && me < n
      modifies this`realPos, grid, food, populations
      ensures (Now(), eatenOut) == LookAt(Context(), old(Now()), Orthogonal(y, x, size)[0], me, eaten)
    {
      var yValue := y - 1;
      if yValue < 0 {
        yValue := size - 1;
      }
      eatenOut := Look(Idx(yValue, x, size), me, eaten);
    }

    /** look_right: the neighbour in the column to the right, column 0 right of column size-1. */
    method LookRight(x: nat, y: nat, me: nat, eaten: bool) returns (eatenOut: bool)
      requires Shaped() && Fits(Context(), Now()) && x < size && y < size && me < n
      modifies this`realPos, grid, food, populations
      ensures (Now(), eatenOut) == LookAt(Context(), old(Now()), Orthogonal(y, x, size)[1], me, eaten)
    {
      eatenOut := Look(Idx(y, (x + 1) % size, size), me, eaten);
    }

    /** look_down: the neighbour in the row below, row 0 below row size-1. */
    method LookDown(x: nat, y: nat, me: nat, eaten: bool) returns (eatenOut: bool)
      requires Shaped() && Fits(Context(), Now()) && x < size && y < size && me < n
      modifies this`realPos, grid, food, populations
      ensures (Now(), eatenOut) == LookAt(Context(), old(Now()), Orthogonal(y, x, size)[2], me, eaten)
    {
      eatenOut := Look(Idx((y + 1) % size, x, size), me, eaten);
    }

    /** look_left: the neighbour in the column to the left, column size-1 left of column 0. */
    method LookLeft(x: nat, y: nat, me: nat, eaten: bool) returns (eatenOut: bool)
      requires Shaped() && Fits(Context(), Now()) && x < size && y < size && me < n
      modifies this`realPos, grid, food, populations
      ensures (Now(), eatenOut) == LookAt(Context(), old(Now()), Orthogonal(y, x, size)[3], me, eaten)
    {
      var xValue := x - 1;
      if xValue < 0 {
        xValue := size - 1;
      }
      eatenOut := Look(Idx(y, xValue, size), me, eaten);
    }

    /** The four look_* calls of try_eat for the occupant me of (y, x): up, right, down, left. */
    method LookAround(y: nat, x: nat, me: nat) returns (eaten: bool)
      requires Shaped() && Fits(Context(), Now()) && y < size && x < size && me < n
      modifies this`realPos, grid, food, populations
      ensures (Now(), eaten) == Looks(Context(), old(Now()), Orthogonal(y, x, size), me, 4)
    {
      ghost var e, w0, ns := Context(), Now(), Orthogonal(y, x, size);
      eaten := false;
      eaten := LookUp(x, y, me, eaten);
      assert (Now(), eaten) == Looks(e, w0, ns, me, 1);
      eaten := LookRight(x, y, me, eaten);
      assert (Now(), eaten) == Looks(e, w0, ns, me, 2);
      eaten := LookDown(x, y, me, eaten);
      assert (Now(), eaten) == Looks(e, w0, ns, me, 3);
      eaten := LookLeft(x, y, me, eaten);
    }

    /** The foraging draws of try_eat for the occupant me of cell c, after its looks. */
    method ForageAt(c: nat, me: nat, eaten: bool)
      requires Shaped() && Fits(Context(), Now()) && c < grid.Length && me < n
      modifies this`realPos, food
      ensures Now() == Forage(Context(), old(Now()), c, me, eaten)
    {
      var d1 := NextReal();
      var foodThere := d1 > foodMap[c];
      var d2 := NextReal();
      var iEat := d2 < herbivoreFitness[me];
      if foodThere && iEat && eaten == false {
        food[me] := food[me] + 1;
      }
    }

    /** try_eat's loop body at (y, x). */
    method TryEatAt(y: nat, x: nat)
      requires Shaped() && Fits(Context(), Now()) && y < size && x < size
      modifies this`realPos, grid, food, populations
      ensures Now() == TryEatCell(Context(), old(Now()), y, x)
    {
      var c := Idx(y, x, size);
      assert Resident(n, grid[c]);
      var me := grid[c];
      if me == -1 {
        return;
      }
      var eaten := LookAround(y, x, me);
      ForageAt(c, me, eaten);
    }

    // ---------------------------------------------------------------------
    // Starvation (starve, die)

    /** die: a draw scaled by the species' population against its food. */
    method Die(me: nat) returns (b: bool)
      requires Shaped() && me < n
      modifies this`realPos
      ensures realPos == old(realPos) + 1
      ensures b == Dies(RealDraw(old(realPos)), populations[me], food[me])
    {
      var d := NextReal();
      b := d * (populations[me] as real) > food[me] as real;
    }

    /** starve's loop body at (y, x). */
    method StarveAt(y: nat, x: nat)
      requires Shaped() && Fits(Context(), Now()) && y < size && x < size
      modifies this`realPos, grid, food, populations
      ensures Now() == StarveCell(Context(), old(Now()), y, x)
    {
      var c := Idx(y, x, size);
      assert Resident(n, grid[c]);
      var me := grid[c];
      if me == -1 {
        return;
      }
      if lavaMap[c] == true {
        populations[me] := populations[me] - 1;
        grid[c] := -1;
      } else {
        var dies := Die(me);
        if dies {
          populations[me] := populations[me] - 1;
          grid[c] := -1;
        } else {
          food[me] := food[me] - 1;
          if food[me] < 0 {
            food[me] := 0;
          }
        }
      }
    }

    // ---------------------------------------------------------------------
    // Reproduction (reproduce)

    /** One `number_around[c] += 1` of reproduce, the increment for category cats[t]. */
    method Bump(numberAround: array<int>, c: int, ghost cats: seq<int>, ghost t: nat)
      requires t < |cats| && cats[t] == c && 0 <= c < numberAround.Length
      requires numberAround[..] == TallyUpTo(cats, t, numberAround.Length)
      modifies numberAround
      ensures numberAround[..] == TallyUpTo(cats, t + 1, numberAround.Length)
    {
      numberAround[c] := numberAround[c] + 1;
    }

    /** The wrapped neighbour rows and columns of (y, x), computed as reproduce computes them. */
    method MooreCoordinates(y: nat, x: nat) returns (yMin: nat, yPlus: nat, xMin: nat, xPlus: nat)
      requires y < size && x < size
      ensures yMin == Prev(y, size) && yPlus == Next(y, size) && xMin == Prev(x, size) && xPlus == Next(x, size)
    {
      xPlus := (x + 1) % size;
      yPlus := (y + 1) % size;
      xMin := x;
      if x == 0 {
        xMin := size - 1;
      } else {
        xMin := x - 1;
      }
      yMin := y;
      if y == 0 {
        yMin := size - 1;
      } else {
        yMin := y - 1;
      }
    }

    /** Four consecutive increments of number_around, for categories cats[t], ..., cats[t + 3] in turn. */
    method BumpFour(numberAround: array<int>, ghost cats: seq<int>, t: nat, c0: int, c1: int, c2: int, c3: int)
      requires t + 4 <= |cats| && cats[t] == c0 && cats[t + 1] == c1 && cats[t + 2] == c2 && cats[t + 3] == c3
      requires forall i | 0 <= i < |cats| :: 0 <= cats[i] < numberAround.Length
      requires numberAround[..] == TallyUpTo(cats, t, numberAround.Length)
      modifies numberAround
      ensures numberAround[..] == TallyUpTo(cats, t + 4, numberAround.Length)
    {
      Bump(numberAround, c0, cats, t);
      Bump(numberAround, c1, cats, t + 1);
      Bump(numberAround, c2, cats, t + 2);
      Bump(numberAround, c3, cats, t + 3);
    }

    /** The eight increments of number_around, for the categories c0, ..., c7 in turn. */
    method BumpAll(numberAround: array<int>, ghost cats: seq<int>, c0: int, c1: int, c2: int, c3: int,
                   c4: int, c5: int, c6: int, c7: int)
      requires cats == [c0, c1, c2, c3, c4, c5, c6, c7]
      requires forall t | 0 <= t < 8 :: 0 <= cats[t] < numberAround.Length
      requires numberAround[..] == TallyUpTo(cats, 0, numberAround.Length)
      modifies numberAround
      ensures numberAround[..] == TallyUpTo(cats, 8, numberAround.Length)
    {
      BumpFour(numberAround, cats, 0, c0, c1, c2, c3);
      BumpFour(numberAround, cats, 4, c4, c5, c6, c7);
    }

    /**
     The categories of the eight Moore neighbours of (y, x), in the order
     reproduce lists them, with the wrapped coordinates computed as the
     source computes them: 0 for an empty neighbour, s + 1 for species s.
     */
    method NeighbourCategories(y: nat, x: nat) returns (c0: int, c1: int, c2: int, c3: int, c4: int, c5: int, c6: int, c7: int)
      requires Shaped() && Occupancy(size, n, grid[..]) && y < size && x < size
      ensures [c0, c1, c2, c3, c4, c5, c6, c7] == Categories(size, grid[..], y, x)
      ensures forall t | 0 <= t < 8 :: 0 <= Categories(size, grid[..], y, x)[t] <= n
    {
      var yMin, yPlus, xMin, xPlus := MooreCoordinates(y, x);
      CategoriesAt(size, n, grid[..], y, x);
      c0 := grid[Idx(yMin, xMin, size)] + 1;
      c1 := grid[Idx(y, xMin, size)] + 1;
      c2 := grid[Idx(yPlus, xMin, size)] + 1;
      c3 := grid[Idx(yMin, x, size)] + 1;
      c4 := grid[Idx(yPlus, x, size)] + 1;
      c5 := grid[Idx(yMin, xPlus, size)] + 1;
      c6 := grid[Idx(y, xPlus, size)] + 1;
      c7 := grid[Idx(yPlus, xPlus, size)] + 1;
    }

    /** reproduce's number_around: n + 1 zeroed counters, then the eight increments. */
    method Tally8(y: nat, x: nat) returns (numberAround: array<int>)
      requires Shaped() && Occupancy(size, n, grid[..]) && y < size && x < size
      ensures fresh(numberAround)
      ensures numberAround[..] == TallyUpTo(Categories(size, grid[..], y, x), 8, n + 1)
    {
      ghost var cats := Categories(size, grid[..], y, x);
      var c0, c1, c2, c3, c4, c5, c6, c7 := NeighbourCategories(y, x);
      numberAround := new int[n + 1](_ => 0);
      assert numberAround[..] == TallyUpTo(cats, 0, n + 1);
      BumpAll(numberAround, cats, c0, c1, c2, c3, c4, c5, c6, c7);
    }

    /**
     The choice reproduce makes for the empty cell (y, x): number_around
     tallied over the eight neighbours, then the scan's pair (max_species, max).
     */
    method Choose(y: nat, x: nat, ghost w: World) returns (maxSpecies: nat, max: int)
      requires Shaped() && w == Now() && Occupancy(size, n, w.grid) && y < size && x < size
      ensures (maxSpecies, max) == Winner(TallyUpTo(Categories(size, w.grid, y, x), 8, n + 1), n)
    {
      var numberAround := Tally8(y, x);
      maxSpecies, max := ScanMax(numberAround, n);
    }

    /** reproduce's loop body at (y, x). */
    method ReproduceAt(y: nat, x: nat)
      requires Shaped() && Fits(Context(), Now()) && y < size && x < size
      modifies grid, populations
      ensures Now() == BirthCell(Context(), old(Now()), y, x)
    {
      var c := Idx(y, x, size);
      if grid[c] != -1 {
        return;
      }
      var maxSpecies, max := Choose(y, x, Now());
      if max >= REPRO_LIMIT {
        maxSpecies := maxSpecies - 1;
        Bear(c, maxSpecies);
      }
    }

    /** A newborn of species s in cell c, counted. */
    method Bear(c: nat, s: nat)
      requires Shaped() && c < grid.Length && s < n
      modifies grid, populations
      ensures Now() == Born(old(Now()), c, s)
    {
      grid[c] := s;
      populations[s] := populations[s] + 1;
    }

    // ---------------------------------------------------------------------
    // The three sweeps

    /** The loop body of the phase's sweep at cell (y, x). */
    method Visit(phase: Phase, y: nat, x: nat)
      requires Shaped() && Fits(Context(), Now()) && y < size && x < size
      modifies this`realPos, grid, food, populations
      ensures Now() == Step(Context(), phase, old(Now()), (y, x))
    {
      match phase {
        case Feeding => TryEatAt(y, x);
        case Starving => StarveAt(y, x);
        case Breeding => ReproduceAt(y, x);
      }
    }

    /** The phase's loop body at (y, x) extends the sweep so far by that visit. */
    method VisitNext(phase: Phase, y: nat, x: nat, ghost e: Env, ghost start: World, ghost visits: seq<(nat, nat)>)
      requires Shaped() && e == Context() && Fits(e, start) && OnGrid(size, visits) && e.size == size
      requires y < size && x < size && Now() == Sweep(e, phase, start, visits)
      modifies this`realPos, grid, food, populations
      ensures OnGrid(size, visits + [(y, x)]) && Now() == Sweep(e, phase, start, visits + [(y, x)])
    {
      SweepSnoc(e, phase, start, visits, (y, x));
      Visit(phase, y, x);
    }

    /**
     One row of a sweep, row i of a phase that started at shuffle p0: a freshly
     shuffled column order, then the phase's loop body at each of the row's
     cells in that order.
     */
    method SweepRow(phase: Phase, y: nat, ghost e: Env, ghost w0: World, ghost p0: nat, ghost i: nat)
      requires Shaped() && SourceValid() && e == Context() && Fits(e, w0) && e.size == size && i < size
      requires y == Order(p0)[i] && orderPos == p0 + 1 + i && Now() == SweepRows(e, phase, w0, p0, i)
      modifies this`realPos, this`orderPos, grid, food, populations
      ensures orderPos == p0 + 2 + i
      ensures Now() == SweepRows(e, phase, w0, p0, i + 1)
    {
      SweepRowsNext(e, phase, w0, p0, i);
      var rangeX := Shuffle();
      SweepColumns(phase, y, rangeX, e);
    }

    /** The inner loop of a sweep: the phase's loop body at (y, x) for each x of the column order, in order. */
    method SweepColumns(phase: Phase, y: nat, rangeX: seq<nat>, ghost e: Env)
      requires Shaped() && e == Context() && Fits(e, Now()) && e.size == size && y < size
      requires forall j | 0 <= j < |rangeX| :: rangeX[j] < size
      modifies this`realPos, grid, food, populations
      ensures OnGrid(size, Row(y, rangeX)) && Now() == Sweep(e, phase, old(Now()), Row(y, rangeX))
    {
      ghost var start := Now();
      ghost var visits: seq<(nat, nat)> := [];
      var j := 0;
      while j < |rangeX|
        invariant 0 <= j <= |rangeX|
        invariant visits == Row(y, rangeX[..j]) && OnGrid(size, visits)
        invariant Now() == Sweep(e, phase, start, visits)
      {
        var x := rangeX[j];
        VisitNext(phase, y, x, e, start, visits);
        RowSnoc(y, rangeX, j);
        visits := visits + [(y, x)];
        j := j + 1;
      }
      assert rangeX[..j] == rangeX;
    }

    /**
     The traversal shared by try_eat, starve and reproduce: the rows in a
     shuffled order and, within each row, the columns in a freshly shuffled
     order, running the phase's loop body at each cell.
     */
    method SweepCells(phase: Phase, ghost e: Env) returns (ghost visits: seq<(nat, nat)>)
      requires Shaped() && SourceValid() && e == Context() && Fits(e, Now())
      modifies this`realPos, this`orderPos, grid, food, populations
      ensures orderPos == old(orderPos) + size + 1
      ensures visits == PhaseVisits(old(orderPos)) && OnGrid(size, visits)
      ensures Now() == Sweep(e, phase, old(Now()), visits)
    {
      ghost var p0, w0 := orderPos, Now();
      var rangeY := Shuffle();
      SweepRowsInOrder(phase, rangeY, e, w0, p0);
      PhaseIsSweep(e, phase, w0, p0);
      visits := PhaseVisits(p0);
    }

    /** The outer loop of a sweep: one row of the row order after another. */
    method SweepRowsInOrder(phase: Phase, rangeY: seq<nat>, ghost e: Env, ghost w0: World, ghost p0: nat)
      requires Shaped() && SourceValid() && e == Context() && Fits(e, w0) && e.size == size
      requires rangeY == Order(p0) && orderPos == p0 + 1 && Now() == w0
      modifies this`realPos, this`orderPos, grid, food, populations
      ensures orderPos == p0 + 1 + size
      ensures Now() == SweepRows(e, phase, w0, p0, size)
    {
      var i := 0;
      while i < size
        invariant 0 <= i <= size
        invariant orderPos == p0 + 1 + i
        invariant Now() == SweepRows(e, phase, w0, p0, i)
      {
        SweepRow(phase, rangeY[i], e, w0, p0, i);
        i := i + 1;
      }
    }

    /**
     try_eat: the predation and foraging sweep. It keeps the population
     invariant and the cell range, only empties cells and never lowers food.
     */
    method TryEat() returns (ghost visits: seq<(nat, nat)>)
      requires Valid() && Consistent() && SourceValid()
      modifies this`realPos, this`orderPos, grid, food, populations
      ensures Valid() && Consistent()
      ensures orderPos == old(orderPos) + size + 1 && visits == PhaseVisits(old(orderPos)) && OnGrid(size, visits)
      ensures Now() == Sweep(Context(), Feeding, old(Now()), visits)
      ensures Emptying(old(Now()), Now()) && FoodUp(old(Now()), Now())
    {
      visits := SweepCells(Feeding, Context());
      EatSweepPreserves(Context(), old(Now()), visits);
    }

    /**
     starve: the starvation sweep. It keeps the population invariant, the cell
     range and food non-negative, only empties cells and never raises food;
     afterwards no lava cell is occupied.
     */
    method Starve() returns (ghost visits: seq<(nat, nat)>)
      requires Valid() && Consistent() && SourceValid()
      modifies this`realPos, this`orderPos, grid, food, populations
      ensures Valid() && Consistent()
      ensures orderPos == old(orderPos) + size + 1 && visits == PhaseVisits(old(orderPos)) && OnGrid(size, visits)
      ensures Now() == Sweep(Context(), Starving, old(Now()), visits)
      ensures Emptying(old(Now()), Now()) && FoodDown(old(Now()), Now())
      ensures forall y, x | 0 <= y < size && 0 <= x < size :: lavaMap[Idx(y, x, size)] ==> grid[Idx(y, x, size)] == -1
    {
      ghost var p0 := orderPos;
      visits := SweepCells(Starving, Context());
      StarveSweepPreserves(Context(), old(Now()), visits);
      StarveSweepClearsLava(Context(), old(Now()), visits);
      PhaseVisitsEachCellOnce(p0);
      forall y, x | 0 <= y < size && 0 <= x < size
        ensures lavaMap[Idx(y, x, size)] ==> grid[Idx(y, x, size)] == -1
      {
        assert (y, x) in multiset(visits);
        var a :| 0 <= a < |visits| && visits[a] == (y, x);
      }
    }

    /**
     reproduce: the birth sweep. It keeps the population invariant, the cell
     range, food and the draws, changes only empty cells, never lowers a
     counter, and never gives birth to species n - 1.
     */
    method Reproduce() returns (ghost visits: seq<(nat, nat)>)
      requires Valid() && Consistent() && SourceValid()
      modifies this`realPos, this`orderPos, grid, food, populations
      ensures Valid() && Consistent()
      ensures realPos == old(realPos) && food[..] == old(food[..])
      ensures orderPos == old(orderPos) + size + 1 && visits == PhaseVisits(old(orderPos)) && OnGrid(size, visits)
      ensures Now() == Sweep(Context(), Breeding, old(Now()), visits)
      ensures OnlyBirths(n, old(Now()), Now()) && PopulationsUp(old(Now()), Now())
      ensures populations[n - 1] == old(populations[n - 1])
    {
      visits := SweepCells(Breeding, Context());
      BirthSweepPreserves(Context(), old(Now()), visits);
    }

    // ---------------------------------------------------------------------
    // Evolutionary pressure (mutate, change_can_eat)

    /**
     change_can_eat for species i: one draw decides whether the row is rerolled;
     if it is, each entry j, in order, draws and becomes true below EAT_CHANCE
     (the entry for i itself included). Other rows are untouched.
     */
    method ChangeCanEat(i: nat)
      requires Shaped() && i < n
      modifies this`realPos, canEat
      ensures canEat[..] == RerollRow(reals, n, old(canEat[..]), i, old(realPos))
      ensures realPos == old(realPos) + 1 + (if RealDraw(old(realPos)) > REROLL_GATE then n else 0)
    {
      ghost var before := canEat[..];
      var gate := NextReal();
      if gate > REROLL_GATE {
        RowInside(i, n, n);
        ghost var base := Cells(i, n);
        var j := 0;
        while j < n
          invariant 0 <= j <= n
          invariant realPos == old(realPos) + 1 + j
          invariant forall k | 0 <= k < canEat.Length ::
                      canEat[k] == if base <= k < base + j then RealDraw(old(realPos) + 1 + (k - base)) < EAT_CHANCE else before[k]
        {
          var d := NextReal();
          canEat[Idx(i, j, n)] := d < EAT_CHANCE;
          j := j + 1;
        }
        assert canEat[..] == RerollRow(reals, n, before, i, old(realPos));
      }
    }

    /**
     mutate: halves the carnivore fitness of the first most populous species,
     doubles that of the first least populous one (both, in that order, when
     they coincide), then runs change_can_eat for every species in turn.
     */
    method Mutate()
      requires Shaped()
      modifies this`realPos, carnivoreFitness, canEat
      ensures forall i | 0 <= i < n ::
                carnivoreFitness[i] == old(carnivoreFitness[i])
                  * (if IsFirstMax(populations[..], i) then 0.5 else 1.0)
                  * (if IsFirstMin(populations[..], i) then 2.0 else 1.0)
      ensures realPos == RerollDraw(reals, n, old(realPos), n)
      ensures canEat[..] == Rerolls(reals, n, old(canEat[..]), old(realPos), n)
    {
      Rebalance();
      ghost var p0 := realPos;
      ghost var fitness := carnivoreFitness[..];
      ghost var eats := canEat[..];
      var i := 0;
      while i < n
        invariant 0 <= i <= n
        invariant carnivoreFitness[..] == fitness
        invariant realPos == RerollDraw(reals, n, p0, i)
        invariant canEat[..] == Rerolls(reals, n, eats, p0, i)
      {
        ChangeCanEat(i);
        i := i + 1;
      }
    }

    /** The fitness half of mutate: the first most populous species' carnivore fitness halves, the first least populous one's doubles. */
    method Rebalance()
      requires Shaped()
      modifies carnivoreFitness
      ensures forall i | 0 <= i < n ::
                carnivoreFitness[i] == old(carnivoreFitness[i])
                  * (if IsFirstMax(populations[..], i) then 0.5 else 1.0)
                  * (if IsFirstMin(populations[..], i) then 2.0 else 1.0)
    {
      var highest, lowest := FindExtremes(populations);
      carnivoreFitness[highest] := carnivoreFitness[highest] / 2.0;
      carnivoreFitness[lowest] := carnivoreFitness[lowest] * 2.0;
      forall i | 0 <= i < n
        ensures IsFirstMax(populations[..], i) <==> i == highest
        ensures IsFirstMin(populations[..], i) <==> i == lowest
      {
        if IsFirstMax(populations[..], i) {
          FirstMaxUnique(populations[..], i, highest);
        }
        if IsFirstMin(populations[..], i) {
          FirstMinUnique(populations[..], i, lowest);
        }
      }
    }

    // ---------------------------------------------------------------------
    // One tick

    /**
     run_simulation_once: try_eat, starve, reproduce, and then, when mutate is
     set, mutate and decay_lava. The ghost results are the worlds after try_eat,
     starve and reproduce: each sweep starts from the world the previous one
     left, over the traversal drawn at the next shuffle, and mutate and
     decay_lava start from the draw position reproduce left. The population
     invariant, the cell range and food never negative hold after the tick;
     lava never spreads.
     */
    method RunSimulationOnce(mutate: bool) returns (ghost fed: World, ghost starved: World, ghost bred: World)
      requires Valid() && Consistent() && SourceValid()
      modifies this`realPos, this`orderPos, grid, food, populations, carnivoreFitness, canEat, lavaMap
      ensures Valid() && Consistent()
      ensures orderPos == old(orderPos) + 3 * (size + 1)
      ensures OnGrid(size, PhaseVisits(old(orderPos))) && OnGrid(size, PhaseVisits(old(orderPos) + size + 1))
      ensures OnGrid(size, PhaseVisits(old(orderPos) + 2 * (size + 1)))
      ensures fed == Sweep(old(Context()), Feeding, old(Now()), PhaseVisits(old(orderPos)))
      ensures starved == Sweep(old(Context()), Starving, fed, PhaseVisits(old(orderPos) + size + 1))
      ensures bred == Sweep(old(Context()), Breeding, starved, PhaseVisits(old(orderPos) + 2 * (size + 1)))
      ensures grid[..] == bred.grid && populations[..] == bred.populations && food[..] == bred.food
      ensures !mutate ==> realPos == bred.draws && unchanged(carnivoreFitness, canEat, lavaMap)
      ensures mutate ==>
                (forall i | 0 <= i < n ::
                   carnivoreFitness[i] == old(carnivoreFitness[i])
                     * (if IsFirstMax(populations[..], i) then 0.5 else 1.0)
                     * (if IsFirstMin(populations[..], i) then 2.0 else 1.0)) &&
                canEat[..] == Rerolls(reals, n, old(canEat[..]), bred.draws, n) &&
                lavaMap[..] == Decayed(reals, RerollDraw(reals, n, bred.draws, n), old(lavaMap[..]), lavaMap.Length) &&
                realPos == RerollDraw(reals, n, bred.draws, n) + Hazards(old(lavaMap[..]))
      ensures forall k | 0 <= k < lavaMap.Length :: lavaMap[k] ==> old(lavaMap[k])
      ensures Hazards(lavaMap[..]) <= Hazards(old(lavaMap[..]))
    {
      fed, starved := Sweeps();
      bred := Now();
      if mutate {
        Mutate();
        DecayLava();
      }
    }

    /**
     The three sweeps of a tick in order: try_eat from the world as it was,
     starve from the world try_eat left, reproduce from the world starve left,
     each over its own shuffled traversal.
     */
    method Sweeps() returns (ghost fed: World, ghost starved: World)
      requires Valid() && Consistent() && SourceValid()
      modifies this`realPos, this`orderPos, grid, food, populations
      ensures Valid() && Consistent()
      ensures orderPos == old(orderPos) + 3 * (size + 1)
      ensures OnGrid(size, PhaseVisits(old(orderPos))) && OnGrid(size, PhaseVisits(old(orderPos) + size + 1))
      ensures OnGrid(size, PhaseVisits(old(orderPos) + 2 * (size + 1)))
      ensures fed == Sweep(old(Context()), Feeding, old(Now()), PhaseVisits(old(orderPos)))
      ensures starved == Sweep(old(Context()), Starving, fed, PhaseVisits(old(orderPos) + size + 1))
      ensures Now() == Sweep(old(Context()), Breeding, starved, PhaseVisits(old(orderPos) + 2 * (size + 1)))
    {
      ghost var p0, e := orderPos, Context();
      RunPhase(Feeding, p0, e);
      fed := Now();
      RunPhase(Starving, p0 + size + 1, e);
      starved := Now();
      RunPhase(Breeding, p0 + 2 * (size + 1), e);
    }

    /**
     One sweep of a tick, dispatched to try_eat, starve or reproduce, with the
     shuffle cursor p0 and the context e it starts from.
     */
    method RunPhase(phase: Phase, ghost p0: nat, ghost e: Env)
      requires Valid() && Consistent() && SourceValid() && orderPos == p0 && e == Context()
      modifies this`realPos, this`orderPos, grid, food, populations
      ensures Valid() && Consistent() && e == Context()
      ensures orderPos == p0 + size + 1 && OnGrid(size, PhaseVisits(p0))
      ensures Now() == Sweep(e, phase, old(Now()), PhaseVisits(p0))
    {
      ghost var visits;
      match phase {
        case Feeding => visits := TryEat();
        case Starving => visits := Starve();
        case Breeding => visits := Reproduce();
      }
    }
  }
}
