/**
 The rules of one tick, cell by cell, as functions on values: what a visit of
 try_eat, starve and reproduce does to the occupancy grid, the per-species
 counters and the position in the stream of `gen::<f32>()` draws, and what
 decay_lava and the rerolls of mutate consume. The class in module Life runs
 these rules in place; the lemmas here say what they keep and what they promise.
 */
module Rules {
  import opened Torus
  import opened Census

  /** A birth needs at least this many neighbours of the winning species (REPRO_LIMIT). */
  const REPRO_LIMIT: int := 2
  /** A lava cell stays lava when its draw is below this. */
  const LAVA_KEEP: real := 0.95
  /** change_can_eat rerolls a species' can_eat row only when its draw is above this. */
  const REROLL_GATE: real := 0.95
  /** A rerolled can_eat entry is true when its draw is below this. */
  const EAT_CHANCE: real := 0.65

  /** A `gen::<f32>()` draw: a number in [0, 1). */
  type Draw = r: real | 0.0 <= r < 1.0

  /**
   Outcome k of an injected random source given by its outcomes s, which
   repeat without end; a source with no outcomes yields d every time.
   */
  function Nth<T>(s: seq<T>, k: nat, d: T): (r: T)
    ensures r == d || r in s
  {
    if |s| == 0 then d else s[k % |s|]
  }

  /** Draw k of a stream of `gen::<f32>()` draws. */
  function Real(reals: seq<Draw>, k: nat): Draw {
    Nth(reals, k, 0.0)
  }

  /**
   What a sweep reads but does not change: the grid side `size`, the number
   of species `n`, the traits (can_eat flattened row-major, n × n), the two
   overlays (row-major, size × size) and the stream of `gen::<f32>()` draws.
   */
  datatype Env = Env(size: nat, n: nat, canEat: seq<bool>, carnivore: seq<real>, herbivore: seq<real>,
                     foodMap: seq<real>, lava: seq<bool>, reals: seq<Draw>)

  /** The sequences of e have the shapes its size and n call for. */
  ghost predicate EnvOk(e: Env) {
    e.size >= 1 && e.n >= 1 &&
    |e.canEat| == Cells(e.n, e.n) && |e.carnivore| == e.n && |e.herbivore| == e.n &&
    |e.foodMap| == Cells(e.size, e.size) && |e.lava| == Cells(e.size, e.size)
  }

  /**
   The part of the simulation that the three sweeps change, as a value: `map`,
   `populations`, `food`, and how many `gen::<f32>()` draws have been consumed.
   */
  datatype World = World(grid: seq<int>, populations: seq<int>, food: seq<int>, draws: nat)

  /** The three sweeps of a tick that visit every cell: try_eat, starve and reproduce. */
  datatype Phase = Feeding | Starving | Breeding

  /** A cell's content: empty (-1) or one of the species 0..n-1. */
  ghost predicate Resident(n: nat, s: int) {
    -1 <= s < n
  }

  /**
   g covers a size × size grid and every cell is Resident. The quantifier
   fires only on Resident terms, so a proof names the cell it needs.
   */
  ghost predicate Occupancy(size: nat, n: nat, g: seq<int>) {
    |g| == Cells(size, size) && forall k {:trigger Resident(n, g[k])} | 0 <= k < |g| :: Resident(n, g[k])
  }

  /** The content of cell c of a well-formed world, with its range. */
  ghost function Occupant(e: Env, w: World, c: nat): (s: int)
    requires Occupancy(e.size, e.n, w.grid) && c < |w.grid|
    ensures -1 <= s < e.n && s == w.grid[c]
  {
    assert Resident(e.n, w.grid[c]);
    w.grid[c]
  }

  /** w has the shapes of e and a well-formed occupancy grid. */
  ghost predicate Fits(e: Env, w: World) {
    EnvOk(e) && Occupancy(e.size, e.n, w.grid) && |w.populations| == e.n && |w.food| == e.n
  }

  /** The population invariant: each species' counter is the number of cells it occupies. */
  ghost predicate Counted(e: Env, w: World) {
    w.populations == Counts(w.grid, e.n)
  }

  /** No species' food is negative. */
  ghost predicate Stocked(food: seq<int>) {
    forall s | 0 <= s < |food| :: food[s] >= 0
  }

  /** From w to r cells only become empty. */
  ghost predicate Emptying(w: World, r: World) {
    |r.grid| == |w.grid| && forall k | 0 <= k < |w.grid| :: r.grid[k] == w.grid[k] || r.grid[k] == -1
  }

  /** From w to r no species' food decreases. */
  ghost predicate FoodUp(w: World, r: World) {
    |r.food| == |w.food| && forall s | 0 <= s < |w.food| :: r.food[s] >= w.food[s]
  }

  /** From w to r no species' food increases. */
  ghost predicate FoodDown(w: World, r: World) {
    |r.food| == |w.food| && forall s | 0 <= s < |w.food| :: r.food[s] <= w.food[s]
  }

  /** From w to r no species' counter decreases. */
  ghost predicate PopulationsUp(w: World, r: World) {
    |r.populations| == |w.populations| && forall s | 0 <= s < |w.populations| :: r.populations[s] >= w.populations[s]
  }

  // -----------------------------------------------------------------------
  // Predation and foraging (try_eat, look_*, can_eat)

  /** organisms[me].can_eat[them]. */
  ghost function EatsEntry(e: Env, me: nat, them: nat): bool
    requires EnvOk(e) && me < e.n && them < e.n
  {
    e.canEat[Idx(me, them, e.n)]
  }

  /** The predation test's non-random part: an occupied neighbour, of another species, that me may eat. */
  ghost predicate Edible(e: Env, me: int, them: int)
    requires EnvOk(e)
    ensures Edible(e, me, them) ==> 0 <= them < e.n && them != me
  {
    them != -1 && 0 <= me < e.n && 0 <= them < e.n && EatsEntry(e, me, them) && me != them
  }

  /** A neighbour holding them is one that me may eat and that is weaker than me. */
  ghost predicate Prey(e: Env, me: int, them: int)
    requires EnvOk(e)
    ensures Prey(e, me, them) ==> Edible(e, me, them) && e.carnivore[them] < e.carnivore[me]
  {
    Edible(e, me, them) && e.carnivore[me] > e.carnivore[them]
  }

  /**
   One look_* step for the predator species me towards cell k. The predation
   test runs, and draws when the neighbour is Edible, even when me has already
   eaten, because `can_eat(..)` is evaluated before `*eaten == false`; the
   neighbour is eaten only when the test passes and nothing was eaten yet.
   */
  ghost function LookAt(e: Env, w: World, k: nat, me: nat, eaten: bool): (r: (World, bool))
    requires Fits(e, w) && k < |w.grid| && me < e.n
    ensures Fits(e, r.0)
  {
    var them := Occupant(e, w, k);
    var edible := Edible(e, me, them);
    var w1 := w.(draws := w.draws + if edible then 1 else 0);
    if edible && Real(e.reals, w.draws) < e.carnivore[me] - e.carnivore[them] && !eaten then
      (w1.(grid := w.grid[k := -1], food := w.food[me := w.food[me] + 1],
           populations := w.populations[them := w.populations[them] - 1]), true)
    else
      (w1, eaten)
  }

  /** The first t looks of predator me at the neighbours ns, in order, starting with nothing eaten. */
  ghost function Looks(e: Env, w: World, ns: seq<nat>, me: nat, t: nat): (r: (World, bool))
    requires Fits(e, w) && me < e.n && t <= |ns|
    requires forall i | 0 <= i < |ns| :: ns[i] < |w.grid|
    ensures Fits(e, r.0) && |r.0.grid| == |w.grid|
  {
    if t == 0 then (w, false)
    else
      var p := Looks(e, w, ns, me, t - 1);
      LookAt(e, p.0, ns[t - 1], me, p.1)
  }

  /**
   One visit of try_eat at (y, x). An empty cell is left as it is. Otherwise
   its occupant me looks up, right, down and left; then two draws decide
   whether food is there and whether me eats it, which credits one food only
   when nothing was eaten.
   */
  ghost function TryEatCell(e: Env, w: World, y: nat, x: nat): (r: World)
    requires Fits(e, w) && y < e.size && x < e.size
    ensures Fits(e, r)
  {
    var c := Idx(y, x, e.size);
    var me := Occupant(e, w, c);
    if me == -1 then w
    else
      var looked := Looks(e, w, Orthogonal(y, x, e.size), me, 4);
      Forage(e, looked.0, c, me, looked.1)
  }

  /**
   The foraging step of try_eat for the occupant me of cell c: two draws, and
   one food when the first exceeds the cell's food availability, the second is
   below me's herbivore fitness, and nothing was eaten.
   */
  ghost function Forage(e: Env, v: World, c: nat, me: nat, eaten: bool): (r: World)
    requires Fits(e, v) && c < |v.grid| && me < e.n
    ensures Fits(e, r)
  {
    var forage := Real(e.reals, v.draws) > e.foodMap[c] && Real(e.reals, v.draws + 1) < e.herbivore[me] && !eaten;
    v.(food := if forage then v.food[me := v.food[me] + 1] else v.food, draws := v.draws + 2)
  }

  /**
   Once something has been eaten a look changes nothing but the draw
   position, which still advances when the neighbour is Edible: the test is
   run before the `eaten` flag is consulted.
   */
  lemma LookAfterMeal(e: Env, w: World, k: nat, me: nat)
    requires Fits(e, w) && k < |w.grid| && me < e.n
    ensures LookAt(e, w, k, me, true) == (w.(draws := w.draws + if Edible(e, me, w.grid[k]) then 1 else 0), true)
  {
  }

  /**
   A look that eats needs Prey: an occupied neighbour of another species that
   me may eat, and whose carnivore fitness is below me's, since a draw in
   [0, 1) is never below a difference that is zero or negative.
   */
  lemma LookEatsOnlyPrey(e: Env, w: World, k: nat, me: nat, eaten: bool)
    requires Fits(e, w) && k < |w.grid| && me < e.n
    ensures var r := LookAt(e, w, k, me, eaten);
      r.1 && !eaten ==> Prey(e, me, w.grid[k]) && r.0.grid == w.grid[k := -1]
  {
    var them := w.grid[k];
    if Edible(e, me, them) {
      assert Real(e.reals, w.draws) >= 0.0;
    }
  }

  /**
   The looks so far, relative to the world w0 before them, ate nothing and
   left grid, counters and food as they were; or ate exactly one of the
   neighbours ns[..t], a Prey, emptying its cell, taking one from its species'
   counter and giving me one food.
   */
  ghost predicate Meal(e: Env, w0: World, me: nat, ns: seq<nat>, t: nat, w: World, eaten: bool)
    requires Fits(e, w0) && me < e.n && t <= |ns|
    requires forall i | 0 <= i < |ns| :: ns[i] < |w0.grid|
  {
    if eaten then
      exists i | 0 <= i < t ::
        Prey(e, me, w0.grid[ns[i]]) && w.grid == w0.grid[ns[i] := -1] &&
        w.food == w0.food[me := w0.food[me] + 1] &&
        w.populations == w0.populations[w0.grid[ns[i]] := w0.populations[w0.grid[ns[i]]] - 1]
    else
      w.grid == w0.grid && w.food == w0.food && w.populations == w0.populations
  }

  /** After any number of looks the predator has had at most one meal, of Prey. */
  lemma {:induction false} LooksMeal(e: Env, w: World, ns: seq<nat>, me: nat, t: nat)
    requires Fits(e, w) && me < e.n && t <= |ns|
    requires forall i | 0 <= i < |ns| :: ns[i] < |w.grid|
    ensures var r := Looks(e, w, ns, me, t); Meal(e, w, me, ns, t, r.0, r.1) && r.0.draws >= w.draws
  {
    if t > 0 {
      LooksMeal(e, w, ns, me, t - 1);
      var p := Looks(e, w, ns, me, t - 1);
      var r := LookAt(e, p.0, ns[t - 1], me, p.1);
      if p.1 {
        LookAfterMeal(e, p.0, ns[t - 1], me);
        var i :| 0 <= i < t - 1 && Prey(e, me, w.grid[ns[i]]) && p.0.grid == w.grid[ns[i] := -1] &&
                 p.0.food == w.food[me := w.food[me] + 1] &&
                 p.0.populations == w.populations[w.grid[ns[i]] := w.populations[w.grid[ns[i]]] - 1];
        assert Meal(e, w, me, ns, t, r.0, r.1);
      } else if r.1 {
        LookEatsOnlyPrey(e, p.0, ns[t - 1], me, false);
        assert Meal(e, w, me, ns, t, r.0, r.1);
      }
    }
  }

  /**
   try_eat's visit of (y, x) when the cell holds me: at most one cell is
   emptied, an orthogonal neighbour holding Prey, and then me's species gains
   exactly one food from it; otherwise the grid is unchanged and me gains one
   food exactly when the food draw exceeds the cell's food availability and
   the hunger draw is below me's herbivore fitness. Either way me's food rises
   by at most one and no other species' food changes.
   */
  lemma TryEatCellMeal(e: Env, w: World, y: nat, x: nat)
    requires Fits(e, w) && y < e.size && x < e.size
    requires w.grid[Idx(y, x, e.size)] != -1
    ensures var r := TryEatCell(e, w, y, x); var me := Occupant(e, w, Idx(y, x, e.size));
      var ns := Orthogonal(y, x, e.size);
      r.draws >= w.draws + 2 &&
      (r.grid == w.grid ||
       exists t | 0 <= t < 4 :: Prey(e, me, w.grid[ns[t]]) && r.grid == w.grid[ns[t] := -1]) &&
      (forall s | 0 <= s < e.n && s != me :: r.food[s] == w.food[s]) &&
      w.food[me] <= r.food[me] <= w.food[me] + 1 &&
      (r.grid != w.grid ==> r.food[me] == w.food[me] + 1) &&
      (r.grid == w.grid ==>
         r.food[me] == w.food[me] +
           (if Real(e.reals, r.draws - 2) > e.foodMap[Idx(y, x, e.size)] && Real(e.reals, r.draws - 1) < e.herbivore[me] then 1 else 0))
  {
    var me := Occupant(e, w, Idx(y, x, e.size));
    var ns := Orthogonal(y, x, e.size);
    LooksMeal(e, w, ns, me, 4);
    var looked := Looks(e, w, ns, me, 4);
    if looked.1 {
      var t :| 0 <= t < 4 && Prey(e, me, w.grid[ns[t]]) && looked.0.grid == w.grid[ns[t] := -1] &&
               looked.0.food == w.food[me := w.food[me] + 1];
      assert looked.0.grid[ns[t]] != w.grid[ns[t]];
    }
  }

  /**
   A look keeps the population invariant and the food stock non-negative,
   only ever empties a cell, and never lowers any species' food.
   */
  lemma LookAtPreserves(e: Env, w: World, k: nat, me: nat, eaten: bool)
    requires Fits(e, w) && k < |w.grid| && me < e.n
    ensures var r := LookAt(e, w, k, me, eaten).0;
      (Counted(e, w) ==> Counted(e, r)) && (Stocked(w.food) ==> Stocked(r.food)) &&
      Emptying(w, r) && FoodUp(w, r)
  {
    var r := LookAt(e, w, k, me, eaten).0;
    if r.grid != w.grid {
      CountsClear(w.grid, k, e.n);
    }
  }

  /** Any number of looks keep the population invariant and the food stock, only empty cells and never lower food. */
  lemma {:induction false} LooksPreserve(e: Env, w: World, ns: seq<nat>, me: nat, t: nat)
    requires Fits(e, w) && me < e.n && t <= |ns|
    requires forall i | 0 <= i < |ns| :: ns[i] < |w.grid|
    ensures var r := Looks(e, w, ns, me, t).0;
      (Counted(e, w) ==> Counted(e, r)) && (Stocked(w.food) ==> Stocked(r.food)) &&
      Emptying(w, r) && FoodUp(w, r)
  {
    if t > 0 {
      LooksPreserve(e, w, ns, me, t - 1);
      var p := Looks(e, w, ns, me, t - 1);
      LookAtPreserves(e, p.0, ns[t - 1], me, p.1);
    }
  }

  /** try_eat's visit of one cell keeps the population invariant and the food stock, only empties cells and never lowers food. */
  lemma TryEatCellPreserves(e: Env, w: World, y: nat, x: nat)
    requires Fits(e, w) && y < e.size && x < e.size
    ensures var r := TryEatCell(e, w, y, x);
      (Counted(e, w) ==> Counted(e, r)) && (Stocked(w.food) ==> Stocked(r.food)) &&
      Emptying(w, r) && FoodUp(w, r)
  {
    var me := Occupant(e, w, Idx(y, x, e.size));
    if me != -1 {
      LooksPreserve(e, w, Orthogonal(y, x, e.size), me, 4);
    }
  }

  // -----------------------------------------------------------------------
  // Starvation (starve, die)

  /** die's test: the draw d scaled by the species' population exceeds its food. */
  ghost predicate Dies(d: real, population: int, food: int)
    ensures population == 0 ==> (Dies(d, population, food) <==> food < 0)
  {
    d * (population as real) > food as real
  }

  /** Scaling a non-negative amount by a factor in [0, 1) does not increase it. */
  lemma ScaledBelow(d: real, p: real)
    requires 0.0 <= d < 1.0 && p >= 0.0
    ensures d * p <= p
  {
    assert p - d * p == (1.0 - d) * p;
  }

  /**
   die's test `d * population > food` with a draw d in [0, 1) can succeed only
   when the food is below the population.
   */
  lemma DieNeedsHunger(d: real, population: int, food: int)
    requires 0.0 <= d < 1.0 && population >= 0
    ensures Dies(d, population, food) ==> food < population
  {
    var p := population as real;
    ScaledBelow(d, p);
  }

  /**
   One visit of starve at (y, x). An empty cell is left as it is. An occupant
   on lava dies without a draw. Otherwise die draws d and the occupant dies when
   d times its species' population exceeds the species' food, judged on the
   counters as they stand; a survivor's species loses one food, but not below 0.
   */
  ghost function StarveCell(e: Env, w: World, y: nat, x: nat): (r: World)
    requires Fits(e, w) && y < e.size && x < e.size
    ensures Fits(e, r)
  {
    var c := Idx(y, x, e.size);
    var me := Occupant(e, w, c);
    if me == -1 then w
    else if e.lava[c] then
      w.(grid := w.grid[c := -1], populations := w.populations[me := w.populations[me] - 1])
    else if Dies(Real(e.reals, w.draws), w.populations[me], w.food[me]) then
      w.(grid := w.grid[c := -1], populations := w.populations[me := w.populations[me] - 1], draws := w.draws + 1)
    else
      w.(food := w.food[me := if w.food[me] - 1 < 0 then 0 else w.food[me] - 1], draws := w.draws + 1)
  }

  /**
   starve's visit of one cell keeps the population invariant and the food
   stock, only empties cells, never raises food, and changes no cell but the
   visited one, which is left empty when it is lava, whatever the counters say. Food never rises from a stock that is not negative.
   */
  lemma StarveCellPreserves(e: Env, w: World, y: nat, x: nat)
    requires Fits(e, w) && y < e.size && x < e.size
    ensures var r := StarveCell(e, w, y, x); var c := Idx(y, x, e.size);
      (Counted(e, w) ==> Counted(e, r)) && (Stocked(w.food) ==> Stocked(r.food) && FoodDown(w, r)) &&
      Emptying(w, r) && r.grid == w.grid[c := r.grid[c]] && (e.lava[c] ==> r.grid[c] == -1)
  {
    var c := Idx(y, x, e.size);
    var me := Occupant(e, w, c);
    var r := StarveCell(e, w, y, x);
    if me == -1 {
      assert r == w;
      assert w.grid[c := w.grid[c]] == w.grid;
    } else if e.lava[c] || Dies(Real(e.reals, w.draws), w.populations[me], w.food[me]) {
      assert r.grid == w.grid[c := -1] && r.food == w.food;
      assert r.populations == w.populations[me := w.populations[me] - 1];
      CountsClear(w.grid, c, e.n);
    } else {
      assert r.grid == w.grid && r.populations == w.populations;
      assert w.grid[c := w.grid[c]] == w.grid;
    }
  }

  /**
   The fate of the occupant me of the visited cell off lava: it dies only
   when its species' food is below its population; a survivor's species
   loses exactly one food unless it had none, and no other species' food
   changes. (On lava it always dies: StarveCellPreserves.)
   */
  lemma StarveCellFate(e: Env, w: World, y: nat, x: nat)
    requires Fits(e, w) && y < e.size && x < e.size && Counted(e, w)
    requires w.grid[Idx(y, x, e.size)] != -1
    ensures var r := StarveCell(e, w, y, x); var c := Idx(y, x, e.size); var me := Occupant(e, w, c);
      (!e.lava[c] && r.grid[c] == -1 ==> w.food[me] < w.populations[me]) &&
      (r.grid[c] != -1 ==> r.food == w.food[me := if w.food[me] > 0 then w.food[me] - 1 else 0])
  {
    var c := Idx(y, x, e.size);
    var me := Occupant(e, w, c);
    if !e.lava[c] {
      DieNeedsHunger(Real(e.reals, w.draws), w.populations[me], w.food[me]);
    }
  }

  // -----------------------------------------------------------------------
  // Reproduction (reproduce)

  /**
   reproduce's number_around (k entries, all 0 at first) after its first t
   increments: entry cats[i] is raised by one for each i < t.
   */
  ghost function TallyUpTo(cats: seq<int>, t: nat, k: nat): (tally: seq<int>)
    requires t <= |cats|
    ensures |tally| == k
  {
    if t == 0 then seq(k, _ => 0)
    else
      var p := TallyUpTo(cats, t - 1, k);
      var c := cats[t - 1];
      if 0 <= c < k then p[c := p[c] + 1] else p
  }

  /** Entry c of the tally is the number of the first t categories equal to c. */
  lemma {:induction false} TallyUpToCounts(cats: seq<int>, t: nat, k: nat)
    requires t <= |cats|
    ensures forall c | 0 <= c < k :: TallyUpTo(cats, t, k)[c] == multiset(cats[..t])[c]
  {
    if t > 0 {
      TallyUpToCounts(cats, t - 1, k);
      assert cats[..t] == cats[..t - 1] + [cats[t - 1]];
    }
  }

  /**
   The pair (max_species, max) that reproduce's scan of number_around leaves
   after examining categories 1..hi-1, starting from (0, 0) and replacing the
   pair only on a strictly larger tally.
   */
  ghost function Winner(tally: seq<int>, hi: nat): (r: (nat, int))
    requires hi <= |tally|
    ensures r.1 >= 0 && (r.0 == 0 ==> r.1 == 0)
    ensures r.0 != 0 ==> 1 <= r.0 < hi && r.1 == tally[r.0] && r.1 > 0
  {
    if hi <= 1 then (0, 0)
    else
      var w := Winner(tally, hi - 1);
      if tally[hi - 1] > w.1 then (hi - 1, tally[hi - 1]) else w
  }

  /**
   The scan's result is the lowest category among 1..hi-1 with the largest
   positive tally, together with that tally; it is (0, 0) when no category has
   a positive tally.
   */
  lemma {:induction false} WinnerIsFirstMax(tally: seq<int>, hi: nat)
    requires hi <= |tally|
    ensures var w := Winner(tally, hi);
      ((w.0 == 0 && w.1 == 0) || (1 <= w.0 < hi && w.1 == tally[w.0] && w.1 > 0)) &&
      (forall c | 1 <= c < hi :: tally[c] <= w.1) &&
      (forall c | 1 <= c < w.0 :: tally[c] < w.1)
  {
    if hi > 1 {
      WinnerIsFirstMax(tally, hi - 1);
    }
  }

  /**
   The categories reproduce tallies for the eight Moore neighbours of (y, x)
   in grid g: 0 for an empty neighbour, s + 1 for a neighbour of species s.
   */
  ghost function Categories(size: nat, g: seq<int>, y: nat, x: nat): (cats: seq<int>)
    requires y < size && x < size && |g| == Cells(size, size)
    ensures |cats| == 8
  {
    var ns := Moore(y, x, size);
    [g[ns[0]] + 1, g[ns[1]] + 1, g[ns[2]] + 1, g[ns[3]] + 1,
     g[ns[4]] + 1, g[ns[5]] + 1, g[ns[6]] + 1, g[ns[7]] + 1]
  }

  /** The categories, neighbour by neighbour, with the wrapped coordinates written out. */
  lemma CategoriesAt(size: nat, n: nat, g: seq<int>, y: nat, x: nat)
    requires y < size && x < size && Occupancy(size, n, g)
    ensures var cats := Categories(size, g, y, x);
      var ym, yp, xm, xp := Prev(y, size), Next(y, size), Prev(x, size), Next(x, size);
      cats[0] == g[Idx(ym, xm, size)] + 1 && cats[1] == g[Idx(y, xm, size)] + 1 &&
      cats[2] == g[Idx(yp, xm, size)] + 1 && cats[3] == g[Idx(ym, x, size)] + 1 &&
      cats[4] == g[Idx(yp, x, size)] + 1 && cats[5] == g[Idx(ym, xp, size)] + 1 &&
      cats[6] == g[Idx(y, xp, size)] + 1 && cats[7] == g[Idx(yp, xp, size)] + 1 &&
      forall t | 0 <= t < 8 :: 0 <= cats[t] <= n
  {
    var ns := Moore(y, x, size);
    assert Resident(n, g[ns[0]]) && Resident(n, g[ns[1]]) && Resident(n, g[ns[2]]) && Resident(n, g[ns[3]]);
    assert Resident(n, g[ns[4]]) && Resident(n, g[ns[5]]) && Resident(n, g[ns[6]]) && Resident(n, g[ns[7]]);
  }

  /**
   One visit of reproduce at (y, x). An occupied cell is left alone. An empty
   cell tallies its Moore neighbourhood into number_around (n + 1 categories),
   takes the scan's Winner over categories 1..n-1, and, when that tally reaches
   REPRO_LIMIT, receives a newborn of the winning species.
   */
  ghost function BirthCell(e: Env, w: World, y: nat, x: nat): (r: World)
    requires Fits(e, w) && y < e.size && x < e.size
    ensures Fits(e, r)
  {
    var c := Idx(y, x, e.size);
    if w.grid[c] != -1 then w
    else
      var tally := TallyUpTo(Categories(e.size, w.grid, y, x), 8, e.n + 1);
      var win := Winner(tally, e.n);
      if win.1 >= REPRO_LIMIT then Born(w, c, win.0 - 1) else w
  }

  /** A newborn of species s in cell c, counted. */
  ghost function Born(w: World, c: nat, s: nat): (r: World)
    requires c < |w.grid| && s < |w.populations|
    ensures |r.grid| == |w.grid| && r.grid[c] == s && r.food == w.food && r.draws == w.draws
    ensures |r.populations| == |w.populations| && r.populations[s] == w.populations[s] + 1
  {
    w.(grid := w.grid[c := s], populations := w.populations[s := w.populations[s] + 1])
  }

  /**
   A birth of species s in the empty cell c keeps the population invariant,
   food and draws, changes only cell c and raises only s's counter.
   */
  lemma BornPreserves(e: Env, w: World, c: nat, s: nat)
    requires Fits(e, w) && c < |w.grid| && w.grid[c] == -1 && s < e.n
    ensures var r := Born(w, c, s);
      (Counted(e, w) ==> Counted(e, r)) && r.food == w.food && r.draws == w.draws &&
      r.grid == w.grid[c := s] && r.populations == w.populations[s := w.populations[s] + 1]
  {
    if Counted(e, w) {
      CountsFill(w.grid, c, s, e.n);
    }
  }

  /**
   reproduce never changes an occupied cell, and a cell it changes receives
   a species below n - 1.
   */
  ghost predicate OnlyBirths(n: nat, w: World, r: World) {
    |r.grid| == |w.grid| &&
    (forall k | 0 <= k < |w.grid| :: w.grid[k] != -1 ==> r.grid[k] == w.grid[k]) &&
    (forall k | 0 <= k < |w.grid| :: r.grid[k] != w.grid[k] ==> 0 <= r.grid[k] < n - 1)
  }

  /**
   The number of Moore neighbours of (y, x) in grid g that hold species s,
   read off the tally: category s + 1.
   */
  ghost function Neighbours(e: Env, g: seq<int>, y: nat, x: nat, s: nat): nat
    requires EnvOk(e) && y < e.size && x < e.size && |g| == Cells(e.size, e.size) && s < e.n
  {
    TallyUpToCounts(Categories(e.size, g, y, x), 8, e.n + 1);
    TallyUpTo(Categories(e.size, g, y, x), 8, e.n + 1)[s + 1]
  }

  /**
   reproduce's visit of one cell keeps the population invariant, food and
   draws, changes at most that cell, never changes an occupied cell, never
   lowers a counter and never raises species n - 1's counter (category n is
   never scanned).
   */
  lemma BirthCellPreserves(e: Env, w: World, y: nat, x: nat)
    requires Fits(e, w) && y < e.size && x < e.size
    ensures var r := BirthCell(e, w, y, x); var c := Idx(y, x, e.size);
      (Counted(e, w) ==> Counted(e, r)) && r.food == w.food && r.draws == w.draws &&
      OnlyBirths(e.n, w, r) && PopulationsUp(w, r) && r.populations[e.n - 1] == w.populations[e.n - 1] &&
      r.grid == w.grid[c := r.grid[c]] &&
      (r.grid != w.grid ==> r.populations == w.populations[r.grid[c] := w.populations[r.grid[c]] + 1])
  {
    var c := Idx(y, x, e.size);
    var b := 0;
    if w.grid[c] == -1 {
      var win := Winner(TallyUpTo(Categories(e.size, w.grid, y, x), 8, e.n + 1), e.n);
      if win.1 >= REPRO_LIMIT {
        b := win.0 - 1;
      }
    }
    BirthKeeps(e, w, BirthCell(e, w, y, x), c, b);
  }

  /** What any outcome of a visit of reproduce keeps: no change at all, or a birth of a species below n - 1 in an empty cell. */
  lemma BirthKeeps(e: Env, w: World, r: World, c: nat, b: nat)
    requires Fits(e, w) && c < |w.grid|
    requires r == w || (w.grid[c] == -1 && b < e.n - 1 && r == Born(w, c, b))
    ensures (Counted(e, w) ==> Counted(e, r)) && r.food == w.food && r.draws == w.draws &&
      OnlyBirths(e.n, w, r) && PopulationsUp(w, r) && r.populations[e.n - 1] == w.populations[e.n - 1] &&
      r.grid == w.grid[c := r.grid[c]] &&
      (r.grid != w.grid ==> r.populations == w.populations[r.grid[c] := w.populations[r.grid[c]] + 1])
  {
    if r != w {
      BornPreserves(e, w, c, b);
    }
  }

  /**
   The species reproduce places in an empty cell has at least REPRO_LIMIT
   neighbours of its own, at least as many as any species below n - 1 and
   more than any species below it; an empty cell stays empty only when no
   species below n - 1 has REPRO_LIMIT neighbours.
   */
  lemma BirthCellChoice(e: Env, w: World, y: nat, x: nat)
    requires Fits(e, w) && y < e.size && x < e.size
    ensures var r := BirthCell(e, w, y, x); var c := Idx(y, x, e.size);
      (r.grid != w.grid ==>
         var b := r.grid[c];
         0 <= b < e.n - 1 &&
         Neighbours(e, w.grid, y, x, b) >= REPRO_LIMIT &&
         (forall s | 0 <= s < e.n - 1 :: Neighbours(e, w.grid, y, x, s) <= Neighbours(e, w.grid, y, x, b)) &&
         (forall s | 0 <= s < b :: Neighbours(e, w.grid, y, x, s) < Neighbours(e, w.grid, y, x, b))) &&
      (w.grid[c] == -1 && r.grid == w.grid ==>
         forall s | 0 <= s < e.n - 1 :: Neighbours(e, w.grid, y, x, s) < REPRO_LIMIT)
  {
    var c := Idx(y, x, e.size);
    if w.grid[c] == -1 {
      var tally := TallyUpTo(Categories(e.size, w.grid, y, x), 8, e.n + 1);
      WinnerIsFirstMax(tally, e.n);
      var win := Winner(tally, e.n);
      forall s | 0 <= s < e.n - 1
        ensures Neighbours(e, w.grid, y, x, s) == tally[s + 1] <= win.1
      {
        assert 1 <= s + 1 < e.n;
      }
      if win.1 >= REPRO_LIMIT {
        forall s | 0 <= s < win.0 - 1
          ensures Neighbours(e, w.grid, y, x, s) < win.1
        {
          assert 1 <= s + 1 < win.0;
        }
      }
    }
  }

  // -----------------------------------------------------------------------
  // The three sweeps

  /** The visit of one cell by the given sweep. */
  ghost function Step(e: Env, phase: Phase, w: World, v: (nat, nat)): (r: World)
    requires Fits(e, w) && v.0 < e.size && v.1 < e.size
    ensures Fits(e, r)
  {
    match phase
    case Feeding => TryEatCell(e, w, v.0, v.1)
    case Starving => StarveCell(e, w, v.0, v.1)
    case Breeding => BirthCell(e, w, v.0, v.1)
  }

  /** Every visit lies on a size × size grid. */
  ghost predicate OnGrid(size: nat, cells: seq<(nat, nat)>) {
    forall a | 0 <= a < |cells| :: cells[a].0 < size && cells[a].1 < size
  }

  /** The world after the given sweep has visited the cells in order, starting from w. */
  ghost function Sweep(e: Env, phase: Phase, w: World, cells: seq<(nat, nat)>): (r: World)
    requires Fits(e, w) && OnGrid(e.size, cells)
    ensures Fits(e, r)
    decreases |cells|
  {
    if |cells| == 0 then w
    else
      var m := |cells| - 1;
      Step(e, phase, Sweep(e, phase, w, cells[..m]), cells[m])
  }

  /** Extending a sweep by one visit runs the phase's step on the world the sweep reached. */
  lemma SweepSnoc(e: Env, phase: Phase, w: World, cells: seq<(nat, nat)>, v: (nat, nat))
    requires Fits(e, w) && OnGrid(e.size, cells) && v.0 < e.size && v.1 < e.size
    ensures OnGrid(e.size, cells + [v])
    ensures Sweep(e, phase, w, cells + [v]) == Step(e, phase, Sweep(e, phase, w, cells), v)
  {
    assert (cells + [v])[..|cells|] == cells;
  }

  /** A sweep over a + b is the sweep over a followed by the sweep over b. */
  lemma {:induction false} SweepAppend(e: Env, phase: Phase, w: World, a: seq<(nat, nat)>, b: seq<(nat, nat)>)
    requires Fits(e, w) && OnGrid(e.size, a) && OnGrid(e.size, b)
    ensures OnGrid(e.size, a + b)
    ensures Sweep(e, phase, w, a + b) == Sweep(e, phase, Sweep(e, phase, w, a), b)
  {
    if |b| == 0 {
      assert a + b == a;
    } else {
      var front, v := b[..|b| - 1], b[|b| - 1];
      assert b == front + [v];
      assert a + b == (a + front) + [v];
      SweepAppend(e, phase, w, a, front);
      SweepSnoc(e, phase, w, a + front, v);
      SweepSnoc(e, phase, Sweep(e, phase, w, a), front, v);
    }
  }

  /** A try_eat sweep keeps the invariants, only empties cells and never lowers food. */
  lemma {:induction false} EatSweepPreserves(e: Env, w: World, cells: seq<(nat, nat)>)
    requires Fits(e, w) && OnGrid(e.size, cells)
    ensures var r := Sweep(e, Feeding, w, cells);
      (Counted(e, w) ==> Counted(e, r)) && (Stocked(w.food) ==> Stocked(r.food)) &&
      Emptying(w, r) && FoodUp(w, r)
  {
    if |cells| > 0 {
      var m := |cells| - 1;
      EatSweepPreserves(e, w, cells[..m]);
      TryEatCellPreserves(e, Sweep(e, Feeding, w, cells[..m]), cells[m].0, cells[m].1);
    }
  }

  /**
   A starve sweep keeps the invariants, only empties cells, never raises
   food, and leaves every visited lava cell empty.
   */
  lemma {:induction false} StarveSweepPreserves(e: Env, w: World, cells: seq<(nat, nat)>)
    requires Fits(e, w) && OnGrid(e.size, cells)
    ensures var r := Sweep(e, Starving, w, cells);
      (Counted(e, w) ==> Counted(e, r)) && (Stocked(w.food) ==> Stocked(r.food) && FoodDown(w, r)) &&
      Emptying(w, r)
  {
    if |cells| > 0 {
      var m := |cells| - 1;
      StarveSweepPreserves(e, w, cells[..m]);
      StarveCellPreserves(e, Sweep(e, Starving, w, cells[..m]), cells[m].0, cells[m].1);
    }
  }

  /** After a starve sweep every visited lava cell is empty. */
  lemma {:induction false} StarveSweepClearsLava(e: Env, w: World, cells: seq<(nat, nat)>)
    requires Fits(e, w) && OnGrid(e.size, cells)
    ensures var r := Sweep(e, Starving, w, cells);
      forall a | 0 <= a < |cells| :: e.lava[Idx(cells[a].0, cells[a].1, e.size)] ==> r.grid[Idx(cells[a].0, cells[a].1, e.size)] == -1
  {
    if |cells| > 0 {
      var m := |cells| - 1;
      StarveSweepClearsLava(e, w, cells[..m]);
      var p := Sweep(e, Starving, w, cells[..m]);
      StarveCellPreserves(e, p, cells[m].0, cells[m].1);
      var r := StarveCell(e, p, cells[m].0, cells[m].1);
      forall a | 0 <= a < |cells| && e.lava[Idx(cells[a].0, cells[a].1, e.size)]
        ensures r.grid[Idx(cells[a].0, cells[a].1, e.size)] == -1
      {
        if a < m {
          assert cells[..m][a] == cells[a];
        }
      }
    }
  }

  /**
   A reproduce sweep keeps the population invariant, food and draws, never
   changes an occupied cell, places only species below n - 1, never lowers a
   counter and leaves species n - 1's counter as it was.
   */
  lemma {:induction false} BirthSweepPreserves(e: Env, w: World, cells: seq<(nat, nat)>)
    requires Fits(e, w) && OnGrid(e.size, cells)
    ensures var r := Sweep(e, Breeding, w, cells);
      (Counted(e, w) ==> Counted(e, r)) && r.food == w.food && r.draws == w.draws &&
      OnlyBirths(e.n, w, r) && PopulationsUp(w, r) && r.populations[e.n - 1] == w.populations[e.n - 1]
  {
    if |cells| > 0 {
      var m := |cells| - 1;
      BirthSweepPreserves(e, w, cells[..m]);
      BirthCellPreserves(e, Sweep(e, Breeding, w, cells[..m]), cells[m].0, cells[m].1);
    }
  }

  // -----------------------------------------------------------------------
  // Lava decay (decay_lava)

  /**
   The hazard grid decay_lava has produced once it has visited the first m
   cells of lava0 in row-major order, its draws starting at p0.
   */
  ghost function Decayed(reals: seq<Draw>, p0: nat, lava0: seq<bool>, m: nat): (d: seq<bool>)
    requires m <= |lava0|
    ensures |d| == |lava0|
  {
    if m == 0 then lava0
    else Decayed(reals, p0, lava0, m - 1)[m - 1 := lava0[m - 1] && Real(reals, p0 + Hazards(lava0[..m - 1])) < LAVA_KEEP]
  }

  /**
   Visited lava cell k stays lava exactly when its draw, the one after those
   of the lava cells before it, is below LAVA_KEEP; unvisited cells are as
   they were.
   */
  lemma {:induction false} DecayedAt(reals: seq<Draw>, p0: nat, lava0: seq<bool>, m: nat, k: nat)
    requires m <= |lava0| && k < |lava0|
    ensures Decayed(reals, p0, lava0, m)[k] ==
              if k < m then lava0[k] && Real(reals, p0 + Hazards(lava0[..k])) < LAVA_KEEP else lava0[k]
  {
    if m > 0 {
      DecayedAt(reals, p0, lava0, m - 1, k);
    }
  }

  /** Decay turns lava cells into plain cells and never the reverse, so the number of lava cells never grows. */
  lemma DecayOnlyClears(reals: seq<Draw>, p0: nat, lava0: seq<bool>, after: seq<bool>)
    requires after == Decayed(reals, p0, lava0, |lava0|)
    ensures forall k | 0 <= k < |lava0| :: after[k] ==> lava0[k]
    ensures Hazards(after) <= Hazards(lava0)
  {
    forall k | 0 <= k < |lava0|
      ensures after[k] ==> lava0[k]
    {
      DecayedAt(reals, p0, lava0, |lava0|, k);
    }
    FewerHazards(lava0, after);
  }

  // -----------------------------------------------------------------------
  // Evolutionary pressure (mutate, change_can_eat)

  /** h is the lowest index holding the largest value of p. */
  ghost predicate IsFirstMax(p: seq<int>, h: nat) {
    h < |p| && (forall i | 0 <= i < |p| :: p[i] <= p[h]) && (forall i | 0 <= i < h :: p[i] < p[h])
  }

  /** l is the lowest index holding the smallest value of p. */
  ghost predicate IsFirstMin(p: seq<int>, l: nat) {
    l < |p| && (forall i | 0 <= i < |p| :: p[l] <= p[i]) && (forall i | 0 <= i < l :: p[l] < p[i])
  }

  /** Only one index is the first maximum. */
  lemma FirstMaxUnique(p: seq<int>, a: nat, b: nat)
    requires IsFirstMax(p, a) && IsFirstMax(p, b)
    ensures a == b
  {
    assert p[a] == p[b];
    assert !(a < b) && !(b < a);
  }

  /** Only one index is the first minimum. */
  lemma FirstMinUnique(p: seq<int>, a: nat, b: nat)
    requires IsFirstMin(p, a) && IsFirstMin(p, b)
    ensures a == b
  {
    assert p[a] == p[b];
    assert !(a < b) && !(b < a);
  }

  /** The draw that decides species i's reroll in a mutate over n species whose rerolls start at draw p0. */
  ghost function RerollDraw(reals: seq<Draw>, n: nat, p0: nat, i: nat): (q: nat)
    ensures q >= p0 + i
  {
    if i == 0 then p0
    else
      var q := RerollDraw(reals, n, p0, i - 1);
      q + 1 + (if Real(reals, q) > REROLL_GATE then n else 0)
  }

  /**
   change_can_eat for species i on the flattened can_eat table, its gate draw
   at q: row i is replaced by the rerolled row when the gate draw is above
   REROLL_GATE, and the table is unchanged otherwise.
   */
  ghost function RerollRow(reals: seq<Draw>, n: nat, eats: seq<bool>, i: nat, q: nat): (r: seq<bool>)
    requires i < n && |eats| == Cells(n, n)
    ensures |r| == |eats|
  {
    if Real(reals, q) > REROLL_GATE then
      seq(|eats|, k requires 0 <= k < |eats| =>
        if Cells(i, n) <= k < Cells(i, n) + n then Real(reals, q + 1 + (k - Cells(i, n))) < EAT_CHANCE else eats[k])
    else eats
  }

  /** The can_eat table after change_can_eat has run for species 0..i-1 in turn, the first gate draw at p0. */
  ghost function Rerolls(reals: seq<Draw>, n: nat, eats: seq<bool>, p0: nat, i: nat): (r: seq<bool>)
    requires i <= n && |eats| == Cells(n, n)
    ensures |r| == |eats|
  {
    if i == 0 then eats
    else RerollRow(reals, n, Rerolls(reals, n, eats, p0, i - 1), i - 1, RerollDraw(reals, n, p0, i - 1))
  }

  /** A reroll of row i sets entry (i, j) from its own draw and leaves every other row's entries alone. */
  lemma RerollRowAt(reals: seq<Draw>, n: nat, eats: seq<bool>, i: nat, q: nat, a: nat, j: nat)
    requires i < n && |eats| == Cells(n, n) && a < n && j < n
    ensures RerollRow(reals, n, eats, i, q)[Idx(a, j, n)] ==
              if a == i && Real(reals, q) > REROLL_GATE then Real(reals, q + 1 + j) < EAT_CHANCE else eats[Idx(a, j, n)]
  {
    RowInside(i, n, n);
    if a < i {
      RowInside(a, i, n);
    } else if i < a {
      RowInside(i, a, n);
    }
  }

  /**
   After the rerolls of species 0..i-1, entry (a, j) of can_eat is the draw's
   verdict when species a < i passed its gate, and as it was otherwise: only
   the rows whose gate draw exceeds REROLL_GATE change, and each entry of such
   a row, the species' own entry included, is rerolled.
   */
  lemma {:induction false} RerollsAt(reals: seq<Draw>, n: nat, eats: seq<bool>, p0: nat, i: nat, a: nat, j: nat)
    requires i <= n && |eats| == Cells(n, n) && a < n && j < n
    ensures Rerolls(reals, n, eats, p0, i)[Idx(a, j, n)] ==
              if a < i && Real(reals, RerollDraw(reals, n, p0, a)) > REROLL_GATE
              then Real(reals, RerollDraw(reals, n, p0, a) + 1 + j) < EAT_CHANCE
              else eats[Idx(a, j, n)]
  {
    if i > 0 {
      RerollsAt(reals, n, eats, p0, i - 1, a, j);
      RerollRowAt(reals, n, Rerolls(reals, n, eats, p0, i - 1), i - 1, RerollDraw(reals, n, p0, i - 1), a, j);
    }
  }
}
