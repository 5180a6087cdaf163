/**
 Counting over the flattened grids: how many cells hold each species, the sum
 of the per-species counters, and the number of hazard cells.
 */
module Census {

  /** Sum of a sequence of counters. */
  function Sum(s: seq<int>): int {
    if |s| == 0 then 0 else Sum(s[..|s| - 1]) + s[|s| - 1]
  }

  /** The per-species head count of a grid: entry s is the number of cells holding species s. */
  function Counts(grid: seq<int>, n: nat): (c: seq<nat>)
    ensures |c| == n
  {
    seq(n, s requires 0 <= s < n => multiset(grid)[s])
  }

  /** Appending a cell holding category v adds one to v's head count and changes no other. */
  lemma CountsSnoc(grid: seq<int>, v: int, k: nat)
    requires 0 <= v < k
    ensures Counts(grid + [v], k) == Counts(grid, k)[v := Counts(grid, k)[v] + 1]
  {
    assert multiset(grid + [v]) == multiset(grid) + multiset{v};
  }

  /** Appending one cell to a grid adds one to the total head count exactly when it holds a species below k. */
  lemma {:induction false} SumCountsSnoc(grid: seq<int>, v: int, k: nat)
    ensures Sum(Counts(grid + [v], k)) == Sum(Counts(grid, k)) + (if 0 <= v < k then 1 else 0)
  {
    if k > 0 {
      SumCountsSnoc(grid, v, k - 1);
      assert Counts(grid + [v], k)[..k - 1] == Counts(grid + [v], k - 1);
      assert Counts(grid, k)[..k - 1] == Counts(grid, k - 1);
      assert multiset(grid + [v]) == multiset(grid) + multiset{v};
    }
  }

  /**
   Every cell of a grid whose cells lie in [-1, n) is either empty or counted
   under exactly one species: the head counts and the empty cells add up to the
   number of cells.
   */
  lemma {:induction false} HeadCountTotal(grid: seq<int>, n: nat)
    requires forall k | 0 <= k < |grid| :: -1 <= grid[k] < n
    ensures Sum(Counts(grid, n)) + multiset(grid)[-1] == |grid|
  {
    if |grid| == 0 {
      HeadCountEmpty(n);
    } else {
      var m := |grid| - 1;
      assert grid == grid[..m] + [grid[m]];
      HeadCountTotal(grid[..m], n);
      SumCountsSnoc(grid[..m], grid[m], n);
      assert multiset(grid) == multiset(grid[..m]) + multiset{grid[m]};
    }
  }

  lemma {:induction false} HeadCountEmpty(k: nat)
    ensures Sum(Counts([], k)) == 0
  {
    if k > 0 {
      HeadCountEmpty(k - 1);
      assert Counts([], k)[..k - 1] == Counts([], k - 1);
    }
  }

  /** Writing v into cell k removes one occurrence of the old value and adds one of v. */
  lemma MultisetUpdate(g: seq<int>, k: nat, v: int)
    requires k < |g|
    ensures multiset(g[k := v]) == multiset(g) - multiset{g[k]} + multiset{v}
  {
    assert g == g[..k] + [g[k]] + g[k + 1..];
    assert g[k := v] == g[..k] + [v] + g[k + 1..];
  }

  /** Emptying a cell of species g[k] takes one from that species' head count and changes no other. */
  lemma CountsClear(g: seq<int>, k: nat, n: nat)
    requires k < |g| && 0 <= g[k] < n
    ensures Counts(g[k := -1], n) == Counts(g, n)[g[k] := Counts(g, n)[g[k]] - 1]
  {
    MultisetUpdate(g, k, -1);
  }

  /** Placing species v in an empty cell adds one to v's head count and changes no other. */
  lemma CountsFill(g: seq<int>, k: nat, v: int, n: nat)
    requires k < |g| && g[k] == -1 && 0 <= v < n
    ensures Counts(g[k := v], n) == Counts(g, n)[v := Counts(g, n)[v] + 1]
  {
    MultisetUpdate(g, k, v);
  }

  /** Number of hazard cells in a hazard grid, counted from the front. */
  function Hazards(lava: seq<bool>): nat {
    if |lava| == 0 then 0 else Hazards(lava[..|lava| - 1]) + (if lava[|lava| - 1] then 1 else 0)
  }

  /** Extending a hazard grid by one cell adds one hazard exactly when that cell is a hazard. */
  lemma HazardsSnoc(lava: seq<bool>, m: nat)
    requires m < |lava|
    ensures Hazards(lava[..m + 1]) == Hazards(lava[..m]) + (if lava[m] then 1 else 0)
  {
    assert lava[..m + 1][..m] == lava[..m];
  }

  /** A hazard grid each of whose hazard cells was already a hazard cell has no more hazard cells. */
  lemma {:induction false} FewerHazards(before: seq<bool>, after: seq<bool>)
    requires |before| == |after|
    requires forall k | 0 <= k < |after| :: after[k] ==> before[k]
    ensures Hazards(after) <= Hazards(before)
  {
    if |after| > 0 {
      var m := |after| - 1;
      FewerHazards(before[..m], after[..m]);
    }
  }
}
