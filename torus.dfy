/**
 The toroidal lattice: row-major cell indices, wrap-around neighbours, and the
 order in which a phase visits the cells (a shuffled row order and, per row,
 a shuffled column order).
 */
module Torus {

  /** The number of cells in `rows` rows of `size` cells, counted row by row. */
  function Cells(rows: nat, size: nat): nat {
    if rows == 0 then 0 else Cells(rows - 1, size) + size
  }

  /** Row y of a size × size grid lies wholly inside the grid. */
  lemma {:induction false} RowInside(y: nat, rows: nat, size: nat)
    requires y < rows
    ensures Cells(y, size) + size <= Cells(rows, size)
  {
    if y + 1 < rows {
      RowInside(y, rows - 1, size);
    }
  }

  /** Row-major index of the cell in row y, column x of a size × size grid. */
  function Idx(y: nat, x: nat, size: nat): (k: nat)
    requires y < size && x < size
    ensures k < Cells(size, size)
  {
    RowInside(y, size, size);
    Cells(y, size) + x
  }

  /** Distinct cells have distinct row-major indices. */
  lemma IdxInjective(y1: nat, x1: nat, y2: nat, x2: nat, size: nat)
    requires y1 < size && x1 < size && y2 < size && x2 < size
    requires Idx(y1, x1, size) == Idx(y2, x2, size)
    ensures y1 == y2 && x1 == x2
  {
    if y1 < y2 {
      RowInside(y1, y2, size);
    } else if y2 < y1 {
      RowInside(y2, y1, size);
    }
  }

  /** A remainder that is already below the modulus is itself. */
  lemma ModBelow(a: nat, m: nat)
    requires a < m
    ensures a % m == a
  {
  }

  /** The modulus leaves no remainder. */
  lemma ModSelf(m: nat)
    requires m > 0
    ensures m % m == 0
  {
  }

  /** The neighbour before i on a ring of the given length ("up" for a row, "left" for a column). */
  function Prev(i: nat, size: nat): (r: nat)
    requires i < size
    ensures r < size
    ensures (r + 1) % size == i
  {
    if i == 0 then ModSelf(size); size - 1 else ModBelow(i, size); i - 1
  }

  /** The neighbour after i on a ring of the given length ("down" for a row, "right" for a column). */
  function Next(i: nat, size: nat): (r: nat)
    requires i < size
    ensures r < size
    ensures (i + 1) % size == r
  {
    if i + 1 == size then ModSelf(size); 0 else ModBelow(i + 1, size); i + 1
  }

  /** Prev and Next undo each other: walking one step and back returns to the start. */
  lemma PrevNextInverse(i: nat, size: nat)
    requires i < size
    ensures Next(Prev(i, size), size) == i
    ensures Prev(Next(i, size), size) == i
  {
  }

  /** The four cells that `try_eat` examines around (y, x), in its order: up, right, down, left. */
  function Orthogonal(y: nat, x: nat, size: nat): (ns: seq<nat>)
    requires y < size && x < size
    ensures |ns| == 4
    ensures forall t | 0 <= t < 4 :: ns[t] < Cells(size, size)
  {
    [Idx(Prev(y, size), x, size), Idx(y, Next(x, size), size),
     Idx(Next(y, size), x, size), Idx(y, Prev(x, size), size)]
  }

  /** The eight cells of the Moore neighbourhood of (y, x), in the order `reproduce` tallies them. */
  function Moore(y: nat, x: nat, size: nat): (ns: seq<nat>)
    requires y < size && x < size
    ensures |ns| == 8
    ensures forall t | 0 <= t < 8 :: ns[t] < Cells(size, size)
  {
    var ym, yp, xm, xp := Prev(y, size), Next(y, size), Prev(x, size), Next(x, size);
    [Idx(ym, xm, size), Idx(y, xm, size), Idx(yp, xm, size), Idx(ym, x, size),
     Idx(yp, x, size), Idx(ym, xp, size), Idx(y, xp, size), Idx(yp, xp, size)]
  }

  /** p is a shuffle of 0..n: every value below n occurs exactly once and nothing else occurs. */
  ghost predicate IsPermutation(p: seq<nat>, n: nat) {
    |p| == n &&
    (forall k | 0 <= k < |p| :: p[k] < n) &&
    (forall v | 0 <= v < n :: multiset(p)[v] == 1)
  }

  /** The visits of one row y in column order cols. */
  function Row(y: nat, cols: seq<nat>): seq<(nat, nat)> {
    seq(|cols|, k requires 0 <= k < |cols| => (y, cols[k]))
  }

  /** The cells a phase visits, in order: row rows[a] in column order cols[a], for each a in turn. */
  function Traversal(rows: seq<nat>, cols: seq<seq<nat>>): seq<(nat, nat)>
    requires |cols| == |rows|
  {
    if |rows| == 0 then []
    else Traversal(rows[..|rows| - 1], cols[..|rows| - 1]) + Row(rows[|rows| - 1], cols[|rows| - 1])
  }

  /** A row's visits up to column position j + 1 extend those up to j by cell (y, cols[j]). */
  lemma RowSnoc(y: nat, cols: seq<nat>, j: nat)
    requires j < |cols|
    ensures Row(y, cols[..j + 1]) == Row(y, cols[..j]) + [(y, cols[j])]
  {
  }

  /** The traversal of the first i + 1 rows extends that of the first i by row i's cells. */
  lemma TraversalStep(rows: seq<nat>, cols: seq<seq<nat>>, i: nat)
    requires |cols| == |rows| && i < |rows|
    ensures Traversal(rows[..i + 1], cols[..i + 1]) == Traversal(rows[..i], cols[..i]) + Row(rows[i], cols[i])
  {
    assert rows[..i + 1][..i] == rows[..i];
    assert cols[..i + 1][..i] == cols[..i];
  }

  /** A row visits cell (y, x) as many times as x occurs in its column order, and no other row's cells. */
  lemma {:induction false} RowCount(y: nat, cols: seq<nat>, cell: (nat, nat))
    ensures multiset(Row(y, cols))[cell] == if cell.0 == y then multiset(cols)[cell.1] else 0
  {
    if |cols| > 0 {
      var m := |cols| - 1;
      assert cols == cols[..m] + [cols[m]];
      assert Row(y, cols) == Row(y, cols[..m]) + [(y, cols[m])];
      RowCount(y, cols[..m], cell);
    } else {
      assert Row(y, cols) == [];
    }
  }

  /** When every column order holds x once, a traversal visits (y, x) as often as y occurs among the rows. */
  lemma {:induction false} TraversalCount(rows: seq<nat>, cols: seq<seq<nat>>, cell: (nat, nat))
    requires |cols| == |rows|
    requires forall a | 0 <= a < |cols| :: multiset(cols[a])[cell.1] == 1
    ensures multiset(Traversal(rows, cols))[cell] == multiset(rows)[cell.0]
  {
    if |rows| > 0 {
      var m := |rows| - 1;
      TraversalCount(rows[..m], cols[..m], cell);
      RowCount(rows[m], cols[m], cell);
      assert rows == rows[..m] + [rows[m]];
    }
  }

  /** Every cell of the grid is visited exactly once when the row order and each column order are shuffles. */
  lemma VisitsEachCellOnce(rows: seq<nat>, cols: seq<seq<nat>>, size: nat, y: nat, x: nat)
    requires IsPermutation(rows, size) && |cols| == size
    requires forall a | 0 <= a < size :: IsPermutation(cols[a], size)
    requires y < size && x < size
    ensures multiset(Traversal(rows, cols))[(y, x)] == 1
  {
    TraversalCount(rows, cols, (y, x));
  }

  /** Every visit of a traversal built from orders over 0..size lies on the grid. */
  lemma {:induction false} TraversalInRange(rows: seq<nat>, cols: seq<seq<nat>>, size: nat)
    requires |cols| == |rows|
    requires forall a | 0 <= a < |rows| :: rows[a] < size
    requires forall a, k | 0 <= a < |cols| && 0 <= k < |cols[a]| :: cols[a][k] < size
    ensures forall v | v in Traversal(rows, cols) :: v.0 < size && v.1 < size
  {
    if |rows| > 0 {
      var m := |rows| - 1;
      TraversalInRange(rows[..m], cols[..m], size);
    }
  }
}
