/** The "exactly one" and "at most one" clause builders of `PlanStorage`
    (plan_storage_optimize.py), as functions of the encoder state: each takes
    the state before the call and gives the state after it. */
module Cardinality {
  import opened Cnf

  /** Below this many literals the pairwise encoding is used. */
  const PairwiseLimit: nat := 16

  // ---------------------------------------------------------------------------
  // Integer square root (the source's `int(sqrt(n))`) and ceiling division,
  // as recursive functions whose arithmetic meaning is stated by lemmas

  lemma {:induction false} MulLe(x: int, y: int, z: int)
    requires 0 <= x && y <= z
    ensures x * y <= x * z
  {
  }

  lemma {:induction false} ZeroByBound(x: int, c: int)
    requires c > 0 && -c < x * c < c
    ensures x == 0
  {
    if x >= 1 { MulLe(c, 1, x); } else if x <= -1 { MulLe(c, x, -1); }
  }

  /** The largest root candidate reached by counting up from `r`, where
      `next` is the square of `r + 1`, kept by adding `2r + 3` per step. */
  function SqrtFrom(n: nat, r: nat, next: nat): nat
    decreases if next <= n then n + 1 - next else 0
  {
    if next > n then r else SqrtFrom(n, r + 1, next + 2 * r + 3)
  }

  lemma {:induction false} SqrtFromMeaning(n: nat, r: nat, next: nat)
    requires r * r <= n && next == (r + 1) * (r + 1)
    ensures var s := SqrtFrom(n, r, next); s * s <= n < (s + 1) * (s + 1)
    decreases if next <= n then n + 1 - next else 0
  {
    if next <= n {
      assert (r + 2) * (r + 2) == next + 2 * r + 3;
      SqrtFromMeaning(n, r + 1, next + 2 * r + 3);
    }
  }

  function FloorSqrt(n: nat): nat
  {
    SqrtFrom(n, 0, 1)
  }

  /** `FloorSqrt(n)` is the integer part of the square root of `n`. */
  lemma {:induction false} FloorSqrtMeaning(n: nat)
    ensures var r := FloorSqrt(n); r * r <= n < (r + 1) * (r + 1)
  {
    SqrtFromMeaning(n, 0, 1);
  }

  /** The number of groups of `d` needed for `n` things. */
  function CeilDiv(n: nat, d: nat): nat
    requires d >= 1
  {
    if n == 0 then 0 else if n <= d then 1 else CeilDiv(n - d, d) + 1
  }

  lemma {:induction false} DivStep(x: nat, d: nat)
    requires d >= 1 && x >= d
    ensures x / d == (x - d) / d + 1
  {
    var q, r := (x - d) / d, (x - d) % d;
    assert x - d == q * d + r;
    assert x == (q + 1) * d + r;
    assert x == (x / d) * d + x % d;
    CellUnique(x / d, x % d, q + 1, r, d);
  }

  /** `CeilDiv` is the source's `(n + d - 1) // d`. */
  lemma {:induction false} CeilDivMeaning(n: nat, d: nat)
    requires d >= 1
    ensures CeilDiv(n, d) == (n + d - 1) / d
  {
    if n > d {
      CeilDivMeaning(n - d, d);
      DivStep(n + d - 1, d);
    } else if n > 0 {
      DivStep(n + d - 1, d);
      DivSmall(n - 1, d);
    }
  }

  lemma {:induction false} DivSmall(x: nat, d: nat)
    requires x < d
    ensures x / d == 0
  {
    assert x == (x / d) * d + x % d;
    CellUnique(x / d, x % d, 0, x, d);
  }

  /** Column count of the grid over `n` literals with `rows` rows. */
  function Columns(n: nat, rows: nat): nat
    requires rows >= 1
  {
    CeilDiv(n, rows)
  }

  /** From 16 literals up the grid is a proper split: at least 4 rows, fewer rows
      and fewer columns than literals, and enough cells for every literal. */
  lemma {:induction false} GridShape(n: nat)
    requires n >= PairwiseLimit
    ensures 4 <= FloorSqrt(n) < n
    ensures 1 <= Columns(n, FloorSqrt(n)) < n
    ensures n <= FloorSqrt(n) * Columns(n, FloorSqrt(n))
  {
    var r := FloorSqrt(n);
    FloorSqrtMeaning(n);
    if r <= 3 {
      MulLe(r + 1, r + 1, 4);
      MulLe(4, r + 1, 4);
    }
    MulLe(r, 4, r);
    CeilDivMeaning(n, r);
    var m := n + r - 1;
    var c := m / r;
    assert m == r * c + m % r;
    if c <= 0 { MulLe(r, c, 0); }
    if c >= n {
      MulLe(r, n, c);
      MulLe(n, 4, r);
    }
  }

  /** Every literal index below `rows * columns` sits in some row-major cell. */
  lemma {:induction false} GridCell(k: nat, rows: nat, columns: nat) returns (i: nat, j: nat)
    requires columns >= 1 && k < rows * columns
    ensures i < rows && j < columns && k == i * columns + j
  {
    i, j := k / columns, k % columns;
    assert k == i * columns + j;
    if i >= rows { MulLe(columns, rows, i); }
  }

  /** A row-major index determines its cell. */
  lemma {:induction false} CellUnique(i1: nat, j1: nat, i2: nat, j2: nat, columns: nat)
    requires j1 < columns && j2 < columns && i1 * columns + j1 == i2 * columns + j2
    ensures i1 == i2 && j1 == j2
  {
    assert (i1 - i2) * columns == j2 - j1;
    ZeroByBound(i1 - i2, columns);
  }

  /** The row of the literal at index `t` on a grid with `columns` columns
      (the source's `t // columns`), by repeated subtraction. */
  function RowOf(t: nat, columns: nat): nat
    requires columns >= 1
  {
    if t < columns then 0 else RowOf(t - columns, columns) + 1
  }

  /** The column of the literal at index `t` (the source's `t % columns`). */
  function ColumnOf(t: nat, columns: nat): nat
    requires columns >= 1
  {
    if t < columns then t else ColumnOf(t - columns, columns)
  }

  /** `RowOf` and `ColumnOf` are floor division and remainder. */
  lemma {:induction false} RowOfMeaning(t: nat, columns: nat)
    requires columns >= 1
    ensures RowOf(t, columns) == t / columns && ColumnOf(t, columns) == t % columns
    decreases t
  {
    if t >= columns {
      RowOfMeaning(t - columns, columns);
      DivStep(t, columns);
      var q, m := t / columns, t % columns;
      assert t == q * columns + m;
      assert t - columns == (q - 1) * columns + m;
      CellUnique((t - columns) / columns, (t - columns) % columns, q - 1, m, columns);
    }
  }

  /** The literal of cell (i, j) lies in row `i` and column `j`. */
  lemma {:induction false} RowOfCell(i: nat, j: nat, columns: nat)
    requires j < columns
    ensures RowOf(RowStart(i, columns) + j, columns) == i && ColumnOf(RowStart(i, columns) + j, columns) == j
  {
    if i > 0 {
      RowOfCell(i - 1, j, columns);
      assert RowStart(i, columns) + j - columns == RowStart(i - 1, columns) + j;
    }
  }

  // ---------------------------------------------------------------------------
  // Pairwise encoding: one clause [-a, -b] per unordered pair, in the order
  // `itertools.combinations` yields the pairs

  /** The pairs (i, j') for i < j' < j. */
  function PairRow(lits: seq<int>, i: nat, j: nat): seq<Clause>
    requires i < |lits| && j <= |lits|
  {
    if j <= i + 1 then [] else PairRow(lits, i, j - 1) + [[-lits[i], -lits[j - 1]]]
  }

  /** All pairs whose first index is below `i`. */
  function PairsUpTo(lits: seq<int>, i: nat): seq<Clause>
    requires i <= |lits|
  {
    if i == 0 then [] else PairsUpTo(lits, i - 1) + PairRow(lits, i - 1, |lits|)
  }

  /** One more pair in row `i`. */
  lemma {:induction false} PairRowNext(lits: seq<int>, i: nat, j: nat, j1: nat)
    requires i < j < |lits| && j1 == j + 1
    ensures PairRow(lits, i, j1) == PairRow(lits, i, j) + [[-lits[i], -lits[j]]]
  {
  }

  /** One more row of pairs. */
  lemma {:induction false} PairsUpToNext(lits: seq<int>, i: nat, i1: nat)
    requires i < |lits| && i1 == i + 1
    ensures PairsUpTo(lits, i1) == PairsUpTo(lits, i) + PairRow(lits, i, |lits|)
  {
  }

  function Pairwise(lits: seq<int>): seq<Clause>
  {
    PairsUpTo(lits, |lits|)
  }

  lemma {:induction false} PairRowIn(lits: seq<int>, i: nat, j: nat, k: nat)
    requires i < k < j <= |lits|
    ensures [-lits[i], -lits[k]] in PairRow(lits, i, j)
  {
    if k < j - 1 { PairRowIn(lits, i, j - 1, k); }
  }

  lemma {:induction false} PairRowForm(lits: seq<int>, i: nat, j: nat, c: Clause)
    requires i < |lits| && j <= |lits| && c in PairRow(lits, i, j)
    ensures exists k :: i < k < j && c == [-lits[i], -lits[k]]
  {
    if j > i + 1 && c != [-lits[i], -lits[j - 1]] { PairRowForm(lits, i, j - 1, c); }
  }

  lemma {:induction false} PairsUpToIn(lits: seq<int>, i: nat, j: nat, r: nat)
    requires j < r < |lits| && j < i <= |lits|
    ensures [-lits[j], -lits[r]] in PairsUpTo(lits, i)
  {
    if j == i - 1 { PairRowIn(lits, j, |lits|, r); } else { PairsUpToIn(lits, i - 1, j, r); }
  }

  lemma {:induction false} PairsUpToForm(lits: seq<int>, i: nat, c: Clause)
    requires i <= |lits| && c in PairsUpTo(lits, i)
    ensures exists j, k :: 0 <= j < k < |lits| && c == [-lits[j], -lits[k]]
  {
    if c in PairRow(lits, i - 1, |lits|) {
      PairRowForm(lits, i - 1, |lits|, c);
    } else {
      PairsUpToForm(lits, i - 1, c);
    }
  }

  /** The pairwise clauses hold exactly when at most one literal holds. */
  lemma {:induction false} PairwiseMeaning(a: Assignment, lits: seq<int>)
    requires 0 !in lits
    ensures Satisfies(a, Pairwise(lits)) <==> AtMostOneTrue(a, lits)
  {
    if Satisfies(a, Pairwise(lits)) {
      forall i, j | 0 <= i < j < |lits| ensures !(Holds(a, lits[i]) && Holds(a, lits[j])) {
        PairsUpToIn(lits, |lits|, i, j);
        var c := [-lits[i], -lits[j]];
        assert ClauseHolds(a, c);
      }
    }
    if AtMostOneTrue(a, lits) {
      forall c | c in Pairwise(lits) ensures ClauseHolds(a, c) {
        PairsUpToForm(lits, |lits|, c);
        var j, k :| 0 <= j < k < |lits| && c == [-lits[j], -lits[k]];
        HoldsNeg(a, lits[j]);
        HoldsNeg(a, lits[k]);
        if Holds(a, lits[j]) { assert -lits[k] in c; } else { assert -lits[j] in c; }
      }
    }
  }

  lemma {:induction false} PairRowCount(lits: seq<int>, i: nat, j: nat)
    requires i < j <= |lits|
    ensures |PairRow(lits, i, j)| == j - i - 1
  {
    if j > i + 1 { PairRowCount(lits, i, j - 1); }
  }

  lemma {:induction false} PairsUpToCount(lits: seq<int>, i: nat)
    requires i <= |lits|
    ensures 2 * |PairsUpTo(lits, i)| == i * (2 * |lits| - i - 1)
  {
    if i > 0 {
      PairsUpToCount(lits, i - 1);
      PairRowCount(lits, i - 1, |lits|);
      PairsStep(|lits|, i, |PairsUpTo(lits, i - 1)|, |PairRow(lits, i - 1, |lits|)|);
    }
  }

  lemma {:induction false} PairsStep(n: int, i: int, before: int, row: int)
    requires 2 * before == (i - 1) * (2 * n - i) && row == n - i
    ensures 2 * (before + row) == i * (2 * n - i - 1)
  {
  }

  /** `combinations(lits, 2)` has n(n-1)/2 pairs. */
  lemma {:induction false} PairwiseCount(lits: seq<int>)
    ensures |Pairwise(lits)| == |lits| * (|lits| - 1) / 2
  {
    PairsUpToCount(lits, |lits|);
  }

  // ---------------------------------------------------------------------------
  // Product ("grid") encoding: the literals are laid out row by row on a
  // rows x columns grid, and the literal in cell (i, j) implies row variable i
  // and column variable j

  /** The two implications of the literal at index `k` sitting in cell (i, q);
      a cell past the last literal adds nothing. */
  function CellClauses(lits: seq<int>, rowVars: seq<int>, columnVars: seq<int>, i: nat, k: nat, q: nat): seq<Clause>
    requires i < |rowVars| && q < |columnVars|
  {
    if k < |lits| then [[-lits[k], rowVars[i]], [-lits[k], columnVars[q]]] else []
  }

  /** The clauses of cells (i, 0) .. (i, j - 1), where cell (i, q) holds the
      literal at index `start + q`. */
  function GridRow(lits: seq<int>, rowVars: seq<int>, columnVars: seq<int>, i: nat, start: nat, j: nat): seq<Clause>
    requires i < |rowVars| && j <= |columnVars|
  {
    if j == 0 then []
    else GridRow(lits, rowVars, columnVars, i, start, j - 1) + CellClauses(lits, rowVars, columnVars, i, start + j - 1, j - 1)
  }

  /** Index of the literal in cell (i, 0): `i * columns`, by repeated addition. */
  function RowStart(i: nat, columns: nat): nat
  {
    if i == 0 then 0 else RowStart(i - 1, columns) + columns
  }

  lemma {:induction false} RowStartIs(i: nat, columns: nat)
    ensures RowStart(i, columns) == i * columns
  {
    if i > 0 { RowStartIs(i - 1, columns); }
  }

  /** The clauses of rows 0 .. m - 1, in the order of the source's nested loops. */
  function GridRows(lits: seq<int>, rowVars: seq<int>, columnVars: seq<int>, m: nat): seq<Clause>
    requires m <= |rowVars|
  {
    if m == 0 then []
    else
      GridRows(lits, rowVars, columnVars, m - 1)
        + GridRow(lits, rowVars, columnVars, m - 1, RowStart(m - 1, |columnVars|), |columnVars|)
  }

  /** One more cell of row `i`. */
  lemma {:induction false} GridRowNext(lits: seq<int>, rowVars: seq<int>, columnVars: seq<int>, i: nat, start: nat, j: nat, j1: nat)
    requires i < |rowVars| && j < |columnVars| && j1 == j + 1
    ensures GridRow(lits, rowVars, columnVars, i, start, j1)
      == GridRow(lits, rowVars, columnVars, i, start, j) + CellClauses(lits, rowVars, columnVars, i, start + j, j)
  {
  }

  /** One more row of cells. */
  lemma {:induction false} GridRowsNext(lits: seq<int>, rowVars: seq<int>, columnVars: seq<int>, i: nat, i1: nat)
    requires i < |rowVars| && i1 == i + 1
    ensures GridRows(lits, rowVars, columnVars, i1)
      == GridRows(lits, rowVars, columnVars, i) + GridRow(lits, rowVars, columnVars, i, RowStart(i, |columnVars|), |columnVars|)
  {
  }

  function Grid(lits: seq<int>, rowVars: seq<int>, columnVars: seq<int>): seq<Clause>
  {
    GridRows(lits, rowVars, columnVars, |rowVars|)
  }

  lemma {:induction false} ImplicationFires(a: Assignment, x: int, y: int)
    requires ClauseHolds(a, [-x, y]) && Holds(a, x) && x != 0
    ensures Holds(a, y)
  {
    HoldsNeg(a, x);
  }

  lemma {:induction false} CellFires(a: Assignment, lits: seq<int>, rowVars: seq<int>, columnVars: seq<int>, i: nat, k: nat, q: nat)
    requires i < |rowVars| && q < |columnVars| && k < |lits| && lits[k] != 0
    requires Satisfies(a, CellClauses(lits, rowVars, columnVars, i, k, q)) && Holds(a, lits[k])
    ensures Holds(a, rowVars[i]) && Holds(a, columnVars[q])
  {
    var x := lits[k];
    assert [-x, rowVars[i]] in CellClauses(lits, rowVars, columnVars, i, k, q);
    assert [-x, columnVars[q]] in CellClauses(lits, rowVars, columnVars, i, k, q);
    ImplicationFires(a, x, rowVars[i]);
    ImplicationFires(a, x, columnVars[q]);
  }

  lemma {:induction false} GridRowFires(a: Assignment, lits: seq<int>, rowVars: seq<int>, columnVars: seq<int>, i: nat, start: nat, j: nat, q: nat)
    requires i < |rowVars| && q < j <= |columnVars| && start + q < |lits| && lits[start + q] != 0
    requires Satisfies(a, GridRow(lits, rowVars, columnVars, i, start, j)) && Holds(a, lits[start + q])
    ensures Holds(a, rowVars[i]) && Holds(a, columnVars[q])
  {
    SatisfiesAppend(a, GridRow(lits, rowVars, columnVars, i, start, j - 1), CellClauses(lits, rowVars, columnVars, i, start + j - 1, j - 1));
    if q < j - 1 {
      GridRowFires(a, lits, rowVars, columnVars, i, start, j - 1, q);
    } else {
      CellFires(a, lits, rowVars, columnVars, i, start + q, q);
    }
  }

  /** Under the grid clauses, a true literal in cell (i, j) makes row variable i
      and column variable j true. */
  lemma {:induction false} GridRowsFire(a: Assignment, lits: seq<int>, rowVars: seq<int>, columnVars: seq<int>, m: nat, i: nat, j: nat)
    requires i < m <= |rowVars| && j < |columnVars| && RowStart(i, |columnVars|) + j < |lits|
    requires lits[RowStart(i, |columnVars|) + j] != 0 && Holds(a, lits[RowStart(i, |columnVars|) + j])
    requires Satisfies(a, GridRows(lits, rowVars, columnVars, m))
    ensures Holds(a, rowVars[i]) && Holds(a, columnVars[j])
  {
    SatisfiesAppend(a, GridRows(lits, rowVars, columnVars, m - 1),
      GridRow(lits, rowVars, columnVars, m - 1, RowStart(m - 1, |columnVars|), |columnVars|));
    if i < m - 1 {
      GridRowsFire(a, lits, rowVars, columnVars, m - 1, i, j);
    } else {
      GridRowFires(a, lits, rowVars, columnVars, i, RowStart(i, |columnVars|), |columnVars|, j);
    }
  }

  lemma {:induction false} GridRowWithin(lits: seq<int>, rowVars: seq<int>, columnVars: seq<int>, i: nat, start: nat, j: nat, bound: nat)
    requires i < |rowVars| && j <= |columnVars|
    requires LitsWithin(lits, bound) && LitsWithin(rowVars, bound) && LitsWithin(columnVars, bound)
    ensures ClausesWithin(GridRow(lits, rowVars, columnVars, i, start, j), bound)
  {
    if j > 0 {
      GridRowWithin(lits, rowVars, columnVars, i, start, j - 1, bound);
      var k := start + j - 1;
      if k < |lits| {
        assert lits[k] in lits && rowVars[i] in rowVars && columnVars[j - 1] in columnVars;
      }
      ClausesWithinAppend(GridRow(lits, rowVars, columnVars, i, start, j - 1), CellClauses(lits, rowVars, columnVars, i, k, j - 1), bound);
    }
  }

  /** The grid clauses mention only the literals and the row and column variables. */
  lemma {:induction false} GridRowsWithin(lits: seq<int>, rowVars: seq<int>, columnVars: seq<int>, m: nat, bound: nat)
    requires m <= |rowVars|
    requires LitsWithin(lits, bound) && LitsWithin(rowVars, bound) && LitsWithin(columnVars, bound)
    ensures ClausesWithin(GridRows(lits, rowVars, columnVars, m), bound)
  {
    if m > 0 {
      GridRowsWithin(lits, rowVars, columnVars, m - 1, bound);
      GridRowWithin(lits, rowVars, columnVars, m - 1, RowStart(m - 1, |columnVars|), |columnVars|, bound);
      ClausesWithinAppend(GridRows(lits, rowVars, columnVars, m - 1),
        GridRow(lits, rowVars, columnVars, m - 1, RowStart(m - 1, |columnVars|), |columnVars|), bound);
    }
  }

  // ---------------------------------------------------------------------------
  // at_most_one_of / exactly_one_of

  /** The fresh row variables of the grid step in state `e`. */
  function RowVars(lits: seq<int>, e: Cnf): seq<int>
  {
    Consecutive(e.varCount + 1, FloorSqrt(|lits|))
  }

  /** The fresh column variables, allocated right after the row variables. */
  function ColumnVars(lits: seq<int>, e: Cnf): seq<int>
    requires |lits| >= PairwiseLimit
  {
    GridShape(|lits|);
    Consecutive(e.varCount + FloorSqrt(|lits|) + 1, Columns(|lits|, FloorSqrt(|lits|)))
  }

  /** The state after allocating the row and column variables and adding the
      two implication clauses of every literal. */
  function GridStep(lits: seq<int>, e: Cnf): Cnf
    requires |lits| >= PairwiseLimit
  {
    var rowVars, columnVars := RowVars(lits, e), ColumnVars(lits, e);
    Cnf(e.varCount + |rowVars| + |columnVars|, e.clauses + Grid(lits, rowVars, columnVars))
  }

  /** How many of the literal indices below `cells` exist in a list of `n`. */
  function Filled(n: nat, cells: nat): nat
  {
    if cells <= n then cells else n
  }

  /** The literals of consecutive runs of cells add up. */
  lemma {:induction false} FilledAdd(p: int, r: int, n: nat, s: nat, c: nat)
    requires p == 2 * Filled(n, s) && r == 2 * (Filled(n, s + c) - Filled(n, s))
    ensures p + r == 2 * Filled(n, s + c)
  {
  }

  /** Row `i` holds two clauses for each of its first `j` cells that has a
      literal, that is for each index from `start` to `start + j - 1` below `|lits|`. */
  lemma {:induction false} GridRowCount(lits: seq<int>, rowVars: seq<int>, columnVars: seq<int>, i: nat, start: nat, j: nat)
    requires i < |rowVars| && j <= |columnVars|
    ensures |GridRow(lits, rowVars, columnVars, i, start, j)| == 2 * (Filled(|lits|, start + j) - Filled(|lits|, start))
  {
    if j > 0 {
      GridRowCount(lits, rowVars, columnVars, i, start, j - 1);
    }
  }

  /** The clause count of the first `m` rows, added up row by row. */
  function RowsLength(n: nat, columns: nat, m: nat): int
  {
    if m == 0 then 0
    else
      RowsLength(n, columns, m - 1)
        + 2 * (Filled(n, RowStart(m - 1, columns) + columns) - Filled(n, RowStart(m - 1, columns)))
  }

  /** Row `m - 1` adds its own count to the first `m - 1` rows. */
  lemma {:induction false} GridRowsLength(lits: seq<int>, rowVars: seq<int>, columnVars: seq<int>, m: nat)
    requires m <= |rowVars|
    ensures |GridRows(lits, rowVars, columnVars, m)| == RowsLength(|lits|, |columnVars|, m)
  {
    if m > 0 {
      var start := RowStart(m - 1, |columnVars|);
      assert |GridRows(lits, rowVars, columnVars, m - 1)| == RowsLength(|lits|, |columnVars|, m - 1) by {
        GridRowsLength(lits, rowVars, columnVars, m - 1);
      }
      assert |GridRow(lits, rowVars, columnVars, m - 1, start, |columnVars|)|
          == 2 * (Filled(|lits|, start + |columnVars|) - Filled(|lits|, start)) by {
        GridRowCount(lits, rowVars, columnVars, m - 1, start, |columnVars|);
      }
      GridRowsNext(lits, rowVars, columnVars, m - 1, m);
    }
  }

  /** The per-row counts add up to two clauses per literal among the first
      `m * columns` cells. */
  lemma {:induction false} RowsLengthIs(n: nat, columns: nat, m: nat)
    ensures RowsLength(n, columns, m) == 2 * Filled(n, RowStart(m, columns))
  {
    if m > 0 {
      RowsLengthIs(n, columns, m - 1);
      FilledAdd(RowsLength(n, columns, m - 1),
        2 * (Filled(n, RowStart(m - 1, columns) + columns) - Filled(n, RowStart(m - 1, columns))),
        n, RowStart(m - 1, columns), columns);
    }
  }

  /** The first `m` rows hold two clauses per literal among their
      `m * columns` cells. */
  lemma {:induction false} GridRowsCount(lits: seq<int>, rowVars: seq<int>, columnVars: seq<int>, m: nat)
    requires m <= |rowVars|
    ensures |GridRows(lits, rowVars, columnVars, m)| == 2 * Filled(|lits|, RowStart(m, |columnVars|))
  {
    GridRowsLength(lits, rowVars, columnVars, m);
    RowsLengthIs(|lits|, |columnVars|, m);
  }

  /** When the grid has a cell for every literal, each literal gets exactly
      two implication clauses: `2 * n` clauses in all. */
  lemma {:induction false} GridCount(lits: seq<int>, rowVars: seq<int>, columnVars: seq<int>)
    requires |lits| <= |rowVars| * |columnVars|
    ensures |Grid(lits, rowVars, columnVars)| == 2 * |lits|
  {
    GridRowsCount(lits, rowVars, columnVars, |rowVars|);
    RowStartIs(|rowVars|, |columnVars|);
  }

  lemma {:induction false} GridStepFacts(lits: seq<int>, e: Cnf)
    requires |lits| >= PairwiseLimit
    ensures var rowVars, columnVars := RowVars(lits, e), ColumnVars(lits, e);
      && 4 <= |rowVars| < |lits| && 1 <= |columnVars| < |lits|
      && (forall i :: 0 <= i < |rowVars| ==> rowVars[i] == e.varCount + 1 + i)
      && (forall j :: 0 <= j < |columnVars| ==> columnVars[j] == e.varCount + |rowVars| + 1 + j)
      && GridStep(lits, e) == Cnf(e.varCount + |rowVars| + |columnVars|, e.clauses + Grid(lits, rowVars, columnVars))
      && |GridStep(lits, e).clauses| == |e.clauses| + 2 * |lits|
  {
    GridShape(|lits|);
    GridCount(lits, RowVars(lits, e), ColumnVars(lits, e));
  }

  /** Every literal has a cell on the grid. */
  lemma {:induction false} GridCover(lits: seq<int>, e: Cnf, k: nat) returns (i: nat, j: nat)
    requires |lits| >= PairwiseLimit && k < |lits|
    ensures i < |RowVars(lits, e)| && j < |ColumnVars(lits, e)| && k == RowStart(i, |ColumnVars(lits, e)|) + j
  {
    GridShape(|lits|);
    i, j := GridCell(k, FloorSqrt(|lits|), Columns(|lits|, FloorSqrt(|lits|)));
    RowStartIs(i, Columns(|lits|, FloorSqrt(|lits|)));
  }

  /** The state after `at_most_one_of(lits)` in state `e`. */
  function AtMostOne(lits: seq<int>, e: Cnf): Cnf
    decreases |lits|, 1
  {
    if |lits| < PairwiseLimit then Cnf(e.varCount, e.clauses + Pairwise(lits))
    else GridReduce(lits, e)
  }

  /** A long list: the grid step, then `at_most_one_of` over the row
      variables and over the column variables. */
  function GridReduce(lits: seq<int>, e: Cnf): Cnf
    requires |lits| >= PairwiseLimit
    decreases |lits|, 0
  {
    GridShape(|lits|);
    AtMostOne(ColumnVars(lits, e), AtMostOne(RowVars(lits, e), GridStep(lits, e)))
  }

  /** A long list is reduced by the grid step and two smaller calls. */
  lemma {:induction false} AtMostOneGrid(lits: seq<int>, e: Cnf)
    requires |lits| >= PairwiseLimit
    ensures AtMostOne(lits, e) == AtMostOne(ColumnVars(lits, e), AtMostOne(RowVars(lits, e), GridStep(lits, e)))
  {
  }

  /** The state after `exactly_one_of(lits)` in state `e`. */
  function ExactlyOne(lits: seq<int>, e: Cnf): Cnf
  {
    AtMostOne(lits, Cnf(e.varCount, e.clauses + [lits]))
  }

  lemma {:induction false} ExtendsTrans(e1: Cnf, e2: Cnf, e3: Cnf)
    requires Extends(e1, e2) && Extends(e2, e3)
    ensures Extends(e1, e3)
  {
    assert e1.clauses == e2.clauses[..|e1.clauses|] == e3.clauses[..|e1.clauses|];
  }

  /** Clauses are only appended and the variable counter only goes up. */
  lemma {:induction false} AtMostOneExtends(lits: seq<int>, e: Cnf)
    ensures Extends(e, AtMostOne(lits, e))
    decreases |lits|
  {
    if |lits| >= PairwiseLimit {
      GridStepFacts(lits, e);
      var e1 := GridStep(lits, e);
      var e2 := AtMostOne(RowVars(lits, e), e1);
      AtMostOneExtends(RowVars(lits, e), e1);
      AtMostOneExtends(ColumnVars(lits, e), e2);
      ExtendsTrans(e, e1, e2);
      ExtendsTrans(e, e2, AtMostOne(ColumnVars(lits, e), e2));
    }
  }

  lemma {:induction false} GridStepWellFormed(lits: seq<int>, e: Cnf)
    requires |lits| >= PairwiseLimit
    requires WellFormed(e) && LitsWithin(lits, e.varCount)
    ensures WellFormed(GridStep(lits, e))
    ensures LitsWithin(RowVars(lits, e), GridStep(lits, e).varCount)
    ensures LitsWithin(ColumnVars(lits, e), GridStep(lits, e).varCount)
  {
    GridStepFacts(lits, e);
    var rowVars, columnVars := RowVars(lits, e), ColumnVars(lits, e);
    var bound := GridStep(lits, e).varCount;
    GridRowsWithin(lits, rowVars, columnVars, |rowVars|, bound);
    ClausesWithinAppend(e.clauses, Grid(lits, rowVars, columnVars), bound);
  }

  /** The clauses added only mention the given literals and the fresh variables. */
  lemma {:induction false} AtMostOneWellFormed(lits: seq<int>, e: Cnf)
    requires WellFormed(e) && LitsWithin(lits, e.varCount)
    ensures WellFormed(AtMostOne(lits, e))
    decreases |lits|
  {
    if |lits| < PairwiseLimit {
      forall c | c in Pairwise(lits) ensures LitsWithin(c, e.varCount) {
        PairsUpToForm(lits, |lits|, c);
        var j, k :| 0 <= j < k < |lits| && c == [-lits[j], -lits[k]];
        assert lits[j] in lits && lits[k] in lits;
      }
      ClausesWithinAppend(e.clauses, Pairwise(lits), e.varCount);
    } else {
      GridStepFacts(lits, e);
      GridStepWellFormed(lits, e);
      var e1 := GridStep(lits, e);
      AtMostOneWellFormed(RowVars(lits, e), e1);
      var e2 := AtMostOne(RowVars(lits, e), e1);
      AtMostOneExtends(RowVars(lits, e), e1);
      assert LitsWithin(ColumnVars(lits, e), e2.varCount);
      AtMostOneWellFormed(ColumnVars(lits, e), e2);
    }
  }

  /** The grid clauses make a true literal's row and column variables true. */
  lemma {:induction false} GridFires(lits: seq<int>, e: Cnf, a: Assignment, i: nat, j: nat)
    requires |lits| >= PairwiseLimit
    requires Satisfies(a, GridStep(lits, e).clauses)
    requires i < |RowVars(lits, e)| && j < |ColumnVars(lits, e)|
    requires RowStart(i, |ColumnVars(lits, e)|) + j < |lits|
    requires lits[RowStart(i, |ColumnVars(lits, e)|) + j] != 0
    requires Holds(a, lits[RowStart(i, |ColumnVars(lits, e)|) + j])
    ensures Holds(a, RowVars(lits, e)[i]) && Holds(a, ColumnVars(lits, e)[j])
  {
    GridStepFacts(lits, e);
    var rowVars, columnVars := RowVars(lits, e), ColumnVars(lits, e);
    SatisfiesAppend(a, e.clauses, Grid(lits, rowVars, columnVars));
    GridRowsFire(a, lits, rowVars, columnVars, |rowVars|, i, j);
  }

  /** Soundness: every assignment satisfying the clauses (auxiliaries
      included) makes at most one of the literals true. */
  lemma {:induction false} AtMostOneSound(lits: seq<int>, e: Cnf, a: Assignment)
    requires 0 !in lits
    requires Satisfies(a, AtMostOne(lits, e).clauses)
    ensures AtMostOneTrue(a, lits)
    decreases |lits|
  {
    if |lits| < PairwiseLimit {
      SatisfiesAppend(a, e.clauses, Pairwise(lits));
      PairwiseMeaning(a, lits);
    } else {
      GridStepFacts(lits, e);
      var rowVars, columnVars := RowVars(lits, e), ColumnVars(lits, e);
      var e1 := GridStep(lits, e);
      var e2 := AtMostOne(rowVars, e1);
      AtMostOneGrid(lits, e);
      AtMostOneExtends(columnVars, e2);
      SatisfiesPrefix(a, e2.clauses, AtMostOne(columnVars, e2).clauses);
      AtMostOneSound(columnVars, e2, a);
      AtMostOneExtends(rowVars, e1);
      SatisfiesPrefix(a, e1.clauses, e2.clauses);
      AtMostOneSound(rowVars, e1, a);
      forall p, q | 0 <= p < q < |lits| ensures !(Holds(a, lits[p]) && Holds(a, lits[q])) {
        GridSeparates(lits, e, a, p, q);
      }
    }
  }

  /** Two true literals would share their row and column variable, hence their cell. */
  lemma {:induction false} GridSeparates(lits: seq<int>, e: Cnf, a: Assignment, p: nat, q: nat)
    requires |lits| >= PairwiseLimit && 0 !in lits && p < q < |lits|
    requires Satisfies(a, GridStep(lits, e).clauses)
    requires AtMostOneTrue(a, RowVars(lits, e)) && AtMostOneTrue(a, ColumnVars(lits, e))
    ensures !(Holds(a, lits[p]) && Holds(a, lits[q]))
  {
    if Holds(a, lits[p]) && Holds(a, lits[q]) {
      var i1, j1 := GridCover(lits, e, p);
      var i2, j2 := GridCover(lits, e, q);
      assert lits[p] in lits && lits[q] in lits;
      GridFires(lits, e, a, i1, j1);
      GridFires(lits, e, a, i2, j2);
    }
  }

  /** The grid step's values for its fresh variables, given the index `t` of the
      true literal (or -1): only row `RowOf(t, columns)` and column `ColumnOf(t, columns)` are set. */
  function GridAssign(lits: seq<int>, e: Cnf, a: Assignment): Assignment
    requires |lits| >= PairwiseLimit
  {
    GridShape(|lits|);
    var rows := FloorSqrt(|lits|);
    var columns := Columns(|lits|, rows);
    var base := e.varCount;
    var t := FirstTrue(a, lits);
    (v: nat) =>
      if base < v <= base + rows then t >= 0 && v - base - 1 == RowOf(t, columns)
      else if base + rows < v <= base + rows + columns then t >= 0 && v - base - rows - 1 == ColumnOf(t, columns)
      else a(v)
  }

  lemma {:induction false} GridAssignCell(lits: seq<int>, e: Cnf, a: Assignment, i: nat, q: nat)
    requires |lits| >= PairwiseLimit && LitsWithin(lits, e.varCount) && AtMostOneTrue(a, lits)
    requires i < |RowVars(lits, e)| && q < |ColumnVars(lits, e)|
    ensures var rowVars, columnVars := RowVars(lits, e), ColumnVars(lits, e);
      Satisfies(GridAssign(lits, e, a), CellClauses(lits, rowVars, columnVars, i, RowStart(i, |columnVars|) + q, q))
  {
    GridStepFacts(lits, e);
    var rowVars, columnVars := RowVars(lits, e), ColumnVars(lits, e);
    var a1 := GridAssign(lits, e, a);
    var k := RowStart(i, |columnVars|) + q;
    if k < |lits| {
      var x := lits[k];
      assert x in lits;
      assert AgreeUpTo(a, a1, e.varCount);
      HoldsAgree(a, a1, e.varCount, x);
      HoldsNeg(a1, x);
      if Holds(a, x) {
        FirstTrueUnique(a, lits, k);
        RowOfCell(i, q, |columnVars|);
        assert Holds(a1, rowVars[i]) && Holds(a1, columnVars[q]);
        assert rowVars[i] in [-x, rowVars[i]] && columnVars[q] in [-x, columnVars[q]];
      } else {
        assert -x in [-x, rowVars[i]] && -x in [-x, columnVars[q]];
      }
    }
  }

  lemma {:induction false} GridAssignRow(lits: seq<int>, e: Cnf, a: Assignment, i: nat, j: nat)
    requires |lits| >= PairwiseLimit && LitsWithin(lits, e.varCount) && AtMostOneTrue(a, lits)
    requires i < |RowVars(lits, e)| && j <= |ColumnVars(lits, e)|
    ensures var rowVars, columnVars := RowVars(lits, e), ColumnVars(lits, e);
      Satisfies(GridAssign(lits, e, a), GridRow(lits, rowVars, columnVars, i, RowStart(i, |columnVars|), j))
  {
    if j > 0 {
      var rowVars, columnVars := RowVars(lits, e), ColumnVars(lits, e);
      var start := RowStart(i, |columnVars|);
      GridAssignRow(lits, e, a, i, j - 1);
      GridAssignCell(lits, e, a, i, j - 1);
      SatisfiesAppend(GridAssign(lits, e, a), GridRow(lits, rowVars, columnVars, i, start, j - 1),
        CellClauses(lits, rowVars, columnVars, i, start + j - 1, j - 1));
    }
  }

  lemma {:induction false} GridAssignRows(lits: seq<int>, e: Cnf, a: Assignment, m: nat)
    requires |lits| >= PairwiseLimit && LitsWithin(lits, e.varCount) && AtMostOneTrue(a, lits)
    requires m <= |RowVars(lits, e)|
    ensures Satisfies(GridAssign(lits, e, a), GridRows(lits, RowVars(lits, e), ColumnVars(lits, e), m))
  {
    if m > 0 {
      var rowVars, columnVars := RowVars(lits, e), ColumnVars(lits, e);
      var a1 := GridAssign(lits, e, a);
      var earlier := GridRows(lits, rowVars, columnVars, m - 1);
      var last := GridRow(lits, rowVars, columnVars, m - 1, RowStart(m - 1, |columnVars|), |columnVars|);
      assert Satisfies(a1, earlier) by { GridAssignRows(lits, e, a, m - 1); }
      assert Satisfies(a1, last) by { GridAssignRow(lits, e, a, m - 1, |columnVars|); }
      SatisfiesAppend(a1, earlier, last);
    }
  }

  /** The grid step's values satisfy its clauses when at most one literal holds,
      and leave at most one row and one column variable true. */
  lemma {:induction false} GridAssignSatisfies(lits: seq<int>, e: Cnf, a: Assignment)
    requires |lits| >= PairwiseLimit
    requires WellFormed(e) && LitsWithin(lits, e.varCount)
    requires Satisfies(a, e.clauses) && AtMostOneTrue(a, lits)
    ensures Satisfies(GridAssign(lits, e, a), GridStep(lits, e).clauses)
    ensures AtMostOneTrue(GridAssign(lits, e, a), RowVars(lits, e))
    ensures AtMostOneTrue(GridAssign(lits, e, a), ColumnVars(lits, e))
  {
    GridStepFacts(lits, e);
    var rowVars, columnVars := RowVars(lits, e), ColumnVars(lits, e);
    var a1 := GridAssign(lits, e, a);
    assert AgreeUpTo(a, a1, e.varCount);
    SatisfiesAgree(a, a1, e);
    GridAssignRows(lits, e, a, |rowVars|);
    SatisfiesAppend(a1, e.clauses, Grid(lits, rowVars, columnVars));
  }

  /** The assignment completing `a` on the fresh variables of `AtMostOne(lits, e)`. */
  function AtMostOneExtend(lits: seq<int>, e: Cnf, a: Assignment): Assignment
    decreases |lits|, 1
  {
    if |lits| < PairwiseLimit then a else GridExtend(lits, e, a)
  }

  /** The completion for a long list: the grid values, then the completions
      of the row and the column `at_most_one_of`. */
  function GridExtend(lits: seq<int>, e: Cnf, a: Assignment): Assignment
    requires |lits| >= PairwiseLimit
    decreases |lits|, 0
  {
    GridShape(|lits|);
    var e1 := GridStep(lits, e);
    AtMostOneExtend(ColumnVars(lits, e), AtMostOne(RowVars(lits, e), e1), AtMostOneExtend(RowVars(lits, e), e1, GridAssign(lits, e, a)))
  }

  /** The completion only touches the variables `AtMostOne` allocated. */
  lemma {:induction false} AtMostOneFrame(lits: seq<int>, e: Cnf, a: Assignment, v: nat)
    requires v <= e.varCount || v > AtMostOne(lits, e).varCount
    ensures AtMostOneExtend(lits, e, a)(v) == a(v)
    decreases |lits|
  {
    if |lits| >= PairwiseLimit {
      GridStepFacts(lits, e);
      var e1 := GridStep(lits, e);
      var a1 := GridAssign(lits, e, a);
      var e2 := AtMostOne(RowVars(lits, e), e1);
      AtMostOneExtends(RowVars(lits, e), e1);
      AtMostOneExtends(ColumnVars(lits, e), e2);
      AtMostOneFrame(RowVars(lits, e), e1, a1, v);
      AtMostOneFrame(ColumnVars(lits, e), e2, AtMostOneExtend(RowVars(lits, e), e1, a1), v);
    }
  }

  /** Completeness: any assignment with at most one of the literals true
      extends, on the fresh variables only, to one satisfying the new clauses. */
  lemma {:induction false} AtMostOneComplete(lits: seq<int>, e: Cnf, a: Assignment)
    requires WellFormed(e) && LitsWithin(lits, e.varCount)
    requires Satisfies(a, e.clauses) && AtMostOneTrue(a, lits)
    ensures Satisfies(AtMostOneExtend(lits, e, a), AtMostOne(lits, e).clauses)
    decreases |lits|
  {
    if |lits| < PairwiseLimit {
      PairwiseMeaning(a, lits);
      SatisfiesAppend(a, e.clauses, Pairwise(lits));
    } else {
      GridStepFacts(lits, e);
      var rowVars, columnVars := RowVars(lits, e), ColumnVars(lits, e);
      var e1 := GridStep(lits, e);
      var a1 := GridAssign(lits, e, a);
      GridAssignSatisfies(lits, e, a);
      GridStepWellFormed(lits, e);
      AtMostOneComplete(rowVars, e1, a1);
      var a2 := AtMostOneExtend(rowVars, e1, a1);
      var e2 := AtMostOne(rowVars, e1);
      AtMostOneExtends(rowVars, e1);
      AtMostOneWellFormed(rowVars, e1);
      forall p, q | 0 <= p < q < |columnVars| ensures !(Holds(a2, columnVars[p]) && Holds(a2, columnVars[q])) {
        AtMostOneFrame(rowVars, e1, a1, columnVars[p]);
        AtMostOneFrame(rowVars, e1, a1, columnVars[q]);
      }
      AtMostOneComplete(columnVars, e2, a2);
    }
  }

  /** Soundness of `exactly_one_of`: one of the literals holds, and no two do. */
  lemma {:induction false} ExactlyOneSound(lits: seq<int>, e: Cnf, a: Assignment)
    requires 0 !in lits
    requires Satisfies(a, ExactlyOne(lits, e).clauses)
    ensures SomeTrue(a, lits) && AtMostOneTrue(a, lits)
  {
    var e0 := Cnf(e.varCount, e.clauses + [lits]);
    AtMostOneSound(lits, e0, a);
    AtMostOneExtends(lits, e0);
    SatisfiesPrefix(a, e0.clauses, ExactlyOne(lits, e).clauses);
    assert ClauseHolds(a, lits);
    var lit :| lit in lits && Holds(a, lit);
    var i :| 0 <= i < |lits| && lits[i] == lit;
  }

  /** Completeness of `exactly_one_of`. */
  lemma {:induction false} ExactlyOneComplete(lits: seq<int>, e: Cnf, a: Assignment)
    requires WellFormed(e) && LitsWithin(lits, e.varCount)
    requires Satisfies(a, e.clauses) && SomeTrue(a, lits) && AtMostOneTrue(a, lits)
    ensures Satisfies(AtMostOneExtend(lits, Cnf(e.varCount, e.clauses + [lits]), a), ExactlyOne(lits, e).clauses)
  {
    var e0 := Cnf(e.varCount, e.clauses + [lits]);
    var i :| 0 <= i < |lits| && Holds(a, lits[i]);
    assert ClauseHolds(a, lits);
    SatisfiesAppend(a, e.clauses, [lits]);
    assert lits in [lits];
    ClausesWithinAppend(e.clauses, [lits], e.varCount);
    AtMostOneComplete(lits, e0, a);
  }

  // ---------------------------------------------------------------------------
  // A run of `at_most_one_of` calls, one per group of literals, in order

  function AtMostOneEach(groups: seq<seq<int>>, e: Cnf): Cnf
  {
    if groups == [] then e
    else AtMostOne(groups[|groups| - 1], AtMostOneEach(groups[..|groups| - 1], e))
  }

  /** The same run over the first `n` groups, indexed rather than sliced:
      the form a loop over the groups follows step by step. */
  function AtMostOneEachUpTo(groups: seq<seq<int>>, n: nat, e: Cnf): Cnf
    requires n <= |groups|
  {
    if n == 0 then e else AtMostOne(groups[n - 1], AtMostOneEachUpTo(groups, n - 1, e))
  }

  /** Indexing the first `n` groups is running over the prefix of length `n`. */
  lemma {:induction false} AtMostOneEachUpToPrefix(groups: seq<seq<int>>, n: nat, e: Cnf)
    requires n <= |groups|
    ensures AtMostOneEachUpTo(groups, n, e) == AtMostOneEach(groups[..n], e)
  {
    if n > 0 {
      AtMostOneEachUpToPrefix(groups, n - 1, e);
      assert groups[..n][..n - 1] == groups[..n - 1];
    }
  }

  predicate AllAtMostOne(a: Assignment, groups: seq<seq<int>>)
  {
    forall k :: 0 <= k < |groups| ==> AtMostOneTrue(a, groups[k])
  }

  predicate NoZero(groups: seq<seq<int>>)
  {
    forall k :: 0 <= k < |groups| ==> 0 !in groups[k]
  }

  predicate AllWithin(groups: seq<seq<int>>, bound: nat)
  {
    forall k :: 0 <= k < |groups| ==> LitsWithin(groups[k], bound)
  }

  lemma {:induction false} AllAtMostOneAppend(a: Assignment, xs: seq<seq<int>>, ys: seq<seq<int>>)
    ensures AllAtMostOne(a, xs + ys) <==> AllAtMostOne(a, xs) && AllAtMostOne(a, ys)
  {
    if AllAtMostOne(a, xs + ys) {
      forall k | 0 <= k < |xs| ensures AtMostOneTrue(a, xs[k]) { assert (xs + ys)[k] == xs[k]; }
      forall k | 0 <= k < |ys| ensures AtMostOneTrue(a, ys[k]) { assert (xs + ys)[|xs| + k] == ys[k]; }
    }
  }

  lemma {:induction false} NoZeroAppend(xs: seq<seq<int>>, ys: seq<seq<int>>)
    ensures NoZero(xs + ys) <==> NoZero(xs) && NoZero(ys)
  {
    if NoZero(xs + ys) {
      forall k | 0 <= k < |xs| ensures 0 !in xs[k] { assert (xs + ys)[k] == xs[k]; }
      forall k | 0 <= k < |ys| ensures 0 !in ys[k] { assert (xs + ys)[|xs| + k] == ys[k]; }
    }
  }

  lemma {:induction false} AllWithinAppend(xs: seq<seq<int>>, ys: seq<seq<int>>, bound: nat)
    ensures AllWithin(xs + ys, bound) <==> AllWithin(xs, bound) && AllWithin(ys, bound)
  {
    if AllWithin(xs + ys, bound) {
      forall k | 0 <= k < |xs| ensures LitsWithin(xs[k], bound) { assert (xs + ys)[k] == xs[k]; }
      forall k | 0 <= k < |ys| ensures LitsWithin(ys[k], bound) { assert (xs + ys)[|xs| + k] == ys[k]; }
    }
  }

  /** Running the groups of `xs + ys` is running those of `xs`, then those of `ys`. */
  lemma {:induction false} AtMostOneEachAppend(xs: seq<seq<int>>, ys: seq<seq<int>>, e: Cnf)
    ensures AtMostOneEach(xs + ys, e) == AtMostOneEach(ys, AtMostOneEach(xs, e))
  {
    if ys == [] {
      assert xs + ys == xs;
    } else {
      var zs := xs + ys;
      assert zs[..|zs| - 1] == xs + ys[..|ys| - 1];
      AtMostOneEachAppend(xs, ys[..|ys| - 1], e);
    }
  }

  /** One more group is one more `at_most_one_of` call. */
  lemma {:induction false} AtMostOneEachLast(xs: seq<seq<int>>, g: seq<int>, e: Cnf)
    ensures AtMostOneEach(xs + [g], e) == AtMostOne(g, AtMostOneEach(xs, e))
  {
    assert (xs + [g])[..|xs|] == xs;
  }

  lemma {:induction false} AtMostOneEachExtends(groups: seq<seq<int>>, e: Cnf)
    ensures Extends(e, AtMostOneEach(groups, e))
  {
    if groups != [] {
      var prev := AtMostOneEach(groups[..|groups| - 1], e);
      AtMostOneEachExtends(groups[..|groups| - 1], e);
      AtMostOneExtends(groups[|groups| - 1], prev);
      ExtendsTrans(e, prev, AtMostOneEach(groups, e));
    }
  }

  lemma {:induction false} AtMostOneEachWellFormed(groups: seq<seq<int>>, e: Cnf)
    requires WellFormed(e) && AllWithin(groups, e.varCount)
    ensures WellFormed(AtMostOneEach(groups, e))
  {
    if groups != [] {
      var init := groups[..|groups| - 1];
      var prev := AtMostOneEach(init, e);
      assert AllWithin(init, e.varCount) by {
        forall k | 0 <= k < |init| ensures LitsWithin(init[k], e.varCount) { assert init[k] == groups[k]; }
      }
      AtMostOneEachWellFormed(init, e);
      AtMostOneEachExtends(init, e);
      assert LitsWithin(groups[|groups| - 1], prev.varCount);
      AtMostOneWellFormed(groups[|groups| - 1], prev);
    }
  }

  /** Soundness of the whole run: every group has at most one true literal. */
  lemma {:induction false} AtMostOneEachSound(groups: seq<seq<int>>, e: Cnf, a: Assignment)
    requires NoZero(groups)
    requires Satisfies(a, AtMostOneEach(groups, e).clauses)
    ensures Satisfies(a, e.clauses) && AllAtMostOne(a, groups)
  {
    if groups != [] {
      var init, last := groups[..|groups| - 1], groups[|groups| - 1];
      assert groups == init + [last];
      NoZeroAppend(init, [last]);
      var prev := AtMostOneEach(init, e);
      AtMostOneSound(last, prev, a);
      AtMostOneExtends(last, prev);
      SatisfiesPrefix(a, prev.clauses, AtMostOne(last, prev).clauses);
      AtMostOneEachSound(init, e, a);
      AllAtMostOneAppend(a, init, [last]);
    }
  }

  /** The completion of `a` through every group of the run. */
  function AtMostOneEachExtend(groups: seq<seq<int>>, e: Cnf, a: Assignment): Assignment
  {
    if groups == [] then a
    else
      var init := groups[..|groups| - 1];
      AtMostOneExtend(groups[|groups| - 1], AtMostOneEach(init, e), AtMostOneEachExtend(init, e, a))
  }

  lemma {:induction false} AtMostOneEachFrame(groups: seq<seq<int>>, e: Cnf, a: Assignment, v: nat)
    requires v <= e.varCount || v > AtMostOneEach(groups, e).varCount
    ensures AtMostOneEachExtend(groups, e, a)(v) == a(v)
  {
    if groups != [] {
      var init := groups[..|groups| - 1];
      var prev := AtMostOneEach(init, e);
      AtMostOneEachExtends(init, e);
      AtMostOneExtends(groups[|groups| - 1], prev);
      AtMostOneFrame(groups[|groups| - 1], prev, AtMostOneEachExtend(init, e, a), v);
      AtMostOneEachFrame(init, e, a, v);
    }
  }

  /** Completeness of the whole run: an assignment with at most one true literal
      per group extends, on the fresh variables only, to a model of all clauses. */
  lemma {:induction false} AtMostOneEachComplete(groups: seq<seq<int>>, e: Cnf, a: Assignment)
    requires WellFormed(e) && AllWithin(groups, e.varCount)
    requires Satisfies(a, e.clauses) && AllAtMostOne(a, groups)
    ensures Satisfies(AtMostOneEachExtend(groups, e, a), AtMostOneEach(groups, e).clauses)
  {
    if groups != [] {
      var init, last := groups[..|groups| - 1], groups[|groups| - 1];
      assert groups == init + [last];
      AllAtMostOneAppend(a, init, [last]);
      AllWithinAppend(init, [last], e.varCount);
      AtMostOneEachComplete(init, e, a);
      var prev := AtMostOneEach(init, e);
      var b := AtMostOneEachExtend(init, e, a);
      AtMostOneEachWellFormed(init, e);
      AtMostOneEachExtends(init, e);
      assert LitsWithin(last, e.varCount) && AtMostOneTrue(a, last);
      forall p, q | 0 <= p < q < |last| ensures !(Holds(b, last[p]) && Holds(b, last[q])) {
        assert last[p] in last && last[q] in last;
        AtMostOneEachFrame(init, e, a, if last[p] > 0 then last[p] else -last[p]);
        AtMostOneEachFrame(init, e, a, if last[q] > 0 then last[q] else -last[q]);
      }
      AtMostOneComplete(last, prev, b);
    }
  }
}
