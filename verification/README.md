# Storage planning with a SAT solver, in Dafny

This project models the storage planner of `sat-intro-nook`. Each item is stored
for an inclusive range of days `[begin, end]`. It occupies `width` adjacent slots
of a storage of `max_storage` slots, and it has a category (its `type`).

The planner looks for a start offset per item with three properties:

- items stored on a common day never overlap;
- items of the same category keep at least one free slot between them;
- the number of slots used is as small as possible.

It encodes the problem as CNF clauses for an incremental SAT solver. Fresh
variables come from a counter. Each item gets one placement variable per start
offset, constrained by "exactly one". A chain of limit literals marks the unused
slots as a thermometer. Occupancy tables list, for every (day, slot) cell, the
placements that cover it, and "at most one" is applied to each cell. Below 16
literals that constraint is pairwise; from 16 up it is a recursive row/column
grid with auxiliary variables. The driver then alternates `solve` with
`improve_solution`, which adds unit clauses that force the used width strictly
down, until the solver answers "unsatisfiable".

The project also models the instance generator of `generate_schedule.py`: the
sweep over shuffled days that places random tasks and never lets the total
width on a day pass the per-day capacity.

Modules:

- `Cnf` (cnf.dfy): literals as non-zero integers, clauses as `seq<int>`,
  assignments as `nat -> bool`, and the state `Cnf(varCount, clauses)` of an
  encoder.
- `Layout` (layout.dfy): items, the day count, and the reference definition
  `Fits(items, maxStorage, positions, used)` of a valid layout within `used`
  slots. It is independent of any clauses.
- `Encoding`, `Cardinality`, `Allocation`, `Occupancy` (encoding.dfy,
  cardinality.dfy, allocation.dfy, occupancy.dfy): the clauses the planner
  emits, as functions of the state before each step, and their meaning.
- `Soundness`, `Completeness`, `Optimality` (soundness.dfy, completeness.dfy,
  optimality.dfy): every model of the clauses decodes to a valid layout, every
  valid layout is the decoding of some model, and "unsatisfiable" after
  tightening means the stored layout is optimal.
- `Engine` (engine.dfy): the solver as an object that collects clauses and
  answers through a sound decision function.
- `Tables` (tables.dfy): the nested loops that fill the occupancy tables.
- `Planner` (planner.dfy): the `PlanStorage` class, whose methods update the
  variable counter, the clause counter, the placements, the limit literals, the
  occupancy table and the solution in place. Each method is proved equal to
  the specification function of its step. `Optimize` is the `__main__` driver.
- `Schedule` (schedule.dfy): the `while candidates` sweep over an array of
  per-day counts.

## Model

| member | source | states |
|---|---|---|
| Engine.Solver.constructor | pycadical.py:86-88 | a new solver holds no clauses and answers through the given sound decision function |
| Engine.Solver.AddClause | pycadical.py:163-166 | the clause is appended after all earlier ones, which stay unchanged |
| Engine.Solver.Solve | pycadical.py:99-117 | the answer is the decision for the clauses held; a model becomes the one `val` reads, otherwise the last model is kept |
| Engine.Solver.Val | pycadical.py:119-120 | IPASIR's `val` gives back the literal when it is true and its negation when it is false, so `> 0` is the value of the literal's variable in the last model: whether a positive literal holds, the opposite for a negative one; a 0 literal is refused |
| Planner.PlanStorage.constructor | plan_storage_optimize.py:8-20 | after construction the solver holds exactly the generated encoding of the items, the placements and limit literals are the encoding's variables, no solution is stored, and the class invariant holds |
| Planner.PlanStorage.NewVar | plan_storage_optimize.py:22-24 | the counter rises by one and the returned id is its new value, so ids are never reused |
| Planner.PlanStorage.NewVars | plan_storage_optimize.py:22-24 | `count` calls of `new_var` return the consecutive ids just above the old counter |
| Planner.PlanStorage.AddClause | plan_storage_optimize.py:26-28 | the clause counter rises by exactly one and exactly that clause is appended to the solver |
| Planner.PlanStorage.AtMostOneOf | plan_storage_optimize.py:93-113 | the new encoder state is the at-most-one encoding of the literals applied to the old state; the clause counter tracks the clauses added |
| Planner.PlanStorage.AddPairs | plan_storage_optimize.py:94-96 | the clauses appended are `[-a, -b]` for every pair of `combinations(literals, 2)`, in that order |
| Planner.PlanStorage.AddPairRow | plan_storage_optimize.py:95-96 | the clauses appended are the pairs whose first literal is `lits[i]` |
| Planner.PlanStorage.AddGrid | plan_storage_optimize.py:98-111 | the row and column variables are fresh ids and the new state is the grid step; both recursive calls receive strictly fewer literals than the input, so the recursion terminates |
| Planner.PlanStorage.AddGridClauses | plan_storage_optimize.py:104-110 | the clauses appended are the two implications of every cell that holds a literal |
| Planner.PlanStorage.AddGridRow | plan_storage_optimize.py:105-110 | the clauses appended are those of the cells of row `i`, for `k = i * columns + j < n` |
| Planner.PlanStorage.ExactlyOneOf | plan_storage_optimize.py:89-91 | the disjunction of the literals is appended, then at most one of them |
| Planner.PlanStorage.PlaceEachItem | plan_storage_optimize.py:38-48 | the new state and placements are those of the placement stage of the encoding over all items |
| Planner.PlanStorage.PlaceItem | plan_storage_optimize.py:42-46 | one fresh variable per start offset, followed by "exactly one" over them |
| Planner.PlanStorage.LimitStorage | plan_storage_optimize.py:50-54 | one fresh limit literal per slot, then the chain clauses `[-limit[i], limit[i+1]]` |
| Planner.PlanStorage.EmitCells | plan_storage_optimize.py:67-69 | at most one of every cell of the filled table, day by day and slot by slot |
| Planner.PlanStorage.AtMostOneOfEach | plan_storage_optimize.py:67-69 | at most one of each group in turn |
| Planner.PlanStorage.NoOverlap | plan_storage_optimize.py:56-69 | each cell of the table holds its slot's limit literal followed by every placement covering it; the new state adds at most one of each cell |
| Planner.PlanStorage.SeparateSameType | plan_storage_optimize.py:71-87 | a table one slot wider, filled only by items of the category with footprints one slot wider; the new state adds at most one of each cell |
| Planner.PlanStorage.ItemsFit | plan_storage_optimize.py:62-65 | every day of every item is below the day count, and every `position + i` stays inside a table row (below `max_storage`, or below `max_storage + 1` for the same-category table) |
| Planner.PlanStorage.GenerateConstraints | plan_storage_optimize.py:30-36 | the solver ends up holding exactly the full encoding for the order in which the categories were visited, and that order lists each category of the items exactly once |
| Planner.PlanStorage.SeparateEachCategory | plan_storage_optimize.py:35-36 | one same-category pass per category of the set, each category once |
| Planner.PlanStorage.SeparateCategories | plan_storage_optimize.py:35-36 | the loop takes every category of the items out of the set once, and the state is the same-category passes in the order taken |
| Planner.PendingDone | plan_storage_optimize.py:35 | iterating the set of types to exhaustion visits every category of the items and only those |
| Planner.PlanStorage.Solve | plan_storage_optimize.py:115-121 | the answer is sound; on a model the stored solution is its read-back, a valid layout using at most the tightened width; on "unsatisfiable" every valid layout uses more slots than that width; otherwise the solution is kept |
| Planner.PlanStorage.StoreSolution | plan_storage_optimize.py:123-140 | given placement and limit literals that are variable ids, as `new_var` makes them, the stored solution is the storage size minus the number of true limit literals, together with the first true placement offset of each item |
| Planner.PlanStorage.CountLimitsTrue | plan_storage_optimize.py:124-125 | for limit literals that are variable ids, the sum is the number of limit literals true in the model |
| Planner.PlanStorage.PlacedPositions | plan_storage_optimize.py:131-135 | one position per item, each the first offset whose placement is true |
| Planner.PlanStorage.FirstPlaced | plan_storage_optimize.py:132-135 | the first offset whose placement variable is true, or -1 when none is |
| Planner.PlanStorage.ImproveSolution | plan_storage_optimize.py:142-145 | the stored width is at least 1, and unit clauses are appended on the limit literals from `used_storage - 1` to the end; earlier clauses and the solution are unchanged |
| Planner.PlanStorage.AddUnits | plan_storage_optimize.py:144-145 | the clauses appended are the units `[limit[i]]` for `i` from `lo` to `max_storage - 1` |
| Planner.Optimize | plan_storage_optimize.py:174-198 | "no solution" means no valid layout exists; "found optimum" leaves a valid layout that no valid layout beats; "interrupted" still leaves a valid layout; an interrupted first solve leaves none |
| Planner.ImproveUntilDone | plan_storage_optimize.py:188-198 | the loop ends, because each round's model has a strictly smaller width; the stored solution stays a valid layout; ending on "unsatisfiable" makes it optimal |
| Tables.AddBlock | plan_storage_optimize.py:64-65 | the literal is appended to the cells of slots `p .. p + w - 1` of one day, and to no other cell |
| Tables.AddItemDay | plan_storage_optimize.py:63-65 | on the item's day every slot gains the placements whose footprint covers it, in offset order; other days are unchanged |
| Tables.AddItem | plan_storage_optimize.py:76-83 | items of another category are skipped; otherwise every cell gains exactly the item's contribution |
| Tables.Fill | plan_storage_optimize.py:61-65 | every cell ends with its initial contents followed by the occupants the items append to it, in item order |
| Cardinality.PairwiseMeaning | plan_storage_optimize.py:94-96 | the pairwise clauses hold exactly when at most one literal is true (both directions) |
| Cardinality.PairwiseCount | plan_storage_optimize.py:95-96 | there are exactly n(n-1)/2 pairwise clauses |
| Cardinality.FloorSqrtMeaning | plan_storage_optimize.py:98 | the integer square root `r` satisfies `r*r <= n < (r+1)*(r+1)` |
| Cardinality.CeilDivMeaning | plan_storage_optimize.py:99 | `columns` is `(n + rows - 1) // rows` |
| Cardinality.GridShape | plan_storage_optimize.py:98-102 | from 16 literals up there are at least 4 rows, fewer rows and fewer columns than literals, and `rows * columns >= n` |
| Cardinality.GridStepFacts | plan_storage_optimize.py:98-110 | the row variables and then the column variables are consecutive fresh ids above the counter, at least 4 rows, both lists shorter than the input, and the step appends exactly `2 * n` clauses |
| Cardinality.GridRowsLength | plan_storage_optimize.py:104-110 | the first `m` rows of the nested loops hold the clauses of the first `m - 1` rows plus two per literal among row `m - 1`'s cells |
| Cardinality.GridRowsCount | plan_storage_optimize.py:104-110 | the first `m` rows of the nested loops append two clauses per literal among their `m * columns` cells |
| Cardinality.GridCount | plan_storage_optimize.py:104-110 | with a cell for every literal, the grid holds exactly `2 * n` clauses, two implications per literal |
| Cardinality.GridCover | plan_storage_optimize.py:104-108 | every literal index `k` is the cell `(i, j)` with `k = i * columns + j` of some row and column |
| Cardinality.RowOfCell | plan_storage_optimize.py:106 | the cell `i * columns + j` lies in row `i` and column `j`, so each literal has exactly one cell |
| Cardinality.GridFires | plan_storage_optimize.py:107-110 | a true literal forces its row variable and its column variable true |
| Cardinality.GridSeparates | plan_storage_optimize.py:104-113 | with at most one row and one column variable true, two distinct literals are never both true |
| Cardinality.AtMostOneSound | plan_storage_optimize.py:93-113 | every assignment satisfying the clauses, pairwise or grid, has at most one of the literals true |
| Cardinality.AtMostOneComplete | plan_storage_optimize.py:93-113 | every assignment with at most one literal true extends over the auxiliary variables to satisfy the clauses |
| Cardinality.AtMostOneWellFormed | plan_storage_optimize.py:101-102 | every literal the encoding emits, auxiliaries included, is a non-zero variable allocated by the counter |
| Cardinality.AtMostOneExtends | plan_storage_optimize.py:93-113 | the encoding never lowers the counter and only appends clauses |
| Allocation.PlacedGrows | plan_storage_optimize.py:38-48 | placing more items never lowers the counter and only appends clauses |
| Cardinality.AtMostOneFrame | plan_storage_optimize.py:101-102 | the extension only sets the auxiliaries the call allocates |
| Cardinality.ExactlyOneSound | plan_storage_optimize.py:89-91 | every model has some literal true and at most one |
| Cardinality.ExactlyOneComplete | plan_storage_optimize.py:89-91 | every assignment with exactly one literal true extends to a model |
| Cardinality.AtMostOneEachSound | plan_storage_optimize.py:67-69 | a model of the per-cell encodings has at most one true literal in every cell and satisfies the earlier clauses |
| Cardinality.AtMostOneEachComplete | plan_storage_optimize.py:67-69 | an assignment with at most one true literal per cell extends to a model of all the per-cell encodings |
| Allocation.PlacementCount | plan_storage_optimize.py:42-44 | each item gets `max_storage - width + 1` placement variables (none when it is wider than the storage) |
| Allocation.PlacementVar | plan_storage_optimize.py:42-44 | item `i`'s variable for offset `p` is the id just above the counter before the item, plus `p` |
| Allocation.EncodingVarIds | plan_storage_optimize.py:22-24 | every placement variable and limit literal the encoding allocates is a positive id, since `new_var` counts up from 1 |
| Allocation.PlacementVarsDistinct | plan_storage_optimize.py:22-24 | two different (item, offset) pairs never share a variable |
| Allocation.LimitNotPlacement | plan_storage_optimize.py:51 | no limit literal is a placement variable |
| Allocation.ChainShape | plan_storage_optimize.py:53-54 | the chain has `max_storage - 1` clauses, clause `s` being `[-limit[s], limit[s+1]]` |
| Allocation.ChainMeaning | plan_storage_optimize.py:53-54 | the chain holds exactly when the true limits are upward closed (both directions) |
| Allocation.Thermometer | plan_storage_optimize.py:124-125 | under the chain, `max_storage` minus the number of true limits is the index of the first true limit |
| Allocation.UsedStorageOfThreshold | plan_storage_optimize.py:124-125 | limits true exactly from slot `used` on read back as `used` and satisfy the chain |
| Allocation.UnitsMeaning | plan_storage_optimize.py:144-145 | the unit clauses hold exactly when every limit from `lo` on is true |
| Allocation.LimitUnitsHold | plan_storage_optimize.py:144-145 | all the units added by successive improvements hold when the limits from the last bound on are true |
| Cnf.FirstTrueMeaning | plan_storage_optimize.py:131-135 | the position is -1 exactly when no placement is true, and otherwise the first true one |
| Cnf.FirstTrueUnique | plan_storage_optimize.py:131-135 | under at most one, the position is the unique true placement |
| Layout.MaxEndMeaning | plan_storage_optimize.py:14 | the day count is one more than an `end` that no item's `end` exceeds |
| Layout.DaysInRange | plan_storage_optimize.py:62 | every day an item covers is below the day count |
| Layout.PositionCountMeaning | plan_storage_optimize.py:42 | an offset has a placement variable exactly when the item then fits in the storage |
| Layout.FitsUsesSome | plan_storage_optimize.py:143-144 | a valid layout of a non-empty table uses at least one slot, so `used_storage - 1` is a valid index |
| Occupancy.OccupantsExact | plan_storage_optimize.py:61-65 | when placements are exactly at given offsets that share no slot, at most one occupant of a cell is true, and a true one belongs to an item covering the cell |
| Occupancy.CellHas | plan_storage_optimize.py:61-65 | every placement whose footprint covers a cell is among that cell's occupants |
| Soundness.PlacedSound | plan_storage_optimize.py:38-48 | every model makes exactly one placement of each item true |
| Soundness.DecodedPosition | plan_storage_optimize.py:131-135 | in every model each decoded position lies in `[0, max_storage - width]` and its placement is true |
| Soundness.OverlapConflict | plan_storage_optimize.py:56-69 | two items covering the same cell on a shared day are never both placed there |
| Soundness.CategoryConflict | plan_storage_optimize.py:71-87 | two same-category items whose widened footprints share a cell are never both placed there |
| Soundness.EncodeSound | plan_storage_optimize.py:30-36 | every model decodes to a valid layout within the decoded width: inside the storage, no overlap on a shared day, a free slot between items of one category |
| Soundness.WideItemUnsat | plan_storage_optimize.py:42-46 | an item wider than the storage makes the clauses unsatisfiable |
| Completeness.GroupsComplete | plan_storage_optimize.py:56-87 | the assignment of a valid layout has at most one true literal in every occupancy cell |
| Completeness.EncodeComplete | plan_storage_optimize.py:30-36 | every valid layout within `used` slots is the decoding of a model whose limits are true exactly from slot `used` on |
| Optimality.EncodeMonotone | plan_storage_optimize.py:50-54 | in every model of the encoding the true limits are upward closed |
| Optimality.EncodeDecodes | plan_storage_optimize.py:30-36 | every model of the generated clauses reads back through the stored variables as a valid layout |
| Optimality.EncodeReaches | plan_storage_optimize.py:30-36 | every valid layout comes from a model of the generated clauses |
| Optimality.UnitsBound | plan_storage_optimize.py:142-145 | under the units from `lo` on, the width read back is at most `lo` |
| Optimality.ImprovedBelow | plan_storage_optimize.py:142-145 | after units on the limits from `lo` on, any model reads back a width of at most `lo`; `improve_solution` takes `lo` one below the stored width |
| Optimality.UnsatMeansOptimal | plan_storage_optimize.py:188-198 | when the tightened clauses have no model, every valid layout uses at least the stored width |
| Optimality.UnsatMeansInfeasible | plan_storage_optimize.py:182-186 | when the clauses have no model, no valid layout exists; `Planner.Optimize` applies it to the first solve's "unsatisfiable" for its "no solution" ending |
| Schedule.ExtendLow | generate_schedule.py:35-37 | `limit_low <= low <= selected`, every day of `[low, selected]` has room, and `low` stops at the limit or at a full day |
| Schedule.ExtendHigh | generate_schedule.py:39-41 | `selected <= high <= limit_high`, every day of `[selected, high]` has room, and `high` stops at the limit or at a full day |
| Schedule.Saturate | generate_schedule.py:43-46 | the days of the window are set to the capacity and the others are unchanged |
| Schedule.Room | generate_schedule.py:54-57 | the result is the least remaining capacity over `[begin, end]`: no larger than any day's, equal to some day's |
| Schedule.AddWidth | generate_schedule.py:62-63 | the width is added to every day of `[begin, end]` and to no other day |
| Schedule.EmitTask | generate_schedule.py:48-67 | every `randrange` has a non-empty range; the task lies in the window, has an allowed length, a width between 1 and `max_width` and a valid type; no day passes the capacity |
| Schedule.EmitKeeps | generate_schedule.py:62-67 | emitting a task keeps every sweep invariant and strictly raises the sum of the counts |
| Schedule.SaturateKeeps | generate_schedule.py:43-46 | saturating a window that holds the candidate keeps every sweep invariant and strictly raises the sum of the counts |
| Schedule.LoadAppend | generate_schedule.py:62-67 | a new task adds its width to exactly the days it covers |
| Schedule.TotalGrows | generate_schedule.py:26-67 | raising no count and at least one strictly raises the sum, which bounds the number of rounds |
| Schedule.Generate | generate_schedule.py:19-67 | the sweep ends; every task lies within the days with allowed length, width and type; on every day the tasks are no wider than the capacity; every day ends full |
| Schedule.GeneratedItemsOk | generate_schedule.py:67 | a non-empty generated schedule is a valid item table whose day count is at most the number of days |

## Left out

- Command-line parsing, CSV reading and writing, pandas, timing and printing
  are not modelled. This covers plan_storage_optimize.py:148-180 and 200, and
  generate_schedule.py:1-17 and 69-76, including the final shuffle, the `prune`
  slice and the sort. The variable and clause counts are kept in fields but
  never printed.
- plot_storage.py is not part of this model. It only draws a stored solution.
- The CaDiCaL library is not modelled. The solver is an object that appends
  clauses and answers through a decision function fixed at creation. That
  function may answer "interrupted" at any point, but must be sound: a model
  satisfies every clause, and "unsatisfiable" means no assignment does.
- Engine.Solver.Solve: `KeyboardInterrupt` is an answer of the decision
  function, not an asynchronous exception; the thread, `terminate` and the
  re-raise are not modelled.
- Engine.Solver.Val: a 0 literal is refused. IPASIR defines `val` only for
  nonzero literals. The planner reads back only positive variable ids, so
  the sign rule for negative literals is stated but never exercised.
- Planner.PlanStorage.StoreSolution: it and the read-back methods it calls
  require the placement and limit literals to be positive variable ids.
  `new_var` only hands out such ids, and `Valid()` carries this from
  construction on.
- Planner.Optimize: an interrupt during the first solve is not caught by the
  source and ends the program. It is modelled as the outcome `Aborted`, which
  holds no solution.
- Planner.PlanStorage.constructor: the item table is a sequence of records
  `(begin, end, width, type)`, and item ids are positions in it. It requires
  a non-empty table, with `0 <= begin <= end` and `width >= 1` for every item.
  On an empty table the source's `max()` is not a number and the table
  allocation fails. Rows outside this contract are not modelled. In the
  source, a negative `begin` indexes the occupancy table from its end, an
  item with `begin > end` joins no cell, and an item of width 0 can be
  placed at offset `max_storage` without occupying any slot.
- Planner.PlanStorage.constructor: `max_storage` is a natural number. The
  source reads any integer. A negative value gives every item an empty
  placement list, hence an empty clause, so the program reports "no
  solution" and exits with status 1.
- Planner.PlanStorage.SeparateEachCategory: set iteration order is a
  nondeterministic choice of the next category; the order taken is kept in the
  ghost field `typeOrder`.
- Cardinality.FloorSqrtMeaning: the floating-point `sqrt` and `int()` are
  replaced by an exact integer square root. This agrees with the source
  whenever the floating-point root of the length does not round up to the next
  integer.
- Planner.PlanStorage.StoreSolution: the stored solution is the used width and
  one position per item, not a copy of the table with a `position` column.
  Whether assigning to a row yielded by `iterrows` writes back into that copy
  depends on pandas' copy rules; the model takes the position as written back.
- Schedule.Generate: the shuffled day list is a parameter, required to hold
  only days of the range and every one of them. The four `randrange` results
  are choices within their half-open ranges.
- Schedule.Generate: it requires `1 <= min_length <= max_length`,
  `max_width >= 1` and `types >= 1`. Outside these the source's `randrange`
  or `min()` can raise `ValueError`.
- Schedule.Generate: `days` and the capacity are natural numbers. With a
  negative capacity the source pops every day and emits nothing, which the
  postcondition "every day ends full" does not cover.
- Schedule.Generate: numpy's fixed-width integers are unbounded here; counts
  never exceed the capacity, so nothing wraps.
