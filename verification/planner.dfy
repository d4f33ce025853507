/** `PlanStorage` itself: the object that allocates variables, adds the
    clauses of the encoding to the solver one at a time, reads models back
    and tightens the storage bound, and the driver that repeats solving and
    tightening until no smaller storage use is possible. Every method is
    proved to leave the object in the state the encoding functions describe. */
module Planner {
  import opened Cnf
  import opened Cardinality
  import opened Layout
  import opened Encoding
  import opened Allocation
  import opened Soundness
  import opened Optimality
  import opened Engine
  import opened Occupancy
  import opened Tables

  datatype Option<T> = None | Some(value: T)

  class PlanStorage {
    const solver: Solver
    const items: seq<Item>
    const maxStorage: nat
    const itemCount: nat
    const dayCount: nat

    /** The last variable id handed out. */
    var varCount: nat
    /** The number of clauses added. */
    var clauseCount: nat
    /** The last decoded model, if any. */
    var solution: Option<Solution>
    /** The placement variables of each item, by start offset. */
    var placements: seq<seq<int>>
    /** The limit literals: `limitStorage[s]` means slot `s` is not used. */
    var limitStorage: seq<int>
    /** The occupancy table of `no_overlap`. */
    var occupants: Table
    /** The order in which the categories were visited. */
    ghost var typeOrder: seq<int>
    /** The clauses of `generate_constraints`. */
    ghost var constraints: seq<Clause>
    /** The unit clauses added by `improve_solution` so far. */
    ghost var extra: seq<Clause>
    /** The limit literals from `floor` on are the ones the last
        `improve_solution` fixed (none when it has not run). */
    ghost var floor: int
    /** The unit clauses added before the last `improve_solution`. */
    ghost var earlier: seq<Clause>

    /** The encoder state: the variable counter and the clauses the solver holds. */
    ghost function State(): Cnf
      reads this, solver
    {
      Cnf(varCount, solver.clauses)
    }

    /** What holds between calls once the constraints are generated: the
        solver holds the generated clauses followed by the unit clauses of
        the improvements, every model of the generated clauses reads back as
        a valid layout, every valid layout comes from one of their models,
        and a stored solution is a valid layout. */
    ghost predicate Valid()
      reads this, solver
    {
      && ItemsOk(items) && itemCount == |items| && dayCount == DayCount(items)
      && Sound(solver.decide)
      && |limitStorage| == maxStorage
      && VarIds(placements, limitStorage)
      && clauseCount == |solver.clauses|
      && solver.clauses == constraints + extra
      && Decodes(items, maxStorage, placements, limitStorage, constraints)
      && Reaches(items, maxStorage, limitStorage, constraints)
      && 0 <= floor <= maxStorage
      && extra == earlier + Units(limitStorage, floor, maxStorage)
      && LimitUnits(extra, limitStorage, floor)
      && (solution.Some? ==> Fits(items, maxStorage, solution.value.positions, solution.value.usedStorage))
      && (solution.Some? ==> solution.value.usedStorage <= floor + 1)
    }

    /** The fields set up by `generate_constraints` are those of the encoding. */
    ghost predicate Encoded()
      reads this
    {
      && ItemsOk(items)
      && CategoryOrder(items, typeOrder)
      && placements == Placements(items, maxStorage, |items|)
      && limitStorage == LimitVars(items, maxStorage)
      && constraints == Encode(items, maxStorage, typeOrder).clauses
    }

    /** `__init__`: the day count is one more than the largest `end`, and all
        constraints are generated into the (empty) solver. */
    constructor (solver: Solver, items: seq<Item>, maxStorage: nat)
      requires ItemsOk(items) && Sound(solver.decide) && solver.clauses == []
      modifies solver`clauses
      ensures this.solver == solver && this.items == items && this.maxStorage == maxStorage
      ensures Valid() && solution == None && extra == [] && floor == maxStorage
      ensures Encoded() && State() == Encode(items, maxStorage, typeOrder)
    {
      this.solver := solver;
      this.items := items;
      this.maxStorage := maxStorage;
      itemCount := |items|;
      MaxEndMeaning(items);
      dayCount := MaxEnd(items) + 1;
      varCount := 0;
      clauseCount := 0;
      solution := None;
      placements := [];
      limitStorage := [];
      occupants := [];
      typeOrder := [];
      extra := [];
      constraints := [];
      floor := 0;
      earlier := [];
      new;
      GenerateConstraints();
      EncodingVarIds(items, maxStorage);
      EncodeDecodes(items, maxStorage, typeOrder, placements, limitStorage, solver.clauses);
      EncodeReaches(items, maxStorage, typeOrder, limitStorage, solver.clauses);
      solution := None;
      Seal();
    }

    /** Once `generate_constraints` has filled the solver, its clauses are
        the generated constraints and no improvement has been added yet. */
    ghost method Seal()
      requires ItemsOk(items) && itemCount == |items| && dayCount == DayCount(items)
      requires Sound(solver.decide) && solution == None
      requires |limitStorage| == maxStorage && VarIds(placements, limitStorage) && clauseCount == |solver.clauses|
      requires Decodes(items, maxStorage, placements, limitStorage, solver.clauses)
      requires Reaches(items, maxStorage, limitStorage, solver.clauses)
      modifies this`constraints, this`extra, this`floor, this`earlier
      ensures Valid() && solution == None && extra == [] && floor == maxStorage && constraints == solver.clauses
      ensures typeOrder == old(typeOrder) && placements == old(placements) && limitStorage == old(limitStorage)
    {
      constraints := solver.clauses;
      extra := [];
      earlier := [];
      floor := maxStorage;
      assert constraints + extra == constraints;
    }

    /** `new_var`: the counter goes up by one and its new value is the fresh id. */
    method NewVar() returns (v: int)
      modifies this`varCount
      ensures varCount == old(varCount) + 1 && v == varCount
    {
      varCount := varCount + 1;
      v := varCount;
    }

    /** `count` fresh ids in a row, as the list comprehensions over `new_var` hand them out. */
    method NewVars(count: int) returns (vars: seq<int>)
      requires 0 <= count
      modifies this`varCount
      ensures vars == Consecutive(old(varCount) + 1, count)
      ensures varCount == old(varCount) + count
    {
      vars := [];
      while |vars| < count
        invariant |vars| <= count
        invariant vars == Consecutive(old(varCount) + 1, |vars|)
        invariant varCount == old(varCount) + |vars|
      {
        var v := NewVar();
        vars := vars + [v];
      }
    }

    /** `add_clause`: one more clause, appended to the solver's. */
    method AddClause(c: Clause)
      modifies this`clauseCount, solver`clauses
      ensures clauseCount == old(clauseCount) + 1
      ensures solver.clauses == old(solver.clauses) + [c]
    {
      clauseCount := clauseCount + 1;
      solver.AddClause(c);
    }

    /** `at_most_one_of`: pairwise below 16 literals, otherwise the grid step
        and two recursive calls over its row and column variables. */
    method AtMostOneOf(lits: seq<int>)
      modifies this`varCount, this`clauseCount, solver`clauses
      ensures State() == AtMostOne(lits, old(State()))
      ensures clauseCount == old(clauseCount) + |solver.clauses| - |old(solver.clauses)|
      decreases |lits|, 1
    {
      if |lits| < 16 {
        AddPairs(lits);
      } else {
        ghost var e := State();
        var rowVars, columnVars := AddGrid(lits);
        AtMostOneOf(rowVars);
        AtMostOneOf(columnVars);
        AtMostOneGrid(lits, e);
      }
    }

    /** The short case of `at_most_one_of`: `[-a, -b]` for every pair, in the
        order of `itertools.combinations`. */
    method AddPairs(lits: seq<int>)
      modifies this`clauseCount, solver`clauses
      ensures solver.clauses == old(solver.clauses) + Pairwise(lits)
      ensures clauseCount == old(clauseCount) + |solver.clauses| - |old(solver.clauses)|
    {
      ghost var start := solver.clauses;
      var i := 0;
      while i < |lits|
        invariant i <= |lits|
        invariant solver.clauses == start + PairsUpTo(lits, i)
        invariant clauseCount == old(clauseCount) + |solver.clauses| - |start|
      {
        AddPairRow(lits, i);
        assert solver.clauses == start + PairsUpTo(lits, i + 1) by {
          PairsUpToNext(lits, i, i + 1);
          AppendAssoc(start, PairsUpTo(lits, i), PairRow(lits, i, |lits|));
        }
        i := i + 1;
      }
    }

    /** The pairs of `combinations` whose first literal is `lits[i]`. */
    method AddPairRow(lits: seq<int>, i: nat)
      requires i < |lits|
      modifies this`clauseCount, solver`clauses
      ensures solver.clauses == old(solver.clauses) + PairRow(lits, i, |lits|)
      ensures clauseCount == old(clauseCount) + |solver.clauses| - |old(solver.clauses)|
    {
      ghost var start := solver.clauses;
      var j := i + 1;
      while j < |lits|
        invariant i + 1 <= j <= |lits|
        invariant solver.clauses == start + PairRow(lits, i, j)
        invariant clauseCount == old(clauseCount) + |solver.clauses| - |start|
      {
        AddClause([-lits[i], -lits[j]]);
        assert solver.clauses == start + PairRow(lits, i, j + 1) by {
          PairRowNext(lits, i, j, j + 1);
          AppendAssoc(start, PairRow(lits, i, j), [[-lits[i], -lits[j]]]);
        }
        j := j + 1;
      }
    }

    /** The long case of `at_most_one_of` up to its recursive calls:
        `int(sqrt(n))` row variables, `ceil(n / rows)` column variables, and
        the implications of every cell. */
    method AddGrid(lits: seq<int>) returns (rowVars: seq<int>, columnVars: seq<int>)
      requires |lits| >= 16
      modifies this`varCount, this`clauseCount, solver`clauses
      ensures rowVars == RowVars(lits, old(State())) && columnVars == ColumnVars(lits, old(State()))
      ensures |rowVars| < |lits| && |columnVars| < |lits|
      ensures State() == GridStep(lits, old(State()))
      ensures clauseCount == old(clauseCount) + |solver.clauses| - |old(solver.clauses)|
    {
      ghost var e := State();
      GridStepFacts(lits, e);
      var rows := FloorSqrt(|lits|);
      var columns := (|lits| + rows - 1) / rows;
      CeilDivMeaning(|lits|, rows);
      rowVars := NewVars(rows);
      columnVars := NewVars(columns);
      AddGridClauses(lits, rowVars, columnVars);
    }

    /** The nested loops over the cells, row by row. */
    method AddGridClauses(lits: seq<int>, rowVars: seq<int>, columnVars: seq<int>)
      modifies this`clauseCount, solver`clauses
      ensures solver.clauses == old(solver.clauses) + Grid(lits, rowVars, columnVars)
      ensures clauseCount == old(clauseCount) + |solver.clauses| - |old(solver.clauses)|
    {
      ghost var added: seq<Clause> := [];
      var i := 0;
      while i < |rowVars|
        invariant i <= |rowVars|
        invariant solver.clauses == old(solver.clauses) + added && added == GridRows(lits, rowVars, columnVars, i)
        invariant clauseCount == old(clauseCount) + |added|
      {
        ghost var before := solver.clauses;
        AddGridRow(lits, rowVars, columnVars, i);
        AppendAssoc(old(solver.clauses), added, solver.clauses[|before|..]);
        GridRowsNext(lits, rowVars, columnVars, i, i + 1);
        added := added + solver.clauses[|before|..];
        i := i + 1;
      }
    }

    /** Row `i`: for the literal `k = i * columns + j` of each column `j`
        that exists, `[-lit, row_i]` and `[-lit, column_j]`. */
    method AddGridRow(lits: seq<int>, rowVars: seq<int>, columnVars: seq<int>, i: nat)
      requires i < |rowVars|
      modifies this`clauseCount, solver`clauses
      ensures solver.clauses == old(solver.clauses) + GridRow(lits, rowVars, columnVars, i, RowStart(i, |columnVars|), |columnVars|)
      ensures clauseCount == old(clauseCount) + |solver.clauses| - |old(solver.clauses)|
    {
      var columns := |columnVars|;
      RowStartIs(i, columns);
      ghost var row: seq<Clause> := [];
      var j := 0;
      while j < columns
        invariant j <= columns
        invariant solver.clauses == old(solver.clauses) + row
        invariant row == GridRow(lits, rowVars, columnVars, i, RowStart(i, columns), j)
        invariant clauseCount == old(clauseCount) + |row|
      {
        var k := i * columns + j;
        ghost var cell := CellClauses(lits, rowVars, columnVars, i, k, j);
        if k < |lits| {
          AddClause([-lits[k], rowVars[i]]);
          AddClause([-lits[k], columnVars[j]]);
          AppendAssoc(old(solver.clauses) + row, [[-lits[k], rowVars[i]]], [[-lits[k], columnVars[j]]]);
        }
        AppendAssoc(old(solver.clauses), row, cell);
        GridRowNext(lits, rowVars, columnVars, i, RowStart(i, columns), j, j + 1);
        row := row + cell;
        j := j + 1;
      }
    }

    /** `exactly_one_of`: the disjunction of the literals, then at most one of them. */
    method ExactlyOneOf(lits: seq<int>)
      modifies this`varCount, this`clauseCount, solver`clauses
      ensures State() == ExactlyOne(lits, old(State()))
      ensures clauseCount == old(clauseCount) + |solver.clauses| - |old(solver.clauses)|
    {
      AddClause(lits);
      AtMostOneOf(lits);
    }

    /** `place_each_item`: item by item, one fresh variable per start offset
        (none when the item is wider than the storage) and exactly one of them. */
    method PlaceEachItem()
      requires State() == Cnf(0, [])
      modifies this`varCount, this`clauseCount, solver`clauses, this`placements
      ensures State() == Placed(items, maxStorage, |items|)
      ensures placements == Placements(items, maxStorage, |items|)
      ensures clauseCount == old(clauseCount) + |solver.clauses| - |old(solver.clauses)|
    {
      placements := [];
      var n := 0;
      while n < |items|
        invariant n <= |items|
        invariant State() == Placed(items, maxStorage, n)
        invariant placements == Placements(items, maxStorage, n)
        invariant clauseCount == old(clauseCount) + |solver.clauses| - |old(solver.clauses)|
      {
        ghost var e := State();
        var itemPlacements := PlaceItem(items[n]);
        PlaceNextItem(items, maxStorage, n, e, itemPlacements, State());
        placements := placements + [itemPlacements];
        n := n + 1;
      }
    }

    /** One item of `place_each_item`: a fresh variable per start offset
        that keeps the item within `max_storage`, exactly one of them true. */
    method PlaceItem(it: Item) returns (vars: seq<int>)
      modifies this`varCount, this`clauseCount, solver`clauses
      ensures vars == ItemVars(old(State()), it, maxStorage)
      ensures State() == ExactlyOne(vars, Cnf(old(varCount) + |vars|, old(solver.clauses)))
      ensures clauseCount == old(clauseCount) + |solver.clauses| - |old(solver.clauses)|
    {
      var positions := maxStorage - it.width + 1;
      vars := NewVars(if positions > 0 then positions else 0);
      ExactlyOneOf(vars);
    }

    /** `limit_storage`: one fresh limit literal per slot, each implying the next. */
    method LimitStorage()
      modifies this`varCount, this`clauseCount, solver`clauses, this`limitStorage
      ensures limitStorage == Consecutive(old(varCount) + 1, maxStorage)
      ensures State() == Cnf(old(varCount) + maxStorage, old(solver.clauses) + Chain(limitStorage))
      ensures clauseCount == old(clauseCount) + |solver.clauses| - |old(solver.clauses)|
    {
      limitStorage := NewVars(maxStorage);
      var i := 0;
      while i + 1 < |limitStorage|
        invariant i == 0 || i < |limitStorage|
        invariant limitStorage == Consecutive(old(varCount) + 1, maxStorage)
        invariant varCount == old(varCount) + maxStorage
        invariant solver.clauses == old(solver.clauses) + ChainUpTo(limitStorage, i)
        invariant clauseCount == old(clauseCount) + |solver.clauses| - |old(solver.clauses)|
      {
        AddClause([-limitStorage[i], limitStorage[i + 1]]);
        i := i + 1;
      }
    }

    /** The loops over a filled occupancy table: `at_most_one_of` on every
        cell, day by day and slot by slot. */
    method EmitCells(t: Table, layer: Layer, limits: seq<int>, slots: nat)
      requires |placements| == |items| && (layer.Overlap? ==> slots <= |limits|)
      requires Shaped(t, dayCount, slots)
      requires forall d, s :: 0 <= d < dayCount && 0 <= s < slots ==> t[d][s] == Cell(items, placements, limits, layer, d, s)
      modifies this`varCount, this`clauseCount, solver`clauses
      ensures State() == AtMostOneEach(LayerCells(items, placements, limits, layer, slots, dayCount), old(State()))
      ensures clauseCount == old(clauseCount) + |solver.clauses| - |old(solver.clauses)|
    {
      ghost var e0 := State();
      var d := 0;
      while d < |t|
        invariant d <= dayCount
        invariant State() == AtMostOneEach(LayerCells(items, placements, limits, layer, slots, d), e0)
        invariant clauseCount == old(clauseCount) + |solver.clauses| - |old(solver.clauses)|
      {
        assert t[d] == DayCells(items, placements, limits, layer, d, slots) by {
          RowIsDayCells(t, layer, limits, slots, d);
        }
        AtMostOneOfEach(t[d]);
        assert State() == AtMostOneEach(LayerCells(items, placements, limits, layer, slots, d + 1), e0) by {
          AtMostOneEachAppend(LayerCells(items, placements, limits, layer, slots, d), DayCells(items, placements, limits, layer, d, slots), e0);
        }
        d := d + 1;
      }
    }

    /** Row `d` of a filled table lists the cells of day `d`. */
    lemma RowIsDayCells(t: Table, layer: Layer, limits: seq<int>, slots: nat, d: nat)
      requires |placements| == |items| && (layer.Overlap? ==> slots <= |limits|)
      requires Shaped(t, dayCount, slots) && d < dayCount
      requires forall d', s :: 0 <= d' < dayCount && 0 <= s < slots ==> t[d'][s] == Cell(items, placements, limits, layer, d', s)
      ensures t[d] == DayCells(items, placements, limits, layer, d, slots)
    {
      DayCellsIndex(items, placements, limits, layer, d, slots);
    }

    /** `at_most_one_of` on each group in turn. */
    method AtMostOneOfEach(groups: seq<seq<int>>)
      modifies this`varCount, this`clauseCount, solver`clauses
      ensures State() == AtMostOneEach(groups, old(State()))
      ensures clauseCount == old(clauseCount) + |solver.clauses| - |old(solver.clauses)|
    {
      ghost var e0 := State();
      var s := 0;
      while s < |groups|
        invariant s <= |groups|
        invariant State() == AtMostOneEachUpTo(groups, s, e0)
        invariant clauseCount == old(clauseCount) + |solver.clauses| - |old(solver.clauses)|
      {
        AtMostOneOf(groups[s]);
        s := s + 1;
      }
      AtMostOneEachUpToPrefix(groups, |groups|, e0);
      assert groups[..|groups|] == groups;
    }

    /** `no_overlap`: each cell of the table starts with its slot's limit
        literal and lists every placement whose footprint covers it; then at
        most one of each cell. */
    method NoOverlap()
      requires ItemsOk(items) && dayCount == DayCount(items)
      requires PlacementsShaped(items, placements, maxStorage) && |limitStorage| == maxStorage
      modifies this`occupants, this`varCount, this`clauseCount, solver`clauses
      ensures Shaped(occupants, dayCount, maxStorage)
      ensures forall d, s :: 0 <= d < dayCount && 0 <= s < maxStorage ==>
        occupants[d][s] == Cell(items, placements, limitStorage, Overlap, d, s)
      ensures State() == AtMostOneEach(LayerCells(items, placements, limitStorage, Overlap, maxStorage, dayCount), old(State()))
      ensures clauseCount == old(clauseCount) + |solver.clauses| - |old(solver.clauses)|
    {
      var limits := limitStorage;
      var t := seq(dayCount, d => seq(maxStorage, s requires 0 <= s < |limits| => [limits[s]]));
      ItemsFit(Overlap);
      occupants := Fill(t, dayCount, maxStorage, Overlap, items, placements);
      EmitCells(occupants, Overlap, limitStorage, maxStorage);
    }

    /** `separate_same_type`: a table one slot wider, filled only by the
        items of the category with footprints one slot wider; then at most
        one of each cell. */
    method SeparateSameType(category: int)
      requires ItemsOk(items) && dayCount == DayCount(items)
      requires PlacementsShaped(items, placements, maxStorage)
      modifies this`varCount, this`clauseCount, solver`clauses
      ensures State() == AtMostOneEach(LayerCells(items, placements, [], SameCategory(category), maxStorage + 1, dayCount), old(State()))
      ensures clauseCount == old(clauseCount) + |solver.clauses| - |old(solver.clauses)|
    {
      var t := seq(dayCount, d => seq(maxStorage + 1, s => []));
      ItemsFit(SameCategory(category));
      t := Fill(t, dayCount, maxStorage + 1, SameCategory(category), items, placements);
      EmitCells(t, SameCategory(category), [], maxStorage + 1);
    }

    /** What `Fill` needs: every day of every item is in the table and every
        footprint ends inside its row. */
    lemma ItemsFit(layer: Layer)
      requires ItemsOk(items) && dayCount == DayCount(items)
      requires PlacementsShaped(items, placements, maxStorage)
      ensures |placements| == |items|
      ensures forall i :: 0 <= i < |items| ==> 0 <= items[i].begin && items[i].end < dayCount && 0 <= items[i].width
      ensures forall i :: 0 <= i < |items| ==>
        placements[i] == [] || |placements[i]| - 1 + Footprint(layer, items[i]) <= Slots(layer, maxStorage)
    {
      forall i | 0 <= i < |items| ensures items[i].end < dayCount {
        DaysInRange(items, i, items[i].end);
      }
    }

    /** `generate_constraints`: placements, the limit chain, no overlap, and
        one same-category pass per category, in the order the set of
        categories yields them (recorded in `typeOrder`). */
    method GenerateConstraints()
      requires ItemsOk(items) && dayCount == DayCount(items) && State() == Cnf(0, [])
      modifies this`varCount, this`clauseCount, solver`clauses, this`placements, this`limitStorage, this`occupants, this`typeOrder
      ensures CategoryOrder(items, typeOrder)
      ensures State() == Encode(items, maxStorage, typeOrder)
      ensures placements == Placements(items, maxStorage, |items|) && limitStorage == LimitVars(items, maxStorage)
      ensures clauseCount == old(clauseCount) + |solver.clauses| - |old(solver.clauses)|
    {
      PlaceEachItem();
      ghost var placed := State();
      LimitStorage();
      ghost var limited := State();
      LimitedAfter(items, maxStorage, placed, limitStorage, limited);
      NoOverlap();
      ghost var afterOverlap := State();
      SeparateEachCategory();
      EncodeInSteps(items, maxStorage, typeOrder, placements, limitStorage, dayCount, limited, afterOverlap, State());
    }

    /** The loop of `generate_constraints` over the set of item categories:
        each category once, in whatever order the set yields. */
    method SeparateEachCategory()
      requires ItemsOk(items) && dayCount == DayCount(items)
      requires PlacementsShaped(items, placements, maxStorage)
      modifies this`varCount, this`clauseCount, solver`clauses, this`typeOrder
      ensures CategoryOrder(items, typeOrder)
      ensures State() == AtMostOneEach(CategoryCells(items, placements, typeOrder, maxStorage + 1, dayCount, |typeOrder|), old(State()))
      ensures clauseCount == old(clauseCount) + |solver.clauses| - |old(solver.clauses)|
    {
      ghost var e0 := State();
      var order := SeparateCategories();
      assert CategoryOrder(items, order) by { PendingDone(items, CategorySet(items), order); }
      assert State() == AtMostOneEach(CategoryCells(items, placements, order, maxStorage + 1, dayCount, |order|), e0) by {
        CategoryRunsMeaning(items, placements, order, maxStorage + 1, dayCount, |order|, e0);
      }
      typeOrder := order;
    }

    /** The `for` loop itself: one same-category pass for each category of
        the items, taken out of the set in an unspecified order; `order` is
        the order the passes ran in. */
    method SeparateCategories() returns (order: seq<int>)
      requires ItemsOk(items) && dayCount == DayCount(items)
      requires PlacementsShaped(items, placements, maxStorage)
      modifies this`varCount, this`clauseCount, solver`clauses
      ensures Pending(CategorySet(items), {}, order)
      ensures State() == CategoryRuns(items, placements, order, maxStorage + 1, dayCount, |order|, old(State()))
      ensures clauseCount == old(clauseCount) + |solver.clauses| - |old(solver.clauses)|
    {
      ghost var e0 := State();
      var remaining := set i | 0 <= i < |items| :: items[i].category;
      ghost var all := remaining;
      order := [];
      while remaining != {}
        invariant Pending(all, remaining, order)
        invariant State() == CategoryRuns(items, placements, order, maxStorage + 1, dayCount, |order|, e0)
        invariant clauseCount == old(clauseCount) + |solver.clauses| - |old(solver.clauses)|
        decreases |remaining|
      {
        var category :| category in remaining;
        ghost var before := State();
        SeparateSameType(category);
        assert State() == CategoryRuns(items, placements, order + [category], maxStorage + 1, dayCount, |order + [category]|, e0) by {
          CategoryRunsNext(items, placements, order, category, maxStorage + 1, dayCount, e0, before);
        }
        assert Pending(all, remaining - {category}, order + [category]) && |remaining - {category}| < |remaining| by {
          PendingStep(all, remaining, order, category);
        }
        order := order + [category];
        remaining := remaining - {category};
      }
    }

    /** `solve`: asks the solver and, on a model, stores what it reads back. */
    method Solve() returns (r: Answer)
      requires Valid()
      modifies this`solution, solver`model
      ensures Valid()
      ensures r == solver.decide(solver.clauses) && SoundAnswer(solver.clauses, r)
      ensures r.Sat? ==> solution == Some(ReadBack(r.model, placements, limitStorage, maxStorage))
      ensures !r.Sat? ==> solution == old(solution)
      ensures r.Sat? ==> solution.value.usedStorage <= floor
      ensures r.Unsat? ==> forall positions, used :: Fits(items, maxStorage, positions, used) ==> used > floor
    {
      r := solver.Solve();
      if r.Sat? {
        assert SoundAnswer(solver.clauses, r);
        SatisfiesAppend(r.model, constraints, extra);
        ImprovedBelow(items, maxStorage, placements, limitStorage, constraints, earlier, r.model, floor);
        StoreSolution();
      } else if r.Unsat? {
        UnsatMeansOptimal(items, maxStorage, limitStorage, constraints, extra, floor + 1);
      }
    }

    /** `store_solution`: the storage size minus the number of true limit
        literals, and for each item its first offset whose placement
        variable is true (-1 when none is). */
    method StoreSolution()
      requires VarIds(placements, limitStorage)
      modifies this`solution
      ensures solution == Some(ReadBack(solver.model, placements, limitStorage, maxStorage))
    {
      var count := CountLimitsTrue();
      var positions := PlacedPositions();
      solution := Some(Solution(maxStorage - count, positions));
    }

    /** The sum of the values of the limit literals in the last model. */
    method CountLimitsTrue() returns (count: nat)
      requires Positive(limitStorage)
      ensures count == CountTrue(solver.model, limitStorage)
    {
      count := 0;
      var s := 0;
      while s < |limitStorage|
        invariant s <= |limitStorage|
        invariant count == CountTrue(solver.model, limitStorage[..s])
      {
        var b := solver.Val(limitStorage[s]);
        assert limitStorage[..s + 1][..s] == limitStorage[..s];
        if b {
          count := count + 1;
        }
        s := s + 1;
      }
      assert limitStorage[..s] == limitStorage;
    }

    /** The position of every item, in item order. */
    method PlacedPositions() returns (positions: seq<int>)
      requires forall i :: 0 <= i < |placements| ==> Positive(placements[i])
      ensures positions == Positions(solver.model, placements)
    {
      positions := [];
      var n := 0;
      while n < |placements|
        invariant n <= |placements|
        invariant |positions| == n
        invariant forall k :: 0 <= k < n ==> positions[k] == FirstTrue(solver.model, placements[k])
      {
        var position := FirstPlaced(placements[n]);
        positions := positions + [position];
        n := n + 1;
      }
    }

    /** The first offset whose placement variable is true in the last model;
        -1 when there is none. */
    method FirstPlaced(vars: seq<int>) returns (position: int)
      requires Positive(vars)
      ensures position == FirstTrue(solver.model, vars)
    {
      position := -1;
      var p := 0;
      while p < |vars|
        invariant p <= |vars| && position == -1
        invariant forall q :: 0 <= q < p ==> !Holds(solver.model, vars[q])
      {
        var b := solver.Val(vars[p]);
        if b {
          position := p;
          break;
        }
        p := p + 1;
      }
      FirstTrueMeaning(solver.model, vars);
    }

    /** `improve_solution`: unit clauses on the limit literals from
        `used_storage - 1` up, so that the next model uses less storage. */
    method ImproveSolution()
      requires Valid() && solution.Some?
      modifies this`clauseCount, solver`clauses, this`extra, this`floor, this`earlier
      ensures Valid() && solution == old(solution)
      ensures 1 <= solution.value.usedStorage <= maxStorage && floor == solution.value.usedStorage - 1
      ensures extra == old(extra) + Units(limitStorage, floor, maxStorage)
    {
      var usedStorage := solution.value.usedStorage;
      FitsUsesSome(items, maxStorage, solution.value.positions, usedStorage);
      ghost var units := Units(limitStorage, usedStorage - 1, maxStorage);
      AddUnits(usedStorage - 1);
      LimitUnitsLower(extra, limitStorage, floor, usedStorage - 1);
      UnitsAreLimitUnits(limitStorage, usedStorage - 1, maxStorage);
      LimitUnitsAppend(extra, units, limitStorage, usedStorage - 1);
      AppendAssoc(constraints, extra, units);
      earlier := extra;
      floor := usedStorage - 1;
      extra := extra + units;
    }

    /** The loop of `improve_solution`: a unit clause for each limit literal
        from index `lo` to the end. */
    method AddUnits(lo: int)
      requires 0 <= lo <= maxStorage && |limitStorage| == maxStorage
      modifies this`clauseCount, solver`clauses
      ensures solver.clauses == old(solver.clauses) + Units(limitStorage, lo, maxStorage)
      ensures clauseCount == old(clauseCount) + |solver.clauses| - |old(solver.clauses)|
    {
      ghost var added: seq<Clause> := [];
      var i := lo;
      while i < maxStorage
        invariant lo <= i <= maxStorage
        invariant solver.clauses == old(solver.clauses) + added && added == Units(limitStorage, lo, i)
        invariant clauseCount == old(clauseCount) + |added|
      {
        AddClause([limitStorage[i]]);
        AppendAssoc(old(solver.clauses), added, [[limitStorage[i]]]);
        added := added + [[limitStorage[i]]];
        i := i + 1;
      }
    }
  }

  /** One placement list per item, with one variable per offset at which
      the item fits. */
  predicate PlacementsShaped(items: seq<Item>, placements: seq<seq<int>>, maxStorage: nat)
  {
    |placements| == |items| && forall i :: 0 <= i < |items| ==> |placements[i]| == PositionCount(items[i], maxStorage)
  }

  /** The state after the same-category passes over the first `k`
      categories of `order`, pass by pass. */
  ghost function CategoryRuns(items: seq<Item>, placements: seq<seq<int>>, order: seq<int>, slots: nat, days: nat, k: nat, e: Cnf): Cnf
    requires |items| == |placements| && k <= |order|
  {
    if k == 0 then e
    else AtMostOneEach(LayerCells(items, placements, [], SameCategory(order[k - 1]), slots, days),
      CategoryRuns(items, placements, order, slots, days, k - 1, e))
  }

  /** Pass by pass is the same as one run over all their cells. */
  lemma {:induction false} CategoryRunsMeaning(items: seq<Item>, placements: seq<seq<int>>, order: seq<int>, slots: nat, days: nat, k: nat, e: Cnf)
    requires |items| == |placements| && k <= |order|
    ensures CategoryRuns(items, placements, order, slots, days, k, e)
      == AtMostOneEach(CategoryCells(items, placements, order, slots, days, k), e)
  {
    if k > 0 {
      var earlier := CategoryCells(items, placements, order, slots, days, k - 1);
      var layer := LayerCells(items, placements, [], SameCategory(order[k - 1]), slots, days);
      calc {
        CategoryRuns(items, placements, order, slots, days, k, e);
        AtMostOneEach(layer, CategoryRuns(items, placements, order, slots, days, k - 1, e));
        { CategoryRunsMeaning(items, placements, order, slots, days, k - 1, e); }
        AtMostOneEach(layer, AtMostOneEach(earlier, e));
        { AtMostOneEachAppend(earlier, layer, e); }
        AtMostOneEach(earlier + layer, e);
        AtMostOneEach(CategoryCells(items, placements, order, slots, days, k), e);
      }
    }
  }

  /** One more same-category pass extends the order by its category. */
  lemma CategoryRunsNext(items: seq<Item>, placements: seq<seq<int>>, order: seq<int>, c: int, slots: nat, days: nat, e: Cnf, prev: Cnf)
    requires |items| == |placements| && prev == CategoryRuns(items, placements, order, slots, days, |order|, e)
    ensures AtMostOneEach(LayerCells(items, placements, [], SameCategory(c), slots, days), prev)
      == CategoryRuns(items, placements, order + [c], slots, days, |order + [c]|, e)
  {
    CategoryRunsPrefix(items, placements, order, order + [c], slots, days, |order|, e);
    assert (order + [c])[|order|] == c;
  }

  /** Later categories do not change the passes over earlier ones. */
  lemma {:induction false} CategoryRunsPrefix(items: seq<Item>, placements: seq<seq<int>>, order: seq<int>, order2: seq<int>, slots: nat, days: nat, k: nat, e: Cnf)
    requires |items| == |placements| && k <= |order| && order <= order2
    ensures CategoryRuns(items, placements, order, slots, days, k, e) == CategoryRuns(items, placements, order2, slots, days, k, e)
  {
    if k > 0 {
      CategoryRunsPrefix(items, placements, order, order2, slots, days, k - 1, e);
      assert order[k - 1] == order2[k - 1];
    }
  }

  /** The categories of the items, as the set the source builds. */
  ghost function CategorySet(items: seq<Item>): set<int>
  {
    set i | 0 <= i < |items| :: items[i].category
  }

  /** Part way through a set of categories `all`: `order` lists, once each,
      the categories already handled, and `remaining` the others. */
  ghost predicate Pending(all: set<int>, remaining: set<int>, order: seq<int>)
  {
    && remaining <= all
    && (forall k :: 0 <= k < |order| ==> order[k] in all && order[k] !in remaining)
    && (forall c :: c in all ==> c in remaining || c in order)
    && (forall k, l :: 0 <= k < l < |order| ==> order[k] != order[l])
  }

  /** Handling one remaining category keeps the bookkeeping. */
  lemma PendingStep(all: set<int>, remaining: set<int>, order: seq<int>, c: int)
    requires Pending(all, remaining, order) && c in remaining
    ensures Pending(all, remaining - {c}, order + [c])
    ensures |remaining - {c}| < |remaining|
  {
    var order' := order + [c];
    assert forall k :: 0 <= k < |order| ==> order'[k] == order[k];
  }

  /** Once nothing remains of the items' categories, the order lists every
      category once. */
  lemma PendingDone(items: seq<Item>, all: set<int>, order: seq<int>)
    requires all == set i | 0 <= i < |items| :: items[i].category
    requires Pending(all, {}, order)
    ensures CategoryOrder(items, order)
  {
    forall k | 0 <= k < |order| ensures exists i :: 0 <= i < |items| && items[i].category == order[k] {
      assert order[k] in all;
      var i :| 0 <= i < |items| && items[i].category == order[k];
    }
    forall i | 0 <= i < |items| ensures items[i].category in order {
      assert items[i].category in all;
    }
  }

  /** `limit_storage` right after `place_each_item` reaches `Limited`. */
  lemma LimitedAfter(items: seq<Item>, maxStorage: nat, placed: Cnf, limits: seq<int>, e: Cnf)
    requires placed == Placed(items, maxStorage, |items|)
    requires limits == Consecutive(placed.varCount + 1, maxStorage)
    requires e == Cnf(placed.varCount + maxStorage, placed.clauses + Chain(limits))
    ensures limits == LimitVars(items, maxStorage) && e == Limited(items, maxStorage)
  {
  }

  /** The three stages of `generate_constraints` after the limit chain
      build the state `Encode` describes. */
  lemma EncodeInSteps(items: seq<Item>, maxStorage: nat, order: seq<int>, placements: seq<seq<int>>, limits: seq<int>, days: nat,
                      limited: Cnf, afterOverlap: Cnf, final: Cnf)
    requires |items| >= 1 && placements == Placements(items, maxStorage, |items|)
    requires limits == LimitVars(items, maxStorage) && days == DayCount(items)
    requires limited == Limited(items, maxStorage)
    requires afterOverlap == AtMostOneEach(LayerCells(items, placements, limits, Overlap, maxStorage, days), limited)
    requires final == AtMostOneEach(CategoryCells(items, placements, order, maxStorage + 1, days, |order|), afterOverlap)
    ensures final == Encode(items, maxStorage, order)
  {
    AtMostOneEachAppend(LayerCells(items, placements, limits, Overlap, maxStorage, days),
      CategoryCells(items, placements, order, maxStorage + 1, days, |order|), limited);
  }

  /** How the driver ends: the first solve finds no model (the program
      exits with status 1), the tightened clauses have no model ("found
      optimum"), the user interrupts an improving solve ("interrupted"), or
      the user interrupts the first solve, which nothing catches. */
  datatype Outcome = NoSolution | Optimum | Stopped | Aborted

  /** The `__main__` driver: build the encoding, solve once, then alternate
      `improve_solution` and `solve` until a solve fails. With a sound
      solver, no solution means no valid layout exists, an optimum is a
      valid layout no valid layout beats, and an interrupted improvement
      still leaves a valid layout behind. */
  method Optimize(decide: seq<Clause> -> Answer, items: seq<Item>, maxStorage: nat) returns (plan: PlanStorage, outcome: Outcome)
    requires Sound(decide) && ItemsOk(items)
    ensures plan.items == items && plan.maxStorage == maxStorage
    ensures outcome == NoSolution ==> plan.solution == None && forall positions, used :: !Fits(items, maxStorage, positions, used)
    ensures outcome == Aborted ==> plan.solution == None
    ensures outcome == Optimum || outcome == Stopped ==>
      plan.solution.Some? && Fits(items, maxStorage, plan.solution.value.positions, plan.solution.value.usedStorage)
    ensures outcome == Optimum ==>
      forall positions, used :: Fits(items, maxStorage, positions, used) ==> used >= plan.solution.value.usedStorage
  {
    var solver := new Solver(decide);
    plan := new PlanStorage(solver, items, maxStorage);
    var r := plan.Solve();
    if r.Unsat? {
      assert plan.solver.clauses == plan.constraints;
      UnsatMeansInfeasible(items, maxStorage, plan.limitStorage, plan.solver.clauses);
      return plan, NoSolution;
    } else if r.Interrupted? {
      return plan, Aborted;
    }
    var optimal := ImproveUntilDone(plan);
    outcome := if optimal then Optimum else Stopped;
  }

  /** The `try` block of the driver: tighten the bound and solve again while
      the solver keeps finding models; it ends with an optimum when a solve
      finds none, or without one when a solve is interrupted. */
  method ImproveUntilDone(plan: PlanStorage) returns (optimal: bool)
    requires plan.Valid() && plan.solution.Some? && plan.solution.value.usedStorage <= plan.floor
    modifies plan, plan.solver
    ensures plan.Valid() && plan.solution.Some?
    ensures optimal ==>
      forall positions, used :: Fits(plan.items, plan.maxStorage, positions, used) ==> used >= plan.solution.value.usedStorage
  {
    optimal := false;
    var searching := true;
    while searching
      invariant plan.Valid() && plan.solution.Some?
      invariant searching ==> !optimal && plan.solution.value.usedStorage <= plan.floor
      invariant optimal ==>
        forall positions, used :: Fits(plan.items, plan.maxStorage, positions, used) ==> used >= plan.solution.value.usedStorage
      decreases if searching then plan.solution.value.usedStorage else 0
    {
      plan.ImproveSolution();
      var r := plan.Solve();
      if !r.Sat? {
        searching := false;
        optimal := r.Unsat?;
      }
    }
  }
}
