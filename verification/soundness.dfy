/** Soundness of the encoding: every model of the clauses decodes, the way
    `store_solution` reads it, into a valid layout that stays below the
    decoded storage use. */
module Soundness {
  import opened Cnf
  import opened Cardinality
  import opened Layout
  import opened Encoding
  import opened Allocation
  import opened Occupancy

  lemma {:induction false} GroupHolds(a: Assignment, groups: seq<seq<int>>, g: seq<int>)
    requires AllAtMostOne(a, groups) && g in groups
    ensures AtMostOneTrue(a, g)
  {
    var k :| 0 <= k < |groups| && groups[k] == g;
  }

  lemma {:induction false} AllWithinNoZero(groups: seq<seq<int>>, bound: nat)
    requires AllWithin(groups, bound)
    ensures NoZero(groups)
  {
    forall k | 0 <= k < |groups| ensures 0 !in groups[k] {
      assert LitsWithin(groups[k], bound);
    }
  }

  /** Every group of `no_overlap` and `separate_same_type` lists allocated variables only. */
  lemma {:induction false} GroupsWithin(items: seq<Item>, maxStorage: nat, order: seq<int>)
    requires |items| >= 1
    ensures AllWithin(Groups(items, maxStorage, order), Limited(items, maxStorage).varCount)
  {
    var placements := Placements(items, maxStorage, |items|);
    var limits := LimitVars(items, maxStorage);
    var days := DayCount(items);
    var bound := Limited(items, maxStorage).varCount;
    forall i | 0 <= i < |placements| ensures LitsWithin(placements[i], bound) {
      PlacementsWithin(items, maxStorage, i);
    }
    LimitedWellFormed(items, maxStorage);
    OverlapWithin(items, placements, limits, maxStorage, days, bound);
    CategoriesWithin(items, placements, order, maxStorage + 1, days, bound);
    AllWithinAppend(LayerCells(items, placements, limits, Overlap, maxStorage, days),
      CategoryCells(items, placements, order, maxStorage + 1, days, |order|), bound);
  }

  lemma {:induction false} OverlapWithin(items: seq<Item>, placements: seq<seq<int>>, limits: seq<int>, slots: nat, days: nat, bound: nat)
    requires |items| == |placements| && slots <= |limits|
    requires forall i :: 0 <= i < |placements| ==> LitsWithin(placements[i], bound)
    requires LitsWithin(limits, bound)
    ensures AllWithin(LayerCells(items, placements, limits, Overlap, slots, days), bound)
  {
    var overlap := LayerCells(items, placements, limits, Overlap, slots, days);
    LayerCellsAreCells(items, placements, limits, Overlap, slots, days, days);
    forall k | 0 <= k < |overlap| ensures LitsWithin(overlap[k], bound) {
      var g := overlap[k];
      assert g in overlap;
      var day: nat, slot: nat :| day < days && slot < slots && g == Cell(items, placements, limits, Overlap, day, slot);
      CellWithin(items, placements, limits, Overlap, day, slot, bound);
    }
  }

  lemma {:induction false} CategoriesWithin(items: seq<Item>, placements: seq<seq<int>>, order: seq<int>, slots: nat, days: nat, bound: nat)
    requires |items| == |placements|
    requires forall i :: 0 <= i < |placements| ==> LitsWithin(placements[i], bound)
    ensures AllWithin(CategoryCells(items, placements, order, slots, days, |order|), bound)
  {
    var categories := CategoryCells(items, placements, order, slots, days, |order|);
    CategoryCellsAreCells(items, placements, order, slots, days, |order|);
    forall k | 0 <= k < |categories| ensures LitsWithin(categories[k], bound) {
      var g := categories[k];
      assert g in categories;
      var j :| 0 <= j < |order| && IsCell(items, placements, [], SameCategory(order[j]), slots, days, g);
      var day: nat, slot: nat :| day < days && slot < slots && g == Cell(items, placements, [], SameCategory(order[j]), day, slot);
      CellWithin(items, placements, [], SameCategory(order[j]), day, slot, bound);
    }
  }

  /** `exactly_one_of` for item `i`: one of its placement variables holds, and no two do. */
  lemma {:induction false} PlacedSound(items: seq<Item>, maxStorage: nat, a: Assignment, i: nat)
    requires i < |items| && Satisfies(a, Placed(items, maxStorage, |items|).clauses)
    ensures var vars := Placements(items, maxStorage, |items|)[i];
      SomeTrue(a, vars) && AtMostOneTrue(a, vars)
  {
    var e := Placed(items, maxStorage, i);
    var vars := ItemVars(e, items[i], maxStorage);
    PlacementsAt(items, maxStorage, |items|, i);
    PlacedGrows(items, maxStorage, i + 1, |items|);
    SatisfiesPrefix(a, Placed(items, maxStorage, i + 1).clauses, Placed(items, maxStorage, |items|).clauses);
    ExactlyOneSound(vars, Cnf(e.varCount + |vars|, e.clauses), a);
  }

  /** The position `store_solution` reads for item `i` is a start offset whose variable holds. */
  lemma {:induction false} DecodedPosition(items: seq<Item>, maxStorage: nat, a: Assignment, i: nat)
    requires i < |items| && Satisfies(a, Placed(items, maxStorage, |items|).clauses)
    ensures var vars := Placements(items, maxStorage, |items|)[i];
      var p := FirstTrue(a, vars);
      0 <= p < PositionCount(items[i], maxStorage) && p + items[i].width <= maxStorage && Holds(a, vars[p])
  {
    var vars := Placements(items, maxStorage, |items|)[i];
    PlacedSound(items, maxStorage, a, i);
    FirstTrueMeaning(a, vars);
    PositionCountMeaning(items[i], maxStorage, FirstTrue(a, vars));
  }

  /** The cells of `no_overlap` hold each item below the first true limit literal. */
  lemma {:induction false} ItemBelowUsed(items: seq<Item>, maxStorage: nat, order: seq<int>, a: Assignment, i: nat, p: nat, used: int)
    requires ItemsOk(items) && i < |items|
    requires p + items[i].width <= maxStorage && Holds(a, Placements(items, maxStorage, |items|)[i][p])
    requires forall s :: 0 <= s < maxStorage && used <= s ==> Holds(a, LimitVars(items, maxStorage)[s])
    requires AllAtMostOne(a, Groups(items, maxStorage, order))
    ensures p + items[i].width <= used
  {
    if p + items[i].width > used {
      var placements := Placements(items, maxStorage, |items|);
      var limits := LimitVars(items, maxStorage);
      var it := items[i];
      var slot: nat := p + it.width - 1;
      var day: nat := it.begin;
      DaysInRange(items, i, day);
      PositionCountMeaning(it, maxStorage, p);
      assert Occupies(Overlap, it, p, day, slot);
      CellHas(items, placements, limits, Overlap, day, slot, i, p);
      CellHasLimit(items, placements, limits, day, slot);
      var cell := Cell(items, placements, limits, Overlap, day, slot);
      CellInLayerCells(items, placements, limits, Overlap, maxStorage, DayCount(items), day, slot);
      GroupHolds(a, Groups(items, maxStorage, order), cell);
      LimitNotPlacement(items, maxStorage, slot, i, p);
      AtMostOneTrueMembers(a, cell, placements[i][p], limits[slot]);
      assert false;
    }
  }

  /** Two items taking one slot of `no_overlap` cannot both be placed there. */
  lemma {:induction false} OverlapConflict(items: seq<Item>, maxStorage: nat, order: seq<int>, a: Assignment,
                        i: nat, j: nat, day: nat, slot: nat, pi: nat, pj: nat)
    requires |items| >= 1 && i < j < |items| && day < DayCount(items) && slot < maxStorage
    requires pi < PositionCount(items[i], maxStorage) && pj < PositionCount(items[j], maxStorage)
    requires Occupies(Overlap, items[i], pi, day, slot) && Occupies(Overlap, items[j], pj, day, slot)
    requires AllAtMostOne(a, Groups(items, maxStorage, order))
    ensures var placements := Placements(items, maxStorage, |items|);
      !(Holds(a, placements[i][pi]) && Holds(a, placements[j][pj]))
  {
    var placements := Placements(items, maxStorage, |items|);
    var limits := LimitVars(items, maxStorage);
    CellHas(items, placements, limits, Overlap, day, slot, i, pi);
    CellHas(items, placements, limits, Overlap, day, slot, j, pj);
    var cell := Cell(items, placements, limits, Overlap, day, slot);
    CellInLayerCells(items, placements, limits, Overlap, maxStorage, DayCount(items), day, slot);
    GroupHolds(a, Groups(items, maxStorage, order), cell);
    PlacementVarsDistinct(items, maxStorage, i, pi, j, pj);
    AtMostOneTrueMembers(a, cell, placements[i][pi], placements[j][pj]);
  }

  /** Two items taking one slot of `separate_same_type` for `order[k]` cannot both be placed there. */
  lemma {:induction false} CategoryConflict(items: seq<Item>, maxStorage: nat, order: seq<int>, a: Assignment, k: nat,
                         i: nat, j: nat, day: nat, slot: nat, pi: nat, pj: nat)
    requires |items| >= 1 && k < |order| && i < j < |items| && day < DayCount(items) && slot < maxStorage + 1
    requires pi < PositionCount(items[i], maxStorage) && pj < PositionCount(items[j], maxStorage)
    requires Occupies(SameCategory(order[k]), items[i], pi, day, slot) && Occupies(SameCategory(order[k]), items[j], pj, day, slot)
    requires AllAtMostOne(a, Groups(items, maxStorage, order))
    ensures var placements := Placements(items, maxStorage, |items|);
      !(Holds(a, placements[i][pi]) && Holds(a, placements[j][pj]))
  {
    var placements := Placements(items, maxStorage, |items|);
    var layer := SameCategory(order[k]);
    var cell := Cell(items, placements, [], layer, day, slot);
    assert placements[i][pi] in cell && placements[j][pj] in cell by {
      CellHas(items, placements, [], layer, day, slot, i, pi);
      CellHas(items, placements, [], layer, day, slot, j, pj);
    }
    assert AtMostOneTrue(a, cell) by {
      var categories := CategoryCells(items, placements, order, maxStorage + 1, DayCount(items), |order|);
      CellInCategoryCells(items, placements, order, maxStorage + 1, DayCount(items), |order|, k, day, slot);
      assert Groups(items, maxStorage, order)
        == LayerCells(items, placements, LimitVars(items, maxStorage), Overlap, maxStorage, DayCount(items)) + categories;
      assert cell in Groups(items, maxStorage, order);
      GroupHolds(a, Groups(items, maxStorage, order), cell);
    }
    assert placements[i][pi] != placements[j][pj] by {
      PlacementVarsDistinct(items, maxStorage, i, pi, j, pj);
    }
    AtMostOneTrueMembers(a, cell, placements[i][pi], placements[j][pj]);
  }

  /** Two items stored on a common day are apart, by one free slot when they
      share a category: otherwise a cell of `no_overlap` or of
      `separate_same_type` would hold two true literals. */
  lemma {:induction false} PairApart(items: seq<Item>, maxStorage: nat, order: seq<int>, a: Assignment, i: nat, j: nat, day: int, pi: nat, pj: nat)
    requires ItemsOk(items) && CategoryOrder(items, order) && i < j < |items|
    requires Covers(items[i], day) && Covers(items[j], day)
    requires pi + items[i].width <= maxStorage && Holds(a, Placements(items, maxStorage, |items|)[i][pi])
    requires pj + items[j].width <= maxStorage && Holds(a, Placements(items, maxStorage, |items|)[j][pj])
    requires AllAtMostOne(a, Groups(items, maxStorage, order))
    ensures Apart(pi, items[i].width, pj, items[j].width, Gap(items[i], items[j]))
  {
    if !Apart(pi, items[i].width, pj, items[j].width, Gap(items[i], items[j])) {
      var slot: nat := Max(pi, pj);
      DaysInRange(items, i, day);
      PositionCountMeaning(items[i], maxStorage, pi);
      PositionCountMeaning(items[j], maxStorage, pj);
      if items[i].category == items[j].category {
        var k :| 0 <= k < |order| && order[k] == items[i].category;
        CategoryConflict(items, maxStorage, order, a, k, i, j, day, slot, pi, pj);
      } else {
        OverlapConflict(items, maxStorage, order, a, i, j, day, slot, pi, pj);
      }
    }
  }

  /** Soundness: any model of the generated clauses decodes into a layout in
      which every item lies within the decoded storage use, items stored on a
      common day do not overlap, and items of one category keep a free slot
      between them. */
  lemma {:induction false} EncodeSound(items: seq<Item>, maxStorage: nat, order: seq<int>, a: Assignment)
    requires ItemsOk(items) && CategoryOrder(items, order)
    requires Satisfies(a, Encode(items, maxStorage, order).clauses)
    ensures var s := Decode(items, maxStorage, a); Fits(items, maxStorage, s.positions, s.usedStorage)
  {
    var placements := Placements(items, maxStorage, |items|);
    var limits := LimitVars(items, maxStorage);
    var groups := Groups(items, maxStorage, order);
    var P := Placed(items, maxStorage, |items|);
    GroupsWithin(items, maxStorage, order);
    AllWithinNoZero(groups, Limited(items, maxStorage).varCount);
    AtMostOneEachSound(groups, Limited(items, maxStorage), a);
    SatisfiesAppend(a, P.clauses, Chain(limits));
    LimitedWellFormed(items, maxStorage);
    ChainMeaning(a, limits);
    Thermometer(a, limits);
    var s := Decode(items, maxStorage, a);
    var positions, used := s.positions, s.usedStorage;
    forall i | 0 <= i < |items|
      ensures 0 <= positions[i] && positions[i] + items[i].width <= used
    {
      DecodedPosition(items, maxStorage, a, i);
      ItemBelowUsed(items, maxStorage, order, a, i, positions[i], used);
    }
    forall i, j, day | 0 <= i < j < |items| && Covers(items[i], day) && Covers(items[j], day)
      ensures Apart(positions[i], items[i].width, positions[j], items[j].width, Gap(items[i], items[j]))
    {
      DecodedPosition(items, maxStorage, a, i);
      DecodedPosition(items, maxStorage, a, j);
      PairApart(items, maxStorage, order, a, i, j, day, positions[i], positions[j]);
    }
  }

  /** An item wider than the storage has no placement variable, so its
      "exactly one" clause is empty and no assignment satisfies the clauses. */
  lemma {:induction false} WideItemUnsat(items: seq<Item>, maxStorage: nat, order: seq<int>, i: nat)
    requires ItemsOk(items) && CategoryOrder(items, order)
    requires i < |items| && items[i].width > maxStorage
    ensures forall a: Assignment :: !Satisfies(a, Encode(items, maxStorage, order).clauses)
  {
    forall a: Assignment ensures !Satisfies(a, Encode(items, maxStorage, order).clauses) {
      if Satisfies(a, Encode(items, maxStorage, order).clauses) {
        EncodeSound(items, maxStorage, order, a);
      }
    }
  }
}
