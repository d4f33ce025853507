/** Completeness of the encoding: every valid layout within a used width is
    the decoding of some model of the clauses, so the solver can only answer
    "unsatisfiable" when no such layout exists. */
module Completeness {
  import opened Cnf
  import opened Cardinality
  import opened Layout
  import opened Encoding
  import opened Allocation
  import opened Occupancy
  import opened Soundness

  /** The limit literals of a layout using `used` slots: literal `s` true
      exactly when `s >= used`; every other variable false. */
  function Base(items: seq<Item>, maxStorage: nat, used: int): Assignment
  {
    var first := Placed(items, maxStorage, |items|).varCount + 1;
    (v: nat) => first + used <= v < first + maxStorage
  }

  function SetTrue(a: Assignment, x: int): Assignment
  {
    (v: nat) => v == x || a(v)
  }

  lemma {:induction false} ExactlyAtAgree(a: Assignment, b: Assignment, vars: seq<int>, q: int, bound: nat)
    requires ExactlyAt(a, vars, q) && AgreeUpTo(a, b, bound) && LitsWithin(vars, bound)
    ensures ExactlyAt(b, vars, q)
  {
    forall p | 0 <= p < |vars| ensures Holds(b, vars[p]) <==> p == q {
      assert vars[p] in vars;
      HoldsAgree(a, b, bound, vars[p]);
    }
  }

  /** With exactly offset `q` true, `store_solution` reads back `q`. */
  lemma {:induction false} ExactlyAtFirst(a: Assignment, vars: seq<int>, q: int)
    requires ExactlyAt(a, vars, q) && 0 <= q < |vars|
    ensures FirstTrue(a, vars) == q
  {
    FirstTrueMeaning(a, vars);
    assert Holds(a, vars[q]);
  }

  /** The values once item `it`, allocated in state `e`, is put at offset
      `q`: its variable there set, then the auxiliary variables of its
      `exactly_one_of` completed. */
  function PlaceItemAssign(e: Cnf, it: Item, maxStorage: nat, prev: Assignment, q: int): Assignment
  {
    var vars := ItemVars(e, it, maxStorage);
    AtMostOneExtend(vars, Cnf(e.varCount + |vars|, e.clauses + [vars]), SetTrue(prev, e.varCount + 1 + q))
  }

  /** The values of the first `n` items' variables: each item's variable at
      its position true, the others false, and the auxiliary variables of its
      `exactly_one_of` completed. */
  function PlaceAssign(items: seq<Item>, maxStorage: nat, positions: seq<int>, used: int, n: nat): Assignment
    requires n <= |items| == |positions|
  {
    if n == 0 then Base(items, maxStorage, used)
    else
      PlaceItemAssign(Placed(items, maxStorage, n - 1), items[n - 1], maxStorage,
        PlaceAssign(items, maxStorage, positions, used, n - 1), positions[n - 1])
  }

  /** The values after item `i` are the one-item step from the values before it. */
  lemma {:induction false} PlaceAssignNext(items: seq<Item>, maxStorage: nat, positions: seq<int>, used: int, i: nat, j: nat,
                                           e: Cnf, vars: seq<int>, prev: Assignment, a: Assignment)
    requires j == i + 1 && i < |items| == |positions|
    requires e == Placed(items, maxStorage, i) && vars == ItemVars(e, items[i], maxStorage)
    requires prev == PlaceAssign(items, maxStorage, positions, used, i) && a == PlaceAssign(items, maxStorage, positions, used, j)
    ensures a == AtMostOneExtend(vars, Cnf(e.varCount + |vars|, e.clauses + [vars]), SetTrue(prev, e.varCount + 1 + positions[i]))
  {
    assert a == PlaceItemAssign(e, items[i], maxStorage, prev, positions[i]);
  }

  /** Values agree above `bound`. */
  ghost predicate AgreeAbove(a: Assignment, b: Assignment, bound: nat)
  {
    forall v: nat :: v > bound ==> a(v) == b(v)
  }

  /** Each of the first `n` items has exactly its position's variable true. */
  ghost predicate ItemsExact(a: Assignment, items: seq<Item>, maxStorage: nat, positions: seq<int>, n: nat)
    requires n <= |items| == |positions|
  {
    forall i :: 0 <= i < n ==> ExactlyAt(a, Placements(items, maxStorage, |items|)[i], positions[i])
  }

  /** Setting one of a run of fresh, false variables. */
  lemma {:induction false} SetTrueFresh(prev: Assignment, vars: seq<int>, q: int, bound: nat)
    requires Run(vars, bound + 1) && 0 <= q < |vars|
    requires forall p :: 0 <= p < |vars| ==> !prev(vars[p])
    ensures var chosen := SetTrue(prev, bound + 1 + q);
      ExactlyAt(chosen, vars, q) && forall v: nat :: v != bound + 1 + q ==> chosen(v) == prev(v)
  {
  }

  /** One `exactly_one_of` over fresh variables, completed from values with
      exactly offset `q` true, satisfies the new clauses. */
  lemma {:induction false} FreshExactlyOne(e: Cnf, vars: seq<int>, prev: Assignment, chosen: Assignment, q: int)
    requires WellFormed(e) && Satisfies(prev, e.clauses) && AgreeUpTo(prev, chosen, e.varCount)
    requires Run(vars, e.varCount + 1)
    requires ExactlyAt(chosen, vars, q) && 0 <= q < |vars|
    ensures var e1 := Cnf(e.varCount + |vars|, e.clauses);
      Satisfies(AtMostOneExtend(vars, Cnf(e1.varCount, e1.clauses + [vars]), chosen), ExactlyOne(vars, e1).clauses)
  {
    var e1 := Cnf(e.varCount + |vars|, e.clauses);
    SatisfiesAgree(prev, chosen, e);
    ClausesWithinMono(e.clauses, e.varCount, e1.varCount);
    RunWithin(vars, e.varCount + 1, e1.varCount);
    assert Holds(chosen, vars[q]);
    ExactlyOneComplete(vars, e1, chosen);
  }

  /** The completion of an `exactly_one_of` over fresh variables keeps them
      and everything outside its auxiliary variables. */
  lemma {:induction false} FreshFrame(e0: Cnf, vars: seq<int>, chosen: Assignment, q: int)
    requires LitsWithin(vars, e0.varCount) && ExactlyAt(chosen, vars, q)
    ensures var a := AtMostOneExtend(vars, e0, chosen);
      && AgreeUpTo(chosen, a, e0.varCount)
      && AgreeAbove(chosen, a, AtMostOne(vars, e0).varCount)
      && ExactlyAt(a, vars, q)
      && e0.varCount <= AtMostOne(vars, e0).varCount
  {
    var a := AtMostOneExtend(vars, e0, chosen);
    AtMostOneExtends(vars, e0);
    forall v: nat | v <= e0.varCount ensures chosen(v) == a(v) {
      AtMostOneFrame(vars, e0, chosen, v);
    }
    forall v: nat | v > AtMostOne(vars, e0).varCount ensures chosen(v) == a(v) {
      AtMostOneFrame(vars, e0, chosen, v);
    }
    ExactlyAtAgree(chosen, a, vars, q, e0.varCount);
  }

  /** Setting one variable `x` above `lo` and then changing only variables
      in (`hi`, `top`] keeps everything up to `lo`, and everything above `top`. */
  lemma {:induction false} ChangedBetween(prev: Assignment, chosen: Assignment, a: Assignment, base: Assignment, lo: nat, x: int, hi: nat, top: nat)
    requires lo < x <= hi <= top
    requires forall v: nat :: v != x ==> chosen(v) == prev(v)
    requires AgreeUpTo(chosen, a, hi) && AgreeAbove(chosen, a, top) && AgreeAbove(prev, base, lo)
    ensures AgreeUpTo(prev, a, lo) && AgreeAbove(a, base, top)
  {
    forall v: nat | v <= lo ensures prev(v) == a(v) {
      assert chosen(v) == a(v);
    }
    forall v: nat | v > top ensures a(v) == base(v) {
      assert chosen(v) == a(v);
      assert chosen(v) == prev(v);
    }
  }

  /** One `exactly_one_of` over fresh variables, false so far: setting the
      variable at offset `q` and completing the auxiliaries satisfies the
      clauses, puts exactly offset `q` true, and changes nothing before the
      fresh variables or after the auxiliaries. */
  lemma {:induction false} FreshStep(e: Cnf, vars: seq<int>, prev: Assignment, base: Assignment, q: int, a: Assignment, e1: Cnf)
    requires WellFormed(e) && Satisfies(prev, e.clauses) && AgreeAbove(prev, base, e.varCount)
    requires Run(vars, e.varCount + 1) && 0 <= q < |vars|
    requires forall p :: 0 <= p < |vars| ==> !base(vars[p])
    requires a == AtMostOneExtend(vars, Cnf(e.varCount + |vars|, e.clauses + [vars]), SetTrue(prev, e.varCount + 1 + q))
    requires e1 == ExactlyOne(vars, Cnf(e.varCount + |vars|, e.clauses))
    ensures Satisfies(a, e1.clauses) && AgreeAbove(a, base, e1.varCount)
    ensures AgreeUpTo(prev, a, e.varCount) && ExactlyAt(a, vars, q)
  {
    var e0 := Cnf(e.varCount + |vars|, e.clauses + [vars]);
    var chosen := SetTrue(prev, e.varCount + 1 + q);
    assert e1.varCount == AtMostOne(vars, e0).varCount;
    assert ExactlyAt(chosen, vars, q) && forall v: nat :: v != e.varCount + 1 + q ==> chosen(v) == prev(v) by {
      forall p | 0 <= p < |vars| ensures !prev(vars[p]) {
        assert prev(vars[p]) == base(vars[p]);
      }
      SetTrueFresh(prev, vars, q, e.varCount);
    }
    assert Satisfies(a, e1.clauses) by {
      FreshExactlyOne(e, vars, prev, chosen, q);
    }
    assert AgreeUpTo(chosen, a, e0.varCount) && AgreeAbove(chosen, a, e1.varCount) && ExactlyAt(a, vars, q) && e0.varCount <= e1.varCount by {
      RunWithin(vars, e.varCount + 1, e0.varCount);
      FreshFrame(e0, vars, chosen, q);
    }
    ChangedBetween(prev, chosen, a, base, e.varCount, e.varCount + 1 + q, e0.varCount, e1.varCount);
  }

  /** Before item `i` is placed, the state is well formed, its variables
      are a fresh run that `Base` leaves false, and its position has one. */
  lemma {:induction false} PlaceStepFresh(items: seq<Item>, maxStorage: nat, positions: seq<int>, used: int, i: nat, e: Cnf, vars: seq<int>)
    requires i < |items| == |positions| && InBounds(items, maxStorage, positions, used)
    requires e == Placed(items, maxStorage, i) && vars == ItemVars(e, items[i], maxStorage)
    ensures WellFormed(e) && Run(vars, e.varCount + 1) && 0 <= positions[i] < |vars|
    ensures forall p :: 0 <= p < |vars| ==> !Base(items, maxStorage, used)(vars[p])
  {
    var base := Base(items, maxStorage, used);
    ConsecutiveRun(e.varCount + 1, PositionCount(items[i], maxStorage));
    PositionCountMeaning(items[i], maxStorage, positions[i]);
    assert forall p :: 0 <= p < |vars| ==> !base(vars[p]) by {
      ItemVarsWithin(items, maxStorage, i, |items|);
      forall p | 0 <= p < |vars| ensures !base(vars[p]) {
        assert vars[p] in vars;
      }
    }
    PlacedWellFormed(items, maxStorage, i);
  }

  /** Placing item `i`, which leads from state `e` and values `prev` to
      state `e1` and values `a`: the clauses so far stay satisfied, its
      variables become true exactly at its position, and only its own
      variables and auxiliaries change. */
  lemma {:induction false} PlaceStep(items: seq<Item>, maxStorage: nat, positions: seq<int>, used: int, i: nat, j: nat,
                                     e: Cnf, e1: Cnf, prev: Assignment, a: Assignment)
    requires j == i + 1 && i < |items| == |positions| && InBounds(items, maxStorage, positions, used)
    requires e == Placed(items, maxStorage, i) && e1 == Placed(items, maxStorage, j)
    requires prev == PlaceAssign(items, maxStorage, positions, used, i) && a == PlaceAssign(items, maxStorage, positions, used, j)
    requires Satisfies(prev, e.clauses) && AgreeAbove(prev, Base(items, maxStorage, used), e.varCount)
    ensures Satisfies(a, e1.clauses) && AgreeAbove(a, Base(items, maxStorage, used), e1.varCount)
    ensures AgreeUpTo(prev, a, e.varCount) && ExactlyAt(a, ItemVars(e, items[i], maxStorage), positions[i])
  {
    var vars := ItemVars(e, items[i], maxStorage);
    PlaceStepFresh(items, maxStorage, positions, used, i, e, vars);
    PlacedNext(items, maxStorage, i, j, e, e1, vars);
    PlaceAssignNext(items, maxStorage, positions, used, i, j, e, vars, prev, a);
    FreshStep(e, vars, prev, Base(items, maxStorage, used), positions[i], a, e1);
  }

  /** Values that agree on the first `n` items' allocation keep item `i`'s position. */
  lemma {:induction false} EarlierItemKept(items: seq<Item>, maxStorage: nat, positions: seq<int>, prev: Assignment, a: Assignment, i: nat, n: nat)
    requires i < n <= |items| == |positions|
    requires ExactlyAt(prev, Placements(items, maxStorage, |items|)[i], positions[i])
    requires AgreeUpTo(prev, a, Placed(items, maxStorage, n).varCount)
    ensures ExactlyAt(a, Placements(items, maxStorage, |items|)[i], positions[i])
  {
    PlacementsAt(items, maxStorage, |items|, i);
    ItemVarsWithin(items, maxStorage, i, n);
    ExactlyAtAgree(prev, a, Placements(items, maxStorage, |items|)[i], positions[i], Placed(items, maxStorage, n).varCount);
  }

  /** Values that keep the first `i` items' variables and put item `i` at
      its position have the first `j = i + 1` items placed. */
  lemma {:induction false} ItemsExactStep(items: seq<Item>, maxStorage: nat, positions: seq<int>, prev: Assignment, a: Assignment, i: nat, j: nat, e: Cnf)
    requires j == i + 1 && i < |items| == |positions| && e == Placed(items, maxStorage, i)
    requires ItemsExact(prev, items, maxStorage, positions, i)
    requires AgreeUpTo(prev, a, e.varCount)
    requires ExactlyAt(a, ItemVars(e, items[i], maxStorage), positions[i])
    ensures ItemsExact(a, items, maxStorage, positions, j)
  {
    PlacementsAt(items, maxStorage, |items|, i);
    forall k | 0 <= k < i ensures ExactlyAt(a, Placements(items, maxStorage, |items|)[k], positions[k]) {
      EarlierItemKept(items, maxStorage, positions, prev, a, k, i);
    }
  }

  /** The placed values satisfy the placement clauses, keep the limit
      literals of `Base`, and put every item at its position. */
  lemma {:induction false} PlaceAssignFacts(items: seq<Item>, maxStorage: nat, positions: seq<int>, used: int, n: nat)
    requires n <= |items| == |positions| && InBounds(items, maxStorage, positions, used)
    ensures var a := PlaceAssign(items, maxStorage, positions, used, n);
      && Satisfies(a, Placed(items, maxStorage, n).clauses)
      && AgreeAbove(a, Base(items, maxStorage, used), Placed(items, maxStorage, n).varCount)
      && ItemsExact(a, items, maxStorage, positions, n)
  {
    if n > 0 {
      var i := n - 1;
      var e, e1 := Placed(items, maxStorage, i), Placed(items, maxStorage, n);
      var prev, a := PlaceAssign(items, maxStorage, positions, used, i), PlaceAssign(items, maxStorage, positions, used, n);
      PlaceAssignFacts(items, maxStorage, positions, used, i);
      PlaceStep(items, maxStorage, positions, used, i, n, e, e1, prev, a);
      ItemsExactStep(items, maxStorage, positions, prev, a, i, n, e);
    }
  }

  /** Item variables and limit literals of the placed assignment. */
  lemma {:induction false} PlacedValues(items: seq<Item>, maxStorage: nat, positions: seq<int>, used: int)
    requires |items| == |positions| && InBounds(items, maxStorage, positions, used)
    ensures var a := PlaceAssign(items, maxStorage, positions, used, |items|);
      && Satisfies(a, Limited(items, maxStorage).clauses)
      && (forall i :: 0 <= i < |items| ==> ExactlyAt(a, Placements(items, maxStorage, |items|)[i], positions[i]))
      && forall s :: 0 <= s < maxStorage ==> (Holds(a, LimitVars(items, maxStorage)[s]) <==> s >= used)
  {
    var a := PlaceAssign(items, maxStorage, positions, used, |items|);
    var limits := LimitVars(items, maxStorage);
    PlaceAssignFacts(items, maxStorage, positions, used, |items|);
    forall s | 0 <= s < maxStorage ensures Holds(a, limits[s]) <==> s >= used {
      assert a(limits[s]) == Base(items, maxStorage, used)(limits[s]);
    }
    UsedStorageOfThreshold(a, limits, used);
    ChainMeaning(a, limits);
    SatisfiesAppend(a, Placed(items, maxStorage, |items|).clauses, Chain(limits));
  }

  /** In a valid layout no two items take one slot of one layer on one day. */
  lemma {:induction false} NoSharedSlot(items: seq<Item>, maxStorage: nat, positions: seq<int>, used: int, layer: Layer, day: int, slot: int, i: nat, j: nat)
    requires Fits(items, maxStorage, positions, used) && i < j < |items|
    ensures !(Occupies(layer, items[i], positions[i], day, slot) && Occupies(layer, items[j], positions[j], day, slot))
  {
  }

  /** Under the layout's values every cell has at most one true literal: no
      two items share the slot, and an item below `used` never meets a true
      limit literal. */
  lemma {:induction false} CellComplete(items: seq<Item>, maxStorage: nat, positions: seq<int>, used: int, a: Assignment, layer: Layer, day: int, slot: nat)
    requires Fits(items, maxStorage, positions, used) && (layer.Overlap? ==> slot < maxStorage)
    requires forall i :: 0 <= i < |items| ==> ExactlyAt(a, Placements(items, maxStorage, |items|)[i], positions[i])
    requires forall s :: 0 <= s < maxStorage ==> (Holds(a, LimitVars(items, maxStorage)[s]) <==> s >= used)
    ensures AtMostOneTrue(a, Cell(items, Placements(items, maxStorage, |items|), LimitVars(items, maxStorage), layer, day, slot))
  {
    var placements := Placements(items, maxStorage, |items|);
    var limits := LimitVars(items, maxStorage);
    forall i, j | 0 <= i < j < |items|
      ensures !(Occupies(layer, items[i], positions[i], day, slot) && Occupies(layer, items[j], positions[j], day, slot))
    {
      NoSharedSlot(items, maxStorage, positions, used, layer, day, slot, i, j);
    }
    OccupantsExact(a, items, placements, positions, layer, day, slot, |items|);
    var head := if layer.Overlap? then [limits[slot]] else [];
    var occupants := Occupants(items, placements, layer, day, slot, |items|);
    AtMostOneTrueAppend(a, head, occupants);
  }

  /** A no-overlap cell of a layout's model has at most one true literal. */
  lemma {:induction false} OverlapGroupComplete(items: seq<Item>, maxStorage: nat, positions: seq<int>, used: int, a: Assignment, g: seq<int>)
    requires |items| >= 1 && Fits(items, maxStorage, positions, used)
    requires forall i :: 0 <= i < |items| ==> ExactlyAt(a, Placements(items, maxStorage, |items|)[i], positions[i])
    requires forall s :: 0 <= s < maxStorage ==> (Holds(a, LimitVars(items, maxStorage)[s]) <==> s >= used)
    requires g in LayerCells(items, Placements(items, maxStorage, |items|), LimitVars(items, maxStorage), Overlap, maxStorage, DayCount(items))
    ensures AtMostOneTrue(a, g)
  {
    var placements := Placements(items, maxStorage, |items|);
    var limits := LimitVars(items, maxStorage);
    var days := DayCount(items);
    LayerCellsAreCells(items, placements, limits, Overlap, maxStorage, days, days);
    var day: nat, slot: nat :| day < days && slot < maxStorage && g == Cell(items, placements, limits, Overlap, day, slot);
    CellComplete(items, maxStorage, positions, used, a, Overlap, day, slot);
  }

  /** A same-category cell of a layout's model has at most one true literal. */
  lemma {:induction false} CategoryGroupComplete(items: seq<Item>, maxStorage: nat, order: seq<int>, positions: seq<int>, used: int, a: Assignment, g: seq<int>)
    requires |items| >= 1 && Fits(items, maxStorage, positions, used)
    requires forall i :: 0 <= i < |items| ==> ExactlyAt(a, Placements(items, maxStorage, |items|)[i], positions[i])
    requires forall s :: 0 <= s < maxStorage ==> (Holds(a, LimitVars(items, maxStorage)[s]) <==> s >= used)
    requires g in CategoryCells(items, Placements(items, maxStorage, |items|), order, maxStorage + 1, DayCount(items), |order|)
    ensures AtMostOneTrue(a, g)
  {
    var placements := Placements(items, maxStorage, |items|);
    var limits := LimitVars(items, maxStorage);
    var days := DayCount(items);
    CategoryCellsAreCells(items, placements, order, maxStorage + 1, days, |order|);
    var j :| 0 <= j < |order| && IsCell(items, placements, [], SameCategory(order[j]), maxStorage + 1, days, g);
    var day: nat, slot: nat :| day < days && slot < maxStorage + 1 && g == Cell(items, placements, [], SameCategory(order[j]), day, slot);
    CellComplete(items, maxStorage, positions, used, a, SameCategory(order[j]), day, slot);
    assert g == Cell(items, placements, limits, SameCategory(order[j]), day, slot);
  }

  /** Every group, under the layout's values, has at most one true literal. */
  lemma {:induction false} GroupsComplete(items: seq<Item>, maxStorage: nat, order: seq<int>, positions: seq<int>, used: int, a: Assignment)
    requires |items| >= 1 && Fits(items, maxStorage, positions, used)
    requires forall i :: 0 <= i < |items| ==> ExactlyAt(a, Placements(items, maxStorage, |items|)[i], positions[i])
    requires forall s :: 0 <= s < maxStorage ==> (Holds(a, LimitVars(items, maxStorage)[s]) <==> s >= used)
    ensures AllAtMostOne(a, Groups(items, maxStorage, order))
  {
    var placements := Placements(items, maxStorage, |items|);
    var limits := LimitVars(items, maxStorage);
    var days := DayCount(items);
    var overlap := LayerCells(items, placements, limits, Overlap, maxStorage, days);
    var categories := CategoryCells(items, placements, order, maxStorage + 1, days, |order|);
    forall k | 0 <= k < |overlap + categories| ensures AtMostOneTrue(a, (overlap + categories)[k]) {
      var g := (overlap + categories)[k];
      if k < |overlap| {
        assert g in overlap;
        OverlapGroupComplete(items, maxStorage, positions, used, a, g);
      } else {
        assert g in categories;
        CategoryGroupComplete(items, maxStorage, order, positions, used, a, g);
      }
    }
  }

  /** The model of the clauses that encodes a given layout. */
  function Witness(items: seq<Item>, maxStorage: nat, order: seq<int>, positions: seq<int>, used: int): Assignment
    requires |items| >= 1 && |positions| == |items|
  {
    AtMostOneEachExtend(Groups(items, maxStorage, order), Limited(items, maxStorage),
      PlaceAssign(items, maxStorage, positions, used, |items|))
  }

  /** Completeness: a valid layout of the items within `used` slots is
      encoded by a model of the generated clauses, and `store_solution` reads
      exactly that layout and that storage use back from it. */
  lemma {:induction false} EncodeComplete(items: seq<Item>, maxStorage: nat, order: seq<int>, positions: seq<int>, used: int)
    requires |items| >= 1 && Fits(items, maxStorage, positions, used)
    ensures var a := Witness(items, maxStorage, order, positions, used);
      && Satisfies(a, Encode(items, maxStorage, order).clauses)
      && Decode(items, maxStorage, a) == Solution(used, positions)
      && forall s :: 0 <= s < maxStorage ==> (Holds(a, LimitVars(items, maxStorage)[s]) <==> s >= used)
  {
    var placements := Placements(items, maxStorage, |items|);
    var limits := LimitVars(items, maxStorage);
    var groups := Groups(items, maxStorage, order);
    var lim := Limited(items, maxStorage);
    var a0 := PlaceAssign(items, maxStorage, positions, used, |items|);
    var a := Witness(items, maxStorage, order, positions, used);
    PlacedValues(items, maxStorage, positions, used);
    GroupsComplete(items, maxStorage, order, positions, used, a0);
    GroupsWithin(items, maxStorage, order);
    LimitedWellFormed(items, maxStorage);
    AtMostOneEachComplete(groups, lim, a0);
    // the completion keeps every placement variable and limit literal
    forall v: nat | v <= lim.varCount ensures a0(v) == a(v) {
      AtMostOneEachFrame(groups, lim, a0, v);
    }
    assert AgreeUpTo(a0, a, lim.varCount);
    forall i | 0 <= i < |items| ensures FirstTrue(a, placements[i]) == positions[i] {
      PlacementsWithin(items, maxStorage, i);
      ExactlyAtAgree(a0, a, placements[i], positions[i], lim.varCount);
      PositionCountMeaning(items[i], maxStorage, positions[i]);
      ExactlyAtFirst(a, placements[i], positions[i]);
    }
    forall s | 0 <= s < maxStorage ensures Holds(a, limits[s]) <==> s >= used {
      assert limits[s] in limits;
      HoldsAgree(a0, a, lim.varCount, limits[s]);
    }
    UsedStorageOfThreshold(a, limits, used);
    assert Positions(a, placements) == positions;
  }
}
