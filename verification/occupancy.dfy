/** The occupancy tables of `no_overlap` and `separate_same_type`: which
    placement variables each cell lists, which cells become at-most-one
    groups, and when a cell has at most one true literal. */
module Occupancy {
  import opened Cnf
  import opened Cardinality
  import opened Layout
  import opened Encoding

  /** An item placed at `position` takes `slot` of `day` on this layer. */
  predicate Occupies(layer: Layer, it: Item, position: int, day: int, slot: int)
  {
    Relevant(layer, it) && Covers(it, day) && position <= slot < position + Footprint(layer, it)
  }

  /** An assignment that makes exactly the variable of offset `q` true. */
  predicate ExactlyAt(a: Assignment, vars: seq<int>, q: int)
  {
    forall p :: 0 <= p < |vars| ==> (Holds(a, vars[p]) <==> p == q)
  }

  // ---------------------------------------------------------------------------
  // Cover: the offsets whose footprint contains a slot

  lemma {:induction false} CoverHas(vars: seq<int>, w: int, slot: int, m: nat, p: nat)
    requires p < m <= |vars| && p <= slot < p + w
    ensures vars[p] in Cover(vars, w, slot, m)
  {
    if p < m - 1 {
      CoverHas(vars, w, slot, m - 1, p);
    }
  }

  lemma {:induction false} CoverWithin(vars: seq<int>, w: int, slot: int, m: nat, bound: nat)
    requires m <= |vars| && LitsWithin(vars, bound)
    ensures LitsWithin(Cover(vars, w, slot, m), bound)
  {
    if m > 0 {
      CoverWithin(vars, w, slot, m - 1, bound);
      assert vars[m - 1] in vars;
      LitsWithinAppend(Cover(vars, w, slot, m - 1), if m - 1 <= slot < m - 1 + w then [vars[m - 1]] else [], bound);
    }
  }

  /** When only offset `q` is true, the cover has at most one true literal,
      and one only if `q`'s footprint contains the slot. */
  lemma {:induction false} CoverExact(a: Assignment, vars: seq<int>, w: int, slot: int, m: nat, q: int)
    requires m <= |vars| && ExactlyAt(a, vars, q)
    ensures AtMostOneTrue(a, Cover(vars, w, slot, m))
    ensures SomeTrue(a, Cover(vars, w, slot, m)) ==> 0 <= q < m && q <= slot < q + w
  {
    if m > 0 {
      CoverExact(a, vars, w, slot, m - 1, q);
      var prev := Cover(vars, w, slot, m - 1);
      var last := if m - 1 <= slot < m - 1 + w then [vars[m - 1]] else [];
      if SomeTrue(a, last) {
        assert Holds(a, last[0]);
      }
      AtMostOneTrueAppend(a, prev, last);
      SomeTrueAppend(a, prev, last);
    }
  }

  lemma {:induction false} ContributionHas(layer: Layer, it: Item, vars: seq<int>, day: int, slot: int, p: nat)
    requires p < |vars| && Occupies(layer, it, p, day, slot)
    ensures vars[p] in Contribution(layer, it, vars, day, slot)
  {
    CoverHas(vars, Footprint(layer, it), slot, |vars|, p);
  }

  lemma {:induction false} ContributionExact(a: Assignment, layer: Layer, it: Item, vars: seq<int>, day: int, slot: int, q: int)
    requires ExactlyAt(a, vars, q)
    ensures AtMostOneTrue(a, Contribution(layer, it, vars, day, slot))
    ensures SomeTrue(a, Contribution(layer, it, vars, day, slot)) ==> 0 <= q < |vars| && Occupies(layer, it, q, day, slot)
  {
    CoverExact(a, vars, Footprint(layer, it), slot, |vars|, q);
  }

  // ---------------------------------------------------------------------------
  // Occupants: every item's contribution, in item order

  lemma {:induction false} OccupantsHas(items: seq<Item>, placements: seq<seq<int>>, layer: Layer, day: int, slot: int, n: nat, i: nat, p: nat)
    requires n <= |items| == |placements| && i < n && p < |placements[i]|
    requires Occupies(layer, items[i], p, day, slot)
    ensures placements[i][p] in Occupants(items, placements, layer, day, slot, n)
  {
    var prev := Occupants(items, placements, layer, day, slot, n - 1);
    var last := Contribution(layer, items[n - 1], placements[n - 1], day, slot);
    assert Occupants(items, placements, layer, day, slot, n) == prev + last;
    if i == n - 1 {
      ContributionHas(layer, items[i], placements[i], day, slot, p);
      assert placements[i][p] in last;
    } else {
      OccupantsHas(items, placements, layer, day, slot, n - 1, i, p);
      assert placements[i][p] in prev;
    }
  }

  lemma {:induction false} OccupantsWithin(items: seq<Item>, placements: seq<seq<int>>, layer: Layer, day: int, slot: int, n: nat, bound: nat)
    requires n <= |items| == |placements|
    requires forall i :: 0 <= i < |placements| ==> LitsWithin(placements[i], bound)
    ensures LitsWithin(Occupants(items, placements, layer, day, slot, n), bound)
  {
    if n > 0 {
      OccupantsWithin(items, placements, layer, day, slot, n - 1, bound);
      var it, vars := items[n - 1], placements[n - 1];
      if Relevant(layer, it) && Covers(it, day) {
        CoverWithin(vars, Footprint(layer, it), slot, |vars|, bound);
      }
      LitsWithinAppend(Occupants(items, placements, layer, day, slot, n - 1), Contribution(layer, it, vars, day, slot), bound);
    }
  }

  /** With every item's variables true exactly at its position, and no two
      items taking the slot, the occupants have at most one true literal, and
      one only if some item takes the slot. */
  lemma {:induction false} OccupantsExact(a: Assignment, items: seq<Item>, placements: seq<seq<int>>, positions: seq<int>,
                                          layer: Layer, day: int, slot: int, n: nat)
    requires n <= |items| == |placements| == |positions|
    requires forall i :: 0 <= i < |items| ==> ExactlyAt(a, placements[i], positions[i])
    requires forall i, j :: 0 <= i < j < |items| ==>
      !(Occupies(layer, items[i], positions[i], day, slot) && Occupies(layer, items[j], positions[j], day, slot))
    ensures AtMostOneTrue(a, Occupants(items, placements, layer, day, slot, n))
    ensures SomeTrue(a, Occupants(items, placements, layer, day, slot, n)) ==>
      exists i :: 0 <= i < n && Occupies(layer, items[i], positions[i], day, slot)
  {
    if n > 0 {
      OccupantsExact(a, items, placements, positions, layer, day, slot, n - 1);
      var prev := Occupants(items, placements, layer, day, slot, n - 1);
      var last := Contribution(layer, items[n - 1], placements[n - 1], day, slot);
      ContributionExact(a, layer, items[n - 1], placements[n - 1], day, slot, positions[n - 1]);
      AtMostOneTrueAppend(a, prev, last);
      SomeTrueAppend(a, prev, last);
    }
  }

  // ---------------------------------------------------------------------------
  // Cells

  lemma {:induction false} CellHas(items: seq<Item>, placements: seq<seq<int>>, limits: seq<int>, layer: Layer, day: int, slot: nat, i: nat, p: nat)
    requires |items| == |placements| && (layer.Overlap? ==> slot < |limits|)
    requires i < |items| && p < |placements[i]| && Occupies(layer, items[i], p, day, slot)
    ensures placements[i][p] in Cell(items, placements, limits, layer, day, slot)
  {
    OccupantsHas(items, placements, layer, day, slot, |items|, i, p);
  }

  /** A cell of `no_overlap` starts with the literal of its slot. */
  lemma {:induction false} CellHasLimit(items: seq<Item>, placements: seq<seq<int>>, limits: seq<int>, day: int, slot: nat)
    requires |items| == |placements| && slot < |limits|
    ensures limits[slot] in Cell(items, placements, limits, Overlap, day, slot)
  {
    assert Cell(items, placements, limits, Overlap, day, slot)[0] == limits[slot];
  }

  lemma {:induction false} CellWithin(items: seq<Item>, placements: seq<seq<int>>, limits: seq<int>, layer: Layer, day: int, slot: nat, bound: nat)
    requires |items| == |placements| && (layer.Overlap? ==> slot < |limits|)
    requires forall i :: 0 <= i < |placements| ==> LitsWithin(placements[i], bound)
    requires LitsWithin(limits, bound)
    ensures LitsWithin(Cell(items, placements, limits, layer, day, slot), bound)
  {
    OccupantsWithin(items, placements, layer, day, slot, |items|, bound);
    if layer.Overlap? {
      assert limits[slot] in limits;
    }
    LitsWithinAppend(if layer.Overlap? then [limits[slot]] else [], Occupants(items, placements, layer, day, slot, |items|), bound);
  }

  // ---------------------------------------------------------------------------
  // Which cells become groups

  lemma {:induction false} InLeft(x: seq<int>, s: seq<seq<int>>, t: seq<seq<int>>)
    requires x in s
    ensures x in s + t
  {
    var p :| 0 <= p < |s| && s[p] == x;
    assert (s + t)[p] == x;
  }

  lemma {:induction false} InRight(x: seq<int>, s: seq<seq<int>>, t: seq<seq<int>>)
    requires x in t
    ensures x in s + t
  {
    var p :| 0 <= p < |t| && t[p] == x;
    assert (s + t)[|s| + p] == x;
  }

  /** The cells of a day, slot by slot. */
  lemma {:induction false} DayCellsIndex(items: seq<Item>, placements: seq<seq<int>>, limits: seq<int>, layer: Layer, day: int, m: nat)
    requires |items| == |placements| && (layer.Overlap? ==> m <= |limits|)
    ensures |DayCells(items, placements, limits, layer, day, m)| == m
    ensures forall s :: 0 <= s < m ==> DayCells(items, placements, limits, layer, day, m)[s] == Cell(items, placements, limits, layer, day, s)
  {
    if m > 0 {
      DayCellsIndex(items, placements, limits, layer, day, m - 1);
    }
  }

  lemma {:induction false} CellInDayCells(items: seq<Item>, placements: seq<seq<int>>, limits: seq<int>, layer: Layer, day: int, m: nat, slot: nat)
    requires |items| == |placements| && (layer.Overlap? ==> m <= |limits|) && slot < m
    ensures Cell(items, placements, limits, layer, day, slot) in DayCells(items, placements, limits, layer, day, m)
  {
    var i := m - 1;
    var c := Cell(items, placements, limits, layer, day, slot);
    var prefix := DayCells(items, placements, limits, layer, day, i);
    assert DayCells(items, placements, limits, layer, day, m) == prefix + [Cell(items, placements, limits, layer, day, i)];
    if slot < i {
      CellInDayCells(items, placements, limits, layer, day, i, slot);
      InLeft(c, prefix, [Cell(items, placements, limits, layer, day, i)]);
    } else {
      InRight(c, prefix, [c]);
    }
  }

  lemma {:induction false} CellInLayerCells(items: seq<Item>, placements: seq<seq<int>>, limits: seq<int>, layer: Layer, slots: nat, days: nat, day: nat, slot: nat)
    requires |items| == |placements| && (layer.Overlap? ==> slots <= |limits|) && day < days && slot < slots
    ensures Cell(items, placements, limits, layer, day, slot) in LayerCells(items, placements, limits, layer, slots, days)
  {
    var i := days - 1;
    var c := Cell(items, placements, limits, layer, day, slot);
    var prefix := LayerCells(items, placements, limits, layer, slots, i);
    var last := DayCells(items, placements, limits, layer, i, slots);
    assert LayerCells(items, placements, limits, layer, slots, days) == prefix + last;
    if day < i {
      CellInLayerCells(items, placements, limits, layer, slots, i, day, slot);
      InLeft(c, prefix, last);
    } else {
      CellInDayCells(items, placements, limits, layer, day, slots, slot);
      InRight(c, prefix, last);
    }
  }

  lemma {:induction false} CellInCategoryCells(items: seq<Item>, placements: seq<seq<int>>, order: seq<int>, slots: nat, days: nat,
                                               k: nat, j: nat, day: nat, slot: nat)
    requires |items| == |placements| && j < k <= |order| && day < days && slot < slots
    ensures Cell(items, placements, [], SameCategory(order[j]), day, slot) in CategoryCells(items, placements, order, slots, days, k)
  {
    var i := k - 1;
    var c := Cell(items, placements, [], SameCategory(order[j]), day, slot);
    var prefix := CategoryCells(items, placements, order, slots, days, i);
    var last := LayerCells(items, placements, [], SameCategory(order[i]), slots, days);
    assert CategoryCells(items, placements, order, slots, days, k) == prefix + last;
    if j < i {
      CellInCategoryCells(items, placements, order, slots, days, i, j, day, slot);
      InLeft(c, prefix, last);
    } else {
      CellInLayerCells(items, placements, [], SameCategory(order[j]), slots, days, day, slot);
      InRight(c, prefix, last);
    }
  }

  /** A group of the layer is one of its cells. */
  ghost predicate IsCell(items: seq<Item>, placements: seq<seq<int>>, limits: seq<int>, layer: Layer, slots: nat, days: nat, g: seq<int>)
    requires |items| == |placements| && (layer.Overlap? ==> slots <= |limits|)
  {
    exists day: nat, slot: nat :: day < days && slot < slots && g == Cell(items, placements, limits, layer, day, slot)
  }

  lemma {:induction false} DayCellsAreCells(items: seq<Item>, placements: seq<seq<int>>, limits: seq<int>, layer: Layer, slots: nat, days: nat, day: nat, m: nat)
    requires |items| == |placements| && (layer.Overlap? ==> slots <= |limits|) && day < days && m <= slots
    ensures forall g :: g in DayCells(items, placements, limits, layer, day, m) ==> IsCell(items, placements, limits, layer, slots, days, g)
  {
    if m > 0 {
      DayCellsAreCells(items, placements, limits, layer, slots, days, day, m - 1);
      var last := Cell(items, placements, limits, layer, day, m - 1);
      assert IsCell(items, placements, limits, layer, slots, days, last);
    }
  }

  lemma {:induction false} LayerCellsAreCells(items: seq<Item>, placements: seq<seq<int>>, limits: seq<int>, layer: Layer, slots: nat, days: nat, d: nat)
    requires |items| == |placements| && (layer.Overlap? ==> slots <= |limits|) && d <= days
    ensures forall g :: g in LayerCells(items, placements, limits, layer, slots, d) ==> IsCell(items, placements, limits, layer, slots, days, g)
  {
    if d > 0 {
      LayerCellsAreCells(items, placements, limits, layer, slots, days, d - 1);
      DayCellsAreCells(items, placements, limits, layer, slots, days, d - 1, slots);
    }
  }

  lemma {:induction false} CategoryCellsAreCells(items: seq<Item>, placements: seq<seq<int>>, order: seq<int>, slots: nat, days: nat, k: nat)
    requires |items| == |placements| && k <= |order|
    ensures forall g :: g in CategoryCells(items, placements, order, slots, days, k) ==>
      exists j :: 0 <= j < k && IsCell(items, placements, [], SameCategory(order[j]), slots, days, g)
  {
    if k > 0 {
      CategoryCellsAreCells(items, placements, order, slots, days, k - 1);
      LayerCellsAreCells(items, placements, [], SameCategory(order[k - 1]), slots, days, days);
      var prev := CategoryCells(items, placements, order, slots, days, k - 1);
      var layer := LayerCells(items, placements, [], SameCategory(order[k - 1]), slots, days);
      forall g | g in prev + layer
        ensures exists j :: 0 <= j < k && IsCell(items, placements, [], SameCategory(order[j]), slots, days, g)
      {
        if g in layer {
          assert IsCell(items, placements, [], SameCategory(order[k - 1]), slots, days, g);
        }
      }
    }
  }

  /** The cells of the first `k` categories depend only on those categories. */
  lemma {:induction false} CategoryCellsPrefix(items: seq<Item>, placements: seq<seq<int>>, order: seq<int>, order2: seq<int>,
                                              slots: nat, days: nat, k: nat)
    requires |items| == |placements| && k <= |order| && order <= order2
    ensures CategoryCells(items, placements, order, slots, days, k) == CategoryCells(items, placements, order2, slots, days, k)
  {
    if k > 0 {
      CategoryCellsPrefix(items, placements, order, order2, slots, days, k - 1);
      assert order[k - 1] == order2[k - 1];
    }
  }
}
