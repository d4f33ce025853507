/** The occupancy tables of `no_overlap` and `separate_same_type`: one list
    of placement variables per (day, slot) cell, filled by appending, item by
    item, day by day, offset by offset and slot by slot, each placement
    variable to every cell its footprint covers. */
module Tables {
  import opened Layout
  import opened Encoding

  /** `table[day][slot]` is the list of literals of one cell. */
  type Table = seq<seq<seq<int>>>

  /** `days` rows of `slots` cells each. */
  predicate Shaped(t: Table, days: nat, slots: nat)
  {
    |t| == days && forall d :: 0 <= d < days ==> |t[d]| == slots
  }

  /** The innermost loop: `lit` is appended to the cells of slots `p .. p + w - 1` of `day`. */
  method AddBlock(t: Table, days: nat, slots: nat, day: int, p: int, w: int, lit: int) returns (t': Table)
    requires Shaped(t, days, slots) && 0 <= day < days && 0 <= p && 0 <= w && p + w <= slots
    ensures Shaped(t', days, slots)
    ensures forall d, s :: 0 <= d < days && 0 <= s < slots ==>
      t'[d][s] == t[d][s] + (if d == day && p <= s < p + w then [lit] else [])
  {
    t' := t;
    var i := 0;
    while i < w
      invariant 0 <= i <= w
      invariant Shaped(t', days, slots)
      invariant forall d, s :: 0 <= d < days && 0 <= s < slots ==>
        t'[d][s] == t[d][s] + (if d == day && p <= s < p + i then [lit] else [])
    {
      ghost var prev := t';
      t' := t'[day := t'[day][p + i := t'[day][p + i] + [lit]]];
      forall d, s | 0 <= d < days && 0 <= s < slots
        ensures t'[d][s] == t[d][s] + (if d == day && p <= s < p + i + 1 then [lit] else [])
      {
        if d == day && s == p + i {
          assert t'[d][s] == prev[d][s] + [lit];
        } else {
          assert t'[d][s] == prev[d][s];
        }
      }
      i := i + 1;
    }
  }

  /** One day of one item: every offset's variable goes to the cells its
      footprint of width `w` covers. */
  method AddItemDay(t: Table, days: nat, slots: nat, day: int, vars: seq<int>, w: int) returns (t': Table)
    requires Shaped(t, days, slots) && 0 <= day < days && 0 <= w
    requires vars == [] || |vars| - 1 + w <= slots
    ensures Shaped(t', days, slots)
    ensures forall s :: 0 <= s < slots ==> t'[day][s] == t[day][s] + Cover(vars, w, s, |vars|)
    ensures forall d :: 0 <= d < days && d != day ==> t'[d] == t[d]
  {
    t' := t;
    var position := 0;
    while position < |vars|
      invariant position <= |vars|
      invariant Shaped(t', days, slots)
      invariant forall s :: 0 <= s < slots ==> t'[day][s] == t[day][s] + Cover(vars, w, s, position)
      invariant forall d :: 0 <= d < days && d != day ==> t'[d] == t[d]
    {
      ghost var prev := t';
      t' := AddBlock(t', days, slots, day, position, w, vars[position]);
      forall s | 0 <= s < slots
        ensures t'[day][s] == t[day][s] + Cover(vars, w, s, position + 1)
      {
        assert t'[day][s] == prev[day][s] + (if position <= s < position + w then [vars[position]] else []);
      }
      forall d | 0 <= d < days && d != day ensures t'[d] == t[d] {
        assert forall s :: 0 <= s < slots ==> t'[d][s] == prev[d][s];
      }
      position := position + 1;
    }
  }

  /** One item: skipped when the table is for another category; otherwise
      every day of its range gets its footprints. */
  method AddItem(t: Table, days: nat, slots: nat, layer: Layer, it: Item, vars: seq<int>) returns (t': Table)
    requires Shaped(t, days, slots) && 0 <= it.begin && it.end < days && 0 <= it.width
    requires vars == [] || |vars| - 1 + Footprint(layer, it) <= slots
    ensures Shaped(t', days, slots)
    ensures forall d, s :: 0 <= d < days && 0 <= s < slots ==>
      t'[d][s] == t[d][s] + Contribution(layer, it, vars, d, s)
  {
    if layer.SameCategory? && it.category != layer.category {
      return t;
    }
    var w := Footprint(layer, it);
    t' := t;
    var day := it.begin;
    while day < it.end + 1
      invariant it.begin <= day && (day == it.begin || day <= it.end + 1)
      invariant Shaped(t', days, slots)
      invariant forall d, s :: 0 <= d < days && it.begin <= d < day && 0 <= s < slots ==> t'[d][s] == t[d][s] + Cover(vars, w, s, |vars|)
      invariant forall d :: 0 <= d < days && !(it.begin <= d < day) ==> t'[d] == t[d]
    {
      t' := AddItemDay(t', days, slots, day, vars, w);
      day := day + 1;
    }
    forall d, s | 0 <= d < days && 0 <= s < slots
      ensures t'[d][s] == t[d][s] + Contribution(layer, it, vars, d, s)
    {
      if !(it.begin <= d <= it.end) {
        assert t'[d] == t[d];
      }
    }
  }

  /** All items in order: each cell ends with the occupants the items
      append to it. */
  method Fill(t: Table, days: nat, slots: nat, layer: Layer, items: seq<Item>, placements: seq<seq<int>>) returns (t': Table)
    requires Shaped(t, days, slots) && |placements| == |items|
    requires forall i :: 0 <= i < |items| ==> 0 <= items[i].begin && items[i].end < days && 0 <= items[i].width
    requires forall i :: 0 <= i < |items| ==>
      placements[i] == [] || |placements[i]| - 1 + Footprint(layer, items[i]) <= slots
    ensures Shaped(t', days, slots)
    ensures forall d, s :: 0 <= d < days && 0 <= s < slots ==>
      t'[d][s] == t[d][s] + Occupants(items, placements, layer, d, s, |items|)
  {
    t' := t;
    var n := 0;
    while n < |items|
      invariant n <= |items|
      invariant Shaped(t', days, slots)
      invariant forall d, s :: 0 <= d < days && 0 <= s < slots ==>
        t'[d][s] == t[d][s] + Occupants(items, placements, layer, d, s, n)
    {
      ghost var prev := t';
      t' := AddItem(t', days, slots, layer, items[n], placements[n]);
      forall d, s | 0 <= d < days && 0 <= s < slots
        ensures t'[d][s] == t[d][s] + Occupants(items, placements, layer, d, s, n + 1)
      {
        assert t'[d][s] == prev[d][s] + Contribution(layer, items[n], placements[n], d, s);
      }
      n := n + 1;
    }
  }
}
