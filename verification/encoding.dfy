/** The clauses `PlanStorage` emits, as functions of the item table: the
    placement variables and their exactly-one constraints, the capacity
    chain, the per-cell at-most-one groups of the no-overlap and same-category
    constraints, and the decoding of a model into a solution. */
module Encoding {
  import opened Cnf
  import opened Cardinality
  import opened Layout

  // ---------------------------------------------------------------------------
  // place_each_item

  /** The placement variables of an item, one per start offset, allocated in state `e`. */
  function ItemVars(e: Cnf, it: Item, maxStorage: nat): seq<int>
  {
    Consecutive(e.varCount + 1, PositionCount(it, maxStorage))
  }

  /** The state once `place_each_item` has handled the first `n` items. */
  function Placed(items: seq<Item>, maxStorage: nat, n: nat): Cnf
    requires n <= |items|
  {
    if n == 0 then Cnf(0, [])
    else
      var e := Placed(items, maxStorage, n - 1);
      var vars := ItemVars(e, items[n - 1], maxStorage);
      ExactlyOne(vars, Cnf(e.varCount + |vars|, e.clauses))
  }

  /** The `placements` lists of the first `n` items. */
  function Placements(items: seq<Item>, maxStorage: nat, n: nat): (ps: seq<seq<int>>)
    requires n <= |items|
    ensures |ps| == n
    ensures forall i :: 0 <= i < n ==> |ps[i]| == PositionCount(items[i], maxStorage)
  {
    if n == 0 then []
    else Placements(items, maxStorage, n - 1) + [ItemVars(Placed(items, maxStorage, n - 1), items[n - 1], maxStorage)]
  }

  // ---------------------------------------------------------------------------
  // limit_storage

  /** The `limit_storage` literals, allocated right after the placement variables. */
  function LimitVars(items: seq<Item>, maxStorage: nat): seq<int>
  {
    Consecutive(Placed(items, maxStorage, |items|).varCount + 1, maxStorage)
  }

  /** The clauses `[-limits[i], limits[i + 1]]` for `i < m`. */
  function ChainUpTo(limits: seq<int>, m: nat): seq<Clause>
    requires m == 0 || m < |limits|
  {
    if m == 0 then [] else ChainUpTo(limits, m - 1) + [[-limits[m - 1], limits[m]]]
  }

  /** One clause per consecutive pair of limit literals. */
  function Chain(limits: seq<int>): seq<Clause>
  {
    if |limits| == 0 then [] else ChainUpTo(limits, |limits| - 1)
  }

  /** The state after `limit_storage`. */
  function Limited(items: seq<Item>, maxStorage: nat): Cnf
  {
    var e := Placed(items, maxStorage, |items|);
    Cnf(e.varCount + maxStorage, e.clauses + Chain(LimitVars(items, maxStorage)))
  }

  // ---------------------------------------------------------------------------
  // no_overlap and separate_same_type: one at-most-one group per (day, slot)

  /** `no_overlap` works on the plain footprints of all items, each cell starting
      with its slot's limit literal; `separate_same_type` on the footprints,
      widened by one slot, of the items of one category. */
  datatype Layer = Overlap | SameCategory(category: int)

  /** Slots per day of the occupancy table: `max_storage`, or one more for a category. */
  function Slots(layer: Layer, maxStorage: nat): nat
  {
    if layer.Overlap? then maxStorage else maxStorage + 1
  }

  /** Number of slots an item placed at some offset adds itself to. */
  function Footprint(layer: Layer, it: Item): int
  {
    if layer.Overlap? then it.width else it.width + 1
  }

  predicate Relevant(layer: Layer, it: Item)
  {
    layer.Overlap? || it.category == layer.category
  }

  /** The variables among `vars[..m]` whose offset `p` has `slot` in `[p, p + w)`, by offset. */
  function Cover(vars: seq<int>, w: int, slot: int, m: nat): seq<int>
    requires m <= |vars|
  {
    if m == 0 then []
    else Cover(vars, w, slot, m - 1) + (if m - 1 <= slot < m - 1 + w then [vars[m - 1]] else [])
  }

  /** What one item appends to the occupants of `(day, slot)`. */
  function Contribution(layer: Layer, it: Item, vars: seq<int>, day: int, slot: int): seq<int>
  {
    if Relevant(layer, it) && Covers(it, day) then Cover(vars, Footprint(layer, it), slot, |vars|) else []
  }

  /** The occupants of `(day, slot)` appended by the first `n` items, in item order. */
  function Occupants(items: seq<Item>, placements: seq<seq<int>>, layer: Layer, day: int, slot: int, n: nat): seq<int>
    requires n <= |items| == |placements|
  {
    if n == 0 then []
    else
      Occupants(items, placements, layer, day, slot, n - 1)
      + Contribution(layer, items[n - 1], placements[n - 1], day, slot)
  }

  /** The final list `occupants[day][slot]` handed to `at_most_one_of`. */
  function Cell(items: seq<Item>, placements: seq<seq<int>>, limits: seq<int>, layer: Layer, day: int, slot: nat): seq<int>
    requires |items| == |placements| && (layer.Overlap? ==> slot < |limits|)
  {
    (if layer.Overlap? then [limits[slot]] else []) + Occupants(items, placements, layer, day, slot, |items|)
  }

  /** The cells of slots `0 .. m - 1` of one day. */
  function DayCells(items: seq<Item>, placements: seq<seq<int>>, limits: seq<int>, layer: Layer, day: int, m: nat): seq<seq<int>>
    requires |items| == |placements| && (layer.Overlap? ==> m <= |limits|)
  {
    if m == 0 then []
    else DayCells(items, placements, limits, layer, day, m - 1) + [Cell(items, placements, limits, layer, day, m - 1)]
  }

  /** The cells of days `0 .. days - 1`, day by day. */
  function LayerCells(items: seq<Item>, placements: seq<seq<int>>, limits: seq<int>, layer: Layer, slots: nat, days: nat): seq<seq<int>>
    requires |items| == |placements| && (layer.Overlap? ==> slots <= |limits|)
  {
    if days == 0 then []
    else
      LayerCells(items, placements, limits, layer, slots, days - 1)
      + DayCells(items, placements, limits, layer, days - 1, slots)
  }

  /** The cells of `separate_same_type` for the first `k` categories of `order`. */
  function CategoryCells(items: seq<Item>, placements: seq<seq<int>>, order: seq<int>, slots: nat, days: nat, k: nat): seq<seq<int>>
    requires |items| == |placements| && k <= |order|
  {
    if k == 0 then []
    else
      CategoryCells(items, placements, order, slots, days, k - 1)
      + LayerCells(items, placements, [], SameCategory(order[k - 1]), slots, days)
  }

  /** Every at-most-one group of `no_overlap` and then of `separate_same_type`
      for each category in `order` (the iteration order of the set of categories). */
  function Groups(items: seq<Item>, maxStorage: nat, order: seq<int>): seq<seq<int>>
    requires |items| >= 1
  {
    var placements := Placements(items, maxStorage, |items|);
    var limits := LimitVars(items, maxStorage);
    var days := DayCount(items);
    LayerCells(items, placements, limits, Overlap, maxStorage, days)
      + CategoryCells(items, placements, order, maxStorage + 1, days, |order|)
  }

  /** The variables and clauses of the whole constraint generation. */
  function Encode(items: seq<Item>, maxStorage: nat, order: seq<int>): Cnf
    requires |items| >= 1
  {
    AtMostOneEach(Groups(items, maxStorage, order), Limited(items, maxStorage))
  }

  /** The categories of the items, in some order, each once. */
  ghost predicate CategoryOrder(items: seq<Item>, order: seq<int>)
  {
    && (forall i :: 0 <= i < |items| ==> items[i].category in order)
    && (forall k :: 0 <= k < |order| ==> exists i :: 0 <= i < |items| && items[i].category == order[k])
    && (forall k, l :: 0 <= k < l < |order| ==> order[k] != order[l])
  }

  // ---------------------------------------------------------------------------
  // store_solution and improve_solution

  datatype Solution = Solution(usedStorage: int, positions: seq<int>)

  /** `used_storage`: the storage size minus the number of true limit literals. */
  function UsedStorage(a: Assignment, limits: seq<int>, maxStorage: nat): int
  {
    maxStorage - CountTrue(a, limits)
  }

  /** Each item's position: its first offset whose placement variable is true, or -1. */
  function Positions(a: Assignment, placements: seq<seq<int>>): (ps: seq<int>)
    ensures |ps| == |placements|
  {
    seq(|placements|, i requires 0 <= i < |placements| => FirstTrue(a, placements[i]))
  }

  /** `store_solution` on given placement variables and limit literals. */
  function ReadBack(a: Assignment, placements: seq<seq<int>>, limits: seq<int>, maxStorage: nat): Solution
  {
    Solution(UsedStorage(a, limits, maxStorage), Positions(a, placements))
  }

  /** `store_solution` on the variables the encoding allocates. */
  function Decode(items: seq<Item>, maxStorage: nat, a: Assignment): Solution
  {
    ReadBack(a, Placements(items, maxStorage, |items|), LimitVars(items, maxStorage), maxStorage)
  }

  /** The unit clauses `[limits[i]]` for `lo <= i < hi`. */
  function Units(limits: seq<int>, lo: int, hi: int): seq<Clause>
    requires 0 <= lo && hi <= |limits|
    decreases hi - lo
  {
    if hi <= lo then [] else Units(limits, lo, hi - 1) + [[limits[hi - 1]]]
  }
}
