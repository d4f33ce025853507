/** The placement problem itself, independent of any clauses: items with a day
    range, a width and a category, and what it means for a choice of start
    offsets to be a valid layout within a given used width. */
module Layout {

  /** One row of the item table: the inclusive day range `[begin, end]`, the
      number of slots it occupies and its category (the table's `type`). */
  datatype Item = Item(begin: int, end: int, width: int, category: int)

  /** What the encoder relies on: days are non-negative list indices and every
      item is stored on at least one day and occupies at least one slot; the
      table is not empty (its largest `end` gives the number of days). */
  predicate ItemsOk(items: seq<Item>)
  {
    |items| >= 1 && forall i :: 0 <= i < |items| ==> 0 <= items[i].begin <= items[i].end && 1 <= items[i].width
  }

  function Max(x: int, y: int): int
  {
    if x >= y then x else y
  }

  /** The largest `end` in the table. */
  function MaxEnd(items: seq<Item>): int
    requires |items| >= 1
  {
    if |items| == 1 then items[0].end
    else Max(MaxEnd(items[..|items| - 1]), items[|items| - 1].end)
  }

  /** `day_count`: one more than the largest `end` (no days when that is negative). */
  function DayCount(items: seq<Item>): nat
    requires |items| >= 1
  {
    if MaxEnd(items) + 1 > 0 then MaxEnd(items) + 1 else 0
  }

  lemma {:induction false} MaxEndMeaning(items: seq<Item>)
    requires |items| >= 1
    ensures forall i :: 0 <= i < |items| ==> items[i].end <= MaxEnd(items)
    ensures exists i :: 0 <= i < |items| && items[i].end == MaxEnd(items)
  {
    if |items| > 1 {
      var init := items[..|items| - 1];
      MaxEndMeaning(init);
      var j :| 0 <= j < |init| && init[j].end == MaxEnd(init);
      assert items[j] == init[j];
      forall i | 0 <= i < |items| - 1 ensures items[i].end <= MaxEnd(items) { assert items[i] == init[i]; }
      if MaxEnd(items) != items[j].end {
        assert items[|items| - 1].end == MaxEnd(items);
      }
    } else {
      assert items[0].end == MaxEnd(items);
    }
  }

  /** Every day an item covers is one of the table's days. */
  lemma {:induction false} DaysInRange(items: seq<Item>, i: nat, day: int)
    requires |items| >= 1 && i < |items| && 0 <= items[i].begin <= day <= items[i].end
    ensures day < DayCount(items)
  {
    MaxEndMeaning(items);
  }

  /** Number of start offsets `max_storage - width + 1` of an item (none when
      the item is wider than the storage). */
  function PositionCount(it: Item, maxStorage: nat): nat
  {
    if maxStorage - it.width + 1 > 0 then maxStorage - it.width + 1 else 0
  }

  /** An offset has a placement variable exactly when the item then fits. */
  lemma {:induction false} PositionCountMeaning(it: Item, maxStorage: nat, p: int)
    requires 0 <= p
    ensures p < PositionCount(it, maxStorage) <==> p + it.width <= maxStorage
  {
  }

  predicate Covers(it: Item, day: int)
  {
    it.begin <= day <= it.end
  }

  /** Blocks `[p1, p1 + w1)` and `[p2, p2 + w2)` leave at least `gap` free slots between them. */
  predicate Apart(p1: int, w1: int, p2: int, w2: int, gap: nat)
  {
    p1 + w1 + gap <= p2 || p2 + w2 + gap <= p1
  }

  /** Slots needed between two items that are stored on the same day. */
  function Gap(x: Item, y: Item): nat
  {
    if x.category == y.category then 1 else 0
  }

  /** Every item lies in `[0, used)`, and `used` is within the storage. */
  predicate InBounds(items: seq<Item>, maxStorage: nat, positions: seq<int>, used: int)
  {
    && |positions| == |items| && 0 <= used <= maxStorage
    && forall i :: 0 <= i < |items| ==> 0 <= positions[i] && positions[i] + items[i].width <= used
  }

  /** Items stored on a common day do not overlap, and items of one category
      keep one free slot between them. */
  ghost predicate Separated(items: seq<Item>, positions: seq<int>)
    requires |positions| == |items|
  {
    forall i, j, day :: 0 <= i < j < |items| && Covers(items[i], day) && Covers(items[j], day) ==>
      Apart(positions[i], items[i].width, positions[j], items[j].width, Gap(items[i], items[j]))
  }

  /** A valid layout of the items that uses only the first `used` slots. */
  ghost predicate Fits(items: seq<Item>, maxStorage: nat, positions: seq<int>, used: int)
  {
    InBounds(items, maxStorage, positions, used) && Separated(items, positions)
  }

  /** A non-empty table needs at least one slot. */
  lemma {:induction false} FitsUsesSome(items: seq<Item>, maxStorage: nat, positions: seq<int>, used: int)
    requires ItemsOk(items) && Fits(items, maxStorage, positions, used)
    ensures used >= 1
  {
    assert 0 <= positions[0] && positions[0] + items[0].width <= used;
  }
}
