/** The generator of planner inputs: a sweep over the days in a shuffled
    order that places random tasks, never letting the total width of the
    tasks on a day exceed the per-day capacity, until every day is full.
    Each random draw is a choice within its half-open range; the shuffled
    order of the days is a parameter. */
module Schedule {
  import opened Layout

  /** What `randrange` and the bounds promise about one emitted task. */
  predicate TaskOk(t: Item, low: int, high: int, minLength: int, maxLength: int, maxWidth: int, types: int)
  {
    && low <= t.begin <= t.end <= high
    && minLength <= t.end - t.begin + 1 <= maxLength
    && 1 <= t.width <= maxWidth
    && 0 <= t.category < types
  }

  /** The width a task adds to `day`. */
  function Covering(t: Item, day: int): int
  {
    if t.begin <= day <= t.end then t.width else 0
  }

  /** The total width of the tasks that cover `day`. */
  function Load(tasks: seq<Item>, day: int): int
  {
    if tasks == [] then 0
    else Load(tasks[..|tasks| - 1], day) + Covering(tasks[|tasks| - 1], day)
  }

  lemma {:induction false} LoadAppend(tasks: seq<Item>, t: Item, day: int)
    ensures Load(tasks + [t], day) == Load(tasks, day) + Covering(t, day)
  {
    assert (tasks + [t])[..|tasks|] == tasks;
  }

  /** The sum of a list of counts. */
  function Total(s: seq<int>): int
  {
    if s == [] then 0 else Total(s[..|s| - 1]) + s[|s| - 1]
  }

  /** Raising no entry and at least one strictly raises the sum. */
  lemma {:induction false} TotalGrows(a: seq<int>, b: seq<int>, j: int)
    requires |a| == |b| && 0 <= j < |a| && a[j] < b[j]
    requires forall i :: 0 <= i < |a| ==> a[i] <= b[i]
    ensures Total(a) < Total(b)
  {
    var n := |a| - 1;
    if j == n {
      TotalMonotone(a[..n], b[..n]);
    } else {
      TotalGrows(a[..n], b[..n], j);
    }
  }

  lemma {:induction false} TotalMonotone(a: seq<int>, b: seq<int>)
    requires |a| == |b| && forall i :: 0 <= i < |a| ==> a[i] <= b[i]
    ensures Total(a) <= Total(b)
  {
    if a != [] {
      TotalMonotone(a[..|a| - 1], b[..|b| - 1]);
    }
  }

  /** Entries of at most `cap` sum to at most `|s| * cap`. */
  lemma {:induction false} TotalBound(s: seq<int>, cap: int)
    requires forall i :: 0 <= i < |s| ==> s[i] <= cap
    ensures Total(s) <= |s| * cap
  {
    if s != [] {
      TotalBound(s[..|s| - 1], cap);
    }
  }

  /** The first extension loop: `low` walks down from `selected` while the
      day before it is not full, but not below `limit`. */
  method ExtendLow(concurrent: array<int>, capacity: int, selected: int, limit: int) returns (low: int)
    requires 0 <= limit <= selected < concurrent.Length && concurrent[selected] < capacity
    ensures limit <= low <= selected
    ensures forall d :: low <= d <= selected ==> concurrent[d] < capacity
    ensures low == limit || concurrent[low - 1] >= capacity
  {
    low := selected;
    while low > limit && concurrent[low - 1] < capacity
      invariant limit <= low <= selected
      invariant forall d :: low <= d <= selected ==> concurrent[d] < capacity
    {
      low := low - 1;
    }
  }

  /** The second extension loop: `high` walks up from `selected` while the
      day after it is not full, but not beyond `limit`. */
  method ExtendHigh(concurrent: array<int>, capacity: int, selected: int, limit: int) returns (high: int)
    requires 0 <= selected <= limit < concurrent.Length && concurrent[selected] < capacity
    ensures selected <= high <= limit
    ensures forall d :: selected <= d <= high ==> concurrent[d] < capacity
    ensures high == limit || concurrent[high + 1] >= capacity
  {
    high := selected;
    while high < limit && concurrent[high + 1] < capacity
      invariant selected <= high <= limit
      invariant forall d :: selected <= d <= high ==> concurrent[d] < capacity
    {
      high := high + 1;
    }
  }

  /** The `min(...)` over the days of a task: the least remaining capacity. */
  method Room(concurrent: array<int>, capacity: int, begin: int, end: int) returns (room: int)
    requires 0 <= begin <= end < concurrent.Length
    ensures forall d :: begin <= d <= end ==> room <= capacity - concurrent[d]
    ensures exists d :: begin <= d <= end && room == capacity - concurrent[d]
  {
    room := capacity - concurrent[begin];
    var day := begin + 1;
    while day <= end
      invariant begin < day <= end + 1
      invariant forall d :: begin <= d < day ==> room <= capacity - concurrent[d]
      invariant exists d :: begin <= d < day && room == capacity - concurrent[d]
    {
      if capacity - concurrent[day] < room {
        room := capacity - concurrent[day];
      }
      day := day + 1;
    }
  }

  /** `concurrent[day] += width` for every day of the task. */
  method AddWidth(concurrent: array<int>, begin: int, end: int, width: int)
    requires 0 <= begin && end < concurrent.Length
    modifies concurrent
    ensures forall d :: 0 <= d < concurrent.Length ==>
      concurrent[d] == old(concurrent[d]) + (if begin <= d <= end then width else 0)
  {
    var day := begin;
    while day < end + 1
      invariant begin <= day && (day <= end + 1 || day == begin)
      invariant forall d :: 0 <= d < concurrent.Length ==>
        concurrent[d] == old(concurrent[d]) + (if begin <= d < day then width else 0)
    {
      concurrent[day] := concurrent[day] + width;
      day := day + 1;
    }
  }

  /** A window too short for a task: every day of it is marked full. */
  method Saturate(concurrent: array<int>, low: int, high: int, capacity: int)
    requires 0 <= low && high < concurrent.Length
    modifies concurrent
    ensures forall d :: 0 <= d < concurrent.Length ==>
      concurrent[d] == if low <= d <= high then capacity else old(concurrent[d])
  {
    var day := low;
    while day < high + 1
      invariant low <= day && (day <= high + 1 || day == low)
      invariant forall d :: 0 <= d < concurrent.Length ==>
        concurrent[d] == if low <= d < day then capacity else old(concurrent[d])
    {
      concurrent[day] := capacity;
      day := day + 1;
    }
  }

  /** Every emitted task lies within the days and respects the bounds. */
  predicate TasksOk(tasks: seq<Item>, days: int, minLength: int, maxLength: int, maxWidth: int, types: int)
  {
    forall i :: 0 <= i < |tasks| ==> TaskOk(tasks[i], 0, days - 1, minLength, maxLength, maxWidth, types)
  }

  /** On every day the emitted tasks are no wider than the count kept for it. */
  predicate Loaded(tasks: seq<Item>, counts: seq<int>)
  {
    forall d :: 0 <= d < |counts| ==> Load(tasks, d) <= counts[d]
  }

  /** Every count lies between 0 and the capacity. */
  predicate Capped(counts: seq<int>, capacity: int)
  {
    forall d :: 0 <= d < |counts| ==> 0 <= counts[d] <= capacity
  }

  /** Every day no longer among the candidates is full. */
  predicate FullOutside(counts: seq<int>, candidates: seq<int>, capacity: int)
  {
    forall d :: 0 <= d < |counts| && d !in candidates ==> counts[d] == capacity
  }

  /** Emitting a task, all of whose days had room, and adding its width to
      the counts of its days without passing the capacity keeps every
      invariant of the sweep and strictly raises the sum of the counts. */
  lemma EmitKeeps(tasks: seq<Item>, task: Item, before: seq<int>, after: seq<int>, candidates: seq<int>,
                  capacity: int, days: int, minLength: int, maxLength: int, maxWidth: int, types: int)
    requires |before| == |after| == days
    requires TasksOk(tasks, days, minLength, maxLength, maxWidth, types)
    requires TaskOk(task, 0, days - 1, minLength, maxLength, maxWidth, types)
    requires Loaded(tasks, before) && Capped(before, capacity) && FullOutside(before, candidates, capacity)
    requires forall d :: task.begin <= d <= task.end ==> before[d] < capacity && after[d] <= capacity
    requires forall d :: 0 <= d < days ==> after[d] == before[d] + Covering(task, d)
    ensures TasksOk(tasks + [task], days, minLength, maxLength, maxWidth, types)
    ensures Loaded(tasks + [task], after) && Capped(after, capacity) && FullOutside(after, candidates, capacity)
    ensures Total(before) < Total(after)
  {
    forall d | 0 <= d < days ensures Load(tasks + [task], d) <= after[d] {
      LoadAppend(tasks, task, d);
    }
    forall i | 0 <= i < |tasks| + 1
      ensures TaskOk((tasks + [task])[i], 0, days - 1, minLength, maxLength, maxWidth, types)
    {
      if i < |tasks| {
        assert (tasks + [task])[i] == tasks[i];
      }
    }
    TotalGrows(before, after, task.begin);
  }

  /** Marking full a window of days that holds a day with room keeps every
      invariant of the sweep and strictly raises the sum of the counts. */
  lemma SaturateKeeps(tasks: seq<Item>, before: seq<int>, after: seq<int>, candidates: seq<int>,
                      capacity: int, low: int, selected: int, high: int)
    requires |before| == |after| && low <= selected <= high && 0 <= selected < |before|
    requires before[selected] < capacity
    requires Loaded(tasks, before) && Capped(before, capacity) && FullOutside(before, candidates, capacity)
    requires forall d :: 0 <= d < |after| ==> after[d] == if low <= d <= high then capacity else before[d]
    ensures Loaded(tasks, after) && Capped(after, capacity) && FullOutside(after, candidates, capacity)
    ensures Total(before) < Total(after)
  {
    TotalGrows(before, after, selected);
  }

  /** One task inside the window `low .. high` of days that are not full:
      a random start, a random length within the bounds and the window, a
      random width no larger than the least room left on its days nor
      `maxWidth`, a random category. Its width is added to its days. */
  method EmitTask(concurrent: array<int>, capacity: int, low: int, high: int,
                  minLength: int, maxLength: int, maxWidth: int, types: int) returns (task: Item)
    requires 0 <= low && high < concurrent.Length && minLength <= high - low + 1
    requires 1 <= minLength <= maxLength && 1 <= maxWidth && 1 <= types
    requires forall d :: low <= d <= high ==> concurrent[d] < capacity
    modifies concurrent
    ensures TaskOk(task, low, high, minLength, maxLength, maxWidth, types)
    ensures forall d :: 0 <= d < concurrent.Length ==> concurrent[d] == old(concurrent[d]) + Covering(task, d)
    ensures forall d :: task.begin <= d <= task.end ==> old(concurrent[d]) < capacity && concurrent[d] <= capacity
  {
    var begin :| low <= begin < high - minLength + 2;
    var duration :| minLength <= duration < (if high - begin + 2 < maxLength + 1 then high - begin + 2 else maxLength + 1);
    var end := begin + duration - 1;
    var room := Room(concurrent, capacity, begin, end);
    var widest := if room < maxWidth then room else maxWidth;
    var width :| 1 <= width < widest + 1;
    AddWidth(concurrent, begin, end, width);
    var category :| 0 <= category < types;
    task := Item(begin, end, width, category);
  }

  /** The `while candidates` sweep. Every task it emits lies within the days,
      has a length between the bounds and a width between 1 and
      `maxWidth`; on every day the emitted tasks together are no wider than
      the capacity; and when it ends every day is full. `load` is the final
      `concurrent` array. */
  method Generate(days: nat, capacity: nat, minLength: int, maxLength: int, maxWidth: int, types: int, shuffled: seq<int>)
    returns (tasks: seq<Item>, load: seq<int>)
    requires 1 <= minLength <= maxLength && 1 <= maxWidth && 1 <= types
    requires forall i :: 0 <= i < |shuffled| ==> 0 <= shuffled[i] < days
    requires forall d :: 0 <= d < days ==> d in shuffled
    ensures forall i :: 0 <= i < |tasks| ==> TaskOk(tasks[i], 0, days - 1, minLength, maxLength, maxWidth, types)
    ensures |load| == days
    ensures forall d :: 0 <= d < days ==> load[d] == capacity && Load(tasks, d) <= capacity
  {
    tasks := [];
    var concurrent := new int[days](_ => 0);
    var candidates := shuffled;
    while candidates != []
      invariant concurrent.Length == days
      invariant forall i :: 0 <= i < |candidates| ==> 0 <= candidates[i] < days
      invariant Capped(concurrent[..], capacity)
      invariant FullOutside(concurrent[..], candidates, capacity)
      invariant Loaded(tasks, concurrent[..])
      invariant TasksOk(tasks, days, minLength, maxLength, maxWidth, types)
      decreases |candidates|, days * capacity - Total(concurrent[..])
    {
      ghost var before := concurrent[..];
      TotalBound(before, capacity);
      var selected := candidates[|candidates| - 1];
      if concurrent[selected] >= capacity {
        candidates := candidates[..|candidates| - 1];
        continue;
      }
      var limitLow := if selected - maxLength > 0 then selected - maxLength else 0;
      var low := ExtendLow(concurrent, capacity, selected, limitLow);
      var limitHigh := if days - 1 < selected + maxLength then days - 1 else selected + maxLength;
      var high := ExtendHigh(concurrent, capacity, selected, limitHigh);
      if high - low + 1 < minLength {
        Saturate(concurrent, low, high, capacity);
        SaturateKeeps(tasks, before, concurrent[..], candidates, capacity, low, selected, high);
        continue;
      }
      var task := EmitTask(concurrent, capacity, low, high, minLength, maxLength, maxWidth, types);
      EmitKeeps(tasks, task, before, concurrent[..], candidates, capacity, days, minLength, maxLength, maxWidth, types);
      tasks := tasks + [task];
    }
    load := concurrent[..];
  }

  /** A non-empty generated schedule is a valid item table for the planner. */
  lemma {:induction false} GeneratedItemsOk(tasks: seq<Item>, days: int, minLength: int, maxLength: int, maxWidth: int, types: int)
    requires |tasks| >= 1 && 1 <= minLength
    requires forall i :: 0 <= i < |tasks| ==> TaskOk(tasks[i], 0, days - 1, minLength, maxLength, maxWidth, types)
    ensures ItemsOk(tasks) && DayCount(tasks) <= days
  {
    MaxEndBelow(tasks, days - 1);
  }

  /** Ends that are all at most `bound` have their largest at most `bound`. */
  lemma {:induction false} MaxEndBelow(items: seq<Item>, bound: int)
    requires |items| >= 1 && forall i :: 0 <= i < |items| ==> items[i].end <= bound
    ensures MaxEnd(items) <= bound
  {
    if |items| > 1 {
      MaxEndBelow(items[..|items| - 1], bound);
    }
  }
}
