/** Facts about the variables the encoder allocates: where each item's
    placement variables and the limit literals live, that the clauses only
    mention allocated variables, and what the capacity chain and the
    tightening units mean. */
module Allocation {
  import opened Cnf
  import opened Cardinality
  import opened Layout
  import opened Encoding

  // ---------------------------------------------------------------------------
  // Placement variables

  /** Item `i`'s placement list is the one allocated in the state before it. */
  lemma {:induction false} PlacementsAt(items: seq<Item>, maxStorage: nat, n: nat, i: nat)
    requires i < n <= |items|
    ensures Placements(items, maxStorage, n)[i] == ItemVars(Placed(items, maxStorage, i), items[i], maxStorage)
  {
    if i < n - 1 {
      PlacementsAt(items, maxStorage, n - 1, i);
    }
  }

  /** The state after item `i` is the one-item step from the state before it. */
  lemma {:induction false} PlacedNext(items: seq<Item>, maxStorage: nat, i: nat, j: nat, e: Cnf, e1: Cnf, vars: seq<int>)
    requires j == i + 1 && i < |items| && e == Placed(items, maxStorage, i) && e1 == Placed(items, maxStorage, j)
    requires vars == ItemVars(e, items[i], maxStorage)
    ensures e1 == ExactlyOne(vars, Cnf(e.varCount + |vars|, e.clauses))
  {
  }

  /** One more item of `place_each_item`: the exactly-one clauses over its
      fresh variables give the next state, and its variables the next list. */
  lemma {:induction false} PlaceNextItem(items: seq<Item>, maxStorage: nat, n: nat, e: Cnf, vars: seq<int>, e1: Cnf)
    requires n < |items| && e == Placed(items, maxStorage, n) && vars == ItemVars(e, items[n], maxStorage)
    requires e1 == ExactlyOne(vars, Cnf(e.varCount + |vars|, e.clauses))
    ensures e1 == Placed(items, maxStorage, n + 1)
    ensures Placements(items, maxStorage, n + 1) == Placements(items, maxStorage, n) + [vars]
  {
  }

  /** Placing one item in state `e` only appends, and allocates the item's variables first. */
  lemma {:induction false} ItemStep(e: Cnf, it: Item, maxStorage: nat)
    ensures var vars := ItemVars(e, it, maxStorage);
      var e1 := ExactlyOne(vars, Cnf(e.varCount + |vars|, e.clauses));
      Extends(e, e1) && e.varCount + PositionCount(it, maxStorage) <= e1.varCount
  {
    var vars := ItemVars(e, it, maxStorage);
    var e0 := Cnf(e.varCount + |vars|, e.clauses + [vars]);
    AtMostOneExtends(vars, e0);
  }

  /** One step of `place_each_item` only appends, and allocates the item's variables first. */
  lemma {:induction false} PlacedStep(items: seq<Item>, maxStorage: nat, i: nat)
    requires i < |items|
    ensures Extends(Placed(items, maxStorage, i), Placed(items, maxStorage, i + 1))
    ensures Placed(items, maxStorage, i).varCount + PositionCount(items[i], maxStorage) <= Placed(items, maxStorage, i + 1).varCount
  {
    ItemStep(Placed(items, maxStorage, i), items[i], maxStorage);
  }

  lemma {:induction false} PlacedGrows(items: seq<Item>, maxStorage: nat, i: nat, n: nat)
    requires i <= n <= |items|
    ensures Extends(Placed(items, maxStorage, i), Placed(items, maxStorage, n))
  {
    if i < n {
      PlacedGrows(items, maxStorage, i, n - 1);
      PlacedStep(items, maxStorage, n - 1);
      ExtendsTrans(Placed(items, maxStorage, i), Placed(items, maxStorage, n - 1), Placed(items, maxStorage, n));
    }
  }

  /** The placement clauses only mention variables allocated so far. */
  lemma {:induction false} PlacedWellFormed(items: seq<Item>, maxStorage: nat, n: nat)
    requires n <= |items|
    ensures WellFormed(Placed(items, maxStorage, n))
  {
    if n > 0 {
      var e := Placed(items, maxStorage, n - 1);
      PlacedWellFormed(items, maxStorage, n - 1);
      var vars := ItemVars(e, items[n - 1], maxStorage);
      var e0 := Cnf(e.varCount + |vars|, e.clauses + [vars]);
      ClausesWithinMono(e.clauses, e.varCount, e0.varCount);
      assert LitsWithin(vars, e0.varCount);
      assert ClausesWithin([vars], e0.varCount);
      ClausesWithinAppend(e.clauses, [vars], e0.varCount);
      AtMostOneWellFormed(vars, e0);
    }
  }

  /** Where item `i`'s variable for offset `p` lives. */
  lemma {:induction false} PlacementVar(items: seq<Item>, maxStorage: nat, i: nat, p: nat)
    requires i < |items| && p < PositionCount(items[i], maxStorage)
    ensures var v := Placements(items, maxStorage, |items|)[i][p];
      v == Placed(items, maxStorage, i).varCount + 1 + p
      && Placed(items, maxStorage, i).varCount < v <= Placed(items, maxStorage, i + 1).varCount
      && v <= Placed(items, maxStorage, |items|).varCount
  {
    PlacementsAt(items, maxStorage, |items|, i);
    PlacedStep(items, maxStorage, i);
    PlacedGrows(items, maxStorage, i + 1, |items|);
  }

  /** Placement lists have one variable per start offset. */
  lemma {:induction false} PlacementCount(items: seq<Item>, maxStorage: nat, i: nat)
    requires i < |items|
    ensures |Placements(items, maxStorage, |items|)[i]| == PositionCount(items[i], maxStorage)
  {
    PlacementsAt(items, maxStorage, |items|, i);
  }

  /** Different (item, offset) pairs have different variables. */
  lemma {:induction false} PlacementVarsDistinct(items: seq<Item>, maxStorage: nat, i: nat, p: nat, j: nat, q: nat)
    requires i < |items| && p < PositionCount(items[i], maxStorage)
    requires j < |items| && q < PositionCount(items[j], maxStorage)
    requires i != j || p != q
    ensures Placements(items, maxStorage, |items|)[i][p] != Placements(items, maxStorage, |items|)[j][q]
  {
    PlacementVar(items, maxStorage, i, p);
    PlacementVar(items, maxStorage, j, q);
    if i < j {
      PlacedGrows(items, maxStorage, i + 1, j);
    } else if j < i {
      PlacedGrows(items, maxStorage, j + 1, i);
    }
  }

  /** Item `i`'s variables end at or below the counter after any later item. */
  lemma {:induction false} ItemVarsEnd(items: seq<Item>, maxStorage: nat, i: nat, n: nat)
    requires i < n <= |items|
    ensures Placed(items, maxStorage, i).varCount + PositionCount(items[i], maxStorage) <= Placed(items, maxStorage, n).varCount
  {
    PlacedStep(items, maxStorage, i);
    PlacedGrows(items, maxStorage, i + 1, n);
  }

  /** An item's variables are allocated before any later prefix ends. */
  lemma {:induction false} ItemVarsWithin(items: seq<Item>, maxStorage: nat, i: nat, n: nat)
    requires i < n <= |items|
    ensures LitsWithin(ItemVars(Placed(items, maxStorage, i), items[i], maxStorage), Placed(items, maxStorage, n).varCount)
  {
    var e := Placed(items, maxStorage, i);
    ItemVarsEnd(items, maxStorage, i, n);
    ConsecutiveWithin(e.varCount + 1, PositionCount(items[i], maxStorage), Placed(items, maxStorage, n).varCount);
  }

  /** Every placement list holds allocated variables only. */
  lemma {:induction false} PlacementsWithin(items: seq<Item>, maxStorage: nat, i: nat)
    requires i < |items|
    ensures LitsWithin(Placements(items, maxStorage, |items|)[i], Placed(items, maxStorage, |items|).varCount)
  {
    var vars := Placements(items, maxStorage, |items|)[i];
    PlacementCount(items, maxStorage, i);
    forall v | v in vars ensures v != 0 && -(Placed(items, maxStorage, |items|).varCount as int) <= v <= Placed(items, maxStorage, |items|).varCount {
      var p :| 0 <= p < |vars| && vars[p] == v;
      PlacementVar(items, maxStorage, i, p);
    }
  }

  // ---------------------------------------------------------------------------
  // Limit literals

  /** The limit literals come right after every placement variable. */
  lemma {:induction false} LimitVar(items: seq<Item>, maxStorage: nat, s: nat)
    requires s < maxStorage
    ensures var l := LimitVars(items, maxStorage)[s];
      l == Placed(items, maxStorage, |items|).varCount + 1 + s && l <= Limited(items, maxStorage).varCount
  {
  }

  /** The placement and limit literals are variable ids, which `val` reads
      as they are. */
  predicate VarIds(placements: seq<seq<int>>, limits: seq<int>)
  {
    Positive(limits) && forall i :: 0 <= i < |placements| ==> Positive(placements[i])
  }

  /** Every variable the encoding reads back is a positive id. */
  lemma {:induction false} EncodingVarIds(items: seq<Item>, maxStorage: nat)
    ensures VarIds(Placements(items, maxStorage, |items|), LimitVars(items, maxStorage))
  {
    forall i, p | 0 <= i < |items| && 0 <= p < |Placements(items, maxStorage, |items|)[i]|
      ensures Placements(items, maxStorage, |items|)[i][p] > 0
    {
      PlacementVar(items, maxStorage, i, p);
    }
  }

  /** A limit literal is none of the placement variables. */
  lemma {:induction false} LimitNotPlacement(items: seq<Item>, maxStorage: nat, s: nat, i: nat, p: nat)
    requires s < maxStorage && i < |items| && p < PositionCount(items[i], maxStorage)
    ensures LimitVars(items, maxStorage)[s] != Placements(items, maxStorage, |items|)[i][p]
  {
    PlacementVar(items, maxStorage, i, p);
  }

  /** The clauses after `limit_storage` only mention allocated variables. */
  lemma {:induction false} LimitedWellFormed(items: seq<Item>, maxStorage: nat)
    ensures WellFormed(Limited(items, maxStorage))
    ensures LitsWithin(LimitVars(items, maxStorage), Limited(items, maxStorage).varCount)
  {
    var e := Placed(items, maxStorage, |items|);
    var limits := LimitVars(items, maxStorage);
    var bound := Limited(items, maxStorage).varCount;
    PlacedWellFormed(items, maxStorage, |items|);
    ClausesWithinMono(e.clauses, e.varCount, bound);
    ChainWithin(limits, if |limits| == 0 then 0 else |limits| - 1, bound);
    ClausesWithinAppend(e.clauses, Chain(limits), bound);
  }

  /** The first `m` chain clauses: clause `s` is `[-limits[s], limits[s + 1]]`. */
  lemma {:induction false} ChainUpToShape(limits: seq<int>, m: nat)
    requires m == 0 || m < |limits|
    ensures |ChainUpTo(limits, m)| == m
    ensures forall s :: 0 <= s < m ==> ChainUpTo(limits, m)[s] == [-limits[s], limits[s + 1]]
  {
    if m > 0 {
      ChainUpToShape(limits, m - 1);
    }
  }

  /** `limit_storage` emits one clause per consecutive pair of limit literals:
      `max_storage - 1` of them, none for an empty list. */
  lemma {:induction false} ChainShape(limits: seq<int>)
    ensures |Chain(limits)| == if |limits| == 0 then 0 else |limits| - 1
    ensures forall s :: 0 <= s < |Chain(limits)| ==> Chain(limits)[s] == [-limits[s], limits[s + 1]]
  {
    if |limits| > 0 {
      ChainUpToShape(limits, |limits| - 1);
    }
  }

  lemma {:induction false} ChainWithin(limits: seq<int>, m: nat, bound: nat)
    requires m == 0 || m < |limits|
    requires LitsWithin(limits, bound)
    ensures ClausesWithin(ChainUpTo(limits, m), bound)
  {
    if m > 0 {
      ChainWithin(limits, m - 1, bound);
      assert limits[m - 1] in limits && limits[m] in limits;
      var c := [-limits[m - 1], limits[m]];
      assert LitsWithin(c, bound);
      assert ClausesWithin([c], bound);
      ClausesWithinAppend(ChainUpTo(limits, m - 1), [c], bound);
    }
  }

  // ---------------------------------------------------------------------------
  // The capacity chain: true limit literals form a suffix

  /** Once a limit literal holds, every later one does. */
  predicate Monotone(a: Assignment, limits: seq<int>)
  {
    forall s, t :: 0 <= s <= t < |limits| && Holds(a, limits[s]) ==> Holds(a, limits[t])
  }

  /** Each limit literal implies the next, up to index `m`. */
  predicate Steps(a: Assignment, limits: seq<int>, m: nat)
    requires m == 0 || m < |limits|
  {
    forall s :: 0 <= s < m ==> Holds(a, limits[s]) ==> Holds(a, limits[s + 1])
  }

  /** A clause `[-x, y]` holds exactly when `x` implies `y`. */
  lemma {:induction false} ImplicationMeaning(a: Assignment, x: int, y: int)
    requires x != 0
    ensures Satisfies(a, [[-x, y]]) <==> (Holds(a, x) ==> Holds(a, y))
  {
    HoldsNeg(a, x);
    assert [-x, y] in [[-x, y]];
    if Holds(a, x) ==> Holds(a, y) {
      if Holds(a, x) { assert y in [-x, y]; } else { assert -x in [-x, y]; }
    }
  }

  lemma {:induction false} ChainUpToMeaning(a: Assignment, limits: seq<int>, m: nat)
    requires m == 0 || m < |limits|
    requires 0 !in limits
    ensures Satisfies(a, ChainUpTo(limits, m)) <==> Steps(a, limits, m)
  {
    if m > 0 {
      ChainUpToMeaning(a, limits, m - 1);
      assert limits[m - 1] in limits;
      ImplicationMeaning(a, limits[m - 1], limits[m]);
      SatisfiesAppend(a, ChainUpTo(limits, m - 1), [[-limits[m - 1], limits[m]]]);
    }
  }

  lemma {:induction false} StepsReach(a: Assignment, limits: seq<int>, s: nat, t: nat)
    requires |limits| > 0 && Steps(a, limits, |limits| - 1)
    requires s <= t < |limits| && Holds(a, limits[s])
    ensures Holds(a, limits[t])
  {
    if s < t {
      StepsReach(a, limits, s, t - 1);
    }
  }

  /** The chain of `limit_storage` holds exactly when the true limit literals form a suffix. */
  lemma {:induction false} ChainMeaning(a: Assignment, limits: seq<int>)
    requires 0 !in limits
    ensures Satisfies(a, Chain(limits)) <==> Monotone(a, limits)
  {
    if |limits| > 0 {
      ChainUpToMeaning(a, limits, |limits| - 1);
      if Steps(a, limits, |limits| - 1) {
        forall s, t | 0 <= s <= t < |limits| && Holds(a, limits[s]) ensures Holds(a, limits[t]) {
          StepsReach(a, limits, s, t);
        }
      }
    }
  }

  /** Literals true from index `u` on, and false before it, number `|limits| - u`. */
  lemma {:induction false} CountThreshold(a: Assignment, limits: seq<int>, u: int)
    requires 0 <= u <= |limits|
    requires forall s :: 0 <= s < |limits| ==> (Holds(a, limits[s]) <==> s >= u)
    ensures CountTrue(a, limits) == |limits| - u
  {
    if limits != [] {
      var init := limits[..|limits| - 1];
      var u' := if u < |limits| then u else |limits| - 1;
      forall s | 0 <= s < |init| ensures Holds(a, init[s]) <==> s >= u' {
        assert init[s] == limits[s];
      }
      CountThreshold(a, init, u');
    }
  }

  /** Under the chain, `used_storage` is the index of the first true limit
      literal (the storage size when none holds): exactly the literals from
      there on hold. */
  lemma {:induction false} Thermometer(a: Assignment, limits: seq<int>)
    requires Monotone(a, limits)
    ensures var used := UsedStorage(a, limits, |limits|);
      0 <= used <= |limits| && forall s :: 0 <= s < |limits| ==> (Holds(a, limits[s]) <==> s >= used)
  {
    FirstTrueMeaning(a, limits);
    var f := FirstTrue(a, limits);
    var u := if f == -1 then |limits| else f;
    forall s | 0 <= s < |limits| ensures Holds(a, limits[s]) <==> s >= u {
      if s >= u {
        assert Holds(a, limits[f]);
      }
    }
    CountThreshold(a, limits, u);
  }

  /** `used_storage` reads back the threshold of a suffix-shaped assignment. */
  lemma {:induction false} UsedStorageOfThreshold(a: Assignment, limits: seq<int>, used: int)
    requires 0 <= used <= |limits|
    requires forall s :: 0 <= s < |limits| ==> (Holds(a, limits[s]) <==> s >= used)
    ensures UsedStorage(a, limits, |limits|) == used
    ensures Monotone(a, limits)
  {
    CountThreshold(a, limits, used);
  }

  // ---------------------------------------------------------------------------
  // The units of improve_solution

  /** The unit clauses hold exactly when every literal they name does. */
  lemma {:induction false} UnitsMeaning(a: Assignment, limits: seq<int>, lo: int, hi: int)
    requires 0 <= lo && hi <= |limits|
    ensures Satisfies(a, Units(limits, lo, hi)) <==> forall s :: lo <= s < hi ==> Holds(a, limits[s])
    decreases hi - lo
  {
    if lo < hi {
      UnitsMeaning(a, limits, lo, hi - 1);
      var c := [limits[hi - 1]];
      assert c in [c];
      assert ClauseHolds(a, c) <==> Holds(a, limits[hi - 1]) by {
        if ClauseHolds(a, c) {
          var lit :| lit in c && Holds(a, lit);
        }
      }
      SatisfiesAppend(a, Units(limits, lo, hi - 1), [c]);
    }
  }

  /** The unit clause of a limit literal with index `from` or more. */
  predicate IsLimitUnit(c: Clause, limits: seq<int>, from: int)
  {
    exists s :: 0 <= s < |limits| && from <= s && c == [limits[s]]
  }

  /** Every clause of the run is such a unit clause. */
  predicate LimitUnits(cs: seq<Clause>, limits: seq<int>, from: int)
  {
    forall c :: c in cs ==> IsLimitUnit(c, limits, from)
  }

  lemma {:induction false} UnitsAreLimitUnits(limits: seq<int>, lo: int, hi: int)
    requires 0 <= lo && hi <= |limits|
    ensures LimitUnits(Units(limits, lo, hi), limits, lo)
    decreases hi - lo
  {
    if lo < hi {
      UnitsAreLimitUnits(limits, lo, hi - 1);
      var c := [limits[hi - 1]];
      assert IsLimitUnit(c, limits, lo);
      LimitUnitsAppend(Units(limits, lo, hi - 1), [c], limits, lo);
    }
  }

  lemma {:induction false} LimitUnitsAppend(xs: seq<Clause>, ys: seq<Clause>, limits: seq<int>, from: int)
    requires LimitUnits(xs, limits, from) && LimitUnits(ys, limits, from)
    ensures LimitUnits(xs + ys, limits, from)
  {
    forall c | c in xs + ys ensures IsLimitUnit(c, limits, from) {
      assert c in xs || c in ys;
    }
  }

  /** Lowering the bound keeps a run of limit units one. */
  lemma {:induction false} LimitUnitsLower(cs: seq<Clause>, limits: seq<int>, from: int, from2: int)
    requires LimitUnits(cs, limits, from) && from2 <= from
    ensures LimitUnits(cs, limits, from2)
  {
    forall c | c in cs ensures IsLimitUnit(c, limits, from2) {
      var s :| 0 <= s < |limits| && from <= s && c == [limits[s]];
    }
  }

  /** Limit units hold whenever every limit literal from `from` on holds. */
  lemma {:induction false} LimitUnitsHold(a: Assignment, cs: seq<Clause>, limits: seq<int>, from: int)
    requires LimitUnits(cs, limits, from)
    requires forall s :: 0 <= s < |limits| && from <= s ==> Holds(a, limits[s])
    ensures Satisfies(a, cs)
  {
    forall c | c in cs ensures ClauseHolds(a, c) {
      var s :| 0 <= s < |limits| && from <= s && c == [limits[s]];
      assert limits[s] in c;
    }
  }
}
