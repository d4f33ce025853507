/** What the solver's answers mean for layouts: every model of the generated
    clauses reads back as a valid layout and every valid layout comes from a
    model; so unit clauses on the limit literals force a smaller storage
    use, and when the tightened clauses have no model, no valid layout uses
    less storage than the last one found. */
module Optimality {
  import opened Cnf
  import opened Cardinality
  import opened Layout
  import opened Encoding
  import opened Allocation
  import opened Soundness
  import opened Completeness

  /** Every model of the clauses keeps the limit literals a thermometer. */
  lemma {:induction false} EncodeMonotone(items: seq<Item>, maxStorage: nat, order: seq<int>, a: Assignment)
    requires |items| >= 1
    requires Satisfies(a, Encode(items, maxStorage, order).clauses)
    ensures Monotone(a, LimitVars(items, maxStorage))
  {
    var lim := Limited(items, maxStorage);
    var limits := LimitVars(items, maxStorage);
    AtMostOneEachExtends(Groups(items, maxStorage, order), lim);
    SatisfiesPrefix(a, lim.clauses, Encode(items, maxStorage, order).clauses);
    SatisfiesAppend(a, Placed(items, maxStorage, |items|).clauses, Chain(limits));
    LimitedWellFormed(items, maxStorage);
    ChainMeaning(a, limits);
  }

  /** Every model of `clauses` reads back, through `placements` and
      `limits`, as a valid layout, with its limit literals a thermometer.
      (The trigger keeps this from feeding `Reaches` the layouts it reads
      back, which would feed it new models in turn.) */
  ghost predicate Decodes(items: seq<Item>, maxStorage: nat, placements: seq<seq<int>>, limits: seq<int>, clauses: seq<Clause>)
  {
    forall a: Assignment {:trigger ReadBack(a, placements, limits, maxStorage)} :: Satisfies(a, clauses) ==>
      && Monotone(a, limits)
      && Fits(items, maxStorage, ReadBack(a, placements, limits, maxStorage).positions,
              ReadBack(a, placements, limits, maxStorage).usedStorage)
  }

  /** Every valid layout within `used` slots comes from a model of `clauses`
      whose limit literals are true exactly from slot `used` on. */
  ghost predicate Reaches(items: seq<Item>, maxStorage: nat, limits: seq<int>, clauses: seq<Clause>)
  {
    forall positions, used :: Fits(items, maxStorage, positions, used) ==>
      exists a: Assignment :: Satisfies(a, clauses) && forall s :: 0 <= s < |limits| ==> (Holds(a, limits[s]) <==> s >= used)
  }

  /** The generated clauses decode soundly through the variables they allocate. */
  lemma {:induction false} EncodeDecodes(items: seq<Item>, maxStorage: nat, order: seq<int>,
                                         placements: seq<seq<int>>, limits: seq<int>, clauses: seq<Clause>)
    requires ItemsOk(items) && CategoryOrder(items, order)
    requires placements == Placements(items, maxStorage, |items|) && limits == LimitVars(items, maxStorage)
    requires clauses == Encode(items, maxStorage, order).clauses
    ensures Decodes(items, maxStorage, placements, limits, clauses)
  {
    forall a: Assignment | Satisfies(a, Encode(items, maxStorage, order).clauses)
      ensures Monotone(a, LimitVars(items, maxStorage))
      ensures var s := Decode(items, maxStorage, a); Fits(items, maxStorage, s.positions, s.usedStorage)
    {
      EncodeSound(items, maxStorage, order, a);
      EncodeMonotone(items, maxStorage, order, a);
    }
  }

  /** The generated clauses reach every valid layout. */
  lemma {:induction false} EncodeReaches(items: seq<Item>, maxStorage: nat, order: seq<int>, limits: seq<int>, clauses: seq<Clause>)
    requires |items| >= 1 && limits == LimitVars(items, maxStorage) && clauses == Encode(items, maxStorage, order).clauses
    ensures Reaches(items, maxStorage, limits, clauses)
  {
    var limits := LimitVars(items, maxStorage);
    forall positions, used | Fits(items, maxStorage, positions, used)
      ensures exists a: Assignment ::
        Satisfies(a, Encode(items, maxStorage, order).clauses) && forall s :: 0 <= s < |limits| ==> (Holds(a, limits[s]) <==> s >= used)
    {
      EncodeComplete(items, maxStorage, order, positions, used);
      var a := Witness(items, maxStorage, order, positions, used);
      assert |limits| == maxStorage;
      assert forall s :: 0 <= s < |limits| ==> (Holds(a, limits[s]) <==> s >= used);
    }
  }

  /** A thermometer model that also makes the limit literals from `lo` on
      true reads back a storage use of at most `lo`. */
  lemma {:induction false} UnitsBound(a: Assignment, limits: seq<int>, lo: int)
    requires Monotone(a, limits) && 0 <= lo <= |limits|
    requires Satisfies(a, Units(limits, lo, |limits|))
    ensures UsedStorage(a, limits, |limits|) <= lo
  {
    Thermometer(a, limits);
    UnitsMeaning(a, limits, lo, |limits|);
    if lo < |limits| {
      assert Holds(a, limits[lo]);
    }
  }

  /** A model of the generated clauses followed by earlier units and the
      units from `lo` on reads back a layout that uses at most `lo` slots:
      each round of improvement strictly lowers the storage use. */
  lemma {:induction false} ImprovedBelow(items: seq<Item>, maxStorage: nat, placements: seq<seq<int>>, limits: seq<int>,
                                         clauses: seq<Clause>, prior: seq<Clause>, a: Assignment, lo: int)
    requires Decodes(items, maxStorage, placements, limits, clauses)
    requires |limits| == maxStorage && 0 <= lo <= maxStorage
    requires Satisfies(a, clauses + (prior + Units(limits, lo, maxStorage)))
    ensures ReadBack(a, placements, limits, maxStorage).usedStorage <= lo
  {
    SatisfiesAppend(a, clauses, prior + Units(limits, lo, maxStorage));
    SatisfiesAppend(a, prior, Units(limits, lo, maxStorage));
    var sol := ReadBack(a, placements, limits, maxStorage);
    UnitsBound(a, limits, lo);
  }

  /** When clauses that reach every layout, plus unit clauses on limit
      literals from `best - 1` on, have no model, every valid layout uses at
      least `best` slots. */
  lemma {:induction false} UnsatMeansOptimal(items: seq<Item>, maxStorage: nat, limits: seq<int>, clauses: seq<Clause>,
                                              extra: seq<Clause>, best: int)
    requires Reaches(items, maxStorage, limits, clauses)
    requires LimitUnits(extra, limits, best - 1)
    ensures (forall a: Assignment :: !Satisfies(a, clauses + extra)) ==>
      forall positions, used :: Fits(items, maxStorage, positions, used) ==> used >= best
  {
    forall positions, used | Fits(items, maxStorage, positions, used) && used < best
      ensures exists a: Assignment :: Satisfies(a, clauses + extra)
    {
      var a: Assignment :| Satisfies(a, clauses) && forall s :: 0 <= s < |limits| ==> (Holds(a, limits[s]) <==> s >= used);
      LimitUnitsHold(a, extra, limits, best - 1);
      SatisfiesAppend(a, clauses, extra);
    }
  }

  /** When clauses that reach every layout have no model, there is no valid
      layout at all. */
  lemma {:induction false} UnsatMeansInfeasible(items: seq<Item>, maxStorage: nat, limits: seq<int>, clauses: seq<Clause>)
    requires Reaches(items, maxStorage, limits, clauses)
    ensures (forall a: Assignment :: !Satisfies(a, clauses)) ==>
      forall positions, used :: !Fits(items, maxStorage, positions, used)
  {
    forall positions, used | Fits(items, maxStorage, positions, used)
      ensures exists a: Assignment :: Satisfies(a, clauses)
    {
    }
  }
}
