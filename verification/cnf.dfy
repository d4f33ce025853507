/** Propositional clauses in the signed-integer form the solver accepts, their
    meaning under a truth assignment, and the encoder's running state. */
module Cnf {

  /** A truth value for every variable id (ids are positive; 0 is unused). */
  type Assignment = nat -> bool

  /** A clause is a disjunction of signed literals: `v` means variable v, `-v` its negation. */
  type Clause = seq<int>

  /** Truth of a signed literal; the literal 0 never holds. */
  predicate Holds(a: Assignment, lit: int)
  {
    if lit > 0 then a(lit) else if lit < 0 then !a(-lit) else false
  }

  predicate ClauseHolds(a: Assignment, c: Clause)
  {
    exists lit :: lit in c && Holds(a, lit)
  }

  predicate Satisfies(a: Assignment, cs: seq<Clause>)
  {
    forall c :: c in cs ==> ClauseHolds(a, c)
  }

  /** No two distinct positions of `lits` hold at once. */
  predicate AtMostOneTrue(a: Assignment, lits: seq<int>)
  {
    forall i, j :: 0 <= i < j < |lits| ==> !(Holds(a, lits[i]) && Holds(a, lits[j]))
  }

  predicate SomeTrue(a: Assignment, lits: seq<int>)
  {
    exists i :: 0 <= i < |lits| && Holds(a, lits[i])
  }

  /** Literals over the variables 1..bound only. */
  predicate LitsWithin(lits: seq<int>, bound: nat)
  {
    forall lit :: lit in lits ==> lit != 0 && -(bound as int) <= lit <= bound
  }

  /** Variable ids only: no entry is 0 or a negated literal. */
  predicate Positive(vars: seq<int>)
  {
    forall k :: 0 <= k < |vars| ==> vars[k] > 0
  }

  /** The encoder's state: `varCount` is the last variable id handed out (the
      counter `new_var` raises), `clauses` everything added to the solver so far. */
  datatype Cnf = Cnf(varCount: nat, clauses: seq<Clause>)

  predicate ClausesWithin(cs: seq<Clause>, bound: nat)
  {
    forall c :: c in cs ==> LitsWithin(c, bound)
  }

  /** Every clause only mentions variables that were already allocated. */
  predicate WellFormed(e: Cnf)
  {
    ClausesWithin(e.clauses, e.varCount)
  }

  /** `e2` is a later state than `e`: the counter never goes down and clauses
      are only ever appended. */
  predicate Extends(e: Cnf, e2: Cnf)
  {
    e.varCount <= e2.varCount && e.clauses <= e2.clauses
  }

  predicate AgreeUpTo(a: Assignment, b: Assignment, bound: nat)
  {
    forall v: nat :: v <= bound ==> a(v) == b(v)
  }

  /** The variables `first`, `first + 1`, ... handed out by `count` calls of the counter. */
  function Consecutive(first: int, count: nat): seq<int>
  {
    seq(count, i => first + i)
  }

  /** `vars` holds `first`, `first + 1`, ... in order. */
  predicate Run(vars: seq<int>, first: int)
  {
    forall p :: 0 <= p < |vars| ==> vars[p] == first + p
  }

  lemma {:induction false} ConsecutiveRun(first: int, count: nat)
    ensures |Consecutive(first, count)| == count && Run(Consecutive(first, count), first)
  {
  }

  /** A run of fresh variables ending at or below `bound` is within `bound`. */
  lemma {:induction false} RunWithin(vars: seq<int>, first: int, bound: nat)
    requires Run(vars, first) && 1 <= first && first + |vars| <= bound + 1
    ensures LitsWithin(vars, bound)
  {
    forall v | v in vars ensures v != 0 && -(bound as int) <= v <= bound {
      var p :| 0 <= p < |vars| && vars[p] == v;
    }
  }

  /** A run of fresh variables ending at or below `bound` is within `bound`. */
  lemma {:induction false} ConsecutiveWithin(first: int, count: nat, bound: nat)
    requires 1 <= first && first + count <= bound + 1
    ensures LitsWithin(Consecutive(first, count), bound)
  {
    var vars := Consecutive(first, count);
    forall v | v in vars ensures v != 0 && -(bound as int) <= v <= bound {
      var p :| 0 <= p < |vars| && vars[p] == v;
    }
  }

  /** Number of positions of `lits` that hold. */
  function CountTrue(a: Assignment, lits: seq<int>): nat
  {
    if lits == [] then 0 else CountTrue(a, lits[..|lits| - 1]) + (if Holds(a, lits[|lits| - 1]) then 1 else 0)
  }

  /** Index of the first position of `vars` that holds, or -1 when none does. */
  function FirstTrue(a: Assignment, vars: seq<int>): int
  {
    if vars == [] then -1
    else if Holds(a, vars[0]) then 0
    else var r := FirstTrue(a, vars[1..]); if r < 0 then -1 else r + 1
  }

  lemma {:induction false} FirstTrueMeaning(a: Assignment, vars: seq<int>)
    ensures -1 <= FirstTrue(a, vars) < |vars|
    ensures FirstTrue(a, vars) == -1 <==> !SomeTrue(a, vars)
    ensures FirstTrue(a, vars) >= 0 ==> Holds(a, vars[FirstTrue(a, vars)])
    ensures forall i :: 0 <= i < FirstTrue(a, vars) || (FirstTrue(a, vars) == -1 && 0 <= i < |vars|) ==> !Holds(a, vars[i])
  {
    if vars != [] && !Holds(a, vars[0]) {
      FirstTrueMeaning(a, vars[1..]);
      var r := FirstTrue(a, vars[1..]);
      forall i | 0 <= i < FirstTrue(a, vars) || (FirstTrue(a, vars) == -1 && 0 <= i < |vars|)
        ensures !Holds(a, vars[i])
      {
        if i > 0 { assert vars[i] == vars[1..][i - 1]; }
      }
      if SomeTrue(a, vars) {
        var i :| 0 <= i < |vars| && Holds(a, vars[i]);
        assert vars[i] == vars[1..][i - 1];
      }
    }
  }

  /** Under at-most-one, the first true position is the only one. */
  lemma {:induction false} FirstTrueUnique(a: Assignment, vars: seq<int>, i: int)
    requires AtMostOneTrue(a, vars)
    requires 0 <= i < |vars| && Holds(a, vars[i])
    ensures FirstTrue(a, vars) == i
  {
    FirstTrueMeaning(a, vars);
  }

  /** A literal and its negation never hold together, and one of them holds. */
  lemma {:induction false} HoldsNeg(a: Assignment, lit: int)
    requires lit != 0
    ensures Holds(a, -lit) == !Holds(a, lit)
  {
  }

  /** Appending is associative. */
  lemma {:induction false} AppendAssoc<T>(xs: seq<T>, ys: seq<T>, zs: seq<T>)
    ensures xs + ys + zs == xs + (ys + zs)
  {
  }

  lemma {:induction false} SatisfiesPrefix(a: Assignment, xs: seq<Clause>, ys: seq<Clause>)
    requires xs <= ys && Satisfies(a, ys)
    ensures Satisfies(a, xs)
  {
    forall c | c in xs ensures ClauseHolds(a, c) {
      var i :| 0 <= i < |xs| && xs[i] == c;
      assert ys[i] == c;
    }
  }

  lemma {:induction false} SatisfiesAppend(a: Assignment, xs: seq<Clause>, ys: seq<Clause>)
    ensures Satisfies(a, xs + ys) <==> Satisfies(a, xs) && Satisfies(a, ys)
  {
    if Satisfies(a, xs) && Satisfies(a, ys) {
      forall c | c in xs + ys ensures ClauseHolds(a, c) {
        assert c in xs || c in ys;
      }
    }
    if Satisfies(a, xs + ys) {
      forall c | c in xs ensures ClauseHolds(a, c) { assert c in xs + ys; }
      forall c | c in ys ensures ClauseHolds(a, c) { assert c in xs + ys; }
    }
  }

  lemma {:induction false} ClausesWithinAppend(xs: seq<Clause>, ys: seq<Clause>, bound: nat)
    ensures ClausesWithin(xs + ys, bound) <==> ClausesWithin(xs, bound) && ClausesWithin(ys, bound)
  {
    if ClausesWithin(xs, bound) && ClausesWithin(ys, bound) {
      forall c | c in xs + ys ensures LitsWithin(c, bound) {
        assert c in xs || c in ys;
      }
    }
    if ClausesWithin(xs + ys, bound) {
      forall c | c in xs ensures LitsWithin(c, bound) { assert c in xs + ys; }
      forall c | c in ys ensures LitsWithin(c, bound) { assert c in xs + ys; }
    }
  }

  lemma {:induction false} LitsWithinAppend(xs: seq<int>, ys: seq<int>, bound: nat)
    ensures LitsWithin(xs + ys, bound) <==> LitsWithin(xs, bound) && LitsWithin(ys, bound)
  {
    if LitsWithin(xs + ys, bound) {
      forall lit | lit in xs ensures lit != 0 && -(bound as int) <= lit <= bound { assert lit in xs + ys; }
      forall lit | lit in ys ensures lit != 0 && -(bound as int) <= lit <= bound { assert lit in xs + ys; }
    }
  }

  /** Raising the variable count keeps clauses in range. */
  lemma {:induction false} ClausesWithinMono(cs: seq<Clause>, bound: nat, bound2: nat)
    requires ClausesWithin(cs, bound) && bound <= bound2
    ensures ClausesWithin(cs, bound2)
  {
  }

  /** Literals over variables both assignments agree on hold under one iff under the other. */
  lemma {:induction false} HoldsAgree(a: Assignment, b: Assignment, bound: nat, lit: int)
    requires AgreeUpTo(a, b, bound) && lit != 0 && -(bound as int) <= lit <= bound
    ensures Holds(a, lit) == Holds(b, lit)
  {
    if lit > 0 { assert a(lit) == b(lit); } else { assert a(-lit) == b(-lit); }
  }

  /** Clauses only see the variables they mention. */
  lemma {:induction false} SatisfiesAgree(a: Assignment, b: Assignment, e: Cnf)
    requires WellFormed(e) && AgreeUpTo(a, b, e.varCount)
    ensures Satisfies(a, e.clauses) <==> Satisfies(b, e.clauses)
  {
    forall c | c in e.clauses ensures ClauseHolds(a, c) <==> ClauseHolds(b, c) {
      forall lit | lit in c ensures Holds(a, lit) == Holds(b, lit) {
        HoldsAgree(a, b, e.varCount, lit);
      }
    }
  }

  lemma {:induction false} SomeTrueAppend(a: Assignment, xs: seq<int>, ys: seq<int>)
    ensures SomeTrue(a, xs + ys) <==> SomeTrue(a, xs) || SomeTrue(a, ys)
  {
    var zs := xs + ys;
    if SomeTrue(a, zs) {
      var i :| 0 <= i < |zs| && Holds(a, zs[i]);
      if i < |xs| { assert zs[i] == xs[i]; } else { assert zs[i] == ys[i - |xs|]; }
    }
    if SomeTrue(a, xs) {
      var i :| 0 <= i < |xs| && Holds(a, xs[i]);
      assert zs[i] == xs[i];
    }
    if SomeTrue(a, ys) {
      var i :| 0 <= i < |ys| && Holds(a, ys[i]);
      assert zs[|xs| + i] == ys[i];
    }
  }

  /** Two groups, each with at most one true literal and not both with one, make one such group. */
  lemma {:induction false} AtMostOneTrueAppend(a: Assignment, xs: seq<int>, ys: seq<int>)
    requires AtMostOneTrue(a, xs) && AtMostOneTrue(a, ys) && !(SomeTrue(a, xs) && SomeTrue(a, ys))
    ensures AtMostOneTrue(a, xs + ys)
  {
    var zs := xs + ys;
    forall i, j | 0 <= i < j < |zs| ensures !(Holds(a, zs[i]) && Holds(a, zs[j])) {
      if j < |xs| {
        assert zs[i] == xs[i] && zs[j] == xs[j];
      } else if i >= |xs| {
        assert zs[i] == ys[i - |xs|] && zs[j] == ys[j - |xs|];
      } else {
        assert zs[i] == xs[i] && zs[j] == ys[j - |xs|];
      }
    }
  }

  /** Two different literals of an at-most-one group cannot both hold. */
  lemma {:induction false} AtMostOneTrueMembers(a: Assignment, lits: seq<int>, x: int, y: int)
    requires AtMostOneTrue(a, lits) && x in lits && y in lits && x != y
    ensures !(Holds(a, x) && Holds(a, y))
  {
    var i :| 0 <= i < |lits| && lits[i] == x;
    var j :| 0 <= j < |lits| && lits[j] == y;
    assert i != j;
  }

  lemma {:induction false} AtMostOneTruePrefix(a: Assignment, xs: seq<int>, ys: seq<int>)
    requires AtMostOneTrue(a, xs + ys)
    ensures AtMostOneTrue(a, xs) && AtMostOneTrue(a, ys)
    ensures SomeTrue(a, xs) ==> !SomeTrue(a, ys)
  {
    forall i, j | 0 <= i < j < |xs| ensures !(Holds(a, xs[i]) && Holds(a, xs[j])) {
      assert (xs + ys)[i] == xs[i] && (xs + ys)[j] == xs[j];
    }
    forall i, j | 0 <= i < j < |ys| ensures !(Holds(a, ys[i]) && Holds(a, ys[j])) {
      assert (xs + ys)[|xs| + i] == ys[i] && (xs + ys)[|xs| + j] == ys[j];
    }
    if SomeTrue(a, xs) {
      var i :| 0 <= i < |xs| && Holds(a, xs[i]);
      forall j | 0 <= j < |ys| ensures !Holds(a, ys[j]) {
        assert (xs + ys)[i] == xs[i] && (xs + ys)[|xs| + j] == ys[j];
      }
    }
  }
}
