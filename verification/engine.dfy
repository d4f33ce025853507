/** The SAT solver behind `PlanStorage`, seen from the outside: it collects
    clauses one at a time and, asked to solve, answers with a model, with
    "unsatisfiable", or not at all when the user interrupts it. How it finds
    its answer is not modelled; the answer is a function of the clauses it
    holds, supplied when the solver is created and required to be sound. */
module Engine {
  import opened Cnf

  /** What one call of `solve` can end in. `Interrupted` stands for the
      keyboard interrupt that ends a running solve. */
  datatype Answer = Sat(model: Assignment) | Unsat | Interrupted

  /** A model satisfies every clause; "unsatisfiable" means no assignment does. */
  ghost predicate SoundAnswer(cs: seq<Clause>, r: Answer)
  {
    match r
    case Sat(model) => Satisfies(model, cs)
    case Unsat => forall a: Assignment :: !Satisfies(a, cs)
    case Interrupted => true
  }

  /** A decision procedure that never answers wrongly. */
  ghost predicate Sound(decide: seq<Clause> -> Answer)
  {
    forall cs :: SoundAnswer(cs, decide(cs))
  }

  class Solver {
    /** Every clause added so far, in order. */
    var clauses: seq<Clause>
    /** The values of the last satisfiable solve, read back by `val`. */
    var model: Assignment
    /** The answer the solver gives for a list of clauses. */
    const decide: seq<Clause> -> Answer

    constructor (decide: seq<Clause> -> Answer)
      requires Sound(decide)
      ensures clauses == [] && this.decide == decide
    {
      clauses := [];
      model := (v: nat) => false;
      this.decide := decide;
    }

    /** `add_clause`: the literals followed by the terminating 0. */
    method AddClause(c: Clause)
      modifies this`clauses
      ensures clauses == old(clauses) + [c]
    {
      clauses := clauses + [c];
    }

    /** `solve`: on a satisfiable answer, its model becomes the one `val` reads. */
    method Solve() returns (r: Answer)
      modifies this`model
      ensures r == decide(clauses)
      ensures r.Sat? ==> model == r.model
      ensures !r.Sat? ==> model == old(model)
    {
      r := decide(clauses);
      if r.Sat? {
        model := r.model;
      }
    }

    /** `val`: IPASIR's `val` answers `lit` when the literal is true and
        `-lit` when it is false, so its sign is the value of the literal's
        variable in the last model, whichever sign the literal has. The
        interface accepts no 0. */
    method Val(lit: int) returns (b: bool)
      requires lit != 0
      ensures b == model(if lit > 0 then lit else -lit)
      ensures lit > 0 ==> b == Holds(model, lit)
      ensures lit < 0 ==> b == !Holds(model, lit)
    {
      b := model(if lit > 0 then lit else -lit);
    }
  }
}
