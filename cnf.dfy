/** Clauses in the shape the encoder emits them (DIMACS: signed variable identifiers closed by a
    0) and what it means for a truth assignment to satisfy them. */
module Cnf {

  /** Signed variable identifiers: v stands for "variable v is true", -v for "variable v is
      false"; the encoder closes every clause with the terminator 0. */
  type Clause = seq<int>

  /** A truth value for every variable identifier. */
  type Assignment = int -> bool

  /** Literal 0, the terminator, is never true. */
  predicate LitTrue(a: Assignment, l: int)
  {
    (l > 0 && a(l)) || (l < 0 && !a(-l))
  }

  /** A clause holds when one of its literals does. */
  predicate ClauseTrue(a: Assignment, c: Clause)
  {
    exists p :: 0 <= p < |c| && LitTrue(a, c[p])
  }

  predicate Satisfies(a: Assignment, cnf: seq<Clause>)
  {
    forall c :: c in cnf ==> ClauseTrue(a, c)
  }

  /** A clause that the DIMACS writer can print as one line over nrVars variables: exactly one 0,
      at the end, and every other literal names a variable in [1, nrVars]. */
  predicate WellFormed(c: Clause, nrVars: int)
  {
    && |c| >= 1
    && c[|c| - 1] == 0
    && forall p :: 0 <= p < |c| - 1 ==> c[p] != 0 && -nrVars <= c[p] <= nrVars
  }

  /** The assignment a solver's model denotes through its literals: variable v is true exactly
      when the literal v occurs in the model. */
  function LiteralAssignment(model: seq<int>): Assignment
  {
    v => v in model
  }

  /** Two assignments that agree on variables 1..nrVars agree on every formula of well-formed
      clauses over nrVars variables. */
  lemma SameOnVariables(a: Assignment, b: Assignment, cnf: seq<Clause>, nrVars: int)
    requires forall c :: c in cnf ==> WellFormed(c, nrVars)
    requires forall v :: 1 <= v <= nrVars ==> (a(v) <==> b(v))
    ensures Satisfies(a, cnf) <==> Satisfies(b, cnf)
  {
    forall c | c in cnf ensures ClauseTrue(a, c) <==> ClauseTrue(b, c) {
      forall p | 0 <= p < |c| ensures LitTrue(a, c[p]) <==> LitTrue(b, c[p]) {
        if p < |c| - 1 {
          if c[p] < 0 {
            assert a(-c[p]) <==> b(-c[p]);
          } else {
            assert a(c[p]) <==> b(c[p]);
          }
        }
      }
    }
  }
}
