/** DIMACS-style literals: a variable index and, by its sign, its negation. */
module Literals {

  function Abs(lit: int): (v: nat)
    ensures v == lit || v == -lit
  {
    if lit < 0 then -lit else lit
  }

  /** The literals over the variables 1..maxVar. */
  predicate IsLit(maxVar: nat, lit: int) {
    lit != 0 && Abs(lit) <= maxVar
  }

  /** Unsigned code of a literal, with the sign in the lowest bit. */
  function Vlit(lit: int): nat {
    2 * Abs(lit) + if lit < 0 then 1 else 0
  }

  lemma VlitInjective(a: int, b: int)
    requires Vlit(a) == Vlit(b)
    ensures a == b
  {
  }

  /** The finitely many literals over 1..maxVar. */
  function AllLits(maxVar: nat): (lits: set<int>)
    ensures forall l :: l in lits <==> IsLit(maxVar, l)
  {
    set l | 0 - maxVar <= l <= maxVar && IsLit(maxVar, l)
  }

  lemma {:induction false} AllLitsCount(maxVar: nat)
    ensures |AllLits(maxVar)| == 2 * maxVar
  {
    if maxVar == 0 {
      assert AllLits(0) == {};
    } else {
      AllLitsCount(maxVar - 1);
      assert AllLits(maxVar) == AllLits(maxVar - 1) + {maxVar, 0 - maxVar};
      assert |{maxVar, 0 - maxVar}| == 2;
    }
  }

  /** An assignment, given by the variables that are true. */
  type Model = set<nat>

  predicate True(M: Model, lit: int) {
    if lit < 0 then Abs(lit) !in M else Abs(lit) in M
  }

  /** The assignment makes some literal of the clause true. */
  predicate SatClause(M: Model, lits: seq<int>) { exists i :: 0 <= i < |lits| && True(M, lits[i]) }

  /** The same, told by members instead of positions. */
  ghost predicate SomeTrue(M: Model, lits: seq<int>) { exists l :: l in lits && True(M, l) }

  function LitSet(lits: seq<int>): set<int> { set l | l in lits }
}
