/** Collecting the literals of two antecedents with marks, and strengthening a
    clause on the fly. */
module Antecedents {
  import opened Literals
  import opened Extension
  import opened ClauseDatabase
  import opened Resolution

  // -------------------------------------------------- the two antecedents

  /** The first i literals of the first antecedent are collected and marked. */
  ghost predicate FirstUpTo(lits: seq<int>, i: nat, p: int, units: set<int>, clause: seq<int>, marks: set<int>, size: nat) {
    forall k {:trigger Unfold(k)} :: Unfold(k) ==>
      && i <= |lits| && NoneTrue(lits[..i], p, units)
      && clause == KeptLits(lits[..i], p, units) && marks == LitSet(clause) && marks <= LitSet(lits)
      && size == |clause| + if p in lits[..i] then 1 else 0
  }

  lemma FirstStart(lits: seq<int>, p: int, units: set<int>)
    ensures FirstUpTo(lits, 0, p, units, [], {}, 0)
  {
  }

  lemma FirstStep(lits: seq<int>, i: nat, p: int, units: set<int>, clause: seq<int>, marks: set<int>, size: nat)
    requires FirstUpTo(lits, i, p, units, clause, marks, size) && i < |lits| && DistinctLits(lits)
    ensures lits[i] == p ==> FirstUpTo(lits, i + 1, p, units, clause, marks, size + 1)
    ensures lits[i] != p && lits[i] !in units && -lits[i] in units ==> FirstUpTo(lits, i + 1, p, units, clause, marks, size)
    ensures lits[i] != p && lits[i] !in units && -lits[i] !in units ==>
              FirstUpTo(lits, i + 1, p, units, clause + [lits[i]], marks + {lits[i]}, size + 1)
  {
    assert Unfold(0);
    assert lits[..i + 1][..i] == lits[..i] && lits[..i + 1] == lits[..i] + [lits[i]];
    assert lits[i] !in lits[..i];
  }

  lemma FirstAll(lits: seq<int>, i: nat, p: int, units: set<int>, clause: seq<int>, marks: set<int>, size: nat)
    requires FirstUpTo(lits, i, p, units, clause, marks, size)
    ensures marks <= LitSet(lits)
    ensures i == |lits| ==> NoneTrue(lits, p, units) && clause == KeptLits(lits, p, units) && marks == LitSet(clause)
    ensures i == |lits| && p in lits ==> size == |clause| + 1
  {
    assert Unfold(0);
    assert i == |lits| ==> lits[..i] == lits;
  }

  /** Collects and marks the literals of the first antecedent, or finds it satisfied. */
  method CollectFirst(s: Solver, c: nat, pivot: int) returns (satisfied: int, size: nat)
    requires s.Valid() && c < |s.clauses| && s.clause == [] && s.marks == {}
    modifies s`clause, s`marks
    ensures s.marks <= LitSet(s.clauses[c].lits)
    ensures satisfied != 0 ==> satisfied in s.clauses[c].lits && satisfied in s.units && satisfied != pivot
    ensures satisfied == 0 ==> NoneTrue(s.clauses[c].lits, pivot, s.units)
    ensures satisfied == 0 ==> s.clause == KeptLits(s.clauses[c].lits, pivot, s.units) && s.marks == LitSet(s.clause)
    ensures satisfied == 0 && pivot in s.clauses[c].lits ==> size == |s.clause| + 1
  {
    var lits := s.clauses[c].lits;
    ClauseOf(s.maxVar, s.Now(), s.occs, s.inactive, c);
    satisfied, size := 0, 0;
    FirstStart(lits, pivot, s.units);
    var i: nat := 0;
    while i < |lits|
      invariant i <= |lits| && FirstUpTo(lits, i, pivot, s.units, s.clause, s.marks, size)
    {
      var lit := lits[i];
      FirstStep(lits, i, pivot, s.units, s.clause, s.marks, size);
      if lit == pivot {
        size := size + 1;
      } else if lit in s.units {
        satisfied := lit;
        break;
      } else if -lit !in s.units {
        s.marks := s.marks + {lit};
        s.clause := s.clause + [lit];
        size := size + 1;
      }
      i := i + 1;
    }
    FirstAll(lits, i, pivot, s.units, s.clause, s.marks, size);
  }

  /** No literal has its negation marked. */
  ghost predicate NoClashing(lits: seq<int>, marks: set<int>) { forall i :: 0 <= i < |lits| ==> -lits[i] !in marks }

  /** The first i literals of the second antecedent are added to those of the first. */
  ghost predicate SecondUpTo(lits: seq<int>, i: nat, p: int, units: set<int>, first: seq<int>, marks: set<int>, clause: seq<int>, size: nat) {
    forall k {:trigger Unfold(k)} :: Unfold(k) ==>
      && i <= |lits| && NoneTrue(lits[..i], p, units)
      && clause == first + Fresh(lits[..i], p, units, marks)
      && NoClashing(KeptLits(lits[..i], p, units), marks)
      && size == |KeptLits(lits[..i], p, units)| + if p in lits[..i] then 1 else 0
  }

  lemma SecondStart(lits: seq<int>, p: int, units: set<int>, first: seq<int>, marks: set<int>)
    ensures SecondUpTo(lits, 0, p, units, first, marks, first, 0)
  {
  }

  lemma SecondStep(lits: seq<int>, i: nat, p: int, units: set<int>, first: seq<int>, marks: set<int>, clause: seq<int>, size: nat)
    requires SecondUpTo(lits, i, p, units, first, marks, clause, size) && i < |lits| && DistinctLits(lits)
    ensures lits[i] == p ==> SecondUpTo(lits, i + 1, p, units, first, marks, clause, size + 1)
    ensures lits[i] != p && lits[i] !in units && -lits[i] in units ==>
              SecondUpTo(lits, i + 1, p, units, first, marks, clause, size)
    ensures lits[i] != p && lits[i] !in units && -lits[i] !in units && -lits[i] !in marks ==>
              SecondUpTo(lits, i + 1, p, units, first, marks, if lits[i] in marks then clause else clause + [lits[i]], size + 1)
  {
    assert Unfold(0);
    assert lits[..i + 1][..i] == lits[..i] && lits[..i + 1] == lits[..i] + [lits[i]];
    assert lits[i] !in lits[..i];
  }

  lemma SecondAll(lits: seq<int>, i: nat, p: int, units: set<int>, first: seq<int>, marks: set<int>, clause: seq<int>, size: nat)
    requires SecondUpTo(lits, i, p, units, first, marks, clause, size) && i == |lits|
    ensures NoneTrue(lits, p, units) && clause == first + Fresh(lits, p, units, marks)
    ensures NoClashing(KeptLits(lits, p, units), marks)
    ensures p in lits ==> size == |KeptLits(lits, p, units)| + 1
  {
    assert Unfold(0);
    assert lits[..i] == lits;
  }

  /** Adds the unmarked literals of the second antecedent, or finds it satisfied or
      the resolvent tautological. */
  method CollectSecond(s: Solver, d: nat, pivot: int, ghost first: seq<int>) returns (satisfied: int, tautological: int, size: nat)
    requires s.Valid() && d < |s.clauses| && s.clause == first && s.marks == LitSet(first)
    modifies s`clause
    ensures satisfied != 0 ==> satisfied in s.clauses[d].lits && satisfied in s.units && satisfied != pivot
    ensures tautological != 0 ==> tautological in s.clauses[d].lits && tautological != pivot && -tautological in s.marks
    ensures satisfied == 0 && tautological == 0 ==>
              && NoneTrue(s.clauses[d].lits, pivot, s.units)
              && s.clause == first + Fresh(s.clauses[d].lits, pivot, s.units, s.marks)
              && NoClashing(KeptLits(s.clauses[d].lits, pivot, s.units), s.marks)
              && (pivot in s.clauses[d].lits ==> size == |KeptLits(s.clauses[d].lits, pivot, s.units)| + 1)
  {
    var lits := s.clauses[d].lits;
    ClauseOf(s.maxVar, s.Now(), s.occs, s.inactive, d);
    satisfied, tautological, size := 0, 0, 0;
    SecondStart(lits, pivot, s.units, first, s.marks);
    var i: nat := 0;
    while i < |lits|
      invariant i <= |lits| && SecondUpTo(lits, i, pivot, s.units, first, s.marks, s.clause, size)
    {
      var lit := lits[i];
      SecondStep(lits, i, pivot, s.units, first, s.marks, s.clause, size);
      if lit == pivot {
        size := size + 1;
      } else if lit in s.units {
        satisfied := lit;
        return;
      } else if -lit in s.units {
      } else if -lit in s.marks {
        tautological := lit;
        return;
      } else if lit !in s.marks {
        s.clause := s.clause + [lit];
        size := size + 1;
      } else {
        size := size + 1;
      }
      i := i + 1;
    }
    SecondAll(lits, i, pivot, s.units, first, s.marks, s.clause, size);
  }

  method Unmark(s: Solver, c: nat)
    requires c < |s.clauses|
    modifies s`marks
    ensures s.marks == old(s.marks) - LitSet(s.clauses[c].lits)
  {
    var lits := s.clauses[c].lits;
    for i := 0 to |lits|
      invariant s.marks == old(s.marks) - LitSet(lits[..i])
    {
      s.marks := s.marks - {lits[i]};
      assert LitSet(lits[..i + 1]) == LitSet(lits[..i]) + {lits[i]};
    }
    assert lits[..|lits|] == lits;
  }

  // -------------------------------------------------------- strengthening

  /** Literals that may form a new clause. */
  ghost predicate Usable(maxVar: nat, units: set<int>, inactive: set<nat>, lits: seq<int>) {
    WellClause(maxVar, lits) && forall i :: 0 <= i < |lits| ==> IsActive(units, inactive, lits[i])
  }

  lemma KeptUsable(maxVar: nat, s: State, occs: Occs, inactive: set<nat>, c: nat, p: int)
    requires WellFormed(maxVar, s, occs, inactive) && !s.unsat && Live(s, c) && NoneTrue(s.clauses[c].lits, p, s.units)
    ensures Usable(maxVar, s.units, inactive, KeptLits(s.clauses[c].lits, p, s.units))
  {
    var C := s.clauses[c].lits;
    assert Unfold(0);
    assert WellClause(maxVar, C);
    KeptAre(C, p, s.units);
    var k := KeptLits(C, p, s.units);
    forall i | 0 <= i < |k| ensures IsLit(maxVar, k[i]) && IsActive(s.units, inactive, k[i]) { assert k[i] in k; }
    forall i, j | 0 <= i < j < |k| ensures k[i] != k[j] && k[i] != -k[j] {
      assert k[i] in k && k[j] in k;
      NoClash(C, k[i], k[j]);
    }
  }

  lemma NoClash(lits: seq<int>, a: int, b: int)
    requires forall i, j :: 0 <= i < j < |lits| ==> lits[i] != lits[j] && lits[i] != -lits[j]
    ensures a in lits && b in lits && a == -b ==> a == 0
  {
    if a in lits && b in lits {
      var i :| 0 <= i < |lits| && lits[i] == a;
      var j :| 0 <= j < |lits| && lits[j] == b;
    }
  }

  /** Collects the literals of a clause without the pivot and without false ones. */
  method CollectOthers(s: Solver, c: nat, pivot: int)
    requires c < |s.clauses| && s.clause == []
    modifies s`clause
    ensures s.clause == KeptLits(s.clauses[c].lits, pivot, s.units)
  {
    var lits := s.clauses[c].lits;
    for i := 0 to |lits|
      invariant s.clause == KeptLits(lits[..i], pivot, s.units)
    {
      assert lits[..i + 1][..i] == lits[..i];
      if lits[i] != pivot && -lits[i] !in s.units { s.clause := s.clause + [lits[i]]; }
    }
    assert lits[..|lits|] == lits;
  }

  /** Adding what is left of a clause makes the clause redundant. */
  lemma StrengtheningIsSame(s: State, c: nat, pivot: int, lits: seq<int>)
    requires Live(s, c) && lits == KeptLits(s.clauses[c].lits, pivot, s.units) && Implied(s, lits)
    ensures Same(s, Garbage(Add(s, lits), c))
  {
    AddImplied(s, lits);
    KeptAre(s.clauses[c].lits, pivot, s.units);
    GarbageSubsumed(Add(s, lits), c, |s.clauses|);
    SameTrans(s, Add(s, lits), Garbage(Add(s, lits), c));
  }

  /** Replaces a clause by a copy without the pivot and without false literals. */
  method OnTheFlySelfSubsumption(s: Solver, c: nat, pivot: int)
    requires s.Valid() && !s.unsat && Live(s.Now(), c) && s.clause == []
    requires NoneTrue(s.clauses[c].lits, pivot, s.units) && Implied(s.Now(), KeptLits(s.clauses[c].lits, pivot, s.units))
    modifies s`clauses, s`occs, s`clause
    ensures s.Valid() && s.clause == [] && Same(old(s.Now()), s.Now())
    ensures s.Now() == Garbage(Add(old(s.Now()), KeptLits(old(s.clauses[c].lits), pivot, s.units)), c)
    ensures Linked(old(s.occs), s.occs, KeptLits(old(s.clauses[c].lits), pivot, s.units), |old(s.clauses)|)
  {
    ghost var before := s.Now();
    CollectOthers(s, c, pivot);
    KeptUsable(s.maxVar, before, s.occs, s.inactive, c, pivot);
    StrengtheningIsSame(before, c, pivot, s.clause);
    var r := s.NewClause();
    s.clause := [];
    s.MarkGarbage(c);
  }
}
