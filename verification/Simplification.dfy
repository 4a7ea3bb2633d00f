/** Whole runs of simplification: any sequence of elimination attempts and blocked
    clause removals, and what a model or a contradiction found afterwards says
    about the original clauses. */
module Simplification {
  import opened Literals
  import opened Extension
  import opened ClauseDatabase
  import opened Resolution
  import opened FastElimination
  import opened BlockedRemoval

  datatype Attempt =
    | Eliminate(pivot: int, occLimit: nat, sizeLimit: nat, bound: int)
    | Block(lit: int, negativeLimit: nat, minSize: nat, maxSize: nat)

  predicate AboutLits(maxVar: nat, attempts: seq<Attempt>) {
    forall i :: 0 <= i < |attempts| ==> IsLit(maxVar, if attempts[i].Eliminate? then attempts[i].pivot else attempts[i].lit)
  }

  /** The clauses, their lists and the retired variables at one time. */
  datatype Moment = Moment(state: State, occs: Occs, inactive: set<nat>)

  /** What one attempt does: it tries or blocks, and leaves frozen variables alone. */
  ghost predicate Attempted(before: Moment, after: Moment, attempt: Attempt, frozen: set<nat>) {
    match attempt
    case Eliminate(pivot, occLimit, sizeLimit, bound) =>
      if Abs(pivot) in frozen then after == before
      else exists counted :: Tried(before.state, before.occs, before.inactive, counted, after.state, after.inactive, pivot, occLimit, sizeLimit, bound)
    case Block(lit, negativeLimit, minSize, maxSize) =>
      Blocking(before.state, before.occs, before.inactive, after.state, after.inactive, frozen, lit, negativeLimit, minSize, maxSize)
  }

  /** The moments between attempts, all of them made unless the clauses are found unsatisfiable. */
  ghost predicate Ran(trace: seq<Moment>, attempts: seq<Attempt>, frozen: set<nat>) {
    && 0 < |trace| <= |attempts| + 1 && (|trace| <= |attempts| ==> trace[|trace| - 1].state.unsat)
    && forall i :: 0 <= i < |trace| - 1 ==> !trace[i].state.unsat && Attempted(trace[i], trace[i + 1], attempts[i], frozen)
  }

  /** Makes one attempt. */
  method MakeAttempt(s: Solver, attempt: Attempt)
    requires s.Valid() && s.Kept() && !s.unsat && s.clause == [] && s.marks == {}
    requires IsLit(s.maxVar, if attempt.Eliminate? then attempt.pivot else attempt.lit)
    modifies s`clauses, s`units, s`unsat, s`occs, s`clause, s`marks, s`inactive, s.stack
    ensures s.Valid() && s.Kept() && s.clause == [] && s.marks == {}
    ensures Attempted(Moment(old(s.Now()), old(s.occs), old(s.inactive)), Moment(s.Now(), s.occs, s.inactive), attempt, s.frozen)
  {
    match attempt {
      case Eliminate(pivot, occLimit, sizeLimit, bound) =>
        if Abs(pivot) !in s.frozen { ghost var counted := TryToFastEliminateVariable(s, pivot, occLimit, sizeLimit, bound); }
      case Block(lit, negativeLimit, minSize, maxSize) =>
        BlockLiteral(s, lit, negativeLimit, minSize, maxSize);
    }
  }

  /** Makes the attempts in order until one finds the clauses unsatisfiable. */
  method Simplify(s: Solver, attempts: seq<Attempt>) returns (ghost trace: seq<Moment>)
    requires s.Valid() && s.Kept() && s.clause == [] && s.marks == {} && AboutLits(s.maxVar, attempts)
    modifies s`clauses, s`units, s`unsat, s`occs, s`clause, s`marks, s`inactive, s.stack
    ensures s.Valid() && s.Kept()
    ensures Ran(trace, attempts, s.frozen) && trace[0] == Moment(old(s.Now()), old(s.occs), old(s.inactive))
    ensures trace[|trace| - 1] == Moment(s.Now(), s.occs, s.inactive)
  {
    trace := [Moment(s.Now(), s.occs, s.inactive)];
    for i := 0 to |attempts|
      invariant s.Valid() && s.Kept() && s.clause == [] && s.marks == {}
      invariant |trace| == i + 1 && trace[i] == Moment(s.Now(), s.occs, s.inactive) && trace[0] == Moment(old(s.Now()), old(s.occs), old(s.inactive))
      invariant forall k :: 0 <= k < i ==> !trace[k].state.unsat && Attempted(trace[k], trace[k + 1], attempts[k], s.frozen)
    {
      if s.unsat { return; }
      MakeAttempt(s, attempts[i]);
      trace := trace + [Moment(s.Now(), s.occs, s.inactive)];
    }
  }

  /** A model of what is left, extended backward, satisfies the original clauses. */
  method ExtendModel(s: Solver, m: Model) returns (vals: Model)
    requires s.Valid() && s.Kept() && Sat(m, s.Now())
    ensures Sat(vals, s.original) && forall v :: v in s.frozen ==> (v in vals <==> v in m)
  {
    vals := s.stack.Extend(m);
    FrozenStay(s.stack.entries, s.frozen, m);
  }

  /** The backward pass keeps the values of frozen variables. */
  lemma {:induction false} FrozenStay(entries: seq<Entry>, frozen: set<nat>, m: Model)
    requires LeavesAlone(entries, frozen)
    ensures forall v :: v in frozen ==> (v in Extended(entries, m) <==> v in m)
  {
    if entries != [] {
      var e := entries[|entries| - 1];
      FlipsStay(e.flips, frozen, m);
      FrozenStay(entries[..|entries| - 1], frozen, Repair(e, m));
    }
  }

  lemma {:induction false} FlipsStay(flips: seq<int>, frozen: set<nat>, m: Model)
    requires forall k :: 0 <= k < |flips| ==> Abs(flips[k]) !in frozen
    ensures forall v :: v in frozen ==> (v in MakeAll(m, flips) <==> v in m)
    decreases |flips|
  {
    if flips != [] { FlipsStay(flips[..|flips| - 1], frozen, Make(m, flips[|flips| - 1])); }
  }

  /** The simplified clauses have a model exactly when the original ones have. */
  lemma Equisatisfiable(s: Solver)
    requires s.Valid() && s.Kept()
    ensures (exists m :: Sat(m, s.original)) <==> (exists m :: Sat(m, s.Now()))
  {
    if m :| Sat(m, s.original) { assert Sat(m, s.Now()); }
    if m :| Sat(m, s.Now()) { assert Sat(Extended(s.stack.entries, m), s.original); }
  }

  /** The same under assumptions on frozen variables: this is what freezing is for. */
  lemma EquisatisfiableUnderAssumptions(s: Solver, assumptions: set<int>)
    requires s.Valid() && s.Kept() && forall a :: a in assumptions ==> Abs(a) in s.frozen
    ensures (exists m :: Sat(m, s.original) && Assumed(m, assumptions)) <==> (exists m :: Sat(m, s.Now()) && Assumed(m, assumptions))
  {
    if m :| Sat(m, s.original) && Assumed(m, assumptions) {
      assert Sat(m, s.Now());
    }
    if m :| Sat(m, s.Now()) && Assumed(m, assumptions) {
      var vals := Extended(s.stack.entries, m);
      FrozenStay(s.stack.entries, s.frozen, m);
      assert Sat(vals, s.original);
      forall a | a in assumptions ensures True(vals, a) { assert True(m, a); }
      assert Assumed(vals, assumptions);
    }
  }

  ghost predicate Assumed(m: Model, assumptions: set<int>) { forall a :: a in assumptions ==> True(m, a) }
}
