/** The irredundant clauses of the solver at root level, with units, occurrence
    lists and the extension stack, and what each basic change means for models. */
module ClauseDatabase {
  import opened Literals
  import opened Extension

  datatype Clause = Clause(lits: seq<int>, garbage: bool)

  /** What models are about: clauses, root-level units and the learned empty clause. */
  datatype State = State(clauses: seq<Clause>, units: set<int>, unsat: bool)

  predicate Live(s: State, c: nat) { c < |s.clauses| && !s.clauses[c].garbage }

  ghost predicate Sat(m: Model, s: State) {
    && !s.unsat && (forall u :: u in s.units ==> True(m, u))
    && forall c: nat :: Live(s, c) ==> SatClause(m, s.clauses[c].lits)
  }

  ghost predicate Same(s: State, t: State) { forall m {:trigger Sat(m, s)} {:trigger Sat(m, t)} :: Sat(m, s) <==> Sat(m, t) }

  lemma SameTrans(s: State, t: State, u: State)
    requires Same(s, t) && Same(t, u)
    ensures Same(s, u)
  {
    forall m ensures Sat(m, s) <==> Sat(m, u) { assert Sat(m, s) <==> Sat(m, t); }
  }

  /** Every model of the state satisfies these literals. */
  ghost predicate Implied(s: State, lits: seq<int>) { forall m :: Sat(m, s) ==> SatClause(m, lits) }

  // --------------------------------------------------------- basic changes

  function Garbage(s: State, c: nat): State
    requires c < |s.clauses|
  {
    s.(clauses := s.clauses[c := s.clauses[c].(garbage := true)])
  }

  function Add(s: State, lits: seq<int>): State { s.(clauses := s.clauses + [Clause(lits, false)]) }
  function Assign(s: State, u: int): State { s.(units := s.units + {u}) }
  function Learn(s: State): State { s.(unsat := true) }

  lemma AddImplied(s: State, lits: seq<int>)
    requires Implied(s, lits)
    ensures Same(s, Add(s, lits))
  {
    var t := Add(s, lits);
    forall m ensures Sat(m, s) <==> Sat(m, t) {
      if Sat(m, s) {
        forall c: nat | Live(t, c) ensures SatClause(m, t.clauses[c].lits) {
          if c < |s.clauses| { assert Live(s, c); }
        }
      }
      if Sat(m, t) {
        forall c: nat | Live(s, c) ensures SatClause(m, s.clauses[c].lits) { assert Live(t, c); }
      }
    }
  }

  lemma AssignImplied(s: State, u: int)
    requires Implied(s, [u])
    ensures Same(s, Assign(s, u))
  {
    var t := Assign(s, u);
    forall m ensures Sat(m, s) <==> Sat(m, t) {
      if Sat(m, s) {
        assert SatClause(m, [u]);
        forall c: nat | Live(t, c) ensures SatClause(m, t.clauses[c].lits) { assert Live(s, c); }
      }
      if Sat(m, t) {
        forall c: nat | Live(s, c) ensures SatClause(m, s.clauses[c].lits) { assert Live(t, c); }
      }
    }
  }

  lemma LearnImplied(s: State)
    requires Implied(s, [])
    ensures Same(s, Learn(s))
  {
    forall m ensures !Sat(m, s) {
      assert Sat(m, s) ==> SatClause(m, []);
    }
  }

  /** Removing a clause that the rest implies changes nothing. */
  lemma GarbageImplied(s: State, c: nat)
    requires c < |s.clauses| && Implied(Garbage(s, c), s.clauses[c].lits)
    ensures Same(s, Garbage(s, c))
  {
    var t := Garbage(s, c);
    forall m ensures Sat(m, s) <==> Sat(m, t) {
      if Sat(m, s) {
        forall d: nat | Live(t, d) ensures SatClause(m, t.clauses[d].lits) { assert Live(s, d); }
      }
      if Sat(m, t) {
        forall d: nat | Live(s, d) ensures SatClause(m, s.clauses[d].lits) {
          if d != c { assert Live(t, d); }
        }
      }
    }
  }

  lemma GarbageSatisfied(s: State, c: nat, u: int)
    requires c < |s.clauses| && u in s.units && u in s.clauses[c].lits
    ensures Same(s, Garbage(s, c))
  {
    forall m | Sat(m, Garbage(s, c)) ensures SatClause(m, s.clauses[c].lits) { }
    GarbageImplied(s, c);
  }

  lemma GarbageSubsumed(s: State, c: nat, d: nat)
    requires c < |s.clauses| && Live(s, d) && d != c
    requires forall l :: l in s.clauses[d].lits ==> l in s.clauses[c].lits
    ensures Same(s, Garbage(s, c))
  {
    forall m | Sat(m, Garbage(s, c)) ensures SatClause(m, s.clauses[c].lits) {
      assert Live(Garbage(s, c), d);
      var i :| 0 <= i < |s.clauses[d].lits| && True(m, s.clauses[d].lits[i]);
      assert s.clauses[d].lits[i] in s.clauses[c].lits;
    }
    GarbageImplied(s, c);
  }

  // --------------------------------------------------------- reconstruction

  /** The entries turn every model of t into one of s. */
  ghost predicate Reconstructs(s: State, t: State, entries: seq<Entry>) {
    forall m {:trigger Sat(m, t)} :: Sat(m, t) ==> Sat(Extended(entries, m), s)
  }

  /** What a simplification run guarantees: no model is lost, and every model that
      remains extends to a model of the original clauses. */
  ghost predicate Sound(s: State, t: State, entries: seq<Entry>) {
    && (forall m {:trigger Sat(m, s)} :: Sat(m, s) ==> Sat(m, t))
    && Reconstructs(s, t, entries)
  }

  lemma SoundNothing(s: State)
    ensures Sound(s, s, [])
  {
  }

  lemma SoundSame(s: State, t: State, entries: seq<Entry>, u: State)
    requires Sound(s, t, entries) && Same(t, u)
    ensures Sound(s, u, entries)
  {
    forall m | Sat(m, s) ensures Sat(m, u) { assert Sat(m, t); }
    forall m | Sat(m, u) ensures Sat(Extended(entries, m), s) { assert Sat(m, t); }
  }

  lemma SoundMore(s: State, t: State, entries: seq<Entry>, u: State, more: seq<Entry>)
    requires Sound(s, t, entries) && Sound(t, u, more)
    ensures Sound(s, u, entries + more)
  {
    forall m | Sat(m, s) ensures Sat(m, u) { assert Sat(m, t); }
    forall m | Sat(m, u) ensures Sat(Extended(entries + more, m), s) {
      ExtendedConcat(entries, more, m);
      assert Sat(Extended(more, m), t);
    }
  }

  // ------------------------------------------------------ well-formedness

  /** No literal twice, no literal with its negation. */
  ghost predicate WellClause(maxVar: nat, lits: seq<int>) {
    && (forall i :: 0 <= i < |lits| ==> IsLit(maxVar, lits[i]))
    && (forall i, j :: 0 <= i < j < |lits| ==> lits[i] != lits[j] && lits[i] != -lits[j])
  }

  type Occs = map<int, seq<int>>

  predicate IsActive(units: set<int>, inactive: set<nat>, lit: int) {
    lit !in units && -lit !in units && Abs(lit) !in inactive
  }

  ghost predicate Consistent(maxVar: nat, units: set<int>) {
    forall u :: u in units ==> IsLit(maxVar, u) && -u !in units
  }

  /** Units avoid eliminated variables, and so do live clauses until the empty
      clause is learned. */
  ghost predicate Avoids(s: State, inactive: set<nat>) {
    && (forall u :: u in s.units ==> Abs(u) !in inactive)
    && (!s.unsat ==> forall c: nat, l :: Live(s, c) && l in s.clauses[c].lits ==> Abs(l) !in inactive)
  }

  function At(occs: Occs, l: int): seq<int> { if l in occs then occs[l] else [] }

  ghost predicate ListOk(s: State, l: int, list: seq<int>) {
    forall k :: 0 <= k < |list| ==> 0 <= list[k] < |s.clauses| && l in s.clauses[list[k]].lits
  }

  /** Occurrence lists name clauses with the literal, and no live clause with an
      active literal is missing. */
  ghost predicate Connected(maxVar: nat, s: State, occs: Occs, inactive: set<nat>) {
    && (forall l :: IsLit(maxVar, l) ==> l in occs)
    && (forall l {:trigger At(occs, l)} :: ListOk(s, l, At(occs, l)))
    && (forall l, c: nat {:trigger Live(s, c), IsActive(s.units, inactive, l)} ::
          Live(s, c) && l in s.clauses[c].lits && IsActive(s.units, inactive, l) ==> c in At(occs, l))
  }

  ghost predicate WellFormedNow(maxVar: nat, s: State, occs: Occs, inactive: set<nat>) {
    && (forall c :: 0 <= c < |s.clauses| ==> WellClause(maxVar, s.clauses[c].lits))
    && Consistent(maxVar, s.units) && Avoids(s, inactive) && Connected(maxVar, s, occs, inactive)
  }

  /** 'WellFormedNow' kept folded; lemmas that need its parts say 'Unfold'. */
  ghost predicate WellFormed(maxVar: nat, s: State, occs: Occs, inactive: set<nat>) {
    forall k {:trigger Unfold(k)} :: Unfold(k) ==> WellFormedNow(maxVar, s, occs, inactive)
  }

  ghost predicate Unfold(k: int) { true }

  lemma ClauseOf(maxVar: nat, s: State, occs: Occs, inactive: set<nat>, c: nat)
    requires WellFormed(maxVar, s, occs, inactive) && c < |s.clauses|
    ensures WellClause(maxVar, s.clauses[c].lits)
  {
    assert Unfold(0);
  }

  lemma OccsOf(maxVar: nat, s: State, occs: Occs, inactive: set<nat>, l: int)
    requires WellFormed(maxVar, s, occs, inactive) && IsLit(maxVar, l)
    ensures l in occs && occs[l] == At(occs, l) && ListOk(s, l, occs[l])
  {
    assert Unfold(0);
    assert ListOk(s, l, At(occs, l));
  }

  lemma IsConnected(maxVar: nat, s: State, occs: Occs, inactive: set<nat>, l: int, c: nat)
    requires WellFormed(maxVar, s, occs, inactive) && Live(s, c) && l in s.clauses[c].lits && IsActive(s.units, inactive, l)
    ensures c in At(occs, l)
  {
    assert Unfold(0);
  }

  lemma UnitsOf(maxVar: nat, s: State, occs: Occs, inactive: set<nat>)
    requires WellFormed(maxVar, s, occs, inactive)
    ensures Consistent(maxVar, s.units)
  {
    assert Unfold(0);
  }

  /** Fewer live clauses and more units need no new connections. */
  lemma Shrinks(maxVar: nat, s: State, t: State, occs: Occs, inactive: set<nat>)
    requires Connected(maxVar, s, occs, inactive) && Avoids(s, inactive)
    requires |t.clauses| == |s.clauses| && forall c :: 0 <= c < |s.clauses| ==>
               t.clauses[c].lits == s.clauses[c].lits && (s.clauses[c].garbage ==> t.clauses[c].garbage)
    requires s.units <= t.units && (s.unsat ==> t.unsat) && forall u :: u in t.units ==> Abs(u) !in inactive
    ensures Connected(maxVar, t, occs, inactive) && Avoids(t, inactive)
  {
    forall l ensures ListOk(t, l, At(occs, l)) { assert ListOk(s, l, At(occs, l)); }
    forall l, c: nat | Live(t, c) && l in t.clauses[c].lits
      ensures (!t.unsat ==> Abs(l) !in inactive) && (IsActive(t.units, inactive, l) ==> c in At(occs, l))
    {
      assert Live(s, c) && l in s.clauses[c].lits;
      if IsActive(t.units, inactive, l) { assert IsActive(s.units, inactive, l); }
    }
  }

  lemma GarbageWellFormed(maxVar: nat, s: State, occs: Occs, inactive: set<nat>, c: nat)
    requires WellFormed(maxVar, s, occs, inactive) && c < |s.clauses|
    ensures WellFormed(maxVar, Garbage(s, c), occs, inactive)
  {
    var t := Garbage(s, c);
    assert Unfold(0);
    Shrinks(maxVar, s, t, occs, inactive);
    assert WellFormedNow(maxVar, t, occs, inactive);
  }

  lemma LearnWellFormed(maxVar: nat, s: State, occs: Occs, inactive: set<nat>)
    requires WellFormed(maxVar, s, occs, inactive)
    ensures WellFormed(maxVar, Learn(s), occs, inactive)
  {
    var t := Learn(s);
    assert Unfold(0);
    Shrinks(maxVar, s, t, occs, inactive);
    assert WellFormedNow(maxVar, t, occs, inactive);
  }

  lemma AssignWellFormed(maxVar: nat, s: State, occs: Occs, inactive: set<nat>, u: int)
    requires WellFormed(maxVar, s, occs, inactive) && IsLit(maxVar, u) && IsActive(s.units, inactive, u)
    ensures WellFormed(maxVar, Assign(s, u), occs, inactive)
  {
    var t := Assign(s, u);
    assert Unfold(0);
    Shrinks(maxVar, s, t, occs, inactive);
    assert WellFormedNow(maxVar, t, occs, inactive);
  }

  /** No entry flips one of these variables. */
  ghost predicate LeavesAlone(entries: seq<Entry>, frozen: set<nat>) {
    forall e, k :: 0 <= e < |entries| && 0 <= k < |entries[e].flips| ==> Abs(entries[e].flips[k]) !in frozen
  }

  // ------------------------------------------------------------ the solver

  class Solver {
    const maxVar: nat
    const frozen: set<nat>
    const stack: ExtensionStack
    var clauses: seq<Clause>
    var units: set<int>
    var unsat: bool
    var occs: Occs
    var inactive: set<nat>
    var clause: seq<int>
    var marks: set<int>
    ghost var original: State

    function Now(): State
      reads this
    {
      State(clauses, units, unsat)
    }

    ghost predicate Valid()
      reads this, stack
    {
      stack.Valid() && WellFormed(maxVar, Now(), occs, inactive)
    }

    /** The promise over the whole run so far. */
    ghost predicate Kept()
      reads this, stack
    {
      Sound(original, Now(), stack.entries) && LeavesAlone(stack.entries, frozen)
    }

    predicate Active(lit: int)
      reads this
    {
      IsActive(units, inactive, lit)
    }

    /** Connects the irredundant clauses that simplification starts from. */
    constructor (n: nat, formula: seq<seq<int>>, frozenVars: set<nat>)
      requires forall c :: 0 <= c < |formula| ==> WellClause(n, formula[c])
      ensures Valid() && Kept() && fresh(stack) && maxVar == n && frozen == frozenVars && original == Now()
      ensures units == {} && !unsat && clause == [] && marks == {} && inactive == {}
      ensures |clauses| == |formula| && forall c :: 0 <= c < |formula| ==> clauses[c] == Clause(formula[c], false)
    {
      maxVar, frozen := n, frozenVars;
      stack := new ExtensionStack();
      clauses, units, unsat, inactive, clause, marks := [], {}, false, {}, [], {};
      occs := map l | l in AllLits(n) :: [];
      new;
      EmptyWellFormed(n, occs);
      Connect(formula);
      clause := [];
      original := Now();
      SoundNothing(Now());
    }

    method Connect(formula: seq<seq<int>>)
      requires Valid() && clauses == [] && units == {} && inactive == {}
      requires forall c :: 0 <= c < |formula| ==> WellClause(maxVar, formula[c])
      modifies this`clause, this`clauses, this`occs
      ensures Valid() && |clauses| == |formula| && forall c :: 0 <= c < |formula| ==> clauses[c] == Clause(formula[c], false)
    {
      for c := 0 to |formula|
        invariant Valid() && |clauses| == c && forall d :: 0 <= d < c ==> clauses[d] == Clause(formula[d], false)
      {
        clause := formula[c];
        var _ := NewClause();
      }
    }

    method MarkGarbage(c: nat)
      requires Valid() && c < |clauses|
      modifies this`clauses
      ensures Valid() && Now() == Garbage(old(Now()), c)
    {
      GarbageWellFormed(maxVar, Now(), occs, inactive, c);
      clauses := clauses[c := clauses[c].(garbage := true)];
    }

    method AssignUnit(u: int)
      requires Valid() && IsLit(maxVar, u) && Active(u)
      modifies this`units
      ensures Valid() && Now() == Assign(old(Now()), u)
    {
      AssignWellFormed(maxVar, Now(), occs, inactive, u);
      units := units + {u};
    }

    method LearnEmptyClause()
      requires Valid()
      modifies this`unsat
      ensures Valid() && Now() == Learn(old(Now()))
    {
      LearnWellFormed(maxVar, Now(), occs, inactive);
      unsat := true;
    }

    /** Adds the collected literals as a clause and connects it. */
    method NewClause() returns (r: nat)
      requires Valid() && WellClause(maxVar, clause) && forall i :: 0 <= i < |clause| ==> Active(clause[i])
      modifies this`clauses, this`occs
      ensures Valid() && r == |old(clauses)| && Now() == Add(old(Now()), clause)
      ensures Linked(old(occs), occs, clause, r)
    {
      r := |clauses|;
      ghost var s, occs0 := Now(), occs;
      clauses := clauses + [Clause(clause, false)];
      KnownLits(maxVar, s, occs0, inactive);
      assert clause[..0] == [];
      for i := 0 to |clause|
        invariant clauses == old(clauses) + [Clause(clause, false)]
        invariant Linked(occs0, occs, clause[..i], r)
      {
        var lit := clause[i];
        LinkOne(occs0, occs, clause, i, r);
        occs := occs[lit := occs[lit] + [r]];
      }
      assert clause[..|clause|] == clause;
      AddWellFormed(maxVar, s, occs0, occs, inactive, clause);
    }
  }

  lemma EmptyWellFormed(maxVar: nat, occs: Occs)
    requires occs == map l | l in AllLits(maxVar) :: []
    ensures WellFormed(maxVar, State([], {}, false), occs, {})
  {
  }

  lemma KnownLits(maxVar: nat, s: State, occs: Occs, inactive: set<nat>)
    requires WellFormed(maxVar, s, occs, inactive)
    ensures forall l :: IsLit(maxVar, l) ==> l in occs
  {
    assert Unfold(0);
  }

  /** The new clause hangs in the lists of these literals, behind the old entries. */
  ghost predicate Linked(occs: Occs, occs': Occs, lits: seq<int>, r: nat) {
    && occs'.Keys == occs.Keys
    && forall l {:trigger At(occs', l)} :: At(occs', l) == At(occs, l) + if l in occs && l in lits then [r] else []
  }

  lemma LinkOne(occs: Occs, occs': Occs, lits: seq<int>, i: nat, r: nat)
    requires i < |lits| && Linked(occs, occs', lits[..i], r) && lits[i] in occs
    requires forall j :: 0 <= j < i ==> lits[j] != lits[i]
    ensures lits[i] in occs' && Linked(occs, occs'[lits[i] := occs'[lits[i]] + [r]], lits[..i + 1], r)
  {
    var occs'' := occs'[lits[i] := occs'[lits[i]] + [r]];
    forall l ensures At(occs'', l) == At(occs, l) + if l in occs && l in lits[..i + 1] then [r] else [] {
      assert lits[..i + 1] == lits[..i] + [lits[i]];
      assert At(occs', l) == At(occs, l) + if l in occs && l in lits[..i] then [r] else [];
    }
  }

  lemma AddAvoids(s: State, inactive: set<nat>, lits: seq<int>)
    requires Avoids(s, inactive) && forall i :: 0 <= i < |lits| ==> Abs(lits[i]) !in inactive
    ensures Avoids(Add(s, lits), inactive)
  {
    var t := Add(s, lits);
    if !t.unsat {
      forall l, d: nat | Live(t, d) && l in t.clauses[d].lits ensures Abs(l) !in inactive {
        if d < |s.clauses| { assert Live(s, d); }
      }
    }
  }

  lemma AddListsOk(s: State, occs: Occs, occs': Occs, lits: seq<int>, l: int)
    requires ListOk(s, l, At(occs, l)) && Linked(occs, occs', lits, |s.clauses|)
    ensures ListOk(Add(s, lits), l, At(occs', l))
  {
    assert At(occs', l) == At(occs, l) + if l in occs && l in lits then [|s.clauses|] else [];
  }

  lemma AddConnected(maxVar: nat, s: State, occs: Occs, occs': Occs, inactive: set<nat>, lits: seq<int>)
    requires Connected(maxVar, s, occs, inactive) && Linked(occs, occs', lits, |s.clauses|)
    requires forall i :: 0 <= i < |lits| ==> IsLit(maxVar, lits[i])
    ensures Connected(maxVar, Add(s, lits), occs', inactive)
  {
    var t := Add(s, lits);
    forall l ensures ListOk(t, l, At(occs', l)) {
      assert ListOk(s, l, At(occs, l));
      AddListsOk(s, occs, occs', lits, l);
    }
    forall l, d: nat | Live(t, d) && l in t.clauses[d].lits && IsActive(t.units, inactive, l) ensures d in At(occs', l) {
      AddIsListed(maxVar, s, occs, occs', inactive, lits, l, d);
    }
  }

  lemma AddIsListed(maxVar: nat, s: State, occs: Occs, occs': Occs, inactive: set<nat>, lits: seq<int>, l: int, d: nat)
    requires Linked(occs, occs', lits, |s.clauses|)
    requires Live(s, d) && l in s.clauses[d].lits ==> d in At(occs, l)
    requires l in lits ==> l in occs
    requires Live(Add(s, lits), d) && l in Add(s, lits).clauses[d].lits
    ensures d in At(occs', l)
  {
    assert At(occs', l) == At(occs, l) + if l in occs && l in lits then [|s.clauses|] else [];
  }

  lemma AddWellFormed(maxVar: nat, s: State, occs: Occs, occs': Occs, inactive: set<nat>, lits: seq<int>)
    requires WellFormed(maxVar, s, occs, inactive) && WellClause(maxVar, lits)
    requires forall i :: 0 <= i < |lits| ==> IsActive(s.units, inactive, lits[i])
    requires Linked(occs, occs', lits, |s.clauses|)
    ensures WellFormed(maxVar, Add(s, lits), occs', inactive)
  {
    assert Unfold(0);
    AddAvoids(s, inactive, lits);
    AddConnected(maxVar, s, occs, occs', inactive, lits);
    assert WellFormedNow(maxVar, Add(s, lits), occs', inactive);
  }
}
