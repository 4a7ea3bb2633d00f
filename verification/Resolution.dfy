/** Resolving two clauses at root level: what the collected literals are, why the
    resolvent and the strengthened clauses are implied, and when a pair of clauses
    no longer needs its pivot. */
module Resolution {
  import opened Literals
  import opened Cardinality
  import opened Extension
  import opened ClauseDatabase

  // ------------------------------------------------ collecting literals

  /** The literals other than p that are not falsified by units. */
  function KeptLits(lits: seq<int>, p: int, units: set<int>): seq<int> {
    if lits == [] then []
    else
      var l := lits[|lits| - 1];
      KeptLits(lits[..|lits| - 1], p, units) + if l != p && -l !in units then [l] else []
  }

  /** The kept literals that are not marked yet. */
  function Fresh(lits: seq<int>, p: int, units: set<int>, marks: set<int>): seq<int> {
    if lits == [] then []
    else
      var l := lits[|lits| - 1];
      Fresh(lits[..|lits| - 1], p, units, marks) + if l != p && -l !in units && l !in marks then [l] else []
  }

  predicate NoneTrue(lits: seq<int>, p: int, units: set<int>) { forall l :: l in lits && l != p ==> l !in units }

  ghost predicate DistinctLits(lits: seq<int>) { forall i, j :: 0 <= i < j < |lits| ==> lits[i] != lits[j] }

  lemma {:induction false} KeptAre(lits: seq<int>, p: int, units: set<int>)
    ensures forall l :: l in KeptLits(lits, p, units) <==> l in lits && l != p && -l !in units
    ensures DistinctLits(lits) ==> DistinctLits(KeptLits(lits, p, units))
  {
    if lits != [] {
      var n := |lits| - 1;
      KeptAre(lits[..n], p, units);
      assert lits == lits[..n] + [lits[n]];
      if DistinctLits(lits) {
        assert lits[n] !in lits[..n];
        AppendDistinctLit(KeptLits(lits[..n], p, units), lits[n]);
      }
    }
  }

  lemma AppendDistinctLit(lits: seq<int>, l: int)
    requires DistinctLits(lits)
    ensures l !in lits ==> DistinctLits(lits + [l])
  {
  }

  lemma {:induction false} FreshAre(lits: seq<int>, p: int, units: set<int>, marks: set<int>)
    ensures forall l :: l in Fresh(lits, p, units, marks) <==> l in lits && l != p && -l !in units && l !in marks
    ensures DistinctLits(lits) ==> DistinctLits(Fresh(lits, p, units, marks))
  {
    if lits != [] {
      var n := |lits| - 1;
      FreshAre(lits[..n], p, units, marks);
      assert lits == lits[..n] + [lits[n]];
      if DistinctLits(lits) {
        assert lits[n] !in lits[..n];
        AppendDistinctLit(Fresh(lits[..n], p, units, marks), lits[n]);
      }
    }
  }

  lemma {:induction false} LitCount(lits: seq<int>)
    requires DistinctLits(lits)
    ensures |LitSet(lits)| == |lits|
  {
    if lits != [] {
      var n := |lits| - 1;
      LitCount(lits[..n]);
      assert LitSet(lits) == LitSet(lits[..n]) + {lits[n]};
    }
  }

  // -------------------------------------------------------- the resolvent

  /** The literals collected from both antecedents. */
  function Resolvent(c: seq<int>, d: seq<int>, p: int, units: set<int>): seq<int> {
    KeptLits(c, p, units) + Fresh(d, -p, units, LitSet(KeptLits(c, p, units)))
  }

  lemma ResolventAre(c: seq<int>, d: seq<int>, p: int, units: set<int>, l: int)
    ensures l in Resolvent(c, d, p, units) <==> -l !in units && ((l in c && l != p) || (l in d && l != -p))
  {
    KeptAre(c, p, units);
    FreshAre(d, -p, units, LitSet(KeptLits(c, p, units)));
  }

  lemma ResolventDistinct(c: seq<int>, d: seq<int>, p: int, units: set<int>)
    requires DistinctLits(c) && DistinctLits(d)
    ensures DistinctLits(Resolvent(c, d, p, units))
  {
    var k := KeptLits(c, p, units);
    var f := Fresh(d, -p, units, LitSet(k));
    KeptAre(c, p, units);
    FreshAre(d, -p, units, LitSet(k));
    forall i, j | 0 <= i < j < |k + f| ensures (k + f)[i] != (k + f)[j] {
      if i < |k| <= j { assert k[i] in k && f[j - |k|] in f; }
    }
  }

  /** The size tests of self-subsumption: the resolvent has no more literals than
      the rest of an antecedent exactly when it consists of the same literals. */
  lemma SelfSubsuming(c: seq<int>, d: seq<int>, p: int, units: set<int>)
    requires DistinctLits(c) && DistinctLits(d)
    ensures var r, k, l := Resolvent(c, d, p, units), KeptLits(c, p, units), KeptLits(d, -p, units);
      && (|k| + 1 > |r| <==> LitSet(k) == LitSet(r)) && (|l| + 1 > |r| <==> LitSet(l) == LitSet(r))
  {
    var r, k, l := Resolvent(c, d, p, units), KeptLits(c, p, units), KeptLits(d, -p, units);
    KeptAre(c, p, units);
    KeptAre(d, -p, units);
    ResolventDistinct(c, d, p, units);
    LitCount(r);
    LitCount(k);
    LitCount(l);
    forall x ensures x in LitSet(r) <==> x in LitSet(k) || x in LitSet(l) { ResolventAre(c, d, p, units, x); }
    if |l| + 1 > |r| { SubsetSize(LitSet(l), LitSet(r)); }
    if |k| + 1 > |r| { SubsetSize(LitSet(k), LitSet(r)); }
  }

  lemma ImpliedBySet(s: State, a: seq<int>, b: seq<int>)
    requires Implied(s, a) && LitSet(a) <= LitSet(b)
    ensures Implied(s, b)
  {
    forall m | Sat(m, s) ensures SatClause(m, b) {
      var i :| 0 <= i < |a| && True(m, a[i]);
      assert a[i] in LitSet(a);
      var j :| 0 <= j < |b| && b[j] == a[i];
    }
  }

  /** The resolvent of two live clauses is implied. */
  lemma ResolventImplied(s: State, c: nat, d: nat, p: int)
    requires Live(s, c) && Live(s, d) && p != 0
    requires forall l :: l in s.clauses[c].lits || l in s.clauses[d].lits ==> l != 0
    ensures Implied(s, Resolvent(s.clauses[c].lits, s.clauses[d].lits, p, s.units))
  {
    var C, D := s.clauses[c].lits, s.clauses[d].lits;
    var r := Resolvent(C, D, p, s.units);
    forall m | Sat(m, s) ensures SatClause(m, r) {
      var i :| 0 <= i < |C| && True(m, C[i]);
      var j :| 0 <= j < |D| && True(m, D[j]);
      var l := if C[i] == p then D[j] else C[i];
      assert l in C || l in D;
      assert -l !in s.units;
      ResolventAre(C, D, p, s.units, l);
      var k :| 0 <= k < |r| && r[k] == l;
    }
  }

  // ---------------------------------------------- doing without the pivot

  /** The resolvent of the two clauses on the literal is tautological. */
  ghost predicate Clashes(c: seq<int>, d: seq<int>, lit: int) { exists l :: l in d && l != -lit && -l in c }

  lemma ClashSwap(c: seq<int>, d: seq<int>, lit: int)
    ensures Clashes(c, d, lit) <==> Clashes(d, c, -lit)
  {
    if Clashes(c, d, lit) {
      var l :| l in d && l != -lit && -l in c;
      assert -l in c && -l != lit && -(-l) in d;
    }
    if Clashes(d, c, -lit) {
      var l :| l in c && l != lit && -l in d;
      assert -l in d && -l != -lit && -(-l) in c;
    }
  }

  predicate Mentions(lits: seq<int>, v: nat) { exists i :: 0 <= i < |lits| && Abs(lits[i]) == v }

  ghost predicate SatBut(m: Model, lits: seq<int>, p: int) { exists i :: 0 <= i < |lits| && lits[i] != p && True(m, lits[i]) }

  /** The assignment satisfies everything that does not mention variable v. */
  ghost predicate SatAway(m: Model, s: State, v: nat) {
    && !s.unsat && (forall u :: u in s.units ==> True(m, u))
    && forall c: nat :: Live(s, c) && !Mentions(s.clauses[c].lits, v) ==> SatClause(m, s.clauses[c].lits)
  }

  /** Whatever satisfies the clauses without the pivot satisfies one of the two
      clauses without it. */
  ghost predicate Covered(s: State, c: seq<int>, d: seq<int>, p: int) {
    forall m {:trigger SatBut(m, c, p)} {:trigger SatBut(m, d, -p)} :: SatAway(m, s, Abs(p)) ==> SatBut(m, c, p) || SatBut(m, d, -p)
  }

  /** Clauses keep their literals, and garbage stays garbage. */
  ghost predicate Extends(s: State, t: State) {
    && |s.clauses| <= |t.clauses|
    && forall c: nat {:trigger t.clauses[c]} :: c < |s.clauses| ==>
         t.clauses[c].lits == s.clauses[c].lits && (s.clauses[c].garbage ==> t.clauses[c].garbage)
  }

  /** The changes during an elimination on v: clauses without v are only added,
      clauses with v only removed, and no unit on v appears. */
  ghost predicate Grows(s: State, t: State, v: nat) {
    && Extends(s, t) && s.units <= t.units && (s.unsat ==> t.unsat)
    && (forall u :: u in t.units && u !in s.units ==> Abs(u) != v)
    && (forall c: nat {:trigger t.clauses[c]} :: |s.clauses| <= c < |t.clauses| ==> !Mentions(t.clauses[c].lits, v))
    && (forall c: nat {:trigger t.clauses[c]} :: c < |s.clauses| && t.clauses[c].garbage && !s.clauses[c].garbage ==> Mentions(t.clauses[c].lits, v))
  }

  lemma ExtendsTrans(s: State, t: State, u: State)
    requires Extends(s, t) && Extends(t, u)
    ensures Extends(s, u)
  {
    forall c: nat | c < |s.clauses|
      ensures u.clauses[c].lits == s.clauses[c].lits && (s.clauses[c].garbage ==> u.clauses[c].garbage)
    {
      assert t.clauses[c].lits == s.clauses[c].lits;
    }
  }

  lemma GrowsTrans(s: State, t: State, u: State, v: nat)
    requires Grows(s, t, v) && Grows(t, u, v)
    ensures Grows(s, u, v)
  {
    ExtendsTrans(s, t, u);
    forall c: nat | |s.clauses| <= c < |u.clauses| ensures !Mentions(u.clauses[c].lits, v) {
      if c < |t.clauses| { assert t.clauses[c].lits == u.clauses[c].lits; }
    }
    forall c: nat | c < |s.clauses| && u.clauses[c].garbage && !s.clauses[c].garbage ensures Mentions(u.clauses[c].lits, v) {
      assert t.clauses[c].lits == s.clauses[c].lits && u.clauses[c].lits == t.clauses[c].lits;
    }
  }

  /** What was covered stays covered while the elimination goes on. */
  lemma CoveredStays(s: State, t: State, c: seq<int>, d: seq<int>, p: int)
    requires Covered(s, c, d, p) && Grows(s, t, Abs(p))
    ensures Covered(t, c, d, p)
  {
    forall m | SatAway(m, t, Abs(p)) ensures SatBut(m, c, p) || SatBut(m, d, -p) {
      assert SatAway(m, s, Abs(p)) by {
        forall e: nat | Live(s, e) && !Mentions(s.clauses[e].lits, Abs(p)) ensures SatClause(m, s.clauses[e].lits) {
          assert t.clauses[e].lits == s.clauses[e].lits;
          assert Live(t, e);
        }
      }
    }
  }

  lemma CoveredSwap(s: State, c: seq<int>, d: seq<int>, p: int)
    requires Covered(s, c, d, p)
    ensures Covered(s, d, c, -p)
  {
    forall m | SatAway(m, s, Abs(p)) ensures SatBut(m, d, -p) || SatBut(m, c, p) { }
  }

  lemma CoveredByUnit(s: State, c: seq<int>, d: seq<int>, p: int, u: int)
    requires u in s.units && ((u in c && u != p) || (u in d && u != -p))
    ensures Covered(s, c, d, p)
  {
    forall m | SatAway(m, s, Abs(p)) ensures SatBut(m, c, p) || SatBut(m, d, -p) {
      if u in c && u != p {
        var i :| 0 <= i < |c| && c[i] == u;
      } else {
        var i :| 0 <= i < |d| && d[i] == u;
      }
    }
  }

  lemma CoveredByTautology(s: State, c: seq<int>, d: seq<int>, p: int, l: int)
    requires l != 0 && l in d && l != -p && -l in c && -l != p
    ensures Covered(s, c, d, p)
  {
    forall m | SatAway(m, s, Abs(p)) ensures SatBut(m, c, p) || SatBut(m, d, -p) {
      if True(m, l) {
        var i :| 0 <= i < |d| && d[i] == l;
      } else {
        var i :| 0 <= i < |c| && c[i] == -l;
      }
    }
  }

  /** A live clause made of literals of the two, without the pivot, covers them. */
  lemma CoveredByClause(s: State, c: seq<int>, d: seq<int>, p: int, e: nat)
    requires Live(s, e) && !Mentions(s.clauses[e].lits, Abs(p))
    requires forall l :: l in s.clauses[e].lits ==> (l in c && l != p) || (l in d && l != -p)
    ensures Covered(s, c, d, p)
  {
    forall m | SatAway(m, s, Abs(p)) ensures SatBut(m, c, p) || SatBut(m, d, -p) {
      assert SatClause(m, s.clauses[e].lits);
      var k :| 0 <= k < |s.clauses[e].lits| && True(m, s.clauses[e].lits[k]);
      var l := s.clauses[e].lits[k];
      assert l in s.clauses[e].lits;
      if l in c && l != p {
        var i :| 0 <= i < |c| && c[i] == l;
      } else {
        var i :| 0 <= i < |d| && d[i] == l;
      }
    }
  }

  lemma CoveredByUnsat(s: State, c: seq<int>, d: seq<int>, p: int)
    requires s.unsat
    ensures Covered(s, c, d, p)
  {
  }

  // ------------------------------------------------- undoing elimination

  /** Entries that all flip the same literal of their clause. */
  ghost predicate AllOn(entries: seq<Entry>, p: int) {
    forall e :: 0 <= e < |entries| ==> entries[e].flips == [p] && p in entries[e].clause
  }

  /** The backward pass over such entries flips p if and only if some clause needs
      it, and satisfies all their clauses. */
  lemma {:induction false} FlipPhase(entries: seq<Entry>, p: int, m: Model)
    requires AllOn(entries, p) && p != 0
    ensures var r := Extended(entries, m);
      && (r == m || (r == Make(m, p) && exists e :: 0 <= e < |entries| && !SatClause(m, entries[e].clause)))
      && forall e :: 0 <= e < |entries| ==> SatClause(r, entries[e].clause)
    decreases |entries|
  {
    if entries != [] {
      var n := |entries| - 1;
      var last := entries[n];
      var m' := Repair(last, m);
      assert last.flips == [p] && last.flips[..0] == [];
      assert MakeAll(Make(m, p), last.flips[..0]) == Make(m, p);
      assert AllOn(entries[..n], p);
      FlipPhase(entries[..n], p, m');
      var r := Extended(entries, m);
      if m' != m {
        assert !SatClause(m, entries[n].clause);
        MakeIsTrue(m, p, p);
        MakeIsTrue(m', p, p);
      } else if r != m {
        var e :| 0 <= e < n && !SatClause(m, entries[..n][e].clause);
        assert !SatClause(m, entries[e].clause);
      }
      if r != m { HoldsIf(last.clause, p, r); }
      forall e | 0 <= e < |entries| ensures SatClause(r, entries[e].clause) {
        if e < n { assert entries[..n][e] == entries[e]; }
      }
    }
  }

  lemma HoldsIf(lits: seq<int>, p: int, m: Model)
    requires p in lits && True(m, p)
    ensures SatClause(m, lits)
  {
    var i :| 0 <= i < |lits| && lits[i] == p;
  }

  /** Assignments that agree except on variable v. */
  ghost predicate AgreeBut(m: Model, m': Model, v: nat) { forall x: nat :: x != v ==> (x in m <==> x in m') }

  lemma SatElsewhere(m: Model, m': Model, v: nat, lits: seq<int>)
    requires AgreeBut(m, m', v) && !Mentions(lits, v) && SatClause(m, lits)
    ensures SatClause(m', lits)
  {
    var i :| 0 <= i < |lits| && True(m, lits[i]);
    assert Abs(lits[i]) != v;
  }

  lemma SatButElsewhere(m: Model, m': Model, p: int, lits: seq<int>)
    requires AgreeBut(m, m', Abs(p)) && SatBut(m, lits, p) && -p !in lits
    ensures SatBut(m', lits, p) && SatClause(m', lits)
  {
    var i :| 0 <= i < |lits| && lits[i] != p && True(m, lits[i]);
    assert lits[i] in lits;
    assert Abs(lits[i]) != Abs(p);
  }

  ghost predicate HasClause(s: State, lits: seq<int>) { exists c: nat :: Live(s, c) && s.clauses[c].lits == lits }

  ghost predicate HasEntry(entries: seq<Entry>, lits: seq<int>) { exists e :: 0 <= e < |entries| && entries[e].clause == lits }

  /** The entries hold every live clause that mentions the pivot, first those with
      it, then those with its negation. */
  ghost predicate Saved(s: State, p: int, ps: seq<Entry>, ns: seq<Entry>) {
    && AllOn(ps, p) && AllOn(ns, -p)
    && (forall e :: 0 <= e < |ps| ==> HasClause(s, ps[e].clause))
    && (forall e :: 0 <= e < |ns| ==> HasClause(s, ns[e].clause))
    && (forall c: nat :: Live(s, c) && Mentions(s.clauses[c].lits, Abs(p)) ==>
          HasEntry(ps, s.clauses[c].lits) || HasEntry(ns, s.clauses[c].lits))
  }

  /** Every pair of live clauses on the pivot is covered. */
  ghost predicate AllCovered(s: State, p: int) {
    forall c: nat, d: nat :: Live(s, c) && Live(s, d) && p in s.clauses[c].lits && -p in s.clauses[d].lits ==>
      Covered(s, s.clauses[c].lits, s.clauses[d].lits, p)
  }

  /** No live clause has the pivot in both phases. */
  ghost predicate OnePhase(s: State, p: int) {
    forall c: nat :: Live(s, c) ==> !(p in s.clauses[c].lits && -p in s.clauses[c].lits)
  }

  /** The theorem behind variable elimination: a model of the clauses without the
      pivot, run backward over the saved clauses, satisfies all of them. */
  lemma EliminationReconstructs(s: State, p: int, ps: seq<Entry>, ns: seq<Entry>, m: Model)
    requires p != 0 && p !in s.units && -p !in s.units
    requires Saved(s, p, ps, ns) && AllCovered(s, p) && OnePhase(s, p) && SatAway(m, s, Abs(p))
    ensures Sat(Extended(ps + ns, m), s)
  {
    ExtendedConcat(ps, ns, m);
    var m1 := Extended(ns, m);
    var m2 := Extended(ps, m1);
    Phase(ns, -p, m);
    Phase(ps, p, m1);
    AgreeTrans(m, m1, m2, Abs(p));
    if m2 != m1 {
      var f: nat :| f < |ps| && !SatClause(m1, ps[f].clause);
      NegativesStay(s, p, ps, ns, f, m, m1, m2);
    }
    SatAll(s, p, ps, ns, m, m2);
  }

  lemma AgreeTrans(m: Model, m1: Model, m2: Model, v: nat)
    requires AgreeBut(m, m1, v) && AgreeBut(m1, m2, v)
    ensures AgreeBut(m, m2, v)
  {
  }

  lemma Phase(entries: seq<Entry>, p: int, m: Model)
    requires AllOn(entries, p) && p != 0
    ensures AgreeBut(m, Extended(entries, m), Abs(p)) && AllSat(Extended(entries, m), entries)
    ensures Extended(entries, m) != m ==> exists e: nat :: e < |entries| && !SatClause(m, entries[e].clause)
  {
    FlipPhase(entries, p, m);
  }

  ghost predicate AllSat(m: Model, entries: seq<Entry>) { forall e :: 0 <= e < |entries| ==> SatClause(m, entries[e].clause) }

  /** An assignment that differs in the pivot only and satisfies all saved clauses
      satisfies everything. */
  lemma SatAll(s: State, p: int, ps: seq<Entry>, ns: seq<Entry>, m: Model, m2: Model)
    requires p != 0 && p !in s.units && -p !in s.units && Saved(s, p, ps, ns) && SatAway(m, s, Abs(p))
    requires AgreeBut(m, m2, Abs(p)) && AllSat(m2, ps) && AllSat(m2, ns)
    ensures Sat(m2, s)
  {
    forall c: nat | Live(s, c) ensures SatClause(m2, s.clauses[c].lits) {
      if !Mentions(s.clauses[c].lits, Abs(p)) {
        SatElsewhere(m, m2, Abs(p), s.clauses[c].lits);
      }
    }
    forall u | u in s.units ensures True(m2, u) {
      assert Abs(u) == Abs(p) ==> u == p || u == -p;
    }
  }

  lemma NegativesStay(s: State, p: int, ps: seq<Entry>, ns: seq<Entry>, f: nat, m: Model, m1: Model, m2: Model)
    requires SatAway(m, s, Abs(p)) && AllCovered(s, p) && OnePhase(s, p) && p != 0 && Saved(s, p, ps, ns)
    requires AgreeBut(m, m1, Abs(p)) && AgreeBut(m, m2, Abs(p)) && f < |ps| && !SatClause(m1, ps[f].clause)
    ensures AllSat(m2, ns)
  {
    forall e | 0 <= e < |ns| ensures SatClause(m2, ns[e].clause) {
      assert ps[f].flips == [p] && ns[e].flips == [-p];
      NegativeStays(s, p, ps[f].clause, ns[e].clause, m, m1, m2);
    }
  }

  /** If a clause with p fails before the flip, its partner holds without -p. */
  lemma NegativeStays(s: State, p: int, c: seq<int>, d: seq<int>, m: Model, m1: Model, m2: Model)
    requires SatAway(m, s, Abs(p)) && AllCovered(s, p) && OnePhase(s, p) && p != 0
    requires p in c && -p in d && AgreeBut(m, m1, Abs(p)) && AgreeBut(m, m2, Abs(p)) && !SatClause(m1, c)
    requires HasClause(s, c) && HasClause(s, d)
    ensures SatClause(m2, d)
  {
    var i: nat :| Live(s, i) && s.clauses[i].lits == c;
    var j: nat :| Live(s, j) && s.clauses[j].lits == d;
    assert Covered(s, c, d, p);
    if SatBut(m, c, p) {
      SatButElsewhere(m, m1, p, c);
    }
    SatButElsewhere(m, m2, -p, d);
  }
}
