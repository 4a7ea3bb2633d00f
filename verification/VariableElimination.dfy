/** Gate-free elimination of a variable by clause resolution: resolving pairs with
    on-the-fly strengthening, adding the resolvents and saving the clauses. */
module VariableElimination {
  import opened Literals
  import opened Cardinality
  import opened Extension
  import opened ClauseDatabase
  import opened Resolution
  import opened Antecedents

  // ------------------------------------------------ what one pair leaves

  /** Two live clauses that clash on p only in one way. */
  ghost predicate Pair(s: State, c: nat, d: nat, p: int) {
    && !s.unsat && Live(s, c) && Live(s, d) && p != 0
    && p in s.clauses[c].lits && -p !in s.clauses[c].lits && -p in s.clauses[d].lits && p !in s.clauses[d].lits
    && DistinctLits(s.clauses[c].lits) && DistinctLits(s.clauses[d].lits)
    && (forall l :: l in s.clauses[c].lits || l in s.clauses[d].lits ==> l != 0)
  }

  /** Two live clauses, not satisfied by units, whose resolvent is no tautology. */
  ghost predicate Proper(s: State, c: int, d: int, p: int) {
    && c >= 0 && d >= 0 && Live(s, c) && Live(s, d)
    && NoneTrue(s.clauses[c].lits, p, s.units) && NoneTrue(s.clauses[d].lits, -p, s.units)
    && !Clashes(s.clauses[c].lits, s.clauses[d].lits, p)
  }

  lemma ProperSwap(s: State, c: int, d: int, p: int)
    ensures Proper(s, c, d, p) <==> Proper(s, d, c, -p)
  {
    if c >= 0 && d >= 0 && Live(s, c) && Live(s, d) { ClashSwap(s.clauses[c].lits, s.clauses[d].lits, p); }
  }

  /** The number of literals of the resolvent of two clauses. */
  ghost function ResolventSize(s: State, c: int, d: int, p: int): nat {
    if 0 <= c < |s.clauses| && 0 <= d < |s.clauses| then |LitSet(Resolvent(s.clauses[c].lits, s.clauses[d].lits, p, s.units))| else 0
  }

  /** The resolvent consists of the rest of one of its antecedents. */
  ghost predicate SubsumesOne(C: seq<int>, D: seq<int>, p: int, units: set<int>) {
    var r := LitSet(Resolvent(C, D, p, units));
    LitSet(KeptLits(C, p, units)) == r || LitSet(KeptLits(D, -p, units)) == r
  }

  /** Resolving the pair changes nothing: a clause is gone, or none is satisfied and the
      resolvent is tautological, or not empty, no unit and subsuming no antecedent. */
  ghost predicate Quiet(s: State, c: int, d: int, p: int) {
    c >= 0 && d >= 0 && Live(s, c) && Live(s, d) ==> QuietPair(s, s.clauses[c].lits, s.clauses[d].lits, p)
  }

  ghost predicate QuietPair(s: State, C: seq<int>, D: seq<int>, p: int) {
    && NoneTrue(C, p, s.units) && NoneTrue(D, -p, s.units)
    && (Clashes(C, D, p) || (|LitSet(Resolvent(C, D, p, s.units))| >= 2 && !SubsumesOne(C, D, p, s.units)))
  }

  lemma QuietSwap(s: State, c: int, d: int, p: int)
    ensures Quiet(s, c, d, p) <==> Quiet(s, d, c, -p)
  {
    if c >= 0 && d >= 0 && Live(s, c) && Live(s, d) {
      ClashSwap(s.clauses[c].lits, s.clauses[d].lits, p);
      ResolventSwap(s.clauses[c].lits, s.clauses[d].lits, p, s.units);
    }
  }

  /** The pair needs no resolvent any more. */
  ghost predicate PairDone(s: State, c: int, d: int, p: int) {
    c < 0 || d < 0 || !Live(s, c) || !Live(s, d) || Covered(s, s.clauses[c].lits, s.clauses[d].lits, p)
  }

  /** The step keeps the models, respects the elimination and finishes the pair. */
  ghost predicate Resolved(s: State, t: State, c: nat, d: nat, p: int) {
    Same(s, t) && Grows(s, t, Abs(p)) && PairDone(t, c, d, p)
  }

  lemma PairsAreWell(maxVar: nat, s: State, occs: Occs, inactive: set<nat>, c: nat, d: nat, p: int)
    requires WellFormed(maxVar, s, occs, inactive) && !s.unsat && Live(s, c) && Live(s, d) && p in s.clauses[c].lits && -p in s.clauses[d].lits
    ensures Pair(s, c, d, p)
  {
    var C, D := s.clauses[c].lits, s.clauses[d].lits;
    ClauseOf(maxVar, s, occs, inactive, c);
    ClauseOf(maxVar, s, occs, inactive, d);
    NoClash(C, p, -p);
    NoClash(D, -p, p);
  }

  lemma MentionsLit(lits: seq<int>, p: int)
    ensures p in lits || -p in lits ==> Mentions(lits, Abs(p))
  {
    if p in lits {
      var i :| 0 <= i < |lits| && lits[i] == p;
    } else if -p in lits {
      var i :| 0 <= i < |lits| && lits[i] == -p;
    }
  }

  lemma RemovedOne(s: State, c: nat, d: nat, p: int, g: nat)
    requires Pair(s, c, d, p) && (g == c || g == d) && Same(s, Garbage(s, g))
    ensures Resolved(s, Garbage(s, g), c, d, p)
  {
    MentionsLit(s.clauses[g].lits, p);
  }

  lemma SatisfiedAntecedent(s: State, c: nat, d: nat, p: int, g: nat, u: int)
    requires Pair(s, c, d, p) && (g == c || g == d) && u in s.clauses[g].lits && u in s.units
    ensures Resolved(s, Garbage(s, g), c, d, p)
  {
    GarbageSatisfied(s, g, u);
    RemovedOne(s, c, d, p, g);
  }

  lemma TautologicalPair(s: State, c: nat, d: nat, p: int, l: int)
    requires Pair(s, c, d, p) && l in s.clauses[d].lits && l != -p && -l in KeptLits(s.clauses[c].lits, p, s.units)
    ensures Resolved(s, s, c, d, p)
  {
    KeptAre(s.clauses[c].lits, p, s.units);
    CoveredByTautology(s, s.clauses[c].lits, s.clauses[d].lits, p, l);
  }

  lemma EmptyResolvent(s: State, c: nat, d: nat, p: int)
    requires Pair(s, c, d, p) && Resolvent(s.clauses[c].lits, s.clauses[d].lits, p, s.units) == []
    ensures Resolved(s, Learn(s), c, d, p)
  {
    ResolventImplied(s, c, d, p);
    LearnImplied(s);
    CoveredByUnsat(Learn(s), s.clauses[c].lits, s.clauses[d].lits, p);
  }

  lemma UnitResolvent(s: State, c: nat, d: nat, p: int, u: int)
    requires Pair(s, c, d, p) && Resolvent(s.clauses[c].lits, s.clauses[d].lits, p, s.units) == [u]
    ensures Resolved(s, Assign(s, u), c, d, p) && Abs(u) != Abs(p)
  {
    ResolventImplied(s, c, d, p);
    AssignImplied(s, u);
    UnitIsCollected(s.clauses[c].lits, s.clauses[d].lits, p, s.units, u);
    CoveredByUnit(Assign(s, u), s.clauses[c].lits, s.clauses[d].lits, p, u);
  }

  lemma UnitIsCollected(C: seq<int>, D: seq<int>, p: int, units: set<int>, u: int)
    requires Resolvent(C, D, p, units) == [u]
    ensures (u in C && u != p) || (u in D && u != -p)
  {
    assert u in [u];
    ResolventAre(C, D, p, units, u);
  }

  /** No literal of the pivot variable is collected. */
  lemma ResolventAvoids(s: State, c: nat, d: nat, p: int)
    requires Pair(s, c, d, p)
    ensures !Mentions(Resolvent(s.clauses[c].lits, s.clauses[d].lits, p, s.units), Abs(p))
    ensures !Mentions(KeptLits(s.clauses[c].lits, p, s.units), Abs(p))
    ensures !Mentions(KeptLits(s.clauses[d].lits, -p, s.units), Abs(p))
  {
    var C, D := s.clauses[c].lits, s.clauses[d].lits;
    var r := Resolvent(C, D, p, s.units);
    forall i | 0 <= i < |r| ensures Abs(r[i]) != Abs(p) {
      assert r[i] in r;
      ResolventAre(C, D, p, s.units, r[i]);
    }
    KeptAre(C, p, s.units);
    KeptAre(D, -p, s.units);
    var k, l := KeptLits(C, p, s.units), KeptLits(D, -p, s.units);
    forall i | 0 <= i < |k| ensures Abs(k[i]) != Abs(p) { assert k[i] in k; }
    forall i | 0 <= i < |l| ensures Abs(l[i]) != Abs(p) { assert l[i] in l; }
  }

  lemma AddGrows(s: State, lits: seq<int>, v: nat)
    requires !Mentions(lits, v)
    ensures Grows(s, Add(s, lits), v)
  {
  }

  lemma GarbageGrows(s: State, c: nat, v: nat)
    requires c < |s.clauses| && Mentions(s.clauses[c].lits, v)
    ensures Grows(s, Garbage(s, c), v)
  {
  }

  /** Adding the kept literals of one antecedent and removing it. */
  lemma Strengthened(s: State, c: nat, d: nat, p: int, g: nat, lits: seq<int>)
    requires Pair(s, c, d, p) && (g == c || g == d)
    requires lits == if g == c then KeptLits(s.clauses[c].lits, p, s.units) else KeptLits(s.clauses[d].lits, -p, s.units)
    requires Same(s, Garbage(Add(s, lits), g))
    ensures Resolved(s, Garbage(Add(s, lits), g), c, d, p)
  {
    ResolventAvoids(s, c, d, p);
    MentionsLit(s.clauses[g].lits, p);
    AddGrows(s, lits, Abs(p));
    GarbageGrows(Add(s, lits), g, Abs(p));
    GrowsTrans(s, Add(s, lits), Garbage(Add(s, lits), g), Abs(p));
  }

  /** After double self-subsumption the second antecedent goes as well. */
  lemma DoublySubsumed(s: State, c: nat, d: nat, p: int)
    requires Pair(s, c, d, p)
    requires var k := KeptLits(s.clauses[c].lits, p, s.units);
      LitSet(k) == LitSet(KeptLits(s.clauses[d].lits, -p, s.units)) && Resolved(s, Garbage(Add(s, k), c), c, d, p)
    ensures var t := Garbage(Add(s, KeptLits(s.clauses[c].lits, p, s.units)), c); Resolved(s, Garbage(t, d), c, d, p)
  {
    var k, l := KeptLits(s.clauses[c].lits, p, s.units), KeptLits(s.clauses[d].lits, -p, s.units);
    var t := Garbage(Add(s, k), c);
    KeptAre(s.clauses[d].lits, -p, s.units);
    assert t.clauses[|s.clauses|].lits == k;
    forall x | x in k ensures x in t.clauses[d].lits {
      assert x in LitSet(k);
      assert x in LitSet(l);
    }
    GarbageSubsumed(t, d, |s.clauses|);
    MentionsLit(t.clauses[d].lits, p);
    SameTrans(s, t, Garbage(t, d));
    GarbageGrows(t, d, Abs(p));
    GrowsTrans(s, t, Garbage(t, d), Abs(p));
  }

  /** A literal set that occurs in both antecedents' remains makes strengthening sound. */
  lemma KeptIsImplied(s: State, c: nat, d: nat, p: int, lits: seq<int>)
    requires Pair(s, c, d, p) && LitSet(lits) == LitSet(Resolvent(s.clauses[c].lits, s.clauses[d].lits, p, s.units))
    ensures Implied(s, lits)
  {
    ResolventImplied(s, c, d, p);
    ImpliedBySet(s, Resolvent(s.clauses[c].lits, s.clauses[d].lits, p, s.units), lits);
  }

  /** The resolvent may become a clause. */
  lemma ResolventUsable(maxVar: nat, s: State, occs: Occs, inactive: set<nat>, c: nat, d: nat, p: int)
    requires WellFormed(maxVar, s, occs, inactive) && Pair(s, c, d, p)
    requires NoneTrue(s.clauses[c].lits, p, s.units) && NoneTrue(s.clauses[d].lits, -p, s.units)
    requires NoClashing(KeptLits(s.clauses[d].lits, -p, s.units), LitSet(KeptLits(s.clauses[c].lits, p, s.units)))
    ensures Usable(maxVar, s.units, inactive, Resolvent(s.clauses[c].lits, s.clauses[d].lits, p, s.units))
  {
    var C, D := s.clauses[c].lits, s.clauses[d].lits;
    var k, l, r := KeptLits(C, p, s.units), KeptLits(D, -p, s.units), Resolvent(C, D, p, s.units);
    KeptUsable(maxVar, s, occs, inactive, c, p);
    KeptUsable(maxVar, s, occs, inactive, d, -p);
    ResolventDistinct(C, D, p, s.units);
    KeptAre(C, p, s.units);
    KeptAre(D, -p, s.units);
    forall i | 0 <= i < |r| ensures r[i] in k || r[i] in l {
      assert r[i] in r;
      ResolventAre(C, D, p, s.units, r[i]);
    }
    forall i | 0 <= i < |r| ensures IsActive(s.units, inactive, r[i]) {
      assert r[i] in k || r[i] in l;
    }
    UnionIsWell(maxVar, k, l, r);
  }

  lemma UnionIsWell(maxVar: nat, k: seq<int>, l: seq<int>, r: seq<int>)
    requires WellClause(maxVar, k) && WellClause(maxVar, l) && NoClashing(l, LitSet(k)) && DistinctLits(r)
    requires forall i :: 0 <= i < |r| ==> r[i] in k || r[i] in l
    ensures WellClause(maxVar, r)
  {
    forall i, j | 0 <= i < j < |r| ensures r[i] != -r[j] && IsLit(maxVar, r[j]) && IsLit(maxVar, r[i]) {
      assert r[i] in k || r[i] in l;
      assert r[j] in k || r[j] in l;
      NoUnionClash(k, l, r[i], r[j]);
    }
    forall i | 0 <= i < |r| ensures IsLit(maxVar, r[i]) { assert r[i] in k || r[i] in l; }
  }

  lemma NoUnionClash(k: seq<int>, l: seq<int>, a: int, b: int)
    requires forall i, j :: 0 <= i < j < |k| ==> k[i] != k[j] && k[i] != -k[j]
    requires forall i, j :: 0 <= i < j < |l| ==> l[i] != l[j] && l[i] != -l[j]
    requires NoClashing(l, LitSet(k)) && (a in k || a in l) && (b in k || b in l) && a != 0
    ensures a != -b
  {
    if a in k && b in k {
      NoClash(k, a, b);
    } else if a in l && b in l {
      NoClash(l, a, b);
    } else if a in l {
      assert -a !in LitSet(k);
    } else {
      assert -b !in LitSet(k);
    }
  }

  // --------------------------------------------------------- propagation

  datatype Scan = Satisfied(lit: int) | Falsified | Unit(unit: int) | Open

  ghost predicate ScanOk(lits: seq<int>, units: set<int>, r: Scan) {
    match r
    case Satisfied(l) => l in lits && l in units
    case Falsified => forall l :: l in lits ==> -l in units
    case Unit(u) => u in lits && u !in units && -u !in units && forall l :: l in lits && l != u ==> -l in units
    case Open => TwoNotFalse(lits, units)
  }

  ghost predicate TwoNotFalse(lits: seq<int>, units: set<int>) {
    exists i, j :: 0 <= i < j < |lits| && -lits[i] !in units && -lits[j] !in units
  }

  lemma OneMoreScanned(lits: seq<int>, i: nat, units: set<int>, r: Scan)
    requires i < |lits| && ScanOk(lits[..i], units, r) && !r.Satisfied?
    requires -lits[i] !in units && lits[i] !in units
    ensures ScanOk(lits[..i + 1], units, if r == Falsified then Unit(lits[i]) else Open)
  {
    assert lits[..i + 1] == lits[..i] + [lits[i]];
    match r
    case Unit(u) =>
      var k :| 0 <= k < i && lits[..i][k] == u;
      assert -lits[..i + 1][k] !in units && -lits[..i + 1][i] !in units;
    case Open =>
      var a, b :| 0 <= a < b < i && -lits[..i][a] !in units && -lits[..i][b] !in units;
      assert -lits[..i + 1][a] !in units && -lits[..i + 1][b] !in units;
    case Falsified =>
  }

  lemma OneFalseScanned(lits: seq<int>, i: nat, units: set<int>, r: Scan)
    requires i < |lits| && ScanOk(lits[..i], units, r) && !r.Satisfied? && -lits[i] in units
    ensures ScanOk(lits[..i + 1], units, r)
  {
    assert lits[..i + 1] == lits[..i] + [lits[i]];
    if r.Open? {
      var a, b :| 0 <= a < b < i && -lits[..i][a] !in units && -lits[..i][b] !in units;
      assert -lits[..i + 1][a] !in units && -lits[..i + 1][b] !in units;
    }
  }

  /** Looks for a true literal, and for the only literal that is not false. */
  method ScanClause(s: Solver, c: nat) returns (r: Scan)
    requires c < |s.clauses|
    ensures ScanOk(s.clauses[c].lits, s.units, r)
  {
    var lits := s.clauses[c].lits;
    r := Falsified;
    for i := 0 to |lits|
      invariant !r.Satisfied? && ScanOk(lits[..i], s.units, r)
    {
      var other := lits[i];
      assert lits[..i + 1] == lits[..i] + [other];
      if -other in s.units && other !in s.units {
        OneFalseScanned(lits, i, s.units, r);
        continue;
      }
      if other in s.units { return Satisfied(other); }
      OneMoreScanned(lits, i, s.units, r);
      r := if r == Falsified then Unit(other) else Open;
    }
    assert lits[..|lits|] == lits;
  }

  lemma FalsifiedClause(s: State, c: nat)
    requires Live(s, c) && forall l :: l in s.clauses[c].lits ==> -l in s.units && l != 0
    ensures Implied(s, [])
  {
    var lits := s.clauses[c].lits;
    forall m ensures !Sat(m, s) {
      assert forall i :: 0 <= i < |lits| ==> lits[i] in lits;
      assert Sat(m, s) ==> SatClause(m, lits);
    }
  }

  lemma UnitClause(s: State, c: nat, u: int)
    requires Live(s, c) && forall l :: l in s.clauses[c].lits ==> l != 0 && (l == u || -l in s.units)
    ensures Implied(s, [u])
  {
    forall m | Sat(m, s) ensures SatClause(m, [u]) {
      var i :| 0 <= i < |s.clauses[c].lits| && True(m, s.clauses[c].lits[i]);
      var l := s.clauses[c].lits[i];
      assert l in s.clauses[c].lits;
      assert l == u || True(m, -l);
      assert True(m, [u][0]);
    }
  }

  /** A change that keeps the models and the literals of all clauses. */
  ghost predicate Step(s: State, t: State) { Same(s, t) && Extends(s, t) && s.units <= t.units && (s.unsat ==> t.unsat) }

  lemma StepTrans(s: State, t: State, u: State)
    requires Step(s, t) && Step(t, u)
    ensures Step(s, u)
  {
    SameTrans(s, t, u);
    ExtendsTrans(s, t, u);
  }

  /** The clause is gone, has a true literal, or two that are not false. */
  ghost predicate AtRest(s: State, c: int, units: set<int>) {
    0 <= c < |s.clauses| && !s.clauses[c].garbage ==> (exists l :: l in s.clauses[c].lits && l in s.units) || TwoNotFalse(s.clauses[c].lits, units)
  }

  /** All live clauses with the literal are listed. */
  ghost predicate AllListed(s: State, occs: Occs, l: int) { forall c: nat :: Live(s, c) && l in s.clauses[c].lits ==> c in At(occs, l) }

  /** The unit is propagated, up to units that are not done: the clauses with it are gone,
      and those with its negation at rest. */
  ghost predicate Propagated(s: State, occs: Occs, u: int, done: set<int>) {
    && (forall c: nat :: c in At(occs, u) ==> !Live(s, c))
    && forall c :: c in At(occs, -u) ==> AtRest(s, c, done)
  }

  /** A later state of propagation: no clause is added or changed. */
  ghost predicate Narrows(s: State, t: State) {
    && |t.clauses| == |s.clauses| && s.units <= t.units
    && forall c :: 0 <= c < |s.clauses| ==> t.clauses[c].lits == s.clauses[c].lits && (s.clauses[c].garbage ==> t.clauses[c].garbage)
  }

  lemma RestStays(s: State, t: State, c: int, units: set<int>)
    requires AtRest(s, c, units) && Narrows(s, t)
    ensures AtRest(t, c, units)
  {
  }

  /** One more unit is done: a clause that has its negation is in the list that was scanned. */
  lemma RestDone(s: State, t: State, occs: Occs, c: int, done: set<int>, u: int)
    requires AtRest(s, c, done) && Narrows(s, t) && AllListed(s, occs, -u)
    requires forall d :: d in At(occs, -u) ==> AtRest(t, d, done + {u})
    ensures AtRest(t, c, done + {u})
  {
    if 0 <= c < |t.clauses| && !t.clauses[c].garbage && TwoNotFalse(s.clauses[c].lits, done) {
      if -u in s.clauses[c].lits {
        assert Live(s, c) && c in At(occs, -u);
      } else {
        var i, j :| 0 <= i < j < |s.clauses[c].lits| && -s.clauses[c].lits[i] !in done && -s.clauses[c].lits[j] !in done;
        assert s.clauses[c].lits[i] in s.clauses[c].lits && s.clauses[c].lits[j] in s.clauses[c].lits;
        assert -t.clauses[c].lits[i] !in done + {u} && -t.clauses[c].lits[j] !in done + {u};
      }
    }
  }

  lemma FewerFalse(lits: seq<int>, units: set<int>, fewer: set<int>)
    requires fewer <= units
    ensures TwoNotFalse(lits, units) ==> TwoNotFalse(lits, fewer)
  {
  }

  lemma PropagatedMore(s: State, t: State, occs: Occs, v: int, done: set<int>, u: int)
    requires Propagated(s, occs, v, done) && Narrows(s, t) && AllListed(s, occs, -u)
    requires forall d :: d in At(occs, -u) ==> AtRest(t, d, done + {u})
    ensures Propagated(t, occs, v, done + {u})
  {
    forall c | c in At(occs, -v) ensures AtRest(t, c, done + {u}) { RestDone(s, t, occs, c, done, u); }
  }

  lemma PropagatedStays(s: State, t: State, occs: Occs, u: int, done: set<int>)
    requires Propagated(s, occs, u, done) && Narrows(s, t)
    ensures Propagated(t, occs, u, done)
  {
    forall c | c in At(occs, -u) ensures AtRest(t, c, done) { RestStays(s, t, c, done); }
  }

  lemma ListedStays(s: State, t: State, occs: Occs, l: int)
    requires AllListed(s, occs, l) && Narrows(s, t)
    ensures AllListed(t, occs, l)
  {
    forall c: nat | Live(t, c) && l in t.clauses[c].lits ensures c in At(occs, l) { assert Live(s, c); }
  }

  lemma NarrowsTrans(s: State, t: State, u: State)
    requires Narrows(s, t) && Narrows(t, u)
    ensures Narrows(s, u)
  {
    forall c: nat | c < |s.clauses| ensures u.clauses[c].lits == s.clauses[c].lits && (s.clauses[c].garbage ==> u.clauses[c].garbage) {
      assert t.clauses[c].lits == s.clauses[c].lits;
    }
  }

  lemma ActiveIsListed(maxVar: nat, s: State, occs: Occs, inactive: set<nat>, l: int)
    requires WellFormed(maxVar, s, occs, inactive) && IsActive(s.units, inactive, l)
    ensures AllListed(s, occs, l) && AllListed(s, occs, -l)
  {
    forall c: nat | Live(s, c) && l in s.clauses[c].lits ensures c in At(occs, l) { IsConnected(maxVar, s, occs, inactive, l, c); }
    forall c: nat | Live(s, c) && -l in s.clauses[c].lits ensures c in At(occs, -l) { IsConnected(maxVar, s, occs, inactive, -l, c); }
  }

  /** The new work: units whose negations are all listed. */
  ghost predicate WorkOk(s: State, occs: Occs, work: seq<int>, i: nat) {
    forall k :: i <= k < |work| ==> work[k] in s.units && AllListed(s, occs, -work[k])
  }

  lemma WorkStays(s: State, t: State, occs: Occs, work: seq<int>, i: nat)
    requires WorkOk(s, occs, work, i) && Narrows(s, t)
    ensures WorkOk(t, occs, work, i)
  {
    forall k | i <= k < |work| ensures AllListed(t, occs, -work[k]) { ListedStays(s, t, occs, -work[k]); }
  }

  /** Handles one clause with a literal that has become false. */
  method PropagateClause(s: Solver, c: nat, work: seq<int>) returns (work': seq<int>)
    requires s.Valid() && !s.unsat && Live(s.Now(), c)
    modifies s`clauses, s`units, s`unsat
    ensures s.Valid() && Step(old(s.Now()), s.Now())
    ensures work <= work' && |work'| - |work| == |s.units| - |old(s.units)|
    ensures Narrows(old(s.Now()), s.Now()) && WorkOk(s.Now(), s.occs, work', |work|)
    ensures forall u :: u in s.units && u !in old(s.units) ==> u in work'
    ensures !s.unsat ==> AtRest(s.Now(), c, old(s.units))
  {
    work' := work;
    ClauseOf(s.maxVar, s.Now(), s.occs, s.inactive, c);
    ghost var before := s.Now();
    var lits := s.clauses[c].lits;
    assert forall l :: l in lits ==> IsLit(s.maxVar, l);
    var r := ScanClause(s, c);
    match r {
      case Satisfied(l) =>
        GarbageSatisfied(before, c, l);
        s.MarkGarbage(c);
      case Falsified =>
        FalsifiedClause(before, c);
        LearnImplied(before);
        s.LearnEmptyClause();
      case Unit(u) =>
        UnitClause(before, c, u);
        AssignImplied(before, u);
        ActiveInLive(s.maxVar, before, s.occs, s.inactive, c, u);
        ActiveIsListed(s.maxVar, before, s.occs, s.inactive, u);
        s.AssignUnit(u);
        ListedStays(before, s.Now(), s.occs, -u);
        work' := work + [u];
      case Open =>
    }
  }

  lemma ActiveInLive(maxVar: nat, s: State, occs: Occs, inactive: set<nat>, c: nat, l: int)
    requires WellFormed(maxVar, s, occs, inactive) && !s.unsat && Live(s, c) && l in s.clauses[c].lits
    ensures Abs(l) !in inactive
  {
    assert Unfold(0);
  }

  /** The clauses in which the literal's negation occurs. */
  method PropagateNegative(s: Solver, lit: int, work: seq<int>) returns (work': seq<int>)
    requires s.Valid() && !s.unsat && IsLit(s.maxVar, lit)
    modifies s`clauses, s`units, s`unsat
    ensures s.Valid() && Step(old(s.Now()), s.Now())
    ensures work <= work' && |work'| - |work| == |s.units| - |old(s.units)|
    ensures Narrows(old(s.Now()), s.Now()) && WorkOk(s.Now(), s.occs, work', |work|)
    ensures forall u :: u in s.units && u !in old(s.units) ==> u in work'
    ensures !s.unsat ==> forall c :: c in At(s.occs, -lit) ==> AtRest(s.Now(), c, old(s.units))
  {
    work' := work;
    ghost var before := s.Now();
    OccsOf(s.maxVar, before, s.occs, s.inactive, -lit);
    var ns := s.occs[-lit];
    for i := 0 to |ns|
      invariant s.Valid() && !s.unsat && Step(before, s.Now())
      invariant work <= work' && |work'| - |work| == |s.units| - |old(s.units)|
      invariant Narrows(before, s.Now()) && WorkOk(s.Now(), s.occs, work', |work|)
      invariant forall u :: u in s.units && u !in before.units ==> u in work'
      invariant forall k :: 0 <= k < i ==> AtRest(s.Now(), ns[k], before.units)
    {
      var c := ns[i];
      if s.clauses[c].garbage { continue; }
      ghost var now, sofar := s.Now(), work';
      work' := PropagateClause(s, c, work');
      AfterClause(before, now, s.Now(), s.occs, ns, i, sofar, work', |work|);
      if s.unsat { return; }
    }
  }

  /** What handling one more clause of a list keeps. */
  lemma AfterClause(before: State, now: State, t: State, occs: Occs, ns: seq<int>, i: nat, sofar: seq<int>, work: seq<int>, n: nat)
    requires Step(before, now) && Step(now, t) && Narrows(before, now) && Narrows(now, t) && i < |ns| && n <= |sofar| && sofar <= work
    requires WorkOk(now, occs, sofar, n) && WorkOk(t, occs, work, |sofar|)
    requires forall k :: 0 <= k < i ==> AtRest(now, ns[k], before.units)
    ensures Step(before, t) && Narrows(before, t) && WorkOk(t, occs, work, n)
    ensures forall k :: 0 <= k < i ==> AtRest(t, ns[k], before.units)
    ensures AtRest(t, ns[i], now.units) ==> AtRest(t, ns[i], before.units)
  {
    StepTrans(before, now, t);
    NarrowsTrans(before, now, t);
    WorkStays(now, t, occs, sofar, n);
    forall k | 0 <= k < i ensures AtRest(t, ns[k], before.units) { RestStays(now, t, ns[k], before.units); }
    if 0 <= ns[i] < |t.clauses| { FewerFalse(t.clauses[ns[i]].lits, now.units, before.units); }
  }

  /** The clauses that the literal satisfies. */
  method MarkSatisfied(s: Solver, lit: int)
    requires s.Valid() && IsLit(s.maxVar, lit) && lit in s.units
    modifies s`clauses
    ensures s.unsat == old(s.unsat) && s.Valid() && Step(old(s.Now()), s.Now())
    ensures Narrows(old(s.Now()), s.Now()) && forall c: nat :: c in At(s.occs, lit) ==> !Live(s.Now(), c)
  {
    ghost var before := s.Now();
    OccsOf(s.maxVar, before, s.occs, s.inactive, lit);
    var ps := s.occs[lit];
    for i := 0 to |ps|
      invariant s.Valid() && Step(before, s.Now()) && Narrows(before, s.Now())
      invariant forall k :: 0 <= k < i ==> s.clauses[ps[k]].garbage
    {
      var c := ps[i];
      if s.clauses[c].garbage { continue; }
      ghost var now := s.Now();
      GarbageSatisfied(now, c, lit);
      s.MarkGarbage(c);
      StepTrans(before, now, s.Now());
    }
  }

  lemma UnitCount(maxVar: nat, s: State, occs: Occs, inactive: set<nat>)
    requires WellFormed(maxVar, s, occs, inactive)
    ensures |s.units| <= 2 * maxVar
  {
    UnitsOf(maxVar, s, occs, inactive);
    AllLitsCount(maxVar);
    SubsetSize(s.units, AllLits(maxVar));
  }

  /** The state of propagation: the first i literals of the work are propagated, up to what
      is still to be done. Kept folded. */
  ghost predicate Working(s: State, occs: Occs, units0: set<int>, work: seq<int>, i: nat, done: set<int>) {
    forall n {:trigger Unfold(n)} :: Unfold(n) ==>
      && i <= |work| && WorkOk(s, occs, work, i) && (forall k :: 0 <= k < |work| ==> work[k] in s.units)
      && (forall k :: 0 <= k < i ==> Propagated(s, occs, work[k], done))
      && (forall u :: u in s.units ==> u in done || u in work[i..]) && (forall u :: u in s.units ==> u in units0 || u in work)
  }

  lemma WorkingStart(s: State, occs: Occs, root: int)
    requires root in s.units && AllListed(s, occs, -root)
    ensures Working(s, occs, s.units, [root], 0, s.units - {root})
  {
    assert [root][0] == root && [root][0..] == [root];
  }

  lemma WorkingStep(s: State, t: State, u: State, occs: Occs, units0: set<int>, work: seq<int>, work': seq<int>, i: nat, done: set<int>)
    requires Working(s, occs, units0, work, i, done) && i < |work| && work <= work' && Narrows(s, t) && Narrows(t, u) && u.units == t.units
    requires done <= s.units && work[i] in s.units && WorkOk(t, occs, work', |work|) && forall k :: 0 <= k < |work'| ==> work'[k] in u.units
    requires forall v :: v in t.units && v !in s.units ==> v in work'
    requires forall c :: c in At(occs, -work[i]) ==> AtRest(t, c, s.units)
    requires forall c: nat :: c in At(occs, work[i]) ==> !Live(u, c)
    ensures Working(u, occs, units0, work', i + 1, done + {work[i]})
  {
    assert Unfold(0);
    var lit, more := work[i], done + {work[i]};
    forall c | c in At(occs, -lit) ensures AtRest(t, c, more) {
      assert AtRest(t, c, s.units) && more <= s.units;
      if 0 <= c < |t.clauses| { FewerFalse(t.clauses[c].lits, s.units, more); }
    }
    forall k | 0 <= k < i + 1 ensures Propagated(u, occs, work'[k], more) {
      if k < i {
        PropagatedMore(s, t, occs, work[k], done, lit);
        PropagatedStays(t, u, occs, work[k], more);
      } else {
        forall c | c in At(occs, -lit) ensures AtRest(u, c, more) { RestStays(t, u, c, more); }
      }
    }
    NarrowsTrans(s, t, u);
    WorkStays(s, u, occs, work, i);
    WorkStays(t, u, occs, work', |work|);
    MoreWork(s, u, units0, work, work', i, done);
  }

  lemma MoreWork(s: State, u: State, units0: set<int>, work: seq<int>, work': seq<int>, i: nat, done: set<int>)
    requires i < |work| && work <= work' && forall v :: v in u.units && v !in s.units ==> v in work'
    requires (forall v :: v in s.units ==> v in done || v in work[i..]) && (forall v :: v in s.units ==> v in units0 || v in work)
    requires forall k :: 0 <= k < |work| ==> work[k] in s.units
    ensures forall v :: v in u.units ==> v in units0 || v in work'
    ensures forall v :: v in u.units ==> v in done + {work[i]} || v in work'[i + 1..]
  {
    assert work' == work'[..i] + [work'[i]] + work'[i + 1..];
    forall v | v in u.units ensures v in done + {work[i]} || v in work'[i + 1..] {
      if v in s.units && v !in done {
        var k :| i <= k < |work| && work[k] == v;
        if k > i { assert work'[i + 1..][k - i - 1] == v; }
      } else if v !in s.units {
        var more := work'[|work|..];
        assert v !in work && work' == work + more;
        var k :| 0 <= k < |more| && more[k] == v;
        assert work'[i + 1..][|work| + k - i - 1] == v;
      }
    }
  }

  lemma WorkingEnd(s: State, occs: Occs, units0: set<int>, work: seq<int>, done: set<int>)
    requires Working(s, occs, units0, work, |work|, done) && done <= s.units
    ensures forall k :: 0 <= k < |work| ==> Propagated(s, occs, work[k], s.units)
    ensures forall u :: u in s.units && u !in units0 ==> Propagated(s, occs, u, s.units)
  {
    assert Unfold(0);
    forall u ensures u in s.units <==> u in done { assert work[|work|..] == []; }
    assert s.units == done;
  }

  /** Propagates a new unit over the occurrence lists. Unless the empty clause is found, in
      the end every new unit is propagated: no clause with it is left, and none with its
      negation is false or unit. */
  method ElimPropagate(s: Solver, root: int)
    requires s.Valid() && !s.unsat && root in s.units && AllListed(s.Now(), s.occs, -root)
    modifies s`clauses, s`units, s`unsat
    ensures s.Valid() && Step(old(s.Now()), s.Now())
    ensures !s.unsat ==> Propagated(s.Now(), s.occs, root, s.units)
    ensures !s.unsat ==> forall u :: u in s.units && u !in old(s.units) ==> Propagated(s.Now(), s.occs, u, s.units)
  {
    var work := [root];
    var i: nat := 0;
    ghost var before, done := s.Now(), s.units - {root};
    WorkingStart(before, s.occs, root);
    while i < |work|
      invariant s.Valid() && !s.unsat && Step(before, s.Now()) && done <= s.units
      invariant i <= |work| && work != [] && work[0] == root && forall k :: 0 <= k < |work| ==> work[k] in s.units
      invariant Working(s.Now(), s.occs, before.units, work, i, done)
      decreases 2 * s.maxVar - |s.units|, |work| - i
    {
      var lit := work[i];
      ghost var now, sofar := s.Now(), work;
      UnitsOf(s.maxVar, now, s.occs, s.inactive);
      work := PropagateNegative(s, lit, work);
      UnitCount(s.maxVar, s.Now(), s.occs, s.inactive);
      StepTrans(before, now, s.Now());
      if s.unsat { return; }
      ghost var next := s.Now();
      MarkSatisfied(s, lit);
      StepTrans(before, next, s.Now());
      WorkingStep(now, next, s.Now(), s.occs, before.units, sofar, work, i, done);
      done := done + {lit};
      i := i + 1;
    }
    WorkingEnd(s.Now(), s.occs, before.units, work, done);
  }

  // ------------------------------------------------------- resolving a pair

  /** A resolvent that has to be taken into account. */
  ghost predicate Useful(maxVar: nat, s: State, inactive: set<nat>, lits: seq<int>, c: nat, d: nat, p: int) {
    && Usable(maxVar, s.units, inactive, lits) && |lits| >= 2
    && Live(s, c) && Live(s, d) && lits == Resolvent(s.clauses[c].lits, s.clauses[d].lits, p, s.units)
  }

  lemma PairSwap(s: State, c: nat, d: nat, p: int)
    requires Pair(s, c, d, p)
    ensures Pair(s, d, c, -p)
  {
  }

  lemma ResolvedSwap(s: State, t: State, c: nat, d: nat, p: int)
    requires Resolved(s, t, c, d, p)
    ensures Resolved(s, t, d, c, -p)
  {
    if Live(t, c) && Live(t, d) { CoveredSwap(t, t.clauses[c].lits, t.clauses[d].lits, p); }
  }

  /** Adding a useful resolvent finishes the pair. */
  lemma ResolventAdded(maxVar: nat, s: State, inactive: set<nat>, lits: seq<int>, c: nat, d: nat, p: int)
    requires Pair(s, c, d, p) && Useful(maxVar, s, inactive, lits, c, d, p)
    ensures Resolved(s, Add(s, lits), c, d, p)
  {
    var t := Add(s, lits);
    ResolventImplied(s, c, d, p);
    AddImplied(s, lits);
    ResolventAvoids(s, c, d, p);
    AddGrows(s, lits, Abs(p));
    var C, D := s.clauses[c].lits, s.clauses[d].lits;
    forall l | l in lits ensures (l in C && l != p) || (l in D && l != -p) { ResolventAre(C, D, p, s.units, l); }
    assert t.clauses[|s.clauses|].lits == lits;
    CoveredByClause(t, C, D, p, |s.clauses|);
  }

  /** The lists of the pivot do not change. */
  ghost predicate SamePivotLists(occs: Occs, occs': Occs, p: int) {
    At(occs', p) == At(occs, p) && At(occs', -p) == At(occs, -p)
  }

  lemma LinkedElsewhere(occs: Occs, occs': Occs, lits: seq<int>, r: nat, p: int)
    requires Linked(occs, occs', lits, r) && !Mentions(lits, Abs(p))
    ensures SamePivotLists(occs, occs', p)
  {
    MentionsLit(lits, p);
  }

  /** Strengthens an antecedent whose other literals form the resolvent. */
  method StrengthenFirst(s: Solver, c: nat, p: int, ghost d: nat)
    requires s.Valid() && s.clause == [] && Pair(s.Now(), c, d, p) && NoneTrue(s.clauses[c].lits, p, s.units)
    requires LitSet(KeptLits(s.clauses[c].lits, p, s.units)) == LitSet(Resolvent(s.clauses[c].lits, s.clauses[d].lits, p, s.units))
    modifies s`clauses, s`occs, s`clause
    ensures s.Valid() && s.clause == [] && SamePivotLists(old(s.occs), s.occs, p)
    ensures s.Now() == Garbage(Add(old(s.Now()), KeptLits(old(s.clauses[c].lits), p, s.units)), c)
    ensures Resolved(old(s.Now()), s.Now(), c, d, p)
  {
    ghost var before, occs := s.Now(), s.occs;
    ghost var k := KeptLits(s.clauses[c].lits, p, s.units);
    ResolventAvoids(before, c, d, p);
    KeptIsImplied(before, c, d, p, k);
    OnTheFlySelfSubsumption(s, c, p);
    Strengthened(before, c, d, p, c, k);
    LinkedElsewhere(occs, s.occs, k, |before.clauses|, p);
  }

  lemma ResolventSwap(c: seq<int>, d: seq<int>, p: int, units: set<int>)
    ensures LitSet(Resolvent(c, d, p, units)) == LitSet(Resolvent(d, c, -p, units))
  {
    forall l ensures l in LitSet(Resolvent(c, d, p, units)) <==> l in LitSet(Resolvent(d, c, -p, units)) {
      ResolventAre(c, d, p, units, l);
      ResolventAre(d, c, -p, units, l);
    }
  }

  lemma SizeSwap(s: State, c: int, d: int, p: int)
    ensures ResolventSize(s, c, d, p) == ResolventSize(s, d, c, -p)
  {
    if 0 <= c < |s.clauses| && 0 <= d < |s.clauses| { ResolventSwap(s.clauses[c].lits, s.clauses[d].lits, p, s.units); }
  }

  /** The collected literals are distinct, so there are as many as the resolvent has. */
  lemma SizeIsLength(s: State, c: nat, d: nat, p: int)
    requires Pair(s, c, d, p)
    ensures ResolventSize(s, c, d, p) == |Resolvent(s.clauses[c].lits, s.clauses[d].lits, p, s.units)|
  {
    ResolventDistinct(s.clauses[c].lits, s.clauses[d].lits, p, s.units);
    LitCount(Resolvent(s.clauses[c].lits, s.clauses[d].lits, p, s.units));
  }

  /** A later state has fewer proper resolvents, and smaller ones. */
  lemma ProperShrinks(s: State, t: State, c: int, d: int, p: int)
    requires Extends(s, t) && s.units <= t.units && 0 <= c < |s.clauses| && 0 <= d < |s.clauses|
    ensures Proper(t, c, d, p) ==> Proper(s, c, d, p)
    ensures ResolventSize(t, c, d, p) <= ResolventSize(s, c, d, p)
  {
    assert t.clauses[c].lits == s.clauses[c].lits && t.clauses[d].lits == s.clauses[d].lits;
    var r, r' := Resolvent(s.clauses[c].lits, s.clauses[d].lits, p, s.units), Resolvent(s.clauses[c].lits, s.clauses[d].lits, p, t.units);
    forall l | l in LitSet(r') ensures l in LitSet(r) {
      ResolventAre(s.clauses[c].lits, s.clauses[d].lits, p, s.units, l);
      ResolventAre(s.clauses[c].lits, s.clauses[d].lits, p, t.units, l);
    }
    SubsetSize(LitSet(r'), LitSet(r));
  }

  /** A unit resolvent satisfies an antecedent from then on. */
  lemma UnitIsNotProper(s: State, t: State, c: nat, d: nat, p: int, u: int)
    requires Pair(s, c, d, p) && Extends(s, t) && u in t.units
    requires Resolvent(s.clauses[c].lits, s.clauses[d].lits, p, s.units) == [u]
    ensures !Proper(t, c, d, p)
  {
    var C, D := s.clauses[c].lits, s.clauses[d].lits;
    assert t.clauses[c].lits == C && t.clauses[d].lits == D;
    assert u in Resolvent(C, D, p, s.units);
    ResolventAre(C, D, p, s.units, u);
  }

  /** Strengthens the antecedents that the resolvent subsumes, if any. */
  method SelfSubsume(s: Solver, c: nat, p: int, d: nat, inFirst: bool, inSecond: bool)
    requires s.Valid() && s.clause == [] && Pair(s.Now(), c, d, p) && (inFirst || inSecond)
    requires NoneTrue(s.clauses[c].lits, p, s.units) && NoneTrue(s.clauses[d].lits, -p, s.units)
    requires var r := LitSet(Resolvent(s.clauses[c].lits, s.clauses[d].lits, p, s.units));
      && (inFirst ==> LitSet(KeptLits(s.clauses[c].lits, p, s.units)) == r)
      && (inSecond ==> LitSet(KeptLits(s.clauses[d].lits, -p, s.units)) == r)
    modifies s`clauses, s`occs, s`clause
    ensures s.Valid() && s.clause == [] && Resolved(old(s.Now()), s.Now(), c, d, p)
    ensures SamePivotLists(old(s.occs), s.occs, p) && |s.clauses| > |old(s.clauses)| && (s.clauses[c].garbage || s.clauses[d].garbage)
  {
    ghost var before := s.Now();
    if inFirst {
      StrengthenFirst(s, c, p, d);
      if inSecond {
        DoublySubsumed(before, c, d, p);
        s.MarkGarbage(d);
      }
    } else {
      PairSwap(before, c, d, p);
      ResolventSwap(s.clauses[c].lits, s.clauses[d].lits, p, s.units);
      StrengthenFirst(s, d, -p, c);
      ResolvedSwap(before, s.Now(), d, c, -p);
    }
  }

  /** Assigns a unit resolvent, and propagates it at once if asked to. */
  method ResolvedUnit(s: Solver, c: nat, p: int, d: nat, unit: int, eager: bool)
    requires s.Valid() && Pair(s.Now(), c, d, p)
    requires Resolvent(s.clauses[c].lits, s.clauses[d].lits, p, s.units) == [unit] && IsLit(s.maxVar, unit) && s.Active(unit)
    modifies s`clauses, s`units, s`unsat
    ensures s.Valid() && Step(old(s.Now()), s.Now()) && s.Now() != old(s.Now()) && unit in s.units
    ensures !eager ==> Resolved(old(s.Now()), s.Now(), c, d, p)
  {
    ghost var before := s.Now();
    UnitResolvent(before, c, d, p, unit);
    ActiveIsListed(s.maxVar, before, s.occs, s.inactive, unit);
    s.AssignUnit(unit);
    if eager {
      ghost var now := s.Now();
      ListedStays(before, now, s.occs, -unit);
      ElimPropagate(s, unit);
      StepTrans(before, now, s.Now());
    }
  }

  /** An empty resolvent is learned, a unit assigned. */
  method FinishSmall(s: Solver, c: nat, p: int, d: nat, eager: bool)
    requires s.Valid() && Pair(s.Now(), c, d, p) && |s.clause| <= 1
    requires NoneTrue(s.clauses[c].lits, p, s.units) && NoneTrue(s.clauses[d].lits, -p, s.units)
    requires s.clause == Resolvent(s.clauses[c].lits, s.clauses[d].lits, p, s.units)
    requires NoClashing(KeptLits(s.clauses[d].lits, -p, s.units), LitSet(KeptLits(s.clauses[c].lits, p, s.units)))
    modifies s`clauses, s`units, s`unsat, s`clause
    ensures s.Valid() && Step(old(s.Now()), s.Now()) && s.Now() != old(s.Now()) && s.clause == []
    ensures !s.unsat ==> !Proper(s.Now(), c, d, p)
    ensures !eager ==> Resolved(old(s.Now()), s.Now(), c, d, p)
  {
    ghost var before := s.Now();
    if |s.clause| == 0 {
      EmptyResolvent(before, c, d, p);
      s.LearnEmptyClause();
      return;
    }
    ResolventUsable(s.maxVar, before, s.occs, s.inactive, c, d, p);
    var unit := s.clause[0];
    s.clause := [];
    ResolvedUnit(s, c, p, d, unit, eager);
    UnitIsNotProper(before, s.Now(), c, d, p, unit);
  }

  /** The outcome once neither antecedent is satisfied and the resolvent is no tautology. */
  method FinishResolvent(s: Solver, c: nat, p: int, d: nat, first: nat, second: nat, eager: bool) returns (useful: bool)
    requires s.Valid() && Pair(s.Now(), c, d, p)
    requires NoneTrue(s.clauses[c].lits, p, s.units) && NoneTrue(s.clauses[d].lits, -p, s.units)
    requires s.clause == Resolvent(s.clauses[c].lits, s.clauses[d].lits, p, s.units)
    requires NoClashing(KeptLits(s.clauses[d].lits, -p, s.units), LitSet(KeptLits(s.clauses[c].lits, p, s.units)))
    requires first == |KeptLits(s.clauses[c].lits, p, s.units)| + 1 && second == |KeptLits(s.clauses[d].lits, -p, s.units)| + 1
    modifies s`clauses, s`units, s`unsat, s`occs, s`clause
    ensures s.Valid() && Step(old(s.Now()), s.Now()) && SamePivotLists(old(s.occs), s.occs, p)
    ensures useful ==> s.Now() == old(s.Now()) && s.occs == old(s.occs) && Useful(s.maxVar, s.Now(), s.inactive, s.clause, c, d, p)
    ensures !useful ==> s.clause == [] && s.Now() != old(s.Now())
    ensures !useful && !s.unsat ==> !Proper(s.Now(), c, d, p)
    ensures |LitSet(old(s.clause))| >= 2 && !SubsumesOne(old(s.clauses[c].lits), old(s.clauses[d].lits), p, old(s.units)) ==> useful
    ensures !useful && !eager ==> Resolved(old(s.Now()), s.Now(), c, d, p)
  {
    SizeIsLength(s.Now(), c, d, p);
    useful := false;
    var size := |s.clause|;
    if size <= 1 {
      FinishSmall(s, c, p, d, eager);
      return;
    }
    ResolventUsable(s.maxVar, s.Now(), s.occs, s.inactive, c, d, p);
    SelfSubsuming(s.clauses[c].lits, s.clauses[d].lits, p, s.units);
    if first > size || second > size {
      s.clause := [];
      SelfSubsume(s, c, p, d, first > size, second > size);
      return;
    }
    useful := true;
  }

  /** If nothing collected clashes, nothing in the clauses does. */
  lemma NoClashIsProper(s: State, c: nat, d: nat, p: int)
    requires Live(s, c) && Live(s, d)
    requires NoneTrue(s.clauses[c].lits, p, s.units) && NoneTrue(s.clauses[d].lits, -p, s.units)
    requires NoClashing(KeptLits(s.clauses[d].lits, -p, s.units), LitSet(KeptLits(s.clauses[c].lits, p, s.units)))
    requires p !in s.clauses[d].lits
    ensures Proper(s, c, d, p)
  {
    NoKeptClash(s.clauses[c].lits, s.clauses[d].lits, p, s.units);
  }

  lemma NoKeptClash(C: seq<int>, D: seq<int>, p: int, units: set<int>)
    requires NoneTrue(C, p, units) && NoneTrue(D, -p, units) && p !in D
    requires NoClashing(KeptLits(D, -p, units), LitSet(KeptLits(C, p, units)))
    ensures !Clashes(C, D, p)
  {
    KeptAre(C, p, units);
    KeptAre(D, -p, units);
    var k, l := KeptLits(C, p, units), KeptLits(D, -p, units);
    forall x | x in D && x != -p ensures -x !in C { KeptClash(C, D, p, units, k, l, x); }
  }

  lemma KeptClash(C: seq<int>, D: seq<int>, p: int, units: set<int>, k: seq<int>, l: seq<int>, x: int)
    requires NoneTrue(C, p, units) && NoneTrue(D, -p, units) && p !in D && NoClashing(l, LitSet(k)) && x in D && x != -p
    requires forall y :: y in k <==> y in C && y != p && -y !in units
    requires forall y :: y in l <==> y in D && y != -p && -y !in units
    ensures -x !in C
  {
    NoClashingMember(l, LitSet(k), x);
    assert -(-x) == x;
  }

  lemma NoClashingMember(lits: seq<int>, marks: set<int>, l: int)
    requires NoClashing(lits, marks)
    ensures l in lits ==> -l !in marks
  {
  }

  /** Resolves two live clauses, the shorter one first. */
  method ResolveOrdered(s: Solver, c: nat, p: int, d: nat, eager: bool) returns (useful: bool)
    requires s.Valid() && s.clause == [] && s.marks == {} && Pair(s.Now(), c, d, p)
    modifies s`clauses, s`units, s`unsat, s`occs, s`clause, s`marks
    ensures s.Valid() && s.marks == {} && Step(old(s.Now()), s.Now()) && SamePivotLists(old(s.occs), s.occs, p)
    ensures useful ==> s.Now() == old(s.Now()) && s.occs == old(s.occs) && Useful(s.maxVar, s.Now(), s.inactive, s.clause, c, d, p)
    ensures !useful ==> s.clause == []
    ensures !useful && !eager ==> Resolved(old(s.Now()), s.Now(), c, d, p)
    ensures useful ==> Proper(s.Now(), c, d, p)
    ensures !useful && !s.unsat ==> !Proper(s.Now(), c, d, p)
    ensures Quiet(old(s.Now()), c, d, p) ==> s.Now() == old(s.Now())
  {
    ghost var before := s.Now();
    useful := false;
    var satisfied, first := CollectFirst(s, c, p);
    if satisfied != 0 {
      SatisfiedAntecedent(before, c, d, p, c, satisfied);
      s.MarkGarbage(c);
      s.clause := [];
      Unmark(s, c);
      return;
    }
    var tautological, second;
    satisfied, tautological, second := CollectSecond(s, d, -p, s.clause);
    Unmark(s, c);
    if satisfied != 0 {
      SatisfiedAntecedent(before, c, d, p, d, satisfied);
      s.MarkGarbage(d);
      s.clause := [];
      return;
    }
    if tautological != 0 {
      TautologicalPair(before, c, d, p, tautological);
      assert Clashes(s.clauses[c].lits, s.clauses[d].lits, p);
      s.clause := [];
      return;
    }
    NoClashIsProper(before, c, d, p);
    useful := FinishResolvent(s, c, p, d, first, second, eager);
  }

  /** Resolves two clauses on the pivot; true if a resolvent is left over. */
  method ResolveClauses(s: Solver, c: nat, pivot: int, d: nat, eager: bool) returns (useful: bool)
    requires s.Valid() && !s.unsat && s.clause == [] && s.marks == {} && c < |s.clauses| && d < |s.clauses|
    requires pivot in s.clauses[c].lits && -pivot in s.clauses[d].lits
    modifies s`clauses, s`units, s`unsat, s`occs, s`clause, s`marks
    ensures s.Valid() && s.marks == {} && Step(old(s.Now()), s.Now()) && SamePivotLists(old(s.occs), s.occs, pivot)
    ensures useful ==> s.Now() == old(s.Now()) && s.occs == old(s.occs) && Pair(s.Now(), c, d, pivot)
    ensures useful ==> Useful(s.maxVar, s.Now(), s.inactive, s.clause, c, d, pivot) || Useful(s.maxVar, s.Now(), s.inactive, s.clause, d, c, -pivot)
    ensures !useful ==> s.clause == []
    ensures !useful && !eager ==> Resolved(old(s.Now()), s.Now(), c, d, pivot)
    ensures useful ==> Proper(s.Now(), c, d, pivot)
    ensures !useful && !s.unsat ==> !Proper(s.Now(), c, d, pivot)
    ensures Quiet(old(s.Now()), c, d, pivot) ==> s.Now() == old(s.Now())
    ensures useful ==> |s.clause| == ResolventSize(s.Now(), c, d, pivot)
  {
    if s.clauses[c].garbage || s.clauses[d].garbage { return false; }
    PairsAreWell(s.maxVar, s.Now(), s.occs, s.inactive, c, d, pivot);
    if |s.clauses[c].lits| > |s.clauses[d].lits| {
      ghost var before := s.Now();
      PairSwap(before, c, d, pivot);
      QuietSwap(before, c, d, pivot);
      useful := ResolveOrdered(s, d, -pivot, c, eager);
      if !useful && !eager { ResolvedSwap(before, s.Now(), d, c, -pivot); }
      ProperSwap(s.Now(), c, d, pivot);
      if useful {
        SizeIsLength(s.Now(), d, c, -pivot);
        SizeSwap(s.Now(), c, d, pivot);
      }
    } else {
      useful := ResolveOrdered(s, c, pivot, d, eager);
      if useful { SizeIsLength(s.Now(), c, d, pivot); }
    }
  }
}
