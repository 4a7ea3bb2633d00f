/** Trying to eliminate a variable: bounding the resolvents, adding them, saving
    the clauses with the variable and keeping the promise of the whole run. */
module FastElimination {
  import opened Literals
  import opened Extension
  import opened ClauseDatabase
  import opened Resolution
  import opened Antecedents
  import opened VariableElimination

  // ------------------------------------------------------ all resolvents

  ghost predicate AllDone(s: State, ps: seq<int>, ns: seq<int>, i: nat, j: nat, p: int) {
    forall a, b {:trigger ps[a], ns[b]} :: 0 <= a < |ps| && 0 <= b < |ns| && (a < i || (a == i && b < j)) ==> PairDone(s, ps[a], ns[b], p)
  }

  /** The state of adding resolvents: the pairs before (i, j) are finished. */
  ghost predicate Adding(before: State, now: State, p: int, ps: seq<int>, ns: seq<int>, i: nat, j: nat) {
    forall k {:trigger Unfold(k)} :: Unfold(k) ==>
      && Same(before, now) && Grows(before, now, Abs(p))
      && ListOk(now, p, ps) && ListOk(now, -p, ns) && AllDone(now, ps, ns, i, j, p)
  }

  lemma AddingStart(s: State, p: int, ps: seq<int>, ns: seq<int>)
    requires ListOk(s, p, ps) && ListOk(s, -p, ns)
    ensures Adding(s, s, p, ps, ns, 0, 0)
  {
  }

  lemma ListStays(s: State, t: State, l: int, list: seq<int>)
    requires ListOk(s, l, list) && Extends(s, t)
    ensures ListOk(t, l, list)
  {
    forall k | 0 <= k < |list| ensures 0 <= list[k] < |t.clauses| && l in t.clauses[list[k]].lits {
      assert t.clauses[list[k]].lits == s.clauses[list[k]].lits;
    }
  }

  lemma PairStays(s: State, t: State, c: int, d: int, p: int)
    requires PairDone(s, c, d, p) && Grows(s, t, Abs(p)) && 0 <= c < |s.clauses| && 0 <= d < |s.clauses|
    ensures PairDone(t, c, d, p)
  {
    assert t.clauses[c].lits == s.clauses[c].lits && t.clauses[d].lits == s.clauses[d].lits;
    if Live(s, c) && Live(s, d) { CoveredStays(s, t, s.clauses[c].lits, s.clauses[d].lits, p); }
  }

  lemma AddingStep(before: State, s: State, t: State, p: int, ps: seq<int>, ns: seq<int>, i: nat, j: nat)
    requires Adding(before, s, p, ps, ns, i, j) && i < |ps| && j < |ns| && ps[i] >= 0 && ns[j] >= 0
    requires Resolved(s, t, ps[i], ns[j], p)
    ensures Adding(before, t, p, ps, ns, i, j + 1)
  {
    assert Unfold(0);
    SameTrans(before, s, t);
    GrowsTrans(before, s, t, Abs(p));
    ListStays(s, t, p, ps);
    ListStays(s, t, -p, ns);
    forall a, b | 0 <= a < |ps| && 0 <= b < |ns| && (a < i || (a == i && b < j + 1)) ensures PairDone(t, ps[a], ns[b], p) {
      if a < i || b < j { PairStays(s, t, ps[a], ns[b], p); }
    }
  }

  lemma AddingRow(before: State, s: State, p: int, ps: seq<int>, ns: seq<int>, i: nat, j: nat)
    requires Adding(before, s, p, ps, ns, i, j) && i < |ps|
    requires j == |ns| || (ps[i] >= 0 && !Live(s, ps[i]))
    ensures Adding(before, s, p, ps, ns, i + 1, 0)
  {
    assert Unfold(0);
  }

  lemma SkippedPair(s: State, c: nat, d: nat, p: int)
    requires !Live(s, c) || !Live(s, d)
    ensures Resolved(s, s, c, d, p)
  {
  }

  /** Two lists that an elimination goes through. */
  ghost predicate PivotLists(s: Solver, p: int, ps: seq<int>, ns: seq<int>)
    reads s
  {
    At(s.occs, p) == ps && At(s.occs, -p) == ns
  }

  lemma Members(before: State, s: State, p: int, ps: seq<int>, ns: seq<int>, i: nat, j: nat)
    requires Adding(before, s, p, ps, ns, i, j)
    ensures i < |ps| ==> 0 <= ps[i] < |s.clauses| && p in s.clauses[ps[i]].lits
    ensures j < |ns| ==> 0 <= ns[j] < |s.clauses| && -p in s.clauses[ns[j]].lits
  {
    assert Unfold(0);
  }

  lemma UsefulAdded(maxVar: nat, s: State, inactive: set<nat>, lits: seq<int>, c: nat, d: nat, p: int)
    requires Pair(s, c, d, p)
    requires Useful(maxVar, s, inactive, lits, c, d, p) || Useful(maxVar, s, inactive, lits, d, c, -p)
    ensures Resolved(s, Add(s, lits), c, d, p) && !Mentions(lits, Abs(p)) && Usable(maxVar, s.units, inactive, lits)
  {
    if Useful(maxVar, s, inactive, lits, c, d, p) {
      ResolventAdded(maxVar, s, inactive, lits, c, d, p);
      ResolventAvoids(s, c, d, p);
    } else {
      PairSwap(s, c, d, p);
      ResolventAdded(maxVar, s, inactive, lits, d, c, -p);
      ResolvedSwap(s, Add(s, lits), d, c, -p);
      ResolventAvoids(s, d, c, -p);
    }
  }

  /** Adds the resolvent of one pair, unless it is not needed. */
  method AddResolvent(s: Solver, c: nat, p: int, d: nat)
    requires s.Valid() && !s.unsat && s.clause == [] && s.marks == {} && c < |s.clauses| && d < |s.clauses|
    requires p in s.clauses[c].lits && -p in s.clauses[d].lits
    modifies s`clauses, s`units, s`unsat, s`occs, s`clause, s`marks
    ensures s.Valid() && s.clause == [] && s.marks == {} && Resolved(old(s.Now()), s.Now(), c, d, p)
    ensures SamePivotLists(old(s.occs), s.occs, p)
  {
    ghost var before, occs := s.Now(), s.occs;
    var useful := ResolveClauses(s, c, p, d, false);
    if !useful { return; }
    ghost var lits := s.clause;
    UsefulAdded(s.maxVar, before, s.inactive, lits, c, d, p);
    var r := s.NewClause();
    LinkedElsewhere(occs, s.occs, lits, r, p);
    s.clause := [];
  }

  method AddRow(s: Solver, p: int, ps: seq<int>, ns: seq<int>, i: nat, ghost before: State)
    requires s.Valid() && !s.unsat && s.clause == [] && s.marks == {} && PivotLists(s, p, ps, ns) && i < |ps|
    requires Adding(before, s.Now(), p, ps, ns, i, 0)
    modifies s`clauses, s`units, s`unsat, s`occs, s`clause, s`marks
    ensures s.Valid() && s.clause == [] && s.marks == {} && PivotLists(s, p, ps, ns)
    ensures exists j: nat :: Adding(before, s.Now(), p, ps, ns, i, j) && (s.unsat || j == |ns|)
  {
    for j := 0 to |ns|
      invariant s.Valid() && s.clause == [] && s.marks == {} && PivotLists(s, p, ps, ns)
      invariant Adding(before, s.Now(), p, ps, ns, i, j)
    {
      if s.unsat { return; }
      ghost var now := s.Now();
      Members(before, now, p, ps, ns, i, j);
      if s.clauses[ns[j]].garbage {
        SkippedPair(now, ps[i], ns[j], p);
      } else {
        AddResolvent(s, ps[i], p, ns[j]);
      }
      AddingStep(before, now, s.Now(), p, ps, ns, i, j);
    }
  }

  /** Adds all resolvents on the pivot and connects them. */
  method AddResolvents(s: Solver, p: int, ghost ps: seq<int>, ghost ns: seq<int>)
    requires s.Valid() && s.clause == [] && s.marks == {} && IsLit(s.maxVar, p) && PivotLists(s, p, ps, ns)
    modifies s`clauses, s`units, s`unsat, s`occs, s`clause, s`marks
    ensures s.Valid() && s.clause == [] && s.marks == {} && PivotLists(s, p, ps, ns)
    ensures Same(old(s.Now()), s.Now()) && (old(s.Active(p)) ==> s.Active(p))
    ensures !s.unsat ==> Adding(old(s.Now()), s.Now(), p, ps, ns, |ps|, 0)
  {
    ghost var before := s.Now();
    OccsOf(s.maxVar, before, s.occs, s.inactive, p);
    OccsOf(s.maxVar, before, s.occs, s.inactive, -p);
    var pos, neg := s.occs[p], s.occs[-p];
    AddingStart(before, p, ps, ns);
    for i := 0 to |pos|
      invariant s.Valid() && s.clause == [] && s.marks == {} && PivotLists(s, p, ps, ns)
      invariant Adding(before, s.Now(), p, ps, ns, i, 0)
    {
      if s.unsat { AddingSame(before, s.Now(), p, ps, ns, i, 0); return; }
      Members(before, s.Now(), p, ps, ns, i, 0);
      if s.clauses[pos[i]].garbage {
        AddingRow(before, s.Now(), p, ps, ns, i, 0);
        continue;
      }
      AddRow(s, p, pos, neg, i, before);
      ghost var j: nat :| Adding(before, s.Now(), p, ps, ns, i, j) && (s.unsat || j == |ns|);
      if s.unsat { AddingSame(before, s.Now(), p, ps, ns, i, j); return; }
      AddingRow(before, s.Now(), p, ps, ns, i, j);
    }
    AddingSame(before, s.Now(), p, ps, ns, |ps|, 0);
  }

  lemma AddingSame(before: State, s: State, p: int, ps: seq<int>, ns: seq<int>, i: nat, j: nat)
    requires Adding(before, s, p, ps, ns, i, j)
    ensures Same(before, s) && (p in s.units <==> p in before.units) && (-p in s.units <==> -p in before.units)
  {
    assert Unfold(0);
  }

  // -------------------------------------------------- saving the clauses

  /** Exactly the listed clauses became garbage. */
  ghost predicate Removed(s: State, t: State, list: seq<int>) {
    && |t.clauses| == |s.clauses| && t.units == s.units && t.unsat == s.unsat
    && forall c: nat {:trigger t.clauses[c]} :: c < |s.clauses| ==>
         t.clauses[c] == if c in list then s.clauses[c].(garbage := true) else s.clauses[c]
  }

  /** The entries save the live clauses of a list because of a literal. */
  ghost predicate SavedFrom(s: State, entries: seq<Entry>, list: seq<int>, lit: int) {
    && AllOn(entries, lit)
    && (forall e :: 0 <= e < |entries| ==> HasClause(s, entries[e].clause))
    && (forall c: nat :: Live(s, c) && c in list ==> HasEntry(entries, s.clauses[c].lits))
  }

  /** The first i clauses of the list are saved and removed. */
  ghost predicate Saving(s: State, t: State, entries: seq<Entry>, list: seq<int>, i: nat, lit: int) {
    forall k {:trigger Unfold(k)} :: Unfold(k) ==>
      i <= |list| && ListOk(s, lit, list) && Removed(s, t, list[..i]) && SavedFrom(s, entries, list[..i], lit)
  }

  lemma SaveStart(s: State, list: seq<int>, lit: int)
    requires ListOk(s, lit, list)
    ensures Saving(s, s, [], list, 0, lit)
  {
  }

  lemma SaveEnd(s: State, t: State, entries: seq<Entry>, list: seq<int>, lit: int)
    requires Saving(s, t, entries, list, |list|, lit)
    ensures Removed(s, t, list) && SavedFrom(s, entries, list, lit)
  {
    assert Unfold(0);
    assert list[..|list|] == list;
  }

  lemma SaveOne(s: State, t: State, entries: seq<Entry>, list: seq<int>, i: nat, lit: int) returns (e: Entry)
    requires i < |list| && Saving(s, t, entries, list, i, lit)
    ensures 0 <= list[i] < |t.clauses|
    ensures e == Entry([lit], 0, list[i] + 1, t.clauses[list[i]].lits)
    ensures !Live(t, list[i]) ==> Saving(s, t, entries, list, i + 1, lit)
    ensures Live(t, list[i]) ==> Saving(s, Garbage(t, list[i]), entries + [e], list, i + 1, lit)
  {
    assert Unfold(0);
    var c: nat := list[i];
    e := Entry([lit], 0, c + 1, t.clauses[c].lits);
    assert list[..i + 1] == list[..i] + [c];
    if Live(t, c) {
      assert Live(s, c);
      SaveEntry(s, entries, e, list, i, lit);
    } else {
      assert t.clauses[c].garbage;
      forall d: nat | Live(s, d) && d in list[..i + 1] ensures HasEntry(entries, s.clauses[d].lits) {
        assert d in list[..i];
      }
    }
  }

  lemma SaveEntry(s: State, entries: seq<Entry>, e: Entry, list: seq<int>, i: nat, lit: int)
    requires i < |list| && ListOk(s, lit, list) && SavedFrom(s, entries, list[..i], lit)
    requires Live(s, list[i]) && e.flips == [lit] && e.clause == s.clauses[list[i]].lits
    ensures SavedFrom(s, entries + [e], list[..i + 1], lit)
  {
    var all := entries + [e];
    assert list[..i + 1] == list[..i] + [list[i]];
    assert HasClause(s, e.clause);
    forall d: nat | Live(s, d) && d in list[..i + 1] ensures HasEntry(all, s.clauses[d].lits) {
      if d == list[i] {
        assert all[|entries|].clause == s.clauses[d].lits;
      } else {
        var k :| 0 <= k < |entries| && entries[k].clause == s.clauses[d].lits;
        assert all[k].clause == s.clauses[d].lits;
      }
    }
    forall k | 0 <= k < |all| ensures all[k].flips == [lit] && lit in all[k].clause && HasClause(s, all[k].clause) {
      if k < |entries| { assert all[k] == entries[k]; }
    }
  }

  lemma ClauseIsNonZero(maxVar: nat, s: State, occs: Occs, inactive: set<nat>, c: nat)
    requires WellFormed(maxVar, s, occs, inactive) && c < |s.clauses|
    ensures NonZero(s.clauses[c].lits)
  {
    ClauseOf(maxVar, s, occs, inactive, c);
  }

  /** Pushes one clause with its witness and marks it garbage. */
  method SaveClause(s: Solver, c: nat, lit: int)
    requires s.Valid() && c < |s.clauses| && lit != 0
    modifies s`clauses, s.stack
    ensures s.Valid() && s.stack.entries == old(s.stack.entries) + [Entry([lit], 0, c + 1, old(s.clauses[c].lits))]
    ensures s.Now() == Garbage(old(s.Now()), c)
  {
    ClauseIsNonZero(s.maxVar, s.Now(), s.occs, s.inactive, c);
    s.stack.PushClause(s.clauses[c].lits, lit, 0, c + 1);
    s.MarkGarbage(c);
  }

  /** Pushes the live clauses of one list and marks them garbage. */
  method SaveClauses(s: Solver, list: seq<int>, lit: int) returns (ghost saved: seq<Entry>)
    requires s.Valid() && ListOk(s.Now(), lit, list) && lit != 0
    modifies s`clauses, s.stack
    ensures s.Valid() && s.stack.entries == old(s.stack.entries) + saved
    ensures Removed(old(s.Now()), s.Now(), list) && SavedFrom(old(s.Now()), saved, list, lit)
  {
    ghost var before := s.Now();
    saved := [];
    SaveStart(before, list, lit);
    for i := 0 to |list|
      invariant s.Valid() && s.stack.entries == old(s.stack.entries) + saved
      invariant Saving(before, s.Now(), saved, list, i, lit)
    {
      var c := list[i];
      ghost var e := SaveOne(before, s.Now(), saved, list, i, lit);
      if s.clauses[c].garbage { continue; }
      SaveClause(s, c, lit);
      saved := saved + [e];
    }
    SaveEnd(before, s.Now(), saved, list, lit);
  }

  // ------------------------------------------- what the elimination means

  lemma PivotIsOnePhase(maxVar: nat, s: State, occs: Occs, inactive: set<nat>, p: int)
    requires WellFormed(maxVar, s, occs, inactive) && p != 0
    ensures OnePhase(s, p)
  {
    forall c: nat | Live(s, c) ensures !(p in s.clauses[c].lits && -p in s.clauses[c].lits) {
      ClauseOf(maxVar, s, occs, inactive, c);
      NoClash(s.clauses[c].lits, p, -p);
    }
  }

  lemma PivotIsListed(maxVar: nat, s: State, occs: Occs, inactive: set<nat>, p: int, c: nat)
    requires WellFormed(maxVar, s, occs, inactive) && IsActive(s.units, inactive, p) && Live(s, c)
    requires Mentions(s.clauses[c].lits, Abs(p))
    ensures c in At(occs, p) || c in At(occs, -p)
  {
    var i :| 0 <= i < |s.clauses[c].lits| && Abs(s.clauses[c].lits[i]) == Abs(p);
    var l := s.clauses[c].lits[i];
    assert l in s.clauses[c].lits;
    IsConnected(maxVar, s, occs, inactive, l, c);
  }

  /** With complete lists and all pairs done, every pair of live clauses is covered. */
  lemma DoneCovers(maxVar: nat, before: State, s: State, occs: Occs, inactive: set<nat>, p: int)
    requires WellFormed(maxVar, s, occs, inactive) && IsActive(s.units, inactive, p)
    requires Adding(before, s, p, At(occs, p), At(occs, -p), |At(occs, p)|, 0)
    ensures AllCovered(s, p)
  {
    var ps, ns := At(occs, p), At(occs, -p);
    assert Unfold(0);
    forall c: nat, d: nat | Live(s, c) && Live(s, d) && p in s.clauses[c].lits && -p in s.clauses[d].lits
      ensures Covered(s, s.clauses[c].lits, s.clauses[d].lits, p)
    {
      IsConnected(maxVar, s, occs, inactive, p, c);
      IsConnected(maxVar, s, occs, inactive, -p, d);
      var a :| 0 <= a < |ps| && ps[a] == c;
      var b :| 0 <= b < |ns| && ns[b] == d;
      assert PairDone(s, ps[a], ns[b], p);
    }
  }

  lemma AllAreSaved(maxVar: nat, s: State, t: State, occs: Occs, inactive: set<nat>, p: int, savedP: seq<Entry>, savedN: seq<Entry>)
    requires WellFormed(maxVar, s, occs, inactive) && IsActive(s.units, inactive, p)
    requires Removed(s, t, At(occs, p)) && SavedFrom(s, savedP, At(occs, p), p) && SavedFrom(t, savedN, At(occs, -p), -p)
    ensures Saved(s, p, savedP, savedN)
  {
    forall e | 0 <= e < |savedN| ensures HasClause(s, savedN[e].clause) {
      assert HasClause(t, savedN[e].clause);
      var c: nat :| Live(t, c) && t.clauses[c].lits == savedN[e].clause;
      assert Live(s, c) && s.clauses[c].lits == savedN[e].clause;
    }
    forall c: nat | Live(s, c) && Mentions(s.clauses[c].lits, Abs(p))
      ensures HasEntry(savedP, s.clauses[c].lits) || HasEntry(savedN, s.clauses[c].lits)
    {
      PivotIsListed(maxVar, s, occs, inactive, p, c);
      if c !in At(occs, p) {
        assert t.clauses[c] == s.clauses[c];
        assert Live(t, c);
      }
    }
  }

  /** After both lists are removed, exactly the clauses without the pivot are left. */
  lemma PivotIsGone(maxVar: nat, s: State, t: State, u: State, occs: Occs, inactive: set<nat>, p: int)
    requires WellFormed(maxVar, s, occs, inactive) && IsActive(s.units, inactive, p) && IsLit(maxVar, p)
    requires Removed(s, t, At(occs, p)) && Removed(t, u, At(occs, -p))
    ensures forall c: nat :: Live(u, c) <==> Live(s, c) && !Mentions(s.clauses[c].lits, Abs(p))
    ensures forall c: nat :: Live(u, c) ==> u.clauses[c].lits == s.clauses[c].lits
    ensures u.units == s.units && u.unsat == s.unsat
  {
    OccsOf(maxVar, s, occs, inactive, p);
    OccsOf(maxVar, s, occs, inactive, -p);
    forall c: nat ensures Live(u, c) <==> Live(s, c) && !Mentions(s.clauses[c].lits, Abs(p)) {
      if c < |s.clauses| {
        assert u.clauses[c].garbage == (s.clauses[c].garbage || c in At(occs, p) || c in At(occs, -p)) by {
          assert t.clauses[c] == if c in At(occs, p) then s.clauses[c].(garbage := true) else s.clauses[c];
          assert u.clauses[c] == if c in At(occs, -p) then t.clauses[c].(garbage := true) else t.clauses[c];
        }
        MentionsLit(s.clauses[c].lits, p);
        if Live(s, c) && Mentions(s.clauses[c].lits, Abs(p)) { PivotIsListed(maxVar, s, occs, inactive, p, c); }
      }
    }
    forall c: nat | Live(u, c) ensures u.clauses[c].lits == s.clauses[c].lits {
      assert u.clauses[c].lits == t.clauses[c].lits;
    }
  }

  /** Removing and saving the clauses of a covered pivot loses no model and can be
      undone by the backward pass. */
  lemma EliminationIsSound(s: State, u: State, p: int, savedP: seq<Entry>, savedN: seq<Entry>)
    requires p != 0 && p !in s.units && -p !in s.units
    requires Saved(s, p, savedP, savedN) && AllCovered(s, p) && OnePhase(s, p)
    requires forall c: nat :: Live(u, c) <==> Live(s, c) && !Mentions(s.clauses[c].lits, Abs(p))
    requires forall c: nat :: Live(u, c) ==> u.clauses[c].lits == s.clauses[c].lits
    requires u.units == s.units && u.unsat == s.unsat
    ensures Sound(s, u, savedP + savedN)
  {
    forall m | Sat(m, s) ensures Sat(m, u) {
      forall c: nat | Live(u, c) ensures SatClause(m, u.clauses[c].lits) { assert Live(s, c); }
    }
    forall m | Sat(m, u) ensures Sat(Extended(savedP + savedN, m), s) {
      assert SatAway(m, s, Abs(p)) by {
        forall c: nat | Live(s, c) && !Mentions(s.clauses[c].lits, Abs(p)) ensures SatClause(m, s.clauses[c].lits) {
          assert Live(u, c);
        }
      }
      EliminationReconstructs(s, p, savedP, savedN, m);
    }
  }

  /** A variable that no live clause mentions needs no lists and may be retired. */
  lemma RetireWellFormed(maxVar: nat, s: State, occs: Occs, inactive: set<nat>, p: int)
    requires WellFormed(maxVar, s, occs, inactive) && IsLit(maxVar, p) && IsActive(s.units, inactive, p)
    requires NoMention(s, Abs(p))
    ensures WellFormed(maxVar, s, occs[p := []][-p := []], inactive)
  {
    var occs' := occs[p := []][-p := []];
    assert Unfold(0);
    forall l ensures ListOk(s, l, At(occs', l)) { assert ListOk(s, l, At(occs, l)); }
    forall l, c: nat | Live(s, c) && l in s.clauses[c].lits && IsActive(s.units, inactive, l) ensures c in At(occs', l) {
      assert c in At(occs, l);
      MentionsLit(s.clauses[c].lits, p);
    }
    assert Connected(maxVar, s, occs', inactive);
    assert WellFormedNow(maxVar, s, occs', inactive);
  }

  lemma InactiveWellFormed(maxVar: nat, s: State, occs: Occs, inactive: set<nat>, p: int)
    requires WellFormed(maxVar, s, occs, inactive) && IsLit(maxVar, p) && IsActive(s.units, inactive, p)
    requires s.unsat || NoMention(s, Abs(p))
    ensures WellFormed(maxVar, s, occs, inactive + {Abs(p)})
  {
    var inactive' := inactive + {Abs(p)};
    assert Unfold(0);
    assert Avoids(s, inactive') by {
      if !s.unsat {
        forall c: nat, l | Live(s, c) && l in s.clauses[c].lits ensures Abs(l) !in inactive' {
          MentionsLit(s.clauses[c].lits, l);
        }
      }
      forall l | l in s.units ensures Abs(l) !in inactive' {
        assert Abs(l) == Abs(p) ==> l == p || l == -p;
      }
    }
    assert Connected(maxVar, s, occs, inactive') by {
      forall l, c: nat | Live(s, c) && l in s.clauses[c].lits && IsActive(s.units, inactive', l) ensures c in At(occs, l) {
        assert IsActive(s.units, inactive, l);
      }
    }
    assert WellFormedNow(maxVar, s, occs, inactive');
  }

  ghost predicate NoMention(s: State, v: nat) { forall c: nat :: Live(s, c) ==> !Mentions(s.clauses[c].lits, v) }

  /** Saving and removing both lists of a covered pivot is sound. */
  lemma RemovingPivotIsSound(maxVar: nat, s: State, t: State, u: State, occs: Occs, inactive: set<nat>, p: int,
                             savedP: seq<Entry>, savedN: seq<Entry>)
    requires WellFormed(maxVar, s, occs, inactive) && IsActive(s.units, inactive, p) && IsLit(maxVar, p) && AllCovered(s, p)
    requires Removed(s, t, At(occs, p)) && SavedFrom(s, savedP, At(occs, p), p)
    requires Removed(t, u, At(occs, -p)) && SavedFrom(t, savedN, At(occs, -p), -p)
    ensures Sound(s, u, savedP + savedN) && NoMention(u, Abs(p))
    ensures u.units == s.units
  {
    PivotIsGone(maxVar, s, t, u, occs, inactive, p);
    AllAreSaved(maxVar, s, t, occs, inactive, p, savedP, savedN);
    PivotIsOnePhase(maxVar, s, occs, inactive, p);
    EliminationIsSound(s, u, p, savedP, savedN);
  }

  /** Saves and removes all clauses with the pivot. */
  method MarkEliminatedClausesAsGarbage(s: Solver, p: int) returns (ghost saved: seq<Entry>)
    requires s.Valid() && IsLit(s.maxVar, p) && s.Active(p) && AllCovered(s.Now(), p)
    modifies s`clauses, s`occs, s.stack
    ensures s.Valid() && s.stack.entries == old(s.stack.entries) + saved
    ensures Sound(old(s.Now()), s.Now(), saved) && NoMention(s.Now(), Abs(p))
    ensures forall e :: 0 <= e < |saved| ==> saved[e].flips == [p] || saved[e].flips == [-p]
  {
    ghost var before, occs := s.Now(), s.occs;
    OccsOf(s.maxVar, before, occs, s.inactive, p);
    OccsOf(s.maxVar, before, occs, s.inactive, -p);
    ghost var savedP := SaveClauses(s, s.occs[p], p);
    ghost var middle := s.Now();
    OccsOf(s.maxVar, middle, occs, s.inactive, -p);
    ghost var savedN := SaveClauses(s, s.occs[-p], -p);
    saved := savedP + savedN;
    RemovingPivotIsSound(s.maxVar, before, middle, s.Now(), occs, s.inactive, p, savedP, savedN);
    EraseLists(s, p);
  }

  method EraseLists(s: Solver, p: int)
    requires s.Valid() && IsLit(s.maxVar, p) && s.Active(p) && NoMention(s.Now(), Abs(p))
    modifies s`occs
    ensures s.Valid()
  {
    RetireWellFormed(s.maxVar, s.Now(), s.occs, s.inactive, p);
    s.occs := s.occs[p := []];
    s.occs := s.occs[-p := []];
  }

  // ------------------------------------------------- occurrence lists

  /** Another list for a literal: nothing new, and no live clause lost. */
  ghost predicate Relisted(s: State, list: seq<int>, list': seq<int>) {
    && (forall k :: 0 <= k < |list'| ==> list'[k] in list)
    && (forall c: nat :: Live(s, c) && c in list ==> c in list')
  }

  lemma RelistedOk(s: State, l: int, list: seq<int>, list': seq<int>)
    requires ListOk(s, l, list) && Relisted(s, list, list')
    ensures ListOk(s, l, list')
  {
    forall k | 0 <= k < |list'| ensures 0 <= list'[k] < |s.clauses| && l in s.clauses[list'[k]].lits {
      var i :| 0 <= i < |list| && list[i] == list'[k];
    }
  }

  lemma RelistConnected(maxVar: nat, s: State, occs: Occs, inactive: set<nat>, l: int, list: seq<int>)
    requires Connected(maxVar, s, occs, inactive) && l in occs && Relisted(s, occs[l], list)
    ensures Connected(maxVar, s, occs[l := list], inactive)
  {
    var occs' := occs[l := list];
    forall x ensures ListOk(s, x, At(occs', x)) {
      assert ListOk(s, x, At(occs, x));
      if x == l { RelistedOk(s, l, occs[l], list); }
    }
    forall x, c: nat | Live(s, c) && x in s.clauses[c].lits && IsActive(s.units, inactive, x) ensures c in At(occs', x) {
      assert c in At(occs, x);
    }
  }

  lemma RelistWellFormed(maxVar: nat, s: State, occs: Occs, inactive: set<nat>, l: int, list: seq<int>)
    requires WellFormed(maxVar, s, occs, inactive) && l in occs && Relisted(s, occs[l], list)
    ensures WellFormed(maxVar, s, occs[l := list], inactive)
  {
    assert WellFormedNow(maxVar, s, occs, inactive) by { assert Unfold(0); }
    RelistConnected(maxVar, s, occs, inactive, l, list);
    assert WellFormedNow(maxVar, s, occs[l := list], inactive);
  }

  /** The entries of a list are live. */
  ghost predicate ListLive(s: State, list: seq<int>) { forall k :: 0 <= k < |list| ==> 0 <= list[k] && Live(s, list[k]) }

  /** The live clauses of a list, in order. */
  function LiveOnly(s: State, list: seq<int>): (kept: seq<int>)
    ensures ListLive(s, kept) && Relisted(s, list, kept)
  {
    if list == [] then []
    else
      var c, rest := list[|list| - 1], LiveOnly(s, list[..|list| - 1]);
      assert list == list[..|list| - 1] + [c];
      if c >= 0 && Live(s, c) then rest + [c] else rest
  }

  /** The outcome of flushing a list: the live clauses and their number, or a hit limit. */
  ghost predicate Flushed(s: State, list: seq<int>, list': seq<int>, res: nat, occLimit: nat, sizeLimit: nat) {
    && Relisted(s, list, list') && res == FlushCount(s, list, occLimit, sizeLimit)
    && forall n {:trigger Unfold(n)} :: Unfold(n) ==>
      (WithinLimits(s, LiveOnly(s, list), occLimit, sizeLimit) ==> list' == LiveOnly(s, list))
  }

  /** The number of live clauses, or one more than the limit. */
  ghost function FlushCount(s: State, list: seq<int>, occLimit: nat, sizeLimit: nat): nat {
    if WithinLimits(s, LiveOnly(s, list), occLimit, sizeLimit) then |LiveOnly(s, list)| else occLimit + 1
  }

  /** Drops garbage from a list until a limit is hit; counts what it keeps. */
  method FlushElimfastOccs(s: Solver, lit: int, occLimit: nat, sizeLimit: nat) returns (res: nat)
    requires s.Valid() && IsLit(s.maxVar, lit)
    modifies s`occs
    ensures s.Valid() && s.occs == old(s.occs)[lit := At(s.occs, lit)]
    ensures Flushed(s.Now(), At(old(s.occs), lit), At(s.occs, lit), res, occLimit, sizeLimit)
  {
    OccsOf(s.maxVar, s.Now(), s.occs, s.inactive, lit);
    var os := s.occs[lit];
    var kept;
    res, kept := FlushList(s, os, occLimit, sizeLimit);
    RelistWellFormed(s.maxVar, s.Now(), s.occs, s.inactive, lit, kept);
    s.occs := s.occs[lit := kept];
  }

  method FlushList(s: Solver, os: seq<int>, occLimit: nat, sizeLimit: nat) returns (res: nat, list: seq<int>)
    requires forall k :: 0 <= k < |os| ==> 0 <= os[k] < |s.clauses|
    ensures Flushed(s.Now(), os, list, res, occLimit, sizeLimit)
  {
    var kept := [];
    var i: nat := 0;
    res := 0;
    while i < |os|
      invariant i <= |os| && Relisted(s.Now(), os[..i], kept)
      invariant kept == LiveOnly(s.Now(), os[..i]) && res == |kept| && WithinLimits(s.Now(), kept, occLimit, sizeLimit)
    {
      var c := os[i];
      i := i + 1;
      assert os[..i] == os[..i - 1] + [c];
      if s.clauses[c].garbage { continue; }
      kept := kept + [c];
      assert kept == LiveOnly(s.Now(), os[..i]);
      if |s.clauses[c].lits| > sizeLimit {
        assert SizeOf(s.Now(), kept[|kept| - 1]) > sizeLimit;
        LimitHit(s.Now(), os, i, occLimit, sizeLimit);
        return occLimit + 1, kept + os[i..];
      }
      res := res + 1;
      if res > occLimit {
        LimitHit(s.Now(), os, i, occLimit, sizeLimit);
        return res, kept + os[i..];
      }
    }
    assert os[..|os|] == os;
    list := kept;
  }

  lemma LimitHit(s: State, os: seq<int>, i: nat, occLimit: nat, sizeLimit: nat)
    requires i <= |os| && !WithinLimits(s, LiveOnly(s, os[..i]), occLimit, sizeLimit)
    ensures Relisted(s, os, LiveOnly(s, os[..i]) + os[i..])
    ensures !WithinLimits(s, LiveOnly(s, os), occLimit, sizeLimit)
  {
    RestIsKept(s, os, i, LiveOnly(s, os[..i]));
    LiveOnlyPrefix(s, os, i);
    TooMuch(s, LiveOnly(s, os[..i]), LiveOnly(s, os), occLimit, sizeLimit);
  }

  /** Few enough clauses, none of them too large. */
  ghost predicate WithinLimits(s: State, list: seq<int>, occLimit: nat, sizeLimit: nat) {
    |list| <= occLimit && forall k :: 0 <= k < |list| ==> SizeOf(s, list[k]) <= sizeLimit
  }

  lemma TooMuch(s: State, part: seq<int>, list: seq<int>, occLimit: nat, sizeLimit: nat)
    requires part <= list && !WithinLimits(s, part, occLimit, sizeLimit)
    ensures !WithinLimits(s, list, occLimit, sizeLimit)
  {
    if |part| <= occLimit {
      var k :| 0 <= k < |part| && SizeOf(s, part[k]) > sizeLimit;
      assert list[k] == part[k];
    }
  }

  lemma {:induction false} LiveOnlyPrefix(s: State, list: seq<int>, i: nat)
    requires i <= |list|
    ensures LiveOnly(s, list[..i]) <= LiveOnly(s, list)
    decreases |list| - i
  {
    if i < |list| {
      LiveOnlyPrefix(s, list, i + 1);
      assert list[..i + 1][..i] == list[..i];
    } else {
      assert list[..i] == list;
    }
  }

  lemma RestIsKept(s: State, os: seq<int>, i: nat, kept: seq<int>)
    requires i <= |os| && Relisted(s, os[..i], kept)
    ensures Relisted(s, os, kept + os[i..])
  {
    assert os == os[..i] + os[i..];
    var all := kept + os[i..];
    forall k | 0 <= k < |all| ensures all[k] in os {
      if k < |kept| { assert kept[k] in os[..i]; } else { assert all[k] == os[i..][k - |kept|]; }
    }
  }

  function SizeOf(s: State, c: int): nat { if 0 <= c < |s.clauses| then |s.clauses[c].lits| else 0 }

  /** Inserts behind all clauses that are not larger. */
  function InsertBySize(s: State, list: seq<int>, c: int): seq<int> {
    if list == [] || SizeOf(s, list[|list| - 1]) <= SizeOf(s, c) then list + [c]
    else InsertBySize(s, list[..|list| - 1], c) + [list[|list| - 1]]
  }

  /** The stable order, smaller clauses first. */
  function SortBySize(s: State, list: seq<int>): seq<int> {
    if list == [] then [] else InsertBySize(s, SortBySize(s, list[..|list| - 1]), list[|list| - 1])
  }

  lemma {:induction false} InsertKeeps(s: State, list: seq<int>, c: int)
    ensures multiset(InsertBySize(s, list, c)) == multiset(list) + multiset{c}
  {
    if !(list == [] || SizeOf(s, list[|list| - 1]) <= SizeOf(s, c)) {
      InsertKeeps(s, list[..|list| - 1], c);
      assert list == list[..|list| - 1] + [list[|list| - 1]];
    }
  }

  lemma {:induction false} SortKeeps(s: State, list: seq<int>)
    ensures multiset(SortBySize(s, list)) == multiset(list)
  {
    if list != [] {
      SortKeeps(s, list[..|list| - 1]);
      InsertKeeps(s, SortBySize(s, list[..|list| - 1]), list[|list| - 1]);
      assert list == list[..|list| - 1] + [list[|list| - 1]];
    }
  }

  /** Smaller clauses come first. */
  ghost predicate BySize(s: State, list: seq<int>) {
    forall i, j :: 0 <= i <= j < |list| ==> SizeOf(s, list[i]) <= SizeOf(s, list[j])
  }

  /** Sorting orders the clauses by size and keeps every entry. */
  lemma {:induction false} SortIsOrdered(s: State, list: seq<int>)
    ensures multiset(SortBySize(s, list)) == multiset(list)
    ensures BySize(s, SortBySize(s, list))
  {
    SortKeeps(s, list);
    if list != [] {
      SortIsOrdered(s, list[..|list| - 1]);
      InsertIsOrdered(s, SortBySize(s, list[..|list| - 1]), list[|list| - 1]);
    }
  }

  lemma {:induction false} InsertIsOrdered(s: State, list: seq<int>, c: int)
    requires BySize(s, list)
    ensures BySize(s, InsertBySize(s, list, c))
  {
    if !(list == [] || SizeOf(s, list[|list| - 1]) <= SizeOf(s, c)) {
      var init := list[..|list| - 1];
      InsertIsOrdered(s, init, c);
      InsertKeeps(s, init, c);
      var r := InsertBySize(s, init, c);
      forall i | 0 <= i < |r| ensures SizeOf(s, r[i]) <= SizeOf(s, list[|list| - 1]) {
        assert r[i] in multiset(r);
        assert r[i] in init || r[i] == c;
      }
    }
  }

  method SortOccs(s: Solver, lit: int)
    requires s.Valid() && IsLit(s.maxVar, lit)
    modifies s`occs
    ensures s.Valid() && s.occs == old(s.occs)[lit := SortBySize(s.Now(), At(old(s.occs), lit))]
  {
    OccsOf(s.maxVar, s.Now(), s.occs, s.inactive, lit);
    var list := s.occs[lit];
    var sorted := SortBySize(s.Now(), list);
    SortRelists(s.Now(), list);
    RelistWellFormed(s.maxVar, s.Now(), s.occs, s.inactive, lit, sorted);
    s.occs := s.occs[lit := sorted];
  }

  lemma SortRelists(s: State, list: seq<int>)
    ensures Relisted(s, list, SortBySize(s, list))
  {
    var sorted := SortBySize(s, list);
    SortKeeps(s, list);
    forall k | 0 <= k < |sorted| ensures sorted[k] in list { assert sorted[k] in multiset(sorted); }
    forall c: nat | c in list ensures c in sorted { assert c in multiset(list); }
  }

  // --------------------------------------------------------- the attempt

  /** How many clauses of a list have a proper resolvent with c. */
  ghost function ProperInRow(s: State, c: int, ns: seq<int>, p: int): nat {
    if ns == [] then 0 else ProperInRow(s, c, ns[..|ns| - 1], p) + if Proper(s, c, ns[|ns| - 1], p) then 1 else 0
  }

  /** How many pairs of two lists have one. */
  ghost function ProperPairs(s: State, ps: seq<int>, ns: seq<int>, p: int): nat {
    if ps == [] then 0 else ProperPairs(s, ps[..|ps| - 1], ns, p) + ProperInRow(s, ps[|ps| - 1], ns, p)
  }

  /** The pairs of positions in two lists whose clauses have one. */
  ghost function ProperPositions(s: State, ps: seq<int>, ns: seq<int>, p: int): set<(int, int)> {
    set a, b | 0 <= a < |ps| && 0 <= b < |ns| && Proper(s, ps[a], ns[b], p) :: (a, b)
  }

  ghost function RowPositions(s: State, a: nat, c: int, ns: seq<int>, p: int): set<(int, int)> {
    set b | 0 <= b < |ns| && Proper(s, c, ns[b], p) :: (a, b)
  }

  lemma {:induction false} RowCount(s: State, a: nat, c: int, ns: seq<int>, p: int)
    ensures ProperInRow(s, c, ns, p) == |RowPositions(s, a, c, ns, p)|
  {
    if ns == [] {
      assert RowPositions(s, a, c, ns, p) == {};
    } else {
      var n := |ns| - 1;
      RowCount(s, a, c, ns[..n], p);
      assert RowPositions(s, a, c, ns, p) == RowPositions(s, a, c, ns[..n], p) + if Proper(s, c, ns[n], p) then {(a, n)} else {};
    }
  }

  lemma PositionsSplit(s: State, ps: seq<int>, ns: seq<int>, p: int)
    requires ps != []
    ensures var n := |ps| - 1; var rest, last := ProperPositions(s, ps[..n], ns, p), RowPositions(s, n, ps[n], ns, p);
      ProperPositions(s, ps, ns, p) == rest + last && rest !! last
  {
    var n := |ps| - 1;
    var rest, last := ProperPositions(s, ps[..n], ns, p), RowPositions(s, n, ps[n], ns, p);
    forall a, b ensures (a, b) in ProperPositions(s, ps, ns, p) <==> (a, b) in rest || (a, b) in last {}
  }

  /** The count is the number of pairs. */
  lemma {:induction false} ProperPairsCount(s: State, ps: seq<int>, ns: seq<int>, p: int)
    ensures ProperPairs(s, ps, ns, p) == |ProperPositions(s, ps, ns, p)|
  {
    if ps == [] {
      assert ProperPositions(s, ps, ns, p) == {};
    } else {
      var n := |ps| - 1;
      var rest, last := ProperPositions(s, ps[..n], ns, p), RowPositions(s, n, ps[n], ns, p);
      ProperPairsCount(s, ps[..n], ns, p);
      RowCount(s, n, ps[n], ns, p);
      PositionsSplit(s, ps, ns, p);
    }
  }

  ghost predicate SmallResolvents(s: State, ps: seq<int>, ns: seq<int>, i: nat, j: nat, p: int, sizeLimit: nat) {
    forall a, b {:trigger ps[a], ns[b]} :: 0 <= a < |ps| && 0 <= b < |ns| && (a < i || (a == i && b < j)) && Proper(s, ps[a], ns[b], p) ==>
      ResolventSize(s, ps[a], ns[b], p) <= sizeLimit
  }

  /** The bound of elimination: the option, and never more than the clauses that go. */
  predicate WithinBound(n: int, ps: seq<int>, ns: seq<int>, fastBound: int) { n <= fastBound && n <= |ps| + |ns| }

  ghost predicate AllSmall(s: State, ps: seq<int>, ns: seq<int>, p: int, sizeLimit: nat) {
    forall c, d :: c in ps && d in ns && Proper(s, c, d, p) ==> ResolventSize(s, c, d, p) <= sizeLimit
  }

  /** The criterion of bounded elimination: no more proper resolvents than the bound, and
      none of them too large, unless all pairs together are few enough. */
  ghost predicate Bounded(s: State, ps: seq<int>, ns: seq<int>, p: int, fastBound: int, sizeLimit: nat) {
    FitsBound(ps, ns, fastBound) || (ps != [] && ns != [] && FewProper(s, ps, ns, p, fastBound, sizeLimit))
  }

  predicate FitsBound(ps: seq<int>, ns: seq<int>, fastBound: int) {
    if ps == [] || ns == [] then fastBound >= 0 else WithinBound(|ps| * |ns|, ps, ns, fastBound)
  }

  ghost predicate FewProper(s: State, ps: seq<int>, ns: seq<int>, p: int, fastBound: int, sizeLimit: nat) {
    AllSmall(s, ps, ns, p, sizeLimit) && (ProperPairs(s, ps, ns, p) == 0 || WithinBound(ProperPairs(s, ps, ns, p), ps, ns, fastBound))
  }

  /** Resolving changes nothing for any pair. */
  ghost predicate AllQuiet(s: State, ps: seq<int>, ns: seq<int>, p: int) { forall c, d :: c in ps && d in ns ==> Quiet(s, c, d, p) }

  function BoundFor(ps: seq<int>, ns: seq<int>, fastBound: int): int {
    if fastBound > |ps| + |ns| then |ps| + |ns| else fastBound
  }

  /** The proper pairs before (i, j). */
  ghost function ProperBefore(s: State, ps: seq<int>, ns: seq<int>, i: nat, j: nat, p: int): nat
    requires i <= |ps| && j <= |ns|
  {
    ProperPairs(s, ps[..i], ns, p) + if i < |ps| then ProperInRow(s, ps[i], ns[..j], p) else 0
  }

  /** The counter lies between what is proper now and what was at the start. Kept folded. */
  ghost predicate Counting(before: State, now: State, ps: seq<int>, ns: seq<int>, i: nat, j: nat, p: int, count: nat, bound: int, sizeLimit: nat) {
    forall n {:trigger Unfold(n)} :: Unfold(n) ==>
      && ListOk(before, p, ps) && ListOk(before, -p, ns)
      && i <= |ps| && j <= |ns| && (i == |ps| ==> j == 0)
      && ProperBefore(now, ps, ns, i, j, p) <= count <= ProperBefore(before, ps, ns, i, j, p)
      && SmallResolvents(now, ps, ns, i, j, p, sizeLimit) && (count == 0 || count <= bound)
  }

  lemma CountStart(s: State, ps: seq<int>, ns: seq<int>, p: int, bound: int, sizeLimit: nat)
    requires ps != [] && ListOk(s, p, ps) && ListOk(s, -p, ns)
    ensures Counting(s, s, ps, ns, 0, 0, p, 0, bound, sizeLimit)
  {
  }

  lemma {:induction false} RowShrinks(s: State, t: State, c: int, ns: seq<int>, p: int)
    requires Extends(s, t) && s.units <= t.units && 0 <= c < |s.clauses| && forall k :: 0 <= k < |ns| ==> 0 <= ns[k] < |s.clauses|
    ensures ProperInRow(t, c, ns, p) <= ProperInRow(s, c, ns, p)
  {
    if ns != [] {
      RowShrinks(s, t, c, ns[..|ns| - 1], p);
      ProperShrinks(s, t, c, ns[|ns| - 1], p);
    }
  }

  lemma {:induction false} PairsShrink(s: State, t: State, ps: seq<int>, ns: seq<int>, p: int)
    requires Extends(s, t) && s.units <= t.units
    requires (forall k :: 0 <= k < |ps| ==> 0 <= ps[k] < |s.clauses|) && forall k :: 0 <= k < |ns| ==> 0 <= ns[k] < |s.clauses|
    ensures ProperPairs(t, ps, ns, p) <= ProperPairs(s, ps, ns, p)
  {
    if ps != [] {
      PairsShrink(s, t, ps[..|ps| - 1], ns, p);
      RowShrinks(s, t, ps[|ps| - 1], ns, p);
    }
  }

  lemma BeforeShrinks(s: State, t: State, ps: seq<int>, ns: seq<int>, i: nat, j: nat, p: int)
    requires Extends(s, t) && s.units <= t.units && ListOk(s, p, ps) && ListOk(s, -p, ns) && i <= |ps| && j <= |ns|
    ensures ProperBefore(t, ps, ns, i, j, p) <= ProperBefore(s, ps, ns, i, j, p)
  {
    PairsShrink(s, t, ps[..i], ns, p);
    if i < |ps| { RowShrinks(s, t, ps[i], ns[..j], p); }
  }

  lemma BeforeNext(s: State, ps: seq<int>, ns: seq<int>, i: nat, j: nat, p: int)
    requires i < |ps| && j < |ns|
    ensures ProperBefore(s, ps, ns, i, j + 1, p) == ProperBefore(s, ps, ns, i, j, p) + if Proper(s, ps[i], ns[j], p) then 1 else 0
  {
    assert ns[..j + 1] == ns[..j] + [ns[j]];
  }

  lemma BeforeRow(s: State, ps: seq<int>, ns: seq<int>, i: nat, p: int)
    requires i < |ps|
    ensures ProperBefore(s, ps, ns, i + 1, 0, p) == ProperBefore(s, ps, ns, i, |ns|, p)
  {
    assert ps[..i + 1] == ps[..i] + [ps[i]] && ns[..|ns|] == ns;
    if i + 1 < |ps| { assert ns[..0] == []; }
  }

  lemma SmallShrinks(s: State, t: State, ps: seq<int>, ns: seq<int>, i: nat, j: nat, p: int, sizeLimit: nat)
    requires Extends(s, t) && s.units <= t.units && ListOk(s, p, ps) && ListOk(s, -p, ns) && SmallResolvents(s, ps, ns, i, j, p, sizeLimit)
    ensures SmallResolvents(t, ps, ns, i, j, p, sizeLimit)
  {
    forall a, b {:trigger ps[a], ns[b]} | 0 <= a < |ps| && 0 <= b < |ns| && (a < i || (a == i && b < j)) && Proper(t, ps[a], ns[b], p)
      ensures ResolventSize(t, ps[a], ns[b], p) <= sizeLimit
    {
      ProperShrinks(s, t, ps[a], ns[b], p);
    }
  }

  lemma CountStep(before: State, mid: State, now: State, ps: seq<int>, ns: seq<int>, i: nat, j: nat, p: int, count: nat, bound: int, sizeLimit: nat, useful: bool)
    requires Counting(before, mid, ps, ns, i, j, p, count, bound, sizeLimit) && i < |ps| && j < |ns|
    requires Step(before, mid) && Step(mid, now) && ListOk(mid, p, ps) && ListOk(mid, -p, ns) && (useful <==> Proper(now, ps[i], ns[j], p))
    requires useful ==> ResolventSize(now, ps[i], ns[j], p) <= sizeLimit && count + 1 <= bound
    ensures Counting(before, now, ps, ns, i, j + 1, p, if useful then count + 1 else count, bound, sizeLimit)
  {
    assert Unfold(0);
    BeforeShrinks(mid, now, ps, ns, i, j, p);
    BeforeNext(now, ps, ns, i, j, p);
    BeforeNext(before, ps, ns, i, j, p);
    SmallShrinks(mid, now, ps, ns, i, j, p, sizeLimit);
    StepTrans(before, mid, now);
    ProperShrinks(before, now, ps[i], ns[j], p);
  }

  lemma CountRow(before: State, now: State, ps: seq<int>, ns: seq<int>, i: nat, p: int, count: nat, bound: int, sizeLimit: nat)
    requires Counting(before, now, ps, ns, i, |ns|, p, count, bound, sizeLimit) && i < |ps|
    ensures Counting(before, now, ps, ns, i + 1, 0, p, count, bound, sizeLimit)
  {
    assert Unfold(0);
    BeforeRow(now, ps, ns, i, p);
    BeforeRow(before, ps, ns, i, p);
  }

  /** Clauses that are not live have no proper resolvents. */
  lemma CountSkip(before: State, now: State, ps: seq<int>, ns: seq<int>, i: nat, p: int, count: nat, bound: int, sizeLimit: nat)
    requires Counting(before, now, ps, ns, i, 0, p, count, bound, sizeLimit) && i < |ps| && (ps[i] < 0 || !Live(now, ps[i]))
    ensures Counting(before, now, ps, ns, i + 1, 0, p, count, bound, sizeLimit)
  {
    assert Unfold(0);
    BeforeRow(now, ps, ns, i, p);
    BeforeRow(before, ps, ns, i, p);
    NoneInRow(now, ps[i], ns[..|ns|], p);
    assert ns[..0] == [];
  }

  lemma {:induction false} NoneInRow(s: State, c: int, ns: seq<int>, p: int)
    requires c < 0 || !Live(s, c)
    ensures ProperInRow(s, c, ns, p) == 0
  {
    if ns != [] { NoneInRow(s, c, ns[..|ns| - 1], p); }
  }

  lemma {:induction false} RowGrows(s: State, c: int, ns: seq<int>, j: nat, p: int)
    requires j <= |ns|
    ensures ProperInRow(s, c, ns[..j], p) <= ProperInRow(s, c, ns, p)
    decreases |ns| - j
  {
    if j < |ns| {
      assert ns[..j + 1][..j] == ns[..j];
      RowGrows(s, c, ns, j + 1, p);
    } else {
      assert ns[..j] == ns;
    }
  }

  lemma {:induction false} PairsGrow(s: State, ps: seq<int>, ns: seq<int>, i: nat, p: int)
    requires i <= |ps|
    ensures ProperPairs(s, ps[..i], ns, p) <= ProperPairs(s, ps, ns, p)
    decreases |ps| - i
  {
    if i < |ps| {
      assert ps[..i + 1][..i] == ps[..i];
      PairsGrow(s, ps, ns, i + 1, p);
    } else {
      assert ps[..i] == ps;
    }
  }

  lemma BeforeIsLess(s: State, ps: seq<int>, ns: seq<int>, i: nat, j: nat, p: int)
    requires i < |ps| && j <= |ns|
    ensures ProperBefore(s, ps, ns, i, j, p) <= ProperPairs(s, ps, ns, p)
  {
    assert ps[..i + 1] == ps[..i] + [ps[i]];
    RowGrows(s, ps[i], ns, j, p);
    PairsGrow(s, ps, ns, i + 1, p);
  }

  /** One resolvent more than the bound, or a too large one, breaks the criterion that the
      clauses met at the start. */
  lemma CountExceeded(before: State, mid: State, ps: seq<int>, ns: seq<int>, i: nat, j: nat, p: int, count: nat, fastBound: int, sizeLimit: nat)
    requires Counting(before, mid, ps, ns, i, j, p, count, BoundFor(ps, ns, fastBound), sizeLimit) && i < |ps| && j < |ns|
    requires Step(before, mid) && Proper(mid, ps[i], ns[j], p) && |ps| * |ns| > BoundFor(ps, ns, fastBound)
    requires ResolventSize(mid, ps[i], ns[j], p) > sizeLimit || count + 1 > BoundFor(ps, ns, fastBound)
    ensures !Bounded(before, ps, ns, p, fastBound, sizeLimit)
  {
    assert Unfold(0);
    ProperShrinks(before, mid, ps[i], ns[j], p);
    BeforeNext(before, ps, ns, i, j, p);
    BeforeIsLess(before, ps, ns, i, j + 1, p);
    assert ps[i] in ps && ns[j] in ns;
  }

  lemma CountEnd(before: State, now: State, ps: seq<int>, ns: seq<int>, p: int, count: nat, fastBound: int, sizeLimit: nat)
    requires Counting(before, now, ps, ns, |ps|, 0, p, count, BoundFor(ps, ns, fastBound), sizeLimit) && ps != [] && ns != []
    ensures Bounded(now, ps, ns, p, fastBound, sizeLimit)
  {
    assert Unfold(0);
    assert ps[..|ps|] == ps;
    forall c, d | c in ps && d in ns && Proper(now, c, d, p) ensures ResolventSize(now, c, d, p) <= sizeLimit {
      var a :| 0 <= a < |ps| && ps[a] == c;
      var b :| 0 <= b < |ns| && ns[b] == d;
      assert Proper(now, ps[a], ns[b], p);
    }
  }

  /** Counts the resolvents, propagating units on the way; false when there are too
      many, one is too long, or the pivot or everything got decided. If it answers true, the
      criterion holds for the clauses it leaves; if false without a decision, it failed for
      those it started from. If all pairs are quiet, these are the same. */
  method ElimfastResolventsAreBounded(s: Solver, pivot: int, fastBound: int, sizeLimit: nat) returns (ok: bool)
    requires s.Valid() && !s.unsat && s.clause == [] && s.marks == {} && IsLit(s.maxVar, pivot) && s.Active(pivot)
    modifies s`clauses, s`units, s`unsat, s`occs, s`clause, s`marks
    ensures s.Valid() && s.clause == [] && s.marks == {} && Step(old(s.Now()), s.Now())
    ensures ok ==> !s.unsat && s.Active(pivot)
    ensures ok ==> Bounded(s.Now(), At(old(s.occs), pivot), At(old(s.occs), -pivot), pivot, fastBound, sizeLimit)
    ensures !ok && !s.unsat && s.Active(pivot) ==>
              !Bounded(old(s.Now()), At(old(s.occs), pivot), At(old(s.occs), -pivot), pivot, fastBound, sizeLimit)
    ensures AllQuiet(old(s.Now()), At(old(s.occs), pivot), At(old(s.occs), -pivot), pivot) ==> s.Now() == old(s.Now())
  {
    ghost var before := s.Now();
    OccsOf(s.maxVar, before, s.occs, s.inactive, pivot);
    OccsOf(s.maxVar, before, s.occs, s.inactive, -pivot);
    var ps, ns := s.occs[pivot], s.occs[-pivot];
    if ps == [] || ns == [] { return fastBound >= 0; }
    var bound := BoundFor(ps, ns, fastBound);
    if |ps| * |ns| <= bound { return true; }
    var resolvents := 0;
    CountStart(before, ps, ns, pivot, bound, sizeLimit);
    for i := 0 to |ps|
      invariant s.Valid() && s.clause == [] && s.marks == {} && Step(before, s.Now()) && !s.unsat && s.Active(pivot)
      invariant ListOk(s.Now(), pivot, ps) && ListOk(s.Now(), -pivot, ns)
      invariant Counting(before, s.Now(), ps, ns, i, 0, pivot, resolvents, bound, sizeLimit)
      invariant AllQuiet(before, ps, ns, pivot) ==> s.Now() == before
    {
      if s.clauses[ps[i]].garbage {
        CountSkip(before, s.Now(), ps, ns, i, pivot, resolvents, bound, sizeLimit);
        continue;
      }
      var stop;
      stop, resolvents := CountAgainst(s, ps, ns, i, pivot, resolvents, fastBound, sizeLimit, before);
      if stop { return false; }
    }
    CountEnd(before, s.Now(), ps, ns, pivot, resolvents, fastBound, sizeLimit);
    ok := true;
  }

  /** Counts the resolvents of one clause, until a reason to stop is found. */
  method CountAgainst(s: Solver, ps: seq<int>, ns: seq<int>, i: nat, pivot: int, count: nat, fastBound: int, sizeLimit: nat, ghost before: State)
    returns (stop: bool, resolvents: nat)
    requires s.Valid() && s.clause == [] && s.marks == {} && Step(before, s.Now()) && IsLit(s.maxVar, pivot) && !s.unsat && s.Active(pivot)
    requires !before.unsat && pivot !in before.units && -pivot !in before.units
    requires ListOk(s.Now(), pivot, ps) && ListOk(s.Now(), -pivot, ns) && i < |ps| && |ps| * |ns| > BoundFor(ps, ns, fastBound)
    requires Counting(before, s.Now(), ps, ns, i, 0, pivot, count, BoundFor(ps, ns, fastBound), sizeLimit)
    requires AllQuiet(before, ps, ns, pivot) ==> s.Now() == before
    modifies s`clauses, s`units, s`unsat, s`occs, s`clause, s`marks
    ensures s.Valid() && s.clause == [] && s.marks == {} && Step(before, s.Now())
    ensures stop && !s.unsat && s.Active(pivot) ==> !Bounded(before, ps, ns, pivot, fastBound, sizeLimit)
    ensures !stop ==> !s.unsat && s.Active(pivot) && ListOk(s.Now(), pivot, ps) && ListOk(s.Now(), -pivot, ns)
    ensures !stop ==> Counting(before, s.Now(), ps, ns, i + 1, 0, pivot, resolvents, BoundFor(ps, ns, fastBound), sizeLimit)
    ensures AllQuiet(before, ps, ns, pivot) ==> s.Now() == before
  {
    var bound := BoundFor(ps, ns, fastBound);
    stop, resolvents := false, count;
    for j := 0 to |ns|
      invariant s.Valid() && s.clause == [] && s.marks == {} && Step(before, s.Now()) && !s.unsat && s.Active(pivot)
      invariant ListOk(s.Now(), pivot, ps) && ListOk(s.Now(), -pivot, ns)
      invariant Counting(before, s.Now(), ps, ns, i, j, pivot, resolvents, bound, sizeLimit)
      invariant AllQuiet(before, ps, ns, pivot) ==> s.Now() == before
    {
      ghost var now := s.Now();
      QuietAt(before, ps, ns, pivot, i, j);
      var useful, size := CountResolvent(s, ps[i], pivot, ns[j]);
      StepTrans(before, now, s.Now());
      ListStays(now, s.Now(), pivot, ps);
      ListStays(now, s.Now(), -pivot, ns);
      if useful && (size > sizeLimit || resolvents + 1 > bound) {
        CountExceeded(before, now, ps, ns, i, j, pivot, resolvents, fastBound, sizeLimit);
        stop := true;
        return;
      }
      if !useful && (s.unsat || pivot in s.units || -pivot in s.units) {
        stop := true;
        return;
      }
      CountStep(before, now, s.Now(), ps, ns, i, j, pivot, resolvents, bound, sizeLimit, useful);
      if useful { resolvents := resolvents + 1; }
    }
    CountRow(before, s.Now(), ps, ns, i, pivot, resolvents, bound, sizeLimit);
  }

  lemma QuietAt(s: State, ps: seq<int>, ns: seq<int>, p: int, i: nat, j: nat)
    requires i < |ps| && j < |ns|
    ensures AllQuiet(s, ps, ns, p) ==> Quiet(s, ps[i], ns[j], p)
  {
  }

  /** Resolves one pair and drops the resolvent; a clause that is gone has none. */
  method CountResolvent(s: Solver, c: nat, pivot: int, d: nat) returns (useful: bool, size: nat)
    requires s.Valid() && !s.unsat && s.clause == [] && s.marks == {} && IsLit(s.maxVar, pivot) && s.Active(pivot)
    requires c < |s.clauses| && d < |s.clauses| && pivot in s.clauses[c].lits && -pivot in s.clauses[d].lits
    modifies s`clauses, s`units, s`unsat, s`occs, s`clause, s`marks
    ensures s.Valid() && s.clause == [] && s.marks == {} && Step(old(s.Now()), s.Now())
    ensures if useful then Proper(s.Now(), c, d, pivot) else s.unsat || !Proper(s.Now(), c, d, pivot)
    ensures useful ==> s.Now() == old(s.Now()) && size == ResolventSize(s.Now(), c, d, pivot)
    ensures Quiet(old(s.Now()), c, d, pivot) ==> s.Now() == old(s.Now())
  {
    if s.clauses[d].garbage { return false, 0; }
    useful := ResolveClauses(s, c, pivot, d, true);
    size := |s.clause|;
    s.clause := [];
  }

  lemma StillLeftAlone(entries: seq<Entry>, saved: seq<Entry>, p: int, frozen: set<nat>)
    requires LeavesAlone(entries, frozen) && Abs(p) !in frozen
    requires forall e :: 0 <= e < |saved| ==> saved[e].flips == [p] || saved[e].flips == [-p]
    ensures LeavesAlone(entries + saved, frozen)
  {
  }

  /** Adds the resolvents, saves and removes the clauses, retires the variable. */
  method Eliminate(s: Solver, pivot: int)
    requires s.Valid() && s.Kept() && !s.unsat && s.clause == [] && s.marks == {} && IsLit(s.maxVar, pivot) && s.Active(pivot) && Abs(pivot) !in s.frozen
    modifies s`clauses, s`units, s`unsat, s`occs, s`clause, s`marks, s`inactive, s.stack
    ensures s.Valid() && s.Kept() && s.clause == [] && s.marks == {}
    ensures s.inactive == old(s.inactive) + {Abs(pivot)} && (!s.unsat ==> NoMention(s.Now(), Abs(pivot)))
  {
    ghost var before, ps, ns := s.Now(), At(s.occs, pivot), At(s.occs, -pivot);
    ghost var original, entries := s.original, s.stack.entries;
    AddResolvents(s, pivot, ps, ns);
    SoundSame(original, before, entries, s.Now());
    if !s.unsat {
      ghost var now := s.Now();
      DoneCovers(s.maxVar, before, now, s.occs, s.inactive, pivot);
      ghost var saved := MarkEliminatedClausesAsGarbage(s, pivot);
      SoundMore(original, now, entries, s.Now(), saved);
      StillLeftAlone(entries, saved, pivot, s.frozen);
    }
    if s.Active(pivot) {
      InactiveWellFormed(s.maxVar, s.Now(), s.occs, s.inactive, pivot);
      s.inactive := s.inactive + {Abs(pivot)};
    }
  }

  // ---------------------------------------------- the order of the lists

  lemma {:induction false} InsertInRow(s: State, t: State, c: int, ns: seq<int>, d: int, p: int)
    ensures ProperInRow(t, c, InsertBySize(s, ns, d), p) == ProperInRow(t, c, ns, p) + if Proper(t, c, d, p) then 1 else 0
  {
    if !(ns == [] || SizeOf(s, ns[|ns| - 1]) <= SizeOf(s, d)) { InsertInRow(s, t, c, ns[..|ns| - 1], d, p); }
  }

  lemma {:induction false} SortInRow(s: State, t: State, c: int, ns: seq<int>, p: int)
    ensures ProperInRow(t, c, SortBySize(s, ns), p) == ProperInRow(t, c, ns, p)
  {
    if ns != [] {
      SortInRow(s, t, c, ns[..|ns| - 1], p);
      InsertInRow(s, t, c, SortBySize(s, ns[..|ns| - 1]), ns[|ns| - 1], p);
    }
  }

  lemma {:induction false} InsertInPairs(s: State, t: State, ps: seq<int>, c: int, ns: seq<int>, p: int)
    ensures ProperPairs(t, InsertBySize(s, ps, c), ns, p) == ProperPairs(t, ps, ns, p) + ProperInRow(t, c, ns, p)
  {
    if !(ps == [] || SizeOf(s, ps[|ps| - 1]) <= SizeOf(s, c)) { InsertInPairs(s, t, ps[..|ps| - 1], c, ns, p); }
  }

  /** Sorting both lists does not change the count. */
  lemma {:induction false} SortInPairs(s: State, t: State, ps: seq<int>, ns: seq<int>, p: int)
    ensures ProperPairs(t, SortBySize(s, ps), SortBySize(s, ns), p) == ProperPairs(t, ps, ns, p)
  {
    if ps != [] {
      var init, c := ps[..|ps| - 1], ps[|ps| - 1];
      SortInPairs(s, t, init, ns, p);
      InsertInPairs(s, t, SortBySize(s, init), c, SortBySize(s, ns), p);
      SortInRow(s, t, c, ns, p);
    }
  }

  lemma {:induction false} PairsOneMore(s: State, ps: seq<int>, ns: seq<int>, d: int, p: int)
    ensures ProperPairs(s, ps, ns + [d], p) == ProperPairs(s, ps, ns, p) + ProperInRow(s, d, ps, -p)
  {
    if ps != [] {
      var c := ps[|ps| - 1];
      PairsOneMore(s, ps[..|ps| - 1], ns, d, p);
      ProperSwap(s, c, d, p);
      assert (ns + [d])[..|ns|] == ns;
    }
  }

  lemma {:induction false} NoPairs(s: State, ps: seq<int>, p: int)
    ensures ProperPairs(s, ps, [], p) == 0
  {
    if ps != [] { NoPairs(s, ps[..|ps| - 1], p); }
  }

  /** Nor does swapping the phases. */
  lemma {:induction false} PairsSwap(s: State, ps: seq<int>, ns: seq<int>, p: int)
    ensures ProperPairs(s, ps, ns, p) == ProperPairs(s, ns, ps, -p)
  {
    if ns == [] {
      NoPairs(s, ps, p);
    } else {
      PairsSwap(s, ps, ns[..|ns| - 1], p);
      PairsOneMore(s, ps, ns[..|ns| - 1], ns[|ns| - 1], p);
      assert ns == ns[..|ns| - 1] + [ns[|ns| - 1]];
    }
  }

  lemma SortMembers(s: State, list: seq<int>)
    ensures |SortBySize(s, list)| == |list| && forall c :: c in SortBySize(s, list) <==> c in list
  {
    SortKeeps(s, list);
    assert |multiset(SortBySize(s, list))| == |multiset(list)|;
    forall c ensures c in SortBySize(s, list) <==> c in list { assert c in multiset(SortBySize(s, list)) <==> c in multiset(list); }
  }

  lemma BoundedSorted(s: State, t: State, ps: seq<int>, ns: seq<int>, p: int, fastBound: int, sizeLimit: nat)
    ensures Bounded(t, SortBySize(s, ps), SortBySize(s, ns), p, fastBound, sizeLimit) <==> Bounded(t, ps, ns, p, fastBound, sizeLimit)
    ensures AllQuiet(t, SortBySize(s, ps), SortBySize(s, ns), p) <==> AllQuiet(t, ps, ns, p)
    ensures FitsBound(SortBySize(s, ps), SortBySize(s, ns), fastBound) <==> FitsBound(ps, ns, fastBound)
  {
    SortMembers(s, ps);
    SortMembers(s, ns);
    SortInPairs(s, t, ps, ns, p);
  }

  lemma AllSmallSwap(s: State, ps: seq<int>, ns: seq<int>, p: int, sizeLimit: nat)
    requires AllSmall(s, ps, ns, p, sizeLimit)
    ensures AllSmall(s, ns, ps, -p, sizeLimit)
  {
    forall d, c | d in ns && c in ps && Proper(s, d, c, -p) ensures ResolventSize(s, d, c, -p) <= sizeLimit {
      ProperSwap(s, c, d, p);
      SizeSwap(s, c, d, p);
    }
  }

  lemma AllQuietSwap(s: State, ps: seq<int>, ns: seq<int>, p: int)
    requires AllQuiet(s, ps, ns, p)
    ensures AllQuiet(s, ns, ps, -p)
  {
    forall d, c | d in ns && c in ps ensures Quiet(s, d, c, -p) { QuietSwap(s, c, d, p); }
  }

  lemma BoundedSwap(s: State, ps: seq<int>, ns: seq<int>, p: int, fastBound: int, sizeLimit: nat)
    ensures Bounded(s, ps, ns, p, fastBound, sizeLimit) <==> Bounded(s, ns, ps, -p, fastBound, sizeLimit)
    ensures AllQuiet(s, ps, ns, p) <==> AllQuiet(s, ns, ps, -p)
    ensures FitsBound(ps, ns, fastBound) <==> FitsBound(ns, ps, fastBound)
  {
    PairsSwap(s, ps, ns, p);
    assert -(-p) == p;
    if AllSmall(s, ps, ns, p, sizeLimit) { AllSmallSwap(s, ps, ns, p, sizeLimit); }
    if AllSmall(s, ns, ps, -p, sizeLimit) { AllSmallSwap(s, ns, ps, -p, sizeLimit); }
    if AllQuiet(s, ps, ns, p) { AllQuietSwap(s, ps, ns, p); }
    if AllQuiet(s, ns, ps, -p) { AllQuietSwap(s, ns, ps, -p); }
    assert |ps| * |ns| == |ns| * |ps|;
  }

  // -------------------------------------------------------- the decision

  /** The verdict on a pivot: a variable goes only if the criterion holds for the clauses
      that counting leaves; if it stays undecided, the criterion failed for the clauses
      at the start. Counting changes nothing if it is not needed, or all pairs are quiet. */
  ghost predicate Decided(before: State, counted: State, now: State, gone: bool, undecided: bool,
                          ps: seq<int>, ns: seq<int>, p: int, fastBound: int, sizeLimit: nat) {
    forall n {:trigger Unfold(n)} :: Unfold(n) ==>
      && Step(before, counted) && (FitsBound(ps, ns, fastBound) || AllQuiet(before, ps, ns, p) ==> counted == before)
      && (gone ==> Bounded(counted, ps, ns, p, fastBound, sizeLimit))
      && (!gone ==> now == counted && (undecided ==> !Bounded(before, ps, ns, p, fastBound, sizeLimit)))
  }

  lemma DecidedSorted(before: State, counted: State, now: State, gone: bool, undecided: bool, ps: seq<int>, ns: seq<int>, p: int, fastBound: int, sizeLimit: nat)
    ensures Decided(before, counted, now, gone, undecided, SortBySize(before, ps), SortBySize(before, ns), p, fastBound, sizeLimit) <==>
              Decided(before, counted, now, gone, undecided, ps, ns, p, fastBound, sizeLimit)
  {
    assert Unfold(0);
    BoundedSorted(before, before, ps, ns, p, fastBound, sizeLimit);
    BoundedSorted(before, counted, ps, ns, p, fastBound, sizeLimit);
  }

  lemma DecidedSwap(before: State, counted: State, now: State, gone: bool, undecided: bool, ps: seq<int>, ns: seq<int>, p: int, fastBound: int, sizeLimit: nat)
    ensures Decided(before, counted, now, gone, undecided, ns, ps, -p, fastBound, sizeLimit) <==>
              Decided(before, counted, now, gone, undecided, ps, ns, p, fastBound, sizeLimit)
  {
    assert Unfold(0);
    BoundedSwap(before, ps, ns, p, fastBound, sizeLimit);
    BoundedSwap(counted, ps, ns, p, fastBound, sizeLimit);
  }

  /** Without a clause of one phase only the option decides. */
  lemma DecidedEmpty(before: State, counted: State, now: State, gone: bool, undecided: bool, ps: seq<int>, ns: seq<int>, ps': seq<int>, ns': seq<int>, p: int, fastBound: int, sizeLimit: nat)
    requires (ps == [] && ps' == []) || (ns == [] && ns' == [])
    ensures Decided(before, counted, now, gone, undecided, ps, ns, p, fastBound, sizeLimit) <==>
              Decided(before, counted, now, gone, undecided, ps', ns', p, fastBound, sizeLimit)
  {
    assert Unfold(0);
  }

  lemma DecidedAtOnce(s: State, now: State, gone: bool, undecided: bool, ps: seq<int>, ns: seq<int>, p: int, fastBound: int, sizeLimit: nat)
    requires FitsBound(ps, ns, fastBound) && gone
    ensures Decided(s, s, now, gone, undecided, ps, ns, p, fastBound, sizeLimit)
  {
  }

  lemma DecidedByCounting(before: State, counted: State, now: State, gone: bool, undecided: bool, ps: seq<int>, ns: seq<int>, p: int, fastBound: int, sizeLimit: nat)
    requires Step(before, counted) && !FitsBound(ps, ns, fastBound) && (AllQuiet(before, ps, ns, p) ==> counted == before)
    requires if gone then Bounded(counted, ps, ns, p, fastBound, sizeLimit)
             else now == counted && (undecided ==> !Bounded(before, ps, ns, p, fastBound, sizeLimit))
    ensures Decided(before, counted, now, gone, undecided, ps, ns, p, fastBound, sizeLimit)
  {
  }

  /** One phase occurs at all, and the other too often or in a too large clause. */
  ghost predicate OutOfLimits(s: State, pos: seq<int>, neg: seq<int>, occLimit: nat, sizeLimit: nat) {
    (neg != [] && !WithinLimits(s, pos, occLimit, sizeLimit)) || (pos != [] && !WithinLimits(s, neg, occLimit, sizeLimit))
  }

  /** What an attempt does to a pivot: nothing outside the limits, and otherwise the verdict on
      its live clauses. */
  ghost predicate Tried(before: State, occs: Occs, inactive: set<nat>, counted: State, now: State, inactive': set<nat>,
                        pivot: int, occLimit: nat, sizeLimit: nat, fastBound: int) {
    var pos, neg := LiveOnly(before, At(occs, pivot)), LiveOnly(before, At(occs, -pivot));
    if !IsActive(before.units, inactive, pivot) || OutOfLimits(before, pos, neg, occLimit, sizeLimit) then now == before && inactive' == inactive
    else
      Decided(before, counted, now, inactive' != inactive, !now.unsat && IsActive(now.units, inactive', pivot), pos, neg, pivot, fastBound, sizeLimit)
  }

  /** Tries to eliminate a variable with few enough occurrences. Whatever happens,
      no model is lost and every remaining model still extends to the original. */
  method TryToFastEliminateVariable(s: Solver, pivot0: int, occLimit: nat, sizeLimit: nat, fastBound: int) returns (ghost counted: State)
    requires s.Valid() && s.Kept() && !s.unsat && s.clause == [] && s.marks == {} && IsLit(s.maxVar, pivot0) && Abs(pivot0) !in s.frozen
    modifies s`clauses, s`units, s`unsat, s`occs, s`clause, s`marks, s`inactive, s.stack
    ensures s.Valid() && s.Kept() && s.clause == [] && s.marks == {}
    ensures s.inactive == old(s.inactive) || s.inactive == old(s.inactive) + {Abs(pivot0)}
    ensures s.inactive != old(s.inactive) && !s.unsat ==> NoMention(s.Now(), Abs(pivot0))
    ensures Tried(old(s.Now()), old(s.occs), old(s.inactive), counted, s.Now(), s.inactive, pivot0, occLimit, sizeLimit, fastBound)
  {
    counted := s.Now();
    if !s.Active(pivot0) { return; }
    ghost var before, occs := s.Now(), s.occs;
    var pivot := pivot0;
    var pos, neg := FlushBoth(s, pivot, occLimit, sizeLimit);
    ghost var ps, ns := At(s.occs, pivot), At(s.occs, -pivot);
    FlushedLimits(before, At(occs, pivot), ps, At(occs, -pivot), ns, pos, neg, occLimit, sizeLimit, fastBound);
    if (neg > 0 && pos > occLimit) || (pos > 0 && neg > occLimit) { return; }
    counted := EliminateFlushed(s, pivot, pos, neg, sizeLimit, fastBound);
    FlushedDecided(before, counted, s.Now(), s.inactive != old(s.inactive), !s.unsat && s.Active(pivot), LiveOnly(before, At(occs, pivot)), ps,
      LiveOnly(before, At(occs, -pivot)), ns, pivot, fastBound, sizeLimit);
  }

  /** The part behind the limits: goes on with the phase that occurs less often. */
  method EliminateFlushed(s: Solver, pivot0: int, pos: nat, neg: nat, sizeLimit: nat, fastBound: int) returns (ghost counted: State)
    requires s.Valid() && s.Kept() && !s.unsat && s.clause == [] && s.marks == {} && IsLit(s.maxVar, pivot0) && s.Active(pivot0) && Abs(pivot0) !in s.frozen
    requires pos * neg <= (if fastBound > pos + neg then pos + neg else fastBound) <==> FitsBound(At(s.occs, pivot0), At(s.occs, -pivot0), fastBound)
    modifies s`clauses, s`units, s`unsat, s`occs, s`clause, s`marks, s`inactive, s.stack
    ensures s.Valid() && s.Kept() && s.clause == [] && s.marks == {}
    ensures s.inactive == old(s.inactive) || s.inactive == old(s.inactive) + {Abs(pivot0)}
    ensures s.inactive != old(s.inactive) && !s.unsat ==> NoMention(s.Now(), Abs(pivot0))
    ensures Decided(old(s.Now()), counted, s.Now(), s.inactive != old(s.inactive), !s.unsat && s.Active(pivot0), At(old(s.occs), pivot0), At(old(s.occs), -pivot0), pivot0, fastBound, sizeLimit)
  {
    ghost var before, ps, ns := s.Now(), At(s.occs, pivot0), At(s.occs, -pivot0);
    var pivot := pivot0;
    var product := pos * neg;
    var bound := if fastBound > pos + neg then pos + neg else fastBound;
    if pos > neg { pivot := -pivot; }
    BoundedSwap(before, ps, ns, pivot0, fastBound, sizeLimit);
    counted := EliminateIfBounded(s, pivot, product <= bound, sizeLimit, fastBound);
    DecidedSwap(before, counted, s.Now(), s.inactive != old(s.inactive), !s.unsat && s.Active(pivot0), ps, ns, pivot0, fastBound, sizeLimit);
  }

  /** What the two flushed lists say about the limits and the product. */
  lemma FlushedLimits(s: State, os: seq<int>, ps: seq<int>, qs: seq<int>, ns: seq<int>, pos: nat, neg: nat, occLimit: nat, sizeLimit: nat, fastBound: int)
    requires Flushed(s, os, ps, pos, occLimit, sizeLimit) && Flushed(s, qs, ns, neg, occLimit, sizeLimit)
    ensures (neg > 0 && pos > occLimit) || (pos > 0 && neg > occLimit) <==> OutOfLimits(s, LiveOnly(s, os), LiveOnly(s, qs), occLimit, sizeLimit)
    ensures !OutOfLimits(s, LiveOnly(s, os), LiveOnly(s, qs), occLimit, sizeLimit) ==> SameOrEmpty(LiveOnly(s, os), ps, LiveOnly(s, qs), ns)
    ensures !OutOfLimits(s, LiveOnly(s, os), LiveOnly(s, qs), occLimit, sizeLimit) ==>
              (pos * neg <= (if fastBound > pos + neg then pos + neg else fastBound) <==> FitsBound(ps, ns, fastBound))
  {
    assert Unfold(0);
    if LiveOnly(s, os) == [] || LiveOnly(s, qs) == [] { assert pos == 0 || neg == 0; }
  }

  /** The flushed lists are the live clauses, or one phase has none. */
  ghost predicate SameOrEmpty(pos: seq<int>, ps: seq<int>, neg: seq<int>, ns: seq<int>) {
    (ps == pos && ns == neg) || (ps == [] && pos == []) || (ns == [] && neg == [])
  }

  lemma FlushedDecided(before: State, counted: State, now: State, gone: bool, undecided: bool, pos: seq<int>, ps: seq<int>,
                       neg: seq<int>, ns: seq<int>, p: int, fastBound: int, sizeLimit: nat)
    requires SameOrEmpty(pos, ps, neg, ns) && Decided(before, counted, now, gone, undecided, ps, ns, p, fastBound, sizeLimit)
    ensures Decided(before, counted, now, gone, undecided, pos, neg, p, fastBound, sizeLimit)
  {
    if ps != pos || ns != neg { DecidedEmpty(before, counted, now, gone, undecided, ps, ns, pos, neg, p, fastBound, sizeLimit); }
  }

  /** Flushes the lists of both phases. */
  method FlushBoth(s: Solver, pivot: int, occLimit: nat, sizeLimit: nat) returns (pos: nat, neg: nat)
    requires s.Valid() && IsLit(s.maxVar, pivot)
    modifies s`occs
    ensures s.Valid()
    ensures Flushed(s.Now(), At(old(s.occs), pivot), At(s.occs, pivot), pos, occLimit, sizeLimit)
    ensures Flushed(s.Now(), At(old(s.occs), -pivot), At(s.occs, -pivot), neg, occLimit, sizeLimit)
  {
    pos := FlushElimfastOccs(s, pivot, occLimit, sizeLimit);
    neg := FlushElimfastOccs(s, -pivot, occLimit, sizeLimit);
  }

  /** Puts the shorter clauses first and eliminates if that does not take too many resolvents. */
  method EliminateIfBounded(s: Solver, pivot: int, fits: bool, sizeLimit: nat, fastBound: int) returns (ghost counted: State)
    requires s.Valid() && s.Kept() && !s.unsat && s.clause == [] && s.marks == {} && IsLit(s.maxVar, pivot) && s.Active(pivot) && Abs(pivot) !in s.frozen
    requires fits <==> FitsBound(At(s.occs, pivot), At(s.occs, -pivot), fastBound)
    modifies s`clauses, s`units, s`unsat, s`occs, s`clause, s`marks, s`inactive, s.stack
    ensures s.Valid() && s.Kept() && s.clause == [] && s.marks == {}
    ensures s.inactive == old(s.inactive) || s.inactive == old(s.inactive) + {Abs(pivot)}
    ensures s.inactive != old(s.inactive) && !s.unsat ==> NoMention(s.Now(), Abs(pivot))
    ensures Decided(old(s.Now()), counted, s.Now(), s.inactive != old(s.inactive), !s.unsat && s.Active(pivot), At(old(s.occs), pivot), At(old(s.occs), -pivot), pivot, fastBound, sizeLimit)
  {
    ghost var before, ps, ns := s.Now(), At(s.occs, pivot), At(s.occs, -pivot);
    SortBoth(s, pivot);
    BoundedSorted(before, before, ps, ns, pivot, fastBound, sizeLimit);
    counted := EliminateSorted(s, pivot, fits, sizeLimit, fastBound);
    DecidedSorted(before, counted, s.Now(), s.inactive != old(s.inactive), !s.unsat && s.Active(pivot), ps, ns, pivot, fastBound, sizeLimit);
  }

  method SortBoth(s: Solver, pivot: int)
    requires s.Valid() && IsLit(s.maxVar, pivot)
    modifies s`occs
    ensures s.Valid() && At(s.occs, pivot) == SortBySize(s.Now(), At(old(s.occs), pivot)) && At(s.occs, -pivot) == SortBySize(s.Now(), At(old(s.occs), -pivot))
  {
    SortOccs(s, pivot);
    SortOccs(s, -pivot);
  }

  method EliminateSorted(s: Solver, pivot: int, fits: bool, sizeLimit: nat, fastBound: int) returns (ghost counted: State)
    requires s.Valid() && s.Kept() && !s.unsat && s.clause == [] && s.marks == {} && IsLit(s.maxVar, pivot) && s.Active(pivot) && Abs(pivot) !in s.frozen
    requires fits <==> FitsBound(At(s.occs, pivot), At(s.occs, -pivot), fastBound)
    modifies s`clauses, s`units, s`unsat, s`occs, s`clause, s`marks, s`inactive, s.stack
    ensures s.Valid() && s.Kept() && s.clause == [] && s.marks == {}
    ensures s.inactive == old(s.inactive) || s.inactive == old(s.inactive) + {Abs(pivot)}
    ensures s.inactive != old(s.inactive) && !s.unsat ==> NoMention(s.Now(), Abs(pivot))
    ensures Decided(old(s.Now()), counted, s.Now(), s.inactive != old(s.inactive), !s.unsat && s.Active(pivot), At(old(s.occs), pivot), At(old(s.occs), -pivot), pivot, fastBound, sizeLimit)
  {
    ghost var before, ps, ns := s.Now(), At(s.occs, pivot), At(s.occs, -pivot);
    counted := before;
    if fits {
      Eliminate(s, pivot);
      DecidedAtOnce(before, s.Now(), s.inactive != old(s.inactive), !s.unsat && s.Active(pivot), ps, ns, pivot, fastBound, sizeLimit);
      return;
    }
    var bounded := ElimfastResolventsAreBounded(s, pivot, fastBound, sizeLimit);
    counted := s.Now();
    SoundSame(s.original, before, s.stack.entries, s.Now());
    if bounded { Eliminate(s, pivot); }
    DecidedByCounting(before, counted, s.Now(), s.inactive != old(s.inactive), !s.unsat && s.Active(pivot), ps, ns, pivot, fastBound, sizeLimit);
  }
}
