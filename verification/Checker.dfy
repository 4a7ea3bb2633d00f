/** The forward proof checker: clauses are accepted when assuming their negation
    runs into a conflict, and every change of the assignment is taken back. */
module ProofChecker {
  import opened Literals
  import opened Cardinality
  import opened WatchedClauses
  import opened Propagation
  import opened BlockedTest
  import Extension
  import Resolution

  /** The same clauses, with their literals in any order. */
  ghost predicate SameClauses(a: seq<CheckerClause>, b: seq<CheckerClause>) {
    && |a| == |b|
    && forall c: nat {:trigger b[c]} :: c < |a| ==>
         SameClause(a[c], b[c])
  }

  ghost predicate SameClause(c: CheckerClause, d: CheckerClause) {
    && d.garbage == c.garbage && d.freed == c.freed && d.id == c.id && |d.literals| == |c.literals|
    && forall l :: l in d.literals <==> l in c.literals
  }

  lemma SameClausesTrans(a: seq<CheckerClause>, b: seq<CheckerClause>, c: seq<CheckerClause>)
    requires SameClauses(a, b) && SameClauses(b, c)
    ensures SameClauses(a, c)
  {
    forall i: nat | i < |a| ensures SameClause(a[i], c[i]) { assert SameClause(a[i], b[i]); }
  }

  lemma SameClausesOne(a: seq<CheckerClause>, c: nat, d: CheckerClause)
    requires c < |a| && SameClause(a[c], d)
    ensures SameClauses(a, a[c := d])
  {
  }

  class Checker {
    var clauses: seq<CheckerClause>
    var watchers: Watchers
    var vals: set<int>
    var trail: seq<int>
    var nextToPropagate: nat
    var inconsistent: bool
    /** Every clause that was added, deleted ones included. */
    ghost var accepted: seq<seq<int>>
    ghost var originals: seq<seq<int>>
    /** Some derived clause does not follow, but passed the test for blocked clauses. */
    ghost var tested: bool
    /** The test overlooked something, or an original clause came after it was needed. */
    ghost var unsure: bool

    ghost predicate Run(n0: nat, n: nat, k: nat)
      reads this
    {
      n < |trail| && Running(clauses, watchers, vals, trail, n0, n, k)
    }

    ghost predicate Rest(n0: nat, n: nat)
      reads this
    {
      Resting(clauses, watchers, vals, trail, n0, n)
    }

    method Assign(lit: int, ghost n0: nat, ghost n: nat, ghost k: nat, ghost M: iset<Model>, ghost U: set<int>)
      requires Run(n0, n, k) && lit != 0 && lit !in vals && -lit !in vals
      requires Facts(M, U, clauses, trail) && lit in U && forall m :: m in M ==> True(m, lit)
      modifies this`vals, this`trail
      ensures trail == old(trail) + [lit] && vals == old(vals) + {lit}
      ensures Run(n0, n, k) && Facts(M, U, clauses, trail)
    {
      AssignStep(clauses, watchers, vals, trail, n0, n, k, lit);
      FactsAssign(M, U, clauses, trail, lit);
      vals := vals + {lit};
      trail := trail + [lit];
    }

    /** The watched literals of a clause, the false one second. */
    method OrderWatches(c: nat, lit: int, ghost n0: nat, ghost n: nat, ghost k: nat, ghost M: iset<Model>, ghost U: set<int>) returns (other: int)
      requires Run(n0, n, k) && c < |clauses| && ClauseOk(clauses[c]) && Watched(clauses[c], lit) && Facts(M, U, clauses, trail)
      ensures Watched(clauses[c], other) && other != lit && {clauses[c].literals[0], clauses[c].literals[1]} == {lit, other}
    {
      var lits := clauses[c].literals;
      other := if lits[0] == lit then lits[1] else lits[0];
    }

    /** The first literal from position 2 on that is not false. */
    method FindReplacement(c: nat) returns (i: nat)
      requires c < |clauses| && |clauses[c].literals| >= 2
      ensures 2 <= i <= |clauses[c].literals|
      ensures i < |clauses[c].literals| ==> -clauses[c].literals[i] !in vals
      ensures forall j :: 2 <= j < i ==> -clauses[c].literals[j] in vals
    {
      i := 2;
      while i < |clauses[c].literals| && -clauses[c].literals[i] in vals
        invariant 2 <= i <= |clauses[c].literals| && forall j :: 2 <= j < i ==> -clauses[c].literals[j] in vals
      {
        i := i + 1;
      }
    }

    /** A binary watch: its remembered literal is true, false or implied. */
    method BinaryWatch(w: Watch, ghost n0: nat, ghost n: nat, ghost k: nat, ghost M: iset<Model>, ghost U: set<int>) returns (res: bool)
      requires Run(n0, n, k) && k < |At(watchers, -trail[n])| && At(watchers, -trail[n])[k] == w && w.size == 2 && w.blit !in vals
      requires Facts(M, U, clauses, trail)
      modifies this`vals, this`trail
      ensures old(trail) <= trail && Facts(M, U, clauses, trail) && (!res ==> M == iset{})
      ensures if res then Run(n0, n, k + 1) else Run(n0, n, k)
    {
      ghost var lit := -trail[n];
      RunningIs(clauses, watchers, vals, trail, n0, n, k);
      ListAt(clauses, watchers, lit);
      assert WatchOk(clauses, lit, w);
      ClauseAt(clauses, watchers, w.clause);
      BinaryLiterals(clauses[w.clause].literals, lit, w.blit);
      if -w.blit in vals {
        ConflictFollows(M, U, clauses, trail, w.clause);
        return false;
      }
      UnitFollows(M, U, clauses, trail, w.clause, w.blit);
      Assign(w.blit, n0, n, k, M, U);
      KeepWatch(clauses, watchers, vals, trail, n0, n, k);
      res := true;
    }

    /** A clause whose other watched literal is not true: the watch moves, or the
        clause is unit or false. Returns the next position in the list. */
    method LongWatch(c: nat, other: int, ghost n0: nat, n: nat, k: nat, ghost M: iset<Model>, ghost U: set<int>) returns (res: bool, next: nat)
      requires Run(n0, n, k) && -trail[n] in watchers && k < |watchers[-trail[n]]| && watchers[-trail[n]][k].clause == c
      requires Live(clauses, c) && ClauseOk(clauses[c]) && Watched(clauses[c], -trail[n]) && other != -trail[n] && other !in vals
      requires {clauses[c].literals[0], clauses[c].literals[1]} == {-trail[n], other} && Watched(clauses[c], other)
      requires Facts(M, U, clauses, trail)
      modifies this`clauses, this`watchers, this`vals, this`trail
      ensures SameClauses(old(clauses), clauses) && old(trail) <= trail && Facts(M, U, clauses, trail) && (!res ==> M == iset{})
      ensures Run(n0, n, next) && (res ==> |At(watchers, -trail[n])| - next < |At(old(watchers), -trail[n])| - k)
    {
      var lit := -trail[n];
      WriteWatches(c, lit, other, n0, n, k, M, U);
      var i := FindReplacement(c);
      if i < |clauses[c].literals| {
        ghost var before := clauses;
        MoveTo(c, i, n0, n, k, M, U);
        SameClausesTrans(old(clauses), before, clauses);
        return true, k;
      }
      res := UnitOrFalse(c, other, n0, n, k, M, U);
      next := if res then k + 1 else k;
    }

    /** Writes the two watched literals, the false one second. */
    method WriteWatches(c: nat, lit: int, other: int, ghost n0: nat, ghost n: nat, ghost k: nat, ghost M: iset<Model>, ghost U: set<int>)
      requires Run(n0, n, k) && c < |clauses| && ClauseOk(clauses[c]) && Watched(clauses[c], lit) && Watched(clauses[c], other) && lit != other
      requires Facts(M, U, clauses, trail)
      modifies this`clauses
      ensures Run(n0, n, k) && Facts(M, U, clauses, trail) && SameClauses(old(clauses), clauses)
      ensures ClauseOk(clauses[c]) && clauses[c].literals[0] == other && clauses[c].literals[1] == lit
    {
      var d := clauses[c].(literals := clauses[c].literals[0 := other][1 := lit]);
      OrderStep(clauses, watchers, vals, trail, n0, n, k, c, lit, other);
      FactsReordered(M, U, clauses, trail, c, d);
      SameClausesOne(clauses, c, d);
      clauses := clauses[c := d];
    }

    /** A clause with no replacement forces its other watched literal, or fails. */
    method UnitOrFalse(c: nat, other: int, ghost n0: nat, n: nat, k: nat, ghost M: iset<Model>, ghost U: set<int>) returns (res: bool)
      requires Run(n0, n, k) && k < |At(watchers, -trail[n])| && At(watchers, -trail[n])[k].clause == c
      requires Live(clauses, c) && ClauseOk(clauses[c]) && clauses[c].literals[0] == other && clauses[c].literals[1] == -trail[n] && other !in vals
      requires forall j :: 2 <= j < |clauses[c].literals| ==> -clauses[c].literals[j] in vals
      requires Facts(M, U, clauses, trail)
      modifies this`vals, this`trail
      ensures old(trail) <= trail && Facts(M, U, clauses, trail) && (!res ==> M == iset{})
      ensures if res then Run(n0, n, k + 1) else Run(n0, n, k)
    {
      var lit := -trail[n];
      ghost var d := clauses[c];
      RunningIs(clauses, watchers, vals, trail, n0, n, k);
      OthersFalse(d, vals, trail, other, lit);
      if -other in vals {
        ConflictFollows(M, U, clauses, trail, c);
        return false;
      }
      assert other in d.literals && other != 0;
      UnitFollows(M, U, clauses, trail, c, other);
      Assign(other, n0, n, k, M, U);
      KeepWatch(clauses, watchers, vals, trail, n0, n, k);
      res := true;
    }

    /** Moves the watch at position k to literal i of the clause. */
    method MoveTo(c: nat, i: nat, ghost n0: nat, n: nat, k: nat, ghost M: iset<Model>, ghost U: set<int>)
      requires Run(n0, n, k) && -trail[n] in watchers && k < |watchers[-trail[n]]| && watchers[-trail[n]][k].clause == c
      requires Live(clauses, c) && 2 <= i < |clauses[c].literals| && clauses[c].literals[1] == -trail[n] && -clauses[c].literals[i] !in vals
      requires Facts(M, U, clauses, trail)
      modifies this`clauses, this`watchers
      ensures SameClauses(old(clauses), clauses) && Facts(M, U, clauses, trail) && Run(n0, n, k)
      ensures At(watchers, -trail[n]) == RemoveAt(old(watchers[-trail[n]]), k)
    {
      var lit := -trail[n];
      var r := clauses[c].literals[i];
      RunningIs(clauses, watchers, vals, trail, n0, n, k);
      ClauseAt(clauses, watchers, c);
      MoveStep(clauses, watchers, vals, trail, n0, n, k, i, lit, c, r);
      MovedClauseOk(clauses[c], i);
      FactsReordered(M, U, clauses, trail, c, MovedClause(clauses[c], i));
      SameClausesOne(clauses, c, MovedClause(clauses[c], i));
      var size := |clauses[c].literals|;
      watchers := watchers[lit := RemoveAt(watchers[lit], k)];
      watchers := watchers[r := At(watchers, r) + [Watch(lit, size, c)]];
      clauses := clauses[c := MovedClause(clauses[c], i)];
    }

    /** Drops the watch of a garbage clause. */
    method DropWatch(ghost n0: nat, n: nat, k: nat)
      requires Run(n0, n, k) && -trail[n] in watchers && k < |watchers[-trail[n]]| && !Live(clauses, watchers[-trail[n]][k].clause)
      modifies this`watchers
      ensures Run(n0, n, k) && At(watchers, -trail[n]) == RemoveAt(old(watchers[-trail[n]]), k)
    {
      var lit := -trail[n];
      DropStep(clauses, watchers, vals, trail, n0, n, k);
      watchers := watchers[lit := RemoveAt(watchers[lit], k)];
    }

    /** Remembers the true watched literal of a satisfied clause. */
    method RememberTrue(other: int, ghost n0: nat, n: nat, k: nat)
      requires Run(n0, n, k) && -trail[n] in watchers && k < |watchers[-trail[n]]| && other in vals && other != -trail[n]
      requires watchers[-trail[n]][k].clause < |clauses| && other in clauses[watchers[-trail[n]][k].clause].literals
      modifies this`watchers
      ensures Run(n0, n, k + 1) && |At(watchers, -trail[n])| == |old(watchers[-trail[n]])|
    {
      var lit := -trail[n];
      var w := watchers[lit][k];
      RunningIs(clauses, watchers, vals, trail, n0, n, k);
      BlitStep(clauses, watchers, vals, trail, n0, n, k, other);
      watchers := watchers[lit := watchers[lit][k := w.(blit := other)]];
      KeepWatch(clauses, watchers, vals, trail, n0, n, k);
    }

    /** A clause with more than two literals. */
    method ClauseWatch(c: nat, ghost n0: nat, n: nat, k: nat, ghost M: iset<Model>, ghost U: set<int>) returns (res: bool, next: nat)
      requires Run(n0, n, k) && -trail[n] in watchers && k < |watchers[-trail[n]]| && watchers[-trail[n]][k].clause == c
      requires c < |clauses| && ClauseOk(clauses[c]) && (Live(clauses, c) ==> Watched(clauses[c], -trail[n])) && Facts(M, U, clauses, trail)
      modifies this`clauses, this`watchers, this`vals, this`trail
      ensures SameClauses(old(clauses), clauses) && old(trail) <= trail && Facts(M, U, clauses, trail) && (!res ==> M == iset{})
      ensures Run(n0, n, next) && (res ==> |At(watchers, -trail[n])| - next < |At(old(watchers), -trail[n])| - k)
    {
      if clauses[c].garbage {
        DropWatch(n0, n, k);
        return true, k;
      }
      var other := OrderWatches(c, -trail[n], n0, n, k, M, U);
      if other in vals {
        RememberTrue(other, n0, n, k);
        return true, k + 1;
      }
      res, next := LongWatch(c, other, n0, n, k, M, U);
    }

    /** Handles the watch at position k of the literal that became false. */
    method PropagateWatch(ghost n0: nat, n: nat, k: nat, ghost M: iset<Model>, ghost U: set<int>) returns (res: bool, next: nat)
      requires Run(n0, n, k) && k < |At(watchers, -trail[n])| && Facts(M, U, clauses, trail)
      modifies this`clauses, this`watchers, this`vals, this`trail
      ensures SameClauses(old(clauses), clauses) && old(trail) <= trail && Facts(M, U, clauses, trail) && (!res ==> M == iset{})
      ensures Run(n0, n, next) && (res ==> |At(watchers, -trail[n])| - next < |At(old(watchers), -trail[n])| - k)
    {
      var w := watchers[-trail[n]][k];
      WatchIs(clauses, watchers, vals, trail, n0, n, k);
      if w.blit in vals {
        BlitSatisfies(clauses, w, vals, trail);
        KeepWatch(clauses, watchers, vals, trail, n0, n, k);
        return true, k + 1;
      }
      if w.size == 2 {
        res := BinaryWatch(w, n0, n, k, M, U);
        next := if res then k + 1 else k;
        return;
      }
      res, next := ClauseWatch(w.clause, n0, n, k, M, U);
    }

    /** Processes the next literal of the trail. */
    method PropagateNext(ghost n0: nat, ghost M: iset<Model>, ghost U: set<int>) returns (res: bool)
      requires Rest(n0, nextToPropagate) && nextToPropagate < |trail| && Facts(M, U, clauses, trail)
      modifies this`clauses, this`watchers, this`vals, this`trail, this`nextToPropagate
      ensures SameClauses(old(clauses), clauses) && old(trail) <= trail && Facts(M, U, clauses, trail) && (!res ==> M == iset{})
      ensures nextToPropagate == old(nextToPropagate) + 1
      ensures Rest(n0, if res then nextToPropagate else nextToPropagate - 1)
    {
      var n := nextToPropagate;
      nextToPropagate := nextToPropagate + 1;
      Begin(clauses, watchers, vals, trail, n0, n);
      var k: nat := 0;
      res := true;
      while res && k < |At(watchers, -trail[n])|
        invariant Run(n0, n, k) && nextToPropagate == n + 1
        invariant SameClauses(old(clauses), clauses) && old(trail) <= trail && Facts(M, U, clauses, trail) && (!res ==> M == iset{})
        decreases if res then 1 + |At(watchers, -trail[n])| - k else 0
      {
        ghost var before := clauses;
        res, k := PropagateWatch(n0, n, k, M, U);
        SameClausesTrans(old(clauses), before, clauses);
      }
      RunningIs(clauses, watchers, vals, trail, n0, n, k);
      if res {
        End(clauses, watchers, vals, trail, n0, n, k);
      } else {
        Interrupt(clauses, watchers, vals, trail, n0, n, k);
      }
    }

    /** Unit propagation. It succeeds with every clause settled, or it shows that
        nothing satisfies the clauses and the trail. */
    method Propagate(ghost n0: nat, ghost M: iset<Model>, ghost U: set<int>) returns (res: bool, ghost n: nat)
      requires Rest(n0, nextToPropagate) && Facts(M, U, clauses, trail)
      modifies this`clauses, this`watchers, this`vals, this`trail, this`nextToPropagate
      ensures SameClauses(old(clauses), clauses) && old(trail) <= trail && Facts(M, U, clauses, trail)
      ensures Rest(n0, n) && (if res then n == nextToPropagate == |trail| else M == iset{})
    {
      res := true;
      n := nextToPropagate;
      RestingIs(clauses, watchers, vals, trail, n0, n);
      while res && nextToPropagate < |trail|
        invariant Rest(n0, n) && (res ==> n == nextToPropagate) && nextToPropagate <= |trail|
        invariant SameClauses(old(clauses), clauses) && old(trail) <= trail && Facts(M, U, clauses, trail) && (!res ==> M == iset{})
        decreases if res then 1 else 0, |U| - |trail|, |trail| - nextToPropagate
      {
        ghost var before := clauses;
        res := PropagateNext(n0, M, U);
        SameClausesTrans(old(clauses), before, clauses);
        n := if res then nextToPropagate else nextToPropagate - 1;
        RestingIs(clauses, watchers, vals, trail, n0, n);
        TrailFits(M, U, clauses, vals, trail);
      }
    }

    // ----------------------------------------------------- whole clauses

    ghost predicate Valid()
      reads this
    {
      && (!inconsistent ==> Rest(|trail|, |trail|) && nextToPropagate == |trail| && Known(Models(accepted), clauses, trail))
      && (inconsistent ==> Models(accepted) == iset{})
    }

    /** The assignments that satisfy what propagation uses. */
    ghost function Meaning(): iset<Model>
      reads this
    {
      if inconsistent then iset{} else Holding(clauses, trail)
    }

    /** What is in force when a clause is added: the garbage is collected first if there is
        too much of it, but a trivial clause never gets there. */
    ghost function Base(c: seq<int>, collect: bool): iset<Model>
      reads this
    {
      if collect && !inconsistent && !Trivial(c, trail) then Remaining(clauses, trail) else Meaning()
    }

    /** The clause is blocked on l by everything in use when it is added. */
    ghost predicate BlockedNow(c: seq<int>, l: int, collect: bool)
      reads this
    {
      !inconsistent && !Trivial(c, trail) && BlockedOn(if collect then Freed(clauses) else clauses, trail, c, l)
    }

    /** As long as clauses follow, the models of the original clauses stay; with clauses that
        are blocked only, some model stays. */
    ghost predicate Sound()
      reads this
    {
      !unsure ==> KeepsOriginals(Models(originals), Meaning(), tested)
    }

    /** Then a refutation is real, whatever was added, derived, deleted and collected. */
    lemma RefutationIsReal()
      requires Valid() && Sound() && inconsistent && !unsure
      ensures Models(originals) == iset{}
    {
      assert Meaning() == iset{};
      assert !tested ==> forall m :: m !in Models(originals);
    }

    constructor ()
      ensures Valid() && Sound() && accepted == originals == [] && clauses == [] && trail == [] && !inconsistent && !tested && !unsure
    {
      clauses, watchers, vals, trail, nextToPropagate, inconsistent, accepted := [], map[], {}, [], 0, false, [];
      originals, tested, unsure := [], false, false;
    }

    /** Takes back all literals after the first ones. */
    method Backtrack(previous: nat)
      requires previous <= |trail| && TrailOk(vals, trail)
      modifies this`vals, this`trail, this`nextToPropagate
      ensures trail == old(trail)[..previous] && vals == (set l | l in old(trail)[..previous]) && nextToPropagate == previous
    {
      while |trail| > previous
        invariant previous <= |trail| <= |old(trail)| && trail == old(trail)[..|trail|] && TrailOk(vals, trail)
      {
        var lit := trail[|trail| - 1];
        PopTrail(vals, trail);
        vals := vals - {lit};
        trail := trail[..|trail| - 1];
      }
      nextToPropagate := previous;
      RestoredVals(vals, trail);
    }

    /** Assumes a literal that is not false. */
    method Assume(lit: int, ghost n0: nat, ghost M: iset<Model>, ghost U: set<int>)
      requires Rest(n0, n0) && lit != 0 && -lit !in vals && lit in U
      requires Facts(M, U, clauses, trail) && forall m :: m in M ==> True(m, lit)
      modifies this`vals, this`trail
      ensures Rest(n0, n0) && Facts(M, U, clauses, trail) && old(trail) <= trail && vals == old(vals) + {lit}
    {
      if lit in vals { return; }
      AssignResting(clauses, watchers, vals, trail, n0, n0, lit);
      FactsAssign(M, U, clauses, trail, lit);
      vals := vals + {lit};
      trail := trail + [lit];
    }

    /** Assumes the negation of every literal of a clause. */
    method AssumeNegated(simplified: seq<int>, ghost n0: nat, ghost M: iset<Model>, ghost U: set<int>)
      requires Rest(n0, n0) && Facts(M, U, clauses, trail) && Simplified(simplified, vals)
      requires forall i :: 0 <= i < |simplified| ==> -simplified[i] in U && forall m :: m in M ==> True(m, -simplified[i])
      modifies this`vals, this`trail
      ensures Rest(n0, n0) && Facts(M, U, clauses, trail) && old(trail) <= trail
      ensures forall i :: 0 <= i < |simplified| ==> -simplified[i] in vals
    {
      for i := 0 to |simplified|
        invariant Rest(n0, n0) && Facts(M, U, clauses, trail) && old(trail) <= trail
        invariant vals == old(vals) + (set j | 0 <= j < i :: -simplified[j])
        invariant forall j :: 0 <= j < i ==> -simplified[j] in vals
      {
        assert simplified[i] in simplified;
        NegationIsOpen(simplified, old(vals), i);
        Assume(-simplified[i], n0, M, U);
      }
    }

    /** Assumes the negation of every literal and propagates. A conflict shows that
        the clause is entailed by what is in play, and so by everything accepted so far;
        without one, propagation got stuck. Either way the trail, the values and the
        propagation position are as before. */
    method Check(simplified: seq<int>) returns (res: bool, ghost closed: seq<int>)
      requires Valid() && !inconsistent && Simplified(simplified, vals)
      modifies this`clauses, this`watchers, this`vals, this`trail, this`nextToPropagate
      ensures Valid() && vals == old(vals) && trail == old(trail) && nextToPropagate == old(nextToPropagate)
      ensures SameClauses(old(clauses), clauses) && Meaning() == old(Meaning())
      ensures res ==> Entailed(accepted, simplified) && forall m :: m in Meaning() ==> SomeTrue(m, simplified)
      ensures !res ==> Stuck(clauses, trail, simplified, closed)
    {
      ghost var K := Holding(clauses, trail);
      ghost var M := iset m: Model | m in K && !SomeTrue(m, simplified);
      ghost var U := Universe(clauses, trail, simplified);
      ghost var n0 := |trail|;
      var previous := nextToPropagate;
      KnownFacts(K, M, clauses, trail, simplified);
      RestingIs(clauses, watchers, vals, trail, n0, n0);
      forall i | 0 <= i < |simplified| ensures -simplified[i] in U && forall m :: m in M ==> True(m, -simplified[i]) {
        assert simplified[i] in simplified;
      }
      AssumeNegated(simplified, n0, M, U);
      RestingIs(clauses, watchers, vals, trail, n0, n0);
      ghost var assumed := trail;
      assert forall i :: 0 <= i < |simplified| ==> -simplified[i] in assumed;
      var ok;
      ghost var n;
      ok, n := Propagate(n0, M, U);
      closed := trail;
      RestingIs(clauses, watchers, vals, trail, n0, n);
      assert forall i :: 0 <= i < |simplified| ==> -simplified[i] in assumed && assumed <= trail;
      if ok { IsStuck(clauses, watchers, vals, trail, n0, old(trail), simplified); }
      BackAtBase(clauses, watchers, vals, trail, n0, n);
      Backtrack(previous);
      RestoredVals(old(vals), old(trail));
      assert trail == old(trail);
      KnownReordered(Models(accepted), old(clauses), clauses, trail);
      HoldingReordered(old(clauses), clauses, trail);
      if !ok {
        forall m | m in K ensures SomeTrue(m, simplified) { assert m !in M; }
        KnownHolds(Models(accepted), clauses, trail);
      }
      res := !ok;
    }

    /** Stores a clause with at least two open literals and watches two of them. */
    method NewClause(simplified: seq<int>, id: int)
      requires Rest(|trail|, |trail|) && Simplified(simplified, vals) && TwoOpen(simplified, vals)
      modifies this`clauses, this`watchers
      ensures Rest(|trail|, |trail|)
      ensures exists lits :: clauses == old(clauses) + [CheckerClause(lits, false, false, id)] && forall l :: l in lits <==> l in simplified
    {
      var literals := WatchTwoOpen(simplified);
      SimplifiedIsClause(literals, vals, id);
      AddClauseStep(clauses, watchers, vals, trail, literals, id);
      var c := |clauses|;
      var size := |literals|;
      watchers := watchers[literals[0] := At(watchers, literals[0]) + [Watch(literals[1], size, c)]];
      watchers := watchers[literals[1] := At(watchers, literals[1]) + [Watch(literals[0], size, c)]];
      clauses := clauses + [CheckerClause(literals, false, false, id)];
    }

    /** Swaps two open literals to the front. */
    method WatchTwoOpen(simplified: seq<int>) returns (literals: seq<int>)
      requires Simplified(simplified, vals) && TwoOpen(simplified, vals)
      ensures Simplified(literals, vals) && |literals| >= 2 && (forall l :: l in literals <==> l in simplified)
      ensures -literals[0] !in vals && -literals[1] !in vals
    {
      OpenFromOne(simplified, vals);
      var j := FirstOpen(simplified, 0);
      literals := Swap(simplified, 0, j);
      SwapSimplified(simplified, 0, j, vals);
      SwapTwoOpen(simplified, 0, j, vals);
      OpenFromOne(literals, vals);
      ghost var once := literals;
      j := FirstOpen(literals, 1);
      literals := Swap(literals, 1, j);
      SwapSimplified(once, 1, j, vals);
    }

    /** The first literal from a position on that has no value. */
    method FirstOpen(lits: seq<int>, from: nat) returns (j: nat)
      requires exists k :: from <= k < |lits| && lits[k] !in vals && -lits[k] !in vals
      ensures from <= j < |lits| && lits[j] !in vals && -lits[j] !in vals
    {
      j := from;
      while lits[j] in vals || -lits[j] in vals
        invariant from <= j < |lits|
        invariant exists k :: j <= k < |lits| && lits[k] !in vals && -lits[k] !in vals
        decreases |lits| - j
      {
        j := j + 1;
      }
    }

    /** Adds a clause: as an empty or false clause, as a unit that is propagated, or to the
        store. Garbage is collected first if there is too much of it. */
    method AddClause(simplified: seq<int>, id: int, collect: bool, ghost c: seq<int>)
      requires Valid() && !inconsistent && Simplified(simplified, vals) && forall l :: l in simplified <==> l in c
      modifies this`clauses, this`watchers, this`vals, this`trail, this`nextToPropagate, this`inconsistent, this`accepted
      ensures Valid() && accepted == old(accepted) + [c]
      ensures old(trail) <= trail && (inconsistent || InForce(clauses, trail, c, id))
      ensures forall m :: m in Meaning() <==> m in (if collect then Remaining(old(clauses), old(trail)) else old(Meaning())) && SomeTrue(m, c)
    {
      if collect { CollectGarbageClauses(); }
      Insert(simplified, id, c);
    }

    /** Exactly the assignments that satisfy the clause too remain. */
    method Insert(simplified: seq<int>, id: int, ghost c: seq<int>)
      requires Valid() && !inconsistent && Simplified(simplified, vals) && forall l :: l in simplified <==> l in c
      modifies this`clauses, this`watchers, this`vals, this`trail, this`nextToPropagate, this`inconsistent, this`accepted
      ensures Valid() && accepted == old(accepted) + [c]
      ensures old(trail) <= trail && (inconsistent || InForce(clauses, trail, c, id))
      ensures forall m :: m in Meaning() <==> m in old(Meaning()) && SomeTrue(m, c)
    {
      ghost var M := iset m: Model | m in Holding(clauses, trail) && SomeTrue(m, c);
      accepted := accepted + [c];
      MoreModels(old(accepted), c);
      KnownHolds(Models(old(accepted)), clauses, trail);
      RestingIs(clauses, watchers, vals, trail, |trail|, |trail|);
      var open := OpenLiterals(simplified);
      if open == [] {
        AllFalse(M, vals, trail, simplified, clauses);
        inconsistent := true;
      } else if |open| == 1 {
        var unit := open[0];
        assert unit in open;
        OneOpen(M, vals, trail, simplified, clauses, unit);
        AddUnit(unit, simplified, M);
        if !inconsistent { UnitMeans(M, old(clauses), clauses, old(trail), trail, unit, c); }
      } else {
        NewClause(simplified, id);
        ghost var lits :| clauses == old(clauses) + [CheckerClause(lits, false, false, id)] && forall l :: l in lits <==> l in simplified;
        StoredMeans(M, old(clauses), trail, lits, id, c);
        assert IsStored(clauses, |clauses| - 1, c, id);
      }
      assert forall m :: m in Models(accepted) ==> m in M;
      if !inconsistent { KnownLess(M, Models(accepted), clauses, trail); }
    }

    method AddUnit(unit: int, ghost simplified: seq<int>, ghost M: iset<Model>)
      requires !inconsistent && Rest(|trail|, |trail|) && nextToPropagate == |trail| && Known(M, clauses, trail)
      requires unit != 0 && unit !in vals && -unit !in vals && forall m :: m in M ==> True(m, unit)
      modifies this`clauses, this`watchers, this`vals, this`trail, this`nextToPropagate, this`inconsistent
      ensures old(trail) <= trail && SameClauses(old(clauses), clauses)
      ensures if inconsistent then M == iset{} else Rest(|trail|, |trail|) && nextToPropagate == |trail| && Known(M, clauses, trail) && unit in trail
    {
      ghost var U := Universe(clauses, trail, [-unit]);
      ghost var n0 := |trail|;
      KnownFacts(M, M, clauses, trail, [-unit]);
      assert -(-unit) in U by { assert [-unit][0] == -unit; }
      Assume(unit, n0, M, U);
      RestingIs(clauses, watchers, vals, trail, n0, n0);
      assert unit in trail;
      var ok;
      ghost var n;
      ok, n := Propagate(n0, M, U);
      if !ok {
        inconsistent := true;
      } else {
        SettledEverywhere(clauses, watchers, vals, trail, n0);
        FactsKnown(M, U, clauses, trail);
      }
    }

    method OpenLiterals(simplified: seq<int>) returns (open: seq<int>)
      requires Simplified(simplified, vals)
      ensures forall l :: l in open <==> l in simplified && -l !in vals
      ensures |open| > 1 ==> TwoOpen(simplified, vals)
    {
      open := [];
      for i := 0 to |simplified|
        invariant forall l :: l in open <==> l in simplified[..i] && -l !in vals
        invariant |open| > 1 ==> TwoOpen(simplified, vals)
      {
        assert simplified[..i + 1] == simplified[..i] + [simplified[i]];
        assert simplified[i] in simplified;
        if -simplified[i] !in vals {
          if open != [] {
            assert open[0] in open;
            var k :| 0 <= k < i && simplified[k] == open[0];
            assert simplified[k] in simplified;
            assert OpenPair(simplified, vals, k, i);
          }
          open := open + [simplified[i]];
        }
      }
      assert simplified[..|simplified|] == simplified;
    }

    // ------------------------------------------------------- the interface

    /** Sorts a clause and removes duplicates; true if the clause is tautological or
        has a literal that is true already. */
    method Tautological(c: seq<int>) returns (tautological: bool, simplified: seq<int>)
      requires forall l :: l in c ==> l != 0
      ensures tautological ==> exists l :: l in c && (-l in c || l in vals)
      ensures !tautological ==> Simplified(simplified, vals) && forall l :: l in simplified <==> l in c
    {
      var sorted := SortLits(c);
      SortedLits(c);
      simplified := [];
      var previous := 0;
      for i := 0 to |sorted|
        invariant Deduplicated(sorted, i, vals, simplified, previous)
      {
        var lit := sorted[i];
        assert lit in sorted;
        DeduplicateStep(sorted, i, vals, simplified, previous);
        if lit == previous { continue; }
        if lit == -previous { return true, simplified; }
        if lit in vals { return true, simplified; }
        simplified := simplified + [lit];
        previous := lit;
      }
      tautological := false;
      DeduplicateEnd(sorted, vals, simplified, previous);
    }

    /** An original clause is stored as it is, unless it holds already. */
    method AddOriginalClause(c: seq<int>, id: int, collect: bool)
      requires Valid() && Sound() && forall l :: l in c ==> l != 0
      modifies this
      ensures Valid() && Sound() && accepted == old(accepted) + [c]
      ensures originals == old(originals) + [c] && tested == old(tested) && unsure == (old(unsure) || old(tested))
      ensures inconsistent || InForce(clauses, trail, c, id)
      ensures forall m :: m in Meaning() <==> m in old(Base(c, collect)) && SomeTrue(m, c)
    {
      BaseIsMore(c, collect);
      MoreModels(originals, c);
      ghost var base := Base(c, collect);
      originals, unsure := originals + [c], unsure || tested;
      if inconsistent {
        StillInconsistent(c);
        accepted := accepted + [c];
        return;
      }
      var tautological, simplified := Tautological(c);
      RestingIs(clauses, watchers, vals, trail, |trail|, |trail|);
      if tautological {
        TrueIsEntailed(c);
        Ignore(c);
      } else {
        NotTrivial(simplified, vals, c, trail);
        AddClause(simplified, id, collect, c);
      }
    }

    /** Collecting garbage first only leaves more. */
    lemma BaseIsMore(c: seq<int>, collect: bool)
      ensures forall m :: m in Meaning() ==> m in Base(c, collect)
    {
      FreedHolds(clauses, trail);
    }

    /** A derived clause is accepted if it passes the check or the test for blocked clauses.
        What passes the check is entailed by what is in play, and so by everything accepted
        before, deleted clauses included. What passes the test only can be repaired by making
        true any literal that the test leaves, unless the test overlooks something. */
    method AddDerivedClause(c: seq<int>, id: int, collect: bool) returns (ok: bool, ghost closed: seq<int>)
      requires Valid() && Sound() && forall l :: l in c ==> l != 0
      modifies this
      ensures Valid() && Sound() && accepted == (if ok then old(accepted) + [c] else old(accepted)) && originals == old(originals)
      ensures tested == (old(tested) || (ok && !old(Follows(c))))
      ensures unsure == (old(unsure) || (ok && !old(Follows(c)) && !old(CanRepair(c, collect))))
      ensures ok ==> inconsistent || InForce(clauses, trail, c, id)
      ensures ok ==> forall m :: m in Meaning() <==> m in old(Base(c, collect)) && SomeTrue(m, c)
      ensures ok ==> old(Follows(c)) || PassesTest(old(clauses), old(trail), c)
      ensures ok ==> forall l :: old(BlockedNow(c, l, collect)) ==> Repaired(old(Base(c, collect)), Meaning(), l)
      ensures !ok ==> !PassesTest(old(clauses), old(trail), c) && Stuck(clauses, trail, c, closed)
      ensures !ok ==> SameClauses(old(clauses), clauses) && trail == old(trail) && Meaning() == old(Meaning())
    {
      ghost var follows, repair, base, before := Follows(c), CanRepair(c, collect), Base(c, collect), Meaning();
      BlockedRepairs(c, collect);
      BaseIsMore(c, collect);
      ok, closed := Derive(c, id, collect);
      if ok {
        DerivedKeeps(Models(originals), before, base, Meaning(), c, tested, unsure, follows, repair);
        unsure := unsure || (!follows && !repair);
        tested := tested || !follows;
      }
    }

    /** The same, without the account of what the originals allow. */
    method Derive(c: seq<int>, id: int, collect: bool) returns (ok: bool, ghost closed: seq<int>)
      requires Valid() && forall l :: l in c ==> l != 0
      modifies this`clauses, this`watchers, this`vals, this`trail, this`nextToPropagate, this`inconsistent, this`accepted
      ensures Valid() && accepted == if ok then old(accepted) + [c] else old(accepted)
      ensures ok ==> inconsistent || InForce(clauses, trail, c, id)
      ensures ok ==> forall m :: m in Meaning() <==> m in old(Base(c, collect)) && SomeTrue(m, c)
      ensures ok ==> old(Follows(c)) || PassesTest(old(clauses), old(trail), c)
      ensures !ok ==> !PassesTest(old(clauses), old(trail), c) && Stuck(clauses, trail, c, closed)
      ensures !ok ==> SameClauses(old(clauses), clauses) && trail == old(trail) && Meaning() == old(Meaning())
    {
      closed := [];
      if inconsistent {
        StillInconsistent(c);
        accepted := accepted + [c];
        return true, closed;
      }
      var tautological, simplified := Tautological(c);
      RestingIs(clauses, watchers, vals, trail, |trail|, |trail|);
      if tautological {
        TrueIsEntailed(c);
        Ignore(c);
        return true, closed;
      }
      NotTrivial(simplified, vals, c, trail);
      var checked;
      checked, closed := Check(simplified);
      FollowsReordered(simplified, c);
      var blocked := false;
      if !checked {
        blocked := CheckBlocked(c);
        PassesReordered(old(clauses), clauses, trail, c);
      }
      if !checked && !blocked {
        StuckReordered(clauses, trail, simplified, c, closed);
        return false, closed;
      }
      RemainingReordered(old(clauses), clauses, trail);
      AddClause(simplified, id, collect, c);
      ok := true;
    }

    ghost predicate CanRepair(c: seq<int>, collect: bool)
      reads this
    {
      exists l :: BlockedNow(c, l, collect)
    }

    /** Everything that satisfies what is in play, or what was accepted, satisfies the clause. */
    ghost predicate Follows(c: seq<int>)
      reads this
    {
      Entailed(accepted, c) && forall m :: m in Meaning() ==> SomeTrue(m, c)
    }

    /** A clause that is blocked by everything in use can be repaired. */
    lemma BlockedRepairs(c: seq<int>, collect: bool)
      requires Valid() && forall l :: l in c ==> l != 0
      ensures forall l :: BlockedNow(c, l, collect) ==> Repairable(Base(c, collect), c, l)
      ensures CanRepair(c, collect) ==> exists l :: Repairable(Base(c, collect), c, l)
    {
      if inconsistent { return; }
      RestingIs(clauses, watchers, vals, trail, |trail|, |trail|);
      StoreClausesOk(clauses, watchers);
      forall l | BlockedNow(c, l, collect) ensures Repairable(Base(c, collect), c, l) {
        BlockedRepairsOn(if collect then Freed(clauses) else clauses, trail, c, l);
      }
    }

    lemma FollowsReordered(simplified: seq<int>, c: seq<int>)
      requires forall l :: l in simplified <==> l in c
      ensures Follows(simplified) ==> Follows(c)
    {
      if Follows(simplified) {
        forall m | m in Models(accepted) ensures SomeTrue(m, c) { SatReordered(m, simplified, c); }
        forall m | m in Meaning() ensures SomeTrue(m, c) { SatReordered(m, simplified, c); }
      }
    }

    /** The test for blocked clauses: marks the negated literals, unmarks those that are the
        only marked one of a clause without true literal, and looks for one that is left. */
    method CheckBlocked(c: seq<int>) returns (blocked: bool)
      requires Valid() && !inconsistent
      ensures blocked <==> PassesTest(clauses, trail, c)
    {
      RestingIs(clauses, watchers, vals, trail, |trail|, |trail|);
      var marks: set<int> := {};
      for i := 0 to |c|
        invariant marks == Negated(c[..i])
      {
        NegatedOneMore(c, i);
        marks := marks + {-c[i]};
      }
      assert c[..|c|] == c;
      var notBlocked: seq<int> := [];
      for d := 0 to |clauses|
        invariant forall x :: x in notBlocked <==> exists e: nat :: e < d && Live(clauses, e) && OnlyMarked(clauses[e], trail, marks, x)
      {
        if !clauses[d].garbage {
          ClauseAt(clauses, watchers, d);
          var count, first := CountMarked(clauses[d], marks);
          if count == 1 { notBlocked := notBlocked + [first]; }
        }
      }
      var left := marks;
      for i := 0 to |notBlocked|
        invariant left == marks - LitSet(notBlocked[..i])
      {
        assert notBlocked[..i + 1] == notBlocked[..i] + [notBlocked[i]];
        left := left - {notBlocked[i]};
      }
      assert notBlocked[..|notBlocked|] == notBlocked;
      LeftIsLeaves(clauses, trail, c, left);
      blocked := false;
      ghost var all := left;
      for i := 0 to |c|
        invariant blocked <==> exists j :: 0 <= j < i && -c[j] in all
        invariant left == all - Negated(c[..i])
      {
        NegatedOneMore(c, i);
        if -c[i] in left { blocked := true; }
        left := left - {-c[i]};
      }
    }

    /** Counts the marked literals of a clause; two, if a literal is true. */
    method CountMarked(d: CheckerClause, marks: set<int>) returns (count: nat, first: int)
      requires TrailOk(vals, trail) && ClauseOk(d)
      ensures count == 1 ==> OnlyMarked(d, trail, marks, first)
      ensures forall x :: OnlyMarked(d, trail, marks, x) ==> count == 1 && x == first
    {
      count, first := 0, 0;
      for i := 0 to |d.literals|
        invariant forall j :: 0 <= j < i ==> d.literals[j] !in vals
        invariant Counted(d.literals, marks, i, count, first)
      {
        var lit := d.literals[i];
        if lit in vals {
          assert HasTrue(d, trail);
          return 2, first;
        }
        if lit in marks {
          count := count + 1;
          first := lit;
        }
      }
      CountedAll(d, trail, vals, marks, count, first);
    }

    /** Marks a stored clause as garbage; false if there is none like it. A clause that
        is tautological or has a true literal was never stored. */
    method DeleteClause(c: seq<int>, id: int) returns (ok: bool, ghost at: int)
      requires Valid() && Sound() && forall l :: l in c ==> l != 0
      modifies this`clauses
      ensures Valid() && Sound()
      ensures at < 0 ==> clauses == old(clauses)
      ensures at >= 0 ==> ok && at < |clauses| == |old(clauses)| && IsStored(old(clauses), at, c, id)
      ensures at >= 0 ==> clauses == old(clauses)[at := old(clauses)[at].(garbage := true)]
      ensures forall m :: m in old(Meaning()) ==> m in Meaning()
      ensures at >= 0 && |clauses[at].literals| == 2 ==> Meaning() == old(Meaning())
      ensures ok && at < 0 ==> inconsistent || exists l :: l in c && (-l in c || l in vals)
      ensures !ok ==> at < 0 && forall d: nat :: !IsStored(clauses, d, c, id)
    {
      at := -1;
      if inconsistent { return true, -1; }
      var tautological, simplified := Tautological(c);
      if tautological { return true, -1; }
      RestingIs(clauses, watchers, vals, trail, |trail|, |trail|);
      var found, d := Find(simplified, id, c);
      if found {
        at := d;
        GarbageStep(clauses, watchers, vals, trail, d);
        KnownGarbage(Models(accepted), clauses, trail, d);
        HoldingGarbage(clauses, trail, d);
        clauses := clauses[d := clauses[d].(garbage := true)];
      }
      ok := found;
    }

    /** A live clause with this identifier and exactly these literals. */
    method Find(simplified: seq<int>, id: int, ghost c: seq<int>) returns (found: bool, d: nat)
      requires Store(clauses, watchers) && Simplified(simplified, vals) && forall l :: l in simplified <==> l in c
      ensures if found then IsStored(clauses, d, c, id) else forall e: nat :: !IsStored(clauses, e, c, id)
    {
      d := 0;
      while d < |clauses|
        invariant d <= |clauses| && forall e: nat :: e < d ==> !IsStored(clauses, e, c, id)
      {
        ClauseAt(clauses, watchers, d);
        SameSize(clauses[d].literals, simplified, vals);
        var k := clauses[d];
        if !k.garbage && k.id == id && |k.literals| == |simplified| && forall l :: l in k.literals ==> l in simplified {
          return true, d;
        }
        d := d + 1;
      }
      found := false;
    }

    /** Makes the satisfied clauses garbage, drops the watches of all garbage and frees it. */
    method CollectGarbageClauses()
      requires Valid() && !inconsistent
      modifies this`clauses, this`watchers
      ensures Valid() && (old(Sound()) ==> Sound()) && |clauses| == |old(clauses)| && Meaning() == Remaining(old(clauses), trail)
      ensures forall d :: 0 <= d < |clauses| ==> clauses[d].literals == old(clauses)[d].literals && clauses[d].id == old(clauses)[d].id
      ensures forall d :: 0 <= d < |clauses| ==> (clauses[d].garbage <==> old(clauses)[d].garbage || HasTrue(old(clauses)[d], trail))
      ensures forall d :: 0 <= d < |clauses| ==> (clauses[d].freed <==> old(clauses)[d].freed || clauses[d].garbage)
      ensures forall l, w :: l in watchers && w in watchers[l] ==> Live(clauses, w.clause)
    {
      FreedHolds(clauses, trail);
      MarkSatisfied();
      FlushStep(clauses, watchers, vals, trail);
      OnlyLiveWatches(clauses, watchers);
      KnownFreed(Models(accepted), clauses, trail);
      watchers := FlushedWatchers(clauses, watchers);
      clauses := Freed(clauses);
    }

    /** Makes the satisfied clauses garbage. */
    method MarkSatisfied()
      requires Valid() && !inconsistent
      modifies this`clauses
      ensures Valid() && |clauses| == |old(clauses)| && Remaining(clauses, trail) == Remaining(old(clauses), trail)
      ensures forall d :: 0 <= d < |clauses| ==> clauses[d] == Satisfied(old(clauses)[d], trail)
    {
      for i := 0 to |clauses|
        invariant Valid() && |clauses| == |old(clauses)|
        invariant forall d :: 0 <= d < |clauses| ==> clauses[d] == if d < i then Satisfied(old(clauses)[d], trail) else old(clauses)[d]
      {
        RestingIs(clauses, watchers, vals, trail, |trail|, |trail|);
        assert HasTrue(clauses[i], trail) <==> exists l :: l in clauses[i].literals && l in vals;
        if exists l :: l in clauses[i].literals && l in vals {
          GarbageStep(clauses, watchers, vals, trail, i);
          KnownGarbage(Models(accepted), clauses, trail, i);
          clauses := clauses[i := clauses[i].(garbage := true)];
        }
      }
      RemainingSatisfied(old(clauses), clauses, trail);
    }

    lemma StillInconsistent(c: seq<int>)
      requires Models(accepted) == iset{}
      ensures Models(accepted + [c]) == iset{} && Entailed(accepted, c)
    {
      MoreModels(accepted, c);
    }

    /** A clause that holds anyway changes nothing. */
    ghost method Ignore(c: seq<int>)
      requires Valid() && !inconsistent
      modifies this`accepted
      ensures Valid() && accepted == old(accepted) + [c] && Meaning() == old(Meaning())
    {
      MoreModels(accepted, c);
      KnownLess(Models(accepted), Models(accepted + [c]), clauses, trail);
      accepted := accepted + [c];
    }

    lemma TrueIsEntailed(c: seq<int>)
      requires Valid() && !inconsistent && (forall l :: l in c ==> l != 0) && exists l :: l in c && (-l in c || l in vals)
      ensures Follows(c) && Trivial(c, trail)
    {
      RestingIs(clauses, watchers, vals, trail, |trail|, |trail|);
      KnownHolds(Models(accepted), clauses, trail);
      var l :| l in c && (-l in c || l in vals);
      forall m | m in Meaning() ensures SomeTrue(m, c) {
        assert -l in c || True(m, l);
        assert True(m, l) || True(m, -l);
      }
    }
  }

  /** Assuming the negated literals, propagation ends without a conflict: the trail it
      reaches is consistent and leaves no live clause false or unit. */
  ghost predicate Stuck(clauses: seq<CheckerClause>, trail: seq<int>, lits: seq<int>, closed: seq<int>) {
    && trail <= closed && (forall l :: l in lits ==> -l in closed) && (forall l :: l in closed ==> -l !in closed)
    && forall c: nat :: Live(clauses, c) ==> HasTrue(clauses[c], closed) || HasTwoOpen(clauses[c].literals, closed)
  }

  ghost predicate HasTwoOpen(lits: seq<int>, trail: seq<int>) {
    exists i, j :: 0 <= i < j < |lits| && lits[i] !in trail && -lits[i] !in trail && lits[j] !in trail && -lits[j] !in trail
  }

  lemma IsStuck(clauses: seq<CheckerClause>, watchers: Watchers, vals: set<int>, trail: seq<int>, n0: nat, trail0: seq<int>, lits: seq<int>)
    requires Resting(clauses, watchers, vals, trail, n0, |trail|) && trail0 <= trail
    requires forall i :: 0 <= i < |lits| ==> -lits[i] in trail
    ensures Stuck(clauses, trail0, lits, trail)
  {
    RestingIs(clauses, watchers, vals, trail, n0, |trail|);
    forall c: nat | Live(clauses, c) ensures HasTrue(clauses[c], trail) || HasTwoOpen(clauses[c].literals, trail) {
      NothingFalsifiedOrUnit(clauses, watchers, vals, trail, n0, c);
    }
  }

  lemma StuckReordered(clauses: seq<CheckerClause>, trail: seq<int>, lits: seq<int>, c: seq<int>, closed: seq<int>)
    requires Stuck(clauses, trail, lits, closed) && forall l :: l in lits <==> l in c
    ensures Stuck(clauses, trail, c, closed)
  {
  }

  /** The clause holds trivially, has a true literal, or is stored. */
  ghost predicate InForce(clauses: seq<CheckerClause>, trail: seq<int>, c: seq<int>, id: int) {
    (exists l :: l in c && (-l in c || l in trail)) || exists d: nat :: IsStored(clauses, d, c, id)
  }

  /** A live clause with the identifier and exactly the literals of c. */
  ghost predicate IsStored(clauses: seq<CheckerClause>, d: nat, c: seq<int>, id: int) {
    Live(clauses, d) && clauses[d].id == id && forall l :: l in clauses[d].literals <==> l in c
  }

  /** For clauses without repetitions, comparing sizes and one inclusion is enough. */
  lemma SameSize(a: seq<int>, b: seq<int>, vals: set<int>)
    requires ClauseOk(CheckerClause(a, false, false, 0)) && Simplified(b, vals)
    ensures (forall l :: l in a <==> l in b) <==> |a| == |b| && forall l :: l in a ==> l in b
  {
    Resolution.LitCount(a);
    Resolution.LitCount(b);
    if forall l :: l in a <==> l in b {
      assert LitSet(a) == LitSet(b);
    }
    if |a| == |b| && forall l :: l in a ==> l in b {
      SubsetSize(LitSet(a), LitSet(b));
      forall l | l in b ensures l in a { assert l in LitSet(b); }
    }
  }

  lemma OnlyLiveWatches(clauses: seq<CheckerClause>, watchers: Watchers)
    ensures forall l, w :: l in FlushedWatchers(clauses, watchers) && w in FlushedWatchers(clauses, watchers)[l] ==> Live(clauses, w.clause)
  {
    forall l, w | l in FlushedWatchers(clauses, watchers) && w in FlushedWatchers(clauses, watchers)[l] ensures Live(clauses, w.clause) {
      LiveOnly(clauses, watchers[l], w);
    }
  }

  lemma {:induction false} LiveOnly(clauses: seq<CheckerClause>, ws: seq<Watch>, w: Watch)
    requires w in LiveWatches(clauses, ws)
    ensures Live(clauses, w.clause)
  {
    if w in LiveWatches(clauses, ws[..|ws| - 1]) { LiveOnly(clauses, ws[..|ws| - 1], w); }
  }

  lemma WatchIs(clauses: seq<CheckerClause>, watchers: Watchers, vals: set<int>, trail: seq<int>, n0: nat, n: nat, k: nat)
    requires Running(clauses, watchers, vals, trail, n0, n, k) && n < |trail| && k < |At(watchers, -trail[n])|
    ensures var w := At(watchers, -trail[n])[k];
      && w.clause < |clauses| && ClauseOk(clauses[w.clause]) && w.blit in clauses[w.clause].literals && TrailOk(vals, trail)
      && (Live(clauses, w.clause) ==> Watched(clauses[w.clause], -trail[n]))
  {
    RunningIs(clauses, watchers, vals, trail, n0, n, k);
    ListAt(clauses, watchers, -trail[n]);
    assert WatchOk(clauses, -trail[n], At(watchers, -trail[n])[k]);
    ClauseAt(clauses, watchers, At(watchers, -trail[n])[k].clause);
  }

  lemma BlitSatisfies(clauses: seq<CheckerClause>, w: Watch, vals: set<int>, trail: seq<int>)
    requires w.clause < |clauses| && w.blit in clauses[w.clause].literals && w.blit in vals && TrailOk(vals, trail)
    ensures HasTrue(clauses[w.clause], trail)
  {
  }

  lemma BinaryLiterals(lits: seq<int>, a: int, b: int)
    requires |lits| == 2 && a in lits && b in lits && a != b
    ensures forall l :: l in lits <==> l == a || l == b
  {
  }

  /** Without a replacement, all literals but the other watched one are false. */
  lemma OthersFalse(c: CheckerClause, vals: set<int>, trail: seq<int>, other: int, lit: int)
    requires ClauseOk(c) && TrailOk(vals, trail) && c.literals[0] == other && c.literals[1] == lit && -lit in vals
    requires forall j :: 2 <= j < |c.literals| ==> -c.literals[j] in vals
    ensures forall x :: x in c.literals && x != other ==> x != 0 && -x in trail
  {
  }

  // --------------------------------------------------------- clause level

  ghost function Models(accepted: seq<seq<int>>): iset<Model> {
    iset m: Model | SatEach(m, accepted)
  }

  ghost predicate SatEach(m: Model, accepted: seq<seq<int>>) {
    forall i {:trigger accepted[i]} :: 0 <= i < |accepted| ==> SomeTrue(m, accepted[i])
  }

  /** Everything that satisfies the accepted clauses satisfies this one. */
  ghost predicate Entailed(accepted: seq<seq<int>>, lits: seq<int>) { forall m :: m in Models(accepted) ==> SomeTrue(m, lits) }

  /** The models satisfy the stored clauses and the trail. */
  ghost predicate Known(M: iset<Model>, clauses: seq<CheckerClause>, trail: seq<int>) {
    forall m {:trigger m in M} :: m in M ==> SatAll(m, clauses) && forall l {:trigger True(m, l)} :: l in trail ==> True(m, l)
  }

  /** Sorted without duplicates, not tautological, and with no true literal. */
  ghost predicate Simplified(lits: seq<int>, vals: set<int>) {
    && (forall l :: l in lits ==> l != 0 && l !in vals)
    && (forall i, j :: 0 <= i < j < |lits| ==> lits[i] != lits[j] && lits[i] != -lits[j])
  }

  ghost predicate OpenPair(lits: seq<int>, vals: set<int>, i: int, j: int) {
    0 <= i < j < |lits| && lits[i] !in vals && -lits[i] !in vals && lits[j] !in vals && -lits[j] !in vals
  }

  ghost predicate TwoOpen(lits: seq<int>, vals: set<int>) { exists i, j :: OpenPair(lits, vals, i, j) }

  /** The literals that can appear on the trail while a clause is checked. */
  ghost function Universe(clauses: seq<CheckerClause>, trail: seq<int>, lits: seq<int>): set<int> {
    (set c, i | 0 <= c < |clauses| && 0 <= i < |clauses[c].literals| :: clauses[c].literals[i])
    + (set l | l in trail) + (set i | 0 <= i < |lits| :: -lits[i])
  }

  lemma KnownFacts(K: iset<Model>, M: iset<Model>, clauses: seq<CheckerClause>, trail: seq<int>, lits: seq<int>)
    requires Known(K, clauses, trail) && forall m :: m in M ==> m in K
    ensures Facts(M, Universe(clauses, trail, lits), clauses, trail)
  {
  }

  lemma FactsKnown(M: iset<Model>, U: set<int>, clauses: seq<CheckerClause>, trail: seq<int>)
    requires Facts(M, U, clauses, trail)
    ensures Known(M, clauses, trail)
  {
  }

  lemma KnownLess(K: iset<Model>, M: iset<Model>, clauses: seq<CheckerClause>, trail: seq<int>)
    requires Known(K, clauses, trail) && forall m :: m in M ==> m in K
    ensures Known(M, clauses, trail)
  {
  }

  lemma SatReordered(m: Model, a: seq<int>, b: seq<int>)
    requires SomeTrue(m, a) && forall l :: l in a ==> l in b
    ensures SomeTrue(m, b)
  {
    var l :| l in a && True(m, l);
  }

  lemma KnownHolds(M: iset<Model>, clauses: seq<CheckerClause>, trail: seq<int>)
    requires Known(M, clauses, trail)
    ensures forall m :: m in M ==> m in Holding(clauses, trail)
  {
  }

  lemma SatAllReordered(m: Model, a: seq<CheckerClause>, b: seq<CheckerClause>)
    requires SameClauses(a, b) && SatAll(m, a)
    ensures SatAll(m, b)
  {
    forall c: nat | c < |b| && InPlay(b[c]) ensures SomeTrue(m, b[c].literals) {
      assert SameClause(a[c], b[c]);
      SatReordered(m, a[c].literals, b[c].literals);
    }
  }

  lemma SameClausesBack(a: seq<CheckerClause>, b: seq<CheckerClause>)
    requires SameClauses(a, b)
    ensures SameClauses(b, a)
  {
    forall c: nat | c < |b| ensures SameClause(b[c], a[c]) { assert SameClause(a[c], b[c]); }
  }

  lemma HoldingReordered(a: seq<CheckerClause>, b: seq<CheckerClause>, trail: seq<int>)
    requires SameClauses(a, b)
    ensures Holding(a, trail) == Holding(b, trail)
  {
    SameClausesBack(a, b);
    forall m ensures SatAll(m, a) <==> SatAll(m, b) {
      if SatAll(m, a) { SatAllReordered(m, a, b); }
      if SatAll(m, b) { SatAllReordered(m, b, a); }
    }
  }

  lemma RemainingReordered(a: seq<CheckerClause>, b: seq<CheckerClause>, trail: seq<int>)
    requires SameClauses(a, b)
    ensures Remaining(a, trail) == Remaining(b, trail)
  {
    forall c: nat | c < |b| ensures SameClause(Freed(a)[c], Freed(b)[c]) { assert SameClause(a[c], b[c]); }
    HoldingReordered(Freed(a), Freed(b), trail);
  }

  lemma PassesReordered(a: seq<CheckerClause>, b: seq<CheckerClause>, trail: seq<int>, c: seq<int>)
    requires SameClauses(a, b)
    ensures PassesTest(a, trail, c) <==> PassesTest(b, trail, c)
  {
    SameClausesBack(a, b);
    forall l ensures Leaves(a, trail, c, l) <==> Leaves(b, trail, c, l) {
      if Leaves(a, trail, c, l) { LeavesReordered(a, b, trail, c, l); }
      if Leaves(b, trail, c, l) { LeavesReordered(b, a, trail, c, l); }
    }
  }

  lemma LeavesReordered(a: seq<CheckerClause>, b: seq<CheckerClause>, trail: seq<int>, c: seq<int>, l: int)
    requires SameClauses(a, b) && Leaves(a, trail, c, l)
    ensures Leaves(b, trail, c, l)
  {
    forall d: nat | Live(b, d) ensures !Refutes(b[d], trail, c, l) {
      assert SameClause(a[d], b[d]) && Live(a, d) && !Refutes(a[d], trail, c, l);
      if HasTrue(a[d], trail) {
        var x :| x in a[d].literals && x in trail;
        assert x in b[d].literals;
      }
    }
  }

  lemma KnownReordered(M: iset<Model>, a: seq<CheckerClause>, b: seq<CheckerClause>, trail: seq<int>)
    requires Known(M, a, trail) && SameClauses(a, b)
    ensures Known(M, b, trail)
  {
    forall m | m in M ensures SatAll(m, b) { SatAllReordered(m, a, b); }
  }

  /** Storing the clause leaves exactly the assignments that satisfy it. */
  lemma StoredMeans(M: iset<Model>, clauses: seq<CheckerClause>, trail: seq<int>, lits: seq<int>, id: int, c: seq<int>)
    requires (forall m :: m in M <==> m in Holding(clauses, trail) && SomeTrue(m, c)) && forall l :: l in lits <==> l in c
    ensures Holding(clauses + [CheckerClause(lits, false, false, id)], trail) == M
    ensures Known(M, clauses + [CheckerClause(lits, false, false, id)], trail)
  {
    var d := CheckerClause(lits, false, false, id);
    forall m ensures SatAll(m, clauses + [d]) <==> SatAll(m, clauses) && SomeTrue(m, c) { SatOneMore(m, clauses, d, c); }
  }

  lemma SatOneMore(m: Model, clauses: seq<CheckerClause>, d: CheckerClause, c: seq<int>)
    requires !d.garbage && !d.freed && forall l :: l in d.literals <==> l in c
    ensures SatAll(m, clauses + [d]) <==> SatAll(m, clauses) && SomeTrue(m, c)
  {
    var more := clauses + [d];
    assert more[|clauses|] == d && InPlay(d);
    assert forall e :: 0 <= e < |clauses| ==> more[e] == clauses[e];
    assert SomeTrue(m, d.literals) <==> SomeTrue(m, c);
  }

  /** And so does making its last open literal true. */
  lemma UnitMeans(M: iset<Model>, a: seq<CheckerClause>, b: seq<CheckerClause>, trail: seq<int>, trail': seq<int>, unit: int, c: seq<int>)
    requires forall m :: m in M <==> m in Holding(a, trail) && SomeTrue(m, c)
    requires SameClauses(a, b) && Known(M, b, trail') && trail <= trail' && unit in c && unit in trail'
    ensures Holding(b, trail') == M
  {
    HoldingReordered(a, b, trail);
    assert forall l :: l in trail ==> l in trail';
    forall m ensures m in Holding(b, trail') <==> m in M {
      if m in Holding(b, trail') { assert m in Holding(b, trail) && True(m, unit); }
    }
  }

  /** Deleting a clause only ever leaves more, and nothing more while it is in play. */
  lemma HoldingGarbage(clauses: seq<CheckerClause>, trail: seq<int>, d: nat)
    requires d < |clauses|
    ensures var after := clauses[d := clauses[d].(garbage := true)];
      && (forall m :: m in Holding(clauses, trail) ==> m in Holding(after, trail))
      && (|clauses[d].literals| == 2 ==> Holding(after, trail) == Holding(clauses, trail))
  {
    var after := clauses[d := clauses[d].(garbage := true)];
    forall m ensures SatAll(m, clauses) ==> SatAll(m, after) {
      if SatAll(m, clauses) {
        forall e | 0 <= e < |after| && InPlay(after[e]) ensures SomeTrue(m, after[e].literals) { assert InPlay(clauses[e]); }
      }
    }
    if |clauses[d].literals| == 2 {
      forall m ensures SatAll(m, after) ==> SatAll(m, clauses) {
        if SatAll(m, after) {
          forall e | 0 <= e < |clauses| && InPlay(clauses[e]) ensures SomeTrue(m, clauses[e].literals) { assert InPlay(after[e]); }
        }
      }
    }
  }

  /** What becomes of a clause with a true literal. */
  ghost function Satisfied(c: CheckerClause, trail: seq<int>): CheckerClause { c.(garbage := c.garbage || HasTrue(c, trail)) }

  lemma RemainingSatisfied(a: seq<CheckerClause>, b: seq<CheckerClause>, trail: seq<int>)
    requires |b| == |a| && forall d :: 0 <= d < |a| ==> b[d] == Satisfied(a[d], trail)
    ensures Remaining(b, trail) == Remaining(a, trail)
  {
    forall m | forall l {:trigger True(m, l)} :: l in trail ==> True(m, l) ensures SatAll(m, Freed(a)) <==> SatAll(m, Freed(b)) {
      forall d: nat | d < |a| ensures (InPlay(Freed(a)[d]) ==> SomeTrue(m, a[d].literals)) <==> (InPlay(Freed(b)[d]) ==> SomeTrue(m, b[d].literals)) {
        if HasTrue(a[d], trail) {
          var x :| x in a[d].literals && x in trail;
          assert True(m, x) && SomeTrue(m, a[d].literals);
        }
      }
    }
  }

  lemma KnownFreed(M: iset<Model>, clauses: seq<CheckerClause>, trail: seq<int>)
    requires Known(M, clauses, trail)
    ensures Known(M, Freed(clauses), trail)
  {
    forall m | m in M ensures SatAll(m, Freed(clauses)) {
      forall d: nat | d < |clauses| && InPlay(Freed(clauses)[d]) ensures SomeTrue(m, clauses[d].literals) { assert InPlay(clauses[d]); }
    }
  }

  // ------------------------------------------------------ blocked clauses

  /** The clause is tautological or has a true literal. */
  ghost predicate Trivial(c: seq<int>, trail: seq<int>) { exists l :: l in c && (-l in c || l in trail) }

  lemma NotTrivial(simplified: seq<int>, vals: set<int>, c: seq<int>, trail: seq<int>)
    requires Simplified(simplified, vals) && TrailOk(vals, trail) && forall l :: l in simplified <==> l in c
    ensures !Trivial(c, trail)
  {
    forall l | l in c ensures -l !in c && l !in trail {
      var i :| 0 <= i < |simplified| && simplified[i] == l;
    }
  }

  /** The assignments in force include those that the originals allow, or are at least not
      none when the originals allow some. */
  ghost predicate KeepsOriginals(O: iset<Model>, K: iset<Model>, tested: bool) {
    if tested then K == iset{} ==> O == iset{} else forall m :: m in O ==> m in K
  }

  /** A clause that follows leaves what is in force, one that can be repaired leaves some of it. */
  lemma DerivedKeeps(O: iset<Model>, K: iset<Model>, base: iset<Model>, K': iset<Model>, c: seq<int>, tested: bool, unsure: bool, follows: bool, repair: bool)
    requires !unsure ==> KeepsOriginals(O, K, tested)
    requires (forall m :: m in K ==> m in base) && forall m :: m in K' <==> m in base && SomeTrue(m, c)
    requires follows ==> forall m :: m in K ==> SomeTrue(m, c)
    requires repair ==> exists l :: Repairable(base, c, l)
    ensures !unsure && (follows || repair) ==> KeepsOriginals(O, K', tested || !follows)
  {
    if !unsure && follows {
      assert forall m :: m in K ==> m in K';
    } else if !unsure && repair {
      var l :| Repairable(base, c, l);
      forall m | m in O ensures K' != iset{} {
        assert K != iset{};
        var n :| n in K;
        assert n in base;
        assert n in K' || Extension.Make(n, l) in K';
      }
    }
  }

  /** Freeing the garbage only leaves more. */
  lemma FreedHolds(clauses: seq<CheckerClause>, trail: seq<int>)
    ensures forall m :: m in Holding(clauses, trail) ==> m in Holding(Freed(clauses), trail)
  {
    var M := Holding(clauses, trail);
    assert Known(M, clauses, trail);
    KnownFreed(M, clauses, trail);
    KnownHolds(M, Freed(clauses), trail);
  }

  /** Each assignment is kept, or kept with l made true. */
  ghost predicate Repaired(K: iset<Model>, K': iset<Model>, l: int) {
    forall m :: m in K ==> m in K' || Extension.Make(m, l) in K'
  }

  ghost predicate Repairable(K: iset<Model>, c: seq<int>, l: int) {
    forall m :: m in K ==> SomeTrue(m, c) || (Extension.Make(m, l) in K && SomeTrue(Extension.Make(m, l), c))
  }

  lemma StoreClausesOk(clauses: seq<CheckerClause>, watchers: Watchers)
    requires Store(clauses, watchers)
    ensures ClausesOk(clauses) && ClausesOk(Freed(clauses))
  {
    forall c: nat | c < |clauses| ensures ClauseOk(clauses[c]) && ClauseOk(Freed(clauses)[c]) { ClauseAt(clauses, watchers, c); }
  }

  lemma BlockedRepairsOn(clauses: seq<CheckerClause>, trail: seq<int>, c: seq<int>, l: int)
    requires BlockedOn(clauses, trail, c, l) && !Trivial(c, trail) && ClausesOk(clauses)
    requires (forall y :: y in c ==> y != 0) && forall x :: x in trail ==> x != 0
    ensures Repairable(Holding(clauses, trail), c, l)
  {
    forall m | m in Holding(clauses, trail) && !SomeTrue(m, c)
      ensures Extension.Make(m, l) in Holding(clauses, trail) && SomeTrue(Extension.Make(m, l), c)
    {
      FlipRepairs(clauses, trail, c, l, m);
    }
  }

  lemma MoreModels(accepted: seq<seq<int>>, c: seq<int>)
    ensures forall m :: m in Models(accepted + [c]) <==> m in Models(accepted) && SomeTrue(m, c)
  {
    var more := accepted + [c];
    forall m ensures m in Models(more) <==> m in Models(accepted) && SomeTrue(m, c) {
      assert more[|accepted|] == c;
      if m in Models(more) {
        forall i | 0 <= i < |accepted| ensures SomeTrue(m, accepted[i]) { assert more[i] == accepted[i]; }
      }
    }
  }

  lemma AllFalse(M: iset<Model>, vals: set<int>, trail: seq<int>, lits: seq<int>, clauses: seq<CheckerClause>)
    requires Known(M, clauses, trail) && (forall l :: l in vals ==> l in trail)
    requires (forall l :: l in lits ==> l != 0 && -l in vals) && forall m :: m in M ==> SomeTrue(m, lits)
    ensures M == iset{}
  {
    forall m ensures m !in M {
      assert m in M ==> SomeTrue(m, lits);
      assert forall l :: m in M && l in lits ==> True(m, -l);
    }
  }

  lemma OneOpen(M: iset<Model>, vals: set<int>, trail: seq<int>, lits: seq<int>, clauses: seq<CheckerClause>, unit: int)
    requires Known(M, clauses, trail) && (forall l :: l in vals ==> l in trail)
    requires (forall l :: l in lits ==> l != 0 && (l == unit || -l in vals)) && forall m :: m in M ==> SomeTrue(m, lits)
    ensures forall m :: m in M ==> True(m, unit)
  {
    forall m | m in M ensures True(m, unit) {
      var l :| l in lits && True(m, l);
      assert l != unit ==> True(m, -l);
    }
  }

  lemma PopTrail(vals: set<int>, trail: seq<int>)
    requires TrailOk(vals, trail) && trail != []
    ensures TrailOk(vals - {trail[|trail| - 1]}, trail[..|trail| - 1])
  {
    var n := |trail| - 1;
    assert trail == trail[..n] + [trail[n]];
  }

  lemma RestoredVals(vals: set<int>, trail: seq<int>)
    requires forall l :: l in vals <==> l in trail
    ensures (set l | l in trail) == vals
  {
    forall l ensures l in (set x | x in trail) <==> l in vals { }
  }

  lemma NegationIsOpen(lits: seq<int>, vals: set<int>, i: nat)
    requires Simplified(lits, vals) && i < |lits|
    ensures lits[i] !in vals + (set j | 0 <= j < i :: -lits[j])
  {
    assert lits[i] in lits;
  }

  lemma SimplifiedIsClause(lits: seq<int>, vals: set<int>, id: int)
    requires Simplified(lits, vals) && |lits| >= 2
    ensures ClauseOk(CheckerClause(lits, false, false, id))
  {
    assert forall i :: 0 <= i < |lits| ==> lits[i] in lits;
  }

  function SwapIndex(i: nat, j: nat, k: nat): nat { if k == i then j else if k == j then i else k }

  function Swap(lits: seq<int>, i: nat, j: nat): (r: seq<int>)
    requires i < |lits| && j < |lits|
    ensures |r| == |lits| && forall k: nat :: k < |lits| ==> r[k] == lits[SwapIndex(i, j, k)]
  {
    lits[i := lits[j]][j := lits[i]]
  }

  lemma SwapSimplified(lits: seq<int>, i: nat, j: nat, vals: set<int>)
    requires Simplified(lits, vals) && i < |lits| && j < |lits|
    ensures Simplified(Swap(lits, i, j), vals) && forall l :: l in Swap(lits, i, j) <==> l in lits
  {
    var r := Swap(lits, i, j);
    SwapMembers(lits, i, j);
    assert forall l :: l in r ==> l in lits;
    forall x, y | 0 <= x < y < |r| ensures r[x] != r[y] && r[x] != -r[y] {
      var x', y' := SwapIndex(i, j, x), SwapIndex(i, j, y);
      assert r[x] == lits[x'] && r[y] == lits[y'] && x' != y';
    }
  }

  lemma SwapTwoOpen(lits: seq<int>, i: nat, j: nat, vals: set<int>)
    requires TwoOpen(lits, vals) && i < |lits| && j < |lits|
    ensures TwoOpen(Swap(lits, i, j), vals)
  {
    var r := Swap(lits, i, j);
    var a: nat, b: nat :| OpenPair(lits, vals, a, b);
    var a', b' := SwapIndex(i, j, a), SwapIndex(i, j, b);
    assert SwapIndex(i, j, a') == a && SwapIndex(i, j, b') == b;
    assert r[a'] == lits[a] && r[b'] == lits[b];
    assert if a' < b' then OpenPair(r, vals, a', b') else OpenPair(r, vals, b', a');
  }

  /** Two open literals leave one from position 1 on. */
  lemma OpenFromOne(lits: seq<int>, vals: set<int>)
    requires TwoOpen(lits, vals)
    ensures |lits| >= 2 && exists k :: 1 <= k < |lits| && lits[k] !in vals && -lits[k] !in vals
  {
    var a, b :| OpenPair(lits, vals, a, b);
    assert 1 <= b < |lits|;
  }

  // ------------------------------------------------- sorting literals

  /** By variable, the negative literal first. */
  function Key(l: int): nat { 2 * Abs(l) + if l < 0 then 0 else 1 }

  function InsertLit(s: seq<int>, l: int): seq<int> {
    if s == [] || Key(s[|s| - 1]) <= Key(l) then s + [l] else InsertLit(s[..|s| - 1], l) + [s[|s| - 1]]
  }

  function SortLits(s: seq<int>): seq<int> {
    if s == [] then [] else InsertLit(SortLits(s[..|s| - 1]), s[|s| - 1])
  }

  ghost predicate Ascending(s: seq<int>) { forall i, j :: 0 <= i < j < |s| ==> Key(s[i]) <= Key(s[j]) }

  lemma AppendedLit(s: seq<int>, l: int)
    requires Ascending(s) && forall i :: 0 <= i < |s| ==> Key(s[i]) <= Key(l)
    ensures Ascending(s + [l]) && forall x :: x in s + [l] <==> x in s || x == l
  {
  }

  lemma {:induction false} InsertedLit(s: seq<int>, l: int)
    requires Ascending(s)
    ensures Ascending(InsertLit(s, l)) && forall x :: x in InsertLit(s, l) <==> x in s || x == l
  {
    if s == [] || Key(s[|s| - 1]) <= Key(l) {
      AppendedLit(s, l);
    } else {
      var n := |s| - 1;
      InsertedLit(s[..n], l);
      var r := InsertLit(s[..n], l);
      assert s == s[..n] + [s[n]];
      forall i | 0 <= i < |r| ensures Key(r[i]) <= Key(s[n]) { assert r[i] in r; }
      AppendedLit(r, s[n]);
    }
  }

  lemma {:induction false} SortedLits(s: seq<int>)
    ensures Ascending(SortLits(s)) && forall x :: x in SortLits(s) <==> x in s
  {
    if s != [] {
      var n := |s| - 1;
      SortedLits(s[..n]);
      InsertedLit(SortLits(s[..n]), s[n]);
      assert s == s[..n] + [s[n]];
    }
  }

  /** The first i sorted literals without duplicates. */
  ghost predicate Deduplicated(sorted: seq<int>, i: nat, vals: set<int>, simplified: seq<int>, previous: int) {
    && i <= |sorted| && Simplified(simplified, vals) && (forall l :: l in simplified <==> l in sorted[..i])
    && (simplified == [] ==> previous == 0) && (simplified != [] ==> previous == simplified[|simplified| - 1])
    && (forall l :: l in simplified ==> Key(l) <= Key(previous))
  }

  lemma DeduplicateStep(sorted: seq<int>, i: nat, vals: set<int>, simplified: seq<int>, previous: int)
    requires Deduplicated(sorted, i, vals, simplified, previous) && i < |sorted| && Ascending(sorted) && sorted[i] != 0
    ensures sorted[i] == previous ==> Deduplicated(sorted, i + 1, vals, simplified, previous)
    ensures sorted[i] == -previous ==> previous in sorted
    ensures sorted[i] != previous && sorted[i] != -previous && sorted[i] !in vals ==>
              Deduplicated(sorted, i + 1, vals, simplified + [sorted[i]], sorted[i])
  {
    var lit := sorted[i];
    assert sorted[..i + 1] == sorted[..i] + [lit];
    if simplified != [] {
      assert previous in simplified && previous in sorted[..i];
      assert Key(previous) <= Key(lit);
    }
    if lit != previous && lit != -previous && lit !in vals {
      forall k | 0 <= k < |simplified| ensures simplified[k] != lit && simplified[k] != -lit {
        assert simplified[k] in simplified;
        assert Key(simplified[k]) <= Key(previous) <= Key(lit);
      }
    }
  }

  lemma DeduplicateEnd(sorted: seq<int>, vals: set<int>, simplified: seq<int>, previous: int)
    requires Deduplicated(sorted, |sorted|, vals, simplified, previous)
    ensures forall l :: l in simplified <==> l in sorted
  {
    assert sorted[..|sorted|] == sorted;
  }

  lemma KnownGarbage(M: iset<Model>, clauses: seq<CheckerClause>, trail: seq<int>, d: nat)
    requires Known(M, clauses, trail) && d < |clauses|
    ensures Known(M, clauses[d := clauses[d].(garbage := true)], trail)
  {
    var after := clauses[d := clauses[d].(garbage := true)];
    forall m | m in M ensures SatAll(m, after) {
      forall c | 0 <= c < |after| && InPlay(after[c]) ensures SomeTrue(m, after[c].literals) { assert InPlay(clauses[c]); }
    }
  }
}
