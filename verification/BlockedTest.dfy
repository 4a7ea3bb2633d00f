/** The proof checker's test for blocked clauses: which literals it leaves marked, and
    when flipping such a literal really repairs every model. */
module BlockedTest {
  import opened Literals
  import opened WatchedClauses
  import opened Propagation
  import Extension

  /** The clause is not satisfied by the trail, and clashes with c on l only. */
  ghost predicate Refutes(d: CheckerClause, trail: seq<int>, c: seq<int>, l: int) {
    -l in d.literals && !HasTrue(d, trail) && forall y :: y in c && y != l ==> -y !in d.literals
  }

  /** The test leaves the literal marked: no live clause refutes it. */
  ghost predicate Leaves(clauses: seq<CheckerClause>, trail: seq<int>, c: seq<int>, l: int) {
    l in c && forall d: nat :: Live(clauses, d) ==> !Refutes(clauses[d], trail, c, l)
  }

  ghost predicate PassesTest(clauses: seq<CheckerClause>, trail: seq<int>, c: seq<int>) { exists l :: Leaves(clauses, trail, c, l) }

  // --------------------------------------------------- what it should test

  /** The clause D cannot become false when l is made true: besides the negation of l it has
      a literal of the trail, or the negation of another literal of c. */
  ghost predicate Resists(D: seq<int>, trail: seq<int>, c: seq<int>, l: int) {
    -l in D ==> (exists x :: x in D && x != -l && x in trail) || exists y :: y in c && y != l && -y in D
  }

  /** The clause is blocked on l by everything that propagation uses: the clauses in play,
      and the trail as unit clauses. */
  ghost predicate BlockedOn(clauses: seq<CheckerClause>, trail: seq<int>, c: seq<int>, l: int) {
    && l in c && (forall d: nat :: d < |clauses| && InPlay(clauses[d]) ==> Resists(clauses[d].literals, trail, c, l))
    && forall x :: x in trail ==> Resists([x], trail, c, l)
  }

  /** What the test overlooks: the negation is on the trail, or in a deleted binary clause
      that is still watched. */
  ghost predicate Overlooked(clauses: seq<CheckerClause>, trail: seq<int>, c: seq<int>, l: int) {
    -l in trail || exists d: nat :: d < |clauses| && InPlay(clauses[d]) && clauses[d].garbage && Refutes(clauses[d], trail, c, l)
  }

  lemma RefutesOrResists(d: CheckerClause, trail: seq<int>, c: seq<int>, l: int)
    requires -l !in trail
    ensures Resists(d.literals, trail, c, l) <==> !Refutes(d, trail, c, l)
  {
    if HasTrue(d, trail) {
      var x :| x in d.literals && x in trail;
      assert x != -l;
    }
  }

  /** The test is right about a literal exactly if nothing is overlooked. */
  lemma BlockedIffLeft(clauses: seq<CheckerClause>, trail: seq<int>, c: seq<int>, l: int)
    requires ClausesOk(clauses)
    ensures BlockedOn(clauses, trail, c, l) <==> Leaves(clauses, trail, c, l) && !Overlooked(clauses, trail, c, l)
  {
    if -l in trail {
      assert !Resists([-l], trail, c, l) by { assert [-l][0] == -l; }
    } else {
      forall d: nat | d < |clauses| ensures Resists(clauses[d].literals, trail, c, l) <==> !Refutes(clauses[d], trail, c, l) {
        RefutesOrResists(clauses[d], trail, c, l);
      }
      forall x | x in trail ensures Resists([x], trail, c, l) {}
    }
  }

  // --------------------------------------------------- what blocked means

  /** Making l true repairs every assignment that satisfies what is in play but not c. */
  lemma FlipRepairs(clauses: seq<CheckerClause>, trail: seq<int>, c: seq<int>, l: int, m: Model)
    requires BlockedOn(clauses, trail, c, l) && m in Holding(clauses, trail) && !SomeTrue(m, c)
    requires (forall y :: y in c ==> y != 0 && -y !in c) && (forall x :: x in trail ==> x != 0) && ClausesOk(clauses)
    ensures Extension.Make(m, l) in Holding(clauses, trail) && SomeTrue(Extension.Make(m, l), c)
  {
    var m' := Extension.Make(m, l);
    Extension.MakeIsTrue(m, l, l);
    forall d: nat | d < |clauses| && InPlay(clauses[d]) ensures SomeTrue(m', clauses[d].literals) {
      Unharmed(clauses[d].literals, trail, c, l, m);
    }
    forall x | x in trail ensures True(m', x) {
      assert x in [x] && True(m, x);
      Unharmed([x], trail, c, l, m);
    }
  }

  lemma Unharmed(D: seq<int>, trail: seq<int>, c: seq<int>, l: int, m: Model)
    requires Resists(D, trail, c, l) && SomeTrue(m, D) && !SomeTrue(m, c) && l in c && forall x :: x in D ==> x != 0
    requires (forall y :: y in c ==> y != 0 && -y !in c) && forall x :: x in trail ==> x != 0 && True(m, x)
    ensures SomeTrue(Extension.Make(m, l), D)
  {
    var z :| z in D && True(m, z);
    if z == -l {
      var w :| w in D && w != -l && True(m, w);
      Extension.MakeIsTrue(m, l, w);
      assert Abs(w) == Abs(l) ==> w == l;
    } else {
      Extension.MakeIsTrue(m, l, z);
      assert Abs(z) == Abs(l) ==> z == l;
    }
  }

  // ------------------------------------------------- the marks of the test

  function Negated(c: seq<int>): set<int> { set l | l in c :: -l }

  lemma NegatedOneMore(c: seq<int>, i: nat)
    requires i < |c|
    ensures Negated(c[..i + 1]) == Negated(c[..i]) + {-c[i]}
  {
    assert c[..i + 1] == c[..i] + [c[i]];
    forall x ensures x in Negated(c[..i + 1]) <==> x in Negated(c[..i]) || x == -c[i] {
      assert x in Negated(c[..i + 1]) <==> -x in c[..i + 1];
      assert x in Negated(c[..i]) <==> -x in c[..i];
    }
  }

  /** No literal is true, and x is the only marked one. */
  ghost predicate OnlyMarked(d: CheckerClause, trail: seq<int>, marks: set<int>, x: int) {
    !HasTrue(d, trail) && x in d.literals && x in marks && forall y :: y in d.literals && y in marks ==> y == x
  }

  /** What the count says about the first n literals. */
  ghost predicate Counted(lits: seq<int>, marks: set<int>, n: nat, count: nat, first: int) {
    && n <= |lits| && (count == 0 ==> forall j :: 0 <= j < n ==> lits[j] !in marks)
    && (count == 1 ==> exists j :: 0 <= j < n && lits[j] == first && first in marks && forall k :: 0 <= k < n && k != j ==> lits[k] !in marks)
    && (count >= 2 ==> exists j, k :: 0 <= j < k < n && lits[j] in marks && lits[k] in marks)
  }

  lemma CountedAll(d: CheckerClause, trail: seq<int>, vals: set<int>, marks: set<int>, count: nat, first: int)
    requires TrailOk(vals, trail) && ClauseOk(d) && Counted(d.literals, marks, |d.literals|, count, first)
    requires forall j :: 0 <= j < |d.literals| ==> d.literals[j] !in vals
    ensures count == 1 ==> OnlyMarked(d, trail, marks, first)
    ensures forall x :: OnlyMarked(d, trail, marks, x) ==> count == 1 && x == first
  {
    forall x | OnlyMarked(d, trail, marks, x) ensures count == 1 && x == first {
      var i :| 0 <= i < |d.literals| && d.literals[i] == x;
      assert forall j, k :: 0 <= j < k < |d.literals| && d.literals[j] in marks ==> d.literals[k] !in marks;
    }
  }

  lemma OnlyMarkedRefutes(d: CheckerClause, trail: seq<int>, c: seq<int>, l: int)
    requires l in c
    ensures OnlyMarked(d, trail, Negated(c), -l) <==> Refutes(d, trail, c, l)
  {
    if OnlyMarked(d, trail, Negated(c), -l) {
      forall y | y in c && y != l ensures -y !in d.literals { assert -y in Negated(c); }
    }
  }

  /** The marks that are left are those of the literals that no clause refutes. */
  lemma LeftIsLeaves(clauses: seq<CheckerClause>, trail: seq<int>, c: seq<int>, left: set<int>)
    requires forall x :: x in left <==> x in Negated(c) && !exists e: nat :: e < |clauses| && Live(clauses, e) && OnlyMarked(clauses[e], trail, Negated(c), x)
    ensures PassesTest(clauses, trail, c) <==> exists j :: 0 <= j < |c| && -c[j] in left
  {
    forall l ensures -l in left <==> Leaves(clauses, trail, c, l) {
      if l in c {
        assert -l in Negated(c);
        forall d: nat | Live(clauses, d) ensures OnlyMarked(clauses[d], trail, Negated(c), -l) <==> Refutes(clauses[d], trail, c, l) {
          OnlyMarkedRefutes(clauses[d], trail, c, l);
        }
      }
    }
    if PassesTest(clauses, trail, c) {
      var l :| Leaves(clauses, trail, c, l);
      var j :| 0 <= j < |c| && c[j] == l;
      assert -c[j] in left;
    }
    if j :| 0 <= j < |c| && -c[j] in left { assert Leaves(clauses, trail, c, c[j]); }
  }

  // --------------------------------------------------- where the test fails

  /** After the unit -1, which is on the trail only, the clause {1} passes the test. */
  lemma UnitIsOverlooked()
    ensures Leaves([], [-1], [1], 1) && Overlooked([], [-1], [1], 1)
    ensures {} in Holding([], [-1]) && forall m :: m in Holding([], [-1]) ==> !SomeTrue(m, [1])
  {
    assert [-1][0] == -1 && [1][0] == 1 && True({}, -1) && SatAll({}, []);
    forall m | m in Holding([], [-1]) ensures !SomeTrue(m, [1]) { assert True(m, -1); }
  }

  /** {-1, 2} and {-1, -2} are deleted, but still used by propagation: {1} passes the test, and
      nothing satisfies it together with them. Had they been freed, it would do no harm. */
  lemma DeletedIsOverlooked()
    ensures var clauses := [CheckerClause([-1, 2], true, false, 1), CheckerClause([-1, -2], true, false, 2)];
      && Leaves(clauses, [], [1], 1) && Overlooked(clauses, [], [1], 1) && !Overlooked(Freed(clauses), [], [1], 1)
      && {} in Holding(clauses, []) && (forall m :: m in Holding(clauses, []) ==> !SomeTrue(m, [1]))
  {
    var clauses := [CheckerClause([-1, 2], true, false, 1), CheckerClause([-1, -2], true, false, 2)];
    assert clauses[0].literals[0] == -1 && clauses[1].literals[0] == -1;
    assert Refutes(clauses[0], [], [1], 1);
    forall c | 0 <= c < |clauses| ensures SomeTrue({}, clauses[c].literals) { assert -1 in clauses[c].literals && True({}, -1); }
    forall m | m in Holding(clauses, []) ensures !SomeTrue(m, [1]) {
      assert SomeTrue(m, clauses[0].literals) && SomeTrue(m, clauses[1].literals);
    }
  }
}
