/** Blocked and pure clause removal: testing whether all resolvents on a literal
    are tautological, with move-to-front in the lists it scans, and removing the
    clauses so that the backward pass can satisfy them again. */
module BlockedClauses {
  import opened Literals
  import opened Extension
  import opened ClauseDatabase
  import opened Resolution
  import opened Antecedents
  import opened VariableElimination
  import opened FastElimination

  // ---------------------------------------------------- move to front

  function MovedToFront<T>(s: seq<T>, k: nat): seq<T>
    requires k < |s|
  {
    [s[k]] + s[..k] + s[k + 1..]
  }

  lemma MovedIsPermutation<T>(s: seq<T>, k: nat)
    requires k < |s|
    ensures multiset(MovedToFront(s, k)) == multiset(s) && |MovedToFront(s, k)| == |s|
  {
    assert s == s[..k] + [s[k]] + s[k + 1..];
  }

  /** The literals that make a resolvent tautological: negated in the marks, and not the pivot. */
  predicate Hits(lit: int, skip: int, marks: set<int>) { lit != skip && -lit in marks }

  /** The position of the first such literal. */
  ghost predicate FirstHit(lits: seq<int>, skip: int, marks: set<int>, k: nat) {
    k < |lits| && Hits(lits[k], skip, marks) && forall i :: 0 <= i < k ==> !Hits(lits[i], skip, marks)
  }

  ghost predicate NoHit(lits: seq<int>, skip: int, marks: set<int>) { forall i :: 0 <= i < |lits| ==> !Hits(lits[i], skip, marks) }

  /** Searches the literals of one clause; moves the literal it finds to the front,
      and otherwise puts every literal back. */
  method FindHit(lits0: seq<int>, skip: int, marks: set<int>) returns (found: bool, lits: seq<int>, ghost at: nat)
    ensures found ==> FirstHit(lits0, skip, marks, at) && lits == MovedToFront(lits0, at)
    ensures !found ==> NoHit(lits0, skip, marks) && lits == lits0
  {
    lits, at := lits0, 0;
    var l: nat := 0;
    var previous := 0;
    while l < |lits|
      invariant l <= |lits| == |lits0|
      invariant forall i :: l <= i < |lits0| ==> lits[i] == lits0[i]
      invariant forall i :: 1 <= i < l ==> lits[i] == lits0[i - 1]
      invariant l > 0 ==> previous == lits0[l - 1]
      invariant forall i :: 0 <= i < l ==> !Hits(lits0[i], skip, marks)
    {
      var other := lits[l];
      lits := lits[l := previous];
      previous := other;
      if other != skip && -other in marks {
        lits := lits[0 := other];
        at := l;
        assert lits == MovedToFront(lits0, l);
        return true, lits, at;
      }
      l := l + 1;
    }
    while l != 0
      invariant l <= |lits| == |lits0|
      invariant l > 0 ==> previous == lits0[l - 1]
      invariant forall i :: l <= i < |lits0| ==> lits[i] == lits0[i]
      invariant forall i :: 1 <= i < l ==> lits[i] == lits0[i - 1]
    {
      l := l - 1;
      var other := lits[l];
      lits := lits[l := previous];
      previous := other;
    }
    found := false;
  }

  // ------------------------------------------------- permuted clauses

  /** The same clauses with their literals in another order. */
  ghost predicate Permuted(s: State, t: State) {
    && |t.clauses| == |s.clauses| && t.units == s.units && t.unsat == s.unsat
    && forall c: nat {:trigger t.clauses[c]} :: c < |s.clauses| ==>
         t.clauses[c].garbage == s.clauses[c].garbage && multiset(t.clauses[c].lits) == multiset(s.clauses[c].lits)
  }

  lemma PermutedMembers(a: seq<int>, b: seq<int>)
    requires multiset(a) == multiset(b)
    ensures forall l :: l in a <==> l in b
  {
    forall l ensures l in a <==> l in b { assert l in a <==> l in multiset(a); }
  }

  lemma PermutedSat(a: seq<int>, b: seq<int>, m: Model)
    requires multiset(a) == multiset(b)
    ensures SatClause(m, a) <==> SatClause(m, b)
  {
    PermutedMembers(a, b);
    if SatClause(m, a) {
      var i :| 0 <= i < |a| && True(m, a[i]);
      assert a[i] in b;
    }
    if SatClause(m, b) {
      var i :| 0 <= i < |b| && True(m, b[i]);
      assert b[i] in a;
    }
  }

  lemma PermutedSame(s: State, t: State)
    requires Permuted(s, t)
    ensures Same(s, t)
  {
    forall m ensures Sat(m, s) <==> Sat(m, t) {
      forall c: nat | c < |s.clauses| ensures SatClause(m, s.clauses[c].lits) <==> SatClause(m, t.clauses[c].lits) {
        assert multiset(t.clauses[c].lits) == multiset(s.clauses[c].lits);
        PermutedSat(s.clauses[c].lits, t.clauses[c].lits, m);
      }
      if Sat(m, s) { forall c: nat | Live(t, c) ensures SatClause(m, t.clauses[c].lits) { assert Live(s, c); } }
      if Sat(m, t) { forall c: nat | Live(s, c) ensures SatClause(m, s.clauses[c].lits) { assert Live(t, c); } }
    }
  }

  /** Moving a literal to the front keeps a clause well-formed. */
  lemma MovedWellClause(maxVar: nat, lits: seq<int>, k: nat)
    requires WellClause(maxVar, lits) && k < |lits|
    ensures WellClause(maxVar, MovedToFront(lits, k))
  {
    var moved := MovedToFront(lits, k);
    forall i | 0 <= i < |moved|
      ensures moved[i] == lits[if i == 0 then k else if i <= k then i - 1 else i]
    {
    }
  }

  lemma ReplacedWellFormed(maxVar: nat, s: State, occs: Occs, inactive: set<nat>, d: nat, k: nat)
    requires WellFormed(maxVar, s, occs, inactive) && d < |s.clauses| && k < |s.clauses[d].lits|
    ensures var t := s.(clauses := s.clauses[d := s.clauses[d].(lits := MovedToFront(s.clauses[d].lits, k))]);
      WellFormed(maxVar, t, occs, inactive) && Permuted(s, t)
  {
    var t := s.(clauses := s.clauses[d := s.clauses[d].(lits := MovedToFront(s.clauses[d].lits, k))]);
    assert Unfold(0);
    assert WellClause(maxVar, s.clauses[d].lits);
    MovedWellClause(maxVar, s.clauses[d].lits, k);
    MovedIsPermutation(s.clauses[d].lits, k);
    PermutedMembers(s.clauses[d].lits, t.clauses[d].lits);
    PermutedConnected(maxVar, s, t, occs, inactive, d);
    assert WellFormedNow(maxVar, t, occs, inactive);
  }

  lemma PermutedConnected(maxVar: nat, s: State, t: State, occs: Occs, inactive: set<nat>, d: nat)
    requires Connected(maxVar, s, occs, inactive) && Avoids(s, inactive) && d < |s.clauses|
    requires t.units == s.units && t.unsat == s.unsat && |t.clauses| == |s.clauses|
    requires t.clauses == s.clauses[d := Clause(t.clauses[d].lits, s.clauses[d].garbage)]
    requires forall l :: l in s.clauses[d].lits <==> l in t.clauses[d].lits
    ensures Connected(maxVar, t, occs, inactive) && Avoids(t, inactive)
  {
    forall l ensures ListOk(t, l, At(occs, l)) { assert ListOk(s, l, At(occs, l)); }
    forall l, c: nat | Live(t, c) && l in t.clauses[c].lits
      ensures (!t.unsat ==> Abs(l) !in inactive) && (IsActive(t.units, inactive, l) ==> c in At(occs, l))
    {
      assert Live(s, c) && l in s.clauses[c].lits;
      if IsActive(t.units, inactive, l) { assert IsActive(s.units, inactive, l); }
    }
  }

  // ---------------------------------------------------- the blocked test

  lemma HitsAreClashes(c: seq<int>, d: seq<int>, lit: int)
    ensures Clashes(c, d, lit) <==> !NoHit(d, -lit, LitSet(c))
  {
    if l :| l in d && l != -lit && -l in c {
      var i :| 0 <= i < |d| && d[i] == l;
      assert Hits(d[i], -lit, LitSet(c));
    }
    if !NoHit(d, -lit, LitSet(c)) {
      var i :| 0 <= i < |d| && Hits(d[i], -lit, LitSet(c));
      assert d[i] in d;
    }
  }

  method Mark(s: Solver, c: nat)
    requires c < |s.clauses| && s.marks == {}
    modifies s`marks
    ensures s.marks == LitSet(s.clauses[c].lits)
  {
    var lits := s.clauses[c].lits;
    for i := 0 to |lits|
      invariant s.marks == LitSet(lits[..i])
    {
      s.marks := s.marks + {lits[i]};
      assert lits[..i + 1] == lits[..i] + [lits[i]];
    }
    assert lits[..|lits|] == lits;
  }

  lemma PermutedTrans(s: State, t: State, u: State)
    requires Permuted(s, t) && Permuted(t, u)
    ensures Permuted(s, u)
  {
    forall c: nat | c < |s.clauses|
      ensures u.clauses[c].garbage == s.clauses[c].garbage && multiset(u.clauses[c].lits) == multiset(s.clauses[c].lits)
    {
      assert t.clauses[c].garbage == s.clauses[c].garbage;
    }
  }

  /** Searches clause d, of the database, against the marks. */
  method SearchClause(s: Solver, d: nat, skip: int) returns (found: bool)
    requires s.Valid() && d < |s.clauses|
    modifies s`clauses
    ensures s.Valid() && Permuted(old(s.Now()), s.Now())
    ensures found <==> !NoHit(old(s.clauses[d].lits), skip, s.marks)
    ensures forall c: nat :: c < |s.clauses| && c != d ==> s.clauses[c] == old(s.clauses)[c]
    ensures !found ==> s.Now() == old(s.Now())
  {
    ghost var before := s.Now();
    var lits;
    ghost var at;
    found, lits, at := FindHit(s.clauses[d].lits, skip, s.marks);
    if found {
      ReplacedWellFormed(s.maxVar, before, s.occs, s.inactive, d, at);
      s.clauses := s.clauses[d := s.clauses[d].(lits := lits)];
    }
  }

  /** All clauses of a list clash with c on the literal. */
  /** Position k is the first of the list whose clause does not clash, and the list is as
      before but for this clause, which is now at its front. */
  ghost predicate FirstAside(s: State, c: nat, list: seq<int>, list': seq<int>, lit: int, k: nat) {
    && k < |list| && AllClash(s, c, list[..k], lit) && 0 <= list[k] < |s.clauses|
    && c < |s.clauses| && !Clashes(s.clauses[c].lits, s.clauses[list[k]].lits, lit)
    && list' == [list[k]] + list[..k] + list[k + 1..]
  }

  ghost predicate AllClash(s: State, c: nat, list: seq<int>, lit: int) {
    c < |s.clauses| && forall k :: 0 <= k < |list| ==> 0 <= list[k] < |s.clauses| && Clashes(s.clauses[c].lits, s.clauses[list[k]].lits, lit)
  }

  lemma ClashPermuted(c: seq<int>, d: seq<int>, d': seq<int>, lit: int)
    requires multiset(d) == multiset(d')
    ensures Clashes(c, d, lit) <==> Clashes(c, d', lit)
  {
    PermutedMembers(d, d');
  }

  /** What the scan of the negative occurrences has done so far: it shifted them by
      one place and only permuted literals. */
  ghost predicate Scanning(s: State, t: State, c: nat, lit: int, os0: seq<int>, i: nat) {
    forall n {:trigger Unfold(n)} :: Unfold(n) ==>
      && Permuted(s, t) && c < |s.clauses| && t.clauses[c] == s.clauses[c]
      && i <= |os0| && ListOk(s, -lit, os0) && AllClash(s, c, os0[..i], lit)
  }

  /** The list with its first i entries shifted by one place. */
  ghost predicate Shifted(os0: seq<int>, os: seq<int>, i: nat, previous: int) {
    && i <= |os0| == |os|
    && (forall k :: i <= k < |os0| ==> os[k] == os0[k])
    && (forall k :: 1 <= k < i ==> os[k] == os0[k - 1])
    && (i > 0 ==> previous == os0[i - 1])
  }

  lemma ScanStart(s: State, c: nat, lit: int, os0: seq<int>)
    requires c < |s.clauses| && ListOk(s, -lit, os0)
    ensures Scanning(s, s, c, lit, os0, 0)
  {
  }

  lemma ScanMember(s: State, t: State, c: nat, lit: int, os0: seq<int>, i: nat)
    requires Scanning(s, t, c, lit, os0, i) && i < |os0|
    ensures 0 <= os0[i] < |t.clauses| && os0[i] < |s.clauses| && -lit in s.clauses[os0[i]].lits
  {
    assert Unfold(0);
  }

  lemma ScanStep(s: State, t: State, t': State, c: nat, lit: int, os0: seq<int>, i: nat, found: bool)
    requires Scanning(s, t, c, lit, os0, i) && i < |os0| && 0 <= os0[i] < |t.clauses|
    requires Permuted(t, t') && c < |t.clauses| && t'.clauses[c] == t.clauses[c]
    requires found <==> !NoHit(t.clauses[os0[i]].lits, -lit, LitSet(t.clauses[c].lits))
    ensures Permuted(s, t') && c < |s.clauses| && t'.clauses[c] == s.clauses[c]
    ensures found ==> Scanning(s, t', c, lit, os0, i + 1)
    ensures found <==> os0[i] < |s.clauses| && Clashes(s.clauses[c].lits, s.clauses[os0[i]].lits, lit)
  {
    assert Unfold(0);
    PermutedTrans(s, t, t');
    var d: nat := os0[i];
    HitsAreClashes(t.clauses[c].lits, t.clauses[d].lits, lit);
    assert multiset(t.clauses[d].lits) == multiset(s.clauses[d].lits);
    ClashPermuted(s.clauses[c].lits, s.clauses[d].lits, t.clauses[d].lits, lit);
    assert os0[..i + 1] == os0[..i] + [os0[i]];
  }

  lemma ScanEnd(s: State, t: State, c: nat, lit: int, os0: seq<int>, i: nat)
    requires Scanning(s, t, c, lit, os0, i)
    ensures Permuted(s, t) && c < |s.clauses| && t.clauses[c] == s.clauses[c]
    ensures i == |os0| ==> AllClash(s, c, os0, lit)
    ensures i <= |os0| && AllClash(s, c, os0[..i], lit)
  {
    assert Unfold(0);
    if i == |os0| { assert os0[..i] == os0; }
  }

  lemma NotAllClash(s: State, c: nat, list: seq<int>, lit: int, k: nat)
    requires c < |s.clauses| && k < |list| && 0 <= list[k] < |s.clauses| && !Clashes(s.clauses[c].lits, s.clauses[list[k]].lits, lit)
    ensures !AllClash(s, c, list, lit)
  {
  }

  /** Looks for a clash in the next clause of the scan. */
  method SearchOccurrence(s: Solver, c: nat, lit: int, d: int, ghost before: State, ghost os0: seq<int>, ghost i: nat) returns (found: bool)
    requires s.Valid() && c < |s.clauses| && IsLit(s.maxVar, lit) && lit in s.clauses[c].lits && s.marks == LitSet(s.clauses[c].lits)
    requires Scanning(before, s.Now(), c, lit, os0, i) && i < |os0| && d == os0[i]
    modifies s`clauses
    ensures s.Valid() && Permuted(before, s.Now()) && c < |before.clauses| && s.clauses[c] == before.clauses[c]
    ensures found ==> Scanning(before, s.Now(), c, lit, os0, i + 1)
    ensures found <==> 0 <= d < |before.clauses| && Clashes(before.clauses[c].lits, before.clauses[d].lits, lit)
    ensures 0 <= d < |before.clauses|
  {
    ghost var now := s.Now();
    ScanMember(before, now, c, lit, os0, i);
    assert multiset(now.clauses[d].lits) == multiset(before.clauses[d].lits) by { assert Unfold(0); }
    PermutedMembers(before.clauses[d].lits, now.clauses[d].lits);
    NotItself(s.maxVar, now, s.occs, s.inactive, c, d, lit);
    found := SearchClause(s, d, -lit);
    ScanStep(before, now, s.Now(), c, lit, os0, i, found);
  }

  /** Scans the clauses with the negated literal, from the front. */
  method ScanNegatives(s: Solver, c: nat, lit: int, os0: seq<int>) returns (res: bool, os: seq<int>, previous: int, ghost at: nat)
    requires s.Valid() && c < |s.clauses| && IsLit(s.maxVar, lit) && lit in s.clauses[c].lits && s.marks == LitSet(s.clauses[c].lits)
    requires ListOk(s.Now(), -lit, os0)
    modifies s`clauses
    ensures s.Valid() && Permuted(old(s.Now()), s.Now()) && s.clauses[c] == old(s.clauses[c])
    ensures res <==> AllClash(old(s.Now()), c, os0, lit)
    ensures res ==> Shifted(os0, os, |os0|, previous)
    ensures !res ==> at < |os0| && os == MovedToFront(os0, at) && FirstAside(old(s.Now()), c, os0, os, lit, at)
  {
    ghost var before := s.Now();
    os := os0;
    at := 0;
    var i: nat := 0;
    previous := -1;
    ScanStart(before, c, lit, os0);
    while i < |os|
      invariant s.Valid() && Permuted(before, s.Now()) && s.clauses[c] == before.clauses[c]
      invariant s.marks == LitSet(before.clauses[c].lits)
      invariant Scanning(before, s.Now(), c, lit, os0, i) && Shifted(os0, os, i, previous)
    {
      var d := os[i];
      os := os[i := previous];
      previous := d;
      ScanEnd(before, s.Now(), c, lit, os0, i);
      var found := SearchOccurrence(s, c, lit, d, before, os0, i);
      if !found {
        os := os[0 := d];
        at := i;
        NotAllClash(before, c, os0, lit, i);
        FrontOfShifted(os0, os, i, d);
        return false, os, previous, at;
      }
      i := i + 1;
    }
    ScanEnd(before, s.Now(), c, lit, os0, i);
    res := true;
  }

  lemma FrontOfShifted(os0: seq<int>, os: seq<int>, i: nat, d: int)
    requires i < |os0| == |os| && os[0] == d == os0[i]
    requires forall k :: 1 <= k <= i ==> os[k] == os0[k - 1]
    requires forall k :: i < k < |os0| ==> os[k] == os0[k]
    ensures os == MovedToFront(os0, i)
  {
  }

  /** Decides whether all resolvents of c on the literal are tautological. It only
      permutes: literals within the clauses it looks at, and the first clause with
      a proper resolvent to the front of the list. */
  method IsBlockedClause(s: Solver, c: nat, lit: int) returns (res: bool, ghost at: nat)
    requires s.Valid() && s.marks == {} && Live(s.Now(), c) && IsLit(s.maxVar, lit) && lit in s.clauses[c].lits
    modifies s`clauses, s`occs, s`marks
    ensures s.Valid() && s.marks == {} && Permuted(old(s.Now()), s.Now()) && s.clauses[c] == old(s.clauses[c])
    ensures res <==> AllClash(old(s.Now()), c, At(old(s.occs), -lit), lit)
    ensures res ==> s.occs == old(s.occs)
    ensures !res ==> at < |At(old(s.occs), -lit)| && s.occs == old(s.occs)[-lit := MovedToFront(At(old(s.occs), -lit), at)]
    ensures !res ==> FirstAside(old(s.Now()), c, At(old(s.occs), -lit), At(s.occs, -lit), lit, at)
  {
    ghost var before := s.Now();
    OccsOf(s.maxVar, before, s.occs, s.inactive, -lit);
    Mark(s, c);
    ghost var os0 := s.occs[-lit];
    var os, previous;
    res, os, previous, at := ScanNegatives(s, c, lit, s.occs[-lit]);
    Unmark(s, c);
    if res {
      os := RestoreOrder(os, previous, os0);
    } else {
      FrontRelisted(s.Now(), os0, at);
    }
    RelistWellFormed(s.maxVar, s.Now(), s.occs, s.inactive, -lit, os);
    s.occs := s.occs[-lit := os];
  }

  /** A clause with the literal is not among those with its negation. */
  lemma NotItself(maxVar: nat, s: State, occs: Occs, inactive: set<nat>, c: nat, d: int, lit: int)
    requires WellFormed(maxVar, s, occs, inactive) && c < |s.clauses| && lit in s.clauses[c].lits && lit != 0
    requires 0 <= d < |s.clauses| && -lit in s.clauses[d].lits
    ensures c != d
  {
    ClauseOf(maxVar, s, occs, inactive, c);
    NoClash(s.clauses[c].lits, lit, -lit);
  }

  /** Moves the entries of a fully scanned list back to their places. */
  method RestoreOrder(shifted: seq<int>, last: int, ghost os0: seq<int>) returns (os: seq<int>)
    requires Shifted(os0, shifted, |os0|, last)
    ensures os == os0
  {
    os := shifted;
    var i: nat := |os|;
    var previous := last;
    while i != 0
      invariant i <= |os| == |os0| && (i > 0 ==> previous == os0[i - 1])
      invariant forall k :: i <= k < |os0| ==> os[k] == os0[k]
      invariant forall k :: 1 <= k < i ==> os[k] == os0[k - 1]
    {
      i := i - 1;
      var d := os[i];
      os := os[i := previous];
      previous := d;
    }
  }

  lemma FrontRelisted(s: State, list: seq<int>, k: nat)
    requires k < |list|
    ensures Relisted(s, list, MovedToFront(list, k))
  {
    MovedIsPermutation(list, k);
    var moved := MovedToFront(list, k);
    forall i | 0 <= i < |moved| ensures moved[i] in list { assert moved[i] in multiset(moved); }
    forall c: nat | c in list ensures c in moved { assert c in multiset(list); }
  }

  // ------------------------------------------------- removing clauses

  /** c clashes with every live clause that has the negated literal. */
  ghost predicate Blocked(s: State, c: nat, lit: int) {
    && Live(s, c) && lit in s.clauses[c].lits && lit != 0
    && forall d: nat :: Live(s, d) && -lit in s.clauses[d].lits ==> Clashes(s.clauses[c].lits, s.clauses[d].lits, lit)
  }

  lemma RepairKeeps(c: seq<int>, d: seq<int>, lit: int, m: Model)
    requires lit in c && lit != 0 && !SatClause(m, c) && SatClause(m, d) && (-lit in d ==> Clashes(c, d, lit)) && -lit !in c
    requires forall l :: l in c ==> l != 0
    ensures SatClause(Make(m, lit), d)
  {
    var m' := Make(m, lit);
    if -lit in d {
      var l :| l in d && l != -lit && -l in c;
      var i :| 0 <= i < |c| && c[i] == -l;
      var j :| 0 <= j < |d| && d[j] == l;
      assert True(m, l) && Abs(l) != Abs(lit);
      assert True(m', d[j]);
    } else {
      var j :| 0 <= j < |d| && True(m, d[j]);
      assert d[j] in d;
      assert True(m', d[j]);
    }
  }

  /** Removing a blocked clause loses no model and can be undone by flipping the
      literal it is blocked on. */
  lemma BlockedIsSound(maxVar: nat, s: State, occs: Occs, inactive: set<nat>, c: nat, lit: int, e: Entry)
    requires WellFormed(maxVar, s, occs, inactive) && Blocked(s, c, lit) && lit !in s.units && -lit !in s.units
    requires e.flips == [lit] && e.clause == s.clauses[c].lits
    ensures Sound(s, Garbage(s, c), [e])
  {
    var t := Garbage(s, c);
    var C := s.clauses[c].lits;
    ClauseOf(maxVar, s, occs, inactive, c);
    NoClash(C, lit, -lit);
    UnitsOf(maxVar, s, occs, inactive);
    assert [e][..0] == [];
    forall m | Sat(m, s) ensures Sat(m, t) {
      forall d: nat | Live(t, d) ensures SatClause(m, t.clauses[d].lits) { assert Live(s, d); }
    }
    forall m | Sat(m, t) ensures Sat(Extended([e], m), s) {
      assert Extended([e], m) == Repair(e, m) by { assert Extended([e][..0], Repair(e, m)) == Repair(e, m); }
      RepairedSat(s, c, lit, e, m);
    }
  }

  lemma RepairedSat(s: State, c: nat, lit: int, e: Entry, m: Model)
    requires Blocked(s, c, lit) && -lit !in s.clauses[c].lits && lit !in s.units && -lit !in s.units
    requires e.flips == [lit] && e.clause == s.clauses[c].lits && Sat(m, Garbage(s, c))
    requires forall l :: l in s.clauses[c].lits ==> l != 0
    ensures Sat(Repair(e, m), s)
  {
    var C := s.clauses[c].lits;
    var r := Repair(e, m);
    assert [lit][..0] == [];
    assert !SatClause(m, C) ==> MakeAll(Make(m, lit), [lit][..0]) == Make(m, lit) == r;
    forall d: nat | Live(s, d) ensures SatClause(r, s.clauses[d].lits) {
      if d != c { assert Live(Garbage(s, c), d); }
      if !SatClause(m, C) {
        if d == c { HoldsIf(C, lit, r); } else { RepairKeeps(C, s.clauses[d].lits, lit, m); }
      }
    }
    forall u | u in s.units ensures True(r, u) {
      assert Abs(u) == Abs(lit) ==> u == lit || u == -lit;
    }
  }

  /** Pushes a blocked clause and removes it. */
  method RemoveBlocked(s: Solver, c: nat, lit: int)
    requires s.Valid() && s.Kept() && Blocked(s.Now(), c, lit) && lit !in s.units && -lit !in s.units && Abs(lit) !in s.frozen
    modifies s`clauses, s.stack
    ensures s.Valid() && s.Kept() && s.Now() == Garbage(old(s.Now()), c)
  {
    ghost var before, entries := s.Now(), s.stack.entries;
    ghost var e := Entry([lit], 0, c + 1, s.clauses[c].lits);
    BlockedIsSound(s.maxVar, before, s.occs, s.inactive, c, lit, e);
    SaveClause(s, c, lit);
    SoundMore(s.original, before, entries, s.Now(), [e]);
    StillLeftAlone(entries, [e], lit, s.frozen);
  }

  /** The clause clashes with every live clause of the list. */
  ghost predicate ClashesWithLive(s: State, c: seq<int>, list: seq<int>, lit: int) {
    forall k :: 0 <= k < |list| && 0 <= list[k] && Live(s, list[k]) ==> Clashes(c, s.clauses[list[k]].lits, lit)
  }

  /** With complete lists, clashing with the listed clauses is being blocked. */
  lemma ListedIsBlocked(maxVar: nat, s: State, occs: Occs, inactive: set<nat>, c: nat, lit: int)
    requires WellFormed(maxVar, s, occs, inactive) && IsActive(s.units, inactive, lit) && IsLit(maxVar, lit)
    requires Live(s, c) && lit in s.clauses[c].lits && ClashesWithLive(s, s.clauses[c].lits, At(occs, -lit), lit)
    ensures Blocked(s, c, lit)
  {
    var ns := At(occs, -lit);
    forall d: nat | Live(s, d) && -lit in s.clauses[d].lits ensures Clashes(s.clauses[c].lits, s.clauses[d].lits, lit) {
      IsConnected(maxVar, s, occs, inactive, -lit, d);
      var k :| 0 <= k < |ns| && ns[k] == d;
    }
  }

  /** t is s with exactly the clauses of 'gone' removed and literals reordered. Kept folded. */
  ghost predicate Dropped(s: State, t: State, gone: set<nat>) {
    && |t.clauses| == |s.clauses| && t.units == s.units && t.unsat == s.unsat
    && forall n {:trigger Unfold(n)} :: Unfold(n) ==>
      forall c: nat {:trigger t.clauses[c]} {:trigger s.clauses[c]} :: c < |s.clauses| ==>
        && multiset(t.clauses[c].lits) == multiset(s.clauses[c].lits)
        && (t.clauses[c].garbage <==> s.clauses[c].garbage || c in gone)
  }

  lemma DroppedStart(s: State)
    ensures Dropped(s, s, {})
  {
  }

  lemma DroppedAt(s: State, t: State, gone: set<nat>, c: nat)
    requires Dropped(s, t, gone) && c < |s.clauses|
    ensures multiset(t.clauses[c].lits) == multiset(s.clauses[c].lits) && |t.clauses[c].lits| == |s.clauses[c].lits|
    ensures t.clauses[c].garbage <==> s.clauses[c].garbage || c in gone
    ensures forall l :: l in t.clauses[c].lits <==> l in s.clauses[c].lits
  {
    assert Unfold(0);
    PermutedMembers(s.clauses[c].lits, t.clauses[c].lits);
    assert |t.clauses[c].lits| == |multiset(t.clauses[c].lits)|;
  }

  lemma DroppedStep(s: State, t: State, t': State, gone: set<nat>, c: nat, removed: bool)
    requires Dropped(s, t, gone) && c < |t.clauses| && Permuted(if removed then Garbage(t, c) else t, t')
    ensures Dropped(s, t', if removed then gone + {c} else gone)
  {
    var gone' := if removed then gone + {c} else gone;
    forall b: nat | b < |s.clauses|
      ensures multiset(t'.clauses[b].lits) == multiset(s.clauses[b].lits)
      ensures t'.clauses[b].garbage <==> s.clauses[b].garbage || b in gone'
    {
      DroppedAt(s, t, gone, b);
      assert t'.clauses[b].garbage == (if removed then Garbage(t, c) else t).clauses[b].garbage;
    }
  }

  ghost predicate AllGarbage(s: State, list: seq<int>) {
    forall k :: 0 <= k < |list| ==> 0 <= list[k] < |s.clauses| && s.clauses[list[k]].garbage
  }

  /** Removes all clauses with a literal whose negation no live clause has, and
      retires the variable. */
  method BlockPureLiteral(s: Solver, lit: int)
    requires s.Valid() && s.Kept() && IsLit(s.maxVar, lit) && s.Active(lit) && Abs(lit) !in s.frozen
    requires AllGarbage(s.Now(), At(s.occs, -lit))
    modifies s`clauses, s`occs, s`inactive, s.stack
    ensures s.Valid() && s.Kept() && s.inactive == old(s.inactive) + {Abs(lit)} && NoMention(s.Now(), Abs(lit))
    ensures Dropped(old(s.Now()), s.Now(), WithLit(old(s.Now()), lit))
  {
    ghost var before, negatives, gone: set<nat> := s.Now(), At(s.occs, -lit), {};
    OccsOf(s.maxVar, before, s.occs, s.inactive, lit);
    var pos := s.occs[lit];
    DroppedStart(before);
    for i := 0 to |pos|
      invariant Dropped(before, s.Now(), gone) && gone <= WithLit(before, lit)
      invariant s.Valid() && s.Kept() && s.units == before.units && |s.clauses| == |before.clauses|
      invariant s.occs == old(s.occs) && s.inactive == old(s.inactive)
      invariant AllGarbage(s.Now(), negatives) && ListOk(s.Now(), lit, pos) && AllGarbage(s.Now(), pos[..i])
    {
      var c := pos[i];
      assert pos[..i + 1] == pos[..i] + [c];
      if s.clauses[c].garbage { continue; }
      ghost var now := s.Now();
      DroppedAt(before, now, gone, c);
      PureIsBlocked(s.maxVar, now, s.occs, s.inactive, c, lit);
      RemoveBlocked(s, c, lit);
      DroppedStep(before, now, s.Now(), gone, c, true);
      gone := gone + {c};
    }
    assert pos[..|pos|] == pos;
    AllWithLit(s.maxVar, before, s.Now(), s.occs, s.inactive, lit, gone);
    BothGone(s.maxVar, s.Now(), s.occs, s.inactive, lit);
    EraseLists(s, lit);
    InactiveWellFormed(s.maxVar, s.Now(), s.occs, s.inactive, lit);
    s.inactive := s.inactive + {Abs(lit)};
  }

  /** The live clauses with a literal. */
  ghost function WithLit(s: State, lit: int): set<nat> { set c: nat | c < |s.clauses| && Live(s, c) && lit in s.clauses[c].lits }

  lemma AllWithLit(maxVar: nat, s: State, t: State, occs: Occs, inactive: set<nat>, lit: int, gone: set<nat>)
    requires WellFormed(maxVar, s, occs, inactive) && IsActive(s.units, inactive, lit)
    requires Dropped(s, t, gone) && gone <= WithLit(s, lit) && AllGarbage(t, At(occs, lit))
    ensures gone == WithLit(s, lit)
  {
    forall c: nat | c in WithLit(s, lit) ensures c in gone {
      IsConnected(maxVar, s, occs, inactive, lit, c);
      DroppedAt(s, t, gone, c);
    }
  }

  lemma PureIsBlocked(maxVar: nat, s: State, occs: Occs, inactive: set<nat>, c: nat, lit: int)
    requires WellFormed(maxVar, s, occs, inactive) && IsActive(s.units, inactive, lit) && IsLit(maxVar, lit)
    requires Live(s, c) && lit in s.clauses[c].lits && AllGarbage(s, At(occs, -lit))
    ensures Blocked(s, c, lit)
  {
    var ns := At(occs, -lit);
    forall k | 0 <= k < |ns| ensures ns[k] >= 0 ==> !Live(s, ns[k]) { }
    ListedIsBlocked(maxVar, s, occs, inactive, c, lit);
  }

  lemma BothGone(maxVar: nat, s: State, occs: Occs, inactive: set<nat>, lit: int)
    requires WellFormed(maxVar, s, occs, inactive) && IsActive(s.units, inactive, lit)
    requires AllGarbage(s, At(occs, lit)) && AllGarbage(s, At(occs, -lit))
    ensures NoMention(s, Abs(lit))
  {
    forall c: nat | Live(s, c) ensures !Mentions(s.clauses[c].lits, Abs(lit)) {
      if Mentions(s.clauses[c].lits, Abs(lit)) {
        PivotIsListed(maxVar, s, occs, inactive, lit, c);
      }
    }
  }
}
