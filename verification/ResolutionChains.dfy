/** Chains of antecedents, followed with marks from the last one to the first: which
    clause and which interpolant this really computes, for which chains that is the
    derived clause, and a linear resolution for which it is not. */
module ResolutionChains {
  import opened Literals
  import opened AigCnf
  import opened Interpolation

  // -------------------------------------------- following with marks

  /** The clause that remains after the first n literals of d: a literal whose
      negation was met before is resolved upon. */
  ghost function Tracked(c: set<int>, marks: set<int>, d: seq<int>, n: nat): set<int>
    requires n <= |d|
  {
    if n == 0 then c
    else
      var c' := Tracked(c, marks, d, n - 1);
      var l := d[n - 1];
      if -l in marks + LitSet(d[..n - 1]) then Resolve(c', LitSet(d), -l) else c'
  }

  /** The literals met in the antecedents from i on. */
  ghost function Met(chain: seq<seq<int>>, i: nat): set<int>
    requires i <= |chain|
    decreases |chain| - i
  {
    if i == |chain| then {} else Met(chain, i + 1) + LitSet(chain[i])
  }

  /** The clause after the antecedents from i on, last to first. */
  ghost function Followed(chain: seq<seq<int>>, i: nat): set<int>
    requires i < |chain|
    decreases |chain| - i
  {
    if i == |chain| - 1 then LitSet(chain[i])
    else Tracked(Followed(chain, i + 1), Met(chain, i + 1), chain[i], |chain[i]|)
  }

  /** The interpolants that the same steps combine. */
  ghost function TrackedRegion(k: Construction, labels: Labels, I: iset<Model>, J: iset<Model>, marks: set<int>, d: seq<int>, n: nat): iset<Model>
    requires n <= |d|
  {
    if n == 0 then I
    else
      var I' := TrackedRegion(k, labels, I, J, marks, d, n - 1);
      var l := d[n - 1];
      if -l in marks + LitSet(d[..n - 1]) then CombinedRegion(k, labels, I', J, -l) else I'
  }

  ghost function FollowedRegion(k: Construction, labels: Labels, chain: seq<seq<int>>, Js: seq<iset<Model>>, i: nat): iset<Model>
    requires |Js| == |chain| && i < |chain|
    decreases |chain| - i
  {
    if i == |chain| - 1 then Js[i]
    else TrackedRegion(k, labels, FollowedRegion(k, labels, chain, Js, i + 1), Js[i], Met(chain, i + 1), chain[i], |chain[i]|)
  }

  lemma {:induction false} TrackedIsPartial(k: Construction, labels: Labels, A: Cnf, B: Cnf, c: set<int>, I: iset<Model>,
                                            d: seq<int>, J: iset<Model>, marks: set<int>, n: nat)
    requires Partial(k, labels, A, B, c, I) && Partial(k, labels, A, B, LitSet(d), J) && 0 !in d && n <= |d|
    ensures Partial(k, labels, A, B, Tracked(c, marks, d, n), TrackedRegion(k, labels, I, J, marks, d, n))
  {
    if n > 0 {
      TrackedIsPartial(k, labels, A, B, c, I, d, J, marks, n - 1);
      var l := d[n - 1];
      if -l in marks + LitSet(d[..n - 1]) {
        var c', I' := Tracked(c, marks, d, n - 1), TrackedRegion(k, labels, I, J, marks, d, n - 1);
        ResolutionKeepsPartial(k, labels, A, B, c', I', LitSet(d), J, -l, CombinedRegion(k, labels, I', J, -l));
      }
    }
  }

  /** Whatever the chain is, the combined interpolant is one of the followed clause. */
  lemma {:induction false} FollowedIsPartial(k: Construction, labels: Labels, A: Cnf, B: Cnf, chain: seq<seq<int>>, Js: seq<iset<Model>>, i: nat)
    requires |Js| == |chain| && i < |chain| && forall j :: 0 <= j < |chain| ==> 0 !in chain[j]
    requires forall j :: 0 <= j < |chain| ==> Partial(k, labels, A, B, LitSet(chain[j]), Js[j])
    ensures Partial(k, labels, A, B, Followed(chain, i), FollowedRegion(k, labels, chain, Js, i))
    decreases |chain| - i
  {
    if i < |chain| - 1 {
      FollowedIsPartial(k, labels, A, B, chain, Js, i + 1);
      TrackedIsPartial(k, labels, A, B, Followed(chain, i + 1), FollowedRegion(k, labels, chain, Js, i + 1),
        chain[i], Js[i], Met(chain, i + 1), |chain[i]|);
    }
  }

  predicate NoTautology(d: seq<int>) { forall l :: l in d ==> -l !in d }

  /** The literals that clash with a mark. */
  ghost function Clashes(marks: set<int>, d: seq<int>, n: nat): set<int>
    requires n <= |d|
  {
    set l | l in d[..n] && -l in marks
  }

  ghost predicate HasOther(s: set<int>, x: int) { exists l :: l in s && l != x }

  /** One clash resolves; more of them bring the whole antecedent back. */
  lemma {:induction false} TrackedMembers(c: set<int>, marks: set<int>, d: seq<int>, n: nat, x: int)
    requires n <= |d| && NoTautology(d)
    ensures var s := Clashes(marks, d, n);
      x in Tracked(c, marks, d, n) <==> (x in c && -x !in s) || (x in d && HasOther(s, x))
  {
    var s := Clashes(marks, d, n);
    if n > 0 {
      TrackedMembers(c, marks, d, n - 1, x);
      var l, s' := d[n - 1], Clashes(marks, d, n - 1);
      assert d[..n] == d[..n - 1] + [l];
      assert l in d && -l !in d;
      assert forall y :: y in d[..n - 1] ==> y in d;
      assert s == if -l in marks then s' + {l} else s';
      assert HasOther(s, x) <==> HasOther(s', x) || (-l in marks && l != x);
    } else {
      assert s == {};
    }
  }

  lemma MetMember(chain: seq<seq<int>>, i: nat, x: int)
    requires i <= |chain|
    ensures x in Met(chain, i) <==> exists j :: i <= j < |chain| && x in chain[j]
    decreases |chain| - i
  {
    if i < |chain| { MetMember(chain, i + 1, x); }
  }

  lemma {:induction false} FollowedWasMet(chain: seq<seq<int>>, i: nat)
    requires i < |chain| && forall j :: i <= j < |chain| ==> NoTautology(chain[j])
    ensures Followed(chain, i) <= Met(chain, i)
    decreases |chain| - i
  {
    if i < |chain| - 1 {
      FollowedWasMet(chain, i + 1);
      forall x | x in Followed(chain, i) ensures x in Met(chain, i) {
        TrackedMembers(Followed(chain, i + 1), Met(chain, i + 1), chain[i], |chain[i]|, x);
      }
    } else {
      assert Met(chain, i + 1) == {};
    }
  }

  // ------------------------------------------------- unit propagation

  /** The literals that are true after the first i units, with c assumed false. */
  ghost function Assigned(c: seq<int>, units: seq<int>, i: nat): set<int>
    requires i <= |units|
  {
    (set l | l in c :: -l) + (set j | 0 <= j < i :: units[j])
  }

  /** The chain is a unit propagation from the negated clause: each antecedent but the
      last makes one literal true that has no value yet, and the last one is false. */
  ghost predicate Propagates(chain: seq<seq<int>>, c: seq<int>, units: seq<int>) {
    && |chain| == |units| + 1 && NoTautology(c)
    && (forall i :: 0 <= i < |units| ==> UnitAt(chain, c, units, i))
    && forall l :: l in chain[|units|] ==> -l in Assigned(c, units, |units|)
  }

  ghost predicate UnitAt(chain: seq<seq<int>>, c: seq<int>, units: seq<int>, i: nat)
    requires i < |units| < |chain|
  {
    var u := units[i];
    && u != 0 && u in chain[i] && u !in Assigned(c, units, i) && -u !in Assigned(c, units, i)
    && forall l :: l in chain[i] && l != u ==> -l in Assigned(c, units, i)
  }

  lemma AssignedMore(c: seq<int>, units: seq<int>, i: nat)
    requires i < |units|
    ensures Assigned(c, units, i + 1) == Assigned(c, units, i) + {units[i]}
  {
  }

  lemma {:induction false} AssignedGrows(c: seq<int>, units: seq<int>, i: nat, j: nat)
    requires i <= j <= |units|
    ensures Assigned(c, units, i) <= Assigned(c, units, j)
  {
  }

  lemma {:induction false} AssignedIsConsistent(chain: seq<seq<int>>, c: seq<int>, units: seq<int>, i: nat)
    requires Propagates(chain, c, units) && i <= |units|
    ensures forall x :: x in Assigned(c, units, i) ==> -x !in Assigned(c, units, i)
  {
    if i > 0 {
      AssignedIsConsistent(chain, c, units, i - 1);
      AssignedMore(c, units, i - 1);
      assert UnitAt(chain, c, units, i - 1);
    } else {
      forall x | x in Assigned(c, units, 0) ensures -x !in Assigned(c, units, 0) {
        assert -x in c;
        assert x !in c;
      }
    }
  }

  lemma PropagatesNoTautology(chain: seq<seq<int>>, c: seq<int>, units: seq<int>, i: nat)
    requires Propagates(chain, c, units) && i < |chain|
    ensures NoTautology(chain[i])
  {
    AssignedIsConsistent(chain, c, units, i);
    if i < |units| { assert UnitAt(chain, c, units, i); }
    forall l | l in chain[i] ensures -l !in chain[i] {
      UnitOrFalse(chain, c, units, i, l);
      UnitOrFalse(chain, c, units, i, -l);
    }
  }

  lemma UnitOrFalse(chain: seq<seq<int>>, c: seq<int>, units: seq<int>, i: nat, l: int)
    requires Propagates(chain, c, units) && i < |chain|
    ensures l in chain[i] ==> -l in Assigned(c, units, i) || (i < |units| && l == units[i])
  {
    if i < |units| { assert UnitAt(chain, c, units, i); }
  }

  /** What was met later is false now, or on the variable of a later unit. */
  ghost predicate LaterOrFalse(c: seq<int>, units: seq<int>, i: nat, x: int)
    requires i <= |units|
  {
    -x in Assigned(c, units, i) || exists j :: i <= j < |units| && (x == units[j] || x == -units[j])
  }

  lemma {:induction false} MetIsLaterOrFalse(chain: seq<seq<int>>, c: seq<int>, units: seq<int>, i: nat, x: int)
    requires Propagates(chain, c, units) && i < |chain| && x in Met(chain, i)
    ensures LaterOrFalse(c, units, i, x)
    decreases |chain| - i
  {
    if x in chain[i] {
      if i < |units| { assert UnitAt(chain, c, units, i); }
      assert -x in Assigned(c, units, i) || (i < |units| && x == units[i]);
    } else {
      MetIsLaterOrFalse(chain, c, units, i + 1, x);
      AssignedMore(c, units, i);
      assert -x in Assigned(c, units, i + 1) ==> -x in Assigned(c, units, i) || x == -units[i];
    }
  }

  /** The only clash of an antecedent is its unit. */
  lemma OnlyUnitsClash(chain: seq<seq<int>>, c: seq<int>, units: seq<int>, i: nat)
    requires Propagates(chain, c, units) && i < |units|
    ensures forall l :: l in chain[i] && -l in Met(chain, i + 1) ==> l == units[i]
  {
    assert UnitAt(chain, c, units, i);
    forall l | l in chain[i] && -l in Met(chain, i + 1) ensures l == units[i] {
      if l != units[i] {
        assert -l in Assigned(c, units, i);
        AssignedGrows(c, units, i, i + 1);
        AssignedIsConsistent(chain, c, units, i + 1);
        MetIsLaterOrFalse(chain, c, units, i + 1, -l);
        var j :| i + 1 <= j < |units| && (-l == units[j] || -l == -units[j]);
        assert UnitAt(chain, c, units, j);
        AssignedGrows(c, units, i, j);
        assert false;
      }
    }
  }

  /** Following such a chain leaves literals of the clause only. */
  lemma {:induction false} PropagationIsFollowed(chain: seq<seq<int>>, c: seq<int>, units: seq<int>, i: nat)
    requires Propagates(chain, c, units) && i < |chain|
    ensures forall x :: x in Followed(chain, i) ==> -x in Assigned(c, units, i)
    decreases |chain| - i
  {
    if i < |units| {
      PropagationIsFollowed(chain, c, units, i + 1);
      AssignedMore(c, units, i);
      forall x | x in Followed(chain, i) ensures -x in Assigned(c, units, i) { PropagationStep(chain, c, units, i, x); }
    }
  }

  lemma PropagationStep(chain: seq<seq<int>>, c: seq<int>, units: seq<int>, i: nat, x: int)
    requires Propagates(chain, c, units) && i < |units| && x in Followed(chain, i)
    ensures (x in Followed(chain, i + 1) && -x != units[i]) || -x in Assigned(c, units, i)
  {
    var d, marks := chain[i], Met(chain, i + 1);
    var s := Clashes(marks, d, |d|);
    assert d[..|d|] == d;
    PropagatesNoTautology(chain, c, units, i);
    OnlyUnitsClash(chain, c, units, i);
    LaterNoTautology(chain, c, units, i + 1);
    FollowedWasMet(chain, i + 1);
    UnitOrFalse(chain, c, units, i, x);
    assert UnitAt(chain, c, units, i);
    TrackedMembers(Followed(chain, i + 1), marks, d, |d|, x);
    assert HasOther(s, x) ==> x != units[i];
    assert x in marks && -x == units[i] ==> -x in s;
  }

  lemma LaterNoTautology(chain: seq<seq<int>>, c: seq<int>, units: seq<int>, i: nat)
    requires Propagates(chain, c, units)
    ensures forall j :: i <= j < |chain| ==> NoTautology(chain[j])
  {
    forall j | i <= j < |chain| ensures NoTautology(chain[j]) { PropagatesNoTautology(chain, c, units, j); }
  }

  lemma PropagationFollowsClause(chain: seq<seq<int>>, c: seq<int>, units: seq<int>)
    requires Propagates(chain, c, units)
    ensures Followed(chain, 0) <= LitSet(c)
  {
    PropagationIsFollowed(chain, c, units, 0);
    forall x | x in Followed(chain, 0) ensures x in c {
      assert -x in Assigned(c, units, 0);
      var l :| l in c && -l == -x;
    }
  }

  // ------------------------------------------------- linear resolution

  /** The resolvent of the antecedents from i on, each on its pivot. */
  ghost function ResolventFrom(chain: seq<seq<int>>, pivots: seq<int>, i: nat): set<int>
    requires |chain| == |pivots| + 1 && i < |chain|
    decreases |chain| - i
  {
    if i == |pivots| then LitSet(chain[i])
    else Resolve(ResolventFrom(chain, pivots, i + 1), LitSet(chain[i]), -pivots[i])
  }

  /** A linear resolution: no antecedent is a tautology, and the pivot is its only literal
      that clashes with the current clause. */
  ghost predicate LinearResolution(chain: seq<seq<int>>, pivots: seq<int>) {
    && |chain| == |pivots| + 1 && (forall i :: 0 <= i < |chain| ==> NoTautology(chain[i]))
    && forall i :: 0 <= i < |pivots| ==> PivotAt(chain, pivots, i)
  }

  ghost predicate PivotAt(chain: seq<seq<int>>, pivots: seq<int>, i: nat)
    requires |chain| == |pivots| + 1 && i < |pivots|
  {
    pivots[i] in chain[i] && forall l :: l in chain[i] ==> (-l in ResolventFrom(chain, pivots, i + 1) <==> l == pivots[i])
  }

  /** Another literal of the antecedent clashes with a literal that was met, but is
      resolved away already. */
  ghost predicate Stale(chain: seq<seq<int>>, pivots: seq<int>, i: nat)
    requires |chain| == |pivots| + 1 && i < |pivots|
  {
    exists l :: l in chain[i] && l != pivots[i] && -l in Met(chain, i + 1)
  }

  /** A later step takes the literal over, or resolves on its variable. */
  ghost predicate Absorbs(chain: seq<seq<int>>, pivots: seq<int>, j: nat, x: int)
    requires |chain| == |pivots| + 1 && j < |pivots|
  {
    -x in chain[j] || (x in chain[j] && x != pivots[j])
  }

  ghost predicate AbsorbedSince(chain: seq<seq<int>>, pivots: seq<int>, i: nat, s: nat)
    requires |chain| == |pivots| + 1 && s < |pivots|
  {
    exists j {:trigger Absorbs(chain, pivots, j, pivots[s])} :: i <= j < s && Absorbs(chain, pivots, j, pivots[s])
  }

  /** The pivots that stale marks brought back and no later step absorbed. */
  ghost predicate BroughtBack(chain: seq<seq<int>>, pivots: seq<int>, i: nat, x: int)
    requires |chain| == |pivots| + 1
  {
    exists s: nat :: i <= s < |pivots| && x == pivots[s] && Stale(chain, pivots, s) && !AbsorbedSince(chain, pivots, i, s)
  }

  lemma BroughtBackStep(chain: seq<seq<int>>, pivots: seq<int>, i: nat, x: int)
    requires |chain| == |pivots| + 1 && i < |pivots|
    ensures BroughtBack(chain, pivots, i, x) <==>
              (x == pivots[i] && Stale(chain, pivots, i)) || (BroughtBack(chain, pivots, i + 1, x) && !Absorbs(chain, pivots, i, x))
  {
    forall s: nat | i < s < |pivots|
      ensures AbsorbedSince(chain, pivots, i, s) <==> AbsorbedSince(chain, pivots, i + 1, s) || Absorbs(chain, pivots, i, pivots[s])
    {
      if Absorbs(chain, pivots, i, pivots[s]) { assert AbsorbedSince(chain, pivots, i, s); }
    }
    if BroughtBack(chain, pivots, i, x) {
      var s: nat :| i <= s < |pivots| && x == pivots[s] && Stale(chain, pivots, s) && !AbsorbedSince(chain, pivots, i, s);
    }
    assert !AbsorbedSince(chain, pivots, i, i);
  }

  lemma {:induction false} ResolventFacts(chain: seq<seq<int>>, pivots: seq<int>, i: nat, x: int)
    requires LinearResolution(chain, pivots) && i < |chain|
    ensures x in ResolventFrom(chain, pivots, i) ==> -x !in ResolventFrom(chain, pivots, i) && x in Met(chain, i)
    decreases |chain| - i
  {
    if i < |pivots| {
      ResolventFacts(chain, pivots, i + 1, x);
      ResolventFacts(chain, pivots, i + 1, -x);
      assert PivotAt(chain, pivots, i);
      assert x in chain[i] ==> -x !in chain[i];
    } else {
      assert Met(chain, i + 1) == {};
    }
  }

  /** The followed clause is the resolvent together with the pivots brought back. */
  lemma {:induction false} FollowedExactly(chain: seq<seq<int>>, pivots: seq<int>, i: nat, x: int)
    requires LinearResolution(chain, pivots) && i < |chain|
    ensures x in Followed(chain, i) <==> x in ResolventFrom(chain, pivots, i) || BroughtBack(chain, pivots, i, x)
    ensures !(x in ResolventFrom(chain, pivots, i) && BroughtBack(chain, pivots, i, x))
    decreases |chain| - i
  {
    if i < |pivots| {
      FollowedExactly(chain, pivots, i + 1, x);
      BroughtBackStep(chain, pivots, i, x);
      var d, p := chain[i], pivots[i];
      assert PivotAt(chain, pivots, i);
      FollowedStep(chain, pivots, i, x);
      ResolventFacts(chain, pivots, i + 1, -p);
      if x !in d { ClashOfCurrent(chain, pivots, i, x); }
    }
  }

  /** One step, told by the antecedent, its pivot and the stale marks. */
  lemma FollowedStep(chain: seq<seq<int>>, pivots: seq<int>, i: nat, x: int)
    requires LinearResolution(chain, pivots) && i < |pivots|
    ensures x in Followed(chain, i) <==>
              if x in chain[i] then x != pivots[i] || Stale(chain, pivots, i) || x in Followed(chain, i + 1)
              else x in Followed(chain, i + 1) && -x !in Clashes(Met(chain, i + 1), chain[i], |chain[i]|)
  {
    var d, marks, p := chain[i], Met(chain, i + 1), pivots[i];
    var s := Clashes(marks, d, |d|);
    assert d[..|d|] == d;
    assert forall l :: l in s <==> l in d && -l in marks;
    TrackedMembers(Followed(chain, i + 1), marks, d, |d|, x);
    assert PivotAt(chain, pivots, i);
    ResolventFacts(chain, pivots, i + 1, -p);
    assert p in s;
    if x != p { assert HasOther(s, x); } else { StaleIsOther(chain, pivots, i, s); }
  }

  lemma StaleIsOther(chain: seq<seq<int>>, pivots: seq<int>, i: nat, s: set<int>)
    requires |chain| == |pivots| + 1 && i < |pivots| && forall l :: l in s <==> l in chain[i] && -l in Met(chain, i + 1)
    ensures HasOther(s, pivots[i]) <==> Stale(chain, pivots, i)
  {
    if Stale(chain, pivots, i) {
      var l :| l in chain[i] && l != pivots[i] && -l in Met(chain, i + 1);
      assert l in s;
    }
  }

  /** A literal of the current clause, or one brought back, clashes when its negation occurs. */
  lemma ClashOfCurrent(chain: seq<seq<int>>, pivots: seq<int>, i: nat, x: int)
    requires LinearResolution(chain, pivots) && i < |pivots|
    ensures x in ResolventFrom(chain, pivots, i + 1) || BroughtBack(chain, pivots, i + 1, x) ==>
              (-x in Clashes(Met(chain, i + 1), chain[i], |chain[i]|) <==> -x in chain[i])
  {
    var d, marks := chain[i], Met(chain, i + 1);
    ClashMember(marks, d, x);
    if x in ResolventFrom(chain, pivots, i + 1) { ResolventFacts(chain, pivots, i + 1, x); }
    if BroughtBack(chain, pivots, i + 1, x) { BroughtBackWasMet(chain, pivots, i + 1, x); }
  }

  lemma ClashMember(marks: set<int>, d: seq<int>, x: int)
    ensures -x in Clashes(marks, d, |d|) <==> -x in d && x in marks
  {
    assert d[..|d|] == d && -(-x) == x;
  }

  lemma BroughtBackWasMet(chain: seq<seq<int>>, pivots: seq<int>, i: nat, x: int)
    requires LinearResolution(chain, pivots) && i < |chain| && BroughtBack(chain, pivots, i, x)
    ensures x in Met(chain, i)
  {
    var s: nat :| i <= s < |pivots| && x == pivots[s] && Stale(chain, pivots, s) && !AbsorbedSince(chain, pivots, i, s);
    assert PivotAt(chain, pivots, s);
    MetMember(chain, i, x);
  }

  /** Every pivot that a stale mark brings back is absorbed later. */
  ghost predicate AllAbsorbed(chain: seq<seq<int>>, pivots: seq<int>)
    requires |chain| == |pivots| + 1
  {
    forall s: nat :: s < |pivots| && Stale(chain, pivots, s) ==> AbsorbedSince(chain, pivots, 0, s)
  }

  /** On a linear resolution the followed clause is the resolvent, or stays within it,
      exactly when every pivot brought back is absorbed. */
  lemma FollowedIsResolventIff(chain: seq<seq<int>>, pivots: seq<int>)
    requires LinearResolution(chain, pivots)
    ensures Followed(chain, 0) <= ResolventFrom(chain, pivots, 0) <==> AllAbsorbed(chain, pivots)
    ensures Followed(chain, 0) == ResolventFrom(chain, pivots, 0) <==> AllAbsorbed(chain, pivots)
  {
    var f, r := Followed(chain, 0), ResolventFrom(chain, pivots, 0);
    if AllAbsorbed(chain, pivots) {
      forall x ensures x in f <==> x in r { FollowedExactly(chain, pivots, 0, x); }
      assert f == r;
    } else {
      var s: nat :| s < |pivots| && Stale(chain, pivots, s) && !AbsorbedSince(chain, pivots, 0, s);
      assert BroughtBack(chain, pivots, 0, pivots[s]);
      FollowedExactly(chain, pivots, 0, pivots[s]);
      assert pivots[s] in f && pivots[s] !in r;
    }
  }

  // ------------------------------------------------- justified clauses

  /** The chain propagates from the negated clause, or resolves into it without leaving
      anything brought back. */
  ghost predicate Justified(chain: seq<seq<int>>, c: seq<int>) {
    (exists units :: Propagates(chain, c, units))
    || exists pivots :: LinearResolution(chain, pivots) && AllAbsorbed(chain, pivots) && ResolventFrom(chain, pivots, 0) <= LitSet(c)
  }

  lemma JustifiedIsFollowed(chain: seq<seq<int>>, c: seq<int>)
    requires Justified(chain, c)
    ensures chain != [] && Followed(chain, 0) <= LitSet(c)
  {
    if exists units :: Propagates(chain, c, units) {
      var units :| Propagates(chain, c, units);
      PropagationFollowsClause(chain, c, units);
    } else {
      var pivots :| LinearResolution(chain, pivots) && AllAbsorbed(chain, pivots) && ResolventFrom(chain, pivots, 0) <= LitSet(c);
      FollowedIsResolventIff(chain, pivots);
    }
  }

  /** The interpolant of a justified clause. */
  lemma JustifiedIsPartial(k: Construction, labels: Labels, A: Cnf, B: Cnf, chain: seq<seq<int>>, Js: seq<iset<Model>>, c: seq<int>)
    requires Justified(chain, c) && |Js| == |chain| && forall j :: 0 <= j < |chain| ==> 0 !in chain[j]
    requires forall j :: 0 <= j < |chain| ==> Partial(k, labels, A, B, LitSet(chain[j]), Js[j])
    ensures chain != [] && Partial(k, labels, A, B, LitSet(c), FollowedRegion(k, labels, chain, Js, 0))
  {
    JustifiedIsFollowed(chain, c);
    FollowedIsPartial(k, labels, A, B, chain, Js, 0);
    PartialWeakens(k, labels, A, B, Followed(chain, 0), LitSet(c), FollowedRegion(k, labels, chain, Js, 0));
  }

  // -------------------------------------------- where following fails

  /** Resolving {1, 2} with {-1, 3} and then with {-2, 1} brings 1 back into the clause.
      The mark of -1 is stale by then, so 1 is resolved upon once more and -2 stays. */
  lemma StaleMarkFails()
    ensures var chain, pivots := [[-2, 1], [-1, 3], [1, 2]], [-2, -1];
      && LinearResolution(chain, pivots) && ResolventFrom(chain, pivots, 0) == {1, 3}
      && !AllAbsorbed(chain, pivots) && Followed(chain, 0) == {1, 3, -2}
  {
    var chain, pivots := [[-2, 1], [-1, 3], [1, 2]], [-2, -1];
    StaleIsLinear(chain, pivots);
    forall x ensures x in Followed(chain, 0) <==> x in {1, 3, -2} { StaleFollowed(chain, pivots, x); }
    assert -2 in Followed(chain, 0);
    assert !AllAbsorbed(chain, pivots) by { FollowedIsResolventIff(chain, pivots); }
  }

  lemma StaleIsLinear(chain: seq<seq<int>>, pivots: seq<int>)
    requires chain == [[-2, 1], [-1, 3], [1, 2]] && pivots == [-2, -1]
    ensures LinearResolution(chain, pivots) && ResolventFrom(chain, pivots, 0) == {1, 3}
  {
    assert chain[2] == [1, 2] && chain[1] == [-1, 3] && chain[0] == [-2, 1];
    assert ResolventFrom(chain, pivots, 2) == {1, 2};
    assert ResolventFrom(chain, pivots, 1) == {2, 3};
    assert ResolventFrom(chain, pivots, 0) == {1, 3};
    assert PivotAt(chain, pivots, 0) && PivotAt(chain, pivots, 1);
  }

  lemma StaleFollowed(chain: seq<seq<int>>, pivots: seq<int>, x: int)
    requires chain == [[-2, 1], [-1, 3], [1, 2]] && pivots == [-2, -1]
    ensures x in Followed(chain, 0) <==> x in {1, 3, -2}
  {
    StaleIsLinear(chain, pivots);
    assert chain[2] == [1, 2] && chain[1] == [-1, 3] && chain[0] == [-2, 1];
    MetMember(chain, 1, -1);
    assert 1 in chain[0] && Stale(chain, pivots, 0);
    MetMember(chain, 2, 1);
    MetMember(chain, 2, -3);
    FollowedExactly(chain, pivots, 0, x);
    BroughtBackStep(chain, pivots, 0, x);
    BroughtBackStep(chain, pivots, 1, x);
  }

  function StaleLabels(): Labels { map[1 := BLocal, 2 := ALocal, 3 := BLocal, 4 := Global, 5 := Global] }

  /** The symmetric construction along the chain of 'StaleMarkFails', where {1, 2} comes from
      {2, 5} of A and {-5, 1} of B, {-2, 1} from {-2, 4} of A and {-4, 1} of B, and the units
      -1 and -3 of B then give the empty clause: A does not imply the result. */
  lemma StaleMarkLosesInterpolant()
    ensures var L, A, B := StaleLabels(), [[-2, 4], [2, 5]], [[-5, 1], [-4, 1], [-1, 3], [-1], [-3]];
            var ofA, ofB := InitialRegion(Sym, L, [2, 5], AClause), InitialRegion(Sym, L, [-1, 3], BClause);
            var first := FollowedRegion(Sym, L, [[-5, 1], [2, 5]], [ofB, ofA], 0);
            var second := FollowedRegion(Sym, L, [[-4, 1], [-2, 4]], [ofB, ofA], 0);
            var third := FollowedRegion(Sym, L, [[-2, 1], [-1, 3], [1, 2]], [second, ofB, first], 0);
            var last := FollowedRegion(Sym, L, [[-1], [-3], [1, 3]], [ofB, ofB, third], 0);
      && CnfSat({5}, A) && {5} in first && {5} !in second && {5} !in third && {5} !in last
      && !Partial(Sym, L, A, B, {1, 3}, third) && !Partial(Sym, L, A, B, {}, last)
  {
    var L, A := StaleLabels(), [[-2, 4], [2, 5]];
    var ofA, ofB := InitialRegion(Sym, L, [2, 5], AClause), InitialRegion(Sym, L, [-1, 3], BClause);
    assert SatClause({5}, A[0]) by { assert True({5}, A[0][0]); }
    assert SatClause({5}, A[1]) by { assert True({5}, A[1][1]); }
    assert {5} !in ofA && {5} in ofB;
    PairValue(ofA, ofB, 5, 2);
    PairValue(ofA, ofB, 4, -2);
    ThirdLacks(FollowedRegion(Sym, L, [[-4, 1], [-2, 4]], [ofB, ofA], 0), ofB, FollowedRegion(Sym, L, [[-5, 1], [2, 5]], [ofB, ofA], 0));
    var third := FollowedRegion(Sym, L, [[-2, 1], [-1, 3], [1, 2]],
      [FollowedRegion(Sym, L, [[-4, 1], [-2, 4]], [ofB, ofA], 0), ofB, FollowedRegion(Sym, L, [[-5, 1], [2, 5]], [ofB, ofA], 0)], 0);
    LastLacks(ofB, third);
    MissesModel([[-5, 1], [-4, 1], [-1, 3], [-1], [-3]], {1, 3}, third);
    MissesModel([[-5, 1], [-4, 1], [-1, 3], [-1], [-3]], {}, FollowedRegion(Sym, L, [[-1], [-3], [1, 3]], [ofB, ofB, third], 0));
  }

  lemma MissesModel(B: Cnf, c: set<int>, I: iset<Model>)
    requires CnfSat({5}, [[-2, 4], [2, 5]]) && c <= {1, 3} && {5} !in I
    ensures !Partial(Sym, StaleLabels(), [[-2, 4], [2, 5]], B, c, I)
  {
    assert AFalse({5}, c, StaleLabels(), Sym);
  }

  lemma PairValue(ofA: iset<Model>, ofB: iset<Model>, g: int, a: int)
    requires {5} !in ofA && {5} in ofB && g in {4, 5} && a in {2, -2}
    ensures {5} in FollowedRegion(Sym, StaleLabels(), [[-g, 1], [a, g]], [ofB, ofA], 0) <==> g == 5
  {
    var chain := [[-g, 1], [a, g]];
    assert chain[1] == [a, g] && g in chain[1] && -1 !in chain[1];
    TwoValues(Sym, StaleLabels(), chain, [ofB, ofA], 0, -g, 1, {5});
    assert Occurs(chain, 1, -(-g)) && !Occurs(chain, 1, -1);
  }

  lemma ThirdLacks(second: iset<Model>, ofB: iset<Model>, first: iset<Model>)
    requires {5} !in second && {5} in ofB && {5} in first
    ensures {5} !in FollowedRegion(Sym, StaleLabels(), [[-2, 1], [-1, 3], [1, 2]], [second, ofB, first], 0)
  {
    var chain, Js := [[-2, 1], [-1, 3], [1, 2]], [second, ofB, first];
    assert chain[1] == [-1, 3] && chain[2] == [1, 2] && 1 in chain[2] && 2 in chain[2] && -1 in chain[1];
    TwoValues(Sym, StaleLabels(), chain, Js, 1, -1, 3, {5});
    TwoValues(Sym, StaleLabels(), chain, Js, 0, -2, 1, {5});
    assert Occurs(chain, 1, -(-2)) && Occurs(chain, 1, -1);
  }

  lemma LastLacks(ofB: iset<Model>, third: iset<Model>)
    requires {5} in ofB && {5} !in third
    ensures {5} !in FollowedRegion(Sym, StaleLabels(), [[-1], [-3], [1, 3]], [ofB, ofB, third], 0)
  {
    var chain, Js := [[-1], [-3], [1, 3]], [ofB, ofB, third];
    assert chain[2] == [1, 3] && 1 in chain[2] && 3 in chain[2];
    OneValue(Sym, StaleLabels(), chain, Js, 1, -3, {5});
    OneValue(Sym, StaleLabels(), chain, Js, 0, -1, {5});
    assert Occurs(chain, 2, 3) && Occurs(chain, 1, 1);
  }

  /** The value of one model after a literal of an antecedent. */
  predicate Stepped(k: Construction, labels: Labels, clash: bool, v: bool, j: bool, a: int, m: Model) {
    if clash then Combined(k, TypeOf(labels, -a), v, j, True(m, -a)) else v
  }

  lemma OneValue(k: Construction, labels: Labels, chain: seq<seq<int>>, Js: seq<iset<Model>>, i: nat, a: int, m: Model)
    requires |Js| == |chain| && i + 1 < |chain| && chain[i] == [a]
    ensures m in FollowedRegion(k, labels, chain, Js, i) <==>
              Stepped(k, labels, Occurs(chain, i + 1, -a), m in FollowedRegion(k, labels, chain, Js, i + 1), m in Js[i], a, m)
  {
    MetMember(chain, i + 1, -a);
    assert [a][..0] == [];
    var I, marks := FollowedRegion(k, labels, chain, Js, i + 1), Met(chain, i + 1);
    assert TrackedRegion(k, labels, I, Js[i], marks, [a], 0) == I;
  }

  lemma TwoValues(k: Construction, labels: Labels, chain: seq<seq<int>>, Js: seq<iset<Model>>, i: nat, a: int, b: int, m: Model)
    requires |Js| == |chain| && i + 1 < |chain| && chain[i] == [a, b] && a != -b && b != 0
    ensures m in FollowedRegion(k, labels, chain, Js, i) <==>
              Stepped(k, labels, Occurs(chain, i + 1, -b),
                Stepped(k, labels, Occurs(chain, i + 1, -a), m in FollowedRegion(k, labels, chain, Js, i + 1), m in Js[i], a, m),
                m in Js[i], b, m)
  {
    MetMember(chain, i + 1, -a);
    MetMember(chain, i + 1, -b);
    assert [a, b][..0] == [] && [a, b][..1] == [a];
    var I, marks := FollowedRegion(k, labels, chain, Js, i + 1), Met(chain, i + 1);
    var J, I1 := Js[i], if -a in marks then CombinedRegion(k, labels, I, Js[i], -a) else I;
    assert TrackedRegion(k, labels, I, J, marks, [a, b], 1) == I1;
    assert TrackedRegion(k, labels, I, J, marks, [a, b], 2) == if -b in marks then CombinedRegion(k, labels, I1, J, -b) else I1;
  }

  predicate Occurs(chain: seq<seq<int>>, i: nat, x: int)
    requires i <= |chain|
  {
    exists j :: i <= j < |chain| && x in chain[j]
  }
}
