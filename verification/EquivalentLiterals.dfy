/** The search for equivalent literals: the strongly connected components of
    the binary implication graph, by one iterative depth-first search, and the
    choice of a representative for each component. */
module EquivalentLiterals {
  import opened Literals
  import opened ImplicationGraph
  import opened SearchState
  import opened SearchSteps
  import opened SearchInvariant

  ghost predicate Conflict(F: Formula, l: int) { F.Lit(l) && F.Mutual(l, -l) }

  /** Some literal is equivalent to its own negation. */
  ghost predicate Contradictory(F: Formula) { exists l :: Conflict(F, l) }

  class Decomposer {
    const F: Formula
    const idx: array<nat>
    const min: array<nat>
    const reprs: array<int>
    var work: seq<int>
    var scc: seq<int>
    var count: nat
    var unsat: bool
    ghost var s: State

    ghost predicate Tables() {
      idx.Length == min.Length == reprs.Length == 2 * F.maxVar + 2 && idx != min && F.Valid()
    }

    ghost function M(): Marks
      reads idx, min, reprs
    {
      Marks(idx[..], min[..], reprs[..])
    }

    /** 's' is the state of the search, and while no conflict has been found
        the search invariant holds of it. */
    ghost predicate Valid()
      reads this, idx, min, reprs
    {
      && Tables()
      && (unsat ==> Contradictory(F))
      && (!unsat ==> s.m == M() && s.count == count && s.scc == scc && s.work == work && Inv(F, s))
    }

    constructor (formula: Formula)
      requires formula.Valid()
      ensures Valid() && F == formula && !unsat && work == [] && count == 0
      ensures fresh(idx) && fresh(min) && fresh(reprs)
    {
      F := formula;
      var size := 2 * formula.maxVar + 2;
      idx := new nat[size](_ => 0);
      min := new nat[size](_ => 0);
      reprs := new int[size](_ => 0);
      work, scc, count, unsat := [], [], 0, false;
      new;
      s := State(M(), 0, [], [], [], []);
      NothingVisited(F, s.m);
    }

    /** Number the literal. */
    method Number(parent: int)
      requires Tables() && F.Lit(parent)
      modifies this`count, this`scc, idx, min
      ensures count == old(count) + 1 && scc == old(scc) + [parent]
      ensures |M().idx| == |M().min| == |M().reprs| == old(|M().idx|)
      ensures Visited(F, old(M()), M(), parent, count)
    {
      ghost var m0 := M();
      count := count + 1;
      idx[Vlit(parent)] := count;
      min[Vlit(parent)] := count;
      scc := scc + [parent];
      forall x | F.Lit(x) && x != parent ensures M().Idx(x) == m0.Idx(x) && M().Min(x) == m0.Min(x) {
        if Vlit(x) == Vlit(parent) { VlitInjective(x, parent); }
      }
    }

    /** Push the children that have not been visited. */
    method PushChildren(parent: int)
      requires Tables() && F.Lit(parent)
      modifies this`work
      ensures work == old(work) + Unvisited(F, M(), F.watches[-parent])
    {
      var ws := F.watches[-parent];
      for i := 0 to |ws|
        invariant work == old(work) + Unvisited(F, M(), ws[..i])
      {
        assert ws[..i + 1][..i] == ws[..i];
        assert F.Lit(ws[i].blit);
        if ws[i].binary && F.Active(ws[i].blit) && idx[Vlit(ws[i].blit)] == 0 {
          work := work + [ws[i].blit];
        }
      }
      assert ws[..|ws|] == ws;
    }

    /** Pre-fix work. */
    method Visit(parent: int)
      requires Valid() && !unsat && work != [] && work[|work| - 1] == parent
      requires F.Lit(parent) && F.Active(parent) && M().Idx(parent) == 0
      modifies this, idx, min
      ensures Valid() && !unsat && count == old(count) + 1 <= 2 * F.maxVar
      ensures old(work) <= work && M().Idx(parent) > 0 && StillSeen(F, old(M()), M())
    {
      Number(parent);
      PushChildren(parent);
      ghost var t := AfterVisit(F, s, M());
      VisitStep(F, s, t, M());
      s := t;
    }

    /** The least 'min' of the literal and of what it implies in one step. */
    method LeastMin(parent: int) returns (low: nat)
      requires Tables() && F.Lit(parent) && F.Active(parent)
      ensures IsLow(F, M(), parent, low)
    {
      ghost var m := M();
      var ws := F.watches[-parent];
      low := min[Vlit(parent)];
      for i := 0 to |ws|
        invariant low <= m.Min(parent)
        invariant forall j :: 0 <= j < i && ws[j].binary && F.Active(ws[j].blit) ==> low <= m.Min(ws[j].blit)
        invariant low == m.Min(parent) || exists c :: F.Edge(parent, c) && m.Min(c) == low
      {
        assert F.Lit(ws[i].blit);
        if ws[i].binary && F.Active(ws[i].blit) {
          assert ws[i] == Watch(ws[i].blit, true);
          assert F.HasBinary(-parent, ws[i].blit);
          assert F.Edge(parent, ws[i].blit);
          assert min[Vlit(ws[i].blit)] == m.Min(ws[i].blit);
          if low > min[Vlit(ws[i].blit)] {
            low := min[Vlit(ws[i].blit)];
          }
        }
      }
      forall c | F.Edge(parent, c) ensures low <= m.Min(c) {
        assert F.HasBinary(-parent, c);
        var j :| 0 <= j < |ws| && ws[j] == Watch(c, true);
      }
    }

    /** Looks through the component above 'parent' on its stack for the least
        variable, or for the negation of 'parent'. */
    method FindRepr(parent: int, ghost bottom: nat) returns (conflict: bool, repr: int)
      requires parent != 0 && bottom < |scc| && scc[bottom] == parent
      requires forall i, j :: 0 <= i < j < |scc| ==> scc[i] != scc[j]
      ensures conflict <==> -parent in scc[bottom..]
      ensures !conflict ==> repr in scc[bottom..] && forall y :: y in scc[bottom..] ==> Abs(repr) <= Abs(y)
    {
      conflict, repr := false, parent;
      var other, j := 0, |scc|;
      while !conflict && other != parent
        invariant bottom <= j <= |scc|
        invariant other == if j == |scc| then 0 else scc[j]
        invariant !conflict ==> forall i :: j <= i < |scc| ==> scc[i] != -parent && Abs(repr) <= Abs(scc[i])
        invariant conflict ==> j < |scc| && scc[j] == -parent
        invariant repr in scc[bottom..] && Abs(repr) <= Abs(parent)
        decreases j
      {
        j := j - 1;
        other := scc[j];
        if other == -parent {
          conflict := true;
        } else if Abs(other) < Abs(repr) {
          repr := other;
          assert repr == scc[bottom..][j - bottom];
        }
      }
      if conflict { assert scc[bottom..][j - bottom] == -parent; }
    }

    /** Pops the component off its stack and records its representative. */
    method PopComponent(parent: int, repr: int, ghost bottom: nat)
      requires Tables() && bottom < |scc| && scc[bottom] == parent && parent != 0
      requires forall i :: 0 <= i < |scc| ==> F.Lit(scc[i])
      requires forall i, j :: 0 <= i < j < |scc| ==> scc[i] != scc[j]
      modifies this`scc, min, reprs
      ensures scc == old(scc)[..bottom] && Recorded(F, old(M()), M(), old(scc)[bottom..], repr)
    {
      ghost var m0, scc0 := M(), scc;
      var other := 0;
      while other != parent
        invariant bottom <= |scc| <= |scc0| && scc == scc0[..|scc|]
        invariant other == if |scc| == |scc0| then 0 else scc0[|scc|]
        invariant Recorded(F, m0, M(), scc0[|scc|..], repr)
        decreases |scc|
      {
        ghost var done := scc0[|scc|..];
        other := scc[|scc| - 1];
        scc := scc[..|scc| - 1];
        assert scc0[|scc|..] == [other] + done;
        Record(other, repr, m0, done);
      }
    }

    method Record(other: int, repr: int, ghost m0: Marks, ghost done: seq<int>)
      requires Tables() && F.Lit(other) && Recorded(F, m0, M(), done, repr)
      requires forall i :: 0 <= i < |done| ==> F.Lit(done[i])
      modifies min, reprs
      ensures Recorded(F, m0, M(), [other] + done, repr)
    {
      ghost var m1 := M();
      min[Vlit(other)] := TRAVERSED;
      reprs[Vlit(other)] := if F.Frozen(other) then other else repr;
      forall x | F.Lit(x) && x != other ensures M().Min(x) == m1.Min(x) && M().Repr(x) == m1.Repr(x) {
        if Vlit(x) == Vlit(other) { VlitInjective(x, other); }
      }
      assert forall x :: x in [other] + done <==> x == other || x in done;
    }

    method Lower(parent: int, low: nat)
      requires Tables() && F.Lit(parent)
      modifies min
      ensures Lowered(F, old(M()), M(), parent, low)
    {
      ghost var m0 := M();
      min[Vlit(parent)] := low;
      forall x | F.Lit(x) && x != parent ensures M().Min(x) == m0.Min(x) {
        if Vlit(x) == Vlit(parent) { VlitInjective(x, parent); }
      }
    }

    /** The literal leads further down: its component stays open. */
    method Settle(parent: int, low: nat)
      requires Valid() && !unsat && work != [] && work[|work| - 1] == parent && M().Gray(parent)
      requires F.Lit(parent) && IsLow(F, M(), parent, low) && low < M().Idx(parent)
      modifies this`work, this`s, min
      ensures Valid() && work == old(work)[..|old(work)| - 1]
      ensures M().idx == old(M().idx)
    {
      work := work[..|work| - 1];
      Lower(parent, low);
      SettleStep(F, s, M(), low);
      s := AfterSettle(s, M());
    }

    /** The literal is the entry of its component, which is now complete. */
    method Close(parent: int)
      requires Valid() && !unsat && work != [] && work[|work| - 1] == parent && M().Gray(parent)
      requires F.Lit(parent) && IsLow(F, M(), parent, M().Idx(parent))
      modifies this`work, this`scc, this`unsat, this`s, min, reprs
      ensures Valid() && work == old(work)[..|old(work)| - 1]
      ensures M().idx == old(M().idx)
    {
      EntryStep(F, s);
      ghost var bottom := PlaceOf(F, s);
      var conflict, repr := FindRepr(parent, bottom);
      work := work[..|work| - 1];
      if conflict {
        unsat := true;
        ConflictFound(F, s, bottom);
        assert Conflict(F, parent);
      } else {
        Complete(parent, repr, bottom);
      }
    }

    method Complete(parent: int, repr: int, ghost bottom: nat)
      requires Tables() && !unsat && s.m == M() && s.count == count && s.scc == scc
      requires s.work != [] && work == s.work[..|s.work| - 1] && s.Top() == parent
      requires Inv(F, s) && Entry(F, s) && F.Lit(parent) && M().Gray(parent)
      requires bottom < |scc| && scc[bottom] == parent && -parent !in scc[bottom..]
      requires repr in scc[bottom..] && forall y :: y in scc[bottom..] ==> Abs(repr) <= Abs(y)
      modifies this`scc, this`s, min, reprs
      ensures Valid() && M().idx == old(M().idx)
    {
      StackIsDistinct(F, s);
      PopComponent(parent, repr, bottom);
      CloseStep(F, s, M(), repr, bottom);
      s := AfterClose(s, M(), bottom);
    }

    /** Post-fix work. */
    method Leave(parent: int)
      requires Valid() && !unsat && work != [] && work[|work| - 1] == parent && M().Gray(parent)
      requires F.Lit(parent) && F.Active(parent)
      modifies this`work, this`scc, this`unsat, this`s, min, reprs
      ensures Valid() && work == old(work)[..|old(work)| - 1]
      ensures M().idx == old(M().idx)
    {
      var low := LeastMin(parent);
      TopFacts(F, s);
      assert idx[Vlit(parent)] == M().Idx(parent);
      if idx[Vlit(parent)] == low {
        Close(parent);
      } else {
        Settle(parent, low);
      }
    }

    /** One depth-first search from a root. */
    method Search(root: int)
      requires Valid() && !unsat && work == [] && F.Lit(root) && F.Active(root)
      modifies this, idx, min, reprs
      ensures Valid() && (!unsat ==> work == [] && M().Idx(root) > 0 && StillSeen(F, old(M()), M()))
    {
      ghost var m0 := M();
      CountBound(F, s);
      StartStep(F, s, root);
      work := [root];
      s := s.(work := [root]);
      while !unsat && work != []
        invariant Valid() && (!unsat ==> StillSeen(F, m0, M()))
        invariant unsat || M().Idx(root) > 0 || (work != [] && work[0] == root)
        invariant count <= 2 * F.maxVar
        decreases !unsat, 2 * F.maxVar - count, |work|
      {
        var parent := work[|work| - 1];
        TopFacts(F, s);
        assert min[Vlit(parent)] == M().Min(parent) && idx[Vlit(parent)] == M().Idx(parent);
        if min[Vlit(parent)] == TRAVERSED {
          PopBlackStep(F, s);
          work := work[..|work| - 1];
          s := AfterPop(s);
        } else if idx[Vlit(parent)] > 0 {
          Leave(parent);
        } else {
          Visit(parent);
        }
      }
    }

    /** The whole search: every literal of every active variable is a root. */
    method DecomposeRound()
      requires Valid() && !unsat && work == []
      modifies this, idx, min, reprs
      ensures Tables() && (unsat <==> Contradictory(F))
      ensures !unsat ==> forall l :: F.Lit(l) && F.Active(l) ==> IsRepr(F, l, M().Repr(l))
    {
      for v := 1 to F.maxVar + 1
        invariant Valid() && (!unsat ==> work == [])
        invariant !unsat ==> forall l :: F.Lit(l) && F.Active(l) && Abs(l) < v ==> M().Idx(l) > 0
      {
        if unsat { break; }
        if F.Active(v) {
          ghost var m0 := M();
          if min[Vlit(-v)] != TRAVERSED { Search(-v); }
          ghost var m1 := M();
          if !unsat {
            SeenWhenTraversed(F, s);
            if min[Vlit(v)] != TRAVERSED { Search(v); }
            if !unsat { SeenWhenTraversed(F, s); }
          }
        }
      }
      if !unsat {
        CountBound(F, s);
        CompleteOf(F, s);
        NoConflict(F, M());
      }
    }
  }

  /** Visited literals stay visited. */
  ghost predicate StillSeen(F: Formula, m: Marks, m': Marks) {
    forall l :: F.Lit(l) && m.Idx(l) > 0 ==> m'.Idx(l) > 0
  }

  lemma SeenWhenTraversed(F: Formula, s: State)
    requires Inv(F, s)
    ensures forall l :: F.Lit(l) && s.m.Black(l) ==> s.m.Idx(l) > 0
  {
    assert Unfold(0);
  }

  lemma NoConflict(F: Formula, m: Marks)
    requires F.Valid() && Complete(F, m) && forall l :: F.Lit(l) && F.Active(l) ==> m.Black(l)
    ensures !Contradictory(F)
  {
    forall l | Conflict(F, l) ensures false { ConflictIsActive(F, l); }
  }

  lemma ConflictIsActive(F: Formula, l: int)
    requires F.Valid() && Conflict(F, l)
    ensures F.Active(l)
  {
    var lits := set x | x in AllLits(F.maxVar) && (x == l || (F.Active(x) && F.Active(l)));
    forall x, y | x in lits && F.Edge(x, y) ensures y in lits { F.EdgesMirror(x, y); }
    assert F.Closed(lits) && l in lits;
  }

  // ------------------------------------------- what the result is good for

  /** The outcome of a round that found no conflict. */
  ghost predicate Decomposed(F: Formula, m: Marks) {
    F.Valid() && !Contradictory(F) && forall l :: F.Lit(l) && F.Active(l) ==> IsRepr(F, l, m.Repr(l))
  }

  ghost predicate SatisfiesBinaries(F: Formula, M: Model) {
    forall a, b :: F.HasBinary(a, b) && F.Active(a) && F.Active(b) ==> True(M, a) || True(M, b)
  }

  /** A model of the binary clauses is closed under the implication graph. */
  lemma ReachInModel(F: Formula, M: Model, a: int, b: int)
    requires F.Valid() && SatisfiesBinaries(F, M) && F.Lit(a) && True(M, a) && F.Reach(a, b)
    ensures True(M, b)
  {
    var lits := set x | x in AllLits(F.maxVar) && True(M, x);
    forall x, y | x in lits && F.Edge(x, y) ensures y in lits {
      F.EdgesMirror(x, y);
      assert F.HasBinary(-x, y);
    }
    assert F.Closed(lits) && a in lits;
  }

  /** Two active, non-frozen literals get the same representative exactly when
      they lie in one strongly connected component. */
  lemma SameReprIffMutual(F: Formula, m: Marks, a: int, b: int)
    requires Decomposed(F, m)
    requires F.Lit(a) && F.Active(a) && !F.Frozen(a) && F.Lit(b) && F.Active(b) && !F.Frozen(b)
    ensures m.Repr(a) == m.Repr(b) <==> F.Mutual(a, b)
  {
    var ra, rb := m.Repr(a), m.Repr(b);
    assert IsRepr(F, a, ra) && IsRepr(F, b, rb);
    if F.Mutual(a, b) {
      MutualTrans(F, a, b, rb);
      MutualTrans(F, b, a, ra);
      MutualTrans(F, ra, a, rb);
      MutualLit(F, a, ra);
      assert ra == -rb ==> Conflict(F, ra);
    } else if ra == rb {
      MutualTrans(F, a, ra, b);
    }
  }

  lemma MutualLit(F: Formula, a: int, b: int)
    requires F.Valid() && F.Lit(a) && F.Mutual(a, b)
    ensures F.Lit(b) && (F.Active(a) ==> F.Active(b))
  {
    var lits := set x | x in AllLits(F.maxVar) && (F.Active(a) ==> F.Active(x));
    forall x, y | x in lits && F.Edge(x, y) ensures y in lits { F.EdgesMirror(x, y); }
    assert F.Closed(lits);
  }

  /** Negated literals have negated representatives. */
  lemma ReprOfNegation(F: Formula, m: Marks, l: int)
    requires Decomposed(F, m) && F.Lit(l) && F.Active(l)
    ensures m.Repr(-l) == -m.Repr(l)
  {
    var r, r' := m.Repr(l), m.Repr(-l);
    assert IsRepr(F, l, r) && IsRepr(F, -l, r');
    if !F.Frozen(l) {
      assert F.Mutual(-l, -r) by { MutualMirror(F, l, r); }
      assert F.Mutual(l, -r') by { MutualMirror(F, -l, r'); }
      assert Abs(r) == Abs(r');
      MutualLit(F, l, r);
      assert !Conflict(F, r);
      assert F.Mutual(l, -r) ==> F.Mutual(r, -r) by {
        if F.Mutual(l, -r) { MutualTrans(F, r, l, -r); }
      }
    }
  }

  /** A representative that is not frozen represents itself. */
  lemma ReprIsFixed(F: Formula, m: Marks, l: int)
    requires Decomposed(F, m) && F.Lit(l) && F.Active(l)
    ensures m.Repr(m.Repr(l)) == m.Repr(l)
  {
    var r := m.Repr(l);
    assert IsRepr(F, l, r);
    if !F.Frozen(l) && !F.Frozen(r) {
      MutualLit(F, l, r);
      SameReprIffMutual(F, m, l, r);
    } else if !F.Frozen(l) {
      MutualLit(F, l, r);
      assert IsRepr(F, r, m.Repr(r));
    }
  }

  /** Replacing a literal by its representative changes no model of the binary
      clauses. */
  lemma ReprAgreesInModels(F: Formula, m: Marks, M: Model, l: int)
    requires Decomposed(F, m) && SatisfiesBinaries(F, M) && F.Lit(l) && F.Active(l)
    ensures True(M, l) <==> True(M, m.Repr(l))
  {
    var r := m.Repr(l);
    assert IsRepr(F, l, r);
    if !F.Frozen(l) {
      MutualLit(F, l, r);
      if True(M, l) { ReachInModel(F, M, l, r); }
      if True(M, r) { ReachInModel(F, M, r, l); }
    }
  }

  /** A conflict really means that the binary clauses have no model. */
  lemma ContradictoryHasNoModel(F: Formula, M: Model)
    requires F.Valid() && Contradictory(F)
    ensures !SatisfiesBinaries(F, M)
  {
    var l :| Conflict(F, l);
    if SatisfiesBinaries(F, M) {
      if True(M, l) { ReachInModel(F, M, l, -l); } else { ReachInModel(F, M, -l, l); }
    }
  }
}
