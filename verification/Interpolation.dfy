/** Partial interpolants of clauses derived from two clause sets A and B: what each
    of the four constructions promises, and why resolution keeps the promise. */
module Interpolation {
  import opened Literals
  import opened AndInverterGraphs
  import opened AigCnf

  datatype VarType = ALocal | BLocal | Global
  datatype ClauseType = AClause | BClause | LClause
  datatype Construction = Sym | Asym | DualSym | DualAsym

  type Labels = map<nat, VarType>

  /** Variables without a label count as local to A. */
  function TypeOf(labels: Labels, lit: int): VarType { if Abs(lit) in labels then labels[Abs(lit)] else ALocal }

  /** The literals that the promise towards A, and towards B, takes to be false. */
  predicate SideA(k: Construction, t: VarType) { t == ALocal || (t == Global && k != Asym) }
  predicate SideB(k: Construction, t: VarType) { t == BLocal || (t == Global && k != DualAsym) }

  ghost predicate AFalse(m: Model, c: set<int>, labels: Labels, k: Construction) {
    forall l :: l in c && SideA(k, TypeOf(labels, l)) ==> !True(m, l)
  }

  ghost predicate BFalse(m: Model, c: set<int>, labels: Labels, k: Construction) {
    forall l :: l in c && SideB(k, TypeOf(labels, l)) ==> !True(m, l)
  }

  /** The partial interpolant of a clause: A together with the false literals on its
      side implies it, B together with those on its side contradicts it. */
  ghost predicate Partial(k: Construction, labels: Labels, A: Cnf, B: Cnf, c: set<int>, I: iset<Model>) {
    && (forall m {:trigger m in I} :: CnfSat(m, A) && AFalse(m, c, labels, k) ==> m in I)
    && (forall m {:trigger m in I} :: CnfSat(m, B) && BFalse(m, c, labels, k) ==> m !in I)
  }

  /** The assignments for which an edge, as the construction reads it, is true: the
      dual symmetric construction builds the negation. */
  ghost function Region(k: Construction, nodes: seq<Node>, e: Edge): iset<Model>
    requires NodesOk(nodes) && EdgeOk(nodes, e)
  {
    iset m: Model | Eval(nodes, e, m) != (k == DualSym)
  }

  // ---------------------------------------------------------- resolution

  /** How a resolution on literal x combines two partial interpolants. */
  predicate Combined(k: Construction, t: VarType, i: bool, j: bool, x: bool) {
    if !SideB(k, t) then i || j
    else if !SideA(k, t) then i && j
    else (i || x) && (j || !x)
  }

  ghost predicate IsCombined(k: Construction, t: VarType, I: iset<Model>, J: iset<Model>, lit: int, H: iset<Model>) {
    forall m {:trigger m in H} :: m in H <==> Combined(k, t, m in I, m in J, True(m, lit))
  }

  ghost function CombinedRegion(k: Construction, labels: Labels, I: iset<Model>, J: iset<Model>, lit: int): (H: iset<Model>)
    ensures IsCombined(k, TypeOf(labels, lit), I, J, lit, H)
  {
    iset m: Model | Combined(k, TypeOf(labels, lit), m in I, m in J, True(m, lit))
  }

  function Resolve(c: set<int>, d: set<int>, lit: int): set<int> { (c - {lit}) + (d - {-lit}) }

  /** Resolution keeps the promises, whether or not the literals really occur. */
  lemma ResolutionKeepsPartial(k: Construction, labels: Labels, A: Cnf, B: Cnf, c: set<int>, I: iset<Model>,
                               d: set<int>, J: iset<Model>, lit: int, H: iset<Model>)
    requires Partial(k, labels, A, B, c, I) && Partial(k, labels, A, B, d, J) && lit != 0
    requires IsCombined(k, TypeOf(labels, lit), I, J, lit, H)
    ensures Partial(k, labels, A, B, Resolve(c, d, lit), H)
  {
    var r, t := Resolve(c, d, lit), TypeOf(labels, lit);
    assert TypeOf(labels, -lit) == t;
    forall m | CnfSat(m, A) && AFalse(m, r, labels, k) ensures m in H {
      assert !SideA(k, t) || !True(m, lit) ==> AFalse(m, c, labels, k);
      assert !SideA(k, t) || True(m, lit) ==> AFalse(m, d, labels, k);
      assert m in I || m !in I;
      assert m in J || m !in J;
    }
    forall m | CnfSat(m, B) && BFalse(m, r, labels, k) ensures m !in H {
      assert !SideB(k, t) || !True(m, lit) ==> BFalse(m, c, labels, k);
      assert !SideB(k, t) || True(m, lit) ==> BFalse(m, d, labels, k);
      assert m in I || m !in I;
      assert m in J || m !in J;
    }
  }

  /** A larger clause promises less. */
  lemma PartialWeakens(k: Construction, labels: Labels, A: Cnf, B: Cnf, c: set<int>, c': set<int>, I: iset<Model>)
    requires Partial(k, labels, A, B, c, I) && c <= c'
    ensures Partial(k, labels, A, B, c', I)
  {
    forall m | CnfSat(m, A) && AFalse(m, c', labels, k) ensures m in I { assert AFalse(m, c, labels, k); }
    forall m | CnfSat(m, B) && BFalse(m, c', labels, k) ensures m !in I { assert BFalse(m, c, labels, k); }
  }

  /** More original clauses only help. */
  lemma PartialGrows(k: Construction, labels: Labels, A: Cnf, B: Cnf, A': Cnf, B': Cnf, c: set<int>, I: iset<Model>)
    requires Partial(k, labels, A, B, c, I) && A <= A' && B <= B'
    ensures Partial(k, labels, A', B', c, I)
  {
    forall m | CnfSat(m, A') && AFalse(m, c, labels, k) ensures m in I {
      assert CnfSat(m, A) by { forall i | 0 <= i < |A| ensures SatClause(m, A[i]) { assert A'[i] == A[i]; } }
    }
    forall m | CnfSat(m, B') && BFalse(m, c, labels, k) ensures m !in I {
      assert CnfSat(m, B) by { forall i | 0 <= i < |B| ensures SatClause(m, B[i]) { assert B'[i] == B[i]; } }
    }
  }

  // ----------------------------------------------------- original clauses

  function Globals(labels: Labels, c: seq<int>): seq<int> {
    if c == [] then []
    else
      var l := c[|c| - 1];
      Globals(labels, c[..|c| - 1]) + if TypeOf(labels, l) == Global then [l] else []
  }

  lemma {:induction false} GlobalsAre(labels: Labels, c: seq<int>)
    ensures forall l :: l in Globals(labels, c) <==> l in c && TypeOf(labels, l) == Global
  {
    if c != [] {
      GlobalsAre(labels, c[..|c| - 1]);
      assert c == c[..|c| - 1] + [c[|c| - 1]];
    }
  }

  lemma HoldsSome(m: Model, c: seq<int>)
    ensures SatClause(m, c) <==> SomeTrue(m, c)
  {
    if SatClause(m, c) {
      var i :| 0 <= i < |c| && True(m, c[i]);
      assert c[i] in c;
    }
    if SomeTrue(m, c) {
      var l :| l in c && True(m, l);
      var i :| 0 <= i < |c| && c[i] == l;
    }
  }

  /** The clause speaks about its own side only. */
  predicate FitsLabel(labels: Labels, c: seq<int>, t: ClauseType) {
    && (forall l :: l in c ==> l != 0)
    && (t == AClause ==> forall l :: l in c ==> TypeOf(labels, l) != BLocal)
    && (t == BClause ==> forall l :: l in c ==> TypeOf(labels, l) != ALocal)
    && t != LClause
  }

  /** What an original clause starts with. */
  ghost predicate IsInitial(k: Construction, labels: Labels, c: seq<int>, t: ClauseType, I: iset<Model>) {
    forall m {:trigger m in I} :: m in I <==>
      if t == AClause then k == Asym && SomeTrue(m, Globals(labels, c))
      else k == DualAsym ==> !SomeTrue(m, Globals(labels, c))
  }

  ghost function InitialRegion(k: Construction, labels: Labels, c: seq<int>, t: ClauseType): (I: iset<Model>)
    ensures IsInitial(k, labels, c, t, I)
  {
    iset m: Model |
      if t == AClause then k == Asym && SomeTrue(m, Globals(labels, c))
      else k == DualAsym ==> !SomeTrue(m, Globals(labels, c))
  }

  lemma InitialIsPartialA(k: Construction, labels: Labels, A: Cnf, B: Cnf, c: seq<int>, I: iset<Model>)
    requires FitsLabel(labels, c, AClause) && c in A && IsInitial(k, labels, c, AClause, I)
    ensures Partial(k, labels, A, B, LitSet(c), I)
  {
    GlobalsAre(labels, c);
    forall m | CnfSat(m, A) && AFalse(m, LitSet(c), labels, k) ensures m in I {
      var i :| 0 <= i < |A| && A[i] == c;
      assert SatClause(m, A[i]);
      HoldsSome(m, c);
      var l :| l in c && True(m, l);
      assert l in LitSet(c) && !SideA(k, TypeOf(labels, l));
      assert l in Globals(labels, c);
      assert m in I || m !in I;
    }
    forall m | CnfSat(m, B) && BFalse(m, LitSet(c), labels, k) ensures m !in I {
      assert forall l :: l in Globals(labels, c) ==> l in LitSet(c);
      assert m in I || m !in I;
    }
  }

  lemma InitialIsPartialB(k: Construction, labels: Labels, A: Cnf, B: Cnf, c: seq<int>, I: iset<Model>)
    requires FitsLabel(labels, c, BClause) && c in B && IsInitial(k, labels, c, BClause, I)
    ensures Partial(k, labels, A, B, LitSet(c), I)
  {
    GlobalsAre(labels, c);
    forall m | CnfSat(m, B) && BFalse(m, LitSet(c), labels, k) ensures m !in I {
      var i :| 0 <= i < |B| && B[i] == c;
      assert SatClause(m, B[i]);
      HoldsSome(m, c);
      var l :| l in c && True(m, l);
      assert l in LitSet(c) && !SideB(k, TypeOf(labels, l));
      assert l in Globals(labels, c);
      assert m in I || m !in I;
    }
    forall m | CnfSat(m, A) && AFalse(m, LitSet(c), labels, k) ensures m in I {
      assert forall l :: l in Globals(labels, c) ==> l in LitSet(c);
      assert m in I || m !in I;
    }
  }

  // ------------------------------------------------------- the final one

  /** For the empty clause the promises make a Craig interpolant. */
  lemma EmptyClauseInterpolates(k: Construction, labels: Labels, A: Cnf, B: Cnf, I: iset<Model>)
    requires Partial(k, labels, A, B, {}, I)
    ensures forall m :: CnfSat(m, A) ==> m in I
    ensures forall m :: CnfSat(m, B) ==> m !in I
    ensures forall m :: !(CnfSat(m, A) && CnfSat(m, B))
  {
    forall m ensures CnfSat(m, A) ==> m in I { assert AFalse(m, {}, labels, k); }
    forall m ensures CnfSat(m, B) ==> m !in I { assert BFalse(m, {}, labels, k); }
  }
}
