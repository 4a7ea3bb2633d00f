/** The interpolating proof tracer: it keeps one partial interpolant per clause and
    construction, follows resolution chains with marks, and emits the interpolant
    of the empty clause as clauses. */
module CraigTracing {
  import opened Literals
  import opened AndInverterGraphs
  import opened AigCnf
  import opened Interpolation
  import opened ResolutionChains

  // ----------------------------------------------- one construction at a time

  ghost predicate GlobalOnly(nodes: seq<Node>, labels: Labels) {
    forall v :: v in Variables(nodes) ==> v in labels && labels[v] == Global
  }

  /** A valid graph over global variables that only grew. */
  ghost predicate Grown(nodes: seq<Node>, more: seq<Node>, labels: Labels) {
    NodesOk(nodes) && NodesOk(more) && nodes <= more && (GlobalOnly(nodes, labels) ==> GlobalOnly(more, labels))
  }

  /** The edges stand for the global literals of a clause, or for their negations. */
  ghost predicate StandFor(nodes: seq<Node>, edges: seq<Edge>, lits: seq<int>, negated: bool)
    requires NodesOk(nodes)
  {
    |edges| == |lits| && EdgesOk(nodes, edges)
    && forall j, m {:trigger Eval(nodes, edges[j], m)} :: 0 <= j < |edges| ==> (Eval(nodes, edges[j], m) <==> True(m, lits[j]) != negated)
  }

  lemma StandsMore(nodes: seq<Node>, more: seq<Node>, edges: seq<Edge>, lits: seq<int>, negated: bool, e: Edge, l: int)
    requires NodesOk(nodes) && NodesOk(more) && nodes <= more && StandFor(nodes, edges, lits, negated) && EdgeOk(more, e)
    requires forall m :: Eval(more, e, m) <==> True(m, l) != negated
    ensures StandFor(more, edges + [e], lits + [l], negated)
  {
    var all, lits' := edges + [e], lits + [l];
    forall j, m | 0 <= j < |all| ensures EdgeOk(more, all[j]) && (Eval(more, all[j], m) <==> True(m, lits'[j]) != negated) {
      if j < |edges| { EvalStable(nodes, more, edges[j], m); }
    }
  }

  method GlobalEdges(aig: Aig, labels: Labels, clause: seq<int>, negated: bool) returns (edges: seq<Edge>)
    requires aig.Valid() && forall l :: l in clause ==> l != 0
    modifies aig
    ensures aig.Valid() && Grown(old(aig.nodes), aig.nodes, labels)
    ensures StandFor(aig.nodes, edges, Globals(labels, clause), negated)
  {
    edges := [];
    for i := 0 to |clause|
      invariant aig.Valid() && Grown(old(aig.nodes), aig.nodes, labels)
      invariant StandFor(aig.nodes, edges, Globals(labels, clause[..i]), negated)
    {
      assert clause[..i + 1][..i] == clause[..i];
      var l := clause[i];
      assert l in clause;
      if TypeOf(labels, l) == Global {
        ghost var before := aig.nodes;
        var e := aig.CreateLiteral(if negated then -l else l);
        StandsMore(before, aig.nodes, edges, Globals(labels, clause[..i]), negated, e, l);
        edges := edges + [e];
      }
    }
    assert clause[..|clause|] == clause;
  }

  lemma SomeStands(nodes: seq<Node>, edges: seq<Edge>, lits: seq<int>, m: Model)
    requires NodesOk(nodes)
    ensures StandFor(nodes, edges, lits, false) ==> (EvalAny(nodes, edges, m) <==> SomeTrue(m, lits))
    ensures StandFor(nodes, edges, lits, true) ==> (EvalAll(nodes, edges, m) <==> !SomeTrue(m, lits))
  {
    if |edges| == |lits| && EdgesOk(nodes, edges) && SomeTrue(m, lits) {
      var l :| l in lits && True(m, l);
      var j :| 0 <= j < |lits| && lits[j] == l;
      assert StandFor(nodes, edges, lits, false) ==> Eval(nodes, edges[j], m);
      assert StandFor(nodes, edges, lits, true) ==> !Eval(nodes, edges[j], m);
    }
    assert forall j :: 0 <= j < |lits| ==> lits[j] in lits;
  }

  /** What a clause starts with: a constant, or its global literals. */
  method CreateInterpolant(k: Construction, aig: Aig, labels: Labels, clause: seq<int>, t: ClauseType) returns (e: Edge)
    requires aig.Valid() && t != LClause && forall l :: l in clause ==> l != 0
    modifies aig
    ensures aig.Valid() && Grown(old(aig.nodes), aig.nodes, labels) && EdgeOk(aig.nodes, e)
    ensures IsInitial(k, labels, clause, t, Region(k, aig.nodes, e))
  {
    match k {
      case Sym => e := if t == AClause then FALSE else TRUE;
      case DualSym => e := if t == AClause then TRUE else FALSE;
      case Asym =>
        if t == AClause {
          var literals := GlobalEdges(aig, labels, clause, false);
          ghost var before := aig.nodes;
          e := aig.CreateOrAll(literals);
          forall m ensures Eval(aig.nodes, e, m) <==> SomeTrue(m, Globals(labels, clause)) {
            SomeStands(before, literals, Globals(labels, clause), m);
          }
        } else {
          e := TRUE;
        }
      case DualAsym =>
        if t == BClause {
          var literals := GlobalEdges(aig, labels, clause, true);
          ghost var before := aig.nodes;
          e := aig.CreateAndAll(literals);
          forall m ensures Eval(aig.nodes, e, m) <==> !SomeTrue(m, Globals(labels, clause)) {
            SomeStands(before, literals, Globals(labels, clause), m);
          }
        } else {
          e := FALSE;
        }
    }
  }

  /** An edge with a global literal added, as an alternative or as a condition. */
  method WithLiteral(aig: Aig, labels: Labels, e: Edge, literal: int, dual: bool) returns (r: Edge)
    requires aig.Valid() && EdgeOk(aig.nodes, e) && literal != 0 && TypeOf(labels, literal) == Global
    modifies aig
    ensures aig.Valid() && Grown(old(aig.nodes), aig.nodes, labels) && EdgeOk(aig.nodes, r)
    ensures forall m :: Eval(aig.nodes, r, m) <==>
              if dual then Eval(old(aig.nodes), e, m) && True(m, literal) else Eval(old(aig.nodes), e, m) || True(m, literal)
  {
    ghost var before := aig.nodes;
    var l := aig.CreateLiteral(literal);
    ghost var now := aig.nodes;
    forall m ensures Eval(now, e, m) == Eval(before, e, m) { EvalStable(before, now, e, m); }
    if dual { r := aig.CreateAnd(e, l); } else { r := aig.CreateOr(e, l); }
  }

  /** Both edges restricted to the phase of a global pivot. */
  method Multiplex(aig: Aig, labels: Labels, e1: Edge, e2: Edge, literal: int, dual: bool) returns (e: Edge)
    requires aig.Valid() && EdgeOk(aig.nodes, e1) && EdgeOk(aig.nodes, e2) && literal != 0 && TypeOf(labels, literal) == Global
    modifies aig
    ensures aig.Valid() && Grown(old(aig.nodes), aig.nodes, labels) && EdgeOk(aig.nodes, e)
    ensures forall m :: Eval(aig.nodes, e, m) <==>
              var i, j, x := Eval(old(aig.nodes), e1, m), Eval(old(aig.nodes), e2, m), True(m, literal);
              if dual then (i && !x) || (j && x) else (i || x) && (j || !x)
  {
    ghost var n0 := aig.nodes;
    var left := WithLiteral(aig, labels, e1, if dual then -literal else literal, dual);
    ghost var n1 := aig.nodes;
    var right := WithLiteral(aig, labels, e2, if dual then literal else -literal, dual);
    ghost var n2 := aig.nodes;
    forall m ensures Eval(n1, e2, m) == Eval(n0, e2, m) { EvalStable(n0, n1, e2, m); }
    forall m ensures Eval(n2, left, m) == Eval(n1, left, m) { EvalStable(n1, n2, left, m); }
    if dual { e := aig.CreateOr(left, right); } else { e := aig.CreateAnd(left, right); }
  }

  /** Combines two partial interpolants for a resolution on a literal of the first. */
  method ExtendInterpolant(k: Construction, aig: Aig, labels: Labels, e1: Edge, e2: Edge, literal: int) returns (e: Edge)
    requires aig.Valid() && EdgeOk(aig.nodes, e1) && EdgeOk(aig.nodes, e2) && literal != 0
    modifies aig
    ensures aig.Valid() && Grown(old(aig.nodes), aig.nodes, labels) && EdgeOk(aig.nodes, e)
    ensures IsCombined(k, TypeOf(labels, literal), Region(k, old(aig.nodes), e1), Region(k, old(aig.nodes), e2), literal, Region(k, aig.nodes, e))
  {
    var t := TypeOf(labels, literal);
    match k {
      case Sym =>
        if t == ALocal { e := aig.CreateOr(e1, e2); }
        else if t == BLocal { e := aig.CreateAnd(e1, e2); }
        else { e := Multiplex(aig, labels, e1, e2, literal, false); }
      case Asym =>
        if t == ALocal { e := aig.CreateOr(e1, e2); } else { e := aig.CreateAnd(e1, e2); }
      case DualSym =>
        if t == ALocal { e := aig.CreateAnd(e1, e2); }
        else if t == BLocal { e := aig.CreateOr(e1, e2); }
        else { e := Multiplex(aig, labels, e1, e2, literal, true); }
      case DualAsym =>
        if t == BLocal { e := aig.CreateAnd(e1, e2); } else { e := aig.CreateOr(e1, e2); }
    }
  }

  // ------------------------------------------------------------ the tracer

  /** The partial interpolants of one clause. */
  datatype CraigData = CraigData(sym: Edge, asym: Edge, dualSym: Edge, dualAsym: Edge, clauseType: ClauseType, id: nat) {
    function For(k: Construction): Edge {
      match k
      case Sym => sym
      case Asym => asym
      case DualSym => dualSym
      case DualAsym => dualAsym
    }
  }

  /** The interpolants that the edges of one clause stand for. */
  datatype Reading = Reading(sym: iset<Model>, asym: iset<Model>, dualSym: iset<Model>, dualAsym: iset<Model>) {
    ghost function For(k: Construction): iset<Model> {
      match k
      case Sym => sym
      case Asym => asym
      case DualSym => dualSym
      case DualAsym => dualAsym
    }
  }

  /** The edge stands for the interpolant. Kept folded. */
  ghost predicate Means(k: Construction, nodes: seq<Node>, e: Edge, I: iset<Model>) {
    forall n {:trigger Unfold(n)} :: Unfold(n) ==> NodesOk(nodes) && EdgeOk(nodes, e) && Region(k, nodes, e) == I
  }

  lemma MeansEdge(k: Construction, nodes: seq<Node>, e: Edge, I: iset<Model>)
    requires Means(k, nodes, e, I)
    ensures NodesOk(nodes) && EdgeOk(nodes, e) && Region(k, nodes, e) == I
  {
    assert Unfold(0);
  }

  lemma MeansIf(k: Construction, nodes: seq<Node>, e: Edge, I: iset<Model>)
    requires NodesOk(nodes) && EdgeOk(nodes, e) && forall m {:trigger m in I} :: m in I <==> m in Region(k, nodes, e)
    ensures Means(k, nodes, e, I)
  {
    assert Region(k, nodes, e) == I;
  }

  lemma MeansStays(k: Construction, nodes: seq<Node>, more: seq<Node>, e: Edge, I: iset<Model>)
    requires Means(k, nodes, e, I) && NodesOk(more) && nodes <= more
    ensures Means(k, more, e, I)
  {
    MeansEdge(k, nodes, e, I);
    forall m ensures m in Region(k, more, e) <==> m in Region(k, nodes, e) { EvalStable(nodes, more, e, m); }
    MeansIf(k, more, e, I);
  }

  /** Every stored edge stands for the reading of its clause, over global variables. */
  ghost predicate AllMean(k: Construction, nodes: seq<Node>, labels: Labels, data: seq<CraigData>, readings: seq<Reading>) {
    forall n {:trigger Unfold(n)} :: Unfold(n) ==>
      && GlobalOnly(nodes, labels) && |data| == |readings|
      && forall i :: 0 <= i < |data| ==> Means(k, nodes, data[i].For(k), readings[i].For(k))
  }

  lemma AllMeanAt(k: Construction, nodes: seq<Node>, labels: Labels, data: seq<CraigData>, readings: seq<Reading>, i: nat)
    requires AllMean(k, nodes, labels, data, readings) && i < |data|
    ensures GlobalOnly(nodes, labels) && i < |readings| && Means(k, nodes, data[i].For(k), readings[i].For(k))
  {
    assert Unfold(0);
  }

  lemma AllMeanStays(k: Construction, nodes: seq<Node>, more: seq<Node>, labels: Labels, data: seq<CraigData>, readings: seq<Reading>)
    requires AllMean(k, nodes, labels, data, readings) && Grown(nodes, more, labels)
    ensures AllMean(k, more, labels, data, readings)
  {
    assert Unfold(0);
    forall i | 0 <= i < |data| ensures Means(k, more, data[i].For(k), readings[i].For(k)) {
      MeansStays(k, nodes, more, data[i].For(k), readings[i].For(k));
    }
  }

  lemma AllMeanMore(k: Construction, nodes: seq<Node>, labels: Labels, data: seq<CraigData>, readings: seq<Reading>, d: CraigData, r: Reading)
    requires AllMean(k, nodes, labels, data, readings) && Means(k, nodes, d.For(k), r.For(k))
    ensures AllMean(k, nodes, labels, data + [d], readings + [r])
  {
    assert Unfold(0);
  }

  ghost predicate NonZeroClauses(clauses: seq<seq<int>>) {
    forall n {:trigger Unfold(n)} :: Unfold(n) ==> forall c, i :: 0 <= c < |clauses| && 0 <= i < |clauses[c]| ==> clauses[c][i] != 0
  }

  lemma NonZeroMore(clauses: seq<seq<int>>, c: seq<int>)
    requires NonZeroClauses(clauses) && forall l :: l in c ==> l != 0
    ensures NonZeroClauses(clauses + [c])
  {
    assert Unfold(0);
    assert forall i :: 0 <= i < |c| ==> c[i] in c;
  }

  lemma NonZeroAt(clauses: seq<seq<int>>, c: nat, i: nat)
    requires NonZeroClauses(clauses) && c < |clauses| && i < |clauses[c]|
    ensures clauses[c][i] != 0
  {
    assert Unfold(0);
  }

  // --------------------------------------------------- readings of a chain

  ghost function InitialReading(labels: Labels, c: seq<int>, t: ClauseType): Reading {
    Reading(InitialRegion(Sym, labels, c, t), InitialRegion(Asym, labels, c, t),
            InitialRegion(DualSym, labels, c, t), InitialRegion(DualAsym, labels, c, t))
  }

  ghost function CombinedReading(labels: Labels, I: Reading, J: Reading, lit: int): Reading {
    Reading(CombinedRegion(Sym, labels, I.sym, J.sym, lit), CombinedRegion(Asym, labels, I.asym, J.asym, lit),
            CombinedRegion(DualSym, labels, I.dualSym, J.dualSym, lit), CombinedRegion(DualAsym, labels, I.dualAsym, J.dualAsym, lit))
  }

  ghost function TrackedReading(labels: Labels, I: Reading, J: Reading, marks: set<int>, d: seq<int>, n: nat): Reading
    requires n <= |d|
  {
    Reading(TrackedRegion(Sym, labels, I.sym, J.sym, marks, d, n), TrackedRegion(Asym, labels, I.asym, J.asym, marks, d, n),
            TrackedRegion(DualSym, labels, I.dualSym, J.dualSym, marks, d, n), TrackedRegion(DualAsym, labels, I.dualAsym, J.dualAsym, marks, d, n))
  }

  ghost function Column(k: Construction, rs: seq<Reading>): (Is: seq<iset<Model>>)
    ensures |Is| == |rs| && forall i :: 0 <= i < |rs| ==> Is[i] == rs[i].For(k)
  {
    seq(|rs|, i requires 0 <= i < |rs| => rs[i].For(k))
  }

  /** What following a chain from its last antecedent to antecedent i computes. */
  ghost function FollowedReading(labels: Labels, chain: seq<seq<int>>, rs: seq<Reading>, i: nat): Reading
    requires |rs| == |chain| && i < |chain|
  {
    Reading(FollowedRegion(Sym, labels, chain, Column(Sym, rs), i), FollowedRegion(Asym, labels, chain, Column(Asym, rs), i),
            FollowedRegion(DualSym, labels, chain, Column(DualSym, rs), i), FollowedRegion(DualAsym, labels, chain, Column(DualAsym, rs), i))
  }

  ghost predicate IsFollowedNext(labels: Labels, chain: seq<seq<int>>, rs: seq<Reading>, i: nat)
    requires |rs| == |chain| && i + 1 < |chain|
  {
    FollowedReading(labels, chain, rs, i) ==
    TrackedReading(labels, FollowedReading(labels, chain, rs, i + 1), rs[i], Met(chain, i + 1), chain[i], |chain[i]|)
  }

  lemma FollowedNext(labels: Labels, chain: seq<seq<int>>, rs: seq<Reading>, i: nat)
    requires |rs| == |chain| && i < |chain|
    ensures i == |chain| - 1 ==> FollowedReading(labels, chain, rs, i) == rs[i]
    ensures i < |chain| - 1 ==> IsFollowedNext(labels, chain, rs, i)
  {
  }

  /** The antecedents that a chain names, and their readings. */
  ghost function Picked<T>(xs: seq<T>, chain: seq<nat>): (ys: seq<T>)
    requires forall i :: 0 <= i < |chain| ==> chain[i] < |xs|
    ensures |ys| == |chain| && forall i :: 0 <= i < |chain| ==> ys[i] == xs[chain[i]]
  {
    seq(|chain|, i requires 0 <= i < |chain| => xs[chain[i]])
  }

  /** Reading and marks after the first n literals of an antecedent, kept folded. */
  ghost predicate Following(labels: Labels, I: Reading, J: Reading, marks: set<int>, d: seq<int>, n: nat, now: Reading, marksNow: set<int>) {
    forall k {:trigger Unfold(k)} :: Unfold(k) ==>
      n <= |d| && now == TrackedReading(labels, I, J, marks, d, n) && marksNow == marks + LitSet(d[..n])
  }

  lemma FollowStart(labels: Labels, I: Reading, J: Reading, marks: set<int>, d: seq<int>)
    ensures Following(labels, I, J, marks, d, 0, I, marks)
  {
    assert marks + LitSet(d[..0]) == marks;
  }

  lemma FollowStep(labels: Labels, I: Reading, J: Reading, marks: set<int>, d: seq<int>, n: nat, now: Reading, marksNow: set<int>)
    requires Following(labels, I, J, marks, d, n, now, marksNow) && n < |d|
    ensures Following(labels, I, J, marks, d, n + 1, if -d[n] in marksNow then CombinedReading(labels, now, J, -d[n]) else now, marksNow + {d[n]})
  {
    assert Unfold(0);
    assert LitSet(d[..n + 1]) == LitSet(d[..n]) + {d[n]};
  }

  lemma FollowEnd(labels: Labels, I: Reading, J: Reading, marks: set<int>, d: seq<int>, now: Reading, marksNow: set<int>)
    requires Following(labels, I, J, marks, d, |d|, now, marksNow)
    ensures now == TrackedReading(labels, I, J, marks, d, |d|) && marksNow == marks + LitSet(d)
  {
    assert Unfold(0);
    assert d[..|d|] == d;
  }

  // ------------------------------------------------ interpolating readings

  /** The readings are partial interpolants of their clauses. Kept folded. */
  ghost predicate Interpolates(labels: Labels, A: Cnf, B: Cnf, clauses: seq<seq<int>>, readings: seq<Reading>) {
    forall n {:trigger Unfold(n)} :: Unfold(n) ==>
      |readings| == |clauses| && forall k, i :: 0 <= i < |clauses| ==> Partial(k, labels, A, B, LitSet(clauses[i]), readings[i].For(k))
  }

  lemma InterpolatesAt(labels: Labels, A: Cnf, B: Cnf, clauses: seq<seq<int>>, readings: seq<Reading>, k: Construction, i: nat)
    requires Interpolates(labels, A, B, clauses, readings) && i < |clauses|
    ensures i < |readings| && Partial(k, labels, A, B, LitSet(clauses[i]), readings[i].For(k))
  {
    assert Unfold(0);
  }

  lemma InterpolatesMore(labels: Labels, A: Cnf, B: Cnf, clauses: seq<seq<int>>, readings: seq<Reading>, c: seq<int>, r: Reading)
    requires Interpolates(labels, A, B, clauses, readings) && forall k :: Partial(k, labels, A, B, LitSet(c), r.For(k))
    ensures Interpolates(labels, A, B, clauses + [c], readings + [r])
  {
    assert Unfold(0);
  }

  lemma InterpolatesGrows(labels: Labels, A: Cnf, B: Cnf, A': Cnf, B': Cnf, clauses: seq<seq<int>>, readings: seq<Reading>)
    requires Interpolates(labels, A, B, clauses, readings) && A <= A' && B <= B'
    ensures Interpolates(labels, A', B', clauses, readings)
  {
    assert Unfold(0);
    forall k, i | 0 <= i < |clauses| ensures Partial(k, labels, A', B', LitSet(clauses[i]), readings[i].For(k)) {
      PartialGrows(k, labels, A, B, A', B', LitSet(clauses[i]), readings[i].For(k));
    }
  }

  /** An original clause that only speaks about its own side keeps this. */
  lemma OriginalInterpolates(labels: Labels, A: Cnf, B: Cnf, clauses: seq<seq<int>>, readings: seq<Reading>, c: seq<int>, t: ClauseType)
    requires Interpolates(labels, A, B, clauses, readings) && FitsLabel(labels, c, t)
    ensures Interpolates(labels, WithOriginal(A, c, t == AClause), WithOriginal(B, c, t != AClause),
              clauses + [c], readings + [InitialReading(labels, c, t)])
  {
    var A', B' := WithOriginal(A, c, t == AClause), WithOriginal(B, c, t != AClause);
    InterpolatesGrows(labels, A, B, A', B', clauses, readings);
    forall k ensures Partial(k, labels, A', B', LitSet(c), InitialReading(labels, c, t).For(k)) {
      if t == AClause {
        InitialIsPartialA(k, labels, A', B', c, InitialRegion(k, labels, c, t));
      } else {
        InitialIsPartialB(k, labels, A', B', c, InitialRegion(k, labels, c, t));
      }
    }
    InterpolatesMore(labels, A', B', clauses, readings, c, InitialReading(labels, c, t));
  }

  function WithOriginal(A: Cnf, c: seq<int>, added: bool): Cnf { if added then A + [c] else A }

  /** A derived clause keeps it, if following its chain stays within the clause. */
  lemma DerivedInterpolates(labels: Labels, A: Cnf, B: Cnf, clauses: seq<seq<int>>, readings: seq<Reading>, c: seq<int>, chain: seq<nat>)
    requires Interpolates(labels, A, B, clauses, readings) && |readings| == |clauses| && NonZeroClauses(clauses) && chain != []
    requires forall i :: 0 <= i < |chain| ==> chain[i] < |clauses|
    requires Followed(Picked(clauses, chain), 0) <= LitSet(c)
    ensures Interpolates(labels, A, B, clauses + [c],
              readings + [FollowedReading(labels, Picked(clauses, chain), Picked(readings, chain), 0)])
  {
    var r := FollowedReading(labels, Picked(clauses, chain), Picked(readings, chain), 0);
    forall k ensures Partial(k, labels, A, B, LitSet(c), r.For(k)) {
      DerivedIsPartial(k, labels, A, B, clauses, readings, c, chain);
    }
    InterpolatesMore(labels, A, B, clauses, readings, c, r);
  }

  lemma DerivedIsPartial(k: Construction, labels: Labels, A: Cnf, B: Cnf, clauses: seq<seq<int>>, readings: seq<Reading>, c: seq<int>, chain: seq<nat>)
    requires Interpolates(labels, A, B, clauses, readings) && |readings| == |clauses| && NonZeroClauses(clauses) && chain != []
    requires forall i :: 0 <= i < |chain| ==> chain[i] < |clauses|
    requires Followed(Picked(clauses, chain), 0) <= LitSet(c)
    ensures Partial(k, labels, A, B, LitSet(c), FollowedRegion(k, labels, Picked(clauses, chain), Column(k, Picked(readings, chain)), 0))
  {
    var antecedents, Is := Picked(clauses, chain), Column(k, Picked(readings, chain));
    forall j | 0 <= j < |chain| ensures 0 !in antecedents[j] && Partial(k, labels, A, B, LitSet(antecedents[j]), Is[j]) {
      forall i | 0 <= i < |antecedents[j]| ensures antecedents[j][i] != 0 { NonZeroAt(clauses, chain[j], i); }
      InterpolatesAt(labels, A, B, clauses, readings, k, chain[j]);
    }
    FollowedIsPartial(k, labels, A, B, antecedents, Is, 0);
    PartialWeakens(k, labels, A, B, Followed(antecedents, 0), LitSet(c), FollowedRegion(k, labels, antecedents, Is, 0));
  }

  /** Following a justified chain stays within the clause. */
  lemma JustifiedInterpolates(labels: Labels, A: Cnf, B: Cnf, clauses: seq<seq<int>>, readings: seq<Reading>, c: seq<int>, chain: seq<nat>)
    requires |readings| == |clauses| && NonZeroClauses(clauses) && chain != []
    requires forall i :: 0 <= i < |chain| ==> chain[i] < |clauses|
    ensures Justified(Picked(clauses, chain), c) ==> Followed(Picked(clauses, chain), 0) <= LitSet(c)
    ensures Interpolates(labels, A, B, clauses, readings) && Followed(Picked(clauses, chain), 0) <= LitSet(c) ==>
              Interpolates(labels, A, B, clauses + [c], readings + [FollowedReading(labels, Picked(clauses, chain), Picked(readings, chain), 0)])
  {
    if Justified(Picked(clauses, chain), c) { JustifiedIsFollowed(Picked(clauses, chain), c); }
    if Interpolates(labels, A, B, clauses, readings) && Followed(Picked(clauses, chain), 0) <= LitSet(c) {
      DerivedInterpolates(labels, A, B, clauses, readings, c, chain);
    }
  }

  class CraigTracer {
    const labels: Labels
    const enabled: set<Construction>
    const aigSym: Aig
    const aigAsym: Aig
    const aigDualSym: Aig
    const aigDualAsym: Aig
    var clauses: seq<seq<int>>
    var interpolants: seq<CraigData>
    var markedLits: set<int>
    var craigId: nat
    ghost var readings: seq<Reading>
    ghost var A: Cnf
    ghost var B: Cnf

    function AigFor(k: Construction): Aig {
      match k
      case Sym => aigSym
      case Asym => aigAsym
      case DualSym => aigDualSym
      case DualAsym => aigDualAsym
    }

    ghost predicate Separate() {
      && aigSym != aigAsym && aigSym != aigDualSym && aigSym != aigDualAsym
      && aigAsym != aigDualSym && aigAsym != aigDualAsym && aigDualSym != aigDualAsym
    }

    ghost predicate Ok(k: Construction)
      reads this`interpolants, this`readings, AigFor(k)
    {
      AigFor(k).Valid() && (k in enabled ==> AllMean(k, AigFor(k).nodes, labels, interpolants, readings))
    }

    /** The edges of the enabled constructions stand for the readings. */
    ghost predicate Valid()
      reads this`clauses, this`interpolants, this`readings, aigSym, aigAsym, aigDualSym, aigDualAsym
    {
      && Separate() && |interpolants| == |clauses| == |readings|
      && NonZeroClauses(clauses)
      && Ok(Sym) && Ok(Asym) && Ok(DualSym) && Ok(DualAsym)
    }

    /** And the readings are partial interpolants. */
    ghost predicate Interpolating()
      reads this`clauses, this`readings, this`A, this`B
    {
      Interpolates(labels, A, B, clauses, readings)
    }

    ghost predicate Stands(k: Construction, e: Edge, I: iset<Model>)
      reads AigFor(k)
    {
      k in enabled ==> Means(k, AigFor(k).nodes, e, I)
    }

    ghost predicate StandAll(d: CraigData, R: Reading)
      reads aigSym, aigAsym, aigDualSym, aigDualAsym
    {
      Stands(Sym, d.sym, R.sym) && Stands(Asym, d.asym, R.asym) && Stands(DualSym, d.dualSym, R.dualSym) && Stands(DualAsym, d.dualAsym, R.dualAsym)
    }

    constructor (variableLabels: Labels, constructions: set<Construction>)
      ensures Valid() && Interpolating() && clauses == [] && readings == [] && A == [] && B == [] && markedLits == {}
      ensures labels == variableLabels && enabled == constructions
      ensures fresh(aigSym) && fresh(aigAsym) && fresh(aigDualSym) && fresh(aigDualAsym)
    {
      labels, enabled := variableLabels, constructions;
      aigSym := new Aig();
      aigAsym := new Aig();
      aigDualSym := new Aig();
      aigDualAsym := new Aig();
      clauses, interpolants, markedLits, craigId, readings, A, B := [], [], {}, 0, [], [], [];
    }

    /** What an original clause starts with, for one construction. */
    method Initial(k: Construction, c: seq<int>, t: ClauseType) returns (e: Edge)
      requires Ok(k) && t != LClause && forall l :: l in c ==> l != 0
      modifies AigFor(k)
      ensures Ok(k) && Stands(k, e, InitialRegion(k, labels, c, t))
    {
      e := TRUE;
      if k in enabled {
        ghost var before := AigFor(k).nodes;
        e := CreateInterpolant(k, AigFor(k), labels, c, t);
        AllMeanStays(k, before, AigFor(k).nodes, labels, interpolants, readings);
        MeansIf(k, AigFor(k).nodes, e, InitialRegion(k, labels, c, t));
      }
    }

    /** What it starts with in all constructions. */
    method InitialData(c: seq<int>, t: ClauseType) returns (data: CraigData)
      requires Valid() && t != LClause && forall l :: l in c ==> l != 0
      modifies aigSym, aigAsym, aigDualSym, aigDualAsym
      ensures Valid() && StandAll(data, InitialReading(labels, c, t))
    {
      var sym := Initial(Sym, c, t);
      var asym := Initial(Asym, c, t);
      var dualSym := Initial(DualSym, c, t);
      var dualAsym := Initial(DualAsym, c, t);
      data := CraigData(sym, asym, dualSym, dualAsym, t, craigId);
    }

    /** Takes over one more original clause. */
    method AddOriginalClause(c: seq<int>, t: ClauseType)
      requires Valid() && t != LClause && forall l :: l in c ==> l != 0
      modifies this`clauses, this`interpolants, this`craigId, this`readings, this`A, this`B, aigSym, aigAsym, aigDualSym, aigDualAsym
      ensures Valid() && clauses == old(clauses) + [c] && readings == old(readings) + [InitialReading(labels, c, t)]
      ensures A == if t == AClause then old(A) + [c] else old(A)
      ensures B == if t == AClause then old(B) else old(B) + [c]
      ensures old(Interpolating()) && FitsLabel(labels, c, t) ==> Interpolating()
    {
      var data := InitialData(c, t);
      craigId := craigId + 1;
      if Interpolating() && FitsLabel(labels, c, t) { OriginalInterpolates(labels, A, B, clauses, readings, c, t); }
      Append(c, data, InitialReading(labels, c, t));
      A, B := WithOriginal(A, c, t == AClause), WithOriginal(B, c, t != AClause);
    }

    /** Stores a clause with its data. */
    method Append(c: seq<int>, data: CraigData, ghost r: Reading)
      requires Valid() && StandAll(data, r) && forall l :: l in c ==> l != 0
      modifies this`clauses, this`interpolants, this`readings
      ensures Valid() && clauses == old(clauses) + [c] && interpolants == old(interpolants) + [data] && readings == old(readings) + [r]
    {
      MoreOne(Sym, data, r);
      MoreOne(Asym, data, r);
      MoreOne(DualSym, data, r);
      MoreOne(DualAsym, data, r);
      NonZeroMore(clauses, c);
      clauses := clauses + [c];
      interpolants := interpolants + [data];
      readings := readings + [r];
    }

    lemma MoreOne(k: Construction, data: CraigData, r: Reading)
      requires Ok(k) && Stands(k, data.For(k), r.For(k))
      ensures k in enabled ==> AllMean(k, AigFor(k).nodes, labels, interpolants + [data], readings + [r])
    {
      if k in enabled { AllMeanMore(k, AigFor(k).nodes, labels, interpolants, readings, data, r); }
    }

    // ------------------------------------------------------ derived clauses

    /** Marks a literal and tells whether its negation was marked before. */
    method MarkLiteral(literal: int) returns (clash: bool)
      modifies this`markedLits
      ensures markedLits == old(markedLits) + {literal} && clash == (-literal in old(markedLits))
    {
      clash := -literal in markedLits;
      markedLits := markedLits + {literal};
    }

    method UnmarkAll()
      modifies this`markedLits
      ensures markedLits == {}
    {
      markedLits := {};
    }

    /** One resolution step for one construction. */
    method Extend(k: Construction, e: Edge, literal: int, id: nat, ghost I: iset<Model>) returns (r: Edge)
      requires Ok(k) && Stands(k, e, I) && literal != 0 && id < |interpolants| == |readings|
      modifies AigFor(k)
      ensures Ok(k) && Stands(k, r, CombinedRegion(k, labels, I, readings[id].For(k), literal))
    {
      r := e;
      if k in enabled {
        ghost var before, J := AigFor(k).nodes, readings[id].For(k);
        var other := interpolants[id].For(k);
        MeansEdge(k, before, e, I);
        AllMeanAt(k, before, labels, interpolants, readings, id);
        MeansEdge(k, before, other, J);
        r := ExtendInterpolant(k, AigFor(k), labels, e, other, literal);
        AllMeanStays(k, before, AigFor(k).nodes, labels, interpolants, readings);
        MeansIf(k, AigFor(k).nodes, r, CombinedRegion(k, labels, I, J, literal));
      }
    }

    /** Resolves the data with a stored clause on a literal. */
    method ExtendWithResolution(data: CraigData, literal: int, id: nat, ghost I: Reading) returns (r: CraigData)
      requires Valid() && StandAll(data, I) && literal != 0 && id < |clauses|
      modifies aigSym, aigAsym, aigDualSym, aigDualAsym
      ensures Valid() && StandAll(r, CombinedReading(labels, I, readings[id], literal))
    {
      var t := if data.clauseType != interpolants[id].clauseType then LClause else data.clauseType;
      var sym := Extend(Sym, data.sym, literal, id, I.sym);
      var asym := Extend(Asym, data.asym, literal, id, I.asym);
      var dualSym := Extend(DualSym, data.dualSym, literal, id, I.dualSym);
      var dualAsym := Extend(DualAsym, data.dualAsym, literal, id, I.dualAsym);
      r := CraigData(sym, asym, dualSym, dualAsym, t, data.id);
    }

    /** Marks one literal of an antecedent, and resolves on it if it clashes. */
    method FollowLiteral(data: CraigData, id: nat, l: int, ghost I: Reading) returns (r: CraigData, ghost next: Reading)
      requires Valid() && id < |clauses| && StandAll(data, I) && l != 0
      modifies this`markedLits, aigSym, aigAsym, aigDualSym, aigDualAsym
      ensures Valid() && StandAll(r, next)
      ensures next == if -l in old(markedLits) then CombinedReading(labels, I, readings[id], -l) else I
      ensures markedLits == old(markedLits) + {l}
    {
      r, next := data, I;
      var clash := MarkLiteral(l);
      if clash {
        next := CombinedReading(labels, I, readings[id], -l);
        r := ExtendWithResolution(data, -l, id, I);
      }
    }

    /** Follows literal n of an antecedent. */
    method FollowNext(data: CraigData, id: nat, n: nat, ghost I: Reading, ghost marks: set<int>, ghost now: Reading)
      returns (r: CraigData, ghost next: Reading)
      requires Valid() && id < |clauses| && n < |clauses[id]| && StandAll(data, now)
      requires Following(labels, I, readings[id], marks, clauses[id], n, now, markedLits)
      modifies this`markedLits, aigSym, aigAsym, aigDualSym, aigDualAsym
      ensures Valid() && StandAll(r, next) && Following(labels, I, readings[id], marks, clauses[id], n + 1, next, markedLits)
    {
      NonZeroAt(clauses, id, n);
      FollowStep(labels, I, readings[id], marks, clauses[id], n, now, markedLits);
      r, next := FollowLiteral(data, id, clauses[id][n], now);
    }

    /** Goes through one antecedent and resolves on every clashing literal. */
    method FollowAntecedent(data0: CraigData, id: nat, ghost I: Reading, ghost marks: set<int>) returns (data: CraigData)
      requires Valid() && StandAll(data0, I) && id < |clauses| && markedLits == marks
      modifies this`markedLits, aigSym, aigAsym, aigDualSym, aigDualAsym
      ensures Valid() && StandAll(data, TrackedReading(labels, I, readings[id], marks, clauses[id], |clauses[id]|))
      ensures markedLits == marks + LitSet(clauses[id])
    {
      data := data0;
      var lits := clauses[id];
      ghost var now := I;
      FollowStart(labels, I, readings[id], marks, lits);
      for n := 0 to |lits|
        invariant Valid() && StandAll(data, now) && Following(labels, I, readings[id], marks, lits, n, now, markedLits)
      {
        data, now := FollowNext(data, id, n, I, marks, now);
      }
      FollowEnd(labels, I, readings[id], marks, lits, now, markedLits);
    }

    method MarkAll(lits: seq<int>)
      requires markedLits == {}
      modifies this`markedLits
      ensures markedLits == LitSet(lits)
    {
      for j := 0 to |lits|
        invariant markedLits == LitSet(lits[..j])
      {
        assert LitSet(lits[..j + 1]) == LitSet(lits[..j]) + {lits[j]};
        var _ := MarkLiteral(lits[j]);
      }
      assert lits[..|lits|] == lits;
    }

    /** Follows a chain of resolutions, last antecedent first. */
    method FollowChain(chain: seq<nat>) returns (data: CraigData)
      requires Valid() && markedLits == {} && chain != []
      requires forall i :: 0 <= i < |chain| ==> chain[i] < |clauses|
      modifies this`markedLits, aigSym, aigAsym, aigDualSym, aigDualAsym
      ensures Valid() && StandAll(data, FollowedReading(labels, Picked(clauses, chain), Picked(readings, chain), 0))
    {
      ghost var antecedents, rs := Picked(clauses, chain), Picked(readings, chain);
      var i: nat := |chain| - 1;
      MarkAll(clauses[chain[i]]);
      data := interpolants[chain[i]];
      Stored(chain[i]);
      FollowedNext(labels, antecedents, rs, i);
      assert Met(antecedents, i) == LitSet(antecedents[i]) by { assert Met(antecedents, i + 1) == {}; }
      while i > 0
        invariant Valid() && i < |chain|
        invariant StandAll(data, FollowedReading(labels, antecedents, rs, i)) && markedLits == Met(antecedents, i)
      {
        i := i - 1;
        data := FollowAntecedent(data, chain[i], FollowedReading(labels, antecedents, rs, i + 1), markedLits);
        FollowedNext(labels, antecedents, rs, i);
      }
    }

    /** Adds a clause derived by a chain. Its data always stand for the reading of the
        followed chain; they interpolate the clause if following stays within it, which a
        justified chain does. */
    method AddDerivedClause(c: seq<int>, chain: seq<nat>)
      requires Valid() && markedLits == {} && chain != [] && (forall l :: l in c ==> l != 0)
      requires forall i :: 0 <= i < |chain| ==> chain[i] < |clauses|
      modifies this`clauses, this`interpolants, this`readings, this`markedLits, aigSym, aigAsym, aigDualSym, aigDualAsym
      ensures Valid() && markedLits == {} && clauses == old(clauses) + [c]
      ensures readings == old(readings) + [FollowedReading(labels, Picked(old(clauses), chain), Picked(old(readings), chain), 0)]
      ensures old(Interpolating()) && Followed(Picked(old(clauses), chain), 0) <= LitSet(c) ==> Interpolating()
      ensures old(Interpolating()) && Justified(Picked(old(clauses), chain), c) ==> Interpolating()
    {
      var data := FollowChain(chain);
      UnmarkAll();
      JustifiedInterpolates(labels, A, B, clauses, readings, c, chain);
      Append(c, data, FollowedReading(labels, Picked(clauses, chain), Picked(readings, chain), 0));
    }

    lemma Stored(id: nat)
      requires Valid() && id < |clauses|
      ensures StandAll(interpolants[id], readings[id])
    {
      StoredOne(Sym, id);
      StoredOne(Asym, id);
      StoredOne(DualSym, id);
      StoredOne(DualAsym, id);
    }

    lemma StoredOne(k: Construction, id: nat)
      requires Ok(k) && id < |interpolants| == |readings|
      ensures Stands(k, interpolants[id].For(k), readings[id].For(k))
    {
      if k in enabled { AllMeanAt(k, AigFor(k).nodes, labels, interpolants, readings, id); }
    }

    // --------------------------------------------------- the final interpolant

    /** The clauses of the interpolant that the empty clause has in a construction. They
        mean exactly its reading; the dual symmetric one is negated here. */
    method CreateCraigInterpolant(k: Construction, id: nat, nextFree: nat) returns (kind: CnfType, cnf: Cnf, next: nat)
      requires Valid() && k in enabled && id < |clauses| && clauses[id] == [] && Fresh(AigFor(k).nodes, nextFree)
      ensures next >= nextFree
      ensures match kind case Constant0 => cnf == [[]] case Constant1 => cnf == [] case Normal => cnf != [] && |cnf[|cnf| - 1]| == 1
      ensures forall m :: Completable(m, cnf, nextFree, next) <==> m in readings[id].For(k)
      ensures Interpolating() ==> forall m :: CnfSat(m, A) ==> Completable(m, cnf, nextFree, next)
      ensures Interpolating() ==> forall m :: CnfSat(m, B) ==> !Completable(m, cnf, nextFree, next)
      ensures forall m, m' :: SameGlobals(m, m') ==> (Completable(m, cnf, nextFree, next) <==> Completable(m', cnf, nextFree, next))
      ensures OverGlobals(labels, cnf, nextFree, next)
    {
      ghost var nodes, I := AigFor(k).nodes, readings[id].For(k);
      var e := interpolants[id].For(k);
      AllMeanAt(k, nodes, labels, interpolants, readings, id);
      MeansEdge(k, nodes, e, I);
      kind, cnf, next := CreateFinalCnf(AigFor(k).nodes, e, k, nextFree, labels);
      if Interpolating() {
        InterpolatesAt(labels, A, B, clauses, readings, k, id);
        assert LitSet(clauses[id]) == {};
        EmptyClauseInterpolates(k, labels, A, B, I);
      }
      forall m, m' | SameGlobals(m, m') ensures m in Region(k, nodes, e) <==> m' in Region(k, nodes, e) {
        GlobalValue(nodes, labels, e, m, m');
      }
    }

    /** The assignments agree on the variables labelled global. */
    ghost predicate SameGlobals(m: Model, m': Model) {
      forall v :: v in labels && labels[v] == Global ==> (v in m <==> v in m')
    }
  }

  /** The clauses of an edge as the construction reads it: the dual symmetric one is negated. */
  method CreateFinalCnf(nodes: seq<Node>, e: Edge, k: Construction, nextFree: nat, ghost labels: Labels)
    returns (kind: CnfType, cnf: Cnf, next: nat)
    requires NodesOk(nodes) && EdgeOk(nodes, e) && Fresh(nodes, nextFree) && GlobalOnly(nodes, labels)
    ensures next >= nextFree && OverGlobals(labels, cnf, nextFree, next)
    ensures match kind case Constant0 => cnf == [[]] case Constant1 => cnf == [] case Normal => cnf != [] && |cnf[|cnf| - 1]| == 1
    ensures forall m :: Completable(m, cnf, nextFree, next) <==> m in Region(k, nodes, e)
  {
    ghost var lit;
    kind, cnf, next, lit := CreateCnf(nodes, e, nextFree);
    UsesGlobals(nodes, labels, cnf, nextFree, next);
    ghost var gates := if kind == Normal then cnf[..|cnf| - 1] else [];
    assert kind == Normal ==> cnf == gates + [[lit]] && [lit][0] == lit;
    if k == DualSym {
      if kind == Constant1 {
        kind, cnf := Constant0, [[]];
      } else if kind == Constant0 {
        kind, cnf := Constant1, [];
      } else {
        NegatedOverGlobals(labels, cnf, gates, lit, nextFree, next);
        cnf := cnf[..|cnf| - 1] + [[-cnf[|cnf| - 1][0]]];
      }
    }
    forall m ensures Completable(m, cnf, nextFree, next) <==> m in Region(k, nodes, e) {
      if kind == Normal {
        DefinesExactly(nodes, e, gates, lit, nextFree, next, m);
      } else {
        ConstantCompletes(m, nextFree, next);
      }
    }
  }

  /** The clauses mention global variables and fresh ones only. */
  ghost predicate OverGlobals(labels: Labels, cnf: Cnf, lo: nat, hi: nat) {
    forall c, i :: 0 <= c < |cnf| && 0 <= i < |cnf[c]| ==> TypeOf(labels, cnf[c][i]) == Global || lo <= Abs(cnf[c][i]) < hi
  }

  lemma UsesGlobals(nodes: seq<Node>, labels: Labels, cnf: Cnf, lo: nat, hi: nat)
    requires UsesOnly(cnf, Variables(nodes), lo, hi) && GlobalOnly(nodes, labels)
    ensures OverGlobals(labels, cnf, lo, hi)
  {
    forall c, i | 0 <= c < |cnf| && 0 <= i < |cnf[c]| ensures TypeOf(labels, cnf[c][i]) == Global || lo <= Abs(cnf[c][i]) < hi {
      assert OldOrFresh(Variables(nodes), Abs(cnf[c][i]), lo, hi);
    }
  }

  /** Negating the final unit keeps the variables. */
  lemma NegatedOverGlobals(labels: Labels, cnf: Cnf, gates: Cnf, lit: int, lo: nat, hi: nat)
    requires cnf == gates + [[lit]] && OverGlobals(labels, cnf, lo, hi)
    ensures OverGlobals(labels, gates + [[-lit]], lo, hi)
  {
    var negated := gates + [[-lit]];
    assert cnf[|gates|][0] == lit && Abs(-lit) == Abs(lit);
    forall c, i | 0 <= c < |negated| && 0 <= i < |negated[c]|
      ensures TypeOf(labels, negated[c][i]) == Global || lo <= Abs(negated[c][i]) < hi
    {
      if c < |gates| { assert cnf[c] == negated[c]; } else { assert negated[c][i] == -lit; }
    }
  }

  lemma GlobalValue(nodes: seq<Node>, labels: Labels, e: Edge, m: Model, m': Model)
    requires NodesOk(nodes) && EdgeOk(nodes, e) && GlobalOnly(nodes, labels)
    requires forall v :: v in labels && labels[v] == Global ==> (v in m <==> v in m')
    ensures Eval(nodes, e, m) == Eval(nodes, e, m')
  {
    if !IsConstant(e) { EvalLocal(nodes, e / 2 - 1, m, m'); }
  }

  lemma ConstantCompletes(m: Model, lo: nat, hi: nat)
    ensures Completable(m, [], lo, hi) && !Completable(m, [[]], lo, hi)
  {
    assert Agree(m, m, lo, hi) && CnfSat(m, []);
    forall m' ensures !CnfSat(m', [[]]) { assert !SatClause(m', [[]][0]); }
  }
}
