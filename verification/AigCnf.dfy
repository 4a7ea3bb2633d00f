/** Turning one edge of an and-inverter graph into clauses: fresh variables for the
    and-nodes below it, three clauses each, and a final unit clause. */
module AigCnf {
  import opened Literals
  import opened AndInverterGraphs

  type Cnf = seq<seq<int>>

  datatype CnfType = Constant0 | Constant1 | Normal

  ghost predicate CnfSat(m: Model, cnf: Cnf) { forall c :: 0 <= c < |cnf| ==> SatClause(m, cnf[c]) }

  lemma CnfSatMore(m: Model, cnf: Cnf, clause: seq<int>)
    ensures CnfSat(m, cnf + [clause]) <==> CnfSat(m, cnf) && SatClause(m, clause)
  {
    var more := cnf + [clause];
    assert more[|cnf|] == clause;
    assert forall c :: 0 <= c < |cnf| ==> more[c] == cnf[c];
  }

  /** The assignments differ in the variables from lo to hi only. */
  ghost predicate Agree(m: Model, m': Model, lo: nat, hi: nat) {
    forall v: nat {:trigger v in m'} :: !(lo <= v < hi) ==> (v in m <==> v in m')
  }

  // --------------------------------------------------- what clauses define

  /** Under the clauses, the literal has the value of the edge; and the clauses
      constrain nothing but the fresh variables. */
  ghost predicate Defines(nodes: seq<Node>, root: Edge, cnf: Cnf, lit: int, lo: nat, hi: nat)
    requires NodesOk(nodes) && EdgeOk(nodes, root)
  {
    && (forall m {:trigger CnfSat(m, cnf)} :: CnfSat(m, cnf) ==> (True(m, lit) <==> Eval(nodes, root, m)))
    && (forall m {:trigger Completable(m, cnf, lo, hi)} :: Completable(m, cnf, lo, hi))
  }

  ghost predicate Completable(m: Model, cnf: Cnf, lo: nat, hi: nat) { exists m' :: Agree(m, m', lo, hi) && CnfSat(m', cnf) }

  ghost predicate Fresh(nodes: seq<Node>, lo: nat) { lo > 0 && forall v :: v in Variables(nodes) ==> v < lo }

  lemma EdgeAgrees(nodes: seq<Node>, e: Edge, m: Model, m': Model, lo: nat, hi: nat)
    requires NodesOk(nodes) && EdgeOk(nodes, e) && Fresh(nodes, lo) && Agree(m, m', lo, hi)
    ensures Eval(nodes, e, m) == Eval(nodes, e, m')
  {
    if !IsConstant(e) { EvalLocal(nodes, e / 2 - 1, m, m'); }
  }

  /** With the unit clause, the clauses can be satisfied by a choice of the fresh
      variables exactly when the edge is true; with its negation, exactly when the
      edge is false. */
  lemma DefinesExactly(nodes: seq<Node>, root: Edge, cnf: Cnf, lit: int, lo: nat, hi: nat, m: Model)
    requires NodesOk(nodes) && EdgeOk(nodes, root) && Fresh(nodes, lo) && lit != 0
    requires Defines(nodes, root, cnf, lit, lo, hi)
    ensures Completable(m, cnf + [[lit]], lo, hi) <==> Eval(nodes, root, m)
    ensures Completable(m, cnf + [[-lit]], lo, hi) <==> !Eval(nodes, root, m)
  {
    assert Completable(m, cnf, lo, hi);
    var m' :| Agree(m, m', lo, hi) && CnfSat(m', cnf);
    EdgeAgrees(nodes, root, m, m', lo, hi);
    UnitHolds(m', lit);
    CnfSatMore(m', cnf, [lit]);
    CnfSatMore(m', cnf, [-lit]);
    if Completable(m, cnf + [[lit]], lo, hi) {
      var w :| Agree(m, w, lo, hi) && CnfSat(w, cnf + [[lit]]);
      CnfSatMore(w, cnf, [lit]);
      UnitHolds(w, lit);
      EdgeAgrees(nodes, root, m, w, lo, hi);
    }
    if Completable(m, cnf + [[-lit]], lo, hi) {
      var w :| Agree(m, w, lo, hi) && CnfSat(w, cnf + [[-lit]]);
      CnfSatMore(w, cnf, [-lit]);
      UnitHolds(w, lit);
      EdgeAgrees(nodes, root, m, w, lo, hi);
    }
  }

  lemma UnitHolds(m: Model, lit: int)
    requires lit != 0
    ensures SatClause(m, [lit]) <==> True(m, lit)
    ensures SatClause(m, [-lit]) <==> !True(m, lit)
  {
    assert [lit][0] == lit && [-lit][0] == -lit;
  }

  // ------------------------------------------------------ the gate clauses

  ghost predicate Bounded(cnf: Cnf, hi: nat) {
    forall c, i :: 0 <= c < |cnf| && 0 <= i < |cnf[c]| ==> cnf[c][i] != 0 && Abs(cnf[c][i]) < hi
  }

  /** Variables for nodes: their own for variable nodes, fresh ones for and-nodes. */
  ghost predicate Names(nodes: seq<Node>, names: map<nat, int>, hi: nat) {
    && (forall k :: k in names ==> k < |nodes| && 0 < names[k] < hi)
    && (forall k: nat :: k < |nodes| && !nodes[k].IsAnd() ==> k in names)
  }

  /** The variable occurs in the graph or is one of the fresh ones. */
  predicate OldOrFresh(variables: set<nat>, v: nat, lo: nat, hi: nat) { v in variables || lo <= v < hi }

  /** The clauses use no other variables. */
  ghost predicate UsesOnly(cnf: Cnf, variables: set<nat>, lo: nat, hi: nat) {
    forall c, i :: 0 <= c < |cnf| && 0 <= i < |cnf[c]| ==> OldOrFresh(variables, Abs(cnf[c][i]), lo, hi)
  }

  ghost predicate NamesOnly(names: map<nat, int>, variables: set<nat>, lo: nat, hi: nat) {
    forall k :: k in names ==> OldOrFresh(variables, Abs(names[k]), lo, hi)
  }

  lemma GateUsesOnly(names: map<nat, int>, cnf: Cnf, variables: set<nat>, k: nat, e1: Edge, e2: Edge, lo: nat, hi: nat)
    requires UsesOnly(cnf, variables, lo, hi) && NamesOnly(names, variables, lo, hi) && lo <= hi
    requires e1 >= 2 && e2 >= 2 && e1 / 2 - 1 in names && e2 / 2 - 1 in names
    ensures UsesOnly(cnf + Gate(hi, LitOf(names, e1), LitOf(names, e2)), variables, lo, hi + 1)
    ensures NamesOnly(names[k := hi], variables, lo, hi + 1)
  {
    var l1, l2 := LitOf(names, e1), LitOf(names, e2);
    assert OldOrFresh(variables, Abs(names[e1 / 2 - 1]), lo, hi) && OldOrFresh(variables, Abs(names[e2 / 2 - 1]), lo, hi);
    assert OldOrFresh(variables, Abs(l1), lo, hi + 1) && OldOrFresh(variables, Abs(l2), lo, hi + 1) && OldOrFresh(variables, hi, lo, hi + 1);
    assert OldOrFresh(variables, Abs(-l1), lo, hi + 1) && OldOrFresh(variables, Abs(-l2), lo, hi + 1);
    var more, x: int := cnf + Gate(hi, l1, l2), hi;
    forall c, i | 0 <= c < |more| && 0 <= i < |more[c]| ensures OldOrFresh(variables, Abs(more[c][i]), lo, hi + 1) {
      if c < |cnf| {
        assert OldOrFresh(variables, Abs(cnf[c][i]), lo, hi);
      } else {
        assert more[c][i] in {x, -x, l1, -l1, l2, -l2};
      }
    }
  }

  /** Under the clauses, every named node has the value of its variable. */
  ghost predicate Named(nodes: seq<Node>, names: map<nat, int>, cnf: Cnf)
    requires NodesOk(nodes)
  {
    forall m, k {:trigger CnfSat(m, cnf), names[k]} :: CnfSat(m, cnf) && k in names && k < |nodes| ==> (names[k] in m <==> EvalNode(nodes, k, m))
  }

  ghost predicate AllCompletable(cnf: Cnf, lo: nat, hi: nat) {
    forall m {:trigger Completable(m, cnf, lo, hi)} :: Completable(m, cnf, lo, hi)
  }

  function LitOf(names: map<nat, int>, e: Edge): int
    requires e >= 2 && e / 2 - 1 in names
  {
    names[e / 2 - 1] * if IsNegated(e) then -1 else 1
  }

  function Gate(x: int, l1: int, l2: int): Cnf { [[-x, l1], [-x, l2], [x, -l1, -l2]] }

  lemma GateHolds(m: Model, cnf: Cnf, x: int, l1: int, l2: int)
    requires x > 0 && l1 != 0 && l2 != 0
    ensures CnfSat(m, cnf + Gate(x, l1, l2)) <==> CnfSat(m, cnf) && (True(m, x) <==> True(m, l1) && True(m, l2))
  {
    var a, b, c := [-x, l1], [-x, l2], [x, -l1, -l2];
    CnfSatMore(m, cnf, a);
    CnfSatMore(m, cnf + [a], b);
    CnfSatMore(m, cnf + [a] + [b], c);
    assert cnf + Gate(x, l1, l2) == cnf + [a] + [b] + [c];
    assert SatClause(m, a) <==> True(m, a[0]) || True(m, a[1]);
    assert SatClause(m, b) <==> True(m, b[0]) || True(m, b[1]);
    assert SatClause(m, c) <==> True(m, c[0]) || True(m, c[1]) || True(m, c[2]);
  }

  lemma NameValue(nodes: seq<Node>, names: map<nat, int>, cnf: Cnf, e: Edge, m: Model, hi: nat)
    requires NodesOk(nodes) && Names(nodes, names, hi) && Named(nodes, names, cnf) && CnfSat(m, cnf)
    requires e >= 2 && e / 2 - 1 in names && EdgeOk(nodes, e)
    ensures LitOf(names, e) != 0 && Abs(LitOf(names, e)) < hi && (True(m, LitOf(names, e)) <==> Eval(nodes, e, m))
  {
    var k := e / 2 - 1;
    assert names[k] in m <==> EvalNode(nodes, k, m);
  }

  lemma LitBounds(nodes: seq<Node>, names: map<nat, int>, e: Edge, hi: nat)
    requires Names(nodes, names, hi) && e >= 2 && e / 2 - 1 in names
    ensures LitOf(names, e) != 0 && Abs(LitOf(names, e)) < hi
  {
    assert 0 < names[e / 2 - 1] < hi;
  }

  /** Naming one more and-node. */
  lemma GateNamed(nodes: seq<Node>, names: map<nat, int>, cnf: Cnf, k: nat, hi: nat)
    requires NodesOk(nodes) && Names(nodes, names, hi) && Named(nodes, names, cnf)
    requires k < |nodes| && nodes[k].IsAnd() && nodes[k].edge1 / 2 - 1 in names && nodes[k].edge2 / 2 - 1 in names && k !in names
    ensures Named(nodes, names[k := hi], cnf + Gate(hi, LitOf(names, nodes[k].edge1), LitOf(names, nodes[k].edge2)))
  {
    var e1, e2 := nodes[k].edge1, nodes[k].edge2;
    var l1, l2 := LitOf(names, e1), LitOf(names, e2);
    var cnf', names' := cnf + Gate(hi, l1, l2), names[k := hi];
    LitBounds(nodes, names, e1, hi);
    LitBounds(nodes, names, e2, hi);
    forall m, j | CnfSat(m, cnf') && j in names' && j < |nodes| ensures names'[j] in m <==> EvalNode(nodes, j, m) {
      GateHolds(m, cnf, hi, l1, l2);
      if j == k {
        NameValue(nodes, names, cnf, e1, m, hi);
        NameValue(nodes, names, cnf, e2, m, hi);
      } else {
        assert names[j] in m <==> EvalNode(nodes, j, m);
      }
    }
  }

  lemma GateCompletable(cnf: Cnf, lo: nat, hi: nat, l1: int, l2: int)
    requires AllCompletable(cnf, lo, hi) && Bounded(cnf, hi) && 0 < lo <= hi
    requires l1 != 0 && l2 != 0 && Abs(l1) < hi && Abs(l2) < hi
    ensures AllCompletable(cnf + Gate(hi, l1, l2), lo, hi + 1) && Bounded(cnf + Gate(hi, l1, l2), hi + 1)
  {
    forall m {:trigger Completable(m, cnf + Gate(hi, l1, l2), lo, hi + 1)} ensures Completable(m, cnf + Gate(hi, l1, l2), lo, hi + 1) {
      CompleteGate(cnf, lo, hi, l1, l2, m);
    }
  }

  lemma CompleteGate(cnf: Cnf, lo: nat, hi: nat, l1: int, l2: int, m: Model)
    requires Completable(m, cnf, lo, hi) && Bounded(cnf, hi) && 0 < lo <= hi
    requires l1 != 0 && l2 != 0 && Abs(l1) < hi && Abs(l2) < hi
    ensures Completable(m, cnf + Gate(hi, l1, l2), lo, hi + 1)
  {
    var w :| Agree(m, w, lo, hi) && CnfSat(w, cnf);
    var w' := if True(w, l1) && True(w, l2) then w + {hi} else w - {hi};
    assert Agree(m, w', lo, hi + 1);
    SatBelow(w, w', cnf, hi);
    GateHolds(w', cnf, hi, l1, l2);
  }

  lemma SatBelow(m: Model, m': Model, cnf: Cnf, hi: nat)
    requires CnfSat(m, cnf) && Bounded(cnf, hi) && forall v: nat :: v < hi ==> (v in m <==> v in m')
    ensures CnfSat(m', cnf)
  {
    forall c | 0 <= c < |cnf| ensures SatClause(m', cnf[c]) {
      var i :| 0 <= i < |cnf[c]| && True(m, cnf[c][i]);
      assert True(m', cnf[c][i]);
    }
  }

  // -------------------------------------------------------- the algorithm

  /** The nodes without a variable. */
  ghost function Unnamed(nodes: seq<Node>, names: map<nat, int>): set<nat> { set k: nat | k < |nodes| && k !in names }

  ghost function NamedOnStack(pending: seq<nat>, names: map<nat, int>): nat {
    if pending == [] then 0
    else NamedOnStack(pending[..|pending| - 1], names) + if pending[|pending| - 1] in names then 1 else 0
  }

  function Top(pending: seq<nat>): nat { if pending == [] then 0 else pending[|pending| - 1] + 1 }

  /** Everything the conversion keeps while it runs. */
  ghost predicate Converting(nodes: seq<Node>, names: map<nat, int>, cnf: Cnf, lo: nat, hi: nat)
    requires NodesOk(nodes)
  {
    forall n {:trigger Unfold(n)} :: Unfold(n) ==>
      && 0 < lo <= hi && Names(nodes, names, hi) && Named(nodes, names, cnf) && AllCompletable(cnf, lo, hi) && Bounded(cnf, hi)
      && UsesOnly(cnf, Variables(nodes), lo, hi) && NamesOnly(names, Variables(nodes), lo, hi)
  }

  lemma ConvertStart(nodes: seq<Node>, names: map<nat, int>, lo: nat)
    requires NodesOk(nodes) && Fresh(nodes, lo)
    requires forall k: nat :: k in names <==> k < |nodes| && !nodes[k].IsAnd()
    requires forall k :: k in names ==> names[k] == nodes[k].edge1
    ensures Converting(nodes, names, [], lo, lo)
  {
    forall k | k in names ensures 0 < names[k] < lo && OldOrFresh(Variables(nodes), Abs(names[k]), lo, lo) {
      assert nodes[k].edge1 in Variables(nodes);
    }
    forall m ensures Completable(m, [], lo, lo) { assert Agree(m, m, lo, lo) && CnfSat(m, []); }
  }

  lemma ConvertStep(nodes: seq<Node>, names: map<nat, int>, cnf: Cnf, k: nat, lo: nat, hi: nat)
    requires NodesOk(nodes) && Converting(nodes, names, cnf, lo, hi)
    requires k < |nodes| && nodes[k].IsAnd() && nodes[k].edge1 / 2 - 1 in names && nodes[k].edge2 / 2 - 1 in names && k !in names
    ensures Converting(nodes, names[k := hi], cnf + Gate(hi, LitOf(names, nodes[k].edge1), LitOf(names, nodes[k].edge2)), lo, hi + 1)
  {
    assert Unfold(0);
    LitBounds(nodes, names, nodes[k].edge1, hi);
    LitBounds(nodes, names, nodes[k].edge2, hi);
    GateNamed(nodes, names, cnf, k, hi);
    GateUsesOnly(names, cnf, Variables(nodes), k, nodes[k].edge1, nodes[k].edge2, lo, hi);
    GateCompletable(cnf, lo, hi, LitOf(names, nodes[k].edge1), LitOf(names, nodes[k].edge2));
  }

  lemma UnnamedIsAnd(nodes: seq<Node>, names: map<nat, int>, cnf: Cnf, lo: nat, hi: nat, k: nat)
    requires NodesOk(nodes) && Converting(nodes, names, cnf, lo, hi) && k < |nodes| && k !in names
    ensures nodes[k].IsAnd()
  {
    assert Unfold(0);
  }

  lemma ConvertEnd(nodes: seq<Node>, names: map<nat, int>, cnf: Cnf, lo: nat, hi: nat, root: Edge)
    requires NodesOk(nodes) && Converting(nodes, names, cnf, lo, hi) && EdgeOk(nodes, root) && root >= 2 && root / 2 - 1 in names
    ensures Defines(nodes, root, cnf, LitOf(names, root), lo, hi) && LitOf(names, root) != 0
    ensures UsesOnly(cnf + [[LitOf(names, root)]], Variables(nodes), lo, hi)
  {
    assert Unfold(0);
    assert OldOrFresh(Variables(nodes), Abs(names[root / 2 - 1]), lo, hi);
    LitBounds(nodes, names, root, hi);
    forall m | CnfSat(m, cnf) ensures True(m, LitOf(names, root)) <==> Eval(nodes, root, m) {
      NameValue(nodes, names, cnf, root, m, hi);
    }
  }

  /** Clauses for an edge. For a constant, the empty clause or nothing; otherwise the
      last clause is a unit literal that stands for the edge. */
  method CreateCnf(nodes: seq<Node>, root: Edge, nextFree: nat) returns (kind: CnfType, cnf: Cnf, next: nat, ghost lit: int)
    requires NodesOk(nodes) && EdgeOk(nodes, root) && Fresh(nodes, nextFree)
    ensures next >= nextFree && (kind == Constant0 <==> root == FALSE) && (kind == Constant1 <==> root == TRUE)
    ensures kind == Constant0 ==> cnf == [[]]
    ensures kind == Constant1 ==> cnf == []
    ensures kind == Normal ==> lit != 0 && cnf != [] && cnf[|cnf| - 1] == [lit]
    ensures kind == Normal ==> Defines(nodes, root, cnf[..|cnf| - 1], lit, nextFree, next)
    ensures UsesOnly(cnf, Variables(nodes), nextFree, next)
  {
    cnf, next, lit := [], nextFree, 0;
    if IsConstant(root) {
      if root == FALSE { return Constant0, [[]], next, 0; }
      return Constant1, [], next, 0;
    }
    kind := Normal;
    var names := NameVariables(nodes);
    ConvertStart(nodes, names, nextFree);
    var index := root / 2 - 1;
    if !nodes[index].IsAnd() {
      var literal := nodes[index].edge1 * if IsNegated(root) then -1 else 1;
      ConvertEnd(nodes, names, [], nextFree, nextFree, root);
      lit := literal;
      assert [[literal]][..0] == [];
      return Normal, [[literal]], next, lit;
    }
    names, cnf, next := NamePending(nodes, names, index, nextFree);
    ConvertEnd(nodes, names, cnf, nextFree, next, root);
    lit := LitOf(names, root);
    ghost var gates := cnf;
    cnf := cnf + [[names[index] * if IsNegated(root) then -1 else 1]];
    assert cnf[..|cnf| - 1] == gates;
  }

  method NameVariables(nodes: seq<Node>) returns (names: map<nat, int>)
    ensures forall k: nat :: k in names <==> k < |nodes| && !nodes[k].IsAnd()
    ensures forall k :: k in names ==> names[k] == nodes[k].edge1
  {
    names := map[];
    for i := 0 to |nodes|
      invariant forall k: nat :: k in names <==> k < i && !nodes[k].IsAnd()
      invariant forall k :: k in names ==> names[k] == nodes[k].edge1
    {
      if !nodes[i].IsAnd() { names := names[i := nodes[i].edge1]; }
    }
  }

  /** The pending loop: names the node and everything below it. */
  method NamePending(nodes: seq<Node>, names0: map<nat, int>, index: nat, nextFree: nat) returns (names: map<nat, int>, cnf: Cnf, next: nat)
    requires NodesOk(nodes) && index < |nodes| && Converting(nodes, names0, [], nextFree, nextFree)
    ensures Converting(nodes, names, cnf, nextFree, next) && index in names && next >= nextFree
  {
    names, cnf, next := names0, [], nextFree;
    var pending: seq<nat> := [index];
    while pending != []
      invariant Converting(nodes, names, cnf, nextFree, next) && next >= nextFree
      invariant forall p :: 0 <= p < |pending| ==> pending[p] < |nodes|
      invariant index in names || (pending != [] && pending[0] == index)
      decreases |Unnamed(nodes, names)|, NamedOnStack(pending, names), Top(pending)
    {
      var k := pending[|pending| - 1];
      ghost var rest := pending[..|pending| - 1];
      if k in names {
        pending := pending[..|pending| - 1];
        continue;
      }
      UnnamedIsAnd(nodes, names, cnf, nextFree, next, k);
      var e1, e2 := nodes[k].edge1, nodes[k].edge2;
      if e1 / 2 - 1 !in names {
        pending := pending + [e1 / 2 - 1];
        assert pending[..|pending| - 1] == rest + [k];
      } else if e2 / 2 - 1 !in names {
        pending := pending + [e2 / 2 - 1];
        assert pending[..|pending| - 1] == rest + [k];
      } else {
        pending := pending[..|pending| - 1];
        ConvertStep(nodes, names, cnf, k, nextFree, next);
        NamedOne(nodes, names, k, next);
        cnf := cnf + Gate(next, LitOf(names, e1), LitOf(names, e2));
        names := names[k := next];
        next := next + 1;
      }
    }
  }

  lemma NamedOne(nodes: seq<Node>, names: map<nat, int>, k: nat, x: int)
    requires k < |nodes| && k !in names
    ensures |Unnamed(nodes, names[k := x])| < |Unnamed(nodes, names)|
  {
    assert Unnamed(nodes, names) == Unnamed(nodes, names[k := x]) + {k};
  }
}
