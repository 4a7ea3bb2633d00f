/** And-inverter graphs with structural hashing. An edge is twice the node number
    plus a negation bit; the edges 0 and 1 are the constants true and false. */
module AndInverterGraphs {
  import opened Literals

  type Edge = nat

  const TRUE: Edge := 0
  const FALSE: Edge := 1

  function Not(e: Edge): Edge { if e % 2 == 0 then e + 1 else e - 1 }
  predicate IsNegated(e: Edge) { e % 2 == 1 }
  predicate IsConstant(e: Edge) { e / 2 == 0 }

  /** A variable node keeps the variable in the first edge and 0 in the second. */
  datatype Node = Node(edge1: nat, edge2: Edge) {
    predicate IsAnd() { edge2 != 0 }
  }

  // -------------------------------------------------------------- meaning

  predicate EdgeOk(nodes: seq<Node>, e: Edge) { e / 2 <= |nodes| }

  /** And-nodes read earlier nodes, never constants. */
  ghost predicate NodesOk(nodes: seq<Node>) {
    forall k :: 0 <= k < |nodes| ==>
      if nodes[k].IsAnd() then 2 <= nodes[k].edge1 < 2 * (k + 1) && 2 <= nodes[k].edge2 < 2 * (k + 1)
      else nodes[k].edge1 > 0
  }

  ghost predicate Eval(nodes: seq<Node>, e: Edge, m: Model)
    requires NodesOk(nodes) && EdgeOk(nodes, e)
    decreases e / 2
  {
    if IsConstant(e) then e == TRUE else EvalNode(nodes, e / 2 - 1, m) != IsNegated(e)
  }

  ghost predicate EvalNode(nodes: seq<Node>, k: nat, m: Model)
    requires NodesOk(nodes) && k < |nodes|
    decreases k + 1, 0
  {
    if nodes[k].IsAnd() then
      (EvalNode(nodes, nodes[k].edge1 / 2 - 1, m) != IsNegated(nodes[k].edge1))
      && (EvalNode(nodes, nodes[k].edge2 / 2 - 1, m) != IsNegated(nodes[k].edge2))
    else nodes[k].edge1 in m
  }

  ghost function Variables(nodes: seq<Node>): set<nat> { set k | 0 <= k < |nodes| && !nodes[k].IsAnd() :: nodes[k].edge1 }

  /** New nodes do not change what the old ones mean. */
  lemma {:induction false} NodeStable(nodes: seq<Node>, more: seq<Node>, k: nat, m: Model)
    requires NodesOk(nodes) && NodesOk(more) && nodes <= more && k < |nodes|
    ensures EvalNode(more, k, m) == EvalNode(nodes, k, m)
    decreases k
  {
    if nodes[k].IsAnd() {
      NodeStable(nodes, more, nodes[k].edge1 / 2 - 1, m);
      NodeStable(nodes, more, nodes[k].edge2 / 2 - 1, m);
    }
  }

  lemma EvalStable(nodes: seq<Node>, more: seq<Node>, e: Edge, m: Model)
    requires NodesOk(nodes) && NodesOk(more) && nodes <= more && EdgeOk(nodes, e)
    ensures EdgeOk(more, e) && Eval(more, e, m) == Eval(nodes, e, m)
  {
    if !IsConstant(e) { NodeStable(nodes, more, e / 2 - 1, m); }
  }

  lemma EvalNot(nodes: seq<Node>, e: Edge, m: Model)
    requires NodesOk(nodes) && EdgeOk(nodes, e)
    ensures EdgeOk(nodes, Not(e)) && Eval(nodes, Not(e), m) == !Eval(nodes, e, m)
  {
  }

  /** The value depends on the variables of the graph only. */
  lemma {:induction false} EvalLocal(nodes: seq<Node>, k: nat, m: Model, m': Model)
    requires NodesOk(nodes) && k < |nodes| && forall v :: v in Variables(nodes) ==> (v in m <==> v in m')
    ensures EvalNode(nodes, k, m) == EvalNode(nodes, k, m')
    decreases k
  {
    if nodes[k].IsAnd() {
      EvalLocal(nodes, nodes[k].edge1 / 2 - 1, m, m');
      EvalLocal(nodes, nodes[k].edge2 / 2 - 1, m, m');
    } else {
      assert nodes[k].edge1 in Variables(nodes);
    }
  }

  // ------------------------------------------------------------ building

  function Sorted(e1: Edge, e2: Edge): (Edge, Edge) { if e1 > e2 then (e2, e1) else (e1, e2) }

  predicate Maps<K>(table: map<K, Edge>, key: K, e: Edge) { key in table && table[key] == e }

  ghost predicate VarsOk(nodes: seq<Node>, vars: map<nat, Edge>) {
    forall v :: v in vars ==> EdgeFor(nodes, vars[v], false) && nodes[vars[v] / 2 - 1].edge1 == v
  }

  ghost predicate AndsOk(nodes: seq<Node>, ands: map<(Edge, Edge), Edge>) {
    forall p :: p in ands ==> EdgeFor(nodes, ands[p], true) && Sorted(nodes[ands[p] / 2 - 1].edge1, nodes[ands[p] / 2 - 1].edge2) == p
  }

  ghost predicate NodesListed(nodes: seq<Node>, vars: map<nat, Edge>, ands: map<(Edge, Edge), Edge>) {
    forall k :: 0 <= k < |nodes| ==>
      if nodes[k].IsAnd() then Maps(ands, Sorted(nodes[k].edge1, nodes[k].edge2), 2 * (k + 1))
      else Maps(vars, nodes[k].edge1, 2 * (k + 1))
  }

  /** Each variable and each pair of edges has exactly one node, and the tables know
      it. Kept folded; lemmas that need a part say 'Unfold'. */
  ghost predicate Hashed(nodes: seq<Node>, vars: map<nat, Edge>, ands: map<(Edge, Edge), Edge>) {
    && (forall n {:trigger Unfold(n)} :: Unfold(n) && n == 0 ==> VarsOk(nodes, vars))
    && (forall n {:trigger Unfold(n)} :: Unfold(n) && n == 1 ==> AndsOk(nodes, ands))
    && (forall n {:trigger Unfold(n)} :: Unfold(n) && n == 2 ==> NodesListed(nodes, vars, ands))
  }

  ghost predicate Unfold(n: int) { true }

  lemma VarKnown(nodes: seq<Node>, vars: map<nat, Edge>, ands: map<(Edge, Edge), Edge>, v: nat)
    requires Hashed(nodes, vars, ands) && v in vars
    ensures EdgeFor(nodes, vars[v], false) && nodes[vars[v] / 2 - 1].edge1 == v
  {
    assert Unfold(0);
  }

  lemma AndKnown(nodes: seq<Node>, vars: map<nat, Edge>, ands: map<(Edge, Edge), Edge>, p: (Edge, Edge))
    requires Hashed(nodes, vars, ands) && p in ands
    ensures EdgeFor(nodes, ands[p], true) && Sorted(nodes[ands[p] / 2 - 1].edge1, nodes[ands[p] / 2 - 1].edge2) == p
  {
    assert Unfold(1);
  }

  lemma VarAdded(nodes: seq<Node>, vars: map<nat, Edge>, ands: map<(Edge, Edge), Edge>, v: nat)
    requires Hashed(nodes, vars, ands) && v !in vars
    ensures Hashed(nodes + [Node(v, 0)], vars[v := 2 * |nodes| + 2], ands)
  {
    var more, vars' := nodes + [Node(v, 0)], vars[v := 2 * |nodes| + 2];
    assert VarsOk(more, vars') by { assert Unfold(0); }
    assert AndsOk(more, ands) by { assert Unfold(1); }
    assert NodesListed(more, vars', ands) by { assert Unfold(2); }
  }

  lemma AndAdded(nodes: seq<Node>, vars: map<nat, Edge>, ands: map<(Edge, Edge), Edge>, e1: Edge, e2: Edge)
    requires Hashed(nodes, vars, ands) && Sorted(e1, e2) !in ands && e2 != 0
    ensures Hashed(nodes + [Node(e1, e2)], vars, ands[Sorted(e1, e2) := 2 * |nodes| + 2])
  {
    var more, ands' := nodes + [Node(e1, e2)], ands[Sorted(e1, e2) := 2 * |nodes| + 2];
    assert VarsOk(more, vars) by { assert Unfold(0); }
    assert AndsOk(more, ands') by { assert Unfold(1); }
    assert NodesListed(more, vars, ands') by { assert Unfold(2); }
  }

  /** Structural hashing: no two nodes are the same. */
  lemma NodesAreUnique(nodes: seq<Node>, vars: map<nat, Edge>, ands: map<(Edge, Edge), Edge>, i: nat, j: nat)
    requires Hashed(nodes, vars, ands) && i < j < |nodes| && nodes[i].IsAnd() == nodes[j].IsAnd()
    ensures if nodes[i].IsAnd() then Sorted(nodes[i].edge1, nodes[i].edge2) != Sorted(nodes[j].edge1, nodes[j].edge2)
            else nodes[i].edge1 != nodes[j].edge1
  {
    assert Unfold(2);
  }

  /** A positive edge to a node of the kind. */
  predicate EdgeFor(nodes: seq<Node>, e: Edge, and: bool) {
    e % 2 == 0 && 2 <= e <= 2 * |nodes| && nodes[e / 2 - 1].IsAnd() == and
  }

  class Aig {
    var nodes: seq<Node>
    var varHashMap: map<nat, Edge>
    var andHashMap: map<(Edge, Edge), Edge>

    ghost predicate Valid()
      reads this
    {
      NodesOk(nodes) && Hashed(nodes, varHashMap, andHashMap)
    }

    constructor ()
      ensures Valid() && nodes == []
    {
      nodes, varHashMap, andHashMap := [], map[], map[];
    }

    method CreateVar(variable: nat) returns (e: Edge)
      requires Valid() && variable > 0
      modifies this
      ensures Valid() && old(nodes) <= nodes && EdgeOk(nodes, e) && Variables(nodes) == Variables(old(nodes)) + {variable}
      ensures forall m :: Eval(nodes, e, m) <==> variable in m
    {
      if variable in varHashMap {
        e := varHashMap[variable];
        VarKnown(nodes, varHashMap, andHashMap, variable);
        VarNodeValue(nodes, e / 2 - 1);
        return;
      }
      VarAdded(nodes, varHashMap, andHashMap, variable);
      VariablesMore(nodes, Node(variable, 0));
      nodes := nodes + [Node(variable, 0)];
      varHashMap := varHashMap[variable := 2 * |nodes|];
      e := 2 * |nodes|;
      VarNodeValue(nodes, |nodes| - 1);
    }

    method CreateLiteral(literal: int) returns (e: Edge)
      requires Valid() && literal != 0
      modifies this
      ensures Valid() && old(nodes) <= nodes && EdgeOk(nodes, e) && Variables(nodes) == Variables(old(nodes)) + {Abs(literal)}
      ensures forall m :: Eval(nodes, e, m) <==> True(m, literal)
    {
      e := CreateVar(Abs(literal));
      if literal < 0 {
        forall m ensures Eval(nodes, Not(e), m) <==> True(m, literal) { EvalNot(nodes, e, m); }
        e := Not(e);
      }
    }

    /** Conjunction with simplification and structural hashing. */
    method CreateAnd(e1: Edge, e2: Edge) returns (e: Edge)
      requires Valid() && EdgeOk(nodes, e1) && EdgeOk(nodes, e2)
      modifies this
      ensures Valid() && old(nodes) <= nodes && EdgeOk(nodes, e) && Variables(nodes) == Variables(old(nodes))
      ensures forall m :: Eval(nodes, e, m) <==> Eval(old(nodes), e1, m) && Eval(old(nodes), e2, m)
    {
      if e1 == FALSE || e2 == FALSE { return FALSE; }
      if e1 == TRUE { return e2; }
      if e2 == TRUE { return e1; }
      if e1 == e2 { return e1; }
      if e1 == Not(e2) { return FALSE; }
      var pair := Sorted(e1, e2);
      if pair in andHashMap {
        e := andHashMap[pair];
        AndKnown(nodes, varHashMap, andHashMap, pair);
        AndNodeValue(nodes, e / 2 - 1, e1, e2);
        return;
      }
      AndAdded(nodes, varHashMap, andHashMap, e1, e2);
      VariablesMore(nodes, Node(e1, e2));
      nodes := nodes + [Node(e1, e2)];
      andHashMap := andHashMap[pair := 2 * |nodes|];
      e := 2 * |nodes|;
      AndNodeAdded(old(nodes), nodes, e1, e2);
    }

    method CreateOr(e1: Edge, e2: Edge) returns (e: Edge)
      requires Valid() && EdgeOk(nodes, e1) && EdgeOk(nodes, e2)
      modifies this
      ensures Valid() && old(nodes) <= nodes && EdgeOk(nodes, e) && Variables(nodes) == Variables(old(nodes))
      ensures forall m :: Eval(nodes, e, m) <==> Eval(old(nodes), e1, m) || Eval(old(nodes), e2, m)
    {
      var both := CreateAnd(Not(e1), Not(e2));
      e := Not(both);
      forall m ensures Eval(nodes, e, m) <==> Eval(old(nodes), e1, m) || Eval(old(nodes), e2, m) {
        EvalNot(old(nodes), e1, m);
        EvalNot(old(nodes), e2, m);
        EvalNot(nodes, both, m);
      }
    }

    /** Conjunction of a list by repeated halving. */
    method CreateAndAll(edges0: seq<Edge>) returns (e: Edge)
      requires Valid() && EdgesOk(nodes, edges0)
      modifies this
      ensures Valid() && old(nodes) <= nodes && EdgeOk(nodes, e) && Variables(nodes) == Variables(old(nodes))
      ensures forall m :: Eval(nodes, e, m) <==> EvalAll(old(nodes), edges0, m)
    {
      if edges0 == [] { return TRUE; }
      var edges := edges0;
      while |edges| > 1
        invariant Valid() && old(nodes) <= nodes && Variables(nodes) == Variables(old(nodes))
        invariant |edges| > 0 && EdgesOk(nodes, edges) && SameConjunction(old(nodes), edges0, nodes, edges)
        decreases |edges|
      {
        ghost var before, halved := nodes, edges;
        edges := Halve(edges);
        SameConjunctionTrans(old(nodes), edges0, before, halved, nodes, edges);
      }
      e := edges[0];
      forall m ensures Eval(nodes, e, m) <==> EvalAll(old(nodes), edges0, m) {
        assert EvalAll(nodes, edges, m) <==> EvalAll(old(nodes), edges0, m);
        assert Eval(nodes, edges[0], m) == EvalAll(nodes, edges, m);
      }
    }

    /** Joins neighbours; an odd last edge is kept. */
    method Halve(edges: seq<Edge>) returns (joined: seq<Edge>)
      requires Valid() && EdgesOk(nodes, edges) && |edges| > 1
      modifies this
      ensures Valid() && old(nodes) <= nodes && Variables(nodes) == Variables(old(nodes))
      ensures 0 < |joined| < |edges| && EdgesOk(nodes, joined) && SameConjunction(old(nodes), edges, nodes, joined)
    {
      joined := [];
      var index: nat := 0;
      assert edges[..0] == [];
      while index + 1 < |edges|
        invariant Valid() && old(nodes) <= nodes && Variables(nodes) == Variables(old(nodes))
        invariant index <= |edges| && index == 2 * |joined| && EdgesOk(nodes, joined)
        invariant SameConjunction(old(nodes), edges[..index], nodes, joined)
      {
        ghost var before := nodes;
        EdgesStable(old(nodes), nodes, edges);
        var both := CreateAnd(edges[index], edges[index + 1]);
        JoinTwo(old(nodes), edges, index, before, nodes, joined, both);
        joined := joined + [both];
        index := index + 2;
      }
      if |edges| % 2 == 1 {
        EdgesStable(old(nodes), nodes, edges);
        JoinLast(old(nodes), edges, nodes, joined);
        joined := joined + [edges[|edges| - 1]];
      } else {
        assert edges[..index] == edges;
      }
    }

    method CreateOrAll(edges: seq<Edge>) returns (e: Edge)
      requires Valid() && EdgesOk(nodes, edges)
      modifies this
      ensures Valid() && old(nodes) <= nodes && EdgeOk(nodes, e) && Variables(nodes) == Variables(old(nodes))
      ensures forall m :: Eval(nodes, e, m) <==> EvalAny(old(nodes), edges, m)
    {
      var negated := [];
      for i := 0 to |edges|
        invariant |negated| == i && forall k :: 0 <= k < i ==> negated[k] == Not(edges[k])
      {
        negated := negated + [Not(edges[i])];
      }
      assert EdgesOk(nodes, negated);
      var all := CreateAndAll(negated);
      e := Not(all);
      forall m ensures Eval(nodes, e, m) <==> EvalAny(old(nodes), edges, m) {
        NegatedAll(old(nodes), edges, negated, m);
        EvalNot(nodes, all, m);
      }
    }
  }

  // ---------------------------------------------------- lemmas for building

  ghost predicate EdgesOk(nodes: seq<Node>, edges: seq<Edge>) { forall i :: 0 <= i < |edges| ==> EdgeOk(nodes, edges[i]) }

  ghost predicate EvalAll(nodes: seq<Node>, edges: seq<Edge>, m: Model)
    requires NodesOk(nodes) && EdgesOk(nodes, edges)
  {
    forall i :: 0 <= i < |edges| ==> Eval(nodes, edges[i], m)
  }

  ghost predicate EvalAny(nodes: seq<Node>, edges: seq<Edge>, m: Model)
    requires NodesOk(nodes) && EdgesOk(nodes, edges)
  {
    exists i :: 0 <= i < |edges| && Eval(nodes, edges[i], m)
  }

  lemma VariablesMore(nodes: seq<Node>, n: Node)
    ensures Variables(nodes + [n]) == Variables(nodes) + if n.IsAnd() then {} else {n.edge1}
  {
    var more := nodes + [n];
    forall v | v in Variables(nodes) ensures v in Variables(more) {
      var k :| 0 <= k < |nodes| && !nodes[k].IsAnd() && nodes[k].edge1 == v;
      assert more[k] == nodes[k];
    }
    assert more[|nodes|] == n;
  }

  lemma VarNodeValue(nodes: seq<Node>, k: nat)
    requires NodesOk(nodes) && k < |nodes| && !nodes[k].IsAnd()
    ensures nodes[k].edge1 in Variables(nodes)
    ensures forall m :: Eval(nodes, 2 * (k + 1), m) <==> nodes[k].edge1 in m
  {
  }

  lemma AndNodeValue(nodes: seq<Node>, k: nat, e1: Edge, e2: Edge)
    requires NodesOk(nodes) && k < |nodes| && nodes[k].IsAnd() && Sorted(nodes[k].edge1, nodes[k].edge2) == Sorted(e1, e2)
    ensures EdgeOk(nodes, e1) && EdgeOk(nodes, e2)
    ensures forall m :: EvalNode(nodes, k, m) <==> Eval(nodes, e1, m) && Eval(nodes, e2, m)
  {
  }

  lemma AndNodeAdded(nodes: seq<Node>, more: seq<Node>, e1: Edge, e2: Edge)
    requires NodesOk(nodes) && NodesOk(more) && more == nodes + [Node(e1, e2)] && e1 >= 2 && e2 >= 2
    requires EdgeOk(nodes, e1) && EdgeOk(nodes, e2)
    ensures forall m :: Eval(more, 2 * |more|, m) <==> Eval(nodes, e1, m) && Eval(nodes, e2, m)
  {
    forall m ensures Eval(more, 2 * |more|, m) <==> Eval(nodes, e1, m) && Eval(nodes, e2, m) {
      AndNodeValue(more, |nodes|, e1, e2);
      EvalStable(nodes, more, e1, m);
      EvalStable(nodes, more, e2, m);
      assert EvalNode(more, |nodes|, m) <==> Eval(more, e1, m) && Eval(more, e2, m);
    }
  }

  /** Two lists of edges have the same conjunction. */
  ghost predicate SameConjunction(nodes: seq<Node>, a: seq<Edge>, more: seq<Node>, b: seq<Edge>)
    requires NodesOk(nodes) && NodesOk(more) && EdgesOk(nodes, a) && EdgesOk(more, b)
  {
    forall m {:trigger EvalAll(nodes, a, m)} {:trigger EvalAll(more, b, m)} :: EvalAll(nodes, a, m) <==> EvalAll(more, b, m)
  }

  lemma SameConjunctionTrans(n1: seq<Node>, a: seq<Edge>, n2: seq<Node>, b: seq<Edge>, n3: seq<Node>, c: seq<Edge>)
    requires NodesOk(n1) && NodesOk(n2) && NodesOk(n3) && EdgesOk(n1, a) && EdgesOk(n2, b) && EdgesOk(n3, c)
    requires SameConjunction(n1, a, n2, b) && SameConjunction(n2, b, n3, c)
    ensures SameConjunction(n1, a, n3, c)
  {
    forall m ensures EvalAll(n1, a, m) <==> EvalAll(n3, c, m) { assert EvalAll(n1, a, m) <==> EvalAll(n2, b, m); }
  }

  lemma EdgesStable(nodes: seq<Node>, more: seq<Node>, edges: seq<Edge>)
    requires nodes <= more && EdgesOk(nodes, edges)
    ensures EdgesOk(more, edges)
  {
  }

  lemma AllMore(nodes: seq<Node>, edges: seq<Edge>, e: Edge, m: Model)
    requires NodesOk(nodes) && EdgesOk(nodes, edges) && EdgeOk(nodes, e)
    ensures EdgesOk(nodes, edges + [e]) && (EvalAll(nodes, edges + [e], m) <==> EvalAll(nodes, edges, m) && Eval(nodes, e, m))
  {
    var all := edges + [e];
    if EvalAll(nodes, all, m) {
      assert all[|edges|] == e;
      forall i | 0 <= i < |edges| ensures Eval(nodes, edges[i], m) { assert all[i] == edges[i]; }
    }
  }

  lemma AllStable(nodes: seq<Node>, more: seq<Node>, edges: seq<Edge>, m: Model)
    requires NodesOk(nodes) && NodesOk(more) && nodes <= more && EdgesOk(nodes, edges)
    ensures EdgesOk(more, edges) && (EvalAll(more, edges, m) <==> EvalAll(nodes, edges, m))
  {
    forall i | 0 <= i < |edges| ensures Eval(more, edges[i], m) == Eval(nodes, edges[i], m) { EvalStable(nodes, more, edges[i], m); }
  }

  lemma JoinTwo(n0: seq<Node>, edges: seq<Edge>, index: nat, before: seq<Node>, now: seq<Node>, joined: seq<Edge>, both: Edge)
    requires NodesOk(n0) && NodesOk(before) && NodesOk(now) && n0 <= before <= now
    requires EdgesOk(n0, edges) && index + 1 < |edges| && EdgesOk(before, joined) && EdgeOk(now, both)
    requires EdgesOk(n0, edges[..index]) && SameConjunction(n0, edges[..index], before, joined)
    requires EdgeOk(before, edges[index]) && EdgeOk(before, edges[index + 1])
    requires forall m :: Eval(now, both, m) <==> Eval(before, edges[index], m) && Eval(before, edges[index + 1], m)
    ensures EdgesOk(n0, edges[..index + 2]) && EdgesOk(now, joined + [both])
    ensures SameConjunction(n0, edges[..index + 2], now, joined + [both])
  {
    assert edges[..index + 2] == edges[..index] + [edges[index]] + [edges[index + 1]];
    forall m ensures EvalAll(n0, edges[..index + 2], m) <==> EvalAll(now, joined + [both], m) {
      AllMore(n0, edges[..index], edges[index], m);
      AllMore(n0, edges[..index] + [edges[index]], edges[index + 1], m);
      EvalStable(n0, before, edges[index], m);
      EvalStable(n0, before, edges[index + 1], m);
      AllStable(before, now, joined, m);
      AllMore(now, joined, both, m);
      assert EvalAll(n0, edges[..index], m) <==> EvalAll(before, joined, m);
    }
  }

  lemma JoinLast(n0: seq<Node>, edges: seq<Edge>, now: seq<Node>, joined: seq<Edge>)
    requires NodesOk(n0) && NodesOk(now) && n0 <= now && EdgesOk(n0, edges) && |edges| > 0 && EdgesOk(now, joined)
    requires EdgesOk(n0, edges[..|edges| - 1]) && SameConjunction(n0, edges[..|edges| - 1], now, joined)
    ensures EdgesOk(now, joined + [edges[|edges| - 1]]) && SameConjunction(n0, edges, now, joined + [edges[|edges| - 1]])
  {
    var n := |edges| - 1;
    assert edges == edges[..n] + [edges[n]];
    forall m ensures EvalAll(n0, edges, m) <==> EvalAll(now, joined + [edges[n]], m) {
      AllMore(n0, edges[..n], edges[n], m);
      EvalStable(n0, now, edges[n], m);
      AllMore(now, joined, edges[n], m);
      assert EvalAll(n0, edges[..n], m) <==> EvalAll(now, joined, m);
    }
  }

  lemma NegatedAll(nodes: seq<Node>, edges: seq<Edge>, negated: seq<Edge>, m: Model)
    requires NodesOk(nodes) && EdgesOk(nodes, edges) && EdgesOk(nodes, negated) && |negated| == |edges|
    requires forall k :: 0 <= k < |edges| ==> negated[k] == Not(edges[k])
    ensures EvalAll(nodes, negated, m) <==> !EvalAny(nodes, edges, m)
  {
    forall k | 0 <= k < |edges| ensures Eval(nodes, negated[k], m) == !Eval(nodes, edges[k], m) {
      EvalNot(nodes, edges[k], m);
    }
  }
}
