/** The state of the iterative depth-first search for equivalent literals and
    the invariant that every step of it keeps.

    Literals are white (never visited), gray (visited, their component still
    open) or black (their component is complete). 'nodes' lists the literals
    under visit, outermost first, and 'pos' their positions on the working
    stack; any other copy of a gray literal on the working stack is stale. */
module SearchState {
  import opened Literals
  import opened ImplicationGraph

  const TRAVERSED: nat := 0xffff_ffff

  /** The 'dfs' and 'reprs' tables, indexed by the code of a literal. */
  datatype Marks = Marks(idx: seq<nat>, min: seq<nat>, reprs: seq<int>) {
    function Idx(l: int): nat { if Vlit(l) < |idx| then idx[Vlit(l)] else 0 }
    function Min(l: int): nat { if Vlit(l) < |min| then min[Vlit(l)] else 0 }
    function Repr(l: int): int { if Vlit(l) < |reprs| then reprs[Vlit(l)] else 0 }
    predicate Gray(l: int) { Idx(l) > 0 && Min(l) != TRAVERSED }
    predicate Black(l: int) { Min(l) == TRAVERSED }
  }

  ghost function Opened(F: Formula, m: Marks): set<int> {
    set l | l in AllLits(F.maxVar) && m.Idx(l) > 0
  }

  ghost predicate Shape(F: Formula, m: Marks, count: nat) {
    && |m.idx| == |m.min| == |m.reprs| == 2 * F.maxVar + 2 && count < TRAVERSED
    && (forall l :: F.Lit(l) ==> m.Idx(l) <= count)
    && (forall l :: F.Lit(l) && m.Idx(l) > 0 ==> F.Active(l))
    && (forall l :: F.Lit(l) && m.Idx(l) == 0 ==> m.Min(l) == 0)
    && (forall l :: F.Lit(l) && m.Gray(l) ==> 1 <= m.Min(l) <= m.Idx(l))
    && (forall l :: F.Lit(l) && !m.Black(l) ==> m.Repr(l) == 0)
  }

  /** The visit numbers handed out are exactly as many as literals visited. */
  ghost predicate Counted(F: Formula, m: Marks, count: nat) {
    |Opened(F, m)| == count
  }

  /** 'scc' holds exactly the gray literals, in the order of their visits. */
  ghost predicate Component(F: Formula, m: Marks, scc: seq<int>) {
    && (forall i :: 0 <= i < |scc| ==> F.Lit(scc[i]) && m.Gray(scc[i]))
    && (forall l {:trigger l in scc} :: F.Lit(l) && m.Gray(l) ==> l in scc)
    && (forall i, j :: 0 <= i < j < |scc| ==> m.Idx(scc[i]) < m.Idx(scc[j]))
  }

  ghost predicate Nodes(F: Formula, m: Marks, nodes: seq<int>, scc: seq<int>) {
    && (forall k :: 0 <= k < |nodes| ==> F.Lit(nodes[k]) && m.Gray(nodes[k]))
    && (forall k, j :: 0 <= k < j < |nodes| ==> m.Idx(nodes[k]) < m.Idx(nodes[j]))
    && (if nodes == [] then scc == [] else scc != [] && scc[0] == nodes[0])
  }

  ghost predicate Stack(F: Formula, work: seq<int>, pos: seq<nat>, nodes: seq<int>) {
    && (forall r :: 0 <= r < |work| ==> F.Lit(work[r]) && F.Active(work[r]))
    && |pos| == |nodes|
    && (forall k :: 0 <= k < |pos| ==> pos[k] < |work| && work[pos[k]] == nodes[k])
    && (forall k, j :: 0 <= k < j < |pos| ==> pos[k] < pos[j])
    && (if pos == [] then |work| <= 1 else pos[0] == 0)
    && (forall k, r :: 0 <= k < |pos| && pos[k] < r < |work| ==> work[r] != nodes[k])
  }

  /** Position r lies above the k-th literal under visit, but not above the next one. */
  predicate Owned(pos: seq<nat>, k: nat, r: nat) {
    k < |pos| && pos[k] < r && (k + 1 < |pos| ==> r <= pos[k + 1])
  }

  /** Between two literals under visit lie only children of the outer one. */
  ghost predicate Pushed(F: Formula, work: seq<int>, pos: seq<nat>, nodes: seq<int>)
    requires |pos| == |nodes|
  {
    forall k: nat, r: nat :: Owned(pos, k, r) && r < |work| ==> F.Edge(nodes[k], work[r])
  }

  predicate Above(work: seq<int>, from: nat, l: int) { exists r :: from < r < |work| && work[r] == l }

  /** Every child of a literal under visit was visited or is still waiting. */
  ghost predicate Waiting(F: Formula, m: Marks, work: seq<int>, pos: seq<nat>, nodes: seq<int>)
    requires |pos| == |nodes|
  {
    forall k, c :: 0 <= k < |pos| && F.Edge(nodes[k], c) ==> m.Idx(c) > 0 || Above(work, pos[k], c)
  }

  /** Visited, component open, and no longer under visit. */
  predicate Done(m: Marks, nodes: seq<int>, l: int) { m.Gray(l) && l !in nodes }

  ghost predicate LowPoint(F: Formula, m: Marks, u: int, x: int) {
    F.Lit(x) && m.Gray(x) && m.Idx(x) == m.Min(u) && F.Reach(u, x)
  }

  ghost predicate HasLowPoint(F: Formula, m: Marks, u: int) { exists x :: LowPoint(F, m, u, x) }

  /** 'min' is the index of an open literal that is reached. */
  ghost predicate Low(F: Formula, m: Marks) {
    forall u {:trigger HasLowPoint(F, m, u)} :: F.Lit(u) && m.Gray(u) ==> HasLowPoint(F, m, u)
  }

  /** Literals no longer under visit lead strictly down, and none of their
      children is white. */
  ghost predicate Descends(F: Formula, m: Marks, nodes: seq<int>) {
    forall u :: F.Lit(u) && Done(m, nodes, u) ==> m.Min(u) < m.Idx(u) && ChildrenSeen(F, m, u)
  }

  ghost predicate ChildrenSeen(F: Formula, m: Marks, u: int) {
    forall c :: F.Edge(u, c) ==> m.Idx(c) > 0
  }

  /** A literal under visit reaches every open literal visited after it. */
  ghost predicate Tree(F: Formula, m: Marks, nodes: seq<int>) {
    forall k, u :: 0 <= k < |nodes| && F.Lit(u) && m.Gray(u) && m.Idx(nodes[k]) <= m.Idx(u)
      ==> F.Reach(nodes[k], u)
  }

  predicate BeforeNext(m: Marks, nodes: seq<int>, k: nat, l: int) {
    k + 1 < |nodes| ==> m.Idx(l) < m.Idx(nodes[k + 1])
  }

  ghost predicate Exit(F: Formula, m: Marks, nodes: seq<int>, k: nat, x: int, w: int)
    requires k < |nodes|
  {
    F.Edge(nodes[k], w) && m.Gray(w) && m.Min(w) <= m.Idx(x) && BeforeNext(m, nodes, k, w)
  }

  /** u belongs to the k-th literal under visit and has an edge to an open
      literal that was visited before that one. */
  ghost predicate Leaves(F: Formula, m: Marks, nodes: seq<int>, k: nat, u: int, x: int)
    requires k < |nodes|
  {
    && F.Lit(u) && Done(m, nodes, u) && F.Edge(u, x) && m.Gray(x)
    && m.Idx(x) < m.Idx(nodes[k]) <= m.Idx(u) && BeforeNext(m, nodes, k, u)
  }

  /** Edges that leave the part below a literal under visit are already known
      to one of its children. */
  ghost predicate Exits(F: Formula, m: Marks, nodes: seq<int>) {
    forall k, u, x :: 0 <= k < |nodes| && Leaves(F, m, nodes, k, u, x)
      ==> exists w :: Exit(F, m, nodes, k, x, w)
  }

  /** r is the literal that u is to be replaced by: u itself when frozen, and
      otherwise a literal of least variable in u's component. */
  ghost predicate IsRepr(F: Formula, u: int, r: int) {
    if F.Frozen(u) then r == u
    else F.Mutual(u, r) && forall y :: F.Mutual(u, y) ==> Abs(r) <= Abs(y)
  }

  /** Black literals form whole, consistent, correctly represented components. */
  ghost predicate Complete(F: Formula, m: Marks) {
    && (forall u, c :: F.Lit(u) && m.Black(u) && F.Edge(u, c) ==> m.Black(c))
    && (forall u :: F.Lit(u) && m.Black(u) ==> IsRepr(F, u, m.Repr(u)) && !F.Mutual(u, -u))
  }

  /** Asks for the parts of a folded condition. */
  ghost predicate Unfold(n: int) { true }

  /** Everything but the working stack. The quantifier keeps the condition
      folded: methods and lemmas that only pass it on do not see its parts,
      those that need them say 'Unfold'. */
  ghost predicate Core(F: Formula, m: Marks, count: nat, scc: seq<int>, nodes: seq<int>) {
    forall n {:trigger Unfold(n)} :: Unfold(n) ==>
      && Shape(F, m, count) && Counted(F, m, count) && Component(F, m, scc) && Nodes(F, m, nodes, scc)
      && Low(F, m) && Descends(F, m, nodes) && Tree(F, m, nodes) && Exits(F, m, nodes) && Complete(F, m)
  }

  /** The working stack, folded in the same way. */
  ghost predicate Waits(F: Formula, m: Marks, work: seq<int>, pos: seq<nat>, nodes: seq<int>) {
    forall n {:trigger Unfold(n)} :: Unfold(n) ==>
      Stack(F, work, pos, nodes) && Pushed(F, work, pos, nodes) && Waiting(F, m, work, pos, nodes)
  }

  lemma EdgeIsLit(F: Formula, p: int, c: int)
    requires F.Valid() && F.Edge(p, c)
    ensures F.Lit(p) && F.Lit(c)
  {
    assert F.HasBinary(-p, c) && F.HasBinary(c, -p);
  }
}
