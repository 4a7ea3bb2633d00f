/** The search invariant as one condition on a whole state, and the steps of
    the search as moves between such states. */
module SearchInvariant {
  import opened Literals
  import opened Cardinality
  import opened ImplicationGraph
  import opened SearchState
  import opened SearchSteps

  /** The tables, the visit count and the stacks, with the literals under visit. */
  datatype State = State(m: Marks, count: nat, scc: seq<int>, nodes: seq<int>, work: seq<int>, pos: seq<nat>) {
    function Top(): int
      requires work != []
    {
      work[|work| - 1]
    }
  }

  /** The invariant of the search. */
  ghost predicate Inv(F: Formula, s: State) {
    Core(F, s.m, s.count, s.scc, s.nodes) && Waits(F, s.m, s.work, s.pos, s.nodes)
  }

  lemma NodesOf(F: Formula, m: Marks, count: nat, scc: seq<int>, nodes: seq<int>)
    requires Core(F, m, count, scc, nodes)
    ensures Nodes(F, m, nodes, scc)
  {
    assert Unfold(0);
  }

  lemma ComponentOf(F: Formula, m: Marks, count: nat, scc: seq<int>, nodes: seq<int>)
    requires Core(F, m, count, scc, nodes)
    ensures Component(F, m, scc)
  {
    assert Unfold(0);
  }

  lemma StackOf(F: Formula, m: Marks, work: seq<int>, pos: seq<nat>, nodes: seq<int>)
    requires Waits(F, m, work, pos, nodes)
    ensures Stack(F, work, pos, nodes) && Pushed(F, work, pos, nodes) && Waiting(F, m, work, pos, nodes)
  {
    assert Unfold(0);
  }

  ghost predicate Entry(F: Formula, s: State) {
    s.work != [] && s.nodes != [] && s.pos != [] && s.nodes[|s.nodes| - 1] == s.Top()
    && IsEntry(F, s.m, s.count, s.scc, s.nodes)
  }

  ghost function AfterVisit(F: Formula, s: State, m: Marks): State
    requires s.work != [] && -s.Top() in F.watches
  {
    State(m, s.count + 1, s.scc + [s.Top()], s.nodes + [s.Top()],
          s.work + Unvisited(F, m, F.watches[-s.Top()]), s.pos + [|s.work| - 1])
  }

  ghost function AfterPop(s: State): State
    requires s.work != []
  {
    s.(work := s.work[..|s.work| - 1])
  }

  ghost function AfterSettle(s: State, m: Marks): State
    requires s.work != []
  {
    if s.Top() in s.nodes && s.pos != [] then
      s.(m := m, work := s.work[..|s.work| - 1], nodes := s.nodes[..|s.nodes| - 1], pos := s.pos[..|s.pos| - 1])
    else
      s.(m := m, work := s.work[..|s.work| - 1])
  }

  ghost function AfterClose(s: State, m: Marks, bottom: nat): State
    requires s.work != [] && s.nodes != [] && s.pos != [] && bottom <= |s.scc|
  {
    State(m, s.count, s.scc[..bottom], s.nodes[..|s.nodes| - 1], s.work[..|s.work| - 1], s.pos[..|s.pos| - 1])
  }

  lemma NothingVisited(F: Formula, m: Marks)
    requires F.Valid() && |m.idx| == |m.min| == |m.reprs| == 2 * F.maxVar + 2
    requires forall l :: F.Lit(l) ==> m.Idx(l) == 0 && m.Min(l) == 0 && m.Repr(l) == 0
    ensures Inv(F, State(m, 0, [], [], [], []))
  {
    assert Opened(F, m) == {};
  }

  /** With an empty working stack no component is open. */
  lemma StartStep(F: Formula, s: State, root: int)
    requires F.Valid() && Inv(F, s) && s.work == [] && F.Lit(root) && F.Active(root)
    ensures Inv(F, s.(work := [root]))
  {
    StackOf(F, s.m, s.work, s.pos, s.nodes);
    NothingUnderVisit(F, s.work, s.pos, s.nodes);
  }

  lemma NothingUnderVisit(F: Formula, work: seq<int>, pos: seq<nat>, nodes: seq<int>)
    requires Stack(F, work, pos, nodes) && work == []
    ensures pos == [] && nodes == []
  {
    if pos != [] { assert false; }
  }

  /** A literal on top of the working stack is a child of the innermost one under visit. */
  lemma TopIsOwned(F: Formula, work: seq<int>, pos: seq<nat>, nodes: seq<int>)
    requires Stack(F, work, pos, nodes) && Pushed(F, work, pos, nodes) && nodes != []
    requires work[|work| - 1] !in nodes
    ensures F.Edge(nodes[|nodes| - 1], work[|work| - 1])
  {
    var k := |nodes| - 1;
    assert work[pos[k]] == nodes[k];
    assert Owned(pos, k, |work| - 1);
  }

  lemma VisitCoreStep(F: Formula, m: Marks, m': Marks, count: nat, scc: seq<int>, nodes: seq<int>, work: seq<int>, pos: seq<nat>)
    requires F.Valid() && Core(F, m, count, scc, nodes) && work != []
    requires Stack(F, work, pos, nodes) && Pushed(F, work, pos, nodes)
    requires m.Idx(work[|work| - 1]) == 0 && |m'.idx| == |m'.min| == |m'.reprs| == |m.idx|
    requires Visited(F, m, m', work[|work| - 1], count + 1)
    ensures count + 1 <= 2 * F.maxVar
    ensures Core(F, m', count + 1, scc + [work[|work| - 1]], nodes + [work[|work| - 1]])
  {
    var l := work[|work| - 1];
    NodesOf(F, m, count, scc, nodes);
    VisitedBefore(F, m, nodes, scc, l);
    if nodes != [] { TopIsOwned(F, work, pos, nodes); }
    VisitCore(F, m, m', l, count, nodes, scc);
  }

  lemma VisitedBefore(F: Formula, m: Marks, nodes: seq<int>, scc: seq<int>, l: int)
    requires Nodes(F, m, nodes, scc)
    ensures forall k :: 0 <= k < |nodes| ==> F.Lit(nodes[k]) && m.Idx(nodes[k]) > 0
    ensures m.Idx(l) == 0 || m.Black(l) ==> l !in nodes
  {
  }

  lemma CountBound(F: Formula, s: State)
    requires Inv(F, s)
    ensures s.count <= 2 * F.maxVar
    ensures s.work == [] ==> forall l :: F.Lit(l) && s.m.Idx(l) > 0 ==> s.m.Black(l)
  {
    assert Unfold(0);
    OpenedBound(F, s.m, s.count);
    if s.work == [] { NothingUnderVisit(F, s.work, s.pos, s.nodes); }
  }

  lemma CompleteOf(F: Formula, s: State)
    requires Inv(F, s)
    ensures Complete(F, s.m)
  {
    assert Unfold(0);
  }

  lemma VisitKeepsCore(F: Formula, s: State, t: State, m: Marks)
    requires F.Valid() && Inv(F, s) && s.work != [] && -s.Top() in F.watches && t == AfterVisit(F, s, m)
    requires s.m.Idx(s.Top()) == 0 && |m.idx| == |m.min| == |m.reprs| == |s.m.idx|
    requires Visited(F, s.m, m, s.Top(), s.count + 1)
    ensures Core(F, t.m, t.count, t.scc, t.nodes) && t.count <= 2 * F.maxVar
  {
    StackOf(F, s.m, s.work, s.pos, s.nodes);
    VisitCoreStep(F, s.m, m, s.count, s.scc, s.nodes, s.work, s.pos);
  }

  lemma WaitsOf(F: Formula, s: State)
    requires Inv(F, s)
    ensures Stack(F, s.work, s.pos, s.nodes) && Pushed(F, s.work, s.pos, s.nodes) && Waiting(F, s.m, s.work, s.pos, s.nodes)
    ensures forall k :: 0 <= k < |s.nodes| ==> F.Lit(s.nodes[k]) && s.m.Idx(s.nodes[k]) > 0
  {
    NodesOf(F, s.m, s.count, s.scc, s.nodes);
    StackOf(F, s.m, s.work, s.pos, s.nodes);
  }

  /** A visit of the top literal that pushes its children. */
  ghost predicate VisitsTop(F: Formula, s: State, m: Marks, cs: seq<int>) {
    && F.Valid() && Inv(F, s) && s.work != [] && -s.Top() in F.watches
    && s.m.Idx(s.Top()) == 0 && Visited(F, s.m, m, s.Top(), s.count + 1) && cs == Unvisited(F, m, F.watches[-s.Top()])
  }

  lemma ChildrenOfTop(F: Formula, s: State, m: Marks, cs: seq<int>)
    requires VisitsTop(F, s, m, cs)
    ensures forall c :: c in cs <==> F.Edge(s.Top(), c) && m.Idx(c) == 0
    ensures forall c :: c in cs ==> F.Lit(c) && F.Active(c)
  {
    TopFacts(F, s);
    UnvisitedAreChildren(F, m, s.Top());
    forall c | c in cs ensures F.Lit(c) && F.Active(c) { EdgeIsLit(F, s.Top(), c); }
  }

  lemma VisitKeepsStack(F: Formula, s: State, m: Marks, cs: seq<int>)
    requires VisitsTop(F, s, m, cs)
    ensures Stack(F, s.work + cs, s.pos + [|s.work| - 1], s.nodes + [s.Top()])
  {
    WaitsOf(F, s);
    ChildrenOfTop(F, s, m, cs);
    VisitStack(F, s.m, m, s.work, s.pos, s.nodes, cs, s.count + 1);
  }

  lemma VisitKeepsPushed(F: Formula, s: State, m: Marks, cs: seq<int>)
    requires VisitsTop(F, s, m, cs)
    ensures |s.pos| == |s.nodes| && Pushed(F, s.work + cs, s.pos + [|s.work| - 1], s.nodes + [s.Top()])
  {
    WaitsOf(F, s);
    ChildrenOfTop(F, s, m, cs);
    VisitPushed(F, s.work, s.pos, s.nodes, cs);
  }

  lemma VisitKeepsWaiting(F: Formula, s: State, m: Marks, cs: seq<int>)
    requires VisitsTop(F, s, m, cs)
    ensures |s.pos| == |s.nodes| && Waiting(F, m, s.work + cs, s.pos + [|s.work| - 1], s.nodes + [s.Top()])
  {
    WaitsOf(F, s);
    ChildrenOfTop(F, s, m, cs);
    VisitWaiting(F, s.m, m, s.work, s.pos, s.nodes, cs, s.count + 1);
  }

  lemma FoldWaits(F: Formula, m: Marks, work: seq<int>, pos: seq<nat>, nodes: seq<int>)
    requires Stack(F, work, pos, nodes) && Pushed(F, work, pos, nodes) && Waiting(F, m, work, pos, nodes)
    ensures Waits(F, m, work, pos, nodes)
  {
  }

  lemma VisitKeepsWaits(F: Formula, s: State, t: State, m: Marks)
    requires F.Valid() && Inv(F, s) && s.work != [] && -s.Top() in F.watches && t == AfterVisit(F, s, m)
    requires s.m.Idx(s.Top()) == 0 && Visited(F, s.m, m, s.Top(), s.count + 1)
    ensures Waits(F, t.m, t.work, t.pos, t.nodes)
  {
    var cs := Unvisited(F, m, F.watches[-s.Top()]);
    assert t.m == m && t.work == s.work + cs && t.pos == s.pos + [|s.work| - 1] && t.nodes == s.nodes + [s.Top()];
    assert Waits(F, m, s.work + cs, s.pos + [|s.work| - 1], s.nodes + [s.Top()]) by {
      VisitKeepsStack(F, s, m, cs);
      VisitKeepsPushed(F, s, m, cs);
      VisitKeepsWaiting(F, s, m, cs);
      FoldWaits(F, m, s.work + cs, s.pos + [|s.work| - 1], s.nodes + [s.Top()]);
    }
  }

  lemma VisitStep(F: Formula, s: State, t: State, m: Marks)
    requires F.Valid() && Inv(F, s) && s.work != [] && -s.Top() in F.watches && t == AfterVisit(F, s, m)
    requires s.m.Idx(s.Top()) == 0 && |m.idx| == |m.min| == |m.reprs| == |s.m.idx|
    requires Visited(F, s.m, m, s.Top(), s.count + 1)
    ensures Inv(F, t) && t.count <= 2 * F.maxVar
  {
    VisitKeepsCore(F, s, t, m);
    VisitKeepsWaits(F, s, t, m);
  }

  /** What the dispatching on the literal on top of the working stack needs. */
  lemma TopFacts(F: Formula, s: State)
    requires Inv(F, s) && s.work != []
    ensures F.Lit(s.Top()) && F.Active(s.Top())
    ensures s.m.Idx(s.Top()) == 0 ==> s.m.Min(s.Top()) == 0
    ensures s.m.Gray(s.Top()) ==> s.m.Min(s.Top()) <= s.m.Idx(s.Top())
    ensures s.count <= 2 * F.maxVar
  {
    assert Unfold(0);
    OpenedBound(F, s.m, s.count);
  }

  /** Whatever is not white has a visit number. */
  lemma SeenOf(F: Formula, s: State)
    requires Inv(F, s)
    ensures forall l :: F.Lit(l) && s.m.Min(l) > 0 ==> s.m.Idx(l) > 0
    ensures forall r :: 0 <= r < |s.work| ==> F.Lit(s.work[r])
  {
    assert Unfold(0);
  }

  lemma OpenedBound(F: Formula, m: Marks, count: nat)
    requires Counted(F, m, count)
    ensures count <= 2 * F.maxVar
  {
    AllLitsCount(F.maxVar);
    SubsetSize(Opened(F, m), AllLits(F.maxVar));
  }

  lemma PopBlackStep(F: Formula, s: State)
    requires F.Valid() && Inv(F, s) && s.work != [] && s.m.Black(s.Top())
    ensures Inv(F, AfterPop(s))
  {
    NodesOf(F, s.m, s.count, s.scc, s.nodes);
    VisitedBefore(F, s.m, s.nodes, s.scc, s.Top());
    SeenOf(F, s);
    PopBlackKeeps(F, s.m, s.work, s.pos, s.nodes, s.scc);
  }

  /** A gray literal on top of the working stack is either the innermost one
      under visit or a stale copy of one that is no longer under visit. */
  lemma TopOrStale(F: Formula, m: Marks, scc: seq<int>, nodes: seq<int>, work: seq<int>, pos: seq<nat>)
    requires Stack(F, work, pos, nodes) && work != [] && work[|work| - 1] in nodes
    ensures nodes != [] && pos[|pos| - 1] == |work| - 1 && nodes[|nodes| - 1] == work[|work| - 1]
  {
    var k :| 0 <= k < |nodes| && nodes[k] == work[|work| - 1];
    assert pos[k] == |work| - 1;
    PosOrder(F, work, pos, nodes, k, |pos| - 1);
  }

  lemma PosOrder(F: Formula, work: seq<int>, pos: seq<nat>, nodes: seq<int>, i: nat, j: nat)
    requires Stack(F, work, pos, nodes) && i < |pos| && j < |pos|
    ensures pos[i] < pos[j] <==> i < j
    ensures pos[i] < |work| && pos[j] < |work|
  {
  }

  lemma WaitsByIdx(F: Formula, m: Marks, m': Marks, work: seq<int>, pos: seq<nat>, nodes: seq<int>)
    requires Waits(F, m, work, pos, nodes) && m'.idx == m.idx
    ensures Waits(F, m', work, pos, nodes)
  {
    assert forall l :: m'.Idx(l) == m.Idx(l);
  }

  lemma DoneGoesDown(F: Formula, m: Marks, nodes: seq<int>, l: int)
    requires Descends(F, m, nodes) && F.Lit(l) && m.Gray(l)
    ensures l in nodes || m.Min(l) < m.Idx(l)
  {
    assert l !in nodes ==> Done(m, nodes, l);
  }

  lemma TopFactsOnPath(F: Formula, s: State)
    requires Inv(F, s) && s.work != [] && s.Top() in s.nodes
    ensures s.nodes != [] && s.nodes[|s.nodes| - 1] == s.Top() && s.pos != [] && s.pos[|s.pos| - 1] == |s.work| - 1
    ensures ChildrenSeen(F, s.m, s.Top())
    ensures |s.nodes| >= 2 ==> F.Edge(s.nodes[|s.nodes| - 2], s.Top())
    ensures s.m.Gray(s.Top())
  {
    StackOf(F, s.m, s.work, s.pos, s.nodes);
    NodesOf(F, s.m, s.count, s.scc, s.nodes);
    TopOrStale(F, s.m, s.scc, s.nodes, s.work, s.pos);
    TopChildrenSeen(F, s.m, s.work, s.pos, s.nodes);
    if |s.nodes| >= 2 { TopIsChild(F, s.work, s.pos, s.nodes); }
  }

  lemma LowOf(F: Formula, m: Marks, count: nat, scc: seq<int>, nodes: seq<int>)
    requires Core(F, m, count, scc, nodes)
    ensures Shape(F, m, count) && Low(F, m)
  {
    assert Unfold(0);
  }

  lemma SettleInside(F: Formula, s: State, low: nat)
    requires F.Valid() && Inv(F, s) && s.nodes != [] && ChildrenSeen(F, s.m, s.nodes[|s.nodes| - 1])
    requires IsLow(F, s.m, s.nodes[|s.nodes| - 1], low) && low < s.m.Idx(s.nodes[|s.nodes| - 1])
    ensures |s.nodes| >= 2
  {
    NodesOf(F, s.m, s.count, s.scc, s.nodes);
    ComponentOf(F, s.m, s.count, s.scc, s.nodes);
    LowOf(F, s.m, s.count, s.scc, s.nodes);
    SettleIsInner(F, s.m, low, s.count, s.scc, s.nodes);
  }

  lemma SettleKeepsCore(F: Formula, s: State, m: Marks, low: nat)
    requires F.Valid() && Inv(F, s) && s.work != [] && s.nodes != [] && s.nodes[|s.nodes| - 1] == s.Top()
    requires CanSettle(F, s.m, m, s.Top(), low)
    requires |s.nodes| >= 2 ==> F.Edge(s.nodes[|s.nodes| - 2], s.Top())
    ensures Core(F, m, s.count, s.scc, s.nodes[..|s.nodes| - 1])
  {
    SettleInside(F, s, low);
    SettleCore(F, s.m, m, low, s.count, s.scc, s.nodes);
  }

  lemma SettleKeepsWaits(F: Formula, s: State, m: Marks)
    requires F.Valid() && Inv(F, s) && s.work != [] && s.Top() in s.nodes && m.idx == s.m.idx
    ensures var t := AfterSettle(s, m); Waits(F, m, t.work, t.pos, t.nodes)
  {
    TopFactsOnPath(F, s);
    SeenOf(F, s);
    LeaveWaits(F, s.m, s.work, s.pos, s.nodes);
    var t := AfterSettle(s, m);
    WaitsByIdx(F, s.m, m, t.work, t.pos, t.nodes);
  }

  lemma TopSettles(F: Formula, s: State, m: Marks, low: nat)
    requires F.Valid() && Inv(F, s) && s.work != [] && s.Top() in s.nodes
    requires IsLow(F, s.m, s.Top(), low) && low < s.m.Idx(s.Top()) && Lowered(F, s.m, m, s.Top(), low)
    ensures Inv(F, AfterSettle(s, m))
  {
    TopFactsOnPath(F, s);
    SettleKeepsCore(F, s, m, low);
    SettleKeepsWaits(F, s, m);
  }

  lemma StaleSettles(F: Formula, s: State, m: Marks, low: nat)
    requires F.Valid() && Inv(F, s) && s.work != [] && s.Top() !in s.nodes && s.m.Gray(s.Top())
    requires IsLow(F, s.m, s.Top(), low) && Lowered(F, s.m, m, s.Top(), low)
    ensures Inv(F, AfterSettle(s, m))
  {
    TopFacts(F, s);
    NodesOf(F, s.m, s.count, s.scc, s.nodes);
    ResettleCore(F, s.m, m, s.Top(), low, s.count, s.scc, s.nodes);
    PopBlackKeeps(F, s.m, s.work, s.pos, s.nodes, s.scc);
    WaitsByIdx(F, s.m, m, s.work[..|s.work| - 1], s.pos, s.nodes);
  }

  lemma SettleStep(F: Formula, s: State, m: Marks, low: nat)
    requires F.Valid() && Inv(F, s) && s.work != [] && s.m.Gray(s.Top())
    requires IsLow(F, s.m, s.Top(), low) && low < s.m.Idx(s.Top()) && Lowered(F, s.m, m, s.Top(), low)
    ensures Inv(F, AfterSettle(s, m))
  {
    if s.Top() in s.nodes { TopSettles(F, s, m, low); } else { StaleSettles(F, s, m, low); }
  }

  /** A literal that cannot move down is the entry of its component. */
  lemma EntryStep(F: Formula, s: State)
    requires F.Valid() && Inv(F, s) && s.work != []
    requires s.m.Gray(s.Top()) && IsLow(F, s.m, s.Top(), s.m.Idx(s.Top()))
    ensures Entry(F, s)
  {
    TopIsUnderVisit(F, s);
    TopFactsOnPath(F, s);
  }

  lemma DescendsOf(F: Formula, s: State)
    requires Inv(F, s)
    ensures Descends(F, s.m, s.nodes)
  {
    assert Unfold(0);
  }

  lemma TopIsUnderVisit(F: Formula, s: State)
    requires Inv(F, s) && s.work != []
    requires s.m.Gray(s.Top()) && IsLow(F, s.m, s.Top(), s.m.Idx(s.Top()))
    ensures s.Top() in s.nodes
  {
    TopFacts(F, s);
    DescendsOf(F, s);
    DoneGoesDown(F, s.m, s.nodes, s.Top());
  }

  lemma StackIsDistinct(F: Formula, s: State)
    requires Inv(F, s)
    ensures forall i :: 0 <= i < |s.scc| ==> F.Lit(s.scc[i])
    ensures forall i, j :: 0 <= i < j < |s.scc| ==> s.scc[i] != s.scc[j]
  {
    ComponentOf(F, s.m, s.count, s.scc, s.nodes);
  }

  /** Where the entry of a component lies on the component stack. */
  lemma PlaceOf(F: Formula, s: State) returns (bottom: nat)
    requires Entry(F, s) && F.Lit(s.Top()) && s.m.Gray(s.Top())
    ensures bottom < |s.scc| && s.scc[bottom] == s.Top()
    ensures forall i, j :: 0 <= i < j < |s.scc| ==> s.scc[i] != s.scc[j]
  {
    ComponentOf(F, s.m, s.count, s.scc, s.nodes);
    assert s.Top() in s.scc;
    bottom :| 0 <= bottom < |s.scc| && s.scc[bottom] == s.Top();
  }

  /** The tail is the upper part of the component stack. */
  lemma TailIsUpperStack(F: Formula, m: Marks, scc: seq<int>, j: nat, x: int)
    requires Component(F, m, scc) && j < |scc|
    ensures InTail(F, m, scc[j], x) <==> x in scc[j..]
  {
    forall i | 0 <= i < |scc| ensures InTail(F, m, scc[j], scc[i]) <==> j <= i {
      SccOrder(F, m, scc, i, j);
    }
    if InTail(F, m, scc[j], x) {
      assert x in scc;
      var i :| 0 <= i < |scc| && scc[i] == x;
      assert scc[j..][i - j] == x;
    }
  }

  lemma ConflictFound(F: Formula, s: State, bottom: nat)
    requires F.Valid() && Entry(F, s)
    requires bottom < |s.scc| && s.scc[bottom] == s.Top() && -s.Top() in s.scc[bottom..]
    ensures F.Mutual(s.Top(), -s.Top())
  {
    UpperStack(F, s, bottom, -s.Top());
    TailIsComponent(F, s.m, s.count, s.scc, s.nodes, -s.Top());
  }

  lemma UpperStack(F: Formula, s: State, bottom: nat, x: int)
    requires Entry(F, s) && bottom < |s.scc| && s.scc[bottom] == s.Top()
    ensures x in s.scc[bottom..] <==> InTail(F, s.m, s.Top(), x)
  {
    ComponentOf(F, s.m, s.count, s.scc, s.nodes);
    TailIsUpperStack(F, s.m, s.scc, bottom, x);
  }

  /** m' is m with the literals of 'done' completed. */
  ghost predicate Recorded(F: Formula, m: Marks, m': Marks, done: seq<int>, repr: int) {
    && m'.idx == m.idx && |m'.min| == |m.min| && |m'.reprs| == |m.reprs|
    && (forall x :: x in done ==> m'.Min(x) == TRAVERSED && m'.Repr(x) == if F.Frozen(x) then x else repr)
    && (forall x :: F.Lit(x) && x !in done ==> m'.Min(x) == m.Min(x) && m'.Repr(x) == m.Repr(x))
  }

  lemma CloseStep(F: Formula, s: State, m: Marks, repr: int, bottom: nat)
    requires F.Valid() && Inv(F, s) && Entry(F, s)
    requires bottom < |s.scc| && s.scc[bottom] == s.Top() && -s.Top() !in s.scc[bottom..]
    requires repr in s.scc[bottom..] && forall y :: y in s.scc[bottom..] ==> Abs(repr) <= Abs(y)
    requires Recorded(F, s.m, m, s.scc[bottom..], repr)
    ensures Inv(F, AfterClose(s, m, bottom))
  {
    forall x ensures x in s.scc[bottom..] <==> InTail(F, s.m, s.Top(), x) { UpperStack(F, s, bottom, x); }
    CloseCore(F, s.m, m, repr, s.count, s.scc, s.nodes, bottom);
    CloseWaits(F, s, m, bottom);
  }

  lemma CloseWaits(F: Formula, s: State, m: Marks, bottom: nat)
    requires F.Valid() && Inv(F, s) && Entry(F, s) && bottom < |s.scc| && m.idx == s.m.idx
    ensures var t := AfterClose(s, m, bottom); Waits(F, m, t.work, t.pos, t.nodes)
  {
    var t := AfterClose(s, m, bottom);
    assert Waits(F, s.m, s.work[..|s.work| - 1], s.pos[..|s.pos| - 1], s.nodes[..|s.nodes| - 1]) by {
      TopFactsOnPath(F, s);
      SeenOf(F, s);
      LeaveWaits(F, s.m, s.work, s.pos, s.nodes);
    }
    WaitsByIdx(F, s.m, m, t.work, t.pos, t.nodes);
  }
}
