/** Each step of the depth-first search keeps its invariant. */
module SearchSteps {
  import opened Literals
  import opened Cardinality
  import opened ImplicationGraph
  import opened SearchState

  lemma SccOrder(F: Formula, m: Marks, scc: seq<int>, i: nat, j: nat)
    requires Component(F, m, scc) && i < |scc| && j < |scc|
    ensures m.Idx(scc[i]) < m.Idx(scc[j]) <==> i < j
  {
  }

  lemma NodeOrder(F: Formula, m: Marks, nodes: seq<int>, scc: seq<int>, i: nat, j: nat)
    requires Nodes(F, m, nodes, scc) && i < |nodes| && j < |nodes|
    ensures m.Idx(nodes[i]) < m.Idx(nodes[j]) <==> i < j
  {
  }

  // ------------------------------------------------ dropping a black literal

  lemma PopBlackKeeps(F: Formula, m: Marks, work: seq<int>, pos: seq<nat>, nodes: seq<int>, scc: seq<int>)
    requires F.Valid() && Waits(F, m, work, pos, nodes) && Nodes(F, m, nodes, scc)
    requires work != [] && m.Idx(work[|work| - 1]) > 0
    requires work[|work| - 1] !in nodes
    ensures Waits(F, m, work[..|work| - 1], pos, nodes)
  {
    assert Unfold(0);
    var top := |work| - 1;
    var work' := work[..top];
    forall k | 0 <= k < |pos| ensures pos[k] < top {
      assert work[pos[k]] == nodes[k];
    }
    StillWaiting(F, m, work, pos, nodes);
    forall k: nat, r: nat | Owned(pos, k, r) && r < |work'| ensures F.Edge(nodes[k], work'[r]) {
      assert r < |work|;
      assert work'[r] == work[r];
      assert F.Edge(nodes[k], work[r]);
    }
  }

  /** Removing a visited literal from the top loses no waiting child. */
  lemma StillWaiting(F: Formula, m: Marks, work: seq<int>, pos: seq<nat>, nodes: seq<int>)
    requires |pos| == |nodes| && work != [] && Waiting(F, m, work, pos, nodes)
    requires m.Idx(work[|work| - 1]) > 0
    ensures Waiting(F, m, work[..|work| - 1], pos, nodes)
  {
    var work' := work[..|work| - 1];
    forall k, c | 0 <= k < |pos| && F.Edge(nodes[k], c)
      ensures m.Idx(c) > 0 || Above(work', pos[k], c)
    {
      if m.Idx(c) == 0 {
        var r :| pos[k] < r < |work| && work[r] == c;
        assert work'[r] == c;
      }
    }
  }

  // ---------------------------------------------------- visiting a literal

  /** m' is m with l visited as number n. */
  ghost predicate Visited(F: Formula, m: Marks, m': Marks, l: int, n: nat) {
    && F.Lit(l) && m'.Idx(l) == m'.Min(l) == n && m'.Repr(l) == m.Repr(l)
    && forall x :: F.Lit(x) && x != l ==> m'.Idx(x) == m.Idx(x) && m'.Min(x) == m.Min(x) && m'.Repr(x) == m.Repr(x)
  }

  lemma VisitCounted(F: Formula, m: Marks, m': Marks, l: int, count: nat)
    requires Counted(F, m, count) && m.Idx(l) == 0 && Visited(F, m, m', l, count + 1)
    ensures count + 1 <= 2 * F.maxVar && Counted(F, m', count + 1)
  {
    assert l in AllLits(F.maxVar) && l !in Opened(F, m);
    assert Opened(F, m') == Opened(F, m) + {l};
    AllLitsCount(F.maxVar);
    SubsetSize(Opened(F, m'), AllLits(F.maxVar));
  }

  lemma VisitShape(F: Formula, m: Marks, m': Marks, l: int, count: nat)
    requires Shape(F, m, count) && m.Idx(l) == 0 && F.Active(l) && count + 1 < TRAVERSED
    requires |m'.idx| == |m'.min| == |m'.reprs| == |m.idx| && Visited(F, m, m', l, count + 1)
    ensures Shape(F, m', count + 1)
  {
    forall x | F.Lit(x)
      ensures m'.Idx(x) <= count + 1
      ensures m'.Idx(x) > 0 ==> F.Active(x)
      ensures m'.Idx(x) == 0 ==> m'.Min(x) == 0
      ensures m'.Gray(x) ==> 1 <= m'.Min(x) <= m'.Idx(x)
      ensures !m'.Black(x) ==> m'.Repr(x) == 0
    {
      if x == l {
        assert !m.Black(l);
      } else {
        assert m.Idx(x) <= count;
      }
    }
  }

  lemma VisitComponent(F: Formula, m: Marks, m': Marks, l: int, count: nat, scc: seq<int>, nodes: seq<int>)
    requires Shape(F, m, count) && m.Idx(l) == 0 && count + 1 < TRAVERSED
    requires Component(F, m, scc) && Visited(F, m, m', l, count + 1)
    ensures Component(F, m', scc + [l])
  {
    var scc' := scc + [l];
    forall x | F.Lit(x) && m'.Gray(x) ensures x in scc' {
      if x != l {
        assert m.Gray(x);
      } else {
        assert scc'[|scc|] == l;
      }
    }
    forall i | 0 <= i < |scc'| ensures F.Lit(scc'[i]) && m'.Gray(scc'[i]) {
      if i < |scc| { assert scc'[i] == scc[i] && m.Gray(scc[i]); }
    }
    forall i, j | 0 <= i < j < |scc'| ensures m'.Idx(scc'[i]) < m'.Idx(scc'[j]) {
      assert scc'[i] == scc[i] && m.Gray(scc[i]);
      if j < |scc| { assert scc'[j] == scc[j] && m.Gray(scc[j]); }
    }
  }

  lemma VisitNodes(F: Formula, m: Marks, m': Marks, l: int, count: nat, scc: seq<int>, nodes: seq<int>)
    requires Shape(F, m, count) && m.Idx(l) == 0 && count + 1 < TRAVERSED
    requires Nodes(F, m, nodes, scc) && Visited(F, m, m', l, count + 1)
    ensures Nodes(F, m', nodes + [l], scc + [l])
  {
    var nodes' := nodes + [l];
    forall i | 0 <= i < |nodes'| ensures F.Lit(nodes'[i]) && m'.Gray(nodes'[i]) {
      if i < |nodes| { assert nodes'[i] == nodes[i] && m.Gray(nodes[i]); }
    }
    forall i, j | 0 <= i < j < |nodes'| ensures m'.Idx(nodes'[i]) < m'.Idx(nodes'[j]) {
      assert nodes'[i] == nodes[i] && m.Gray(nodes[i]);
      if j < |nodes| { assert nodes'[j] == nodes[j] && m.Gray(nodes[j]); }
    }
  }

  lemma VisitLow(F: Formula, m: Marks, m': Marks, l: int, count: nat)
    requires m.Idx(l) == 0 && F.Active(l)
    requires Visited(F, m, m', l, count + 1) && Low(F, m)
    ensures Low(F, m')
  {
    forall u | F.Lit(u) && m'.Gray(u) ensures HasLowPoint(F, m', u) {
      if u == l {
        assert LowPoint(F, m', l, l);
      } else {
        assert m.Gray(u) && HasLowPoint(F, m, u);
        var x :| LowPoint(F, m, u, x);
        assert x != l;
        assert LowPoint(F, m', u, x);
      }
    }
  }

  lemma VisitDescends(F: Formula, m: Marks, m': Marks, l: int, count: nat, nodes: seq<int>)
    requires F.Valid() && Shape(F, m, count) && m.Idx(l) == 0
    requires Visited(F, m, m', l, count + 1) && Descends(F, m, nodes)
    ensures Descends(F, m', nodes + [l])
  {
    forall u | F.Lit(u) && Done(m', nodes + [l], u)
      ensures m'.Min(u) < m'.Idx(u) && ChildrenSeen(F, m', u)
    {
      assert u != l by { assert l == (nodes + [l])[|nodes|]; }
      assert u in nodes ==> u in nodes + [l];
      assert Done(m, nodes, u);
      forall c | F.Edge(u, c) ensures m'.Idx(c) > 0 { EdgeIsLit(F, u, c); }
    }
  }

  lemma VisitTree(F: Formula, m: Marks, m': Marks, l: int, count: nat, nodes: seq<int>, scc: seq<int>)
    requires F.Valid() && Shape(F, m, count) && m.Idx(l) == 0 && F.Active(l)
    requires Visited(F, m, m', l, count + 1) && Tree(F, m, nodes) && Nodes(F, m, nodes, scc)
    requires nodes != [] ==> F.Edge(nodes[|nodes| - 1], l)
    ensures Tree(F, m', nodes + [l])
  {
    var nodes' := nodes + [l];
    forall k, u | 0 <= k < |nodes'| && F.Lit(u) && m'.Gray(u) && m'.Idx(nodes'[k]) <= m'.Idx(u)
      ensures F.Reach(nodes'[k], u)
    {
      if k == |nodes| {
        assert u != l ==> m.Idx(u) <= count;
      } else if u == l {
        var top := nodes[|nodes| - 1];
        assert F.Reach(nodes[k], top) by {
          assert m.Gray(top);
          if k < |nodes| - 1 { assert m.Idx(nodes[k]) < m.Idx(top); }
        }
        F.ReachEdge(top, l);
        F.ReachTrans(nodes[k], top, l);
      } else {
        assert nodes[k] != l;
        assert m.Gray(u);
      }
    }
  }

  lemma VisitExits(F: Formula, m: Marks, m': Marks, l: int, count: nat, nodes: seq<int>, scc: seq<int>)
    requires F.Valid() && Shape(F, m, count) && m.Idx(l) == 0
    requires Visited(F, m, m', l, count + 1) && Exits(F, m, nodes) && Nodes(F, m, nodes, scc)
    requires Descends(F, m, nodes)
    ensures Exits(F, m', nodes + [l])
  {
    var nodes' := nodes + [l];
    forall k, u, x | 0 <= k < |nodes'| && Leaves(F, m', nodes', k, u, x)
      ensures exists w :: Exit(F, m', nodes', k, x, w)
    {
      EdgeIsLit(F, u, x);
      assert u != l by { assert nodes'[|nodes|] == l; }
      assert m.Idx(u) <= count;
      assert u in nodes ==> u in nodes';
      assert Done(m, nodes, u);
      assert ChildrenSeen(F, m, u);
      assert x != l;
      assert nodes'[k] == nodes[k] && nodes[k] != l;
      assert BeforeNext(m, nodes, k, u) by { if k + 1 < |nodes| { assert nodes'[k + 1] == nodes[k + 1] != l; } }
      assert Leaves(F, m, nodes, k, u, x);
      var w :| Exit(F, m, nodes, k, x, w);
      EdgeIsLit(F, nodes[k], w);
      assert w != l;
      assert BeforeNext(m', nodes', k, w) by {
        if k + 1 < |nodes| { assert nodes'[k + 1] == nodes[k + 1] != l; }
        else { assert m.Idx(w) <= count; }
      }
      assert Exit(F, m', nodes', k, x, w);
    }
  }

  lemma VisitComplete(F: Formula, m: Marks, m': Marks, l: int, count: nat)
    requires F.Valid() && Shape(F, m, count) && m.Idx(l) == 0 && count + 1 < TRAVERSED
    requires Visited(F, m, m', l, count + 1) && Complete(F, m)
    ensures Complete(F, m')
  {
    forall u, c | F.Lit(u) && m'.Black(u) && F.Edge(u, c) ensures m'.Black(c) {
      EdgeIsLit(F, u, c);
      assert m.Black(u);
    }
    forall u | F.Lit(u) && m'.Black(u) ensures IsRepr(F, u, m'.Repr(u)) && !F.Mutual(u, -u) {
      assert m.Black(u);
    }
  }

  lemma VisitCore(F: Formula, m: Marks, m': Marks, l: int, count: nat, nodes: seq<int>, scc: seq<int>)
    requires F.Valid() && Core(F, m, count, scc, nodes) && m.Idx(l) == 0 && F.Active(l)
    requires |m'.idx| == |m'.min| == |m'.reprs| == |m.idx| && Visited(F, m, m', l, count + 1)
    requires nodes != [] ==> F.Edge(nodes[|nodes| - 1], l)
    ensures Core(F, m', count + 1, scc + [l], nodes + [l]) && count + 1 <= 2 * F.maxVar
  {
    assert Unfold(0);
    VisitCounted(F, m, m', l, count);
    VisitShape(F, m, m', l, count);
    VisitComponent(F, m, m', l, count, scc, nodes);
    VisitNodes(F, m, m', l, count, scc, nodes);
    VisitLow(F, m, m', l, count);
    VisitDescends(F, m, m', l, count, nodes);
    VisitTree(F, m, m', l, count, nodes, scc);
    VisitExits(F, m, m', l, count, nodes, scc);
    VisitComplete(F, m, m', l, count);
  }

  /** The children a pre-fix visit pushes: those that have not been visited. */
  function Unvisited(F: Formula, m: Marks, ws: seq<Watch>): seq<int> {
    if ws == [] then []
    else
      var w := ws[|ws| - 1];
      var rest := Unvisited(F, m, ws[..|ws| - 1]);
      if w.binary && F.Active(w.blit) && m.Idx(w.blit) == 0 then rest + [w.blit] else rest
  }

  lemma {:induction false} UnvisitedMembers(F: Formula, m: Marks, ws: seq<Watch>, c: int)
    ensures c in Unvisited(F, m, ws) <==> Watch(c, true) in ws && F.Active(c) && m.Idx(c) == 0
  {
    if ws != [] {
      var w := ws[|ws| - 1];
      UnvisitedMembers(F, m, ws[..|ws| - 1], c);
      assert ws == ws[..|ws| - 1] + [w];
    }
  }

  lemma UnvisitedAreChildren(F: Formula, m: Marks, l: int)
    requires F.Valid() && F.Lit(l) && F.Active(l)
    ensures forall c :: c in Unvisited(F, m, F.watches[-l]) <==> F.Edge(l, c) && m.Idx(c) == 0
  {
    forall c ensures c in Unvisited(F, m, F.watches[-l]) <==> F.Edge(l, c) && m.Idx(c) == 0 {
      UnvisitedMembers(F, m, F.watches[-l], c);
    }
  }

  lemma VisitStack(F: Formula, m: Marks, m': Marks, work: seq<int>, pos: seq<nat>, nodes: seq<int>, cs: seq<int>, n: nat)
    requires Stack(F, work, pos, nodes) && work != []
    requires forall k :: 0 <= k < |nodes| ==> F.Lit(nodes[k]) && m.Idx(nodes[k]) > 0
    requires m.Idx(work[|work| - 1]) == 0 && n > 0 && Visited(F, m, m', work[|work| - 1], n)
    requires forall c :: c in cs ==> F.Lit(c) && F.Active(c) && m'.Idx(c) == 0
    ensures Stack(F, work + cs, pos + [|work| - 1], nodes + [work[|work| - 1]])
  {
    var top := |work| - 1;
    var work', pos', nodes' := work + cs, pos + [top], nodes + [work[top]];
    forall k | 0 <= k < |pos| ensures pos[k] < top {
      assert work[pos[k]] == nodes[k];
    }
    forall r | 0 <= r < |work'| ensures F.Lit(work'[r]) && F.Active(work'[r]) {
      if r >= |work| { assert work'[r] in cs; }
    }
    forall k, r | 0 <= k < |pos'| && pos'[k] < r < |work'| ensures work'[r] != nodes'[k] {
      if r >= |work| {
        assert work'[r] in cs;
        assert m'.Idx(nodes'[k]) > 0;
      } else {
        assert k < |pos|;
      }
    }
  }

  lemma VisitPushed(F: Formula, work: seq<int>, pos: seq<nat>, nodes: seq<int>, cs: seq<int>)
    requires Stack(F, work, pos, nodes) && work != [] && work[|work| - 1] !in nodes
    requires Pushed(F, work, pos, nodes)
    requires forall c :: c in cs ==> F.Edge(work[|work| - 1], c)
    ensures Pushed(F, work + cs, pos + [|work| - 1], nodes + [work[|work| - 1]])
  {
    var top := |work| - 1;
    var work', pos', nodes' := work + cs, pos + [top], nodes + [work[top]];
    forall k: nat, r: nat | Owned(pos', k, r) && r < |work'| ensures F.Edge(nodes'[k], work'[r]) {
      if k == |pos| {
        assert work'[r] in cs;
      } else {
        assert k + 1 == |pos| ==> pos'[k + 1] == top;
        assert Owned(pos, k, r) by { if k + 1 < |pos| { assert pos'[k + 1] == pos[k + 1]; } }
        assert r < |work| by { if k + 1 < |pos| { assert pos[k + 1] < |work|; } }
        assert F.Edge(nodes[k], work[r]);
      }
    }
  }

  lemma VisitWaiting(F: Formula, m: Marks, m': Marks, work: seq<int>, pos: seq<nat>, nodes: seq<int>, cs: seq<int>, n: nat)
    requires F.Valid() && Stack(F, work, pos, nodes) && work != [] && n > 0
    requires Waiting(F, m, work, pos, nodes) && Visited(F, m, m', work[|work| - 1], n)
    requires forall c :: F.Edge(work[|work| - 1], c) && m'.Idx(c) == 0 ==> c in cs
    ensures Waiting(F, m', work + cs, pos + [|work| - 1], nodes + [work[|work| - 1]])
  {
    var top := |work| - 1;
    var work', pos', nodes' := work + cs, pos + [top], nodes + [work[top]];
    forall k, c | 0 <= k < |pos'| && F.Edge(nodes'[k], c)
      ensures m'.Idx(c) > 0 || Above(work', pos'[k], c)
    {
      EdgeIsLit(F, nodes'[k], c);
      if m'.Idx(c) == 0 {
        if k == |pos| {
          var i :| 0 <= i < |cs| && cs[i] == c;
          assert work'[|work| + i] == c;
        } else {
          assert nodes'[k] == nodes[k];
          assert m.Idx(c) == 0;
          var r :| pos[k] < r < |work| && work[r] == c;
          assert work'[r] == c;
        }
      }
    }
  }

  // ------------------------------------------------- leaving a literal

  /** The least 'min' among l and its children. */
  ghost predicate IsLow(F: Formula, m: Marks, l: int, low: nat) {
    && low <= m.Min(l)
    && (forall c :: F.Edge(l, c) ==> low <= m.Min(c))
    && (low == m.Min(l) || exists c :: F.Edge(l, c) && m.Min(c) == low)
  }

  /** m' is m with the 'min' of l lowered. */
  ghost predicate Lowered(F: Formula, m: Marks, m': Marks, l: int, low: nat) {
    && m'.idx == m.idx && m'.reprs == m.reprs && |m'.min| == |m.min|
    && F.Lit(l) && m'.Min(l) == low
    && forall x :: F.Lit(x) && x != l ==> m'.Min(x) == m.Min(x)
  }

  lemma LowIsPositive(F: Formula, m: Marks, l: int, low: nat, count: nat)
    requires F.Valid() && Shape(F, m, count) && IsLow(F, m, l, low) && F.Lit(l) && m.Gray(l)
    requires ChildrenSeen(F, m, l)
    ensures 1 <= low <= m.Idx(l)
  {
    if low != m.Min(l) {
      var c :| F.Edge(l, c) && m.Min(c) == low;
      EdgeIsLit(F, l, c);
      assert m.Idx(c) > 0;
    }
  }

  lemma LowerShape(F: Formula, m: Marks, m': Marks, l: int, low: nat, count: nat)
    requires Shape(F, m, count) && m.Gray(l) && Lowered(F, m, m', l, low)
    requires 1 <= low <= m.Min(l)
    ensures Shape(F, m', count)
  {
    forall x | F.Lit(x)
      ensures m'.Idx(x) <= count
      ensures m'.Idx(x) > 0 ==> F.Active(x)
      ensures m'.Idx(x) == 0 ==> m'.Min(x) == 0
      ensures m'.Gray(x) ==> 1 <= m'.Min(x) <= m'.Idx(x)
      ensures !m'.Black(x) ==> m'.Repr(x) == 0
    {
      assert m'.Idx(x) == m.Idx(x) && m'.Repr(x) == m.Repr(x);
      assert m.Idx(l) > 0 && !m.Black(l);
    }
  }

  lemma LowerComponent(F: Formula, m: Marks, m': Marks, l: int, low: nat, scc: seq<int>, count: nat)
    requires Component(F, m, scc) && m.Gray(l) && Lowered(F, m, m', l, low) && low < TRAVERSED
    ensures Component(F, m', scc)
    ensures Counted(F, m, count) ==> Counted(F, m', count)
  {
    assert forall x :: m'.Idx(x) == m.Idx(x);
    assert Opened(F, m') == Opened(F, m);
    forall x | F.Lit(x) ensures m'.Gray(x) == m.Gray(x) { }
  }

  lemma LowerLow(F: Formula, m: Marks, m': Marks, l: int, low: nat, count: nat)
    requires F.Valid() && Shape(F, m, count) && Low(F, m) && m.Gray(l) && Lowered(F, m, m', l, low)
    requires IsLow(F, m, l, low) && ChildrenSeen(F, m, l) && low < TRAVERSED
    ensures Low(F, m')
  {
    assert forall x :: m'.Idx(x) == m.Idx(x);
    forall u | F.Lit(u) && m'.Gray(u) ensures HasLowPoint(F, m', u) {
      assert m.Gray(u) && HasLowPoint(F, m, u);
      if u != l || low == m.Min(l) {
        var x :| LowPoint(F, m, u, x);
        assert m'.Gray(x);
        assert LowPoint(F, m', u, x);
      } else {
        var c :| F.Edge(l, c) && m.Min(c) == low;
        EdgeIsLit(F, l, c);
        assert m.Gray(c) && HasLowPoint(F, m, c);
        var x :| LowPoint(F, m, c, x);
        F.ReachEdge(l, c);
        F.ReachTrans(l, c, x);
        assert m'.Gray(x);
        assert LowPoint(F, m', l, x);
      }
    }
  }

  lemma LowerTree(F: Formula, m: Marks, m': Marks, l: int, low: nat, nodes: seq<int>)
    requires Tree(F, m, nodes) && m.Gray(l) && Lowered(F, m, m', l, low)
    ensures Tree(F, m', nodes)
  {
    assert forall x :: m'.Idx(x) == m.Idx(x);
    forall k, u | 0 <= k < |nodes| && F.Lit(u) && m'.Gray(u) && m'.Idx(nodes[k]) <= m'.Idx(u)
      ensures F.Reach(nodes[k], u)
    {
      assert m.Gray(u);
    }
  }

  lemma LowerComplete(F: Formula, m: Marks, m': Marks, l: int, low: nat)
    requires F.Valid() && Complete(F, m) && m.Gray(l) && Lowered(F, m, m', l, low) && low < TRAVERSED
    ensures Complete(F, m')
  {
    assert forall x :: m'.Repr(x) == m.Repr(x);
    forall x | F.Lit(x) ensures m'.Black(x) == m.Black(x) { }
    forall u, c | F.Lit(u) && m'.Black(u) && F.Edge(u, c) ensures m'.Black(c) {
      EdgeIsLit(F, u, c);
      assert m.Black(u);
    }
    forall u | F.Lit(u) && m'.Black(u) ensures IsRepr(F, u, m'.Repr(u)) && !F.Mutual(u, -u) {
      assert m.Black(u);
    }
  }

  /** A stale copy: the literal is no longer under visit. */
  lemma ResettleCore(F: Formula, m: Marks, m': Marks, l: int, low: nat, count: nat, scc: seq<int>, nodes: seq<int>)
    requires F.Valid() && Core(F, m, count, scc, nodes) && F.Lit(l) && Done(m, nodes, l)
    requires IsLow(F, m, l, low) && Lowered(F, m, m', l, low)
    ensures low < m.Idx(l)
    ensures Core(F, m', count, scc, nodes)
  {
    assert Unfold(0);
    assert ChildrenSeen(F, m, l);
    LowIsPositive(F, m, l, low, count);
    LowerShape(F, m, m', l, low, count);
    LowerComponent(F, m, m', l, low, scc, count);
    LowerLow(F, m, m', l, low, count);
    LowerTree(F, m, m', l, low, nodes);
    LowerComplete(F, m, m', l, low);
    LowerNodes(F, m, m', l, low, nodes, scc);
    ResettleDescends(F, m, m', l, low, nodes);
    ResettleExits(F, m, m', l, low, nodes);
  }

  lemma LowerNodes(F: Formula, m: Marks, m': Marks, l: int, low: nat, nodes: seq<int>, scc: seq<int>)
    requires Nodes(F, m, nodes, scc) && Lowered(F, m, m', l, low) && low < TRAVERSED
    ensures Nodes(F, m', nodes, scc)
  {
    assert forall x :: m'.Idx(x) == m.Idx(x);
    forall k | 0 <= k < |nodes| ensures m'.Gray(nodes[k]) { assert m.Gray(nodes[k]); }
  }

  lemma ResettleDescends(F: Formula, m: Marks, m': Marks, l: int, low: nat, nodes: seq<int>)
    requires Descends(F, m, nodes) && Done(m, nodes, l) && Lowered(F, m, m', l, low) && low <= m.Min(l)
    ensures Descends(F, m', nodes)
  {
    assert forall x :: m'.Idx(x) == m.Idx(x);
    forall u | F.Lit(u) && Done(m', nodes, u) ensures m'.Min(u) < m'.Idx(u) && ChildrenSeen(F, m', u) {
      assert Done(m, nodes, u) && ChildrenSeen(F, m, u);
    }
  }

  lemma ResettleExits(F: Formula, m: Marks, m': Marks, l: int, low: nat, nodes: seq<int>)
    requires F.Valid() && Exits(F, m, nodes) && Done(m, nodes, l) && Lowered(F, m, m', l, low) && low <= m.Min(l)
    requires low < TRAVERSED
    ensures Exits(F, m', nodes)
  {
    assert forall x :: m'.Idx(x) == m.Idx(x);
    forall k, u, x | 0 <= k < |nodes| && Leaves(F, m', nodes, k, u, x)
      ensures exists w :: Exit(F, m', nodes, k, x, w)
    {
      EdgeIsLit(F, u, x);
      assert Leaves(F, m, nodes, k, u, x);
      var w :| Exit(F, m, nodes, k, x, w);
      EdgeIsLit(F, nodes[k], w);
      assert Exit(F, m', nodes, k, x, w);
    }
  }

  // ------------------------------- leaving the literal under visit

  lemma LeaveStack(F: Formula, work: seq<int>, pos: seq<nat>, nodes: seq<int>)
    requires Stack(F, work, pos, nodes) && pos != [] && pos[|pos| - 1] == |work| - 1
    ensures Stack(F, work[..|work| - 1], pos[..|pos| - 1], nodes[..|nodes| - 1])
  {
    var n := |pos| - 1;
    var work', pos', nodes' := work[..|work| - 1], pos[..n], nodes[..n];
    forall k, r | 0 <= k < |pos'| && pos'[k] < r < |work'| ensures work'[r] != nodes'[k] {
      assert work[r] != nodes[k];
    }
  }

  lemma LeavePushed(F: Formula, work: seq<int>, pos: seq<nat>, nodes: seq<int>)
    requires |pos| == |nodes| > 0 && work != [] && Pushed(F, work, pos, nodes) && pos[|pos| - 1] == |work| - 1
    ensures Pushed(F, work[..|work| - 1], pos[..|pos| - 1], nodes[..|nodes| - 1])
  {
    var n := |pos| - 1;
    var work', pos', nodes' := work[..|work| - 1], pos[..n], nodes[..n];
    forall k: nat, r: nat | Owned(pos', k, r) && r < |work'| ensures F.Edge(nodes'[k], work'[r]) {
      assert Owned(pos, k, r) by { if k + 1 < n { assert pos'[k + 1] == pos[k + 1]; } }
      assert F.Edge(nodes[k], work[r]);
    }
  }

  lemma LeaveWaits(F: Formula, m: Marks, work: seq<int>, pos: seq<nat>, nodes: seq<int>)
    requires Waits(F, m, work, pos, nodes) && work != [] && pos != [] && nodes != [] && pos[|pos| - 1] == |work| - 1
    requires m.Idx(work[|work| - 1]) > 0
    ensures Waits(F, m, work[..|work| - 1], pos[..|pos| - 1], nodes[..|nodes| - 1])
  {
    var n := |pos| - 1;
    assert |pos| == |nodes| by { assert Unfold(0); }
    assert Stack(F, work[..|work| - 1], pos[..n], nodes[..n]) by {
      assert Unfold(0);
      LeaveStack(F, work, pos, nodes);
    }
    assert Pushed(F, work[..|work| - 1], pos[..n], nodes[..n]) by {
      assert Unfold(0);
      LeavePushed(F, work, pos, nodes);
    }
    assert Waiting(F, m, work[..|work| - 1], pos, nodes) by {
      assert Unfold(0);
      StillWaiting(F, m, work, pos, nodes);
    }
    forall k, c | 0 <= k < n && F.Edge(nodes[..n][k], c) ensures m.Idx(c) > 0 || Above(work[..|work| - 1], pos[..n][k], c) {
      assert F.Edge(nodes[k], c);
    }
  }

  /** With nothing waiting above it, all children of the top literal were visited. */
  lemma TopChildrenSeen(F: Formula, m: Marks, work: seq<int>, pos: seq<nat>, nodes: seq<int>)
    requires Waits(F, m, work, pos, nodes) && pos != [] && nodes != [] && pos[|pos| - 1] == |work| - 1
    ensures ChildrenSeen(F, m, nodes[|nodes| - 1])
  {
    assert Unfold(0);
    var k := |pos| - 1;
    forall c | F.Edge(nodes[k], c) ensures m.Idx(c) > 0 {
      assert !Above(work, pos[k], c);
    }
  }

  /** The literal under visit was pushed as a child of the one before. */
  lemma TopIsChild(F: Formula, work: seq<int>, pos: seq<nat>, nodes: seq<int>)
    requires Stack(F, work, pos, nodes) && Pushed(F, work, pos, nodes) && |nodes| >= 2
    ensures F.Edge(nodes[|nodes| - 2], nodes[|nodes| - 1])
  {
    var k := |nodes| - 2;
    assert Owned(pos, k, pos[k + 1]);
    assert F.Edge(nodes[k], work[pos[k + 1]]);
  }

  lemma FirstIsLeast(F: Formula, m: Marks, scc: seq<int>, x: int)
    requires Component(F, m, scc) && F.Lit(x) && m.Gray(x)
    ensures scc != [] && m.Idx(scc[0]) <= m.Idx(x)
  {
    assert x in scc;
    var i :| 0 <= i < |scc| && scc[i] == x;
    if i > 0 { assert m.Idx(scc[0]) < m.Idx(scc[i]); }
  }

  ghost predicate CanSettle(F: Formula, m: Marks, m': Marks, l: int, low: nat) {
    m.Gray(l) && ChildrenSeen(F, m, l) && IsLow(F, m, l, low) && low < m.Idx(l) && Lowered(F, m, m', l, low)
  }

  /** The outermost literal under visit has nowhere lower to go. */
  lemma SettleIsInner(F: Formula, m: Marks, low: nat, count: nat, scc: seq<int>, nodes: seq<int>)
    requires F.Valid() && Shape(F, m, count) && Component(F, m, scc) && Nodes(F, m, nodes, scc) && Low(F, m)
    requires nodes != [] && ChildrenSeen(F, m, nodes[|nodes| - 1])
    requires IsLow(F, m, nodes[|nodes| - 1], low) && low < m.Idx(nodes[|nodes| - 1])
    ensures |nodes| >= 2
  {
    var l := nodes[|nodes| - 1];
    assert HasLowPoint(F, m, l);
    if low == m.Min(l) {
      var x :| LowPoint(F, m, l, x);
      FirstIsLeast(F, m, scc, x);
    } else {
      var c :| F.Edge(l, c) && m.Min(c) == low;
      EdgeIsLit(F, l, c);
      assert HasLowPoint(F, m, c);
      var x :| LowPoint(F, m, c, x);
      FirstIsLeast(F, m, scc, x);
    }
  }

  lemma SettleCore(F: Formula, m: Marks, m': Marks, low: nat, count: nat, scc: seq<int>, nodes: seq<int>)
    requires F.Valid() && Core(F, m, count, scc, nodes) && |nodes| >= 2
    requires CanSettle(F, m, m', nodes[|nodes| - 1], low)
    requires F.Edge(nodes[|nodes| - 2], nodes[|nodes| - 1])
    ensures Core(F, m', count, scc, nodes[..|nodes| - 1])
  {
    assert Unfold(0);
    var l := nodes[|nodes| - 1];
    LowIsPositive(F, m, l, low, count);
    LowerShape(F, m, m', l, low, count);
    LowerComponent(F, m, m', l, low, scc, count);
    LowerLow(F, m, m', l, low, count);
    LowerTree(F, m, m', l, low, nodes);
    LowerComplete(F, m, m', l, low);
    LowerNodes(F, m, m', l, low, nodes, scc);
    SettleDescends(F, m, m', low, nodes);
    SettleExits(F, m, m', low, count, nodes, scc);
    DropTop(F, m', nodes, scc);
  }

  lemma DropTop(F: Formula, m: Marks, nodes: seq<int>, scc: seq<int>)
    requires |nodes| >= 2 && Nodes(F, m, nodes, scc) && Tree(F, m, nodes)
    ensures Nodes(F, m, nodes[..|nodes| - 1], scc) && Tree(F, m, nodes[..|nodes| - 1])
  {
  }

  lemma SettleDescends(F: Formula, m: Marks, m': Marks, low: nat, nodes: seq<int>)
    requires nodes != [] && Descends(F, m, nodes)
    requires CanSettle(F, m, m', nodes[|nodes| - 1], low)
    ensures Descends(F, m', nodes[..|nodes| - 1])
  {
    var n := |nodes| - 1;
    assert forall x :: m'.Idx(x) == m.Idx(x);
    forall u | F.Lit(u) && Done(m', nodes[..n], u) ensures m'.Min(u) < m'.Idx(u) && ChildrenSeen(F, m', u) {
      if u == nodes[n] {
        assert ChildrenSeen(F, m, u);
      } else {
        assert nodes == nodes[..n] + [nodes[n]];
        assert Done(m, nodes, u) && ChildrenSeen(F, m, u);
      }
    }
  }

  lemma SettleExits(F: Formula, m: Marks, m': Marks, low: nat, count: nat, nodes: seq<int>, scc: seq<int>)
    requires F.Valid() && |nodes| >= 2 && Exits(F, m, nodes) && Nodes(F, m, nodes, scc) && Shape(F, m, count)
    requires CanSettle(F, m, m', nodes[|nodes| - 1], low) && low < TRAVERSED
    requires F.Edge(nodes[|nodes| - 2], nodes[|nodes| - 1])
    ensures Exits(F, m', nodes[..|nodes| - 1])
  {
    var nodes' := nodes[..|nodes| - 1];
    forall k, u, x | 0 <= k < |nodes'| && Leaves(F, m', nodes', k, u, x)
      ensures exists w :: Exit(F, m', nodes', k, x, w)
    {
      var w := SettleExit(F, m, m', low, count, nodes, scc, k, u, x);
    }
  }

  lemma SettleExit(F: Formula, m: Marks, m': Marks, low: nat, count: nat, nodes: seq<int>, scc: seq<int>, k: nat, u: int, x: int) returns (w: int)
    requires F.Valid() && |nodes| >= 2 && Exits(F, m, nodes) && Nodes(F, m, nodes, scc) && Shape(F, m, count)
    requires CanSettle(F, m, m', nodes[|nodes| - 1], low) && low < TRAVERSED
    requires F.Edge(nodes[|nodes| - 2], nodes[|nodes| - 1])
    requires k < |nodes| - 1 && Leaves(F, m', nodes[..|nodes| - 1], k, u, x)
    ensures Exit(F, m', nodes[..|nodes| - 1], k, x, w)
  {
    var n := |nodes| - 1;
    var l := nodes[n];
    LeavesBefore(F, m, m', l, low, nodes, k, u, x);
    if u != l && BeforeNext(m, nodes, k, u) {
      assert Leaves(F, m, nodes, k, u, x) by { NodeOrder(F, m, nodes, scc, k, n); }
      var w0 :| Exit(F, m, nodes, k, x, w0);
      w := w0;
      ExitAfter(F, m, m', l, low, nodes, k, x, w);
    } else {
      w := l;
      NodeOrder(F, m, nodes, scc, k, n);
      SettleExitsTop(F, m, low, count, nodes, k, u, x);
    }
  }

  lemma LeavesBefore(F: Formula, m: Marks, m': Marks, l: int, low: nat, nodes: seq<int>, k: nat, u: int, x: int)
    requires F.Valid() && |nodes| >= 2 && l == nodes[|nodes| - 1] && m.Gray(l) && Lowered(F, m, m', l, low)
    requires k < |nodes| - 1 && Leaves(F, m', nodes[..|nodes| - 1], k, u, x)
    ensures F.Lit(u) && F.Lit(x) && m.Gray(u) && m.Gray(x) && F.Edge(u, x)
    ensures m.Idx(x) < m.Idx(nodes[k]) <= m.Idx(u) && (u != l ==> u !in nodes)
    ensures k + 1 < |nodes| - 1 ==> m.Idx(u) < m.Idx(nodes[k + 1])
  {
    var n := |nodes| - 1;
    assert nodes == nodes[..n] + [l];
    assert forall y :: m'.Idx(y) == m.Idx(y);
    EdgeIsLit(F, u, x);
    if k + 1 < n { assert nodes[..n][k + 1] == nodes[k + 1]; }
  }

  lemma ExitAfter(F: Formula, m: Marks, m': Marks, l: int, low: nat, nodes: seq<int>, k: nat, x: int, w: int)
    requires F.Valid() && |nodes| >= 2 && l == nodes[|nodes| - 1] && low <= m.Min(l) && low < TRAVERSED
    requires Lowered(F, m, m', l, low) && k < |nodes| - 1 && Exit(F, m, nodes, k, x, w)
    ensures Exit(F, m', nodes[..|nodes| - 1], k, x, w)
  {
    var n := |nodes| - 1;
    assert forall y :: m'.Idx(y) == m.Idx(y);
    EdgeIsLit(F, nodes[k], w);
    if k + 1 < n { assert nodes[..n][k + 1] == nodes[k + 1]; }
  }

  lemma SettleExitsTop(F: Formula, m: Marks, low: nat, count: nat, nodes: seq<int>, k: nat, u: int, x: int)
    requires F.Valid() && |nodes| >= 2 && k < |nodes| - 1 && Exits(F, m, nodes) && Shape(F, m, count)
    requires forall i, j :: 0 <= i < j < |nodes| ==> m.Idx(nodes[i]) < m.Idx(nodes[j])
    requires IsLow(F, m, nodes[|nodes| - 1], low) && F.Lit(nodes[|nodes| - 1]) && m.Gray(nodes[|nodes| - 1])
    requires u == nodes[|nodes| - 1] || (!BeforeNext(m, nodes, k, u) && u !in nodes)
    requires F.Lit(u) && F.Lit(x) && m.Gray(u) && m.Gray(x) && F.Edge(u, x) && m.Idx(x) < m.Idx(nodes[k])
    requires k + 1 < |nodes| - 1 ==> m.Idx(u) < m.Idx(nodes[k + 1])
    ensures k == |nodes| - 2 && low <= m.Idx(x)
  {
    var n := |nodes| - 1;
    var l := nodes[n];
    if u != l {
      assert m.Idx(l) <= m.Idx(u) && m.Idx(nodes[k]) < m.Idx(l);
      NoEscape(F, m, nodes, low, u, x);
    }
  }

  // --------------------------------------------- completing a component

  /** The open literals from l on: what is about to become a component. */
  ghost predicate InTail(F: Formula, m: Marks, l: int, u: int) {
    F.Lit(u) && m.Gray(u) && m.Idx(l) <= m.Idx(u)
  }

  /** The innermost literal under visit cannot leave its part of the open literals. */
  ghost predicate IsEntry(F: Formula, m: Marks, count: nat, scc: seq<int>, nodes: seq<int>) {
    && nodes != [] && Core(F, m, count, scc, nodes)
    && forall n {:trigger Unfold(n)} :: Unfold(n) ==>
         ChildrenSeen(F, m, nodes[|nodes| - 1]) && IsLow(F, m, nodes[|nodes| - 1], m.Idx(nodes[|nodes| - 1]))
  }

  /** No edge leaves the tail, except to completed components. */
  lemma TailIsClosed(F: Formula, m: Marks, count: nat, scc: seq<int>, nodes: seq<int>, u: int, c: int)
    requires F.Valid() && IsEntry(F, m, count, scc, nodes)
    requires InTail(F, m, nodes[|nodes| - 1], u) && F.Edge(u, c)
    ensures InTail(F, m, nodes[|nodes| - 1], c) || m.Black(c)
  {
    assert Unfold(0);
    var n := |nodes| - 1;
    var l := nodes[n];
    EdgeIsLit(F, u, c);
    if u == l {
      assert m.Idx(c) > 0;
      assert m.Idx(l) <= m.Min(c);
    } else {
      TailIsDone(F, m, nodes, scc, u);
      assert ChildrenSeen(F, m, u);
      NoEscape(F, m, nodes, m.Idx(l), u, c);
    }
  }

  /** A child of the top literal would know of any way out. */
  lemma NoEscape(F: Formula, m: Marks, nodes: seq<int>, low: nat, u: int, x: int)
    requires nodes != [] && Exits(F, m, nodes) && IsLow(F, m, nodes[|nodes| - 1], low)
    requires F.Lit(u) && Done(m, nodes, u) && F.Edge(u, x) && m.Idx(nodes[|nodes| - 1]) <= m.Idx(u)
    ensures m.Gray(x) ==> low <= m.Idx(x) || m.Idx(nodes[|nodes| - 1]) <= m.Idx(x)
  {
    var n := |nodes| - 1;
    if m.Gray(x) && m.Idx(x) < m.Idx(nodes[n]) {
      assert Leaves(F, m, nodes, n, u, x);
      var w :| Exit(F, m, nodes, n, x, w);
      assert F.Edge(nodes[n], w);
    }
  }

  lemma TailIsDone(F: Formula, m: Marks, nodes: seq<int>, scc: seq<int>, u: int)
    requires Nodes(F, m, nodes, scc) && nodes != [] && F.Lit(u) && m.Gray(u)
    requires m.Idx(nodes[|nodes| - 1]) <= m.Idx(u) && u != nodes[|nodes| - 1]
    ensures Done(m, nodes, u)
  {
    var n := |nodes| - 1;
    forall k | 0 <= k < |nodes| ensures nodes[k] != u {
      NodeOrder(F, m, nodes, scc, k, n);
    }
  }

  /** Every literal of the tail leads back to l. */
  lemma {:induction false} TailReturns(F: Formula, m: Marks, count: nat, scc: seq<int>, nodes: seq<int>, u: int)
    requires F.Valid() && IsEntry(F, m, count, scc, nodes)
    requires InTail(F, m, nodes[|nodes| - 1], u)
    ensures F.Mutual(u, nodes[|nodes| - 1])
    decreases m.Idx(u)
  {
    assert Unfold(0);
    var n := |nodes| - 1;
    var l := nodes[n];
    assert F.Reach(l, u);
    if u != l {
      TailIsDone(F, m, nodes, scc, u);
      assert HasLowPoint(F, m, u);
      var x :| LowPoint(F, m, u, x);
      LandsInTail(F, m, count, scc, nodes, u, x);
      TailReturns(F, m, count, scc, nodes, x);
      F.ReachTrans(u, x, l);
    }
  }

  /** Whatever open literal the tail reaches belongs to the tail. */
  lemma LandsInTail(F: Formula, m: Marks, count: nat, scc: seq<int>, nodes: seq<int>, u: int, x: int)
    requires F.Valid() && IsEntry(F, m, count, scc, nodes)
    requires InTail(F, m, nodes[|nodes| - 1], u) && F.Reach(u, x)
    ensures InTail(F, m, nodes[|nodes| - 1], x) || (F.Lit(x) && m.Black(x))
  {
    assert Unfold(0);
    var l := nodes[|nodes| - 1];
    var inside := set b | b in AllLits(F.maxVar) && (InTail(F, m, l, b) || m.Black(b));
    forall a, b | a in inside && F.Edge(a, b) ensures b in inside {
      EdgeIsLit(F, a, b);
      if InTail(F, m, l, a) { TailIsClosed(F, m, count, scc, nodes, a, b); }
    }
    assert F.Closed(inside);
  }

  /** The tail is exactly the strongly connected component of l. */
  lemma TailIsComponent(F: Formula, m: Marks, count: nat, scc: seq<int>, nodes: seq<int>, u: int)
    requires F.Valid() && IsEntry(F, m, count, scc, nodes)
    ensures InTail(F, m, nodes[|nodes| - 1], u) <==> F.Mutual(u, nodes[|nodes| - 1])
  {
    assert Unfold(0);
    var l := nodes[|nodes| - 1];
    assert InTail(F, m, l, l) && !m.Black(l);
    if InTail(F, m, l, u) {
      TailReturns(F, m, count, scc, nodes, u);
    } else if F.Mutual(u, l) {
      LandsInTail(F, m, count, scc, nodes, l, u);
      BlackStaysBlack(F, m, u, l);
      assert false;
    }
  }

  lemma BlackStaysBlack(F: Formula, m: Marks, u: int, x: int)
    requires F.Valid() && Complete(F, m) && F.Lit(u) && m.Black(u) && F.Reach(u, x)
    ensures m.Black(x)
  {
    var inside := set b | b in AllLits(F.maxVar) && m.Black(b);
    forall a, b | a in inside && F.Edge(a, b) ensures b in inside { EdgeIsLit(F, a, b); }
    assert F.Closed(inside);
  }

  /** Mutual reachability is symmetric and transitive. */
  lemma MutualTrans(F: Formula, a: int, b: int, c: int)
    requires F.Mutual(a, b) && F.Mutual(b, c)
    ensures F.Mutual(a, c)
  {
    F.ReachTrans(a, b, c);
    F.ReachTrans(c, b, a);
  }

  lemma MutualMirror(F: Formula, a: int, b: int)
    requires F.Valid() && F.Mutual(a, b)
    ensures F.Mutual(-a, -b)
  {
    F.ReachMirror(a, b);
    F.ReachMirror(b, a);
  }

  /** One conflict in a component puts every member next to its negation. */
  lemma ConflictSpreads(F: Formula, u: int, l: int)
    requires F.Valid() && F.Mutual(u, l) && F.Mutual(u, -u)
    ensures F.Mutual(l, -l)
  {
    MutualTrans(F, l, u, -u);
    MutualMirror(F, u, l);
    MutualTrans(F, l, -u, -l);
  }

  /** m' is m with the tail from l completed and represented by repr. */
  ghost predicate Closed(F: Formula, m: Marks, m': Marks, l: int, repr: int) {
    && m'.idx == m.idx && |m'.min| == |m.min| && |m'.reprs| == |m.reprs|
    && (forall x :: InTail(F, m, l, x) ==> m'.Min(x) == TRAVERSED && m'.Repr(x) == if F.Frozen(x) then x else repr)
    && (forall x :: F.Lit(x) && !InTail(F, m, l, x) ==> m'.Min(x) == m.Min(x) && m'.Repr(x) == m.Repr(x))
  }

  ghost predicate LeastOfTail(F: Formula, m: Marks, l: int, repr: int) {
    InTail(F, m, l, repr) && forall y :: InTail(F, m, l, y) ==> Abs(repr) <= Abs(y)
  }

  lemma CloseShape(F: Formula, m: Marks, m': Marks, l: int, repr: int, count: nat)
    requires Shape(F, m, count) && Counted(F, m, count) && Closed(F, m, m', l, repr)
    ensures Shape(F, m', count) && Counted(F, m', count)
  {
    assert forall x :: m'.Idx(x) == m.Idx(x);
    assert Opened(F, m') == Opened(F, m);
    forall x | F.Lit(x)
      ensures m'.Idx(x) <= count
      ensures m'.Idx(x) > 0 ==> F.Active(x)
      ensures m'.Idx(x) == 0 ==> m'.Min(x) == 0
      ensures m'.Gray(x) ==> 1 <= m'.Min(x) <= m'.Idx(x)
      ensures !m'.Black(x) ==> m'.Repr(x) == 0
    {
      if InTail(F, m, l, x) { assert m.Gray(x); }
    }
  }

  lemma CloseGray(F: Formula, m: Marks, m': Marks, l: int, repr: int, x: int)
    requires Closed(F, m, m', l, repr) && F.Lit(x)
    ensures m'.Idx(x) == m.Idx(x)
    ensures m'.Gray(x) <==> m.Gray(x) && m.Idx(x) < m.Idx(l)
    ensures m'.Gray(x) ==> m'.Min(x) == m.Min(x)
  {
  }

  lemma CloseComponent(F: Formula, m: Marks, m': Marks, repr: int, scc: seq<int>, j: nat)
    requires Component(F, m, scc) && j < |scc| && Closed(F, m, m', scc[j], repr)
    ensures Component(F, m', scc[..j])
  {
    var l := scc[j];
    forall i | 0 <= i < j ensures F.Lit(scc[i]) && m'.Gray(scc[i]) {
      assert m.Gray(scc[i]) && m.Idx(scc[i]) < m.Idx(l);
      CloseGray(F, m, m', l, repr, scc[i]);
    }
    forall x | F.Lit(x) && m'.Gray(x) ensures x in scc[..j] {
      CloseGray(F, m, m', l, repr, x);
      assert x in scc;
      var i :| 0 <= i < |scc| && scc[i] == x;
      SccOrder(F, m, scc, i, j);
      assert scc[..j][i] == x;
    }
    forall i, k | 0 <= i < k < j ensures m'.Idx(scc[i]) < m'.Idx(scc[k]) {
      assert m.Idx(scc[i]) < m.Idx(scc[k]);
      CloseGray(F, m, m', l, repr, scc[i]);
      CloseGray(F, m, m', l, repr, scc[k]);
    }
  }

  lemma CloseNodes(F: Formula, m: Marks, m': Marks, repr: int, scc: seq<int>, nodes: seq<int>, j: nat)
    requires Component(F, m, scc) && Nodes(F, m, nodes, scc) && nodes != []
    requires j < |scc| && scc[j] == nodes[|nodes| - 1] && Closed(F, m, m', scc[j], repr)
    ensures Nodes(F, m', nodes[..|nodes| - 1], scc[..j])
  {
    var n := |nodes| - 1;
    forall k | 0 <= k < n ensures m'.Gray(nodes[k]) && m'.Idx(nodes[k]) == m.Idx(nodes[k]) {
      assert m.Gray(nodes[k]) && m.Idx(nodes[k]) < m.Idx(nodes[n]);
      CloseGray(F, m, m', scc[j], repr, nodes[k]);
    }
    SccOrder(F, m, scc, 0, j);
    NodeOrder(F, m, nodes, scc, 0, n);
  }

  lemma CloseLow(F: Formula, m: Marks, m': Marks, l: int, repr: int, count: nat)
    requires Shape(F, m, count) && Low(F, m) && Closed(F, m, m', l, repr)
    ensures Low(F, m')
  {
    forall u | F.Lit(u) && m'.Gray(u) ensures HasLowPoint(F, m', u) {
      CloseGray(F, m, m', l, repr, u);
      assert HasLowPoint(F, m, u);
      var x :| LowPoint(F, m, u, x);
      CloseGray(F, m, m', l, repr, x);
      assert LowPoint(F, m', u, x);
    }
  }

  lemma CloseDescends(F: Formula, m: Marks, m': Marks, repr: int, nodes: seq<int>)
    requires nodes != [] && Descends(F, m, nodes) && Closed(F, m, m', nodes[|nodes| - 1], repr)
    ensures Descends(F, m', nodes[..|nodes| - 1])
  {
    var n := |nodes| - 1;
    var l, nodes' := nodes[n], nodes[..n];
    assert nodes == nodes' + [l];
    forall u | F.Lit(u) && Done(m', nodes', u) ensures m'.Min(u) < m'.Idx(u) && ChildrenSeen(F, m', u) {
      CloseGray(F, m, m', l, repr, u);
      assert Done(m, nodes, u) && ChildrenSeen(F, m, u);
      assert forall x :: m'.Idx(x) == m.Idx(x);
    }
  }

  lemma CloseTree(F: Formula, m: Marks, m': Marks, repr: int, nodes: seq<int>)
    requires nodes != [] && Tree(F, m, nodes) && Closed(F, m, m', nodes[|nodes| - 1], repr)
    ensures Tree(F, m', nodes[..|nodes| - 1])
  {
    var n := |nodes| - 1;
    var l, nodes' := nodes[n], nodes[..n];
    forall k, u | 0 <= k < |nodes'| && F.Lit(u) && m'.Gray(u) && m'.Idx(nodes'[k]) <= m'.Idx(u)
      ensures F.Reach(nodes'[k], u)
    {
      CloseGray(F, m, m', l, repr, u);
      assert m'.Idx(nodes[k]) == m.Idx(nodes[k]);
    }
  }

  lemma CloseExits(F: Formula, m: Marks, m': Marks, repr: int, scc: seq<int>, nodes: seq<int>)
    requires F.Valid() && nodes != [] && Nodes(F, m, nodes, scc) && Exits(F, m, nodes)
    requires Closed(F, m, m', nodes[|nodes| - 1], repr)
    ensures Exits(F, m', nodes[..|nodes| - 1])
  {
    var n := |nodes| - 1;
    var l, nodes' := nodes[n], nodes[..n];
    assert nodes == nodes' + [l];
    forall k, u, x | 0 <= k < |nodes'| && Leaves(F, m', nodes', k, u, x)
      ensures exists w :: Exit(F, m', nodes', k, x, w)
    {
      EdgeIsLit(F, u, x);
      assert forall y :: m'.Idx(y) == m.Idx(y);
      CloseGray(F, m, m', l, repr, u);
      CloseGray(F, m, m', l, repr, x);
      assert m.Idx(nodes[k + 1]) <= m.Idx(l);
      assert BeforeNext(m, nodes, k, u) by {
        if k + 1 < n { assert nodes'[k + 1] == nodes[k + 1]; }
      }
      assert Leaves(F, m, nodes, k, u, x);
      var w :| Exit(F, m, nodes, k, x, w);
      EdgeIsLit(F, nodes[k], w);
      CloseGray(F, m, m', l, repr, w);
      assert Exit(F, m', nodes', k, x, w);
    }
  }

  lemma MemberIsRepresented(F: Formula, l: int, repr: int, u: int)
    requires F.Valid() && F.Mutual(u, l) && F.Mutual(repr, l) && !F.Mutual(-l, l)
    requires forall y :: F.Mutual(y, l) ==> Abs(repr) <= Abs(y)
    ensures IsRepr(F, u, if F.Frozen(u) then u else repr) && !F.Mutual(u, -u)
  {
    MutualTrans(F, u, l, repr);
    forall y | F.Mutual(u, y) ensures Abs(repr) <= Abs(y) { MutualTrans(F, y, u, l); }
    if F.Mutual(u, -u) { ConflictSpreads(F, u, l); }
  }

  lemma TailIsRepresented(F: Formula, m: Marks, repr: int, count: nat, scc: seq<int>, nodes: seq<int>, u: int)
    requires F.Valid() && IsEntry(F, m, count, scc, nodes) && LeastOfTail(F, m, nodes[|nodes| - 1], repr)
    requires !InTail(F, m, nodes[|nodes| - 1], -nodes[|nodes| - 1]) && InTail(F, m, nodes[|nodes| - 1], u)
    ensures IsRepr(F, u, if F.Frozen(u) then u else repr) && !F.Mutual(u, -u)
  {
    TailIsComponent(F, m, count, scc, nodes, u);
    TailIsComponent(F, m, count, scc, nodes, repr);
    TailIsComponent(F, m, count, scc, nodes, -nodes[|nodes| - 1]);
    LeastOfComponent(F, m, repr, count, scc, nodes);
    MemberIsRepresented(F, nodes[|nodes| - 1], repr, u);
  }

  lemma LeastOfComponent(F: Formula, m: Marks, repr: int, count: nat, scc: seq<int>, nodes: seq<int>)
    requires F.Valid() && IsEntry(F, m, count, scc, nodes) && LeastOfTail(F, m, nodes[|nodes| - 1], repr)
    ensures forall y :: F.Mutual(y, nodes[|nodes| - 1]) ==> Abs(repr) <= Abs(y)
  {
    forall y | F.Mutual(y, nodes[|nodes| - 1]) ensures Abs(repr) <= Abs(y) {
      TailIsComponent(F, m, count, scc, nodes, y);
    }
  }

  lemma CloseComplete(F: Formula, m: Marks, m': Marks, repr: int, count: nat, scc: seq<int>, nodes: seq<int>)
    requires F.Valid() && IsEntry(F, m, count, scc, nodes)
    requires Closed(F, m, m', nodes[|nodes| - 1], repr) && LeastOfTail(F, m, nodes[|nodes| - 1], repr)
    requires !InTail(F, m, nodes[|nodes| - 1], -nodes[|nodes| - 1])
    ensures Complete(F, m')
  {
    assert Unfold(0);
    var l := nodes[|nodes| - 1];
    forall u, c | F.Lit(u) && m'.Black(u) && F.Edge(u, c) ensures m'.Black(c) {
      EdgeIsLit(F, u, c);
      if InTail(F, m, l, u) { TailIsClosed(F, m, count, scc, nodes, u, c); }
    }
    forall u | F.Lit(u) && m'.Black(u) ensures IsRepr(F, u, m'.Repr(u)) && !F.Mutual(u, -u) {
      if InTail(F, m, l, u) { TailIsRepresented(F, m, repr, count, scc, nodes, u); }
    }
  }

  lemma CloseCore(F: Formula, m: Marks, m': Marks, repr: int, count: nat, scc: seq<int>, nodes: seq<int>, j: nat)
    requires F.Valid() && IsEntry(F, m, count, scc, nodes)
    requires j < |scc| && scc[j] == nodes[|nodes| - 1]
    requires Closed(F, m, m', nodes[|nodes| - 1], repr) && LeastOfTail(F, m, nodes[|nodes| - 1], repr)
    requires !InTail(F, m, nodes[|nodes| - 1], -nodes[|nodes| - 1])
    ensures Core(F, m', count, scc[..j], nodes[..|nodes| - 1])
  {
    assert Unfold(0);
    CloseShape(F, m, m', nodes[|nodes| - 1], repr, count);
    CloseComponent(F, m, m', repr, scc, j);
    CloseNodes(F, m, m', repr, scc, nodes, j);
    CloseLow(F, m, m', nodes[|nodes| - 1], repr, count);
    CloseDescends(F, m, m', repr, nodes);
    CloseTree(F, m, m', repr, nodes);
    CloseExits(F, m, m', repr, scc, nodes);
    CloseComplete(F, m, m', repr, count, scc, nodes);
  }
}
