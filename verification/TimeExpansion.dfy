/** Expanding a sequential netlist over two clock cycles: one copy of every net per
    cycle, shared primary inputs, and a buffer for every captured state. */
module TimeExpansion {
  import opened Netlists
  import opened FaultGroups
  import opened FaultCollapsing
  import opened FaultTables

  // -------------------------------------------------------- numbering

  function Width(kind: Gate): nat { if kind == In then 1 else 2 }

  /** How many copies the nets before i have. */
  function NextId(o: Netlist, i: nat): nat
    requires i <= |o|
  {
    if i == 0 then 0 else NextId(o, i - 1) + Width(o[i - 1].kind)
  }

  function First(o: Netlist, i: nat): nat
    requires i < |o|
  {
    NextId(o, i)
  }

  function Second(o: Netlist, i: nat): nat
    requires i < |o|
  {
    NextId(o, i) + if o[i].kind == In then 0 else 1
  }

  lemma {:induction false} NextIdMonotone(o: Netlist, i: nat, j: nat)
    requires i <= j <= |o|
    ensures NextId(o, i) + (j - i) <= NextId(o, j)
    ensures i < j ==> NextId(o, i) + Width(o[i].kind) <= NextId(o, j)
    decreases j
  {
    if i < j { NextIdMonotone(o, i, j - 1); }
  }

  /** Copies of different nets, and the two copies of a net that is no input, differ. */
  lemma CopiesDiffer(o: Netlist, i: nat, j: nat)
    requires i < |o| && j < |o|
    ensures First(o, i) < NextId(o, |o|) && Second(o, i) < NextId(o, |o|)
    ensures i != j ==> First(o, i) != First(o, j) && First(o, i) != Second(o, j) && Second(o, i) != Second(o, j)
    ensures First(o, i) == Second(o, i) <==> o[i].kind == In
    ensures Second(o, i) == First(o, i) + (if o[i].kind == In then 0 else 1) && (i == 0 ==> First(o, i) == 0)
    ensures j == i + 1 ==> First(o, j) == Second(o, i) + 1
  {
    NextIdMonotone(o, i, |o|);
    NextIdMonotone(o, j, |o|);
    if i < j { NextIdMonotone(o, i, j); }
    if j < i { NextIdMonotone(o, j, i); }
  }

  /** Every number belongs to a copy. */
  lemma {:induction false} OriginOf(o: Netlist, k: nat, n: nat) returns (i: nat)
    requires k <= |o| && n < NextId(o, k)
    ensures i < k && (n == First(o, i) || n == Second(o, i))
  {
    if n >= NextId(o, k - 1) {
      i := k - 1;
    } else {
      i := OriginOf(o, k - 1, n);
    }
  }

  // ------------------------------------------------------ the expansion

  /** The copies that the edges of a net lead to in a cycle: an edge to a state
      element leads from the first cycle into the second and nowhere else. */
  function FrameOutputs(o: Netlist, outs: seq<nat>, frame: int): seq<nat>
    requires forall k :: 0 <= k < |outs| ==> outs[k] < |o|
  {
    if outs == [] then []
    else
      var y := outs[|outs| - 1];
      FrameOutputs(o, outs[..|outs| - 1], frame)
      + if o[y].kind == Dff then (if frame == 1 then [Second(o, y)] else [])
        else [if frame == 1 then First(o, y) else Second(o, y)]
  }

  lemma {:induction false} FrameOutputsConcat(o: Netlist, a: seq<nat>, b: seq<nat>, frame: int)
    requires (forall k :: 0 <= k < |a| ==> a[k] < |o|) && forall k :: 0 <= k < |b| ==> b[k] < |o|
    ensures FrameOutputs(o, a + b, frame) == FrameOutputs(o, a, frame) + FrameOutputs(o, b, frame)
    decreases |b|
  {
    if b == [] {
      assert a + b == a;
    } else {
      assert (a + b)[..|a + b| - 1] == a + b[..|b| - 1];
      FrameOutputsConcat(o, a, b[..|b| - 1], frame);
    }
  }

  /** The copies keep the order of the edges: each edge has its copy, or none, at its place. */
  lemma FrameOutputsInOrder(o: Netlist, before: seq<nat>, y: nat, after: seq<nat>, frame: int)
    requires y < |o| && (forall k :: 0 <= k < |before| ==> before[k] < |o|) && forall k :: 0 <= k < |after| ==> after[k] < |o|
    ensures var copy := if o[y].kind == Dff then (if frame == 1 then [Second(o, y)] else []) else [if frame == 1 then First(o, y) else Second(o, y)];
      FrameOutputs(o, before + [y] + after, frame) == FrameOutputs(o, before, frame) + copy + FrameOutputs(o, after, frame)
  {
    FrameOutputsConcat(o, before, [y], frame);
    FrameOutputsConcat(o, before + [y], after, frame);
    assert [y][..0] == [];
    assert FrameOutputs(o, [], frame) == [];
  }

  function FrameInputs(o: Netlist, ins: seq<nat>, frame: int): (ids: seq<nat>)
    requires forall k :: 0 <= k < |ins| ==> ins[k] < |o|
    ensures |ids| == |ins| && forall k :: 0 <= k < |ins| ==> ids[k] == if frame == 1 then First(o, ins[k]) else Second(o, ins[k])
  {
    seq(|ins|, k requires 0 <= k < |ins| => if frame == 1 then First(o, ins[k]) else Second(o, ins[k]))
  }

  /** A netlist whose output lists name existing nets and mirror the input lists. */
  ghost predicate Mirrored(o: Netlist) {
    && (forall i, k :: 0 <= i < |o| && 0 <= k < |o[i].outs| ==> o[i].outs[k] < |o|)
    && (forall i: nat, j: nat {:trigger Count(o[i].outs, j)} {:trigger Count(o[j].ins, i)} :: i < |o| && j < |o| ==>
          Count(o[i].outs, j) == Count(o[j].ins, i))
  }

  function Count(s: seq<nat>, x: nat): nat {
    if s == [] then 0 else Count(s[..|s| - 1], x) + if s[|s| - 1] == x then 1 else 0
  }

  function ExpandedNet(o: Netlist, i: nat, frame: int): Net
    requires Closed(o) && Mirrored(o) && i < |o|
  {
    var net := o[i];
    if net.kind == In then Net(In, [], FrameOutputs(o, net.outs, 1) + FrameOutputs(o, net.outs, 2))
    else if net.kind == Dff then
      if frame == 1 then Net(In, [], FrameOutputs(o, net.outs, 1))
      else Net(Buf, [First(o, net.ins[0])], FrameOutputs(o, net.outs, 2))
    else Net(net.kind, FrameInputs(o, net.ins, frame), FrameOutputs(o, net.outs, frame))
  }

  /** The number of the second copy of a net before k. */
  ghost predicate IsSecond(o: Netlist, k: nat, n: nat) { exists i: nat :: i < k && i < |o| && n == Second(o, i) }

  /** The expanded netlist holds the right copy at every number, and every copy of
      the second cycle knows its partner. */
  ghost predicate IsExpansion(o: Netlist, c: Circuit) {
    && Closed(o) && Mirrored(o) && |c.nl| == NextId(o, |o|)
    && forall u {:trigger Unfold(u)} :: Unfold(u) ==>
      && (forall i: nat :: i < |o| ==> First(o, i) < |c.nl| && c.nl[First(o, i)] == ExpandedNet(o, i, 1))
      && (forall i: nat :: i < |o| ==> Second(o, i) < |c.nl| && c.nl[Second(o, i)] == ExpandedNet(o, i, 2))
      && (forall i: nat :: i < |o| ==> Second(o, i) in c.peer && c.peer[Second(o, i)] == First(o, i))
      && (forall n :: n in c.peer ==> IsSecond(o, |o|, n))
  }

  lemma CopiesAt(o: Netlist, c: Circuit, i: nat)
    requires IsExpansion(o, c) && i < |o|
    ensures First(o, i) < |c.nl| && c.nl[First(o, i)] == ExpandedNet(o, i, 1)
    ensures Second(o, i) < |c.nl| && c.nl[Second(o, i)] == ExpandedNet(o, i, 2)
    ensures Second(o, i) in c.peer && c.peer[Second(o, i)] == First(o, i)
  {
    assert Unfold(0);
  }

  lemma PeerOrigin(o: Netlist, c: Circuit, n: nat) returns (i: nat)
    requires IsExpansion(o, c) && n in c.peer
    ensures i < |o| && n == Second(o, i)
  {
    assert Unfold(0);
    assert IsSecond(o, |o|, n);
    i :| i < |o| && n == Second(o, i);
  }

  // ---------------------------------------------------------- acyclicity

  ghost function ExpandedRank(o: Netlist, rank: seq<nat>, n: nat): nat
    requires |rank| == |o| && n < NextId(o, |o|)
  {
    var i := OriginIndex(o, |o|, n);
    if n == First(o, i) then rank[i] else MaxRank(rank) + 1 + rank[i]
  }

  ghost function OriginIndex(o: Netlist, k: nat, n: nat): (i: nat)
    requires k <= |o| && n < NextId(o, k)
    ensures i < k && (n == First(o, i) || n == Second(o, i))
  {
    if n >= NextId(o, k - 1) then k - 1 else OriginIndex(o, k - 1, n)
  }

  lemma OriginIsUnique(o: Netlist, i: nat)
    requires i < |o|
    ensures First(o, i) < NextId(o, |o|) && OriginIndex(o, |o|, First(o, i)) == i
    ensures Second(o, i) < NextId(o, |o|) && OriginIndex(o, |o|, Second(o, i)) == i
  {
    CopiesDiffer(o, i, i);
    CopiesDiffer(o, i, OriginIndex(o, |o|, First(o, i)));
    CopiesDiffer(o, i, OriginIndex(o, |o|, Second(o, i)));
    CopiesDiffer(o, OriginIndex(o, |o|, First(o, i)), i);
    CopiesDiffer(o, OriginIndex(o, |o|, Second(o, i)), i);
  }

  ghost function Ranks(o: Netlist, rank: seq<nat>): (r: seq<nat>)
    requires |rank| == |o|
    ensures |r| == NextId(o, |o|) && forall n: nat :: n < |r| ==> r[n] == ExpandedRank(o, rank, n)
  {
    seq(NextId(o, |o|), n requires 0 <= n < NextId(o, |o|) => ExpandedRank(o, rank, n))
  }

  lemma RankOfCopies(o: Netlist, rank: seq<nat>, i: nat)
    requires |rank| == |o| && i < |o|
    ensures First(o, i) < NextId(o, |o|) && Ranks(o, rank)[First(o, i)] == rank[i]
    ensures Second(o, i) < NextId(o, |o|)
    ensures Ranks(o, rank)[Second(o, i)] == if o[i].kind == In then rank[i] else MaxRank(rank) + 1 + rank[i]
  {
    OriginIsUnique(o, i);
    CopiesDiffer(o, i, i);
  }

  /** The expanded netlist has no cycle, and no state element is left. */
  lemma ExpansionIsAcyclic(o: Netlist, rank: seq<nat>, c: Circuit)
    requires Ranked(o, rank) && IsExpansion(o, c)
    ensures Ranked(c.nl, Ranks(o, rank)) && forall n :: 0 <= n < |c.nl| ==> c.nl[n].kind != Dff
  {
    forall n: nat | n < |c.nl|
      ensures ArityOk(c.nl[n]) && c.nl[n].kind != Dff
      ensures forall j :: 0 <= j < |c.nl[n].ins| ==> c.nl[n].ins[j] < |c.nl|
      ensures !IsSource(c.nl[n].kind) ==> forall j :: 0 <= j < |c.nl[n].ins| ==>
                c.nl[n].ins[j] < |c.nl| && Ranks(o, rank)[c.nl[n].ins[j]] < Ranks(o, rank)[n]
    {
      var i := OriginOf(o, |o|, n);
      CopyIsRanked(o, rank, c, i, 1);
      CopyIsRanked(o, rank, c, i, 2);
    }
  }

  lemma InputRankedLower(o: Netlist, rank: seq<nat>, i: nat, j: nat, frame: int)
    requires Ranked(o, rank) && i < |o| && !IsSource(o[i].kind) && j < |o[i].ins|
    ensures First(o, o[i].ins[j]) < NextId(o, |o|) && Second(o, o[i].ins[j]) < NextId(o, |o|)
    ensures First(o, i) < NextId(o, |o|) && Second(o, i) < NextId(o, |o|)
    ensures Ranks(o, rank)[First(o, o[i].ins[j])] < Ranks(o, rank)[First(o, i)]
    ensures Ranks(o, rank)[Second(o, o[i].ins[j])] < Ranks(o, rank)[Second(o, i)]
  {
    RankOfCopies(o, rank, i);
    RankOfCopies(o, rank, o[i].ins[j]);
  }

  lemma CopyIsRanked(o: Netlist, rank: seq<nat>, c: Circuit, i: nat, frame: int)
    requires Ranked(o, rank) && IsExpansion(o, c) && i < |o| && (frame == 1 || frame == 2)
    ensures var n := if frame == 1 then First(o, i) else Second(o, i);
      && n < |c.nl| && ArityOk(c.nl[n]) && c.nl[n].kind != Dff
      && forall j :: 0 <= j < |c.nl[n].ins| ==> c.nl[n].ins[j] < |c.nl| && Ranks(o, rank)[c.nl[n].ins[j]] < Ranks(o, rank)[n]
  {
    var n := if frame == 1 then First(o, i) else Second(o, i);
    CopiesAt(o, c, i);
    RankOfCopies(o, rank, i);
    if o[i].kind == Dff {
      if frame == 2 { RankOfCopies(o, rank, o[i].ins[0]); }
    } else if o[i].kind != In {
      forall j | 0 <= j < |o[i].ins| ensures c.nl[n].ins[j] < |c.nl| && Ranks(o, rank)[c.nl[n].ins[j]] < Ranks(o, rank)[n] {
        InputRankedLower(o, rank, i, j, frame);
        assert c.nl[n].ins[j] == if frame == 1 then First(o, o[i].ins[j]) else Second(o, o[i].ins[j]);
      }
    }
  }

  // -------------------------------------------------------------- values

  /** The state after one clock cycle, with the inputs unchanged. */
  ghost function NextEnv(o: Netlist, rank: seq<nat>, env: seq<bool>): (e: seq<bool>)
    requires Ranked(o, rank) && |env| == |o|
    ensures |e| == |o|
    ensures forall i: nat :: i < |o| ==> e[i] == if o[i].kind == Dff then Value(o, rank, env, Healthy, o[i].ins[0]) else env[i]
  {
    seq(|o|, i requires 0 <= i < |o| => if o[i].kind == Dff then Value(o, rank, env, Healthy, o[i].ins[0]) else env[i])
  }

  /** The free inputs of the expansion carry the inputs and the initial state. */
  ghost predicate Carries(o: Netlist, c: Circuit, env: seq<bool>, wide: seq<bool>) {
    |env| == |o| && |wide| == |c.nl| && forall i: nat :: i < |o| && IsSource(o[i].kind) && First(o, i) < |wide| ==> wide[First(o, i)] == env[i]
  }

  /** A gate and its copy with equal inputs have equal values. */
  lemma CopiedGate(x: Netlist, r: seq<nat>, wide: seq<bool>, n: nat, o: Netlist, rank: seq<nat>, env: seq<bool>, i: nat)
    requires Ranked(x, r) && |wide| == |x| && n < |x| && Ranked(o, rank) && |env| == |o| && i < |o|
    requires x[n].kind == o[i].kind && !IsSource(o[i].kind) && |x[n].ins| == |o[i].ins|
    requires forall j :: 0 <= j < |o[i].ins| ==> Value(x, r, wide, Healthy, x[n].ins[j]) == Value(o, rank, env, Healthy, o[i].ins[j])
    ensures Value(x, r, wide, Healthy, n) == Value(o, rank, env, Healthy, i)
  {
    ValueOfGate(x, r, wide, Healthy, n);
    ValueOfGate(o, rank, env, Healthy, i);
    assert InputValues(x, r, wide, Healthy, n) == InputValues(o, rank, env, Healthy, i);
  }

  /** The first copy has the value of cycle one, the second copy that of cycle two. */
  lemma {:induction false} FirstCopyValue(o: Netlist, rank: seq<nat>, c: Circuit, env: seq<bool>, wide: seq<bool>, i: nat)
    requires Ranked(o, rank) && IsExpansion(o, c) && Ranked(c.nl, Ranks(o, rank)) && Carries(o, c, env, wide) && i < |o|
    ensures First(o, i) < |c.nl|
    ensures Value(c.nl, Ranks(o, rank), wide, Healthy, First(o, i)) == Value(o, rank, env, Healthy, i)
    decreases rank[i]
  {
    var r, n := Ranks(o, rank), First(o, i);
    CopiesAt(o, c, i);
    if !IsSource(o[i].kind) {
      forall j | 0 <= j < |o[i].ins|
        ensures Value(c.nl, r, wide, Healthy, c.nl[n].ins[j]) == Value(o, rank, env, Healthy, o[i].ins[j])
      {
        FirstCopyValue(o, rank, c, env, wide, o[i].ins[j]);
      }
      CopiedGate(c.nl, r, wide, n, o, rank, env, i);
    }
  }

  lemma {:induction false} SecondCopyValue(o: Netlist, rank: seq<nat>, c: Circuit, env: seq<bool>, wide: seq<bool>, i: nat)
    requires Ranked(o, rank) && IsExpansion(o, c) && Ranked(c.nl, Ranks(o, rank)) && Carries(o, c, env, wide) && i < |o|
    ensures Second(o, i) < |c.nl|
    ensures Value(c.nl, Ranks(o, rank), wide, Healthy, Second(o, i)) == Value(o, rank, NextEnv(o, rank, env), Healthy, i)
    decreases rank[i]
  {
    var r, n, env2 := Ranks(o, rank), Second(o, i), NextEnv(o, rank, env);
    CopiesAt(o, c, i);
    if o[i].kind == In {
      assert Second(o, i) == First(o, i);
    } else if o[i].kind == Dff {
      FirstCopyValue(o, rank, c, env, wide, o[i].ins[0]);
      BufferValue(c.nl, r, wide, n);
    } else {
      forall j | 0 <= j < |o[i].ins|
        ensures Value(c.nl, r, wide, Healthy, c.nl[n].ins[j]) == Value(o, rank, env2, Healthy, o[i].ins[j])
      {
        SecondCopyValue(o, rank, c, env, wide, o[i].ins[j]);
      }
      CopiedGate(c.nl, r, wide, n, o, rank, env2, i);
    }
  }

  lemma BufferValue(x: Netlist, r: seq<nat>, wide: seq<bool>, n: nat)
    requires Ranked(x, r) && |wide| == |x| && n < |x| && x[n].kind == Buf
    ensures Value(x, r, wide, Healthy, n) == Value(x, r, wide, Healthy, x[n].ins[0])
  {
    ValueOfGate(x, r, wide, Healthy, n);
    assert InputValues(x, r, wide, Healthy, n)[0] == Value(x, r, wide, Healthy, x[n].ins[0]);
  }

  /** The observed nets carry what the state elements capture at the end of cycle two. */
  lemma PortsCaptureTwice(o: Netlist, rank: seq<nat>, c: Circuit, env: seq<bool>, wide: seq<bool>, d: nat)
    requires Ranked(o, rank) && IsExpansion(o, c) && Carries(o, c, env, wide) && d < |o| && o[d].kind == Dff
    ensures Ranked(c.nl, Ranks(o, rank)) && Second(o, o[d].ins[0]) < |c.nl|
    ensures Value(c.nl, Ranks(o, rank), wide, Healthy, Second(o, o[d].ins[0])) == NextEnv(o, rank, NextEnv(o, rank, env))[d]
  {
    ExpansionIsAcyclic(o, rank, c);
    SecondCopyValue(o, rank, c, env, wide, o[d].ins[0]);
  }

  // -------------------------------------------- outputs mirror inputs

  lemma {:induction false} CountConcat(s: seq<nat>, t: seq<nat>, x: nat)
    ensures Count(s + t, x) == Count(s, x) + Count(t, x)
  {
    if t == [] {
      assert s + t == s;
    } else {
      assert (s + t)[..|s + t| - 1] == s + t[..|t| - 1];
      CountConcat(s, t[..|t| - 1], x);
    }
  }

  lemma {:induction false} CountFirstOutputs(o: Netlist, outs: seq<nat>, j: nat)
    requires j < |o| && forall k :: 0 <= k < |outs| ==> outs[k] < |o|
    ensures Count(FrameOutputs(o, outs, 1), First(o, j)) == if o[j].kind == Dff then 0 else Count(outs, j)
    ensures Count(FrameOutputs(o, outs, 1), Second(o, j)) == if o[j].kind in {Dff, In} then Count(outs, j) else 0
  {
    if outs != [] {
      var init, y := outs[..|outs| - 1], outs[|outs| - 1];
      CountFirstOutputs(o, init, j);
      CopiesDiffer(o, y, j);
      CopiesDiffer(o, j, y);
      var x := if o[y].kind == Dff then Second(o, y) else First(o, y);
      CountLast(FrameOutputs(o, init, 1), x, First(o, j));
      CountLast(FrameOutputs(o, init, 1), x, Second(o, j));
    }
  }

  lemma {:induction false} CountSecondOutputs(o: Netlist, outs: seq<nat>, j: nat)
    requires j < |o| && forall k :: 0 <= k < |outs| ==> outs[k] < |o|
    ensures Count(FrameOutputs(o, outs, 2), First(o, j)) == if o[j].kind == In then Count(outs, j) else 0
    ensures Count(FrameOutputs(o, outs, 2), Second(o, j)) == if o[j].kind == Dff then 0 else Count(outs, j)
  {
    if outs != [] {
      var init, y := outs[..|outs| - 1], outs[|outs| - 1];
      CountSecondOutputs(o, init, j);
      CopiesDiffer(o, y, j);
      CopiesDiffer(o, j, y);
      var before := FrameOutputs(o, init, 2);
      if o[y].kind == Dff {
        assert FrameOutputs(o, outs, 2) == before;
      } else {
        assert FrameOutputs(o, outs, 2) == before + [Second(o, y)];
        CountLast(before, Second(o, y), First(o, j));
        CountLast(before, Second(o, y), Second(o, j));
      }
    }
  }

  lemma CountLast(s: seq<nat>, x: nat, y: nat)
    ensures Count(s + [x], y) == Count(s, y) + if x == y then 1 else 0
  {
    assert (s + [x])[..|s|] == s;
  }

  lemma {:induction false} CountFirstInputs(o: Netlist, ins: seq<nat>, i: nat)
    requires i < |o| && forall k :: 0 <= k < |ins| ==> ins[k] < |o|
    ensures Count(FrameInputs(o, ins, 1), First(o, i)) == Count(ins, i)
    ensures Count(FrameInputs(o, ins, 1), Second(o, i)) == if o[i].kind == In then Count(ins, i) else 0
  {
    if ins != [] {
      var n := |ins| - 1;
      CountFirstInputs(o, ins[..n], i);
      CopiesDiffer(o, ins[n], i);
      CopiesDiffer(o, i, ins[n]);
      assert FrameInputs(o, ins, 1)[..n] == FrameInputs(o, ins[..n], 1);
    }
  }

  lemma {:induction false} CountSecondInputs(o: Netlist, ins: seq<nat>, i: nat)
    requires i < |o| && forall k :: 0 <= k < |ins| ==> ins[k] < |o|
    ensures Count(FrameInputs(o, ins, 2), Second(o, i)) == Count(ins, i)
    ensures Count(FrameInputs(o, ins, 2), First(o, i)) == if o[i].kind == In then Count(ins, i) else 0
  {
    if ins != [] {
      var n := |ins| - 1;
      CountSecondInputs(o, ins[..n], i);
      CopiesDiffer(o, ins[n], i);
      CopiesDiffer(o, i, ins[n]);
      assert FrameInputs(o, ins, 2)[..n] == FrameInputs(o, ins[..n], 2);
    }
  }

  function Copy(o: Netlist, i: nat, frame: int): nat
    requires i < |o|
  {
    if frame == 1 then First(o, i) else Second(o, i)
  }

  /** How often the copies of net j are outputs of a copy of net i. */
  lemma OutputsOfCopy(o: Netlist, i: nat, f: int, j: nat)
    requires Closed(o) && Mirrored(o) && i < |o| && j < |o| && f in {1, 2}
    ensures var n, kind, outs := Count(o[i].outs, j), o[j].kind, ExpandedNet(o, i, f).outs;
      var first, second := (if kind == Dff then 0 else n), (if kind == Dff || kind == In then n else 0);
      var third, fourth := (if kind == In then n else 0), (if kind == Dff then 0 else n);
      if o[i].kind == In then Count(outs, First(o, j)) == first + third && Count(outs, Second(o, j)) == second + fourth
      else if f == 1 then Count(outs, First(o, j)) == first && Count(outs, Second(o, j)) == second
      else Count(outs, First(o, j)) == third && Count(outs, Second(o, j)) == fourth
  {
    CountFirstOutputs(o, o[i].outs, j);
    CountSecondOutputs(o, o[i].outs, j);
    CountConcat(FrameOutputs(o, o[i].outs, 1), FrameOutputs(o, o[i].outs, 2), First(o, j));
    CountConcat(FrameOutputs(o, o[i].outs, 1), FrameOutputs(o, o[i].outs, 2), Second(o, j));
  }

  /** How often the copies of net i are inputs of a copy of net j. */
  lemma InputsOfCopy(o: Netlist, i: nat, j: nat, g: int)
    requires Closed(o) && Mirrored(o) && i < |o| && j < |o| && g in {1, 2}
    ensures var n, source, ins := Count(o[j].ins, i), o[i].kind == In, ExpandedNet(o, j, g).ins;
      if o[j].kind == In then n == 0 && Count(ins, First(o, i)) == Count(ins, Second(o, i)) == 0
      else if o[j].kind == Dff && g == 1 then Count(ins, First(o, i)) == Count(ins, Second(o, i)) == 0
      else if o[j].kind == Dff || g == 1 then Count(ins, First(o, i)) == n && Count(ins, Second(o, i)) == if source then n else 0
      else Count(ins, Second(o, i)) == n && Count(ins, First(o, i)) == if source then n else 0
  {
    if o[j].kind == Dff {
      var d := o[j].ins[0];
      OneInput(o[j].ins, i);
      CopiesDiffer(o, i, d);
      CopiesDiffer(o, d, i);
      OneInput([First(o, d)], First(o, i));
      OneInput([First(o, d)], Second(o, i));
    } else if o[j].kind != In {
      CountFirstInputs(o, o[j].ins, i);
      CountSecondInputs(o, o[j].ins, i);
    }
  }

  /** Each copy is an output of another as often as that is an input of it. */
  lemma CopiesMirror(o: Netlist, i: nat, f: int, j: nat, g: int)
    requires Closed(o) && Mirrored(o) && i < |o| && j < |o| && f in {1, 2} && g in {1, 2}
    ensures Count(ExpandedNet(o, i, f).outs, Copy(o, j, g)) == Count(ExpandedNet(o, j, g).ins, Copy(o, i, f))
  {
    assert Count(o[i].outs, j) == Count(o[j].ins, i);
    OutputsOfCopy(o, i, f, j);
    InputsOfCopy(o, i, j, g);
    CopiesDiffer(o, i, i);
    CopiesDiffer(o, j, j);
  }

  lemma OneInput(s: seq<nat>, x: nat)
    requires |s| == 1
    ensures Count(s, x) == if s[0] == x then 1 else 0
  {
    assert s[..0] == [];
  }

  /** The output lists of the expansion are exactly the converse of its input lists. */
  lemma ExpansionIsMirrored(o: Netlist, c: Circuit, a: nat, b: nat)
    requires IsExpansion(o, c) && a < |c.nl| && b < |c.nl|
    ensures Count(c.nl[a].outs, b) == Count(c.nl[b].ins, a)
  {
    var i := OriginOf(o, |o|, a);
    var j := OriginOf(o, |o|, b);
    CopiesAt(o, c, i);
    CopiesAt(o, c, j);
    var f, g := (if a == First(o, i) then 1 else 2), (if b == First(o, j) then 1 else 2);
    CopiesMirror(o, i, f, j, g);
  }

  // -------------------------------------------- collapsing on the expansion

  /** The nets that the state elements capture at the end of cycle two. */
  ghost function Observed(o: Netlist): set<nat>
    requires Closed(o)
  {
    set d | 0 <= d < |o| && o[d].kind == Dff :: Second(o, o[d].ins[0])
  }

  /** If every gate input of the original netlist is private, the expansion meets
      what collapsing transition faults needs. */
  lemma ExpansionIsFrameNormal(o: Netlist, c: Circuit, outputs: set<nat>)
    requires IsExpansion(o, c) && FanoutNormal(o, outputs)
    ensures FrameNormal(c, Observed(o))
  {
    forall n | n in c.peer ensures n < |c.nl| && c.peer[n] < |c.nl| {
      var i := PeerOrigin(o, c, n);
      CopiesAt(o, c, i);
    }
    forall g: nat | g < |c.nl| && Considered(c, Tdf, g)
      ensures var i := c.nl[g].ins[0];
        && c.nl[c.peer[g]].kind == c.nl[g].kind && c.nl[c.peer[g]].ins == [c.peer[i]]
        && (c.peer[i] == i || (i !in Observed(o) && PrivateInput(c.nl, i, g)))
    {
      var k := PeerOrigin(o, c, g);
      ConsideredIsNormal(o, c, outputs, k);
    }
  }

  lemma ConsideredIsNormal(o: Netlist, c: Circuit, outputs: set<nat>, k: nat)
    requires IsExpansion(o, c) && FanoutNormal(o, outputs) && k < |o| && Second(o, k) < |c.nl| && Considered(c, Tdf, Second(o, k))
    ensures var g := Second(o, k); var i := c.nl[g].ins[0];
      && c.nl[c.peer[g]].kind == c.nl[g].kind && i in c.peer && c.nl[c.peer[g]].ins == [c.peer[i]]
      && (c.peer[i] == i || (i !in Observed(o) && PrivateInput(c.nl, i, g)))
  {
    var g := Second(o, k);
    CopiesAt(o, c, k);
    CopiesDiffer(o, k, k);
    assert o[k].kind in {Buf, Inv};
    var s := o[k].ins[0];
    CopiesAt(o, c, s);
    assert c.nl[g].ins == [Second(o, s)] && c.nl[First(o, k)].ins == [First(o, s)];
    assert s in o[k].ins && Reads(o, k, s);
    if o[s].kind != In {
      forall h: nat | Reads(c.nl, h, Second(o, s)) ensures h == g { SecondCopyReaders(o, c, outputs, s, k, h); }
      NotCaptured(o, outputs, s, k);
    } else {
      CopiesDiffer(o, s, s);
    }
  }

  /** A net that a gate reads is not captured by a state element. */
  lemma NotCaptured(o: Netlist, outputs: set<nat>, s: nat, k: nat)
    requires Closed(o) && FanoutNormal(o, outputs) && s < |o| && Reads(o, k, s) && o[k].kind in {Buf, Inv}
    ensures Second(o, s) !in Observed(o)
  {
    forall d | 0 <= d < |o| && o[d].kind == Dff ensures Second(o, o[d].ins[0]) != Second(o, s) {
      assert Reads(o, d, o[d].ins[0]);
      CopiesDiffer(o, o[d].ins[0], s);
    }
  }

  /** Only the copy of the one reader reads a second copy. */
  lemma SecondCopyReaders(o: Netlist, c: Circuit, outputs: set<nat>, s: nat, k: nat, h: nat)
    requires IsExpansion(o, c) && FanoutNormal(o, outputs) && s < |o| && k < |o| && o[s].kind != In
    requires Reads(o, k, s) && o[k].kind in {Buf, Inv} && Reads(c.nl, h, Second(o, s))
    ensures h == Second(o, k)
  {
    var i := OriginOf(o, |o|, h);
    var j :| 0 <= j < |c.nl[h].ins| && c.nl[h].ins[j] == Second(o, s);
    CopiesDiffer(o, s, s);
    CopiesAt(o, c, i);
    if o[i].kind == Dff {
      CopiesDiffer(o, o[i].ins[0], s);
    } else {
      CopiesDiffer(o, o[i].ins[j], s);
      CopiesDiffer(o, s, o[i].ins[j]);
      assert Reads(o, i, s);
    }
  }

  /** Collapsing transition faults on the expansion of any netlist in fan-out normal
      form is sound. */
  lemma ExpandedCollapsingIsSound(o: Netlist, rank: seq<nat>, outputs: set<nat>, c: Circuit, external: seq<Pair>, a: nat, b: nat)
    requires Ranked(o, rank) && FanoutNormal(o, outputs) && IsExpansion(o, c)
    requires Ranked(c.nl, Ranks(o, rank)) ==> AllSameTransition(c, Ranks(o, rank), Observed(o), external)
    requires a < 2 * |c.nl| && b < 2 * |c.nl| && Closed(c.nl) && Connected(StructuralPairs(c, Tdf, |c.nl|) + external, a, b)
    ensures Ranked(c.nl, Ranks(o, rank)) && SameTransition(c, Ranks(o, rank), Observed(o), a, b)
  {
    ExpansionIsAcyclic(o, rank, c);
    ExpansionIsFrameNormal(o, c, outputs);
    CollapsedTransitionsAreSame(c, Ranks(o, rank), Observed(o), external, a, b);
  }

  // ---------------------------------------------- what the ports stand for

  /** All state elements, in ascending order. */
  ghost predicate ListsStates(o: Netlist, k: nat, states: seq<nat>)
    requires k <= |o|
  {
    && (forall a, b :: 0 <= a < b < |states| ==> states[a] < states[b])
    && forall n: nat :: n in states <==> n < k && o[n].kind == Dff
  }

  /** All inputs, each of them once. */
  ghost predicate ListsInputs(o: Netlist, nets: seq<nat>) {
    && (forall a, b :: 0 <= a < b < |nets| ==> nets[a] != nets[b])
    && forall n: nat :: n in nets <==> n < |o| && o[n].kind == In
  }

  ghost predicate StatesAt(o: Netlist, states: seq<nat>, ports: seq<nat>) {
    |ports| == |states| && forall a :: 0 <= a < |states| ==> states[a] < |o| && o[states[a]].kind == Dff && ports[a] == First(o, states[a])
  }

  ghost predicate CapturesAt(o: Netlist, states: seq<nat>, ports: seq<nat>)
    requires Closed(o)
  {
    && |ports| == |states|
    && forall a :: 0 <= a < |states| ==> states[a] < |o| && o[states[a]].kind == Dff && ports[a] == Second(o, o[states[a]].ins[0])
  }

  lemma OneMorePort(o: Netlist, states: seq<nat>, firsts: seq<nat>, captures: seq<nat>, d: nat)
    requires Closed(o) && StatesAt(o, states, firsts) && CapturesAt(o, states, captures) && d < |o| && o[d].kind == Dff
    ensures StatesAt(o, states + [d], firsts + [First(o, d)]) && CapturesAt(o, states + [d], captures + [Second(o, o[d].ins[0])])
  {
  }

  lemma NoStates(o: Netlist, states: seq<nat>)
    requires ListsStates(o, 0, states)
    ensures |states| == 0
  {
    if states != [] { HasMember(states); }
  }

  lemma HasMember(s: seq<nat>)
    requires s != []
    ensures exists n: nat :: n in s
  {
    assert s[0] in s;
  }

  lemma PortsStep(o: Netlist, k: nat, states: seq<nat>, init: seq<nat>)
    requires Closed(o) && 0 < k <= |o| && StatesAt(o, init, StatePorts(o, k - 1)) && CapturesAt(o, init, CapturePorts(o, k - 1))
    requires states == if o[k - 1].kind == Dff then init + [k - 1] else init
    ensures StatesAt(o, states, StatePorts(o, k)) && CapturesAt(o, states, CapturePorts(o, k))
  {
    if o[k - 1].kind == Dff { OneMorePort(o, init, StatePorts(o, k - 1), CapturePorts(o, k - 1), k - 1); }
  }

  lemma {:induction false} ScanPortsAre(o: Netlist, k: nat, states: seq<nat>)
    requires Closed(o) && k <= |o| && ListsStates(o, k, states)
    ensures StatesAt(o, states, StatePorts(o, k)) && CapturesAt(o, states, CapturePorts(o, k))
  {
    if k == 0 {
      NoStates(o, states);
    } else if o[k - 1].kind == Dff {
      LastState(o, k, states);
      var init := states[..|states| - 1];
      ScanPortsAre(o, k - 1, init);
      PortsStep(o, k, states, init);
    } else {
      ScanPortsAre(o, k - 1, states);
      PortsStep(o, k, states, states);
    }
  }

  lemma LastState(o: Netlist, k: nat, states: seq<nat>)
    requires 0 < k <= |o| && ListsStates(o, k, states) && o[k - 1].kind == Dff
    ensures states != [] && states == states[..|states| - 1] + [k - 1] && ListsStates(o, k - 1, states[..|states| - 1])
  {
    assert k - 1 in states;
    var a :| 0 <= a < |states| && states[a] == k - 1;
    var n := |states| - 1;
    assert states[n] in states;
    assert a == n;
    assert states == states[..n] + [states[n]];
    forall x: nat ensures x in states[..n] <==> x < k - 1 && o[x].kind == Dff {
      if x in states[..n] {
        var b :| 0 <= b < n && states[b] == x;
        assert states[b] < states[n] && x in states;
      }
    }
  }

  lemma {:induction false} FirstCopiesAre(o: Netlist, nets: seq<nat>)
    requires forall a :: 0 <= a < |nets| ==> nets[a] < |o|
    ensures |FirstCopies(o, nets)| == |nets| && forall a :: 0 <= a < |nets| ==> FirstCopies(o, nets)[a] == First(o, nets[a])
  {
    if nets != [] {
      FirstCopiesAre(o, nets[..|nets| - 1]);
      assert FirstCopies(o, nets) == FirstCopies(o, nets[..|nets| - 1]) + [First(o, nets[|nets| - 1])];
    }
  }

  lemma {:induction false} SecondCopiesAre(o: Netlist, nets: seq<nat>)
    requires forall a :: 0 <= a < |nets| ==> nets[a] < |o|
    ensures |SecondCopies(o, nets)| == |nets| && forall a :: 0 <= a < |nets| ==> SecondCopies(o, nets)[a] == Second(o, nets[a])
  {
    if nets != [] {
      SecondCopiesAre(o, nets[..|nets| - 1]);
      assert SecondCopies(o, nets) == SecondCopies(o, nets[..|nets| - 1]) + [Second(o, nets[|nets| - 1])];
    }
  }

  /** Every source once, and its first copy at the same position. */
  ghost predicate SourcePorts(o: Netlist, ports: seq<nat>, pi: seq<nat>) {
    && |pi| == |ports| && (forall a :: 0 <= a < |pi| ==> ports[a] < |o| && IsSource(o[ports[a]].kind) && pi[a] == First(o, ports[a]))
    && (forall a, b :: 0 <= a < b < |ports| ==> ports[a] != ports[b])
    && forall n: nat :: n < |o| && IsSource(o[n].kind) ==> n in ports
  }

  lemma InputPortsAre(o: Netlist, inputs: seq<nat>, states: seq<nat>)
    requires Closed(o) && ListsInputs(o, inputs) && ListsStates(o, |o|, states)
    ensures SourcePorts(o, inputs + states, FirstCopies(o, inputs) + StatePorts(o, |o|))
  {
    assert forall a :: 0 <= a < |inputs| ==> inputs[a] in inputs;
    assert forall a :: 0 <= a < |states| ==> states[a] in states;
    FirstCopiesAre(o, inputs);
    ScanPortsAre(o, |o|, states);
    JoinSources(o, inputs, states, FirstCopies(o, inputs), StatePorts(o, |o|));
  }

  lemma JoinSources(o: Netlist, inputs: seq<nat>, states: seq<nat>, first: seq<nat>, second: seq<nat>)
    requires ListsInputs(o, inputs) && ListsStates(o, |o|, states) && |first| == |inputs| && |second| == |states|
    requires forall a :: 0 <= a < |inputs| ==> inputs[a] < |o| && o[inputs[a]].kind == In && first[a] == First(o, inputs[a])
    requires forall a :: 0 <= a < |states| ==> states[a] < |o| && o[states[a]].kind == Dff && second[a] == First(o, states[a])
    ensures SourcePorts(o, inputs + states, first + second)
  {
  }

  /** If the ports listed all inputs, those of the expansion do so. */
  lemma ExpandedInputs(o: Netlist, c: Circuit, inputs: seq<nat>, states: seq<nat>)
    requires IsExpansion(o, c) && ListsInputs(o, inputs) && ListsStates(o, |o|, states)
    ensures ListsInputs(c.nl, FirstCopies(o, inputs) + StatePorts(o, |o|))
  {
    InputPortsAre(o, inputs, states);
    SourcesAreInputs(o, c, inputs + states, FirstCopies(o, inputs) + StatePorts(o, |o|));
  }

  lemma SourcesAreInputs(o: Netlist, c: Circuit, ports: seq<nat>, pi: seq<nat>)
    requires IsExpansion(o, c) && SourcePorts(o, ports, pi)
    ensures ListsInputs(c.nl, pi)
  {
    forall a, b | 0 <= a < b < |pi| ensures pi[a] != pi[b] { CopiesDiffer(o, ports[a], ports[b]); }
    forall n: nat ensures n in pi <==> n < |c.nl| && c.nl[n].kind == In {
      if n in pi {
        var a :| 0 <= a < |pi| && pi[a] == n;
        CopiesAt(o, c, ports[a]);
      }
      if n < |c.nl| && c.nl[n].kind == In {
        var i := OriginOf(o, |o|, n);
        CopiesAt(o, c, i);
        CopiesDiffer(o, i, i);
        var a :| 0 <= a < |ports| && ports[a] == i;
        assert pi[a] == n;
      }
    }
  }

  /** The vector gives each input port the value of the input or state it stands for. */
  ghost predicate Drives(pi: seq<nat>, ports: seq<nat>, env: seq<bool>, wide: seq<bool>) {
    |pi| == |ports| && forall a :: 0 <= a < |pi| ==> pi[a] < |wide| && ports[a] < |env| && wide[pi[a]] == env[ports[a]]
  }

  /** Driving the ports is exactly what the copies of inputs and states need. */
  lemma DrivingThePorts(o: Netlist, c: Circuit, inputs: seq<nat>, states: seq<nat>, env: seq<bool>, wide: seq<bool>)
    requires IsExpansion(o, c) && ListsInputs(o, inputs) && ListsStates(o, |o|, states) && |env| == |o| && |wide| == |c.nl|
    ensures Carries(o, c, env, wide) <==> Drives(FirstCopies(o, inputs) + StatePorts(o, |o|), inputs + states, env, wide)
  {
    InputPortsAre(o, inputs, states);
    DrivingSources(o, c, inputs + states, FirstCopies(o, inputs) + StatePorts(o, |o|), env, wide);
  }

  lemma DrivingSources(o: Netlist, c: Circuit, ports: seq<nat>, pi: seq<nat>, env: seq<bool>, wide: seq<bool>)
    requires IsExpansion(o, c) && SourcePorts(o, ports, pi) && |env| == |o| && |wide| == |c.nl|
    ensures Carries(o, c, env, wide) <==> Drives(pi, ports, env, wide)
  {
    forall a | 0 <= a < |pi| ensures pi[a] < |c.nl| { CopiesAt(o, c, ports[a]); }
    if Drives(pi, ports, env, wide) {
      forall i: nat | i < |o| && IsSource(o[i].kind) && First(o, i) < |wide| ensures wide[First(o, i)] == env[i] {
        var a :| 0 <= a < |ports| && ports[a] == i;
        assert pi[a] == First(o, i);
      }
    }
  }

  /** A copy of a net has a value in the expansion. */
  ghost predicate HasValue(o: Netlist, rank: seq<nat>, c: Circuit, wide: seq<bool>, n: nat, v: bool)
    requires |rank| == |o|
  {
    Ranked(c.nl, Ranks(o, rank)) && |wide| == |c.nl| && n < |c.nl| && Value(c.nl, Ranks(o, rank), wide, Healthy, n) == v
  }

  /** The values at the scan and output ports: states those of cycle one, outputs those of
      cycle two, and captured states those after cycle two. */
  ghost predicate PortValues(o: Netlist, rank: seq<nat>, c: Circuit, env: seq<bool>, wide: seq<bool>, outputs: seq<nat>, states: seq<nat>,
                             po: seq<nat>, ppi: seq<nat>, ppo: seq<nat>)
    requires Ranked(o, rank) && |env| == |o|
  {
    var next := NextEnv(o, rank, env);
    && |ppi| == |ppo| == |states| && |po| == |outputs|
    && (forall a :: 0 <= a < |states| ==> states[a] < |o| && HasValue(o, rank, c, wide, ppi[a], env[states[a]]))
    && (forall a :: 0 <= a < |states| ==> states[a] < |o| && HasValue(o, rank, c, wide, ppo[a], NextEnv(o, rank, next)[states[a]]))
    && forall a :: 0 <= a < |outputs| ==> outputs[a] < |o| && HasValue(o, rank, c, wide, po[a], Value(o, rank, next, Healthy, outputs[a]))
  }

  lemma StateValues(o: Netlist, rank: seq<nat>, c: Circuit, env: seq<bool>, wide: seq<bool>, d: nat)
    requires Ranked(o, rank) && IsExpansion(o, c) && Carries(o, c, env, wide) && d < |o| && o[d].kind == Dff
    ensures HasValue(o, rank, c, wide, First(o, d), env[d])
    ensures HasValue(o, rank, c, wide, Second(o, o[d].ins[0]), NextEnv(o, rank, NextEnv(o, rank, env))[d])
  {
    PortsCaptureTwice(o, rank, c, env, wide, d);
    FirstCopyValue(o, rank, c, env, wide, d);
  }

  lemma OutputValue(o: Netlist, rank: seq<nat>, c: Circuit, env: seq<bool>, wide: seq<bool>, n: nat)
    requires Ranked(o, rank) && IsExpansion(o, c) && Carries(o, c, env, wide) && n < |o|
    ensures HasValue(o, rank, c, wide, Second(o, n), Value(o, rank, NextEnv(o, rank, env), Healthy, n))
  {
    ExpansionIsAcyclic(o, rank, c);
    SecondCopyValue(o, rank, c, env, wide, n);
  }

  lemma PortsHaveValues(o: Netlist, rank: seq<nat>, c: Circuit, env: seq<bool>, wide: seq<bool>, outputs: seq<nat>, states: seq<nat>)
    requires Ranked(o, rank) && IsExpansion(o, c) && Carries(o, c, env, wide) && ListsStates(o, |o|, states)
    requires forall a :: 0 <= a < |outputs| ==> outputs[a] < |o|
    ensures PortValues(o, rank, c, env, wide, outputs, states, SecondCopies(o, outputs), StatePorts(o, |o|), CapturePorts(o, |o|))
  {
    SecondCopiesAre(o, outputs);
    ScanPortsAre(o, |o|, states);
    forall a | 0 <= a < |states|
      ensures HasValue(o, rank, c, wide, StatePorts(o, |o|)[a], env[states[a]])
      ensures HasValue(o, rank, c, wide, CapturePorts(o, |o|)[a], NextEnv(o, rank, NextEnv(o, rank, env))[states[a]])
    {
      StateValues(o, rank, c, env, wide, states[a]);
    }
    forall a | 0 <= a < |outputs|
      ensures HasValue(o, rank, c, wide, SecondCopies(o, outputs)[a], Value(o, rank, NextEnv(o, rank, env), Healthy, outputs[a]))
    {
      OutputValue(o, rank, c, env, wide, outputs[a]);
    }
  }

  /** What the ports of an expansion are: all inputs of it, driven by the old inputs and the
      initial states, and ports with the values of the right cycle. */
  ghost predicate PortsAre(o: Netlist, c: Circuit, inputs: seq<nat>, outputs: seq<nat>, states: seq<nat>,
                           pi: seq<nat>, po: seq<nat>, ppi: seq<nat>, ppo: seq<nat>) {
    && ListsInputs(c.nl, pi)
    && forall rank, env, wide :: Ranked(o, rank) && |env| == |o| && |wide| == |c.nl| && Drives(pi, inputs + states, env, wide) ==>
         PortValues(o, rank, c, env, wide, outputs, states, po, ppi, ppo)
  }

  lemma ExpandedPorts(o: Netlist, c: Circuit, inputs: seq<nat>, outputs: seq<nat>, states: seq<nat>)
    requires IsExpansion(o, c) && ListsInputs(o, inputs) && ListsStates(o, |o|, states) && forall a :: 0 <= a < |outputs| ==> outputs[a] < |o|
    ensures PortsAre(o, c, inputs, outputs, states, FirstCopies(o, inputs) + StatePorts(o, |o|), SecondCopies(o, outputs), StatePorts(o, |o|), CapturePorts(o, |o|))
  {
    var pi := FirstCopies(o, inputs) + StatePorts(o, |o|);
    ExpandedInputs(o, c, inputs, states);
    forall rank, env, wide | Ranked(o, rank) && |env| == |o| && |wide| == |c.nl| && Drives(pi, inputs + states, env, wide)
      ensures PortValues(o, rank, c, env, wide, outputs, states, SecondCopies(o, outputs), StatePorts(o, |o|), CapturePorts(o, |o|))
    {
      DrivingThePorts(o, c, inputs, states, env, wide);
      PortsHaveValues(o, rank, c, env, wide, outputs, states);
    }
  }

  ghost predicate PortsAreRight(o: Netlist, c: Circuit, inputs: seq<nat>, outputs: seq<nat>, pi: seq<nat>, po: seq<nat>, ppi: seq<nat>, ppo: seq<nat>) {
    ListsInputs(o, inputs) ==> forall states :: ListsStates(o, |o|, states) ==> PortsAre(o, c, inputs, outputs, states, pi, po, ppi, ppo)
  }

  lemma AllExpandedPorts(o: Netlist, c: Circuit, inputs: seq<nat>, outputs: seq<nat>)
    requires IsExpansion(o, c) && forall a :: 0 <= a < |outputs| ==> outputs[a] < |o|
    ensures PortsAreRight(o, c, inputs, outputs, FirstCopies(o, inputs) + StatePorts(o, |o|), SecondCopies(o, outputs), StatePorts(o, |o|), CapturePorts(o, |o|))
  {
    if ListsInputs(o, inputs) {
      forall states | ListsStates(o, |o|, states)
        ensures PortsAre(o, c, inputs, outputs, states, FirstCopies(o, inputs) + StatePorts(o, |o|), SecondCopies(o, outputs), StatePorts(o, |o|), CapturePorts(o, |o|))
      {
        ExpandedPorts(o, c, inputs, outputs, states);
      }
    }
  }

  // --------------------------------------------------------- the algorithm

  ghost predicate FirstsBuilt(o: Netlist, k: nat, x: seq<Net>)
    requires Closed(o) && Mirrored(o) && k <= |o|
  {
    forall i: nat :: i < k ==> First(o, i) < |x| && x[First(o, i)] == ExpandedNet(o, i, 1)
  }

  ghost predicate SecondsBuilt(o: Netlist, k: nat, x: seq<Net>)
    requires Closed(o) && Mirrored(o) && k <= |o|
  {
    forall i: nat :: i < k ==> Second(o, i) < |x| && x[Second(o, i)] == ExpandedNet(o, i, 2)
  }

  ghost predicate PartnersKnown(o: Netlist, k: nat, partner: map<nat, nat>)
    requires k <= |o|
  {
    && (forall i: nat :: i < k ==> Second(o, i) in partner && partner[Second(o, i)] == First(o, i))
    && (forall n :: n in partner ==> IsSecond(o, k, n))
  }

  /** The expanded nets before original net k are in place. Kept folded. */
  ghost predicate Built(o: Netlist, k: nat, x: seq<Net>, partner: map<nat, nat>)
    requires Closed(o) && Mirrored(o)
  {
    && k <= |o| && |x| == NextId(o, |o|)
    && forall u {:trigger Unfold(u)} :: Unfold(u) ==> FirstsBuilt(o, k, x) && SecondsBuilt(o, k, x) && PartnersKnown(o, k, partner)
  }

  lemma BuiltNothing(o: Netlist, x: seq<Net>)
    requires Closed(o) && Mirrored(o) && |x| == NextId(o, |o|)
    ensures Built(o, 0, x, map[])
  {
  }

  lemma BuildMore(o: Netlist, i: nat, x: seq<Net>, partner: map<nat, nat>)
    requires Closed(o) && Mirrored(o) && i < |o| && Built(o, i, x, partner)
    ensures First(o, i) < |x| && Second(o, i) < |x|
    ensures Built(o, i + 1, x[First(o, i) := ExpandedNet(o, i, 1)][Second(o, i) := ExpandedNet(o, i, 2)], partner[Second(o, i) := First(o, i)])
  {
    CopiesDiffer(o, i, i);
    var y := x[First(o, i) := ExpandedNet(o, i, 1)][Second(o, i) := ExpandedNet(o, i, 2)];
    assert FirstsBuilt(o, i, x) && SecondsBuilt(o, i, x) && PartnersKnown(o, i, partner) by { assert Unfold(0); }
    MoreFirsts(o, i, x, y);
    MoreSeconds(o, i, x, y);
    MorePartners(o, i, partner);
  }

  lemma MoreFirsts(o: Netlist, i: nat, x: seq<Net>, y: seq<Net>)
    requires Closed(o) && Mirrored(o) && i < |o| && FirstsBuilt(o, i, x)
    requires First(o, i) < |x| && Second(o, i) < |x| && y == x[First(o, i) := ExpandedNet(o, i, 1)][Second(o, i) := ExpandedNet(o, i, 2)]
    ensures FirstsBuilt(o, i + 1, y)
  {
    forall k: nat | k < i + 1 ensures First(o, k) < |y| && y[First(o, k)] == ExpandedNet(o, k, 1) {
      CopiesDiffer(o, k, i);
    }
  }

  lemma MoreSeconds(o: Netlist, i: nat, x: seq<Net>, y: seq<Net>)
    requires Closed(o) && Mirrored(o) && i < |o| && SecondsBuilt(o, i, x)
    requires First(o, i) < |x| && Second(o, i) < |x| && y == x[First(o, i) := ExpandedNet(o, i, 1)][Second(o, i) := ExpandedNet(o, i, 2)]
    ensures SecondsBuilt(o, i + 1, y)
  {
    forall k: nat | k < i + 1 ensures Second(o, k) < |y| && y[Second(o, k)] == ExpandedNet(o, k, 2) {
      CopiesDiffer(o, i, k);
    }
  }

  lemma MorePartners(o: Netlist, i: nat, partner: map<nat, nat>)
    requires i < |o| && PartnersKnown(o, i, partner)
    ensures PartnersKnown(o, i + 1, partner[Second(o, i) := First(o, i)])
  {
    var more := partner[Second(o, i) := First(o, i)];
    forall k: nat | k < i + 1 ensures Second(o, k) in more && more[Second(o, k)] == First(o, k) {
      CopiesDiffer(o, i, k);
    }
    PartnersMore(o, i, partner, more);
  }

  lemma PartnersMore(o: Netlist, i: nat, partner: map<nat, nat>, more: map<nat, nat>)
    requires i < |o| && more == partner[Second(o, i) := First(o, i)] && forall n :: n in partner ==> IsSecond(o, i, n)
    ensures forall n :: n in more ==> IsSecond(o, i + 1, n)
  {
    forall n | n in more ensures IsSecond(o, i + 1, n) {
      if n in partner {
        var k: nat :| k < i && k < |o| && n == Second(o, k);
        assert k < i + 1 && n == Second(o, k);
      } else {
        assert i < i + 1 && n == Second(o, i);
      }
    }
  }

  lemma AllBuilt(o: Netlist, x: seq<Net>, partner: map<nat, nat>)
    requires Closed(o) && Mirrored(o) && Built(o, |o|, x, partner)
    ensures IsExpansion(o, Circuit(x, partner))
  {
    assert Unfold(0);
  }

  /** The global netlist with its ports. */
  class Design {
    var nl: Netlist
    var peer: map<nat, nat>
    var pi: seq<nat>
    var po: seq<nat>
    var ppi: seq<nat>
    var ppo: seq<nat>
    var flipFlops: nat

    constructor (netlist: Netlist, inputs: seq<nat>, outputs: seq<nat>)
      ensures nl == netlist && pi == inputs && po == outputs
    {
      nl, pi, po, peer, ppi, ppo, flipFlops := netlist, inputs, outputs, map[], [], [], 0;
    }

    /** Numbers the copies: one for an input, two for any other net. */
    method AssignIds() returns (frame1: array<nat>, frame2: array<nat>, count: nat)
      ensures fresh(frame1) && fresh(frame2) && frame1.Length == frame2.Length == |nl| && frame1 != frame2
      ensures forall i: nat :: i < |nl| ==> frame1[i] == First(nl, i) && frame2[i] == Second(nl, i)
      ensures count == NextId(nl, |nl|)
    {
      frame1, frame2, count := new nat[|nl|](_ => 0), new nat[|nl|](_ => 0), 0;
      for i := 0 to |nl|
        invariant count == NextId(nl, i)
        invariant forall k: nat :: k < i ==> frame1[k] == First(nl, k) && frame2[k] == Second(nl, k)
      {
        frame1[i] := count;
        count := count + 1;
        if nl[i].kind == In {
          frame2[i] := frame1[i];
        } else {
          frame2[i] := count;
          count := count + 1;
        }
      }
    }

    /** The output edges of one copy. */
    method ConnectFrameOutputs(outs: seq<nat>, frame: int, frame1: array<nat>, frame2: array<nat>) returns (ids: seq<nat>)
      requires Numbered(frame1, frame2) && forall k :: 0 <= k < |outs| ==> outs[k] < |nl|
      ensures ids == FrameOutputs(nl, outs, frame)
    {
      ids := [];
      for k := 0 to |outs|
        invariant ids == FrameOutputs(nl, outs[..k], frame)
      {
        assert outs[..k + 1][..k] == outs[..k];
        var y := outs[k];
        if nl[y].kind == Dff {
          if frame == 1 { ids := ids + [frame2[y]]; }
        } else {
          ids := ids + [if frame == 1 then frame1[y] else frame2[y]];
        }
      }
      assert outs[..|outs|] == outs;
    }

    ghost predicate Numbered(frame1: array<nat>, frame2: array<nat>)
      reads this`nl, frame1, frame2
    {
      && frame1.Length == frame2.Length == |nl|
      && forall i: nat :: i < |nl| ==> frame1[i] == First(nl, i) && frame2[i] == Second(nl, i)
    }

    /** The input edges of one copy of a gate. */
    method ConnectFrameInputs(ins: seq<nat>, frame: int, frame1: array<nat>, frame2: array<nat>) returns (ids: seq<nat>)
      requires Numbered(frame1, frame2) && forall k :: 0 <= k < |ins| ==> ins[k] < |nl|
      ensures ids == FrameInputs(nl, ins, frame)
    {
      ids := [];
      for j := 0 to |ins|
        invariant |ids| == j && forall k :: 0 <= k < j ==> ids[k] == if frame == 1 then First(nl, ins[k]) else Second(nl, ins[k])
      {
        ids := ids + [if frame == 1 then frame1[ins[j]] else frame2[ins[j]]];
      }
    }

    /** One copy of one net. */
    method BuildCopy(i: nat, frame: int, frame1: array<nat>, frame2: array<nat>) returns (net: Net)
      requires Numbered(frame1, frame2) && Closed(nl) && Mirrored(nl) && i < |nl| && frame in {1, 2}
      ensures net == ExpandedNet(nl, i, frame)
    {
      var original := nl[i];
      var outs := ConnectFrameOutputs(original.outs, if original.kind == In then 1 else frame, frame1, frame2);
      if original.kind == In {
        var more := ConnectFrameOutputs(original.outs, 2, frame1, frame2);
        return Net(In, [], outs + more);
      }
      if original.kind == Dff {
        return if frame == 1 then Net(In, [], outs) else Net(Buf, [frame1[original.ins[0]]], outs);
      }
      var ins := ConnectFrameInputs(original.ins, frame, frame1, frame2);
      net := Net(original.kind, ins, outs);
    }

    /** Puts both copies of net i in place. */
    method BuildBoth(i: nat, expanded: array<Net>, partner: map<nat, nat>, frame1: array<nat>, frame2: array<nat>) returns (more: map<nat, nat>)
      requires Numbered(frame1, frame2) && Closed(nl) && Mirrored(nl) && i < |nl| && Built(nl, i, expanded[..], partner)
      requires expanded.Length == NextId(nl, |nl|)
      modifies expanded
      ensures Built(nl, i + 1, expanded[..], more)
    {
      ghost var before := expanded[..];
      var first := BuildCopy(i, 1, frame1, frame2);
      var second := BuildCopy(i, 2, frame1, frame2);
      CopiesDiffer(nl, i, i);
      BuildMore(nl, i, before, partner);
      expanded[frame1[i]] := first;
      expanded[frame2[i]] := second;
      more := partner[frame2[i] := frame1[i]];
      assert expanded[..] == before[First(nl, i) := ExpandedNet(nl, i, 1)][Second(nl, i) := ExpandedNet(nl, i, 2)];
    }

    /** Scan ports: the states at the start, and the nets captured at the end. */
    method BuildScanPorts(frame1: array<nat>, frame2: array<nat>) returns (states: seq<nat>, captures: seq<nat>)
      requires Numbered(frame1, frame2) && Closed(nl)
      ensures states == StatePorts(nl, |nl|) && captures == CapturePorts(nl, |nl|)
    {
      states, captures := [], [];
      for i := 0 to |nl|
        invariant states == StatePorts(nl, i) && captures == CapturePorts(nl, i)
      {
        if nl[i].kind == Dff {
          states := states + [frame1[i]];
          captures := captures + [frame2[nl[i].ins[0]]];
        }
      }
    }

    /** Replaces the netlist by its expansion. The free inputs are the primary inputs
        and the initial states; the only observed nets are the captured ones. */
    method ExpandTdfNetlist()
      requires Closed(nl) && Mirrored(nl)
      requires (forall k :: 0 <= k < |pi| ==> pi[k] < |nl|) && (forall k :: 0 <= k < |po| ==> po[k] < |nl|)
      modifies this
      ensures IsExpansion(old(nl), Circuit(nl, peer)) && flipFlops == 0
      ensures ppi == StatePorts(old(nl), |old(nl)|) && ppo == CapturePorts(old(nl), |old(nl)|)
      ensures pi == FirstCopies(old(nl), old(pi)) + ppi && po == SecondCopies(old(nl), old(po))
      ensures forall n: nat :: n in ppo <==> n in Observed(old(nl))
      ensures PortsAreRight(old(nl), Circuit(nl, peer), old(pi), old(po), pi, po, ppi, ppo)
    {
      CapturesAreObserved(nl);
      var expanded, partner, inputs, outputs, states, captures := BuildExpansion();
      nl, peer := expanded, partner;
      pi, po, ppi, ppo, flipFlops := inputs + states, outputs, states, captures, 0;
    }

    /** The copies, their partners and the ports of the expansion. */
    method BuildExpansion() returns (expanded: seq<Net>, partner: map<nat, nat>, inputs: seq<nat>, outputs: seq<nat>, states: seq<nat>, captures: seq<nat>)
      requires Closed(nl) && Mirrored(nl)
      requires (forall k :: 0 <= k < |pi| ==> pi[k] < |nl|) && (forall k :: 0 <= k < |po| ==> po[k] < |nl|)
      ensures IsExpansion(nl, Circuit(expanded, partner))
      ensures states == StatePorts(nl, |nl|) && captures == CapturePorts(nl, |nl|)
      ensures inputs == FirstCopies(nl, pi) && outputs == SecondCopies(nl, po)
      ensures PortsAreRight(nl, Circuit(expanded, partner), pi, po, inputs + states, outputs, states, captures)
    {
      var frame1, frame2, count := AssignIds();
      expanded, partner := BuildNets(frame1, frame2, count);
      AllBuilt(nl, expanded, partner);
      states, captures := BuildScanPorts(frame1, frame2);
      inputs, outputs := CopyPorts(frame1, frame2);
      AllExpandedPorts(nl, Circuit(expanded, partner), pi, po);
    }

    /** All copies of all nets. */
    method BuildNets(frame1: array<nat>, frame2: array<nat>, count: nat) returns (nets: seq<Net>, partner: map<nat, nat>)
      requires Numbered(frame1, frame2) && Closed(nl) && Mirrored(nl) && count == NextId(nl, |nl|)
      ensures Built(nl, |nl|, nets, partner)
    {
      var expanded := new Net[count](_ => Net(In, [], []));
      partner := map[];
      BuiltNothing(nl, expanded[..]);
      for i := 0 to |nl|
        invariant Numbered(frame1, frame2) && Built(nl, i, expanded[..], partner)
      {
        partner := BuildBoth(i, expanded, partner, frame1, frame2);
      }
      nets := expanded[..];
    }

    /** The copies that the ports lead to. */
    method CopyPorts(frame1: array<nat>, frame2: array<nat>) returns (inputs: seq<nat>, outputs: seq<nat>)
      requires Numbered(frame1, frame2)
      requires (forall k :: 0 <= k < |pi| ==> pi[k] < |nl|) && (forall k :: 0 <= k < |po| ==> po[k] < |nl|)
      ensures inputs == FirstCopies(nl, pi) && outputs == SecondCopies(nl, po)
    {
      inputs, outputs := [], [];
      for k := 0 to |pi|
        invariant inputs == FirstCopies(nl, pi[..k])
      {
        assert pi[..k + 1][..k] == pi[..k];
        inputs := inputs + [frame1[pi[k]]];
      }
      assert pi[..|pi|] == pi;
      for k := 0 to |po|
        invariant outputs == SecondCopies(nl, po[..k])
      {
        assert po[..k + 1][..k] == po[..k];
        outputs := outputs + [frame2[po[k]]];
      }
      assert po[..|po|] == po;
    }
  }

  function StatePorts(o: Netlist, k: nat): seq<nat>
    requires k <= |o|
  {
    if k == 0 then [] else StatePorts(o, k - 1) + if o[k - 1].kind == Dff then [First(o, k - 1)] else []
  }

  function CapturePorts(o: Netlist, k: nat): seq<nat>
    requires k <= |o| && Closed(o)
  {
    if k == 0 then [] else CapturePorts(o, k - 1) + if o[k - 1].kind == Dff then [Second(o, o[k - 1].ins[0])] else []
  }

  function FirstCopies(o: Netlist, nets: seq<nat>): seq<nat> {
    if nets == [] then []
    else FirstCopies(o, nets[..|nets| - 1]) + if nets[|nets| - 1] < |o| then [First(o, nets[|nets| - 1])] else []
  }

  function SecondCopies(o: Netlist, nets: seq<nat>): seq<nat> {
    if nets == [] then []
    else SecondCopies(o, nets[..|nets| - 1]) + if nets[|nets| - 1] < |o| then [Second(o, nets[|nets| - 1])] else []
  }

  /** The observed nets are those of the capture ports. */
  lemma {:induction false} PortsAreObserved(o: Netlist, k: nat, n: nat)
    requires Closed(o) && k <= |o|
    ensures n in CapturePorts(o, k) <==> exists d: nat :: d < k && o[d].kind == Dff && n == Second(o, o[d].ins[0])
  {
    if k > 0 { PortsAreObserved(o, k - 1, n); }
  }

  lemma CapturesAreObserved(o: Netlist)
    requires Closed(o)
    ensures forall n: nat :: n in CapturePorts(o, |o|) <==> n in Observed(o)
  {
    forall n: nat ensures n in CapturePorts(o, |o|) <==> n in Observed(o) { PortsAreObserved(o, |o|, n); }
  }
}
