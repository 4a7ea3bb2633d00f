/** From a design as it was read to sound fault collapsing: connection keeps the design
    acyclic, and its normal form is what collapsing needs, directly for stuck-at faults
    and through time expansion for transition faults. */
module ConnectedCollapsing {
  import opened Netlists
  import opened FaultGroups
  import opened FaultCollapsing
  import opened TimeExpansion
  import Connection
  import opened ConnectedNetlist

  /** No combinational cycle among the signals: a ranking that every gate raises. */
  ghost predicate SourceRanked(d: Connection.Source, rank: seq<nat>) {
    && |rank| == d.signals
    && forall i, j {:trigger d.modules[i].ins[j]} :: 0 <= i < |d.modules| && 0 <= j < |d.modules[i].ins| && d.modules[i].kind != Dff ==>
         d.modules[i].ins[j] < d.signals && d.modules[i].out < d.signals && rank[d.modules[i].ins[j]] < rank[d.modules[i].out]
  }

  /** A branch lies between its signal and the gates that the signal feeds. */
  ghost function RankOf(d: Connection.Source, nl: Netlist, rank: seq<nat>, v: nat): nat
    requires |rank| == d.signals && v < |nl|
  {
    if v < d.signals then 2 * rank[v]
    else if nl[v].ins != [] && nl[v].ins[0] < d.signals then 2 * rank[nl[v].ins[0]] + 1 else 0
  }

  ghost function ConnectedRanks(d: Connection.Source, nl: Netlist, rank: seq<nat>): (r: seq<nat>)
    requires |rank| == d.signals
    ensures |r| == |nl| && forall v: nat :: v < |nl| ==> r[v] == RankOf(d, nl, rank, v)
  {
    seq(|nl|, v requires 0 <= v < |nl| => RankOf(d, nl, rank, v))
  }

  /** Connecting the signals of an acyclic design makes no cycle. */
  lemma ConnectionIsAcyclic(d: Connection.Source, rank: seq<nat>, nl: Netlist, po: seq<nat>)
    requires Connection.SourceOk(d) && SourceRanked(d, rank) && IsConnected(d, nl, po)
    ensures Ranked(nl, ConnectedRanks(d, nl, rank))
  {
    ConnectionIsClosed(d, nl, po);
    forall n: nat, j: nat | n < |nl| && !IsSource(nl[n].kind) && j < |nl[n].ins|
      ensures RankOf(d, nl, rank, nl[n].ins[j]) < RankOf(d, nl, rank, n)
    {
      if n < d.signals { SignalIsRanked(d, rank, nl, po, n, j); } else { BranchIsRanked(d, rank, nl, po, n); }
    }
  }

  lemma SignalIsRanked(d: Connection.Source, rank: seq<nat>, nl: Netlist, po: seq<nat>, n: nat, j: nat)
    requires Connection.SourceOk(d) && SourceRanked(d, rank) && IsConnected(d, nl, po)
    requires n < d.signals && !IsSource(nl[n].kind) && j < |nl[n].ins| && nl[n].ins[j] < |nl|
    ensures RankOf(d, nl, rank, nl[n].ins[j]) < RankOf(d, nl, rank, n)
  {
    SignalNet(d, nl, po, n);
    KindInIs(d, n, |d.modules|);
    assert Connection.Driven(d, n);
    var i: nat :| i < |d.modules| && d.modules[i].out == n;
    InsOfGate(d, i);
    PinsAreConnected(d, nl, po, i, j);
    var s := d.modules[i].ins[j];
    assert rank[s] < rank[n];
    var x := nl[n].ins[j];
    SignalIsNoBranch(d, nl, po, x);
    assert x == s || (x >= d.signals && nl[x].ins[0] == s);
  }

  lemma SignalIsNoBranch(d: Connection.Source, nl: Netlist, po: seq<nat>, x: nat)
    requires Connection.SourceOk(d) && IsConnected(d, nl, po) && x < |nl|
    ensures x < d.signals ==> nl[x].kind != Fout
  {
    if x < d.signals {
      SignalNet(d, nl, po, x);
      KindInIs(d, x, |d.modules|);
      if Connection.Driven(d, x) {
        var i: nat :| i < |d.modules| && d.modules[i].out == x;
        Connection.ModuleAt(d, i);
      }
    }
  }

  lemma BranchIsRanked(d: Connection.Source, rank: seq<nat>, nl: Netlist, po: seq<nat>, n: nat)
    requires Connection.SourceOk(d) && SourceRanked(d, rank) && IsConnected(d, nl, po) && d.signals <= n < |nl|
    ensures |nl[n].ins| == 1 && nl[n].ins[0] < |nl| && RankOf(d, nl, rank, nl[n].ins[0]) < RankOf(d, nl, rank, n)
  {
    var q := BranchNetAt(d, nl, po, n);
    Connection.PinsKnown(d, q);
  }

  // ------------------------------------------------- the same circuit

  ghost function SignalValues(nl: Netlist, r: seq<nat>, env: seq<bool>, signals: seq<nat>): (vs: seq<bool>)
    requires Ranked(nl, r) && |env| == |nl| && forall j :: 0 <= j < |signals| ==> signals[j] < |nl|
    ensures |vs| == |signals| && forall j :: 0 <= j < |vs| ==> vs[j] == Value(nl, r, env, Healthy, signals[j])
  {
    seq(|signals|, j requires 0 <= j < |signals| => Value(nl, r, env, Healthy, signals[j]))
  }

  /** The output of a gate of the design has the value that the gate makes of the values of
      its input signals; a state element has the value of the environment. */
  ghost predicate GateIsRight(d: Connection.Source, nl: Netlist, r: seq<nat>, env: seq<bool>, i: nat)
    requires Ranked(nl, r) && |env| == |nl| && i < |d.modules|
  {
    var m := d.modules[i];
    && m.out < |nl| && (forall j :: 0 <= j < |m.ins| ==> m.ins[j] < |nl|)
    && Value(nl, r, env, Healthy, m.out) == if IsSource(m.kind) then env[m.out] else GateValue(m.kind, SignalValues(nl, r, env, m.ins))
  }

  /** A branch passes the value of its signal on. */
  lemma BranchValue(nl: Netlist, r: seq<nat>, env: seq<bool>, v: nat)
    requires Ranked(nl, r) && |env| == |nl| && v < |nl| && nl[v].kind == Fout
    ensures nl[v].ins[0] < |nl| && Value(nl, r, env, Healthy, v) == Value(nl, r, env, Healthy, nl[v].ins[0])
  {
    ValueOfGate(nl, r, env, Healthy, v);
    assert InputValues(nl, r, env, Healthy, v)[0] == Value(nl, r, env, Healthy, nl[v].ins[0]);
  }

  lemma PinValue(d: Connection.Source, rank: seq<nat>, nl: Netlist, po: seq<nat>, env: seq<bool>, i: nat, j: nat)
    requires Connection.SourceOk(d) && SourceRanked(d, rank) && IsConnected(d, nl, po) && |env| == |nl|
    requires i < |d.modules| && j < |d.modules[i].ins| && Ranked(nl, ConnectedRanks(d, nl, rank))
    ensures var r, g, s := ConnectedRanks(d, nl, rank), d.modules[i].out, d.modules[i].ins[j];
      && g < |nl| && s < |nl| && j < |nl[g].ins| == |d.modules[i].ins| && nl[g].ins[j] < |nl|
      && Value(nl, r, env, Healthy, nl[g].ins[j]) == Value(nl, r, env, Healthy, s)
  {
    PinsAreConnected(d, nl, po, i, j);
    Connection.ModuleAt(d, i);
    var v := nl[d.modules[i].out].ins[j];
    if v != d.modules[i].ins[j] { BranchValue(nl, ConnectedRanks(d, nl, rank), env, v); }
  }

  /** The connected netlist computes what the design says: every gate from its signals, the
      primary inputs from the environment, and the output ports have the values of their
      signals. */
  lemma ConnectionKeepsGates(d: Connection.Source, rank: seq<nat>, nl: Netlist, po: seq<nat>, env: seq<bool>, i: nat)
    requires Connection.SourceOk(d) && SourceRanked(d, rank) && IsConnected(d, nl, po) && |env| == |nl| && i < |d.modules|
    ensures Ranked(nl, ConnectedRanks(d, nl, rank)) && GateIsRight(d, nl, ConnectedRanks(d, nl, rank), env, i)
  {
    ConnectionIsAcyclic(d, rank, nl, po);
    Connection.ModuleAt(d, i);
    var m, r := d.modules[i], ConnectedRanks(d, nl, rank);
    SignalNet(d, nl, po, m.out);
    KindInIs(d, m.out, |d.modules|);
    KindOfModule(d, i);
    InsOfGate(d, i);
    if !IsSource(m.kind) {
      forall j | 0 <= j < |m.ins| ensures Value(nl, r, env, Healthy, nl[m.out].ins[j]) == Value(nl, r, env, Healthy, m.ins[j]) {
        PinValue(d, rank, nl, po, env, i, j);
      }
      ValueOfGate(nl, r, env, Healthy, m.out);
      assert InputValues(nl, r, env, Healthy, m.out) == SignalValues(nl, r, env, m.ins);
    }
  }

  lemma KindOfModule(d: Connection.Source, i: nat)
    requires Connection.SourceOk(d) && i < |d.modules|
    ensures KindOf(d, d.modules[i].out) == d.modules[i].kind
  {
    KindInIs(d, d.modules[i].out, |d.modules|);
  }

  lemma ConnectionKeepsInputs(d: Connection.Source, rank: seq<nat>, nl: Netlist, po: seq<nat>, env: seq<bool>, s: nat)
    requires Connection.SourceOk(d) && SourceRanked(d, rank) && IsConnected(d, nl, po) && |env| == |nl| && s in d.pi
    ensures Ranked(nl, ConnectedRanks(d, nl, rank)) && s < |nl| && Value(nl, ConnectedRanks(d, nl, rank), env, Healthy, s) == env[s]
  {
    ConnectionIsAcyclic(d, rank, nl, po);
    Connection.InputAt(d, s);
    SignalNet(d, nl, po, s);
    KindInIs(d, s, |d.modules|);
  }

  /** An output port leads to its signal, or to a branch of it. */
  lemma ConnectionKeepsPorts(d: Connection.Source, rank: seq<nat>, nl: Netlist, po: seq<nat>, env: seq<bool>, k: nat)
    requires Connection.SourceOk(d) && SourceRanked(d, rank) && IsConnected(d, nl, po) && |env| == |nl| && k < |d.po|
    ensures Ranked(nl, ConnectedRanks(d, nl, rank)) && |po| == |d.po| && po[k] < |nl| && d.po[k] < |nl|
    ensures var r := ConnectedRanks(d, nl, rank); Value(nl, r, env, Healthy, po[k]) == Value(nl, r, env, Healthy, d.po[k])
  {
    ConnectionIsAcyclic(d, rank, nl, po);
    PortLeadsTo(d, nl, po, k);
    if po[k] != d.po[k] { BranchValue(nl, ConnectedRanks(d, nl, rank), env, po[k]); }
  }

  lemma PortLeadsTo(d: Connection.Source, nl: Netlist, po: seq<nat>, k: nat)
    requires Connection.SourceOk(d) && IsConnected(d, nl, po) && k < |d.po|
    ensures |po| == |d.po| && po[k] < |nl| && d.po[k] < d.signals <= |nl|
    ensures po[k] == d.po[k] || (nl[po[k]].kind == Fout && nl[po[k]].ins == [d.po[k]])
  {
    PortsOf(d, nl, po);
    assert d.po[k] in d.po;
    Connection.PortAt(d, d.po[k]);
    PortNetIs(d, d.po[k], |d.pins|);
    if po[k] != d.po[k] {
      var q: nat :| q < |d.pins| && d.pins[q].signal == d.po[k] && Connection.Branches(d, q) == 2 && po[k] == Connection.Start(d, q) + 1;
      BranchNet(d, nl, po, q);
    }
  }

  ghost function Ports(po: seq<nat>): (s: set<nat>)
    ensures s == set p | p in po
  {
    set p | p in po
  }

  /** Stuck-at faults of a connected acyclic design: whatever the structural pairs and
      truly equivalent further pairs relate cannot be told apart at the output ports. */
  lemma StuckAtCollapsingIsSound(d: Connection.Source, rank: seq<nat>, nl: Netlist, po: seq<nat>, external: seq<Pair>, a: nat, b: nat)
    requires Connection.SourceOk(d) && SourceRanked(d, rank) && IsConnected(d, nl, po)
    requires var r := ConnectedRanks(d, nl, rank); Ranked(nl, r) ==> AllSame(nl, r, Ports(po), external)
    requires a < 2 * |nl| && b < 2 * |nl| && Closed(nl) && Connected(StructuralPairs(Circuit(nl, map[]), Saf, |nl|) + external, a, b)
    ensures Ranked(nl, ConnectedRanks(d, nl, rank))
    ensures Same(nl, ConnectedRanks(d, nl, rank), Ports(po), DefectOf(a), DefectOf(b))
  {
    ConnectionIsAcyclic(d, rank, nl, po);
    ConnectionIsFanoutNormal(d, nl, po);
    CollapsedFaultsAreSame(Circuit(nl, map[]), ConnectedRanks(d, nl, rank), Ports(po), external, a, b);
  }

  /** Transition faults on the time expansion of a connected acyclic design. */
  lemma TransitionCollapsingIsSound(d: Connection.Source, rank: seq<nat>, nl: Netlist, po: seq<nat>, c: Circuit, external: seq<Pair>, a: nat, b: nat)
    requires Connection.SourceOk(d) && SourceRanked(d, rank) && IsConnected(d, nl, po) && IsExpansion(nl, c)
    requires var r := Ranks(nl, ConnectedRanks(d, nl, rank)); Ranked(c.nl, r) ==> AllSameTransition(c, r, Observed(nl), external)
    requires a < 2 * |c.nl| && b < 2 * |c.nl| && Closed(c.nl) && Connected(StructuralPairs(c, Tdf, |c.nl|) + external, a, b)
    ensures var r := ConnectedRanks(d, nl, rank);
      Ranked(nl, r) && Ranked(c.nl, Ranks(nl, r)) && SameTransition(c, Ranks(nl, r), Observed(nl), a, b)
  {
    ConnectionIsAcyclic(d, rank, nl, po);
    ConnectionIsFanoutNormal(d, nl, po);
    ExpandedCollapsingIsSound(nl, ConnectedRanks(d, nl, rank), Ports(po), c, external, a, b);
  }
}
