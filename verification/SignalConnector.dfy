/** The connection algorithm: slots are allocated from the counts of uses, every pin
    takes the first free slots, and shared signals get branches on the way. */
module SignalConnector {
  import opened Netlists
  import opened Connection
  import opened ConnectedNetlist

  datatype Kind = Undetermined | Known(gate: Gate)

  /** A net under construction; a slot holds -1 while it is free. */
  datatype Wire = Wire(kind: Kind, ins: seq<int>, outs: seq<int>)

  const FREE: int := -1

  /** The first slots are filled, the others are free. */
  ghost predicate Filled(slots: seq<int>, filled: seq<nat>, n: nat) {
    |slots| == n >= |filled| && forall k :: 0 <= k < n ==> slots[k] == if k < |filled| then filled[k] else FREE
  }

  function FreeSlots(n: nat): (slots: seq<int>)
    ensures |slots| == n && forall k :: 0 <= k < n ==> slots[k] == FREE
  {
    seq(n, _ => FREE)
  }

  /** How many input pins drive into a net. */
  function InputSlots(d: Source, s: nat): nat { InputSlotsIn(d, s, |d.modules|) }

  function InputSlotsIn(d: Source, s: nat, n: nat): nat
    requires n <= |d.modules|
  {
    if n == 0 then 0 else if d.modules[n - 1].out == s then |d.modules[n - 1].ins| else InputSlotsIn(d, s, n - 1)
  }

  function KindUpTo(d: Source, s: nat, k: nat): Kind
    requires k <= |d.pins|
  {
    if s in d.pi then Known(In) else if InsUpTo(d, s, k) != [] then Known(KindOf(d, s)) else Undetermined
  }

  /** What is in a signal's slots after k pins. Kept folded. */
  ghost predicate SignalAt(d: Source, k: nat, w: Wire, s: nat) {
    forall u {:trigger Unfold(u)} :: Unfold(u) ==> k <= |d.pins| && SignalAtNow(d, k, w, s)
  }

  ghost predicate SignalAtNow(d: Source, k: nat, w: Wire, s: nat)
    requires k <= |d.pins|
  {
    w.kind == KindUpTo(d, s, k) && Filled(w.ins, InsUpTo(d, s, k), InputSlots(d, s)) && Filled(w.outs, OutsUpTo(d, s, k), Slots(d, s))
  }

  ghost predicate SignalsAt(d: Source, k: nat, nl: seq<Wire>)
    requires d.signals <= |nl|
  {
    forall s: nat :: s < d.signals ==> SignalAt(d, k, nl[s], s)
  }

  /** The branches that pin q created. Kept folded. */
  ghost predicate BranchAt(d: Source, q: nat, nl: seq<Wire>) {
    forall u {:trigger Unfold(u)} :: Unfold(u) ==> q < |d.pins| && BranchAtNow(d, q, nl)
  }

  ghost predicate BranchAtNow(d: Source, q: nat, nl: seq<Wire>)
    requires q < |d.pins|
  {
    && (Branches(d, q) >= 1 ==> Start(d, q) < |nl| && nl[Start(d, q)] == Wire(Known(Fout), [d.pins[q].signal], [d.pins[q].target]))
    && (Branches(d, q) == 2 ==> Start(d, q) + 1 < |nl| && nl[Start(d, q) + 1] == Wire(Known(Fout), [d.pins[q].signal], []))
  }

  ghost predicate BranchesAt(d: Source, k: nat, nl: seq<Wire>) {
    forall q: nat :: q < k ==> BranchAt(d, q, nl)
  }

  ghost predicate PortsAt(d: Source, k: nat, po: seq<nat>)
    requires k <= |d.pins|
  {
    |po| == |d.po| && forall t :: 0 <= t < |po| ==> po[t] == PortNet(d, d.po[t], k)
  }

  /** The first k pins are connected. Kept folded. */
  ghost predicate Connecting(d: Source, k: nat, nl: seq<Wire>, po: seq<nat>, nNet: nat) {
    && SourceOk(d) && k <= |d.pins| && nNet == Start(d, k) && |nl| == |d.pi| + |d.modules| + |d.po| + |d.pins|
    && forall u {:trigger Unfold(u)} :: Unfold(u) ==>
      d.signals <= |nl| && SignalsAt(d, k, nl) && BranchesAt(d, k, nl) && PortsAt(d, k, po)
  }

  // ------------------------------------------------------- one pin, on values

  lemma FillNext(slots: seq<int>, filled: seq<nat>, n: nat, x: nat)
    requires Filled(slots, filled, n) && |filled| < n
    ensures Filled(slots[|filled| := x], filled + [x], n)
  {
  }

  /** What a pin changes in the nets: its signal's outputs, its gate's inputs and
      kind, and the new branches. */
  function Connected(d: Source, q: nat, nl: seq<Wire>): seq<Wire>
    requires q < |d.pins| && d.pins[q].signal < |nl| && d.pins[q].target < |nl|
    requires Start(d, q) + Branches(d, q) <= |nl|
  {
    var p := d.pins[q];
    var start, n := Start(d, q), Branches(d, q);
    var with := if n >= 1 then nl[start := Wire(Known(Fout), [p.signal], [p.target])] else nl;
    var with2 := if n == 2 then with[start + 1 := Wire(Known(Fout), [p.signal], [])] else with;
    var outs := with2[p.signal := with2[p.signal].(outs := PutAll(with2[p.signal].outs, OutputsOf(d, q)))];
    outs[p.target := outs[p.target].(ins := PutAll(outs[p.target].ins, [InputOf(d, q)]), kind := Known(KindOf(d, p.target)))]
  }

  /** The first free slot. */
  function FirstFree(slots: seq<int>): (k: nat)
    ensures k <= |slots| && (forall i :: 0 <= i < k ==> slots[i] != FREE) && (k < |slots| ==> slots[k] == FREE)
  {
    if slots == [] || slots[0] == FREE then 0 else 1 + FirstFree(slots[1..])
  }

  /** Values put into the first free slots, one after the other. */
  function PutAll(slots: seq<int>, xs: seq<nat>): seq<int>
    decreases |xs|
  {
    if xs == [] then slots
    else
      var before := PutAll(slots, xs[..|xs| - 1]);
      var k := FirstFree(before);
      if k < |before| then before[k := xs[|xs| - 1]] else before
  }

  lemma FirstFreeOf(slots: seq<int>, filled: seq<nat>, n: nat)
    requires Filled(slots, filled, n)
    ensures FirstFree(slots) == |filled|
  {
    assert forall i :: 0 <= i < |filled| ==> slots[i] == filled[i] && filled[i] != FREE;
    assert |filled| < n ==> slots[|filled|] == FREE;
  }

  lemma {:induction false} PutAllFills(slots: seq<int>, filled: seq<nat>, n: nat, xs: seq<nat>)
    requires Filled(slots, filled, n) && |filled| + |xs| <= n
    ensures Filled(PutAll(slots, xs), filled + xs, n)
    decreases |xs|
  {
    if xs == [] {
      assert filled + xs == filled;
    } else {
      var init, last := xs[..|xs| - 1], xs[|xs| - 1];
      PutAllFills(slots, filled, n, init);
      FirstFreeOf(PutAll(slots, init), filled + init, n);
      FillNext(PutAll(slots, init), filled + init, n, last);
      assert filled + xs == filled + init + [last];
    }
  }

  /** There is a free input slot for every pin that is still to come. */
  lemma RoomForInput(d: Source, q: nat)
    requires SourceOk(d) && q < |d.pins|
    ensures var g := d.pins[q].target; |InsUpTo(d, g, q)| < InputSlots(d, g) && g !in d.pi
  {
    PinsKnown(d, q);
    var p := d.pins[q];
    InsOfDriver(d, p.owner, p.index);
    InputSlotsOf(d, p.owner, |d.modules|);
    DrivenIsNoInput(d, p.owner);
  }

  lemma DrivenIsNoInput(d: Source, i: nat)
    requires SourceOk(d) && i < |d.modules|
    ensures d.modules[i].out !in d.pi
  {
    assert Unfold(0);
    assert Driven(d, d.modules[i].out);
  }

  lemma {:induction false} InputSlotsOf(d: Source, i: nat, n: nat)
    requires SourceOk(d) && i < n <= |d.modules|
    ensures InputSlotsIn(d, d.modules[i].out, n) == |d.modules[i].ins|
    decreases n
  {
    if i < n - 1 {
      OutputsDiffer(d, i, n - 1);
      InputSlotsOf(d, i, n - 1);
    }
  }

  /** Connecting pin q on values. */
  lemma PinFits(d: Source, q: nat, nl: seq<Wire>, po: seq<nat>, nNet: nat)
    requires Connecting(d, q, nl, po, nNet) && q < |d.pins|
    ensures d.pins[q].signal < d.signals <= |nl| && d.pins[q].target < d.signals && Start(d, q) + Branches(d, q) <= |nl|
    ensures d.signals <= Start(d, q)
  {
    PinInRange(d, q);
    NextFits(d, q);
  }

  lemma PinInRange(d: Source, q: nat)
    requires SourceOk(d) && q < |d.pins|
    ensures d.pins[q].signal < d.signals && d.pins[q].target < d.signals
  {
    PinsKnown(d, q);
  }

  lemma NextFits(d: Source, q: nat)
    requires SourceOk(d) && q < |d.pins|
    ensures d.signals <= Start(d, q) && Start(d, q) + Branches(d, q) <= |d.pi| + |d.modules| + |d.po| + |d.pins|
  {
    NetsFit(d, q + 1);
    StartAbove(d, q);
  }

  lemma ConnectStep(d: Source, q: nat, nl: seq<Wire>, po: seq<nat>, nNet: nat, po': seq<nat>)
    requires Connecting(d, q, nl, po, nNet) && q < |d.pins| && PortsAt(d, q + 1, po')
    requires d.pins[q].signal < d.signals <= |nl| && d.pins[q].target < d.signals && Start(d, q) + Branches(d, q) <= |nl|
    ensures Connecting(d, q + 1, Connected(d, q, nl), po', Start(d, q + 1))
  {
    assert SignalsAt(d, q, nl) && BranchesAt(d, q, nl) by { assert Unfold(0); }
    SignalsStep(d, q, nl);
    BranchesStep(d, q, nl);
  }

  /** Beyond the signals only the new branches change. */
  lemma ConnectedAbove(d: Source, q: nat, nl: seq<Wire>, v: nat)
    requires q < |d.pins| && d.pins[q].signal < d.signals <= v < |nl| && d.pins[q].target < d.signals
    requires Start(d, q) + Branches(d, q) <= |nl| && d.signals <= Start(d, q)
    ensures Connected(d, q, nl)[v] ==
              if Branches(d, q) >= 1 && v == Start(d, q) then Wire(Known(Fout), [d.pins[q].signal], [d.pins[q].target])
              else if Branches(d, q) == 2 && v == Start(d, q) + 1 then Wire(Known(Fout), [d.pins[q].signal], [])
              else nl[v]
  {
  }

  lemma SignalsStep(d: Source, q: nat, nl: seq<Wire>)
    requires SourceOk(d) && q < |d.pins| && d.signals <= |nl| && SignalsAt(d, q, nl)
    requires Start(d, q) + Branches(d, q) <= |nl| && d.pins[q].signal < d.signals && d.pins[q].target < d.signals
    ensures SignalsAt(d, q + 1, Connected(d, q, nl))
  {
    StartAbove(d, q);
    forall s: nat | s < d.signals ensures SignalAt(d, q + 1, Connected(d, q, nl)[s], s) {
      assert SignalAt(d, q, nl[s], s);
      ConnectedBelow(d, q, nl, s);
      SignalStep(d, q, nl[s], s);
    }
  }

  /** What a pin changes in a signal. */
  function Refilled(d: Source, q: nat, w: Wire, s: nat): Wire
    requires q < |d.pins|
  {
    var p := d.pins[q];
    var one := if s == p.signal then w.(outs := PutAll(w.outs, OutputsOf(d, q))) else w;
    if s == p.target then one.(ins := PutAll(w.ins, [InputOf(d, q)]), kind := Known(KindOf(d, s))) else one
  }

  lemma ConnectedBelow(d: Source, q: nat, nl: seq<Wire>, s: nat)
    requires q < |d.pins| && s < d.signals <= Start(d, q) && Start(d, q) + Branches(d, q) <= |nl|
    requires d.pins[q].signal < d.signals && d.pins[q].target < d.signals
    ensures Connected(d, q, nl)[s] == Refilled(d, q, nl[s], s)
  {
  }

  lemma SignalStep(d: Source, q: nat, w: Wire, s: nat)
    requires SourceOk(d) && q < |d.pins| && SignalAt(d, q, w, s)
    ensures SignalAt(d, q + 1, Refilled(d, q, w, s), s)
  {
    var p, after := d.pins[q], Refilled(d, q, w, s);
    assert SignalAtNow(d, q, w, s) by { assert Unfold(0); }
    assert after.kind == KindUpTo(d, s, q + 1) by { KindStep(d, q, w, s); }
    assert Filled(after.ins, InsUpTo(d, s, q + 1), InputSlots(d, s)) by { InsFill(d, q, w.ins, s); }
    assert Filled(after.outs, OutsUpTo(d, s, q + 1), Slots(d, s)) by { OutsFill(d, q, w.outs, s); }
  }

  lemma KindStep(d: Source, q: nat, w: Wire, s: nat)
    requires SourceOk(d) && q < |d.pins| && w.kind == KindUpTo(d, s, q)
    ensures Refilled(d, q, w, s).kind == KindUpTo(d, s, q + 1)
  {
    if s == d.pins[q].target { RoomForInput(d, q); }
  }

  lemma InsFill(d: Source, q: nat, slots: seq<int>, s: nat)
    requires SourceOk(d) && q < |d.pins| && Filled(slots, InsUpTo(d, s, q), InputSlots(d, s))
    ensures Filled(if s == d.pins[q].target then PutAll(slots, [InputOf(d, q)]) else slots, InsUpTo(d, s, q + 1), InputSlots(d, s))
  {
    if s == d.pins[q].target {
      RoomForInput(d, q);
      PutAllFills(slots, InsUpTo(d, s, q), InputSlots(d, s), [InputOf(d, q)]);
    } else {
      assert InsUpTo(d, s, q + 1) == InsUpTo(d, s, q);
    }
  }

  lemma OutsFill(d: Source, q: nat, slots: seq<int>, s: nat)
    requires q < |d.pins| && Filled(slots, OutsUpTo(d, s, q), Slots(d, s))
    ensures Filled(if s == d.pins[q].signal then PutAll(slots, OutputsOf(d, q)) else slots, OutsUpTo(d, s, q + 1), Slots(d, s))
  {
    if s == d.pins[q].signal {
      RoomForPin(d, q);
      PutAllFills(slots, OutsUpTo(d, s, q), Slots(d, s), OutputsOf(d, q));
    } else {
      assert OutsUpTo(d, s, q + 1) == OutsUpTo(d, s, q);
    }
  }

  lemma BranchStep(d: Source, q: nat, nl: seq<Wire>, r: nat)
    requires SourceOk(d) && r <= q < |d.pins| && d.signals <= |nl|
    requires Start(d, q) + Branches(d, q) <= |nl| && d.pins[q].signal < d.signals && d.pins[q].target < d.signals
    requires r < q ==> BranchAt(d, r, nl)
    ensures BranchAt(d, r, Connected(d, q, nl))
  {
    var after := Connected(d, q, nl);
    StartAbove(d, q);
    StartAbove(d, r);
    if r < q {
      StartMonotone(d, r, q);
      BranchWires(d, r, nl);
    }
    if Branches(d, r) >= 1 { ConnectedAbove(d, q, nl, Start(d, r)); }
    if Branches(d, r) == 2 { ConnectedAbove(d, q, nl, Start(d, r) + 1); }
    BranchHolds(d, r, after);
  }

  lemma BranchHolds(d: Source, q: nat, nl: seq<Wire>)
    requires q < |d.pins|
    requires Branches(d, q) >= 1 ==> Start(d, q) < |nl| && nl[Start(d, q)] == Wire(Known(Fout), [d.pins[q].signal], [d.pins[q].target])
    requires Branches(d, q) == 2 ==> Start(d, q) + 1 < |nl| && nl[Start(d, q) + 1] == Wire(Known(Fout), [d.pins[q].signal], [])
    ensures BranchAt(d, q, nl)
  {
    assert BranchAtNow(d, q, nl);
  }

  lemma BranchesStep(d: Source, q: nat, nl: seq<Wire>)
    requires SourceOk(d) && q < |d.pins| && d.signals <= |nl| && BranchesAt(d, q, nl)
    requires Start(d, q) + Branches(d, q) <= |nl| && d.pins[q].signal < d.signals && d.pins[q].target < d.signals
    ensures BranchesAt(d, q + 1, Connected(d, q, nl))
  {
    forall r: nat | r < q + 1 ensures BranchAt(d, r, Connected(d, q, nl)) {
      BranchStep(d, q, nl, r);
    }
  }

  /** The scan of the ports finds the signal exactly at its first use. */
  lemma {:induction false} PortIsFresh(d: Source, q: nat, s: nat)
    requires SourceOk(d) && q <= |d.pins| && s in d.po
    ensures PortNet(d, s, q) == s <==> Uses(d.pins[..q], s) == 0
    ensures PortNet(d, s, q) != s ==> PortNet(d, s, q) >= d.signals
  {
    if q > 0 {
      PortIsFresh(d, q - 1, s);
      UsesMore(d.pins, q - 1, s);
      PortAt(d, s);
      StartAbove(d, q - 1);
      if d.pins[q - 1].signal == s && Uses(d.pins[..q - 1], s) == 0 {
        var ps := d.pins;
        UsedAtLeastOnce(ps, |ps|, q - 1, s);
        assert ps[..|ps|] == ps;
        assert Branches(d, q - 1) == 2;
      }
    }
  }

  lemma PortsStep(d: Source, q: nat, po: seq<nat>)
    requires SourceOk(d) && q < |d.pins| && PortsAt(d, q, po)
    ensures Branches(d, q) == 2 <==> d.pins[q].signal in po
    ensures d.pins[q].signal !in po ==> PortsAt(d, q + 1, po)
    ensures forall t :: 0 <= t < |po| && po[t] == d.pins[q].signal ==> PortsAt(d, q + 1, po[t := Start(d, q) + 1])
  {
    var s := d.pins[q].signal;
    DirectOrBranch(d, q);
    forall t | 0 <= t < |po| ensures po[t] == s <==> d.po[t] == s && Uses(d.pins[..q], s) == 0 {
      assert d.po[t] in d.po;
      PortIsFresh(d, q, d.po[t]);
    }
    UsedIfPort(d, q);
    if s in d.po {
      var t :| 0 <= t < |d.po| && d.po[t] == s;
      assert po[t] == s <==> Uses(d.pins[..q], s) == 0;
    }
    forall t | 0 <= t < |po| && po[t] == s ensures PortsAt(d, q + 1, po[t := Start(d, q) + 1]) {
      forall u | 0 <= u < |po| ensures po[t := Start(d, q) + 1][u] == PortNet(d, d.po[u], q + 1) {
        if u != t { PortsAreDistinct(d, t, u); }
      }
    }
  }

  lemma PortsAreDistinct(d: Source, t: nat, u: nat)
    requires SourceOk(d) && t < |d.po| && u < |d.po| && t != u
    ensures d.po[t] != d.po[u]
  {
    assert Unfold(0);
  }

  /** A pin whose signal is a port makes two branches at its first use. */
  lemma UsedIfPort(d: Source, q: nat)
    requires SourceOk(d) && q < |d.pins|
    ensures Branches(d, q) == 2 <==> FirstPortUse(d, d.pins, q)
  {
    var ps, s := d.pins, d.pins[q].signal;
    assert ps[..|ps|] == ps;
    UsedAtLeastOnce(ps, |ps|, q, s);
  }

  // ----------------------------------------------------- the start and end

  /** Before any pin: slots by the counts, all free. */
  ghost predicate Allocated(d: Source, nl: seq<Wire>) {
    && |nl| == |d.pi| + |d.modules| + |d.po| + |d.pins|
    && forall s: nat :: s < d.signals && s < |nl| ==>
         nl[s] == Wire(if s in d.pi then Known(In) else Undetermined, FreeSlots(InputSlots(d, s)), FreeSlots(Slots(d, s)))
  }

  lemma ConnectStart(d: Source, nl: seq<Wire>, po: seq<nat>)
    requires SourceOk(d) && Allocated(d, nl) && po == d.po
    ensures Connecting(d, 0, nl, po, d.signals)
  {
    SignalsFit(d);
    forall s: nat | s < d.signals ensures SignalAt(d, 0, nl[s], s) {
      assert SignalAtNow(d, 0, nl[s], s);
    }
  }

  /** The finished nets as a netlist. */
  function Finished(w: Wire): Net {
    Net(if w.kind.Known? then w.kind.gate else In, Numbers(w.ins), Numbers(w.outs))
  }

  function Numbers(slots: seq<int>): seq<nat> {
    if slots == [] then [] else Numbers(slots[..|slots| - 1]) + if slots[|slots| - 1] >= 0 then [slots[|slots| - 1] as nat] else []
  }

  function AsNetlist(nl: seq<Wire>, n: nat): (r: Netlist)
    requires n <= |nl|
    ensures |r| == n && forall i :: 0 <= i < n ==> r[i] == Finished(nl[i])
  {
    seq(n, i requires 0 <= i < n => Finished(nl[i]))
  }

  lemma {:induction false} FullNumbers(slots: seq<int>, filled: seq<nat>)
    requires Filled(slots, filled, |filled|)
    ensures Numbers(slots) == filled
  {
    if filled != [] { FullNumbers(slots[..|slots| - 1], filled[..|filled| - 1]); }
  }

  /** Every input slot of a net is filled in the end. */
  lemma InputsAreFilled(d: Source, s: nat)
    requires SourceOk(d) && s < d.signals
    ensures |InsUpTo(d, s, |d.pins|)| == InputSlots(d, s)
    ensures KindUpTo(d, s, |d.pins|) == Known(KindOf(d, s))
  {
    if Driven(d, s) {
      var i: nat :| i < |d.modules| && d.modules[i].out == s;
      DrivenIsFilled(d, i);
    } else {
      InsOfInput(d, s, |d.pins|);
      UndrivenSlots(d, s, |d.modules|);
      KindInIs(d, s, |d.modules|);
      assert s in d.pi by { assert Unfold(0); }
    }
  }

  lemma DrivenIsFilled(d: Source, i: nat)
    requires SourceOk(d) && i < |d.modules|
    ensures var s := d.modules[i].out;
      |InsUpTo(d, s, |d.pins|)| == InputSlots(d, s) && KindUpTo(d, s, |d.pins|) == Known(KindOf(d, s))
  {
    InsOfGate(d, i);
    InputSlotsOf(d, i, |d.modules|);
    DrivenIsNoInput(d, i);
    assert d.modules[i].ins != [] by { ModuleAt(d, i); }
  }

  lemma {:induction false} UndrivenSlots(d: Source, s: nat, n: nat)
    requires n <= |d.modules| && !Driven(d, s)
    ensures InputSlotsIn(d, s, n) == 0
  {
    if n > 0 { UndrivenSlots(d, s, n - 1); }
  }

  /** When all pins are connected, the netlist is the connected one, with no free slot. */
  lemma ConnectEnd(d: Source, nl: seq<Wire>, po: seq<nat>, nNet: nat)
    requires Connecting(d, |d.pins|, nl, po, nNet)
    ensures nNet <= |nl| && IsConnected(d, AsNetlist(nl, nNet), po)
    ensures forall s: nat :: s < d.signals ==> s < |nl| && FREE !in nl[s].ins && FREE !in nl[s].outs
  {
    EndFits(d, nl, po, nNet);
    SignalsEnd(d, nl, po, nNet);
    BranchesEnd(d, nl, po, nNet);
    PortsEnd(d, nl, po, nNet);
    assert IsConnectedNow(d, AsNetlist(nl, nNet), po);
  }

  lemma PortsEnd(d: Source, nl: seq<Wire>, po: seq<nat>, nNet: nat)
    requires Connecting(d, |d.pins|, nl, po, nNet)
    ensures PortsAt(d, |d.pins|, po)
  {
    assert Unfold(0);
  }

  lemma EndFits(d: Source, nl: seq<Wire>, po: seq<nat>, nNet: nat)
    requires Connecting(d, |d.pins|, nl, po, nNet)
    ensures d.signals <= nNet <= |nl|
  {
    NetsFit(d, |d.pins|);
    StartAbove(d, |d.pins|);
  }

  lemma SignalsEnd(d: Source, nl: seq<Wire>, po: seq<nat>, nNet: nat)
    requires Connecting(d, |d.pins|, nl, po, nNet) && d.signals <= nNet <= |nl|
    ensures forall s: nat :: s < d.signals ==> s < |nl| && FREE !in nl[s].ins && FREE !in nl[s].outs
    ensures SignalNets(d, AsNetlist(nl, nNet))
  {
    assert SignalsAt(d, |d.pins|, nl) by { assert Unfold(0); }
    forall s: nat | s < d.signals
      ensures FREE !in nl[s].ins && FREE !in nl[s].outs
      ensures AsNetlist(nl, nNet)[s] == Net(KindOf(d, s), InsUpTo(d, s, |d.pins|), OutsUpTo(d, s, |d.pins|))
    {
      SignalEnd(d, nl[s], s);
    }
  }

  lemma BranchesEnd(d: Source, nl: seq<Wire>, po: seq<nat>, nNet: nat)
    requires Connecting(d, |d.pins|, nl, po, nNet) && nNet <= |nl|
    ensures BranchNets(d, AsNetlist(nl, nNet))
  {
    assert BranchesAt(d, |d.pins|, nl) by { assert Unfold(0); }
    forall q: nat | q < |d.pins| ensures BranchNetsOf(d, AsNetlist(nl, nNet), q) {
      assert BranchAt(d, q, nl);
      BranchesOfPinEnd(d, q, nl);
    }
  }

  lemma BranchesOfPinEnd(d: Source, q: nat, nl: seq<Wire>)
    requires q < |d.pins| && BranchAt(d, q, nl) && Start(d, |d.pins|) <= |nl|
    ensures Branches(d, q) >= 1 ==> Start(d, q) < Start(d, |d.pins|) && Finished(nl[Start(d, q)]) == Net(Fout, [d.pins[q].signal], [d.pins[q].target])
    ensures Branches(d, q) == 2 ==>
              Start(d, q) + 1 < Start(d, |d.pins|) && Finished(nl[Start(d, q) + 1]) == Net(Fout, [d.pins[q].signal], [])
  {
    var x, y := d.pins[q].signal, d.pins[q].target;
    BranchWires(d, q, nl);
    StartMonotone(d, q, |d.pins|);
    BranchEnd(x, y);
    PortBranchEnd(x);
  }

  lemma BranchWires(d: Source, q: nat, nl: seq<Wire>)
    requires q < |d.pins| && BranchAt(d, q, nl)
    ensures Branches(d, q) >= 1 ==> Start(d, q) < |nl| && nl[Start(d, q)] == Wire(Known(Fout), [d.pins[q].signal], [d.pins[q].target])
    ensures Branches(d, q) == 2 ==> Start(d, q) + 1 < |nl| && nl[Start(d, q) + 1] == Wire(Known(Fout), [d.pins[q].signal], [])
  {
    assert BranchAtNow(d, q, nl) by { assert Unfold(0); }
  }

  lemma BranchEnd(x: nat, y: nat)
    ensures Finished(Wire(Known(Fout), [x], [y])) == Net(Fout, [x], [y])
  {
    OneNumber(x);
    OneNumber(y);
  }

  lemma PortBranchEnd(x: nat)
    ensures Finished(Wire(Known(Fout), [x], [])) == Net(Fout, [x], [])
  {
    OneNumber(x);
  }

  lemma SignalEnd(d: Source, w: Wire, s: nat)
    requires SourceOk(d) && s < d.signals && SignalAt(d, |d.pins|, w, s)
    ensures FREE !in w.ins && FREE !in w.outs
    ensures Finished(w) == Net(KindOf(d, s), InsUpTo(d, s, |d.pins|), OutsUpTo(d, s, |d.pins|))
  {
    assert SignalAtNow(d, |d.pins|, w, s) by { assert Unfold(0); }
    InputsAreFilled(d, s);
    SlotsAreFilled(d, s);
    FullNumbers(w.ins, InsUpTo(d, s, |d.pins|));
    FullNumbers(w.outs, OutsUpTo(d, s, |d.pins|));
  }

  lemma OneNumber(x: nat)
    ensures Numbers([x]) == [x]
  {
    assert [x as int][..0] == [];
  }

  // --------------------------------------------------------- the algorithm

  class Connector {
    const d: Source
    const nl: array<Wire>
    const po: array<nat>
    var nNet: nat

    ghost predicate At(q: nat)
      reads this, nl, po
    {
      Connecting(d, q, nl[..], po[..], nNet)
    }

    constructor (source: Source)
      requires SourceOk(source)
      ensures d == source && fresh(nl) && fresh(po) && nNet == source.signals
      ensures nl.Length == |d.pi| + |d.modules| + |d.po| + |d.pins| && po[..] == d.po
      ensures forall s :: 0 <= s < nl.Length ==> nl[s] == Wire(Undetermined, [], [])
    {
      d := source;
      nl := new Wire[|source.pi| + |source.modules| + |source.po| + |source.pins|](_ => Wire(Undetermined, [], []));
      po := new nat[|source.po|](i requires 0 <= i < |source.po| => source.po[i]);
      nNet := source.signals;
    }

    /** Uses of every signal, as the parser counts them. */
    method CountUses() returns (uses: array<nat>)
      requires SourceOk(d)
      ensures fresh(uses) && uses.Length == d.signals && forall s: nat :: s < d.signals ==> uses[s] == Uses(d.pins, s)
    {
      uses := new nat[d.signals](_ => 0);
      var q := 0;
      for i := 0 to |d.modules|
        invariant q == |Pins(d, i)| <= |d.pins|
        invariant forall s: nat :: s < d.signals ==> uses[s] == Uses(d.pins[..q], s)
      {
        ghost var base := q;
        ModuleAt(d, i);
        PinsOfAll(d, i + 1);
        for j := 0 to |d.modules[i].ins|
          invariant q == base + j <= |d.pins|
          invariant forall s: nat :: s < d.signals ==> uses[s] == Uses(d.pins[..q], s)
        {
          PinPlace(d, i, j);
          assert d.pins[q].signal == d.modules[i].ins[j];
          var x := d.modules[i].ins[j];
          OneMoreUse(q);
          uses[x] := uses[x] + 1;
          q := q + 1;
        }
      }
      PinsAreAll(d);
      assert d.pins[..q] == d.pins;
    }

    lemma OneMoreUse(q: nat)
      requires q < |d.pins|
      ensures forall s: nat :: Uses(d.pins[..q + 1], s) == Uses(d.pins[..q], s) + if s == d.pins[q].signal then 1 else 0
    {
      forall s: nat ensures Uses(d.pins[..q + 1], s) == Uses(d.pins[..q], s) + if s == d.pins[q].signal then 1 else 0 {
        UsesMore(d.pins, q, s);
      }
    }

    /** Counts the slots of every net and allocates them free. */
    method AllocNlInOut(inputs: seq<bool>)
      requires SourceOk(d) && nl.Length == |d.pi| + |d.modules| + |d.po| + |d.pins| && po[..] == d.po
      requires |inputs| == d.signals && forall s: nat :: s < d.signals ==> (inputs[s] <==> s in d.pi)
      requires nNet == d.signals
      modifies nl
      ensures At(0)
    {
      SignalsFit(d);
      var nIn := CountInputs();
      var uses := CountUses();
      var nOut := CountOutputs(uses);
      for i := 0 to d.signals
        invariant forall s: nat :: s < d.signals ==> nIn[s] == InputSlots(d, s) && nOut[s] == Slots(d, s)
        invariant forall s: nat :: s < i ==>
                    nl[s] == Wire(if s in d.pi then Known(In) else Undetermined, FreeSlots(InputSlots(d, s)), FreeSlots(Slots(d, s)))
      {
        nl[i] := Wire(if inputs[i] then Known(In) else Undetermined, FreeSlots(nIn[i]), FreeSlots(nOut[i]));
      }
      ConnectStart(d, nl[..], po[..]);
    }

    /** The number of input pins of every net. */
    method CountInputs() returns (nIn: array<nat>)
      requires SourceOk(d)
      ensures fresh(nIn) && nIn.Length == d.signals && forall s: nat :: s < d.signals ==> nIn[s] == InputSlots(d, s)
    {
      nIn := new nat[d.signals](_ => 0);
      for i := 0 to |d.modules|
        invariant forall s: nat :: s < d.signals ==> nIn[s] == InputSlotsIn(d, s, i)
      {
        ModuleAt(d, i);
        nIn[d.modules[i].out] := |d.modules[i].ins|;
      }
    }

    /** One output slot per use, and one more for a port that is used. */
    method CountOutputs(uses: array<nat>) returns (nOut: array<nat>)
      requires SourceOk(d) && po[..] == d.po
      requires uses.Length == d.signals && forall s: nat :: s < d.signals ==> uses[s] == Uses(d.pins, s)
      ensures fresh(nOut) && nOut.Length == d.signals && forall s: nat :: s < d.signals ==> nOut[s] == Slots(d, s)
    {
      nOut := new nat[d.signals](s requires 0 <= s < d.signals && uses.Length == d.signals reads uses => uses[s]);
      for t := 0 to po.Length
        invariant po[..] == d.po
        invariant forall s: nat :: s < d.signals ==> nOut[s] == uses[s] + if s in d.po[..t] && uses[s] >= 1 then 1 else 0
      {
        var s := po[t];
        PortAt(d, s);
        assert d.po[..t + 1] == d.po[..t] + [s];
        assert s !in d.po[..t] by { PortIsNew(d, t); }
        if uses[s] >= 1 { nOut[s] := nOut[s] + 1; }
      }
      assert d.po[..po.Length] == d.po;
    }

    /** The first free slot of a list that has one. */
    method FindFree(slots: seq<int>) returns (no: nat)
      requires FirstFree(slots) < |slots|
      ensures no == FirstFree(slots)
    {
      no := 0;
      while slots[no] != FREE
        invariant no <= FirstFree(slots)
        decreases FirstFree(slots) - no
      {
        no := no + 1;
      }
    }

    method PutOutput(x: nat, v: nat)
      requires x < nl.Length && FirstFree(nl[x].outs) < |nl[x].outs|
      modifies nl
      ensures nl[..] == old(nl[..])[x := old(nl[x]).(outs := PutAll(old(nl[x]).outs, [v]))]
    {
      PutOne(nl[x].outs, v);
      var no := FindFree(nl[x].outs);
      nl[x] := nl[x].(outs := nl[x].outs[no := v]);
    }

    /** Puts the net into the first free input slot and sets the gate's kind. */
    method PutInput(y: nat, v: nat, kind: Gate)
      requires y < nl.Length && FirstFree(nl[y].ins) < |nl[y].ins|
      modifies nl
      ensures nl[..] == old(nl[..])[y := old(nl[y]).(ins := PutAll(old(nl[y]).ins, [v]), kind := Known(kind))]
    {
      PutOne(nl[y].ins, v);
      var no := FindFree(nl[y].ins);
      nl[y] := nl[y].(ins := nl[y].ins[no := v], kind := Known(kind));
    }

    /** A signal with one use: the two nets are connected directly. */
    method ConnectionNoFout(ghost q: nat, x: nat, y: nat, kind: Gate)
      requires At(q) && q < |d.pins| && Branches(d, q) == 0 && x == d.pins[q].signal && y == d.pins[q].target
      requires kind == KindOf(d, y)
      modifies nl
      ensures At(q + 1)
    {
      ghost var before := nl[..];
      PinFits(d, q, before, po[..], nNet);
      SlotsForPin(d, q, before, po[..], nNet);
      PutOne(nl[x].outs, y);
      nl[x] := nl[x].(outs := nl[x].outs[0 := y]);
      PutInput(y, x, kind);
      assert nl[..] == Connected(d, q, before);
      PortsStep(d, q, po[..]);
      ConnectStep(d, q, before, po[..], nNet, po[..]);
    }

    /** A shared signal: the pin gets a branch of its own. */
    method ConnectionYesFout(ghost q: nat, x: nat, y: nat, kind: Gate)
      requires nNet < nl.Length && x < nNet && y < nNet && nNet >= d.signals && x < d.signals && y < d.signals
      requires FirstFree(nl[x].outs) < |nl[x].outs| && FirstFree(nl[y].ins) < |nl[y].ins|
      modifies nl, this`nNet
      ensures nNet == old(nNet) + 1 && nl[..] == WithBranch(old(nl[..]), old(nNet), x, y, kind)
    {
      ghost var before := nl[..];
      nl[nNet] := Wire(Known(Fout), [FREE], [FREE]);
      PutOutput(x, nNet);
      PutInput(y, nNet, kind);
      nl[nNet] := nl[nNet].(ins := [x]);
      nl[nNet] := nl[nNet].(outs := [y]);
      assert nl[..] == WithBranch(before, nNet, x, y, kind);
      nNet := nNet + 1;
    }

    /** A shared signal that is an output port: the port gets a branch, too. */
    method ConnectionPoFout(x: nat)
      requires nNet < nl.Length && x < nNet && FirstFree(nl[x].outs) < |nl[x].outs|
      modifies nl, this`nNet
      ensures nNet == old(nNet) + 1 && nl[..] == WithPortBranch(old(nl[..]), old(nNet), x)
    {
      ghost var before := nl[..];
      nl[nNet] := Wire(Known(Fout), [FREE], []);
      PutOutput(x, nNet);
      nl[nNet] := nl[nNet].(ins := [x]);
      assert nl[..] == WithPortBranch(before, nNet, x);
      nNet := nNet + 1;
    }

    /** Connects one pin. */
    method ConnectPin(ghost q: nat, x: nat, y: nat, kind: Gate)
      requires At(q) && q < |d.pins| && x == d.pins[q].signal && y == d.pins[q].target && kind == KindOf(d, y)
      modifies nl, po, this`nNet
      ensures At(q + 1)
    {
      PinFits(d, q, nl[..], po[..], nNet);
      SlotsForPin(d, q, nl[..], po[..], nNet);
      UsedOncePin(d, q);
      if |nl[x].outs| == 1 {
        ConnectionNoFout(q, x, y, kind);
      } else {
        ghost var before, ports, start := nl[..], po[..], nNet;
        ConnectBranches(q, x, y, kind);
        assert PortsAt(d, q, ports) && Start(d, q + 1) == start + Branches(d, q);
        ConnectStep(d, q, before, ports, start, po[..]);
      }
    }

    /** A branch for the pin and, at the first use of a port, one for the port. */
    method ConnectBranches(ghost q: nat, x: nat, y: nat, kind: Gate)
      requires SourceOk(d) && q < |d.pins| && x == d.pins[q].signal < d.signals && y == d.pins[q].target < d.signals && kind == KindOf(d, y)
      requires nNet == Start(d, q) >= d.signals && Start(d, q) + Branches(d, q) <= nl.Length && Branches(d, q) >= 1 && PortsAt(d, q, po[..])
      requires FirstFree(nl[x].outs) + Branches(d, q) <= |nl[x].outs| && FirstFree(nl[y].ins) < |nl[y].ins|
      requires forall k :: FirstFree(nl[x].outs) <= k < |nl[x].outs| ==> nl[x].outs[k] == FREE
      modifies nl, po, this`nNet
      ensures nNet == Start(d, q) + Branches(d, q) && nl[..] == Connected(d, q, old(nl[..])) && PortsAt(d, q + 1, po[..])
    {
      ghost var before := nl[..];
      PortsStep(d, q, po[..]);
      BranchesAreConnected(d, q, before, x, y, kind);
      ConnectionYesFout(q, x, y, kind);
      var k := FindPort(x);
      if k < po.Length {
        RoomForPortBranch(d, q, before, x, y, kind);
        po[k] := nNet;
        ConnectionPoFout(x);
      }
    }

    /** The first output port at a net, or the number of ports. */
    method FindPort(x: nat) returns (k: nat)
      ensures k <= po.Length && (k < po.Length ==> po[k] == x) && (k == po.Length ==> x !in po[..])
    {
      k := 0;
      while k < po.Length && po[k] != x
        invariant k <= po.Length && forall t :: 0 <= t < k ==> po[t] != x
      {
        k := k + 1;
      }
    }

    /** Connects every pin of every gate. */
    method ConnectionNSignal()
      requires At(0)
      modifies nl, po, this`nNet
      ensures At(|d.pins|)
    {
      for i := 0 to |d.modules|
        invariant |Pins(d, i)| <= |d.pins| && At(|Pins(d, i)|)
      {
        ConnectModule(i);
      }
      PinsAreAll(d);
    }

    /** Connects the pins of one gate. */
    method ConnectModule(i: nat)
      requires i < |d.modules| && |Pins(d, i)| <= |d.pins| && At(|Pins(d, i)|)
      modifies nl, po, this`nNet
      ensures |Pins(d, i + 1)| <= |d.pins| && At(|Pins(d, i + 1)|)
    {
      PinsOfAll(d, i + 1);
      for j := 0 to |d.modules[i].ins|
        invariant |Pins(d, i)| + j <= |d.pins| && At(|Pins(d, i)| + j)
      {
        PinOfModule(i, j);
        ConnectPin(|Pins(d, i)| + j, d.modules[i].ins[j], d.modules[i].out, d.modules[i].kind);
      }
    }

    lemma PinOfModule(i: nat, j: nat)
      requires SourceOk(d) && i < |d.modules| && j < |d.modules[i].ins|
      ensures var q := |Pins(d, i)| + j;
        && q < |d.pins| && d.pins[q].signal == d.modules[i].ins[j] && d.pins[q].target == d.modules[i].out
        && KindOf(d, d.pins[q].target) == d.modules[i].kind
    {
      PinPlace(d, i, j);
      KindInIs(d, d.modules[i].out, |d.modules|);
    }

    /** The whole connection: the result is the connected netlist, every slot is
        filled, and the nets fit the allocation. */
    method ConnectionSignal(inputs: seq<bool>) returns (netlist: Netlist)
      requires SourceOk(d) && nl.Length == |d.pi| + |d.modules| + |d.po| + |d.pins| && po[..] == d.po && nNet == d.signals
      requires |inputs| == d.signals && forall s: nat :: s < d.signals ==> (inputs[s] <==> s in d.pi)
      modifies nl, po, this`nNet
      ensures IsConnected(d, netlist, po[..]) && |netlist| == nNet <= nl.Length
      ensures forall s: nat :: s < d.signals ==> s < nl.Length && FREE !in nl[s].ins && FREE !in nl[s].outs
      ensures Closed(netlist) && FanoutNormal(netlist, set p | p in po[..])
    {
      AllocNlInOut(inputs);
      ConnectionNSignal();
      ConnectEnd(d, nl[..], po[..], nNet);
      netlist := AsNetlist(nl[..], nNet);
      ConnectionIsClosed(d, netlist, po[..]);
      ConnectionIsFanoutNormal(d, netlist, po[..]);
    }
  }

  /** The nets after a branch for a pin, and after one for a port. */
  function WithBranch(nl: seq<Wire>, n: nat, x: nat, y: nat, kind: Gate): seq<Wire>
    requires n < |nl| && x < |nl| && y < |nl|
  {
    var one := nl[n := Wire(Known(Fout), [x], [y])];
    var two := one[x := one[x].(outs := PutAll(one[x].outs, [n]))];
    two[y := two[y].(ins := PutAll(two[y].ins, [n]), kind := Known(kind))]
  }

  function WithPortBranch(nl: seq<Wire>, n: nat, x: nat): seq<Wire>
    requires n < |nl| && x < |nl|
  {
    var one := nl[n := Wire(Known(Fout), [x], [])];
    one[x := one[x].(outs := PutAll(one[x].outs, [n]))]
  }

  lemma PutTwo(slots: seq<int>, a: nat, b: nat)
    ensures PutAll(slots, [a, b]) == PutAll(PutAll(slots, [a]), [b])
  {
    assert [a, b][..1] == [a];
    PutOne(PutAll(slots, [a]), b);
  }

  /** After the pin's branch there is still a slot for the port's. */
  lemma RoomForPortBranch(d: Source, q: nat, nl: seq<Wire>, x: nat, y: nat, kind: Gate)
    requires q < |d.pins| && Branches(d, q) == 2 && Start(d, q) < |nl| && x < d.signals <= Start(d, q) && y < d.signals
    requires FirstFree(nl[x].outs) + 2 <= |nl[x].outs| && forall k :: FirstFree(nl[x].outs) <= k < |nl[x].outs| ==> nl[x].outs[k] == FREE
    ensures var outs := WithBranch(nl, Start(d, q), x, y, kind)[x].outs;
      FirstFree(outs) < |outs|
  {
    PutOne(nl[x].outs, Start(d, q));
    var k := FirstFree(nl[x].outs);
    var outs := nl[x].outs[k := Start(d, q)];
    assert k + 1 < |outs| && outs[k + 1] == FREE;
  }

  /** The branches of the pin make exactly the change of 'Connected'. */
  lemma BranchesAreConnected(d: Source, q: nat, nl: seq<Wire>, x: nat, y: nat, kind: Gate)
    requires q < |d.pins| && Branches(d, q) >= 1 && Start(d, q) + Branches(d, q) <= |nl|
    requires x == d.pins[q].signal < d.signals <= Start(d, q) && y == d.pins[q].target < d.signals && kind == KindOf(d, y)
    ensures var start := Start(d, q); var one := WithBranch(nl, start, x, y, kind);
      (if Branches(d, q) == 2 then WithPortBranch(one, start + 1, x) else one) == Connected(d, q, nl)
  {
    var start := Start(d, q);
    var one := WithBranch(nl, start, x, y, kind);
    assert InputOf(d, q) == start;
    if Branches(d, q) == 2 {
      PutTwo(nl[x].outs, start, start + 1);
      TwoBranches(nl, start, x, y, kind);
    }
  }

  /** Making both branches at once changes the same nets. */
  lemma TwoBranches(nl: seq<Wire>, n: nat, x: nat, y: nat, kind: Gate)
    requires x < n && y < n && n + 1 < |nl| && PutAll(nl[x].outs, [n, n + 1]) == PutAll(PutAll(nl[x].outs, [n]), [n + 1])
    ensures WithPortBranch(WithBranch(nl, n, x, y, kind), n + 1, x) == BothBranches(nl, n, x, y, kind)
  {
    var a, b := WithPortBranch(WithBranch(nl, n, x, y, kind), n + 1, x), BothBranches(nl, n, x, y, kind);
    assert |a| == |b| && forall v :: 0 <= v < |a| ==> a[v] == b[v];
  }

  function BothBranches(nl: seq<Wire>, n: nat, x: nat, y: nat, kind: Gate): seq<Wire>
    requires x < n && y < n && n + 1 < |nl|
  {
    var two := nl[n := Wire(Known(Fout), [x], [y])][n + 1 := Wire(Known(Fout), [x], [])];
    var outs := two[x := two[x].(outs := PutAll(two[x].outs, [n, n + 1]))];
    outs[y := outs[y].(ins := PutAll(outs[y].ins, [n]), kind := Known(kind))]
  }

  lemma PutOne(slots: seq<int>, v: nat)
    ensures PutAll(slots, [v]) == if FirstFree(slots) < |slots| then slots[FirstFree(slots) := v] else slots
  {
    assert [v][..0] == [];
    assert PutAll(slots, [v][..0]) == slots;
  }

  lemma PortIsNew(d: Source, t: nat)
    requires SourceOk(d) && t < |d.po|
    ensures d.po[t] !in d.po[..t]
  {
    forall u | 0 <= u < t ensures d.po[u] != d.po[t] { PortsAreDistinct(d, u, t); }
  }

  /** The slots that the next pin will take. */
  lemma SlotsForPin(d: Source, q: nat, nl: seq<Wire>, po: seq<nat>, nNet: nat)
    requires Connecting(d, q, nl, po, nNet) && q < |d.pins|
    requires d.pins[q].signal < d.signals <= |nl| && d.pins[q].target < d.signals
    ensures var x, y := d.pins[q].signal, d.pins[q].target;
      && |nl[x].outs| == Slots(d, x) && FirstFree(nl[x].outs) + |OutputsOf(d, q)| <= |nl[x].outs|
      && (forall k :: FirstFree(nl[x].outs) <= k < |nl[x].outs| ==> nl[x].outs[k] == FREE)
      && (Branches(d, q) == 0 ==> FirstFree(nl[x].outs) == 0)
      && FirstFree(nl[y].ins) < |nl[y].ins|
      && PortsAt(d, q, po)
  {
    var x, y := d.pins[q].signal, d.pins[q].target;
    assert SignalsAt(d, q, nl) && PortsAt(d, q, po) by { assert Unfold(0); }
    assert SignalAt(d, q, nl[x], x) && SignalAt(d, q, nl[y], y);
    assert SignalAtNow(d, q, nl[x], x) && SignalAtNow(d, q, nl[y], y) by { assert Unfold(0); }
    RoomForPin(d, q);
    RoomForInput(d, q);
    FirstFreeOf(nl[x].outs, OutsUpTo(d, x, q), Slots(d, x));
    FirstFreeOf(nl[y].ins, InsUpTo(d, y, q), InputSlots(d, y));
    UsedOncePin(d, q);
  }

  lemma UsedOncePin(d: Source, q: nat)
    requires q < |d.pins|
    ensures Slots(d, d.pins[q].signal) >= 1
  {
    UsedAtLeastOnce(d.pins, |d.pins|, q, d.pins[q].signal);
    assert d.pins[..|d.pins|] == d.pins;
  }
}