/** What connecting the signals produces, and that it is in fan-out normal form. */
module ConnectedNetlist {
  import opened Netlists
  import opened Connection
  import opened TimeExpansion

  function KindOf(d: Source, s: nat): Gate { KindIn(d, s, |d.modules|) }

  function KindIn(d: Source, s: nat, n: nat): Gate
    requires n <= |d.modules|
  {
    if n == 0 then In else if d.modules[n - 1].out == s then d.modules[n - 1].kind else KindIn(d, s, n - 1)
  }

  /** Where an output port leads after k pins. */
  function PortNet(d: Source, s: nat, k: nat): nat
    requires k <= |d.pins|
  {
    if k == 0 then s
    else if d.pins[k - 1].signal == s && Branches(d, k - 1) == 2 then Start(d, k - 1) + 1
    else PortNet(d, s, k - 1)
  }

  /** The connected netlist: signals with their inputs and outputs, then the branches. */
  ghost predicate IsConnected(d: Source, nl: Netlist, po: seq<nat>) {
    var n := |d.pins|;
    && |nl| == Start(d, n) >= d.signals
    && forall u {:trigger Unfold(u)} :: Unfold(u) ==> IsConnectedNow(d, nl, po)
  }

  ghost predicate IsConnectedNow(d: Source, nl: Netlist, po: seq<nat>)
    requires |nl| == Start(d, |d.pins|) >= d.signals
  {
    SignalNets(d, nl) && BranchNets(d, nl) && |po| == |d.po| && forall t :: 0 <= t < |po| ==> po[t] == PortNet(d, d.po[t], |d.pins|)
  }

  ghost predicate SignalNets(d: Source, nl: Netlist)
    requires d.signals <= |nl|
  {
    forall s: nat :: s < d.signals ==> nl[s] == Net(KindOf(d, s), InsUpTo(d, s, |d.pins|), OutsUpTo(d, s, |d.pins|))
  }

  ghost predicate BranchNets(d: Source, nl: Netlist) {
    forall q: nat {:trigger BranchNetsOf(d, nl, q)} :: q < |d.pins| ==> BranchNetsOf(d, nl, q)
  }

  ghost predicate BranchNetsOf(d: Source, nl: Netlist, q: nat)
    requires q < |d.pins|
  {
    && (Branches(d, q) >= 1 ==> Start(d, q) < |nl| && nl[Start(d, q)] == Net(Fout, [d.pins[q].signal], [d.pins[q].target]))
    && (Branches(d, q) == 2 ==> Start(d, q) + 1 < |nl| && nl[Start(d, q) + 1] == Net(Fout, [d.pins[q].signal], []))
  }

  lemma SignalNet(d: Source, nl: Netlist, po: seq<nat>, s: nat)
    requires IsConnected(d, nl, po) && s < d.signals
    ensures nl[s] == Net(KindOf(d, s), InsUpTo(d, s, |d.pins|), OutsUpTo(d, s, |d.pins|))
  {
    assert Unfold(0);
  }

  lemma BranchNet(d: Source, nl: Netlist, po: seq<nat>, q: nat)
    requires IsConnected(d, nl, po) && q < |d.pins|
    ensures Branches(d, q) >= 1 ==>
              Start(d, q) < |nl| && nl[Start(d, q)] == Net(Fout, [d.pins[q].signal], [d.pins[q].target])
    ensures Branches(d, q) == 2 ==> Start(d, q) + 1 < |nl| && nl[Start(d, q) + 1] == Net(Fout, [d.pins[q].signal], [])
  {
    assert BranchNets(d, nl) by { assert Unfold(0); }
    assert BranchNetsOf(d, nl, q);
  }

  lemma PortsOf(d: Source, nl: Netlist, po: seq<nat>)
    requires IsConnected(d, nl, po)
    ensures |po| == |d.po| && forall t :: 0 <= t < |po| ==> po[t] == PortNet(d, d.po[t], |d.pins|)
  {
    assert Unfold(0);
  }

  // -------------------------------------------------- numbers and origins

  lemma StartsDiffer(d: Source, q: nat, r: nat)
    requires q < |d.pins| && r < |d.pins| && q != r && Branches(d, q) >= 1 && Branches(d, r) >= 1
    ensures Start(d, q) != Start(d, r)
    ensures Branches(d, r) == 2 ==> Start(d, q) != Start(d, r) + 1
    ensures Branches(d, q) == 2 && Branches(d, r) == 2 ==> Start(d, q) + 1 != Start(d, r) + 1
  {
    if q < r { StartMonotone(d, q, r); } else { StartMonotone(d, r, q); }
  }

  lemma StartAbove(d: Source, q: nat)
    requires q <= |d.pins|
    ensures Start(d, q) >= d.signals
  {
    StartMonotone(d, 0, q);
  }

  /** Every net beyond the signals is a branch of some pin. */
  lemma {:induction false} BranchOrigin(d: Source, k: nat, v: nat) returns (q: nat)
    requires k <= |d.pins| && d.signals <= v < Start(d, k)
    ensures q < k && Branches(d, q) >= 1 && (v == Start(d, q) || (Branches(d, q) == 2 && v == Start(d, q) + 1))
  {
    if v >= Start(d, k - 1) { q := k - 1; } else { q := BranchOrigin(d, k - 1, v); }
  }

  lemma {:induction false} InsMember(d: Source, s: nat, k: nat, x: nat)
    requires k <= |d.pins|
    ensures x in InsUpTo(d, s, k) <==> exists q: nat :: q < k && d.pins[q].target == s && InputOf(d, q) == x
  {
    if k > 0 { InsMember(d, s, k - 1, x); }
  }

  /** A signal with one slot is used once. */
  lemma {:induction false} UsedOnce(ps: seq<Pin>, k: nat, q: nat, r: nat, s: nat)
    requires q < r < k <= |ps| && ps[q].signal == s && ps[r].signal == s
    ensures Uses(ps[..k], s) >= 2
    decreases k
  {
    UsesMore(ps, k - 1, s);
    if r < k - 1 {
      UsedOnce(ps, k - 1, q, r, s);
    } else {
      UsedAtLeastOnce(ps, k - 1, q, s);
    }
  }

  lemma {:induction false} UsedAtLeastOnce(ps: seq<Pin>, k: nat, q: nat, s: nat)
    requires q < k <= |ps| && ps[q].signal == s
    ensures Uses(ps[..k], s) >= 1
    decreases k
  {
    UsesMore(ps, k - 1, s);
    if q < k - 1 { UsedAtLeastOnce(ps, k - 1, q, s); }
  }

  /** Pins that read a signal directly are its only use, and it is no output port. */
  lemma DirectIsOnly(d: Source, q: nat, r: nat)
    requires q < |d.pins| && r < |d.pins| && Branches(d, q) == 0
    ensures d.pins[q].signal !in d.po
    ensures d.pins[r].signal == d.pins[q].signal ==> r == q
  {
    var ps, s := d.pins, d.pins[q].signal;
    assert ps[..|ps|] == ps;
    UsedAtLeastOnce(ps, |ps|, q, s);
    if ps[r].signal == s {
      if q < r { UsedOnce(ps, |ps|, q, r, s); }
      if r < q { UsedOnce(ps, |ps|, r, q, s); }
    }
  }

  lemma {:induction false} PortNetIs(d: Source, s: nat, k: nat)
    requires k <= |d.pins|
    ensures PortNet(d, s, k) == s
         || exists q: nat :: q < k && d.pins[q].signal == s && Branches(d, q) == 2 && PortNet(d, s, k) == Start(d, q) + 1
  {
    if k > 0 { PortNetIs(d, s, k - 1); }
  }

  // ------------------------------------------------ fan-out normal form

  /** A gate's input net is no output port. */
  lemma InputIsNoPort(d: Source, q: nat, s: nat)
    requires SourceOk(d) && q < |d.pins| && s in d.po
    ensures PortNet(d, s, |d.pins|) != InputOf(d, q)
  {
    PinsKnown(d, q);
    PortNetIs(d, s, |d.pins|);
    DirectOrBranch(d, q);
    if PortNet(d, s, |d.pins|) != s {
      var r: nat :| r < |d.pins| && d.pins[r].signal == s && Branches(d, r) == 2 && PortNet(d, s, |d.pins|) == Start(d, r) + 1;
      StartAbove(d, r);
      if Branches(d, q) >= 1 && q != r { StartsDiffer(d, q, r); }
    } else {
      PortAt(d, s);
      StartAbove(d, q);
    }
  }

  lemma DirectOrBranch(d: Source, q: nat)
    requires SourceOk(d) && q < |d.pins|
    ensures d.pins[q].signal < d.signals && d.pins[q].target < d.signals
    ensures if Branches(d, q) == 0 then InputOf(d, q) == d.pins[q].signal && d.pins[q].signal !in d.po else InputOf(d, q) >= d.signals
  {
    PinsKnown(d, q);
    StartAbove(d, q);
    if Branches(d, q) == 0 { DirectIsOnly(d, q, q); }
  }

  /** Two pins that read the same net are the same pin. */
  lemma InputsArePrivate(d: Source, q: nat, r: nat)
    requires SourceOk(d) && q < |d.pins| && r < |d.pins| && InputOf(d, q) == InputOf(d, r)
    ensures q == r
  {
    DirectOrBranch(d, q);
    DirectOrBranch(d, r);
    if Branches(d, q) == 0 {
      DirectIsOnly(d, q, r);
    } else if q != r {
      StartsDiffer(d, q, r);
    }
  }

  /** A branch never reads a signal that some pin reads directly. */
  lemma BranchReadsShared(d: Source, q: nat, r: nat)
    requires SourceOk(d) && q < |d.pins| && r < |d.pins| && Branches(d, q) >= 1
    ensures d.pins[q].signal != InputOf(d, r)
  {
    DirectOrBranch(d, q);
    DirectOrBranch(d, r);
    if Branches(d, r) == 0 { DirectIsOnly(d, r, q); }
  }

  /** The main result: every gate input net has one sink and is no output port. */
  lemma ConnectionIsFanoutNormal(d: Source, nl: Netlist, po: seq<nat>)
    requires SourceOk(d) && IsConnected(d, nl, po)
    ensures FanoutNormal(nl, set p | p in po)
  {
    forall g: nat, i: nat | Reads(nl, g, i) && nl[g].kind != Fout
      ensures i !in po && forall h: nat :: Reads(nl, h, i) ==> h == g
    {
      var q := ReaderPin(d, nl, po, g, i);
      NoPortIsRead(d, nl, po, q);
      forall h: nat | Reads(nl, h, i) ensures h == g { ReadersAgree(d, nl, po, q, h); }
    }
  }

  lemma NoPortIsRead(d: Source, nl: Netlist, po: seq<nat>, q: nat)
    requires SourceOk(d) && IsConnected(d, nl, po) && q < |d.pins|
    ensures InputOf(d, q) !in po
  {
    PortsOf(d, nl, po);
    forall t | 0 <= t < |po| ensures po[t] != InputOf(d, q) {
      assert d.po[t] in d.po;
      InputIsNoPort(d, q, d.po[t]);
    }
  }

  /** Whoever reads the input net of a pin is the gate of that pin. */
  lemma ReadersAgree(d: Source, nl: Netlist, po: seq<nat>, q: nat, h: nat)
    requires SourceOk(d) && IsConnected(d, nl, po) && q < |d.pins| && Reads(nl, h, InputOf(d, q))
    ensures h == d.pins[q].target
  {
    var n := |d.pins|;
    if h < d.signals {
      SignalNet(d, nl, po, h);
      InsMember(d, h, n, InputOf(d, q));
      var r: nat :| r < n && d.pins[r].target == h && InputOf(d, r) == InputOf(d, q);
      InputsArePrivate(d, q, r);
    } else {
      var r := BranchOrigin(d, n, h);
      BranchNet(d, nl, po, r);
      BranchReadsShared(d, r, q);
    }
  }

  /** A net read by a gate is the input of one of the gate's pins. */
  lemma ReaderPin(d: Source, nl: Netlist, po: seq<nat>, g: nat, i: nat) returns (q: nat)
    requires SourceOk(d) && IsConnected(d, nl, po) && Reads(nl, g, i) && nl[g].kind != Fout
    ensures q < |d.pins| && d.pins[q].target == g && InputOf(d, q) == i && g < d.signals
  {
    var n := |d.pins|;
    if g >= d.signals {
      q := BranchOrigin(d, n, g);
      BranchNet(d, nl, po, q);
    } else {
      SignalNet(d, nl, po, g);
      InsMember(d, g, n, i);
      q :| q < n && d.pins[q].target == g && InputOf(d, q) == i;
    }
  }

  // --------------------------------------------- every pin where it belongs

  lemma {:induction false} InsOfOther(d: Source, i: nat, n: nat)
    requires SourceOk(d) && n <= i < |d.modules|
    ensures |Pins(d, n)| <= |d.pins| && InsUpTo(d, d.modules[i].out, |Pins(d, n)|) == []
  {
    PinsOfAll(d, n);
    if n > 0 {
      InsOfOther(d, i, n - 1);
      InsOfModule(d, i, n - 1, |d.modules[n - 1].ins|);
    }
  }

  /** The first j pins of a gate other than the driver add nothing. */
  lemma {:induction false} InsOfModule(d: Source, i: nat, m: nat, j: nat)
    requires SourceOk(d) && i < |d.modules| && m < |d.modules| && m != i && j <= |d.modules[m].ins|
    ensures |Pins(d, m)| + j <= |d.pins|
    ensures InsUpTo(d, d.modules[i].out, |Pins(d, m)| + j) == InsUpTo(d, d.modules[i].out, |Pins(d, m)|)
  {
    PinsOfAll(d, m);
    PinsOfAll(d, m + 1);
    if j > 0 {
      InsOfModule(d, i, m, j - 1);
      PinPlace(d, m, j - 1);
      OutputsDiffer(d, i, m);
    }
  }

  lemma InsAppend(d: Source, s: nat, q: nat)
    requires q < |d.pins| && d.pins[q].target == s
    ensures InsUpTo(d, s, q + 1) == InsUpTo(d, s, q) + [InputOf(d, q)]
  {
  }

  lemma PinsFit(d: Source, i: nat, j: nat)
    requires SourceOk(d) && i < |d.modules| && j <= |d.modules[i].ins|
    ensures |Pins(d, i)| + j <= |d.pins|
  {
    PinsOfAll(d, i + 1);
  }

  lemma {:induction false} InsOfDriver(d: Source, i: nat, j: nat)
    requires SourceOk(d) && i < |d.modules| && j <= |d.modules[i].ins|
    ensures |Pins(d, i)| + j <= |d.pins|
    ensures var ins := InsUpTo(d, d.modules[i].out, |Pins(d, i)| + j);
      |ins| == j && forall k :: 0 <= k < j ==> |Pins(d, i)| + k < |d.pins| && ins[k] == InputOf(d, |Pins(d, i)| + k)
  {
    PinsFit(d, i, j);
    if j == 0 {
      InsOfOther(d, i, i);
    } else {
      InsOfDriver(d, i, j - 1);
      NextIn(d, i, j - 1);
    }
  }

  lemma NextIn(d: Source, i: nat, j: nat)
    requires SourceOk(d) && i < |d.modules| && j < |d.modules[i].ins|
    ensures |Pins(d, i)| + j < |d.pins|
    ensures InsUpTo(d, d.modules[i].out, |Pins(d, i)| + j + 1)
         == InsUpTo(d, d.modules[i].out, |Pins(d, i)| + j) + [InputOf(d, |Pins(d, i)| + j)]
  {
    PinPlace(d, i, j);
    InsAppend(d, d.modules[i].out, |Pins(d, i)| + j);
  }

  lemma {:induction false} InsAfter(d: Source, i: nat, n: nat)
    requires SourceOk(d) && i < n <= |d.modules|
    ensures |Pins(d, n)| <= |d.pins| && |Pins(d, i + 1)| <= |d.pins|
    ensures InsUpTo(d, d.modules[i].out, |Pins(d, n)|) == InsUpTo(d, d.modules[i].out, |Pins(d, i + 1)|)
    decreases n
  {
    PinsOfAll(d, n);
    PinsOfAll(d, i + 1);
    if n > i + 1 {
      InsAfter(d, i, n - 1);
      InsOfModule(d, i, n - 1, |d.modules[n - 1].ins|);
      assert |Pins(d, n)| == |Pins(d, n - 1)| + |d.modules[n - 1].ins|;
    }
  }

  /** In the end a gate's inputs are what its pins read. */
  lemma InsOfGate(d: Source, i: nat)
    requires SourceOk(d) && i < |d.modules|
    ensures |Pins(d, i)| + |d.modules[i].ins| <= |d.pins|
    ensures var ins := InsUpTo(d, d.modules[i].out, |d.pins|);
      |ins| == |d.modules[i].ins| && forall k :: 0 <= k < |ins| ==> ins[k] == InputOf(d, |Pins(d, i)| + k)
  {
    var n, s := |d.modules[i].ins|, d.modules[i].out;
    assert |Pins(d, i + 1)| == |Pins(d, i)| + n;
    InsOfDriver(d, i, n);
    InsAtEnd(d, i);
  }

  lemma InsAtEnd(d: Source, i: nat)
    requires SourceOk(d) && i < |d.modules|
    ensures |Pins(d, i + 1)| <= |d.pins| && InsUpTo(d, d.modules[i].out, |d.pins|) == InsUpTo(d, d.modules[i].out, |Pins(d, i + 1)|)
  {
    PinsAreAll(d);
    InsAfter(d, i, |d.modules|);
  }

  /** Input j of a gate leads to the signal of pin j, directly or by a branch of its own. */
  lemma PinsAreConnected(d: Source, nl: Netlist, po: seq<nat>, i: nat, j: nat)
    requires SourceOk(d) && IsConnected(d, nl, po) && i < |d.modules| && j < |d.modules[i].ins|
    ensures var g, s := d.modules[i].out, d.modules[i].ins[j];
      && g < |nl| && |nl[g].ins| == |d.modules[i].ins| && nl[g].ins[j] < |nl|
      && (nl[g].ins[j] == s || nl[nl[g].ins[j]] == Net(Fout, [s], [g]))
  {
    var q := |Pins(d, i)| + j;
    InsOfGate(d, i);
    PinPlace(d, i, j);
    DirectOrBranch(d, q);
    ModuleAt(d, i);
    SignalNet(d, nl, po, d.modules[i].out);
    BranchNet(d, nl, po, q);
  }

  // ---------------------------------------------- outputs mirror inputs

  lemma OneOrTwo(a: nat, b: nat, x: nat)
    ensures Count([a], x) == if a == x then 1 else 0
    ensures Count([a, b], x) == (if a == x then 1 else 0) + if b == x then 1 else 0
  {
    assert [a][..0] == [] && [a, b][..1] == [a];
  }

  /** How often a net is among what pin q adds to its signal's outputs. */
  lemma OutputsOfCount(d: Source, q: nat, x: nat)
    requires SourceOk(d) && q < |d.pins|
    ensures Count(OutputsOf(d, q), x) ==
              if Branches(d, q) == 0 then (if x == d.pins[q].target then 1 else 0)
              else if x == Start(d, q) || (Branches(d, q) == 2 && x == Start(d, q) + 1) then 1 else 0
  {
    if Branches(d, q) == 0 {
      OneOrTwo(d.pins[q].target, 0, x);
    } else {
      OneOrTwo(Start(d, q), Start(d, q) + 1, x);
    }
  }

  lemma OutsStep(d: Source, s: nat, k: nat, x: nat)
    requires k < |d.pins|
    ensures Count(OutsUpTo(d, s, k + 1), x)
         == Count(OutsUpTo(d, s, k), x) + if d.pins[k].signal == s then Count(OutputsOf(d, k), x) else 0
  {
    if d.pins[k].signal == s {
      CountConcat(OutsUpTo(d, s, k), OutputsOf(d, k), x);
    } else {
      assert OutsUpTo(d, s, k + 1) == OutsUpTo(d, s, k);
    }
  }

  lemma InsStep(d: Source, g: nat, k: nat, x: nat)
    requires k < |d.pins|
    ensures Count(InsUpTo(d, g, k + 1), x)
         == Count(InsUpTo(d, g, k), x) + if d.pins[k].target == g && InputOf(d, k) == x then 1 else 0
  {
    if d.pins[k].target == g {
      CountConcat(InsUpTo(d, g, k), [InputOf(d, k)], x);
      OneOrTwo(InputOf(d, k), 0, x);
    } else {
      assert InsUpTo(d, g, k + 1) == InsUpTo(d, g, k);
    }
  }

  /** Among the signals: an edge for every direct pin, on both sides. */
  lemma {:induction false} SignalsMirror(d: Source, s: nat, g: nat, k: nat)
    requires SourceOk(d) && s < d.signals && g < d.signals && k <= |d.pins|
    ensures Count(OutsUpTo(d, s, k), g) == Count(InsUpTo(d, g, k), s)
  {
    if k > 0 {
      SignalsMirror(d, s, g, k - 1);
      MirrorStep(d, k - 1, s, g);
    }
  }

  lemma MirrorStep(d: Source, q: nat, s: nat, g: nat)
    requires SourceOk(d) && s < d.signals && g < d.signals && q < |d.pins|
    ensures Count(OutsUpTo(d, s, q + 1), g) - Count(OutsUpTo(d, s, q), g) == Count(InsUpTo(d, g, q + 1), s) - Count(InsUpTo(d, g, q), s)
  {
    OutsStep(d, s, q, g);
    InsStep(d, g, q, s);
    PinMirrors(d, q, s, g);
  }

  lemma PinMirrors(d: Source, q: nat, s: nat, g: nat)
    requires SourceOk(d) && s < d.signals && g < d.signals && q < |d.pins|
    ensures (if d.pins[q].signal == s then Count(OutputsOf(d, q), g) else 0)
         == if d.pins[q].target == g && InputOf(d, q) == s then 1 else 0
  {
    OutputsOfCount(d, q, g);
    DirectOrBranch(d, q);
    StartAbove(d, q);
  }

  /** A branch is an output of its signal, once. */
  lemma {:induction false} BranchIsOutput(d: Source, s: nat, q: nat, b: nat, k: nat)
    requires SourceOk(d) && s < d.signals && q < |d.pins| && k <= |d.pins|
    requires Branches(d, q) >= 1 && (b == Start(d, q) || (Branches(d, q) == 2 && b == Start(d, q) + 1))
    ensures Count(OutsUpTo(d, s, k), b) == if q < k && d.pins[q].signal == s then 1 else 0
  {
    if k > 0 {
      BranchIsOutput(d, s, q, b, k - 1);
      OutsStep(d, s, k - 1, b);
      BranchOfPin(d, q, b, k - 1);
    }
  }

  lemma BranchOfPin(d: Source, q: nat, b: nat, r: nat)
    requires SourceOk(d) && q < |d.pins| && r < |d.pins|
    requires Branches(d, q) >= 1 && (b == Start(d, q) || (Branches(d, q) == 2 && b == Start(d, q) + 1))
    ensures Count(OutputsOf(d, r), b) == if r == q then 1 else 0
  {
    OutputsOfCount(d, r, b);
    DirectOrBranch(d, r);
    StartAbove(d, q);
    if Branches(d, r) >= 1 && r != q {
      StartsDiffer(d, q, r);
      StartsDiffer(d, r, q);
    }
  }

  /** The branch of a pin is an input of its gate, once; the branch of a port of none. */
  lemma {:induction false} BranchIsInput(d: Source, g: nat, q: nat, k: nat)
    requires SourceOk(d) && g < d.signals && q < |d.pins| && k <= |d.pins| && Branches(d, q) >= 1
    ensures Count(InsUpTo(d, g, k), Start(d, q)) == if q < k && d.pins[q].target == g then 1 else 0
  {
    if k > 0 {
      BranchIsInput(d, g, q, k - 1);
      InsStep(d, g, k - 1, Start(d, q));
      DirectOrBranch(d, k - 1);
      StartAbove(d, q);
      if Branches(d, k - 1) >= 1 && k - 1 != q { StartsDiffer(d, q, k - 1); }
    }
  }

  lemma {:induction false} PortBranchIsNoInput(d: Source, g: nat, q: nat, k: nat)
    requires SourceOk(d) && g < d.signals && q < |d.pins| && k <= |d.pins| && Branches(d, q) == 2
    ensures Count(InsUpTo(d, g, k), Start(d, q) + 1) == 0
  {
    if k > 0 {
      PortBranchIsNoInput(d, g, q, k - 1);
      InsStep(d, g, k - 1, Start(d, q) + 1);
      DirectOrBranch(d, k - 1);
      StartAbove(d, q);
      if Branches(d, k - 1) >= 1 && k - 1 != q {
        StartsDiffer(d, q, k - 1);
        StartsDiffer(d, k - 1, q);
      }
    }
  }

  lemma BranchNetAt(d: Source, nl: Netlist, po: seq<nat>, v: nat) returns (q: nat)
    requires SourceOk(d) && IsConnected(d, nl, po) && d.signals <= v < |nl|
    ensures q < |d.pins| && Branches(d, q) >= 1
    ensures (v == Start(d, q) && nl[v] == Net(Fout, [d.pins[q].signal], [d.pins[q].target]))
         || (Branches(d, q) == 2 && v == Start(d, q) + 1 && nl[v] == Net(Fout, [d.pins[q].signal], []))
  {
    q := BranchOrigin(d, |d.pins|, v);
    BranchNet(d, nl, po, q);
  }

  /** One net is an output of another as often as that is an input of it. */
  lemma ConnectionMirrors(d: Source, nl: Netlist, po: seq<nat>, a: nat, b: nat)
    requires SourceOk(d) && IsConnected(d, nl, po) && a < |nl| && b < |nl|
    ensures Count(nl[a].outs, b) == Count(nl[b].ins, a)
  {
    var n := |d.pins|;
    if a < d.signals && b < d.signals {
      SignalNet(d, nl, po, a);
      SignalNet(d, nl, po, b);
      SignalsMirror(d, a, b, n);
    } else if a < d.signals {
      SignalNet(d, nl, po, a);
      var q := BranchNetAt(d, nl, po, b);
      BranchIsOutput(d, a, q, b, n);
      OneOrTwo(d.pins[q].signal, 0, a);
    } else {
      var q := BranchNetAt(d, nl, po, a);
      OneOrTwo(d.pins[q].target, 0, b);
      DirectOrBranch(d, q);
      if b < d.signals {
        SignalNet(d, nl, po, b);
        BranchIsInput(d, b, q, n);
        if Branches(d, q) == 2 { PortBranchIsNoInput(d, b, q, n); }
      } else {
        var r := BranchNetAt(d, nl, po, b);
        DirectOrBranch(d, r);
        OneOrTwo(d.pins[r].signal, 0, a);
      }
    }
  }

  lemma {:induction false} OutsBelow(d: Source, s: nat, k: nat, x: nat)
    requires SourceOk(d) && k <= |d.pins| && x in OutsUpTo(d, s, k)
    ensures x < Start(d, |d.pins|)
  {
    if x in OutsUpTo(d, s, k - 1) {
      OutsBelow(d, s, k - 1, x);
    } else {
      DirectOrBranch(d, k - 1);
      StartMonotone(d, k - 1, |d.pins|);
      StartAbove(d, |d.pins|);
    }
  }

  lemma {:induction false} InsBelow(d: Source, g: nat, k: nat, x: nat)
    requires SourceOk(d) && k <= |d.pins| && x in InsUpTo(d, g, k)
    ensures x < Start(d, |d.pins|)
  {
    InsMember(d, g, k, x);
    var q: nat :| q < k && d.pins[q].target == g && InputOf(d, q) == x;
    DirectOrBranch(d, q);
    StartMonotone(d, q, |d.pins|);
    StartAbove(d, |d.pins|);
  }

  /** The result is a proper netlist with mirrored lists: time expansion accepts it. */
  lemma ConnectionIsMirrored(d: Source, nl: Netlist, po: seq<nat>)
    requires SourceOk(d) && IsConnected(d, nl, po)
    ensures Mirrored(nl)
  {
    forall i, k | 0 <= i < |nl| && 0 <= k < |nl[i].outs| ensures nl[i].outs[k] < |nl| {
      if i < d.signals {
        SignalNet(d, nl, po, i);
        OutsBelow(d, i, |d.pins|, nl[i].outs[k]);
      } else {
        var q := BranchNetAt(d, nl, po, i);
        DirectOrBranch(d, q);
      }
    }
    forall a: nat, b: nat | a < |nl| && b < |nl| ensures Count(nl[a].outs, b) == Count(nl[b].ins, a) {
      ConnectionMirrors(d, nl, po, a, b);
    }
  }

  lemma {:induction false} KindInIs(d: Source, s: nat, n: nat)
    requires SourceOk(d) && n <= |d.modules|
    ensures (forall i :: 0 <= i < n ==> d.modules[i].out != s) ==> KindIn(d, s, n) == In
    ensures forall i :: 0 <= i < n && d.modules[i].out == s ==> KindIn(d, s, n) == d.modules[i].kind
  {
    if n > 0 {
      KindInIs(d, s, n - 1);
      if d.modules[n - 1].out == s {
        forall i | 0 <= i < n && d.modules[i].out == s ensures i == n - 1 {
          if i != n - 1 { OutputsDiffer(d, i, n - 1); }
        }
      }
    }
  }

  lemma {:induction false} InsOfInput(d: Source, s: nat, k: nat)
    requires SourceOk(d) && k <= |d.pins| && !Driven(d, s)
    ensures InsUpTo(d, s, k) == []
  {
    if k > 0 {
      InsOfInput(d, s, k - 1);
      PinsKnown(d, k - 1);
      assert d.modules[d.pins[k - 1].owner].out != s;
    }
  }

  lemma ConnectionIsClosed(d: Source, nl: Netlist, po: seq<nat>)
    requires SourceOk(d) && IsConnected(d, nl, po)
    ensures Closed(nl)
  {
    forall v: nat | v < |nl| ensures ArityOk(nl[v]) && forall j :: 0 <= j < |nl[v].ins| ==> nl[v].ins[j] < |nl| {
      if v >= d.signals {
        var q := BranchNetAt(d, nl, po, v);
        DirectOrBranch(d, q);
      } else {
        SignalIsClosed(d, nl, po, v);
      }
    }
  }

  lemma SignalIsClosed(d: Source, nl: Netlist, po: seq<nat>, v: nat)
    requires SourceOk(d) && IsConnected(d, nl, po) && v < d.signals
    ensures ArityOk(nl[v]) && forall j :: 0 <= j < |nl[v].ins| ==> nl[v].ins[j] < |nl|
  {
    SignalNet(d, nl, po, v);
    KindInIs(d, v, |d.modules|);
    forall j | 0 <= j < |nl[v].ins| ensures nl[v].ins[j] < |nl| { InsBelow(d, v, |d.pins|, nl[v].ins[j]); }
    if Driven(d, v) {
      var i: nat :| i < |d.modules| && d.modules[i].out == v;
      ModuleAt(d, i);
      InsOfGate(d, i);
    } else {
      InsOfInput(d, v, |d.pins|);
    }
  }
}
