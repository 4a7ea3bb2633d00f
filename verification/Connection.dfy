/** Connecting the signals of a netlist: each use of a shared signal gets a fan-out
    branch of its own, so that every gate input net has one sink and is no output. */
module Connection {
  import opened Cardinality
  import opened Netlists

  datatype Module = Module(kind: Gate, ins: seq<nat>, out: nat)

  /** What was read: signals numbered from 0, gates, input and output ports, and the
      input pins of all gates in the order of connection. */
  datatype Source = Source(signals: nat, modules: seq<Module>, pi: seq<nat>, po: seq<nat>, pins: seq<Pin>)

  /** One use of a signal as an input pin. */
  datatype Pin = Pin(signal: nat, target: nat, owner: nat, index: nat)

  function PinsOf(m: Module, i: nat, k: nat): (ps: seq<Pin>)
    requires k <= |m.ins|
    ensures |ps| == k && forall j :: 0 <= j < k ==> ps[j] == Pin(m.ins[j], m.out, i, j)
  {
    seq(k, j requires 0 <= j < k => Pin(m.ins[j], m.out, i, j))
  }

  /** The pins of the first n gates in the order of connection. */
  function Pins(d: Source, n: nat): seq<Pin>
    requires n <= |d.modules|
  {
    if n == 0 then [] else Pins(d, n - 1) + PinsOf(d.modules[n - 1], n - 1, |d.modules[n - 1].ins|)
  }

  /** Every signal is a primary input or driven by one gate, ports are distinct. */
  ghost predicate SourceOkNow(d: Source) {
    && (forall i :: 0 <= i < |d.modules| ==> var m := d.modules[i];
          m.out < d.signals && m.kind != In && m.kind != Fout && ArityOk(Net(m.kind, m.ins, [])) && (forall j :: 0 <= j < |m.ins| ==> m.ins[j] < d.signals))
    && (forall i, k :: 0 <= i < k < |d.modules| ==> d.modules[i].out != d.modules[k].out)
    && (forall s: nat :: s < d.signals ==> s in d.pi || Driven(d, s))
    && (forall s :: s in d.pi ==> s < d.signals && !Driven(d, s))
    && (forall t :: 0 <= t < |d.po| ==> d.po[t] < d.signals)
    && (forall t, u :: 0 <= t < u < |d.po| ==> d.po[t] != d.po[u])
    && d.pins == Pins(d, |d.modules|)
  }

  /** 'SourceOkNow' kept folded; lemmas that need its parts say 'Unfold'. */
  ghost predicate SourceOk(d: Source) { forall u {:trigger Unfold(u)} :: Unfold(u) ==> SourceOkNow(d) }

  ghost predicate Unfold(u: int) { true }

  lemma ModuleAt(d: Source, i: nat)
    requires SourceOk(d) && i < |d.modules|
    ensures var m := d.modules[i];
      m.out < d.signals && m.kind != In && m.kind != Fout && ArityOk(Net(m.kind, m.ins, [])) && (forall j :: 0 <= j < |m.ins| ==> m.ins[j] < d.signals)
  {
    assert Unfold(0);
  }

  lemma PortAt(d: Source, s: nat)
    requires SourceOk(d) && s in d.po
    ensures s < d.signals
  {
    assert Unfold(0);
  }

  lemma InputAt(d: Source, s: nat)
    requires SourceOk(d) && s in d.pi
    ensures s < d.signals && !Driven(d, s)
  {
    assert Unfold(0);
  }

  lemma OutputsDiffer(d: Source, i: nat, k: nat)
    requires SourceOk(d) && i < |d.modules| && k < |d.modules| && i != k
    ensures d.modules[i].out != d.modules[k].out
  {
    assert Unfold(0);
  }

  predicate Driven(d: Source, s: nat) { exists i :: 0 <= i < |d.modules| && d.modules[i].out == s }

  // ------------------------------------------------------- the numbering

  function Uses(ps: seq<Pin>, s: nat): nat {
    if ps == [] then 0 else Uses(ps[..|ps| - 1], s) + if ps[|ps| - 1].signal == s then 1 else 0
  }

  /** Output slots: one per use, and one more for an output port that is also used. */
  function Slots(d: Source, s: nat): nat {
    var uses := Uses(d.pins, s);
    uses + if s in d.po && uses >= 1 then 1 else 0
  }

  /** The first use of a signal that is an output port. */
  predicate FirstPortUse(d: Source, ps: seq<Pin>, q: nat)
    requires q < |ps|
  {
    ps[q].signal in d.po && Uses(ps[..q], ps[q].signal) == 0
  }

  /** The branches that pin q creates. */
  function Branches(d: Source, q: nat): nat
    requires q < |d.pins|
  {
    if Slots(d, d.pins[q].signal) < 2 then 0 else if FirstPortUse(d, d.pins, q) then 2 else 1
  }

  /** The number of nets before pin q is connected. */
  function Start(d: Source, q: nat): nat
    requires q <= |d.pins|
  {
    if q == 0 then d.signals else Start(d, q - 1) + Branches(d, q - 1)
  }

  /** The net that pin q reads in the end. */
  function InputOf(d: Source, q: nat): nat
    requires q < |d.pins|
  {
    if Branches(d, q) == 0 then d.pins[q].signal else Start(d, q)
  }

  /** What pin q adds to the outputs of its signal. */
  function OutputsOf(d: Source, q: nat): seq<nat>
    requires q < |d.pins|
  {
    if Branches(d, q) == 0 then [d.pins[q].target]
    else if Branches(d, q) == 1 then [Start(d, q)] else [Start(d, q), Start(d, q) + 1]
  }

  /** The outputs of a signal after k pins. */
  function OutsUpTo(d: Source, s: nat, k: nat): seq<nat>
    requires k <= |d.pins|
  {
    if k == 0 then [] else OutsUpTo(d, s, k - 1) + if d.pins[k - 1].signal == s then OutputsOf(d, k - 1) else []
  }

  /** The inputs of a net after k pins. */
  function InsUpTo(d: Source, s: nat, k: nat): seq<nat>
    requires k <= |d.pins|
  {
    if k == 0 then [] else InsUpTo(d, s, k - 1) + if d.pins[k - 1].target == s then [InputOf(d, k - 1)] else []
  }

  lemma {:induction false} StartMonotone(d: Source, q: nat, r: nat)
    requires q <= r <= |d.pins|
    ensures Start(d, q) <= Start(d, r)
    ensures q < r ==> Start(d, q) + Branches(d, q) <= Start(d, r)
    decreases r
  {
    if q < r { StartMonotone(d, q, r - 1); }
  }

  /** Every pin belongs to a gate. */
  lemma PinsKnown(d: Source, q: nat)
    requires SourceOk(d) && q < |d.pins|
    ensures var p := d.pins[q];
      && p.owner < |d.modules| && p.index < |d.modules[p.owner].ins| && p.signal == d.modules[p.owner].ins[p.index] < d.signals
      && p.target == d.modules[p.owner].out < d.signals
      && q == |Pins(d, p.owner)| + p.index
  {
    PinsAreAll(d);
    PinAt(d, |d.modules|, q);
    ModuleAt(d, d.pins[q].owner);
  }

  lemma PinsAreAll(d: Source)
    requires SourceOk(d)
    ensures d.pins == Pins(d, |d.modules|)
  {
    assert Unfold(0);
  }

  lemma {:induction false} PinsPrefix(d: Source, n: nat, k: nat)
    requires n <= k <= |d.modules|
    ensures Pins(d, n) <= Pins(d, k)
    decreases k
  {
    if n < k { PinsPrefix(d, n, k - 1); }
  }

  lemma PinsOfAll(d: Source, n: nat)
    requires SourceOk(d) && n <= |d.modules|
    ensures Pins(d, n) <= d.pins
  {
    PinsPrefix(d, n, |d.modules|);
    PinsAreAll(d);
  }

  lemma {:induction false} PinAt(d: Source, n: nat, q: nat)
    requires n <= |d.modules| && q < |Pins(d, n)|
    ensures var p := Pins(d, n)[q];
      && p.owner < n && p.index < |d.modules[p.owner].ins| && p.signal == d.modules[p.owner].ins[p.index] && p.target == d.modules[p.owner].out
      && q == |Pins(d, p.owner)| + p.index
  {
    if q < |Pins(d, n - 1)| { PinAt(d, n - 1, q); }
  }

  /** Pin j of gate i has its place in the list. */
  lemma PinPlace(d: Source, i: nat, j: nat)
    requires SourceOk(d) && i < |d.modules| && j < |d.modules[i].ins|
    ensures var q := |Pins(d, i)| + j; q < |d.pins| && d.pins[q] == Pin(d.modules[i].ins[j], d.modules[i].out, i, j)
  {
    PinsOfAll(d, i + 1);
  }

  // ------------------------------------------------- counting the slots

  lemma UsesMore(ps: seq<Pin>, q: nat, s: nat)
    requires q < |ps|
    ensures Uses(ps[..q + 1], s) == Uses(ps[..q], s) + if ps[q].signal == s then 1 else 0
  {
    assert ps[..q + 1][..q] == ps[..q];
  }

  lemma {:induction false} UsesGrow(ps: seq<Pin>, q: nat, r: nat, s: nat)
    requires q <= r <= |ps|
    ensures Uses(ps[..q], s) <= Uses(ps[..r], s)
    decreases r
  {
    if q < r {
      UsesGrow(ps, q, r - 1, s);
      UsesMore(ps, r - 1, s);
    }
  }

  /** After k pins a signal with several outputs has one branch per use so far, and
      one for its port. */
  lemma {:induction false} OutputsCount(d: Source, s: nat, k: nat)
    requires k <= |d.pins|
    ensures var used := Uses(d.pins[..k], s);
      |OutsUpTo(d, s, k)| == used + if s in d.po && used >= 1 then 1 else 0
  {
    var ps := d.pins;
    if k > 0 {
      OutputsCount(d, s, k - 1);
      UsesMore(ps, k - 1, s);
      UsesGrow(ps, k, |ps|, s);
      assert ps[..|ps|] == ps;
    }
  }

  /** In the end every output slot is filled. */
  lemma SlotsAreFilled(d: Source, s: nat)
    ensures |OutsUpTo(d, s, |d.pins|)| == Slots(d, s)
  {
    OutputsCount(d, s, |d.pins|);
    assert d.pins[..|d.pins|] == d.pins;
  }

  lemma {:induction false} OutsGrow(d: Source, s: nat, k: nat, r: nat)
    requires k <= r <= |d.pins|
    ensures OutsUpTo(d, s, k) <= OutsUpTo(d, s, r)
    decreases r
  {
    if k < r { OutsGrow(d, s, k, r - 1); }
  }

  /** There is room for what a pin adds. */
  lemma RoomForPin(d: Source, q: nat)
    requires q < |d.pins|
    ensures var s := d.pins[q].signal; |OutsUpTo(d, s, q)| + |OutputsOf(d, q)| <= Slots(d, s) && Slots(d, s) >= 1
    ensures Slots(d, d.pins[q].signal) == 1 ==> OutsUpTo(d, d.pins[q].signal, q) == []
  {
    var s := d.pins[q].signal;
    OutsGrow(d, s, q + 1, |d.pins|);
    SlotsAreFilled(d, s);
  }

  // ----------------------------------------------------------- the bound

  /** The nets never outnumber the allocated ones. */
  lemma NetsFit(d: Source, q: nat)
    requires SourceOk(d) && q <= |d.pins|
    ensures Start(d, q) <= |d.pi| + |d.modules| + |d.po| + |d.pins|
  {
    SignalsFit(d);
    BranchesFit(d, q);
    PortsFit(d, d.pins[..q], |d.po|);
  }

  /** Every signal is an input port or an output of a gate. */
  lemma SignalsFit(d: Source)
    requires SourceOk(d)
    ensures d.signals <= |d.pi| + |d.modules|
  {
    var outs := seq(|d.modules|, i requires 0 <= i < |d.modules| => d.modules[i].out);
    var inputs, outputs, all := Elements(d.pi), Elements(outs), Below(d.signals);
    forall s | s in all ensures s in inputs + outputs {
      if s !in d.pi {
        assert Driven(d, s) by { assert Unfold(0); }
        var i :| 0 <= i < |d.modules| && d.modules[i].out == s;
        assert outs[i] == s;
      }
    }
    UnionFits(all, inputs, outputs);
  }

  lemma UnionFits(all: set<nat>, a: set<nat>, b: set<nat>)
    requires all <= a + b
    ensures |all| <= |a| + |b|
  {
    assert a + b == all + ((a + b) - all);
    assert a + b == a + (b - a) && |b - a| <= |b|;
  }

  ghost function Elements(s: seq<nat>): (xs: set<nat>)
    ensures |xs| <= |s| && forall x :: x in xs <==> x in s
  {
    if s == [] then {} else
      assert s == s[..|s| - 1] + [s[|s| - 1]];
      Elements(s[..|s| - 1]) + {s[|s| - 1]}
  }

  /** Output ports whose signal was used by the given pins. */
  ghost function UsedPorts(d: Source, ps: seq<Pin>, t: nat): nat
    requires t <= |d.po|
  {
    if t == 0 then 0 else UsedPorts(d, ps, t - 1) + if Uses(ps, d.po[t - 1]) >= 1 then 1 else 0
  }

  lemma {:induction false} PortsFit(d: Source, ps: seq<Pin>, t: nat)
    requires t <= |d.po|
    ensures UsedPorts(d, ps, t) <= t
  {
    if t > 0 { PortsFit(d, ps, t - 1); }
  }

  /** One branch per pin, and one per used port. */
  lemma {:induction false} BranchesFit(d: Source, q: nat)
    requires SourceOk(d) && q <= |d.pins|
    ensures Start(d, q) <= d.signals + q + UsedPorts(d, d.pins[..q], |d.po|)
  {
    if q > 0 {
      BranchesFit(d, q - 1);
      PortsMore(d, d.pins, q - 1, |d.po|);
    }
  }

  lemma {:induction false} PortsMore(d: Source, ps: seq<Pin>, q: nat, t: nat)
    requires q < |ps| && t <= |d.po|
    ensures UsedPorts(d, ps[..q + 1], t) >= UsedPorts(d, ps[..q], t)
    ensures Uses(ps[..q], ps[q].signal) == 0 && (exists u :: 0 <= u < t && d.po[u] == ps[q].signal) ==>
              UsedPorts(d, ps[..q + 1], t) >= UsedPorts(d, ps[..q], t) + 1
  {
    if t > 0 {
      PortsMore(d, ps, q, t - 1);
      UsesMore(ps, q, d.po[t - 1]);
    }
  }
}
