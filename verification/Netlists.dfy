/** Netlists as indexed gates, and the value of every net under an input vector,
    in a healthy circuit or one with a stuck net. */
module Netlists {

  datatype Gate = In | Buf | Inv | And | Nand | Or | Nor | Exor | Exnor | Fout | Dff

  /** A net with the gate that drives it, its input nets and its output nets. */
  datatype Net = Net(kind: Gate, ins: seq<nat>, outs: seq<nat>)

  type Netlist = seq<Net>

  predicate IsSource(kind: Gate) { kind == In || kind == Dff }

  /** Gates with one input, and gates with two. */
  predicate ArityOk(net: Net) {
    match net.kind
    case In => net.ins == []
    case Buf | Inv | Fout | Dff => |net.ins| == 1
    case And | Nand | Or | Nor => |net.ins| >= 1
    case Exor | Exnor => |net.ins| == 2
  }

  predicate Closed(nl: Netlist) {
    && (forall n :: 0 <= n < |nl| ==> ArityOk(nl[n]))
    && (forall n, j :: 0 <= n < |nl| && 0 <= j < |nl[n].ins| ==> nl[n].ins[j] < |nl|)
  }

  /** A ranking that every gate raises: the netlist has no combinational cycle. */
  ghost predicate Ranked(nl: Netlist, rank: seq<nat>) {
    && Closed(nl) && |rank| == |nl|
    && forall n, j :: 0 <= n < |nl| && !IsSource(nl[n].kind) && 0 <= j < |nl[n].ins| ==> rank[nl[n].ins[j]] < rank[n]
  }

  // ------------------------------------------------------------ gate values

  predicate AllTrue(vs: seq<bool>) { forall i :: 0 <= i < |vs| ==> vs[i] }
  predicate AnyTrue(vs: seq<bool>) { exists i :: 0 <= i < |vs| && vs[i] }

  predicate GateValue(kind: Gate, vs: seq<bool>) {
    match kind
    case In | Dff => false
    case Buf | Fout => |vs| > 0 && vs[0]
    case Inv => |vs| > 0 && !vs[0]
    case And => AllTrue(vs)
    case Nand => !AllTrue(vs)
    case Or => AnyTrue(vs)
    case Nor => !AnyTrue(vs)
    case Exor => |vs| > 1 && vs[0] != vs[1]
    case Exnor => |vs| > 1 && vs[0] == vs[1]
  }

  /** A circuit without a defect, or with one net stuck at a value. */
  datatype Defect = Healthy | Stuck(net: nat, value: bool)

  /** The value of net n: stuck, given by the environment when n is an input or
      a state element, and computed by its gate otherwise. */
  ghost predicate Value(nl: Netlist, rank: seq<nat>, env: seq<bool>, d: Defect, n: nat)
    requires Ranked(nl, rank) && |env| == |nl| && n < |nl|
    decreases rank[n]
  {
    if d.Stuck? && d.net == n then d.value
    else if IsSource(nl[n].kind) then env[n]
    else GateValue(nl[n].kind, seq(|nl[n].ins|, j requires 0 <= j < |nl[n].ins| =>
                                     Value(nl, rank, env, d, nl[n].ins[j])))
  }

  ghost function InputValues(nl: Netlist, rank: seq<nat>, env: seq<bool>, d: Defect, n: nat): (vs: seq<bool>)
    requires Ranked(nl, rank) && |env| == |nl| && n < |nl|
    ensures |vs| == |nl[n].ins|
  {
    seq(|nl[n].ins|, j requires 0 <= j < |nl[n].ins| => Value(nl, rank, env, d, nl[n].ins[j]))
  }

  lemma ValueOfGate(nl: Netlist, rank: seq<nat>, env: seq<bool>, d: Defect, n: nat)
    requires Ranked(nl, rank) && |env| == |nl| && n < |nl|
    requires !IsSource(nl[n].kind) && !(d.Stuck? && d.net == n)
    ensures Value(nl, rank, env, d, n) == GateValue(nl[n].kind, InputValues(nl, rank, env, d, n))
  {
  }

  /** Nets agree in two circuits when their gates, defects and inputs agree. */
  lemma GateAgrees(nl: Netlist, rank: seq<nat>, env: seq<bool>, d: Defect, e: Defect, n: nat)
    requires Ranked(nl, rank) && |env| == |nl| && n < |nl|
    requires !(d.Stuck? && d.net == n) && !(e.Stuck? && e.net == n)
    requires !IsSource(nl[n].kind) ==> forall j :: 0 <= j < |nl[n].ins| ==>
               Value(nl, rank, env, d, nl[n].ins[j]) == Value(nl, rank, env, e, nl[n].ins[j])
    ensures Value(nl, rank, env, d, n) == Value(nl, rank, env, e, n)
  {
    if !IsSource(nl[n].kind) {
      ValueOfGate(nl, rank, env, d, n);
      ValueOfGate(nl, rank, env, e, n);
      assert InputValues(nl, rank, env, d, n) == InputValues(nl, rank, env, e, n);
    }
  }

  // ------------------------------------------------ fan-out normal form

  predicate Reads(nl: Netlist, g: nat, i: nat) { g < |nl| && i in nl[g].ins }

  /** Every input net of a gate other than a fan-out branch feeds that gate only
      and is not observed. */
  ghost predicate FanoutNormal(nl: Netlist, observed: set<nat>) {
    forall g: nat, i: nat :: Reads(nl, g, i) && nl[g].kind != Fout ==>
      i !in observed && forall h: nat :: Reads(nl, h, i) ==> h == g
  }
}
