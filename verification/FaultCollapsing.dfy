/** Structural fault equivalences: which pairs of stuck faults the gate rules
    merge, and why no merged pair can be told apart at the observed nets. */
module FaultCollapsing {
  import opened Netlists
  import opened FaultGroups

  datatype FaultModel = Saf | Tdf

  /** A netlist with, for each net, the net of the first time frame that its
      transition fault is excited at (its own position when the net is shared by
      both frames). Circuits that are not time-expanded have no such nets. */
  datatype Circuit = Circuit(nl: Netlist, peer: map<nat, nat>)

  /** Two faults per net: stuck at 0 or slow to rise, stuck at 1 or slow to fall. */
  function FaultId(net: nat, one: bool): nat { 2 * net + if one then 1 else 0 }
  function NetOf(f: nat): nat { f / 2 }
  predicate OneOf(f: nat) { f % 2 == 1 }

  lemma FaultIdSplits(net: nat, one: bool)
    ensures NetOf(FaultId(net, one)) == net && OneOf(FaultId(net, one)) == one
  {
  }

  function DefectOf(f: nat): Defect { Stuck(NetOf(f), OneOf(f)) }

  // -------------------------------------------------------- the gate rules

  /** Transition faults are merged across BUF and INV only, and never across the
      boundary between the time frames. */
  predicate Considered(c: Circuit, model: FaultModel, n: nat)
    requires n < |c.nl|
  {
    model == Tdf ==>
      && c.nl[n].kind in {Buf, Inv} && c.nl[n].ins != []
      && n in c.peer && c.peer[n] < |c.nl| && c.nl[c.peer[n]].kind != In
      && c.nl[n].ins[0] in c.peer
  }

  function InputPairs(net: Net, n: nat, inputOne: bool, outputOne: bool): (ps: seq<Pair>)
    ensures |ps| == |net.ins|
  {
    seq(|net.ins|, j requires 0 <= j < |net.ins| => (FaultId(net.ins[j], inputOne), FaultId(n, outputOne)))
  }

  function GatePairs(net: Net, n: nat): seq<Pair>
    requires ArityOk(net)
  {
    match net.kind
    case Buf => [(FaultId(net.ins[0], false), FaultId(n, false)), (FaultId(net.ins[0], true), FaultId(n, true))]
    case Inv => [(FaultId(net.ins[0], false), FaultId(n, true)), (FaultId(net.ins[0], true), FaultId(n, false))]
    case And => InputPairs(net, n, false, false)
    case Nand => InputPairs(net, n, false, true)
    case Or => InputPairs(net, n, true, true)
    case Nor => InputPairs(net, n, true, false)
    case _ => []
  }

  /** The pairs found in the nets before k, in the order they are merged. */
  function StructuralPairs(c: Circuit, model: FaultModel, k: nat): seq<Pair>
    requires Closed(c.nl) && k <= |c.nl|
  {
    if k == 0 then [] else
    StructuralPairs(c, model, k - 1) + if Considered(c, model, k - 1) then GatePairs(c.nl[k - 1], k - 1) else []
  }

  predicate IsFirst(pairs: seq<Pair>, f: nat) { exists k :: 0 <= k < |pairs| && pairs[k].0 == f }

  /** Each pair comes from one input of one gate. */
  ghost predicate FromGate(c: Circuit, model: FaultModel, p: Pair, n: nat) {
    n < |c.nl| && ArityOk(c.nl[n]) && Considered(c, model, n) && p in GatePairs(c.nl[n], n)
  }

  lemma {:induction false} PairsComeFromGates(c: Circuit, model: FaultModel, k: nat, p: Pair)
    requires Closed(c.nl) && k <= |c.nl|
    ensures p in StructuralPairs(c, model, k) <==> exists n :: 0 <= n < k && FromGate(c, model, p, n)
  {
    if k > 0 {
      PairsComeFromGates(c, model, k - 1, p);
      LastPairs(c, model, k - 1, p);
      LastGate(c, model, k - 1, p);
    }
  }

  lemma LastGate(c: Circuit, model: FaultModel, k: nat, p: Pair)
    requires Closed(c.nl) && k < |c.nl|
    ensures (exists n :: 0 <= n < k + 1 && FromGate(c, model, p, n)) <==> (exists n :: 0 <= n < k && FromGate(c, model, p, n)) || FromGate(c, model, p, k)
  {
  }

  lemma LastPairs(c: Circuit, model: FaultModel, k: nat, p: Pair)
    requires Closed(c.nl) && k < |c.nl|
    ensures p in StructuralPairs(c, model, k + 1) <==> p in StructuralPairs(c, model, k) || FromGate(c, model, p, k)
  {
  }

  /** The input at position j with value v fixes the output of the gate to w. */
  ghost predicate Forces(kind: Gate, arity: nat, j: nat, v: bool, w: bool) {
    forall vs: seq<bool> :: |vs| == arity && j < arity && vs[j] == v ==> GateValue(kind, vs) == w
  }

  /** A pair of a gate rule is an input stuck at a value that fixes the output,
      and the output stuck at that value. */
  lemma PairForces(net: Net, n: nat, p: Pair) returns (j: nat)
    requires ArityOk(net) && p in GatePairs(net, n)
    ensures j < |net.ins| && NetOf(p.0) == net.ins[j] && NetOf(p.1) == n
    ensures Forces(net.kind, |net.ins|, j, OneOf(p.0), OneOf(p.1))
    ensures !IsSource(net.kind) && net.kind != Fout
  {
    var k :| 0 <= k < |GatePairs(net, n)| && GatePairs(net, n)[k] == p;
    j := if net.kind in {Buf, Inv} then 0 else k;
    FaultIdSplits(net.ins[j], OneOf(p.0));
    FaultIdSplits(n, OneOf(p.1));
    forall vs: seq<bool> | |vs| == |net.ins| && j < |vs| && vs[j] == OneOf(p.0)
      ensures GateValue(net.kind, vs) == OneOf(p.1)
    {
      if net.kind in {And, Nand} { assert !AllTrue(vs); }
      if net.kind in {Or, Nor} { assert AnyTrue(vs); }
    }
  }

  /** What fixes the output of a gate with two inputs; BUF and INV have one. */
  lemma ForcesTwo(kind: Gate, v: bool, w: bool)
    requires !IsSource(kind)
    ensures Forces(kind, 2, 0, v, w) <==>
              match kind
              case Buf | Fout => w == v
              case Inv => w != v
              case And => !v && !w
              case Nand => !v && w
              case Or => v && w
              case Nor => v && !w
              case _ => false
  {
    var one, other := [v, true], [v, false];
    assert Forces(kind, 2, 0, v, w) ==> GateValue(kind, one) == w && GateValue(kind, other) == w;
    assert one[0] == v && one[1] && other[0] == v && !other[1];
    assert AllTrue(one) <==> v;
    assert AnyTrue(other) <==> v;
    forall vs: seq<bool> | |vs| == 2 && vs[0] == v ensures (!v ==> !AllTrue(vs)) && (v ==> AnyTrue(vs)) {}
  }

  /** More inputs, or another position, make no difference. */
  lemma ForcesMany(kind: Gate, n: nat, j: nat, v: bool, w: bool)
    requires !IsSource(kind) && j < n && (if kind in {Buf, Inv, Fout} then n == 1 else if kind in {Exor, Exnor} then n == 2 else n >= 2)
    ensures Forces(kind, n, j, v, w) <==> Forces(kind, 2, 0, v, w)
  {
    ForcesTwo(kind, v, w);
    var one, other := seq(n, k => if k == j then v else true), seq(n, k => if k == j then v else false);
    assert Forces(kind, n, j, v, w) ==> GateValue(kind, one) == w && GateValue(kind, other) == w;
    assert one[j] == v && other[j] == v && (n > 1 ==> one[if j == 0 then 1 else 0] && !other[if j == 0 then 1 else 0]);
    assert AllTrue(one) <==> v;
    assert AnyTrue(other) <==> v;
    forall vs: seq<bool> | |vs| == n && vs[j] == v ensures (!v ==> !AllTrue(vs)) && (v ==> AnyTrue(vs)) {}
  }

  /** An input and a value of it that fix the output of a gate that is no branch; a gate
      with one input that could have more counts as one with two. */
  ghost predicate Fixes(net: Net, j: nat, v: bool, w: bool) {
    && j < |net.ins| && !IsSource(net.kind) && net.kind != Fout
    && Forces(net.kind, if |net.ins| == 1 && net.kind !in {Buf, Inv} then 2 else |net.ins|, j, v, w)
  }

  lemma FixesIs(net: Net, j: nat, v: bool, w: bool)
    requires ArityOk(net) && j < |net.ins| && !IsSource(net.kind) && net.kind != Fout
    ensures Fixes(net, j, v, w) <==> Forces(net.kind, 2, 0, v, w)
  {
    if |net.ins| >= 2 || net.kind in {Buf, Inv} { ForcesMany(net.kind, |net.ins|, j, v, w); }
  }

  /** The pair is an input fixed at a value and the output at the value this fixes. */
  ghost predicate IsRule(net: Net, n: nat, j: nat, v: bool, w: bool, p: Pair) {
    Fixes(net, j, v, w) && p == (FaultId(net.ins[j], v), FaultId(n, w))
  }

  lemma RuleFixes(net: Net, n: nat, p: Pair) returns (j: nat)
    requires ArityOk(net) && p in GatePairs(net, n)
    ensures IsRule(net, n, j, OneOf(p.0), OneOf(p.1), p)
  {
    var k :| 0 <= k < |GatePairs(net, n)| && GatePairs(net, n)[k] == p;
    j := if net.kind in {Buf, Inv} then 0 else k;
    FaultIdSplits(net.ins[j], OneOf(p.0));
    FaultIdSplits(n, OneOf(p.1));
    ForcesTwo(net.kind, OneOf(p.0), OneOf(p.1));
    FixesIs(net, j, OneOf(p.0), OneOf(p.1));
  }

  lemma FixedIsRule(net: Net, n: nat, j: nat, v: bool, w: bool, p: Pair)
    requires ArityOk(net) && IsRule(net, n, j, v, w, p)
    ensures p in GatePairs(net, n)
  {
    FixesIs(net, j, v, w);
    ForcesTwo(net.kind, v, w);
    assert GatePairs(net, n)[if net.kind in {Buf, Inv} then (if v then 1 else 0) else j] == p;
  }

  /** The gate rules merge an input fault with an output fault exactly if the input value
      fixes the output value. */
  lemma GateRules(net: Net, n: nat, p: Pair)
    requires ArityOk(net)
    ensures p in GatePairs(net, n) <==> exists j: nat, v, w :: IsRule(net, n, j, v, w, p)
  {
    if p in GatePairs(net, n) { var j := RuleFixes(net, n, p); }
    if j: nat, v: bool, w: bool :| IsRule(net, n, j, v, w, p) { FixedIsRule(net, n, j, v, w, p); }
  }

  /** A gate whose two time frames can be told apart: both copies are gates, not inputs. */
  ghost predicate InOneFrame(c: Circuit, g: nat) {
    && g < |c.nl| && c.nl[g].kind in {Buf, Inv} && |c.nl[g].ins| > 0
    && g in c.peer && c.peer[g] < |c.nl| && c.nl[c.peer[g]].kind != In && c.nl[g].ins[0] in c.peer
  }

  ghost predicate RuleOfNet(c: Circuit, model: FaultModel, p: Pair, g: nat) {
    g < |c.nl| && (model == Tdf ==> InOneFrame(c, g)) && exists j: nat, v, w :: IsRule(c.nl[g], g, j, v, w, p)
  }

  lemma FromGateIsRule(c: Circuit, model: FaultModel, p: Pair, g: nat)
    requires Closed(c.nl)
    ensures FromGate(c, model, p, g) <==> RuleOfNet(c, model, p, g)
  {
    if g < |c.nl| { GateRules(c.nl[g], g, p); }
  }

  /** The structural pairs are exactly those of inputs that fix an output, for transition
      faults only across BUF and INV within one frame. */
  lemma StructuralPairsExactly(c: Circuit, model: FaultModel, p: Pair)
    requires Closed(c.nl)
    ensures p in StructuralPairs(c, model, |c.nl|) <==> exists g: nat :: RuleOfNet(c, model, p, g)
  {
    PairsComeFromGates(c, model, |c.nl|, p);
    forall g: nat ensures FromGate(c, model, p, g) <==> RuleOfNet(c, model, p, g) { FromGateIsRule(c, model, p, g); }
    if p in StructuralPairs(c, model, |c.nl|) {
      var g :| 0 <= g < |c.nl| && FromGate(c, model, p, g);
      assert RuleOfNet(c, model, p, g);
    }
    if g: nat :| RuleOfNet(c, model, p, g) { assert FromGate(c, model, p, g); }
  }

  // ------------------------------------------------------ stuck-at faults

  /** No input vector lets the observed nets tell the two faults apart. */
  ghost predicate Same(nl: Netlist, rank: seq<nat>, observed: set<nat>, d: Defect, e: Defect)
    requires Ranked(nl, rank)
  {
    forall env: seq<bool>, o: nat :: |env| == |nl| && o in observed && o < |nl| ==>
      Value(nl, rank, env, d, o) == Value(nl, rank, env, e, o)
  }

  /** i drives g and nothing else. */
  ghost predicate PrivateInput(nl: Netlist, i: nat, g: nat) {
    forall h: nat :: Reads(nl, h, i) ==> h == g
  }

  /** Beyond a private input, an input stuck at a value that fixes the output
      acts like the output stuck at the fixed value. */
  lemma {:induction false} PairActsAlike(nl: Netlist, rank: seq<nat>, env: seq<bool>, g: nat, j: nat, v: bool, w: bool, n: nat)
    requires Ranked(nl, rank) && |env| == |nl| && g < |nl| && n < |nl|
    requires !IsSource(nl[g].kind) && j < |nl[g].ins| && Forces(nl[g].kind, |nl[g].ins|, j, v, w)
    requires PrivateInput(nl, nl[g].ins[j], g) && n != nl[g].ins[j]
    ensures Value(nl, rank, env, Stuck(nl[g].ins[j], v), n) == Value(nl, rank, env, Stuck(g, w), n)
    decreases rank[n]
  {
    var i := nl[g].ins[j];
    var d, e := Stuck(i, v), Stuck(g, w);
    if n == g {
      ValueOfGate(nl, rank, env, d, g);
      assert InputValues(nl, rank, env, d, g)[j] == v;
    } else {
      if !IsSource(nl[n].kind) {
        forall k | 0 <= k < |nl[n].ins|
          ensures Value(nl, rank, env, d, nl[n].ins[k]) == Value(nl, rank, env, e, nl[n].ins[k])
        {
          assert !Reads(nl, n, i);
          PairActsAlike(nl, rank, env, g, j, v, w, nl[n].ins[k]);
        }
      }
      GateAgrees(nl, rank, env, d, e, n);
    }
  }

  lemma StructuralPairIsSame(c: Circuit, rank: seq<nat>, observed: set<nat>, k: nat, p: Pair)
    requires Ranked(c.nl, rank) && FanoutNormal(c.nl, observed)
    requires k <= |c.nl| && p in StructuralPairs(c, Saf, k)
    ensures Same(c.nl, rank, observed, DefectOf(p.0), DefectOf(p.1))
  {
    PairsComeFromGates(c, Saf, k, p);
    var g :| 0 <= g < k && FromGate(c, Saf, p, g);
    var j := PairForces(c.nl[g], g, p);
    var i := c.nl[g].ins[j];
    assert Reads(c.nl, g, i);
    forall env: seq<bool>, o: nat | |env| == |c.nl| && o in observed && o < |c.nl|
      ensures Value(c.nl, rank, env, DefectOf(p.0), o) == Value(c.nl, rank, env, DefectOf(p.1), o)
    {
      PairActsAlike(c.nl, rank, env, g, j, OneOf(p.0), OneOf(p.1), o);
    }
  }

  /** Truly equivalent stuck-at faults. */
  ghost predicate AllSame(nl: Netlist, rank: seq<nat>, observed: set<nat>, pairs: seq<Pair>)
    requires Ranked(nl, rank)
  {
    InRange(2 * |nl|, pairs) && forall k :: 0 <= k < |pairs| ==> Same(nl, rank, observed, DefectOf(pairs[k].0), DefectOf(pairs[k].1))
  }

  /** Soundness of collapsing stuck-at faults: in a netlist in fan-out normal
      form, whatever the structural pairs and truly equivalent further pairs
      relate cannot be told apart at the observed nets. */
  lemma CollapsedFaultsAreSame(c: Circuit, rank: seq<nat>, observed: set<nat>, external: seq<Pair>, a: nat, b: nat)
    requires Ranked(c.nl, rank) && FanoutNormal(c.nl, observed)
    requires AllSame(c.nl, rank, observed, external)
    requires a < 2 * |c.nl| && b < 2 * |c.nl|
    requires Connected(StructuralPairs(c, Saf, |c.nl|) + external, a, b)
    ensures Same(c.nl, rank, observed, DefectOf(a), DefectOf(b))
  {
    var structural := StructuralPairs(c, Saf, |c.nl|);
    var pairs := structural + external;
    var related := (x: nat, y: nat) => Same(c.nl, rank, observed, DefectOf(x), DefectOf(y));
    forall k | 0 <= k < |pairs|
      ensures pairs[k].0 < 2 * |c.nl| && pairs[k].1 < 2 * |c.nl| && related(pairs[k].0, pairs[k].1)
    {
      if k < |structural| {
        assert pairs[k] == structural[k];
        StructuralPairIsSame(c, rank, observed, |c.nl|, pairs[k]);
        StructuralPairInRange(c, Saf, |c.nl|, pairs[k]);
      } else {
        assert pairs[k] == external[k - |structural|];
      }
    }
    ConnectedInEquivalence(pairs, 2 * |c.nl|, related, a, b);
  }

  lemma StructuralPairInRange(c: Circuit, model: FaultModel, k: nat, p: Pair)
    requires Closed(c.nl) && k <= |c.nl| && p in StructuralPairs(c, model, k)
    ensures p.0 < 2 * |c.nl| && p.1 < 2 * |c.nl|
  {
    PairsComeFromGates(c, model, k, p);
    var g :| 0 <= g < k && FromGate(c, model, p, g);
    var j := PairForces(c.nl[g], g, p);
  }

  // ---------------------------------------------------- transition faults

  /** The fault is excited in the first frame and seen at o in the second. */
  ghost predicate Detects(c: Circuit, rank: seq<nat>, env: seq<bool>, f: nat, o: nat)
    requires Ranked(c.nl, rank) && |env| == |c.nl| && o < |c.nl|
    requires NetOf(f) in c.peer && c.peer[NetOf(f)] < |c.nl|
  {
    && Value(c.nl, rank, env, Healthy, c.peer[NetOf(f)]) == OneOf(f)
    && Value(c.nl, rank, env, DefectOf(f), o) != Value(c.nl, rank, env, Healthy, o)
  }

  ghost predicate HasPeer(c: Circuit, f: nat) { NetOf(f) in c.peer && c.peer[NetOf(f)] < |c.nl| }

  /** Every input vector detects both transition faults at the same nets. */
  ghost predicate SameTransition(c: Circuit, rank: seq<nat>, observed: set<nat>, a: nat, b: nat)
    requires Ranked(c.nl, rank)
  {
    a == b || (HasPeer(c, a) && HasPeer(c, b)
    && forall env: seq<bool>, o: nat :: |env| == |c.nl| && o in observed && o < |c.nl| ==>
      (Detects(c, rank, env, a, o) <==> Detects(c, rank, env, b, o)))
  }

  /** What time expansion guarantees about a BUF or INV that is no capture
      point: its first-frame copy reads the first-frame copy of its input, and
      its input is either shared by both frames or private and not observed. */
  ghost predicate FrameNormal(c: Circuit, observed: set<nat>) {
    && (forall n :: n in c.peer ==> n < |c.nl| && c.peer[n] < |c.nl|)
    && forall g: nat :: g < |c.nl| && Considered(c, Tdf, g) ==>
      var i := c.nl[g].ins[0];
      && c.nl[c.peer[g]].kind == c.nl[g].kind && c.nl[c.peer[g]].ins == [c.peer[i]]
      && (c.peer[i] == i || (i !in observed && PrivateInput(c.nl, i, g)))
  }

  /** A net stuck at the value it has anyway changes nothing. */
  lemma {:induction false} StuckAtOwnValue(nl: Netlist, rank: seq<nat>, env: seq<bool>, s: nat, v: bool, n: nat)
    requires Ranked(nl, rank) && |env| == |nl| && s < |nl| && n < |nl| && Value(nl, rank, env, Healthy, s) == v
    ensures Value(nl, rank, env, Stuck(s, v), n) == Value(nl, rank, env, Healthy, n)
    decreases rank[n]
  {
    if n != s {
      if !IsSource(nl[n].kind) {
        forall k | 0 <= k < |nl[n].ins|
          ensures Value(nl, rank, env, Stuck(s, v), nl[n].ins[k]) == Value(nl, rank, env, Healthy, nl[n].ins[k])
        {
          StuckAtOwnValue(nl, rank, env, s, v, nl[n].ins[k]);
        }
      }
      GateAgrees(nl, rank, env, Stuck(s, v), Healthy, n);
    }
  }

  /** The healthy value of a BUF or INV, forwards and backwards. */
  lemma OneInputGate(nl: Netlist, rank: seq<nat>, env: seq<bool>, g: nat, v: bool, w: bool)
    requires Ranked(nl, rank) && |env| == |nl| && g < |nl| && nl[g].kind in {Buf, Inv}
    requires w == if nl[g].kind == Buf then v else !v
    ensures Value(nl, rank, env, Healthy, g) == w <==> Value(nl, rank, env, Healthy, nl[g].ins[0]) == v
  {
    ValueOfGate(nl, rank, env, Healthy, g);
    assert InputValues(nl, rank, env, Healthy, g)[0] == Value(nl, rank, env, Healthy, nl[g].ins[0]);
  }

  /** A pair of a BUF or INV between its frames' copies. */
  lemma PairDetectsAlike(c: Circuit, rank: seq<nat>, env: seq<bool>, g: nat, a: nat, b: nat, o: nat)
    requires Ranked(c.nl, rank) && |env| == |c.nl| && g < |c.nl| && o < |c.nl| && c.nl[g].kind in {Buf, Inv}
    requires NetOf(a) == c.nl[g].ins[0] && NetOf(b) == g && HasPeer(c, a) && HasPeer(c, b)
    requires OneOf(b) == (if c.nl[g].kind == Buf then OneOf(a) else !OneOf(a))
    requires c.nl[c.peer[g]].kind == c.nl[g].kind && c.nl[c.peer[g]].ins == [c.peer[NetOf(a)]]
    requires c.peer[NetOf(a)] == NetOf(a) || (NetOf(a) != o && PrivateInput(c.nl, NetOf(a), g))
    requires Forces(c.nl[g].kind, |c.nl[g].ins|, 0, OneOf(a), OneOf(b))
    ensures Detects(c, rank, env, a, o) <==> Detects(c, rank, env, b, o)
  {
    var i, v, w := NetOf(a), OneOf(a), OneOf(b);
    OneInputGate(c.nl, rank, env, c.peer[g], v, w);
    if c.peer[i] == i {
      OneInputGate(c.nl, rank, env, g, v, w);
      if Value(c.nl, rank, env, Healthy, i) == v {
        StuckAtOwnValue(c.nl, rank, env, i, v, o);
        StuckAtOwnValue(c.nl, rank, env, g, w, o);
      }
    } else {
      PairActsAlike(c.nl, rank, env, g, 0, v, w, o);
    }
  }

  lemma TransitionPairIsSame(c: Circuit, rank: seq<nat>, observed: set<nat>, k: nat, p: Pair)
    requires Ranked(c.nl, rank) && FrameNormal(c, observed)
    requires k <= |c.nl| && p in StructuralPairs(c, Tdf, k)
    ensures SameTransition(c, rank, observed, p.0, p.1)
  {
    PairsComeFromGates(c, Tdf, k, p);
    var g :| 0 <= g < k && FromGate(c, Tdf, p, g);
    PairHasPeers(c, observed, g, p);
    forall env: seq<bool>, o: nat | |env| == |c.nl| && o in observed && o < |c.nl|
      ensures Detects(c, rank, env, p.0, o) <==> Detects(c, rank, env, p.1, o)
    {
      GatePairDetectsAlike(c, rank, observed, g, p, env, o);
    }
  }

  lemma PairHasPeers(c: Circuit, observed: set<nat>, g: nat, p: Pair)
    requires FrameNormal(c, observed) && FromGate(c, Tdf, p, g)
    ensures HasPeer(c, p.0) && HasPeer(c, p.1)
  {
    var j := PairForces(c.nl[g], g, p);
  }

  lemma GatePairDetectsAlike(c: Circuit, rank: seq<nat>, observed: set<nat>, g: nat, p: Pair, env: seq<bool>, o: nat)
    requires Ranked(c.nl, rank) && FrameNormal(c, observed) && FromGate(c, Tdf, p, g) && HasPeer(c, p.0) && HasPeer(c, p.1)
    requires |env| == |c.nl| && o in observed && o < |c.nl|
    ensures Detects(c, rank, env, p.0, o) <==> Detects(c, rank, env, p.1, o)
  {
    var j := PairForces(c.nl[g], g, p);
    assert OneOf(p.1) == if c.nl[g].kind == Buf then OneOf(p.0) else !OneOf(p.0);
    PairDetectsAlike(c, rank, env, g, p.0, p.1, o);
  }

  /** Truly equivalent transition faults. */
  ghost predicate AllSameTransition(c: Circuit, rank: seq<nat>, observed: set<nat>, pairs: seq<Pair>)
    requires Ranked(c.nl, rank)
  {
    InRange(2 * |c.nl|, pairs) && forall k :: 0 <= k < |pairs| ==> SameTransition(c, rank, observed, pairs[k].0, pairs[k].1)
  }

  /** Soundness of collapsing transition faults on a time-expanded netlist, with truly
      equivalent further pairs. */
  lemma CollapsedTransitionsAreSame(c: Circuit, rank: seq<nat>, observed: set<nat>, external: seq<Pair>, a: nat, b: nat)
    requires Ranked(c.nl, rank) && FrameNormal(c, observed) && AllSameTransition(c, rank, observed, external)
    requires a < 2 * |c.nl| && b < 2 * |c.nl| && Connected(StructuralPairs(c, Tdf, |c.nl|) + external, a, b)
    ensures SameTransition(c, rank, observed, a, b)
  {
    var structural := StructuralPairs(c, Tdf, |c.nl|);
    var pairs := structural + external;
    var related := (x: nat, y: nat) => SameTransition(c, rank, observed, x, y);
    forall k | 0 <= k < |pairs|
      ensures pairs[k].0 < 2 * |c.nl| && pairs[k].1 < 2 * |c.nl| && related(pairs[k].0, pairs[k].1)
    {
      if k < |structural| {
        assert pairs[k] == structural[k];
        TransitionPairIsSame(c, rank, observed, |c.nl|, pairs[k]);
        StructuralPairInRange(c, Tdf, |c.nl|, pairs[k]);
      } else {
        assert pairs[k] == external[k - |structural|];
      }
    }
    ConnectedInEquivalence(pairs, 2 * |c.nl|, related, a, b);
  }
}
