/** Logic levels of nets: 0 for inputs, one more than the highest input level
    for gates, computed once per net by a memoised recursion. */
module Levels {
  import opened Netlists

  /** At analysis time the only sources are primary inputs. */
  ghost predicate Combinational(nl: Netlist, rank: seq<nat>) {
    Ranked(nl, rank) && forall n :: 0 <= n < |nl| ==> nl[n].kind != Dff
  }

  /** The level that the first k inputs of net n call for. */
  ghost function LevelUpTo(nl: Netlist, rank: seq<nat>, n: nat, k: nat): nat
    requires Combinational(nl, rank) && n < |nl| && k <= |nl[n].ins|
    decreases rank[n], k
  {
    if nl[n].kind == In || k == 0 then 0
    else
      var rest := LevelUpTo(nl, rank, n, k - 1);
      var i := nl[n].ins[k - 1];
      var l := LevelUpTo(nl, rank, i, |nl[i].ins|) + 1;
      if l > rest then l else rest
  }

  ghost function Level(nl: Netlist, rank: seq<nat>, n: nat): nat
    requires Combinational(nl, rank) && n < |nl|
  {
    LevelUpTo(nl, rank, n, |nl[n].ins|)
  }

  lemma {:induction false} InputsAreLower(nl: Netlist, rank: seq<nat>, n: nat, k: nat, j: nat)
    requires Combinational(nl, rank) && n < |nl| && j < k <= |nl[n].ins| && nl[n].kind != In
    ensures Level(nl, rank, nl[n].ins[j]) < LevelUpTo(nl, rank, n, k)
    decreases k
  {
    if j < k - 1 { InputsAreLower(nl, rank, n, k - 1, j); }
  }

  /** Levels are themselves a ranking. */
  lemma LevelsRank(nl: Netlist, rank: seq<nat>, levels: seq<nat>)
    requires Combinational(nl, rank) && |levels| == |nl|
    requires forall n :: 0 <= n < |nl| ==> levels[n] == Level(nl, rank, n)
    ensures Ranked(nl, levels)
  {
    forall n, j | 0 <= n < |nl| && !IsSource(nl[n].kind) && 0 <= j < |nl[n].ins|
      ensures levels[nl[n].ins[j]] < levels[n]
    {
      InputsAreLower(nl, rank, n, |nl[n].ins|, j);
    }
  }

  /** A way through gates that ends at net n. */
  ghost predicate IsPath(nl: Netlist, p: seq<nat>, n: nat) {
    && p != [] && p[|p| - 1] == n && (forall i :: 0 <= i < |p| ==> p[i] < |nl|)
    && forall i :: 1 <= i < |p| ==> !IsSource(nl[p[i]].kind) && p[i - 1] in nl[p[i]].ins
  }

  /** The longest way to net n passes this many gates, and starts at an input. */
  ghost predicate IsDepth(nl: Netlist, n: nat, depth: nat) {
    && (forall p :: IsPath(nl, p, n) ==> |p| <= depth + 1)
    && exists p :: IsPath(nl, p, n) && |p| == depth + 1 && IsSource(nl[p[0]].kind)
  }

  lemma {:induction false} NoLongerPath(nl: Netlist, rank: seq<nat>, n: nat, p: seq<nat>)
    requires Combinational(nl, rank) && n < |nl| && IsPath(nl, p, n)
    ensures |p| <= Level(nl, rank, n) + 1
    decreases |p|
  {
    if |p| > 1 {
      var init, i := p[..|p| - 1], p[|p| - 2];
      assert i in nl[n].ins && IsPath(nl, init, i);
      var j :| 0 <= j < |nl[n].ins| && nl[n].ins[j] == i;
      NoLongerPath(nl, rank, i, init);
      InputsAreLower(nl, rank, n, |nl[n].ins|, j);
    }
  }

  /** Some input is exactly one level lower. */
  lemma {:induction false} HighestInput(nl: Netlist, rank: seq<nat>, n: nat, k: nat) returns (j: nat)
    requires Combinational(nl, rank) && n < |nl| && nl[n].kind != In && 0 < k <= |nl[n].ins|
    ensures j < k && LevelUpTo(nl, rank, n, k) == Level(nl, rank, nl[n].ins[j]) + 1
    decreases k
  {
    j := k - 1;
    if k > 1 && LevelUpTo(nl, rank, n, k) != Level(nl, rank, nl[n].ins[k - 1]) + 1 { j := HighestInput(nl, rank, n, k - 1); }
  }

  lemma {:induction false} LongestPath(nl: Netlist, rank: seq<nat>, n: nat) returns (p: seq<nat>)
    requires Combinational(nl, rank) && n < |nl|
    ensures IsPath(nl, p, n) && |p| == Level(nl, rank, n) + 1 && IsSource(nl[p[0]].kind)
    decreases rank[n]
  {
    if nl[n].kind == In {
      p := [n];
    } else {
      assert ArityOk(nl[n]);
      var j := HighestInput(nl, rank, n, |nl[n].ins|);
      var init := LongestPath(nl, rank, nl[n].ins[j]);
      p := init + [n];
    }
  }

  /** The level is the number of gates on the longest way from an input. */
  lemma LevelIsDepth(nl: Netlist, rank: seq<nat>, n: nat)
    requires Combinational(nl, rank) && n < |nl|
    ensures IsDepth(nl, n, Level(nl, rank, n))
  {
    forall p | IsPath(nl, p, n) ensures |p| <= Level(nl, rank, n) + 1 { NoLongerPath(nl, rank, n, p); }
    var p := LongestPath(nl, rank, n);
  }

  class LevelTable {
    const nl: Netlist
    const level: array<int>
    ghost const rank: seq<nat>

    /** Entries are unknown (-1) or right. */
    ghost predicate Valid()
      reads level
    {
      && Combinational(nl, rank) && level.Length == |nl|
      && forall n :: 0 <= n < |nl| ==> level[n] == -1 || level[n] == Level(nl, rank, n)
    }

    constructor (netlist: Netlist, ghost ranking: seq<nat>)
      requires Combinational(netlist, ranking)
      ensures Valid() && nl == netlist && rank == ranking && fresh(level)
    {
      nl := netlist;
      rank := ranking;
      level := new int[|netlist|](_ => -1);
    }

    method ComputeLevelOf(n: nat) returns (result: int)
      requires Valid() && n < |nl|
      modifies level
      ensures Valid() && level[n] == result == Level(nl, rank, n)
      ensures forall m :: 0 <= m < |nl| && old(level[m]) != -1 ==> level[m] == old(level[m])
      decreases rank[n]
    {
      if level[n] >= 0 { return level[n]; }
      if nl[n].kind == In {
        level[n] := 0;
        return 0;
      }
      var lev := 0;
      for j := 0 to |nl[n].ins|
        invariant Valid() && lev == LevelUpTo(nl, rank, n, j)
        invariant forall m :: 0 <= m < |nl| && old(level[m]) != -1 ==> level[m] == old(level[m])
      {
        var below := ComputeLevelOf(nl[n].ins[j]);
        if below + 1 > lev { lev := below + 1; }
      }
      level[n] := lev;
      return lev;
    }

    /** Every net gets its level. */
    method ComputeLevels()
      requires Valid()
      modifies level
      ensures Valid() && forall n :: 0 <= n < |nl| ==> level[n] == Level(nl, rank, n) && IsDepth(nl, n, level[n])
    {
      for i := 0 to |nl|
        invariant Valid() && forall n :: 0 <= n < i ==> level[n] == Level(nl, rank, n)
      {
        var _ := ComputeLevelOf(i);
      }
      forall n | 0 <= n < |nl| ensures IsDepth(nl, n, level[n]) { LevelIsDepth(nl, rank, n); }
    }
  }
}
