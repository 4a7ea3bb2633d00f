/** From merged groups to results: marking which faults stay targets, choosing
    one representative per group, pruning the fault table, collecting the group
    members and writing one result row per requested fault. */
module FaultSelection {
  import opened Netlists
  import opened FaultGroups
  import opened FaultCollapsing

  // -------------------------------------------------- structural marking

  /** 'test' after the pairs: the first fault of each pair is no longer a target. */
  ghost predicate Marked(test0: seq<bool>, test: seq<bool>, pairs: seq<Pair>) {
    |test| == |test0| && forall f :: 0 <= f < |test| ==> (test[f] <==> test0[f] && !IsFirst(pairs, f))
  }

  ghost predicate MarkedSince(test0: seq<bool>, test: seq<bool>, pairs0: seq<Pair>, pairs: seq<Pair>) {
    forall n {:trigger Unfold(n)} :: Unfold(n) ==> pairs0 <= pairs && Marked(test0, test, pairs[|pairs0|..])
  }

  lemma MarkNone(test0: seq<bool>, pairs0: seq<Pair>)
    ensures MarkedSince(test0, test0, pairs0, pairs0)
  {
    assert pairs0[|pairs0|..] == [];
  }

  lemma MarkedByAll(test0: seq<bool>, test: seq<bool>, pairs0: seq<Pair>, pairs: seq<Pair>)
    requires MarkedSince(test0, test, pairs0, pairs0 + pairs)
    ensures Marked(test0, test, pairs)
  {
    assert Unfold(0);
    assert (pairs0 + pairs)[|pairs0|..] == pairs;
  }

  lemma MarkOneSince(test0: seq<bool>, test: seq<bool>, pairs0: seq<Pair>, pairs: seq<Pair>, p: Pair)
    requires MarkedSince(test0, test, pairs0, pairs) && p.0 < |test|
    ensures MarkedSince(test0, test[p.0 := false], pairs0, pairs + [p])
  {
    assert Unfold(0);
    MarkOne(test0, test, pairs[|pairs0|..], p);
    assert (pairs + [p])[|pairs0|..] == pairs[|pairs0|..] + [p];
  }

  lemma MarkOne(test0: seq<bool>, test: seq<bool>, pairs: seq<Pair>, p: Pair)
    requires Marked(test0, test, pairs) && p.0 < |test|
    ensures Marked(test0, test[p.0 := false], pairs + [p])
  {
    var pairs', test' := pairs + [p], test[p.0 := false];
    forall f | 0 <= f < |test| ensures test'[f] <==> test0[f] && !IsFirst(pairs', f) {
      assert pairs'[|pairs|] == p;
      if IsFirst(pairs, f) {
        var k :| 0 <= k < |pairs| && pairs[k].0 == f;
        assert pairs'[k].0 == f;
      }
    }
  }

  /** Merges the pair and takes the input fault out of the targets. */
  method AddStructuralPair(entries: Entries, test: array<bool>, ghost test0: seq<bool>, ghost pairs0: seq<Pair>,
                           input: nat, inputOne: bool, output: nat, outputOne: bool)
    requires entries.Valid() && test.Length == entries.n
    requires FaultId(input, inputOne) < entries.n && FaultId(output, outputOne) < entries.n
    requires MarkedSince(test0, test[..], pairs0, entries.s.pairs)
    modifies entries`s, entries.parent, entries.groupSize, test
    ensures entries.Valid()
    ensures entries.s.pairs == old(entries.s.pairs) + [(FaultId(input, inputOne), FaultId(output, outputOne))]
    ensures MarkedSince(test0, test[..], pairs0, entries.s.pairs)
  {
    ghost var p := (FaultId(input, inputOne), FaultId(output, outputOne));
    ghost var t := test[..];
    MarkOneSince(test0, t, pairs0, entries.s.pairs, p);
    entries.MergeFaults(FaultId(input, inputOne), FaultId(output, outputOne));
    test[FaultId(input, inputOne)] := false;
    assert test[..] == t[p.0 := false];
  }

  /** The pairs of one gate. */
  method AddGatePairs(c: Circuit, entries: Entries, test: array<bool>, ghost test0: seq<bool>, ghost pairs0: seq<Pair>, n: nat)
    requires entries.Valid() && test.Length == entries.n == 2 * |c.nl| && Closed(c.nl) && n < |c.nl|
    requires MarkedSince(test0, test[..], pairs0, entries.s.pairs)
    modifies entries`s, entries.parent, entries.groupSize, test
    ensures entries.Valid() && entries.s.pairs == old(entries.s.pairs) + GatePairs(c.nl[n], n)
    ensures MarkedSince(test0, test[..], pairs0, entries.s.pairs)
  {
    var net := c.nl[n];
    if net.kind == Buf || net.kind == Inv {
      AddStructuralPair(entries, test, test0, pairs0, net.ins[0], false, n, net.kind == Inv);
      AddStructuralPair(entries, test, test0, pairs0, net.ins[0], true, n, net.kind != Inv);
    } else if net.kind in {And, Nand, Or, Nor} {
      var inputOne := net.kind in {Or, Nor};
      var outputOne := net.kind in {Nand, Or};
      ghost var start := entries.s.pairs;
      ghost var all := InputPairs(net, n, inputOne, outputOne);
      for j := 0 to |net.ins|
        invariant entries.Valid() && entries.s.pairs == start + all[..j]
        invariant MarkedSince(test0, test[..], pairs0, entries.s.pairs)
      {
        AddStructuralPair(entries, test, test0, pairs0, net.ins[j], inputOne, n, outputOne);
        assert all[..j + 1] == all[..j] + [all[j]];
      }
      assert all[..|net.ins|] == all;
    } else {
      assert entries.s.pairs == old(entries.s.pairs) + [];
    }
  }

  lemma StructuralPairsMore(c: Circuit, model: FaultModel, k: nat, pairs0: seq<Pair>, merged: seq<Pair>, merged': seq<Pair>)
    requires Closed(c.nl) && k < |c.nl| && merged == pairs0 + StructuralPairs(c, model, k)
    requires merged' == if Considered(c, model, k) then merged + GatePairs(c.nl[k], k) else merged
    ensures merged' == pairs0 + StructuralPairs(c, model, k + 1)
  {
  }

  /** The structural pairs of the whole netlist. */
  method AddStructuralEquivalences(c: Circuit, model: FaultModel, entries: Entries, test: array<bool>)
    requires entries.Valid() && test.Length == entries.n == 2 * |c.nl| && Closed(c.nl)
    modifies entries`s, entries.parent, entries.groupSize, test
    ensures entries.Valid() && entries.s.pairs == old(entries.s.pairs) + StructuralPairs(c, model, |c.nl|)
    ensures Marked(old(test[..]), test[..], StructuralPairs(c, model, |c.nl|))
  {
    ghost var test0, pairs0 := test[..], entries.s.pairs;
    MarkNone(test0, pairs0);
    for k := 0 to |c.nl|
      invariant entries.Valid() && entries.s.pairs == pairs0 + StructuralPairs(c, model, k)
      invariant MarkedSince(test0, test[..], pairs0, entries.s.pairs)
    {
      ghost var merged := entries.s.pairs;
      if Considered(c, model, k) {
        AddGatePairs(c, entries, test, test0, pairs0, k);
      }
      StructuralPairsMore(c, model, k, pairs0, merged, entries.s.pairs);
    }
    MarkedByAll(test0, test[..], pairs0, StructuralPairs(c, model, |c.nl|));
  }

  // ------------------------------------------------- the fault table walk

  const MAXSIZE_HASH: nat := 100

  /** The faults of the table in the order of its buckets. */
  function Walk(buckets: seq<seq<nat>>): seq<nat> {
    if buckets == [] then [] else Walk(buckets[..|buckets| - 1]) + buckets[|buckets| - 1]
  }

  lemma {:induction false} InWalk(buckets: seq<seq<nat>>, f: nat)
    ensures f in Walk(buckets) <==> exists b :: 0 <= b < |buckets| && f in buckets[b]
  {
    if buckets != [] {
      InWalk(buckets[..|buckets| - 1], f);
      assert buckets == buckets[..|buckets| - 1] + [buckets[|buckets| - 1]];
    }
  }

  ghost predicate IsTable(walk: seq<nat>, n: nat) { forall k :: 0 <= k < |walk| ==> walk[k] < n }

  ghost predicate AreTables(buckets: seq<seq<nat>>, n: nat) { forall b :: 0 <= b < |buckets| ==> IsTable(buckets[b], n) }

  /** The levels and roots that a choice depends on. */
  datatype Ranking = Ranking(roots: seq<nat>, level: seq<nat>) {
    ghost predicate For(n: nat) { |roots| == n && 2 * |level| == n && forall f :: 0 <= f < n ==> roots[f] < n }
    function Root(f: nat): nat { if f < |roots| then roots[f] else 0 }
    function Level(f: nat): nat { if NetOf(f) < |level| then level[NetOf(f)] else 0 }
  }

  /** The representative that a scan of the table leaves at root r, or -1. */
  function Chosen(walk: seq<nat>, k: Ranking, r: nat): (f: int)
    ensures f == -1 || (f >= 0 && f in walk && k.Root(f) == r)
  {
    if walk == [] then -1
    else
      var f := walk[|walk| - 1];
      var before := Chosen(walk[..|walk| - 1], k, r);
      if k.Root(f) == r && (before == -1 || k.Level(f) < k.Level(before)) then f else before
  }

  /** f stands at position i of the table and precedes every other member of its
      group in level, or in position on the same level. */
  ghost predicate IsLeast(walk: seq<nat>, k: Ranking, r: nat, f: nat, i: nat) {
    && i < |walk| && walk[i] == f && k.Root(f) == r
    && forall j :: 0 <= j < |walk| && k.Root(walk[j]) == r ==>
         k.Level(f) < k.Level(walk[j]) || (k.Level(f) == k.Level(walk[j]) && i <= j)
  }

  /** The scan chooses the least member, whatever was merged in which order. */
  lemma {:induction false} ChosenIsLeast(walk: seq<nat>, k: Ranking, r: nat) returns (i: nat)
    ensures Chosen(walk, k, r) == -1 <==> forall j :: 0 <= j < |walk| ==> k.Root(walk[j]) != r
    ensures Chosen(walk, k, r) >= 0 ==> IsLeast(walk, k, r, Chosen(walk, k, r), i)
  {
    i := 0;
    if walk != [] {
      var n := |walk| - 1;
      i := ChosenIsLeast(walk[..n], k, r);
      assert forall j :: 0 <= j < n ==> walk[..n][j] == walk[j];
      if Chosen(walk, k, r) != Chosen(walk[..n], k, r) || Chosen(walk[..n], k, r) == -1 { i := n; }
    }
  }

  lemma LeastIsUnique(walk: seq<nat>, k: Ranking, r: nat, f: nat, i: nat, f': nat, i': nat)
    requires IsLeast(walk, k, r, f, i) && IsLeast(walk, k, r, f', i')
    ensures f == f' && i == i'
  {
  }

  /** The choice depends on the partition only, not on which pairs produced it or
      which member became the root. */
  lemma ChoiceDependsOnPartition(walk: seq<nat>, k: Ranking, k': Ranking, f: nat)
    requires k'.level == k.level && f in walk
    requires forall g :: g in walk ==> (k.Root(g) == k.Root(f) <==> k'.Root(g) == k'.Root(f))
    ensures Chosen(walk, k, k.Root(f)) == Chosen(walk, k', k'.Root(f)) != -1
  {
    var r, r' := k.Root(f), k'.Root(f);
    var at :| 0 <= at < |walk| && walk[at] == f;
    var i := ChosenIsLeast(walk, k, r);
    var i' := ChosenIsLeast(walk, k', r');
    assert IsLeast(walk, k', r', Chosen(walk, k', r'), i');
    assert IsLeast(walk, k, r, Chosen(walk, k', r'), i');
    LeastIsUnique(walk, k, r, Chosen(walk, k, r), i, Chosen(walk, k', r'), i');
  }

  /** The roots that some fault of the table belongs to. */
  ghost function Hit(walk: seq<nat>, k: Ranking): set<nat> { set i | 0 <= i < |walk| :: k.Root(walk[i]) }

  /** Every root has the representative that a scan of the table chooses. */
  ghost predicate AllChosen(walk: seq<nat>, k: Ranking, reps: seq<int>) {
    k.For(|reps|) && forall r :: 0 <= r < |reps| ==> reps[r] == Chosen(walk, k, r)
  }

  method ClearRepresentatives(representative: array<int>)
    modifies representative
    ensures forall r :: 0 <= r < representative.Length ==> representative[r] == -1
  {
    for id := 0 to representative.Length
      invariant forall r :: 0 <= r < id ==> representative[r] == -1
    {
      representative[id] := -1;
    }
  }

  /** Chooses a representative for every group that has a fault in the table. */
  method ChooseRepresentatives(entries: Entries, buckets: array<seq<nat>>, level: seq<nat>, representative: array<int>)
    returns (count: nat)
    requires entries.Valid() && representative.Length == entries.n == 2 * |level|
    requires IsTable(Walk(buckets[..]), entries.n)
    modifies entries`s, entries.parent, representative
    ensures entries.Valid() && entries.s == old(entries.s).(p := entries.s.p) && entries.Roots() == old(entries.Roots())
    ensures AllChosen(Walk(buckets[..]), Ranking(entries.Roots(), level), representative[..])
    ensures count == |Hit(Walk(buckets[..]), Ranking(entries.Roots(), level))|
  {
    ghost var k := Ranking(entries.Roots(), level);
    ClearRepresentatives(representative);
    count := 0;
    assert Walk(buckets[..0]) == [];
    ScanNothing(k, representative[..]);
    for b := 0 to buckets.Length
      invariant entries.Valid() && entries.s == old(entries.s).(p := entries.s.p) && entries.Roots() == k.roots
      invariant Scanned(Walk(buckets[..b]), k, representative[..], count)
    {
      assert buckets[..][..b + 1] == buckets[..b + 1] && buckets[..][..b] == buckets[..b];
      WalkParts(buckets[..], b);
      PrefixIsTable(Walk(buckets[..b + 1]), Walk(buckets[..]), entries.n);
      count := ScanBucket(entries, buckets[b], level, representative, count, Walk(buckets[..b]));
    }
    assert buckets[..buckets.Length] == buckets[..];
    ScanAll(Walk(buckets[..]), k, representative[..], count);
  }

  lemma PrefixIsTable(part: seq<nat>, walk: seq<nat>, n: nat)
    requires part <= walk && IsTable(walk, n)
    ensures IsTable(part, n)
  {
  }

  /** Scans one bucket of the table. */
  method ScanBucket(entries: Entries, list: seq<nat>, level: seq<nat>, representative: array<int>, count0: nat, ghost before: seq<nat>)
    returns (count: nat)
    requires entries.Valid() && representative.Length == entries.n == 2 * |level|
    requires Scanned(before, Ranking(entries.Roots(), level), representative[..], count0)
    requires IsTable(before + list, entries.n)
    modifies entries`s, entries.parent, representative
    ensures entries.Valid() && entries.s == old(entries.s).(p := entries.s.p) && entries.Roots() == old(entries.Roots())
    ensures Scanned(before + list, Ranking(entries.Roots(), level), representative[..], count)
  {
    ghost var k := Ranking(entries.Roots(), level);
    count := count0;
    assert before + list[..0] == before;
    for i := 0 to |list|
      invariant entries.Valid() && entries.s == old(entries.s).(p := entries.s.p) && entries.Roots() == k.roots
      invariant Scanned(before + list[..i], k, representative[..], count)
    {
      var f := list[i];
      assert f < entries.n by { assert (before + list)[|before| + i] == f; }
      assert before + list[..i + 1] == (before + list[..i]) + [f];
      count := ScanFault(entries, f, level, representative, count, before + list[..i]);
    }
    assert list[..|list|] == list;
  }

  /** Looks at one fault of the table. */
  method ScanFault(entries: Entries, f: nat, level: seq<nat>, representative: array<int>, count0: nat, ghost before: seq<nat>)
    returns (count: nat)
    requires entries.Valid() && representative.Length == entries.n == 2 * |level| && f < entries.n
    requires Scanned(before, Ranking(entries.Roots(), level), representative[..], count0)
    modifies entries`s, entries.parent, representative
    ensures entries.Valid() && entries.s == old(entries.s).(p := entries.s.p) && entries.Roots() == old(entries.Roots())
    ensures Scanned(before + [f], Ranking(entries.Roots(), level), representative[..], count)
  {
    ghost var k, reps := Ranking(entries.Roots(), level), representative[..];
    var root := entries.FindRoot(f);
    var previous := representative[root];
    PreviousInTable(before, k, reps, count0, root);
    count := if previous == -1 then count0 + 1 else count0;
    if previous == -1 || level[NetOf(f)] < level[NetOf(previous)] {
      representative[root] := f;
      assert representative[..] == reps[root := f];
    }
    ScanOne(before, k, reps, count0, f, representative[..], count);
  }

  lemma PreviousInTable(walk: seq<nat>, k: Ranking, reps: seq<int>, count: nat, r: nat)
    requires Scanned(walk, k, reps, count) && r < |reps|
    ensures -1 <= reps[r] < |reps|
  {
    assert Unfold(0);
    assert reps[r] == Chosen(walk, k, r);
  }

  /** What a scan of the table so far has recorded. */
  ghost predicate Scanned(walk: seq<nat>, k: Ranking, reps: seq<int>, count: nat) {
    forall n {:trigger Unfold(n)} :: Unfold(n) ==>
      IsTable(walk, |reps|) && AllChosen(walk, k, reps) && count == |Hit(walk, k)|
  }

  lemma ScanNothing(k: Ranking, reps: seq<int>)
    requires k.For(|reps|) && forall r :: 0 <= r < |reps| ==> reps[r] == -1
    ensures Scanned([], k, reps, 0)
  {
    assert Hit([], k) == {};
  }

  lemma ScanAll(walk: seq<nat>, k: Ranking, reps: seq<int>, count: nat)
    requires Scanned(walk, k, reps, count)
    ensures AllChosen(walk, k, reps) && count == |Hit(walk, k)|
  {
    assert Unfold(0);
  }

  lemma ScanOne(walk: seq<nat>, k: Ranking, reps: seq<int>, count: nat, f: nat, reps': seq<int>, count': nat)
    requires Scanned(walk, k, reps, count) && f < |reps| && k.For(|reps|) && -1 <= reps[k.Root(f)]
    requires var previous := reps[k.Root(f)];
      && count' == (if previous == -1 then count + 1 else count)
      && reps' == if previous == -1 || k.Level(f) < k.Level(previous) then reps[k.Root(f) := f] else reps
    ensures Scanned(walk + [f], k, reps', count')
  {
    assert Unfold(0);
    HitOne(walk, k, f);
    ChooseOne(walk, k, reps, f, reps');
  }

  lemma HitOne(walk: seq<nat>, k: Ranking, f: nat)
    ensures |Hit(walk + [f], k)| == |Hit(walk, k)| + if Chosen(walk, k, k.Root(f)) == -1 then 1 else 0
  {
    var walk' := walk + [f];
    var i := ChosenIsLeast(walk, k, k.Root(f));
    forall x | x in Hit(walk, k) ensures x in Hit(walk', k) {
      var j :| 0 <= j < |walk| && k.Root(walk[j]) == x;
      assert walk'[j] == walk[j];
    }
    assert walk'[|walk|] == f;
    assert Hit(walk', k) == Hit(walk, k) + {k.Root(f)};
    if Chosen(walk, k, k.Root(f)) == -1 {
      assert k.Root(f) !in Hit(walk, k);
    } else {
      assert k.Root(f) in Hit(walk, k);
      assert Hit(walk', k) == Hit(walk, k);
    }
  }

  lemma ChooseOne(walk: seq<nat>, k: Ranking, reps: seq<int>, f: nat, reps': seq<int>)
    requires AllChosen(walk, k, reps) && f < |reps| && -1 <= reps[k.Root(f)]
    requires var previous := reps[k.Root(f)];
      reps' == if previous == -1 || k.Level(f) < k.Level(previous) then reps[k.Root(f) := f] else reps
    ensures AllChosen(walk + [f], k, reps')
  {
    forall r: nat | r < |reps| ensures reps'[r] == Chosen(walk + [f], k, r) {
      ChosenMore(walk, k, f, r);
      assert reps[r] == Chosen(walk, k, r);
    }
  }

  lemma ChosenMore(walk: seq<nat>, k: Ranking, f: nat, r: nat)
    ensures var before := Chosen(walk, k, r);
      Chosen(walk + [f], k, r) == if k.Root(f) == r && (before == -1 || k.Level(f) < k.Level(before)) then f else before
  {
    assert (walk + [f])[..|walk|] == walk;
  }

  lemma {:induction false} WalkParts(buckets: seq<seq<nat>>, b: nat)
    requires b < |buckets|
    ensures Walk(buckets[..b + 1]) == Walk(buckets[..b]) + buckets[b]
    ensures Walk(buckets[..b + 1]) <= Walk(buckets)
    decreases |buckets| - b
  {
    assert buckets[..b + 1][..b] == buckets[..b];
    if b + 1 < |buckets| {
      WalkParts(buckets, b + 1);
    } else {
      assert buckets[..b + 1] == buckets;
    }
  }

  // ------------------------------------------------------------- pruning

  /** The faults that are the representative of their group, in table order. */
  function Kept(list: seq<nat>, roots: seq<nat>, reps: seq<int>): seq<nat> {
    if list == [] then []
    else
      var f := list[|list| - 1];
      var rest := Kept(list[..|list| - 1], roots, reps);
      if f < |roots| && roots[f] < |reps| && reps[roots[f]] == f then rest + [f] else rest
  }

  /** A fault keeps its place among the kept ones exactly if it is a representative. */
  lemma KeptInOrder(before: seq<nat>, f: nat, after: seq<nat>, roots: seq<nat>, reps: seq<int>)
    requires f < |roots| && roots[f] < |reps|
    ensures Kept(before + [f] + after, roots, reps)
         == Kept(before, roots, reps) + (if reps[roots[f]] == f then [f] else []) + Kept(after, roots, reps)
  {
    KeptOfConcat(before, [f], roots, reps);
    KeptOfConcat(before + [f], after, roots, reps);
    assert [f][..0] == [] && Kept([], roots, reps) == [];
  }

  /** The first 'done' faults of the list are pruned, the link is behind them. */
  ghost predicate Pruned(list: seq<nat>, done: nat, kept: seq<nat>, link: nat, roots: seq<nat>, reps: seq<int>) {
    && done <= |list| && kept == Kept(list[..done], roots, reps) + list[done..]
    && link == |Kept(list[..done], roots, reps)|
  }

  lemma PruneStep(list: seq<nat>, done: nat, kept: seq<nat>, link: nat, roots: seq<nat>, reps: seq<int>)
    requires Pruned(list, done, kept, link, roots, reps) && link < |kept| && IsTable(list, |roots|)
    requires forall i :: 0 <= i < |roots| ==> roots[i] < |reps|
    ensures kept[link] < |roots|
    ensures if reps[roots[kept[link]]] == kept[link] then Pruned(list, done + 1, kept, link + 1, roots, reps)
            else Pruned(list, done + 1, kept[..link] + kept[link + 1..], link, roots, reps)
  {
    assert kept[link] == list[done] && list[done..] == [list[done]] + list[done + 1..];
    assert list[..done + 1][..done] == list[..done];
  }

  /** Unlinks the faults of one bucket that are not representatives. */
  method PruneBucket(entries: Entries, list: seq<nat>, representative: array<int>) returns (kept: seq<nat>)
    requires entries.Valid() && representative.Length == entries.n && IsTable(list, entries.n)
    modifies entries`s, entries.parent
    ensures entries.Valid() && entries.s == old(entries.s).(p := entries.s.p) && entries.Roots() == old(entries.Roots())
    ensures kept == Kept(list, entries.Roots(), representative[..])
  {
    ghost var roots, reps := entries.Roots(), representative[..];
    kept := list;
    var link := 0;
    ghost var done := 0;
    assert list[..0] == [];
    while link < |kept|
      invariant entries.Valid() && entries.s == old(entries.s).(p := entries.s.p) && entries.Roots() == roots
      invariant Pruned(list, done, kept, link, roots, reps)
      decreases |kept| - link
    {
      var f := kept[link];
      PruneStep(list, done, kept, link, roots, reps);
      var root := entries.FindRoot(f);
      if representative[root] == f {
        link := link + 1;
      } else {
        kept := kept[..link] + kept[link + 1..];
      }
      done := done + 1;
    }
    assert list[..done] == list;
  }

  /** Prunes the whole table. */
  method RemoveNonrepresentatives(entries: Entries, buckets: array<seq<nat>>, representative: array<int>)
    requires entries.Valid() && representative.Length == entries.n
    requires AreTables(buckets[..], entries.n)
    modifies entries`s, entries.parent, buckets
    ensures entries.Valid() && entries.s == old(entries.s).(p := entries.s.p) && entries.Roots() == old(entries.Roots())
    ensures Walk(buckets[..]) == Kept(Walk(old(buckets[..])), entries.Roots(), representative[..])
  {
    ghost var roots := entries.Roots();
    for b := 0 to buckets.Length
      invariant entries.Valid() && entries.s == old(entries.s).(p := entries.s.p) && entries.Roots() == roots
      invariant forall a :: 0 <= a < b ==> buckets[a] == Kept(old(buckets[a]), roots, representative[..])
      invariant forall a :: b <= a < buckets.Length ==> buckets[a] == old(buckets[a])
    {
      var kept := PruneBucket(entries, buckets[b], representative);
      buckets[b] := kept;
    }
    WalkOfPruned(old(buckets[..]), buckets[..], roots, representative[..]);
  }

  lemma {:induction false} KeptOfConcat(a: seq<nat>, b: seq<nat>, roots: seq<nat>, reps: seq<int>)
    ensures Kept(a + b, roots, reps) == Kept(a, roots, reps) + Kept(b, roots, reps)
  {
    if b == [] {
      assert a + b == a;
    } else {
      var b' := b[..|b| - 1];
      assert (a + b)[..|a + b| - 1] == a + b';
      KeptOfConcat(a, b', roots, reps);
    }
  }

  /** Pruning bucket by bucket prunes the walk, so the order is unchanged. */
  lemma {:induction false} WalkOfPruned(buckets: seq<seq<nat>>, pruned: seq<seq<nat>>, roots: seq<nat>, reps: seq<int>)
    requires |pruned| == |buckets|
    requires forall b :: 0 <= b < |buckets| ==> pruned[b] == Kept(buckets[b], roots, reps)
    ensures Walk(pruned) == Kept(Walk(buckets), roots, reps)
  {
    if buckets != [] {
      var n := |buckets| - 1;
      WalkOfPruned(buckets[..n], pruned[..n], roots, reps);
      KeptOfConcat(Walk(buckets[..n]), buckets[n], roots, reps);
    }
  }

  ghost predicate Distinct(s: seq<nat>) { forall i, j :: 0 <= i < j < |s| ==> s[i] != s[j] }

  lemma {:induction false} KeptMembers(list: seq<nat>, roots: seq<nat>, reps: seq<int>, f: nat)
    ensures f in Kept(list, roots, reps) <==> f in list && f < |roots| && roots[f] < |reps| && reps[roots[f]] == f
    ensures Distinct(list) ==> Distinct(Kept(list, roots, reps))
  {
    if list != [] {
      var n := |list| - 1;
      KeptMembers(list[..n], roots, reps, f);
      KeptMembers(list[..n], roots, reps, list[n]);
      assert list == list[..n] + [list[n]];
    }
  }

  /** After pruning, each group of the table keeps its least member and no other:
      f is kept exactly when it is the least of its group. */
  lemma PrunedKeepsTheLeast(walk: seq<nat>, k: Ranking, reps: seq<int>, f: nat)
    requires IsTable(walk, |reps|) && AllChosen(walk, k, reps)
    ensures f in Kept(walk, k.roots, reps) <==> exists i :: IsLeast(walk, k, k.Root(f), f, i)
  {
    KeptMembers(walk, k.roots, reps, f);
    var i := ChosenIsLeast(walk, k, k.Root(f));
    if f in Kept(walk, k.roots, reps) {
      assert reps[k.Root(f)] == Chosen(walk, k, k.Root(f));
      assert IsLeast(walk, k, k.Root(f), f, i);
    }
    if i' :| IsLeast(walk, k, k.Root(f), f, i') {
      assert f < |reps|;
      LeastIsUnique(walk, k, k.Root(f), f, i', Chosen(walk, k, k.Root(f)), i);
    }
  }
}
