/** The fault table: generating the targets, the final choice of representatives
    and the lists of members, and why no requested fault is left without one. */
module FaultTables {
  import opened Netlists
  import opened FaultGroups
  import opened FaultCollapsing
  import opened FaultSelection

  ghost function Faults(walk: seq<nat>): set<nat> { set i | 0 <= i < |walk| :: walk[i] }

  /** A fault hangs in the bucket of its name's checksum, at most once. */
  ghost predicate Hashed(buckets: seq<seq<nat>>, sum: nat -> nat, n: nat) {
    && |buckets| <= MAXSIZE_HASH
    && (forall b :: 0 <= b < |buckets| ==> Distinct(buckets[b]))
    && (forall b, i :: 0 <= b < |buckets| && 0 <= i < |buckets[b]| ==>
          buckets[b][i] < n && sum(buckets[b][i]) % MAXSIZE_HASH == b)
  }

  lemma {:induction false} HashedIsDistinct(buckets: seq<seq<nat>>, sum: nat -> nat, n: nat)
    requires Hashed(buckets, sum, n)
    ensures Distinct(Walk(buckets)) && IsTable(Walk(buckets), n)
    ensures AreTables(buckets, n)
  {
    if buckets != [] {
      var k := |buckets| - 1;
      var w, last := Walk(buckets[..k]), buckets[k];
      HashedIsDistinct(buckets[..k], sum, n);
      forall i, j | 0 <= i < |w| && 0 <= j < |last| ensures w[i] != last[j] {
        InWalk(buckets[..k], w[i]);
        assert w[i] in w;
        var b :| 0 <= b < k && w[i] in buckets[..k][b];
      }
    }
  }

  /** The table with a new fault at the head of its bucket. */
  ghost function WithFault(buckets: seq<seq<nat>>, sum: nat -> nat, f: nat): seq<seq<nat>> {
    var b := sum(f) % MAXSIZE_HASH;
    if b < |buckets| && f !in buckets[b] then buckets[b := [f] + buckets[b]] else buckets
  }

  /** Every bucket holds its faults from the latest to the first. */
  ghost predicate Descending(buckets: seq<seq<nat>>, n: nat) {
    forall b :: 0 <= b < |buckets| ==> LatestFirst(buckets[b]) && forall i :: 0 <= i < |buckets[b]| ==> buckets[b][i] < n
  }

  ghost predicate LatestFirst(list: seq<nat>) { forall i, j :: 0 <= i < j < |list| ==> list[i] > list[j] }

  lemma DescendingMore(buckets: seq<seq<nat>>, sum: nat -> nat, f: nat)
    requires Descending(buckets, f)
    ensures Descending(WithFault(buckets, sum, f), f + 1)
  {
  }

  /** The line at which a fault is listed first. */
  ghost function FirstAt(lines: seq<nat>, f: nat): nat {
    if lines == [] then 0
    else if f in lines[..|lines| - 1] then FirstAt(lines[..|lines| - 1], f) else |lines| - 1
  }

  lemma {:induction false} FirstAtIs(lines: seq<nat>, f: nat)
    requires f in lines
    ensures FirstAt(lines, f) < |lines| && lines[FirstAt(lines, f)] == f && forall i :: 0 <= i < FirstAt(lines, f) ==> lines[i] != f
  {
    var n := |lines| - 1;
    assert lines == lines[..n] + [lines[n]];
    if f in lines[..n] { FirstAtIs(lines[..n], f); }
  }

  /** Every bucket holds listed faults only, the one listed latest first. */
  ghost predicate ListedOrder(buckets: seq<seq<nat>>, lines: seq<nat>) {
    forall n {:trigger Unfold(n)} :: Unfold(n) ==> forall b :: 0 <= b < |buckets| ==> BucketInOrder(buckets[b], lines)
  }

  lemma NothingListed(buckets: seq<seq<nat>>)
    requires forall b :: 0 <= b < |buckets| ==> buckets[b] == []
    ensures ListedOrder(buckets, [])
  {
  }

  ghost predicate BucketInOrder(bucket: seq<nat>, lines: seq<nat>) {
    && (forall i :: 0 <= i < |bucket| ==> bucket[i] in lines)
    && forall i, j :: 0 <= i < j < |bucket| ==> FirstAt(lines, bucket[i]) > FirstAt(lines, bucket[j])
  }

  lemma ListedMore(buckets: seq<seq<nat>>, lines: seq<nat>, sum: nat -> nat, n: nat, f: nat)
    requires ListedOrder(buckets, lines) && Hashed(buckets, sum, n) && |buckets| == MAXSIZE_HASH
    requires forall g :: g in lines ==> exists b :: 0 <= b < |buckets| && g in buckets[b]
    ensures ListedOrder(WithFault(buckets, sum, f), lines + [f])
  {
    var more := lines + [f];
    assert more[..|lines|] == lines;
    forall g | g in lines ensures FirstAt(more, g) == FirstAt(lines, g) < |lines| { FirstAtIs(lines, g); }
    assert f !in lines ==> FirstAt(more, f) == |lines|;
    if f in lines {
      var b :| 0 <= b < |buckets| && f in buckets[b];
      var i :| 0 <= i < |buckets[b]| && buckets[b][i] == f;
      assert WithFault(buckets, sum, f) == buckets;
    }
    var table := WithFault(buckets, sum, f);
    assert Unfold(0);
    forall b | 0 <= b < |table| ensures BucketInOrder(table[b], more) {
      assert BucketInOrder(buckets[b], lines);
      BucketMore(buckets[b], lines, f, more);
    }
  }

  lemma BucketMore(bucket: seq<nat>, lines: seq<nat>, f: nat, more: seq<nat>)
    requires BucketInOrder(bucket, lines) && more == lines + [f]
    requires forall g :: g in lines ==> FirstAt(more, g) == FirstAt(lines, g) < |lines|
    requires f !in lines ==> FirstAt(more, f) == |lines|
    ensures BucketInOrder(bucket, more) && (f !in lines ==> BucketInOrder([f] + bucket, more))
  {
  }

  /** Registers a fault unless its bucket holds it already. */
  method CreateFault(buckets: array<seq<nat>>, sum: nat -> nat, f: nat, ghost n: nat)
    requires buckets.Length == MAXSIZE_HASH && Hashed(buckets[..], sum, n) && f < n
    modifies buckets
    ensures Hashed(buckets[..], sum, n)
    ensures Faults(Walk(buckets[..])) == Faults(Walk(old(buckets[..]))) + {f}
    ensures buckets[..] == WithFault(old(buckets[..]), sum, f)
  {
    ghost var before := buckets[..];
    var b := sum(f) % MAXSIZE_HASH;
    if f !in buckets[b] {
      buckets[b] := [f] + buckets[b];
    }
    forall g: nat ensures g in Faults(Walk(buckets[..])) <==> g in Faults(Walk(before)) || g == f {
      InWalk(before, g);
      InWalk(buckets[..], g);
      assert g in Faults(Walk(before)) <==> g in Walk(before);
      assert g in Faults(Walk(buckets[..])) <==> g in Walk(buckets[..]);
      if c :| 0 <= c < |before| && g in before[c] { assert g in buckets[..][c]; }
      assert f in buckets[..][b];
    }
  }

  /** Automatic generation: every net, or every net of the second time frame. */
  predicate IsSite(c: Circuit, model: FaultModel, f: nat) { f < 2 * |c.nl| && (model == Saf || NetOf(f) in c.peer) }

  ghost function Wanted(c: Circuit, model: FaultModel, test: seq<bool>, k: nat): set<nat>
    requires |test| == 2 * |c.nl| && k <= |c.nl|
  {
    set f | 0 <= f < 2 * k && IsSite(c, model, f) && test[f]
  }

  /** One fault more, if it is flagged. */
  method GenerateFault(test: array<bool>, buckets: array<seq<nat>>, sum: nat -> nat, f: nat, ghost n: nat)
    requires buckets.Length == MAXSIZE_HASH && Hashed(buckets[..], sum, n) && f < n == test.Length && Descending(buckets[..], f)
    modifies buckets
    ensures Hashed(buckets[..], sum, n) && Descending(buckets[..], f + 1)
    ensures Faults(Walk(buckets[..])) == Faults(Walk(old(buckets[..]))) + if test[f] then {f} else {}
  {
    DescendingMore(buckets[..], sum, f);
    if test[f] { CreateFault(buckets, sum, f, n); }
  }

  method GenerateFaults(c: Circuit, model: FaultModel, test: array<bool>, buckets: array<seq<nat>>, sum: nat -> nat)
    requires test.Length == 2 * |c.nl| && buckets.Length == MAXSIZE_HASH
    requires forall b :: 0 <= b < buckets.Length ==> buckets[b] == []
    modifies buckets
    ensures Hashed(buckets[..], sum, 2 * |c.nl|)
    ensures Faults(Walk(buckets[..])) == Wanted(c, model, test[..], |c.nl|)
    ensures Descending(buckets[..], 2 * |c.nl|)
  {
    EmptyWalk(buckets[..]);
    for i := 0 to |c.nl|
      invariant Hashed(buckets[..], sum, 2 * |c.nl|)
      invariant Faults(Walk(buckets[..])) == Wanted(c, model, test[..], i) && Descending(buckets[..], 2 * i)
    {
      WantedMore(c, model, test[..], i);
      if model == Saf || i in c.peer {
        GenerateFault(test, buckets, sum, FaultId(i, false), 2 * |c.nl|);
        GenerateFault(test, buckets, sum, FaultId(i, true), 2 * |c.nl|);
      }
    }
  }

  lemma WantedMore(c: Circuit, model: FaultModel, test: seq<bool>, i: nat)
    requires |test| == 2 * |c.nl| && i < |c.nl|
    ensures Wanted(c, model, test, i + 1) == Wanted(c, model, test, i)
            + (if (model == Saf || i in c.peer) && test[FaultId(i, false)] then {FaultId(i, false)} else {})
            + (if (model == Saf || i in c.peer) && test[FaultId(i, true)] then {FaultId(i, true)} else {})
  {
  }

  lemma {:induction false} EmptyWalk(buckets: seq<seq<nat>>)
    requires forall b :: 0 <= b < |buckets| ==> buckets[b] == []
    ensures Walk(buckets) == []
  {
    if buckets != [] { EmptyWalk(buckets[..|buckets| - 1]); }
  }

  lemma AllInBuckets(buckets: seq<seq<nat>>, lines: seq<nat>)
    requires Faults(Walk(buckets)) == Faults(lines)
    ensures forall g :: g in lines ==> exists b :: 0 <= b < |buckets| && g in buckets[b]
  {
    forall g | g in lines ensures exists b :: 0 <= b < |buckets| && g in buckets[b] {
      assert g in Faults(lines);
      assert g in Faults(Walk(buckets));
      InWalk(buckets, g);
    }
  }

  /** One more listed fault. */
  method ListFault(ghost lines: seq<nat>, f: nat, buckets: array<seq<nat>>, sum: nat -> nat, ghost n: nat)
    requires buckets.Length == MAXSIZE_HASH && f < n
    requires Hashed(buckets[..], sum, n) && Faults(Walk(buckets[..])) == Faults(lines) && ListedOrder(buckets[..], lines)
    modifies buckets
    ensures Hashed(buckets[..], sum, n) && Faults(Walk(buckets[..])) == Faults(lines + [f]) && ListedOrder(buckets[..], lines + [f])
  {
    AllInBuckets(buckets[..], lines);
    ListedMore(buckets[..], lines, sum, n, f);
    ListedOneMore(lines, f);
    CreateFault(buckets, sum, f, n);
  }

  lemma ListedOneMore(lines: seq<nat>, f: nat)
    ensures Faults(lines + [f]) == Faults(lines) + {f}
  {
    var more := lines + [f];
    assert more[|lines|] == f;
    forall g | g in Faults(lines) ensures g in Faults(more) {
      var i :| 0 <= i < |lines| && lines[i] == g;
      assert more[i] == g;
    }
  }

  /** An explicit fault list. */
  method ListFaults(lines: seq<nat>, buckets: array<seq<nat>>, sum: nat -> nat, ghost n: nat)
    requires buckets.Length == MAXSIZE_HASH && IsTable(lines, n)
    requires forall b :: 0 <= b < buckets.Length ==> buckets[b] == []
    modifies buckets
    ensures Hashed(buckets[..], sum, n) && Faults(Walk(buckets[..])) == Faults(lines) && ListedOrder(buckets[..], lines)
  {
    EmptyWalk(buckets[..]);
    NothingListed(buckets[..]);
    for i := 0 to |lines|
      invariant Hashed(buckets[..], sum, n) && Faults(Walk(buckets[..])) == Faults(lines[..i]) && ListedOrder(buckets[..], lines[..i])
    {
      assert lines[..i + 1] == lines[..i] + [lines[i]];
      ListFault(lines[..i], lines[i], buckets, sum, n);
    }
    assert lines[..|lines|] == lines;
  }

  // ------------------------------------------- every fault has a target

  ghost function MaxRank(rank: seq<nat>): (m: nat)
    ensures forall i :: 0 <= i < |rank| ==> rank[i] <= m
  {
    if rank == [] then 0
    else var rest := MaxRank(rank[1..]); if rank[0] > rest then rank[0] else rest
  }

  /** Following pairs from inputs to outputs ends at a fault that is a target,
      in the same group. */
  lemma {:induction false} EveryFaultHasTarget(c: Circuit, model: FaultModel, rank: seq<nat>, test0: seq<bool>, test: seq<bool>, f: nat)
    returns (t: nat)
    requires Ranked(c.nl, rank) && |test0| == 2 * |c.nl| && (forall i :: 0 <= i < |test0| ==> test0[i])
    requires Marked(test0, test, StructuralPairs(c, model, |c.nl|)) && IsSite(c, model, f)
    ensures IsSite(c, model, t) && test[t] && Connected(StructuralPairs(c, model, |c.nl|), f, t)
    decreases MaxRank(rank) - rank[NetOf(f)]
  {
    var pairs := StructuralPairs(c, model, |c.nl|);
    if test[f] {
      t := f;
    } else {
      var k :| 0 <= k < |pairs| && pairs[k].0 == f;
      var p := pairs[k];
      PairsComeFromGates(c, model, |c.nl|, p);
      var g :| 0 <= g < |c.nl| && FromGate(c, model, p, g);
      var j := PairForces(c.nl[g], g, p);
      t := EveryFaultHasTarget(c, model, rank, test0, test, p.1);
      forall s | ClosedUnder(pairs, s) ensures f in s <==> t in s {
        assert pairs[k].0 in s <==> pairs[k].1 in s;
      }
    }
  }

  /** So the final choice finds a representative for every automatic fault,
      whatever external pairs were merged on top. */
  lemma EveryFaultIsRepresented(c: Circuit, model: FaultModel, rank: seq<nat>, test0: seq<bool>, test: seq<bool>,
                                walk: seq<nat>, n: nat, s: State, external: seq<Pair>, k: Ranking, f: nat)
    requires Ranked(c.nl, rank) && |test0| == 2 * |c.nl| == n && (forall i :: 0 <= i < |test0| ==> test0[i])
    requires Marked(test0, test, StructuralPairs(c, model, |c.nl|)) && IsSite(c, model, f)
    requires Faults(walk) == Wanted(c, model, test, |c.nl|)
    requires Good(n, s) && s.pairs == StructuralPairs(c, model, |c.nl|) + external && k.roots == RootTable(s.p, s.rank)
    ensures k.Root(f) in Hit(walk, k)
  {
    var pairs := StructuralPairs(c, model, |c.nl|);
    var t := EveryFaultHasTarget(c, model, rank, test0, test, f);
    ConnectedWithMore(pairs, external, f, t);
    SameRootIffConnected(n, s, f, t);
    assert t in Faults(walk);
  }

  lemma ConnectedWithMore(pairs: seq<Pair>, more: seq<Pair>, a: nat, b: nat)
    requires Connected(pairs, a, b)
    ensures Connected(pairs + more, a, b)
  {
    forall s | ClosedUnder(pairs + more, s) ensures a in s <==> b in s {
      assert ClosedUnder(pairs, s) by {
        forall k | 0 <= k < |pairs| ensures pairs[k].0 in s <==> pairs[k].1 in s {
          assert (pairs + more)[k] == pairs[k];
        }
      }
    }
  }

  // ---------------------------------------------------- the final choice

  /** The requested faults from id on that belong to root r, in ascending order. */
  function MembersFrom(requested: seq<bool>, roots: seq<nat>, r: nat, id: nat): seq<nat>
    requires |requested| <= |roots| && id <= |requested|
    decreases |requested| - id
  {
    if id == |requested| then []
    else
      var rest := MembersFrom(requested, roots, r, id + 1);
      if requested[id] && roots[id] == r then [id] + rest else rest
  }

  ghost function RequestedFrom(requested: seq<bool>, id: nat): set<nat> {
    set f | id <= f < |requested| && requested[f]
  }

  /** Every requested fault from id on has a representative. */
  ghost predicate AllRepresented(requested: seq<bool>, roots: seq<nat>, reps: seq<int>, id: nat)
    requires |requested| == |roots| == |reps| && IsTable(roots, |reps|)
  {
    forall f :: id <= f < |requested| && requested[f] ==> reps[roots[f]] != -1
  }

  /** Marks the faults that results are requested for. */
  method MarkRequested(c: Circuit, model: FaultModel, explicit: bool, buckets: array<seq<nat>>, requested: array<bool>)
    requires requested.Length == 2 * |c.nl| && forall f :: 0 <= f < requested.Length ==> !requested[f]
    requires forall b :: 0 <= b < buckets.Length ==> IsTable(buckets[b], requested.Length)
    modifies requested
    ensures forall f: nat :: f < requested.Length ==>
              (requested[f] <==> if explicit then f in Walk(buckets[..]) else IsSite(c, model, f))
  {
    if explicit {
      assert Walk(buckets[..0]) == [];
      for b := 0 to buckets.Length
        invariant forall f: nat :: f < requested.Length ==> (requested[f] <==> f in Walk(buckets[..b]))
      {
        WalkParts(buckets[..], b);
        assert buckets[..b + 1] == buckets[..][..b + 1] && buckets[..b] == buckets[..][..b];
        for i := 0 to |buckets[b]|
          invariant forall f: nat :: f < requested.Length ==>
                      (requested[f] <==> f in Walk(buckets[..b]) || f in buckets[b][..i])
        {
          requested[buckets[b][i]] := true;
        }
      }
      assert buckets[..buckets.Length] == buckets[..];
    } else {
      for f := 0 to requested.Length
        invariant forall g: nat :: g < f ==> (requested[g] <==> IsSite(c, model, g))
      {
        requested[f] := model == Saf || NetOf(f) in c.peer;
      }
    }
  }

  /** Merges the pairs of the equivalence file. */
  method MergeExternal(entries: Entries, external: seq<Pair>)
    requires entries.Valid() && InRange(entries.n, external)
    modifies entries`s, entries.parent, entries.groupSize
    ensures entries.Valid() && entries.s.pairs == old(entries.s.pairs) + external
  {
    for k := 0 to |external|
      invariant entries.Valid() && entries.s.pairs == old(entries.s.pairs) + external[..k]
    {
      entries.MergeFaults(external[k].0, external[k].1);
      assert external[..k + 1] == external[..k] + [external[k]];
    }
    assert external[..|external|] == external;
  }

  /** The requested faults from id on are in the lists of their groups. */
  ghost predicate Collected(requested: seq<bool>, roots: seq<nat>, reps: seq<int>, members: seq<seq<nat>>, id: nat, count: nat) {
    && |requested| == |roots| == |members| == |reps| && IsTable(roots, |members|) && id <= |requested|
    && (forall r: nat :: r < |members| ==> members[r] == MembersFrom(requested, roots, r, id))
    && AllRepresented(requested, roots, reps, id)
    && count == |RequestedFrom(requested, id)|
  }

  lemma CollectOne(requested: seq<bool>, roots: seq<nat>, reps: seq<int>, members: seq<seq<nat>>, id: nat, count: nat)
    requires Collected(requested, roots, reps, members, id + 1, count)
    ensures !requested[id] ==> Collected(requested, roots, reps, members, id, count)
    ensures requested[id] ==> roots[id] < |members|
    ensures requested[id] && reps[roots[id]] != -1 ==>
              Collected(requested, roots, reps, members[roots[id] := [id] + members[roots[id]]], id, count + 1)
    ensures requested[id] && reps[roots[id]] == -1 ==> !AllRepresented(requested, roots, reps, 0)
  {
    if requested[id] {
      assert RequestedFrom(requested, id) == RequestedFrom(requested, id + 1) + {id};
    } else {
      assert RequestedFrom(requested, id) == RequestedFrom(requested, id + 1);
    }
  }

  /** Collects the members of every group, or finds a fault without target. */
  method CollectMembers(entries: Entries, representative: array<int>, requested: array<bool>, members: array<seq<nat>>)
    returns (ok: bool, outputFaults: nat)
    requires entries.Valid() && representative.Length == requested.Length == members.Length == entries.n
    requires forall r :: 0 <= r < members.Length ==> members[r] == []
    modifies entries`s, entries.parent, members
    ensures entries.Valid() && entries.s == old(entries.s).(p := entries.s.p) && entries.Roots() == old(entries.Roots())
    ensures ok <==> AllRepresented(requested[..], entries.Roots(), representative[..], 0)
    ensures ok ==> Collected(requested[..], entries.Roots(), representative[..], members[..], 0, outputFaults)
  {
    ghost var roots, reps, req := entries.Roots(), representative[..], requested[..];
    outputFaults := 0;
    var id: nat := entries.n;
    assert RequestedFrom(req, id) == {};
    while id > 0
      invariant entries.Valid() && entries.s == old(entries.s).(p := entries.s.p) && entries.Roots() == roots
      invariant Collected(req, roots, reps, members[..], id, outputFaults)
    {
      id := id - 1;
      ghost var lists := members[..];
      CollectOne(req, roots, reps, lists, id, outputFaults);
      if requested[id] {
        var root := entries.FindRoot(id);
        if representative[root] == -1 {
          return false, outputFaults;
        }
        members[root] := [id] + members[root];
        outputFaults := outputFaults + 1;
        assert members[..] == lists[root := [id] + lists[root]];
      }
    }
    ok := true;
  }

  datatype Summary = Summary(before: nat, after: nat, outputFaults: nat, numinit: nat, numequiv: int)

  /** What the finished table is, in terms of the table before pruning. */
  ghost predicate Finished(walk0: seq<nat>, k: Ranking, requested: seq<bool>, reps: seq<int>, members: seq<seq<nat>>,
                           walk: seq<nat>, stats: Summary)
  {
    forall n {:trigger Unfold(n)} :: Unfold(n) ==>
      && IsTable(walk0, |reps|) && AllChosen(walk0, k, reps)
      && Collected(requested, k.roots, reps, members, 0, stats.outputFaults)
      && walk == Kept(walk0, k.roots, reps)
      && stats.numinit == stats.after == |Hit(walk0, k)|
      && stats.numequiv == stats.outputFaults - stats.numinit
  }

  /** Chooses the representatives before and after the external pairs. */
  method ChooseTwice(entries: Entries, buckets: array<seq<nat>>, level: seq<nat>, external: seq<Pair>, readOk: bool,
                     representative: array<int>)
    returns (before: nat, after: nat)
    requires entries.Valid() && entries.n == 2 * |level| && InRange(entries.n, external)
    requires representative.Length == entries.n && IsTable(Walk(buckets[..]), entries.n)
    modifies entries`s, entries.parent, entries.groupSize, representative
    ensures entries.Valid() && entries.s.pairs == old(entries.s.pairs) + external
    ensures readOk ==> AllChosen(Walk(buckets[..]), Ranking(entries.Roots(), level), representative[..])
    ensures readOk ==> after == |Hit(Walk(buckets[..]), Ranking(entries.Roots(), level))|
    ensures before == |Hit(Walk(buckets[..]), Ranking(old(entries.Roots()), level))|
  {
    before := ChooseRepresentatives(entries, buckets, level, representative);
    MergeExternal(entries, external);
    after := 0;
    if readOk { after := ChooseRepresentatives(entries, buckets, level, representative); }
  }

  /** Chooses the final representatives, collects the members and prunes. */
  method FinalizeFaultEquivalence(entries: Entries, buckets: array<seq<nat>>, level: seq<nat>, requested: array<bool>,
                                  external: seq<Pair>, readOk: bool, representative: array<int>, members: array<seq<nat>>)
    returns (ok: bool, stats: Summary)
    requires entries.Valid() && entries.n == 2 * |level| && InRange(entries.n, external)
    requires representative.Length == requested.Length == members.Length == entries.n
    requires forall r :: 0 <= r < members.Length ==> members[r] == []
    requires AreTables(buckets[..], entries.n) && buckets != members
    modifies entries`s, entries.parent, entries.groupSize, buckets, representative, members
    ensures entries.Valid() && entries.s.pairs == old(entries.s.pairs) + external
    ensures ok <==> readOk && AllHit(Walk(old(buckets[..])), Ranking(entries.Roots(), level), requested[..])
    ensures stats.before == |Hit(Walk(old(buckets[..])), Ranking(old(entries.Roots()), level))|
    ensures ok ==> Finished(Walk(old(buckets[..])), Ranking(entries.Roots(), level), requested[..],
                            representative[..], members[..], Walk(buckets[..]), stats)
  {
    ghost var walk, requests := Walk(buckets[..]), requested[..];
    WalkIsTable(buckets[..], entries.n);
    var before, after := ChooseTwice(entries, buckets, level, external, readOk, representative);
    ghost var k, reps := Ranking(entries.Roots(), level), representative[..];
    stats := Summary(before, after, 0, 0, 0);
    if !readOk { return false, stats; }
    var outputFaults;
    ok, outputFaults := CollectMembers(entries, representative, requested, members);
    RepresentedIffHit(walk, k, requests, reps);
    if !ok { return; }
    RemoveNonrepresentatives(entries, buckets, representative);
    stats := Summary(before, after, outputFaults, after, outputFaults as int - after as int);
    assert Finished(walk, k, requests, reps, members[..], Walk(buckets[..]), stats);
  }

  lemma {:induction false} WalkIsTable(buckets: seq<seq<nat>>, n: nat)
    requires AreTables(buckets, n)
    ensures IsTable(Walk(buckets), n)
  {
    if buckets != [] { WalkIsTable(buckets[..|buckets| - 1], n); }
  }

  /** Every requested fault shares its group with a fault of the table. */
  ghost predicate AllHit(walk: seq<nat>, k: Ranking, requested: seq<bool>) {
    forall f: nat :: f < |requested| && requested[f] ==> k.Root(f) in Hit(walk, k)
  }

  lemma RepresentedIffHit(walk: seq<nat>, k: Ranking, requested: seq<bool>, reps: seq<int>)
    requires |requested| == |reps| && AllChosen(walk, k, reps)
    ensures AllRepresented(requested, k.roots, reps, 0)
       <==> AllHit(walk, k, requested)
  {
    forall f: nat | f < |requested| ensures reps[k.roots[f]] != -1 <==> k.Root(f) in Hit(walk, k) {
      var i := ChosenIsLeast(walk, k, k.roots[f]);
    }
  }

  // --------------------------------------------------- reading the faults

  datatype FaultSource = Automatic | Listed(faults: seq<nat>)

  /** An equivalence file: the pairs before the first error, and whether there was none. */
  datatype PairFile = NoPairs | Pairs(pairs: seq<Pair>, readOk: bool)

  function PairsOf(file: PairFile): seq<Pair> { if file.Pairs? then file.pairs else [] }
  predicate ReadsWell(file: PairFile) { file.Pairs? ==> file.readOk }

  /** The structural pairs, if they are wanted. */
  ghost function Structural(c: Circuit, model: FaultModel, source: FaultSource, file: PairFile): seq<Pair>
    requires Closed(c.nl)
  {
    if source.Automatic? || file.Pairs? then StructuralPairs(c, model, |c.nl|) else []
  }

  /** The table before anything is pruned: the listed faults, or every site that is not the
      input fault of a structural pair; each bucket from the latest to the first. */
  ghost predicate FreshTable(c: Circuit, model: FaultModel, source: FaultSource, sum: nat -> nat, table: seq<seq<nat>>)
    requires Closed(c.nl)
  {
    && Hashed(table, sum, 2 * |c.nl|) && |table| == MAXSIZE_HASH
    && match source
       case Listed(faults) => ListedOrder(table, faults) && forall f: nat :: f in Walk(table) <==> f in faults
       case Automatic => Descending(table, 2 * |c.nl|) && forall f: nat :: f in Walk(table) <==> IsSite(c, model, f) && IsFree(c, model, f)
  }

  /** No gate rule makes the fault equivalent to an output fault of a gate. */
  ghost predicate IsFree(c: Circuit, model: FaultModel, f: nat) {
    forall g: nat, p: Pair :: RuleOfNet(c, model, p, g) ==> p.0 != f
  }

  lemma FreeIsNotFirst(c: Circuit, model: FaultModel, f: nat)
    requires Closed(c.nl)
    ensures IsFree(c, model, f) <==> !IsFirst(StructuralPairs(c, model, |c.nl|), f)
  {
    var pairs := StructuralPairs(c, model, |c.nl|);
    if IsFirst(pairs, f) {
      var k :| 0 <= k < |pairs| && pairs[k].0 == f;
      StructuralPairsExactly(c, model, pairs[k]);
      var g: nat :| RuleOfNet(c, model, pairs[k], g);
    }
    if g: nat, p: Pair :| RuleOfNet(c, model, p, g) && p.0 == f {
      StructuralPairsExactly(c, model, p);
      assert p in pairs;
    }
  }

  lemma FreshTableIs(c: Circuit, model: FaultModel, source: FaultSource, sum: nat -> nat, table: seq<seq<nat>>, test0: seq<bool>, test: seq<bool>)
    requires Closed(c.nl) && Hashed(table, sum, 2 * |c.nl|) && |table| == MAXSIZE_HASH && |test| == |test0| == 2 * |c.nl|
    requires forall f :: 0 <= f < |test0| ==> test0[f]
    requires source.Listed? ==> ListedOrder(table, source.faults) && Faults(Walk(table)) == Faults(source.faults)
    requires source.Automatic? ==> Descending(table, 2 * |c.nl|) && Faults(Walk(table)) == Wanted(c, model, test, |c.nl|)
    requires source.Automatic? ==> Marked(test0, test, StructuralPairs(c, model, |c.nl|))
    ensures FreshTable(c, model, source, sum, table)
  {
    forall f: nat ensures f in Walk(table) <==> f in Faults(Walk(table)) {}
    forall f: nat ensures IsFree(c, model, f) <==> !IsFirst(StructuralPairs(c, model, |c.nl|), f) { FreeIsNotFirst(c, model, f); }
    if source.Listed? {
      forall f: nat ensures f in source.faults <==> f in Faults(source.faults) {}
    }
  }

  /** The roots tell apart exactly what the pairs do not relate. */
  ghost predicate Partitions(roots: seq<nat>, pairs: seq<Pair>, n: nat) {
    |roots| == n && forall a: nat, b: nat :: a < n && b < n ==> (roots[a] == roots[b] <==> Connected(pairs, a, b))
  }

  lemma RootsPartition(n: nat, s: State)
    requires Good(n, s)
    ensures Partitions(RootTable(s.p, s.rank), s.pairs, n)
  {
    forall a: nat, b: nat | a < n && b < n ensures RootTable(s.p, s.rank)[a] == RootTable(s.p, s.rank)[b] <==> Connected(s.pairs, a, b) {
      SameRootIffConnected(n, s, a, b);
    }
  }

  /** The number of groups that some fault of the table belongs to. */
  ghost predicate CountsGroups(count: nat, walk: seq<nat>, level: seq<nat>, pairs: seq<Pair>, n: nat) {
    exists roots :: Partitions(roots, pairs, n) && count == |Hit(walk, Ranking(roots, level))|
  }

  class FaultTable {
    const entries: Entries
    const test: array<bool>
    const requested: array<bool>
    const buckets: array<seq<nat>>
    const representative: array<int>
    const members: array<seq<nat>>

    constructor (count: nat)
      ensures fresh(entries) && fresh(entries.parent) && fresh(entries.groupSize) && entries.Valid() && entries.n == count
      ensures entries.s.pairs == []
      ensures fresh(test) && fresh(requested) && fresh(buckets) && fresh(representative) && fresh(members)
      ensures test != requested && buckets != members && buckets.Length == MAXSIZE_HASH
      ensures test.Length == requested.Length == representative.Length == members.Length == count
      ensures forall f :: 0 <= f < count ==> test[f] && !requested[f] && members[f] == []
      ensures forall b :: 0 <= b < MAXSIZE_HASH ==> buckets[b] == []
    {
      entries := new Entries(count);
      test := new bool[count](_ => true);
      requested := new bool[count](_ => false);
      buckets := new seq<nat>[MAXSIZE_HASH](_ => []);
      representative := new int[count](_ => -1);
      members := new seq<nat>[count](_ => []);
    }

    /** The arrays belong to the table of a circuit. */
    ghost predicate Fits(c: Circuit)
      reads entries, entries.parent, entries.groupSize
    {
      && entries.Valid() && entries.n == 2 * |c.nl|
      && test != requested && buckets != members && buckets.Length == MAXSIZE_HASH
      && test.Length == requested.Length == representative.Length == members.Length == entries.n
    }

    /** Merges the structural pairs if they are wanted and fills the table. */
    method CollectTargets(c: Circuit, model: FaultModel, source: FaultSource, file: PairFile, sum: nat -> nat)
      requires Fits(c) && Closed(c.nl) && entries.s.pairs == []
      requires source.Listed? ==> IsTable(source.faults, 2 * |c.nl|)
      requires forall b :: 0 <= b < MAXSIZE_HASH ==> buckets[b] == []
      modifies entries`s, entries.parent, entries.groupSize, test, buckets
      ensures Fits(c) && Hashed(buckets[..], sum, entries.n)
      ensures entries.s.pairs == if source.Automatic? || file.Pairs? then StructuralPairs(c, model, |c.nl|) else []
      ensures source.Listed? ==> Faults(Walk(buckets[..])) == Faults(source.faults)
      ensures source.Automatic? ==> Marked(old(test[..]), test[..], StructuralPairs(c, model, |c.nl|))
      ensures source.Automatic? ==> Faults(Walk(buckets[..])) == Wanted(c, model, test[..], |c.nl|)
      ensures if source.Listed? then ListedOrder(buckets[..], source.faults) else Descending(buckets[..], entries.n)
    {
      if source.Automatic? || file.Pairs? {
        AddStructuralEquivalences(c, model, entries, test);
      }
      if source.Listed? {
        ListFaults(source.faults, buckets, sum, entries.n);
      } else {
        GenerateFaults(c, model, test, buckets, sum);
      }
    }

    /** Reads or generates the targets and finishes the table. It fails only when
        there is no net or the equivalence file is bad: no requested fault is ever
        left without a representative. */
    method ReadFault(c: Circuit, model: FaultModel, source: FaultSource, file: PairFile, level: seq<nat>,
                     sum: nat -> nat, ghost rank: seq<nat>)
      returns (ok: bool, stats: Summary, ghost walk0: seq<nat>, ghost table0: seq<seq<nat>>)
      requires Ranked(c.nl, rank) && |level| == |c.nl| && InRange(2 * |c.nl|, PairsOf(file))
      requires source.Listed? ==> IsTable(source.faults, 2 * |c.nl|)
      requires Fits(c) && entries.s.pairs == []
      requires forall f :: 0 <= f < entries.n ==> test[f] && !requested[f] && members[f] == []
      requires forall b :: 0 <= b < MAXSIZE_HASH ==> buckets[b] == []
      modifies entries`s, entries.parent, entries.groupSize, test, requested, buckets, representative, members
      ensures entries.Valid() && (ok <==> c.nl != [] && ReadsWell(file))
      ensures ok ==> entries.s.pairs == (if source.Automatic? || file.Pairs? then StructuralPairs(c, model, |c.nl|) else []) + PairsOf(file)
      ensures ok ==> Finished(walk0, Ranking(entries.Roots(), level), requested[..], representative[..], members[..], Walk(buckets[..]), stats)
      ensures ok ==> walk0 == Walk(table0) && FreshTable(c, model, source, sum, table0)
      ensures ok ==> CountsGroups(stats.before, walk0, level, if source.Automatic? || file.Pairs? then StructuralPairs(c, model, |c.nl|) else [], entries.n)
      ensures ok ==> Distinct(walk0) && forall f :: f in walk0 ==> f < |requested[..]| && requested[f]
      ensures ok ==> forall f: nat :: f < entries.n ==>
                (requested[f] <==> if source.Listed? then f in source.faults else IsSite(c, model, f))
    {
      stats, walk0, table0 := Summary(0, 0, 0, 0, 0), [], [];
      if c.nl == [] { return false, stats, walk0, table0; }
      ghost var test0 := test[..];
      CollectTargets(c, model, source, file, sum);
      ghost var marked := test[..];
      HashedIsDistinct(buckets[..], sum, entries.n);
      walk0, table0 := Walk(buckets[..]), buckets[..];
      FreshTableIs(c, model, source, sum, table0, test0, marked);
      RootsPartition(entries.n, entries.s);
      ghost var roots0 := entries.Roots();
      MarkRequested(c, model, source.Listed?, buckets, requested);
      ghost var requests := requested[..];
      ok, stats := FinalizeFaultEquivalence(entries, buckets, level, requested, PairsOf(file), ReadsWell(file), representative, members);
      assert CountsGroups(stats.before, walk0, level, Structural(c, model, source, file), entries.n) by {
        assert Partitions(roots0, Structural(c, model, source, file), entries.n);
      }
      ghost var k := Ranking(entries.Roots(), level);
      if source.Listed? {
        ListedAreHit(walk0, k, requests, source.faults);
      } else {
        GeneratedAreHit(c, model, rank, test0, marked, walk0, entries.s, PairsOf(file), k, requests);
      }
    }
  }

  lemma ListedAreHit(walk: seq<nat>, k: Ranking, requested: seq<bool>, listed: seq<nat>)
    requires forall f: nat :: f < |requested| ==> (requested[f] <==> f in walk)
    requires IsTable(walk, |requested|) && Faults(walk) == Faults(listed)
    ensures AllHit(walk, k, requested)
    ensures forall f :: f in walk ==> f < |requested| && requested[f]
    ensures forall f: nat :: f < |requested| ==> (requested[f] <==> f in listed)
  {
    forall f: nat ensures f in walk <==> f in listed {
      assert f in Faults(walk) <==> f in walk;
      assert f in Faults(listed) <==> f in listed;
    }
  }

  lemma GeneratedAreHit(c: Circuit, model: FaultModel, rank: seq<nat>, test0: seq<bool>, test: seq<bool>, walk: seq<nat>,
                        s: State, external: seq<Pair>, k: Ranking, requested: seq<bool>)
    requires Ranked(c.nl, rank) && |test0| == 2 * |c.nl| == |requested| && (forall i :: 0 <= i < |test0| ==> test0[i])
    requires Marked(test0, test, StructuralPairs(c, model, |c.nl|))
    requires Faults(walk) == Wanted(c, model, test, |c.nl|)
    requires Good(|requested|, s) && s.pairs == StructuralPairs(c, model, |c.nl|) + external && k.roots == RootTable(s.p, s.rank)
    requires forall f: nat :: f < |requested| ==> (requested[f] <==> IsSite(c, model, f))
    ensures AllHit(walk, k, requested)
    ensures forall f :: f in walk ==> f < |requested| && requested[f]
  {
    forall f: nat | f < |requested| && requested[f] ensures k.Root(f) in Hit(walk, k) {
      EveryFaultIsRepresented(c, model, rank, test0, test, walk, |requested|, s, external, k, f);
    }
    forall f | f in walk ensures f < |requested| && requested[f] {
      assert f in Faults(walk);
    }
  }
}
