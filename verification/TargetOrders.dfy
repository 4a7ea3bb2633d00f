/** The order in which the targets are analysed: filled from the fault table, sorted by
    level and then by position, and copied for the analysis. */
module TargetOrders {
  import opened FaultCollapsing
  import opened FaultSelection

  datatype TargetEntry = TargetEntry(fault: nat, rank: nat)

  /** The sorted target order: by level, then by position in the table. */
  ghost predicate TargetOrder(walk: seq<nat>, k: Ranking, order: seq<nat>) {
    && |order| == |walk|
    && (forall a :: 0 <= a < |order| ==> order[a] < |walk|)
    && (forall i :: 0 <= i < |walk| ==> i in order)
    && (forall a, b :: 0 <= a < b < |order| ==> Precedes(walk, k, order[a], order[b]))
  }

  predicate Precedes(walk: seq<nat>, k: Ranking, i: nat, j: nat)
    requires i < |walk| && j < |walk|
  {
    k.Level(walk[i]) < k.Level(walk[j]) || (k.Level(walk[i]) == k.Level(walk[j]) && i < j)
  }

  /** The chosen representative is the first member of its group in the order
      in which the targets are analysed. */
  lemma ChosenComesFirst(walk: seq<nat>, k: Ranking, order: seq<nat>, r: nat, a: nat)
    requires TargetOrder(walk, k, order) && a < |order| && k.Root(walk[order[a]]) == r
    requires forall b :: 0 <= b < a ==> k.Root(walk[order[b]]) != r
    ensures Chosen(walk, k, r) == walk[order[a]]
  {
    var i := ChosenIsLeast(walk, k, r);
    var f := walk[order[a]];
    forall j | 0 <= j < |walk| && k.Root(walk[j]) == r
      ensures k.Level(f) < k.Level(walk[j]) || (k.Level(f) == k.Level(walk[j]) && order[a] <= j)
    {
      assert j in order;
      var b :| 0 <= b < |order| && order[b] == j;
      if a < b { assert Precedes(walk, k, order[a], order[b]); }
    }
    assert IsLeast(walk, k, r, f, order[a]);
    LeastIsUnique(walk, k, r, f, order[a], Chosen(walk, k, r), i);
  }

  // ------------------------------------------------------- fill and sort

  function LevelOf(level: seq<nat>, f: nat): nat { if NetOf(f) < |level| then level[NetOf(f)] else 0 }

  /** Negative, zero or positive, as the library sort wants it. */
  function CompareTarget(level: seq<nat>, a: TargetEntry, b: TargetEntry): int {
    var aLevel, bLevel := LevelOf(level, a.fault), LevelOf(level, b.fault);
    if aLevel != bLevel then (if aLevel > bLevel then 1 else -1)
    else (if a.rank > b.rank then 1 else 0) - (if a.rank < b.rank then 1 else 0)
  }

  /** The comparison orders any two entries of different rank, one way and transitively. */
  lemma CompareIsOrder(level: seq<nat>, a: TargetEntry, b: TargetEntry, c: TargetEntry)
    ensures CompareTarget(level, a, b) == -CompareTarget(level, b, a)
    ensures CompareTarget(level, a, b) == 0 ==> a.rank == b.rank
    ensures CompareTarget(level, a, b) < 0 && CompareTarget(level, b, c) < 0 ==> CompareTarget(level, a, c) < 0
  {
  }

  ghost predicate Sorted(level: seq<nat>, entries: seq<TargetEntry>) {
    forall a, b :: 0 <= a < b < |entries| ==> CompareTarget(level, entries[a], entries[b]) < 0
  }

  /** The table as entries, in the order of its walk. */
  ghost predicate Filled(walk: seq<nat>, entries: seq<TargetEntry>) {
    |entries| == |walk| && forall r :: 0 <= r < |walk| ==> entries[r] == TargetEntry(walk[r], r)
  }

  method FillTargets(buckets: array<seq<nat>>) returns (entries: seq<TargetEntry>)
    ensures Filled(Walk(buckets[..]), entries)
  {
    entries := [];
    for i := 0 to buckets.Length
      invariant Filled(Walk(buckets[..i]), entries)
    {
      WalkParts(buckets[..], i);
      var list := buckets[i];
      ghost var before := Walk(buckets[..i]);
      assert buckets[..][..i] == buckets[..i] && buckets[..][..i + 1] == buckets[..i + 1];
      for p := 0 to |list|
        invariant Filled(before + list[..p], entries)
      {
        entries := entries + [TargetEntry(list[p], |entries|)];
        assert before + list[..p + 1] == (before + list[..p]) + [list[p]];
      }
      assert list[..|list|] == list;
    }
    assert buckets[..buckets.Length] == buckets[..];
  }

  /** The library sort: an arrangement in which every entry compares less than the later ones. */
  method SortTargets(level: seq<nat>, entries: seq<TargetEntry>) returns (sorted: seq<TargetEntry>)
    requires forall a, b :: 0 <= a < b < |entries| ==> entries[a].rank != entries[b].rank
    ensures Sorted(level, sorted) && multiset(sorted) == multiset(entries)
  {
    sorted := [];
    for n := 0 to |entries|
      invariant Sorted(level, sorted) && multiset(sorted) == multiset(entries[..n])
    {
      DistinctRanks(entries, n, sorted);
      sorted := InsertTarget(level, sorted, entries[n]);
      assert entries[..n + 1] == entries[..n] + [entries[n]];
    }
    assert entries[..|entries|] == entries;
  }

  lemma DistinctRanks(entries: seq<TargetEntry>, n: nat, sorted: seq<TargetEntry>)
    requires n < |entries| && multiset(sorted) == multiset(entries[..n])
    requires forall a, b :: 0 <= a < b < |entries| ==> entries[a].rank != entries[b].rank
    ensures forall a :: 0 <= a < |sorted| ==> sorted[a].rank != entries[n].rank
  {
    forall a | 0 <= a < |sorted| ensures sorted[a].rank != entries[n].rank {
      assert sorted[a] in multiset(sorted);
      assert sorted[a] in entries[..n];
    }
  }

  method InsertTarget(level: seq<nat>, sorted: seq<TargetEntry>, e: TargetEntry) returns (more: seq<TargetEntry>)
    requires Sorted(level, sorted) && forall a :: 0 <= a < |sorted| ==> sorted[a].rank != e.rank
    ensures Sorted(level, more) && multiset(more) == multiset(sorted) + multiset{e}
  {
    var k := 0;
    while k < |sorted| && CompareTarget(level, sorted[k], e) < 0
      invariant k <= |sorted| && forall a :: 0 <= a < k ==> CompareTarget(level, sorted[a], e) < 0
    {
      k := k + 1;
    }
    forall b | k <= b < |sorted| ensures CompareTarget(level, e, sorted[b]) < 0 {
      CompareIsOrder(level, sorted[k], e, e);
      CompareIsOrder(level, e, sorted[k], sorted[b]);
    }
    assert sorted == sorted[..k] + sorted[k..];
    more := sorted[..k] + [e] + sorted[k..];
  }

  ghost function RanksOf(entries: seq<TargetEntry>): (order: seq<nat>)
    ensures |order| == |entries| && forall a :: 0 <= a < |entries| ==> order[a] == entries[a].rank
  {
    seq(|entries|, a requires 0 <= a < |entries| => entries[a].rank)
  }

  /** The entries are those of the table, in the target order. */
  ghost predicate InTargetOrder(walk: seq<nat>, level: seq<nat>, entries: seq<TargetEntry>) {
    && |entries| == |walk| && (forall a :: 0 <= a < |entries| ==> entries[a].rank < |walk| && entries[a].fault == walk[entries[a].rank])
    && forall k: Ranking :: k.level == level ==> TargetOrder(walk, k, RanksOf(entries))
  }

  lemma SortedIsTargetOrder(walk: seq<nat>, level: seq<nat>, filled: seq<TargetEntry>, entries: seq<TargetEntry>)
    requires Filled(walk, filled) && Sorted(level, entries) && multiset(entries) == multiset(filled)
    ensures InTargetOrder(walk, level, entries)
  {
    var order := RanksOf(entries);
    assert |entries| == |multiset(entries)| == |multiset(filled)| == |filled|;
    forall a | 0 <= a < |entries| ensures entries[a].rank < |walk| && entries[a].fault == walk[entries[a].rank] {
      assert entries[a] in multiset(entries);
      assert entries[a] in filled;
    }
    forall i | 0 <= i < |walk| ensures i in order {
      assert filled[i] in multiset(filled);
      assert filled[i] in entries;
      var a :| 0 <= a < |entries| && entries[a] == filled[i];
      assert order[a] == i;
    }
    forall k: Ranking | k.level == level ensures TargetOrder(walk, k, order) {
      forall a, b | 0 <= a < b < |order| ensures Precedes(walk, k, order[a], order[b]) {
        assert CompareTarget(level, entries[a], entries[b]) < 0;
        assert k.Level(walk[order[a]]) == LevelOf(level, entries[a].fault) && k.Level(walk[order[b]]) == LevelOf(level, entries[b].fault);
      }
    }
  }

  /** Fills the order from the table and sorts it. */
  method InitTargetOrder(buckets: array<seq<nat>>, level: seq<nat>) returns (entries: seq<TargetEntry>)
    ensures InTargetOrder(Walk(buckets[..]), level, entries)
  {
    var filled := FillTargets(buckets);
    entries := SortTargets(level, filled);
    SortedIsTargetOrder(Walk(buckets[..]), level, filled, entries);
  }

  /** The faults in that order: each fault of the table as often as there, and the first
      one of every group is its representative. */
  method CopyTargetOrder(entries: seq<TargetEntry>, ghost walk: seq<nat>, ghost level: seq<nat>) returns (faults: seq<nat>)
    requires InTargetOrder(walk, level, entries)
    ensures |faults| == |walk| && forall a :: 0 <= a < |faults| ==> faults[a] == walk[RanksOf(entries)[a]]
    ensures forall k: Ranking, a :: k.level == level && 0 <= a < |faults| && (forall b :: 0 <= b < a ==> k.Root(faults[b]) != k.Root(faults[a])) ==>
              Chosen(walk, k, k.Root(faults[a])) == faults[a]
  {
    faults := [];
    for index := 0 to |entries|
      invariant |faults| == index && forall a :: 0 <= a < index ==> faults[a] == entries[a].fault
    {
      faults := faults + [entries[index].fault];
    }
    ghost var order := RanksOf(entries);
    forall k: Ranking, a | k.level == level && 0 <= a < |faults| && (forall b :: 0 <= b < a ==> k.Root(faults[b]) != k.Root(faults[a]))
      ensures Chosen(walk, k, k.Root(faults[a])) == faults[a]
    {
      assert TargetOrder(walk, k, order);
      assert forall b :: 0 <= b < a ==> walk[order[b]] == faults[b];
      ChosenComesFirst(walk, k, order, k.Root(faults[a]), a);
    }
  }
}
