/** The union-find over fault ids: linking by group size, full path compression
    when a root is looked up, and the partition it stands for. */
module FaultGroups {
  import opened Cardinality

  // ------------------------------------------------------ parent forests

  /** Parent links climb strictly in rank, so that every chain ends. */
  ghost predicate Forest(p: seq<nat>, rank: seq<nat>) {
    && |p| == |rank|
    && (forall i {:trigger p[i]} :: 0 <= i < |p| ==> p[i] < |p|)
    && (forall i {:trigger rank[i]} :: 0 <= i < |p| ==> rank[i] < |p|)
    && (forall i {:trigger p[i]} :: 0 <= i < |p| && p[i] != i ==> rank[i] < rank[p[i]])
  }

  ghost function Root(p: seq<nat>, rank: seq<nat>, i: nat): (r: nat)
    requires Forest(p, rank) && i < |p|
    ensures r < |p| && p[r] == r && (r != i ==> rank[i] < rank[r])
    decreases |p| - rank[i]
  {
    if p[i] == i then i else Root(p, rank, p[i])
  }

  ghost function RootTable(p: seq<nat>, rank: seq<nat>): (roots: seq<nat>)
    requires Forest(p, rank)
    ensures |roots| == |p| && forall i: nat :: i < |p| ==> roots[i] == Root(p, rank, i) < |p|
  {
    seq(|p|, i requires 0 <= i < |p| => Root(p, rank, i))
  }

  lemma RootIsFixed(p: seq<nat>, rank: seq<nat>, i: nat)
    requires Forest(p, rank) && i < |p|
    ensures p[Root(p, rank, i)] == Root(p, rank, i)
  {
  }

  /** The number of links from i to its root. */
  ghost function Depth(p: seq<nat>, rank: seq<nat>, i: nat): nat
    requires Forest(p, rank) && i < |p|
    decreases |p| - rank[i]
  {
    if p[i] == i then 0 else 1 + Depth(p, rank, p[i])
  }

  ghost function Group(p: seq<nat>, rank: seq<nat>, r: nat): set<nat>
    requires Forest(p, rank) && r < |p|
  {
    set i | 0 <= i < |p| && Root(p, rank, i) == r
  }

  lemma {:induction false} DepthWithinRank(p: seq<nat>, rank: seq<nat>, i: nat)
    requires Forest(p, rank) && i < |p|
    ensures Depth(p, rank, i) + rank[i] <= rank[Root(p, rank, i)]
    decreases |p| - rank[i]
  {
    if p[i] != i { DepthWithinRank(p, rank, p[i]); }
  }

  /** Pointing x at its own root changes no root. */
  lemma {:induction false} CompressKeepsRoot(p: seq<nat>, rank: seq<nat>, x: nat, j: nat)
    requires Forest(p, rank) && x < |p| && j < |p|
    ensures Forest(p[x := Root(p, rank, x)], rank)
    ensures Root(p[x := Root(p, rank, x)], rank, j) == Root(p, rank, j)
    decreases |p| - rank[j]
  {
    var r := Root(p, rank, x);
    var p' := p[x := r];
    assert Forest(p', rank);
    if j == x {
      assert p'[r] == r;
      assert Root(p', rank, r) == r;
    } else if p[j] != j {
      CompressKeepsRoot(p, rank, x, p[j]);
    }
  }

  ghost predicate SameRoots(p: seq<nat>, p': seq<nat>, rank: seq<nat>)
    requires Forest(p, rank)
  {
    && |p'| == |p| && Forest(p', rank)
    && (forall j: nat {:trigger Root(p', rank, j)} :: j < |p| ==> Root(p', rank, j) == Root(p, rank, j))
    && (forall j: nat :: j < |p| ==> (p'[j] == j <==> p[j] == j))
  }

  lemma CompressStep(p0: seq<nat>, p: seq<nat>, rank: seq<nat>, x: nat)
    requires Forest(p0, rank) && SameRoots(p0, p, rank) && x < |p| && p[x] != x
    ensures SameRoots(p0, p[x := Root(p, rank, x)], rank)
    ensures Root(p, rank, x) == Root(p, rank, p[x]) == Root(p0, rank, x)
  {
    forall j: nat | j < |p|
      ensures Forest(p[x := Root(p, rank, x)], rank)
      ensures Root(p[x := Root(p, rank, x)], rank, j) == Root(p0, rank, j)
    {
      CompressKeepsRoot(p, rank, x, j);
    }
  }

  /** Linking root s below root b moves exactly the group of s. */
  lemma {:induction false} LinkMovesGroup(p: seq<nat>, rank: seq<nat>, rank': seq<nat>, s: nat, b: nat, j: nat)
    requires Forest(p, rank) && s < |p| && b < |p| && j < |p| && p[s] == s && p[b] == b && s != b
    requires Forest(p[s := b], rank') && |rank'| == |rank|
    requires forall i :: 0 <= i < |p| ==> rank[i] <= rank'[i]
    ensures Root(p[s := b], rank', j) == if Root(p, rank, j) == s then b else Root(p, rank, j)
    decreases |p| - rank[j]
  {
    var p' := p[s := b];
    if j == s {
      assert p'[b] == b;
      assert Root(p', rank', b) == b;
    } else if p[j] != j {
      LinkMovesGroup(p, rank, rank', s, b, p[j]);
    }
  }

  // --------------------------------------- the partition of merged pairs

  type Pair = (nat, nat)

  ghost predicate ClosedUnder(pairs: seq<Pair>, s: set<nat>) {
    forall k :: 0 <= k < |pairs| ==> (pairs[k].0 in s <==> pairs[k].1 in s)
  }

  /** a and b are related by the reflexive, symmetric and transitive closure of
      the pairs: no set that respects all pairs separates them. */
  ghost predicate Connected(pairs: seq<Pair>, a: nat, b: nat) {
    forall s {:trigger ClosedUnder(pairs, s)} :: ClosedUnder(pairs, s) ==> (a in s <==> b in s)
  }

  lemma ConnectedMore(pairs: seq<Pair>, x: nat, y: nat, a: nat, b: nat)
    requires Connected(pairs, a, b)
    ensures Connected(pairs + [(x, y)], a, b)
  {
    forall s | ClosedUnder(pairs + [(x, y)], s) ensures a in s <==> b in s {
      assert ClosedUnder(pairs, s) by {
        forall k | 0 <= k < |pairs| ensures pairs[k].0 in s <==> pairs[k].1 in s {
          assert (pairs + [(x, y)])[k] == pairs[k];
        }
      }
    }
  }

  lemma ConnectedByPair(pairs: seq<Pair>, x: nat, y: nat, a: nat, b: nat)
    requires Connected(pairs, a, x) && Connected(pairs, y, b)
    ensures Connected(pairs + [(x, y)], a, b)
  {
    ConnectedMore(pairs, x, y, a, x);
    ConnectedMore(pairs, x, y, y, b);
    forall s | ClosedUnder(pairs + [(x, y)], s) ensures a in s <==> b in s {
      assert (pairs + [(x, y)])[|pairs|] == (x, y);
    }
  }

  /** Whoever keeps an equivalence on every pair keeps it on whole groups. */
  lemma ConnectedInEquivalence(pairs: seq<Pair>, n: nat, related: (nat, nat) -> bool, a: nat, b: nat)
    requires forall k :: 0 <= k < |pairs| ==> pairs[k].0 < n && pairs[k].1 < n && related(pairs[k].0, pairs[k].1)
    requires forall x: nat :: x < n ==> related(x, x)
    requires forall x: nat, y: nat :: x < n && y < n && related(x, y) ==> related(y, x)
    requires forall x: nat, y: nat, z: nat :: x < n && y < n && z < n && related(x, y) && related(y, z) ==> related(x, z)
    requires a < n && b < n && Connected(pairs, a, b)
    ensures related(a, b)
  {
    var s := set x | 0 <= x < n && related(a, x);
    forall k | 0 <= k < |pairs| ensures pairs[k].0 in s <==> pairs[k].1 in s {
      assert related(pairs[k].0, pairs[k].1) && related(pairs[k].1, pairs[k].0);
    }
    assert ClosedUnder(pairs, s);
  }

  // ---------------------------------------------------------- group sizes

  ghost function RootSizes(p: seq<nat>, size: seq<nat>, k: nat): nat
    requires k <= |p| == |size|
  {
    if k == 0 then 0 else RootSizes(p, size, k - 1) + if p[k - 1] == k - 1 then size[k - 1] else 0
  }

  lemma {:induction false} RootSizesStable(p: seq<nat>, size: seq<nat>, p': seq<nat>, size': seq<nat>, k: nat)
    requires k <= |p| == |size| == |p'| == |size'|
    requires forall i :: 0 <= i < k ==> (p[i] == i <==> p'[i] == i) && (p[i] == i ==> size[i] == size'[i])
    ensures RootSizes(p, size, k) == RootSizes(p', size', k)
  {
    if k > 0 { RootSizesStable(p, size, p', size', k - 1); }
  }

  /** Linking hands the size of the linked root on to the other one. */
  lemma {:induction false} RootSizesLink(p: seq<nat>, size: seq<nat>, s: nat, b: nat, k: nat)
    requires k <= |p| == |size| && s < |p| && b < |p| && s != b && p[s] == s && p[b] == b
    ensures RootSizes(p[s := b], size[b := size[b] + size[s]], k)
         == RootSizes(p, size, k) + (if b < k then size[s] else 0) - (if s < k then size[s] else 0)
  {
    if k > 0 { RootSizesLink(p, size, s, b, k - 1); }
  }

  lemma {:induction false} InitialSizes(p: seq<nat>, size: seq<nat>, k: nat)
    requires k <= |p| == |size| && forall i :: 0 <= i < |p| ==> p[i] == i && size[i] == 1
    ensures RootSizes(p, size, k) == k
  {
    if k > 0 { InitialSizes(p, size, k - 1); }
  }

  /** The entries, with the ranks and the pairs merged so far. */
  datatype State = State(p: seq<nat>, size: seq<nat>, rank: seq<nat>, pairs: seq<Pair>)

  /** What the entries stand for: the groups are the classes of the pairs, each
      root knows the size of its group, and groups of rank k have 2^k members. */
  ghost predicate Represents(n: nat, p: seq<nat>, size: seq<nat>, rank: seq<nat>, pairs: seq<Pair>) {
    && |p| == |size| == n && Forest(p, rank)
    && RootsKnow(p, size, rank) && InRange(n, pairs)
    && RootSizes(p, size, n) == n
    && SameClasses(n, p, rank, pairs)
  }

  ghost predicate RootsKnow(p: seq<nat>, size: seq<nat>, rank: seq<nat>)
    requires Forest(p, rank) && |p| == |size|
  {
    forall i :: 0 <= i < |p| && p[i] == i ==> size[i] == |Group(p, rank, i)| && Pow2(rank[i]) <= size[i]
  }

  predicate InRange(n: nat, pairs: seq<Pair>) {
    forall k :: 0 <= k < |pairs| ==> pairs[k].0 < n && pairs[k].1 < n
  }

  /** 'Represents' kept folded: methods that only pass it on do not see its
      parts, lemmas that need them say 'Unfold'. */
  ghost predicate Good(n: nat, s: State) {
    Forest(s.p, s.rank) && |s.p| == |s.size| == n
    && forall k {:trigger Unfold(k)} :: Unfold(k) ==> Represents(n, s.p, s.size, s.rank, s.pairs)
  }

  ghost predicate Unfold(k: int) { true }

  ghost predicate SameClasses(n: nat, p: seq<nat>, rank: seq<nat>, pairs: seq<Pair>)
    requires |p| == n && Forest(p, rank)
  {
    forall a: nat, b: nat {:trigger Connected(pairs, a, b)} :: a < n && b < n ==>
      (Root(p, rank, a) == Root(p, rank, b) <==> Connected(pairs, a, b))
  }

  class Entries {
    const n: nat
    const parent: array<nat>
    const groupSize: array<nat>
    ghost var s: State

    ghost predicate Valid()
      reads this, parent, groupSize
    {
      parent != groupSize && parent[..] == s.p && groupSize[..] == s.size && Good(n, s)
    }

    ghost function RootOf(i: nat): nat
      requires Good(n, s) && i < n
      reads this
    {
      Root(s.p, s.rank, i)
    }

    ghost function Roots(): seq<nat>
      requires Good(n, s)
      reads this
    {
      RootTable(s.p, s.rank)
    }

    constructor (count: nat)
      ensures Valid() && n == count && s.pairs == []
      ensures fresh(parent) && fresh(groupSize)
    {
      n := count;
      parent := new nat[count](i => i);
      groupSize := new nat[count](_ => 1);
      new;
      s := State(parent[..], groupSize[..], seq(count, _ => 0), []);
      Singletons(n, s.p, s.size, s.rank);
    }

    /** Looks up the root and compresses the path to it. */
    method FindRoot(faultId: nat) returns (root: nat)
      requires Valid() && faultId < n
      modifies this`s, parent
      ensures Valid() && s == old(s).(p := s.p)
      ensures root == old(Roots())[faultId] && root < n && parent[root] == root
      ensures Roots() == old(Roots())
    {
      ghost var s0 := s;
      root := WalkToRoot(faultId);
      var id: nat := faultId;
      assert parent.Length == n;
      while id != root
        invariant s == s0 && id < n && Root(s0.p, s0.rank, id) == root && |parent[..]| == |s0.p|
        invariant SameRoots(s0.p, parent[..], s0.rank)
        decreases n - s0.rank[id]
      {
        ghost var p := parent[..];
        var up := parent[id];
        assert Root(p, s0.rank, id) == root;
        CompressStep(s0.p, p, s0.rank, id);
        parent[id] := root;
        assert parent[..] == p[id := root];
        id := up;
      }
      CompressedRepresents(n, s0, parent[..]);
      assert RootTable(parent[..], s0.rank) == RootTable(s0.p, s0.rank);
      s := s0.(p := parent[..]);
    }

    /** Unites the groups of two faults, the smaller below the larger. */
    method MergeFaults(first: nat, second: nat)
      requires Valid() && first < n && second < n
      modifies this`s, parent, groupSize
      ensures Valid() && s.pairs == old(s.pairs) + [(first, second)]
    {
      var firstRoot := FindRoot(first);
      var secondRoot := FindRoot(second);
      assert Roots()[first] == firstRoot && Roots()[second] == secondRoot;
      RootIsFixed(s.p, s.rank, first);
      if firstRoot == secondRoot {
        SamePairRepresents(n, s, first, second);
        s := s.(pairs := s.pairs + [(first, second)]);
        return;
      }
      if groupSize[firstRoot] < groupSize[secondRoot] {
        firstRoot, secondRoot := secondRoot, firstRoot;
      }
      Link(first, second, secondRoot, firstRoot);
    }

    /** Hangs one root below another. */
    method Link(ghost first: nat, ghost second: nat, small: nat, big: nat)
      requires Valid() && first < n && second < n && small < n && big < n && small != big
      requires parent[small] == small && parent[big] == big && groupSize[small] <= groupSize[big]
      requires (RootOf(first) == small && RootOf(second) == big) || (RootOf(first) == big && RootOf(second) == small)
      modifies this`s, parent, groupSize
      ensures Valid() && s.pairs == old(s.pairs) + [(first, second)]
    {
      ghost var rank := LinkRepresents(n, s, first, second, small, big);
      parent[small] := big;
      groupSize[big] := groupSize[big] + groupSize[small];
      s := Linked(s, first, second, small, big, rank);
    }

    /** The look-up without compression finds the same root. */
    method WalkToRoot(faultId: nat) returns (root: nat)
      requires Valid() && faultId < n
      ensures root == RootOf(faultId) && root < n && parent[root] == root
    {
      root := faultId;
      while parent[root] != root
        invariant root < n && RootOf(root) == RootOf(faultId)
        decreases n - s.rank[root]
      {
        root := parent[root];
      }
    }
  }

  ghost function Linked(s: State, x: nat, y: nat, small: nat, big: nat, rank: seq<nat>): State
    requires small < |s.p| == |s.size| && big < |s.p|
  {
    State(s.p[small := big], s.size[big := s.size[big] + s.size[small]], rank, s.pairs + [(x, y)])
  }

  ghost predicate IsLinked(s: State, t: State, x: nat, y: nat, small: nat, big: nat) {
    && small < |s.p| == |s.size| && big < |s.p|
    && t.p == s.p[small := big] && t.size == s.size[big := s.size[big] + s.size[small]]
    && t.pairs == s.pairs + [(x, y)]
  }

  // ------------------------------------------- what the entries guarantee

  /** Two faults have the same root exactly when the merged pairs relate them. */
  lemma SameRootIffConnected(n: nat, s: State, a: nat, b: nat)
    requires Good(n, s) && a < n && b < n
    ensures Root(s.p, s.rank, a) == Root(s.p, s.rank, b) <==> Connected(s.pairs, a, b)
  {
    assert Unfold(0);
    assert Connected(s.pairs, a, b) || !Connected(s.pairs, a, b);
  }

  /** Chains are short: 2 to the chain length is at most the group size. */
  lemma ChainIsShort(n: nat, s: State, i: nat)
    requires Good(n, s) && i < n
    ensures Pow2(Depth(s.p, s.rank, i)) <= |Group(s.p, s.rank, Root(s.p, s.rank, i))|
  {
    assert Unfold(0);
    DepthWithinRank(s.p, s.rank, i);
    Pow2Monotone(Depth(s.p, s.rank, i), s.rank[Root(s.p, s.rank, i)]);
  }

  /** A root's size is the size of its group, and the sizes of all roots add up
      to the number of faults. */
  lemma SizesAreRight(n: nat, s: State)
    requires Good(n, s)
    ensures forall i: nat :: i < n && s.p[i] == i ==> s.size[i] == |Group(s.p, s.rank, i)|
    ensures RootSizes(s.p, s.size, n) == n
  {
    assert Unfold(0);
  }

  lemma PairsInRange(n: nat, s: State)
    requires Good(n, s)
    ensures InRange(n, s.pairs)
  {
    assert Unfold(0);
  }

  lemma Singletons(n: nat, p: seq<nat>, size: seq<nat>, rank: seq<nat>)
    requires |p| == |size| == |rank| == n
    requires forall i :: 0 <= i < n ==> p[i] == i && size[i] == 1 && rank[i] == 0
    ensures Good(n, State(p, size, rank, []))
  {
    assert Forest(p, rank);
    InitialSizes(p, size, n);
    forall i | 0 <= i < n ensures |Group(p, rank, i)| == 1 {
      assert Group(p, rank, i) == {i};
    }
    forall a: nat, b: nat | a < n && b < n && a != b ensures !Connected([], a, b) {
      assert ClosedUnder([], {a});
    }
  }

  lemma CompressedRepresents(n: nat, s: State, p: seq<nat>)
    requires Good(n, s) && SameRoots(s.p, p, s.rank)
    ensures Good(n, s.(p := p))
  {
    assert RootsKnow(p, s.size, s.rank) by { CompressedSizes(n, s, p); }
    assert RootSizes(p, s.size, n) == n by {
      SizesAreRight(n, s);
      RootSizesStable(s.p, s.size, p, s.size, n);
    }
    assert SameClasses(n, p, s.rank, s.pairs) by { CompressedClasses(n, s, p); }
    assert InRange(n, s.pairs) by { PairsInRange(n, s); }
    Fold(n, s.(p := p));
  }

  lemma CompressedSizes(n: nat, s: State, p: seq<nat>)
    requires Good(n, s) && SameRoots(s.p, p, s.rank)
    ensures RootsKnow(p, s.size, s.rank)
  {
    forall i: nat | i < n && p[i] == i ensures s.size[i] == |Group(p, s.rank, i)| && Pow2(s.rank[i]) <= s.size[i] {
      RootFacts(n, s, i);
      assert forall j: nat :: j < n ==> Root(p, s.rank, j) == Root(s.p, s.rank, j);
      assert Group(p, s.rank, i) == Group(s.p, s.rank, i);
    }
  }

  lemma CompressedClasses(n: nat, s: State, p: seq<nat>)
    requires Good(n, s) && SameRoots(s.p, p, s.rank)
    ensures SameClasses(n, p, s.rank, s.pairs)
  {
    forall a: nat, b: nat | a < n && b < n
      ensures Root(p, s.rank, a) == Root(p, s.rank, b) <==> Connected(s.pairs, a, b)
    {
      SameRootIffConnected(n, s, a, b);
    }
  }

  lemma SamePairRepresents(n: nat, s: State, x: nat, y: nat)
    requires Good(n, s) && x < n && y < n && Root(s.p, s.rank, x) == Root(s.p, s.rank, y)
    ensures Good(n, s.(pairs := s.pairs + [(x, y)]))
  {
    assert Unfold(0);
    var pairs' := s.pairs + [(x, y)];
    forall a: nat, b: nat | a < n && b < n
      ensures Root(s.p, s.rank, a) == Root(s.p, s.rank, b) <==> Connected(pairs', a, b)
    {
      assert Root(s.p, s.rank, a) == Root(s.p, s.rank, b) <==> Connected(s.pairs, a, b);
      if Connected(s.pairs, a, b) {
        ConnectedMore(s.pairs, x, y, a, b);
      } else {
        RespectsGroups(n, s.p, s.size, s.rank, s.pairs, a);
        assert ClosedUnder(pairs', Group(s.p, s.rank, Root(s.p, s.rank, a)));
      }
    }
    assert SameClasses(n, s.p, s.rank, pairs');
  }

  /** A group respects all pairs. */
  lemma RespectsGroups(n: nat, p: seq<nat>, size: seq<nat>, rank: seq<nat>, pairs: seq<Pair>, a: nat)
    requires Represents(n, p, size, rank, pairs) && a < n
    ensures ClosedUnder(pairs, Group(p, rank, Root(p, rank, a)))
  {
    forall k | 0 <= k < |pairs| ensures Root(p, rank, pairs[k].0) == Root(p, rank, pairs[k].1) {
      PairConnected(pairs, k);
      assert Connected(pairs, pairs[k].0, pairs[k].1);
    }
  }

  lemma LinkRepresents(n: nat, s: State, x: nat, y: nat, small: nat, big: nat) returns (rank: seq<nat>)
    requires Good(n, s) && x < n && y < n && small < n && big < n && small != big
    requires s.p[small] == small && s.p[big] == big && s.size[small] <= s.size[big]
    requires (Root(s.p, s.rank, x) == small && Root(s.p, s.rank, y) == big)
          || (Root(s.p, s.rank, x) == big && Root(s.p, s.rank, y) == small)
    ensures Good(n, Linked(s, x, y, small, big, rank))
  {
    rank := s.rank[big := LinkRank(s.rank[small], s.rank[big])];
    assert Forest(s.p[small := big], rank) && Pow2(rank[big]) <= s.size[big] + s.size[small] by {
      RootFacts(n, s, small);
      RootFacts(n, s, big);
      GroupsAreDisjoint(n, s.p, s.rank, small, big);
      LinkForest(s.p, s.rank, small, big, s.size[small], s.size[big]);
    }
    LinkRest(n, s, Linked(s, x, y, small, big, rank), x, y, small, big);
  }

  lemma RootFacts(n: nat, s: State, r: nat)
    requires Good(n, s) && r < n && s.p[r] == r
    ensures s.size[r] == |Group(s.p, s.rank, r)| && Pow2(s.rank[r]) <= s.size[r]
  {
    assert Unfold(0);
  }

  lemma LinkRest(n: nat, s: State, t: State, x: nat, y: nat, small: nat, big: nat)
    requires Good(n, s) && x < n && y < n && small < n && big < n && small != big
    requires s.p[small] == small && s.p[big] == big
    requires (Root(s.p, s.rank, x) == small && Root(s.p, s.rank, y) == big)
          || (Root(s.p, s.rank, x) == big && Root(s.p, s.rank, y) == small)
    requires IsLinked(s, t, x, y, small, big) && Forest(t.p, t.rank) && Pow2(t.rank[big]) <= s.size[big] + s.size[small]
    requires forall i :: 0 <= i < n ==> s.rank[i] <= t.rank[i] && (i != big ==> s.rank[i] == t.rank[i])
    ensures Good(n, t)
  {
    LinkSizes(n, s, t, x, y, small, big);
    LinkTotal(n, s, t, x, y, small, big);
    LinkClasses(n, s, t, x, y, small, big);
    LinkInRange(n, s, t, x, y, small, big);
    Fold(n, t);
  }

  lemma LinkInRange(n: nat, s: State, t: State, x: nat, y: nat, small: nat, big: nat)
    requires Good(n, s) && x < n && y < n && IsLinked(s, t, x, y, small, big)
    ensures InRange(n, t.pairs)
  {
    PairsInRange(n, s);
  }

  lemma Fold(n: nat, s: State)
    requires |s.p| == |s.size| == n && Forest(s.p, s.rank)
    requires RootsKnow(s.p, s.size, s.rank) && InRange(n, s.pairs) && RootSizes(s.p, s.size, n) == n
    requires SameClasses(n, s.p, s.rank, s.pairs)
    ensures Good(n, s)
  {
  }

  lemma LinkTotal(n: nat, s: State, t: State, x: nat, y: nat, small: nat, big: nat)
    requires Good(n, s) && small < n && big < n && small != big && s.p[small] == small && s.p[big] == big
    requires IsLinked(s, t, x, y, small, big)
    ensures RootSizes(t.p, t.size, n) == n
  {
    SizesAreRight(n, s);
    RootSizesLink(s.p, s.size, small, big, n);
  }

  lemma GroupsAreDisjoint(n: nat, p: seq<nat>, rank: seq<nat>, s: nat, b: nat)
    requires |p| == n && Forest(p, rank) && s < n && b < n && s != b
    ensures Group(p, rank, s) !! Group(p, rank, b)
    ensures |Group(p, rank, s)| + |Group(p, rank, b)| <= n
  {
    SubsetSize(Group(p, rank, s) + Group(p, rank, b), Below(n));
  }

  /** The rank of the new root: one more than its own only on a tie. */
  function LinkRank(rankSmall: nat, rankBig: nat): nat {
    if rankBig <= rankSmall then rankSmall + 1 else rankBig
  }

  lemma LinkForest(p: seq<nat>, rank: seq<nat>, s: nat, b: nat, sizeS: nat, sizeB: nat)
    requires Forest(p, rank) && s < |p| && b < |p| && s != b && p[s] == s && p[b] == b
    requires Pow2(rank[s]) <= sizeS <= sizeB && Pow2(rank[b]) <= sizeB && sizeS + sizeB <= |p|
    ensures Pow2(LinkRank(rank[s], rank[b])) <= sizeB + sizeS
    ensures Forest(p[s := b], rank[b := LinkRank(rank[s], rank[b])])
  {
    var r := LinkRank(rank[s], rank[b]);
    assert Pow2(r) <= sizeB + sizeS;
    var p', rank' := p[s := b], rank[b := r];
    forall i | 0 <= i < |p'| && p'[i] != i ensures rank'[i] < rank'[p'[i]] {
      if i != s { assert p[i] != i && rank[i] < rank[p[i]]; }
    }
  }

  lemma LinkSizes(n: nat, s: State, t: State, x: nat, y: nat, small: nat, big: nat)
    requires Good(n, s) && small < n && big < n && small != big && s.p[small] == small && s.p[big] == big
    requires IsLinked(s, t, x, y, small, big) && Forest(t.p, t.rank)
    requires forall i :: 0 <= i < n ==> s.rank[i] <= t.rank[i] && (i != big ==> s.rank[i] == t.rank[i])
    requires Pow2(t.rank[big]) <= s.size[big] + s.size[small]
    ensures RootsKnow(t.p, t.size, t.rank)
  {
    forall i: nat | i < n && t.p[i] == i
      ensures t.size[i] == |Group(t.p, t.rank, i)| && Pow2(t.rank[i]) <= t.size[i]
    {
      RootFacts(n, s, i);
      RootFacts(n, s, small);
      LinkGroup(n, s.p, s.rank, t.rank, small, big, i);
      GroupsAreDisjoint(n, s.p, s.rank, small, big);
    }
  }

  lemma LinkGroup(n: nat, p: seq<nat>, rank: seq<nat>, rank': seq<nat>, s: nat, b: nat, i: nat)
    requires |p| == n && Forest(p, rank) && s < n && b < n && s != b && p[s] == s && p[b] == b
    requires Forest(p[s := b], rank') && |rank'| == n && forall i :: 0 <= i < n ==> rank[i] <= rank'[i]
    requires i < n && i != s
    ensures Group(p[s := b], rank', i) ==
              if i == b then Group(p, rank, b) + Group(p, rank, s) else Group(p, rank, i)
  {
    forall j: nat | j < n
      ensures Root(p[s := b], rank', j) == if Root(p, rank, j) == s then b else Root(p, rank, j)
    {
      LinkMovesGroup(p, rank, rank', s, b, j);
    }
  }

  lemma LinkClasses(n: nat, s: State, t: State, x: nat, y: nat, small: nat, big: nat)
    requires Good(n, s) && x < n && y < n && small < n && big < n && small != big
    requires s.p[small] == small && s.p[big] == big
    requires (Root(s.p, s.rank, x) == small && Root(s.p, s.rank, y) == big)
          || (Root(s.p, s.rank, x) == big && Root(s.p, s.rank, y) == small)
    requires IsLinked(s, t, x, y, small, big) && Forest(t.p, t.rank)
    requires forall i :: 0 <= i < n ==> s.rank[i] <= t.rank[i]
    ensures SameClasses(n, t.p, t.rank, t.pairs)
  {
    forall c: nat, d: nat | c < n && d < n
      ensures Root(t.p, t.rank, c) == Root(t.p, t.rank, d) <==> Connected(t.pairs, c, d)
    {
      LinkMovesGroup(s.p, s.rank, t.rank, small, big, c);
      LinkMovesGroup(s.p, s.rank, t.rank, small, big, d);
      if Root(t.p, t.rank, c) == Root(t.p, t.rank, d) {
        LinkedAreConnected(n, s, x, y, c, d);
      } else {
        LinkedGroupRespects(n, s, t, x, y, small, big, c);
        assert ClosedUnder(t.pairs, Group(t.p, t.rank, Root(t.p, t.rank, c)));
      }
    }
  }

  lemma LinkedAreConnected(n: nat, s: State, x: nat, y: nat, c: nat, d: nat)
    requires Good(n, s) && x < n && y < n && c < n && d < n
    requires var rc, rd := Root(s.p, s.rank, c), Root(s.p, s.rank, d);
             var rx, ry := Root(s.p, s.rank, x), Root(s.p, s.rank, y);
             rc == rd || (rc == rx && rd == ry) || (rc == ry && rd == rx)
    ensures Connected(s.pairs + [(x, y)], c, d)
  {
    var rc, rd := Root(s.p, s.rank, c), Root(s.p, s.rank, d);
    if rc == rd {
      SameRootIffConnected(n, s, c, d);
      ConnectedMore(s.pairs, x, y, c, d);
    } else if rc == Root(s.p, s.rank, x) {
      SameRootIffConnected(n, s, c, x);
      SameRootIffConnected(n, s, y, d);
      ConnectedByPair(s.pairs, x, y, c, d);
    } else {
      SameRootIffConnected(n, s, d, x);
      SameRootIffConnected(n, s, y, c);
      ConnectedByPair(s.pairs, x, y, d, c);
    }
  }

  lemma LinkedGroupRespects(n: nat, s: State, t: State, x: nat, y: nat, small: nat, big: nat, c: nat)
    requires Good(n, s) && x < n && y < n && c < n && small < n && big < n && small != big
    requires s.p[small] == small && s.p[big] == big
    requires (Root(s.p, s.rank, x) == small && Root(s.p, s.rank, y) == big)
          || (Root(s.p, s.rank, x) == big && Root(s.p, s.rank, y) == small)
    requires IsLinked(s, t, x, y, small, big) && Forest(t.p, t.rank)
    requires forall i :: 0 <= i < n ==> s.rank[i] <= t.rank[i]
    ensures ClosedUnder(t.pairs, Group(t.p, t.rank, Root(t.p, t.rank, c)))
  {
    PairsInRange(n, s);
    forall k | 0 <= k < |t.pairs|
      ensures t.pairs[k].0 < n && t.pairs[k].1 < n && Root(t.p, t.rank, t.pairs[k].0) == Root(t.p, t.rank, t.pairs[k].1)
    {
      var (a, b) := t.pairs[k];
      if k < |s.pairs| {
        assert t.pairs[k] == s.pairs[k];
        SameRootIffConnected(n, s, a, b);
        PairConnected(s.pairs, k);
      }
      LinkMovesGroup(s.p, s.rank, t.rank, small, big, a);
      LinkMovesGroup(s.p, s.rank, t.rank, small, big, b);
    }
  }

  lemma PairConnected(pairs: seq<Pair>, k: nat)
    requires k < |pairs|
    ensures Connected(pairs, pairs[k].0, pairs[k].1)
  {
  }
}
