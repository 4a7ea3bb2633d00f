/** Removing the clauses blocked on a literal: with one clause against it, with several,
    and the dispatch between these cases. Exactly the blocked clauses of admissible size go. */
module BlockedRemoval {
  import opened Literals
  import opened Extension
  import opened ClauseDatabase
  import opened Resolution
  import opened Antecedents
  import opened FastElimination
  import opened BlockedClauses

  // ------------------------------------------------ what is to be removed

  /** No live clause against the literal is too large. */
  ghost predicate SmallAgainst(s: State, lit: int, maxSize: nat) {
    forall d: nat :: Live(s, d) && -lit in s.clauses[d].lits ==> |s.clauses[d].lits| <= maxSize
  }

  /** A blocked clause of admissible size. */
  ghost predicate Doomed(s: State, c: nat, lit: int, minSize: nat, maxSize: nat) {
    c < |s.clauses| && minSize <= |s.clauses[c].lits| <= maxSize && SmallAgainst(s, lit, maxSize) && Blocked(s, c, lit)
  }

  ghost function AllDoomed(s: State, lit: int, minSize: nat, maxSize: nat): set<nat> {
    set c: nat | c < |s.clauses| && Doomed(s, c, lit, minSize, maxSize)
  }

  lemma NoneDoomed(s: State, lit: int, minSize: nat, maxSize: nat)
    requires forall c: nat :: !Doomed(s, c, lit, minSize, maxSize)
    ensures Dropped(s, s, AllDoomed(s, lit, minSize, maxSize))
  {
    assert AllDoomed(s, lit, minSize, maxSize) == {};
    DroppedStart(s);
  }

  /** Removing other clauses with the literal does not change which ones are blocked on it. */
  lemma BlockedStays(maxVar: nat, s: State, occs: Occs, inactive: set<nat>, t: State, gone: set<nat>, c: nat, lit: int)
    requires WellFormed(maxVar, s, occs, inactive) && Dropped(s, t, gone) && gone <= WithLit(s, lit) && Live(t, c) && lit != 0
    ensures Blocked(t, c, lit) <==> Blocked(s, c, lit)
  {
    DroppedAt(s, t, gone, c);
    forall d: nat | d < |s.clauses| && -lit in s.clauses[d].lits
      ensures Live(s, d) <==> Live(t, d)
      ensures -lit in t.clauses[d].lits
      ensures Clashes(s.clauses[c].lits, s.clauses[d].lits, lit) <==> Clashes(t.clauses[c].lits, t.clauses[d].lits, lit)
    {
      DroppedAt(s, t, gone, d);
      ClauseOf(maxVar, s, occs, inactive, d);
      NoClash(s.clauses[d].lits, lit, -lit);
      SameClashes(s.clauses[c].lits, s.clauses[d].lits, t.clauses[c].lits, t.clauses[d].lits, lit);
    }
    forall d: nat | d < |s.clauses| ensures -lit in t.clauses[d].lits <==> -lit in s.clauses[d].lits {
      DroppedAt(s, t, gone, d);
    }
  }

  lemma SameClashes(c: seq<int>, d: seq<int>, c': seq<int>, d': seq<int>, lit: int)
    requires (forall l :: l in c <==> l in c') && forall l :: l in d <==> l in d'
    ensures Clashes(c, d, lit) <==> Clashes(c', d', lit)
  {
    if Clashes(c, d, lit) {
      var l :| l in d && l != -lit && -l in c;
      assert l in d' && -l in c';
    }
    if Clashes(c', d', lit) {
      var l :| l in d' && l != -lit && -l in c';
      assert l in d && -l in c;
    }
  }

  /** With a complete list of live clauses, clashing with all of them is being blocked. */
  lemma AllClashIsBlocked(maxVar: nat, s: State, occs: Occs, inactive: set<nat>, c: nat, lit: int)
    requires WellFormed(maxVar, s, occs, inactive) && IsActive(s.units, inactive, lit) && IsLit(maxVar, lit)
    requires Live(s, c) && lit in s.clauses[c].lits && ListLive(s, At(occs, -lit))
    ensures AllClash(s, c, At(occs, -lit), lit) <==> Blocked(s, c, lit)
  {
    var list := At(occs, -lit);
    OccsOf(maxVar, s, occs, inactive, -lit);
    if AllClash(s, c, list, lit) {
      forall k | 0 <= k < |list| && 0 <= list[k] && Live(s, list[k]) ensures Clashes(s.clauses[c].lits, s.clauses[list[k]].lits, lit) { }
      ListedIsBlocked(maxVar, s, occs, inactive, c, lit);
    }
    if Blocked(s, c, lit) {
      forall k | 0 <= k < |list| ensures 0 <= list[k] < |s.clauses| && Clashes(s.clauses[c].lits, s.clauses[list[k]].lits, lit) {
        assert Live(s, list[k]) && -lit in s.clauses[list[k]].lits;
      }
    }
  }

  /** A list of admissible clauses that names all doomed ones. Kept folded. */
  ghost predicate Task(s: State, list: seq<int>, lit: int, minSize: nat, maxSize: nat) {
    forall n {:trigger Unfold(n)} :: Unfold(n) ==>
      && Admissible(s, list, minSize, maxSize) && SmallAgainst(s, lit, maxSize)
      && forall c: nat :: Doomed(s, c, lit, minSize, maxSize) ==> c in list
  }

  lemma TaskParts(s: State, list: seq<int>, lit: int, minSize: nat, maxSize: nat)
    requires Task(s, list, lit, minSize, maxSize)
    ensures Admissible(s, list, minSize, maxSize) && SmallAgainst(s, lit, maxSize)
  {
    assert Unfold(0);
  }

  lemma TaskDone(s: State, t: State, gone: set<nat>, list: seq<int>, lit: int, minSize: nat, maxSize: nat)
    requires Task(s, list, lit, minSize, maxSize) && Sweeping(s, t, gone, list, |list|, lit, minSize, maxSize)
    ensures Dropped(s, t, AllDoomed(s, lit, minSize, maxSize))
  {
    assert Unfold(0);
    SweepEnd(s, t, gone, list, lit, minSize, maxSize);
  }

  /** The first i clauses of a list are treated: of them, exactly the doomed ones are gone. */
  ghost predicate Sweeping(s: State, t: State, gone: set<nat>, list: seq<int>, i: nat, lit: int, minSize: nat, maxSize: nat) {
    && Dropped(s, t, gone)
    && forall n {:trigger Unfold(n)} :: Unfold(n) ==>
      && i <= |list| && (forall k :: 0 <= k < |list| ==> 0 <= list[k] < |s.clauses|)
      && gone <= AllDoomed(s, lit, minSize, maxSize)
      && forall k :: 0 <= k < i && Doomed(s, list[k], lit, minSize, maxSize) ==> list[k] in gone
  }

  lemma SweepStart(s: State, list: seq<int>, lit: int, minSize: nat, maxSize: nat)
    requires forall k :: 0 <= k < |list| ==> 0 <= list[k] < |s.clauses|
    ensures Sweeping(s, s, {}, list, 0, lit, minSize, maxSize)
  {
    DroppedStart(s);
  }

  /** A removed clause, or one of inadmissible size, is skipped. */
  lemma SweepSkip(s: State, t: State, gone: set<nat>, list: seq<int>, i: nat, lit: int, minSize: nat, maxSize: nat)
    requires Sweeping(s, t, gone, list, i, lit, minSize, maxSize) && i < |list| && 0 <= list[i] < |t.clauses|
    requires !Live(t, list[i]) || !(minSize <= |t.clauses[list[i]].lits| <= maxSize)
    ensures Sweeping(s, t, gone, list, i + 1, lit, minSize, maxSize)
  {
    DroppedAt(s, t, gone, list[i]);
    assert Unfold(0);
  }

  lemma SweepStep(maxVar: nat, s: State, occs: Occs, inactive: set<nat>, t: State, t': State, gone: set<nat>, list: seq<int>, i: nat,
                  lit: int, minSize: nat, maxSize: nat, removed: bool)
    requires WellFormed(maxVar, s, occs, inactive) && lit != 0
    requires Sweeping(s, t, gone, list, i, lit, minSize, maxSize) && i < |list| && list[i] >= 0 && Live(t, list[i])
    requires SmallAgainst(s, lit, maxSize) && minSize <= |t.clauses[list[i]].lits| <= maxSize
    requires removed <==> Blocked(t, list[i], lit)
    requires Permuted(if removed then Garbage(t, list[i]) else t, t')
    ensures Sweeping(s, t', if removed then gone + {list[i] as nat} else gone, list, i + 1, lit, minSize, maxSize)
  {
    assert Unfold(0);
    DroppedAt(s, t, gone, list[i]);
    BlockedStays(maxVar, s, occs, inactive, t, gone, list[i], lit);
    DroppedStep(s, t, t', gone, list[i], removed);
  }

  /** In the end exactly the doomed clauses are gone. */
  lemma SweepEnd(s: State, t: State, gone: set<nat>, list: seq<int>, lit: int, minSize: nat, maxSize: nat)
    requires Sweeping(s, t, gone, list, |list|, lit, minSize, maxSize)
    requires forall c: nat :: Doomed(s, c, lit, minSize, maxSize) ==> c in list
    ensures Dropped(s, t, AllDoomed(s, lit, minSize, maxSize))
  {
    assert Unfold(0);
    forall c: nat | c in AllDoomed(s, lit, minSize, maxSize) ensures c in gone {
      var k :| 0 <= k < |list| && list[k] == c;
    }
    assert gone == AllDoomed(s, lit, minSize, maxSize);
  }

  // ------------------------------------------ one negative occurrence

  /** The only live clause of the list. */
  ghost predicate OnlyLive(s: State, list: seq<int>, d: int) {
    d in list && d >= 0 && Live(s, d) && forall k :: 0 <= k < |list| && 0 <= list[k] && Live(s, list[k]) ==> list[k] == d
  }

  ghost predicate HasOnlyLive(s: State, list: seq<int>) { exists k :: 0 <= k < |list| && OnlyLive(s, list, list[k]) }

  /** Finds the only live clause with the negated literal and keeps only it. */
  method KeepOnlyNegative(s: Solver, lit: int) returns (d: nat)
    requires s.Valid() && IsLit(s.maxVar, lit) && HasOnlyLive(s.Now(), At(s.occs, -lit))
    modifies s`occs
    ensures s.Valid() && s.occs == old(s.occs)[-lit := [d]]
    ensures Live(s.Now(), d) && -lit in s.clauses[d].lits
    ensures ListLive(s.Now(), At(s.occs, -lit))
  {
    OccsOf(s.maxVar, s.Now(), s.occs, s.inactive, -lit);
    var nos := s.occs[-lit];
    ghost var at :| 0 <= at < |nos| && OnlyLive(s.Now(), nos, nos[at]);
    ghost var only := nos[at];
    d := 0;
    var i: nat := 0;
    while i < |nos|
      invariant i <= |nos| && forall k :: 0 <= k < i ==> nos[k] != only
    {
      var c := nos[i];
      if !s.clauses[c].garbage {
        d := c;
        break;
      }
      i := i + 1;
    }
    assert i < |nos| && d == only;
    RelistWellFormed(s.maxVar, s.Now(), s.occs, s.inactive, -lit, [d]);
    s.occs := s.occs[-lit := [d]];
  }

  /** Marks the only negative clause and removes the positive clauses that clash
      with it, within the size limits. */
  method BlockLiteralWithOneNegativeOcc(s: Solver, lit: int, minSize: nat, maxSize: nat)
    requires s.Valid() && s.Kept() && s.marks == {} && IsLit(s.maxVar, lit) && s.Active(lit) && Abs(lit) !in s.frozen
    requires HasOnlyLive(s.Now(), At(s.occs, -lit))
    modifies s`clauses, s`occs, s`marks, s.stack
    ensures s.Valid() && s.Kept() && s.marks == {}
    ensures Dropped(old(s.Now()), s.Now(), AllDoomed(old(s.Now()), lit, minSize, maxSize))
  {
    ghost var before := s.Now();
    var d := KeepOnlyNegative(s, lit);
    OneAgainst(s.maxVar, before, s.occs, s.inactive, lit, d, maxSize);
    if |s.clauses[d].lits| > maxSize {
      NoneDoomed(before, lit, minSize, maxSize);
      return;
    }
    Mark(s, d);
    SweepPositives(s, lit, d, minSize, maxSize);
    Unmark(s, d);
  }

  /** Goes through the positive clauses once, with the only negative clause marked. */
  method SweepPositives(s: Solver, lit: int, d: nat, minSize: nat, maxSize: nat)
    requires s.Valid() && s.Kept() && IsLit(s.maxVar, lit) && s.Active(lit) && Abs(lit) !in s.frozen && SmallAgainst(s.Now(), lit, maxSize)
    requires Live(s.Now(), d) && -lit in s.clauses[d].lits && At(s.occs, -lit) == [d] && s.marks == LitSet(s.clauses[d].lits)
    modifies s`clauses, s`occs, s.stack
    ensures s.Valid() && s.Kept() && |s.clauses| == |old(s.clauses)| && s.clauses[d] == old(s.clauses[d])
    ensures Dropped(old(s.Now()), s.Now(), AllDoomed(old(s.Now()), lit, minSize, maxSize))
  {
    ghost var before, occs, gone: set<nat> := s.Now(), s.occs, {};
    OccsOf(s.maxVar, s.Now(), s.occs, s.inactive, lit);
    var pos, kept := s.occs[lit], [];
    SweepStart(before, pos, lit, minSize, maxSize);
    for i := 0 to |pos|
      invariant s.Valid() && s.Kept() && s.units == before.units && |s.clauses| == |before.clauses| && s.clauses[d] == before.clauses[d]
      invariant s.occs == occs && ListOk(s.Now(), lit, pos)
      invariant Relisted(s.Now(), pos[..i], kept)
      invariant Sweeping(before, s.Now(), gone, pos, i, lit, minSize, maxSize)
    {
      ghost var now := s.Now();
      var c := pos[i];
      assert pos[..i + 1] == pos[..i] + [c];
      if s.clauses[c].garbage || |s.clauses[c].lits| > maxSize || |s.clauses[c].lits| < minSize {
        if !s.clauses[c].garbage { kept := kept + [c]; }
        SweepSkip(before, now, gone, pos, i, lit, minSize, maxSize);
        continue;
      }
      var blocked := TryToBlock(s, c, lit, d);
      SweepStep(s.maxVar, before, occs, s.inactive, now, s.Now(), gone, pos, i, lit, minSize, maxSize, blocked);
      if blocked { gone := gone + {c}; }
      KeptInList(now, s.Now(), pos, i, kept, blocked);
      ListPermuted(now, s.Now(), pos, c, blocked, lit);
      if !blocked { kept := kept + [c]; }
    }
    assert pos[..|pos|] == pos;
    DoomedAreListed(s.maxVar, before, occs, s.inactive, lit, minSize, maxSize);
    SweepEnd(before, s.Now(), gone, pos, lit, minSize, maxSize);
    RelistWellFormed(s.maxVar, s.Now(), s.occs, s.inactive, lit, kept);
    s.occs := s.occs[lit := kept];
  }

  /** The only clause against the literal decides whether the others are small enough. */
  lemma OneAgainst(maxVar: nat, s: State, occs: Occs, inactive: set<nat>, lit: int, d: nat, maxSize: nat)
    requires WellFormed(maxVar, s, occs, inactive) && IsActive(s.units, inactive, lit) && IsLit(maxVar, lit)
    requires At(occs, -lit) == [d] && Live(s, d) && -lit in s.clauses[d].lits
    ensures SmallAgainst(s, lit, maxSize) <==> |s.clauses[d].lits| <= maxSize
  {
    forall e: nat | Live(s, e) && -lit in s.clauses[e].lits ensures e == d {
      IsConnected(maxVar, s, occs, inactive, -lit, e);
    }
  }

  lemma DoomedAreListed(maxVar: nat, s: State, occs: Occs, inactive: set<nat>, lit: int, minSize: nat, maxSize: nat)
    requires WellFormed(maxVar, s, occs, inactive) && IsActive(s.units, inactive, lit) && IsLit(maxVar, lit)
    ensures forall c: nat :: Doomed(s, c, lit, minSize, maxSize) ==> c in At(occs, lit)
  {
    forall c: nat | Doomed(s, c, lit, minSize, maxSize) ensures c in At(occs, lit) {
      IsConnected(maxVar, s, occs, inactive, lit, c);
    }
  }

  /** Removes a clause if it clashes with the only negative clause. */
  method TryToBlock(s: Solver, c: nat, lit: int, d: nat) returns (blocked: bool)
    requires s.Valid() && s.Kept() && IsLit(s.maxVar, lit) && s.Active(lit) && Abs(lit) !in s.frozen && Live(s.Now(), c) && lit in s.clauses[c].lits
    requires Live(s.Now(), d) && -lit in s.clauses[d].lits && s.marks == LitSet(s.clauses[d].lits) && At(s.occs, -lit) == [d]
    modifies s`clauses, s.stack
    ensures s.Valid() && s.Kept() && d < |s.clauses| && s.clauses[d] == old(s.clauses[d])
    ensures Permuted(if blocked then Garbage(old(s.Now()), c) else old(s.Now()), s.Now())
    ensures blocked <==> Blocked(old(s.Now()), c, lit)
  {
    ghost var before, entries := s.Now(), s.stack.entries;
    NotItself(s.maxVar, before, s.occs, s.inactive, d, c, -lit);
    HitsAreClashes(s.clauses[d].lits, s.clauses[c].lits, -lit);
    ClashSwap(before.clauses[c].lits, before.clauses[d].lits, lit);
    AllClashIsBlocked(s.maxVar, before, s.occs, s.inactive, c, lit);
    blocked := SearchClause(s, c, lit);
    PermutedSame(before, s.Now());
    SoundSame(s.original, before, entries, s.Now());
    if blocked {
      AllClashBlocks(s.maxVar, before, s.Now(), s.occs, s.inactive, c, lit);
      RemoveBlocked(s, c, lit);
    }
  }

  lemma ListPermuted(s: State, t: State, list: seq<int>, c: nat, removed: bool, lit: int)
    requires ListOk(s, lit, list) && c < |s.clauses| && Permuted(if removed then Garbage(s, c) else s, t)
    ensures ListOk(t, lit, list)
  {
    forall k | 0 <= k < |list| ensures 0 <= list[k] < |t.clauses| && lit in t.clauses[list[k]].lits {
      assert multiset(t.clauses[list[k]].lits) == multiset(s.clauses[list[k]].lits);
      PermutedMembers(s.clauses[list[k]].lits, t.clauses[list[k]].lits);
    }
  }

  lemma KeptInList(s: State, t: State, list: seq<int>, i: nat, kept: seq<int>, removed: bool)
    requires i < |list| && 0 <= list[i] < |s.clauses| && Relisted(s, list[..i], kept)
    requires Permuted(if removed then Garbage(s, list[i]) else s, t)
    ensures Relisted(t, list[..i + 1], if removed then kept else kept + [list[i]])
  {
    var kept' := if removed then kept else kept + [list[i]];
    assert list[..i + 1] == list[..i] + [list[i]];
    forall c: nat | Live(t, c) && c in list[..i + 1] ensures c in kept' {
      assert t.clauses[c].garbage == (if removed then Garbage(s, list[i]) else s).clauses[c].garbage;
      if c in list[..i] { assert Live(s, c); }
    }
    forall k | 0 <= k < |kept'| ensures kept'[k] in list[..i + 1] {
      if k < |kept| { assert kept[k] in list[..i]; }
    }
  }

  // ------------------------------------ at least two negative occurrences

  /** The largest size in a list of clauses. */
  ghost predicate IsLargest(s: State, list: seq<int>, size: nat) {
    && (forall k :: 0 <= k < |list| ==> SizeOf(s, list[k]) <= size)
    && (size == 0 || exists k :: 0 <= k < |list| && SizeOf(s, list[k]) == size)
  }

  /** Drops the garbage of a list and returns the largest size of the rest. */
  method FlushOccs(s: Solver, lit: int) returns (maxSize: nat)
    requires s.Valid() && IsLit(s.maxVar, lit)
    modifies s`occs
    ensures s.Valid() && s.occs == old(s.occs)[lit := LiveOnly(s.Now(), At(old(s.occs), lit))]
    ensures IsLargest(s.Now(), At(s.occs, lit), maxSize)
  {
    OccsOf(s.maxVar, s.Now(), s.occs, s.inactive, lit);
    var list, kept := s.occs[lit], [];
    maxSize := 0;
    for i := 0 to |list|
      invariant kept == LiveOnly(s.Now(), list[..i]) && Relisted(s.Now(), list[..i], kept) && ListLive(s.Now(), kept)
      invariant IsLargest(s.Now(), kept, maxSize)
    {
      var c := list[i];
      assert list[..i + 1] == list[..i] + [c];
      if !s.clauses[c].garbage {
        kept := kept + [c];
        if |s.clauses[c].lits| > maxSize { maxSize := |s.clauses[c].lits|; }
      }
    }
    assert list[..|list|] == list;
    RelistWellFormed(s.maxVar, s.Now(), s.occs, s.inactive, lit, kept);
    s.occs := s.occs[lit := kept];
  }

  ghost function LitsOf(s: State, list: seq<int>): set<int> {
    set k, l | 0 <= k < |list| && 0 <= list[k] < |s.clauses| && l in s.clauses[list[k]].lits :: l
  }

  /** Marks the literals of all clauses of a list. */
  method MarkAll(s: Solver, list: seq<int>) returns (marks: set<int>)
    requires forall k :: 0 <= k < |list| ==> 0 <= list[k] < |s.clauses|
    ensures marks == LitsOf(s.Now(), list)
  {
    marks := {};
    for i := 0 to |list|
      invariant marks == LitsOf(s.Now(), list[..i])
    {
      assert LitsOf(s.Now(), list[..i + 1]) == LitsOf(s.Now(), list[..i]) + LitSet(s.clauses[list[i]].lits) by {
        assert list[..i + 1] == list[..i] + [list[i]];
        LitsOfMore(s.Now(), list[..i], list[i]);
      }
      marks := marks + LitSet(s.clauses[list[i]].lits);
    }
    assert list[..|list|] == list;
  }

  lemma LitsOfMore(s: State, list: seq<int>, c: int)
    requires 0 <= c < |s.clauses|
    ensures LitsOf(s, list + [c]) == LitsOf(s, list) + LitSet(s.clauses[c].lits)
  {
    var all := list + [c];
    forall l | l in LitsOf(s, list) ensures l in LitsOf(s, all) {
      var k :| 0 <= k < |list| && 0 <= list[k] < |s.clauses| && l in s.clauses[list[k]].lits;
      assert all[k] == list[k];
    }
    forall l | l in s.clauses[c].lits ensures l in LitsOf(s, all) { assert all[|list|] == c; }
  }

  /** Whether a clause has a literal, other than 'skip', negated in the marks. */
  method HasHit(s: Solver, c: nat, skip: int, marks: set<int>) returns (hit: bool)
    requires c < |s.clauses|
    ensures hit <==> !NoHit(s.clauses[c].lits, skip, marks)
  {
    var lits := s.clauses[c].lits;
    var l: nat := 0;
    while l < |lits|
      invariant l <= |lits| && forall i :: 0 <= i < l ==> !Hits(lits[i], skip, marks)
    {
      if lits[l] != skip && -lits[l] in marks { return true; }
      l := l + 1;
    }
    hit := false;
  }

  /** A positive clause of the right size that clashes with some negative clause. */
  ghost predicate IsCandidate(s: State, c: nat, lit: int, minSize: nat, maxSize: nat, nos: seq<int>) {
    Live(s, c) && minSize <= |s.clauses[c].lits| <= maxSize && !NoHit(s.clauses[c].lits, lit, LitsOf(s, nos))
  }

  /** The positive clauses of the right size that clash with some negative clause. */
  method BlockCandidates(s: Solver, lit: int, minSize: nat, maxSize: nat) returns (candidates: seq<nat>)
    requires s.Valid() && IsLit(s.maxVar, lit)
    modifies s`occs
    ensures s.Valid() && At(s.occs, -lit) == At(old(s.occs), -lit)
    ensures forall c: nat :: c in candidates <==> c in At(old(s.occs), lit) && IsCandidate(s.Now(), c, lit, minSize, maxSize, At(s.occs, -lit))
    ensures ListOk(s.Now(), lit, candidates) && Admissible(s.Now(), candidates, minSize, maxSize)
  {
    OccsOf(s.maxVar, s.Now(), s.occs, s.inactive, lit);
    OccsOf(s.maxVar, s.Now(), s.occs, s.inactive, -lit);
    var pos, kept := s.occs[lit], [];
    var marks := MarkAll(s, s.occs[-lit]);
    candidates := [];
    for i := 0 to |pos|
      invariant s.Valid() && s.occs == old(s.occs) && Relisted(s.Now(), pos[..i], kept)
      invariant forall c: nat :: c in candidates <==> c in pos[..i] && IsCandidate(s.Now(), c, lit, minSize, maxSize, s.occs[-lit])
    {
      var c := pos[i];
      assert pos[..i + 1] == pos[..i] + [c];
      if s.clauses[c].garbage { continue; }
      kept := kept + [c];
      if |s.clauses[c].lits| > maxSize || |s.clauses[c].lits| < minSize { continue; }
      var hit := HasHit(s, c, lit, marks);
      if hit { candidates := candidates + [c]; }
    }
    assert pos[..|pos|] == pos;
    forall k | 0 <= k < |candidates|
      ensures 0 <= candidates[k] < |s.clauses| && lit in s.clauses[candidates[k]].lits && minSize <= |s.clauses[candidates[k]].lits| <= maxSize
    {
      assert candidates[k] in candidates;
      var i :| 0 <= i < |pos| && pos[i] == candidates[k];
    }
    RelistWellFormed(s.maxVar, s.Now(), s.occs, s.inactive, lit, kept);
    s.occs := s.occs[lit := kept];
  }

  /** Clauses of admissible size. */
  ghost predicate Admissible(s: State, list: seq<int>, minSize: nat, maxSize: nat) {
    forall k :: 0 <= k < |list| ==> 0 <= list[k] < |s.clauses| && minSize <= |s.clauses[list[k]].lits| <= maxSize
  }

  lemma StillAdmissible(s: State, t: State, gone: set<nat>, list: seq<int>, minSize: nat, maxSize: nat)
    requires Admissible(s, list, minSize, maxSize) && Dropped(s, t, gone)
    ensures Admissible(t, list, minSize, maxSize)
  {
    forall k | 0 <= k < |list| ensures 0 <= list[k] < |t.clauses| && minSize <= |t.clauses[list[k]].lits| <= maxSize {
      DroppedAt(s, t, gone, list[k]);
    }
  }

  /** No candidate clashes with the clause. */
  ghost predicate ClashesWithNone(s: State, candidates: seq<nat>, d: int, lit: int) {
    && 0 <= d < |s.clauses|
    && forall k :: 0 <= k < |candidates| ==> candidates[k] < |s.clauses| && !Clashes(s.clauses[candidates[k]].lits, s.clauses[d].lits, lit)
  }

  ghost predicate SomeClashesWithNone(s: State, candidates: seq<nat>, nos: seq<int>, lit: int) {
    exists i :: 0 <= i < |nos| && ClashesWithNone(s, candidates, nos[i], lit)
  }

  /** Looks for a negative clause that no candidate clashes with; then no candidate
      can be blocked. */
  method BlockImpossible(s: Solver, lit: int, candidates: seq<nat>) returns (res: bool)
    requires s.Valid() && IsLit(s.maxVar, lit)
    requires forall k :: 0 <= k < |candidates| ==> candidates[k] < |s.clauses|
    ensures res <==> SomeClashesWithNone(s.Now(), candidates, At(s.occs, -lit), lit)
    ensures res ==> forall k :: 0 <= k < |candidates| ==> !AllClash(s.Now(), candidates[k], At(s.occs, -lit), lit)
  {
    OccsOf(s.maxVar, s.Now(), s.occs, s.inactive, -lit);
    var marks := MarkAll(s, candidates);
    var nos := s.occs[-lit];
    res := false;
    for i := 0 to |nos|
      invariant res <==> exists j :: 0 <= j < i && ClashesWithNone(s.Now(), candidates, nos[j], lit)
    {
      var hit := HasHit(s, nos[i], -lit, marks);
      NoHitClashesWithNone(s.Now(), candidates, nos[i], lit);
      if !hit { res := true; }
    }
    if res {
      ghost var i :| 0 <= i < |nos| && ClashesWithNone(s.Now(), candidates, nos[i], lit);
      forall k | 0 <= k < |candidates| ensures !AllClash(s.Now(), candidates[k], nos, lit) {
        NotAllClash(s.Now(), candidates[k], nos, lit, i);
      }
    }
  }

  /** The marks of all candidates together decide whether some candidate clashes. */
  lemma NoHitClashesWithNone(s: State, candidates: seq<nat>, d: int, lit: int)
    requires 0 <= d < |s.clauses| && forall k :: 0 <= k < |candidates| ==> candidates[k] < |s.clauses|
    ensures NoHit(s.clauses[d].lits, -lit, LitsOf(s, candidates)) <==> ClashesWithNone(s, candidates, d, lit)
  {
    var D, marks := s.clauses[d].lits, LitsOf(s, candidates);
    if NoHit(D, -lit, marks) {
      forall k | 0 <= k < |candidates| ensures !Clashes(s.clauses[candidates[k]].lits, D, lit) {
        NoHitNoClash(s, candidates, k, D, lit);
      }
    }
    if ClashesWithNone(s, candidates, d, lit) {
      forall j | 0 <= j < |D| ensures !Hits(D[j], -lit, marks) {
        if Hits(D[j], -lit, marks) { HitClashes(s, candidates, D, j, lit); }
      }
    }
  }

  lemma NoHitNoClash(s: State, candidates: seq<nat>, k: nat, D: seq<int>, lit: int)
    requires k < |candidates| && candidates[k] < |s.clauses| && NoHit(D, -lit, LitsOf(s, candidates))
    ensures !Clashes(s.clauses[candidates[k]].lits, D, lit)
  {
    var C := s.clauses[candidates[k]].lits;
    forall x | x in C ensures x in LitsOf(s, candidates) { assert x in s.clauses[candidates[k]].lits; }
    forall l | l in D && l != -lit ensures -l !in C {
      var j :| 0 <= j < |D| && D[j] == l;
      assert !Hits(D[j], -lit, LitsOf(s, candidates));
    }
  }

  lemma HitClashes(s: State, candidates: seq<nat>, D: seq<int>, j: nat, lit: int)
    requires j < |D| && Hits(D[j], -lit, LitsOf(s, candidates))
    ensures exists k :: 0 <= k < |candidates| && candidates[k] < |s.clauses| && Clashes(s.clauses[candidates[k]].lits, D, lit)
  {
    var k :| 0 <= k < |candidates| && candidates[k] < |s.clauses| && -D[j] in s.clauses[candidates[k]].lits;
    assert D[j] in D && Clashes(s.clauses[candidates[k]].lits, D, lit);
  }

  lemma AllClashBlocks(maxVar: nat, s: State, t: State, occs: Occs, inactive: set<nat>, c: nat, lit: int)
    requires WellFormed(maxVar, t, occs, inactive) && IsActive(t.units, inactive, lit) && IsLit(maxVar, lit)
    requires Permuted(s, t) && Live(s, c) && lit in s.clauses[c].lits
    requires AllClash(s, c, At(occs, -lit), lit)
    ensures Blocked(t, c, lit)
  {
    var list := At(occs, -lit);
    assert multiset(t.clauses[c].lits) == multiset(s.clauses[c].lits);
    PermutedMembers(s.clauses[c].lits, t.clauses[c].lits);
    forall k | 0 <= k < |list| && 0 <= list[k] && Live(t, list[k]) ensures Clashes(t.clauses[c].lits, t.clauses[list[k]].lits, lit) {
      assert multiset(t.clauses[list[k]].lits) == multiset(s.clauses[list[k]].lits);
      PermutedMembers(s.clauses[list[k]].lits, t.clauses[list[k]].lits);
      SameClashes(s.clauses[c].lits, s.clauses[list[k]].lits, t.clauses[c].lits, t.clauses[list[k]].lits, lit);
    }
    ListedIsBlocked(maxVar, t, occs, inactive, c, lit);
  }

  /** Removes a candidate if it is blocked. */
  method BlockCandidate(s: Solver, c: nat, lit: int) returns (blocked: bool)
    requires s.Valid() && s.Kept() && s.marks == {} && IsLit(s.maxVar, lit) && s.Active(lit) && Abs(lit) !in s.frozen
    requires Live(s.Now(), c) && lit in s.clauses[c].lits && ListLive(s.Now(), At(s.occs, -lit))
    modifies s`clauses, s`occs, s`marks, s.stack
    ensures s.Valid() && s.Kept() && s.marks == {} && ListLive(s.Now(), At(s.occs, -lit))
    ensures Permuted(if blocked then Garbage(old(s.Now()), c) else old(s.Now()), s.Now())
    ensures blocked <==> Blocked(old(s.Now()), c, lit)
  {
    ghost var before, occs, entries := s.Now(), s.occs, s.stack.entries;
    ghost var at;
    AllClashIsBlocked(s.maxVar, before, s.occs, s.inactive, c, lit);
    NotAmong(s.maxVar, before, s.occs, s.inactive, c, lit);
    blocked, at := IsBlockedClause(s, c, lit);
    PermutedSame(before, s.Now());
    SoundSame(s.original, before, entries, s.Now());
    if blocked {
      AllClashBlocks(s.maxVar, before, s.Now(), s.occs, s.inactive, c, lit);
      RemoveBlocked(s, c, lit);
    } else {
      MovedIsPermutation(At(occs, -lit), at);
      PermutedMembers(At(occs, -lit), At(s.occs, -lit));
    }
    ghost var nos, nos' := At(occs, -lit), At(s.occs, -lit);
    forall k | 0 <= k < |nos'| ensures nos'[k] in nos { assert nos'[k] in nos'; }
    StillLive(before, s.Now(), At(occs, -lit), At(s.occs, -lit), c);
  }

  lemma NotAmong(maxVar: nat, s: State, occs: Occs, inactive: set<nat>, c: nat, lit: int)
    requires WellFormed(maxVar, s, occs, inactive) && c < |s.clauses| && lit in s.clauses[c].lits && IsLit(maxVar, lit)
    ensures c !in At(occs, -lit)
  {
    OccsOf(maxVar, s, occs, inactive, -lit);
    ClauseOf(maxVar, s, occs, inactive, c);
    NoClash(s.clauses[c].lits, lit, -lit);
  }

  lemma StillLive(s: State, t: State, list: seq<int>, list': seq<int>, c: nat)
    requires ListLive(s, list) && c !in list && forall k :: 0 <= k < |list'| ==> list'[k] in list
    requires |t.clauses| == |s.clauses| && forall d: nat :: d < |s.clauses| && d != c ==> t.clauses[d].garbage == s.clauses[d].garbage
    ensures ListLive(t, list')
  {
    forall k | 0 <= k < |list'| ensures 0 <= list'[k] && Live(t, list'[k]) {
      assert list'[k] in list;
      var i :| 0 <= i < |list| && list[i] == list'[k];
    }
  }

  /** The general case: filters candidates and tests each of them. */
  method BlockLiteralWithAtLeastTwoNegativeOccs(s: Solver, lit: int, minSize: nat, maxSize: nat)
    requires s.Valid() && s.Kept() && s.marks == {} && IsLit(s.maxVar, lit) && s.Active(lit) && Abs(lit) !in s.frozen
    requires LiveOnly(s.Now(), At(s.occs, -lit)) != []
    modifies s`clauses, s`occs, s`marks, s.stack
    ensures s.Valid() && s.Kept() && s.marks == {}
    ensures Dropped(old(s.Now()), s.Now(), AllDoomed(old(s.Now()), lit, minSize, maxSize))
  {
    ghost var before := s.Now();
    var largest := FlushNegatives(s, lit, maxSize);
    if largest > maxSize {
      TooLargeDoomsNone(before, lit, minSize, maxSize);
      return;
    }
    BlockFiltered(s, lit, minSize, maxSize);
  }

  /** Flushes the negative list; its largest size decides whether all are small enough. */
  method FlushNegatives(s: Solver, lit: int, ghost maxSize: nat) returns (largest: nat)
    requires s.Valid() && IsLit(s.maxVar, lit) && s.Active(lit)
    modifies s`occs
    ensures s.Valid() && At(s.occs, -lit) == LiveOnly(s.Now(), At(old(s.occs), -lit)) && ListLive(s.Now(), At(s.occs, -lit))
    ensures SmallAgainst(s.Now(), lit, maxSize) <==> largest <= maxSize
  {
    ghost var occs := s.occs;
    largest := FlushOccs(s, -lit);
    FlushedDecides(s.maxVar, s.Now(), occs, s.occs, s.inactive, lit, largest, maxSize);
  }

  /** What flushing the negative list decides. */
  lemma FlushedDecides(maxVar: nat, s: State, occs: Occs, occs': Occs, inactive: set<nat>, lit: int, largest: nat, maxSize: nat)
    requires WellFormed(maxVar, s, occs', inactive) && IsActive(s.units, inactive, lit) && IsLit(maxVar, lit)
    requires occs' == occs[-lit := LiveOnly(s, At(occs, -lit))] && IsLargest(s, At(occs', -lit), largest)
    ensures At(occs', -lit) == LiveOnly(s, At(occs, -lit)) && ListLive(s, At(occs', -lit))
    ensures SmallAgainst(s, lit, maxSize) <==> largest <= maxSize
  {
    LargestDecides(maxVar, s, occs', inactive, lit, largest, maxSize);
  }

  lemma TooLargeDoomsNone(s: State, lit: int, minSize: nat, maxSize: nat)
    requires !SmallAgainst(s, lit, maxSize)
    ensures Dropped(s, s, AllDoomed(s, lit, minSize, maxSize))
  {
    NoneDoomed(s, lit, minSize, maxSize);
  }

  /** The part behind the size check: the negative list is flushed, no clause in it too large. */
  method BlockFiltered(s: Solver, lit: int, minSize: nat, maxSize: nat)
    requires s.Valid() && s.Kept() && s.marks == {} && IsLit(s.maxVar, lit) && s.Active(lit) && Abs(lit) !in s.frozen
    requires ListLive(s.Now(), At(s.occs, -lit)) && At(s.occs, -lit) != [] && SmallAgainst(s.Now(), lit, maxSize)
    modifies s`clauses, s`occs, s`marks, s.stack
    ensures s.Valid() && s.Kept() && s.marks == {}
    ensures Dropped(old(s.Now()), s.Now(), AllDoomed(old(s.Now()), lit, minSize, maxSize))
  {
    ghost var before := s.Now();
    DoomedAreCandidates(s.maxVar, before, s.occs, s.inactive, lit, minSize, maxSize);
    var candidates := BlockCandidates(s, lit, minSize, maxSize);
    if candidates == [] {
      NoneDoomed(before, lit, minSize, maxSize);
      return;
    }
    if |candidates| > 1 {
      var impossible := BlockImpossible(s, lit, candidates);
      if impossible {
        ImpossibleDoomsNone(s.maxVar, before, s.occs, s.inactive, candidates, lit, minSize, maxSize);
        return;
      }
    }
    var blocked := BlockAllCandidates(s, candidates, lit, minSize, maxSize);
    if blocked { var _ := FlushOccs(s, lit); }
  }

  /** Tests the candidates one after the other. */
  method BlockAllCandidates(s: Solver, candidates: seq<int>, lit: int, minSize: nat, maxSize: nat) returns (blocked: bool)
    requires s.Valid() && s.Kept() && s.marks == {} && IsLit(s.maxVar, lit) && s.Active(lit) && Abs(lit) !in s.frozen
    requires ListOk(s.Now(), lit, candidates) && ListLive(s.Now(), At(s.occs, -lit))
    requires Task(s.Now(), candidates, lit, minSize, maxSize)
    modifies s`clauses, s`occs, s`marks, s.stack
    ensures s.Valid() && s.Kept() && s.marks == {}
    ensures Dropped(old(s.Now()), s.Now(), AllDoomed(old(s.Now()), lit, minSize, maxSize))
  {
    ghost var before, occs, gone: set<nat> := s.Now(), s.occs, {};
    blocked := false;
    SweepStart(before, candidates, lit, minSize, maxSize);
    for i := 0 to |candidates|
      invariant s.Valid() && s.Kept() && s.marks == {} && s.Active(lit)
      invariant ListOk(s.Now(), lit, candidates) && ListLive(s.Now(), At(s.occs, -lit))
      invariant Sweeping(before, s.Now(), gone, candidates, i, lit, minSize, maxSize)
    {
      var done;
      done, gone := BlockNextCandidate(s, candidates, i, lit, minSize, maxSize, before, occs, gone);
      blocked := blocked || done;
    }
    TaskDone(before, s.Now(), gone, candidates, lit, minSize, maxSize);
  }

  method BlockNextCandidate(s: Solver, candidates: seq<int>, i: nat, lit: int, minSize: nat, maxSize: nat,
                            ghost before: State, ghost occs: Occs, ghost gone: set<nat>)
    returns (done: bool, ghost gone': set<nat>)
    requires s.Valid() && s.Kept() && s.marks == {} && IsLit(s.maxVar, lit) && s.Active(lit) && Abs(lit) !in s.frozen
    requires ListOk(s.Now(), lit, candidates) && ListLive(s.Now(), At(s.occs, -lit)) && i < |candidates|
    requires WellFormed(s.maxVar, before, occs, s.inactive) && Task(before, candidates, lit, minSize, maxSize)
    requires Sweeping(before, s.Now(), gone, candidates, i, lit, minSize, maxSize)
    modifies s`clauses, s`occs, s`marks, s.stack
    ensures s.Valid() && s.Kept() && s.marks == {}
    ensures ListOk(s.Now(), lit, candidates) && ListLive(s.Now(), At(s.occs, -lit))
    ensures Sweeping(before, s.Now(), gone', candidates, i + 1, lit, minSize, maxSize)
  {
    ghost var now := s.Now();
    if s.clauses[candidates[i]].garbage {
      SweepSkip(before, now, gone, candidates, i, lit, minSize, maxSize);
      return false, gone;
    }
    TaskParts(before, candidates, lit, minSize, maxSize);
    StillAdmissible(before, now, gone, candidates, minSize, maxSize);
    done := BlockCandidate(s, candidates[i], lit);
    ListPermuted(now, s.Now(), candidates, candidates[i], done, lit);
    SweepStep(s.maxVar, before, occs, s.inactive, now, s.Now(), gone, candidates, i, lit, minSize, maxSize, done);
    gone' := if done then gone + {candidates[i] as nat} else gone;
  }

  /** The largest clause against the literal decides whether all are small enough. */
  lemma LargestDecides(maxVar: nat, s: State, occs: Occs, inactive: set<nat>, lit: int, largest: nat, maxSize: nat)
    requires WellFormed(maxVar, s, occs, inactive) && IsActive(s.units, inactive, lit) && IsLit(maxVar, lit)
    requires ListLive(s, At(occs, -lit)) && IsLargest(s, At(occs, -lit), largest)
    ensures SmallAgainst(s, lit, maxSize) <==> largest <= maxSize
  {
    var list := At(occs, -lit);
    OccsOf(maxVar, s, occs, inactive, -lit);
    if largest <= maxSize {
      forall d: nat | Live(s, d) && -lit in s.clauses[d].lits ensures |s.clauses[d].lits| <= maxSize {
        IsConnected(maxVar, s, occs, inactive, -lit, d);
        var k :| 0 <= k < |list| && list[k] == d;
        assert SizeOf(s, list[k]) <= largest;
      }
    } else {
      var k :| 0 <= k < |list| && SizeOf(s, list[k]) == largest;
      assert Live(s, list[k]) && -lit in s.clauses[list[k]].lits;
    }
  }

  lemma DoomedAreCandidates(maxVar: nat, s: State, occs: Occs, inactive: set<nat>, lit: int, minSize: nat, maxSize: nat)
    requires WellFormed(maxVar, s, occs, inactive) && IsActive(s.units, inactive, lit) && IsLit(maxVar, lit)
    requires ListLive(s, At(occs, -lit)) && At(occs, -lit) != []
    ensures forall c: nat :: Doomed(s, c, lit, minSize, maxSize) ==>
              c in At(occs, lit) && IsCandidate(s, c, lit, minSize, maxSize, At(occs, -lit))
  {
    var nos := At(occs, -lit);
    OccsOf(maxVar, s, occs, inactive, -lit);
    DoomedAreListed(maxVar, s, occs, inactive, lit, minSize, maxSize);
    forall c: nat | Doomed(s, c, lit, minSize, maxSize) ensures IsCandidate(s, c, lit, minSize, maxSize, nos) {
      var d := nos[0];
      assert Live(s, d) && -lit in s.clauses[d].lits;
      var l :| l in s.clauses[d].lits && l != -lit && -l in s.clauses[c].lits;
      var i :| 0 <= i < |s.clauses[c].lits| && s.clauses[c].lits[i] == -l;
      assert l in LitsOf(s, nos) by { assert l in s.clauses[nos[0]].lits; }
      assert Hits(s.clauses[c].lits[i], lit, LitsOf(s, nos));
    }
  }

  lemma ImpossibleDoomsNone(maxVar: nat, s: State, occs: Occs, inactive: set<nat>, candidates: seq<nat>, lit: int, minSize: nat, maxSize: nat)
    requires WellFormed(maxVar, s, occs, inactive) && IsActive(s.units, inactive, lit) && IsLit(maxVar, lit)
    requires ListLive(s, At(occs, -lit))
    requires forall k :: 0 <= k < |candidates| ==> !AllClash(s, candidates[k], At(occs, -lit), lit)
    requires forall c: nat :: Doomed(s, c, lit, minSize, maxSize) ==> c in candidates
    ensures Dropped(s, s, AllDoomed(s, lit, minSize, maxSize))
  {
    forall c: nat ensures !Doomed(s, c, lit, minSize, maxSize) {
      if Doomed(s, c, lit, minSize, maxSize) {
        var k :| 0 <= k < |candidates| && candidates[k] == c;
        AllClashIsBlocked(maxVar, s, occs, inactive, c, lit);
        assert false;
      }
    }
    NoneDoomed(s, lit, minSize, maxSize);
  }

  // ------------------------------------------------------------ dispatch

  /** The number of live clauses in a list. */
  function LiveCount(s: State, list: seq<int>): nat { |LiveOnly(s, list)| }

  lemma LiveCountZero(s: State, list: seq<int>)
    requires LiveCount(s, list) == 0
    ensures forall k :: 0 <= k < |list| && list[k] >= 0 ==> !Live(s, list[k])
  {
    forall k | 0 <= k < |list| && list[k] >= 0 ensures !Live(s, list[k]) {
      assert list[k] in list;
      assert list[k] !in LiveOnly(s, list);
    }
  }

  lemma LiveCountOne(s: State, list: seq<int>)
    requires LiveCount(s, list) == 1
    ensures HasOnlyLive(s, list)
  {
    var only := LiveOnly(s, list)[0];
    assert LiveOnly(s, list) == [only];
    assert only in list by { assert LiveOnly(s, list)[0] in list; }
    var at :| 0 <= at < |list| && list[at] == only;
    forall k | 0 <= k < |list| && 0 <= list[k] && Live(s, list[k]) ensures list[k] == only {
      assert list[k] in list;
      assert list[k] in LiveOnly(s, list);
    }
    assert OnlyLive(s, list, list[at]);
  }

  /** What blocking on a literal does: nothing if it occurs negated too often, all clauses go
      with a pure literal, and otherwise exactly the blocked ones of admissible size. */
  ghost predicate Blocking(before: State, occs: Occs, inactive: set<nat>, now: State, inactive': set<nat>, frozen: set<nat>,
                           lit: int, occLimit: nat, minSize: nat, maxSize: nat) {
    var negative := LiveCount(before, At(occs, -lit));
    if !IsActive(before.units, inactive, lit) || Abs(lit) in frozen || negative > occLimit then now == before && inactive' == inactive
    else if negative == 0 then Dropped(before, now, WithLit(before, lit)) && inactive' == inactive + {Abs(lit)}
    else Dropped(before, now, AllDoomed(before, lit, minSize, maxSize)) && inactive' == inactive
  }

  /** Removes clauses blocked on a literal: all with a pure literal, and otherwise exactly
      the blocked ones of admissible size. No model is lost and every remaining model
      extends to the original. */
  method BlockLiteral(s: Solver, lit: int, occLimit: nat, minSize: nat, maxSize: nat)
    requires s.Valid() && s.Kept() && s.marks == {} && IsLit(s.maxVar, lit)
    modifies s`clauses, s`occs, s`marks, s`inactive, s.stack
    ensures s.Valid() && s.Kept() && s.marks == {}
    ensures Blocking(old(s.Now()), old(s.occs), old(s.inactive), s.Now(), s.inactive, s.frozen, lit, occLimit, minSize, maxSize)
  {
    if !s.Active(lit) || Abs(lit) in s.frozen { return; }
    ghost var now := s.Now();
    OccsOf(s.maxVar, now, s.occs, s.inactive, lit);
    OccsOf(s.maxVar, now, s.occs, s.inactive, -lit);
    var negative := LiveCount(s.Now(), s.occs[-lit]);
    var positive := LiveCount(s.Now(), s.occs[lit]);
    if negative > occLimit { return; }
    if negative == 0 {
      LiveCountZero(now, s.occs[-lit]);
      BlockPureLiteral(s, lit);
    } else if positive == 0 {
      LiveCountZero(now, s.occs[lit]);
      DoomedAreListed(s.maxVar, now, s.occs, s.inactive, lit, minSize, maxSize);
      NoneDoomed(now, lit, minSize, maxSize);
    } else if negative == 1 {
      LiveCountOne(now, s.occs[-lit]);
      BlockLiteralWithOneNegativeOcc(s, lit, minSize, maxSize);
    } else {
      BlockLiteralWithAtLeastTwoNegativeOccs(s, lit, minSize, maxSize);
    }
  }
}
