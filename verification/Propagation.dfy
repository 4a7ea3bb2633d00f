/** One run of unit propagation in the proof checker, on values: what the watch
    invariant says while a literal is processed, and how each step keeps it. */
module Propagation {
  import opened Literals
  import opened WatchedClauses

  ghost predicate TrailOk(vals: set<int>, trail: seq<int>) {
    && (forall l :: l in vals <==> l in trail) && (forall l :: l in vals ==> l != 0 && -l !in vals)
    && (forall i, j :: 0 <= i < j < |trail| ==> trail[i] != trail[j])
  }

  ghost predicate HasTrue(c: CheckerClause, trail: seq<int>) { exists l :: l in c.literals && l in trail }

  /** Wherever a watched literal is false since the first b trail literals, the
      clause has a literal that is true among the first t. */
  ghost predicate Settled(clauses: seq<CheckerClause>, trail: seq<int>, b: nat, t: nat)
    requires b <= |trail| && t <= |trail|
  {
    forall c: nat, l {:trigger Watched(clauses[c], l)} ::
      Live(clauses, c) && Watched(clauses[c], l) && -l in trail[..b] ==> HasTrue(clauses[c], trail[..t])
  }

  /** The first k watches of a list belong to satisfied clauses. */
  ghost predicate PrefixSettled(clauses: seq<CheckerClause>, ws: seq<Watch>, trail: seq<int>, k: nat) {
    k <= |ws| && forall j :: 0 <= j < k && Live(clauses, ws[j].clause) ==> HasTrue(clauses[ws[j].clause], trail)
  }

  /** Processing literal number n of the trail, k watches into its list, on top of
      the n0 literals that were settled when propagation began. Kept folded. */
  ghost predicate Running(clauses: seq<CheckerClause>, watchers: Watchers, vals: set<int>, trail: seq<int>, n0: nat, n: nat, k: nat) {
    forall u {:trigger Unfold(u)} :: Unfold(u) && u == 3 ==>
      && Store(clauses, watchers) && TrailOk(vals, trail) && n0 <= n < |trail|
      && Settled(clauses, trail, n0, n0) && Settled(clauses, trail, n, |trail|)
      && PrefixSettled(clauses, At(watchers, -trail[n]), trail, k)
  }

  /** Between two literals: the first n are settled. */
  ghost predicate Resting(clauses: seq<CheckerClause>, watchers: Watchers, vals: set<int>, trail: seq<int>, n0: nat, n: nat) {
    forall u {:trigger Unfold(u)} :: Unfold(u) && u == 3 ==>
      && Store(clauses, watchers) && TrailOk(vals, trail) && n0 <= n <= |trail|
      && Settled(clauses, trail, n0, n0) && Settled(clauses, trail, n, |trail|)
  }

  lemma Begin(clauses: seq<CheckerClause>, watchers: Watchers, vals: set<int>, trail: seq<int>, n0: nat, n: nat)
    requires Resting(clauses, watchers, vals, trail, n0, n) && n < |trail|
    ensures Running(clauses, watchers, vals, trail, n0, n, 0)
  {
    assert Unfold(3);
  }

  lemma RestingIs(clauses: seq<CheckerClause>, watchers: Watchers, vals: set<int>, trail: seq<int>, n0: nat, n: nat)
    requires Resting(clauses, watchers, vals, trail, n0, n)
    ensures Store(clauses, watchers) && TrailOk(vals, trail) && n0 <= n <= |trail|
  {
    assert Unfold(3);
  }

  /** Giving up in the middle leaves the literal unsettled. */
  lemma Interrupt(clauses: seq<CheckerClause>, watchers: Watchers, vals: set<int>, trail: seq<int>, n0: nat, n: nat, k: nat)
    requires Running(clauses, watchers, vals, trail, n0, n, k)
    ensures Resting(clauses, watchers, vals, trail, n0, n)
  {
    assert Unfold(3);
  }

  lemma RunningIs(clauses: seq<CheckerClause>, watchers: Watchers, vals: set<int>, trail: seq<int>, n0: nat, n: nat, k: nat)
    requires Running(clauses, watchers, vals, trail, n0, n, k)
    ensures Store(clauses, watchers) && TrailOk(vals, trail) && n0 <= n < |trail| && k <= |At(watchers, -trail[n])|
    ensures trail[n] in vals && -trail[n] !in vals
  {
    assert Unfold(3);
    assert trail[n] in trail;
  }

  /** When the whole list is settled, so is the literal. */
  lemma End(clauses: seq<CheckerClause>, watchers: Watchers, vals: set<int>, trail: seq<int>, n0: nat, n: nat, k: nat)
    requires Running(clauses, watchers, vals, trail, n0, n, k) && n < |trail| && k == |At(watchers, -trail[n])|
    ensures Resting(clauses, watchers, vals, trail, n0, n + 1)
  {
    assert Unfold(3);
    assert trail[..|trail|] == trail;
    ListSettles(clauses, watchers, trail, n);
    assert Settled(clauses, trail, n + 1, |trail|);
  }

  lemma ListSettles(clauses: seq<CheckerClause>, watchers: Watchers, trail: seq<int>, n: nat)
    requires Store(clauses, watchers) && n < |trail| && Settled(clauses, trail, n, |trail|)
    requires PrefixSettled(clauses, At(watchers, -trail[n]), trail, |At(watchers, -trail[n])|)
    ensures Settled(clauses, trail, n + 1, |trail|)
  {
    var ws := At(watchers, -trail[n]);
    assert trail[..|trail|] == trail && trail[..n + 1] == trail[..n] + [trail[n]];
    forall c: nat, l | Live(clauses, c) && Watched(clauses[c], l) && -l in trail[..n + 1] ensures HasTrue(clauses[c], trail[..|trail|]) {
      if -l !in trail[..n] {
        ListedAt(clauses, watchers, c, l);
        var j :| 0 <= j < |ws| && ws[j].clause == c;
        assert Live(clauses, ws[j].clause);
      }
    }
  }

  // ------------------------------------------------------ the small steps

  lemma KeepWatch(clauses: seq<CheckerClause>, watchers: Watchers, vals: set<int>, trail: seq<int>, n0: nat, n: nat, k: nat)
    requires Running(clauses, watchers, vals, trail, n0, n, k) && n < |trail| && k < |At(watchers, -trail[n])|
    requires var c := At(watchers, -trail[n])[k].clause; Live(clauses, c) ==> HasTrue(clauses[c], trail)
    ensures Running(clauses, watchers, vals, trail, n0, n, k + 1)
  {
    assert Unfold(3);
  }

  lemma HasTrueMore(c: CheckerClause, a: seq<int>, b: seq<int>)
    requires HasTrue(c, a) && forall l :: l in a ==> l in b
    ensures HasTrue(c, b)
  {
    var l :| l in c.literals && l in a;
  }

  lemma AssignSettles(clauses: seq<CheckerClause>, trail: seq<int>, b: nat, t: nat, l: int)
    requires b <= |trail| && t <= |trail| && Settled(clauses, trail, b, t)
    ensures Settled(clauses, trail + [l], b, t) && Settled(clauses, trail + [l], b, |trail| + 1)
  {
    var trail' := trail + [l];
    assert trail'[..b] == trail[..b] && trail'[..t] == trail[..t] && trail'[..|trail| + 1] == trail';
    forall c: nat, x | Live(clauses, c) && Watched(clauses[c], x) && -x in trail'[..b]
      ensures HasTrue(clauses[c], trail'[..t]) && HasTrue(clauses[c], trail'[..|trail| + 1])
    {
      HasTrueMore(clauses[c], trail[..t], trail');
    }
  }

  /** Assigning a literal. */
  lemma AssignStep(clauses: seq<CheckerClause>, watchers: Watchers, vals: set<int>, trail: seq<int>, n0: nat, n: nat, k: nat, l: int)
    requires Running(clauses, watchers, vals, trail, n0, n, k) && l != 0 && l !in vals && -l !in vals
    ensures Running(clauses, watchers, vals + {l}, trail + [l], n0, n, k)
  {
    assert Unfold(3);
    AssignSettles(clauses, trail, n0, n0, l);
    AssignSettles(clauses, trail, n, |trail|, l);
    var ws := At(watchers, -trail[n]);
    forall j | 0 <= j < k && Live(clauses, ws[j].clause) ensures HasTrue(clauses[ws[j].clause], trail + [l]) {
      HasTrueMore(clauses[ws[j].clause], trail, trail + [l]);
    }
  }

  lemma AssignResting(clauses: seq<CheckerClause>, watchers: Watchers, vals: set<int>, trail: seq<int>, n0: nat, n: nat, l: int)
    requires Resting(clauses, watchers, vals, trail, n0, n) && l != 0 && l !in vals && -l !in vals
    ensures Resting(clauses, watchers, vals + {l}, trail + [l], n0, n)
  {
    assert Unfold(3);
    AssignSettles(clauses, trail, n0, n0, l);
    AssignSettles(clauses, trail, n, |trail|, l);
  }

  /** Dropping a watch of a garbage clause. */
  lemma DropStep(clauses: seq<CheckerClause>, watchers: Watchers, vals: set<int>, trail: seq<int>, n0: nat, n: nat, k: nat)
    requires Running(clauses, watchers, vals, trail, n0, n, k) && n < |trail| && -trail[n] in watchers && k < |watchers[-trail[n]]|
    requires !Live(clauses, watchers[-trail[n]][k].clause)
    ensures Running(clauses, watchers[-trail[n] := RemoveAt(watchers[-trail[n]], k)], vals, trail, n0, n, k)
  {
    assert Unfold(3);
    DropGarbage(clauses, watchers, -trail[n], k);
  }

  lemma BlitStep(clauses: seq<CheckerClause>, watchers: Watchers, vals: set<int>, trail: seq<int>, n0: nat, n: nat, k: nat, blit: int)
    requires Running(clauses, watchers, vals, trail, n0, n, k) && n < |trail| && -trail[n] in watchers && k < |watchers[-trail[n]]|
    requires var c := watchers[-trail[n]][k].clause; c < |clauses| && blit in clauses[c].literals && blit != -trail[n]
    ensures var ws := watchers[-trail[n]]; Running(clauses, watchers[-trail[n] := ws[k := ws[k].(blit := blit)]], vals, trail, n0, n, k)
  {
    assert Unfold(3);
    UpdateBlit(clauses, watchers, -trail[n], k, blit);
    var ws := watchers[-trail[n]];
    BlitPrefix(clauses, ws, trail, k, ws[k].(blit := blit));
  }

  lemma BlitPrefix(clauses: seq<CheckerClause>, ws: seq<Watch>, trail: seq<int>, k: nat, w: Watch)
    requires PrefixSettled(clauses, ws, trail, k) && k < |ws|
    ensures PrefixSettled(clauses, ws[k := w], trail, k)
  {
    assert forall j :: 0 <= j < k ==> ws[k := w][j] == ws[j];
  }

  lemma HasTrueReordered(c: CheckerClause, d: CheckerClause, trail: seq<int>)
    requires HasTrue(c, trail) && forall l :: l in d.literals <==> l in c.literals
    ensures HasTrue(d, trail)
  {
    var l :| l in c.literals && l in trail;
  }

  /** Writing the other watched literal first. */
  lemma OrderStep(clauses: seq<CheckerClause>, watchers: Watchers, vals: set<int>, trail: seq<int>, n0: nat, n: nat, k: nat, c: nat, lit: int, other: int)
    requires Running(clauses, watchers, vals, trail, n0, n, k) && c < |clauses|
    requires Watched(clauses[c], lit) && Watched(clauses[c], other) && lit != other
    ensures var d := clauses[c].(literals := clauses[c].literals[0 := other][1 := lit]);
      Running(clauses[c := d], watchers, vals, trail, n0, n, k) && Reordered(clauses[c], d)
  {
    assert Unfold(3);
    var d := clauses[c].(literals := clauses[c].literals[0 := other][1 := lit]);
    var clauses' := clauses[c := d];
    OrderWatched(clauses, watchers, c, lit, other);
    forall e: nat, l | Live(clauses', e) && Watched(clauses'[e], l) ensures Live(clauses, e) && Watched(clauses[e], l) { }
    ReorderedSettled(clauses, clauses', trail, n0, n0, c);
    ReorderedSettled(clauses, clauses', trail, n, |trail|, c);
    ReorderedPrefix(clauses, clauses', At(watchers, -trail[n]), trail, k, c);
  }

  lemma ReorderedSettled(clauses: seq<CheckerClause>, clauses': seq<CheckerClause>, trail: seq<int>, b: nat, t: nat, c: nat)
    requires b <= |trail| && t <= |trail| && Settled(clauses, trail, b, t) && |clauses'| == |clauses| && c < |clauses|
    requires forall e: nat :: e < |clauses| && e != c ==> clauses'[e] == clauses[e]
    requires clauses'[c].garbage == clauses[c].garbage && forall l :: l in clauses'[c].literals <==> l in clauses[c].literals
    requires forall l :: Watched(clauses'[c], l) && -l in trail[..b] ==> Watched(clauses[c], l)
    ensures Settled(clauses', trail, b, t)
  {
    forall e: nat, l | Live(clauses', e) && Watched(clauses'[e], l) && -l in trail[..b] ensures HasTrue(clauses'[e], trail[..t]) {
      assert Live(clauses, e) && Watched(clauses[e], l);
      if e == c { HasTrueReordered(clauses[c], clauses'[c], trail[..t]); }
    }
  }

  lemma ReorderedPrefix(clauses: seq<CheckerClause>, clauses': seq<CheckerClause>, ws: seq<Watch>, trail: seq<int>, k: nat, c: nat)
    requires PrefixSettled(clauses, ws, trail, k) && |clauses'| == |clauses| && c < |clauses|
    requires forall e: nat :: e < |clauses| && e != c ==> clauses'[e] == clauses[e]
    requires clauses'[c].garbage == clauses[c].garbage && forall l :: l in clauses'[c].literals <==> l in clauses[c].literals
    ensures PrefixSettled(clauses', ws, trail, k)
  {
    forall j | 0 <= j < k && Live(clauses', ws[j].clause) ensures HasTrue(clauses'[ws[j].clause], trail) {
      assert Live(clauses, ws[j].clause);
      if ws[j].clause == c { HasTrueReordered(clauses[c], clauses'[c], trail); }
    }
  }

  /** Moving a watch to a literal that is not false keeps clauses settled. */
  lemma MovedSettled(clauses: seq<CheckerClause>, trail: seq<int>, b: nat, t: nat, c: nat, i: nat)
    requires b <= |trail| && t <= |trail| && Settled(clauses, trail, b, t) && c < |clauses| && ClauseOk(clauses[c])
    requires 2 <= i < |clauses[c].literals| && -clauses[c].literals[i] !in trail
    ensures Settled(clauses[c := MovedClause(clauses[c], i)], trail, b, t)
  {
    MovedClauseOk(clauses[c], i);
    assert forall l :: l in trail[..b] ==> l in trail;
    ReorderedSettled(clauses, clauses[c := MovedClause(clauses[c], i)], trail, b, t, c);
  }

  lemma MovedPrefix(clauses: seq<CheckerClause>, ws: seq<Watch>, trail: seq<int>, k: nat, c: nat, i: nat)
    requires PrefixSettled(clauses, ws, trail, k) && k < |ws| && c < |clauses| && ClauseOk(clauses[c]) && 2 <= i < |clauses[c].literals|
    ensures PrefixSettled(clauses[c := MovedClause(clauses[c], i)], RemoveAt(ws, k), trail, k)
  {
    MovedClauseOk(clauses[c], i);
    ReorderedPrefix(clauses, clauses[c := MovedClause(clauses[c], i)], ws, trail, k, c);
  }

  /** Moving the watch to a literal that is not false. */
  lemma MoveStep(clauses: seq<CheckerClause>, watchers: Watchers, vals: set<int>, trail: seq<int>, n0: nat, n: nat, k: nat, i: nat,
                 lit: int, c: nat, r: int)
    requires Running(clauses, watchers, vals, trail, n0, n, k) && n < |trail| && lit == -trail[n] && lit in watchers && k < |watchers[lit]|
    requires c == watchers[lit][k].clause && Live(clauses, c) && 2 <= i < |clauses[c].literals| && clauses[c].literals[1] == lit
    requires r == clauses[c].literals[i] && -r !in vals
    ensures r != lit
    ensures Running(clauses[c := MovedClause(clauses[c], i)], MovedWatchers(watchers, lit, k, r, Watch(lit, |clauses[c].literals|, c)), vals, trail, n0, n, k)
    ensures At(MovedWatchers(watchers, lit, k, r, Watch(lit, |clauses[c].literals|, c)), lit) == RemoveAt(watchers[lit], k)
  {
    assert Unfold(3);
    ClauseAt(clauses, watchers, c);
    MoveWatch(clauses, watchers, lit, k, i);
    assert trail[n] in trail;
    MovedSettled(clauses, trail, n0, n0, c, i);
    MovedSettled(clauses, trail, n, |trail|, c, i);
    MovedPrefix(clauses, watchers[lit], trail, k, c, i);
  }

  // -------------------------------------------------------- entailment

  /** Propagation uses the live clauses, and binary ones until they are freed. */
  predicate InPlay(c: CheckerClause) { !c.freed && (!c.garbage || |c.literals| == 2) }

  ghost predicate SatAll(m: Model, clauses: seq<CheckerClause>) {
    forall c {:trigger clauses[c]} :: 0 <= c < |clauses| && InPlay(clauses[c]) ==> SomeTrue(m, clauses[c].literals)
  }

  /** The assignments that satisfy the clauses in play and the trail. */
  ghost function Holding(clauses: seq<CheckerClause>, trail: seq<int>): iset<Model> {
    iset m: Model | SatAll(m, clauses) && forall l {:trigger True(m, l)} :: l in trail ==> True(m, l)
  }

  /** Those that remain once the garbage is freed. */
  ghost function Remaining(clauses: seq<CheckerClause>, trail: seq<int>): iset<Model> { Holding(Freed(clauses), trail) }

  /** All assignments in M satisfy the clauses in play and the trail; and only literals of
      U occur. */
  ghost predicate Facts(M: iset<Model>, U: set<int>, clauses: seq<CheckerClause>, trail: seq<int>) {
    && (forall m {:trigger m in M} :: m in M ==> SatAll(m, clauses) && forall l {:trigger True(m, l)} :: l in trail ==> True(m, l))
    && (forall c {:trigger clauses[c]} :: 0 <= c < |clauses| ==> forall l :: l in clauses[c].literals ==> l in U)
    && (forall l :: l in trail ==> l in U)
  }

  lemma FactsAssign(M: iset<Model>, U: set<int>, clauses: seq<CheckerClause>, trail: seq<int>, lit: int)
    requires Facts(M, U, clauses, trail) && lit in U && forall m :: m in M ==> True(m, lit)
    ensures Facts(M, U, clauses, trail + [lit])
  {
  }

  /** If all other literals are false, the last one follows. */
  lemma UnitFollows(M: iset<Model>, U: set<int>, clauses: seq<CheckerClause>, trail: seq<int>, c: nat, l: int)
    requires Facts(M, U, clauses, trail) && c < |clauses| && InPlay(clauses[c]) && l in clauses[c].literals
    requires forall x :: x in clauses[c].literals && x != l ==> x != 0 && -x in trail
    ensures l in U && forall m :: m in M ==> True(m, l)
  {
    forall m | m in M ensures True(m, l) {
      assert SomeTrue(m, clauses[c].literals);
      var x :| x in clauses[c].literals && True(m, x);
      assert x != l ==> True(m, -x);
    }
  }

  lemma ConflictFollows(M: iset<Model>, U: set<int>, clauses: seq<CheckerClause>, trail: seq<int>, c: nat)
    requires Facts(M, U, clauses, trail) && c < |clauses| && InPlay(clauses[c])
    requires forall x :: x in clauses[c].literals ==> x != 0 && -x in trail
    ensures M == iset{}
  {
    forall m ensures m !in M {
      assert m in M ==> SomeTrue(m, clauses[c].literals);
      assert forall x :: m in M && x in clauses[c].literals ==> True(m, -x);
    }
  }

  lemma FactsReordered(M: iset<Model>, U: set<int>, clauses: seq<CheckerClause>, trail: seq<int>, c: nat, d: CheckerClause)
    requires Facts(M, U, clauses, trail) && c < |clauses| && (forall l :: l in d.literals <==> l in clauses[c].literals)
    requires d.garbage == clauses[c].garbage && d.freed == clauses[c].freed && |d.literals| == |clauses[c].literals|
    ensures Facts(M, U, clauses[c := d], trail)
  {
    var after := clauses[c := d];
    forall m | m in M ensures SatAll(m, after) {
      forall e | 0 <= e < |clauses| && InPlay(after[e]) ensures SomeTrue(m, after[e].literals) {
        assert SomeTrue(m, clauses[e].literals);
        if e == c {
          var l :| l in clauses[c].literals && True(m, l);
          assert l in d.literals;
        }
      }
    }
  }

  /** The trail cannot outgrow the literals. */
  lemma TrailFits(M: iset<Model>, U: set<int>, clauses: seq<CheckerClause>, vals: set<int>, trail: seq<int>)
    requires Facts(M, U, clauses, trail) && TrailOk(vals, trail)
    ensures |trail| <= |U|
  {
    TrailCount(trail);
    var known := set l | l in trail;
    assert U == known + (U - known);
  }

  lemma {:induction false} TrailCount(trail: seq<int>)
    requires forall i, j :: 0 <= i < j < |trail| ==> trail[i] != trail[j]
    ensures |set l | l in trail| == |trail|
  {
    if trail != [] {
      var n := |trail| - 1;
      TrailCount(trail[..n]);
      assert (set l | l in trail) == (set l | l in trail[..n]) + {trail[n]};
    }
  }

  // ----------------------------------------------- the invariant at rest

  /** Nothing is left to propagate, so no live clause is false or unit. */
  lemma NothingFalsifiedOrUnit(clauses: seq<CheckerClause>, watchers: Watchers, vals: set<int>, trail: seq<int>, n0: nat, c: nat)
    requires Resting(clauses, watchers, vals, trail, n0, |trail|) && Live(clauses, c)
    ensures HasTrue(clauses[c], trail)
         || exists i, j :: 0 <= i < j < |clauses[c].literals| && clauses[c].literals[i] !in vals && -clauses[c].literals[i] !in vals
              && clauses[c].literals[j] !in vals && -clauses[c].literals[j] !in vals
  {
    assert Unfold(3);
    assert trail[..|trail|] == trail;
    var lits := clauses[c].literals;
    ClauseAt(clauses, watchers, c);
    if !HasTrue(clauses[c], trail) {
      assert Watched(clauses[c], lits[0]) && Watched(clauses[c], lits[1]);
      assert lits[0] in lits && lits[1] in lits;
    }
  }

  /** Taking back everything after the first n0 literals restores the invariant at
      that point, however the watches moved meanwhile. */
  lemma BackAtBase(clauses: seq<CheckerClause>, watchers: Watchers, vals: set<int>, trail: seq<int>, n0: nat, n: nat)
    requires Resting(clauses, watchers, vals, trail, n0, n) && n0 <= |trail|
    ensures Resting(clauses, watchers, (set l | l in trail[..n0]), trail[..n0], n0, n0)
  {
    assert Unfold(3);
    var trail' := trail[..n0];
    var vals' := set l | l in trail';
    assert trail'[..n0] == trail[..n0];
    assert forall l :: l in trail' ==> l in trail;
    assert TrailOk(vals', trail');
    assert Settled(clauses, trail', n0, n0);
  }

  /** A fully propagated trail is a base of its own. */
  lemma SettledEverywhere(clauses: seq<CheckerClause>, watchers: Watchers, vals: set<int>, trail: seq<int>, n0: nat)
    requires Resting(clauses, watchers, vals, trail, n0, |trail|)
    ensures Resting(clauses, watchers, vals, trail, |trail|, |trail|)
  {
    assert Unfold(3);
  }

  /** A new clause whose watched literals are not false. */
  lemma AddClauseStep(clauses: seq<CheckerClause>, watchers: Watchers, vals: set<int>, trail: seq<int>, lits: seq<int>, id: int)
    requires Resting(clauses, watchers, vals, trail, |trail|, |trail|) && ClauseOk(CheckerClause(lits, false, false, id))
    requires -lits[0] !in vals && -lits[1] !in vals
    ensures Resting(clauses + [CheckerClause(lits, false, false, id)], WithWatches(watchers, lits, |clauses|), vals, trail, |trail|, |trail|)
  {
    assert Unfold(3);
    AddToStore(clauses, watchers, lits, id);
    var more := clauses + [CheckerClause(lits, false, false, id)];
    assert trail[..|trail|] == trail;
    forall c: nat, l | Live(more, c) && Watched(more[c], l) && -l in trail[..|trail|] ensures HasTrue(more[c], trail[..|trail|]) {
      if c < |clauses| { assert Live(clauses, c) && Watched(clauses[c], l); }
    }
    assert Settled(more, trail, |trail|, |trail|);
  }

  lemma GarbageStep(clauses: seq<CheckerClause>, watchers: Watchers, vals: set<int>, trail: seq<int>, d: nat)
    requires Resting(clauses, watchers, vals, trail, |trail|, |trail|) && d < |clauses|
    ensures Resting(clauses[d := clauses[d].(garbage := true)], watchers, vals, trail, |trail|, |trail|)
  {
    assert Unfold(3);
    GarbageInStore(clauses, watchers, d);
    var after := clauses[d := clauses[d].(garbage := true)];
    forall c: nat, l | Live(after, c) && Watched(after[c], l) && -l in trail[..|trail|] ensures HasTrue(after[c], trail[..|trail|]) {
      assert Live(clauses, c) && Watched(clauses[c], l);
    }
    assert Settled(after, trail, |trail|, |trail|);
  }

  lemma FlushStep(clauses: seq<CheckerClause>, watchers: Watchers, vals: set<int>, trail: seq<int>)
    requires Resting(clauses, watchers, vals, trail, |trail|, |trail|)
    ensures Resting(Freed(clauses), FlushedWatchers(clauses, watchers), vals, trail, |trail|, |trail|)
  {
    assert Unfold(3);
    FlushedStore(clauses, watchers);
    FreedSettled(clauses, trail, |trail|, |trail|);
  }

  lemma FreedSettled(clauses: seq<CheckerClause>, trail: seq<int>, b: nat, t: nat)
    requires b <= |trail| && t <= |trail| && Settled(clauses, trail, b, t)
    ensures Settled(Freed(clauses), trail, b, t)
  {
    forall c: nat, l | Live(Freed(clauses), c) && Watched(Freed(clauses)[c], l) && -l in trail[..b] ensures HasTrue(Freed(clauses)[c], trail[..t]) {
      assert Live(clauses, c) && Watched(clauses[c], l);
    }
  }
}
