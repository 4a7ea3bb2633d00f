/** The clause store of the proof checker: watched literals, the trail, and what
    each step of propagation keeps. */
module WatchedClauses {
  import opened Literals

  /** A deleted clause is garbage at first; its memory is freed by the next collection. */
  datatype CheckerClause = CheckerClause(literals: seq<int>, garbage: bool, freed: bool, id: int)

  /** A watch remembers another literal of the clause and the size of the clause. */
  datatype Watch = Watch(blit: int, size: nat, clause: nat)

  type Watchers = map<int, seq<Watch>>

  function At(watchers: Watchers, lit: int): seq<Watch> { if lit in watchers then watchers[lit] else [] }

  predicate Live(clauses: seq<CheckerClause>, c: nat) { c < |clauses| && !clauses[c].garbage }

  predicate Watched(c: CheckerClause, lit: int) { |c.literals| >= 2 && (c.literals[0] == lit || c.literals[1] == lit) }

  // ----------------------------------------------------- structure

  ghost predicate ClauseOk(c: CheckerClause) {
    && (c.freed ==> c.garbage) && |c.literals| >= 2 && (forall i :: 0 <= i < |c.literals| ==> c.literals[i] != 0)
    && (forall i, j :: 0 <= i < j < |c.literals| ==> c.literals[i] != c.literals[j] && c.literals[i] != -c.literals[j])
  }

  ghost predicate ClausesOk(clauses: seq<CheckerClause>) {
    forall c {:trigger clauses[c]} :: 0 <= c < |clauses| ==> ClauseOk(clauses[c])
  }

  /** A watch in the list of a literal belongs to a clause with both literals, that is not
      freed; in a live clause the literal is one of the first two. */
  ghost predicate WatchOk(clauses: seq<CheckerClause>, lit: int, w: Watch) {
    && w.clause < |clauses| && !clauses[w.clause].freed && w.size == |clauses[w.clause].literals|
    && lit in clauses[w.clause].literals && w.blit in clauses[w.clause].literals && w.blit != lit
    && (!clauses[w.clause].garbage ==> Watched(clauses[w.clause], lit))
  }

  ghost predicate ListOk(clauses: seq<CheckerClause>, lit: int, ws: seq<Watch>) {
    && (forall k :: 0 <= k < |ws| ==> WatchOk(clauses, lit, ws[k]))
    && (forall j, k :: 0 <= j < k < |ws| && Live(clauses, ws[j].clause) ==> ws[j].clause != ws[k].clause)
  }

  ghost predicate AllListsOk(clauses: seq<CheckerClause>, watchers: Watchers) {
    forall lit {:trigger At(watchers, lit)} :: ListOk(clauses, lit, At(watchers, lit))
  }

  ghost predicate Mentions(ws: seq<Watch>, c: nat) { exists k :: 0 <= k < |ws| && ws[k].clause == c }

  /** Every live clause hangs in the lists of its first two literals. */
  ghost predicate AllListed(clauses: seq<CheckerClause>, watchers: Watchers) {
    forall c: nat {:trigger Live(clauses, c)} :: Live(clauses, c) && |clauses[c].literals| >= 2 ==>
      Mentions(At(watchers, clauses[c].literals[0]), c) && Mentions(At(watchers, clauses[c].literals[1]), c)
  }

  /** Kept folded; lemmas that need a part say 'Unfold'. */
  ghost predicate Store(clauses: seq<CheckerClause>, watchers: Watchers) {
    && (forall n {:trigger Unfold(n)} :: Unfold(n) && n == 0 ==> ClausesOk(clauses))
    && (forall n {:trigger Unfold(n)} :: Unfold(n) && n == 1 ==> AllListsOk(clauses, watchers))
    && (forall n {:trigger Unfold(n)} :: Unfold(n) && n == 2 ==> AllListed(clauses, watchers))
  }

  ghost predicate Unfold(n: int) { true }

  lemma ClauseAt(clauses: seq<CheckerClause>, watchers: Watchers, c: nat)
    requires Store(clauses, watchers) && c < |clauses|
    ensures ClauseOk(clauses[c])
  {
    assert Unfold(0);
  }

  lemma ListAt(clauses: seq<CheckerClause>, watchers: Watchers, lit: int)
    requires Store(clauses, watchers)
    ensures ListOk(clauses, lit, At(watchers, lit))
  {
    assert Unfold(1);
  }

  lemma ListedAt(clauses: seq<CheckerClause>, watchers: Watchers, c: nat, lit: int)
    requires Store(clauses, watchers) && Live(clauses, c) && Watched(clauses[c], lit)
    ensures Mentions(At(watchers, lit), c)
  {
    assert Unfold(2);
  }

  // ------------------------------------------------------ changes of lists

  function RemoveAt(ws: seq<Watch>, k: nat): seq<Watch>
    requires k < |ws|
  {
    ws[..k] + ws[k + 1..]
  }

  lemma RemovedMentions(ws: seq<Watch>, k: nat, c: nat)
    requires k < |ws| && Mentions(ws, c) && c != ws[k].clause
    ensures Mentions(RemoveAt(ws, k), c)
  {
    var i :| 0 <= i < |ws| && ws[i].clause == c;
    var j := if i < k then i else i - 1;
    assert RemoveAt(ws, k)[j] == ws[i];
  }

  /** Removing a position shifts what follows. */
  lemma RemovedAt(ws: seq<Watch>, k: nat, i: nat)
    requires k < |ws| && i < |ws| - 1
    ensures RemoveAt(ws, k)[i] == ws[if i < k then i else i + 1]
  {
  }

  lemma ListRemoved(clauses: seq<CheckerClause>, lit: int, ws: seq<Watch>, k: nat)
    requires ListOk(clauses, lit, ws) && k < |ws|
    ensures ListOk(clauses, lit, RemoveAt(ws, k))
  {
    var r := RemoveAt(ws, k);
    forall i | 0 <= i < |r| ensures WatchOk(clauses, lit, r[i]) { RemovedAt(ws, k, i); }
    forall i, j | 0 <= i < j < |r| && Live(clauses, r[i].clause) ensures r[i].clause != r[j].clause {
      RemovedAt(ws, k, i);
      RemovedAt(ws, k, j);
    }
  }

  /** Dropping a watch of a garbage clause. */
  lemma DropGarbage(clauses: seq<CheckerClause>, watchers: Watchers, lit: int, k: nat)
    requires Store(clauses, watchers) && lit in watchers && k < |watchers[lit]|
    requires !Live(clauses, watchers[lit][k].clause)
    ensures Store(clauses, watchers[lit := RemoveAt(watchers[lit], k)])
  {
    var ws := watchers[lit];
    var watchers' := watchers[lit := RemoveAt(ws, k)];
    assert ClausesOk(clauses) by { assert Unfold(0); }
    forall l ensures ListOk(clauses, l, At(watchers', l)) {
      ListAt(clauses, watchers, l);
      if l == lit { ListRemoved(clauses, lit, ws, k); }
    }
    forall c: nat | Live(clauses, c) && |clauses[c].literals| >= 2
      ensures Mentions(At(watchers', clauses[c].literals[0]), c) && Mentions(At(watchers', clauses[c].literals[1]), c)
    {
      ListedAt(clauses, watchers, c, clauses[c].literals[0]);
      ListedAt(clauses, watchers, c, clauses[c].literals[1]);
      if clauses[c].literals[0] == lit || clauses[c].literals[1] == lit { RemovedMentions(ws, k, c); }
    }
  }

  /** Updating the remembered literal of a watch. */
  lemma UpdateBlit(clauses: seq<CheckerClause>, watchers: Watchers, lit: int, k: nat, blit: int)
    requires Store(clauses, watchers) && lit in watchers && k < |watchers[lit]|
    requires var c := watchers[lit][k].clause; c < |clauses| && blit in clauses[c].literals && blit != lit
    ensures Store(clauses, watchers[lit := watchers[lit][k := watchers[lit][k].(blit := blit)]])
  {
    var ws := watchers[lit];
    var ws' := ws[k := ws[k].(blit := blit)];
    var watchers' := watchers[lit := ws'];
    assert ClausesOk(clauses) by { assert Unfold(0); }
    ListAt(clauses, watchers, lit);
    UpdatedList(clauses, lit, ws, k, blit);
    forall l ensures ListOk(clauses, l, At(watchers', l)) { ListAt(clauses, watchers, l); }
    forall c: nat | Live(clauses, c) && |clauses[c].literals| >= 2
      ensures Mentions(At(watchers', clauses[c].literals[0]), c) && Mentions(At(watchers', clauses[c].literals[1]), c)
    {
      UpdatedListed(clauses, watchers, lit, ws', c, clauses[c].literals[0]);
      UpdatedListed(clauses, watchers, lit, ws', c, clauses[c].literals[1]);
    }
  }

  lemma UpdatedListed(clauses: seq<CheckerClause>, watchers: Watchers, lit: int, ws': seq<Watch>, c: nat, l: int)
    requires Store(clauses, watchers) && lit in watchers && |ws'| == |watchers[lit]|
    requires forall k :: 0 <= k < |ws'| ==> ws'[k].clause == watchers[lit][k].clause
    requires Live(clauses, c) && Watched(clauses[c], l)
    ensures Mentions(At(watchers[lit := ws'], l), c)
  {
    ListedAt(clauses, watchers, c, l);
    if l == lit { MentionsUpdated(watchers[lit], ws', c); }
  }

  lemma UpdatedList(clauses: seq<CheckerClause>, lit: int, ws: seq<Watch>, k: nat, blit: int)
    requires ListOk(clauses, lit, ws) && k < |ws| && blit in clauses[ws[k].clause].literals && blit != lit
    ensures ListOk(clauses, lit, ws[k := ws[k].(blit := blit)])
  {
    var ws' := ws[k := ws[k].(blit := blit)];
    forall i | 0 <= i < |ws'| ensures WatchOk(clauses, lit, ws'[i]) { assert WatchOk(clauses, lit, ws[i]); }
    forall i, j | 0 <= i < j < |ws'| && Live(clauses, ws'[i].clause) ensures ws'[i].clause != ws'[j].clause {
      assert ws'[i].clause == ws[i].clause && ws'[j].clause == ws[j].clause;
    }
  }

  lemma MentionsUpdated(ws: seq<Watch>, ws': seq<Watch>, c: nat)
    requires |ws'| == |ws| && forall k :: 0 <= k < |ws| ==> ws'[k].clause == ws[k].clause
    ensures Mentions(ws, c) ==> Mentions(ws', c)
  {
    if Mentions(ws, c) {
      var k :| 0 <= k < |ws| && ws[k].clause == c;
      assert ws'[k].clause == c;
    }
  }

  // --------------------------------------------------- changes of clauses

  /** Only the order of literals differs, and watched literals stay first. */
  ghost predicate Reordered(c: CheckerClause, d: CheckerClause) {
    && d.garbage == c.garbage && d.freed == c.freed && |d.literals| == |c.literals| && (forall l :: l in d.literals <==> l in c.literals)
    && (ClauseOk(c) ==> ClauseOk(d))
  }

  /** Putting the two watched literals in a given order. */
  lemma OrderWatched(clauses: seq<CheckerClause>, watchers: Watchers, c: nat, lit: int, other: int)
    requires Store(clauses, watchers) && c < |clauses| && Watched(clauses[c], lit) && Watched(clauses[c], other) && lit != other
    ensures var d := clauses[c].(literals := clauses[c].literals[0 := other][1 := lit]);
      Reordered(clauses[c], d) && Store(clauses[c := d], watchers)
  {
    var C := clauses[c];
    var d := C.(literals := C.literals[0 := other][1 := lit]);
    ClauseAt(clauses, watchers, c);
    SwapFirst(C.literals, lit, other);
    ReorderedStore(clauses, watchers, c, d);
  }

  lemma SwapFirst(lits: seq<int>, a: int, b: int)
    requires |lits| >= 2 && {lits[0], lits[1]} == {a, b} && a != b
    ensures var r := lits[0 := b][1 := a];
      r == lits || r == lits[0 := lits[1]][1 := lits[0]]
    ensures forall l :: l in lits[0 := b][1 := a] <==> l in lits
  {
    var r := lits[0 := b][1 := a];
    assert (lits[0] == a && lits[1] == b) || (lits[0] == b && lits[1] == a) by {
      assert lits[0] in {a, b} && lits[1] in {a, b} && a in {lits[0], lits[1]} && b in {lits[0], lits[1]};
    }
    assert r == lits || r == lits[0 := lits[1]][1 := lits[0]];
    SwapMembers(lits, 0, 1);
  }

  lemma SwapMembers(lits: seq<int>, i: nat, j: nat)
    requires i < |lits| && j < |lits|
    ensures forall l :: l in lits[i := lits[j]][j := lits[i]] <==> l in lits
  {
    var r := lits[i := lits[j]][j := lits[i]];
    forall l ensures l in r <==> l in lits {
      if l in lits {
        var k :| 0 <= k < |lits| && lits[k] == l;
        assert r[if k == i then j else if k == j then i else k] == l;
      }
      if l in r {
        var k :| 0 <= k < |r| && r[k] == l;
        assert lits[if k == i then j else if k == j then i else k] == l;
      }
    }
  }

  /** Reordering a clause that keeps its watched pair. */
  lemma ReorderedStore(clauses: seq<CheckerClause>, watchers: Watchers, c: nat, d: CheckerClause)
    requires Store(clauses, watchers) && c < |clauses| && |d.literals| == |clauses[c].literals| >= 2
    requires d.garbage == clauses[c].garbage && d.freed == clauses[c].freed && ClauseOk(d)
    requires ClauseOk(clauses[c]) && (forall l :: l in d.literals <==> l in clauses[c].literals)
    requires d.literals == clauses[c].literals || d.literals == clauses[c].literals[0 := clauses[c].literals[1]][1 := clauses[c].literals[0]]
    ensures Reordered(clauses[c], d) && Store(clauses[c := d], watchers)
  {
    var clauses' := clauses[c := d];
    assert ClausesOk(clauses') by { assert Unfold(0); }
    forall l ensures ListOk(clauses', l, At(watchers, l)) {
      ListAt(clauses, watchers, l);
      ReorderedListOk(clauses, l, At(watchers, l), c, d);
    }
    forall e: nat | Live(clauses', e) && |clauses'[e].literals| >= 2
      ensures Mentions(At(watchers, clauses'[e].literals[0]), e) && Mentions(At(watchers, clauses'[e].literals[1]), e)
    {
      ListedAt(clauses, watchers, e, clauses[e].literals[0]);
      ListedAt(clauses, watchers, e, clauses[e].literals[1]);
    }
  }

  /** A list with watches of a clause whose literals are reordered. */
  lemma ReorderedListOk(clauses: seq<CheckerClause>, lit: int, ws: seq<Watch>, c: nat, d: CheckerClause)
    requires ListOk(clauses, lit, ws) && c < |clauses| && Reordered(clauses[c], d) && (Watched(clauses[c], lit) ==> Watched(d, lit))
    ensures ListOk(clauses[c := d], lit, ws)
  {
    forall k | 0 <= k < |ws| ensures WatchOk(clauses[c := d], lit, ws[k]) { assert WatchOk(clauses, lit, ws[k]); }
  }

  // -------------------------------------------------- moving a watch

  function MovedClause(c: CheckerClause, k: nat): CheckerClause
    requires 2 <= k < |c.literals|
  {
    c.(literals := c.literals[1 := c.literals[k]][k := c.literals[1]])
  }

  function MovedWatchers(watchers: Watchers, lit: int, k: nat, r: int, w: Watch): Watchers
    requires lit in watchers && k < |watchers[lit]|
  {
    var without := watchers[lit := RemoveAt(watchers[lit], k)];
    without[r := At(without, r) + [w]]
  }

  lemma MovedClauseOk(c: CheckerClause, k: nat)
    requires ClauseOk(c) && 2 <= k < |c.literals|
    ensures ClauseOk(MovedClause(c, k)) && forall l :: l in MovedClause(c, k).literals <==> l in c.literals
  {
    var r := c.literals[1 := c.literals[k]][k := c.literals[1]];
    SwapMembers(c.literals, 1, k);
    forall i, j | 0 <= i < j < |r| ensures r[i] != r[j] && r[i] != -r[j] {
      var i' := if i == 1 then k else if i == k then 1 else i;
      var j' := if j == 1 then k else if j == k then 1 else j;
      assert r[i] == c.literals[i'] && r[j] == c.literals[j'] && i' != j';
    }
  }

  /** A live clause is in the lists of its watched literals only. */
  lemma OnlyWatchedLists(clauses: seq<CheckerClause>, watchers: Watchers, c: nat, l: int)
    requires Store(clauses, watchers) && Live(clauses, c) && !Watched(clauses[c], l)
    ensures !Mentions(At(watchers, l), c)
  {
    ListAt(clauses, watchers, l);
  }

  lemma OnlyOnce(clauses: seq<CheckerClause>, lit: int, ws: seq<Watch>, k: nat)
    requires ListOk(clauses, lit, ws) && k < |ws| && Live(clauses, ws[k].clause)
    ensures !Mentions(RemoveAt(ws, k), ws[k].clause)
  {
    var r := RemoveAt(ws, k);
    forall i | 0 <= i < |r| ensures r[i].clause != ws[k].clause { RemovedAt(ws, k, i); }
  }

  /** Lists that do not mention a clause do not care about it. */
  lemma UnmentionedListOk(clauses: seq<CheckerClause>, lit: int, ws: seq<Watch>, c: nat, d: CheckerClause)
    requires ListOk(clauses, lit, ws) && c < |clauses| && !Mentions(ws, c)
    ensures ListOk(clauses[c := d], lit, ws)
  {
    forall k | 0 <= k < |ws| ensures WatchOk(clauses[c := d], lit, ws[k]) { assert WatchOk(clauses, lit, ws[k]); }
  }

  lemma AppendedList(clauses: seq<CheckerClause>, lit: int, ws: seq<Watch>, w: Watch)
    requires ListOk(clauses, lit, ws) && WatchOk(clauses, lit, w) && !Mentions(ws, w.clause)
    ensures ListOk(clauses, lit, ws + [w]) && Mentions(ws + [w], w.clause)
    ensures forall c: nat :: Mentions(ws, c) ==> Mentions(ws + [w], c)
  {
    var more := ws + [w];
    assert more[|ws|] == w;
    forall c: nat | Mentions(ws, c) ensures Mentions(more, c) {
      var k :| 0 <= k < |ws| && ws[k].clause == c;
      assert more[k] == ws[k];
    }
  }

  /** The watch moves from the false literal to its replacement. */
  lemma MoveWatch(clauses: seq<CheckerClause>, watchers: Watchers, lit: int, at: nat, k: nat)
    requires Store(clauses, watchers) && lit in watchers && at < |watchers[lit]|
    requires var c := watchers[lit][at].clause; Live(clauses, c) && 2 <= k < |clauses[c].literals| && clauses[c].literals[1] == lit
    ensures var c := watchers[lit][at].clause; var r := clauses[c].literals[k];
      Store(clauses[c := MovedClause(clauses[c], k)], MovedWatchers(watchers, lit, at, r, Watch(lit, |clauses[c].literals|, c)))
  {
    var c := watchers[lit][at].clause;
    var C := clauses[c];
    var r, d, w := C.literals[k], MovedClause(C, k), Watch(lit, |C.literals|, c);
    var clauses', watchers' := clauses[c := d], MovedWatchers(watchers, lit, at, r, w);
    ClauseAt(clauses, watchers, c);
    MovedClauseOk(C, k);
    assert ClausesOk(clauses') by { assert Unfold(0); }
    forall l ensures ListOk(clauses', l, At(watchers', l)) { MovedLists(clauses, watchers, lit, at, k, l); }
    forall e: nat | Live(clauses', e) && |clauses'[e].literals| >= 2
      ensures Mentions(At(watchers', clauses'[e].literals[0]), e) && Mentions(At(watchers', clauses'[e].literals[1]), e)
    {
      MovedListed(clauses, watchers, lit, at, k, e, clauses'[e].literals[0]);
      MovedListed(clauses, watchers, lit, at, k, e, clauses'[e].literals[1]);
    }
  }

  lemma MovedLists(clauses: seq<CheckerClause>, watchers: Watchers, lit: int, at: nat, k: nat, l: int)
    requires Store(clauses, watchers) && lit in watchers && at < |watchers[lit]|
    requires var c := watchers[lit][at].clause; Live(clauses, c) && 2 <= k < |clauses[c].literals| && clauses[c].literals[1] == lit
    ensures var c := watchers[lit][at].clause; var r := clauses[c].literals[k];
      ListOk(clauses[c := MovedClause(clauses[c], k)], l, At(MovedWatchers(watchers, lit, at, r, Watch(lit, |clauses[c].literals|, c)), l))
  {
    var c := watchers[lit][at].clause;
    var C := clauses[c];
    var r, d, w := C.literals[k], MovedClause(C, k), Watch(lit, |C.literals|, c);
    var clauses' := clauses[c := d];
    ClauseAt(clauses, watchers, c);
    MovedClauseOk(C, k);
    ListAt(clauses, watchers, l);
    ListAt(clauses, watchers, lit);
    assert WatchOk(clauses, lit, watchers[lit][at]);
    if l == lit {
      OnlyOnce(clauses, lit, watchers[lit], at);
      ListRemoved(clauses, lit, watchers[lit], at);
      UnmentionedListOk(clauses, lit, RemoveAt(watchers[lit], at), c, d);
    } else if l == r {
      OnlyWatchedLists(clauses, watchers, c, r);
      UnmentionedListOk(clauses, r, At(watchers, r), c, d);
      assert WatchOk(clauses', r, w);
      AppendedList(clauses', r, At(watchers, r), w);
    } else if l == C.literals[0] {
      ReorderedListOk(clauses, l, At(watchers, l), c, d);
    } else {
      OnlyWatchedLists(clauses, watchers, c, l);
      UnmentionedListOk(clauses, l, At(watchers, l), c, d);
    }
  }

  lemma MovedListed(clauses: seq<CheckerClause>, watchers: Watchers, lit: int, at: nat, k: nat, e: nat, l: int)
    requires Store(clauses, watchers) && lit in watchers && at < |watchers[lit]| && Live(clauses, e)
    requires var c := watchers[lit][at].clause; Live(clauses, c) && 2 <= k < |clauses[c].literals| && clauses[c].literals[1] == lit
    requires var c := watchers[lit][at].clause; Watched(clauses[c := MovedClause(clauses[c], k)][e], l)
    ensures var c := watchers[lit][at].clause; var r := clauses[c].literals[k];
      Mentions(At(MovedWatchers(watchers, lit, at, r, Watch(lit, |clauses[c].literals|, c)), l), e)
  {
    var c := watchers[lit][at].clause;
    var C := clauses[c];
    var r, w := C.literals[k], Watch(lit, |C.literals|, c);
    ClauseAt(clauses, watchers, c);
    var without := watchers[lit := RemoveAt(watchers[lit], at)];
    var last := At(without, r) + [w];
    assert last[|At(without, r)|].clause == c;
    if e != c {
      ListedAt(clauses, watchers, e, l);
      if l == lit { RemovedMentions(watchers[lit], at, e); }
      if l == r { MentionsPrefix(At(without, r), w, e); }
    } else if l == C.literals[0] {
      ListedAt(clauses, watchers, c, l);
    }
  }

  lemma MentionsPrefix(ws: seq<Watch>, w: Watch, c: nat)
    requires Mentions(ws, c)
    ensures Mentions(ws + [w], c)
  {
    var k :| 0 <= k < |ws| && ws[k].clause == c;
    assert (ws + [w])[k] == ws[k];
  }

  // ---------------------------------------------------- adding a clause

  function WithWatches(watchers: Watchers, lits: seq<int>, c: nat): Watchers
    requires |lits| >= 2
  {
    var one := watchers[lits[0] := At(watchers, lits[0]) + [Watch(lits[1], |lits|, c)]];
    one[lits[1] := At(one, lits[1]) + [Watch(lits[0], |lits|, c)]]
  }

  /** Old lists do not mention a clause that is just being added. */
  lemma MoreClausesListOk(clauses: seq<CheckerClause>, lit: int, ws: seq<Watch>, d: CheckerClause)
    requires ListOk(clauses, lit, ws)
    ensures ListOk(clauses + [d], lit, ws) && !Mentions(ws, |clauses|)
  {
    forall k | 0 <= k < |ws| ensures WatchOk(clauses + [d], lit, ws[k]) && ws[k].clause != |clauses| {
      assert WatchOk(clauses, lit, ws[k]);
    }
  }

  lemma AddToStore(clauses: seq<CheckerClause>, watchers: Watchers, lits: seq<int>, id: int)
    requires Store(clauses, watchers) && ClauseOk(CheckerClause(lits, false, false, id))
    ensures Store(clauses + [CheckerClause(lits, false, false, id)], WithWatches(watchers, lits, |clauses|))
  {
    var d := CheckerClause(lits, false, false, id);
    var more, watchers' := clauses + [d], WithWatches(watchers, lits, |clauses|);
    assert ClausesOk(more) by { assert Unfold(0); }
    forall l ensures ListOk(more, l, At(watchers', l)) {
      ListAt(clauses, watchers, l);
      MoreClausesListOk(clauses, l, At(watchers, l), d);
      if l == lits[0] {
        AppendedList(more, l, At(watchers, l), Watch(lits[1], |lits|, |clauses|));
      } else if l == lits[1] {
        AppendedList(more, l, At(watchers, l), Watch(lits[0], |lits|, |clauses|));
      }
    }
    forall c: nat | Live(more, c) && |more[c].literals| >= 2
      ensures Mentions(At(watchers', more[c].literals[0]), c) && Mentions(At(watchers', more[c].literals[1]), c)
    {
      AddedListed(clauses, watchers, lits, id, c, more[c].literals[0]);
      AddedListed(clauses, watchers, lits, id, c, more[c].literals[1]);
    }
  }

  lemma AddedListed(clauses: seq<CheckerClause>, watchers: Watchers, lits: seq<int>, id: int, c: nat, l: int)
    requires Store(clauses, watchers) && ClauseOk(CheckerClause(lits, false, false, id))
    requires Live(clauses + [CheckerClause(lits, false, false, id)], c) && Watched((clauses + [CheckerClause(lits, false, false, id)])[c], l)
    ensures Mentions(At(WithWatches(watchers, lits, |clauses|), l), c)
  {
    var watchers' := WithWatches(watchers, lits, |clauses|);
    var ws, ws' := At(watchers, l), At(watchers', l);
    if c < |clauses| {
      ListedAt(clauses, watchers, c, l);
      if l == lits[0] {
        MentionsPrefix(ws, Watch(lits[1], |lits|, |clauses|), c);
      } else if l == lits[1] {
        MentionsPrefix(ws, Watch(lits[0], |lits|, |clauses|), c);
      }
    } else {
      assert ws'[|ws|].clause == c;
    }
  }

  // -------------------------------------------------------- garbage

  lemma GarbageInStore(clauses: seq<CheckerClause>, watchers: Watchers, d: nat)
    requires Store(clauses, watchers) && d < |clauses|
    ensures Store(clauses[d := clauses[d].(garbage := true)], watchers)
  {
    var after := clauses[d := clauses[d].(garbage := true)];
    assert ClausesOk(after) by { assert Unfold(0); }
    forall l ensures ListOk(after, l, At(watchers, l)) {
      ListAt(clauses, watchers, l);
      GarbageListOk(clauses, l, At(watchers, l), d);
    }
    forall c: nat | Live(after, c) && |after[c].literals| >= 2
      ensures Mentions(At(watchers, after[c].literals[0]), c) && Mentions(At(watchers, after[c].literals[1]), c)
    {
      ListedAt(clauses, watchers, c, clauses[c].literals[0]);
      ListedAt(clauses, watchers, c, clauses[c].literals[1]);
    }
  }

  lemma GarbageListOk(clauses: seq<CheckerClause>, lit: int, ws: seq<Watch>, d: nat)
    requires ListOk(clauses, lit, ws) && d < |clauses|
    ensures ListOk(clauses[d := clauses[d].(garbage := true)], lit, ws)
  {
    var after := clauses[d := clauses[d].(garbage := true)];
    forall k | 0 <= k < |ws| ensures WatchOk(after, lit, ws[k]) { assert WatchOk(clauses, lit, ws[k]); }
    forall j, k | 0 <= j < k < |ws| && Live(after, ws[j].clause) ensures ws[j].clause != ws[k].clause {
      assert Live(clauses, ws[j].clause);
    }
  }

  /** The watches of clauses that are not garbage. */
  function LiveWatches(clauses: seq<CheckerClause>, ws: seq<Watch>): seq<Watch> {
    if ws == [] then []
    else LiveWatches(clauses, ws[..|ws| - 1]) + if Live(clauses, ws[|ws| - 1].clause) then [ws[|ws| - 1]] else []
  }

  function FlushedWatchers(clauses: seq<CheckerClause>, watchers: Watchers): Watchers {
    map l | l in watchers :: LiveWatches(clauses, watchers[l])
  }

  lemma {:induction false} LiveWatchesOk(clauses: seq<CheckerClause>, lit: int, ws: seq<Watch>)
    requires ListOk(clauses, lit, ws)
    ensures ListOk(clauses, lit, LiveWatches(clauses, ws))
    ensures forall c: nat :: Mentions(LiveWatches(clauses, ws), c) <==> Mentions(ws, c) && Live(clauses, c)
  {
    if ws != [] {
      var n := |ws| - 1;
      var init, r := ws[..n], LiveWatches(clauses, ws[..n]);
      assert forall k :: 0 <= k < n ==> init[k] == ws[k];
      LiveWatchesOk(clauses, lit, init);
      assert ws == init + [ws[n]];
      forall c: nat ensures Mentions(ws, c) <==> Mentions(init, c) || ws[n].clause == c { MentionsLast(init, ws[n], c); }
      forall c: nat ensures Mentions(r + [ws[n]], c) <==> Mentions(r, c) || ws[n].clause == c { MentionsLast(r, ws[n], c); }
      if Live(clauses, ws[n].clause) {
        assert !Mentions(init, ws[n].clause);
        AppendedList(clauses, lit, r, ws[n]);
        assert LiveWatches(clauses, ws) == r + [ws[n]];
      } else {
        assert LiveWatches(clauses, ws) == r;
      }
    }
  }

  lemma MentionsLast(ws: seq<Watch>, w: Watch, c: nat)
    ensures Mentions(ws + [w], c) <==> Mentions(ws, c) || w.clause == c
  {
    var more := ws + [w];
    assert more[|ws|] == w;
    if Mentions(ws, c) { MentionsPrefix(ws, w, c); }
  }

  /** All garbage is freed. */
  function Freed(clauses: seq<CheckerClause>): (after: seq<CheckerClause>)
    ensures |after| == |clauses|
    ensures forall c: nat {:trigger after[c]} :: c < |clauses| ==> after[c] == clauses[c].(freed := clauses[c].freed || clauses[c].garbage)
  {
    seq(|clauses|, c requires 0 <= c < |clauses| => clauses[c].(freed := clauses[c].freed || clauses[c].garbage))
  }

  /** Lists of live clauses outlast the garbage. */
  lemma FreedListOk(clauses: seq<CheckerClause>, lit: int, ws: seq<Watch>)
    requires ListOk(clauses, lit, ws) && forall k :: 0 <= k < |ws| ==> Live(clauses, ws[k].clause)
    ensures ListOk(Freed(clauses), lit, ws)
  {
    forall k | 0 <= k < |ws| ensures WatchOk(Freed(clauses), lit, ws[k]) { assert WatchOk(clauses, lit, ws[k]); }
  }

  /** When the garbage is freed, no watch refers to it any more. */
  lemma FlushedStore(clauses: seq<CheckerClause>, watchers: Watchers)
    requires Store(clauses, watchers)
    ensures Store(Freed(clauses), FlushedWatchers(clauses, watchers))
  {
    var flushed, after := FlushedWatchers(clauses, watchers), Freed(clauses);
    assert ClausesOk(after) by { assert Unfold(0); }
    forall l ensures ListOk(after, l, At(flushed, l)) {
      ListAt(clauses, watchers, l);
      LiveWatchesOk(clauses, l, At(watchers, l));
      forall k | 0 <= k < |At(flushed, l)| ensures Live(clauses, At(flushed, l)[k].clause) {
        assert Mentions(At(flushed, l), At(flushed, l)[k].clause);
      }
      FreedListOk(clauses, l, At(flushed, l));
    }
    forall c: nat | Live(after, c) && |after[c].literals| >= 2
      ensures Mentions(At(flushed, after[c].literals[0]), c) && Mentions(At(flushed, after[c].literals[1]), c)
    {
      FlushedListed(clauses, watchers, c, clauses[c].literals[0]);
      FlushedListed(clauses, watchers, c, clauses[c].literals[1]);
    }
  }

  lemma FlushedListed(clauses: seq<CheckerClause>, watchers: Watchers, c: nat, l: int)
    requires Store(clauses, watchers) && Live(clauses, c) && Watched(clauses[c], l)
    ensures Mentions(At(FlushedWatchers(clauses, watchers), l), c)
  {
    ListedAt(clauses, watchers, c, l);
    ListAt(clauses, watchers, l);
    LiveWatchesOk(clauses, l, At(watchers, l));
  }
}
