/** The result file: one row per requested fault, and reading the rows back by
    column name. */
module ResultFile {
  import opened Options
  import opened FaultGroups
  import opened FaultCollapsing
  import opened FaultSelection
  import opened FaultTables

  // ------------------------------------------------------------ the rows

  /** The outcome of analysing one target. */
  datatype FaultResult = FaultResult(target: nat, cubeCnt: nat, complete: bool, density: string)

  datatype Row = Row(fault: nat, cubeCnt: string, complete: string, fdp: string, rep: nat)

  function Digits(n: nat): (s: string)
    ensures s != "" && Plain(s)
  {
    if n < 10 then [['0', '1', '2', '3', '4', '5', '6', '7', '8', '9'][n]]
    else Digits(n / 10) + Digits(n % 10)
  }

  predicate IsDigit(c: char) { '0' <= c <= '9' }

  /** The value of a row of digits. */
  function ValueOf(s: string): int {
    if s == "" then 0 else 10 * ValueOf(s[..|s| - 1]) + (s[|s| - 1] as int - '0' as int)
  }

  /** The decimal notation of a number, without leading zeros. */
  ghost predicate Numeral(s: string, n: nat) {
    s != "" && (forall i :: 0 <= i < |s| ==> IsDigit(s[i])) && (|s| > 1 ==> s[0] != '0') && ValueOf(s) == n
  }

  lemma {:induction false} DigitsAreNumeral(n: nat)
    ensures Numeral(Digits(n), n) && (n > 0 ==> Digits(n)[0] != '0')
  {
    if n < 10 {
      OneDigit(n);
    } else {
      DigitsAreNumeral(n / 10);
      OneDigit(n % 10);
      assert Digits(n) == Digits(n / 10) + [Digits(n % 10)[0]];
    }
  }

  lemma OneDigit(n: nat)
    requires n < 10
    ensures |Digits(n)| == 1 && IsDigit(Digits(n)[0]) && Digits(n)[0] as int - '0' as int == n == ValueOf(Digits(n))
  {
    assert Digits(n)[..0] == "";
  }

  function OwnRow(r: FaultResult): Row {
    Row(r.target, Digits(r.cubeCnt), if r.complete then "1" else "0", r.density, r.target)
  }

  /** The other members share the value, their counters stay blank. */
  function SharedRows(list: seq<nat>, r: FaultResult): seq<Row> {
    if list == [] then []
    else
      var f := list[|list| - 1];
      SharedRows(list[..|list| - 1], r) + if f != r.target then [Row(f, "", "", r.density, r.target)] else []
  }

  function ResultRows(list: seq<nat>, r: FaultResult): seq<Row> { [OwnRow(r)] + SharedRows(list, r) }

  /** The first row tells the result of the target itself. */
  ghost predicate Tells(row: Row, r: FaultResult) {
    && row.fault == row.rep == r.target && row.fdp == r.density && Numeral(row.cubeCnt, r.cubeCnt)
    && (row.complete == "1" <==> r.complete) && (row.complete == "0" <==> !r.complete)
  }

  /** The other rows are for the other members of a list, in its order, with the same value
      and nothing else. */
  ghost predicate TellOthers(rows: seq<Row>, list: seq<nat>, r: FaultResult) {
    && (forall i :: 0 <= i < |rows| ==> rows[i] == Row(rows[i].fault, "", "", r.density, r.target))
    && (forall f: nat :: f in RowFaults(rows) <==> f in list && f != r.target)
    && ((forall i, j :: 0 <= i < j < |list| ==> list[i] < list[j]) ==> forall i, j :: 0 <= i < j < |rows| ==> rows[i].fault < rows[j].fault)
  }

  lemma {:induction false} SharedRowsTell(list: seq<nat>, r: FaultResult)
    ensures TellOthers(SharedRows(list, r), list, r)
  {
    if list != [] {
      var init, f := list[..|list| - 1], list[|list| - 1];
      SharedRowsTell(init, r);
      assert list == init + [f];
      var rows, more := SharedRows(init, r), SharedRows(list, r);
      if f == r.target {
        assert more == rows;
      } else {
        assert RowFaults(more) == RowFaults(rows) + [f];
        forall i | 0 <= i < |rows| ensures rows[i].fault in init { assert RowFaults(rows)[i] in RowFaults(rows); }
      }
    }
  }

  lemma ResultRowsTell(list: seq<nat>, r: FaultResult)
    ensures Tells(ResultRows(list, r)[0], r) && TellOthers(ResultRows(list, r)[1..], list, r)
  {
    DigitsAreNumeral(r.cubeCnt);
    SharedRowsTell(list, r);
    assert ResultRows(list, r)[1..] == SharedRows(list, r);
  }

  /** Writes the rows of one result. */
  method WriteFaultResult(entries: Entries, members: array<seq<nat>>, r: FaultResult) returns (rows: seq<Row>)
    requires entries.Valid() && members.Length == entries.n && r.target < entries.n
    ensures rows == ResultRows(members[entries.RootOf(r.target)], r)
    ensures |rows| > 0 && Tells(rows[0], r) && TellOthers(rows[1..], members[entries.RootOf(r.target)], r)
  {
    rows := [OwnRow(r)];
    var root := entries.WalkToRoot(r.target);
    var list := members[root];
    for i := 0 to |list|
      invariant rows == [OwnRow(r)] + SharedRows(list[..i], r)
    {
      assert list[..i + 1][..i] == list[..i];
      if list[i] != r.target {
        rows := rows + [Row(list[i], "", "", r.density, r.target)];
      }
    }
    assert list[..|list|] == list;
    ResultRowsTell(list, r);
  }

  ghost function RowFaults(rows: seq<Row>): (fs: seq<nat>)
    ensures |fs| == |rows| && forall i :: 0 <= i < |rows| ==> fs[i] == rows[i].fault
  {
    seq(|rows|, i requires 0 <= i < |rows| => rows[i].fault)
  }

  /** The rows of all results, in the order in which they are written. */
  ghost function AllRows(results: seq<FaultResult>, members: seq<seq<nat>>, roots: seq<nat>): seq<Row> {
    if results == [] then []
    else
      var r := results[|results| - 1];
      AllRows(results[..|results| - 1], members, roots)
      + if r.target < |roots| && roots[r.target] < |members| then ResultRows(members[roots[r.target]], r) else []
  }

  ghost predicate Blank(row: Row) { row.cubeCnt == "" }

  ghost function BlankRows(rows: seq<Row>): nat {
    if rows == [] then 0 else BlankRows(rows[..|rows| - 1]) + if Blank(rows[|rows| - 1]) then 1 else 0
  }

  lemma {:induction false} BlankOfConcat(a: seq<Row>, b: seq<Row>)
    ensures BlankRows(a + b) == BlankRows(a) + BlankRows(b)
  {
    if b == [] {
      assert a + b == a;
    } else {
      assert (a + b)[..|a + b| - 1] == a + b[..|b| - 1];
      BlankOfConcat(a, b[..|b| - 1]);
    }
  }

  // -------------------------------------------------------- conservation

  ghost function GroupOf(requested: seq<bool>, roots: seq<nat>, r: nat, id: nat): set<nat>
    requires |requested| <= |roots|
  {
    set f | id <= f < |requested| && requested[f] && roots[f] == r
  }

  /** The member list of a group holds its requested faults, each once, ascending. */
  lemma {:induction false} MembersAreTheGroup(requested: seq<bool>, roots: seq<nat>, r: nat, id: nat)
    requires |requested| <= |roots| && id <= |requested|
    ensures Faults(MembersFrom(requested, roots, r, id)) == GroupOf(requested, roots, r, id)
    ensures var list := MembersFrom(requested, roots, r, id);
            forall i, j :: 0 <= i < j < |list| ==> list[i] < list[j]
    decreases |requested| - id
  {
    if id < |requested| {
      MembersAreTheGroup(requested, roots, r, id + 1);
      var rest := MembersFrom(requested, roots, r, id + 1);
      var list := MembersFrom(requested, roots, r, id);
      forall i | 0 <= i < |rest| ensures rest[i] > id { assert rest[i] in Faults(rest); }
      if list != rest {
        assert list == [id] + rest;
        assert Faults(list) == Faults(rest) + {id} by {
          forall f | f in Faults(rest) ensures f in Faults(list) {
            var i :| 0 <= i < |rest| && rest[i] == f;
            assert list[i + 1] == f;
          }
          assert list[0] == id;
        }
        assert GroupOf(requested, roots, r, id) == GroupOf(requested, roots, r, id + 1) + {id};
      } else {
        assert GroupOf(requested, roots, r, id) == GroupOf(requested, roots, r, id + 1);
      }
    }
  }

  /** The rows are for exactly the faults of a set, each once, p of them blank. */
  ghost predicate RowsFor(rows: seq<Row>, fs: set<nat>, p: int) {
    forall n {:trigger Unfold(n)} :: Unfold(n) ==>
      Distinct(RowFaults(rows)) && Faults(RowFaults(rows)) == fs && BlankRows(rows) == p
  }

  lemma NoRows()
    ensures RowsFor([], {}, 0)
  {
    assert Faults(RowFaults([])) == {};
  }

  lemma RowsAppend(a: seq<Row>, fs: set<nat>, p: int, b: seq<Row>, gs: set<nat>, q: int)
    requires RowsFor(a, fs, p) && RowsFor(b, gs, q) && fs !! gs
    ensures RowsFor(a + b, fs + gs, p + q)
  {
    assert Unfold(0);
    BlankOfConcat(a, b);
    assert RowFaults(a + b) == RowFaults(a) + RowFaults(b);
    FaultsOfConcat(RowFaults(a), RowFaults(b));
    AppendDistinct(RowFaults(a), RowFaults(b));
  }

  lemma OneRow(row: Row)
    ensures RowsFor([row], {row.fault}, if Blank(row) then 1 else 0)
  {
    assert RowFaults([row]) == [row.fault];
    FaultsOfOne(row.fault);
    assert [row][..0] == [];
  }

  lemma {:induction false} SharedRowsAre(list: seq<nat>, r: FaultResult)
    requires Distinct(list)
    ensures RowsFor(SharedRows(list, r), Faults(list) - {r.target}, |SharedRows(list, r)|)
  {
    if list == [] {
      NoRows();
      assert Faults(list) - {r.target} == {};
    } else {
      var n := |list| - 1;
      var init := list[..n];
      SharedRowsAre(init, r);
      assert list == init + [list[n]];
      FaultsOfConcat(init, [list[n]]);
      FaultsOfOne(list[n]);
      if list[n] != r.target {
        var row := Row(list[n], "", "", r.density, r.target);
        OneRow(row);
        RowsAppend(SharedRows(init, r), Faults(init) - {r.target}, |SharedRows(init, r)|, [row], {list[n]}, 1);
        assert Faults(init) - {r.target} + {list[n]} == Faults(list) - {r.target};
      } else {
        assert SharedRows(list, r) == SharedRows(init, r);
        assert Faults(init) - {r.target} == Faults(list) - {r.target};
      }
    }
  }

  lemma FaultsOfOne(f: nat)
    ensures Faults([f]) == {f}
  {
    assert [f][0] == f;
  }

  lemma FaultsOfConcat(a: seq<nat>, b: seq<nat>)
    ensures Faults(a + b) == Faults(a) + Faults(b)
  {
    forall f | f in Faults(a) ensures f in Faults(a + b) {
      var i :| 0 <= i < |a| && a[i] == f;
      assert (a + b)[i] == f;
    }
    forall f | f in Faults(b) ensures f in Faults(a + b) {
      var i :| 0 <= i < |b| && b[i] == f;
      assert (a + b)[|a| + i] == f;
    }
  }

  lemma AppendDistinct(a: seq<nat>, b: seq<nat>)
    requires Distinct(a) && Distinct(b) && Faults(a) !! Faults(b)
    ensures Distinct(a + b)
  {
    forall i, j | 0 <= i < j < |a + b| ensures (a + b)[i] != (a + b)[j] {
      if i < |a| <= j {
        assert a[i] in Faults(a) && b[j - |a|] in Faults(b);
      }
    }
  }

  /** The rows of one target are exactly the requested faults of its group. */
  lemma RowsOfOneResult(requested: seq<bool>, roots: seq<nat>, r: FaultResult)
    requires |requested| == |roots| && r.target < |requested| && requested[r.target]
    ensures var rows := ResultRows(MembersFrom(requested, roots, roots[r.target], 0), r);
      RowsFor(rows, GroupOf(requested, roots, roots[r.target], 0), |rows| - 1)
  {
    var list := MembersFrom(requested, roots, roots[r.target], 0);
    var shared := SharedRows(list, r);
    MembersAreTheGroup(requested, roots, roots[r.target], 0);
    SharedRowsAre(list, r);
    OneRow(OwnRow(r));
    RowsAppend([OwnRow(r)], {r.target}, 0, shared, Faults(list) - {r.target}, |shared|);
    assert {r.target} + (Faults(list) - {r.target}) == Faults(list);
  }

  /** The requested faults of several groups. */
  ghost function GroupsOf(requested: seq<bool>, roots: seq<nat>, hit: set<nat>): set<nat>
    requires |requested| <= |roots|
  {
    set f | 0 <= f < |requested| && requested[f] && roots[f] in hit
  }

  ghost function Targets(results: seq<FaultResult>): (ts: seq<nat>)
    ensures |ts| == |results| && forall i :: 0 <= i < |results| ==> ts[i] == results[i].target
  {
    seq(|results|, i requires 0 <= i < |results| => results[i].target)
  }

  ghost function RootsHit(targets: seq<nat>, roots: seq<nat>): set<nat> {
    set i | 0 <= i < |targets| && targets[i] < |roots| :: roots[targets[i]]
  }

  /** One target per group, and members collected for every group. */
  ghost predicate Reported(targets: seq<nat>, requested: seq<bool>, roots: seq<nat>, members: seq<seq<nat>>) {
    forall n {:trigger Unfold(n)} :: Unfold(n) ==>
      && |requested| == |roots| == |members| && IsTable(roots, |members|)
      && (forall r: nat :: r < |members| ==> members[r] == MembersFrom(requested, roots, r, 0))
      && (forall i :: 0 <= i < |targets| ==> targets[i] < |requested| && requested[targets[i]])
      && (forall i, j :: 0 <= i < j < |targets| ==> roots[targets[i]] != roots[targets[j]])
  }

  lemma {:induction false} RowsOfAll(results: seq<FaultResult>, requested: seq<bool>, roots: seq<nat>, members: seq<seq<nat>>)
    requires Reported(Targets(results), requested, roots, members) && |requested| == |roots|
    ensures var rows := AllRows(results, members, roots);
      RowsFor(rows, GroupsOf(requested, roots, RootsHit(Targets(results), roots)), |rows| - |results|)
  {
    if results == [] {
      NoRows();
      assert GroupsOf(requested, roots, RootsHit([], roots)) == {};
    } else {
      var n := |results| - 1;
      var targets := Targets(results);
      assert Targets(results[..n]) == targets[..n];
      ReportedInit(targets, requested, roots, members, n);
      RowsOfAll(results[..n], requested, roots, members);
      assert results[n].target == targets[n];
      RowsOfNext(AllRows(results[..n], members, roots), RootsHit(targets[..n], roots), n, requested, roots, members, results[n]);
      AllRowsNext(results, members, roots);
    }
  }

  lemma AllRowsNext(results: seq<FaultResult>, members: seq<seq<nat>>, roots: seq<nat>)
    requires results != []
    requires var r := results[|results| - 1]; r.target < |roots| && roots[r.target] < |members|
    ensures var r := results[|results| - 1];
      AllRows(results, members, roots) == AllRows(results[..|results| - 1], members, roots) + ResultRows(members[roots[r.target]], r)
  {
  }

  lemma RowsOfNext(rows: seq<Row>, hit: set<nat>, n: nat, requested: seq<bool>, roots: seq<nat>, members: seq<seq<nat>>, r: FaultResult)
    requires |requested| == |roots| && RowsFor(rows, GroupsOf(requested, roots, hit), |rows| - n)
    requires r.target < |requested| && requested[r.target] && roots[r.target] < |members| && roots[r.target] !in hit
    requires members[roots[r.target]] == MembersFrom(requested, roots, roots[r.target], 0)
    ensures var rows' := rows + ResultRows(members[roots[r.target]], r);
      RowsFor(rows', GroupsOf(requested, roots, hit + {roots[r.target]}), |rows'| - (n + 1))
  {
    var root := roots[r.target];
    var more := ResultRows(members[root], r);
    RowsOfOneResult(requested, roots, r);
    RowsAppend(rows, GroupsOf(requested, roots, hit), |rows| - n, more, GroupOf(requested, roots, root, 0), |more| - 1);
    assert GroupsOf(requested, roots, hit + {root}) == GroupsOf(requested, roots, hit) + GroupOf(requested, roots, root, 0);
  }

  lemma ReportedInit(targets: seq<nat>, requested: seq<bool>, roots: seq<nat>, members: seq<seq<nat>>, n: nat)
    requires Reported(targets, requested, roots, members) && |targets| == n + 1
    ensures Reported(targets[..n], requested, roots, members)
    ensures targets[n] < |requested| && requested[targets[n]] && |roots| == |requested| == |members|
    ensures roots[targets[n]] < |members| && members[roots[targets[n]]] == MembersFrom(requested, roots, roots[targets[n]], 0)
    ensures RootsHit(targets, roots) == RootsHit(targets[..n], roots) + {roots[targets[n]]}
    ensures roots[targets[n]] !in RootsHit(targets[..n], roots)
  {
    assert Unfold(0);
    RootsHitMore(targets, roots, n);
  }

  lemma RootsHitMore(targets: seq<nat>, roots: seq<nat>, n: nat)
    requires |targets| == n + 1 && targets[n] < |roots|
    requires forall i, j :: 0 <= i < j < |targets| ==> targets[i] < |roots| && targets[j] < |roots| && roots[targets[i]] != roots[targets[j]]
    ensures RootsHit(targets, roots) == RootsHit(targets[..n], roots) + {roots[targets[n]]}
    ensures roots[targets[n]] !in RootsHit(targets[..n], roots)
  {
    forall x | x in RootsHit(targets[..n], roots) ensures x in RootsHit(targets, roots) {
      var i :| 0 <= i < |targets[..n]| && targets[..n][i] < |roots| && roots[targets[..n][i]] == x;
      assert targets[i] == targets[..n][i];
    }
  }

  lemma {:induction false} DistinctCount(s: seq<nat>)
    requires Distinct(s)
    ensures |Faults(s)| == |s|
  {
    if s != [] {
      var n := |s| - 1;
      DistinctCount(s[..n]);
      assert Faults(s) == Faults(s[..n]) + {s[n]};
    }
  }

  lemma {:induction false} RootsHitCount(targets: seq<nat>, roots: seq<nat>)
    requires forall i :: 0 <= i < |targets| ==> targets[i] < |roots|
    requires forall i, j :: 0 <= i < j < |targets| ==> roots[targets[i]] != roots[targets[j]]
    ensures |RootsHit(targets, roots)| == |targets|
  {
    if targets != [] {
      RootsHitCount(targets[..|targets| - 1], roots);
      RootsHitMore(targets, roots, |targets| - 1);
    }
  }

  lemma FinishedIsReported(walk0: seq<nat>, k: Ranking, requested: seq<bool>, reps: seq<int>, members: seq<seq<nat>>,
                           walk: seq<nat>, stats: Summary, results: seq<FaultResult>)
    requires Finished(walk0, k, requested, reps, members, walk, stats) && |members| == |reps|
    requires forall f :: f in walk0 ==> f < |requested| && requested[f]
    requires Distinct(Targets(results)) && Faults(Targets(results)) == Faults(walk)
    ensures Reported(Targets(results), requested, k.roots, members) && |requested| == |k.roots|
    ensures forall i :: 0 <= i < |results| ==> results[i].target < |requested| && k.roots[results[i].target] < |members|
  {
    assert Unfold(0);
    var targets, roots := Targets(results), k.roots;
    forall i | 0 <= i < |targets|
      ensures targets[i] in walk && targets[i] in walk0 && reps[roots[targets[i]]] == targets[i]
    {
      assert targets[i] in Faults(walk);
      KeptMembers(walk0, roots, reps, targets[i]);
    }
    forall i, j | 0 <= i < j < |targets| ensures roots[targets[i]] != roots[targets[j]] {
      assert reps[roots[targets[i]]] == targets[i] && reps[roots[targets[j]]] == targets[j];
    }
    assert forall i :: 0 <= i < |results| ==> results[i].target == targets[i];
  }

  /** Conservation: analysing the remaining targets in any order writes one row
      per requested fault, and numequiv of the rows have a blank counter. */
  lemma RowsAreConserved(walk0: seq<nat>, k: Ranking, requested: seq<bool>, reps: seq<int>, members: seq<seq<nat>>,
                         walk: seq<nat>, stats: Summary, results: seq<FaultResult>)
    requires Finished(walk0, k, requested, reps, members, walk, stats) && |members| == |reps|
    requires forall f :: f in walk0 ==> f < |requested| && requested[f]
    requires Distinct(Targets(results)) && Faults(Targets(results)) == Faults(walk)
    ensures var rows := AllRows(results, members, k.roots);
      && Distinct(RowFaults(rows)) && Faults(RowFaults(rows)) == RequestedFrom(requested, 0)
      && |rows| == stats.outputFaults && BlankRows(rows) == stats.numequiv && |results| == stats.numinit
  {
    assert Unfold(0);
    var targets, roots := Targets(results), k.roots;
    FinishedIsReported(walk0, k, requested, reps, members, walk, stats, results);
    RowsOfAll(results, requested, roots, members);
    TargetsHitAll(walk0, k, reps, targets);
    RootsHitCount(targets, roots);
    var rows := AllRows(results, members, roots);
    var all := GroupsOf(requested, roots, Hit(walk0, k));
    forall f | f in RequestedFrom(requested, 0) ensures f in all {
      assert reps[roots[f]] != -1;
      var i := ChosenIsLeast(walk0, k, roots[f]);
    }
    assert all == RequestedFrom(requested, 0);
    DistinctCount(RowFaults(rows));
  }

  /** The remaining targets meet every group that the table met before. */
  lemma TargetsHitAll(walk0: seq<nat>, k: Ranking, reps: seq<int>, targets: seq<nat>)
    requires IsTable(walk0, |reps|) && AllChosen(walk0, k, reps)
    requires Faults(targets) == Faults(Kept(walk0, k.roots, reps))
    ensures RootsHit(targets, k.roots) == Hit(walk0, k)
  {
    forall x: nat ensures x in RootsHit(targets, k.roots) <==> x in Hit(walk0, k) {
      if x in RootsHit(targets, k.roots) {
        var i :| 0 <= i < |targets| && targets[i] < |k.roots| && k.roots[targets[i]] == x;
        assert targets[i] in Faults(targets);
        KeptMembers(walk0, k.roots, reps, targets[i]);
      }
      if x in Hit(walk0, k) {
        var i := ChosenIsLeast(walk0, k, x);
        var f := reps[x];
        KeptMembers(walk0, k.roots, reps, f);
        assert f in Kept(walk0, k.roots, reps);
        assert f in Faults(Kept(walk0, k.roots, reps));
        var j :| 0 <= j < |targets| && targets[j] == f;
      }
    }
  }

  // ------------------------------------------- what the rows say of results

  /** The results whose analysis was cut off. */
  ghost function Unfinished(results: seq<FaultResult>): set<nat> { set i: nat | i < |results| && !results[i].complete }

  ghost function Incomplete(rows: seq<Row>): nat {
    if rows == [] then 0 else Incomplete(rows[..|rows| - 1]) + if rows[|rows| - 1].complete == "0" then 1 else 0
  }

  lemma {:induction false} IncompleteOfConcat(a: seq<Row>, b: seq<Row>)
    ensures Incomplete(a + b) == Incomplete(a) + Incomplete(b)
  {
    if b == [] {
      assert a + b == a;
    } else {
      assert (a + b)[..|a + b| - 1] == a + b[..|b| - 1];
      IncompleteOfConcat(a, b[..|b| - 1]);
    }
  }

  lemma {:induction false} NoneIncomplete(rows: seq<Row>)
    requires forall i :: 0 <= i < |rows| ==> rows[i].complete == ""
    ensures Incomplete(rows) == 0
  {
    if rows != [] { NoneIncomplete(rows[..|rows| - 1]); }
  }

  lemma IncompleteOfOne(list: seq<nat>, r: FaultResult)
    ensures Incomplete(ResultRows(list, r)) == if r.complete then 0 else 1
  {
    ResultRowsTell(list, r);
    var rows := ResultRows(list, r);
    assert rows == [rows[0]] + rows[1..];
    IncompleteOfConcat([rows[0]], rows[1..]);
    NoneIncomplete(rows[1..]);
    assert [rows[0]][..0] == [];
  }

  /** As many rows are marked incomplete as results are unfinished. */
  lemma {:induction false} IncompleteAreUnfinished(results: seq<FaultResult>, requested: seq<bool>, roots: seq<nat>, members: seq<seq<nat>>)
    requires forall i :: 0 <= i < |results| ==> results[i].target < |roots| && roots[results[i].target] < |members|
    ensures Incomplete(AllRows(results, members, roots)) == |Unfinished(results)|
  {
    if results == [] {
      assert Unfinished(results) == {};
    } else {
      var n := |results| - 1;
      assert forall i :: 0 <= i < n ==> results[..n][i] == results[i];
      IncompleteAreUnfinished(results[..n], requested, roots, members);
      IncompleteOfNext(AllRows(results[..n], members, roots), members[roots[results[n].target]], results[n]);
      AllRowsNext(results, members, roots);
      OneMoreUnfinished(results, n);
    }
  }

  lemma IncompleteOfNext(rows: seq<Row>, list: seq<nat>, r: FaultResult)
    ensures Incomplete(rows + ResultRows(list, r)) == Incomplete(rows) + if r.complete then 0 else 1
  {
    IncompleteOfOne(list, r);
    IncompleteOfConcat(rows, ResultRows(list, r));
  }

  lemma OneMoreUnfinished(results: seq<FaultResult>, n: nat)
    requires |results| == n + 1
    ensures |Unfinished(results)| == |Unfinished(results[..n])| + if results[n].complete then 0 else 1
  {
    forall i: nat ensures i in Unfinished(results) <==> i in Unfinished(results[..n]) || (i == n && !results[n].complete) {}
    assert Unfinished(results) == Unfinished(results[..n]) + if results[n].complete then {} else {n};
  }

  /** The result of the group that a fault belongs to says that its density is zero. */
  ghost predicate HasZero(results: seq<FaultResult>, roots: seq<nat>, f: nat, parse: string -> Option<real>) {
    exists i: nat :: i < |results| && IsResultOf(results[i], roots, f) && parse(results[i].density) == Some(0.0)
  }

  ghost predicate IsResultOf(r: FaultResult, roots: seq<nat>, f: nat) { f < |roots| && r.target < |roots| && roots[f] == roots[r.target] }

  /** The requested faults that are found undetectable. */
  ghost function Undetectable(results: seq<FaultResult>, roots: seq<nat>, requested: seq<bool>, parse: string -> Option<real>): set<nat> {
    set f: nat | f < |requested| && requested[f] && HasZero(results, roots, f, parse)
  }

  ghost predicate IsZero(row: Row, parse: string -> Option<real>) { parse(row.fdp) == Some(0.0) }

  ghost function ZeroRows(rows: seq<Row>, parse: string -> Option<real>): nat {
    if rows == [] then 0 else ZeroRows(rows[..|rows| - 1], parse) + if IsZero(rows[|rows| - 1], parse) then 1 else 0
  }

  ghost function ZeroFaults(rows: seq<Row>, parse: string -> Option<real>): set<nat> {
    set i | 0 <= i < |rows| && IsZero(rows[i], parse) :: rows[i].fault
  }

  lemma {:induction false} ZeroCount(rows: seq<Row>, parse: string -> Option<real>)
    requires Distinct(RowFaults(rows))
    ensures ZeroRows(rows, parse) == |ZeroFaults(rows, parse)|
  {
    if rows == [] {
      assert ZeroFaults(rows, parse) == {};
    } else {
      var n := |rows| - 1;
      assert RowFaults(rows[..n]) == RowFaults(rows)[..n];
      ZeroCount(rows[..n], parse);
      OneMoreZero(rows, n, parse);
    }
  }

  lemma OneMoreZero(rows: seq<Row>, n: nat, parse: string -> Option<real>)
    requires |rows| == n + 1 && Distinct(RowFaults(rows))
    ensures |ZeroFaults(rows, parse)| == |ZeroFaults(rows[..n], parse)| + if IsZero(rows[n], parse) then 1 else 0
  {
    var before, all := ZeroFaults(rows[..n], parse), ZeroFaults(rows, parse);
    assert rows[n].fault !in before by {
      forall i | 0 <= i < n ensures rows[i].fault != rows[n].fault { assert RowFaults(rows)[i] != RowFaults(rows)[n]; }
    }
    forall f ensures f in all <==> f in before || (IsZero(rows[n], parse) && f == rows[n].fault) {
      if f in before {
        var i :| 0 <= i < n && IsZero(rows[..n][i], parse) && rows[..n][i].fault == f;
        assert rows[i].fault == f;
      }
    }
    assert all == before + if IsZero(rows[n], parse) then {rows[n].fault} else {};
  }

  /** Every row carries the density of the result of its group. */
  lemma {:induction false} RowOrigin(results: seq<FaultResult>, requested: seq<bool>, roots: seq<nat>, members: seq<seq<nat>>, row: Row) returns (i: nat)
    requires Reported(Targets(results), requested, roots, members) && |requested| == |roots|
    requires row in AllRows(results, members, roots)
    ensures i < |results| && IsResultOf(results[i], roots, row.fault) && row.fdp == results[i].density
  {
    var n := |results| - 1;
    assert Targets(results[..n]) == Targets(results)[..n];
    ReportedInit(Targets(results), requested, roots, members, n);
    assert results[n].target == Targets(results)[n];
    if row in AllRows(results[..n], members, roots) {
      i := RowOrigin(results[..n], requested, roots, members, row);
    } else {
      i := n;
      RowOfResult(requested, roots, members, results[n], row);
    }
  }

  lemma RowOfResult(requested: seq<bool>, roots: seq<nat>, members: seq<seq<nat>>, r: FaultResult, row: Row)
    requires |requested| == |roots| && r.target < |roots| && roots[r.target] < |members|
    requires members[roots[r.target]] == MembersFrom(requested, roots, roots[r.target], 0) && row in ResultRows(members[roots[r.target]], r)
    ensures IsResultOf(r, roots, row.fault) && row.fdp == r.density
  {
    MembersAreTheGroup(requested, roots, roots[r.target], 0);
    RowOfList(members[roots[r.target]], r, row);
  }

  lemma RowOfList(list: seq<nat>, r: FaultResult, row: Row)
    requires row in ResultRows(list, r)
    ensures row.fdp == r.density && (row.fault == r.target || row.fault in Faults(list))
  {
    ResultRowsTell(list, r);
    var first, others := ResultRows(list, r)[0], ResultRows(list, r)[1..];
    assert ResultRows(list, r) == [first] + others;
    if row in others {
      var k :| 0 <= k < |others| && others[k] == row;
      assert RowFaults(others)[k] in RowFaults(others);
      assert row.fault in list;
    }
  }

  /** A group has one result only. */
  lemma OneResult(results: seq<FaultResult>, requested: seq<bool>, roots: seq<nat>, members: seq<seq<nat>>, f: nat, i: nat, j: nat)
    requires Reported(Targets(results), requested, roots, members) && i < |results| && j < |results|
    requires IsResultOf(results[i], roots, f) && IsResultOf(results[j], roots, f)
    ensures i == j
  {
    assert Unfold(0);
    assert Targets(results)[i] == results[i].target && Targets(results)[j] == results[j].target;
  }

  /** As many rows have the density zero as requested faults are found undetectable. */
  lemma ZerosAreUndetectable(results: seq<FaultResult>, requested: seq<bool>, roots: seq<nat>, members: seq<seq<nat>>, parse: string -> Option<real>)
    requires Reported(Targets(results), requested, roots, members) && |requested| == |roots|
    requires var rows := AllRows(results, members, roots); Distinct(RowFaults(rows)) && Faults(RowFaults(rows)) == RequestedFrom(requested, 0)
    ensures ZeroRows(AllRows(results, members, roots), parse) == |Undetectable(results, roots, requested, parse)|
  {
    var rows := AllRows(results, members, roots);
    ZeroCount(rows, parse);
    forall f: nat ensures f in ZeroFaults(rows, parse) <==> f in Undetectable(results, roots, requested, parse) {
      ZeroFault(results, requested, roots, members, parse, f);
    }
    assert ZeroFaults(rows, parse) == Undetectable(results, roots, requested, parse);
  }

  lemma ZeroFault(results: seq<FaultResult>, requested: seq<bool>, roots: seq<nat>, members: seq<seq<nat>>, parse: string -> Option<real>, f: nat)
    requires Reported(Targets(results), requested, roots, members) && |requested| == |roots|
    requires Faults(RowFaults(AllRows(results, members, roots))) == RequestedFrom(requested, 0)
    ensures f in ZeroFaults(AllRows(results, members, roots), parse) <==> f in Undetectable(results, roots, requested, parse)
  {
    var rows := AllRows(results, members, roots);
    if f in ZeroFaults(rows, parse) {
      var i :| 0 <= i < |rows| && IsZero(rows[i], parse) && rows[i].fault == f;
      var j := RowOrigin(results, requested, roots, members, rows[i]);
      assert RowFaults(rows)[i] in Faults(RowFaults(rows));
      assert HasZero(results, roots, f, parse);
    }
    if f in Undetectable(results, roots, requested, parse) {
      var i: nat :| i < |results| && IsResultOf(results[i], roots, f) && parse(results[i].density) == Some(0.0);
      assert f in RequestedFrom(requested, 0);
      var a :| 0 <= a < |RowFaults(rows)| && RowFaults(rows)[a] == f;
      var j := RowOrigin(results, requested, roots, members, rows[a]);
      OneResult(results, requested, roots, members, f, i, j);
    }
  }

  // ------------------------------------------------------ reading it back

  predicate Ends(c: char) { c == ',' || c == '\r' || c == '\n' }

  /** Text that a comma-separated field can hold. */
  predicate Plain(s: string) { forall i :: 0 <= i < |s| ==> !Ends(s[i]) }

  function Span(s: string): (n: nat)
    ensures n <= |s| && (forall i :: 0 <= i < n ==> !Ends(s[i])) && (n < |s| ==> Ends(s[n]))
  {
    if s == "" || Ends(s[0]) then 0 else 1 + Span(s[1..])
  }

  function Comma(s: string): (n: nat)
    ensures n <= |s| && (forall i :: 0 <= i < n ==> s[i] != ',') && (n < |s| ==> s[n] == ',')
  {
    if s == "" || s[0] == ',' then 0 else 1 + Comma(s[1..])
  }

  /** What follows the first 'index' commas of a line, if it has that many. */
  function Rest(line: string, index: nat): Option<string> {
    if index == 0 then Some(line)
    else
      match Rest(line, index - 1)
      case None => None
      case Some(p) => if Comma(p) == |p| then None else Some(p[Comma(p) + 1..])
  }

  lemma {:induction false} NothingFurther(line: string, index: nat, later: nat)
    requires Rest(line, index) == None && index <= later
    ensures Rest(line, later) == None
  {
    if index < later { NothingFurther(line, index, later - 1); }
  }

  /** Column 'index' of a line, empty when there is none. */
  function Column(line: string, index: nat): string {
    match Rest(line, index)
    case None => ""
    case Some(p) => p[..Span(p)]
  }

  function Cut(s: string, size: nat): string
    requires size > 0
  {
    if |s| >= size then s[..size - 1] else s
  }

  method CsvField(line: string, index: nat, size: nat) returns (field: string)
    requires size > 0
    ensures field == Cut(Column(line, index), size) && field <= Column(line, index)
    ensures |field| == if |Column(line, index)| < size then |Column(line, index)| else size - 1
  {
    var p := line;
    for column := 0 to index
      invariant Rest(line, column) == Some(p)
    {
      var comma := Comma(p);
      if comma == |p| {
        NothingFurther(line, column + 1, index);
        return "";
      }
      p := p[comma + 1..];
    }
    var length := Span(p);
    if length >= size { length := size - 1; }
    field := p[..length];
  }

  /** Whether column 'index' exists and is called 'name'. */
  predicate IsColumn(header: string, name: string, index: nat) {
    Rest(header, index).Some? && Column(header, index) == name
  }

  ghost predicate NoColumn(header: string, name: string, n: nat) { forall i: nat :: i < n ==> !IsColumn(header, name, i) }

  lemma NoColumnAtAll(header: string, name: string, n: nat)
    requires NoColumn(header, name, n + 1) && Rest(header, n + 1) == None
    ensures forall i: nat :: !IsColumn(header, name, i)
  {
    forall i: nat ensures !IsColumn(header, name, i) {
      if i > n { NothingFurther(header, n + 1, i); }
    }
  }

  /** The first column of that name, or -1. */
  method CsvFindColumn(header: string, name: string) returns (index: int)
    ensures index >= 0 ==> IsColumn(header, name, index) && NoColumn(header, name, index)
    ensures index < 0 ==> index == -1 && forall i: nat :: !IsColumn(header, name, i)
  {
    var p, at: nat := header, 0;
    while true
      invariant Rest(header, at) == Some(p)
      invariant NoColumn(header, name, at)
      decreases |p|
    {
      if p[..Span(p)] == name {
        return at;
      }
      var comma := Comma(p);
      if comma == |p| {
        NoColumnAtAll(header, name, at);
        return -1;
      }
      p := p[comma + 1..];
      at := at + 1;
    }
  }

  function Join(fields: seq<string>): string {
    if fields == [] then "\n"
    else if |fields| == 1 then fields[0] + "\n"
    else fields[0] + "," + Join(fields[1..])
  }

  /** Where the first field of a joined line ends. */
  lemma FirstOfJoin(fields: seq<string>)
    requires fields != [] && Plain(fields[0])
    ensures var line := Join(fields);
      && Span(line) == |fields[0]| && line[..|fields[0]|] == fields[0]
      && (|fields| > 1 ==> Comma(line) == |fields[0]| < |line| && line[|fields[0]| + 1..] == Join(fields[1..]))
      && (|fields| == 1 ==> Comma(line) == |line|)
  {
    var line, first := Join(fields), fields[0];
    assert forall i :: 0 <= i < |first| ==> line[i] == first[i];
    assert line[|first|] == if |fields| > 1 then ',' else '\n';
  }

  lemma {:induction false} RestOfJoin(fields: seq<string>, index: nat)
    requires index < |fields| && forall i :: 0 <= i < |fields| ==> Plain(fields[i])
    ensures Rest(Join(fields), index) == Some(Join(fields[index..]))
  {
    if index > 0 {
      RestOfJoin(fields, index - 1);
      FirstOfJoin(fields[index - 1..]);
      assert fields[index - 1..][1..] == fields[index..];
    } else {
      assert fields[0..] == fields;
    }
  }

  /** Fields without separators come back unchanged, and no column is added. */
  lemma ColumnOfJoin(fields: seq<string>, index: nat)
    requires fields != [] && forall i :: 0 <= i < |fields| ==> Plain(fields[i])
    ensures Column(Join(fields), index) == if index < |fields| then fields[index] else ""
    ensures Rest(Join(fields), index).Some? <==> index < |fields|
  {
    if index < |fields| {
      RestOfJoin(fields, index);
      FirstOfJoin(fields[index..]);
    } else {
      RestOfJoin(fields, |fields| - 1);
      FirstOfJoin(fields[|fields| - 1..]);
      NothingFurther(Join(fields), |fields|, index);
    }
  }

  // ------------------------------------------------------- counting rows

  const Header: seq<string> := ["net_name", "f_type", "cube_cnt", "complete", "fdp", "rep_net_name", "rep_f_type"]

  function Fields(row: Row, name: nat -> string, kind: nat -> string): seq<string> {
    [name(row.fault), kind(row.fault), row.cubeCnt, row.complete, row.fdp, name(row.rep), kind(row.rep)]
  }

  /** The text of the rows. */
  function Lines(rows: seq<Row>, name: nat -> string, kind: nat -> string): seq<string> {
    if rows == [] then []
    else Lines(rows[..|rows| - 1], name, kind) + [Join(Fields(rows[|rows| - 1], name, kind))]
  }

  datatype FaultCounts = FaultCounts(total: nat, undetectable: nat, equivalent: nat, incomplete: nat)

  datatype CsvColumns = CsvColumns(fdp: nat, cubeCnt: nat, complete: nat)

  predicate InUnit(density: Option<real>) { density.Some? && 0.0 <= density.value <= 1.0 }

  /** The effect of one line, None for a value that is no probability. */
  function CountLine(counts: FaultCounts, fdp: string, cubeCnt: string, complete: string, parse: string -> Option<real>): Option<FaultCounts> {
    if fdp == "" then Some(counts)
    else if !InUnit(parse(fdp)) then None
    else Some(FaultCounts(
      counts.total + 1,
      counts.undetectable + (if parse(fdp) == Some(0.0) then 1 else 0),
      counts.equivalent + (if cubeCnt == "" then 1 else 0),
      counts.incomplete + (if complete == "0" then 1 else 0)))
  }

  function CountOf(counts: FaultCounts, line: string, columns: CsvColumns, parse: string -> Option<real>): Option<FaultCounts> {
    CountLine(counts, Cut(Column(line, columns.fdp), 64), Cut(Column(line, columns.cubeCnt), 32),
              Cut(Column(line, columns.complete), 8), parse)
  }

  /** The counts over all lines. */
  function CountLines(lines: seq<string>, columns: CsvColumns, parse: string -> Option<real>): Option<FaultCounts> {
    if lines == [] then Some(FaultCounts(0, 0, 0, 0))
    else
      match CountLines(lines[..|lines| - 1], columns, parse)
      case None => None
      case Some(counts) => CountOf(counts, lines[|lines| - 1], columns, parse)
  }

  /** The text of a line in the three columns, as the reader cuts it. */
  function Fdp(line: string, columns: CsvColumns): string { Cut(Column(line, columns.fdp), 64) }
  function CubeCnt(line: string, columns: CsvColumns): string { Cut(Column(line, columns.cubeCnt), 32) }
  function Complete(line: string, columns: CsvColumns): string { Cut(Column(line, columns.complete), 8) }

  /** The lines with a property. */
  ghost function Indices(lines: seq<string>, p: string -> bool): set<nat> { set i: nat | i < |lines| && p(lines[i]) }

  /** The lines that count are those with a value. */
  ghost function Valued(lines: seq<string>, columns: CsvColumns): set<nat> { Indices(lines, line => Fdp(line, columns) != "") }

  ghost predicate AllValid(lines: seq<string>, columns: CsvColumns, parse: string -> Option<real>) {
    forall i :: 0 <= i < |lines| && Fdp(lines[i], columns) != "" ==> InUnit(parse(Fdp(lines[i], columns)))
  }

  ghost function ZeroLines(lines: seq<string>, columns: CsvColumns, parse: string -> Option<real>): set<nat> {
    Indices(lines, line => Fdp(line, columns) != "" && parse(Fdp(line, columns)) == Some(0.0))
  }

  ghost function SharedLines(lines: seq<string>, columns: CsvColumns): set<nat> {
    Indices(lines, line => Fdp(line, columns) != "" && CubeCnt(line, columns) == "")
  }

  ghost function CutOffLines(lines: seq<string>, columns: CsvColumns): set<nat> {
    Indices(lines, line => Fdp(line, columns) != "" && Complete(line, columns) == "0")
  }

  /** The counts are numbers of lines. */
  ghost predicate Counts(lines: seq<string>, columns: CsvColumns, parse: string -> Option<real>, counts: FaultCounts) {
    forall n {:trigger Unfold(n)} :: Unfold(n) ==>
    && counts.total == |Valued(lines, columns)| && counts.undetectable == |ZeroLines(lines, columns, parse)|
    && counts.equivalent == |SharedLines(lines, columns)| && counts.incomplete == |CutOffLines(lines, columns)|
  }

  lemma OneMoreIndex(lines: seq<string>, n: nat, p: string -> bool)
    requires |lines| == n + 1
    ensures |Indices(lines, p)| == |Indices(lines[..n], p)| + if p(lines[n]) then 1 else 0
  {
    assert Indices(lines, p) == Indices(lines[..n], p) + if p(lines[n]) then {n} else {};
  }

  /** Counting succeeds exactly if every value is a probability, with the numbers of lines. */
  lemma {:induction false} CountLinesCounts(lines: seq<string>, columns: CsvColumns, parse: string -> Option<real>)
    ensures CountLines(lines, columns, parse).Some? <==> AllValid(lines, columns, parse)
    ensures CountLines(lines, columns, parse).Some? ==> Counts(lines, columns, parse, CountLines(lines, columns, parse).value)
  {
    if lines == [] {
      NoLines(columns, parse);
    } else {
      var n := |lines| - 1;
      CountLinesCounts(lines[..n], columns, parse);
      OneMoreValid(lines, n, columns, parse);
      if CountLines(lines[..n], columns, parse).Some? { OneMoreCounts(lines, n, columns, parse, CountLines(lines[..n], columns, parse).value); }
    }
  }

  lemma NoLines(columns: CsvColumns, parse: string -> Option<real>)
    ensures Counts([], columns, parse, FaultCounts(0, 0, 0, 0))
  {
    assert Valued([], columns) == {} && ZeroLines([], columns, parse) == {};
    assert SharedLines([], columns) == {} && CutOffLines([], columns) == {};
  }

  lemma OneMoreValid(lines: seq<string>, n: nat, columns: CsvColumns, parse: string -> Option<real>)
    requires |lines| == n + 1
    ensures AllValid(lines, columns, parse) <==> AllValid(lines[..n], columns, parse) && (Fdp(lines[n], columns) != "" ==> InUnit(parse(Fdp(lines[n], columns))))
  {
    assert forall i :: 0 <= i < n ==> lines[..n][i] == lines[i];
  }

  lemma OneMoreCounts(lines: seq<string>, n: nat, columns: CsvColumns, parse: string -> Option<real>, counts: FaultCounts)
    requires |lines| == n + 1 && Counts(lines[..n], columns, parse, counts)
    ensures var more := CountOf(counts, lines[n], columns, parse); more.Some? ==> Counts(lines, columns, parse, more.value)
  {
    assert Unfold(0);
    OneMoreSizes(lines, n, columns, parse);
  }

  lemma OneMoreSizes(lines: seq<string>, n: nat, columns: CsvColumns, parse: string -> Option<real>)
    requires |lines| == n + 1
    ensures var v := Fdp(lines[n], columns) != "";
      && |Valued(lines, columns)| == |Valued(lines[..n], columns)| + (if v then 1 else 0)
      && |ZeroLines(lines, columns, parse)| == |ZeroLines(lines[..n], columns, parse)| + (if v && parse(Fdp(lines[n], columns)) == Some(0.0) then 1 else 0)
      && |SharedLines(lines, columns)| == |SharedLines(lines[..n], columns)| + (if v && CubeCnt(lines[n], columns) == "" then 1 else 0)
      && |CutOffLines(lines, columns)| == |CutOffLines(lines[..n], columns)| + (if v && Complete(lines[n], columns) == "0" then 1 else 0)
  {
    OneMoreIndex(lines, n, line => Fdp(line, columns) != "");
    OneMoreIndex(lines, n, line => Fdp(line, columns) != "" && parse(Fdp(line, columns)) == Some(0.0));
    OneMoreIndex(lines, n, line => Fdp(line, columns) != "" && CubeCnt(line, columns) == "");
    OneMoreIndex(lines, n, line => Fdp(line, columns) != "" && Complete(line, columns) == "0");
  }

  lemma {:induction false} InvalidStays(lines: seq<string>, k: nat, columns: CsvColumns, parse: string -> Option<real>)
    requires k <= |lines| && CountLines(lines[..k], columns, parse) == None
    ensures CountLines(lines, columns, parse) == None
  {
    if k < |lines| {
      assert lines[..|lines| - 1][..k] == lines[..k];
      InvalidStays(lines[..|lines| - 1], k, columns, parse);
    } else {
      assert lines[..k] == lines;
    }
  }

  /** The columns that counting needs are where the header first names them. */
  ghost predicate HasColumns(header: string, columns: CsvColumns) {
    && IsColumn(header, "fdp", columns.fdp) && NoColumn(header, "fdp", columns.fdp)
    && IsColumn(header, "cube_cnt", columns.cubeCnt) && NoColumn(header, "cube_cnt", columns.cubeCnt)
    && IsColumn(header, "complete", columns.complete) && NoColumn(header, "complete", columns.complete)
  }

  ghost predicate Lacks(header: string, name: string) { forall i: nat :: !IsColumn(header, name, i) }

  ghost predicate LacksColumns(header: string) {
    Lacks(header, "fdp") || Lacks(header, "cube_cnt") || Lacks(header, "complete")
  }

  method ReadCsvColumns(header: string) returns (ok: bool, columns: CsvColumns)
    ensures if ok then HasColumns(header, columns) else LacksColumns(header)
  {
    var fdp := CsvFindColumn(header, "fdp");
    var cubeCnt := CsvFindColumn(header, "cube_cnt");
    var complete := CsvFindColumn(header, "complete");
    if fdp < 0 || cubeCnt < 0 || complete < 0 {
      assert if fdp < 0 then Lacks(header, "fdp")
             else if cubeCnt < 0 then Lacks(header, "cube_cnt")
             else Lacks(header, "complete");
      return false, CsvColumns(0, 0, 0);
    }
    return true, CsvColumns(fdp, cubeCnt, complete);
  }

  lemma TotalIsValued(lines: seq<string>, columns: CsvColumns, parse: string -> Option<real>, counts: FaultCounts)
    requires Counts(lines, columns, parse, counts)
    ensures counts.total == |Valued(lines, columns)|
  {
    assert Unfold(0);
  }

  /** Counts the fault rows of a result file. */
  method AccumulateFaults(lines: seq<string>, parse: string -> Option<real>) returns (ok: bool, counts: FaultCounts, columns: CsvColumns)
    ensures ok ==> lines != [] && HasColumns(lines[0], columns)
    ensures ok ==> CountLines(lines[1..], columns, parse) == Some(counts) && counts.total > 0
    ensures ok ==> AllValid(lines[1..], columns, parse) && Counts(lines[1..], columns, parse, counts)
    ensures !ok && lines != [] && !LacksColumns(lines[0]) ==> HasColumns(lines[0], columns)
    ensures !ok && lines != [] && !LacksColumns(lines[0]) ==>
              match CountLines(lines[1..], columns, parse) { case None => true case Some(all) => all.total == 0 }
    ensures !ok && lines != [] && !LacksColumns(lines[0]) ==> !AllValid(lines[1..], columns, parse) || |Valued(lines[1..], columns)| == 0
  {
    counts, columns := FaultCounts(0, 0, 0, 0), CsvColumns(0, 0, 0);
    if lines == [] { return false, counts, columns; }
    var at;
    ok, at := ReadCsvColumns(lines[0]);
    columns := at;
    if !ok { return; }
    var valid;
    valid, counts := CountFaultLines(lines[1..], at, parse);
    CountLinesCounts(lines[1..], at, parse);
    if !valid { return false, counts, columns; }
    TotalIsValued(lines[1..], at, parse, counts);
    ok := counts.total > 0;
  }

  /** Counts line by line, up to the first value that is no probability. */
  method CountFaultLines(rows: seq<string>, at: CsvColumns, parse: string -> Option<real>) returns (valid: bool, counts: FaultCounts)
    ensures CountLines(rows, at, parse) == if valid then Some(counts) else None
  {
    counts := FaultCounts(0, 0, 0, 0);
    for i := 0 to |rows|
      invariant CountLines(rows[..i], at, parse) == Some(counts)
    {
      assert rows[..i + 1][..i] == rows[..i];
      var next := ReadFaultLine(rows[i], at, parse, counts);
      if next == None {
        InvalidStays(rows, i + 1, at, parse);
        return false, counts;
      }
      counts := next.value;
    }
    assert rows[..|rows|] == rows;
    valid := true;
  }

  method ReadFaultLine(line: string, at: CsvColumns, parse: string -> Option<real>, counts: FaultCounts) returns (next: Option<FaultCounts>)
    ensures next == CountOf(counts, line, at, parse)
  {
    var fdp := CsvField(line, at.fdp, 64);
    var cubeCnt := CsvField(line, at.cubeCnt, 32);
    var complete := CsvField(line, at.complete, 8);
    next := CountLine(counts, fdp, cubeCnt, complete, parse);
  }

  ghost predicate PlainRow(row: Row, name: nat -> string, kind: nat -> string) {
    forall i :: 0 <= i < |Fields(row, name, kind)| ==> Plain(Fields(row, name, kind)[i])
  }

  /** The columns of the header that the writer puts down. */
  lemma HeaderColumns(columns: CsvColumns)
    requires HasColumns(Join(Header), columns)
    ensures columns == CsvColumns(4, 2, 3)
  {
    HeaderColumn("fdp", columns.fdp);
    HeaderColumn("cube_cnt", columns.cubeCnt);
    HeaderColumn("complete", columns.complete);
  }

  lemma HeaderColumn(name: string, i: nat)
    requires IsColumn(Join(Header), name, i)
    ensures i < |Header| && Header[i] == name
  {
    HeaderIsPlain();
    ColumnOfJoin(Header, i);
  }

  lemma HeaderIsPlain()
    ensures forall i :: 0 <= i < |Header| ==> Plain(Header[i])
  {
    assert Plain("net_name") && Plain("f_type") && Plain("cube_cnt") && Plain("complete");
    assert Plain("fdp") && Plain("rep_net_name") && Plain("rep_f_type");
  }

  /** A row that can be written and read back: no separator in any field, and a
      probability that fits the reader's buffer. */
  ghost predicate Readable(row: Row, name: nat -> string, kind: nat -> string, parse: string -> Option<real>) {
    PlainRow(row, name, kind) && 0 < |row.fdp| < 64 && InUnit(parse(row.fdp)) && |row.complete| < 8
  }

  lemma ColumnsOfRow(row: Row, name: nat -> string, kind: nat -> string)
    requires PlainRow(row, name, kind)
    ensures var line := Join(Fields(row, name, kind));
            Column(line, 4) == row.fdp && Column(line, 2) == row.cubeCnt && Column(line, 3) == row.complete
  {
    var fields := Fields(row, name, kind);
    ColumnOfJoin(fields, 4);
    ColumnOfJoin(fields, 2);
    ColumnOfJoin(fields, 3);
  }

  function CountRow(counts: FaultCounts, row: Row, parse: string -> Option<real>): FaultCounts {
    FaultCounts(counts.total + 1, counts.undetectable + (if parse(row.fdp) == Some(0.0) then 1 else 0),
                counts.equivalent + (if row.cubeCnt == "" then 1 else 0),
                counts.incomplete + (if row.complete == "0" then 1 else 0))
  }

  lemma RowComesBack(counts: FaultCounts, row: Row, line: string, parse: string -> Option<real>)
    requires Column(line, 4) == row.fdp && Column(line, 2) == row.cubeCnt && Column(line, 3) == row.complete
    requires 0 < |row.fdp| < 64 && InUnit(parse(row.fdp)) && |row.complete| < 8
    ensures CountOf(counts, line, CsvColumns(4, 2, 3), parse) == Some(CountRow(counts, row, parse))
  {
    var cubeCnt := Cut(row.cubeCnt, 32);
    assert cubeCnt == "" <==> row.cubeCnt == "";
    assert CountOf(counts, line, CsvColumns(4, 2, 3), parse) == CountLine(counts, row.fdp, cubeCnt, row.complete, parse);
  }

  /** A line counts like a row, whatever was counted before. */
  ghost predicate ReadsAs(line: string, row: Row, parse: string -> Option<real>) {
    forall n {:trigger Unfold(n)} :: Unfold(n) ==>
      forall counts :: CountOf(counts, line, CsvColumns(4, 2, 3), parse) == Some(CountRow(counts, row, parse))
  }

  ghost predicate AllReadAs(lines: seq<string>, rows: seq<Row>, parse: string -> Option<real>) {
    && |lines| == |rows|
    && (rows != [] ==> AllReadAs(lines[..|rows| - 1], rows[..|rows| - 1], parse) && ReadsAs(lines[|rows| - 1], rows[|rows| - 1], parse))
  }

  ghost predicate AllReadable(rows: seq<Row>, name: nat -> string, kind: nat -> string, parse: string -> Option<real>) {
    forall n {:trigger Unfold(n)} :: Unfold(n) ==> forall i :: 0 <= i < |rows| ==> Readable(rows[i], name, kind, parse)
  }

  lemma {:induction false} LinesReadAs(rows: seq<Row>, name: nat -> string, kind: nat -> string, parse: string -> Option<real>)
    requires AllReadable(rows, name, kind, parse)
    ensures AllReadAs(Lines(rows, name, kind), rows, parse)
  {
    if rows != [] {
      var n := |rows| - 1;
      AllReadableInit(rows, n, name, kind, parse);
      LinesReadAs(rows[..n], name, kind, parse);
      LineReadsAs(rows[n], name, kind, parse);
      MoreReadAs(Lines(rows[..n], name, kind), rows, n, Join(Fields(rows[n], name, kind)), parse);
    }
  }

  lemma AllReadableInit(rows: seq<Row>, n: nat, name: nat -> string, kind: nat -> string, parse: string -> Option<real>)
    requires |rows| == n + 1 && AllReadable(rows, name, kind, parse)
    ensures AllReadable(rows[..n], name, kind, parse) && Readable(rows[n], name, kind, parse)
  {
    assert Unfold(0);
  }

  lemma MoreReadAs(lines: seq<string>, rows: seq<Row>, n: nat, line: string, parse: string -> Option<real>)
    requires |rows| == n + 1 && AllReadAs(lines, rows[..n], parse) && ReadsAs(line, rows[n], parse)
    ensures AllReadAs(lines + [line], rows, parse)
  {
    assert (lines + [line])[..n] == lines;
  }

  lemma LineReadsAs(row: Row, name: nat -> string, kind: nat -> string, parse: string -> Option<real>)
    requires Readable(row, name, kind, parse)
    ensures ReadsAs(Join(Fields(row, name, kind)), row, parse)
  {
    ColumnsOfRow(row, name, kind);
    forall counts
      ensures CountOf(counts, Join(Fields(row, name, kind)), CsvColumns(4, 2, 3), parse) == Some(CountRow(counts, row, parse))
    {
      RowComesBack(counts, row, Join(Fields(row, name, kind)), parse);
    }
  }

  lemma CountOneRow(counts: FaultCounts, line: string, row: Row, parse: string -> Option<real>)
    requires ReadsAs(line, row, parse)
    ensures CountOf(counts, line, CsvColumns(4, 2, 3), parse) == Some(CountRow(counts, row, parse))
  {
    assert Unfold(0);
  }

  /** Reading the written rows back counts them, the blank ones and the incomplete ones. */
  lemma {:induction false} CountsComeBack(lines: seq<string>, rows: seq<Row>, parse: string -> Option<real>)
    requires AllReadAs(lines, rows, parse)
    ensures var counts := CountLines(lines, CsvColumns(4, 2, 3), parse);
      && counts.Some? && counts.value.total == |rows|
      && counts.value.equivalent == BlankRows(rows) && counts.value.incomplete == Incomplete(rows)
      && counts.value.undetectable == ZeroRows(rows, parse)
  {
    if rows != [] {
      var n := |rows| - 1;
      CountsComeBack(lines[..n], rows[..n], parse);
      CountOneRow(CountLines(lines[..n], CsvColumns(4, 2, 3), parse).value, lines[n], rows[n], parse);
    }
  }

  /** The counts of the coverage calculation match those of the collapsing: the header
      that is written has the columns, Nf is the number of requested faults and Neq the
      number saved by collapsing. */
  lemma FileMatchesSummary(walk0: seq<nat>, k: Ranking, requested: seq<bool>, reps: seq<int>, members: seq<seq<nat>>,
                           walk: seq<nat>, stats: Summary, results: seq<FaultResult>,
                           name: nat -> string, kind: nat -> string, parse: string -> Option<real>)
    requires Finished(walk0, k, requested, reps, members, walk, stats) && |members| == |reps|
    requires forall f :: f in walk0 ==> f < |requested| && requested[f]
    requires Distinct(Targets(results)) && Faults(Targets(results)) == Faults(walk)
    requires AllReadable(AllRows(results, members, k.roots), name, kind, parse)
    ensures HasColumns(Join(Header), CsvColumns(4, 2, 3))
    ensures var rows := AllRows(results, members, k.roots);
            var counts := CountLines(Lines(rows, name, kind), CsvColumns(4, 2, 3), parse);
      && counts.Some? && counts.value.total == stats.outputFaults && counts.value.equivalent == stats.numequiv
      && counts.value.incomplete == |Unfinished(results)|
      && counts.value.undetectable == |Undetectable(results, k.roots, requested, parse)|
  {
    HeaderHasColumns();
    RowsAreConserved(walk0, k, requested, reps, members, walk, stats, results);
    var rows := AllRows(results, members, k.roots);
    LinesReadAs(rows, name, kind, parse);
    CountsComeBack(Lines(rows, name, kind), rows, parse);
    FinishedIsReported(walk0, k, requested, reps, members, walk, stats, results);
    IncompleteAreUnfinished(results, requested, k.roots, members);
    ZerosAreUndetectable(results, requested, k.roots, members, parse);
  }

  lemma HeaderHasColumns()
    ensures HasColumns(Join(Header), CsvColumns(4, 2, 3)) && !LacksColumns(Join(Header))
  {
    HeaderNames(4);
    HeaderNames(2);
    HeaderNames(3);
  }

  /** Every column of the header is the first one of its name. */
  lemma HeaderNames(n: nat)
    requires n < |Header|
    ensures IsColumn(Join(Header), Header[n], n) && NoColumn(Join(Header), Header[n], n)
  {
    HeaderIsPlain();
    ColumnOfJoin(Header, n);
    forall i: nat | i < n ensures !IsColumn(Join(Header), Header[n], i) {
      ColumnOfJoin(Header, i);
      NamesDiffer(i, n);
    }
  }

  lemma NamesDiffer(i: nat, n: nat)
    requires i < n < |Header|
    ensures Header[i] != Header[n]
  {
    assert |Header[0]| == |Header[2]| == |Header[3]| == 8 && |Header[1]| == 6;
    assert |Header[4]| == 3 && |Header[5]| == 12 && |Header[6]| == 10;
    assert Header[0][1] == 'e' && Header[2][1] == 'u' && Header[3][1] == 'o';
  }

  /** Reads the written file back, header included. It succeeds exactly when there was
      something to write, with the counts of the collapsing. */
  method ReadBack(rows: seq<Row>, name: nat -> string, kind: nat -> string, parse: string -> Option<real>,
                  ghost walk0: seq<nat>, ghost k: Ranking, ghost requested: seq<bool>, ghost reps: seq<int>, ghost members: seq<seq<nat>>,
                  ghost walk: seq<nat>, ghost stats: Summary, ghost results: seq<FaultResult>)
    returns (ok: bool, counts: FaultCounts)
    requires Finished(walk0, k, requested, reps, members, walk, stats) && |members| == |reps|
    requires forall f :: f in walk0 ==> f < |requested| && requested[f]
    requires Distinct(Targets(results)) && Faults(Targets(results)) == Faults(walk)
    requires rows == AllRows(results, members, k.roots) && AllReadable(rows, name, kind, parse)
    ensures ok <==> stats.outputFaults > 0
    ensures ok ==> counts.total == stats.outputFaults && counts.equivalent == stats.numequiv
    ensures ok ==> counts.incomplete == |Unfinished(results)| && counts.undetectable == |Undetectable(results, k.roots, requested, parse)|
  {
    FileMatchesSummary(walk0, k, requested, reps, members, walk, stats, results, name, kind, parse);
    HeaderHasColumns();
    var lines := [Join(Header)] + Lines(rows, name, kind);
    assert lines[0] == Join(Header) && lines[1..] == Lines(rows, name, kind);
    var columns;
    ok, counts, columns := AccumulateFaults(lines, parse);
    HeaderColumns(columns);
  }
}
