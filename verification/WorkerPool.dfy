/** The fault dispatcher: workers answer in any order, the parent writes the results
    in the order of the faults, and a successful run writes what the serial loop
    writes. */
module WorkerPool {
  import opened Cardinality
  import opened Options

  /** What analysing one fault produces: CSV rows and the text of its cube file. */
  datatype Output = Output(csv: string, cubes: string)

  datatype CubeFile = CubeFile(fault: nat, text: string)

  /** What was written for a range of faults. */
  datatype Written = Written(csv: string, cubes: seq<CubeFile>)

  type Task = nat -> Option<Output>

  const NO_FAULT: int := -1

  // -------------------------------------------------------- serial writing

  /** A cube file with no text is not written. */
  function WriteOutput(w: Written, fault: nat, o: Output, saveCubes: bool): Written {
    Written(w.csv + o.csv, if saveCubes && o.cubes != "" then w.cubes + [CubeFile(fault, o.cubes)] else w.cubes)
  }

  /** The outputs of the first k faults in order. */
  function Concat(task: Task, saveCubes: bool, k: nat): Written {
    if k == 0 then Written("", [])
    else
      match task(k - 1)
      case None => Concat(task, saveCubes, k - 1)
      case Some(o) => WriteOutput(Concat(task, saveCubes, k - 1), k - 1, o, saveCubes)
  }

  /** Where the rows of a fault begin: behind those of all faults before it. */
  function Offset(task: Task, f: nat): nat {
    if f == 0 then 0 else Offset(task, f - 1) + match task(f - 1) case None => 0 case Some(o) => |o.csv|
  }

  /** The rows of the fault stand at its offset. */
  ghost predicate RowsStand(task: Task, csv: string, f: nat) { task(f).Some? ==> StandsAt(csv, Offset(task, f), task(f).value.csv) }

  /** The cube file belongs to one of the first k faults. */
  ghost predicate IsCubeFile(task: Task, k: nat, x: CubeFile) {
    x.fault < k && x.text != "" && task(x.fault).Some? && task(x.fault).value.cubes == x.text
  }

  /** The rows of each of the first k faults stand in order, with nothing else between
      them, and so do the cube files of those that have one. */
  ghost predicate InOrder(task: Task, saveCubes: bool, k: nat, w: Written) {
    && |w.csv| == Offset(task, k) && (forall f: nat {:trigger RowsStand(task, w.csv, f)} :: f < k ==> RowsStand(task, w.csv, f))
    && (forall a, b :: 0 <= a < b < |w.cubes| ==> w.cubes[a].fault < w.cubes[b].fault)
    && forall x: CubeFile :: x in w.cubes <==> saveCubes && IsCubeFile(task, k, x)
  }

  predicate StandsAt(text: string, at: nat, part: string) { at + |part| <= |text| && text[at..at + |part|] == part }

  /** Later text leaves earlier text in place. */
  lemma StillStands(text: string, at: nat, part: string, more: string)
    requires StandsAt(text, at, part)
    ensures StandsAt(text + more, at, part)
  {
    assert (text + more)[at..at + |part|] == text[at..at + |part|];
  }

  lemma {:induction false} ConcatIsInOrder(task: Task, saveCubes: bool, k: nat)
    ensures InOrder(task, saveCubes, k, Concat(task, saveCubes, k))
  {
    if k > 0 {
      ConcatIsInOrder(task, saveCubes, k - 1);
      OneMoreOutput(task, saveCubes, k - 1, Concat(task, saveCubes, k - 1));
    }
  }

  lemma OneMoreOutput(task: Task, saveCubes: bool, k: nat, w: Written)
    requires InOrder(task, saveCubes, k, w)
    ensures task(k).Some? ==> InOrder(task, saveCubes, k + 1, WriteOutput(w, k, task(k).value, saveCubes))
    ensures task(k).None? ==> InOrder(task, saveCubes, k + 1, w)
  {
    if task(k).Some? {
      var o := task(k).value;
      forall f: nat | f < k + 1 ensures RowsStand(task, w.csv + o.csv, f) {
        if f < k && task(f).Some? {
          assert RowsStand(task, w.csv, f);
          StillStands(w.csv, Offset(task, f), task(f).value.csv, o.csv);
        }
      }
      if saveCubes && o.cubes != "" { OneMoreFile(w.cubes, k, o.cubes); }
    }
  }

  lemma OneMoreFile(files: seq<CubeFile>, f: nat, text: string)
    requires (forall a, b :: 0 <= a < b < |files| ==> files[a].fault < files[b].fault) && forall x :: x in files ==> x.fault < f
    ensures var more := files + [CubeFile(f, text)];
      forall a, b :: 0 <= a < b < |more| ==> more[a].fault < more[b].fault
  {
    forall a | 0 <= a < |files| ensures files[a].fault < f { assert files[a] in files; }
  }

  /** What is written stays a beginning of what is written later. */
  ghost predicate Continues(w: Written, w': Written) { w.csv <= w'.csv && w.cubes <= w'.cubes }

  lemma {:induction false} ConcatContinues(task: Task, saveCubes: bool, k: nat, n: nat)
    requires k <= n
    ensures Continues(Concat(task, saveCubes, k), Concat(task, saveCubes, n))
    decreases n
  {
    if k < n { ConcatContinues(task, saveCubes, k, n - 1); }
  }

  /** The serial loop: one fault after the other, until one fails. */
  method AnalyzeSerially(task: Task, count: nat, saveCubes: bool) returns (ok: bool, written: Written)
    ensures ok <==> forall f :: 0 <= f < count ==> task(f).Some?
    ensures ok ==> written == Concat(task, saveCubes, count) && InOrder(task, saveCubes, count, written)
    ensures !ok ==> exists k: nat :: k < count && task(k) == None && (forall f :: 0 <= f < k ==> task(f).Some?)
                                     && written == Concat(task, saveCubes, k) && InOrder(task, saveCubes, k, written)
  {
    written := Written("", []);
    var index: nat := 0;
    while index < count
      invariant index <= count && (forall f :: 0 <= f < index ==> task(f).Some?) && written == Concat(task, saveCubes, index)
    {
      match task(index) {
        case None =>
          ConcatIsInOrder(task, saveCubes, index);
          return false, written;
        case Some(o) => written := WriteOutput(written, index, o, saveCubes);
      }
      index := index + 1;
    }
    ConcatIsInOrder(task, saveCubes, count);
    ok := true;
  }

  // ------------------------------------------------------- the pool's state

  datatype Pending = Pending(output: Output, ready: bool)

  /** What reading from and writing to one worker's socket yields in a round. */
  datatype Exchange = Lost | Reply(fault: int, succeeded: bool, csv: string, cubes: string, sendOk: bool)

  datatype Round = Interrupted(cancelled: bool) | PollFailed | Ready(exchanges: map<nat, Exchange>)

  /** A successful reply carries the result of the fault it names. */
  ghost predicate Honest(task: Task, e: Exchange) {
    e.Reply? && e.succeeded && e.fault >= 0 ==> task(e.fault) == Some(Output(e.csv, e.cubes))
  }

  ghost predicate AllHonest(task: Task, rounds: seq<Round>) {
    forall r, i {:trigger rounds[r].exchanges[i]} :: 0 <= r < |rounds| && rounds[r].Ready? && i in rounds[r].exchanges ==> Honest(task, rounds[r].exchanges[i])
  }

  ghost function ReadyFaults(results: seq<Pending>): set<nat> { set f | 0 <= f < |results| && results[f].ready }

  datatype State = State(workers: seq<int>, results: seq<Pending>, nextFault: nat, completed: nat, nextOutput: nat, written: Written, handedTo: seq<nat>)

  /** Faults before nextFault were handed out once each; every one of them is either
      answered or held by the worker it was handed to. */
  ghost predicate Dispatched(s: State) {
    && |s.handedTo| == s.nextFault <= |s.results|
    && (forall i :: 0 <= i < |s.workers| ==> s.workers[i] == NO_FAULT || Holds(s, i, s.workers[i]))
    && (forall f: nat :: f < s.nextFault && !s.results[f].ready ==> s.handedTo[f] < |s.workers| && s.workers[s.handedTo[f]] == f)
    && (forall f: nat :: f < |s.results| && s.results[f].ready ==> f < s.nextFault)
  }

  ghost predicate Holds(s: State, i: nat, f: int) {
    0 <= f < s.nextFault <= |s.results| && |s.handedTo| == s.nextFault && s.handedTo[f] == i && !s.results[f].ready
  }

  /** Everything up to nextOutput is written, everything answered later is buffered. */
  ghost predicate Buffered(s: State, task: Task, saveCubes: bool) {
    && s.nextOutput <= |s.results| && s.completed == |ReadyFaults(s.results)|
    && (forall f: nat :: f < |s.results| && s.results[f].ready ==> task(f).Some?)
    && (forall f: nat :: f < s.nextOutput ==> s.results[f].ready)
    && (forall f: nat :: s.nextOutput <= f < |s.results| && s.results[f].ready ==> task(f) == Some(s.results[f].output))
    && s.written == Concat(task, saveCubes, s.nextOutput)
  }

  /** A worker is idle only when every fault was handed out. */
  ghost predicate Busy(s: State) {
    forall i :: 0 <= i < |s.workers| && s.workers[i] == NO_FAULT ==> s.nextFault == |s.results|
  }

  ghost predicate Good(s: State, task: Task, saveCubes: bool) { Dispatched(s) && Buffered(s, task, saveCubes) }

  // ------------------------------------------------------------- the steps

  function Assign(s: State, i: nat): State
    requires i < |s.workers|
  {
    if s.nextFault == |s.results| then s.(workers := s.workers[i := NO_FAULT])
    else s.(workers := s.workers[i := s.nextFault], nextFault := s.nextFault + 1, handedTo := s.handedTo + [i])
  }

  /** Handing out the next fault to a worker that holds none, or whose fault is answered. */
  lemma AssignStep(s: State, i: nat, task: Task, saveCubes: bool)
    requires Good(s, task, saveCubes) && i < |s.workers|
    requires forall f: nat :: f < s.nextFault && !s.results[f].ready ==> s.handedTo[f] != i
    ensures Good(Assign(s, i), task, saveCubes)
  {
    var t := Assign(s, i);
    forall j: nat | j < |t.workers| ensures t.workers[j] == NO_FAULT || Holds(t, j, t.workers[j]) {
      if j != i { assert s.workers[j] == NO_FAULT || Holds(s, j, s.workers[j]); }
    }
    forall f: nat | f < t.nextFault && !t.results[f].ready ensures t.handedTo[f] < |t.workers| && t.workers[t.handedTo[f]] == f {
      if f < s.nextFault { assert s.handedTo[f] != i; }
    }
  }

  function Receive(s: State, f: nat, o: Output): State
    requires f < |s.results|
  {
    s.(results := s.results[f := Pending(o, true)], completed := s.completed + 1)
  }

  /** A worker's answer for the fault it holds. It leaves the worker without an open fault. */
  lemma ReceiveStep(s: State, i: nat, o: Output, task: Task, saveCubes: bool)
    requires Good(s, task, saveCubes) && i < |s.workers| && s.workers[i] != NO_FAULT && s.workers[i] >= 0
    requires task(s.workers[i]) == Some(o)
    ensures s.workers[i] < |s.results| && !s.results[s.workers[i]].ready
    ensures var t := Receive(s, s.workers[i], o);
      && Dispatched(t.(workers := t.workers[i := NO_FAULT])) && Buffered(t, task, saveCubes)
      && (forall f: nat :: f < t.nextFault && !t.results[f].ready ==> t.handedTo[f] != i)
  {
    var f0: nat := s.workers[i];
    assert Holds(s, i, f0);
    var t := Receive(s, f0, o);
    assert ReadyFaults(t.results) == ReadyFaults(s.results) + {f0};
    var u := t.(workers := t.workers[i := NO_FAULT]);
    forall j: nat | j < |u.workers| ensures u.workers[j] == NO_FAULT || Holds(u, j, u.workers[j]) {
      if j != i {
        assert s.workers[j] == NO_FAULT || Holds(s, j, s.workers[j]);
      }
    }
    forall f: nat | f < t.nextFault && !t.results[f].ready ensures t.handedTo[f] != i {
      assert s.workers[s.handedTo[f]] == f;
    }
  }

  function Write(s: State, task: Task, saveCubes: bool): State
    requires s.nextOutput < |s.results|
  {
    s.(nextOutput := s.nextOutput + 1, written := WriteOutput(s.written, s.nextOutput, s.results[s.nextOutput].output, saveCubes),
       results := s.results[s.nextOutput := s.results[s.nextOutput].(output := Output("", ""))])
  }

  lemma WriteStep(s: State, task: Task, saveCubes: bool)
    requires s.nextOutput < |s.results| && s.results[s.nextOutput].ready && Buffered(s, task, saveCubes)
    ensures Buffered(Write(s, task, saveCubes), task, saveCubes)
    ensures Dispatched(s) ==> Dispatched(Write(s, task, saveCubes))
  {
    var t := Write(s, task, saveCubes);
    assert ReadyFaults(t.results) == ReadyFaults(s.results);
    if Dispatched(s) {
      forall j: nat | j < |t.workers| ensures t.workers[j] == NO_FAULT || Holds(t, j, t.workers[j]) {
        assert s.workers[j] == NO_FAULT || Holds(s, j, s.workers[j]);
      }
    }
  }

  // --------------------------------------------------------- consequences

  /** When all answers are in, every fault is answered. */
  lemma AllAnswered(s: State, task: Task, saveCubes: bool)
    requires Buffered(s, task, saveCubes) && s.completed == |s.results|
    ensures forall f: nat :: f < |s.results| ==> s.results[f].ready
  {
    var fs, all := ReadyFaults(s.results), Below(|s.results|);
    assert all == fs + (all - fs);
    assert |all - fs| == 0;
    forall f: nat | f < |s.results| ensures s.results[f].ready { assert f in all; }
  }

  lemma SomeUnanswered(results: seq<Pending>, completed: nat) returns (f: nat)
    requires completed == |ReadyFaults(results)| && completed < |results|
    ensures f < |results| && !results[f].ready
  {
    var fs, all := ReadyFaults(results), Below(|results|);
    assert all == fs + (all - fs);
    f :| f in all - fs;
  }

  /** While answers are missing, some worker holds a fault: waiting is never in vain. */
  lemma SomeoneIsWorking(s: State, task: Task, saveCubes: bool)
    requires Dispatched(s) && Buffered(s, task, saveCubes) && Busy(s) && |s.workers| > 0 && s.completed < |s.results|
    ensures exists i :: 0 <= i < |s.workers| && s.workers[i] >= 0
  {
    var f := SomeUnanswered(s.results, s.completed);
    if f < s.nextFault {
      assert s.workers[s.handedTo[f]] == f;
    } else {
      assert s.workers[0] != NO_FAULT;
      assert Holds(s, 0, s.workers[0]);
    }
  }

  /** No two workers hold the same fault. */
  lemma FaultsAreHeldOnce(s: State, i: nat, j: nat)
    requires Dispatched(s) && i < j < |s.workers| && s.workers[i] != NO_FAULT
    ensures s.workers[i] != s.workers[j]
  {
    assert s.workers[i] == NO_FAULT || Holds(s, i, s.workers[i]);
    assert s.workers[j] == NO_FAULT || Holds(s, j, s.workers[j]);
  }

  /** The reply that a worker holding the fault owes. That the fault might be answered
      already is ruled out by the pool's invariant. */
  predicate Acceptable(e: Exchange, fault: int, saveCubes: bool) {
    fault >= 0 && e.Reply? && e.succeeded && e.fault == fault && (saveCubes || e.cubes == "")
  }

  // ------------------------------------------------- when a run succeeds

  /** Which worker holds which fault, how many were handed out and how many answered. */
  datatype Hold = Hold(workers: seq<int>, next: nat, done: nat)

  /** Worker i answered and gets the next fault, if there is one. */
  function Handed(h: Hold, i: nat, count: nat): Hold
    requires i < |h.workers|
  {
    if h.next == count then h.(workers := h.workers[i := NO_FAULT], done := h.done + 1)
    else Hold(h.workers[i := h.next], h.next + 1, h.done + 1)
  }

  /** The workers from i on are looked at; none if one of them fails. */
  function AfterRound(h: Hold, exchanges: map<nat, Exchange>, i: nat, count: nat, saveCubes: bool): Option<Hold>
    requires i <= |h.workers|
    decreases |h.workers| - i
  {
    if i == |h.workers| then Some(h)
    else if i !in exchanges then AfterRound(h, exchanges, i + 1, count, saveCubes)
    else if Acceptable(exchanges[i], h.workers[i], saveCubes) && (exchanges[i].sendOk || h.next == count) then
      AfterRound(Handed(h, i, count), exchanges, i + 1, count, saveCubes)
    else None
  }

  /** The rounds from r on bring all answers in before anything goes wrong. */
  predicate Succeeds(h: Hold, rounds: seq<Round>, r: nat, count: nat, saveCubes: bool)
    requires r <= |rounds|
    decreases |rounds| - r
  {
    h.done >= count ||
    (r < |rounds| &&
     match rounds[r] {
       case Interrupted(cancelled) => !cancelled && Succeeds(h, rounds, r + 1, count, saveCubes)
       case PollFailed => false
       case Ready(exchanges) =>
         match AfterRound(h, exchanges, 0, count, saveCubes) {
           case None => false
           case Some(h') => Succeeds(h', rounds, r + 1, count, saveCubes)
         }
     })
  }

  predicate AllStarted(startOk: seq<bool>) { forall i :: 0 <= i < |startOk| ==> startOk[i] }

  /** The first faults are with the workers, one each. */
  function Started(workerCount: nat): Hold { Hold(seq(workerCount, i => i), workerCount, 0) }

  /** Whoever replies in a round replies for the fault held, and sending works. */
  ghost predicate GoodRound(h: Hold, exchanges: map<nat, Exchange>, i: nat, saveCubes: bool) {
    forall j :: i <= j < |h.workers| && j in exchanges ==> Acceptable(exchanges[j], h.workers[j], saveCubes) && exchanges[j].sendOk
  }

  /** Nothing is cancelled, polling works, and all rounds are good. */
  ghost predicate GoodRounds(h: Hold, rounds: seq<Round>, r: nat, count: nat, saveCubes: bool)
    requires r <= |rounds|
    decreases |rounds| - r
  {
    r == |rounds| ||
    match rounds[r] {
      case Interrupted(cancelled) => !cancelled && GoodRounds(h, rounds, r + 1, count, saveCubes)
      case PollFailed => false
      case Ready(exchanges) =>
        && GoodRound(h, exchanges, 0, saveCubes) && AfterRound(h, exchanges, 0, count, saveCubes).Some?
        && GoodRounds(AfterRound(h, exchanges, 0, count, saveCubes).value, rounds, r + 1, count, saveCubes)
    }
  }

  /** How many of n workers reply in a round, from worker i on. */
  function RepliesIn(exchanges: map<nat, Exchange>, i: nat, n: nat): nat
    requires i <= n
    decreases n - i
  {
    if i == n then 0 else RepliesIn(exchanges, i + 1, n) + if i in exchanges then 1 else 0
  }

  /** How many replies all rounds from r on bring. */
  function Replies(rounds: seq<Round>, r: nat, n: nat): nat
    requires r <= |rounds|
    decreases |rounds| - r
  {
    if r == |rounds| then 0
    else Replies(rounds, r + 1, n) + if rounds[r].Ready? then RepliesIn(rounds[r].exchanges, 0, n) else 0
  }

  lemma {:induction false} GoodRoundCounts(h: Hold, exchanges: map<nat, Exchange>, i: nat, count: nat, saveCubes: bool)
    requires i <= |h.workers| && GoodRound(h, exchanges, i, saveCubes)
    ensures var after := AfterRound(h, exchanges, i, count, saveCubes);
      && after.Some? && |after.value.workers| == |h.workers|
      && after.value.done == h.done + RepliesIn(exchanges, i, |h.workers|)
    decreases |h.workers| - i
  {
    if i < |h.workers| {
      var h' := if i in exchanges then Handed(h, i, count) else h;
      assert forall j :: i < j < |h.workers| ==> h'.workers[j] == h.workers[j];
      GoodRoundCounts(h', exchanges, i + 1, count, saveCubes);
    }
  }

  /** With good rounds only, a run succeeds exactly when there are enough replies. */
  lemma {:induction false} GoodRoundsSucceed(h: Hold, rounds: seq<Round>, r: nat, count: nat, saveCubes: bool)
    requires r <= |rounds| && GoodRounds(h, rounds, r, count, saveCubes)
    ensures Succeeds(h, rounds, r, count, saveCubes) <==> h.done + Replies(rounds, r, |h.workers|) >= count
    decreases |rounds| - r
  {
    if r < |rounds| {
      match rounds[r] {
        case Interrupted(_) => GoodRoundsSucceed(h, rounds, r + 1, count, saveCubes);
        case PollFailed =>
        case Ready(exchanges) =>
          GoodRoundCounts(h, exchanges, 0, count, saveCubes);
          GoodRoundsSucceed(AfterRound(h, exchanges, 0, count, saveCubes).value, rounds, r + 1, count, saveCubes);
      }
    }
  }

  // -------------------------------------------------------------- the pool

  class FaultPool {
    const faultCount: nat
    const workerCount: nat
    const task: Task
    const saveCubes: bool
    const workers: array<int>
    const listening: array<bool>
    const results: array<Pending>
    var nextFault: nat
    var completedFaults: nat
    var nextOutput: nat
    var written: Written
    ghost var handedTo: seq<nat>

    ghost function Now(): State
      reads this, workers, results
    {
      State(workers[..], results[..], nextFault, completedFaults, nextOutput, written, handedTo)
    }

    ghost function Held(): Hold
      reads this, workers
    {
      Hold(workers[..], nextFault, completedFaults)
    }

    ghost predicate Valid()
      reads this, workers, listening, results
    {
      && workers.Length == listening.Length == workerCount && results.Length == faultCount
      && Good(Now(), task, saveCubes)
      && (forall i :: 0 <= i < workerCount ==> (listening[i] <==> workers[i] != NO_FAULT))
    }

    constructor (count: nat, jobs: nat, t: Task, save: bool)
      requires jobs >= 1
      ensures Valid() && faultCount == count && workerCount == (if jobs < count then jobs else count) && task == t && saveCubes == save
      ensures nextFault == 0 && completedFaults == 0 && nextOutput == 0 && written == Written("", [])
      ensures fresh(workers) && fresh(listening) && fresh(results)
      ensures forall i :: 0 <= i < workerCount ==> workers[i] == NO_FAULT
      ensures forall f :: 0 <= f < faultCount ==> !results[f].ready
    {
      faultCount, task, saveCubes := count, t, save;
      workerCount := if jobs < count then jobs else count;
      workers := new int[if jobs < count then jobs else count](_ => NO_FAULT);
      listening := new bool[if jobs < count then jobs else count](_ => false);
      results := new Pending[count](_ => Pending(Output("", ""), false));
      nextFault, completedFaults, nextOutput, written, handedTo := 0, 0, 0, Written("", []), [];
      new;
      assert ReadyFaults(results[..]) == {};
    }

    /** Worker i waits for its next fault: what it held before is answered. */
    ghost predicate Answered(i: nat)
      reads this, workers, listening, results
    {
      && i < workers.Length == listening.Length == workerCount && results.Length == faultCount
      && Buffered(Now(), task, saveCubes)
      && Dispatched(Now().(workers := workers[..][i := NO_FAULT]))
      && (forall f: nat :: f < nextFault && f < faultCount && !results[f].ready ==> f < |handedTo| && handedTo[f] != i)
      && (forall j :: 0 <= j < workerCount && j != i ==> (listening[j] <==> workers[j] != NO_FAULT))
    }

    /** Hands the next fault to a worker, or lets it rest when none is left. */
    method AssignNextFault(i: nat, sendOk: bool) returns (ok: bool)
      requires Answered(i)
      modifies this`nextFault, this`handedTo, workers, listening
      ensures Valid() && Now() == Assign(old(Now()), i)
      ensures ok <==> sendOk || old(nextFault) == faultCount
    {
      ghost var before := Now();
      AssignStep(before.(workers := before.workers[i := NO_FAULT]), i, task, saveCubes);
      assert Assign(before.(workers := before.workers[i := NO_FAULT]), i) == Assign(before, i);
      if nextFault == faultCount {
        workers[i] := NO_FAULT;
        listening[i] := false;
        ok := true;
      } else {
        workers[i] := nextFault;
        nextFault := nextFault + 1;
        handedTo := handedTo + [i];
        listening[i] := true;
        ok := sendOk;
      }
      assert Now() == Assign(before, i);
    }

    /** Takes over a worker's answer if it is the expected one. */
    method ReceiveFaultResult(i: nat, e: Exchange) returns (ok: bool)
      requires Valid() && i < workerCount && Honest(task, e)
      modifies this`completedFaults, results
      ensures workers[..] == old(workers[..]) && nextFault == old(nextFault) && handedTo == old(handedTo)
      ensures nextOutput == old(nextOutput) && written == old(written)
      ensures !ok ==> Now() == old(Now())
      ensures ok <==> workers[i] >= 0 && e.Reply? && e.succeeded && e.fault == workers[i] && (saveCubes || e.cubes == "")
      ensures ok <==> Acceptable(e, workers[i], saveCubes)
      ensures ok ==> workers[i] < faultCount && Now() == Receive(old(Now()), workers[i], Output(e.csv, e.cubes))
      ensures ok ==> Answered(i)
    {
      var fault := workers[i];
      if fault < 0 || e.Lost? { return false; }
      ghost var before := Now();
      assert before.workers[i] == NO_FAULT || Holds(before, i, before.workers[i]);
      if !e.succeeded || e.fault != fault || results[fault].ready || (!saveCubes && e.cubes != "") {
        return false;
      }
      ReceiveStep(before, i, Output(e.csv, e.cubes), task, saveCubes);
      results[fault] := Pending(Output(e.csv, e.cubes), true);
      completedFaults := completedFaults + 1;
      assert Now() == Receive(before, fault, Output(e.csv, e.cubes));
      ok := true;
    }

    method WriteNext(ghost i: nat)
      requires Answered(i) && nextOutput < faultCount && results[nextOutput].ready
      modifies this`nextOutput, this`written, results
      ensures Answered(i) && nextOutput == old(nextOutput) + 1 && Continues(old(written), written)
      ensures forall f :: 0 <= f < faultCount ==> results[f].ready == old(results[f].ready)
    {
      ghost var before := Now();
      WriteStep(before, task, saveCubes);
      WriteStep(before.(workers := before.workers[i := NO_FAULT]), task, saveCubes);
      var fault := nextOutput;
      nextOutput := nextOutput + 1;
      written := WriteOutput(written, fault, results[fault].output, saveCubes);
      results[fault] := results[fault].(output := Output("", ""));
      assert Now() == Write(before, task, saveCubes);
      assert Now().(workers := workers[..][i := NO_FAULT]) == Write(before.(workers := before.workers[i := NO_FAULT]), task, saveCubes);
    }

    /** Writes what is next in order and already answered. */
    method WriteReadyResults(ghost i: nat)
      requires Answered(i)
      modifies this`nextOutput, this`written, results
      ensures Answered(i) && Continues(old(written), written)
      ensures forall f :: 0 <= f < faultCount ==> results[f].ready == old(results[f].ready)
      ensures nextOutput >= faultCount || !results[nextOutput].ready
    {
      while nextOutput < faultCount && results[nextOutput].ready
        invariant Answered(i) && Continues(old(written), written)
        invariant forall f :: 0 <= f < faultCount ==> results[f].ready == old(results[f].ready)
        decreases faultCount - nextOutput
      {
        WriteNext(i);
      }
    }

    /** Nothing that could be written is waiting. */
    ghost predicate Flushed()
      reads this, results
    {
      nextOutput >= results.Length || !results[nextOutput].ready
    }

    /** Takes a worker's answer and writes what is due. */
    method TakeAnswer(i: nat, e: Exchange) returns (ok: bool)
      requires Valid() && Flushed() && i < workerCount && Honest(task, e)
      modifies this`completedFaults, this`nextOutput, this`written, results
      ensures Buffered(Now(), task, saveCubes) && Flushed() && (ok ==> Answered(i))
      ensures ok <==> Acceptable(e, workers[i], saveCubes)
      ensures Held() == old(Held()).(done := if ok then old(completedFaults) + 1 else old(completedFaults))
    {
      ok := ReceiveFaultResult(i, e);
      if ok { WriteReadyResults(i); }
    }

    /** Handles one readable worker: takes its answer, writes what is due, hands it
        the next fault. Each handled answer brings the end one step closer. */
    method HandleWorker(i: nat, e: Exchange) returns (ok: bool)
      requires Valid() && Flushed() && Busy(Now()) && i < workerCount && Honest(task, e)
      modifies this`nextFault, this`completedFaults, this`nextOutput, this`written, this`handedTo, workers, listening, results
      ensures Buffered(Now(), task, saveCubes) && Flushed()
      ensures ok ==> Valid() && Busy(Now()) && completedFaults == old(completedFaults) + 1
      ensures ok <==> Acceptable(e, old(workers[i]), saveCubes) && (e.sendOk || old(nextFault) == faultCount)
      ensures ok ==> Held() == Handed(old(Held()), i, faultCount)
    {
      ok := TakeAnswer(i, e);
      if !ok { return; }
      ghost var answered := Now();
      assert answered.workers == Held().workers;
      ok := AssignNextFault(i, e.sendOk);
      StillBusy(answered, i);
      assert Held().workers == Assign(answered, i).workers && nextFault == Assign(answered, i).nextFault;
    }

    /** Collects answers until all are in. Rounds that run out mean waiting for ever. */
    method CollectFaultResults(rounds: seq<Round>) returns (finished: bool, ok: bool)
      requires Valid() && Flushed() && Busy(Now()) && AllHonest(task, rounds)
      modifies this`nextFault, this`completedFaults, this`nextOutput, this`written, this`handedTo, workers, listening, results
      ensures Buffered(Now(), task, saveCubes)
      ensures ok ==> finished && written == Concat(task, saveCubes, faultCount) && forall f: nat :: f < faultCount ==> task(f).Some?
      ensures ok <==> Succeeds(old(Held()), rounds, 0, faultCount, saveCubes)
      ensures !finished ==> Valid() && Busy(Now()) && completedFaults < faultCount
    {
      var cancelled := false;
      var r: nat := 0;
      while completedFaults < faultCount && !cancelled
        invariant r <= |rounds| && Valid() && Flushed() && Busy(Now())
        invariant Succeeds(old(Held()), rounds, 0, faultCount, saveCubes) <==> !cancelled && Succeeds(Held(), rounds, r, faultCount, saveCubes)
        decreases |rounds| - r
      {
        if r == |rounds| { return false, false; }
        var round := rounds[r];
        r := r + 1;
        match round {
          case Interrupted(c) => cancelled := c;
          case PollFailed => return true, false;
          case Ready(exchanges) =>
            var good := HandleRound(rounds, r - 1, exchanges);
            if !good { return true, false; }
        }
      }
      if !cancelled { Complete(Now(), task, saveCubes); }
      return true, !cancelled && completedFaults == faultCount;
    }

    /** Goes through the readable workers of one round. */
    method HandleRound(ghost rounds: seq<Round>, ghost r: nat, exchanges: map<nat, Exchange>) returns (ok: bool)
      requires Valid() && Flushed() && Busy(Now()) && AllHonest(task, rounds) && r < |rounds| && rounds[r] == Ready(exchanges)
      modifies this`nextFault, this`completedFaults, this`nextOutput, this`written, this`handedTo, workers, listening, results
      ensures Buffered(Now(), task, saveCubes) && Flushed()
      ensures ok ==> Valid() && Busy(Now()) && completedFaults >= old(completedFaults)
      ensures AfterRound(old(Held()), exchanges, 0, faultCount, saveCubes) == if ok then Some(Held()) else None
    {
      for i := 0 to workerCount
        invariant Valid() && Flushed() && Busy(Now()) && completedFaults >= old(completedFaults)
        invariant AfterRound(old(Held()), exchanges, 0, faultCount, saveCubes) == AfterRound(Held(), exchanges, i, faultCount, saveCubes)
      {
        if i !in exchanges { continue; }
        assert Honest(task, rounds[r].exchanges[i]);
        var good := HandleWorker(i, exchanges[i]);
        if !good { return false; }
      }
      ok := true;
    }

    /** Gives every worker its first fault. */
    method StartWorkers(startOk: seq<bool>) returns (ok: bool)
      requires Valid() && nextFault == 0 && |startOk| == workerCount <= faultCount && nextOutput == 0
      requires forall i :: 0 <= i < workerCount ==> workers[i] == NO_FAULT
      requires forall f :: 0 <= f < faultCount ==> !results[f].ready
      modifies this`nextFault, this`handedTo, workers, listening
      ensures Valid() && nextOutput == old(nextOutput) && written == old(written) && results[..] == old(results[..])
      ensures ok ==> Busy(Now()) && workers[..] == Started(workerCount).workers && nextFault == workerCount
      ensures completedFaults == old(completedFaults) && (ok <==> AllStarted(startOk))
    {
      for i := 0 to workerCount
        invariant forall j :: 0 <= j < i ==> startOk[j]
        invariant Valid() && nextFault == i && (forall j :: 0 <= j < i ==> handedTo[j] == j)
        invariant forall j :: 0 <= j < i ==> workers[j] == j
      {
        ghost var before := Now();
        ok := AssignNextFault(i, startOk[i]);
        assert workers[..] == before.workers[i := i];
        assert forall j :: 0 <= j < i ==> workers[..][j] == before.workers[j];
        if !ok { return; }
      }
      ok := true;
    }
  }

  /** A worker only goes idle when nothing is left to hand out. */
  lemma StillBusy(s: State, i: nat)
    requires i < |s.workers| && Busy(s)
    ensures Busy(Assign(s, i))
  {
  }

  /** All answered and flushed: everything is written, as the serial loop would. */
  lemma Complete(s: State, task: Task, saveCubes: bool)
    requires Buffered(s, task, saveCubes) && (s.nextOutput >= |s.results| || !s.results[s.nextOutput].ready)
    ensures s.completed == |s.results| ==> s.written == Concat(task, saveCubes, |s.results|) && forall f: nat :: f < |s.results| ==> task(f).Some?
    ensures s.completed <= |s.results|
  {
    var all := Below(|s.results|);
    assert all == ReadyFaults(s.results) + (all - ReadyFaults(s.results));
    if s.completed == |s.results| { AllAnswered(s, task, saveCubes); }
  }

  /** The whole run with several workers. Whatever the order of the answers, success
      means that the output is that of the serial loop. */
  method FaultPoolRun(task: Task, count: nat, jobs: nat, saveCubes: bool, startOk: seq<bool>, rounds: seq<Round>, endOk: bool)
    returns (finished: bool, ok: bool, written: Written)
    requires jobs >= 1 && |startOk| == (if jobs < count then jobs else count) && AllHonest(task, rounds)
    ensures ok ==> finished && written == Concat(task, saveCubes, count) && InOrder(task, saveCubes, count, written)
    ensures ok ==> forall f: nat :: f < count ==> task(f).Some?
    ensures exists k: nat :: k <= count && written == Concat(task, saveCubes, k) && InOrder(task, saveCubes, k, written)
    ensures ok <==> count == 0 || (AllStarted(startOk) && endOk && Succeeds(Started(|startOk|), rounds, 0, count, saveCubes))
    ensures AllStarted(startOk) && endOk && GoodRounds(Started(|startOk|), rounds, 0, count, saveCubes) ==>
              (ok <==> Replies(rounds, 0, |startOk|) >= count)
  {
    if GoodRounds(Started(|startOk|), rounds, 0, count, saveCubes) {
      GoodRoundsSucceed(Started(|startOk|), rounds, 0, count, saveCubes);
    }
    ConcatIsInOrder(task, saveCubes, count);
    if count == 0 {
      assert Concat(task, saveCubes, 0) == Written("", []);
      return true, true, Written("", []);
    }
    var pool := new FaultPool(count, jobs, task, saveCubes);
    ok := pool.StartWorkers(startOk);
    finished := true;
    if ok {
      finished, ok := pool.CollectFaultResults(rounds);
    }
    ok := ok && endOk;
    written := pool.written;
    assert written == Concat(task, saveCubes, pool.nextOutput) && pool.nextOutput <= count;
    ConcatIsInOrder(task, saveCubes, pool.nextOutput);
  }
}
