/** Enumerating the cubes that detect a fault: solve, generalise, block, repeat. The
    solver and the generalisation are given by what they promise. */
module CubeEnumeration {
  import opened Literals
  import opened Cardinality
  import opened Options

  /** One value per primary input. */
  type Pattern = seq<bool>

  /** '0', '1', or anything else for a don't-care, per primary input. */
  type Cube = string

  predicate Covers(cube: Cube, p: Pattern) {
    |cube| == |p| && forall i :: 0 <= i < |p| ==> (cube[i] == '0' ==> !p[i]) && (cube[i] == '1' ==> p[i])
  }

  predicate CoveredBy(cubes: seq<Cube>, p: Pattern) { exists k :: 0 <= k < |cubes| && Covers(cubes[k], p) }

  // ------------------------------------------------------ blocking clauses

  /** The solver variables of the primary inputs are positive and distinct. */
  ghost predicate InputsOk(vars: seq<nat>) {
    && (forall i :: 0 <= i < |vars| ==> vars[i] > 0)
    && (forall i, j :: 0 <= i < j < |vars| ==> vars[i] != vars[j])
  }

  function BlockingLiteral(v: nat, c: char): int { if c == '0' then v else if c == '1' then -(v as int) else 0 }

  function BlockingClause(vars: seq<nat>, cube: Cube): seq<int>
    requires |cube| == |vars|
  {
    if cube == [] then []
    else
      var n := |cube| - 1;
      var l := BlockingLiteral(vars[n], cube[n]);
      BlockingClause(vars[..n], cube[..n]) + if l != 0 then [l] else []
  }

  /** Input i has the value of the pattern in the model. */
  ghost predicate Reads(m: Model, vars: seq<nat>, p: Pattern) {
    |p| == |vars| && forall i :: 0 <= i < |p| ==> (vars[i] in m <==> p[i])
  }

  /** The clause excludes exactly the patterns of the cube. */
  lemma {:induction false} BlockingClauseBlocks(vars: seq<nat>, cube: Cube, m: Model, p: Pattern)
    requires InputsOk(vars) && |cube| == |vars| && Reads(m, vars, p)
    ensures SatClause(m, BlockingClause(vars, cube)) <==> !Covers(cube, p)
  {
    if cube != [] {
      var n := |cube| - 1;
      var rest, l := BlockingClause(vars[..n], cube[..n]), BlockingLiteral(vars[n], cube[n]);
      BlockingClauseBlocks(vars[..n], cube[..n], m, p[..n]);
      HoldsMore(m, rest, l);
      assert l == 0 ==> BlockingClause(vars, cube) == rest;
      assert l != 0 ==> BlockingClause(vars, cube) == rest + [l] && (True(m, l) <==> (cube[n] == '0') == p[n]);
      CoversSplit(cube, p, n);
    }
  }

  lemma CoversSplit(cube: Cube, p: Pattern, n: nat)
    requires |cube| == |p| == n + 1
    ensures Covers(cube, p) <==> Covers(cube[..n], p[..n]) && (cube[n] == '0' ==> !p[n]) && (cube[n] == '1' ==> p[n])
  {
    assert forall i :: 0 <= i < n ==> cube[..n][i] == cube[i] && p[..n][i] == p[i];
    if Covers(cube[..n], p[..n]) && (cube[n] == '0' ==> !p[n]) && (cube[n] == '1' ==> p[n]) {
      forall i | 0 <= i < |p| ensures (cube[i] == '0' ==> !p[i]) && (cube[i] == '1' ==> p[i]) {
        if i < n { assert cube[..n][i] == cube[i] && p[..n][i] == p[i]; }
      }
    }
  }

  lemma HoldsMore(m: Model, clause: seq<int>, l: int)
    ensures SatClause(m, clause + [l]) <==> SatClause(m, clause) || True(m, l)
  {
    var more := clause + [l];
    assert more[|clause|] == l;
    assert forall i :: 0 <= i < |clause| ==> more[i] == clause[i];
  }

  // ------------------------------------------------------- the promises

  datatype Answer = Satisfiable(model: Model) | Unsatisfiable | Unknown

  type Solver = seq<seq<int>> -> Answer
  type Generaliser = (seq<seq<int>>, Model) -> Option<Cube>

  function PatternOf(m: Model, vars: seq<nat>): (p: Pattern)
    ensures |p| == |vars|
  {
    seq(|vars|, i requires 0 <= i < |vars| => vars[i] in m)
  }

  ghost predicate AllHold(m: Model, clauses: seq<seq<int>>) { forall c :: 0 <= c < |clauses| ==> SatClause(m, clauses[c]) }

  /** A model is a detecting pattern that no added clause excludes; there is no model
      only if there is no such pattern. */
  ghost predicate SolverCorrect(vars: seq<nat>, detects: Pattern -> bool, solve: Solver) {
    forall clauses {:trigger solve(clauses)} ::
      match solve(clauses) {
        case Satisfiable(m) => detects(PatternOf(m, vars)) && AllHold(m, clauses)
        case Unsatisfiable => forall m {:trigger AllHold(m, clauses)} :: AllHold(m, clauses) ==> !detects(PatternOf(m, vars))
        case Unknown => true
      }
  }

  /** The cube holds the model's pattern and only detecting patterns. */
  ghost predicate GeneraliserCorrect(vars: seq<nat>, detects: Pattern -> bool, xid: Generaliser) {
    forall clauses, m {:trigger xid(clauses, m)} ::
      match xid(clauses, m) {
        case None => true
        case Some(cube) => Covers(cube, PatternOf(m, vars)) && forall q {:trigger Covers(cube, q)} :: Covers(cube, q) ==> detects(q)
      }
  }

  // ------------------------------------------------------ counting patterns

  ghost function Appended(ps: set<Pattern>, b: bool): set<Pattern> { set p | p in ps :: p + [b] }

  ghost function AllPatterns(n: nat): set<Pattern> {
    if n == 0 then {[]} else Appended(AllPatterns(n - 1), false) + Appended(AllPatterns(n - 1), true)
  }

  lemma AppendedAre(ps: set<Pattern>, b: bool, q: Pattern, last: bool)
    ensures q + [last] in Appended(ps, b) <==> q in ps && last == b
  {
    if q + [last] in Appended(ps, b) {
      var p :| p in ps && q + [last] == p + [b];
      assert (q + [last])[..|q|] == q && (p + [b])[..|p|] == p && |p| == |q|;
      assert (q + [last])[|q|] == last && (p + [b])[|p|] == b;
    }
  }

  lemma {:induction false} AllPatternsAre(n: nat, p: Pattern)
    ensures p in AllPatterns(n) <==> |p| == n
  {
    if n == 0 {
      assert |p| == 0 ==> p == [];
    } else if |p| > 0 {
      var q, last := p[..|p| - 1], p[|p| - 1];
      AllPatternsAre(n - 1, q);
      assert p == q + [last];
      AppendedAre(AllPatterns(n - 1), false, q, last);
      AppendedAre(AllPatterns(n - 1), true, q, last);
    }
  }

  lemma {:induction false} AllPatternsCount(n: nat)
    ensures |AllPatterns(n)| == Pow2(n)
  {
    if n > 0 {
      AllPatternsCount(n - 1);
      var zeros, ones := Appended(AllPatterns(n - 1), false), Appended(AllPatterns(n - 1), true);
      AppendedCount(AllPatterns(n - 1), false);
      AppendedCount(AllPatterns(n - 1), true);
      forall x | x in zeros ensures x !in ones {
        var p :| p in AllPatterns(n - 1) && x == p + [false];
        AppendedAre(AllPatterns(n - 1), true, p, false);
      }
      assert |zeros + ones| == |zeros| + |ones|;
    }
  }

  lemma {:induction false} AppendedCount(ps: set<Pattern>, b: bool)
    ensures |Appended(ps, b)| == |ps|
  {
    if ps != {} {
      var q :| q in ps;
      var rest := ps - {q};
      AppendedCount(rest, b);
      AppendedAre(rest, b, q, b);
      assert Appended(ps, b) == Appended(rest, b) + {q + [b]};
    }
  }

  /** Detecting patterns that no cube covers yet. */
  ghost function Open(n: nat, detects: Pattern -> bool, cubes: seq<Cube>): set<Pattern> {
    set p | p in AllPatterns(n) && detects(p) && !CoveredBy(cubes, p)
  }

  ghost function Covered(n: nat, cubes: seq<Cube>): set<Pattern> {
    set p | p in AllPatterns(n) && CoveredBy(cubes, p)
  }

  ghost function Detecting(n: nat, detects: Pattern -> bool): set<Pattern> {
    set p | p in AllPatterns(n) && detects(p)
  }

  lemma CoveredMore(cubes: seq<Cube>, cube: Cube, p: Pattern)
    ensures CoveredBy(cubes + [cube], p) <==> CoveredBy(cubes, p) || Covers(cube, p)
  {
    var more := cubes + [cube];
    assert more[|cubes|] == cube;
    assert forall k :: 0 <= k < |cubes| ==> more[k] == cubes[k];
  }

  // --------------------------------------------------------- the loop

  /** Every cube covers a pattern that the ones before it do not cover. */
  ghost predicate AllNew(cubes: seq<Cube>) {
    forall k :: 0 <= k < |cubes| ==> IsNew(cubes[..k], cubes[k])
  }

  ghost predicate IsNew(before: seq<Cube>, cube: Cube) { exists p :: Covers(cube, p) && !CoveredBy(before, p) }

  /** The solver's clauses are the blocking clauses of the cubes, which hold only
      detecting patterns. */
  ghost predicate Enumerating(vars: seq<nat>, detects: Pattern -> bool, clauses: seq<seq<int>>, cubes: seq<Cube>) {
    && |clauses| == |cubes|
    && (forall k :: 0 <= k < |cubes| ==> |cubes[k]| == |vars| && clauses[k] == BlockingClause(vars, cubes[k]))
    && (forall p {:trigger CoveredBy(cubes, p)} :: CoveredBy(cubes, p) ==> detects(p))
    && AllNew(cubes)
  }

  lemma PatternIsRead(m: Model, vars: seq<nat>)
    ensures Reads(m, vars, PatternOf(m, vars))
  {
  }

  /** The added clauses hold exactly for the patterns outside all cubes. */
  lemma ClausesMean(vars: seq<nat>, detects: Pattern -> bool, clauses: seq<seq<int>>, cubes: seq<Cube>, m: Model)
    requires InputsOk(vars) && Enumerating(vars, detects, clauses, cubes)
    ensures AllHold(m, clauses) <==> !CoveredBy(cubes, PatternOf(m, vars))
  {
    var p := PatternOf(m, vars);
    forall k | 0 <= k < |cubes| ensures SatClause(m, clauses[k]) <==> !Covers(cubes[k], p) {
      PatternIsRead(m, vars);
      BlockingClauseBlocks(vars, cubes[k], m, p);
    }
  }

  lemma NewMore(cubes: seq<Cube>, cube: Cube, p: Pattern)
    requires AllNew(cubes) && Covers(cube, p) && !CoveredBy(cubes, p)
    ensures AllNew(cubes + [cube])
  {
    var more := cubes + [cube];
    forall k | 0 <= k < |more| ensures IsNew(more[..k], more[k]) {
      if k < |cubes| {
        assert more[..k] == cubes[..k] && more[k] == cubes[k];
      } else {
        assert more[..k] == cubes && more[k] == cube;
      }
    }
  }

  lemma OpenLess(n: nat, detects: Pattern -> bool, cubes: seq<Cube>, cube: Cube, p: Pattern)
    requires |p| == n && detects(p) && !CoveredBy(cubes, p) && Covers(cube, p)
    ensures |Open(n, detects, cubes + [cube])| < |Open(n, detects, cubes)|
  {
    AllPatternsAre(n, p);
    var before, after := Open(n, detects, cubes), Open(n, detects, cubes + [cube]);
    CoveredMore(cubes, cube, p);
    forall q | q in after ensures q in before { CoveredMore(cubes, cube, q); }
    assert before == after + (before - after);
    assert p in before - after;
  }

  /** One more cube around an open pattern. */
  lemma CubeAdded(vars: seq<nat>, detects: Pattern -> bool, clauses: seq<seq<int>>, cubes: seq<Cube>, cube: Cube, p: Pattern)
    requires Enumerating(vars, detects, clauses, cubes) && |p| == |vars| && detects(p) && !CoveredBy(cubes, p)
    requires Covers(cube, p) && forall q :: Covers(cube, q) ==> detects(q)
    ensures Enumerating(vars, detects, clauses + [BlockingClause(vars, cube)], cubes + [cube])
    ensures |Open(|vars|, detects, cubes + [cube])| < |Open(|vars|, detects, cubes)|
  {
    forall q | CoveredBy(cubes + [cube], q) ensures detects(q) { CoveredMore(cubes, cube, q); }
    NewMore(cubes, cube, p);
    OpenLess(|vars|, detects, cubes, cube, p);
  }

  method AddBlockingClauseFromCube(vars: seq<nat>, clauses: seq<seq<int>>, cube: Cube) returns (more: seq<seq<int>>)
    requires |cube| == |vars| && forall i :: 0 <= i < |vars| ==> vars[i] > 0
    ensures more == clauses + [BlockingClause(vars, cube)]
  {
    var clause := [];
    for index := 0 to |cube|
      invariant clause == BlockingClause(vars[..index], cube[..index])
    {
      assert vars[..index + 1][..index] == vars[..index] && cube[..index + 1][..index] == cube[..index];
      var literal := 0;
      if cube[index] == '0' { literal := vars[index]; }
      else if cube[index] == '1' { literal := -(vars[index] as int); }
      if literal != 0 { clause := clause + [literal]; }
    }
    assert vars[..|cube|] == vars && cube[..|cube|] == cube;
    more := clauses + [clause];
  }

  datatype Outcome = Failed(unknown: bool) | Result(complete: bool)

  /** Analyses one fault. A limit of 0 or less means none. */
  method AnalyzeOneFault(vars: seq<nat>, ghost detects: Pattern -> bool, solve: Solver, xid: Generaliser, limit: int)
    returns (outcome: Outcome, cubes: seq<Cube>, ghost clauses: seq<seq<int>>)
    requires InputsOk(vars) && SolverCorrect(vars, detects, solve) && GeneraliserCorrect(vars, detects, xid)
    ensures Enumerating(vars, detects, clauses, cubes) && |cubes| <= Pow2(|vars|) && (limit > 0 ==> |cubes| <= limit)
    ensures outcome == Result(true) ==> forall p: Pattern :: |p| == |vars| ==> (CoveredBy(cubes, p) <==> detects(p))
    ensures outcome == Result(false) ==> limit > 0 && |cubes| == limit && Open(|vars|, detects, cubes) != {}
    ensures outcome == Failed(true) ==> solve(clauses) == Unknown
    ensures outcome == Failed(false) ==> solve(clauses).Satisfiable? && xid(clauses, solve(clauses).model) == None
  {
    cubes, clauses := [], [];
    var added: seq<seq<int>> := [];
    var unlimited := limit <= 0;
    NoCubes(detects);
    while true
      invariant added == clauses && Enumerating(vars, detects, clauses, cubes) && (limit > 0 ==> |cubes| <= limit)
      invariant |cubes| + |Open(|vars|, detects, cubes)| <= |Detecting(|vars|, detects)|
      decreases |Open(|vars|, detects, cubes)|
    {
      DetectingCount(|vars|, detects);
      var status := solve(added);
      if status == Unknown { return Failed(true), cubes, clauses; }
      if status == Unsatisfiable || (!unlimited && |cubes| >= limit) {
        var limitHit := !unlimited && |cubes| >= limit && status != Unsatisfiable;
        if status == Unsatisfiable {
          NothingOpen(vars, detects, solve, clauses, cubes);
        } else {
          SomethingOpen(vars, detects, clauses, cubes, status.model);
        }
        return Result(!limitHit), cubes, clauses;
      }
      var pattern := xid(added, status.model);
      if pattern == None { return Failed(false), cubes, clauses; }
      SomethingOpen(vars, detects, clauses, cubes, status.model);
      CubeAdded(vars, detects, clauses, cubes, pattern.value, PatternOf(status.model, vars));
      added := AddBlockingClauseFromCube(vars, added, pattern.value);
      clauses := added;
      cubes := cubes + [pattern.value];
    }
  }

  lemma NoCubes(detects: Pattern -> bool)
    ensures forall vars :: Enumerating(vars, detects, [], [])
    ensures forall n: nat :: Open(n, detects, []) == Detecting(n, detects)
  {
    assert forall p :: !CoveredBy([], p);
  }

  lemma DetectingCount(n: nat, detects: Pattern -> bool)
    ensures |Detecting(n, detects)| <= Pow2(n)
  {
    AllPatternsCount(n);
    assert AllPatterns(n) == Detecting(n, detects) + (AllPatterns(n) - Detecting(n, detects));
  }

  /** No model: every detecting pattern is covered. */
  lemma NothingOpen(vars: seq<nat>, detects: Pattern -> bool, solve: Solver, clauses: seq<seq<int>>, cubes: seq<Cube>)
    requires InputsOk(vars) && SolverCorrect(vars, detects, solve) && Enumerating(vars, detects, clauses, cubes)
    requires solve(clauses) == Unsatisfiable
    ensures forall p: Pattern :: |p| == |vars| ==> (CoveredBy(cubes, p) <==> detects(p))
  {
    forall p: Pattern | |p| == |vars| ensures CoveredBy(cubes, p) <==> detects(p) {
      var m := ModelOf(vars, p);
      ClausesMean(vars, detects, clauses, cubes, m);
    }
  }

  /** An assignment of the inputs with a given pattern. */
  ghost function ModelOf(vars: seq<nat>, p: Pattern): (m: Model)
    requires InputsOk(vars) && |p| == |vars|
    ensures PatternOf(m, vars) == p
  {
    var m := set i | 0 <= i < |p| && p[i] :: vars[i];
    assert forall i :: 0 <= i < |p| ==> (vars[i] in m <==> p[i]);
    m
  }

  lemma SomethingOpen(vars: seq<nat>, detects: Pattern -> bool, clauses: seq<seq<int>>, cubes: seq<Cube>, m: Model)
    requires InputsOk(vars) && Enumerating(vars, detects, clauses, cubes) && AllHold(m, clauses) && detects(PatternOf(m, vars))
    ensures PatternOf(m, vars) in Open(|vars|, detects, cubes) && !CoveredBy(cubes, PatternOf(m, vars))
  {
    ClausesMean(vars, detects, clauses, cubes, m);
    AllPatternsAre(|vars|, PatternOf(m, vars));
  }

  // --------------------------------------------------------- probability

  /** The share of the patterns that the cubes cover, for equally likely inputs. */
  ghost function Density(n: nat, cubes: seq<Cube>): real {
    (|Covered(n, cubes)| as real) / (Pow2(n) as real)
  }

  ghost function DetectionProbability(n: nat, detects: Pattern -> bool): real {
    (|Detecting(n, detects)| as real) / (Pow2(n) as real)
  }

  /** A complete enumeration gives the detection probability; one that stopped at the
      limit gives less. */
  lemma DensityIsExactOrLess(vars: seq<nat>, detects: Pattern -> bool, clauses: seq<seq<int>>, cubes: seq<Cube>)
    requires Enumerating(vars, detects, clauses, cubes)
    ensures (forall p: Pattern :: |p| == |vars| ==> (CoveredBy(cubes, p) <==> detects(p))) ==>
              Density(|vars|, cubes) == DetectionProbability(|vars|, detects)
    ensures Open(|vars|, detects, cubes) != {} ==> Density(|vars|, cubes) < DetectionProbability(|vars|, detects)
  {
    var n := |vars|;
    var c, o, d := Covered(n, cubes), Open(n, detects, cubes), Detecting(n, detects);
    forall p ensures p in d <==> p in c || p in o {
      assert CoveredBy(cubes, p) ==> detects(p);
    }
    assert d == c + o && |c + o| == |c| + |o| - |c * o| && c * o == {};
    if forall p: Pattern :: |p| == |vars| ==> (CoveredBy(cubes, p) <==> detects(p)) {
      forall p ensures p !in o { AllPatternsAre(n, p); }
      assert o == {};
    }
    SmallerShare(|c|, |d|, Pow2(n));
  }

  lemma SmallerShare(a: nat, b: nat, n: nat)
    requires n > 0
    ensures a < b ==> (a as real) / (n as real) < (b as real) / (n as real)
  {
  }
}
