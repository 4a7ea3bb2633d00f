/** When following a chain with marks keeps interpolants: for all antecedents exactly if
    the followed clause is within the derived one, in each of the four constructions. */
module LostInterpolants {
  import opened Literals
  import opened AigCnf
  import opened Interpolation
  import opened ResolutionChains

  /** If each antecedent has its interpolant, what following combines is one of c. */
  ghost predicate Keeps(k: Construction, labels: Labels, A: Cnf, B: Cnf, chain: seq<seq<int>>, Js: seq<iset<Model>>, c: set<int>) {
    (|Js| == |chain| > 0 && forall j :: 0 <= j < |chain| ==> Partial(k, labels, A, B, LitSet(chain[j]), Js[j])) ==>
      Partial(k, labels, A, B, c, FollowedRegion(k, labels, chain, Js, 0))
  }

  /** The clause is resolved from an original clause of each side, with the interpolant
      that this gives it. */
  ghost predicate FromOriginals(k: Construction, labels: Labels, A: Cnf, B: Cnf, d: seq<int>, J: iset<Model>) {
    exists a, b :: a in A && b in B && IsPair(k, labels, a, b, d, J)
  }

  ghost predicate IsPair(k: Construction, labels: Labels, a: seq<int>, b: seq<int>, d: seq<int>, J: iset<Model>) {
    Followed([b, a], 0) == LitSet(d) && J == PairRegion(k, labels, a, b)
  }

  ghost function PairRegion(k: Construction, labels: Labels, a: seq<int>, b: seq<int>): iset<Model> {
    FollowedRegion(k, labels, [b, a], [InitialRegion(k, labels, b, BClause), InitialRegion(k, labels, a, AClause)], 0)
  }

  ghost predicate AllFit(labels: Labels, A: Cnf, B: Cnf) {
    (forall a :: a in A ==> FitsLabel(labels, a, AClause)) && forall b :: b in B ==> FitsLabel(labels, b, BClause)
  }

  ghost predicate AllFromOriginals(k: Construction, labels: Labels, A: Cnf, B: Cnf, chain: seq<seq<int>>, Js: seq<iset<Model>>) {
    |Js| == |chain| && forall j :: 0 <= j < |chain| ==> FromOriginals(k, labels, A, B, chain[j], Js[j])
  }

  /** Original clauses that fit their labels, from which the antecedents are resolved, and a
      model of A that makes c false on A's side and is missed by what following combines. */
  ghost predicate LosesOn(k: Construction, labels: Labels, A: Cnf, B: Cnf, chain: seq<seq<int>>, Js: seq<iset<Model>>, c: set<int>, m: Model) {
    && chain != [] && AllFit(labels, A, B) && AllFromOriginals(k, labels, A, B, chain, Js)
    && CnfSat(m, A) && AFalse(m, c, labels, k) && m !in FollowedRegion(k, labels, chain, Js, 0)
  }

  ghost predicate Loses(k: Construction, chain: seq<seq<int>>, c: set<int>) {
    exists labels, A, B, Js, m :: LosesOn(k, labels, A, B, chain, Js, c, m)
  }

  // ------------------------------------------------------ the main results

  /** Whatever the labels, the clauses and the interpolants of the antecedents are. */
  ghost predicate AlwaysKeeps(k: Construction, chain: seq<seq<int>>, c: set<int>) {
    forall labels, A, B, Js :: Keeps(k, labels, A, B, chain, Js, c)
  }

  /** In each construction, interpolants are kept for all antecedents exactly if following
      leaves literals of c only; otherwise antecedents made from original clauses lose one. */
  lemma KeptIffFollowed(k: Construction, chain: seq<seq<int>>, c: set<int>)
    requires chain != [] && forall j :: 0 <= j < |chain| ==> NoTautology(chain[j])
    ensures AlwaysKeeps(k, chain, c) <==> Followed(chain, 0) <= c
    ensures Loses(k, chain, c) <==> !(Followed(chain, 0) <= c)
  {
    if Followed(chain, 0) <= c {
      forall labels, A, B, Js ensures Keeps(k, labels, A, B, chain, Js, c) { FollowedKeeps(k, labels, A, B, chain, Js, c); }
    } else {
      SubsetOrExcess(Followed(chain, 0), c);
      var x :| x in Followed(chain, 0) && x !in c;
      LosesLiteral(k, chain, c, x);
    }
    if Loses(k, chain, c) { LosingIsNotKeeping(k, chain, c); }
  }

  /** So a linear resolution keeps the interpolants of all antecedents, in each construction,
      exactly if every pivot that a stale mark brings back is absorbed by a later step. */
  lemma KeptIffAbsorbed(k: Construction, chain: seq<seq<int>>, pivots: seq<int>)
    requires LinearResolution(chain, pivots)
    ensures AlwaysKeeps(k, chain, ResolventFrom(chain, pivots, 0)) <==> AllAbsorbed(chain, pivots)
    ensures Loses(k, chain, ResolventFrom(chain, pivots, 0)) <==> !AllAbsorbed(chain, pivots)
  {
    FollowedIsResolventIff(chain, pivots);
    KeptIffFollowed(k, chain, ResolventFrom(chain, pivots, 0));
  }

  lemma SubsetOrExcess(f: set<int>, c: set<int>)
    ensures f <= c || exists x :: x in f && x !in c
  {
    if forall x :: x in f ==> x in c {
      forall x | x in f ensures x in c {}
    }
  }

  lemma LosingIsNotKeeping(k: Construction, chain: seq<seq<int>>, c: set<int>)
    requires Loses(k, chain, c)
    ensures !AlwaysKeeps(k, chain, c)
  {
    var labels, A, B, Js, m :| LosesOn(k, labels, A, B, chain, Js, c, m);
    OriginalsArePartial(k, labels, A, B, chain, Js);
    var I := FollowedRegion(k, labels, chain, Js, 0);
    assert !Partial(k, labels, A, B, c, I) by { assert !(m in I); }
    assert !Keeps(k, labels, A, B, chain, Js, c);
  }

  lemma FollowedKeeps(k: Construction, labels: Labels, A: Cnf, B: Cnf, chain: seq<seq<int>>, Js: seq<iset<Model>>, c: set<int>)
    requires chain != [] && (forall j :: 0 <= j < |chain| ==> NoTautology(chain[j])) && Followed(chain, 0) <= c
    ensures Keeps(k, labels, A, B, chain, Js, c)
  {
    if |Js| == |chain| && forall j :: 0 <= j < |chain| ==> Partial(k, labels, A, B, LitSet(chain[j]), Js[j]) {
      forall j | 0 <= j < |chain| ensures 0 !in chain[j] { assert NoTautology(chain[j]) && -0 == 0; }
      FollowedIsPartial(k, labels, A, B, chain, Js, 0);
      PartialWeakens(k, labels, A, B, Followed(chain, 0), c, FollowedRegion(k, labels, chain, Js, 0));
    }
  }

  lemma OriginalsArePartial(k: Construction, labels: Labels, A: Cnf, B: Cnf, chain: seq<seq<int>>, Js: seq<iset<Model>>)
    requires AllFit(labels, A, B) && AllFromOriginals(k, labels, A, B, chain, Js)
    ensures forall j :: 0 <= j < |chain| ==> Partial(k, labels, A, B, LitSet(chain[j]), Js[j])
  {
    forall j | 0 <= j < |chain| ensures Partial(k, labels, A, B, LitSet(chain[j]), Js[j]) {
      assert FromOriginals(k, labels, A, B, chain[j], Js[j]);
      var a, b :| a in A && b in B && IsPair(k, labels, a, b, chain[j], Js[j]);
      var ofA, ofB := InitialRegion(k, labels, a, AClause), InitialRegion(k, labels, b, BClause);
      InitialIsPartialA(k, labels, A, B, a, ofA);
      InitialIsPartialB(k, labels, A, B, b, ofB);
      FollowedIsPartial(k, labels, A, B, [b, a], [ofB, ofA], 0);
    }
  }

  // ------------------------------------------ the antecedents that lose it

  /** One literal is local to A, the variables up to the bound are local to B, and those
      above link the two sides. */
  ghost predicate Splits(labels: Labels, x: int, bound: nat, links: nat) {
    && x != 0 && Abs(x) <= bound
    && forall l: int {:trigger TypeOf(labels, l)} :: Abs(l) <= bound + links ==>
         TypeOf(labels, l) == SplitLabel(x, bound, Abs(l))
  }

  function SplitLabel(x: int, bound: nat, v: nat): VarType { if v == Abs(x) then ALocal else if v <= bound then BLocal else Global }

  function SplitLabels(x: int, bound: nat, links: nat): Labels {
    map v: nat | v <= bound + links :: SplitLabel(x, bound, v)
  }

  predicate Within(d: seq<int>, bound: nat) { forall l :: l in d ==> Abs(l) <= bound }

  /** The part of a clause on the variable of x, with a link to the rest of it. */
  function APart(d: seq<int>, x: int, link: int): seq<int> {
    (if x in d then [x] else if -x in d then [-x] else []) + [link]
  }

  function BPart(d: seq<int>, x: int, link: int): seq<int> { [-link] + Others(d, x) }

  function Others(d: seq<int>, x: int): (rest: seq<int>)
    ensures forall l :: l in rest <==> l in d && l != x && l != -x
  {
    if d == [] then []
    else
      var l, rest := d[|d| - 1], Others(d[..|d| - 1], x);
      assert d == d[..|d| - 1] + [l];
      if l == x || l == -x then rest else rest + [l]
  }

  /** Without further clashes, the rest of an antecedent changes nothing. */
  lemma {:induction false} OnlyFirstClashes(k: Construction, labels: Labels, c: set<int>, I: iset<Model>, J: iset<Model>,
                                            marks: set<int>, d: seq<int>, n: nat)
    requires 1 <= n <= |d| && forall i :: 1 <= i < n ==> -d[i] !in marks + LitSet(d[..i])
    ensures Tracked(c, marks, d, n) == Tracked(c, marks, d, 1)
    ensures TrackedRegion(k, labels, I, J, marks, d, n) == TrackedRegion(k, labels, I, J, marks, d, 1)
    decreases n
  {
    if n > 1 { OnlyFirstClashes(k, labels, c, I, J, marks, d, n - 1); }
  }

  /** The two parts resolve to the clause; its interpolant is the link, in each construction. */
  lemma PartsResolve(k: Construction, labels: Labels, d: seq<int>, x: int, bound: nat, links: nat, link: int)
    requires NoTautology(d) && Within(d, bound) && Splits(labels, x, bound, links) && bound < link <= bound + links
    ensures Followed([BPart(d, x, link), APart(d, x, link)], 0) == LitSet(d)
    ensures forall m :: m in PairRegion(k, labels, APart(d, x, link), BPart(d, x, link)) <==> link in m
  {
    var a, b := APart(d, x, link), BPart(d, x, link);
    PartsClash(d, x, bound, link);
    PairFollowed(k, labels, a, b, link);
    ResolvedParts(d, x, bound, link);
    forall m ensures m in PairRegion(k, labels, a, b) <==> link in m { LinkValue(k, labels, d, x, bound, links, link, m); }
  }

  /** Two clauses that clash on the first literal of the second one only. */
  lemma PairFollowed(k: Construction, labels: Labels, a: seq<int>, b: seq<int>, link: int)
    requires b != [] && b[0] == -link && link in a && forall i :: 1 <= i < |b| ==> -b[i] !in LitSet(a) + LitSet(b[..i])
    ensures Followed([b, a], 0) == Resolve(LitSet(a), LitSet(b), link)
    ensures PairRegion(k, labels, a, b) == CombinedRegion(k, labels, InitialRegion(k, labels, a, AClause), InitialRegion(k, labels, b, BClause), link)
  {
    var ofA, ofB := InitialRegion(k, labels, a, AClause), InitialRegion(k, labels, b, BClause);
    var chain := [b, a];
    assert chain[1] == a && chain[0] == b && Met(chain, 2) == {} && Met(chain, 1) == LitSet(a);
    OnlyFirstClashes(k, labels, LitSet(a), ofA, ofB, LitSet(a), b, |b|);
    assert b[..0] == [] && Followed(chain, 1) == LitSet(a) && FollowedRegion(k, labels, chain, [ofB, ofA], 1) == ofA;
    assert Tracked(LitSet(a), LitSet(a), b, 0) == LitSet(a);
    assert TrackedRegion(k, labels, ofA, ofB, LitSet(a), b, 0) == ofA;
  }

  lemma PartsClash(d: seq<int>, x: int, bound: nat, link: int)
    requires NoTautology(d) && Within(d, bound) && x != 0 && Abs(x) <= bound < link
    ensures var a, b := APart(d, x, link), BPart(d, x, link);
      b[0] == -link && link in a && forall i :: 1 <= i < |b| ==> -b[i] !in LitSet(a) + LitSet(b[..i])
  {
    var a := APart(d, x, link);
    assert a[|a| - 1] == link;
    NoPartClashes(d, x, bound, link, Others(d, x));
    RestClashes(a, -link, Others(d, x));
  }

  lemma RestClashes(a: seq<int>, first: int, rest: seq<int>)
    requires forall l :: l in rest ==> -l !in a && -l !in rest && -l != first
    ensures var b := [first] + rest; forall i :: 1 <= i < |b| ==> -b[i] !in LitSet(a) + LitSet(b[..i])
  {
    var b := [first] + rest;
    forall i | 1 <= i < |b| ensures -b[i] !in LitSet(a) + LitSet(b[..i]) {
      var l := rest[i - 1];
      assert b[i] == l && l in rest;
      forall y | y in b[..i] ensures y == first || y in rest {}
    }
  }

  lemma NoPartClashes(d: seq<int>, x: int, bound: nat, link: int, rest: seq<int>)
    requires NoTautology(d) && Within(d, bound) && x != 0 && Abs(x) <= bound < link
    requires forall l :: l in rest ==> l in d && l != x && l != -x
    ensures forall l :: l in rest ==> -l !in APart(d, x, link) && -l !in rest && -l != -link
  {
    forall l | l in rest ensures -l !in APart(d, x, link) && -l !in rest && -l != -link {
      assert l in d && -l !in d && Abs(l) <= bound && -l != link && l != link;
      assert -l in APart(d, x, link) ==> -l == x || -l == -x || -l == link;
    }
  }

  lemma ResolvedParts(d: seq<int>, x: int, bound: nat, link: int)
    requires NoTautology(d) && Within(d, bound) && x != 0 && Abs(x) <= bound < link
    ensures Resolve(LitSet(APart(d, x, link)), LitSet(BPart(d, x, link)), link) == LitSet(d)
  {
    var r := Resolve(LitSet(APart(d, x, link)), LitSet(BPart(d, x, link)), link);
    forall l ensures l in r <==> l in LitSet(d) {
      assert l in BPart(d, x, link) <==> l == -link || l in Others(d, x);
    }
  }

  lemma LinkValue(k: Construction, labels: Labels, d: seq<int>, x: int, bound: nat, links: nat, link: int, m: Model)
    requires Within(d, bound) && Splits(labels, x, bound, links) && bound < link <= bound + links
    ensures var a, b := APart(d, x, link), BPart(d, x, link);
      m in CombinedRegion(k, labels, InitialRegion(k, labels, a, AClause), InitialRegion(k, labels, b, BClause), link) <==> link in m
  {
    var a, b := APart(d, x, link), BPart(d, x, link);
    GlobalsAre(labels, a);
    GlobalsAre(labels, b);
    assert link in a by { assert a[|a| - 1] == link; }
    assert -link in b by { assert b[0] == -link; }
    assert TypeOf(labels, link) == Global && TypeOf(labels, -link) == Global;
    forall l | l in a && l != link ensures TypeOf(labels, l) != Global { assert Abs(l) <= bound; }
    forall l | l in b && l != -link ensures TypeOf(labels, l) != Global { assert l in Others(d, x); }
    assert SomeTrue(m, Globals(labels, a)) <==> link in m;
    assert SomeTrue(m, Globals(labels, b)) <==> link !in m;
  }

  lemma PartsFit(labels: Labels, d: seq<int>, x: int, bound: nat, links: nat, link: int)
    requires NoTautology(d) && Within(d, bound) && Splits(labels, x, bound, links) && bound < link <= bound + links
    ensures FitsLabel(labels, APart(d, x, link), AClause) && FitsLabel(labels, BPart(d, x, link), BClause)
  {
    forall l | l in APart(d, x, link) ensures l != 0 && TypeOf(labels, l) != BLocal {}
    forall l | l in BPart(d, x, link) ensures l != 0 && TypeOf(labels, l) != ALocal {
      assert l == -link || l in Others(d, x);
      assert -0 == 0;
    }
  }

  // ----------------------------------------------- following their values

  /** With one literal local to A and the others local to B, the value says whether the
      literal is absent. */
  lemma {:induction false} TrackedValue(k: Construction, labels: Labels, c: set<int>, I: iset<Model>, d: seq<int>, J: iset<Model>,
                                        marks: set<int>, n: nat, x: int, bound: nat, links: nat, m: Model)
    requires n <= |d| && NoTautology(d) && Within(d, bound) && Splits(labels, x, bound, links)
    requires (m in I <==> x !in c) && (m in J <==> x !in d)
    ensures m in TrackedRegion(k, labels, I, J, marks, d, n) <==> x !in Tracked(c, marks, d, n)
  {
    if n > 0 {
      TrackedValue(k, labels, c, I, d, J, marks, n - 1, x, bound, links, m);
      var l := d[n - 1];
      assert l in d && Abs(-l) <= bound && TypeOf(labels, -l) == if Abs(l) == Abs(x) then ALocal else BLocal;
      if -l in marks + LitSet(d[..n - 1]) {
        var c', I' := Tracked(c, marks, d, n - 1), TrackedRegion(k, labels, I, J, marks, d, n - 1);
        var H := CombinedRegion(k, labels, I', J, -l);
        assert IsCombined(k, TypeOf(labels, -l), I', J, -l, H);
        assert m in H <==> if Abs(l) == Abs(x) then m in I' || m in J else m in I' && m in J;
        assert l == x || l == -x ==> -l !in d;
      }
    }
  }

  lemma {:induction false} FollowedValue(k: Construction, labels: Labels, chain: seq<seq<int>>, Js: seq<iset<Model>>, i: nat,
                                         x: int, bound: nat, links: nat, m: Model)
    requires |Js| == |chain| && i < |chain| && Splits(labels, x, bound, links)
    requires forall j :: 0 <= j < |chain| ==> NoTautology(chain[j]) && Within(chain[j], bound) && (m in Js[j] <==> x !in chain[j])
    ensures m in FollowedRegion(k, labels, chain, Js, i) <==> x !in Followed(chain, i)
    decreases |chain| - i
  {
    if i < |chain| - 1 {
      FollowedValue(k, labels, chain, Js, i + 1, x, bound, links, m);
      TrackedValue(k, labels, Followed(chain, i + 1), FollowedRegion(k, labels, chain, Js, i + 1), chain[i], Js[i],
        Met(chain, i + 1), |chain[i]|, x, bound, links, m);
    }
  }

  // ----------------------------------------------------- putting together

  lemma {:induction false} HasBound(s: set<int>) returns (bound: nat)
    ensures forall l :: l in s ==> Abs(l) <= bound
    decreases s
  {
    bound := 0;
    if l :| l in s {
      var rest := HasBound(s - {l});
      bound := if Abs(l) > rest then Abs(l) else rest;
      forall y | y in s ensures Abs(y) <= bound { assert y == l || y in s - {l}; }
    }
  }

  ghost function AParts(chain: seq<seq<int>>, x: int, bound: nat): (A: Cnf)
    ensures |A| == |chain| && forall j :: 0 <= j < |chain| ==> A[j] == APart(chain[j], x, bound + 1 + j)
  {
    seq(|chain|, j requires 0 <= j < |chain| => APart(chain[j], x, bound + 1 + j))
  }

  ghost function BParts(chain: seq<seq<int>>, x: int, bound: nat): (B: Cnf)
    ensures |B| == |chain| && forall j :: 0 <= j < |chain| ==> B[j] == BPart(chain[j], x, bound + 1 + j)
  {
    seq(|chain|, j requires 0 <= j < |chain| => BPart(chain[j], x, bound + 1 + j))
  }

  ghost function PartRegions(k: Construction, labels: Labels, A: Cnf, B: Cnf): (Js: seq<iset<Model>>)
    requires |A| == |B|
    ensures |Js| == |A| && forall j :: 0 <= j < |A| ==> Js[j] == PairRegion(k, labels, A[j], B[j])
  {
    seq(|A|, j requires 0 <= j < |A| => PairRegion(k, labels, A[j], B[j]))
  }

  /** The literal is true, and so are the links of the antecedents without it. */
  ghost function LosingModel(chain: seq<seq<int>>, x: int, bound: nat): Model {
    (if x > 0 then {Abs(x)} else {}) + set j: nat | j < |chain| && x !in chain[j] :: bound + 1 + j
  }

  lemma LosingValues(chain: seq<seq<int>>, x: int, bound: nat)
    requires x != 0 && Abs(x) <= bound
    ensures var m := LosingModel(chain, x, bound);
      True(m, x) && !True(m, -x) && forall j: nat :: j < |chain| ==> (bound + 1 + j in m <==> x !in chain[j])
  {
  }

  lemma LosingSatisfies(chain: seq<seq<int>>, x: int, bound: nat)
    requires x != 0 && Abs(x) <= bound && forall j :: 0 <= j < |chain| ==> NoTautology(chain[j])
    ensures CnfSat(LosingModel(chain, x, bound), AParts(chain, x, bound))
  {
    var m, A := LosingModel(chain, x, bound), AParts(chain, x, bound);
    LosingValues(chain, x, bound);
    forall j: nat | j < |A| ensures SatClause(m, A[j]) {
      if x in chain[j] {
        assert A[j][0] == x;
      } else {
        assert A[j][|A[j]| - 1] == bound + 1 + j;
      }
    }
  }

  lemma LosesLiteral(k: Construction, chain: seq<seq<int>>, c: set<int>, x: int)
    requires chain != [] && (forall j :: 0 <= j < |chain| ==> NoTautology(chain[j])) && x in Followed(chain, 0) && x !in c
    ensures Loses(k, chain, c)
  {
    FollowedWasMet(chain, 0);
    MetMember(chain, 0, x);
    assert x != 0 by { assert -0 == 0; }
    var bound := HasBound(Met(chain, 0) + c);
    var labels := SplitLabels(x, bound, |chain|);
    forall j | 0 <= j < |chain| ensures Within(chain[j], bound) {
      forall l | l in chain[j] ensures Abs(l) <= bound { MetMember(chain, 0, l); }
    }
    LosingInstance(k, labels, chain, c, x, bound);
  }

  lemma LosingInstance(k: Construction, labels: Labels, chain: seq<seq<int>>, c: set<int>, x: int, bound: nat)
    requires chain != [] && x in Followed(chain, 0) && x !in c && forall l :: l in c ==> Abs(l) <= bound
    requires Splits(labels, x, bound, |chain|) && AllWithin(chain, bound)
    ensures Loses(k, chain, c)
  {
    var A, B := AParts(chain, x, bound), BParts(chain, x, bound);
    var Js, m := PartRegions(k, labels, A, B), LosingModel(chain, x, bound);
    LosingParts(k, labels, chain, x, bound);
    PartsAllFit(labels, chain, x, bound);
    LosingSatisfies(chain, x, bound);
    FollowedValue(k, labels, chain, Js, 0, x, bound, |chain|, m);
    MakesFalse(k, labels, c, x, bound, |chain|, m);
    assert LosesOn(k, labels, A, B, chain, Js, c, m);
  }

  /** A model with the literal true makes a clause without it false on A's side. */
  lemma MakesFalse(k: Construction, labels: Labels, c: set<int>, x: int, bound: nat, links: nat, m: Model)
    requires Splits(labels, x, bound, links) && x !in c && (forall l :: l in c ==> Abs(l) <= bound) && True(m, x)
    ensures AFalse(m, c, labels, k)
  {
    forall l | l in c && SideA(k, TypeOf(labels, l)) ensures !True(m, l) {
      assert TypeOf(labels, l) == SplitLabel(x, bound, Abs(l));
      assert l == -x;
    }
  }

  ghost predicate AllWithin(chain: seq<seq<int>>, bound: nat) {
    forall j :: 0 <= j < |chain| ==> NoTautology(chain[j]) && Within(chain[j], bound)
  }

  lemma PartsAllFit(labels: Labels, chain: seq<seq<int>>, x: int, bound: nat)
    requires Splits(labels, x, bound, |chain|) && AllWithin(chain, bound)
    ensures AllFit(labels, AParts(chain, x, bound), BParts(chain, x, bound))
  {
    var A, B := AParts(chain, x, bound), BParts(chain, x, bound);
    forall a | a in A ensures FitsLabel(labels, a, AClause) {
      var j: nat :| j < |A| && A[j] == a;
      PartsFit(labels, chain[j], x, bound, |chain|, bound + 1 + j);
    }
    forall b | b in B ensures FitsLabel(labels, b, BClause) {
      var j: nat :| j < |B| && B[j] == b;
      PartsFit(labels, chain[j], x, bound, |chain|, bound + 1 + j);
    }
  }

  lemma LosingParts(k: Construction, labels: Labels, chain: seq<seq<int>>, x: int, bound: nat)
    requires Splits(labels, x, bound, |chain|) && AllWithin(chain, bound)
    ensures var A, B := AParts(chain, x, bound), BParts(chain, x, bound);
      var Js, m := PartRegions(k, labels, A, B), LosingModel(chain, x, bound);
      AllFromOriginals(k, labels, A, B, chain, Js) && True(m, x) && forall j :: 0 <= j < |chain| ==> (m in Js[j] <==> x !in chain[j])
  {
    var A, B := AParts(chain, x, bound), BParts(chain, x, bound);
    var Js, m := PartRegions(k, labels, A, B), LosingModel(chain, x, bound);
    LosingValues(chain, x, bound);
    forall j: nat | j < |chain| ensures FromOriginals(k, labels, A, B, chain[j], Js[j]) && (m in Js[j] <==> x !in chain[j]) {
      LosingPart(k, labels, A, B, chain[j], x, bound, |chain|, bound + 1 + j, Js[j]);
    }
  }

  lemma LosingPart(k: Construction, labels: Labels, A: Cnf, B: Cnf, d: seq<int>, x: int, bound: nat, links: nat, link: int, J: iset<Model>)
    requires NoTautology(d) && Within(d, bound) && Splits(labels, x, bound, links) && bound < link <= bound + links
    requires APart(d, x, link) in A && BPart(d, x, link) in B && J == PairRegion(k, labels, APart(d, x, link), BPart(d, x, link))
    ensures FromOriginals(k, labels, A, B, d, J) && forall m :: m in J <==> link in m
  {
    PartsResolve(k, labels, d, x, bound, links, link);
    assert IsPair(k, labels, APart(d, x, link), BPart(d, x, link), d, J);
  }
}
