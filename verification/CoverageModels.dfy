/** The coverage sums over faults, kept for several pattern counts at once. */
module CoverageModels {
  import opened Cardinality
  import opened SamplingProbability

  ghost predicate Ascending(counts: seq<nat>) {
    forall i, j :: 0 <= i < j < |counts| ==> counts[i] < counts[j]
  }

  // ----------------------------------------------------------- the counts

  /** Sorts the given pattern counts and drops repeated ones. */
  method SetPatternCounts(given: seq<nat>) returns (counts: seq<nat>)
    ensures Ascending(counts)
    ensures forall x :: x in counts <==> x in given
  {
    var sorted := SortCounts(given);
    counts := [];
    for i := 0 to |sorted|
      invariant Ascending(counts)
      invariant forall x :: x in counts <==> x in sorted[..i]
      invariant i == 0 ==> counts == []
      invariant i > 0 ==> counts != [] && counts[|counts| - 1] == sorted[i - 1]
    {
      if i == 0 || sorted[i] != sorted[i - 1] {
        forall k | 0 <= k < |counts| ensures counts[k] < sorted[i] {
          assert counts[k] <= counts[|counts| - 1] == sorted[i - 1] <= sorted[i];
        }
        counts := counts + [sorted[i]];
      }
      assert sorted[..i + 1] == sorted[..i] + [sorted[i]];
    }
    assert sorted[..|sorted|] == sorted;
  }

  /** The library sort: an ascending arrangement of the same counts. */
  method SortCounts(given: seq<nat>) returns (sorted: seq<nat>)
    ensures forall i, j :: 0 <= i <= j < |sorted| ==> sorted[i] <= sorted[j]
    ensures multiset(sorted) == multiset(given)
    ensures forall x :: x in sorted <==> x in given
  {
    sorted := [];
    for n := 0 to |given|
      invariant forall i, j :: 0 <= i <= j < |sorted| ==> sorted[i] <= sorted[j]
      invariant multiset(sorted) == multiset(given[..n])
    {
      var k := 0;
      while k < |sorted| && sorted[k] <= given[n]
        invariant k <= |sorted| && forall i :: 0 <= i < k ==> sorted[i] <= given[n]
      {
        k := k + 1;
      }
      assert sorted == sorted[..k] + sorted[k..];
      sorted := sorted[..k] + [given[n]] + sorted[k..];
      assert given[..n + 1] == given[..n] + [given[n]];
    }
    assert given[..|given|] == given;
    forall x ensures x in sorted <==> x in given {
      assert x in sorted <==> x in multiset(sorted);
      assert x in given <==> x in multiset(given);
    }
  }

  /** Two ascending sequences with the same elements are equal: the counts do not
      depend on the order or the repetitions of what was given. */
  lemma {:induction false} AscendingIsUnique(a: seq<nat>, b: seq<nat>)
    requires Ascending(a) && Ascending(b) && forall x :: x in a <==> x in b
    ensures a == b
    decreases |a|
  {
    if a == [] {
      HasFirst(b);
    } else {
      assert a[0] in b && b != [];
      var x, y := a[|a| - 1], b[|b| - 1];
      assert x in b && y in a;
      assert x == y;
      var a', b' := a[..|a| - 1], b[..|b| - 1];
      forall z ensures z in a' <==> z in b' {
        assert z in a' <==> z in a && z != x;
        assert z in b' <==> z in b && z != x;
      }
      AscendingIsUnique(a', b');
    }
  }

  lemma HasFirst(s: seq<nat>)
    ensures s == [] || exists x: nat :: x in s
  {
    if s != [] { assert s[0] in s; }
  }

  // ------------------------------------------------------------- powers

  /** A power by repeated squaring. */
  method PowerUi(base: real, exponent: nat) returns (result: real)
    ensures result == Pow(base, exponent)
  {
    var square, e := base, exponent;
    result := 1.0;
    while e > 0
      invariant result * Pow(square, e) == Pow(base, exponent)
    {
      ghost var goal := result * Pow(square, e);
      SquareStep(result, square, e);
      if e % 2 == 1 {
        result := result * square;
      }
      e := e / 2;
      if e > 0 {
        square := square * square;
      }
    }
  }

  lemma SquareStep(result: real, square: real, e: nat)
    requires e > 0
    ensures (if e % 2 == 1 then result * square else result) * Pow(if e / 2 > 0 then square * square else square, e / 2) == result * Pow(square, e)
  {
    var h := e / 2;
    PowSquare(square, h);
    if e % 2 == 1 {
      assert e == 1 + 2 * h;
      Associate(result, square, Pow(square, 2 * h));
    } else {
      assert e == 2 * h;
    }
  }

  // ------------------------------------------------------------ detection

  /** The number of detecting patterns: the nearest integer, at least one and at most all. */
  function RoundDetectingPatterns(total: nat, density: real): (detecting: nat)
    requires total > 0
    ensures 1 <= detecting <= total
    ensures 1.0 <= density * total as real <= total as real ==>
              density * total as real - 0.5 <= detecting as real <= density * total as real + 0.5
  {
    var rounded := (density * total as real + 0.5).Floor;
    if rounded < 1 then 1 else if rounded > total then total else rounded
  }

  /** The density counts whole patterns. */
  predicate Exact(total: nat, detecting: nat, density: real) {
    1 <= detecting <= total && density * total as real == detecting as real
  }

  /** A probability. */
  predicate IsShare(x: real) { 0.0 <= x <= 1.0 }

  lemma ExactIsKept(total: nat, detecting: nat, density: real)
    requires Exact(total, detecting, density)
    ensures RoundDetectingPatterns(total, density) == detecting
  {
  }

  /** The probability that n patterns detect a fault. */
  function DetectsWith(density: real, n: nat): real { 1.0 - Pow(1.0 - density, n) }

  function DetectsWithout(total: nat, density: real, n: nat): real
    requires total > 0
  {
    1.0 - Missing(total, total - RoundDetectingPatterns(total, density), n)
  }

  /** Without patterns nothing is detected, and each further pattern detects what is not
      detected yet with the density as probability. */
  lemma DetectsWithStep(density: real, n: nat)
    ensures DetectsWith(density, 0) == 0.0
    ensures DetectsWith(density, n + 1) == DetectsWith(density, n) + (1.0 - DetectsWith(density, n)) * density
  {
    var p := Pow(1.0 - density, n);
    assert Pow(1.0 - density, n + 1) == (1.0 - density) * p;
    assert (1.0 - density) * p == p - density * p;
  }

  /** Both are probabilities that never fall with the number of patterns. */
  lemma DetectionIsProbability(total: nat, density: real, m: nat, n: nat)
    requires total > 0 && 0.0 <= density <= 1.0 && m <= n
    ensures 0.0 <= DetectsWith(density, m) <= DetectsWith(density, n) <= 1.0
    ensures 0.0 <= DetectsWithout(total, density, m) <= DetectsWithout(total, density, n) <= 1.0
    ensures DetectsWithout(total, density, n) == 1.0 <==> n > total - RoundDetectingPatterns(total, density)
  {
    var missing := total - RoundDetectingPatterns(total, density);
    PowBounds(1.0 - density, m);
    PowBounds(1.0 - density, n);
    PowFalls(1.0 - density, m, n);
    MissingBounds(total, missing, m);
    MissingBounds(total, missing, n);
    MissingFalls(total, missing, m, n);
  }

  /** Where the density is exact, patterns without replacement detect at least as well. */
  lemma WithoutDetectsMore(total: nat, detecting: nat, density: real, n: nat)
    requires Exact(total, detecting, density)
    ensures DetectsWithout(total, density, n) >= DetectsWith(density, n)
    ensures detecting < total && n >= 2 ==> DetectsWithout(total, density, n) > DetectsWith(density, n)
  {
    var missing := total - detecting;
    ExactIsKept(total, detecting, density);
    assert missing as real == (1.0 - density) * total as real;
    assert ShareOf(1.0 - density, missing, total);
    Quotient(missing, total, 1.0 - density);
    WithoutMissesLess(total, missing, n);
  }

  /** Sums over the faults that were added. */
  function SumWith(densities: seq<real>, n: nat): real {
    if densities == [] then 0.0 else SumWith(densities[..|densities| - 1], n) + DetectsWith(densities[|densities| - 1], n)
  }

  function SumWithout(total: nat, densities: seq<real>, n: nat): real
    requires total > 0
  {
    if densities == [] then 0.0
    else SumWithout(total, densities[..|densities| - 1], n) + DetectsWithout(total, densities[|densities| - 1], n)
  }

  /** The expected number of detected faults lies between none and all, and never
      falls with the number of patterns. */
  lemma {:induction false} CoverageIsShare(total: nat, densities: seq<real>, m: nat, n: nat)
    requires total > 0 && m <= n && forall d :: d in densities ==> IsShare(d)
    ensures 0.0 <= SumWith(densities, m) <= SumWith(densities, n) <= |densities| as real
    ensures 0.0 <= SumWithout(total, densities, m) <= SumWithout(total, densities, n) <= |densities| as real
  {
    if densities != [] {
      var last := densities[|densities| - 1];
      assert forall d :: d in densities[..|densities| - 1] ==> d in densities;
      CoverageIsShare(total, densities[..|densities| - 1], m, n);
      assert last in densities;
      DetectionIsProbability(total, last, m, n);
    }
  }

  /** With exact densities the coverage without replacement is at least the other. */
  lemma {:induction false} WithoutCoversMore(total: nat, densities: seq<real>, n: nat)
    requires total > 0
    requires forall d :: d in densities ==> exists k: nat :: Exact(total, k, d)
    ensures SumWithout(total, densities, n) >= SumWith(densities, n)
  {
    if densities != [] {
      var last, others := densities[|densities| - 1], densities[..|densities| - 1];
      forall d | d in others ensures exists k: nat :: Exact(total, k, d) { assert d in densities; }
      WithoutCoversMore(total, others, n);
      assert last in densities;
      var k: nat :| Exact(total, k, last);
      WithoutDetectsMore(total, k, last, n);
    }
  }

  // -------------------------------------------------------------- the model

  class CoverageModel {
    const counts: seq<nat>
    const withoutReplacement: bool
    const total: nat
    const sumWith: array<real>
    const sumWithout: array<real>
    ghost var added: seq<real>

    ghost predicate Valid()
      reads this, sumWith, sumWithout
    {
      && Ascending(counts) && total > 0 && sumWith != sumWithout && sumWith.Length == |counts| == sumWithout.Length
      && (forall i :: 0 <= i < |counts| ==> sumWith[i] == SumWith(added, counts[i]))
      && (withoutReplacement ==> forall i :: 0 <= i < |counts| ==> sumWithout[i] == SumWithout(total, added, counts[i]))
    }

    constructor (patternCounts: seq<nat>, without: bool, inputs: nat)
      requires Ascending(patternCounts)
      ensures Valid() && added == [] && counts == patternCounts && withoutReplacement == without && total == Pow2(inputs)
      ensures fresh(sumWith) && fresh(sumWithout)
    {
      counts, withoutReplacement, total, added := patternCounts, without, Pow2(inputs), [];
      sumWith := new real[|patternCounts|](_ => 0.0);
      sumWithout := new real[|patternCounts|](_ => 0.0);
    }

    /** Adds the detection probabilities with replacement, one power per step. */
    method AddWithReplacement(density: real)
      requires Ascending(counts) && sumWith.Length == |counts|
      modifies sumWith
      ensures forall i :: 0 <= i < |counts| ==> sumWith[i] == old(sumWith[i]) + DetectsWith(density, counts[i])
    {
      var miss, allMiss, applied := 1.0 - density, 1.0, 0;
      for i := 0 to |counts|
        invariant applied == (if i == 0 then 0 else counts[i - 1]) && allMiss == Pow(miss, applied)
        invariant forall k :: 0 <= k < i ==> sumWith[k] == old(sumWith[k]) + DetectsWith(density, counts[k])
        invariant forall k :: i <= k < |counts| ==> sumWith[k] == old(sumWith[k])
      {
        PowSum(miss, applied, counts[i] - applied);
        var step := PowerUi(miss, counts[i] - applied);
        allMiss := allMiss * step;
        applied := counts[i];
        sumWith[i] := sumWith[i] + (1.0 - allMiss);
      }
    }

    /** Adds the detection probabilities without replacement, one factor per pattern. */
    method AddWithoutReplacement(density: real)
      requires Ascending(counts) && sumWithout.Length == |counts| && total > 0
      modifies sumWithout
      ensures forall i :: 0 <= i < |counts| ==> sumWithout[i] == old(sumWithout[i]) + DetectsWithout(total, density, counts[i])
    {
      var missing := total - RoundDetectingPatterns(total, density);
      var allMiss, certain, applied := 1.0, false, 0;
      for i := 0 to |counts|
        invariant applied == (if i == 0 then 0 else counts[i - 1])
        invariant allMiss == Missing(total, missing, applied) && (certain ==> applied > missing)
        invariant forall k :: 0 <= k < i ==> sumWithout[k] == old(sumWithout[k]) + DetectsWithout(total, density, counts[k])
        invariant forall k :: i <= k < |counts| ==> sumWithout[k] == old(sumWithout[k])
      {
        allMiss, certain := MissMore(missing, allMiss, certain, applied, counts[i]);
        applied := counts[i];
        sumWithout[i] := sumWithout[i] + (1.0 - allMiss);
      }
    }

    /** The factors from one pattern count to the next; no denominator is zero. */
    method MissMore(missing: nat, before: real, wasCertain: bool, applied: nat, count: nat) returns (allMiss: real, certain: bool)
      requires missing <= total && applied <= count
      requires before == Missing(total, missing, applied) && (wasCertain ==> applied > missing)
      ensures allMiss == Missing(total, missing, count) && (certain ==> count > missing)
    {
      allMiss, certain := before, wasCertain;
      var k := applied;
      while !certain && k < count
        invariant applied <= k <= count
        invariant certain ==> count > missing && allMiss == 0.0
        invariant !certain ==> allMiss == Missing(total, missing, k)
      {
        var numerator := missing - k;
        if numerator <= 0 {
          allMiss := 0.0;
          certain := true;
          break;
        }
        var denominator := total - k;
        var factor := numerator as real / denominator as real;
        allMiss := allMiss * factor;
        k := k + 1;
      }
    }

    /** Adds one fault to all sums. */
    method AddFault(density: real)
      requires Valid()
      modifies this`added, sumWith, sumWithout
      ensures Valid() && added == old(added) + [density]
    {
      AddWithReplacement(density);
      if withoutReplacement { AddWithoutReplacement(density); }
      added := added + [density];
      assert added[..|added| - 1] == old(added);
    }
  }
}
