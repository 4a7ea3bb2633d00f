/** The probability that random patterns miss a fault, with and without replacement. */
module SamplingProbability {

  function Pow(x: real, n: nat): real {
    if n == 0 then 1.0 else x * Pow(x, n - 1)
  }

  lemma {:induction false} PowSum(x: real, m: nat, n: nat)
    ensures Pow(x, m + n) == Pow(x, m) * Pow(x, n)
  {
    if m > 0 {
      PowSum(x, m - 1, n);
      assert m + n - 1 == (m - 1) + n;
      Associate(x, Pow(x, m - 1), Pow(x, n));
    }
  }

  lemma Associate(a: real, b: real, c: real)
    ensures (a * b) * c == a * (b * c)
  {
  }

  lemma {:induction false} PowSquare(x: real, n: nat)
    ensures Pow(x * x, n) == Pow(x, 2 * n)
  {
    if n > 0 {
      PowSquare(x, n - 1);
      var p := Pow(x, 2 * (n - 1));
      assert Pow(x, 2 * n) == x * Pow(x, 2 * n - 1) && Pow(x, 2 * n - 1) == x * p;
      assert (x * x) * p == x * (x * p);
    }
  }

  lemma {:induction false} PowBounds(x: real, n: nat)
    requires 0.0 <= x <= 1.0
    ensures 0.0 <= Pow(x, n) <= 1.0
    ensures n > 0 ==> Pow(x, n) <= x
    ensures x > 0.0 ==> Pow(x, n) > 0.0
  {
    if n > 0 {
      PowBounds(x, n - 1);
      Shrink(x, Pow(x, n - 1));
    }
  }

  lemma Shrink(a: real, b: real)
    requires 0.0 <= a && 0.0 <= b <= 1.0
    ensures 0.0 <= a * b <= a
    ensures a > 0.0 && b > 0.0 ==> a * b > 0.0
    ensures a > 0.0 && b < 1.0 ==> a * b < a
  {
  }

  /** Missing is less likely the more patterns are drawn. */
  lemma {:induction false} PowFalls(x: real, m: nat, n: nat)
    requires 0.0 <= x <= 1.0 && m <= n
    ensures Pow(x, n) <= Pow(x, m)
    decreases n
  {
    if m < n {
      PowFalls(x, m, n - 1);
      PowStep(x, n - 1);
    }
  }

  lemma PowStep(x: real, n: nat)
    requires 0.0 <= x <= 1.0
    ensures Pow(x, n + 1) <= Pow(x, n)
  {
    var p := Pow(x, n);
    assert 0.0 <= p by { PowBounds(x, n); }
    Shrink(p, x);
    assert Pow(x, n + 1) == x * p;
  }

  // ------------------------------------------------ without replacement

  /** The probability that n of 'total' patterns, drawn without replacement, are all
      among the 'missing' ones. */
  function Missing(total: nat, missing: nat, n: nat): real
    requires missing <= total
  {
    if n == 0 then 1.0
    else if n > missing then 0.0
    else Missing(total, missing, n - 1) * Factor(total, missing, n - 1)
  }

  function Factor(total: nat, missing: nat, k: nat): real
    requires k < missing <= total
  {
    (missing - k) as real / (total - k) as real
  }

  lemma FactorBounds(total: nat, missing: nat, k: nat)
    requires k < missing <= total
    ensures 0.0 < Factor(total, missing, k) <= missing as real / total as real <= 1.0
    ensures k > 0 && missing < total ==> Factor(total, missing, k) < missing as real / total as real
  {
    var a, b, c := missing as real, total as real, k as real;
    DivideLess(a - c, b - c, a, b);
    DivideLess(a, b, 1.0, 1.0);
  }

  /** Fractions compare as their cross products. */
  lemma DivideLess(a: real, b: real, c: real, d: real)
    requires b > 0.0 && d > 0.0
    ensures a / b <= c / d <==> a * d <= c * b
    ensures a / b < c / d <==> a * d < c * b
    ensures a > 0.0 ==> a / b > 0.0
  {
    var x, y := a / b, c / d;
    assert a == x * b && c == y * d;
    assert a * d == x * (b * d) by { assert (x * b) * d == x * (b * d); }
    assert c * b == y * (b * d) by { assert (y * d) * b == y * (b * d); }
    var e := b * d;
    assert e > 0.0;
    Scaled(x, y, e);
    if a > 0.0 && x <= 0.0 {
      Scaled(x, 0.0, b);
      assert false;
    }
  }

  lemma Scaled(x: real, y: real, e: real)
    requires e > 0.0
    ensures x * e <= y * e <==> x <= y
    ensures x * e < y * e <==> x < y
  {
  }

  /** All patterns are among the missing ones exactly while there are enough of them. */
  lemma {:induction false} MissingBounds(total: nat, missing: nat, n: nat)
    requires missing <= total
    ensures 0.0 <= Missing(total, missing, n) <= 1.0
    ensures Missing(total, missing, n) == 0.0 <==> n > missing
  {
    if 0 < n <= missing {
      MissingBounds(total, missing, n - 1);
      FactorBounds(total, missing, n - 1);
      Shrink(Missing(total, missing, n - 1), Factor(total, missing, n - 1));
    }
  }

  lemma {:induction false} MissingFalls(total: nat, missing: nat, m: nat, n: nat)
    requires missing <= total && m <= n
    ensures Missing(total, missing, n) <= Missing(total, missing, m)
    decreases n
  {
    if m < n {
      MissingFalls(total, missing, m, n - 1);
      MissingStep(total, missing, n - 1);
    }
  }

  lemma MissingStep(total: nat, missing: nat, n: nat)
    requires missing <= total
    ensures Missing(total, missing, n + 1) <= Missing(total, missing, n)
  {
    MissingBounds(total, missing, n);
    if n < missing {
      FactorInUnit(total, missing, n);
      StepDown(Missing(total, missing, n), Factor(total, missing, n), Missing(total, missing, n + 1));
    }
  }

  lemma FactorInUnit(total: nat, missing: nat, k: nat)
    requires k < missing <= total
    ensures 0.0 < Factor(total, missing, k) <= 1.0
  {
    FactorBounds(total, missing, k);
  }

  lemma StepDown(p: real, f: real, q: real)
    requires 0.0 <= p && 0.0 < f <= 1.0 && q == p * f
    ensures q <= p
  {
  }

  /** The number of ways to choose k of n things. */
  function Choose(n: nat, k: nat): nat {
    if k == 0 then 1 else if n == 0 then 0 else Choose(n - 1, k - 1) + Choose(n - 1, k)
  }

  lemma {:induction false} ChooseMore(n: nat, k: nat)
    ensures k <= n ==> (k + 1) * Choose(n, k + 1) == (n - k) * Choose(n, k)
    ensures k > n ==> Choose(n, k) == 0
    ensures k <= n ==> Choose(n, k) > 0
  {
    if n > 0 {
      ChooseMore(n - 1, k);
      if k > 0 { ChooseMore(n - 1, k - 1); }
      ChooseMore(n - 1, k + 1);
      if 0 < k <= n {
        PascalStep(n, k, Choose(n - 1, k - 1), Choose(n - 1, k), Choose(n - 1, k + 1));
      }
    }
  }

  lemma PascalStep(n: nat, k: nat, a: nat, b: nat, c: nat)
    requires 0 < k <= n && k * b == (n - k) * a
    requires if k < n then (k + 1) * c == (n - 1 - k) * b else b == 0 && c == 0
    ensures (k + 1) * (b + c) == (n - k) * (a + b)
  {
    assert (n - k) * (a + b) == (n - k) * a + (n - k) * b;
    assert (k + 1) * (b + c) == (k + 1) * b + (k + 1) * c;
  }

  /** The product is the share of the missing ones among all choices of n patterns. */
  lemma MissingIsShare(total: nat, missing: nat, n: nat)
    requires missing <= total && n <= total
    ensures Choose(total, n) > 0
    ensures Missing(total, missing, n) == Choose(missing, n) as real / Choose(total, n) as real
  {
    ChooseMore(total, n);
    MissingTimesAll(total, missing, n);
    Quotient(Choose(missing, n), Choose(total, n), Missing(total, missing, n));
  }

  /** p is the share of a in b, and two equal products. Kept folded. */
  ghost predicate ShareOf(p: real, a: nat, b: nat) {
    forall u {:trigger Unfold(u)} :: Unfold(u) ==> p * b as real == a as real
  }

  ghost predicate EqualProducts(a: nat, b: nat, c: nat, d: nat) {
    forall u {:trigger Unfold(u)} :: Unfold(u) ==> a * b == c * d
  }

  ghost predicate Unfold(u: int) { true }

  lemma Quotient(a: nat, b: nat, q: real)
    requires b > 0 && ShareOf(q, a, b)
    ensures a as real / b as real == q
  {
    assert Unfold(0);
  }

  lemma {:induction false} MissingTimesAll(total: nat, missing: nat, n: nat)
    requires missing <= total && n <= total
    ensures ShareOf(Missing(total, missing, n), Choose(missing, n), Choose(total, n))
  {
    if 0 < n <= missing {
      MissingTimesAll(total, missing, n - 1);
      MissingNext(total, missing, n - 1);
    } else {
      MissingEnds(total, missing, n);
    }
  }

  lemma MissingEnds(total: nat, missing: nat, n: nat)
    requires missing <= total && (n == 0 || n > missing)
    ensures ShareOf(Missing(total, missing, n), Choose(missing, n), Choose(total, n))
  {
    if n > 0 { ChooseMore(missing, n); }
    assert ShareOf(0.0, 0, Choose(total, n)) && ShareOf(1.0, 1, 1);
  }

  lemma MissingNext(total: nat, missing: nat, n: nat)
    requires n < missing <= total && ShareOf(Missing(total, missing, n), Choose(missing, n), Choose(total, n))
    ensures ShareOf(Missing(total, missing, n + 1), Choose(missing, n + 1), Choose(total, n + 1))
  {
    ChooseProducts(total, n);
    ChooseProducts(missing, n);
    FactorIsShare(total, missing, n);
    NextShare(Missing(total, missing, n), Factor(total, missing, n), Choose(missing, n), Choose(total, n),
      Choose(missing, n + 1), Choose(total, n + 1), missing - n, total - n, n + 1);
  }

  lemma FactorIsShare(total: nat, missing: nat, k: nat)
    requires k < missing <= total
    ensures ShareOf(Factor(total, missing, k), missing - k, total - k)
  {
  }

  lemma ChooseProducts(n: nat, k: nat)
    requires k <= n
    ensures EqualProducts(k + 1, Choose(n, k + 1), n - k, Choose(n, k))
  {
    ChooseMore(n, k);
  }

  lemma NextShare(p: real, f: real, a: nat, b: nat, a': nat, b': nat, c: nat, d: nat, n: nat)
    requires ShareOf(p, a, b) && ShareOf(f, c, d) && EqualProducts(n, a', c, a) && EqualProducts(n, b', d, b) && n > 0
    ensures ShareOf(p * f, a', b')
  {
    assert Unfold(0);
    RealProducts(n, a', c, a);
    RealProducts(n, b', d, b);
    ShareStep(a as real, b as real, a' as real, b' as real, c as real, d as real, n as real, p, f);
  }

  lemma RealProducts(a: nat, b: nat, c: nat, d: nat)
    requires a * b == c * d
    ensures a as real * b as real == c as real * d as real
  {
    RealProduct(a, b);
    RealProduct(c, d);
  }

  lemma {:induction false} RealProduct(a: nat, b: nat)
    ensures (a * b) as real == a as real * b as real
  {
    if a > 0 {
      RealProduct(a - 1, b);
      assert a * b == (a - 1) * b + b;
      assert a as real == (a - 1) as real + 1.0;
      assert a as real * b as real == (a - 1) as real * b as real + b as real;
    }
  }

  lemma ShareStep(a: real, b: real, a': real, b': real, c: real, d: real, n: real, x: real, y: real)
    requires n > 0.0 && x * b == a && y * d == c
    requires n * a' == c * a && n * b' == d * b
    ensures x * y * b' == a'
  {
    calc {
      n * (x * y * b');
      x * y * (n * b');
      x * y * (d * b);
      (y * d) * (x * b);
      n * a';
    }
    Same(n, x * y * b', a');
  }

  lemma Same(e: real, x: real, y: real)
    requires e > 0.0 && e * x == e * y
    ensures x == y
  {
  }

  /** Drawing without replacement detects at least as well as drawing with it, and
      better from the second pattern on if detection is not certain or impossible. */
  lemma {:induction false} WithoutMissesLess(total: nat, missing: nat, n: nat)
    requires missing <= total && total > 0
    ensures var share := missing as real / total as real;
      Missing(total, missing, n) <= Pow(share, n)
    ensures 0 < missing < total && n >= 2 ==> Missing(total, missing, n) < Pow(missing as real / total as real, n)
  {
    var share := missing as real / total as real;
    DivideLess(missing as real, total as real, 1.0, 1.0);
    DivideLess(0.0, 1.0, missing as real, total as real);
    PowBounds(share, n);
    if 0 < n <= missing {
      WithoutMissesLess(total, missing, n - 1);
      NextMissesLess(total, missing, n - 1);
    }
  }

  lemma NextMissesLess(total: nat, missing: nat, n: nat)
    requires n < missing <= total && Missing(total, missing, n) <= Pow(missing as real / total as real, n)
    ensures Missing(total, missing, n + 1) <= Pow(missing as real / total as real, n + 1)
    ensures missing < total && n > 0 ==> Missing(total, missing, n + 1) < Pow(missing as real / total as real, n + 1)
  {
    var share := missing as real / total as real;
    FactorBounds(total, missing, n);
    MissingBounds(total, missing, n);
    ProductLess(Missing(total, missing, n), Factor(total, missing, n), Pow(share, n), share);
  }

  lemma ProductLess(a: real, b: real, c: real, d: real)
    requires 0.0 <= a <= c && 0.0 < b <= d
    ensures a * b <= c * d
    ensures a > 0.0 && b < d ==> a * b < c * d
  {
    Scaled(a, c, d);
    if a > 0.0 {
      Scaled(b, d, a);
    } else {
      assert a * b == 0.0 && a * d == 0.0;
    }
  }
}
