// The inequality metrics of simulation/world.go over exact reals: the sorted one-pass Gini coefficient,
// Jain's fairness index, and what a user transfer does to GiniBalance.
module Inequality {
  import opened Prelude

  // ---------- Sums over a list ----------

  function Abs(x: real): real {
    if x < 0.0 then -x else x
  }

  function Total(s: seq<real>): real {
    if s == [] then 0.0 else Total(s[..|s| - 1]) + s[|s| - 1]
  }

  // The sum of |x - y| over all y in s.
  function GapTo(x: real, s: seq<real>): real {
    if s == [] then 0.0 else GapTo(x, s[..|s| - 1]) + Abs(x - s[|s| - 1])
  }

  // The sum of |x - y| over all pairs of positions of s.
  function PairGaps(s: seq<real>): real {
    if s == [] then 0.0 else PairGaps(s[..|s| - 1]) + GapTo(s[|s| - 1], s[..|s| - 1])
  }

  // The sum of (2i - n + 1) * s[i].
  function RankSum(s: seq<real>, n: int): real {
    if s == [] then 0.0 else RankSum(s[..|s| - 1], n) + (2 * (|s| - 1) - n + 1) as real * s[|s| - 1]
  }

  // x added n times.
  function Times(n: nat, x: real): real {
    if n == 0 then 0.0 else Times(n - 1, x) + x
  }

  lemma {:induction false} TimesIsProduct(n: nat, x: real)
    ensures Times(n, x) == n as real * x
  {
    if n == 0 {
      assert n as real == 0.0;
    } else {
      TimesIsProduct(n - 1, x);
      var m := (n - 1) as real;
      assert n as real == m + 1.0 && (m + 1.0) * x == m * x + x;
    }
  }

  lemma {:induction false} TimesAdds(n: nat, x: real, y: real)
    ensures Times(n, x + y) == Times(n, x) + Times(n, y)
  {
    if n > 0 {
      TimesAdds(n - 1, x, y);
    }
  }

  predicate Ascending(s: seq<real>) {
    forall i, j :: 0 <= i < j < |s| ==> s[i] <= s[j]
  }

  predicate NonNegative(s: seq<real>) {
    forall i :: 0 <= i < |s| ==> s[i] >= 0.0
  }

  predicate AllEqual(s: seq<real>) {
    forall i, j :: 0 <= i < j < |s| ==> s[i] == s[j]
  }

  // ---------- The rank sum of a sorted list is its pairwise sum ----------

  lemma {:induction false} RankSumShift(s: seq<real>, n: int)
    ensures RankSum(s, n + 1) == RankSum(s, n) - Total(s)
  {
    if s != [] {
      RankSumShift(s[..|s| - 1], n);
      var c: real, x := (2 * (|s| - 1) - n + 1) as real, s[|s| - 1];
      assert (2 * (|s| - 1) - (n + 1) + 1) as real == c - 1.0;
      assert (c - 1.0) * x == c * x - x;
    }
  }

  lemma {:induction false} GapToMaximum(x: real, s: seq<real>)
    requires forall i :: 0 <= i < |s| ==> s[i] <= x
    ensures GapTo(x, s) == Times(|s|, x) - Total(s)
  {
    if s != [] {
      GapToMaximum(x, s[..|s| - 1]);
    }
  }

  lemma {:induction false} RankSumIsPairGaps(s: seq<real>)
    requires Ascending(s)
    ensures RankSum(s, |s|) == PairGaps(s)
  {
    if s != [] {
      var n, p, x := |s|, s[..|s| - 1], s[|s| - 1];
      RankSumIsPairGaps(p);
      RankSumShift(p, n - 1);
      GapToMaximum(x, p);
      TimesIsProduct(n - 1, x);
      assert 2 * (n - 1) - n + 1 == n - 1;
    }
  }

  // ---------- Rearranging ----------

  function Without(s: seq<real>, k: nat): seq<real>
    requires k < |s|
  {
    s[..k] + s[k + 1..]
  }

  lemma WithoutFront(s: seq<real>, k: nat)
    requires k < |s| - 1
    ensures Without(s, k) == Without(s[..|s| - 1], k) + [s[|s| - 1]]
  {
  }

  lemma {:induction false} TakeOutTotal(s: seq<real>, k: nat)
    requires k < |s|
    ensures Total(s) == Total(Without(s, k)) + s[k]
  {
    if k < |s| - 1 {
      WithoutFront(s, k);
      TakeOutTotal(s[..|s| - 1], k);
      assert Without(s, k)[..|s| - 2] == Without(s[..|s| - 1], k);
    } else {
      assert Without(s, k) == s[..k];
    }
  }

  lemma {:induction false} TakeOutGap(x: real, s: seq<real>, k: nat)
    requires k < |s|
    ensures GapTo(x, s) == GapTo(x, Without(s, k)) + Abs(x - s[k])
  {
    if k < |s| - 1 {
      WithoutFront(s, k);
      TakeOutGap(x, s[..|s| - 1], k);
      assert Without(s, k)[..|s| - 2] == Without(s[..|s| - 1], k);
    } else {
      assert Without(s, k) == s[..k];
    }
  }

  lemma {:induction false} TakeOutPairs(s: seq<real>, k: nat)
    requires k < |s|
    ensures PairGaps(s) == PairGaps(Without(s, k)) + GapTo(s[k], Without(s, k))
  {
    if k < |s| - 1 {
      var p, m := s[..|s| - 1], s[|s| - 1];
      WithoutFront(s, k);
      TakeOutPairs(p, k);
      TakeOutGap(m, p, k);
      assert Without(s, k)[..|s| - 2] == Without(p, k);
    } else {
      assert Without(s, k) == s[..k];
    }
  }

  lemma WithoutSame(a: seq<real>, b: seq<real>, k: nat)
    requires a != [] && k < |b| && b[k] == a[|a| - 1] && multiset(a) == multiset(b)
    ensures multiset(a[..|a| - 1]) == multiset(Without(b, k))
  {
    TakeOutSame(a, |a| - 1, b, k);
    assert a[..|a| - 1] + a[|a|..] == a[..|a| - 1];
  }

  lemma Somewhere(a: seq<real>, b: seq<real>) returns (k: nat)
    requires a != [] && multiset(a) == multiset(b)
    ensures k < |b| && b[k] == a[|a| - 1]
  {
    assert a[|a| - 1] in multiset(b);
    k :| 0 <= k < |b| && b[k] == a[|a| - 1];
  }

  lemma {:induction false} TotalOrderless(a: seq<real>, b: seq<real>)
    requires multiset(a) == multiset(b)
    ensures |a| == |b| && Total(a) == Total(b)
  {
    assert |a| == |multiset(a)| == |multiset(b)| == |b|;
    if a != [] {
      var k := Somewhere(a, b);
      WithoutSame(a, b, k);
      TotalOrderless(a[..|a| - 1], Without(b, k));
      TakeOutTotal(b, k);
    }
  }

  lemma {:induction false} GapToOrderless(x: real, a: seq<real>, b: seq<real>)
    requires multiset(a) == multiset(b)
    ensures GapTo(x, a) == GapTo(x, b)
  {
    assert |a| == |multiset(a)| == |multiset(b)| == |b|;
    if a != [] {
      var k := Somewhere(a, b);
      WithoutSame(a, b, k);
      GapToOrderless(x, a[..|a| - 1], Without(b, k));
      TakeOutGap(x, b, k);
    }
  }

  lemma {:induction false} PairGapsOrderless(a: seq<real>, b: seq<real>)
    requires multiset(a) == multiset(b)
    ensures PairGaps(a) == PairGaps(b)
  {
    assert |a| == |multiset(a)| == |multiset(b)| == |b|;
    if a != [] {
      var k := Somewhere(a, b);
      WithoutSame(a, b, k);
      PairGapsOrderless(a[..|a| - 1], Without(b, k));
      GapToOrderless(b[k], a[..|a| - 1], Without(b, k));
      TakeOutPairs(b, k);
    }
  }

  // ---------- The Gini coefficient ----------

  function Clamp(x: real): real {
    if x < 0.0 then 0.0 else if x > 1.0 then 1.0 else x
  }

  lemma NonNegativeProduct(x: real, y: real)
    requires x >= 0.0 && y >= 0.0
    ensures x * y >= 0.0
  {
  }

  lemma NonZeroProduct(a: real, b: real)
    requires a != 0.0 && b != 0.0
    ensures a * b != 0.0
  {
  }

  // The coefficient of n values with the given pairwise sum and total.
  function Coefficient(n: nat, gaps: real, total: real): real
    requires n > 0 && total != 0.0
  {
    NonZeroProduct(n as real, total);
    gaps / (n as real * total)
  }

  // The pairwise definition, clamped as the code clamps it.
  function GiniIndex(values: seq<real>): real {
    if |values| < 2 || Total(values) == 0.0 then 0.0
    else Clamp(Coefficient(|values|, PairGaps(values), Total(values)))
  }

  lemma InsertAscending(s: seq<real>, k: nat, x: real)
    requires k <= |s| && Ascending(s)
    requires forall m :: 0 <= m < k ==> s[m] <= x
    requires k < |s| ==> x < s[k]
    ensures Ascending(s[..k] + [x] + s[k..])
  {
  }

  lemma InsertMultiset(s: seq<real>, k: nat, x: real)
    requires k <= |s|
    ensures multiset(s[..k] + [x] + s[k..]) == multiset(s) + multiset{x}
  {
    assert s == s[..k] + s[k..];
  }

  // A stand-in for sort.Float64s.
  method SortFloats(values: seq<real>) returns (sorted: seq<real>)
    ensures multiset(sorted) == multiset(values) && Ascending(sorted)
  {
    sorted := [];
    for i := 0 to |values|
      invariant multiset(sorted) == multiset(values[..i]) && Ascending(sorted)
    {
      var k := 0;
      while k < |sorted| && sorted[k] <= values[i]
        invariant 0 <= k <= |sorted|
        invariant forall m :: 0 <= m < k ==> sorted[m] <= values[i]
      {
        k := k + 1;
      }
      InsertAscending(sorted, k, values[i]);
      InsertMultiset(sorted, k, values[i]);
      assert values[..i + 1] == values[..i] + [values[i]];
      sorted := sorted[..k] + [values[i]] + sorted[k..];
    }
    assert values[..|values|] == values;
  }

  method SumUp(s: seq<real>) returns (sum: real)
    ensures sum == Total(s)
  {
    sum := 0.0;
    for i := 0 to |s|
      invariant sum == Total(s[..i])
    {
      assert s[..i + 1][..i] == s[..i];
      sum := sum + s[i];
    }
    assert s[..|s|] == s;
  }

  method SumUpRanked(s: seq<real>) returns (g: real)
    ensures g == RankSum(s, |s|)
  {
    g := 0.0;
    for i := 0 to |s|
      invariant g == RankSum(s[..i], |s|)
    {
      assert s[..i + 1][..i] == s[..i];
      g := g + (2 * i - |s| + 1) as real * s[i];
    }
    assert s[..|s|] == s;
  }

  // The one-pass computation over the sorted copy yields the pairwise definition, for any values in any order.
  method Gini(values: seq<real>) returns (result: real)
    ensures result == GiniIndex(values)
  {
    var n := |values|;
    if n < 2 {
      return 0.0;
    }
    var sorted := SortFloats(values);
    TotalOrderless(sorted, values);
    PairGapsOrderless(sorted, values);
    RankSumIsPairGaps(sorted);
    var sum := SumUp(sorted);
    if sum == 0.0 {
      return 0.0;
    }
    var g := SumUpRanked(sorted);
    result := Coefficient(n, g, sum);
    if result < 0.0 {
      result := 0.0;
    }
    if result > 1.0 {
      result := 1.0;
    }
  }

  lemma {:induction false} TotalBounds(s: seq<real>)
    requires NonNegative(s)
    ensures Total(s) >= 0.0
    ensures Total(s) == 0.0 ==> forall i :: 0 <= i < |s| ==> s[i] == 0.0
  {
    if s != [] {
      TotalBounds(s[..|s| - 1]);
      assert forall i :: 0 <= i < |s| - 1 ==> s[i] == s[..|s| - 1][i];
    }
  }

  lemma {:induction false} GapToBounds(x: real, s: seq<real>)
    requires NonNegative(s) && x >= 0.0
    ensures 0.0 <= GapTo(x, s) <= Times(|s|, x) + Total(s)
    ensures GapTo(x, s) == 0.0 <==> forall i :: 0 <= i < |s| ==> s[i] == x
  {
    if s != [] {
      var p := s[..|s| - 1];
      GapToBounds(x, p);
      assert forall i :: 0 <= i < |p| ==> s[i] == p[i];
    }
  }

  lemma {:induction false} PairGapsBounds(s: seq<real>)
    requires NonNegative(s)
    ensures 0.0 <= PairGaps(s)
    ensures |s| > 0 ==> PairGaps(s) <= Times(|s| - 1, Total(s))
    ensures PairGaps(s) == 0.0 <==> AllEqual(s)
  {
    if s != [] {
      var p, x, n := s[..|s| - 1], s[|s| - 1], |s| - 1;
      PairGapsBounds(p);
      GapToBounds(x, p);
      assert forall i :: 0 <= i < n ==> s[i] == p[i];
      TimesAdds(n, Total(p), x);
    }
  }

  // What division by c * d does to 0 <= a <= b * d.
  lemma Quotient(a: real, b: real, c: real, d: real)
    requires d > 0.0 && c > 0.0 && 0.0 <= a <= b * d
    ensures c * d > 0.0
    ensures 0.0 <= a / (c * d) <= b / c
    ensures a / (c * d) == 0.0 <==> a == 0.0
  {
    var q := a / (c * d);
    assert c * d > 0.0;
    assert q * (c * d) == a;
    assert (b / c) * (c * d) == b * d;
  }

  lemma BelowOne(n: real)
    requires n >= 1.0
    ensures 0.0 <= (n - 1.0) / n <= 1.0
  {
  }

  lemma ClampedQuotient(g: real, n: nat, t: real)
    requires n >= 1 && t > 0.0 && 0.0 <= g <= Times(n - 1, t)
    ensures n as real * t > 0.0
    ensures var q := g / (n as real * t);
      Clamp(q) == q && 0.0 <= q <= (n as real - 1.0) / n as real && (q == 0.0 <==> g == 0.0)
  {
    var m := n as real;
    TimesIsProduct(n - 1, t);
    assert (n - 1) as real == m - 1.0;
    Quotient(g, m - 1.0, m, t);
    BelowOne(m);
  }

  lemma CoefficientBounds(n: nat, gaps: real, total: real)
    requires n > 0 && total > 0.0 && 0.0 <= gaps <= Times(n - 1, total)
    ensures var q := Coefficient(n, gaps, total);
      Clamp(q) == q && 0.0 <= q <= (n as real - 1.0) / n as real && (q == 0.0 <==> gaps == 0.0)
  {
    ClampedQuotient(gaps, n, total);
  }

  // For non-negative values the clamps never fire: the coefficient is the pairwise sum over n times the total.
  lemma GiniIsExact(values: seq<real>)
    requires NonNegative(values) && |values| >= 2 && Total(values) > 0.0
    ensures GiniIndex(values) == Coefficient(|values|, PairGaps(values), Total(values))
  {
    PairGapsBounds(values);
    var n, g, t := |values|, PairGaps(values), Total(values);
    CoefficientBounds(n, g, t);
  }

  ghost predicate IsRatio(q: real, gaps: real, n: nat, total: real) {
    q * (n as real * total) == gaps
  }

  // For any values, negative ones too, it is the pairwise sum over n times the total, held between 0 and 1, and 0 when
  // that has no meaning.
  lemma GiniOfAny(values: seq<real>, q: real)
    requires |values| >= 2 && Total(values) != 0.0 ==> IsRatio(q, PairGaps(values), |values|, Total(values))
    ensures GiniIndex(values)
         == if |values| < 2 || Total(values) == 0.0 || q <= 0.0 then 0.0 else if q >= 1.0 then 1.0 else q
  {
    if |values| >= 2 && Total(values) != 0.0 {
      CoefficientIs(|values|, PairGaps(values), Total(values), q);
    }
  }

  lemma CoefficientIs(n: nat, gaps: real, total: real, q: real)
    requires n > 0 && total != 0.0 && IsRatio(q, gaps, n, total)
    ensures Coefficient(n, gaps, total) == q
  {
    NonZeroProduct(n as real, total);
    QuotientIs(q, gaps, n as real * total);
  }

  lemma QuotientIs(q: real, a: real, d: real)
    requires d != 0.0 && q * d == a
    ensures a / d == q
  {
    var r := a / d;
    assert r * d == a && (r - q) * d == r * d - q * d;
    if r != q {
      NonZeroProduct(r - q, d);
    }
  }

  // It lies in [0, (n-1)/n] and is 0 exactly when all values are equal.
  lemma GiniBounds(values: seq<real>)
    requires NonNegative(values) && |values| >= 2
    ensures 0.0 <= GiniIndex(values) <= (|values| as real - 1.0) / |values| as real
    ensures GiniIndex(values) == 0.0 <==> AllEqual(values)
  {
    TotalBounds(values);
    PairGapsBounds(values);
    var n, g, t := |values|, PairGaps(values), Total(values);
    if t > 0.0 {
      GiniIsExact(values);
      CoefficientBounds(n, g, t);
    } else {
      BelowOne(n as real);
    }
  }

  // The coefficient does not depend on the order of the values.
  lemma GiniOrderless(a: seq<real>, b: seq<real>)
    requires multiset(a) == multiset(b)
    ensures GiniIndex(a) == GiniIndex(b)
  {
    TotalOrderless(a, b);
    PairGapsOrderless(a, b);
  }
}
