// Jain's fairness index of simulation/world.go over exact reals.
module Fairness {
  import opened Inequality

  function Product(x: real, y: real): real {
    x * y
  }

  function Square(x: real): real {
    Product(x, x)
  }

  lemma PositiveProduct(x: real, y: real)
    requires x > 0.0 && y > 0.0
    ensures Product(x, y) > 0.0
  {
  }

  lemma SquareBounds(x: real)
    ensures Square(x) >= 0.0
    ensures Square(x) == 0.0 <==> x == 0.0
  {
    if x > 0.0 {
      PositiveProduct(x, x);
    } else if x < 0.0 {
      PositiveProduct(-x, -x);
      assert Product(-x, -x) == Product(x, x);
    }
  }

  lemma SquareOfSumOfTwo(x: real, y: real)
    ensures Square(x + y) == Square(x) + 2.0 * Product(x, y) + Square(y)
    ensures Square(x - y) == Square(x) - 2.0 * Product(x, y) + Square(y)
  {
  }

  lemma Distributes(x: real, y: real, z: real)
    ensures Product(x, y + z) == Product(x, y) + Product(x, z)
  {
  }

  function SumOf(f: real -> real, s: seq<real>): real {
    if s == [] then 0.0 else SumOf(f, s[..|s| - 1]) + f(s[|s| - 1])
  }

  function SumSquares(s: seq<real>): real {
    SumOf(Square, s)
  }

  // The squared difference from x.
  function Deviation(x: real): real -> real {
    y => Square(x - y)
  }

  // The sum of (x - y)^2 over all pairs of positions of s.
  function PairSquares(s: seq<real>): real {
    if s == [] then 0.0 else PairSquares(s[..|s| - 1]) + SumOf(Deviation(s[|s| - 1]), s[..|s| - 1])
  }

  predicate Positive(s: seq<real>) {
    forall i :: 0 <= i < |s| ==> s[i] > 0.0
  }

  function OnlyPositive(s: seq<real>): (r: seq<real>)
    ensures Positive(r)
  {
    if s == [] then [] else
    OnlyPositive(s[..|s| - 1]) + if s[|s| - 1] > 0.0 then [s[|s| - 1]] else []
  }

  lemma {:induction false} SumSquaresBounds(s: seq<real>)
    ensures SumSquares(s) >= 0.0
    ensures Positive(s) && s != [] ==> SumSquares(s) > 0.0
  {
    if s != [] {
      SumSquaresBounds(s[..|s| - 1]);
      SquareBounds(s[|s| - 1]);
    }
  }

  function Index(n: nat, sum: real, sumSq: real): real
    requires n > 0 && sumSq > 0.0
  {
    NonZeroProduct(n as real, sumSq);
    sum * sum / (n as real * sumSq)
  }

  function JainIndex(values: seq<real>): real
    requires Positive(values) && values != []
  {
    SumSquaresBounds(values);
    Index(|values|, Total(values), SumSquares(values))
  }

  method CollectPositive(all: seq<real>) returns (values: seq<real>)
    ensures values == OnlyPositive(all)
  {
    values := [];
    for i := 0 to |all|
      invariant values == OnlyPositive(all[..i])
    {
      assert all[..i + 1][..i] == all[..i];
      if all[i] > 0.0 {
        values := values + [all[i]];
      }
    }
    assert all[..|all|] == all;
  }

  method SumUpSquares(values: seq<real>) returns (sum: real, sumSq: real)
    ensures sum == Total(values) && sumSq == SumSquares(values)
  {
    sum, sumSq := 0.0, 0.0;
    for i := 0 to |values|
      invariant sum == Total(values[..i]) && sumSq == SumSquares(values[..i])
    {
      assert values[..i + 1][..i] == values[..i];
      sum := sum + values[i];
      sumSq := sumSq + values[i] * values[i];
    }
    assert values[..|values|] == values;
  }

  // Only nodes that have relayed count; with fewer than two of them the index is 1.
  method JainFairness(relayBytesOut: seq<real>) returns (index: real)
    ensures var values := OnlyPositive(relayBytesOut);
      index == if |values| < 2 then 1.0 else JainIndex(values)
  {
    var values := CollectPositive(relayBytesOut);
    if |values| < 2 {
      return 1.0;
    }
    var sum, sumSq := SumUpSquares(values);
    SumSquaresBounds(values);
    if sumSq == 0.0 {
      return 0.0;
    }
    index := Index(|values|, sum, sumSq);
  }

  // ---------- Cauchy-Schwarz, as an identity ----------

  lemma {:induction false} SumOfCombination(f: real -> real, c: real, g: real -> real, h: real -> real, s: seq<real>)
    requires forall y :: f(y) == c - 2.0 * g(y) + h(y)
    ensures SumOf(f, s) == Times(|s|, c) - 2.0 * SumOf(g, s) + SumOf(h, s)
  {
    if s != [] {
      SumOfCombination(f, c, g, h, s[..|s| - 1]);
    }
  }

  lemma {:induction false} MultiplesOf(x: real, g: real -> real, s: seq<real>)
    requires forall y :: g(y) == Product(x, y)
    ensures SumOf(g, s) == Product(x, Total(s))
  {
    if s != [] {
      MultiplesOf(x, g, s[..|s| - 1]);
      Distributes(x, Total(s[..|s| - 1]), s[|s| - 1]);
    }
  }

  lemma DeviationSum(x: real, s: seq<real>)
    ensures SumOf(Deviation(x), s) == Times(|s|, Square(x)) - 2.0 * Product(x, Total(s)) + SumSquares(s)
  {
    var g := y => Product(x, y);
    MultiplesOf(x, g, s);
    forall y
      ensures Deviation(x)(y) == Square(x) - 2.0 * g(y) + Square(y)
    {
      SquareOfSumOfTwo(x, y);
    }
    SumOfCombination(Deviation(x), Square(x), g, Square, s);
  }

  lemma CauchyStep(x: real, t: real, q: real, nq: real, nx: real, pairs: real, gap: real)
    requires nq - Square(t) == pairs && gap == nx - 2.0 * Product(x, t) + q
    ensures nq + nx + (q + Square(x)) - Square(t + x) == pairs + gap
  {
  }

  // n times the sum of squares exceeds the square of the sum by the sum of squared differences.
  lemma {:induction false} CauchySchwarz(s: seq<real>)
    ensures Times(|s|, SumSquares(s)) - Square(Total(s)) == PairSquares(s)
  {
    if s != [] {
      var p, x := s[..|s| - 1], s[|s| - 1];
      CauchySchwarz(p);
      DeviationSum(x, p);
      TimesAdds(|p|, SumSquares(p), Square(x));
      CauchyStep(x, Total(p), SumSquares(p), Times(|p|, SumSquares(p)), Times(|p|, Square(x)), PairSquares(p),
          SumOf(Deviation(x), p));
    }
  }

  lemma {:induction false} DeviationBounds(x: real, s: seq<real>)
    ensures SumOf(Deviation(x), s) >= 0.0
    ensures SumOf(Deviation(x), s) == 0.0 <==> forall i :: 0 <= i < |s| ==> s[i] == x
  {
    if s != [] {
      var p := s[..|s| - 1];
      DeviationBounds(x, p);
      SquareBounds(x - s[|s| - 1]);
      assert forall i :: 0 <= i < |p| ==> s[i] == p[i];
    }
  }

  lemma {:induction false} PairSquaresBounds(s: seq<real>)
    ensures PairSquares(s) >= 0.0
    ensures PairSquares(s) == 0.0 <==> AllEqual(s)
  {
    if s != [] {
      var p := s[..|s| - 1];
      PairSquaresBounds(p);
      DeviationBounds(s[|s| - 1], p);
      assert forall i :: 0 <= i < |p| ==> s[i] == p[i];
    }
  }

  lemma {:induction false} SquareOfSum(s: seq<real>)
    requires Positive(s)
    ensures Total(s) >= 0.0 && Square(Total(s)) >= SumSquares(s)
  {
    if s != [] {
      var t, x := Total(s[..|s| - 1]), s[|s| - 1];
      SquareOfSum(s[..|s| - 1]);
      SquareOfSumOfTwo(t, x);
      NonNegativeProduct(t, x);
    }
  }

  lemma AtMostOne(r: real, d: real, a: real)
    requires d > 0.0 && r * d == a <= d
    ensures r <= 1.0 && (r == 1.0 <==> a == d)
  {
  }

  lemma AtLeastPart(r: real, m: real, q: real, d: real)
    requires m > 0.0 && q > 0.0 && d == m * q && r * d >= q
    ensures r >= 1.0 / m
  {
  }

  lemma IndexBounds(n: nat, sum: real, sumSq: real)
    requires n > 0 && sumSq > 0.0 && sumSq <= Square(sum) <= Times(n, sumSq)
    ensures 1.0 / n as real <= Index(n, sum, sumSq) <= 1.0
    ensures Index(n, sum, sumSq) == 1.0 <==> Square(sum) == Times(n, sumSq)
  {
    TimesIsProduct(n, sumSq);
    var m, r := n as real, Index(n, sum, sumSq);
    PositiveProduct(m, sumSq);
    var d := m * sumSq;
    assert r * d == Square(sum);
    AtMostOne(r, d, Square(sum));
    AtLeastPart(r, m, sumSq, d);
  }

  // Jain's index of n positive values lies in [1/n, 1] and is 1 exactly when all are equal.
  lemma JainBounds(values: seq<real>)
    requires Positive(values) && values != []
    ensures 1.0 / |values| as real <= JainIndex(values) <= 1.0
    ensures JainIndex(values) == 1.0 <==> AllEqual(values)
  {
    CauchySchwarz(values);
    PairSquaresBounds(values);
    SquareOfSum(values);
    SumSquaresBounds(values);
    IndexBounds(|values|, Total(values), SumSquares(values));
  }

  // The index times n times the sum of squares is the square of the sum.
  lemma JainIsExact(values: seq<real>)
    requires Positive(values) && values != []
    ensures JainIndex(values) * Times(|values|, SumSquares(values)) == Total(values) * Total(values)
  {
    SumSquaresBounds(values);
    TimesIsProduct(|values|, SumSquares(values));
    PositiveProduct(|values| as real, SumSquares(values));
  }

  // Exactly the positive volumes count, each as often as it occurs.
  lemma {:induction false} CountsPositive(s: seq<real>, x: real)
    ensures multiset(OnlyPositive(s))[x] == if x > 0.0 then multiset(s)[x] else 0
  {
    if s != [] {
      CountsPositive(s[..|s| - 1], x);
      assert s == s[..|s| - 1] + [s[|s| - 1]];
    }
  }

  // ---------- Reordering and scaling ----------

  lemma {:induction false} TakeOutSquares(s: seq<real>, k: nat)
    requires k < |s|
    ensures SumSquares(s) == SumSquares(Without(s, k)) + Square(s[k])
  {
    if k < |s| - 1 {
      WithoutFront(s, k);
      TakeOutSquares(s[..|s| - 1], k);
      assert Without(s, k)[..|s| - 2] == Without(s[..|s| - 1], k);
    } else {
      assert Without(s, k) == s[..k];
    }
  }

  lemma {:induction false} SquaresOrderless(a: seq<real>, b: seq<real>)
    requires multiset(a) == multiset(b)
    ensures SumSquares(a) == SumSquares(b)
  {
    assert |a| == |multiset(a)| == |multiset(b)| == |b|;
    if a != [] {
      var k := Somewhere(a, b);
      WithoutSame(a, b, k);
      SquaresOrderless(a[..|a| - 1], Without(b, k));
      TakeOutSquares(b, k);
    }
  }

  lemma JainOrderless(a: seq<real>, b: seq<real>)
    requires Positive(a) && a != [] && multiset(a) == multiset(b)
    ensures Positive(b) && b != [] && JainIndex(a) == JainIndex(b)
  {
    assert |a| == |multiset(a)| == |multiset(b)| == |b|;
    forall i | 0 <= i < |b|
      ensures b[i] > 0.0
    {
      assert b[i] in multiset(a);
    }
    TotalOrderless(a, b);
    SquaresOrderless(a, b);
  }

  function MapOf(f: real -> real, s: seq<real>): seq<real> {
    seq(|s|, i requires 0 <= i < |s| => f(s[i]))
  }

  function Multiplier(k: real): real -> real {
    x => Product(k, x)
  }

  function Scaled(k: real, s: seq<real>): seq<real> {
    MapOf(Multiplier(k), s)
  }

  lemma SquareOfProduct(k: real, x: real)
    ensures Square(Product(k, x)) == Product(Square(k), Square(x))
  {
    assert (k * x) * (k * x) == k * (x * (k * x)) == k * (k * (x * x)) == (k * k) * (x * x);
  }

  lemma MapFront(f: real -> real, s: seq<real>)
    requires s != []
    ensures MapOf(f, s)[..|s| - 1] == MapOf(f, s[..|s| - 1])
    ensures MapOf(f, s)[|s| - 1] == f(s[|s| - 1])
  {
  }

  lemma {:induction false} ScaledSums(k: real, s: seq<real>)
    ensures Total(Scaled(k, s)) == Product(k, Total(s))
    ensures SumSquares(Scaled(k, s)) == Product(Square(k), SumSquares(s))
  {
    if s != [] {
      var p, x := s[..|s| - 1], s[|s| - 1];
      ScaledSums(k, p);
      MapFront(Multiplier(k), s);
      SquareOfProduct(k, x);
      Distributes(Square(k), SumSquares(p), Square(x));
      Distributes(k, Total(p), x);
    }
  }

  lemma CancelFactor(c: real, a: real, b: real)
    requires c > 0.0 && b > 0.0
    ensures c * b > 0.0 && (c * a) / (c * b) == a / b
  {
    assert ((c * a) / (c * b)) * (c * b) == c * a;
    assert (a / b) * (c * b) == c * ((a / b) * b) == c * a;
  }

  lemma IndexScaleFree(k: real, n: nat, sum: real, sumSq: real)
    requires k > 0.0 && n > 0 && sumSq > 0.0
    ensures Product(Square(k), sumSq) > 0.0
    ensures Index(n, Product(k, sum), Product(Square(k), sumSq)) == Index(n, sum, sumSq)
  {
    var c, m := Square(k), n as real;
    SquareBounds(k);
    SquareOfProduct(k, sum);
    assert c * sumSq > 0.0 && m * sumSq > 0.0;
    assert m * (c * sumSq) == c * (m * sumSq);
    CancelFactor(c, sum * sum, m * sumSq);
  }

  lemma JainScaleFree(k: real, values: seq<real>)
    requires k > 0.0 && Positive(values) && values != []
    ensures Positive(Scaled(k, values)) && JainIndex(Scaled(k, values)) == JainIndex(values)
  {
    ScaledSums(k, values);
    SumSquaresBounds(values);
    IndexScaleFree(k, |values|, Total(values), SumSquares(values));
    forall i | 0 <= i < |values|
      ensures Multiplier(k)(values[i]) > 0.0
    {
      var x := values[i];
      PositiveProduct(k, x);
    }
  }
}
