// GiniBalance of simulation/world.go and the effect on it of a user transfer, in which a node richer than 50
// gives 10 to 30 per cent of its balance to a node poorer than 10.
module Transfers {
  import opened Inequality

  function Clipped(balance: real): real {
    if balance + 100.0 < 0.0 then 0.0 else balance + 100.0
  }

  function Shifted(balances: seq<real>): (v: seq<real>)
    ensures |v| == |balances| && NonNegative(v)
  {
    seq(|balances|, i requires 0 <= i < |balances| => Clipped(balances[i]))
  }

  function GiniBalance(balances: seq<real>): real {
    GiniIndex(Shifted(balances))
  }

  method ComputeGiniBalance(balances: seq<real>) returns (g: real)
    ensures g == GiniBalance(balances)
  {
    var values := [];
    for i := 0 to |balances|
      invariant values == Shifted(balances)[..i]
    {
      var v := balances[i] + 100.0;
      if v < 0.0 {
        v := 0.0;
      }
      values := values + [v];
    }
    assert values == Shifted(balances);
    g := Gini(values);
  }

  // u is the random draw from [0, 1).
  function Amount(balance: real, u: real): real {
    balance * (0.1 + u * 0.2)
  }

  predicate Eligible(sender: real, receiver: real, u: real) {
    sender > 50.0 && receiver < 10.0 && 0.0 <= u < 1.0
  }

  function Moved(b: seq<real>, i: nat, j: nat, amount: real): seq<real>
    requires i < |b| && j < |b| && i != j
  {
    b[i := b[i] - amount][j := b[j] + amount]
  }

  lemma AmountBounds(sender: real, u: real)
    requires sender > 50.0 && 0.0 <= u < 1.0
    ensures 5.0 < 0.1 * sender <= Amount(sender, u) < 0.3 * sender
  {
  }

  // The draw picks the share evenly between 10 and 30 per cent: every amount in between is the one of a single draw.
  lemma EveryAmountIsDrawn(sender: real, amount: real) returns (u: real)
    requires sender > 50.0 && 0.1 * sender <= amount < 0.3 * sender
    ensures 0.0 <= u < 1.0 && Amount(sender, u) == amount
    ensures u * (0.3 * sender - 0.1 * sender) == amount - 0.1 * sender
    ensures forall v: real :: v != u ==> Amount(sender, v) != amount
  {
    u := (amount - 0.1 * sender) / (0.2 * sender);
    assert u * (0.2 * sender) == amount - 0.1 * sender;
    forall v: real | v != u
      ensures Amount(sender, v) != amount
    {
      NonZeroProduct(v - u, 0.2 * sender);
    }
  }

  // ---------- The transfer principle ----------

  // Moving two points towards each other brings them no further, in sum, from any third.
  lemma {:induction false} Squeeze(rest: seq<real>, lo: real, lo': real, hi': real, hi: real)
    requires lo <= lo' <= hi && lo <= hi' <= hi && lo + hi == lo' + hi'
    ensures GapTo(lo', rest) + GapTo(hi', rest) <= GapTo(lo, rest) + GapTo(hi, rest)
  {
    if rest != [] {
      Squeeze(rest[..|rest| - 1], lo, lo', hi', hi);
    }
  }

  // The list without positions i and j.
  function WithoutBoth(s: seq<real>, i: nat, j: nat): seq<real>
    requires i < |s| && j < |s| && i != j
  {
    Without(Without(s, i), if j < i then j else j - 1)
  }

  lemma SplitPairs(s: seq<real>, i: nat, j: nat)
    requires i < |s| && j < |s| && i != j
    ensures PairGaps(s) == PairGaps(WithoutBoth(s, i, j)) + GapTo(s[i], WithoutBoth(s, i, j))
                           + GapTo(s[j], WithoutBoth(s, i, j)) + Abs(s[i] - s[j])
    ensures Total(s) == Total(WithoutBoth(s, i, j)) + s[i] + s[j]
  {
    var k, one := if j < i then j else j - 1, Without(s, i);
    WithoutAt(s, i, j);
    TakeOutPairs(s, i);
    TakeOutTotal(s, i);
    TakeOutBoth(s[i], one, k);
  }

  lemma WithoutAt(s: seq<real>, i: nat, j: nat)
    requires i < |s| && j < |s| && i != j
    ensures |Without(s, i)| == |s| - 1 && Without(s, i)[if j < i then j else j - 1] == s[j]
  {
  }

  lemma TakeOutBoth(x: real, one: seq<real>, k: nat)
    requires k < |one|
    ensures var rest := Without(one, k);
      && PairGaps(one) == PairGaps(rest) + GapTo(one[k], rest)
      && Total(one) == Total(rest) + one[k]
      && GapTo(x, one) == GapTo(x, rest) + Abs(x - one[k])
  {
    TakeOutPairs(one, k);
    TakeOutTotal(one, k);
    TakeOutGap(x, one, k);
  }

  ghost predicate SameBut(s: seq<real>, t: seq<real>, k: nat) {
    |s| == |t| && forall m :: 0 <= m < |s| && m != k ==> s[m] == t[m]
  }

  lemma SameWithout(s: seq<real>, t: seq<real>, k: nat)
    requires k < |s| && SameBut(s, t, k)
    ensures Without(s, k) == Without(t, k)
  {
  }

  lemma SameRest(s: seq<real>, t: seq<real>, i: nat, j: nat)
    requires i < |s| && j < |s| && i != j
    requires |s| == |t| && forall k :: 0 <= k < |s| && k != i && k != j ==> s[k] == t[k]
    ensures WithoutBoth(s, i, j) == WithoutBoth(t, i, j)
  {
    var a, b, k := Without(s, i), Without(t, i), if j < i then j else j - 1;
    forall m | 0 <= m < |a| && m != k
      ensures a[m] == b[m]
    {
      var n := if m < i then m else m + 1;
      assert a[m] == s[n] && b[m] == t[n];
    }
    SameWithout(a, b, k);
  }

  // Any move of wealth from a richer to a poorer non-negative value that does not swap them past each other's
  // start strictly lowers the coefficient.
  lemma PigouDalton(v: seq<real>, w: seq<real>, i: nat, j: nat)
    requires i < |v| && j < |v| && i != j && |w| == |v|
    requires forall k :: 0 <= k < |v| && k != i && k != j ==> v[k] == w[k]
    requires NonNegative(v) && NonNegative(w)
    requires v[j] < w[j] <= w[i] < v[i] && v[i] + v[j] == w[i] + w[j]
    ensures GiniIndex(w) < GiniIndex(v)
  {
    SplitPairs(v, i, j);
    SplitPairs(w, i, j);
    SameRest(v, w, i, j);
    Squeeze(WithoutBoth(v, i, j), v[j], w[j], w[i], v[i]);
    TotalBounds(v);
    GiniIsExact(v);
    GiniIsExact(w);
    CoefficientStrict(|v|, PairGaps(w), PairGaps(v), Total(v));
  }

  lemma CoefficientStrict(n: nat, a: real, b: real, t: real)
    requires n > 0 && t > 0.0 && a < b
    ensures Coefficient(n, a, t) < Coefficient(n, b, t)
  {
  }

  // The main result: a transfer leaves the sender richer than the receiver and, when the receiver was at or
  // above -100, strictly lowers GiniBalance whatever the other balances are.
  lemma TransferLowersGini(b: seq<real>, i: nat, j: nat, u: real)
    requires i < |b| && j < |b| && i != j && Eligible(b[i], b[j], u)
    ensures var a := Moved(b, i, j, Amount(b[i], u));
      && a[i] > a[j]
      && (b[j] >= -100.0 ==> GiniBalance(a) < GiniBalance(b))
  {
    AmountBounds(b[i], u);
    if b[j] >= -100.0 {
      PigouDalton(Shifted(b), Shifted(Moved(b, i, j, Amount(b[i], u))), i, j);
    }
  }

  // ---------- Below -100 ----------

  function Copies(x: real, m: nat): (s: seq<real>)
    ensures |s| == m && forall i :: 0 <= i < m ==> s[i] == x
  {
    seq(m, _ => x)
  }

  lemma {:induction false} CopiesSums(x: real, y: real, m: nat)
    ensures Total(Copies(x, m)) == Times(m, x)
    ensures GapTo(y, Copies(x, m)) == Times(m, Abs(y - x))
    ensures PairGaps(Copies(x, m)) == 0.0
    decreases m
  {
    if m > 0 {
      assert Copies(x, m)[..m - 1] == Copies(x, m - 1);
      CopiesSums(x, y, m - 1);
      CopiesSums(x, x, m - 1);
      TimesIsProduct(m - 1, 0.0);
    }
  }

  // The sums of a list of m copies of x followed by p and q.
  lemma TwoAndCopies(x: real, m: nat, p: real, q: real)
    ensures var s := Copies(x, m) + [p, q];
      && Total(s) == Times(m, x) + p + q
      && PairGaps(s) == Times(m, Abs(p - x)) + Times(m, Abs(q - x)) + Abs(q - p)
  {
    var c := Copies(x, m);
    var s := c + [p, q];
    CopiesSums(x, p, m);
    CopiesSums(x, q, m);
    assert s[..m + 1] == c + [p] && (c + [p])[..m] == c;
  }

  // n times a coefficient is the pairwise sum over the total.
  lemma CoefficientTimes(n: nat, a: real, t: real)
    requires n > 0 && t > 0.0
    ensures (Coefficient(n, a, t) * n as real) * t == a
  {
  }

  lemma FactorOrder(x: real, y: real, t: real)
    requires t > 0.0
    ensures x * t >= t ==> x >= 1.0
    ensures y * t == t ==> y == 1.0
  {
    if x < 1.0 {
      assert x * t < 1.0 * t;
    }
    if y < 1.0 {
      assert y * t < 1.0 * t;
    } else if y > 1.0 {
      assert y * t > 1.0 * t;
    }
  }

  lemma CoefficientAtLeast(n: nat, a: real, t: real, a': real, t': real)
    requires n > 0 && t > 0.0 && t' > 0.0 && a == t && a' >= t'
    ensures Coefficient(n, a', t') >= Coefficient(n, a, t)
  {
    var q, q', m := Coefficient(n, a, t), Coefficient(n, a', t'), n as real;
    CoefficientTimes(n, a, t);
    CoefficientTimes(n, a', t');
    FactorOrder(q' * m, 0.0, t');
    FactorOrder(q' * m, q * m, t);
    if q' < q {
      assert q' * m < q * m;
    }
  }

  lemma ClippedLists(sender: real, receiver: real, a: real, m: nat)
    requires sender > 50.0 && receiver < -100.0 && 5.0 < a < 0.3 * sender
    ensures var b, x := Copies(sender, m) + [receiver, sender], sender + 100.0;
      && Shifted(b) == Copies(x, m) + [0.0, x]
      && Shifted(Moved(b, m + 1, m, a)) == Copies(x, m) + [Clipped(receiver + a), x - a]
  {
  }

  // The world with m further nodes as rich as the sender, before and after the transfer.
  lemma ClippedSums(sender: real, receiver: real, a: real, m: nat)
    requires sender > 50.0 && receiver < -100.0 && 5.0 < a < 0.3 * sender
    requires Times(m, -(receiver + 100.0)) >= 2.0 * a
    ensures var b := Copies(sender, m) + [receiver, sender];
      var v, w := Shifted(b), Shifted(Moved(b, m + 1, m, a));
      PairGaps(v) == Total(v) > 0.0 && PairGaps(w) >= Total(w) > 0.0
  {
    var b := Copies(sender, m) + [receiver, sender];
    var x, p := sender + 100.0, Clipped(receiver + a);
    ClippedLists(sender, receiver, a, m);
    TwoAndCopies(x, m, 0.0, x);
    TwoAndCopies(x, m, p, x - a);
    TimesIsProduct(m, 0.0);
    TimesNonNegative(m, x);
    LosesNothing(m, x, a, -(receiver + 100.0), p);
  }

  // A receiver below -100 is clipped, part of the gift vanishes from the shifted total, and among enough nodes
  // as rich as the sender the coefficient does not fall.
  lemma ClippedTransfer(sender: real, receiver: real, u: real) returns (m: nat, b: seq<real>)
    requires Eligible(sender, receiver, u) && receiver < -100.0
    ensures m >= 1 && b == Copies(sender, m) + [receiver, sender]
    ensures GiniBalance(Moved(b, |b| - 1, |b| - 2, Amount(sender, u))) >= GiniBalance(b)
  {
    var a := Amount(sender, u);
    AmountBounds(sender, u);
    m := Enough(-(receiver + 100.0), 2.0 * a);
    b := Copies(sender, m) + [receiver, sender];
    var v, w := Shifted(b), Shifted(Moved(b, m + 1, m, a));
    ClippedSums(sender, receiver, a, m);
    GiniIsExact(v);
    GiniIsExact(w);
    CoefficientAtLeast(m + 2, PairGaps(v), Total(v), PairGaps(w), Total(w));
  }

  lemma Enough(step: real, goal: real) returns (m: nat)
    requires step > 0.0 && goal > 0.0
    ensures Times(m, step) >= goal
  {
    var q := goal / step;
    m := q.Floor + 1;
    TimesIsProduct(m, step);
    assert m as real >= q;
    assert q * step == goal;
    var slack := m as real - q;
    assert slack * step >= 0.0;
    assert (q + slack) * step == q * step + slack * step;
  }

  lemma {:induction false} TimesNonNegative(m: nat, x: real)
    requires x >= 0.0
    ensures Times(m, x) >= 0.0
  {
    if m > 0 {
      TimesNonNegative(m - 1, x);
    }
  }

  lemma LosesNothing(m: nat, x: real, a: real, lost: real, p: real)
    requires lost > 0.0 && x > 150.0 && 5.0 < a && a < 0.3 * (x - 100.0)
    requires p == if a < lost then 0.0 else a - lost
    requires Times(m, lost) >= 2.0 * a
    ensures Times(m, Abs(p - x)) + Times(m, Abs(x - a - x)) + Abs(x - a - p) >= Times(m, x) + p + (x - a)
  {
    assert Abs(x - a - x) == a && Abs(p - x) == x - p && Abs(x - a - p) == x - a - p;
    TimesAdds(m, x - p, a);
    TimesAdds(m, x, a - p);
    assert x - p + a == x + (a - p);
    assert Times(m, x - p) + Times(m, a) == Times(m, x) + Times(m, a - p);
    if a < lost {
      TimesNonNegative(m, a - p);
    } else {
      assert a - p == lost;
    }
    assert Times(m, a - p) >= 2.0 * p;
  }

  ghost predicate AlwaysLowers(sender: real, receiver: real, u: real) {
    forall b: seq<real>, i: nat, j: nat :: i < |b| && j < |b| && i != j && b[i] == sender && b[j] == receiver
      ==> GiniBalance(Moved(b, i, j, Amount(sender, u))) < GiniBalance(b)
  }

  // So a transfer lowers GiniBalance in every world exactly when the receiver is at or above -100.
  lemma LowersExactlyAboveMinus100(sender: real, receiver: real, u: real)
    requires Eligible(sender, receiver, u)
    ensures AlwaysLowers(sender, receiver, u) <==> receiver >= -100.0
  {
    if receiver >= -100.0 {
      forall b: seq<real>, i: nat, j: nat | i < |b| && j < |b| && i != j && b[i] == sender && b[j] == receiver
        ensures GiniBalance(Moved(b, i, j, Amount(sender, u))) < GiniBalance(b)
      {
        TransferLowersGini(b, i, j, u);
      }
    } else {
      var m, b := ClippedTransfer(sender, receiver, u);
      assert !(GiniBalance(Moved(b, |b| - 1, |b| - 2, Amount(sender, u))) < GiniBalance(b));
    }
  }
}
