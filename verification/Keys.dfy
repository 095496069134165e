// The 160-bit keys of pkg/dht/table.go: XOR distance, leading zeros and the byte-wise comparison, tied to
// the big-endian number a key stands for.
module Keys {
  import opened Prelude

  const KEY_SIZE := 20
  const MAX_BUCKETS := 160

  type Octets = seq<bv8>
  type Key = k: Octets | |k| == 20 witness seq(20, _ => 0)

  // ---------- What the operations compute ----------

  function Xored(a: Octets, b: Octets): (r: Octets)
    requires |a| == |b|
    ensures |r| == |a|
  {
    seq(|a|, i requires 0 <= i < |a| => a[i] ^ b[i])
  }

  function Distance(a: Key, b: Key): Key {
    Xored(a, b)
  }

  // The zero bits of b above its highest set bit, among its j lowest bits.
  function TopZeros(b: bv8, j: nat): (z: nat)
    requires j <= 8
    ensures z <= j
  {
    if j == 0 || b & (1 << (j - 1)) != 0 then 0 else 1 + TopZeros(b, j - 1)
  }

  function Zeros(k: Octets): (z: nat)
    ensures z <= 8 * |k|
  {
    if k == [] then 0
    else if k[0] == 0 then 8 + Zeros(k[1..])
    else TopZeros(k[0], 8)
  }

  // The comparison Closest sorts by: the first differing byte decides.
  predicate Below(a: Octets, b: Octets)
    requires |a| == |b|
  {
    a != [] && if a[0] != b[0] then a[0] < b[0] else Below(a[1..], b[1..])
  }

  // ---------- The loops ----------

  method XOR(a: Key, b: Key) returns (r: Key)
    ensures r == Distance(a, b)
  {
    var result := new bv8[KEY_SIZE];
    for i := 0 to KEY_SIZE
      invariant forall m :: 0 <= m < i ==> result[m] == a[m] ^ b[m]
    {
      result[i] := a[i] ^ b[i];
    }
    r := result[..];
    assert r == Distance(a, b);
  }

  method LeadingZeros(k: Key) returns (count: nat)
    ensures count == Zeros(k)
  {
    count := 0;
    for i := 0 to KEY_SIZE
      invariant count + Zeros(k[i..]) == Zeros(k)
    {
      if k[i] == 0 {
        count := count + 8;
      } else {
        var j := 8;
        while j > 0
          invariant 0 <= j <= 8
          invariant count + TopZeros(k[i], j) == Zeros(k)
        {
          j := j - 1;
          if k[i] & (1 << j) == 0 {
            count := count + 1;
          } else {
            return;
          }
        }
        return;
      }
    }
  }

  method Less(a: Key, b: Key) returns (less: bool)
    ensures less == Below(a, b)
  {
    for i := 0 to KEY_SIZE
      invariant Below(a, b) == Below(a[i..], b[i..])
    {
      if a[i] != b[i] {
        return a[i] < b[i];
      }
    }
    return false;
  }

  // ---------- The number a key stands for ----------

  function Pow2(n: nat): (p: nat)
    ensures p > 0
  {
    if n == 0 then 1 else 2 * Pow2(n - 1)
  }

  function Digits(k: Octets): (d: Bytes)
    ensures |d| == |k|
    ensures forall i :: 0 <= i < |k| ==> d[i] == k[i] as int
  {
    seq(|k|, i requires 0 <= i < |k| => k[i] as int)
  }

  function Number(k: Octets): nat {
    Value(Digits(k))
  }

  lemma Pow2Step8(n: nat)
    ensures Pow2(n + 8) == 256 * Pow2(n)
  {
    assert Pow2(n + 8) == 2 * Pow2(n + 7) == 4 * Pow2(n + 6) == 8 * Pow2(n + 5) == 16 * Pow2(n + 4);
    assert Pow2(n + 4) == 2 * Pow2(n + 3) == 4 * Pow2(n + 2) == 8 * Pow2(n + 1) == 16 * Pow2(n);
  }

  lemma {:induction false} Pow2Monotone(m: nat, n: nat)
    requires m <= n
    ensures Pow2(m) <= Pow2(n)
    decreases n
  {
    if m < n {
      Pow2Monotone(m, n - 1);
    }
  }

  lemma ByteOrder(x: bv8, y: bv8)
    ensures x < y <==> x as int < y as int
    ensures x == y <==> x as int == y as int
    ensures 0 <= x as int < 256
  {
  }

  predicate DigitsBelow(a: Bytes, b: Bytes)
    requires |a| == |b|
  {
    a != [] && if a[0] != b[0] then a[0] < b[0] else DigitsBelow(a[1..], b[1..])
  }

  lemma {:induction false} BelowOfDigits(a: Octets, b: Octets)
    requires |a| == |b|
    ensures Below(a, b) <==> DigitsBelow(Digits(a), Digits(b))
  {
    if a != [] {
      ByteOrder(a[0], b[0]);
      assert Digits(a)[1..] == Digits(a[1..]) && Digits(b)[1..] == Digits(b[1..]);
      BelowOfDigits(a[1..], b[1..]);
    }
  }

  lemma {:induction false} DigitsBelowFront(a: Bytes, b: Bytes)
    requires |a| == |b| > 0
    ensures var n := |a| - 1;
      DigitsBelow(a, b) <==> DigitsBelow(a[..n], b[..n]) || (a[..n] == b[..n] && a[n] < b[n])
  {
    var n := |a| - 1;
    if n > 0 {
      assert a[..n][1..] == a[1..][..n - 1] && b[..n][1..] == b[1..][..n - 1];
      assert a[..n] == [a[0]] + a[1..][..n - 1] && b[..n] == [b[0]] + b[1..][..n - 1];
      DigitsBelowFront(a[1..], b[1..]);
    }
  }

  lemma {:induction false} DigitsBelowIsNumeric(a: Bytes, b: Bytes)
    requires |a| == |b|
    ensures DigitsBelow(a, b) <==> Value(a) < Value(b)
    ensures Value(a) == Value(b) ==> a == b
  {
    if a != [] {
      var n := |a| - 1;
      DigitsBelowIsNumeric(a[..n], b[..n]);
      DigitsBelowFront(a, b);
      assert a == a[..n] + [a[n]] && b == b[..n] + [b[n]];
    }
  }

  // The byte-wise comparison is the numeric order of the big-endian numbers.
  lemma BelowIsNumeric(a: Octets, b: Octets)
    requires |a| == |b|
    ensures Below(a, b) <==> Number(a) < Number(b)
    ensures Number(a) == Number(b) ==> a == b
  {
    BelowOfDigits(a, b);
    DigitsBelowIsNumeric(Digits(a), Digits(b));
    if Number(a) == Number(b) {
      SameDigits(a, b);
    }
  }

  lemma SameDigits(a: Octets, b: Octets)
    requires Digits(a) == Digits(b)
    ensures a == b
  {
  }

  // ---------- XOR as a metric ----------

  lemma OrByte(x: bv8, y: bv8)
    ensures (x | y) as int <= x as int + y as int
  {
  }

  lemma XorByte(x: bv8, y: bv8)
    ensures (x ^ y) as int <= x as int + y as int
  {
    assert x ^ y <= x | y;
    ByteOrder(x ^ y, x | y);
    OrByte(x, y);
  }

  lemma {:induction false} ValueOfSum(w: Bytes, u: Bytes, v: Bytes)
    requires |w| == |u| == |v|
    requires forall i :: 0 <= i < |w| ==> w[i] <= u[i] as int + v[i] as int
    ensures Value(w) <= Value(u) + Value(v)
  {
    if w != [] {
      var n := |w| - 1;
      ValueOfSum(w[..n], u[..n], v[..n]);
    }
  }

  lemma XorDigit(u: Octets, v: Octets, i: nat)
    requires |u| == |v| && i < |u|
    ensures Digits(Xored(u, v))[i] as int <= Digits(u)[i] as int + Digits(v)[i] as int
  {
    XorByte(u[i], v[i]);
  }

  lemma XorSum(u: Octets, v: Octets)
    requires |u| == |v|
    ensures Number(Xored(u, v)) <= Number(u) + Number(v)
  {
    var w, d, e := Digits(Xored(u, v)), Digits(u), Digits(v);
    forall i | 0 <= i < |w|
      ensures w[i] <= d[i] as int + e[i] as int
    {
      XorDigit(u, v, i);
    }
    ValueOfSum(w, d, e);
  }

  // a ^ c is (a ^ b) ^ (b ^ c).
  lemma XorChain(a: Key, b: Key, c: Key)
    ensures Distance(a, c) == Distance(Distance(a, b), Distance(b, c))
  {
  }

  lemma TriangleInequality(a: Key, b: Key, c: Key)
    ensures Number(Distance(a, c)) <= Number(Distance(a, b)) + Number(Distance(b, c))
  {
    XorChain(a, b, c);
    XorSum(Distance(a, b), Distance(b, c));
  }

  lemma XorCancels(x: bv8, y: bv8, z: bv8)
    ensures x ^ y == x ^ z ==> y == z
    ensures x ^ y == 0 <==> x == y
  {
  }

  lemma DistanceZero(a: Key, b: Key)
    ensures (forall i :: 0 <= i < KEY_SIZE ==> Distance(a, b)[i] == 0) <==> a == b
  {
    forall i | 0 <= i < KEY_SIZE
      ensures Distance(a, b)[i] == 0 <==> a[i] == b[i]
    {
      XorCancels(a[i], b[i], 0);
    }
    if forall i :: 0 <= i < KEY_SIZE ==> Distance(a, b)[i] == 0 {
      assert forall i :: 0 <= i < KEY_SIZE ==> Distance(a, b)[i] == 0 ==> a[i] == b[i];
    }
  }

  // From one point, different keys are at different distances.
  lemma DistanceInjective(t: Key, a: Key, b: Key)
    requires Distance(t, a) == Distance(t, b)
    ensures a == b
  {
    forall i | 0 <= i < KEY_SIZE
      ensures a[i] == b[i]
    {
      assert Distance(t, a)[i] == Distance(t, b)[i];
      XorCancels(t[i], a[i], b[i]);
    }
  }

  // ---------- Leading zeros as an interval ----------

  lemma Pow2Table()
    ensures Pow2(0) == 1 && Pow2(1) == 2 && Pow2(2) == 4 && Pow2(3) == 8 && Pow2(4) == 16
    ensures Pow2(5) == 32 && Pow2(6) == 64 && Pow2(7) == 128 && Pow2(8) == 256
  {
  }

  lemma TopZerosStep(b: bv8, j: nat)
    requires 0 < j <= 8 && b as int < Pow2(j)
    ensures TopZeros(b, j) == if Pow2(j - 1) <= b as int then 0 else 1 + TopZeros(b, j - 1)
  {
    HighBit(b, j - 1);
  }

  // n is j bits wide, of which z are leading zeros.
  predicate InInterval(n: int, j: nat, z: nat)
    requires z <= j
  {
    n < Pow2(j - z) && (z < j ==> Pow2(j - z - 1) <= n)
  }

  // The leading zeros of a number of at most j bits.
  function ZerosOf(n: int, j: nat): (z: nat)
    ensures z <= j
  {
    if j == 0 || Pow2(j - 1) <= n then 0 else 1 + ZerosOf(n, j - 1)
  }

  lemma {:induction false} TopZerosOfNumber(b: bv8, j: nat)
    requires j <= 8 && b as int < Pow2(j)
    ensures TopZeros(b, j) == ZerosOf(b as int, j)
  {
    if j > 0 {
      TopZerosStep(b, j);
      if b as int < Pow2(j - 1) {
        TopZerosOfNumber(b, j - 1);
      }
    }
  }

  lemma {:induction false} ZerosOfInterval(n: int, j: nat)
    requires n < Pow2(j)
    ensures InInterval(n, j, ZerosOf(n, j))
  {
    if j > 0 && n < Pow2(j - 1) {
      ZerosOfInterval(n, j - 1);
    }
  }

  lemma TopZerosInterval(b: bv8, j: nat)
    requires j <= 8 && b as int < Pow2(j)
    ensures InInterval(b as int, j, TopZeros(b, j))
  {
    TopZerosOfNumber(b, j);
    ZerosOfInterval(b as int, j);
  }

  lemma HighBit(b: bv8, i: nat)
    requires i < 8 && b as int < 2 * Pow2(i)
    ensures b & (1 << i) != 0 <==> Pow2(i) <= b as int
  {
    Pow2Table();
    if i == 0 { assert b < 2; }
    else if i == 1 { assert b < 4; }
    else if i == 2 { assert b < 8; }
    else if i == 3 { assert b < 16; }
    else if i == 4 { assert b < 32; }
    else if i == 5 { assert b < 64; }
    else if i == 6 { assert b < 128; }
  }

  lemma {:induction false} TopZerosOfZero(j: nat)
    requires j <= 8
    ensures TopZeros(0, j) == j
  {
    if j > 0 {
      var m: bv8 := 1 << (j - 1);
      assert 0 & m == 0;
      TopZerosOfZero(j - 1);
    }
  }

  lemma {:induction false} ZerosFront(k: Octets)
    requires k != []
    ensures var n := |k| - 1;
      Zeros(k) == if Zeros(k[..n]) < 8 * n then Zeros(k[..n]) else 8 * n + TopZeros(k[n], 8)
  {
    var n := |k| - 1;
    TopZerosOfZero(8);
    if n > 0 {
      assert k[..n][1..] == k[1..][..n - 1];
      ZerosFront(k[1..]);
      if k[0] != 0 {
        TopByteInterval(k[0]);
      }
    }
  }

  lemma TopByteInterval(b: bv8)
    ensures InInterval(b as int, 8, TopZeros(b, 8))
    ensures b != 0 ==> TopZeros(b, 8) < 8
  {
    Pow2Table();
    ByteOrder(b, 0);
    TopZerosInterval(b, 8);
  }

  // Appending one byte with value x and z leading zeros to a number of 8n bits with y leading zeros.
  lemma AppendedInterval(n: nat, y: nat, value: nat, z: nat, x: Byte)
    requires y <= 8 * n && InInterval(value, 8 * n, y) && z <= 8 && InInterval(x, 8, z)
    ensures InInterval(256 * value + x, 8 * n + 8, if y < 8 * n then y else 8 * n + z)
  {
    if y < 8 * n {
      Pow2Step8(8 * n - y);
      Pow2Step8(8 * n - y - 1);
    }
  }

  // A key with z leading zeros is a number of exactly 160 - z bits.
  lemma {:induction false} ZerosInterval(k: Octets)
    ensures InInterval(Number(k), 8 * |k|, Zeros(k))
  {
    if k != [] {
      var n := |k| - 1;
      ZerosFront(k);
      ZerosInterval(k[..n]);
      TopByteInterval(k[n]);
      NumberAppend(k);
      AppendedInterval(n, Zeros(k[..n]), Number(k[..n]), TopZeros(k[n], 8), Digits(k)[n]);
    }
  }

  lemma NumberAppend(k: Octets)
    requires k != []
    ensures var n := |k| - 1; Number(k) == 256 * Number(k[..n]) + Digits(k)[n] && Digits(k)[n] as int == k[n] as int
  {
    assert Digits(k)[..|k| - 1] == Digits(k[..|k| - 1]);
  }

  // At least i leading zeros is the same as being below 2^(160-i).
  lemma ZerosAtLeast(k: Octets, i: nat)
    requires i <= 8 * |k|
    ensures i <= Zeros(k) <==> Number(k) < Pow2(8 * |k| - i)
  {
    ZerosInterval(k);
    var z := Zeros(k);
    if i <= z {
      Pow2Monotone(8 * |k| - z, 8 * |k| - i);
    } else {
      Pow2Monotone(8 * |k| - i, 8 * |k| - z - 1);
    }
  }

  lemma XorWithZero(x: bv8, y: bv8)
    ensures x ^ 0 == x && 0 ^ y == y
    ensures x ^ y == 0 <==> x == y
  {
  }

  lemma {:induction false} ZerosOfXor(u: Octets, v: Octets)
    requires |u| == |v|
    ensures Zeros(Xored(u, v)) >= if Zeros(u) < Zeros(v) then Zeros(u) else Zeros(v)
  {
    if u != [] {
      XorWithZero(u[0], v[0]);
      if u[0] == 0 && v[0] == 0 {
        assert Xored(u, v)[1..] == Xored(u[1..], v[1..]);
        ZerosOfXor(u[1..], v[1..]);
      } else {
        ZerosOfXorHeads(u, v);
      }
    }
  }

  lemma ZerosOfXorHeads(u: Octets, v: Octets)
    requires |u| == |v| > 0 && (u[0] != 0 || v[0] != 0)
    ensures Zeros(Xored(u, v)) >= if Zeros(u) < Zeros(v) then Zeros(u) else Zeros(v)
  {
    TopZerosOfXor(u[0], v[0], 8);
    ZerosBound(u);
    ZerosBound(v);
    ZerosBound(Xored(u, v));
  }

  lemma ZerosBound(k: Octets)
    requires k != []
    ensures k[0] == 0 ==> TopZeros(k[0], 8) == 8 <= Zeros(k)
    ensures k[0] != 0 ==> TopZeros(k[0], 8) == Zeros(k)
  {
  }

  lemma {:induction false} TopZerosOfXor(x: bv8, y: bv8, j: nat)
    requires j <= 8
    ensures TopZeros(x ^ y, j) >= if TopZeros(x, j) < TopZeros(y, j) then TopZeros(x, j) else TopZeros(y, j)
  {
    if j > 0 {
      var m: bv8 := 1 << (j - 1);
      assert x & m == 0 && y & m == 0 ==> (x ^ y) & m == 0;
      TopZerosOfXor(x, y, j - 1);
    }
  }

  // The ultrametric inequality behind the bucket structure.
  lemma CommonPrefix(a: Key, b: Key, c: Key)
    ensures Zeros(Distance(a, c))
         >= if Zeros(Distance(a, b)) < Zeros(Distance(b, c)) then Zeros(Distance(a, b)) else Zeros(Distance(b, c))
  {
    XorChain(a, b, c);
    ZerosOfXor(Distance(a, b), Distance(b, c));
  }

  // More leading zeros is strictly closer.
  lemma MoreZerosIsCloser(u: Key, v: Key)
    requires Zeros(u) > Zeros(v)
    ensures Below(u, v)
  {
    ZerosAtLeast(u, Zeros(v) + 1);
    ZerosAtLeast(v, Zeros(v) + 1);
    BelowIsNumeric(u, v);
  }
}
