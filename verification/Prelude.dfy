// Datatypes shared by the models of several packages.
module Prelude {
  // Bytes that are stored, sent and hashed; the bit-level keys of the routing table use bv8 instead.
  type Byte = x: int | 0 <= x < 0x100

  type Bytes = seq<Byte>

  // The number that bytes stand for, the most significant first.
  function Value(b: Bytes): nat {
    if b == [] then 0 else 256 * Value(b[..|b| - 1]) + b[|b| - 1]
  }

  datatype Option<+T> = None | Some(value: T)

  datatype Result<+T> = Ok(value: T) | Err(error: string)

  lemma TakeOut<T>(s: seq<T>, k: nat)
    requires k < |s|
    ensures multiset(s) == multiset{s[k]} + multiset(s[..k] + s[k + 1..])
  {
    assert s == s[..k] + [s[k]] + s[k + 1..];
  }

  lemma TakeOutSame<T>(a: seq<T>, j: nat, b: seq<T>, k: nat)
    requires j < |a| && k < |b| && a[j] == b[k] && multiset(a) == multiset(b)
    ensures multiset(a[..j] + a[j + 1..]) == multiset(b[..k] + b[k + 1..])
  {
    TakeOut(a, j);
    TakeOut(b, k);
    assert multiset(a[..j] + a[j + 1..]) == multiset(a) - multiset{a[j]};
    assert multiset(b[..k] + b[k + 1..]) == multiset(b) - multiset{b[k]};
  }

  function Min(a: nat, b: nat): nat {
    if a < b then a else b
  }

  lemma SubsetSize<T>(a: set<T>, b: set<T>)
    requires a <= b
    ensures |a| <= |b|
  {
    assert b == a + (b - a);
  }
}
