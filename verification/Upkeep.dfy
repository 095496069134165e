// What time does to an account of simulation/node.go: demurrage on the reputation, decay of the work, and the pay for
// storage, over any number of ticks. 30000 ticks are an hour.
module Upkeep {
  import opened Inequality
  import opened Ledger

  function AfterTicks(cfg: Config, a: Account, online: bool, decay: real, n: nat): Account {
    if n == 0 then a else Aged(cfg, AfterTicks(cfg, a, online, decay, n - 1), online, decay)
  }

  function Power(x: real, n: nat): real {
    if n == 0 then 1.0 else x * Power(x, n - 1)
  }

  lemma {:induction false} PowerPositive(x: real, n: nat)
    requires x > 0.0
    ensures Power(x, n) > 0.0
  {
    if n > 0 {
      PowerPositive(x, n - 1);
    }
  }

  lemma Shrinks(r: real, f: real, p: real)
    requires r >= 0.0 && f > 0.0 && p > 0.0
    ensures r * p >= 0.0 && (r * p) * f == r * (f * p) >= 0.0
  {
    assert r * p >= 0.0;
    assert (r * p) * f >= 0.0;
  }

  lemma AgedReputation(cfg: Config, a: Account, online: bool, decay: real)
    requires a.reputation >= 0.0
    ensures Aged(cfg, a, online, decay).reputation == a.reputation * if online then 0.99999978 else 0.99999956
  {
  }

  // In each tick a node loses 22 parts in a hundred million of its reputation, and twice as much offline.
  lemma {:induction false} Demurrage(cfg: Config, a: Account, online: bool, decay: real, n: nat)
    requires a.reputation >= 0.0
    ensures AfterTicks(cfg, a, online, decay, n).reputation
         == a.reputation * Power(if online then 0.99999978 else 0.99999956, n)
  {
    if n > 0 {
      var f := if online then 0.99999978 else 0.99999956;
      Demurrage(cfg, a, online, decay, n - 1);
      PowerPositive(f, n - 1);
      Shrinks(a.reputation, f, Power(f, n - 1));
      AgedReputation(cfg, AfterTicks(cfg, a, online, decay, n - 1), online, decay);
    }
  }

  // Offline nothing else changes.
  lemma {:induction false} OfflineKeeps(cfg: Config, a: Account, decay: real, n: nat)
    ensures AfterTicks(cfg, a, false, decay, n).(reputation := a.reputation) == a
  {
    if n > 0 {
      OfflineKeeps(cfg, a, decay, n - 1);
    }
  }

  // Work that decays by a factor each tick and grows by a hundredth of the pay.
  function Worked(work: real, decay: real, pay: real, n: nat): real {
    if n == 0 then work else Worked(work, decay, pay, n - 1) * decay + pay * 0.01
  }

  function Pay(cfg: Config, a: Account): real {
    if a.storageBytes > 0.0 then StorageReward(cfg, a) else 0.0
  }

  lemma SamePay(cfg: Config, a: Account, b: Account)
    requires a.storageBytes == b.storageBytes
    ensures Pay(cfg, a) == Pay(cfg, b)
  {
  }

  lemma OnlineTick(cfg: Config, a: Account, decay: real)
    ensures var b := Aged(cfg, a, true, decay);
      b == a.(reputation := b.reputation, balance := a.balance + Pay(cfg, a),
              ewmaWork := a.ewmaWork * decay + Pay(cfg, a) * 0.01)
  {
  }

  lemma {:induction false} OnlineTicks(cfg: Config, a: Account, decay: real, n: nat)
    ensures var b := AfterTicks(cfg, a, true, decay, n);
      b == a.(reputation := b.reputation, balance := a.balance + Times(n, Pay(cfg, a)),
              ewmaWork := Worked(a.ewmaWork, decay, Pay(cfg, a), n))
  {
    if n > 0 {
      OnlineTicks(cfg, a, decay, n - 1);
      OnlineTick(cfg, AfterTicks(cfg, a, true, decay, n - 1), decay);
      SamePay(cfg, a, AfterTicks(cfg, a, true, decay, n - 1));
    }
  }

  // An hour online pays the storage price for each mebibyte stored.
  lemma HourlyPay(cfg: Config, a: Account, decay: real)
    requires a.storageBytes >= 0.0
    ensures AfterTicks(cfg, a, true, decay, 30000).balance == a.balance + a.storageBytes / 1048576.0 * cfg.storageReward
  {
    OnlineTicks(cfg, a, decay, 30000);
    TimesIsProduct(30000, Pay(cfg, a));
    PayPerTick(cfg, a);
  }

  lemma PayPerTick(cfg: Config, a: Account)
    ensures 30000.0 * StorageReward(cfg, a) == a.storageBytes / 1048576.0 * cfg.storageReward
  {
    var x := a.storageBytes / 1048576.0 * cfg.storageReward;
    assert StorageReward(cfg, a) == x * SECONDS_PER_TICK / 3600.0;
  }

  // w times 1 - d is work times 1 - d times p, plus c times 1 - p.
  ghost predicate Closed(w: real, work: real, d: real, c: real, p: real) {
    (1.0 - d) * w == (1.0 - d) * work * p + c * (1.0 - p)
  }

  // In closed form: for a factor below 1 the work tends to a hundredth of the pay over one minus the factor.
  lemma {:induction false} WorkedClosed(work: real, decay: real, pay: real, n: nat)
    ensures Closed(Worked(work, decay, pay, n), work, decay, pay * 0.01, Power(decay, n))
  {
    if n > 0 {
      WorkedClosed(work, decay, pay, n - 1);
      ClosedStep(Worked(work, decay, pay, n - 1), work, decay, pay * 0.01, Power(decay, n - 1));
    } else {
      ClosedStart(work, decay, pay * 0.01);
    }
  }

  lemma ClosedStart(work: real, d: real, c: real)
    ensures Closed(work, work, d, c, 1.0)
  {
  }

  lemma ClosedStep(w: real, work: real, d: real, c: real, p: real)
    requires Closed(w, work, d, c, p)
    ensures Closed(w * d + c, work, d, c, d * p)
  {
    var g, u := 1.0 - d, (1.0 - d) * work;
    assert g * (w * d + c) == (g * w) * d + g * c;
    assert (u * p + c * (1.0 - p)) * d == (u * p) * d + (c * (1.0 - p)) * d;
    assert (u * p) * d == u * (d * p);
    assert (c * (1.0 - p)) * d == c * (d - d * p);
    assert c * (d - d * p) + g * c == c * (1.0 - d * p);
  }
}
