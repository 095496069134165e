// Balances, reputation and relay work of simulation/node.go and the payments of simulation/world.go, over
// exact reals, and the bound that no run of them can push a balance below.
module Ledger {
  import opened Prelude
  import opened Inequality
  import opened Transfers

  datatype Config = Config(
    cellWidth: real, cellHeight: real, loRaRange: real,
    relayReward: real, sendCost: real, storageReward: real, emissionRate: real, burnRate: real,
    confirmThreshold: int, relayChunkSize: int, minRelayHops: int)

  // Non-negative prices and a burn rate of at most 1.
  predicate Priced(cfg: Config) {
    && cfg.relayReward >= 0.0 && cfg.storageReward >= 0.0 && cfg.emissionRate >= 0.0
    && cfg.burnRate <= 1.0 && cfg.relayChunkSize > 0
  }

  datatype Account = Account(balance: real, lockedOut: real, reputation: real, ewmaWork: real,
                             relayBytesOut: real, storageBytes: real)

  const OPENING := Account(0.0, 0.0, 0.0, 0.0, 0.0, 0.0)

  // ---------- Credit ----------

  function Max(x: real, y: real): real {
    if x < y then y else x
  }

  // balance < -20 * sqrt(max(reputation, 0.01)), free of the square root.
  predicate Overdrawn(balance: real, reputation: real) {
    balance < 0.0 && balance * balance > 400.0 * Max(reputation, 0.01)
  }

  function Available(a: Account): real {
    a.balance - a.lockedOut
  }

  // The smallest integer at least n / d.
  function CeilDiv(n: int, d: int): (c: int)
    requires d > 0
    ensures (c - 1) * d < n <= c * d
  {
    var q, r := n / d, n % d;
    assert n == q * d + r;
    assert (q + 1) * d == q * d + d && (q - 1) * d == q * d - d;
    if r == 0 then q else q + 1
  }

  // -1 when the message must be paid for, else the number of chunks to confirm, at least 2.
  function ConfirmN(cfg: Config, msgBytes: int, hops: int): int
    requires cfg.relayChunkSize > 0
  {
    if msgBytes > cfg.confirmThreshold then -1
    else
      var n := CeilDiv(hops * msgBytes, cfg.relayChunkSize);
      if n < 2 then 2 else n
  }

  // ---------- What one operation does to one account ----------

  function Cost(cfg: Config, relays: nat, msgBytes: int): real
    requires cfg.relayChunkSize > 0
  {
    (relays * msgBytes) as real / cfg.relayChunkSize as real * cfg.sendCost
  }

  // The payment part of sending; None when the sender can neither afford it nor get the credit.
  function Charged(cfg: Config, a: Account, relays: nat, msgBytes: int, emits: bool): Option<Account>
    requires cfg.relayChunkSize > 0
  {
    var cn := ConfirmN(cfg, msgBytes, if relays < 1 then 1 else relays);
    if cn < 0 then
      var cost := Cost(cfg, relays, msgBytes);
      if cost > 0.0 && Available(a) < cost && Overdrawn(a.balance - cost, a.reputation) then None
      else Some(if cost > 0.0 then a.(balance := a.balance - cost) else a)
    else
      var paid := if emits then a.(balance := a.balance + cn as real * cfg.emissionRate) else a;
      Some(paid.(ewmaWork := a.ewmaWork + (cn * cfg.relayChunkSize) as real))
  }

  // The reward for relaying, less the burn.
  function NetReward(cfg: Config, bytes: real, multiplier: real): real
    requires cfg.relayChunkSize > 0
  {
    var reward := bytes / cfg.relayChunkSize as real * cfg.relayReward * multiplier;
    reward - reward * cfg.burnRate
  }

  function Rewarded(cfg: Config, a: Account, bytes: real, multiplier: real): Account
    requires cfg.relayChunkSize > 0
  {
    a.(relayBytesOut := a.relayBytesOut + bytes, balance := a.balance + NetReward(cfg, bytes, multiplier),
       ewmaWork := a.ewmaWork + bytes)
  }

  function Rated(a: Account): Account {
    a.(reputation := a.ewmaWork / 168.0)
  }

  const SECONDS_PER_TICK := 60.0 / 500.0

  function StorageReward(cfg: Config, a: Account): real {
    a.storageBytes / (1024.0 * 1024.0) * cfg.storageReward * SECONDS_PER_TICK / 3600.0
  }

  // One tick; decay stands for exp(-SecondsPerTick * ln 2 / 604800).
  function Aged(cfg: Config, a: Account, online: bool, decay: real): Account {
    var d := if online then 0.00000022 else 0.00000044;
    var r := a.reputation - a.reputation * d;
    var aged := a.(reputation := if r < 0.0 then 0.0 else r);
    if !online then aged else
    var worked := aged.(ewmaWork := aged.ewmaWork * decay);
    if a.storageBytes <= 0.0 then worked else
    var reward := StorageReward(cfg, a);
    worked.(balance := worked.balance + reward, ewmaWork := worked.ewmaWork + reward * 0.01)
  }

  // ---------- Whole histories ----------

  type Books<!K> = map<K, Account>

  datatype Op<K> =
    | Send(k: K, cfg: Config, relays: nat, msgBytes: nat, emits: bool)
    | RelayWork(k: K, cfg: Config, bytes: real, multiplier: real)
    | UpdateReputation(k: K)
    | Tick(k: K, cfg: Config, online: bool, decay: real)
    | Transfer(k: K, to: K, u: real)
    | Spawn(k: K)

  // The chunk size the operation divides by is positive.
  predicate Defined<K>(op: Op<K>) {
    match op
    case Send(_, cfg, _, _, _) => cfg.relayChunkSize > 0
    case RelayWork(_, cfg, _, _) => cfg.relayChunkSize > 0
    case _ => true
  }

  // Non-negative prices and quantities.
  predicate Fair<K>(op: Op<K>) {
    match op
    case Send(_, cfg, _, _, _) => Priced(cfg)
    case RelayWork(_, cfg, bytes, multiplier) => Priced(cfg) && bytes >= 0.0 && multiplier >= 0.0
    case UpdateReputation(_) => true
    case Tick(_, cfg, _, decay) => Priced(cfg) && 0.0 <= decay <= 1.0
    case Transfer(_, _, u) => 0.0 <= u < 1.0
    case Spawn(_) => true
  }

  // The effect of an operation on all accounts. An operation on an unknown account, a refused payment and a
  // transfer whose guards fail change nothing.
  function Applied<K(==)>(books: Books<K>, op: Op<K>): Books<K>
    requires Defined(op)
  {
    if op.k !in books then books else
    var a := books[op.k];
    match op
    case Send(k, cfg, relays, msgBytes, emits) =>
      var c := Charged(cfg, a, relays, msgBytes, emits);
      if c.None? then books else books[k := c.value]
    case RelayWork(k, cfg, bytes, multiplier) => books[k := Rewarded(cfg, a, bytes, multiplier)]
    case UpdateReputation(k) => books[k := Rated(a)]
    case Tick(k, cfg, online, decay) => books[k := Aged(cfg, a, online, decay)]
    case Transfer(k, to, u) =>
      if to !in books || to == k || !Eligible(a.balance, books[to].balance, u) then books else
      var amount := Amount(a.balance, u);
      books[k := a.(balance := a.balance - amount)][to := books[to].(balance := books[to].balance + amount)]
    case Spawn(k) => books[k := OPENING]
  }

  predicate AllDefined<K>(ops: seq<Op<K>>) {
    forall i :: 0 <= i < |ops| ==> Defined(ops[i])
  }

  predicate AllFair<K>(ops: seq<Op<K>>) {
    forall i :: 0 <= i < |ops| ==> Fair(ops[i])
  }

  function After<K(==)>(books: Books<K>, ops: seq<Op<K>>): (r: Books<K>)
    requires AllDefined(ops)
    ensures r.Keys == books.Keys
  {
    if ops == [] then books else Applied(After(books, ops[..|ops| - 1]), ops[|ops| - 1])
  }

  lemma AfterSnoc<K>(books: Books<K>, ops: seq<Op<K>>, op: Op<K>)
    requires AllDefined(ops) && Defined(op)
    ensures AllDefined(ops + [op]) && After(books, ops + [op]) == Applied(After(books, ops), op)
  {
  }

  lemma {:induction false} AfterAppend<K>(books: Books<K>, ops: seq<Op<K>>, more: seq<Op<K>>)
    requires AllDefined(ops) && AllDefined(more)
    ensures AllDefined(ops + more) && After(books, ops + more) == After(After(books, ops), more)
  {
    if more == [] {
      assert ops + more == ops;
    } else {
      var n := |more| - 1;
      AfterAppend(books, ops, more[..n]);
      assert ops + more == (ops + more[..n]) + [more[n]];
      AfterSnoc(books, ops + more[..n], more[n]);
    }
  }

  lemma AfterCons<K>(books: Books<K>, op: Op<K>, ops: seq<Op<K>>)
    requires Defined(op) && AllDefined(ops)
    ensures AllDefined([op] + ops) && After(books, [op] + ops) == After(Applied(books, op), ops)
  {
    AfterSnoc(books, [], op);
    assert [] + [op] == [op];
    AfterAppend(books, [op], ops);
  }

  // The largest reputation an account has had since it was opened.
  function Peak<K(==)>(books: Books<K>, ops: seq<Op<K>>, k: K): real
    requires AllDefined(ops) && k in books
  {
    var now := After(books, ops)[k].reputation;
    if ops == [] || ops[|ops| - 1] == Spawn(k) then now
    else Max(Peak(books, ops[..|ops| - 1], k), now)
  }

  // ---------- No balance falls below minus the largest credit limit so far ----------

  // What every account keeps: work and reputation are not negative, and nothing is locked negatively.
  predicate Sound(a: Account) {
    a.reputation >= 0.0 && a.ewmaWork >= 0.0 && a.lockedOut >= 0.0 && a.storageBytes >= 0.0
  }

  lemma SquareShrinks(x: real, y: real)
    requires x <= y <= 0.0
    ensures y * y <= x * x
  {
    var p, q := -x, -y;
    assert q * q <= p * q <= p * p;
    assert p * p == x * x && q * q == y * y;
  }

  // A balance that is higher, or judged by a higher reputation, is not overdrawn if the other was not.
  lemma NotOverdrawnUp(b: real, r: real, b': real, r': real)
    requires !Overdrawn(b, r) && b <= b' && r <= r'
    ensures !Overdrawn(b', r')
  {
    if b' < 0.0 {
      SquareShrinks(b, b');
    }
  }

  lemma SquaresKeepOrder(d: real, r: real)
    requires d >= 0.0 && r >= 0.0
    ensures d * d <= r * r <==> d <= r
  {
    var sum, gap := d + r, d - r;
    assert sum * gap == d * d - r * r;
    if gap > 0.0 {
      assert sum * gap > 0.0;
    } else {
      assert sum * -gap >= 0.0;
    }
  }

  lemma NonNegativeQuotient(x: real, y: real)
    requires x >= 0.0 && y > 0.0
    ensures x / y >= 0.0
  {
  }

  lemma ConfirmNPositive(cfg: Config, msgBytes: int, hops: int)
    requires cfg.relayChunkSize > 0
    ensures ConfirmN(cfg, msgBytes, hops) == -1 || ConfirmN(cfg, msgBytes, hops) >= 2
  {
  }

  // A payment that goes through leaves the payer within the credit of its present reputation.
  lemma ChargedWithinCredit(cfg: Config, a: Account, relays: nat, msgBytes: int, emits: bool, peak: real)
    requires Priced(cfg) && Sound(a) && a.reputation <= peak && !Overdrawn(a.balance, peak)
    requires Charged(cfg, a, relays, msgBytes, emits).Some?
    ensures var c := Charged(cfg, a, relays, msgBytes, emits).value;
      Sound(c) && c.reputation == a.reputation && !Overdrawn(c.balance, peak)
  {
    var hops := if relays < 1 then 1 else relays;
    var cn, c := ConfirmN(cfg, msgBytes, hops), Charged(cfg, a, relays, msgBytes, emits).value;
    ConfirmNPositive(cfg, msgBytes, hops);
    if cn < 0 {
      if c.balance < a.balance && Available(a) < a.balance - c.balance {
        NotOverdrawnUp(c.balance, a.reputation, c.balance, peak);
      }
    } else {
      NonNegativeProduct(cn as real, cfg.emissionRate);
      assert cn * cfg.relayChunkSize >= 0;
      NotOverdrawnUp(a.balance, peak, c.balance, peak);
    }
  }

  // A credit limit: 20 times the square root of the reputation, or of 0.01 below that.
  ghost predicate IsLimit(limit: real, reputation: real) {
    limit >= 0.0 && limit * limit == 400.0 * if reputation < 0.01 then 0.01 else reputation
  }

  lemma OverdrawnIsBelowLimit(balance: real, reputation: real, limit: real)
    requires IsLimit(limit, reputation)
    ensures Overdrawn(balance, reputation) <==> balance < -limit
  {
    if balance < 0.0 {
      SquaresKeepOrder(-balance, limit);
      assert -balance * -balance == balance * balance;
    }
  }

  // Exactly when a payment is refused, and what one above the threshold does.
  lemma ChargedExactly(cfg: Config, a: Account, relays: nat, msgBytes: int, emits: bool, limit: real)
    requires cfg.relayChunkSize > 0 && IsLimit(limit, a.reputation)
    ensures var cost := (relays * msgBytes) as real / cfg.relayChunkSize as real * cfg.sendCost;
      var c := Charged(cfg, a, relays, msgBytes, emits);
      && (c.None? <==>
            msgBytes > cfg.confirmThreshold && cost > 0.0 && a.balance - a.lockedOut < cost
              && a.balance - cost < -limit)
      && (c.Some? && msgBytes > cfg.confirmThreshold ==>
            c.value == a.(balance := if cost > 0.0 then a.balance - cost else a.balance))
  {
    OverdrawnIsBelowLimit(a.balance - Cost(cfg, relays, msgBytes), a.reputation, limit);
    ConfirmNPositive(cfg, msgBytes, if relays < 1 then 1 else relays);
  }

  // Up to the threshold the confirmed chunks, the least number from 2 on that covers the bytes over all hops, count as
  // work and are emitted with the emission price.
  lemma ConfirmsLeast(cfg: Config, a: Account, relays: nat, msgBytes: int, emits: bool) returns (n: int)
    requires cfg.relayChunkSize > 0 && msgBytes <= cfg.confirmThreshold
    ensures Charged(cfg, a, relays, msgBytes, emits)
         == Some(a.(balance := a.balance + if emits then n as real * cfg.emissionRate else 0.0,
                    ewmaWork := a.ewmaWork + (n * cfg.relayChunkSize) as real))
    ensures var bytes := (if relays == 0 then 1 else relays) * msgBytes;
      && n >= 2 && n * cfg.relayChunkSize >= bytes && (n == 2 || (n - 1) * cfg.relayChunkSize < bytes)
  {
    var hops := if relays < 1 then 1 else relays;
    n := ConfirmN(cfg, msgBytes, hops);
    LeastCover(cfg, msgBytes, hops);
    ConfirmedIs(cfg, a, relays, msgBytes, emits, n);
  }

  lemma LeastCover(cfg: Config, msgBytes: int, hops: int)
    requires cfg.relayChunkSize > 0 && msgBytes <= cfg.confirmThreshold
    ensures var n, bytes := ConfirmN(cfg, msgBytes, hops), hops * msgBytes;
      && n >= 2 && n * cfg.relayChunkSize >= bytes && (n == 2 || (n - 1) * cfg.relayChunkSize < bytes)
  {
    var n := CeilDiv(hops * msgBytes, cfg.relayChunkSize);
    if n < 2 {
      TwoCover(hops * msgBytes, cfg.relayChunkSize, n);
    }
  }

  lemma ConfirmedIs(cfg: Config, a: Account, relays: nat, msgBytes: int, emits: bool, n: int)
    requires cfg.relayChunkSize > 0 && n >= 0 && n == ConfirmN(cfg, msgBytes, if relays < 1 then 1 else relays)
    ensures Charged(cfg, a, relays, msgBytes, emits)
         == Some(a.(balance := a.balance + if emits then n as real * cfg.emissionRate else 0.0,
                    ewmaWork := a.ewmaWork + (n * cfg.relayChunkSize) as real))
  {
    var gain := if emits then n as real * cfg.emissionRate else 0.0;
    var c := Charged(cfg, a, relays, msgBytes, emits).value;
    assert c.balance == a.balance + gain && c.ewmaWork == a.ewmaWork + (n * cfg.relayChunkSize) as real;
    assert c == a.(balance := c.balance, ewmaWork := c.ewmaWork);
  }

  lemma TwoCover(bytes: int, chunk: int, n: int)
    requires chunk > 0 && n <= 2 && bytes <= n * chunk
    ensures bytes <= 2 * chunk
  {
    assert (2 - n) * chunk >= 0;
  }

  lemma RewardNonNegative(cfg: Config, bytes: real, multiplier: real)
    requires Priced(cfg) && bytes >= 0.0 && multiplier >= 0.0
    ensures NetReward(cfg, bytes, multiplier) >= 0.0
  {
    var share := bytes / cfg.relayChunkSize as real;
    NonNegativeQuotient(bytes, cfg.relayChunkSize as real);
    NonNegativeProduct(share, cfg.relayReward);
    NonNegativeProduct(share * cfg.relayReward, multiplier);
    var reward := share * cfg.relayReward * multiplier;
    NonNegativeProduct(reward, 1.0 - cfg.burnRate);
    assert reward * (1.0 - cfg.burnRate) == reward - reward * cfg.burnRate;
  }

  lemma AgedKeeps(cfg: Config, a: Account, online: bool, decay: real)
    requires Priced(cfg) && Sound(a) && 0.0 <= decay <= 1.0
    ensures var b := Aged(cfg, a, online, decay); Sound(b) && b.balance >= a.balance
  {
  }

  // One operation keeps every account sound and within its largest credit limit so far.
  lemma StepKeepsCredit<K>(books: Books<K>, op: Op<K>, k: K, peak: real)
    requires Fair(op) && k in books
    requires forall j :: j in books ==> Sound(books[j])
    requires books[k].reputation <= peak && !Overdrawn(books[k].balance, peak)
    ensures forall j :: j in books ==> Sound(Applied(books, op)[j])
    ensures var now := Applied(books, op)[k];
      !Overdrawn(now.balance, if op == Spawn(k) then now.reputation else Max(peak, now.reputation))
  {
    if op.k in books {
      var a := books[op.k];
      match op {
        case Send(_, cfg, relays, msgBytes, emits) =>
          SendKeepsCredit(books, op, k, peak);
        case RelayWork(_, cfg, bytes, multiplier) =>
          RewardNonNegative(cfg, bytes, multiplier);
        case UpdateReputation(_) =>
        case Tick(_, cfg, online, decay) =>
          AgedKeeps(cfg, a, online, decay);
        case Transfer(_, to, u) =>
          if to in books && to != op.k && Eligible(a.balance, books[to].balance, u) {
            AmountBounds(a.balance, u);
          }
        case Spawn(_) =>
      }
      if op != Spawn(k) && !op.Send? {
        var now := Applied(books, op)[k];
        if now.balance < 0.0 {
          NotOverdrawnUp(books[k].balance, peak, now.balance, Max(peak, now.reputation));
        }
      }
    } else {
      NotOverdrawnUp(books[k].balance, peak, books[k].balance, Max(peak, books[k].reputation));
    }
  }

  lemma SendKeepsCredit<K>(books: Books<K>, op: Op<K>, k: K, peak: real)
    requires Fair(op) && op.Send? && k in books && op.k in books
    requires forall j :: j in books ==> Sound(books[j])
    requires books[k].reputation <= peak && !Overdrawn(books[k].balance, peak)
    ensures forall j :: j in books ==> Sound(Applied(books, op)[j])
    ensures var now := Applied(books, op)[k]; !Overdrawn(now.balance, Max(peak, now.reputation))
  {
    var a := books[op.k];
    if Charged(op.cfg, a, op.relays, op.msgBytes, op.emits).Some? {
      var own := Max(a.reputation, a.balance * a.balance);
      assert !Overdrawn(a.balance, own);
      ChargedWithinCredit(op.cfg, a, op.relays, op.msgBytes, op.emits, own);
      if op.k == k {
        ChargedWithinCredit(op.cfg, a, op.relays, op.msgBytes, op.emits, peak);
      }
    }
  }

  // The main result, over any history with non-negative prices and a burn rate of at most 1.
  lemma {:induction false} BalancesStayWithinCredit<K>(books: Books<K>, ops: seq<Op<K>>, k: K)
    requires AllFair(ops) && k in books
    requires forall j :: j in books ==> Sound(books[j]) && !Overdrawn(books[j].balance, books[j].reputation)
    ensures AllDefined(ops)
    ensures forall j :: j in books ==> Sound(After(books, ops)[j])
    ensures After(books, ops)[k].reputation <= Peak(books, ops, k)
    ensures !Overdrawn(After(books, ops)[k].balance, Peak(books, ops, k))
  {
    assert forall i :: 0 <= i < |ops| ==> Fair(ops[i]) ==> Defined(ops[i]);
    if ops != [] {
      var before, op := ops[..|ops| - 1], ops[|ops| - 1];
      BalancesStayWithinCredit(books, before, k);
      StepKeepsCredit(After(books, before), op, k, Peak(books, before, k));
    }
  }

  // ---------- The bound in terms of the limits ----------

  // The peak is a reputation the account had since it was last opened, and no smaller than any of them.
  lemma {:induction false} PeakIsReached<K>(books: Books<K>, ops: seq<Op<K>>, k: K) returns (i: nat)
    requires AllDefined(ops) && k in books
    ensures i <= |ops| && AllDefined(ops[..i]) && Peak(books, ops, k) == After(books, ops[..i])[k].reputation
    ensures forall j :: i <= j < |ops| ==> ops[j] != Spawn(k)
  {
    i := |ops|;
    assert ops[..i] == ops;
    if Peak(books, ops, k) != After(books, ops)[k].reputation {
      var before := ops[..|ops| - 1];
      i := PeakIsReached(books, before, k);
      assert before[..i] == ops[..i];
    }
  }

  lemma {:induction false} PeakIsLargest<K>(books: Books<K>, ops: seq<Op<K>>, k: K, i: nat)
    requires AllDefined(ops) && k in books && i <= |ops| && forall j :: i <= j < |ops| ==> ops[j] != Spawn(k)
    ensures AllDefined(ops[..i]) && After(books, ops[..i])[k].reputation <= Peak(books, ops, k)
  {
    if i == |ops| {
      assert ops[..i] == ops;
    } else {
      var before := ops[..|ops| - 1];
      PeakIsLargest(books, before, k, i);
      assert before[..i] == ops[..i];
    }
  }

  // The main result without the test of the code: when every balance starts at or above minus its credit limit, no
  // balance ever falls below minus the limit of its peak.
  lemma BalancesAboveMinusLimit<K>(books: Books<K>, ops: seq<Op<K>>, k: K, limitOf: K -> real, limit: real)
    requires AllFair(ops) && AllDefined(ops) && k in books
    requires forall j :: j in books ==>
      Sound(books[j]) && IsLimit(limitOf(j), books[j].reputation) && books[j].balance >= -limitOf(j)
    requires IsLimit(limit, Peak(books, ops, k))
    ensures After(books, ops)[k].balance >= -limit
  {
    forall j | j in books
      ensures !Overdrawn(books[j].balance, books[j].reputation)
    {
      OverdrawnIsBelowLimit(books[j].balance, books[j].reputation, limitOf(j));
    }
    BalancesStayWithinCredit(books, ops, k);
    OverdrawnIsBelowLimit(After(books, ops)[k].balance, Peak(books, ops, k), limit);
  }
}
