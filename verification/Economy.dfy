// The sum of all balances of simulation/world.go: where it comes from and goes to over whole histories, and what a paid
// send does to it.
module Economy {
  import opened Prelude
  import opened Inequality
  import opened Transfers
  import opened Ledger
  import opened MeshNode
  import opened World

  // A list of accounts with none twice.
  ghost predicate Listed<K>(keys: seq<K>, books: Books<K>) {
    && (forall i, j :: 0 <= i < j < |keys| ==> keys[i] != keys[j])
    && (forall k :: k in keys ==> k in books)
  }

  // The sum of the balances of the listed accounts.
  function TotalBalance<K>(keys: seq<K>, books: Books<K>): real
    requires forall k :: k in keys ==> k in books
  {
    if keys == [] then 0.0 else TotalBalance(keys[1..], books) + books[keys[0]].balance
  }

  lemma {:induction false} TotalUntouched<K>(keys: seq<K>, books: Books<K>, k: K, a: Account)
    requires (forall j :: j in keys ==> j in books) && k !in keys
    ensures TotalBalance(keys, books[k := a]) == TotalBalance(keys, books)
  {
    if keys != [] {
      TotalUntouched(keys[1..], books, k, a);
    }
  }

  lemma {:induction false} TotalUpdated<K>(keys: seq<K>, books: Books<K>, k: K, a: Account)
    requires Listed(keys, books) && k in keys
    ensures TotalBalance(keys, books[k := a]) == TotalBalance(keys, books) - books[k].balance + a.balance
  {
    if keys[0] == k {
      TotalUntouched(keys[1..], books, k, a);
    } else {
      TotalUpdated(keys[1..], books, k, a);
    }
  }

  // ---------- Whole histories ----------

  // Credit made by confirming packets, by storing and by relaying, credit spent on sending, and credit of replaced
  // nodes.
  datatype Flows = Flows(emitted: real, stored: real, relayed: real, spent: real, dropped: real)

  const NO_FLOW := Flows(0.0, 0.0, 0.0, 0.0, 0.0)

  function Plus(f: Flows, g: Flows): Flows {
    Flows(f.emitted + g.emitted, f.stored + g.stored, f.relayed + g.relayed, f.spent + g.spent, f.dropped + g.dropped)
  }

  function Net(f: Flows): real {
    f.emitted + f.stored + f.relayed - f.spent - f.dropped
  }

  // A send up to the threshold emits, a longer one that goes through costs its price.
  function SendFlow(cfg: Config, a: Account, relays: nat, msgBytes: nat, emits: bool): Flows
    requires cfg.relayChunkSize > 0
  {
    if msgBytes <= cfg.confirmThreshold then Emission(Emitted(cfg, relays, msgBytes, emits))
    else Spending(Spent(cfg, a, relays, msgBytes, emits))
  }

  function Emission(x: real): (f: Flows)
    ensures Net(f) == x
  {
    NO_FLOW.(emitted := x)
  }

  function Spending(x: real): (f: Flows)
    ensures Net(f) == -x
  {
    NO_FLOW.(spent := x)
  }

  function Relaying(x: real): (f: Flows)
    ensures Net(f) == x
  {
    NO_FLOW.(relayed := x)
  }

  function Storing(x: real): (f: Flows)
    ensures Net(f) == x
  {
    NO_FLOW.(stored := x)
  }

  function Dropping(x: real): (f: Flows)
    ensures Net(f) == -x
  {
    NO_FLOW.(dropped := x)
  }

  function Emitted(cfg: Config, relays: nat, msgBytes: nat, emits: bool): real
    requires cfg.relayChunkSize > 0
  {
    if emits then ConfirmN(cfg, msgBytes, if relays < 1 then 1 else relays) as real * cfg.emissionRate else 0.0
  }

  function Spent(cfg: Config, a: Account, relays: nat, msgBytes: nat, emits: bool): real
    requires cfg.relayChunkSize > 0
  {
    if Charged(cfg, a, relays, msgBytes, emits).Some? then Max(Cost(cfg, relays, msgBytes), 0.0) else 0.0
  }

  lemma ChargedEmits(cfg: Config, a: Account, relays: nat, msgBytes: nat, emits: bool)
    requires cfg.relayChunkSize > 0 && msgBytes <= cfg.confirmThreshold
    ensures var c := Charged(cfg, a, relays, msgBytes, emits);
      c.Some? && c.value.balance == a.balance + Emitted(cfg, relays, msgBytes, emits)
  {
    ConfirmNPositive(cfg, msgBytes, if relays < 1 then 1 else relays);
  }

  lemma ChargedSpends(cfg: Config, a: Account, relays: nat, msgBytes: nat, emits: bool)
    requires cfg.relayChunkSize > 0 && msgBytes > cfg.confirmThreshold
    ensures var c := Charged(cfg, a, relays, msgBytes, emits);
      (if c.Some? then c.value else a).balance == a.balance - Spent(cfg, a, relays, msgBytes, emits)
  {
  }

  // What one operation contributes.
  function FlowOf<K(==)>(books: Books<K>, op: Op<K>): Flows
    requires Defined(op)
  {
    if op.k !in books then NO_FLOW else
    var a := books[op.k];
    match op
    case Send(_, cfg, relays, msgBytes, emits) =>
      SendFlow(cfg, a, relays, msgBytes, emits)
    case RelayWork(_, cfg, bytes, multiplier) => Relaying(NetReward(cfg, bytes, multiplier))
    case Tick(_, cfg, online, _) => if online && a.storageBytes > 0.0 then Storing(StorageReward(cfg, a)) else NO_FLOW
    case Spawn(_) => Dropping(a.balance)
    case _ => NO_FLOW
  }

  function FlowsOf<K(==)>(books: Books<K>, ops: seq<Op<K>>): Flows
    requires AllDefined(ops)
  {
    if ops == [] then NO_FLOW
    else Plus(FlowsOf(books, ops[..|ops| - 1]), FlowOf(After(books, ops[..|ops| - 1]), ops[|ops| - 1]))
  }

  lemma TransferKeepsTotal<K>(keys: seq<K>, books: Books<K>, op: Op<K>)
    requires Listed(keys, books) && op.Transfer? && (forall k :: k in books ==> k in keys)
    ensures Listed(keys, Applied(books, op)) && TotalBalance(keys, Applied(books, op)) == TotalBalance(keys, books)
  {
    if op.k in books && op.to in books && op.to != op.k && Eligible(books[op.k].balance, books[op.to].balance, op.u) {
      var a, b, amount := books[op.k], books[op.to], Amount(books[op.k].balance, op.u);
      var taken := books[op.k := a.(balance := a.balance - amount)];
      TotalUpdated(keys, books, op.k, a.(balance := a.balance - amount));
      TotalUpdated(keys, taken, op.to, b.(balance := b.balance + amount));
    }
  }

  ghost predicate Grows(before: real, after: real, gain: real) {
    after == before + gain
  }

  lemma SetTotal<K>(keys: seq<K>, books: Books<K>, after: Books<K>, k: K, a: Account, gain: real)
    requires Listed(keys, books) && k in keys && after == books[k := a] && a.balance == books[k].balance + gain
    ensures Grows(TotalBalance(keys, books), TotalBalance(keys, after), gain)
  {
    TotalUpdated(keys, books, k, a);
  }

  lemma SendSets<K>(books: Books<K>, op: Op<K>)
    requires op.Send? && Defined(op) && op.k in books
    ensures var c := Charged(op.cfg, books[op.k], op.relays, op.msgBytes, op.emits);
      Applied(books, op) == books[op.k := if c.Some? then c.value else books[op.k]]
  {
  }

  lemma SendEmits<K>(keys: seq<K>, books: Books<K>, op: Op<K>)
    requires Listed(keys, books) && op.Send? && Defined(op) && op.k in books && op.k in keys
    requires op.msgBytes <= op.cfg.confirmThreshold
    ensures Grows(TotalBalance(keys, books), TotalBalance(keys, Applied(books, op)),
        Emitted(op.cfg, op.relays, op.msgBytes, op.emits))
  {
    var c := Charged(op.cfg, books[op.k], op.relays, op.msgBytes, op.emits);
    SendSets(books, op);
    ChargedEmits(op.cfg, books[op.k], op.relays, op.msgBytes, op.emits);
    SetTotal(keys, books, Applied(books, op), op.k, c.value, Emitted(op.cfg, op.relays, op.msgBytes, op.emits));
  }

  lemma SendSpends<K>(keys: seq<K>, books: Books<K>, op: Op<K>)
    requires Listed(keys, books) && op.Send? && Defined(op) && op.k in books && op.k in keys
    requires op.msgBytes > op.cfg.confirmThreshold
    ensures Grows(TotalBalance(keys, books), TotalBalance(keys, Applied(books, op)),
                  -Spent(op.cfg, books[op.k], op.relays, op.msgBytes, op.emits))
  {
    var a := books[op.k];
    var c := Charged(op.cfg, a, op.relays, op.msgBytes, op.emits);
    SendSets(books, op);
    ChargedSpends(op.cfg, a, op.relays, op.msgBytes, op.emits);
    SetTotal(keys, books, Applied(books, op), op.k, if c.Some? then c.value else a,
        -Spent(op.cfg, a, op.relays, op.msgBytes, op.emits));
  }

  lemma SendTotal<K>(keys: seq<K>, books: Books<K>, op: Op<K>)
    requires Listed(keys, books) && op.Send? && Defined(op) && (forall k :: k in books ==> k in keys)
    ensures Grows(TotalBalance(keys, books), TotalBalance(keys, Applied(books, op)), Net(FlowOf(books, op)))
  {
    if op.k in books {
      if op.msgBytes <= op.cfg.confirmThreshold {
        SendEmits(keys, books, op);
      } else {
        SendSpends(keys, books, op);
      }
    }
  }

  lemma RelayTotal<K>(keys: seq<K>, books: Books<K>, op: Op<K>)
    requires Listed(keys, books) && op.RelayWork? && Defined(op) && op.k in books && op.k in keys
    ensures Grows(TotalBalance(keys, books), TotalBalance(keys, Applied(books, op)),
        NetReward(op.cfg, op.bytes, op.multiplier))
  {
    SetTotal(keys, books, Applied(books, op), op.k, Rewarded(op.cfg, books[op.k], op.bytes, op.multiplier),
      NetReward(op.cfg, op.bytes, op.multiplier));
  }

  lemma TickTotal<K>(keys: seq<K>, books: Books<K>, op: Op<K>)
    requires Listed(keys, books) && op.Tick? && op.k in books && op.k in keys
    ensures Grows(TotalBalance(keys, books), TotalBalance(keys, Applied(books, op)),
                  if op.online && books[op.k].storageBytes > 0.0 then StorageReward(op.cfg, books[op.k]) else 0.0)
  {
    SetTotal(keys, books, Applied(books, op), op.k, Aged(op.cfg, books[op.k], op.online, op.decay),
      if op.online && books[op.k].storageBytes > 0.0 then StorageReward(op.cfg, books[op.k]) else 0.0);
  }

  lemma StepTotal<K>(keys: seq<K>, books: Books<K>, op: Op<K>)
    requires Listed(keys, books) && Defined(op) && (forall k :: k in books ==> k in keys)
    ensures Grows(TotalBalance(keys, books), TotalBalance(keys, Applied(books, op)), Net(FlowOf(books, op)))
  {
    if op.Transfer? {
      TransferKeepsTotal(keys, books, op);
    } else if op.Send? {
      SendTotal(keys, books, op);
    } else if op.k in books {
      match op {
        case RelayWork(_, _, _, _) => RelayTotal(keys, books, op);
        case Tick(_, _, _, _) => TickTotal(keys, books, op);
        case UpdateReputation(k) => SetTotal(keys, books, Applied(books, op), k, Rated(books[k]), 0.0);
        case Spawn(k) => SetTotal(keys, books, Applied(books, op), k, OPENING, -books[k].balance);
      }
    }
  }

  // The main result over any history: the sum of all balances changes by what was emitted, stored and relayed, less
  // what was spent and what replaced nodes held. Transfers move it around and change nothing.
  lemma {:induction false} CreditIsAccountedFor<K>(keys: seq<K>, books: Books<K>, ops: seq<Op<K>>)
    requires Listed(keys, books) && AllDefined(ops) && (forall k :: k in books ==> k in keys)
    ensures Listed(keys, After(books, ops))
    ensures var f := FlowsOf(books, ops);
      TotalBalance(keys, After(books, ops))
      == TotalBalance(keys, books) + f.emitted + f.stored + f.relayed - f.spent - f.dropped
  {
    if ops != [] {
      var before, op := ops[..|ops| - 1], ops[|ops| - 1];
      CreditIsAccountedFor(keys, books, before);
      StepTotal(keys, After(books, before), op);
    }
  }

  // ---------- A paid send ----------

  // The relays among path[1..k] that are listed nodes, and what they are paid.
  function Resolved(all: seq<Node>, path: seq<string>, k: nat): nat
    requires 1 <= k <= |path|
  {
    if k == 1 then 0 else Resolved(all, path, k - 1) + if FirstPeer(all, path[k - 1]).Some? then 1 else 0
  }

  function Payouts(cfgOf: Node -> Config, all: seq<Node>, path: seq<string>, k: nat, bytes: real,
          multiplier: real): real
    requires 1 <= k <= |path| && Chunked(cfgOf, all)
  {
    if k == 1 then 0.0 else
    var relay := FirstPeer(all, path[k - 1]);
    Payouts(cfgOf, all, path, k - 1, bytes, multiplier)
      + if relay.Some? then NetReward(cfgOf(relay.value), bytes, multiplier) else 0.0
  }

  // Each payout adds its net reward to the sum, also when one node is paid for several hops.
  lemma {:induction false} PayoutsAdd(cfgOf: Node -> Config, nodes: seq<Node>, path: seq<string>, k: nat, bytes: real,
          multiplier: real, books: Books<Node>)
    requires Listed(nodes, books) && 1 <= k <= |path| && Chunked(cfgOf, nodes)
    ensures var after := Paid(cfgOf, nodes, path, k, bytes, multiplier, books);
      Listed(nodes, after)
      && TotalBalance(nodes, after) == TotalBalance(nodes, books) + Payouts(cfgOf, nodes, path, k, bytes, multiplier)
  {
    if k > 1 {
      PayoutsAdd(cfgOf, nodes, path, k - 1, bytes, multiplier, books);
      var before, relay := Paid(cfgOf, nodes, path, k - 1, bytes, multiplier, books), FirstPeer(nodes, path[k - 1]);
      if relay.Some? {
        TotalUpdated(nodes, before, relay.value, Rewarded(cfgOf(relay.value), before[relay.value], bytes, multiplier));
      }
    }
  }

  // A paid send that goes through changes the sum of all balances by the payouts less the cost.
  lemma PaidSendTotal(cfgOf: Node -> Config, nodes: seq<Node>, from: Node, path: seq<string>, size: nat, emits: bool,
          multiplier: real, books: Books<Node>)
    requires Listed(nodes, books) && from in nodes && |path| >= 2 && Chunked(cfgOf, nodes)
    requires Chunked(cfgOf, [from] + nodes)
    requires cfgOf(from).relayChunkSize > 0 && size > cfgOf(from).confirmThreshold
    requires Cost(cfgOf(from), |path| - 2, size) > 0.0
    requires Charged(cfgOf(from), books[from], |path| - 2, size, emits).Some?
    ensures var after := After(books, SendOps(cfgOf, from, nodes, path, size, emits, multiplier));
      && (forall n :: n in nodes ==> n in after)
      && TotalBalance(nodes, after) == TotalBalance(nodes, books) - Cost(cfgOf(from), |path| - 2, size)
           + Payouts(cfgOf, nodes, path, |path| - 1, size as real, multiplier)
  {
    var send: Op<Node> := Op.Send(from, cfgOf(from), |path| - 2, size, emits);
    var charged := Applied(books, send);
    TotalUpdated(nodes, books, from, charged[from]);
    PayoutsAdd(cfgOf, nodes, path, |path| - 1, size as real, multiplier, charged);
    PaidIsAfter(cfgOf, nodes, path, |path| - 1, size as real, multiplier, charged);
    var paid := Paid(cfgOf, nodes, path, |path| - 1, size as real, multiplier, charged);
    ChargeThenPay(cfgOf, from, nodes, path, size, emits, multiplier, books, charged, paid);
  }

  // ---------- When exactly the burn, and nothing else, leaves the system ----------

  // v is the relayed volume in chunks, s the send price, r the reward per chunk paid to a relay, b the burn rate.
  lemma OnlyBurnLeaves(v: real, s: real, r: real, b: real)
    requires v > 0.0
    ensures v * s - v * (r - r * b) == v * s * b <==> b == 1.0 || r == s
  {
    var d, w := s - r, 1.0 - b;
    assert v * s - v * (r - r * b) - v * s * b == v * (d * w) by {
      assert d * w == s - r - s * b + r * b;
      assert v * (d * w) == v * (s - s * b - (r - r * b));
      assert v * (s - s * b - (r - r * b)) == v * (s - s * b) - v * (r - r * b);
      assert v * (s - s * b) == v * s - v * (s * b) && v * (s * b) == v * s * b;
    }
    if d != 0.0 && w != 0.0 {
      NonZeroProduct(d, w);
      NonZeroProduct(v, d * w);
    }
  }

  lemma BurnFromForms(before: real, after: real, cost: real, pay: real, v: real, s: real, r: real, b: real)
    requires after == before - cost + pay && cost == v * s && pay == v * (r - r * b) && v > 0.0
    ensures before - after == cost * b <==> b == 1.0 || r == s
  {
    OnlyBurnLeaves(v, s, r, b);
  }

  // Cost and payouts as multiples of the volume.
  lemma VolumeForms(cfg: Config, relays: nat, size: nat, multiplier: real)
    requires cfg.relayChunkSize > 0
    ensures var v, r := (relays * size) as real / cfg.relayChunkSize as real, cfg.relayReward * multiplier;
      && Cost(cfg, relays, size) == v * cfg.sendCost
      && Times(relays, NetReward(cfg, size as real, multiplier)) == v * (r - r * cfg.burnRate)
  {
    var c, n, z := cfg.relayChunkSize as real, relays as real, size as real;
    var share, r, b := z / c, cfg.relayReward * multiplier, cfg.burnRate;
    var v := (relays * size) as real / c;
    TimesIsProduct(relays, NetReward(cfg, z, multiplier));
    assert v == n * share by {
      assert (relays * size) as real == n * z;
      assert (n * share) * c == n * (share * c) == n * z;
      assert v * c == n * z;
      SameQuotient(v, n * share, c);
    }
    assert NetReward(cfg, z, multiplier) == share * (r - r * b) by {
      assert share * cfg.relayReward * multiplier == share * r;
      assert share * r * b == share * (r * b);
      assert share * (r - r * b) == share * r - share * (r * b);
    }
    assert n * (share * (r - r * b)) == (n * share) * (r - r * b);
  }

  lemma SameQuotient(x: real, y: real, c: real)
    requires c > 0.0 && x * c == y * c
    ensures x == y
  {
    if x != y {
      NonZeroProduct(x - y, c);
    }
  }

  lemma PositiveVolume(cfg: Config, relays: nat, size: nat)
    requires cfg.relayChunkSize > 0 && Cost(cfg, relays, size) > 0.0
    ensures (relays * size) as real / cfg.relayChunkSize as real > 0.0
  {
    assert relays * size >= 0;
    NonNegativeQuotient((relays * size) as real, cfg.relayChunkSize as real);
  }

  // Between the two sums exactly the burn on the cost was lost.
  ghost predicate OnlyBurnLost(before: real, after: real, cost: real, burnRate: real) {
    before - after == cost * burnRate
  }

  lemma BurnOfVolume(cfg: Config, relays: nat, size: nat, multiplier: real, before: real, after: real)
    requires cfg.relayChunkSize > 0 && Cost(cfg, relays, size) > 0.0
    requires after == before - Cost(cfg, relays, size) + Times(relays, NetReward(cfg, size as real, multiplier))
    ensures OnlyBurnLost(before, after, Cost(cfg, relays, size), cfg.burnRate)
       <==> cfg.burnRate == 1.0 || cfg.relayReward * multiplier == cfg.sendCost
  {
    VolumeForms(cfg, relays, size, multiplier);
    PositiveVolume(cfg, relays, size);
    BurnFromForms(before, after, Cost(cfg, relays, size), Times(relays, NetReward(cfg, size as real, multiplier)),
      (relays * size) as real / cfg.relayChunkSize as real, cfg.sendCost, cfg.relayReward * multiplier, cfg.burnRate);
  }

  // Under one configuration every resolved relay is paid the same.
  lemma {:induction false} SamePayouts(cfg: Config, cfgOf: Node -> Config, nodes: seq<Node>, path: seq<string>,
          k: nat, bytes: real, multiplier: real)
    requires 1 <= k <= |path| && cfg.relayChunkSize > 0 && forall n :: n in nodes ==> cfgOf(n) == cfg
    ensures Payouts(cfgOf, nodes, path, k, bytes, multiplier)
         == Times(Resolved(nodes, path, k), NetReward(cfg, bytes, multiplier))
  {
    if k > 1 {
      SamePayouts(cfg, cfgOf, nodes, path, k - 1, bytes, multiplier);
    }
  }

  // The main result for nodes that share one configuration: when every inner hop of a paid send is a listed node, the
  // sum of all balances falls by exactly the burn rate times the cost if and only if all is burnt or the reward with
  // its channel multiplier equals the send price.
  lemma BurnIsExact(cfg: Config, cfgOf: Node -> Config, nodes: seq<Node>, from: Node, path: seq<string>, size: nat,
          emits: bool, multiplier: real, books: Books<Node>)
    requires Listed(nodes, books) && from in nodes && |path| >= 2
    requires cfg.relayChunkSize > 0 && Chunked(cfgOf, [from] + nodes) && forall n :: n in nodes ==> cfgOf(n) == cfg
    requires size > cfg.confirmThreshold && Cost(cfg, |path| - 2, size) > 0.0
    requires Charged(cfg, books[from], |path| - 2, size, emits).Some?
    requires Resolved(nodes, path, |path| - 1) == |path| - 2
    ensures var after := After(books, SendOps(cfgOf, from, nodes, path, size, emits, multiplier));
      && (forall n :: n in nodes ==> n in after)
      && (OnlyBurnLost(TotalBalance(nodes, books), TotalBalance(nodes, after),
                       Cost(cfg, |path| - 2, size), cfg.burnRate)
          <==> cfg.burnRate == 1.0 || cfg.relayReward * multiplier == cfg.sendCost)
  {
    PaidSendTotal(cfgOf, nodes, from, path, size, emits, multiplier, books);
    SamePayouts(cfg, cfgOf, nodes, path, |path| - 1, size as real, multiplier);
    var after := After(books, SendOps(cfgOf, from, nodes, path, size, emits, multiplier));
    BurnOfVolume(cfg, |path| - 2, size, multiplier, TotalBalance(nodes, books), TotalBalance(nodes, after));
  }

  // The prices of DefaultConfig.
  const DEFAULTS := Config(20.0, 4.0, 75.0, 1.0, 1.0, 0.01, 0.5, 0.01, 2048, 512, 1)

  // At these prices 4096 bytes over one relay cost 8. With the WiFi multiplier 0.1 credit vanishes beyond the burn of
  // 0.08, and with the multiplier 3 of SF12 it is created.
  lemma DefaultPricesLeak(cfgOf: Node -> Config, from: Node, relay: Node, to: Node, multiplier: real,
          books: Books<Node>)
    requires from.peerID != relay.peerID && from in books && relay in books && books[from].balance >= 8.0
    requires books[from].lockedOut == 0.0
    requires cfgOf(from) == cfgOf(relay) == DEFAULTS && Chunked(cfgOf, [from] + [from, relay])
    ensures var nodes, path := [from, relay], [from.peerID, relay.peerID, to.peerID];
      var after := After(books, SendOps(cfgOf, from, nodes, path, 4096, false, multiplier));
      && from in after && relay in after
      && Cost(DEFAULTS, 1, 4096) == 8.0
      && (multiplier == 0.1 ==> TotalBalance(nodes, after) == TotalBalance(nodes, books) - 7.208)
      && (multiplier == 1.0 ==> TotalBalance(nodes, after) == TotalBalance(nodes, books) - 0.08)
      && (multiplier == 3.0 ==> TotalBalance(nodes, after) == TotalBalance(nodes, books) + 15.76)
  {
    var nodes, path := [from, relay], [from.peerID, relay.peerID, to.peerID];
    assert Cost(DEFAULTS, 1, 4096) == 8.0;
    assert Charged(DEFAULTS, books[from], 1, 4096, false).Some?;
    assert Resolved(nodes, path, 2) == 1;
    PaidSendTotal(cfgOf, nodes, from, path, 4096, false, multiplier, books);
    SamePayouts(DEFAULTS, cfgOf, nodes, path, 2, 4096.0, multiplier);
    assert NetReward(DEFAULTS, 4096.0, multiplier) == 8.0 * multiplier - 8.0 * multiplier * 0.01;
  }

  // ---------- Below -100 ----------

  function Balances(books: Books<nat>, n: nat): seq<real>
    requires forall k: nat :: k < n ==> k in books
  {
    seq(n, k requires 0 <= k < n => books[k].balance)
  }

  // n accounts with nothing locked or stored: the first m with one balance and at least so much work, the others with
  // another.
  ghost predicate Standing(books: Books<nat>, n: nat, m: nat, balance: real, work: real, balance': real, work': real) {
    && (forall k: nat :: k in books <==> k < n)
    && (forall k: nat :: k < n ==> books[k].lockedOut == 0.0 && books[k].storageBytes == 0.0)
    && (forall k: nat :: k < n ==> books[k].balance == if k < m then balance else balance')
    && (forall k: nat :: k < n ==> books[k].ewmaWork >= if k < m then work else work')
  }

  function Opened(n: nat): (books: Books<nat>)
    ensures forall k: nat :: k in books <==> k < n
    ensures forall k: nat :: k < n ==> books[k] == OPENING
  {
    if n == 0 then map[] else Opened(n - 1)[n - 1 := OPENING]
  }

  // A message over one relay: the sender's payment, then the relay's payout at multiplier 1.
  function Relayed(from: nat, relay: nat, msgBytes: nat): (ops: seq<Op<nat>>)
    ensures AllDefined(ops) && AllFair(ops)
  {
    [Op.Send(from, DEFAULTS, 1, msgBytes, false), RelayWork(relay, DEFAULTS, msgBytes as real, 1.0)]
  }

  lemma AfterRelayed(books: Books<nat>, from: nat, relay: nat, msgBytes: nat)
    ensures After(books, Relayed(from, relay, msgBytes))
         == Applied(Applied(books, Op.Send(from, DEFAULTS, 1, msgBytes, false)),
             RelayWork(relay, DEFAULTS, msgBytes as real, 1.0))
  {
    var send: Op<nat> := Op.Send(from, DEFAULTS, 1, msgBytes, false);
    var work: Op<nat> := RelayWork(relay, DEFAULTS, msgBytes as real, 1.0);
    AfterSnoc(books, [], send);
    AfterSnoc(books, [send], work);
    assert [] + [send] == [send] && [send] + [work] == Relayed(from, relay, msgBytes);
  }

  // 2048 bytes are sent against confirmation, so that a new account can send them.
  function Confirmed(a: Account): Account {
    a.(ewmaWork := a.ewmaWork + 2048.0)
  }

  function Earned(a: Account, balance: real, bytes: real): Account {
    a.(relayBytesOut := a.relayBytesOut + bytes, balance := a.balance + balance, ewmaWork := a.ewmaWork + bytes)
  }

  lemma FreeSend(a: Account)
    ensures Charged(DEFAULTS, a, 1, 2048, false) == Some(Confirmed(a))
  {
    assert ConfirmN(DEFAULTS, 2048, 1) == 4;
  }

  lemma SmallReward(a: Account)
    ensures Rewarded(DEFAULTS, a, 2048.0, 1.0) == Earned(a, 3.96, 2048.0)
  {
    assert NetReward(DEFAULTS, 2048.0, 1.0) == 3.96;
  }

  lemma FreeRound(books: Books<nat>, from: nat, relay: nat)
    requires from in books && relay in books && from != relay
    ensures After(books, Relayed(from, relay, 2048))
         == books[from := Confirmed(books[from])][relay := Earned(books[relay], 3.96, 2048.0)]
  {
    AfterRelayed(books, from, relay, 2048);
    FreeSend(books[from]);
    SmallReward(books[relay]);
  }

  function RelayedTimes(from: nat, relay: nat, m: nat): (ops: seq<Op<nat>>)
    ensures AllDefined(ops) && AllFair(ops)
  {
    if m == 0 then [] else RelayedTimes(from, relay, m - 1) + Relayed(from, relay, 2048)
  }

  // m such messages: the relay earns, everyone else keeps the balance, and nobody loses work.
  ghost predicate EarnedBy(before: Books<nat>, after: Books<nat>, relay: nat, m: nat)
    requires relay in before
  {
    && after.Keys == before.Keys
    && after[relay].balance == before[relay].balance + 3.96 * m as real
    && after[relay].ewmaWork >= before[relay].ewmaWork + 2048.0 * m as real
    && (forall k :: k in before && k != relay ==>
      after[k].balance == before[k].balance && after[k].ewmaWork >= before[k].ewmaWork)
    && (forall k :: k in before ==>
      after[k].lockedOut == before[k].lockedOut && after[k].storageBytes == before[k].storageBytes)
  }

  lemma OneMoreRound(books: Books<nat>, before: Books<nat>, after: Books<nat>, from: nat, relay: nat, m: nat)
    requires relay in books && from in books && from != relay && EarnedBy(books, before, relay, m)
    requires after == before[from := Confirmed(before[from])][relay := Earned(before[relay], 3.96, 2048.0)]
    ensures EarnedBy(books, after, relay, m + 1)
  {
  }

  lemma LastRound(books: Books<nat>, from: nat, relay: nat, m: nat)
    ensures After(books, RelayedTimes(from, relay, m + 1))
         == After(After(books, RelayedTimes(from, relay, m)), Relayed(from, relay, 2048))
  {
    AfterAppend(books, RelayedTimes(from, relay, m), Relayed(from, relay, 2048));
  }

  lemma FreeRoundEarns(books: Books<nat>, before: Books<nat>, from: nat, relay: nat, m: nat)
    requires relay in books && from in books && from != relay && EarnedBy(books, before, relay, m)
    ensures EarnedBy(books, After(before, Relayed(from, relay, 2048)), relay, m + 1)
  {
    FreeRound(before, from, relay);
    OneMoreRound(books, before, After(before, Relayed(from, relay, 2048)), from, relay, m);
  }

  lemma NextRound(books: Books<nat>, from: nat, relay: nat, m: nat)
    requires relay in books && from in books && from != relay
    requires EarnedBy(books, After(books, RelayedTimes(from, relay, m)), relay, m)
    ensures EarnedBy(books, After(books, RelayedTimes(from, relay, m + 1)), relay, m + 1)
  {
    FreeRoundEarns(books, After(books, RelayedTimes(from, relay, m)), from, relay, m);
    LastRound(books, from, relay, m);
  }

  lemma {:induction false} RoundsEarn(books: Books<nat>, from: nat, relay: nat, m: nat)
    requires from in books && relay in books && from != relay
    ensures EarnedBy(books, After(books, RelayedTimes(from, relay, m)), relay, m)
  {
    if m > 0 {
      RoundsEarn(books, from, relay, m - 1);
      NextRound(books, from, relay, m - 1);
    }
  }

  // Each of the first m accounts relays 50 messages of another one.
  function AllRelay(m: nat): (ops: seq<Op<nat>>)
    ensures AllDefined(ops) && AllFair(ops)
  {
    if m == 0 then [] else AllRelay(m - 1) + RelayedTimes(if m == 1 then 1 else 0, m - 1, 50)
  }

  lemma OneMoreEarner(before: Books<nat>, after: Books<nat>, n: nat, m: nat)
    requires m < n && Standing(before, n, m, 198.0, 102400.0, 0.0, 0.0) && EarnedBy(before, after, m, 50)
    ensures Standing(after, n, m + 1, 198.0, 102400.0, 0.0, 0.0)
  {
  }

  lemma {:induction false} AllEarn(n: nat, m: nat)
    requires m <= n && n >= 2
    ensures Standing(After(Opened(n), AllRelay(m)), n, m, 198.0, 102400.0, 0.0, 0.0)
  {
    if m > 0 {
      var before, from := After(Opened(n), AllRelay(m - 1)), if m == 1 then 1 else 0;
      AllEarn(n, m - 1);
      AfterAppend(Opened(n), AllRelay(m - 1), RelayedTimes(from, m - 1, 50));
      RoundsEarn(before, from, m - 1, 50);
      OneMoreEarner(before, After(before, RelayedTimes(from, m - 1, 50)), n, m - 1);
    }
  }

  // One tick of the first m accounts, all online; decay is at least 0.9999, the true factor being closer to 1.
  function AllTick(m: nat, decay: real): (ops: seq<Op<nat>>)
    ensures AllDefined(ops) && (0.0 <= decay <= 1.0 ==> AllFair(ops))
  {
    if m == 0 then [] else AllTick(m - 1, decay) + [Tick(m - 1, DEFAULTS, true, decay)]
  }

  lemma TickDecays(a: Account, decay: real, work: real)
    requires 0.9999 <= decay <= 1.0 && a.storageBytes == 0.0 && a.ewmaWork >= work >= 0.0
    ensures var b := Aged(DEFAULTS, a, true, decay);
      b.balance == a.balance && b.lockedOut == a.lockedOut && b.storageBytes == 0.0 && b.ewmaWork >= 0.9999 * work
  {
    assert a.ewmaWork * decay >= a.ewmaWork * 0.9999;
  }

  function TickedBooks(books: Books<nat>, m: nat, decay: real): Books<nat> {
    if m == 0 then books else
    var before := TickedBooks(books, m - 1, decay);
    if m - 1 in before then before[m - 1 := Aged(DEFAULTS, before[m - 1], true, decay)] else before
  }

  lemma LastTick(books: Books<nat>, m: nat, decay: real)
    ensures var before := After(books, AllTick(m, decay));
      After(books, AllTick(m + 1, decay))
        == if m in before then before[m := Aged(DEFAULTS, before[m], true, decay)] else before
  {
    AfterSnoc(books, AllTick(m, decay), Tick(m, DEFAULTS, true, decay));
  }

  lemma {:induction false} AllTickIs(books: Books<nat>, m: nat, decay: real)
    ensures After(books, AllTick(m, decay)) == TickedBooks(books, m, decay)
  {
    if m > 0 {
      AllTickIs(books, m - 1, decay);
      LastTick(books, m - 1, decay);
    }
  }

  lemma OneMoreTick(before: Books<nat>, n: nat, m: nat, decay: real, work: real)
    requires 0.9999 <= decay <= 1.0 && m < n && work >= 0.0 && Standing(before, n, m, 198.0, 0.9999 * work, 198.0, work)
    ensures Standing(before[m := Aged(DEFAULTS, before[m], true, decay)], n, m + 1, 198.0, 0.9999 * work, 198.0, work)
  {
    TickDecays(before[m], decay, work);
  }

  lemma {:induction false} OneTick(books: Books<nat>, n: nat, m: nat, decay: real, work: real)
    requires 0.9999 <= decay <= 1.0 && m <= n && work >= 0.0 && Standing(books, n, 0, 198.0, work, 198.0, work)
    ensures Standing(TickedBooks(books, m, decay), n, m, 198.0, 0.9999 * work, 198.0, work)
  {
    if m > 0 {
      OneTick(books, n, m - 1, decay, work);
      OneMoreTick(TickedBooks(books, m - 1, decay), n, m - 1, decay, work);
    }
  }

  function Ticks(n: nat, decay: real, t: nat): (ops: seq<Op<nat>>)
    ensures AllDefined(ops) && (0.0 <= decay <= 1.0 ==> AllFair(ops))
  {
    if t == 0 then [] else Ticks(n, decay, t - 1) + AllTick(n, decay)
  }

  lemma {:induction false} TicksDecay(books: Books<nat>, n: nat, decay: real, t: nat)
    requires 0.9999 <= decay <= 1.0 && t <= 300 && Standing(books, n, n, 198.0, 102400.0, 0.0, 0.0)
    ensures Standing(After(books, Ticks(n, decay, t)), n, n, 198.0, 102400.0 - 10.24 * t as real, 0.0, 0.0)
  {
    if t > 0 {
      var before, work := After(books, Ticks(n, decay, t - 1)), 102400.0 - 10.24 * (t - 1) as real;
      TicksDecay(books, n, decay, t - 1);
      AfterAppend(books, Ticks(n, decay, t - 1), AllTick(n, decay));
      AllTickIs(before, n, decay);
      OneTick(before, n, n, decay, work);
      assert 0.9999 * work >= 102400.0 - 10.24 * t as real;
    }
  }

  // Every reputation is brought up to date.
  function AllRated(m: nat): (ops: seq<Op<nat>>)
    ensures AllDefined(ops) && AllFair(ops)
  {
    if m == 0 then [] else AllRated(m - 1) + [UpdateReputation(m - 1)]
  }

  // n accounts with a balance of 198 and nothing locked or stored, the first m with a reputation of at least 580.
  ghost predicate Respected(books: Books<nat>, n: nat, m: nat) {
    && (forall k: nat :: k in books <==> k < n)
    && (forall k: nat :: k < n ==>
      books[k].balance == 198.0 && books[k].lockedOut == 0.0 && books[k].storageBytes == 0.0)
    && (forall k: nat :: k < n ==> books[k].ewmaWork >= 97440.0)
    && (forall k: nat :: k < m && k < n ==> books[k].reputation >= 580.0)
  }

  function RatedBooks(books: Books<nat>, m: nat): Books<nat> {
    if m == 0 then books else
    var before := RatedBooks(books, m - 1);
    if m - 1 in before then before[m - 1 := Rated(before[m - 1])] else before
  }

  lemma LastRated(books: Books<nat>, m: nat)
    ensures var before := After(books, AllRated(m));
      After(books, AllRated(m + 1)) == if m in before then before[m := Rated(before[m])] else before
  {
    AfterSnoc(books, AllRated(m), UpdateReputation(m));
  }

  lemma {:induction false} AllRatedIs(books: Books<nat>, m: nat)
    ensures After(books, AllRated(m)) == RatedBooks(books, m)
  {
    if m > 0 {
      AllRatedIs(books, m - 1);
      LastRated(books, m - 1);
    }
  }

  lemma {:induction false} RatedAll(books: Books<nat>, n: nat, m: nat)
    requires m <= n && Standing(books, n, n, 198.0, 97440.0, 0.0, 0.0)
    ensures Respected(RatedBooks(books, m), n, m)
  {
    if m > 0 {
      RatedAll(books, n, m - 1);
      OneMoreRated(RatedBooks(books, m - 1), n, m - 1);
    }
  }

  lemma OneMoreRated(before: Books<nat>, n: nat, m: nat)
    requires m < n && Respected(before, n, m)
    ensures Respected(before[m := Rated(before[m])], n, m + 1)
  {
  }

  // With such a reputation a node may go down to -481: here it sends 310 chunks over one relay.
  lemma Overspend(a: Account)
    requires a.balance == 198.0 && a.lockedOut == 0.0 && a.reputation >= 580.0
    ensures Charged(DEFAULTS, a, 1, 158720, false) == Some(a.(balance := -112.0))
  {
    assert Cost(DEFAULTS, 1, 158720) == 310.0;
    assert !Overdrawn(-112.0, a.reputation);
  }

  // The spender at -112, everyone else but the relay at 198.
  ghost predicate SpentBy(books: Books<nat>, n: nat, spender: nat, relay: nat) {
    && (forall k: nat :: k in books <==> k < n)
    && forall k: nat :: k < n && k != relay ==> books[k].balance == if k == spender then -112.0 else 198.0
  }

  lemma SpendRound(books: Books<nat>, n: nat, spender: nat, relay: nat)
    requires Respected(books, n, n) && spender < n && relay < n && spender != relay
    ensures SpentBy(After(books, Relayed(spender, relay, 158720)), n, spender, relay)
  {
    AfterRelayed(books, spender, relay, 158720);
    Overspend(books[spender]);
    var charged := books[spender := books[spender].(balance := -112.0)];
    assert Applied(books, Op.Send(spender, DEFAULTS, 1, 158720, false)) == charged;
    PayoutTo(charged, relay, 158720);
  }

  lemma PayoutTo(books: Books<nat>, relay: nat, msgBytes: nat)
    requires relay in books
    ensures var after := Applied(books, RelayWork(relay, DEFAULTS, msgBytes as real, 1.0));
      after.Keys == books.Keys && forall k :: k in books && k != relay ==> after[k] == books[k]
  {
  }

  // The relay's place is taken by a new node, which relays 50 messages in its turn.
  function Replaced(relay: nat, from: nat): (ops: seq<Op<nat>>)
    ensures AllDefined(ops) && AllFair(ops)
  {
    [Spawn(relay)] + RelayedTimes(from, relay, 50)
  }

  lemma AfterReplaced(books: Books<nat>, n: nat, spender: nat, relay: nat, from: nat)
    requires SpentBy(books, n, spender, relay) && relay < n && spender < n && from < n && from != relay
    requires spender != relay
    ensures var after := After(books, Replaced(relay, from));
      forall k: nat :: k < n ==> k in after && after[k].balance == if k == spender then -112.0 else 198.0
  {
    AfterCons(books, Spawn(relay), RelayedTimes(from, relay, 50));
    RoundsEarn(books[relay := OPENING], from, relay, 50);
  }

  // So many periods of 300 ticks, each ending with all reputations brought up to date.
  function Periods(n: nat, decay: real, p: nat): (ops: seq<Op<nat>>)
    ensures AllDefined(ops) && (0.0 <= decay <= 1.0 ==> AllFair(ops))
  {
    if p == 0 then [] else Periods(n, decay, p - 1) + (Ticks(n, decay, 300) + AllRated(n))
  }

  // n accounts relay 50 messages each, 300 ticks go by and reputations are brought up to date, one account sends on
  // credit, its relay is replaced, and ticks go by up to number 6000, at which nodes may transfer. Every payout follows
  // the send that pays for it.
  function SpendingRun(n: nat, spender: nat, decay: real): (ops: seq<Op<nat>>)
    ensures AllDefined(ops) && (0.0 <= decay <= 1.0 ==> AllFair(ops))
  {
    Spree(n, spender, decay) + Periods(n, decay, 19)
  }

  function Spree(n: nat, spender: nat, decay: real): (ops: seq<Op<nat>>)
    ensures AllDefined(ops) && (0.0 <= decay <= 1.0 ==> AllFair(ops))
  {
    AllRelay(n) + Ticks(n, decay, 300) + AllRated(n) + Relayed(spender, 0, 158720) + Replaced(0, spender)
  }

  lemma AfterRated(n: nat, decay: real)
    requires n >= 2 && 0.9999 <= decay <= 1.0
    ensures Respected(After(Opened(n), AllRelay(n) + Ticks(n, decay, 300) + AllRated(n)), n, n)
  {
    var earned := After(Opened(n), AllRelay(n));
    AllEarn(n, n);
    AfterAppend(Opened(n), AllRelay(n), Ticks(n, decay, 300));
    TicksDecay(earned, n, decay, 300);
    AfterAppend(Opened(n), AllRelay(n) + Ticks(n, decay, 300), AllRated(n));
    AllRatedIs(After(earned, Ticks(n, decay, 300)), n);
    RatedAll(After(earned, Ticks(n, decay, 300)), n, n);
  }

  lemma AfterSpree(n: nat, spender: nat, decay: real)
    requires 0 < spender < n && 0.9999 <= decay <= 1.0
    ensures var after := After(Opened(n), Spree(n, spender, decay));
      forall k: nat :: k < n ==> k in after && after[k].balance == if k == spender then -112.0 else 198.0
  {
    var rise := AllRelay(n) + Ticks(n, decay, 300) + AllRated(n);
    var spend, replace := Relayed(spender, 0, 158720), Replaced(0, spender);
    AfterRated(n, decay);
    AfterAppend(Opened(n), rise, spend);
    SpendRound(After(Opened(n), rise), n, spender, 0);
    AfterAppend(Opened(n), rise + spend, replace);
    AfterReplaced(After(After(Opened(n), rise), spend), n, spender, 0, spender);
  }

  // ---------- Ticks with nothing stored ----------

  predicate Idle(op: Op<nat>) {
    op.Tick? || op.UpdateReputation?
  }

  predicate AllIdle(ops: seq<Op<nat>>) {
    forall i :: 0 <= i < |ops| ==> Idle(ops[i])
  }

  ghost predicate Unstored(books: Books<nat>) {
    forall k: nat :: k in books ==> books[k].storageBytes == 0.0
  }

  lemma {:induction false} NothingIsStored(books: Books<nat>, ops: seq<Op<nat>>)
    requires AllDefined(ops) && Unstored(books)
    ensures Unstored(After(books, ops))
  {
    if ops != [] {
      NothingIsStored(books, ops[..|ops| - 1]);
      StoresNothing(After(books, ops[..|ops| - 1]), ops[|ops| - 1]);
    }
  }

  lemma StoresNothing(books: Books<nat>, op: Op<nat>)
    requires Defined(op) && Unstored(books)
    ensures Unstored(Applied(books, op))
  {
  }

  ghost predicate SameBalances(a: Books<nat>, b: Books<nat>) {
    forall k: nat :: k in a ==> k in b && b[k].balance == a[k].balance
  }

  lemma {:induction false} IdleKeepsBalances(books: Books<nat>, ops: seq<Op<nat>>)
    requires AllDefined(ops) && AllIdle(ops) && Unstored(books)
    ensures SameBalances(books, After(books, ops))
  {
    if ops != [] {
      var n := |ops| - 1;
      assert Idle(ops[n]);
      IdleKeepsBalances(books, ops[..n]);
      NothingIsStored(books, ops[..n]);
      IdleKeepsAll(books, After(books, ops[..n]), ops[n]);
    }
  }

  lemma IdleKeepsAll(books: Books<nat>, before: Books<nat>, op: Op<nat>)
    requires Defined(op) && Idle(op) && Unstored(before) && SameBalances(books, before)
    ensures SameBalances(books, Applied(before, op))
  {
  }

  lemma {:induction false} AllTickIsIdle(m: nat, decay: real)
    ensures AllIdle(AllTick(m, decay)) && AllIdle(AllRated(m))
  {
    if m > 0 {
      AllTickIsIdle(m - 1, decay);
    }
  }

  lemma {:induction false} TicksAreIdle(n: nat, decay: real, t: nat)
    ensures AllIdle(Ticks(n, decay, t))
  {
    if t > 0 {
      TicksAreIdle(n, decay, t - 1);
      AllTickIsIdle(n, decay);
    }
  }

  lemma {:induction false} PeriodsAreIdle(n: nat, decay: real, p: nat)
    ensures AllIdle(Periods(n, decay, p))
  {
    if p > 0 {
      PeriodsAreIdle(n, decay, p - 1);
      TicksAreIdle(n, decay, 300);
      AllTickIsIdle(n, decay);
    }
  }

  lemma AfterSpendingRun(n: nat, spender: nat, decay: real)
    requires 0 < spender < n && 0.9999 <= decay <= 1.0
    ensures var after := After(Opened(n), SpendingRun(n, spender, decay));
      forall k: nat :: k < n ==> k in after && after[k].balance == if k == spender then -112.0 else 198.0
  {
    var before := After(Opened(n), Spree(n, spender, decay));
    AfterSpree(n, spender, decay);
    AfterAppend(Opened(n), Spree(n, spender, decay), Periods(n, decay, 19));
    NothingIsStored(Opened(n), Spree(n, spender, decay));
    PeriodsAreIdle(n, decay, 19);
    IdleKeepsBalances(before, Periods(n, decay, 19));
  }

  // Balances below -100 are reached from newly opened accounts at the default prices, and among enough nodes a
  // transfer at tick 6000 to such a node does not lower GiniBalance.
  lemma ClippedTransferIsReached(u: real, decay: real) returns (n: nat, ops: seq<Op<nat>>)
    requires 0.0 <= u < 1.0 && 0.9999 <= decay <= 1.0
    ensures n >= 3 && ops == SpendingRun(n, n - 2, decay) && forall k: nat :: k < n ==> k in After(Opened(n), ops)
    ensures var b := Balances(After(Opened(n), ops), n);
      && Eligible(b[n - 1], b[n - 2], u) && b[n - 2] < -100.0
      && GiniBalance(Moved(b, n - 1, n - 2, Amount(b[n - 1], u))) >= GiniBalance(b)
  {
    var m, g := ClippedTransfer(198.0, -112.0, u);
    n := m + 2;
    ops := SpendingRun(n, m, decay);
    AfterSpendingRun(n, m, decay);
    assert Balances(After(Opened(n), ops), n) == g;
  }
}
