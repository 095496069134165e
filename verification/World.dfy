// The simulated world of simulation/world.go in memory: its node list, its message and transmission buffers
// and counters, and the operations of a step, tied to the value models of Traffic and Ledger.
module World {
  import opened Prelude
  import opened Ledger
  import opened Transfers
  import opened MeshNode
  import opened Messages
  import opened Airwaves
  import opened Traffic

  // What the accounts of a set of nodes hold.
  ghost function BooksOf(nodes: set<Node>): (b: Books<Node>)
    reads nodes
    ensures b.Keys == nodes
  {
    map n | n in nodes :: n.Books()
  }

  // Each of these nodes pays and is paid by its own configuration, with a positive chunk size.
  predicate Chunked(cfgOf: Node -> Config, nodes: seq<Node>) {
    forall n :: n in nodes ==> cfgOf(n).relayChunkSize > 0
  }

  predicate AllPriced(cfgOf: Node -> Config, nodes: seq<Node>) {
    forall n :: n in nodes ==> Priced(cfgOf(n))
  }

  // The payouts to the relays path[1..k], in order: each goes to the first node with that peer id, if any.
  function RelayOps(cfgOf: Node -> Config, all: seq<Node>, path: seq<string>, k: nat, bytes: real,
          multiplier: real): (ops: seq<Op<Node>>)
    requires 1 <= k <= |path|
    ensures Chunked(cfgOf, all) ==> AllDefined(ops)
    ensures AllPriced(cfgOf, all) && bytes >= 0.0 && multiplier >= 0.0 ==> AllFair(ops)
  {
    if k == 1 then [] else
    var before := RelayOps(cfgOf, all, path, k - 1, bytes, multiplier);
    var relay := FirstPeer(all, path[k - 1]);
    if relay.None? then before else before + [RelayWork(relay.value, cfgOf(relay.value), bytes, multiplier)]
  }

  // The same payouts made one after the other.
  function PaidOne(cfgOf: Node -> Config, all: seq<Node>, id: string, bytes: real, multiplier: real,
          books: Books<Node>): Books<Node>
    requires Chunked(cfgOf, all)
  {
    var relay := FirstPeer(all, id);
    if relay.Some? && relay.value in books
    then books[relay.value := Rewarded(cfgOf(relay.value), books[relay.value], bytes, multiplier)] else books
  }

  function Paid(cfgOf: Node -> Config, all: seq<Node>, path: seq<string>, k: nat, bytes: real, multiplier: real,
          books: Books<Node>): Books<Node>
    requires 1 <= k <= |path| && Chunked(cfgOf, all)
  {
    if k == 1 then books
    else PaidOne(cfgOf, all, path[k - 1], bytes, multiplier, Paid(cfgOf, all, path, k - 1, bytes, multiplier, books))
  }

  lemma {:induction false} PaidIsAfter(cfgOf: Node -> Config, all: seq<Node>, path: seq<string>, k: nat, bytes: real,
          multiplier: real, books: Books<Node>)
    requires 1 <= k <= |path| && Chunked(cfgOf, all)
    ensures Paid(cfgOf, all, path, k, bytes, multiplier, books)
         == After(books, RelayOps(cfgOf, all, path, k, bytes, multiplier))
  {
    if k > 1 {
      PaidIsAfter(cfgOf, all, path, k - 1, bytes, multiplier, books);
      var before, relay := RelayOps(cfgOf, all, path, k - 1, bytes, multiplier), FirstPeer(all, path[k - 1]);
      if relay.Some? {
        AfterSnoc(books, before, RelayWork(relay.value, cfgOf(relay.value), bytes, multiplier));
      }
    }
  }

  // What a send that goes through does to the accounts.
  function SendOps(cfgOf: Node -> Config, from: Node, all: seq<Node>, path: seq<string>, size: nat, emits: bool,
          multiplier: real): (ops: seq<Op<Node>>)
    requires |path| >= 2
    ensures Chunked(cfgOf, [from] + all) ==> AllDefined(ops)
    ensures AllPriced(cfgOf, [from] + all) && multiplier >= 0.0 ==> AllFair(ops)
  {
    var relays := RelayOps(cfgOf, all, path, |path| - 1, size as real, multiplier);
    assert forall n :: n in all ==> n in [from] + all;
    assert from in [from] + all;
    [Op.Send(from, cfgOf(from), |path| - 2, size, emits)] + relays
  }

  // The charge followed by the payouts is the run of a send.
  lemma ChargeThenPay(cfgOf: Node -> Config, from: Node, all: seq<Node>, path: seq<string>, size: nat, emits: bool,
          multiplier: real, books: Books<Node>, charged: Books<Node>, after: Books<Node>)
    requires |path| >= 2 && Chunked(cfgOf, [from] + all)
    requires cfgOf(from).relayChunkSize > 0
    requires charged == Applied(books, Op.Send(from, cfgOf(from), |path| - 2, size, emits))
    requires Chunked(cfgOf, all)
    requires after == After(charged, RelayOps(cfgOf, all, path, |path| - 1, size as real, multiplier))
    ensures after == After(books, SendOps(cfgOf, from, all, path, size, emits, multiplier))
  {
    AfterCons(books, Op.Send(from, cfgOf(from), |path| - 2, size, emits),
      RelayOps(cfgOf, all, path, |path| - 1, size as real, multiplier));
  }

  // The signal of a send: only on LoRa, and only for an airtime of 1 to 20 ticks.
  function OnAir(from: Node, lora: Option<(int, int)>): Option<Signal> {
    if lora.Some? && 0 < lora.value.1 <= 20 then Some(Signal(from, lora.value.1, lora.value.0)) else None
  }

  // A new message from one node to another, field by field: its ticks are the per-hop delay times the hops, at most
  // 3000.
  ghost predicate Addressed(m: ActiveMsg, from: Node, to: Node, path: seq<string>, perHop: int, size: int,
          msgType: string) {
    && m.from == from.peerID && m.to == to.peerID && m.path == path && m.size == size && m.msgType == msgType
    && m.id == from.peerID[..8] + "-" + to.peerID[..8] && !m.collided
    && |m.acks| == |path| - 1 && (forall k :: 0 <= k < |m.acks| ==> !m.acks[k])
    && m.remaining == m.total == var ticks := perHop * (|path| - 1); if ticks > 3000 then 3000 else ticks
  }

  // A larger array with the same first n elements, as append makes when the capacity is used up.
  method Grown<T(0)>(a: array<T>, n: nat) returns (b: array<T>)
    requires n <= a.Length
    ensures fresh(b) && b.Length > n && b[..n] == a[..n]
  {
    b := new T[2 * n + 1];
    forall i | 0 <= i < n {
      b[i] := a[i];
    }
  }

  // The payout for one hop.
  method PayRelay(cfgOf: Node -> Config, all: seq<Node>, ghost known: set<Node>, id: string, bytes: real,
          multiplier: real)
    requires Chunked(cfgOf, all) && forall n :: n in all ==> n in known
    modifies known`relayBytesOut, known`balance, known`ewmaWork
    ensures BooksOf(known) == PaidOne(cfgOf, all, id, bytes, multiplier, old(BooksOf(known)))
  {
    ghost var books := BooksOf(known);
    for j := 0 to |all|
      invariant BooksOf(known) == books
      invariant forall m :: 0 <= m < j ==> all[m].peerID != id
    {
      if all[j].peerID == id {
        FirstPeerAt(all, id, j);
        all[j].AddRelayWork(cfgOf(all[j]), bytes, multiplier);
        assert BooksOf(known) == PaidOne(cfgOf, all, id, bytes, multiplier, books);
        return;
      }
    }
    assert FirstPeer(all, id).None?;
  }

  // The payouts for the inner hops of a path.
  method PayPath(cfgOf: Node -> Config, all: seq<Node>, ghost known: set<Node>, path: seq<string>, bytes: real,
          multiplier: real)
    requires |path| >= 2 && Chunked(cfgOf, all) && forall n :: n in all ==> n in known
    modifies known`relayBytesOut, known`balance, known`ewmaWork
    ensures BooksOf(known) == Paid(cfgOf, all, path, |path| - 1, bytes, multiplier, old(BooksOf(known)))
  {
    ghost var books := BooksOf(known);
    var i := 1;
    while i < |path| - 1
      invariant 1 <= i <= |path| - 1
      invariant BooksOf(known) == Paid(cfgOf, all, path, i, bytes, multiplier, books)
    {
      PayRelay(cfgOf, all, known, path[i], bytes, multiplier);
      i := i + 1;
    }
  }

  // The scan of the transmissions and messages in two arrays, against the state they belong to.
  method ScanArrays(cfg: Config, a: array<Transmission>, n: nat, b: array<ActiveMsg>, m: nat, ghost pre: Air,
          tick: int, ghost known: set<Node>)
    returns (kept: nat, collisions: nat)
    requires n <= a.Length && m <= b.Length && Tidy(pre) && pre.tick == tick - 1
    requires pre.txs == a[..n] && pre.msgs == b[..m] && SentByKnown(pre.txs, known)
    modifies a, b, known`failedCount, known`collidedCount
    ensures kept <= n
    ensures AfterScan(cfg, pre)
         == Air(tick, b[..m], a[..kept], pre.sent, pre.received, pre.failed + collisions, pre.collisions + collisions)
    ensures forall node :: node in known ==>
      && node.failedCount == old(node.failedCount) + Failures(cfg, tick, pre.txs, n, node)
      && node.collidedCount == old(node.collidedCount) + Struck(cfg, tick, pre.txs, n, node)
  {
    assert forall j :: 0 <= j < n ==> a[j] == pre.txs[j];
    kept, collisions := ScanInPlace(cfg, tick, a, n, b, m, known);
    ScannedParts(cfg, pre, b[..m], a[..kept], collisions);
  }

  class World {
    var nodes: seq<Node>
    var tick: int
    var totalSent: nat
    var totalReceived: nat
    var totalFailed: nat
    var totalCollisions: nat
    var totalTransfers: nat
    var msgs: array<ActiveMsg>
    var msgCount: nat
    var txs: array<Transmission>
    var txCount: nat
    ghost var known: set<Node>  // every node there has been

    ghost predicate Valid()
      reads this, msgs, txs
    {
      && msgCount <= msgs.Length && txCount <= txs.Length
      && AllWellFormed(msgs[..msgCount]) && AllSent(txs[..txCount])
      && (forall n :: n in nodes ==> n in known)
      && SentByKnown(txs[..txCount], known)
    }

    ghost function Air(): Air
      requires msgCount <= msgs.Length && txCount <= txs.Length
      reads this, msgs, txs
    {
      Traffic.Air(tick, msgs[..msgCount], txs[..txCount], totalSent, totalReceived, totalFailed, totalCollisions)
    }

    constructor (nodes: seq<Node>)
      ensures Valid() && Air() == START && this.nodes == nodes
      ensures fresh(msgs) && fresh(txs) && known == set n | n in nodes
    {
      this.nodes := nodes;
      tick, totalSent, totalReceived, totalFailed, totalCollisions, totalTransfers := 0, 0, 0, 0, 0, 0;
      msgs, msgCount := new ActiveMsg[0], 0;
      txs, txCount := new Transmission[0], 0;
      known := set n | n in nodes;
    }

    method CheckCollisions(cfg: Config)
      requires Valid()
      modifies this`txCount, this`totalCollisions, this`totalFailed, msgs, txs, known`failedCount, known`collidedCount
      ensures Valid() && tick == old(tick) && msgCount == old(msgCount)
      ensures Tidy(old(Air()))
      ensures Air() == AfterScan(cfg, old(Air()).(tick := tick - 1))
      ensures forall n :: n in known ==>
        && n.failedCount == old(n.failedCount) + Failures(cfg, tick, old(Air()).txs, old(txCount), n)
        && n.collidedCount == old(n.collidedCount) + Struck(cfg, tick, old(Air()).txs, old(txCount), n)
    {
      ghost var pre := Air().(tick := tick - 1);
      ScanKeepsTidy(cfg, pre, known);
      ScanBuffers(cfg);
    }

    // The scan on the buffers.
    method ScanBuffers(cfg: Config)
      requires msgCount <= msgs.Length && txCount <= txs.Length && Tidy(Air()) && SentByKnown(txs[..txCount], known)
      modifies this`txCount, this`totalCollisions, this`totalFailed, msgs, txs, known`failedCount, known`collidedCount
      ensures txCount <= txs.Length
      ensures Air() == AfterScan(cfg, old(Air()).(tick := tick - 1))
      ensures forall n :: n in known ==>
        && n.failedCount == old(n.failedCount) + Failures(cfg, tick, old(txs[..txCount]), old(txCount), n)
        && n.collidedCount == old(n.collidedCount) + Struck(cfg, tick, old(txs[..txCount]), old(txCount), n)
    {
      ghost var pre := Air().(tick := tick - 1);
      var kept, collisions := ScanArrays(cfg, txs, txCount, msgs, msgCount, pre, tick, known);
      assert pre.txs == old(txs[..txCount]) && |pre.txs| == old(txCount);
      txCount := kept;
      totalCollisions, totalFailed := totalCollisions + collisions, totalFailed + collisions;
    }

    method Deliver()
      requires Valid()
      modifies this`msgCount, this`totalReceived, msgs, (set n | n in nodes)`receivedCount,
          (set n | n in nodes)`fileReceived
      ensures Valid()
      ensures Tidy(old(Air())) && Air() == AfterPass(old(Air()))
      ensures forall n :: n in nodes ==>
        n.receivedCount == old(n.receivedCount) + ReceivedBy(nodes, old(Air()).msgs, n, false)
      ensures forall n :: n in nodes ==>
        n.fileReceived == old(n.fileReceived) + ReceivedBy(nodes, old(Air()).msgs, n, true)
    {
      ghost var before := msgs[..msgCount];
      var kept, received := DeliverInPlace(msgs, msgCount, nodes);
      InFlightTidy(before);
      msgCount, totalReceived := kept, totalReceived + received;
    }

    // The message part of one step of RunSteps.
    method StepMessages(cfg: Config)
      requires Valid()
      modifies this`tick, this`txCount, this`msgCount, this`totalCollisions, this`totalFailed, this`totalReceived
      modifies msgs, txs, known`failedCount, known`collidedCount, (set n | n in nodes)`receivedCount,
          (set n | n in nodes)`fileReceived
      ensures Valid()
      ensures Tidy(old(Air())) && Air() == Stepped(cfg, old(Air()))
      ensures forall n :: n in nodes ==>
        && n.receivedCount == old(n.receivedCount) + ReceivedBy(nodes, Scanned(cfg, old(Air())), n, false)
        && n.fileReceived == old(n.fileReceived) + ReceivedBy(nodes, Scanned(cfg, old(Air())), n, true)
    {
      ghost var before := Air();
      Scan(cfg);
      assert Air().msgs == Scanned(cfg, before);
      Deliver();
    }

    // The clock and the scan.
    method Scan(cfg: Config)
      requires Valid()
      modifies this`tick, this`txCount, this`totalCollisions, this`totalFailed, msgs, txs, known`failedCount,
          known`collidedCount
      ensures Valid() && msgCount == old(msgCount) && Tidy(old(Air())) && Air() == AfterScan(cfg, old(Air()))
    {
      ghost var before := Air();
      tick := tick + 1;
      assert Air().(tick := tick - 1) == before;
      CheckCollisions(cfg);
    }

    method AddTransmission(t: Transmission)
      requires Valid() && t.fromNode != null && t.fromNode in known
      modifies this`txs, this`txCount, txs
      ensures Valid() && (txs == old(txs) || fresh(txs))
      ensures Air() == old(Air()).(txs := old(Air()).txs + [t])
    {
      if txCount == txs.Length {
        txs := Grown(txs, txCount);
      }
      txs[txCount] := t;
      txCount := txCount + 1;
    }

    // What all four sending entry points do with the message sendMsg returned.
    method Post(m: ActiveMsg)
      requires Valid() && WellFormed(m)
      modifies this`msgs, this`msgCount, this`totalSent, msgs
      ensures Valid() && (msgs == old(msgs) || fresh(msgs))
      ensures Air() == old(Air()).(msgs := old(Air()).msgs + [m], sent := old(totalSent) + 1)
    {
      totalSent := totalSent + 1;
      if msgCount == msgs.Length {
        msgs := Grown(msgs, msgCount);
      }
      msgs[msgCount] := m;
      msgCount := msgCount + 1;
    }

    // The payouts to the relays of a path.
    method PayRelays(cfgOf: Node -> Config, path: seq<string>, bytes: real, multiplier: real)
      requires |path| >= 2 && Chunked(cfgOf, nodes)
      requires forall n :: n in nodes ==> n in known
      modifies known`relayBytesOut, known`balance, known`ewmaWork
      ensures BooksOf(known) == After(old(BooksOf(known)), RelayOps(cfgOf, nodes, path, |path| - 1, bytes, multiplier))
    {
      ghost var books := BooksOf(known);
      PayPath(cfgOf, nodes, known, path, bytes, multiplier);
      PaidIsAfter(cfgOf, nodes, path, |path| - 1, bytes, multiplier, books);
    }

    // sendMsg, given each node's configuration, the path found (with relays inserted; fewer than two entries when
    // there is none), the per-hop delay, the random emission, and on LoRa the spreading factor and airtime. None
    // when it is not sent, and then nothing changes.
    method SendMsg(cfgOf: Node -> Config, from: Node, to: Node, path: seq<string>, size: nat, msgType: string,
            perHop: int, emits: bool, lora: Option<(int, int)>, multiplier: real)
      returns (r: Option<ActiveMsg>)
      requires Valid() && from in known && Chunked(cfgOf, [from] + nodes) && perHop >= 1
      requires |path| >= 2 ==> path[0] == from.peerID && path[|path| - 1] == to.peerID
      modifies this`txs, this`txCount, txs, known`relayBytesOut, known`balance, known`ewmaWork
      ensures Valid() && (txs == old(txs) || fresh(txs)) && cfgOf(from).relayChunkSize > 0
      ensures r.Some? <==> from.online && to.online && |path| >= 2
                           && Charged(cfgOf(from), old(from.Books()), |path| - 2, size, emits).Some?
      ensures r.None? ==> Air() == old(Air()) && BooksOf(known) == old(BooksOf(known))
      ensures r.Some? ==> r.value == Fresh(MsgID(from, to), path, perHop, size, msgType, totalSent, tick)
      ensures r.Some? ==> r.value.from == from.peerID && r.value.to == to.peerID
      ensures r.Some? ==> Addressed(r.value, from, to, path, perHop, size, msgType)
      ensures r.Some? ==>
        Air() == old(Air()).(txs := WithSignal(old(Air()).txs, MsgID(from, to), OnAir(from, lora), tick, totalSent))
      ensures r.Some? ==>
        BooksOf(known) == After(old(BooksOf(known)), SendOps(cfgOf, from, nodes, path, size, emits, multiplier))
    {
      assert from in [from] + nodes;
      if !from.online || !to.online || |path| < 2 {
        return None;
      }
      var ok := Launch(cfgOf, from, to, path, size, emits, lora, multiplier);
      FreshIs(from, to, path, perHop, size, msgType, totalSent, tick);
      r := if ok then Some(Fresh(MsgID(from, to), path, perHop, size, msgType, totalSent, tick)) else None;
    }

    // The payment, and if it passes, the transmission and the payouts.
    method Launch(cfgOf: Node -> Config, from: Node, to: Node, path: seq<string>, size: nat, emits: bool,
            lora: Option<(int, int)>, multiplier: real)
      returns (ok: bool)
      requires Valid() && from in known && |path| >= 2 && cfgOf(from).relayChunkSize > 0
      requires Chunked(cfgOf, [from] + nodes)
      modifies this`txs, this`txCount, txs, known`relayBytesOut, known`balance, known`ewmaWork
      ensures Valid() && (txs == old(txs) || fresh(txs))
      ensures ok <==> Charged(cfgOf(from), old(from.Books()), |path| - 2, size, emits).Some?
      ensures !ok ==> Air() == old(Air()) && BooksOf(known) == old(BooksOf(known))
      ensures ok ==>
        Air() == old(Air()).(txs := WithSignal(old(Air()).txs, MsgID(from, to), OnAir(from, lora), tick, totalSent))
      ensures ok ==>
        BooksOf(known) == After(old(BooksOf(known)), SendOps(cfgOf, from, nodes, path, size, emits, multiplier))
    {
      ghost var books := BooksOf(known);
      ok := ChargeSender(cfgOf(from), from, |path| - 2, size, emits);
      if ok {
        ghost var charged := BooksOf(known);
        assert Chunked(cfgOf, nodes) by {
          assert forall n :: n in nodes ==> n in [from] + nodes;
        }
        Dispatch(cfgOf, from, to, path, size, lora, multiplier);
        ChargeThenPay(cfgOf, from, nodes, path, size, emits, multiplier, books, charged, BooksOf(known));
      }
    }

    method ChargeSender(cfg: Config, from: Node, relays: nat, size: nat, emits: bool) returns (ok: bool)
      requires from in known && cfg.relayChunkSize > 0
      modifies known`balance, known`ewmaWork
      ensures ok <==> Charged(cfg, old(from.Books()), relays, size, emits).Some?
      ensures ok ==> BooksOf(known) == Applied(old(BooksOf(known)), Op.Send(from, cfg, relays, size, emits))
      ensures !ok ==> BooksOf(known) == old(BooksOf(known))
    {
      ok := from.Charge(cfg, relays, size, emits);
    }

    // The transmission of a LoRa message.
    method Emit(from: Node, to: Node, lora: Option<(int, int)>)
      requires Valid() && from in known
      modifies this`txs, this`txCount, txs
      ensures Valid() && (txs == old(txs) || fresh(txs)) && BooksOf(known) == old(BooksOf(known))
      ensures Air()
           == old(Air()).(txs := WithSignal(old(Air()).txs, MsgID(from, to), OnAir(from, lora), tick, totalSent))
    {
      if lora.Some? && 0 < lora.value.1 <= 20 {
        AddTransmission(Transmission(MsgID(from, to), from, tick, tick + lora.value.1, lora.value.0, totalSent));
      }
    }

    // The transmission of a LoRa message and the payouts to its relays.
    method Dispatch(cfgOf: Node -> Config, from: Node, to: Node, path: seq<string>, size: nat,
            lora: Option<(int, int)>, multiplier: real)
      requires Valid() && from in known && |path| >= 2 && Chunked(cfgOf, nodes)
      modifies this`txs, this`txCount, txs, known`relayBytesOut, known`balance, known`ewmaWork
      ensures Valid() && (txs == old(txs) || fresh(txs))
      ensures Air()
           == old(Air()).(txs := WithSignal(old(Air()).txs, MsgID(from, to), OnAir(from, lora), tick, totalSent))
      ensures BooksOf(known)
           == After(old(BooksOf(known)), RelayOps(cfgOf, nodes, path, |path| - 1, size as real, multiplier))
    {
      Emit(from, to, lora);
      PayRelays(cfgOf, path, size as real, multiplier);
    }

    // The message of a draft whose signal is already on the air.
    method PostDraft(ghost before: Air, ghost d: Draft, m: ActiveMsg)
      requires Valid() && Sendable(d) && m == Fresh(d.id, d.path, d.perHop, d.size, d.msgType, before.sent, before.tick)
      requires Air() == before.(txs := WithSignal(before.txs, d.id, d.signal, before.tick, before.sent))
      modifies this`msgs, this`msgCount, this`totalSent, msgs
      ensures Valid() && Air() == Posted(before, d) && BooksOf(known) == old(BooksOf(known))
    {
      ghost var aired := Air();
      FreshIsProgressed(d.id, d.path, d.perHop, d.size, d.msgType, before.sent, before.tick);
      Post(m);
      PostedParts(before, d, aired, Air(), m);
    }

    // A send from any of the four entry points: sendMsg, and if it went out, the message joins the active ones.
    method Send(cfgOf: Node -> Config, from: Node, to: Node, path: seq<string>, size: nat, msgType: string,
            perHop: int, emits: bool, lora: Option<(int, int)>, multiplier: real)
      returns (sent: bool)
      requires Valid() && from in known && Chunked(cfgOf, [from] + nodes) && perHop >= 1
      requires |path| >= 2 ==> path[0] == from.peerID && path[|path| - 1] == to.peerID
      modifies this`txs, this`txCount, this`msgs, this`msgCount, this`totalSent, txs, msgs
      modifies known`relayBytesOut, known`balance, known`ewmaWork
      ensures Valid() && cfgOf(from).relayChunkSize > 0
      ensures sent <==> from.online && to.online && |path| >= 2
                        && Charged(cfgOf(from), old(from.Books()), |path| - 2, size, emits).Some?
      ensures sent ==>
        Air() == Posted(old(Air()), Draft(MsgID(from, to), path, perHop, size, msgType, OnAir(from, lora)))
      ensures sent ==>
        BooksOf(known) == After(old(BooksOf(known)), SendOps(cfgOf, from, nodes, path, size, emits, multiplier))
      ensures !sent ==> Air() == old(Air()) && BooksOf(known) == old(BooksOf(known))
    {
      ghost var before := Air();
      var m := SendMsg(cfgOf, from, to, path, size, msgType, perHop, emits, lora, multiplier);
      sent := m.Some?;
      if sent {
        PostDraft(before, Draft(MsgID(from, to), path, perHop, size, msgType, OnAir(from, lora)), m.value);
      }
    }

    // Not a receiver nd could pick, judged before the transfer.
    twostate predicate Unfit(t: Node, nd: Node) {
      t == nd || old(t.balance) >= 10.0
    }

    // One user transfer: up to ten random candidates for a poor receiver, then the move if a path exists.
    method TryTransfer(nd: Node, tries: seq<Node>, u: real, linked: bool) returns (to: Option<Node>)
      requires nd in known && 0.0 <= u < 1.0 && forall t :: t in tries ==> t in known
      modifies this`totalTransfers, known`balance
      ensures to.Some? <==> linked && old(nd.balance) > 50.0
                            && exists t :: t in tries && t != nd && old(t.balance) < 10.0
      ensures to.Some? ==> to.value in tries && to.value != nd && Eligible(old(nd.balance), old(to.value.balance), u)
      ensures to.Some? ==>
        exists k :: 0 <= k < |tries| && tries[k] == to.value && forall j :: 0 <= j < k ==> Unfit(tries[j], nd)
      ensures to.Some? ==> BooksOf(known) == Applied(old(BooksOf(known)), Transfer(nd, to.value, u))
                           && totalTransfers == old(totalTransfers) + 1
      ensures to.None? ==> BooksOf(known) == old(BooksOf(known)) && totalTransfers == old(totalTransfers)
    {
      if nd.balance <= 50.0 {
        return None;
      }
      var target: Option<Node> := None;
      for i := 0 to |tries|
        invariant target.None?
        invariant forall j :: 0 <= j < i ==> tries[j] == nd || tries[j].balance >= 10.0
      {
        if tries[i] != nd && tries[i].balance < 10.0 {
          target := Some(tries[i]);
          assert tries[i] in tries;
          break;
        }
      }
      if target.None? {
        return None;
      }
      AmountBounds(nd.balance, u);
      var amount := nd.balance * (0.1 + u * 0.2);
      if amount < 1.0 {
        return None;
      }
      if !linked {
        return None;
      }
      ghost var books := BooksOf(known);
      nd.balance := nd.balance - amount;
      target.value.balance := target.value.balance + amount;
      totalTransfers := totalTransfers + 1;
      MovedBooks(books, BooksOf(known), nd, target.value, u);
      return target;
    }
  }

  lemma FreshIs(from: Node, to: Node, path: seq<string>, perHop: int, size: int, msgType: string, serial: nat, now: int)
    requires perHop >= 1 && |path| >= 2 && path[0] == from.peerID && path[|path| - 1] == to.peerID
    ensures Addressed(Fresh(MsgID(from, to), path, perHop, size, msgType, serial, now), from, to, path, perHop, size,
        msgType)
  {
    MulAtLeast(perHop, |path| - 1);
  }

  // The transmission of a new message, field by field: only for an airtime of 1 to 20 ticks, from this tick on.
  lemma SignalIs(txs: seq<Transmission>, id: string, from: Node, lora: Option<(int, int)>, now: int, serial: nat)
    ensures WithSignal(txs, id, OnAir(from, lora), now, serial)
         == txs + if lora.Some? && 0 < lora.value.1 <= 20
                  then [Transmission(id, from, now, now + lora.value.1, lora.value.0, serial)] else []
  {
  }

  // The signal on the air and then the message among the active ones: together the post of a draft.
  lemma PostedParts(a: Air, d: Draft, aired: Air, after: Air, m: ActiveMsg)
    requires Sendable(d) && m == Fresh(d.id, d.path, d.perHop, d.size, d.msgType, a.sent, a.tick)
    requires aired == a.(txs := WithSignal(a.txs, d.id, d.signal, a.tick, a.sent))
    requires after == aired.(msgs := aired.msgs + [m], sent := aired.sent + 1)
    ensures after == Posted(a, d)
  {
  }

  ghost predicate SentByKnown(all: seq<Transmission>, known: set<Node>) {
    forall i :: 0 <= i < |all| ==> all[i].fromNode in known
  }

  // The state after a scan, part by part.
  lemma ScannedParts(cfg: Config, a: Air, marked: seq<ActiveMsg>, left: seq<Transmission>, hits: nat)
    requires Tidy(a) && hits == 2 * Drops(cfg, a.tick + 1, a.txs, |a.txs|)
    requires marked == AllMarked(a.msgs, Marks(cfg, a.tick + 1, a.txs, |a.txs|))
    requires left == Survivors(cfg, a.tick + 1, a.txs, |a.txs|)
    ensures AfterScan(cfg, a) == Air(a.tick + 1, marked, left, a.sent, a.received, a.failed + hits, a.collisions + hits)
  {
    ScannedIs(cfg, a);
    ScannedWith(cfg, a, marked, left, hits);
  }

  lemma ScannedWith(cfg: Config, a: Air, marked: seq<ActiveMsg>, left: seq<Transmission>, hits: nat)
    requires Tidy(a) && hits == 2 * Drops(cfg, a.tick + 1, a.txs, |a.txs|)
    requires marked == Scanned(cfg, a) && left == Survivors(cfg, a.tick + 1, a.txs, |a.txs|)
    ensures AfterScan(cfg, a) == Air(a.tick + 1, marked, left, a.sent, a.received, a.failed + hits, a.collisions + hits)
  {
  }

  // A scan leaves a tidy list of transmissions of known nodes.
  lemma ScanKeepsTidy(cfg: Config, a: Air, known: set<Node>)
    requires Tidy(a) && SentByKnown(a.txs, known)
    ensures Tidy(AfterScan(cfg, a)) && SentByKnown(AfterScan(cfg, a).txs, known)
  {
    var n := |a.txs|;
    var s := Survivors(cfg, a.tick + 1, a.txs, n);
    forall i | 0 <= i < |s|
      ensures s[i].fromNode != null && s[i].fromNode in known
    {
      var k := SurvivorOrigin(cfg, a.tick + 1, a.txs, n, i);
    }
  }

  lemma MovedBooks(books: Books<Node>, after: Books<Node>, nd: Node, to: Node, u: real)
    requires nd in books && to in books && nd != to && Eligible(books[nd].balance, books[to].balance, u)
    requires after.Keys == books.Keys
    requires after[nd] == books[nd].(balance := books[nd].balance - Amount(books[nd].balance, u))
    requires after[to] == books[to].(balance := books[to].balance + Amount(books[nd].balance, u))
    requires forall n :: n in books && n != nd && n != to ==> after[n] == books[n]
    ensures after == Applied(books, Transfer(nd, to, u))
  {
  }

  lemma {:induction false} InFlightTidy(msgs: seq<ActiveMsg>)
    requires AllWellFormed(msgs)
    ensures AllWellFormed(InFlight(msgs))
  {
    if msgs != [] {
      InFlightTidy(msgs[..|msgs| - 1]);
    }
  }
}
