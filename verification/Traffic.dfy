// Whole histories of the message traffic in simulation/world.go: steps (collision scan, then delivery pass)
// interleaved in any way with sends, and the fate of every message.
module Traffic {
  import opened Prelude
  import opened Ledger
  import opened MeshNode
  import opened Messages
  import opened Airwaves

  datatype Air = Air(tick: int, msgs: seq<ActiveMsg>, txs: seq<Transmission>,
                     sent: nat, received: nat, failed: nat, collisions: nat)

  predicate Tidy(a: Air) {
    AllWellFormed(a.msgs) && AllSent(a.txs)
  }

  // The messages after the collision scan of the next tick.
  function Scanned(cfg: Config, a: Air): (r: seq<ActiveMsg>)
    requires Tidy(a)
    ensures AllWellFormed(r) && OnlyMarked(a.msgs, r)
  {
    var ids := Marks(cfg, a.tick + 1, a.txs, |a.txs|);
    MarksOnly(a.msgs, ids);
    AllMarked(a.msgs, ids)
  }

  lemma ScannedIs(cfg: Config, a: Air)
    requires Tidy(a)
    ensures Scanned(cfg, a) == AllMarked(a.msgs, Marks(cfg, a.tick + 1, a.txs, |a.txs|))
  {
  }

  // The clock and the collision scan.
  function AfterScan(cfg: Config, a: Air): Air
    requires Tidy(a)
  {
    var n := a.tick + 1;
    var hits := 2 * Drops(cfg, n, a.txs, |a.txs|);
    Air(n, Scanned(cfg, a), Survivors(cfg, n, a.txs, |a.txs|), a.sent, a.received, a.failed + hits, a.collisions + hits)
  }

  // The delivery pass.
  function AfterPass(a: Air): Air
    requires AllWellFormed(a.msgs)
  {
    a.(msgs := InFlight(a.msgs), received := a.received + |Arrivals(a.msgs)|)
  }

  function Stepped(cfg: Config, a: Air): Air
    requires Tidy(a)
  {
    AfterPass(AfterScan(cfg, a))
  }

  // A LoRa transmission about to start: its sender, its airtime and its spreading factor.
  datatype Signal = Signal(fromNode: Node, airTicks: int, sf: int)

  // What is sent: the message, and on LoRa its signal.
  datatype Draft = Draft(id: string, path: seq<string>, perHop: int, size: int, msgType: string, signal: Option<Signal>)

  predicate Sendable(d: Draft) {
    d.perHop >= 1 && |d.path| >= 2 && (d.signal.Some? ==> 0 < d.signal.value.airTicks <= 20)
  }

  function Aired(id: string, s: Signal, now: int, serial: nat): Transmission {
    Transmission(id, s.fromNode, now, now + s.airTicks, s.sf, serial)
  }

  function WithSignal(txs: seq<Transmission>, id: string, s: Option<Signal>, now: int, serial: nat): seq<Transmission> {
    if s.Some? then txs + [Aired(id, s.value, now, serial)] else txs
  }

  function Posted(a: Air, d: Draft): Air
    requires Sendable(d)
  {
    a.(msgs := a.msgs + [Fresh(d.id, d.path, d.perHop, d.size, d.msgType, a.sent, a.tick)],
       txs := WithSignal(a.txs, d.id, d.signal, a.tick, a.sent),
       sent := a.sent + 1)
  }

  datatype Event = Step(cfg: Config) | Post(draft: Draft)

  predicate Possible(e: Event) {
    e.Post? ==> Sendable(e.draft)
  }

  predicate AllPossible(es: seq<Event>) {
    forall i :: 0 <= i < |es| ==> Possible(es[i])
  }

  const START := Air(0, [], [], 0, 0, 0, 0)

  // ---------- One step keeps the state tidy ----------

  lemma {:induction false} InFlightKept(msgs: seq<ActiveMsg>, now: int)
    requires AllWellFormed(msgs)
    requires forall i :: 0 <= i < |msgs| ==> OnTime(msgs[i], now - 1)
    ensures AllWellFormed(InFlight(msgs))
    ensures forall i :: 0 <= i < |InFlight(msgs)| ==> !InFlight(msgs)[i].collided && OnTime(InFlight(msgs)[i], now)
    ensures forall i :: 0 <= i < |Arrivals(msgs)| ==>
      var m := Arrivals(msgs)[i]; !m.collided && m.sentAt + m.total == now
    ensures forall i :: 0 <= i < |Losses(msgs)| ==>
      var m := Losses(msgs)[i]; m.collided && m.sentAt < now <= m.sentAt + m.total
  {
    if msgs != [] {
      InFlightKept(msgs[..|msgs| - 1], now);
    }
  }

  // Sent no later than now, with the ticks remaining that are left until its due time.
  predicate OnTime(m: ActiveMsg, now: int) {
    m.sentAt <= now && m.remaining == m.sentAt + m.total - now
  }

  lemma SurvivorsSent(cfg: Config, a: Air)
    requires Tidy(a)
    ensures AllSent(Stepped(cfg, a).txs)
  {
    SurvivorsDoNotConflict(cfg, a.tick + 1, a.txs, |a.txs|);
  }

  // ---------- Logs of a history ----------

  datatype Receipt = Receipt(msg: ActiveMsg, tick: int)

  function Receipts(msgs: seq<ActiveMsg>, tick: int): (r: seq<Receipt>)
    ensures |r| == |msgs| && forall i :: 0 <= i < |msgs| ==> r[i] == Receipt(msgs[i], tick)
  {
    seq(|msgs|, i requires 0 <= i < |msgs| => Receipt(msgs[i], tick))
  }

  // The state after a history, with the messages delivered and lost on the way.
  datatype History = History(air: Air, delivered: seq<Receipt>, lost: seq<Receipt>)

  function Extended(h: History, e: Event): History
    requires Tidy(h.air) && Possible(e)
  {
    match e
    case Step(cfg) =>
      var msgs := Scanned(cfg, h.air);
      History(Stepped(cfg, h.air),
              h.delivered + Receipts(Arrivals(msgs), h.air.tick + 1),
              h.lost + Receipts(Losses(msgs), h.air.tick + 1))
    case Post(d) => h.(air := Posted(h.air, d))
  }

  // ---------- What every history keeps ----------

  // How many messages, or receipts, carry a serial.
  function CountOf(msgs: seq<ActiveMsg>, serial: nat): nat {
    if msgs == [] then 0 else
    CountOf(msgs[..|msgs| - 1], serial) + if msgs[|msgs| - 1].serial == serial then 1 else 0
  }

  function ReceiptsOf(rs: seq<Receipt>, serial: nat): nat {
    if rs == [] then 0 else
    ReceiptsOf(rs[..|rs| - 1], serial) + if rs[|rs| - 1].msg.serial == serial then 1 else 0
  }

  ghost predicate Timely(h: History) {
    && (forall i :: 0 <= i < |h.air.msgs| ==> !h.air.msgs[i].collided && OnTime(h.air.msgs[i], h.air.tick))
    && (forall i :: 0 <= i < |h.delivered| ==>
          var r := h.delivered[i]; !r.msg.collided && r.tick == r.msg.sentAt + r.msg.total)
    && (forall i :: 0 <= i < |h.lost| ==>
          var r := h.lost[i]; r.msg.collided && r.msg.sentAt < r.tick <= r.msg.sentAt + r.msg.total)
  }

  ghost predicate Balanced(h: History) {
    && h.air.failed == h.air.collisions
    && |h.delivered| == h.air.received
    && |h.lost| <= h.air.collisions
    && |h.air.msgs| + |h.delivered| + |h.lost| == h.air.sent
  }

  // Every serial below the number sent is in flight, delivered or lost once in all.
  ghost predicate Accounted(h: History) {
    AccountedIn(h.air.msgs, h.delivered, h.lost, h.air.sent)
  }

  ghost predicate AccountedIn(msgs: seq<ActiveMsg>, delivered: seq<Receipt>, lost: seq<Receipt>, sent: nat) {
    forall s: nat :: CountOf(msgs, s) + ReceiptsOf(delivered, s) + ReceiptsOf(lost, s) == if s < sent then 1 else 0
  }

  // The pass splits the messages into in flight, delivered and lost.
  lemma {:induction false} PassPartitions(msgs: seq<ActiveMsg>, s: nat)
    requires AllWellFormed(msgs)
    ensures CountOf(InFlight(msgs), s) + CountOf(Arrivals(msgs), s) + CountOf(Losses(msgs), s) == CountOf(msgs, s)
  {
    if msgs != [] {
      var p, m := msgs[..|msgs| - 1], msgs[|msgs| - 1];
      PassPartitions(p, s);
      CountAppend(InFlight(p), Advanced(m), s);
      CountAppend(Arrivals(p), Advanced(m), s);
      CountAppend(Losses(p), m, s);
    }
  }

  lemma {:induction false} PassLengths(msgs: seq<ActiveMsg>)
    requires AllWellFormed(msgs)
    ensures |InFlight(msgs)| + |Arrivals(msgs)| + |Losses(msgs)| == |msgs|
  {
    if msgs != [] {
      PassLengths(msgs[..|msgs| - 1]);
    }
  }

  lemma CountAppend(msgs: seq<ActiveMsg>, m: ActiveMsg, s: nat)
    ensures CountOf(msgs + [m], s) == CountOf(msgs, s) + if m.serial == s then 1 else 0
  {
  }

  lemma {:induction false} SameCount(a: seq<ActiveMsg>, b: seq<ActiveMsg>, s: nat)
    requires |a| == |b| && forall i :: 0 <= i < |a| ==> b[i].serial == a[i].serial
    ensures CountOf(a, s) == CountOf(b, s)
  {
    if a != [] {
      SameCount(a[..|a| - 1], b[..|b| - 1], s);
    }
  }

  lemma {:induction false} ReceiptsAppend(rs: seq<Receipt>, msgs: seq<ActiveMsg>, tick: int, s: nat)
    ensures ReceiptsOf(rs + Receipts(msgs, tick), s) == ReceiptsOf(rs, s) + CountOf(msgs, s)
  {
    if msgs == [] {
      assert rs + Receipts(msgs, tick) == rs;
    } else {
      var p, all := msgs[..|msgs| - 1], rs + Receipts(msgs, tick);
      ReceiptsAppend(rs, p, tick, s);
      assert all[..|all| - 1] == rs + Receipts(p, tick);
      assert all[|all| - 1] == Receipt(msgs[|msgs| - 1], tick);
    }
  }

  // Marking one id loses at most one more message.
  lemma {:induction false} LossesOfUpdate(msgs: seq<ActiveMsg>, k: nat, m: ActiveMsg)
    requires k < |msgs|
    ensures |Losses(msgs[k := m])| <= |Losses(msgs)| + 1
  {
    if k < |msgs| - 1 {
      assert msgs[k := m][..|msgs| - 1] == msgs[..|msgs| - 1][k := m];
      LossesOfUpdate(msgs[..|msgs| - 1], k, m);
    } else {
      assert msgs[k := m][..|msgs| - 1] == msgs[..|msgs| - 1];
    }
  }

  lemma LossesOfMark(msgs: seq<ActiveMsg>, id: string)
    ensures |Losses(Marked(msgs, id))| <= |Losses(msgs)| + 1
  {
    var k := FirstWithId(msgs, id);
    if k < |msgs| {
      LossesOfUpdate(msgs, k, msgs[k].(collided := true));
    }
  }

  lemma {:induction false} LossesOfMarks(msgs: seq<ActiveMsg>, marks: seq<(string, string)>)
    ensures |Losses(AllMarked(msgs, marks))| <= |Losses(msgs)| + 2 * |marks|
  {
    if marks != [] {
      var before, last := AllMarked(msgs, marks[..|marks| - 1]), marks[|marks| - 1];
      LossesOfMarks(msgs, marks[..|marks| - 1]);
      LossesOfMark(before, last.0);
      LossesOfMark(Marked(before, last.0), last.1);
    }
  }

  lemma {:induction false} NoLosses(msgs: seq<ActiveMsg>)
    requires forall i :: 0 <= i < |msgs| ==> !msgs[i].collided
    ensures Losses(msgs) == []
  {
    if msgs != [] {
      NoLosses(msgs[..|msgs| - 1]);
    }
  }

  lemma StepKeepsTidy(cfg: Config, a: Air)
    requires Tidy(a) && forall i :: 0 <= i < |a.msgs| ==> OnTime(a.msgs[i], a.tick)
    ensures Tidy(Stepped(cfg, a))
  {
    SurvivorsSent(cfg, a);
    InFlightKept(Scanned(cfg, a), a.tick + 1);
  }

  lemma StepKeepsTimely(cfg: Config, h: History)
    requires Tidy(h.air) && Timely(h)
    ensures Timely(Extended(h, Step(cfg)))
  {
    var msgs, now := Scanned(cfg, h.air), h.air.tick + 1;
    InFlightKept(msgs, now);
  }

  // A scan loses at most two messages for each collision.
  lemma ScanLoses(msgs: seq<ActiveMsg>, marks: seq<(string, string)>)
    requires forall i :: 0 <= i < |msgs| ==> !msgs[i].collided
    ensures |Losses(AllMarked(msgs, marks))| <= 2 * |marks|
  {
    NoLosses(msgs);
    LossesOfMarks(msgs, marks);
  }

  lemma ScannedLengths(cfg: Config, a: Air)
    requires Tidy(a)
    ensures var msgs := Scanned(cfg, a); |InFlight(msgs)| + |Arrivals(msgs)| + |Losses(msgs)| == |a.msgs|
  {
    PassLengths(Scanned(cfg, a));
  }

  lemma ScannedLosses(cfg: Config, a: Air)
    requires Tidy(a) && forall i :: 0 <= i < |a.msgs| ==> !a.msgs[i].collided
    ensures |Losses(Scanned(cfg, a))| <= 2 * Drops(cfg, a.tick + 1, a.txs, |a.txs|)
  {
    ScanLoses(a.msgs, Marks(cfg, a.tick + 1, a.txs, |a.txs|));
  }

  lemma StepKeepsBalanced(cfg: Config, h: History)
    requires Tidy(h.air) && Timely(h) && Balanced(h)
    ensures Balanced(Extended(h, Step(cfg)))
  {
    ScannedLengths(cfg, h.air);
    ScannedLosses(cfg, h.air);
  }

  lemma PassKeepsAccounted(before: seq<ActiveMsg>, msgs: seq<ActiveMsg>, delivered: seq<Receipt>, lost: seq<Receipt>,
          now: int, sent: nat)
    requires AllWellFormed(msgs) && OnlyMarked(before, msgs)
    requires AccountedIn(before, delivered, lost, sent)
    ensures AccountedIn(InFlight(msgs), delivered + Receipts(Arrivals(msgs), now),
                        lost + Receipts(Losses(msgs), now), sent)
  {
    forall s: nat
      ensures CountOf(InFlight(msgs), s) + ReceiptsOf(delivered + Receipts(Arrivals(msgs), now), s)
                + ReceiptsOf(lost + Receipts(Losses(msgs), now), s)
           == if s < sent then 1 else 0
    {
      SameCount(before, msgs, s);
      PassPartitions(msgs, s);
      ReceiptsAppend(delivered, Arrivals(msgs), now, s);
      ReceiptsAppend(lost, Losses(msgs), now, s);
    }
  }

  lemma StepKeepsAccounted(cfg: Config, h: History)
    requires Tidy(h.air) && Accounted(h)
    ensures Accounted(Extended(h, Step(cfg)))
  {
    PassKeepsAccounted(h.air.msgs, Scanned(cfg, h.air), h.delivered, h.lost, h.air.tick + 1, h.air.sent);
  }

  // In flight and delivered, the ACKs are what the progress of the message says.
  ghost predicate Acknowledged(h: History) {
    && (forall i :: 0 <= i < |h.air.msgs| ==> AckState(h.air.msgs[i]))
    && (forall i :: 0 <= i < |h.delivered| ==> AckState(h.delivered[i].msg) && h.delivered[i].msg.remaining == 0)
  }

  lemma {:induction false} PassKeepsAcks(msgs: seq<ActiveMsg>)
    requires AllWellFormed(msgs) && forall i :: 0 <= i < |msgs| ==> AckState(msgs[i])
    ensures forall i :: 0 <= i < |InFlight(msgs)| ==> AckState(InFlight(msgs)[i])
    ensures forall i :: 0 <= i < |Arrivals(msgs)| ==> AckState(Arrivals(msgs)[i]) && Arrivals(msgs)[i].remaining == 0
  {
    if msgs != [] {
      PassKeepsAcks(msgs[..|msgs| - 1]);
      AdvancedAckState(msgs[|msgs| - 1]);
    }
  }

  lemma MarksKeepAcks(a: seq<ActiveMsg>, b: seq<ActiveMsg>)
    requires OnlyMarked(a, b) && forall i :: 0 <= i < |a| ==> AckState(a[i])
    ensures forall i :: 0 <= i < |b| ==> AckState(b[i])
  {
  }

  lemma StepKeepsAcknowledged(cfg: Config, h: History)
    requires Tidy(h.air) && Acknowledged(h)
    ensures Acknowledged(Extended(h, Step(cfg)))
  {
    var msgs := Scanned(cfg, h.air);
    MarksKeepAcks(h.air.msgs, msgs);
    PassKeepsAcks(msgs);
  }

  // What every history keeps.
  ghost predicate Consistent(h: History) {
    Tidy(h.air) && Timely(h) && Balanced(h) && Accounted(h) && Acknowledged(h)
  }

  lemma StepKeepsConsistent(cfg: Config, h: History)
    requires Consistent(h)
    ensures Consistent(Extended(h, Step(cfg)))
  {
    StepKeepsTidy(cfg, h.air);
    StepKeepsTimely(cfg, h);
    StepKeepsBalanced(cfg, h);
    StepKeepsAccounted(cfg, h);
    StepKeepsAcknowledged(cfg, h);
  }

  lemma PostKeepsConsistent(d: Draft, h: History)
    requires Consistent(h) && Sendable(d)
    ensures Consistent(Extended(h, Post(d)))
  {
    var a, h' := h.air, Extended(h, Post(d));
    var m := Fresh(d.id, d.path, d.perHop, d.size, d.msgType, a.sent, a.tick);
    FreshIsProgressed(d.id, d.path, d.perHop, d.size, d.msgType, a.sent, a.tick);
    FreshAckState(d.id, d.path, d.perHop, d.size, d.msgType, a.sent, a.tick);
    forall s: nat
      ensures CountOf(h'.air.msgs, s) + ReceiptsOf(h'.delivered, s) + ReceiptsOf(h'.lost, s)
           == if s < h'.air.sent then 1 else 0
    {
      CountAppend(a.msgs, m, s);
    }
  }

  // The histories: from the empty start, one event after the other.
  ghost predicate IsHistory(hs: seq<History>, es: seq<Event>) {
    && |hs| == |es| + 1
    && AllPossible(es)
    && hs[0] == History(START, [], [])
    && forall i :: 0 <= i < |es| ==> Tidy(hs[i].air) && hs[i + 1] == Extended(hs[i], es[i])
  }

  lemma {:induction false} HistoriesAreSound(hs: seq<History>, es: seq<Event>, n: nat)
    requires IsHistory(hs, es) && n <= |es|
    ensures Consistent(hs[n])
  {
    if n > 0 {
      var h, e := hs[n - 1], es[n - 1];
      HistoriesAreSound(hs, es, n - 1);
      assert hs[n - 1 + 1] == Extended(h, e) && Possible(e);
      if e.Step? {
        StepKeepsConsistent(e.cfg, h);
      } else {
        PostKeepsConsistent(e.draft, h);
      }
    }
  }

  // So no history gets stuck: it can always be extended by any possible event.
  lemma HistoryExtends(hs: seq<History>, es: seq<Event>, e: Event)
    requires IsHistory(hs, es) && Possible(e)
    ensures Tidy(hs[|es|].air) && IsHistory(hs + [Extended(hs[|es|], e)], es + [e])
  {
    HistoriesAreSound(hs, es, |es|);
    var h, hs', es' := hs[|es|], hs + [Extended(hs[|es|], e)], es + [e];
    forall i | 0 <= i < |es'|
      ensures Possible(es'[i]) && Tidy(hs'[i].air) && hs'[i + 1] == Extended(hs'[i], es'[i])
    {
      if i < |es| {
        assert Possible(es[i]) && hs'[i] == hs[i] && hs'[i + 1] == hs[i + 1];
      }
    }
  }

  // ---------- The main results ----------

  // Over any history the counters balance: nothing received or in flight was not sent, and what is missing is
  // covered by the collisions.
  lemma CountersBalance(hs: seq<History>, es: seq<Event>)
    requires IsHistory(hs, es)
    ensures var a := hs[|es|].air;
      && a.received + |a.msgs| <= a.sent <= a.received + |a.msgs| + a.collisions
      && a.failed == a.collisions
  {
    HistoriesAreSound(hs, es, |es|);
  }

  // Every message sent has exactly one fate, and nothing that was not sent has any.
  lemma EveryMessageHasOneFate(hs: seq<History>, es: seq<Event>, serial: nat)
    requires IsHistory(hs, es)
    ensures var h := hs[|es|];
      CountOf(h.air.msgs, serial) + ReceiptsOf(h.delivered, serial) + ReceiptsOf(h.lost, serial)
      == if serial < h.air.sent then 1 else 0
  {
    HistoriesAreSound(hs, es, |es|);
  }

  // A message still in flight is not yet due; a delivered one was never marked and came in exactly total ticks
  // after it was sent; a lost one had been marked and went no later than that.
  lemma FatesAreTimely(hs: seq<History>, es: seq<Event>)
    requires IsHistory(hs, es)
    ensures var h := hs[|es|];
      && (forall i :: 0 <= i < |h.air.msgs| ==>
            var m := h.air.msgs[i]; !m.collided && m.sentAt <= h.air.tick < m.sentAt + m.total)
      && (forall i :: 0 <= i < |h.delivered| ==>
            var r := h.delivered[i]; !r.msg.collided && r.tick == r.msg.sentAt + r.msg.total)
      && (forall i :: 0 <= i < |h.lost| ==>
            var r := h.lost[i]; r.msg.collided && r.msg.sentAt < r.tick <= r.msg.sentAt + r.msg.total)
  {
    HistoriesAreSound(hs, es, |es|);
  }

  // Over any history a delivered message has every hop acknowledged exactly when it has at most 3000 hops.
  lemma DeliveredMeansAcknowledged(hs: seq<History>, es: seq<Event>, i: nat)
    requires IsHistory(hs, es) && i < |hs[|es|].delivered|
    ensures var m := hs[|es|].delivered[i].msg;
      (forall k :: 0 <= k < |m.acks| ==> m.acks[k]) <==> |m.path| - 1 <= MAX_TICKS
  {
    HistoriesAreSound(hs, es, |es|);
    ArrivedAcks(hs[|es|].delivered[i].msg);
  }

  // ---------- The collision rate ----------

  function CollisionRate(a: Air): real {
    if a.sent == 0 then 0.0 else a.collisions as real / a.sent as real
  }

  // Every transmission but the last one on the air can still be charged two collisions.
  ghost predicate Bounded(a: Air) {
    if a.sent == 0 then a.collisions == 0 && a.txs == []
    else a.collisions + 2 * |a.txs| <= 2 * a.sent && a.collisions + 2 <= 2 * a.sent
  }

  lemma {:induction false} NoneLive(cfg: Config, tick: int, txs: seq<Transmission>, n: nat)
    requires AllSent(txs) && n <= |txs| && forall k :: 0 <= k < |txs| ==> !Live(txs[k], tick)
    ensures Drops(cfg, tick, txs, n) == 0 && Survivors(cfg, tick, txs, n) == []
  {
    if n > 0 {
      NoneLive(cfg, tick, txs, n - 1);
    }
  }

  lemma {:induction false} LiveAtMost(tick: int, txs: seq<Transmission>)
    ensures LiveCount(tick, txs) <= |txs|
  {
    if txs != [] {
      LiveAtMost(tick, txs[..|txs| - 1]);
    }
  }

  lemma {:induction false} LastLive(tick: int, txs: seq<Transmission>, n: nat) returns (k: int)
    requires n <= |txs|
    ensures -1 <= k < n && (k >= 0 ==> Live(txs[k], tick)) && forall j :: k < j < n ==> !Live(txs[j], tick)
  {
    k := n - 1;
    if n > 0 && !Live(txs[n - 1], tick) {
      k := LastLive(tick, txs, n - 1);
    }
  }

  // A scan counts no collision, or leaves a transmission on the air.
  lemma ScanLeavesOne(cfg: Config, tick: int, txs: seq<Transmission>)
    requires AllSent(txs)
    ensures |Survivors(cfg, tick, txs, |txs|)| + Drops(cfg, tick, txs, |txs|) <= |txs|
    ensures Drops(cfg, tick, txs, |txs|) == 0 || |Survivors(cfg, tick, txs, |txs|)| >= 1
  {
    ScanAccounts(cfg, tick, txs, |txs|);
    assert txs[..|txs|] == txs;
    LiveAtMost(tick, txs);
    var k := LastLive(tick, txs, |txs|);
    if k < 0 {
      NoneLive(cfg, tick, txs, |txs|);
    } else {
      LastLiveSurvives(cfg, tick, txs, k, |txs|);
    }
  }

  lemma StepKeepsBounded(cfg: Config, a: Air)
    requires Tidy(a) && Bounded(a)
    ensures Bounded(Stepped(cfg, a))
  {
    var hits, b := 2 * Drops(cfg, a.tick + 1, a.txs, |a.txs|), Stepped(cfg, a);
    ScanLeavesOne(cfg, a.tick + 1, a.txs);
    assert b.sent == a.sent && b.collisions == a.collisions + hits;
    assert b.txs == Survivors(cfg, a.tick + 1, a.txs, |a.txs|);
  }

  // Over any history with a message sent there are at most two collisions for each message but one, so the rate stays
  // below 2. Histories.ThreeWayCollision attains this.
  lemma {:induction false} CollisionsBounded(hs: seq<History>, es: seq<Event>, n: nat)
    requires IsHistory(hs, es) && n <= |es|
    ensures Bounded(hs[n].air) && 0.0 <= CollisionRate(hs[n].air) < 2.0
  {
    if n > 0 {
      CollisionsBounded(hs, es, n - 1);
      var h, e := hs[n - 1], es[n - 1];
      assert hs[n - 1 + 1] == Extended(h, e) && Possible(e) && Tidy(h.air);
      if e.Step? {
        StepKeepsBounded(e.cfg, h.air);
      }
    }
    RateBelowTwo(hs[n].air);
  }

  lemma RateBelowTwo(a: Air)
    requires Bounded(a)
    ensures 0.0 <= CollisionRate(a) < 2.0
  {
    if a.sent > 0 {
      QuotientBelowTwo(a.collisions as real, a.sent as real);
    }
  }

  lemma QuotientBelowTwo(c: real, n: real)
    requires n > 0.0 && 0.0 <= c < 2.0 * n
    ensures 0.0 <= c / n < 2.0
  {
    NonNegativeQuotient(c, n);
    assert c / n * n == c;
  }
}
