// Particular histories of the message traffic, between nodes whose message ids are the ones the code builds.
module Histories {
  import opened Prelude
  import opened Ledger
  import opened MeshNode
  import opened Messages
  import opened Airwaves
  import opened Traffic
  import opened World
  import opened Attribution
  import opened SafeReuse
  import opened RightLosses

  // A message of one hop, over the air for so many ticks or not at all.
  function Sent(from: Node, to: Node, perHop: int, airTicks: Option<int>): Draft {
    Draft(MsgID(from, to), [from.peerID, to.peerID], perHop, 1, "text",
          if airTicks.Some? then Some(Signal(from, airTicks.value, 7)) else None)
  }

  lemma DifferentIds(from: Node, to: Node, other: Node)
    requires to.peerID[..8] != other.peerID[..8]
    ensures MsgID(from, to) != MsgID(from, other)
  {
    var head := from.peerID[..8] + "-";
    assert MsgID(from, to)[|head|..] == to.peerID[..8] && MsgID(from, other)[|head|..] == other.peerID[..8];
  }

  // The history of a list of events.
  lemma {:induction false} RunOf(es: seq<Event>) returns (hs: seq<History>)
    requires AllPossible(es)
    ensures IsHistory(hs, es)
  {
    if es == [] {
      hs := [History(START, [], [])];
    } else {
      var before, e := es[..|es| - 1], es[|es| - 1];
      assert Possible(e) && es == before + [e];
      hs := RunOf(before);
      HistoryExtends(hs, before, e);
      hs := hs + [Extended(hs[|before|], e)];
    }
  }

  lemma AfterTwoPosts(hs: seq<History>, es: seq<Event>, a: Draft, b: Draft)
    requires IsHistory(hs, es) && |es| >= 2 && es[0] == Post(a) && es[1] == Post(b)
    ensures Sendable(a) && Sendable(b)
    ensures hs[2] == History(Posted(Posted(START, a), b), [], [])
  {
    assert Possible(es[0]) && Possible(es[1]);
    assert hs[0 + 1] == Extended(hs[0], es[0]) && hs[1 + 1] == Extended(hs[1], es[1]);
  }

  lemma AfterThreePosts(hs: seq<History>, es: seq<Event>, a: Draft, b: Draft, c: Draft)
    requires IsHistory(hs, es) && |es| >= 3 && es[0] == Post(a) && es[1] == Post(b) && es[2] == Post(c)
    ensures Sendable(a) && Sendable(b) && Sendable(c)
    ensures hs[3] == History(Posted(Posted(Posted(START, a), b), c), [], [])
  {
    AfterTwoPosts(hs, es, a, b);
    assert Possible(es[2]) && hs[2 + 1] == Extended(hs[2], es[2]);
  }

  // ---------- The wrong message is lost ----------

  // Two messages from one node to another and one to a third, each a tick away from its receiver, and the
  // transmissions of the last two.
  ghost predicate WrongShape(a: Air, from: Node, id: string, otherId: string) {
    && a.tick == 0 && a.sent == 3 && |a.msgs| == 3
    && a.msgs[0].id == id && a.msgs[1].id == id && a.msgs[2].id == otherId
    && (forall i :: 0 <= i < 3 ==> a.msgs[i].serial == i && a.msgs[i].remaining == 1 && !a.msgs[i].collided)
    && a.txs == [Transmission(id, from, 0, 1, 7, 1), Transmission(otherId, from, 0, 1, 7, 2)]
  }

  lemma WrongAir(from: Node, to: Node, other: Node)
    ensures var a, b, c := Sent(from, to, 1, None), Sent(from, to, 1, Some(1)), Sent(from, other, 1, Some(1));
      WrongShape(Posted(Posted(Posted(START, a), b), c), from, MsgID(from, to), MsgID(from, other))
  {
  }

  // A node sends another a message that does not go over the air and one that does, and a third node one that
  // collides with it. The first, which was never on the air, is lost, and the second is delivered.
  lemma WrongMessageIsLost(cfg: Config, from: Node, to: Node, other: Node) returns (hs: seq<History>, es: seq<Event>)
    requires cfg.loRaRange >= 0.0 && to.peerID[..8] != other.peerID[..8]
    ensures es == [Post(Sent(from, to, 1, None)), Post(Sent(from, to, 1, Some(1))), Post(Sent(from, other, 1, Some(1))),
        Step(cfg)]
    ensures IsHistory(hs, es) && Tidy(hs[3].air)
    ensures !OwnHit(cfg, hs[3].air, 0) && ReceiptsOf(hs[4].lost, 0) == 1
    ensures OwnHit(cfg, hs[3].air, 1) && ReceiptsOf(hs[4].delivered, 1) == 1
  {
    var a, b, c := Sent(from, to, 1, None), Sent(from, to, 1, Some(1)), Sent(from, other, 1, Some(1));
    es := [Post(a), Post(b), Post(c), Step(cfg)];
    hs := RunOf(es);
    AfterThreePosts(hs, es, a, b, c);
    WrongAir(from, to, other);
    DifferentIds(from, to, other);
    HistoriesAreSound(hs, es, 3);
    HistoriesKeep(hs, es, 3);
    assert hs[3 + 1] == Extended(hs[3], es[3]);
    WrongFates(cfg, hs[3], from, MsgID(from, to), MsgID(from, other));
  }

  lemma WrongFates(cfg: Config, h: History, from: Node, id: string, otherId: string)
    requires Consistent(h) && Kept(h.air) && cfg.loRaRange >= 0.0 && WrongShape(h.air, from, id, otherId)
    requires id != otherId
    ensures OwnHit(cfg, h.air, 1) && !OwnHit(cfg, h.air, 0)
    ensures ReceiptsOf(Extended(h, Step(cfg)).lost, 0) == 1 && ReceiptsOf(Extended(h, Step(cfg)).delivered, 1) == 1
  {
    WrongMarks(cfg, h.air, from, id, otherId);
    LostLog(cfg, h, 0);
    LostLog(cfg, h, 1);
    StepKeepsConsistent(cfg, h);
    NothingStays(cfg, h.air);
    DeliveredWhenGone(Extended(h, Step(cfg)), 1);
  }

  lemma NothingStays(cfg: Config, a: Air)
    requires Tidy(a) && forall i :: 0 <= i < |a.msgs| ==> a.msgs[i].remaining == 1
    ensures Stepped(cfg, a).msgs == [] && Stepped(cfg, a).sent == a.sent
  {
    NoneStays(Scanned(cfg, a));
  }

  lemma DeliveredWhenGone(h: History, serial: nat)
    requires Accounted(h) && serial < h.air.sent && h.air.msgs == [] && ReceiptsOf(h.lost, serial) == 0
    ensures ReceiptsOf(h.delivered, serial) == 1
  {
    assert CountOf(h.air.msgs, serial) == 0;
  }

  lemma WrongMarks(cfg: Config, a: Air, from: Node, id: string, otherId: string)
    requires Tidy(a) && cfg.loRaRange >= 0.0 && WrongShape(a, from, id, otherId) && id != otherId
    ensures Scanned(cfg, a)[0].collided && !Scanned(cfg, a)[1].collided
    ensures OwnHit(cfg, a, 1) && !OwnHit(cfg, a, 0)
  {
    SameNodeCollides(cfg, 1, a.txs, 0, 1);
    CountedIsPair(cfg, 1, a.txs, 0, 0, 2);
    LostExactly(cfg, a, 0);
    LostExactly(cfg, a, 1);
    assert FirstWithId(a.msgs, id) == 0 && FirstWithId(a.msgs, otherId) == 2;
  }

  lemma {:induction false} NoneStays(msgs: seq<ActiveMsg>)
    requires AllWellFormed(msgs) && forall i :: 0 <= i < |msgs| ==> msgs[i].remaining == 1
    ensures InFlight(msgs) == []
  {
    if msgs != [] {
      NoneStays(msgs[..|msgs| - 1]);
    }
  }

  // ---------- A transmission outlives its message ----------

  // Two messages, each a tick away from its receiver, and their transmissions, the second a long one.
  ghost predicate OrphanShape(a: Air, from: Node, id: string, otherId: string) {
    && a.tick == 0 && (forall i :: 0 <= i < |a.msgs| ==> a.msgs[i].remaining == 1)
    && a.txs == [Transmission(otherId, from, 0, 1, 7, 0), Transmission(id, from, 0, 20, 7, 1)]
  }

  lemma OrphanAir(from: Node, to: Node, other: Node)
    ensures OrphanShape(Posted(Posted(START, Sent(from, other, 1, Some(1))), Sent(from, to, 1, Some(20))), from,
                        MsgID(from, to), MsgID(from, other))
  {
  }

  lemma OrphanStep(cfg: Config, a: Air, from: Node, id: string, otherId: string)
    requires Tidy(a) && cfg.loRaRange >= 0.0 && OrphanShape(a, from, id, otherId)
    ensures Stepped(cfg, a).msgs == [] && Stepped(cfg, a).txs == [a.txs[1]]
  {
    SameNodeCollides(cfg, 1, a.txs, 0, 1);
    assert Survivors(cfg, 1, a.txs, 1) == [];
    NothingStays(cfg, a);
  }

  // It is not enough that no message in flight bears the id: here a transmission outlives its message, nothing is in
  // flight, and a message sent under the id of that transmission, itself not over the air, is lost in the next step.
  lemma FreeIdCanMislead(cfg: Config, from: Node, to: Node, other: Node)
    returns (hs: seq<History>, es: seq<Event>, c: Draft)
    requires cfg.loRaRange >= 0.0 && to.peerID[..8] != other.peerID[..8]
    ensures es == [Post(Sent(from, other, 1, Some(1))), Post(Sent(from, to, 1, Some(20))), Step(cfg)]
    ensures IsHistory(hs, es) && Tidy(hs[3].air) && hs[3].air.msgs == []
    ensures var d := Sent(from, to, 1, None);
      && Sendable(d) && Sendable(c) && c.id == MsgID(from, other)
      && Tidy(Posted(hs[3].air, d)) && Tidy(Posted(Posted(hs[3].air, d), c))
      && !OwnHit(cfg, Posted(Posted(hs[3].air, d), c), hs[3].air.sent)
      && ReceiptsOf(AfterTwoSends(hs[3], d, c, cfg).lost, hs[3].air.sent) == 1
  {
    es := [Post(Sent(from, other, 1, Some(1))), Post(Sent(from, to, 1, Some(20))), Step(cfg)];
    hs := RunOf(es);
    AfterTwoPosts(hs, es, es[0].draft, es[1].draft);
    OrphanAir(from, to, other);
    DifferentIds(from, to, other);
    HistoriesAreSound(hs, es, 2);
    HistoriesAreSound(hs, es, 3);
    HistoriesKeep(hs, es, 3);
    assert hs[2 + 1] == Extended(hs[2], es[2]);
    OrphanStep(cfg, hs[2].air, from, MsgID(from, to), MsgID(from, other));
    c := OrphanMisleads(cfg, hs[3], Sent(from, to, 1, None), 0, other);
  }

  // ---------- Sent again while the first transmission is still on the air ----------

  // Nothing is in flight, and the transmission of a message delivered in the first step is still on the air.
  ghost predicate LeftOver(a: Air, from: Node, id: string) {
    && a.tick == 1 && a.sent == 1 && a.msgs == [] && a.txs == [Transmission(id, from, 0, 20, 7, 0)]
  }

  lemma OneLeftOver(cfg: Config, from: Node, to: Node, hs: seq<History>, es: seq<Event>)
    requires IsHistory(hs, es) && |es| >= 2 && es[0] == Post(Sent(from, to, 1, Some(20))) && es[1] == Step(cfg)
    ensures Sane(hs[1].air) && hs[2].air == Stepped(cfg, hs[1].air) && LeftOver(hs[2].air, from, MsgID(from, to))
  {
    HistoriesAreSound(hs, es, 1);
    HistoriesKeep(hs, es, 1);
    assert hs[0 + 1] == Extended(hs[0], es[0]) && hs[1 + 1] == Extended(hs[1], es[1]);
    NothingStays(cfg, hs[1].air);
    assert Survivors(cfg, 1, hs[1].air.txs, 0) == [];
  }

  // A message is sent again over the air while the transmission of the first one is still there. One mark would go
  // astray, and yet the send is safe: whatever the first transmission loses, the second loses as well.
  lemma RepetitionIsHarmless(cfg: Config, from: Node, to: Node) returns (hs: seq<History>, es: seq<Event>)
    requires cfg.loRaRange >= 0.0
    ensures es == [Post(Sent(from, to, 1, Some(20))), Step(cfg)] && CleanHistory(hs, es) && Tidy(hs[2].air)
    ensures var d := Sent(from, to, 1, Some(20));
      && !MarksSafe(cfg, hs[2].air, d) && !Fits(hs[2].air, d) && SafeToSend(cfg, hs[2].air, d)
  {
    es := [Post(Sent(from, to, 1, Some(20))), Step(cfg)];
    hs := RunOf(es);
    OneLeftOver(cfg, from, to, hs, es);
    RepetitionIsSafe(cfg, hs[1].air, Sent(from, to, 1, Some(20)), 0);
    assert hs[2].air.txs[0].msgID == MsgID(from, to);
  }

  // The transmission left over, with two others: the middle node hears the other two, which do not hear each other.
  ghost predicate Shielded(cfg: Config, a: Air, from: Node, middle: Node, far: Node, id: string) {
    && InRange(cfg, from, middle) && InRange(cfg, middle, far) && !InRange(cfg, far, from)
    && a.tick == 1 && a.sent == 3 && |a.msgs| == 2 && |a.txs| == 3 && a.txs[0] == Transmission(id, from, 0, 20, 7, 0)
    && a.txs[1].fromNode == middle && a.txs[2].fromNode == far
    && (forall k :: 1 <= k < 3 ==>
         a.txs[k].startTick == 1 && a.txs[k].endTick == 21 && a.txs[k].sf == 7 && a.txs[k].serial == k)
    && (forall i :: 0 <= i < 2 ==> a.msgs[i].id != id)
  }

  lemma DifferentSenders(from: Node, other: Node, to: Node)
    requires from.peerID[..8] != other.peerID[..8]
    ensures MsgID(from, to) != MsgID(other, to)
  {
    assert MsgID(from, to)[..8] == from.peerID[..8] && MsgID(other, to)[..8] == other.peerID[..8];
  }

  // The first two do not come through the next scan, and the third is out of reach.
  lemma ShieldedUnhit(cfg: Config, a: Air, from: Node, middle: Node, far: Node, d: Draft)
    requires Tidy(a) && Sendable(d) && Shielded(cfg, a, from, middle, far, d.id)
    requires d.signal == Some(Signal(from, 20, 7))
    ensures !Hits(cfg, a, d)
  {
    assert Conflict(cfg, a.txs[0], a.txs[1]) && Conflict(cfg, a.txs[1], a.txs[2]);
    PartnerFromIs(cfg, 2, a.txs, 0, 1);
    PartnerFromIs(cfg, 2, a.txs, 1, 2);
    assert !Conflict(cfg, a.txs[2], Aired(d.id, d.signal.value, a.tick, a.sent));
  }

  // No message in flight bears the id of the send, which is not safe: the next scan loses its message without counting
  // a collision of its own transmission.
  ghost predicate LostUnhit(cfg: Config, a: Air, d: Draft) {
    && Tidy(a) && Sendable(d) && FirstWithId(a.msgs, d.id) == |a.msgs| && !SafeToSend(cfg, a, d)
    && Tidy(Posted(a, d)) && Posted(a, d).msgs[|a.msgs|].serial == a.sent
    && Scanned(cfg, Posted(a, d))[|a.msgs|].collided && !OwnHit(cfg, Posted(a, d), a.sent)
  }

  lemma ShieldedLoses(cfg: Config, a: Air, from: Node, middle: Node, far: Node, d: Draft)
    requires Sane(a) && Sendable(d) && Shielded(cfg, a, from, middle, far, d.id)
    requires d.signal == Some(Signal(from, 20, 7))
    ensures LostUnhit(cfg, a, d)
  {
    var b := Posted(a, d);
    PostKeepsSane(a, d);
    ShieldedUnhit(cfg, a, from, middle, far, d);
    HitsIsPair(cfg, a, d);
    FirstOfAppend(a.msgs, b.msgs[2], d.id, 0);
    NotHit(cfg, b, 3, 2);
    assert b.txs[0] == a.txs[0] && b.txs[1] == a.txs[1];
    ConflictIsPair(cfg, 2, b.txs, 0, 1);
    LostExactly(cfg, b, 2);
  }

  // The same without a step in between: two other nodes send, and the first transmission collides with the one of the
  // middle node, that one with the one of the far node, and the repetition, out of reach of the far node, with none.
  // So it is lost although its own transmission collides with nothing.
  lemma RepetitionCanBeShielded(cfg: Config, from: Node, middle: Node, far: Node, to: Node)
    returns (hs: seq<History>, es: seq<Event>)
    requires InRange(cfg, from, middle) && InRange(cfg, middle, far) && !InRange(cfg, far, from)
    requires from.peerID[..8] != middle.peerID[..8] && from.peerID[..8] != far.peerID[..8]
    requires middle.peerID[..8] != far.peerID[..8]
    ensures es == [Post(Sent(from, to, 1, Some(20))), Step(cfg), Post(Sent(middle, to, 1, Some(20))),
        Post(Sent(far, to, 1, Some(20)))]
    ensures CleanHistory(hs, es) && LostUnhit(cfg, hs[4].air, Sent(from, to, 1, Some(20)))
  {
    var d, p, q := Sent(from, to, 1, Some(20)), Sent(middle, to, 1, Some(20)), Sent(far, to, 1, Some(20));
    es := [Post(d), Step(cfg), Post(p), Post(q)];
    hs := RunOf(es);
    OneLeftOver(cfg, from, to, hs, es);
    HistoriesAreSound(hs, es, 4);
    HistoriesKeep(hs, es, 4);
    DifferentSenders(from, middle, to);
    DifferentSenders(from, far, to);
    DifferentSenders(middle, far, to);
    TwoMore(cfg, hs, es, from, middle, far, to);
    ShieldedLoses(cfg, hs[4].air, from, middle, far, d);
  }

  lemma TwoMore(cfg: Config, hs: seq<History>, es: seq<Event>, from: Node, middle: Node, far: Node, to: Node)
    requires InRange(cfg, from, middle) && InRange(cfg, middle, far) && !InRange(cfg, far, from)
    requires MsgID(from, to) != MsgID(middle, to) && MsgID(from, to) != MsgID(far, to)
    requires MsgID(middle, to) != MsgID(far, to)
    requires IsHistory(hs, es) && |es| == 4 && es[0].Post? && es[1].Step?
    requires es[2] == Post(Sent(middle, to, 1, Some(20))) && es[3] == Post(Sent(far, to, 1, Some(20)))
    requires LeftOver(hs[2].air, from, MsgID(from, to))
    ensures CleanHistory(hs, es) && Shielded(cfg, hs[4].air, from, middle, far, MsgID(from, to))
  {
    assert hs[2 + 1] == Extended(hs[2], es[2]) && hs[3 + 1] == Extended(hs[3], es[3]);
    BothPosted(cfg, hs[2].air, from, middle, far, to);
  }

  lemma BothPosted(cfg: Config, a: Air, from: Node, middle: Node, far: Node, to: Node)
    requires InRange(cfg, from, middle) && InRange(cfg, middle, far) && !InRange(cfg, far, from)
    requires MsgID(from, to) != MsgID(middle, to) && MsgID(from, to) != MsgID(far, to)
    requires MsgID(middle, to) != MsgID(far, to) && LeftOver(a, from, MsgID(from, to))
    ensures var p, q := Sent(middle, to, 1, Some(20)), Sent(far, to, 1, Some(20));
      && Sendable(p) && Sendable(q) && Reusable(a, p) && Reusable(Posted(a, p), q)
      && Shielded(cfg, Posted(Posted(a, p), q), from, middle, far, MsgID(from, to))
  {
  }

  // ---------- Fitting is not enough beyond the next scan ----------

  // Three messages with three ticks to go: one to another node, and two to the same one of which only the first goes
  // over the air.
  ghost predicate FittingShape(a: Air, from: Node, id: string, otherId: string) {
    && a.tick == 0 && |a.msgs| == 3
    && a.msgs[0].id == otherId && a.msgs[1].id == id && a.msgs[2].id == id
    && (forall i :: 0 <= i < 3 ==> a.msgs[i].serial == i && a.msgs[i].remaining == 3 && !a.msgs[i].collided)
    && a.txs == [Transmission(otherId, from, 0, 20, 7, 0), Transmission(id, from, 0, 20, 7, 1)]
  }

  lemma FittingAir(from: Node, to: Node, other: Node)
    ensures var x, a, c := Sent(from, other, 3, Some(20)), Sent(from, to, 3, Some(20)), Sent(from, to, 3, None);
      FittingShape(Posted(Posted(Posted(START, x), a), c), from, MsgID(from, to), MsgID(from, other))
  {
  }

  // Every send of this history fits, and all transmissions find their messages; and after the step one does not.
  lemma FittingIsNotEnough(cfg: Config, from: Node, to: Node, other: Node)
    requires cfg.loRaRange >= 0.0 && to.peerID[..8] != other.peerID[..8]
    ensures var x, a, c := Sent(from, other, 3, Some(20)), Sent(from, to, 3, Some(20)), Sent(from, to, 3, None);
      var one := Posted(START, x);
      var two := Posted(one, a);
      var three := Posted(two, c);
      && Fits(START, x) && Fits(one, a) && Fits(two, c) && Linked(START) && Linked(one) && Linked(two) && Linked(three)
      && Tidy(three) && !Linked(Stepped(cfg, three))
  {
    var x, a, c := Sent(from, other, 3, Some(20)), Sent(from, to, 3, Some(20)), Sent(from, to, 3, None);
    var one := Posted(START, x);
    var two := Posted(one, a);
    DifferentIds(from, to, other);
    PostKeepsSane(START, x);
    PostKeepsSane(one, a);
    PostKeepsSane(two, c);
    PostStaysLinkedExactly(START, x);
    PostStaysLinkedExactly(one, a);
    PostStaysLinkedExactly(two, c);
    FittingAir(from, to, other);
    FittingStep(cfg, Posted(two, c), from, MsgID(from, to), MsgID(from, other));
  }

  lemma FittingStep(cfg: Config, a: Air, from: Node, id: string, otherId: string)
    requires Sane(a) && cfg.loRaRange >= 0.0 && FittingShape(a, from, id, otherId) && id != otherId
    ensures !Linked(Stepped(cfg, a))
  {
    SameNodeCollides(cfg, 1, a.txs, 0, 1);
    CountedIsPair(cfg, 1, a.txs, 0, 1, 2);
    assert FirstWithId(a.msgs, id) == 1 && FirstWithId(a.msgs, otherId) == 0;
    LostExactly(cfg, a, 1);
    LostExactly(cfg, a, 2);
    OwnerGone(cfg, a, 1);
    var k, i := ClashGoesOn(cfg, a, 1, 2);
    assert !FindsOwn(Stepped(cfg, a).msgs, Stepped(cfg, a).txs[k]);
  }

  // ---------- More collisions than messages ----------

  ghost predicate ThreeOnAir(a: Air, from: Node) {
    && a.tick == 0 && a.sent == 3 && a.collisions == 0 && |a.txs| == 3
    && forall k :: 0 <= k < 3 ==>
         a.txs[k].fromNode == from && a.txs[k].sf == 7 && a.txs[k].startTick == 0 && a.txs[k].endTick == 1
  }

  // Three messages over the air at once count four collisions: the rate exceeds 1.
  lemma ThreeWayCollision(cfg: Config, from: Node, to: Node) returns (hs: seq<History>, es: seq<Event>)
    requires cfg.loRaRange >= 0.0
    ensures var a := Sent(from, to, 1, Some(1)); es == [Post(a), Post(a), Post(a), Step(cfg)]
    ensures IsHistory(hs, es) && hs[4].air.sent == 3 && hs[4].air.collisions == 4
    ensures CollisionRate(hs[4].air) == 4.0 / 3.0
  {
    var a := Sent(from, to, 1, Some(1));
    es := [Post(a), Post(a), Post(a), Step(cfg)];
    hs := RunOf(es);
    AfterThreePosts(hs, es, a, a, a);
    SentThrice(from, to);
    assert hs[3 + 1] == Extended(hs[3], es[3]);
    FourCollisions(cfg, hs[3].air, from);
  }

  lemma SentThrice(from: Node, to: Node)
    ensures var a := Sent(from, to, 1, Some(1)); ThreeOnAir(Posted(Posted(Posted(START, a), a), a), from)
  {
  }

  lemma FourCollisions(cfg: Config, a: Air, from: Node)
    requires Tidy(a) && ThreeOnAir(a, from) && cfg.loRaRange >= 0.0
    ensures Stepped(cfg, a).sent == 3 && Stepped(cfg, a).collisions == 4 && CollisionRate(Stepped(cfg, a)) == 4.0 / 3.0
  {
    TwoDrops(cfg, a.txs, from);
  }

  lemma TwoDrops(cfg: Config, txs: seq<Transmission>, from: Node)
    requires |txs| == 3 && AllSent(txs) && cfg.loRaRange >= 0.0
    requires forall k :: 0 <= k < 3 ==>
      txs[k].fromNode == from && txs[k].sf == 7 && txs[k].startTick == 0 && txs[k].endTick == 1
    ensures Drops(cfg, 1, txs, 3) == 2
  {
    SameNodeCollides(cfg, 1, txs, 0, 1);
    SameNodeCollides(cfg, 1, txs, 1, 2);
    assert Partner(cfg, 1, txs, 2) == 3;
    assert Drops(cfg, 1, txs, 1) == 1 && Drops(cfg, 1, txs, 2) == 2;
  }
}
