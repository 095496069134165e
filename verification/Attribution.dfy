// Which message a collision loses. Transmissions name their message by an id that is not unique, and the first active
// message with the id is marked.
module Attribution {
  import opened Prelude
  import opened Ledger
  import opened MeshNode
  import opened Messages
  import opened Airwaves
  import opened Traffic

  // ---------- The counted pairs of a scan, and the messages their marks find ----------

  // The colliding pairs counted among the first n transmissions: each dropped one with its partner.
  function Pairs(cfg: Config, tick: int, txs: seq<Transmission>, n: nat): (r: seq<(nat, nat)>)
    requires AllSent(txs) && n <= |txs|
    ensures |r| == Drops(cfg, tick, txs, n)
    ensures forall j :: 0 <= j < |r| ==>
      r[j].0 < r[j].1 < |txs| && Live(txs[r[j].0], tick) && Live(txs[r[j].1], tick)
  {
    if n == 0 then [] else
    var before := Pairs(cfg, tick, txs, n - 1);
    if !Collides(cfg, tick, txs, n - 1) then before else
    PartnerFromIs(cfg, tick, txs, n - 1, n);
    before + [(n - 1, Partner(cfg, tick, txs, n - 1))]
  }

  ghost predicate InPair(pairs: seq<(nat, nat)>, k: nat) {
    exists j :: 0 <= j < |pairs| && (pairs[j].0 == k || pairs[j].1 == k)
  }

  // The pairs the next scan counts.
  function NextPairs(cfg: Config, a: Air): (r: seq<(nat, nat)>)
    requires Tidy(a)
    ensures forall j :: 0 <= j < |r| ==>
      r[j].0 < r[j].1 < |a.txs| && Live(a.txs[r[j].0], a.tick + 1) && Live(a.txs[r[j].1], a.tick + 1)
  {
    Pairs(cfg, a.tick + 1, a.txs, |a.txs|)
  }

  // The next scan counts a collision of a transmission of the message with this serial.
  ghost predicate OwnHit(cfg: Config, a: Air, serial: nat)
    requires Tidy(a)
  {
    exists k :: 0 <= k < |a.txs| && a.txs[k].serial == serial && InPair(NextPairs(cfg, a), k)
  }

  function FirstWithSerial(msgs: seq<ActiveMsg>, serial: nat): (k: nat)
    ensures k <= |msgs|
    ensures k < |msgs| ==> msgs[k].serial == serial
    ensures forall i :: 0 <= i < k ==> msgs[i].serial != serial
  {
    FirstIndex(msgs, (m: ActiveMsg) => m.serial == serial)
  }

  // A mark for the transmission hits its own message, or nothing when that message is gone.
  predicate FindsOwn(msgs: seq<ActiveMsg>, t: Transmission) {
    FirstWithId(msgs, t.msgID) == FirstWithSerial(msgs, t.serial)
  }

  // Every transmission still on the air at the next scan finds its own message.
  ghost predicate Linked(a: Air) {
    forall k :: 0 <= k < |a.txs| && Live(a.txs[k], a.tick + 1) ==> FindsOwn(a.msgs, a.txs[k])
  }

  // The next scan marks the messages of the counted pairs and no other.
  ghost predicate MarksOwn(cfg: Config, a: Air)
    requires Tidy(a)
  {
    forall k :: 0 <= k < |a.txs| && InPair(NextPairs(cfg, a), k) ==> FindsOwn(a.msgs, a.txs[k])
  }

  lemma LinkedMarksOwn(cfg: Config, a: Air)
    requires Tidy(a) && Linked(a)
    ensures MarksOwn(cfg, a)
  {
  }

  // ---------- Whom the counters charge ----------

  // How many of the pairs have an earlier, or a later, transmission of a node.
  ghost function EarlierFrom(txs: seq<Transmission>, pairs: seq<(nat, nat)>, node: Node): nat
    requires forall j :: 0 <= j < |pairs| ==> pairs[j].0 < pairs[j].1 < |txs|
  {
    if pairs == [] then 0 else
    var last := pairs[|pairs| - 1];
    EarlierFrom(txs, pairs[..|pairs| - 1], node) + if txs[last.0].fromNode == node then 1 else 0
  }

  ghost function LaterFrom(txs: seq<Transmission>, pairs: seq<(nat, nat)>, node: Node): nat
    requires forall j :: 0 <= j < |pairs| ==> pairs[j].0 < pairs[j].1 < |txs|
  {
    if pairs == [] then 0 else
    var last := pairs[|pairs| - 1];
    LaterFrom(txs, pairs[..|pairs| - 1], node) + if txs[last.1].fromNode == node then 1 else 0
  }

  lemma FromSplits(txs: seq<Transmission>, before: seq<(nat, nat)>, pairs: seq<(nat, nat)>, i: nat, k: nat, node: Node)
    requires (forall j :: 0 <= j < |before| ==> before[j].0 < before[j].1 < |txs|) && i < k < |txs|
    requires pairs == before + [(i, k)]
    ensures forall j :: 0 <= j < |pairs| ==> pairs[j].0 < pairs[j].1 < |txs|
    ensures EarlierFrom(txs, pairs, node) == EarlierFrom(txs, before, node) + if txs[i].fromNode == node then 1 else 0
    ensures LaterFrom(txs, pairs, node) == LaterFrom(txs, before, node) + if txs[k].fromNode == node then 1 else 0
  {
    assert pairs[..|pairs| - 1] == before;
  }

  lemma PairsStep(cfg: Config, tick: int, txs: seq<Transmission>, i: nat)
    requires AllSent(txs) && i < |txs|
    ensures Collides(cfg, tick, txs, i) ==> i < Partner(cfg, tick, txs, i) < |txs|
    ensures Pairs(cfg, tick, txs, i + 1)
         == Pairs(cfg, tick, txs, i) + if Collides(cfg, tick, txs, i) then [(i, Partner(cfg, tick, txs, i))] else []
  {
  }

  // A node fails once for each of its transmissions in a counted pair, and is charged a collision for each that is the
  // later one of a pair.
  lemma {:induction false} ChargedByPairs(cfg: Config, tick: int, txs: seq<Transmission>, n: nat, node: Node)
    requires AllSent(txs) && n <= |txs|
    ensures var pairs := Pairs(cfg, tick, txs, n);
      && Failures(cfg, tick, txs, n, node) == EarlierFrom(txs, pairs, node) + LaterFrom(txs, pairs, node)
      && Struck(cfg, tick, txs, n, node) == LaterFrom(txs, pairs, node)
  {
    if n > 0 {
      ChargedByPairs(cfg, tick, txs, n - 1, node);
      ChargeStep(cfg, tick, txs, n - 1, node);
    }
  }

  lemma ChargeStep(cfg: Config, tick: int, txs: seq<Transmission>, i: nat, node: Node)
    requires AllSent(txs) && i < |txs|
    ensures var before, pairs := Pairs(cfg, tick, txs, i), Pairs(cfg, tick, txs, i + 1);
      && Failures(cfg, tick, txs, i + 1, node) - Failures(cfg, tick, txs, i, node)
        == EarlierFrom(txs, pairs, node) - EarlierFrom(txs, before, node)
           + LaterFrom(txs, pairs, node) - LaterFrom(txs, before, node)
      && Struck(cfg, tick, txs, i + 1, node) - Struck(cfg, tick, txs, i, node)
        == LaterFrom(txs, pairs, node) - LaterFrom(txs, before, node)
  {
    PairsStep(cfg, tick, txs, i);
    if Collides(cfg, tick, txs, i) {
      FromSplits(txs, Pairs(cfg, tick, txs, i), Pairs(cfg, tick, txs, i + 1), i, Partner(cfg, tick, txs, i), node);
    }
  }

  // ---------- What the marks of a scan do ----------

  lemma SameIdsSameFirst(a: seq<ActiveMsg>, b: seq<ActiveMsg>, id: string)
    requires |a| == |b| && forall i :: 0 <= i < |a| ==> a[i].id == b[i].id
    ensures FirstWithId(a, id) == FirstWithId(b, id)
  {
  }

  lemma MarkedOne(msgs: seq<ActiveMsg>, id: string, m: nat)
    requires m < |msgs|
    ensures Marked(msgs, id)[m].collided <==> msgs[m].collided || FirstWithId(msgs, id) == m
  {
  }

  // One collision marks the first message with either id.
  lemma MarkedTwo(msgs: seq<ActiveMsg>, before: seq<ActiveMsg>, x: string, y: string, m: nat)
    requires OnlyMarked(msgs, before) && m < |msgs|
    ensures Marked(Marked(before, x), y)[m].collided
       <==> before[m].collided || FirstWithId(msgs, x) == m || FirstWithId(msgs, y) == m
  {
    var once := Marked(before, x);
    MarkOnly(before, x);
    MarkedOne(before, x, m);
    MarkedOne(once, y, m);
    SameIdsSameFirst(before, msgs, x);
    SameIdsSameFirst(once, msgs, y);
  }

  // One of the two ids of a mark finds message m.
  predicate Finds(msgs: seq<ActiveMsg>, mark: (string, string), m: nat) {
    FirstWithId(msgs, mark.0) == m || FirstWithId(msgs, mark.1) == m
  }

  predicate AnyFinds(msgs: seq<ActiveMsg>, marks: seq<(string, string)>, m: nat) {
    marks != [] && (AnyFinds(msgs, marks[..|marks| - 1], m) || Finds(msgs, marks[|marks| - 1], m))
  }

  lemma {:induction false} AnyFindsSome(msgs: seq<ActiveMsg>, marks: seq<(string, string)>, m: nat)
    ensures AnyFinds(msgs, marks, m) <==> exists j :: 0 <= j < |marks| && Finds(msgs, marks[j], m)
  {
    if marks != [] {
      var before := marks[..|marks| - 1];
      AnyFindsSome(msgs, before, m);
      assert forall j :: 0 <= j < |before| ==> before[j] == marks[j];
    }
  }

  lemma {:induction false} MarkedExactly(msgs: seq<ActiveMsg>, marks: seq<(string, string)>, m: nat)
    requires m < |msgs| && !msgs[m].collided
    ensures AllMarked(msgs, marks)[m].collided <==> AnyFinds(msgs, marks, m)
  {
    if marks != [] {
      var before, last := marks[..|marks| - 1], marks[|marks| - 1];
      MarkedExactly(msgs, before, m);
      MarksOnly(msgs, before);
      MarkedTwo(msgs, AllMarked(msgs, before), last.0, last.1, m);
    }
  }

  lemma {:induction false} MarksOfPairs(cfg: Config, tick: int, txs: seq<Transmission>, n: nat)
    requires AllSent(txs) && n <= |txs|
    ensures var marks, pairs := Marks(cfg, tick, txs, n), Pairs(cfg, tick, txs, n);
      |marks| == |pairs|
      && forall j :: 0 <= j < |pairs| ==> marks[j] == (txs[pairs[j].1].msgID, txs[pairs[j].0].msgID)
  {
    if n > 0 {
      MarksOfPairs(cfg, tick, txs, n - 1);
    }
  }

  lemma PairsAndMarks(msgs: seq<ActiveMsg>, txs: seq<Transmission>, marks: seq<(string, string)>,
          pairs: seq<(nat, nat)>, m: nat)
    requires |marks| == |pairs|
    requires forall j :: 0 <= j < |pairs| ==> pairs[j].0 < |txs| && pairs[j].1 < |txs|
    requires forall j :: 0 <= j < |pairs| ==> marks[j] == (txs[pairs[j].1].msgID, txs[pairs[j].0].msgID)
    ensures (exists j :: 0 <= j < |marks| && Finds(msgs, marks[j], m))
       <==> exists k :: 0 <= k < |txs| && InPair(pairs, k) && FirstWithId(msgs, txs[k].msgID) == m
  {
    if j :| 0 <= j < |marks| && Finds(msgs, marks[j], m) {
      assert InPair(pairs, pairs[j].0) && InPair(pairs, pairs[j].1);
    }
    if k :| 0 <= k < |txs| && InPair(pairs, k) && FirstWithId(msgs, txs[k].msgID) == m {
      var j :| 0 <= j < |pairs| && (pairs[j].0 == k || pairs[j].1 == k);
      assert Finds(msgs, marks[j], m);
    }
  }

  lemma MarkedThroughPairs(msgs: seq<ActiveMsg>, txs: seq<Transmission>, marks: seq<(string, string)>,
          pairs: seq<(nat, nat)>, m: nat)
    requires m < |msgs| && !msgs[m].collided && |marks| == |pairs|
    requires forall j :: 0 <= j < |pairs| ==> pairs[j].0 < |txs| && pairs[j].1 < |txs|
    requires forall j :: 0 <= j < |pairs| ==> marks[j] == (txs[pairs[j].1].msgID, txs[pairs[j].0].msgID)
    ensures AllMarked(msgs, marks)[m].collided
       <==> exists k :: 0 <= k < |txs| && InPair(pairs, k) && FirstWithId(msgs, txs[k].msgID) == m
  {
    MarkedExactly(msgs, marks, m);
    AnyFindsSome(msgs, marks, m);
    PairsAndMarks(msgs, txs, marks, pairs, m);
  }

  // A message not marked before is lost in the scan exactly when it is the first with the id of a colliding
  // transmission.
  lemma LostExactly(cfg: Config, a: Air, m: nat)
    requires Tidy(a) && m < |a.msgs| && !a.msgs[m].collided
    ensures Scanned(cfg, a)[m].collided
       <==> exists k :: 0 <= k < |a.txs| && InPair(NextPairs(cfg, a), k) && FirstWithId(a.msgs, a.txs[k].msgID) == m
  {
    MarksOfPairs(cfg, a.tick + 1, a.txs, |a.txs|);
    MarkedThroughPairs(a.msgs, a.txs, Marks(cfg, a.tick + 1, a.txs, |a.txs|), NextPairs(cfg, a), m);
  }

  // Serials grow along the list.
  ghost predicate InOrder(msgs: seq<ActiveMsg>) {
    forall i, j :: 0 <= i < j < |msgs| ==> msgs[i].serial < msgs[j].serial
  }

  // When the marks find their own messages, the scan loses a message exactly when its own transmission collides.
  lemma ScanLosesOwn(cfg: Config, a: Air, m: nat)
    requires Tidy(a) && m < |a.msgs| && !a.msgs[m].collided && InOrder(a.msgs) && MarksOwn(cfg, a)
    ensures Scanned(cfg, a)[m].collided <==> OwnHit(cfg, a, a.msgs[m].serial)
  {
    LostExactly(cfg, a, m);
    forall k | 0 <= k < |a.txs| && InPair(NextPairs(cfg, a), k)
      ensures FirstWithId(a.msgs, a.txs[k].msgID) == m <==> a.txs[k].serial == a.msgs[m].serial
    {
      assert FindsOwn(a.msgs, a.txs[k]);
    }
  }

  // ---------- What every history keeps ----------

  // No message has two transmissions.
  ghost predicate OneEach(txs: seq<Transmission>) {
    forall k, l :: 0 <= k < l < |txs| ==> txs[k].serial != txs[l].serial
  }

  // Messages are in the order of their serials, and a transmission carries the id of its own message and has started.
  ghost predicate Kept(a: Air) {
    && InOrder(a.msgs) && OneEach(a.txs)
    && (forall i :: 0 <= i < |a.msgs| ==> a.msgs[i].serial < a.sent)
    && (forall k :: 0 <= k < |a.txs| ==> a.txs[k].serial < a.sent && a.txs[k].startTick <= a.tick)
    && (forall k, i :: 0 <= k < |a.txs| && 0 <= i < |a.msgs| && a.txs[k].serial == a.msgs[i].serial
          ==> a.txs[k].msgID == a.msgs[i].id)
  }

  // What is on the air under the id of a message in flight belongs to that message.
  ghost predicate Apart(a: Air) {
    forall k, i :: 0 <= k < |a.txs| && 0 <= i < |a.msgs| && Live(a.txs[k], a.tick + 1) && a.txs[k].msgID == a.msgs[i].id
      ==> a.txs[k].serial == a.msgs[i].serial
  }

  lemma ApartIsLinked(a: Air)
    requires Kept(a) && Apart(a)
    ensures Linked(a)
  {
    forall k | 0 <= k < |a.txs| && Live(a.txs[k], a.tick + 1)
      ensures FindsOwn(a.msgs, a.txs[k])
    {
      var t := a.txs[k];
      var i, j := FirstWithId(a.msgs, t.msgID), FirstWithSerial(a.msgs, t.serial);
      assert i < |a.msgs| ==> a.msgs[i].serial == t.serial;
      assert j < |a.msgs| ==> a.msgs[j].id == t.msgID;
    }
  }

  predicate SameTags(m: ActiveMsg, n: ActiveMsg) {
    m.id == n.id && m.serial == n.serial
  }

  ghost predicate From(m: ActiveMsg, msgs: seq<ActiveMsg>) {
    exists k :: 0 <= k < |msgs| && SameTags(m, msgs[k])
  }

  // Each of these messages is one of the others.
  ghost predicate AllFrom(b: seq<ActiveMsg>, a: seq<ActiveMsg>) {
    forall i :: 0 <= i < |b| ==> From(b[i], a)
  }

  lemma FromLonger(m: ActiveMsg, msgs: seq<ActiveMsg>, longer: seq<ActiveMsg>)
    requires From(m, msgs) && |msgs| <= |longer| && longer[..|msgs|] == msgs
    ensures From(m, longer)
  {
    var k :| 0 <= k < |msgs| && SameTags(m, msgs[k]);
    assert longer[k] == msgs[k];
  }

  lemma {:induction false} InFlightFrom(msgs: seq<ActiveMsg>)
    requires AllWellFormed(msgs)
    ensures AllFrom(InFlight(msgs), msgs)
  {
    if msgs != [] {
      var p, m, b := msgs[..|msgs| - 1], msgs[|msgs| - 1], InFlight(msgs);
      InFlightFrom(p);
      forall i | 0 <= i < |b|
        ensures From(b[i], msgs)
      {
        if i < |InFlight(p)| {
          FromLonger(b[i], p, msgs);
        } else {
          assert SameTags(b[i], msgs[|msgs| - 1]);
        }
      }
    }
  }

  lemma {:induction false} InFlightInOrder(msgs: seq<ActiveMsg>)
    requires AllWellFormed(msgs)
    ensures InOrder(msgs) ==> InOrder(InFlight(msgs))
  {
    if msgs != [] {
      var p, m := msgs[..|msgs| - 1], msgs[|msgs| - 1];
      var before := InFlight(p);
      InFlightInOrder(p);
      InFlightFrom(p);
      forall i | 0 <= i < |before|
        ensures InOrder(msgs) ==> before[i].serial < m.serial
      {
        var k :| 0 <= k < |p| && SameTags(before[i], p[k]);
        assert msgs[k] == p[k];
      }
    }
  }

  lemma {:induction false} SurvivorsOneEach(cfg: Config, tick: int, txs: seq<Transmission>, n: nat)
    requires AllSent(txs) && n <= |txs| && OneEach(txs)
    ensures OneEach(Survivors(cfg, tick, txs, n))
  {
    if n > 0 {
      SurvivorsOneEach(cfg, tick, txs, n - 1);
      var before := Survivors(cfg, tick, txs, n - 1);
      forall i | 0 <= i < |before|
        ensures before[i].serial != txs[n - 1].serial
      {
        var k := SurvivorOrigin(cfg, tick, txs, n - 1, i);
      }
    }
  }

  lemma StepLeavesMsgs(cfg: Config, a: Air)
    requires Tidy(a)
    ensures AllFrom(Stepped(cfg, a).msgs, a.msgs)
    ensures InOrder(a.msgs) ==> InOrder(Stepped(cfg, a).msgs)
  {
    var scanned, b := Scanned(cfg, a), Stepped(cfg, a);
    InFlightFrom(scanned);
    InFlightInOrder(scanned);
    forall i | 0 <= i < |b.msgs|
      ensures From(b.msgs[i], a.msgs)
    {
      var k :| 0 <= k < |scanned| && SameTags(b.msgs[i], scanned[k]);
      assert SameTags(b.msgs[i], a.msgs[k]);
    }
  }

  // What a step leaves was there before.
  lemma StepLeaves(cfg: Config, a: Air)
    requires Tidy(a)
    ensures var b := Stepped(cfg, a);
      && AllFrom(b.msgs, a.msgs)
      && (InOrder(a.msgs) ==> InOrder(b.msgs))
      && (OneEach(a.txs) ==> OneEach(b.txs))
      && (forall k :: 0 <= k < |b.txs| ==> b.txs[k] in a.txs && Live(b.txs[k], b.tick))
  {
    var b := Stepped(cfg, a);
    StepLeavesMsgs(cfg, a);
    if OneEach(a.txs) {
      SurvivorsOneEach(cfg, a.tick + 1, a.txs, |a.txs|);
    }
    forall k | 0 <= k < |b.txs|
      ensures b.txs[k] in a.txs && Live(b.txs[k], b.tick)
    {
      var i := SurvivorOrigin(cfg, a.tick + 1, a.txs, |a.txs|, k);
    }
  }

  lemma StepKeepsKept(cfg: Config, a: Air)
    requires Tidy(a) && Kept(a)
    ensures Kept(Stepped(cfg, a))
    ensures Apart(a) ==> Apart(Stepped(cfg, a))
  {
    var b := Stepped(cfg, a);
    StepLeaves(cfg, a);
    forall k, i | 0 <= k < |b.txs| && 0 <= i < |b.msgs|
      ensures b.txs[k].serial == b.msgs[i].serial ==> b.txs[k].msgID == b.msgs[i].id
      ensures Apart(a) && b.txs[k].msgID == b.msgs[i].id ==> b.txs[k].serial == b.msgs[i].serial
    {
      var j :| 0 <= j < |a.txs| && a.txs[j] == b.txs[k];
      var m :| 0 <= m < |a.msgs| && SameTags(b.msgs[i], a.msgs[m]);
    }
  }

  // Neither a message in flight nor a transmission still on the air at the next scan bears the id.
  predicate Unborne(a: Air, id: string) {
    && (forall i :: 0 <= i < |a.msgs| ==> a.msgs[i].id != id)
    && (forall k :: 0 <= k < |a.txs| && Live(a.txs[k], a.tick + 1) ==> a.txs[k].msgID != id)
  }

  // The id can be used again for this send: no transmission still on the air bears it and, if it goes over the air, no
  // message in flight either.
  predicate Reusable(a: Air, d: Draft) {
    && (d.signal.Some? ==> forall i :: 0 <= i < |a.msgs| ==> a.msgs[i].id != d.id)
    && (forall k :: 0 <= k < |a.txs| && Live(a.txs[k], a.tick + 1) ==> a.txs[k].msgID != d.id)
  }

  lemma PostKeepsKept(a: Air, d: Draft)
    requires Kept(a) && Sendable(d)
    ensures Kept(Posted(a, d))
    ensures Apart(a) && Reusable(a, d) ==> Apart(Posted(a, d))
  {
  }

  // ---------- Histories that use an id again only when that is safe ----------

  ghost predicate CleanHistory(hs: seq<History>, es: seq<Event>) {
    && IsHistory(hs, es)
    && forall n :: 0 <= n < |es| && es[n].Post? ==> Reusable(hs[n].air, es[n].draft)
  }

  lemma EventKeeps(h: History, e: Event)
    requires Tidy(h.air) && Possible(e) && Kept(h.air)
    ensures Kept(Extended(h, e).air)
    ensures Apart(h.air) && (e.Post? ==> Reusable(h.air, e.draft)) ==> Apart(Extended(h, e).air)
  {
    if e.Step? {
      StepKeepsKept(e.cfg, h.air);
    } else {
      PostKeepsKept(h.air, e.draft);
    }
  }

  lemma {:induction false} HistoriesKeep(hs: seq<History>, es: seq<Event>, n: nat)
    requires IsHistory(hs, es) && n <= |es|
    ensures Kept(hs[n].air)
  {
    if n > 0 {
      HistoriesKeep(hs, es, n - 1);
      assert hs[n - 1 + 1] == Extended(hs[n - 1], es[n - 1]) && Possible(es[n - 1]);
      EventKeeps(hs[n - 1], es[n - 1]);
    }
  }

  lemma {:induction false} CleanHistoriesKeep(hs: seq<History>, es: seq<Event>, n: nat)
    requires CleanHistory(hs, es) && n <= |es|
    ensures Apart(hs[n].air)
  {
    if n > 0 {
      HistoriesKeep(hs, es, n - 1);
      CleanHistoriesKeep(hs, es, n - 1);
      CleanEvent(hs, es, n - 1);
    }
  }

  lemma CleanEvent(hs: seq<History>, es: seq<Event>, n: nat)
    requires CleanHistory(hs, es) && n < |es| && Kept(hs[n].air) && Apart(hs[n].air)
    ensures Apart(hs[n + 1].air)
  {
    assert Tidy(hs[n].air) && Possible(es[n]) && hs[n + 1] == Extended(hs[n], es[n]);
    EventKeeps(hs[n], es[n]);
  }

  // ---------- The log of lost messages ----------

  lemma {:induction false} NotCounted(msgs: seq<ActiveMsg>, serial: nat)
    requires forall i :: 0 <= i < |msgs| ==> msgs[i].serial != serial
    ensures CountOf(msgs, serial) == CountOf(Losses(msgs), serial) == 0
  {
    if msgs != [] {
      NotCounted(msgs[..|msgs| - 1], serial);
    }
  }

  lemma {:induction false} LossCount(msgs: seq<ActiveMsg>, m: nat)
    requires m < |msgs| && InOrder(msgs)
    ensures CountOf(msgs, msgs[m].serial) == 1
    ensures CountOf(Losses(msgs), msgs[m].serial) == if msgs[m].collided then 1 else 0
  {
    var p, last, serial := msgs[..|msgs| - 1], msgs[|msgs| - 1], msgs[m].serial;
    if m < |p| {
      LossCount(p, m);
      assert last.serial != serial;
    } else {
      NotCounted(p, serial);
    }
    CountAppend(Losses(p), last, serial);
  }

  lemma MarkedSerials(a: seq<ActiveMsg>, b: seq<ActiveMsg>)
    requires OnlyMarked(a, b) && InOrder(a)
    ensures InOrder(b) && forall i :: 0 <= i < |b| ==> b[i].serial == a[i].serial
  {
  }

  lemma NotYetLost(h: History, m: nat)
    requires Accounted(h) && InOrder(h.air.msgs) && m < |h.air.msgs|
    ensures ReceiptsOf(h.lost, h.air.msgs[m].serial) == 0
  {
    LossCount(h.air.msgs, m);
    assert CountOf(h.air.msgs, h.air.msgs[m].serial) == 1;
  }

  lemma LostAppend(lost: seq<Receipt>, msgs: seq<ActiveMsg>, tick: int, m: nat)
    requires m < |msgs| && InOrder(msgs) && ReceiptsOf(lost, msgs[m].serial) == 0
    ensures ReceiptsOf(lost + Receipts(Losses(msgs), tick), msgs[m].serial) == if msgs[m].collided then 1 else 0
  {
    LossCount(msgs, m);
    ReceiptsAppend(lost, Losses(msgs), tick, msgs[m].serial);
  }

  lemma LostLogAt(cfg: Config, h: History, m: nat)
    requires Tidy(h.air) && InOrder(h.air.msgs) && m < |h.air.msgs| && ReceiptsOf(h.lost, h.air.msgs[m].serial) == 0
    ensures ReceiptsOf(Extended(h, Step(cfg)).lost, h.air.msgs[m].serial)
         == if Scanned(cfg, h.air)[m].collided then 1 else 0
  {
    var scanned, tick := Scanned(cfg, h.air), h.air.tick + 1;
    MarkedSerials(h.air.msgs, scanned);
    LostAppend(h.lost, scanned, tick, m);
    assert Extended(h, Step(cfg)).lost == h.lost + Receipts(Losses(scanned), tick);
  }

  // After a step the log holds a message that was in flight exactly when the scan marked it.
  lemma LostLog(cfg: Config, h: History, m: nat)
    requires Consistent(h) && Kept(h.air) && m < |h.air.msgs|
    ensures ReceiptsOf(Extended(h, Step(cfg)).lost, h.air.msgs[m].serial)
         == if Scanned(cfg, h.air)[m].collided then 1 else 0
  {
    NotYetLost(h, m);
    LostLogAt(cfg, h, m);
  }

  lemma {:induction false} LossOrigin(msgs: seq<ActiveMsg>, j: nat) returns (m: nat)
    requires j < |Losses(msgs)|
    ensures m < |msgs| && Losses(msgs)[j] == msgs[m] && msgs[m].collided
  {
    var p := msgs[..|msgs| - 1];
    if j < |Losses(p)| {
      m := LossOrigin(p, j);
    } else {
      m := |msgs| - 1;
    }
  }

  // The main result: if no id is used again while a transmission on the air bears it nor, over the air, while a
  // message in flight does, every step loses a message exactly when the scan of that step counts a collision of its
  // own transmission.
  lemma CleanStepsLoseOwn(hs: seq<History>, es: seq<Event>, n: nat, m: nat)
    requires CleanHistory(hs, es) && n < |es| && es[n].Step? && m < |hs[n].air.msgs|
    ensures Tidy(hs[n].air)
    ensures Scanned(es[n].cfg, hs[n].air)[m].collided <==> OwnHit(es[n].cfg, hs[n].air, hs[n].air.msgs[m].serial)
    ensures ReceiptsOf(hs[n + 1].lost, hs[n].air.msgs[m].serial) == 1
       <==> OwnHit(es[n].cfg, hs[n].air, hs[n].air.msgs[m].serial)
  {
    var a := hs[n].air;
    HistoriesAreSound(hs, es, n);
    HistoriesKeep(hs, es, n);
    CleanHistoriesKeep(hs, es, n);
    ApartIsLinked(a);
    LinkedMarksOwn(es[n].cfg, a);
    ScanLosesOwn(es[n].cfg, a, m);
    LostLog(es[n].cfg, hs[n], m);
  }

  lemma StepLosses(cfg: Config, h: History, j: nat) returns (m: nat)
    requires Tidy(h.air) && |h.lost| <= j < |Extended(h, Step(cfg)).lost|
    ensures m < |h.air.msgs| && Scanned(cfg, h.air)[m].collided
    ensures Extended(h, Step(cfg)).lost[j] == Receipt(Scanned(cfg, h.air)[m], h.air.tick + 1)
  {
    m := LossOrigin(Scanned(cfg, h.air), j - |h.lost|);
  }

  // So every message ever lost in such a history went in a step whose scan counted a collision of its own transmission.
  lemma {:induction false} EveryLossWasItsOwn(hs: seq<History>, es: seq<Event>, n: nat, j: nat) returns (k: nat)
    requires CleanHistory(hs, es) && n <= |es| && j < |hs[n].lost|
    ensures k < n && es[k].Step? && Tidy(hs[k].air) && hs[n].lost[j].tick == hs[k].air.tick + 1
    ensures OwnHit(es[k].cfg, hs[k].air, hs[n].lost[j].msg.serial)
  {
    k := n - 1;
    assert hs[k + 1] == Extended(hs[k], es[k]) && Possible(es[k]);
    if j < |hs[k].lost| {
      assert hs[n].lost[j] == hs[k].lost[j];
      k := EveryLossWasItsOwn(hs, es, k, j);
    } else {
      var m := StepLosses(es[k].cfg, hs[k], j);
      CleanStepsLoseOwn(hs, es, k, m);
    }
  }

  // ---------- When a post keeps the marks right, exactly ----------

  lemma {:induction false} FirstOfAppend(msgs: seq<ActiveMsg>, m: ActiveMsg, id: string, serial: nat)
    ensures var i := FirstWithId(msgs, id);
      FirstWithId(msgs + [m], id) == if i < |msgs| then i else if m.id == id then |msgs| else |msgs| + 1
    ensures var i := FirstWithSerial(msgs, serial);
      FirstWithSerial(msgs + [m], serial) == if i < |msgs| then i else if m.serial == serial then |msgs| else |msgs| + 1
  {
    var all := msgs + [m];
    assert forall k :: 0 <= k < |msgs| ==> all[k] == msgs[k];
    assert all[|msgs|] == m;
  }

  // If a message in flight bears the id, it is not sent over the air; if none does, no transmission on the air bears
  // it.
  ghost predicate Fits(a: Air, d: Draft) {
    if FirstWithId(a.msgs, d.id) < |a.msgs| then d.signal.None?
    else forall k :: 0 <= k < |a.txs| && Live(a.txs[k], a.tick + 1) ==> a.txs[k].msgID != d.id
  }

  // For one transmission already on the air.
  lemma StillFinds(a: Air, d: Draft, k: nat)
    requires Kept(a) && Sendable(d) && k < |a.txs| && FindsOwn(a.msgs, a.txs[k])
    ensures FindsOwn(Posted(a, d).msgs, a.txs[k])
       <==> (FirstWithSerial(a.msgs, a.txs[k].serial) == |a.msgs| ==> a.txs[k].msgID != d.id)
  {
    FirstOfAppend(a.msgs, Posted(a, d).msgs[|a.msgs|], a.txs[k].msgID, a.txs[k].serial);
  }

  lemma NewFinds(a: Air, d: Draft)
    requires Kept(a) && Sendable(d) && d.signal.Some?
    ensures FindsOwn(Posted(a, d).msgs, Aired(d.id, d.signal.value, a.tick, a.sent))
       <==> FirstWithId(a.msgs, d.id) == |a.msgs|
  {
    FirstOfAppend(a.msgs, Fresh(d.id, d.path, d.perHop, d.size, d.msgType, a.sent, a.tick), d.id, a.sent);
  }

  lemma PostStaysLinkedExactly(a: Air, d: Draft)
    requires Kept(a) && Linked(a) && Sendable(d)
    ensures Linked(Posted(a, d)) <==> Fits(a, d)
  {
    var b := Posted(a, d);
    forall k | 0 <= k < |a.txs| && Live(a.txs[k], a.tick + 1)
      ensures b.txs[k] == a.txs[k]
      ensures FindsOwn(b.msgs, a.txs[k])
         <==> (FirstWithSerial(a.msgs, a.txs[k].serial) == |a.msgs| ==> a.txs[k].msgID != d.id)
    {
      StillFinds(a, d, k);
    }
    if d.signal.Some? {
      NewFinds(a, d);
      assert b.txs[|a.txs|] == Aired(d.id, d.signal.value, a.tick, a.sent);
    }
  }

  // Nobody but the sender's own node need send to make a transmission on the air collide.
  function Rival(t: Transmission, to: Node): Draft
    requires t.fromNode != null
  {
    Draft(MsgID(t.fromNode, to), [t.fromNode.peerID, to.peerID], 1, 1, "text", Some(Signal(t.fromNode, 1, t.sf)))
  }

  // No message from a node on the air to this one is in flight or on the air.
  ghost predicate Free(b: Air, to: Node) {
    forall k :: 0 <= k < |b.txs| && Live(b.txs[k], b.tick + 1) && b.txs[k].fromNode != null
      ==> Unborne(b, MsgID(b.txs[k].fromNode, to))
  }

  // A transmission on the air can be made to collide: its own node sends once more.
  lemma CanCollide(cfg: Config, a: Air, k: nat, to: Node)
    requires Tidy(a) && Kept(a) && k < |a.txs| && Live(a.txs[k], a.tick + 1) && cfg.loRaRange >= 0.0
    ensures var c := Rival(a.txs[k], to);
      Sendable(c) && Tidy(Posted(a, c)) && InPair(NextPairs(cfg, Posted(a, c)), k)
  {
    var c := Rival(a.txs[k], to);
    var b := Posted(a, c);
    PostKeepsTidy(a, c);
    SameNodeCollides(cfg, a.tick + 1, b.txs, k, |a.txs|);
    CountedIsPair(cfg, a.tick + 1, b.txs, k, k, |b.txs|);
  }

  lemma SameNodeCollides(cfg: Config, tick: int, txs: seq<Transmission>, i: nat, j: nat)
    requires AllSent(txs) && i < j < |txs| && Live(txs[i], tick) && Live(txs[j], tick) && cfg.loRaRange >= 0.0
    requires txs[i].fromNode == txs[j].fromNode && txs[i].sf == txs[j].sf
    requires txs[i].startTick < tick && txs[j].startTick < tick
    ensures Collides(cfg, tick, txs, i)
  {
    SameNodeConflicts(cfg, txs[i], txs[j]);
    PartnerFromIs(cfg, tick, txs, i, i + 1);
  }

  lemma SameNodeConflicts(cfg: Config, s: Transmission, t: Transmission)
    requires s.fromNode != null && s.fromNode == t.fromNode && s.sf == t.sf && cfg.loRaRange >= 0.0
    requires s.endTick >= t.startTick && t.endTick >= s.startTick
    ensures Conflict(cfg, s, t)
  {
    var zero := 0.0;
    assert zero * cfg.cellWidth == 0.0 && zero * cfg.cellHeight == 0.0;
    assert cfg.loRaRange * cfg.loRaRange >= 0.0;
  }

  // Collision g counts transmission k.
  predicate Counts(cfg: Config, tick: int, txs: seq<Transmission>, g: nat, k: nat)
    requires AllSent(txs) && g < |txs|
  {
    Collides(cfg, tick, txs, g) && (g == k || Partner(cfg, tick, txs, g) == k)
  }

  lemma {:induction false} CountedIsPair(cfg: Config, tick: int, txs: seq<Transmission>, g: nat, k: nat, n: nat)
    requires AllSent(txs) && g < n <= |txs| && Counts(cfg, tick, txs, g, k)
    ensures InPair(Pairs(cfg, tick, txs, n), k)
  {
    var pairs := Pairs(cfg, tick, txs, n);
    if g < n - 1 {
      CountedIsPair(cfg, tick, txs, g, k, n - 1);
      var before := Pairs(cfg, tick, txs, n - 1);
      var j :| 0 <= j < |before| && (before[j].0 == k || before[j].1 == k);
      assert pairs[j] == before[j];
    } else {
      assert pairs[|pairs| - 1] == (g, Partner(cfg, tick, txs, g));
    }
  }

  lemma PostKeepsTidy(a: Air, d: Draft)
    requires Tidy(a) && Sendable(d)
    ensures Tidy(Posted(a, d))
  {
    FreshIsProgressed(d.id, d.path, d.perHop, d.size, d.msgType, a.sent, a.tick);
  }

  lemma UnborneFits(a: Air, d: Draft)
    requires Unborne(a, d.id)
    ensures Fits(a, d)
  {
  }

  // A state whose marks would go astray shows it after one more send to a node that no message is on its way to.
  lemma StrayShows(cfg: Config, b: Air, to: Node) returns (c: Draft)
    requires Tidy(b) && Kept(b) && !Linked(b) && Free(b, to) && cfg.loRaRange >= 0.0
    ensures Sendable(c) && Unborne(b, c.id) && Tidy(Posted(b, c)) && !MarksOwn(cfg, Posted(b, c))
  {
    var k :| 0 <= k < |b.txs| && Live(b.txs[k], b.tick + 1) && !FindsOwn(b.msgs, b.txs[k]);
    c := Rival(b.txs[k], to);
    CanCollide(cfg, b, k, to);
    FirstOfAppend(b.msgs, Posted(b, c).msgs[|b.msgs|], b.txs[k].msgID, b.txs[k].serial);
    assert Posted(b, c).txs[k] == b.txs[k];
  }

  // After this send and another one under an id not in use, the marks of the next scan find the messages of the
  // colliding transmissions.
  ghost predicate RightAfter(cfg: Config, a: Air, d: Draft, c: Draft)
    requires Sendable(d)
  {
    Sendable(c) && Unborne(Posted(a, d), c.id) ==>
      Tidy(Posted(Posted(a, d), c)) && MarksOwn(cfg, Posted(Posted(a, d), c))
  }

  lemma FitsIsRight(cfg: Config, a: Air, d: Draft, c: Draft)
    requires Tidy(a) && Kept(a) && Linked(a) && Sendable(d) && Fits(a, d)
    ensures RightAfter(cfg, a, d, c)
  {
    if Sendable(c) && Unborne(Posted(a, d), c.id) {
      PostKeepsTidy(a, d);
      PostKeepsKept(a, d);
      PostStaysLinkedExactly(a, d);
      PostKeepsTidy(Posted(a, d), c);
      UnborneFits(Posted(a, d), c);
      PostStaysLinkedExactly(Posted(a, d), c);
      LinkedMarksOwn(cfg, Posted(Posted(a, d), c));
    }
  }

  // The main result about marks up to the next scan: as long as some node is free to be sent to, whatever is sent next
  // under an id not in use, the marks of the next scan find the messages of the colliding transmissions if and only if
  // the send fits.
  lemma MarksOwnExactly(cfg: Config, a: Air, d: Draft, to: Node)
    requires Tidy(a) && Kept(a) && Linked(a) && Sendable(d) && cfg.loRaRange >= 0.0 && Free(Posted(a, d), to)
    ensures (forall c: Draft :: RightAfter(cfg, a, d, c)) <==> Fits(a, d)
  {
    if Fits(a, d) {
      forall c: Draft
        ensures RightAfter(cfg, a, d, c)
      {
        FitsIsRight(cfg, a, d, c);
      }
    } else {
      PostKeepsTidy(a, d);
      PostKeepsKept(a, d);
      PostStaysLinkedExactly(a, d);
      var c := StrayShows(cfg, Posted(a, d), to);
      assert !RightAfter(cfg, a, d, c);
    }
  }

  // ---------- What goes wrong otherwise ----------

  // The history after a send, one more send, and a step.
  function AfterTwoSends(h: History, d: Draft, c: Draft, cfg: Config): History
    requires Tidy(h.air) && Sendable(d) && Sendable(c)
    requires Tidy(Posted(h.air, d)) && Tidy(Posted(Posted(h.air, d), c))
  {
    Extended(Extended(Extended(h, Post(d)), Post(c)), Step(cfg))
  }

  // The id of a message in flight, sent again over the air: one more send of the same node to another one and a step,
  // and the second message has collided and is not lost, while the first one is.
  lemma BusyIdMisleads(cfg: Config, h: History, d: Draft, to: Node) returns (c: Draft)
    requires Consistent(h) && Kept(h.air) && cfg.loRaRange >= 0.0
    requires Sendable(d) && d.signal.Some? && FirstWithId(h.air.msgs, d.id) < |h.air.msgs|
    requires Unborne(Posted(h.air, d), MsgID(d.signal.value.fromNode, to))
    ensures Sendable(c) && c.id == MsgID(d.signal.value.fromNode, to)
    ensures Tidy(Posted(h.air, d)) && Tidy(Posted(Posted(h.air, d), c))
    ensures OwnHit(cfg, Posted(Posted(h.air, d), c), h.air.sent)
    ensures var lost := AfterTwoSends(h, d, c, cfg).lost;
      && ReceiptsOf(lost, h.air.sent) == 0
      && ReceiptsOf(lost, h.air.msgs[FirstWithId(h.air.msgs, d.id)].serial) == 1
  {
    var a, b := h.air, Posted(h.air, d);
    var first := FirstWithId(a.msgs, d.id);
    PostKeepsConsistent(d, h);
    PostKeepsKept(a, d);
    CanCollide(cfg, b, |a.txs|, to);
    c := Rival(b.txs[|a.txs|], to);
    PostKeepsConsistent(c, Extended(h, Post(d)));
    PostKeepsKept(b, c);
    BusyFinds(a, d, c);
    LostExactly(cfg, Posted(b, c), |a.msgs|);
    LostExactly(cfg, Posted(b, c), first);
    LostLog(cfg, Extended(Extended(h, Post(d)), Post(c)), |a.msgs|);
    LostLog(cfg, Extended(Extended(h, Post(d)), Post(c)), first);
  }

  lemma BusyFinds(a: Air, d: Draft, c: Draft)
    requires Sendable(d) && Sendable(c) && d.signal.Some? && FirstWithId(a.msgs, d.id) < |a.msgs|
    ensures var e, first := Posted(Posted(a, d), c), FirstWithId(a.msgs, d.id);
      && e.msgs[first] == a.msgs[first] && e.msgs[|a.msgs|].serial == a.sent
      && e.txs[|a.txs|].msgID == d.id && e.txs[|a.txs|].serial == a.sent
      && FirstWithId(e.msgs, d.id) == first
      && forall x: string :: FirstWithId(e.msgs, x) != |a.msgs|
  {
    var e := Posted(Posted(a, d), c);
    assert e.txs[|a.txs|] == Aired(d.id, d.signal.value, a.tick, a.sent);
    assert e.msgs[..|a.msgs|] == a.msgs && e.msgs[|a.msgs|].id == d.id;
    BusyFirst(a.msgs, e.msgs, d.id);
  }

  lemma BusyFirst(msgs: seq<ActiveMsg>, longer: seq<ActiveMsg>, id: string)
    requires FirstWithId(msgs, id) < |msgs| < |longer| && longer[..|msgs|] == msgs && longer[|msgs|].id == id
    ensures FirstWithId(longer, id) == FirstWithId(msgs, id)
    ensures forall x: string :: FirstWithId(longer, x) != |msgs|
  {
    var i := FirstWithId(msgs, id);
    assert longer[i] == msgs[i];
    assert forall k :: 0 <= k < i ==> longer[k] == msgs[k];
  }

  // The id of a transmission still on the air whose message is gone, used by a message that is not sent over the air:
  // one more send of the transmission's node to another one and a step, and this message is lost.
  lemma OrphanMisleads(cfg: Config, h: History, d: Draft, k: nat, to: Node) returns (c: Draft)
    requires Consistent(h) && Kept(h.air) && cfg.loRaRange >= 0.0
    requires Sendable(d) && d.signal.None? && FirstWithId(h.air.msgs, d.id) == |h.air.msgs|
    requires k < |h.air.txs| && Live(h.air.txs[k], h.air.tick + 1) && h.air.txs[k].msgID == d.id
    requires h.air.txs[k].fromNode != null && Unborne(Posted(h.air, d), MsgID(h.air.txs[k].fromNode, to))
    ensures Sendable(c) && c.id == MsgID(h.air.txs[k].fromNode, to)
    ensures Tidy(Posted(h.air, d)) && Tidy(Posted(Posted(h.air, d), c))
    ensures !OwnHit(cfg, Posted(Posted(h.air, d), c), h.air.sent)
    ensures ReceiptsOf(AfterTwoSends(h, d, c, cfg).lost, h.air.sent) == 1
  {
    var a, b := h.air, Posted(h.air, d);
    PostKeepsConsistent(d, h);
    PostKeepsKept(a, d);
    CanCollide(cfg, b, k, to);
    c := Rival(b.txs[k], to);
    PostKeepsConsistent(c, Extended(h, Post(d)));
    PostKeepsKept(b, c);
    OrphanFinds(a, d, c, k);
    LostExactly(cfg, Posted(b, c), |a.msgs|);
    LostLog(cfg, Extended(Extended(h, Post(d)), Post(c)), |a.msgs|);
  }

  lemma OrphanFinds(a: Air, d: Draft, c: Draft, k: nat)
    requires Kept(a) && Sendable(d) && Sendable(c) && d.signal.None? && FirstWithId(a.msgs, d.id) == |a.msgs|
    requires k < |a.txs| && a.txs[k].msgID == d.id
    ensures var e := Posted(Posted(a, d), c);
      && e.msgs[|a.msgs|].serial == a.sent && !e.msgs[|a.msgs|].collided && e.txs[k] == a.txs[k]
      && FirstWithId(e.msgs, d.id) == |a.msgs|
      && forall j :: 0 <= j < |e.txs| ==> e.txs[j].serial != a.sent
  {
    var b := Posted(a, d);
    var e := Posted(b, c);
    FirstOfAppend(a.msgs, b.msgs[|a.msgs|], d.id, 0);
    FirstOfAppend(b.msgs, e.msgs[|b.msgs|], d.id, 0);
  }
}
