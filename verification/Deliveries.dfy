// What arrives in simulation/world.go is what was sent: over whole histories every message in flight, delivered or lost
// is the one posted under its serial, and a node is credited with the messages addressed to it.
module Deliveries {
  import opened Prelude
  import opened Ledger
  import opened MeshNode
  import opened Messages
  import opened Airwaves
  import opened Traffic

  // ---------- What was posted, in order ----------

  function Posts(es: seq<Event>): seq<Draft> {
    if es == [] then [] else
    var before, e := Posts(es[..|es| - 1]), es[|es| - 1];
    if e.Post? then before + [e.draft] else before
  }

  function Steps(es: seq<Event>): nat {
    if es == [] then 0 else Steps(es[..|es| - 1]) + if es[|es| - 1].Step? then 1 else 0
  }

  // How many steps had gone before each post.
  function PostTicks(es: seq<Event>): (r: seq<nat>)
    ensures |r| == |Posts(es)|
  {
    if es == [] then [] else
    var before, e := es[..|es| - 1], es[|es| - 1];
    PostTicks(before) + if e.Post? then [Steps(before)] else []
  }

  // The message is the one of the draft, sent at that tick: from the first entry of its path to the last one.
  predicate Carries(m: ActiveMsg, d: Draft, tick: int) {
    && d.path != [] && m.from == d.path[0] && m.to == d.path[|d.path| - 1] && m.path == d.path
    && m.id == d.id && m.size == d.size && m.msgType == d.msgType && m.sentAt == tick
    && m.total == var ticks := d.perHop * (|d.path| - 1); if ticks > 3000 then 3000 else ticks
  }

  // It is the one posted under its serial.
  predicate Traced(es: seq<Event>, m: ActiveMsg) {
    m.serial < |Posts(es)| && Carries(m, Posts(es)[m.serial], PostTicks(es)[m.serial])
  }

  predicate AllTraced(es: seq<Event>, msgs: seq<ActiveMsg>) {
    forall i :: 0 <= i < |msgs| ==> Traced(es, msgs[i])
  }

  predicate ReceiptsTraced(es: seq<Event>, rs: seq<Receipt>) {
    forall i :: 0 <= i < |rs| ==> Traced(es, rs[i].msg)
  }

  ghost predicate HistoryTraced(es: seq<Event>, h: History) {
    && h.air.sent == |Posts(es)| && h.air.tick == Steps(es)
    && AllTraced(es, h.air.msgs) && ReceiptsTraced(es, h.delivered) && ReceiptsTraced(es, h.lost)
  }

  lemma PostsSnoc(es: seq<Event>, e: Event)
    ensures Posts(es + [e]) == Posts(es) + if e.Post? then [e.draft] else []
    ensures PostTicks(es + [e]) == PostTicks(es) + if e.Post? then [Steps(es)] else []
    ensures Steps(es + [e]) == Steps(es) + if e.Step? then 1 else 0
  {
    assert (es + [e])[..|es|] == es;
  }

  lemma TracedSnoc(es: seq<Event>, msgs: seq<ActiveMsg>, m: ActiveMsg)
    requires AllTraced(es, msgs) && Traced(es, m)
    ensures AllTraced(es, msgs + [m])
  {
  }

  lemma AdvancedTraced(es: seq<Event>, m: ActiveMsg)
    requires WellFormed(m) && Traced(es, m)
    ensures Traced(es, Advanced(m))
  {
  }

  lemma {:induction false} PassKeepsTraced(es: seq<Event>, msgs: seq<ActiveMsg>)
    requires AllWellFormed(msgs) && AllTraced(es, msgs)
    ensures AllTraced(es, InFlight(msgs)) && AllTraced(es, Arrivals(msgs)) && AllTraced(es, Losses(msgs))
  {
    if msgs != [] {
      var p, m := msgs[..|msgs| - 1], msgs[|msgs| - 1];
      PassKeepsTraced(es, p);
      AdvancedTraced(es, m);
      TracedSnoc(es, InFlight(p), Advanced(m));
      TracedSnoc(es, Arrivals(p), Advanced(m));
      TracedSnoc(es, Losses(p), m);
    }
  }

  lemma StepTraced(es: seq<Event>, h: History, cfg: Config)
    requires Tidy(h.air) && HistoryTraced(es, h)
    ensures HistoryTraced(es + [Step(cfg)], Extended(h, Step(cfg)))
  {
    var msgs, longer := Scanned(cfg, h.air), es + [Step(cfg)];
    PostsSnoc(es, Step(cfg));
    assert forall m :: Traced(es, m) ==> Traced(longer, m);
    assert AllTraced(es, msgs);
    PassKeepsTraced(es, msgs);
  }

  lemma PostTraced(es: seq<Event>, h: History, d: Draft)
    requires Sendable(d) && Tidy(h.air) && HistoryTraced(es, h)
    ensures HistoryTraced(es + [Post(d)], Extended(h, Post(d)))
  {
    var longer := es + [Post(d)];
    var m := Fresh(d.id, d.path, d.perHop, d.size, d.msgType, h.air.sent, h.air.tick);
    PostsSnoc(es, Post(d));
    assert forall m :: Traced(es, m) ==> Traced(longer, m);
    MulAtLeast(d.perHop, |d.path| - 1);
    assert Carries(m, d, h.air.tick);
    assert Traced(longer, m);
  }

  lemma {:induction false} HistoriesAreTraced(hs: seq<History>, es: seq<Event>, n: nat)
    requires IsHistory(hs, es) && n <= |es|
    ensures HistoryTraced(es[..n], hs[n])
  {
    if n > 0 {
      HistoriesAreTraced(hs, es, n - 1);
      var e := es[n - 1];
      assert hs[n - 1 + 1] == Extended(hs[n - 1], e) && Possible(e);
      assert es[..n] == es[..n - 1] + [e];
      if e.Step? {
        StepTraced(es[..n - 1], hs[n - 1], e.cfg);
      } else {
        PostTraced(es[..n - 1], hs[n - 1], e.draft);
      }
    }
  }

  // The main result: a delivered message goes from the first to the last entry of the path it was posted with, with the
  // size and type it was posted with, and arrives its per-hop delay times the number of hops, at most 3000 ticks, after
  // the tick of its post.
  lemma DeliveredAsPosted(hs: seq<History>, es: seq<Event>, i: nat)
    requires IsHistory(hs, es) && i < |hs[|es|].delivered|
    ensures var r := hs[|es|].delivered[i];
      r.msg.serial < |Posts(es)| &&
      var d, sent := Posts(es)[r.msg.serial], PostTicks(es)[r.msg.serial];
      var hops := |d.path| - 1;
      && hops >= 1 && r.msg.from == d.path[0] && r.msg.to == d.path[hops] && r.msg.path == d.path
      && r.msg.id == d.id && r.msg.size == d.size && r.msg.msgType == d.msgType
      && r.tick == sent + if d.perHop * hops > 3000 then 3000 else d.perHop * hops
  {
    HistoriesAreTraced(hs, es, |es|);
    HistoriesAreSound(hs, es, |es|);
    assert es[..|es|] == es;
    assert Traced(es, hs[|es|].delivered[i].msg);
    assert AckState(hs[|es|].delivered[i].msg);
  }

  // ---------- Whom the passes credit ----------

  // How many messages, or files, the passes of a history credit to a node; nodes lists the nodes there are at each
  // tick.
  ghost function Credited(nodes: int -> seq<Node>, hs: seq<History>, es: seq<Event>, n: nat, node: Node,
          files: bool): nat
    requires IsHistory(hs, es) && n <= |es|
  {
    if n == 0 then 0 else
    var before, a := Credited(nodes, hs, es, n - 1, node, files), hs[n - 1].air;
    before + match es[n - 1]
             case Step(cfg) => ReceivedBy(nodes(a.tick + 1), Scanned(cfg, a), node, files)
             case Post(_) => 0
  }

  // How many of the receipts are for messages, or files, posted to a node.
  ghost function PostedTo(nodes: int -> seq<Node>, es: seq<Event>, rs: seq<Receipt>, node: Node, files: bool): nat
    requires forall i :: 0 <= i < |rs| ==> rs[i].msg.serial < |Posts(es)| && Posts(es)[rs[i].msg.serial].path != []
  {
    if rs == [] then 0 else
    var last := rs[|rs| - 1];
    var d := Posts(es)[last.msg.serial];
    PostedTo(nodes, es, rs[..|rs| - 1], node, files)
      + if FirstPeer(nodes(last.tick), d.path[|d.path| - 1])
        == Some(node) && (files ==> d.msgType == "file") then 1 else 0
  }

  ghost function MarkedFor(nodes: int -> seq<Node>, rs: seq<Receipt>, node: Node, files: bool): nat {
    if rs == [] then 0 else
    var last := rs[|rs| - 1];
    MarkedFor(nodes, rs[..|rs| - 1], node, files)
      + if FirstPeer(nodes(last.tick), last.msg.to)
        == Some(node) && (files ==> last.msg.msgType == "file") then 1 else 0
  }

  lemma {:induction false} ReceivedAreMarked(nodes: int -> seq<Node>, rs: seq<Receipt>, msgs: seq<ActiveMsg>,
          tick: int, node: Node, files: bool)
    requires AllWellFormed(msgs)
    ensures MarkedFor(nodes, rs + Receipts(Arrivals(msgs), tick), node, files)
         == MarkedFor(nodes, rs, node, files) + ReceivedBy(nodes(tick), msgs, node, files)
  {
    if msgs == [] {
      assert rs + Receipts(Arrivals(msgs), tick) == rs;
    } else {
      var p, m := msgs[..|msgs| - 1], msgs[|msgs| - 1];
      ReceivedAreMarked(nodes, rs, p, tick, node, files);
      if Arrives(m) {
        var longer := rs + Receipts(Arrivals(msgs), tick);
        assert longer == rs + Receipts(Arrivals(p), tick) + [Receipt(Advanced(m), tick)];
        assert longer[..|longer| - 1] == rs + Receipts(Arrivals(p), tick);
      }
    }
  }

  lemma {:induction false} CreditedAreMarked(nodes: int -> seq<Node>, hs: seq<History>, es: seq<Event>, n: nat,
          node: Node, files: bool)
    requires IsHistory(hs, es) && n <= |es|
    ensures Credited(nodes, hs, es, n, node, files) == MarkedFor(nodes, hs[n].delivered, node, files)
  {
    if n > 0 {
      CreditedAreMarked(nodes, hs, es, n - 1, node, files);
      var h, e := hs[n - 1], es[n - 1];
      assert hs[n - 1 + 1] == Extended(h, e);
      if e.Step? {
        ReceivedAreMarked(nodes, h.delivered, Scanned(e.cfg, h.air), h.air.tick + 1, node, files);
      }
    }
  }

  lemma {:induction false} MarkedArePosted(nodes: int -> seq<Node>, es: seq<Event>, rs: seq<Receipt>, node: Node,
          files: bool)
    requires ReceiptsTraced(es, rs)
    ensures forall i :: 0 <= i < |rs| ==> rs[i].msg.serial < |Posts(es)| && Posts(es)[rs[i].msg.serial].path != []
    ensures MarkedFor(nodes, rs, node, files) == PostedTo(nodes, es, rs, node, files)
  {
    if rs != [] {
      MarkedArePosted(nodes, es, rs[..|rs| - 1], node, files);
      assert Traced(es, rs[|rs| - 1].msg);
    }
  }

  // The main result about the counters: what the passes of a history credit to a node is the number of delivered
  // messages posted to it, and likewise for files.
  lemma CreditedAsPosted(nodes: int -> seq<Node>, hs: seq<History>, es: seq<Event>, node: Node, files: bool)
    requires IsHistory(hs, es)
    ensures var rs := hs[|es|].delivered;
      && (forall i :: 0 <= i < |rs| ==> rs[i].msg.serial < |Posts(es)| && Posts(es)[rs[i].msg.serial].path != [])
      && Credited(nodes, hs, es, |es|, node, files) == PostedTo(nodes, es, rs, node, files)
  {
    HistoriesAreTraced(hs, es, |es|);
    assert es[..|es|] == es;
    CreditedAreMarked(nodes, hs, es, |es|, node, files);
    MarkedArePosted(nodes, es, hs[|es|].delivered, node, files);
  }
}
