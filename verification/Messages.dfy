// Messages in flight in simulation/world.go: the tick countdown, the hop-by-hop ACKs by floor division, and
// one delivery pass over the active messages.
module Messages {
  import opened Prelude
  import opened MeshNode

  // serial and sentAt are bookkeeping of this model (how many messages had been sent before, and the tick of
  // sending); no operation looks at them.
  datatype ActiveMsg = ActiveMsg(id: string, from: string, to: string, path: seq<string>, remaining: int, total: int,
                                 size: int, msgType: string, acks: seq<bool>, collided: bool, serial: nat, sentAt: int)

  const MAX_TICKS := 3000

  // ---------- Sending ----------

  // The tick count of a message: the per-hop delay times the number of hops, held between 1 and 3000.
  function TotalTicks(perHop: int, path: seq<string>): (ticks: int)
    requires perHop >= 1 && |path| >= 2
    ensures 1 <= ticks <= MAX_TICKS
    ensures ticks >= |path| - 1 || ticks == MAX_TICKS
  {
    MulAtLeast(perHop, |path| - 1);
    var ticks := perHop * (|path| - 1);
    if ticks < 1 then 1 else if ticks > MAX_TICKS then MAX_TICKS else ticks
  }

  lemma MulAtLeast(x: int, y: int)
    requires x >= 1 && y >= 0
    ensures x * y >= y
  {
  }

  function Fresh(id: string, path: seq<string>, perHop: int, size: int, msgType: string, serial: nat,
          now: int): ActiveMsg
    requires perHop >= 1 && |path| >= 2
  {
    var ticks := TotalTicks(perHop, path);
    ActiveMsg(id, path[0], path[|path| - 1], path, ticks, ticks, size, msgType,
              seq(|path| - 1, _ => false), false, serial, now)
  }

  // ---------- One tick of one message ----------

  predicate WellFormed(m: ActiveMsg) {
    |m.path| >= 2 && |m.acks| == |m.path| - 1 && 1 <= m.remaining <= m.total
  }

  // The hop acknowledged when r ticks remain of t, on a path of p hops.
  function HopIndex(p: int, r: int, t: int): int
    requires t > 0
  {
    p - 1 - r * p / t
  }

  function Advanced(m: ActiveMsg): ActiveMsg
    requires WellFormed(m)
  {
    var r := m.remaining - 1;
    var k := HopIndex(|m.path| - 1, r, m.total);
    m.(remaining := r, acks := if r < m.total && 0 <= k < |m.acks| then m.acks[k := true] else m.acks)
  }

  // ---------- One delivery pass ----------

  predicate AllWellFormed(msgs: seq<ActiveMsg>) {
    forall i :: 0 <= i < |msgs| ==> WellFormed(msgs[i])
  }

  predicate Arrives(m: ActiveMsg)
    requires WellFormed(m)
  {
    !m.collided && Advanced(m).remaining <= 0
  }

  predicate Stays(m: ActiveMsg)
    requires WellFormed(m)
  {
    !m.collided && Advanced(m).remaining > 0
  }

  function InFlight(msgs: seq<ActiveMsg>): (r: seq<ActiveMsg>)
    requires AllWellFormed(msgs)
    ensures |r| <= |msgs|
  {
    if msgs == [] then [] else
    var before, m := InFlight(msgs[..|msgs| - 1]), msgs[|msgs| - 1];
    if Stays(m) then before + [Advanced(m)] else before
  }

  function Arrivals(msgs: seq<ActiveMsg>): seq<ActiveMsg>
    requires AllWellFormed(msgs)
  {
    if msgs == [] then [] else
    var before, m := Arrivals(msgs[..|msgs| - 1]), msgs[|msgs| - 1];
    if Arrives(m) then before + [Advanced(m)] else before
  }

  function Losses(msgs: seq<ActiveMsg>): seq<ActiveMsg> {
    if msgs == [] then [] else
    var before, m := Losses(msgs[..|msgs| - 1]), msgs[|msgs| - 1];
    if m.collided then before + [m] else before
  }

  // The countdown and ACK of the message in slot i.
  method AdvanceSlot(a: array<ActiveMsg>, i: nat)
    requires i < a.Length && WellFormed(a[i])
    modifies a
    ensures a[..] == old(a[..])[i := Advanced(old(a[i]))]
  {
    var r := a[i].remaining - 1;
    a[i] := a[i].(remaining := r);
    if r < a[i].total {
      var hopIndex := |a[i].path| - 2 - r * (|a[i].path| - 1) / a[i].total;
      if 0 <= hopIndex < |a[i].acks| {
        a[i] := a[i].(acks := a[i].acks[hopIndex := true]);
      }
    }
  }

  lemma PassStep(msgs: seq<ActiveMsg>, i: nat)
    requires i < |msgs| && AllWellFormed(msgs)
    ensures AllWellFormed(msgs[..i]) && AllWellFormed(msgs[..i + 1])
    ensures var m := msgs[i];
      && InFlight(msgs[..i + 1]) == (if Stays(m) then InFlight(msgs[..i]) + [Advanced(m)] else InFlight(msgs[..i]))
      && Arrivals(msgs[..i + 1]) == (if Arrives(m) then Arrivals(msgs[..i]) + [Advanced(m)] else Arrivals(msgs[..i]))
  {
    assert msgs[..i + 1][..i] == msgs[..i];
  }

  // The message arrives at this node and, if only files count, is a file.
  ghost predicate Counted(all: seq<Node>, m: ActiveMsg, node: Node, files: bool)
    requires WellFormed(m)
  {
    Arrives(m) && FirstPeer(all, m.to) == Some(node) && (files ==> m.msgType == "file")
  }

  // How many of the messages, or of the files among them, the pass counts as received by a node.
  ghost function ReceivedBy(all: seq<Node>, msgs: seq<ActiveMsg>, node: Node, files: bool): nat
    requires AllWellFormed(msgs)
  {
    if msgs == [] then 0 else
    var before, m := ReceivedBy(all, msgs[..|msgs| - 1], node, files), msgs[|msgs| - 1];
    before + if Counted(all, m, node, files) then 1 else 0
  }

  lemma ReceivedStep(all: seq<Node>, msgs: seq<ActiveMsg>, i: nat, node: Node, files: bool)
    requires i < |msgs| && AllWellFormed(msgs)
    ensures AllWellFormed(msgs[..i]) && AllWellFormed(msgs[..i + 1])
    ensures ReceivedBy(all, msgs[..i + 1], node, files) == ReceivedBy(all, msgs[..i], node, files)
      + if Counted(all, msgs[i], node, files) then 1 else 0
  {
    assert msgs[..i + 1][..i] == msgs[..i];
  }

  // One round of the pass: the message in slot i is dropped, delivered, or moved down to slot kept.
  method PassSlot(a: array<ActiveMsg>, i: nat, kept: nat, all: seq<Node>) returns (kept': nat, delivered: bool)
    requires kept <= i < a.Length && WellFormed(a[i])
    modifies a, (set n | n in all)`receivedCount, (set n | n in all)`fileReceived
    ensures kept' <= i + 1
    ensures var m := old(a[i]);
      a[..kept'] == (if Stays(m) then old(a[..kept]) + [Advanced(m)] else old(a[..kept])) && delivered == Arrives(m)
    ensures forall j :: i < j < a.Length ==> a[j] == old(a[j])
    ensures forall n :: n in all ==>
      n.receivedCount == old(n.receivedCount) + if delivered && FirstPeer(all, old(a[i]).to) == Some(n) then 1 else 0
    ensures var file := old(a[i]).msgType == "file"; forall n :: n in all ==>
      n.fileReceived
        == old(n.fileReceived) + if delivered && file && FirstPeer(all, old(a[i]).to) == Some(n) then 1 else 0
  {
    kept', delivered := kept, false;
    if a[i].collided {
      return;
    }
    ghost var head := a[..kept];
    AdvanceSlot(a, i);
    assert a[..kept] == head;
    if a[i].remaining <= 0 {
      CountReceived(all, a[i].to, a[i].msgType == "file");
      delivered := true;
    } else {
      a[kept] := a[i];
      kept' := kept + 1;
      assert a[..kept'] == head + [Advanced(old(a[i]))];
    }
  }

  // The round against the pass over the messages as they were.
  method PassRound(a: array<ActiveMsg>, ghost before: seq<ActiveMsg>, i: nat, kept: nat, all: seq<Node>)
    returns (kept': nat, delivered: bool)
    requires kept <= i < |before| <= a.Length && AllWellFormed(before) && a[i] == before[i]
    requires AllWellFormed(before[..i]) && a[..kept] == InFlight(before[..i])
    modifies a, (set n | n in all)`receivedCount, (set n | n in all)`fileReceived
    ensures kept' <= i + 1 && AllWellFormed(before[..i + 1]) && a[..kept'] == InFlight(before[..i + 1])
    ensures |Arrivals(before[..i + 1])| == |Arrivals(before[..i])| + if delivered then 1 else 0
    ensures forall j :: i < j < a.Length ==> a[j] == old(a[j])
    ensures forall n :: n in all ==>
      n.receivedCount
        == old(n.receivedCount) + ReceivedBy(all, before[..i + 1], n, false) - ReceivedBy(all, before[..i], n, false)
    ensures forall n :: n in all ==>
      n.fileReceived
        == old(n.fileReceived) + ReceivedBy(all, before[..i + 1], n, true) - ReceivedBy(all, before[..i], n, true)
  {
    PassStep(before, i);
    kept', delivered := PassSlot(a, i, kept, all);
    forall n, files | n in all
      ensures ReceivedBy(all, before[..i + 1], n, files) == ReceivedBy(all, before[..i], n, files)
        + if Counted(all, before[i], n, files) then 1 else 0
    {
      ReceivedStep(all, before, i, n, files);
    }
  }

  // The pass over the first n slots of the array: survivors are moved down in place while later slots are still
  // to be read, and the new length and the number delivered are returned.
  method DeliverInPlace(a: array<ActiveMsg>, n: nat, all: seq<Node>) returns (kept: nat, received: nat)
    requires n <= a.Length && AllWellFormed(a[..n])
    modifies a, (set n | n in all)`receivedCount, (set n | n in all)`fileReceived
    ensures kept <= n
    ensures a[..kept] == InFlight(old(a[..n]))
    ensures received == |Arrivals(old(a[..n]))|
    ensures forall node :: node in all ==>
      node.receivedCount == old(node.receivedCount) + ReceivedBy(all, old(a[..n]), node, false)
    ensures forall node :: node in all ==>
      node.fileReceived == old(node.fileReceived) + ReceivedBy(all, old(a[..n]), node, true)
  {
    ghost var before := a[..n];
    kept, received := 0, 0;
    for i := 0 to n
      invariant kept <= i
      invariant forall j :: i <= j < n ==> a[j] == before[j]
      invariant AllWellFormed(before[..i]) && a[..kept] == InFlight(before[..i])
      invariant received == |Arrivals(before[..i])|
      invariant forall node :: node in all ==>
        node.receivedCount == old(node.receivedCount) + ReceivedBy(all, before[..i], node, false)
      invariant forall node :: node in all ==>
        node.fileReceived == old(node.fileReceived) + ReceivedBy(all, before[..i], node, true)
    {
      var delivered;
      kept, delivered := PassRound(a, before, i, kept, all);
      if delivered {
        received := received + 1;
      }
    }
    assert before[..n] == before;
  }

  // ---------- Progress of the ACKs ----------

  // While r of t ticks remain, hop k of p has been acknowledged exactly when r * p < (p - k) * t.
  predicate Passed(p: nat, k: int, r: int, t: int) {
    r * p < (p - k) * t
  }

  lemma FloorBelow(x: int, c: int, t: int)
    requires t > 0
    ensures x / t <= c <==> x < (c + 1) * t
  {
    var q, m := x / t, x % t;
    assert x == q * t + m && 0 <= m < t;
    if q <= c {
      MulUp(q, c, t);
    } else {
      MulUp(c + 1, q, t);
    }
  }

  lemma MulUp(x: int, y: int, t: int)
    requires x <= y && t >= 0
    ensures x * t <= y * t
  {
  }

  // Hop k is at or before the hop acknowledged with r ticks remaining exactly when it is passed.
  lemma PassedIsFloor(p: nat, k: int, r: int, t: int)
    requires t > 0
    ensures k <= HopIndex(p, r, t) <==> Passed(p, k, r, t)
  {
    FloorBelow(r * p, p - 1 - k, t);
  }

  lemma FloorStep(x: int, p: int, t: int)
    requires 0 <= p <= t && t > 0
    ensures x / t <= (x + p) / t <= x / t + 1
  {
    var q := x / t;
    FloorBelow(x, q, t);
    FloorBelow(x, q - 1, t);
    assert (q + 2) * t == (q + 1) * t + t;
    FloorBelow(x + p, q + 1, t);
    FloorBelow(x + p, q - 1, t);
  }

  lemma IndexRange(p: nat, r: int, t: int)
    requires t > 0 && 0 <= r <= t
    ensures -1 <= HopIndex(p, r, t) < p
    ensures r == t ==> HopIndex(p, r, t) == -1
    ensures r == 0 ==> HopIndex(p, r, t) == p - 1
  {
    MulUp(r, t, p);
    assert r * p >= 0;
    FloorBelow(r * p, p, t);
    FloorBelow(r * p, -1, t);
    if r == t {
      FloorBelow(r * p, p - 1, t);
    }
  }

  // With at least as many ticks as hops the index moves by at most one per tick.
  lemma IndexMovesByOne(p: nat, r: int, t: int)
    requires p <= t && 0 <= r < t
    ensures HopIndex(p, r + 1, t) <= HopIndex(p, r, t) <= HopIndex(p, r + 1, t) + 1
  {
    assert (r + 1) * p == r * p + p;
    FloorStep(r * p, p, t);
  }

  // The ACKs of a message are a prefix of its path, reaching exactly as far as its progress.
  ghost predicate Progressed(m: ActiveMsg) {
    forall k :: 0 <= k < |m.acks| ==> (m.acks[k] <==> k <= HopIndexOf(m))
  }

  function HopIndexOf(m: ActiveMsg): int {
    if m.total <= 0 then -1 else HopIndex(|m.path| - 1, m.remaining, m.total)
  }

  lemma FreshIsProgressed(id: string, path: seq<string>, perHop: int, size: int, msgType: string, serial: nat, now: int)
    requires perHop >= 1 && |path| >= 2
    ensures var m := Fresh(id, path, perHop, size, msgType, serial, now);
      WellFormed(m) && !m.collided && (|path| - 1 <= MAX_TICKS ==> Progressed(m) && |m.acks| <= m.total)
  {
  }

  lemma AdvancedIsProgressed(m: ActiveMsg)
    requires WellFormed(m) && Progressed(m) && |m.acks| <= m.total
    ensures Progressed(Advanced(m))
  {
    IndexMovesByOne(|m.path| - 1, m.remaining - 1, m.total);
    IndexRange(|m.path| - 1, m.remaining - 1, m.total);
    IndexRange(|m.path| - 1, m.remaining, m.total);
  }

  // A message after n ticks, with no collision.
  function AfterTicks(m: ActiveMsg, n: nat): (r: ActiveMsg)
    requires WellFormed(m) && n <= m.remaining
    ensures r.path == m.path && r.total == m.total && |r.acks| == |m.acks| && r.remaining == m.remaining - n
    ensures r.collided == m.collided && r.id == m.id && r.to == m.to && r.serial == m.serial && r.sentAt == m.sentAt
  {
    if n == 0 then m else Advanced(AfterTicks(m, n - 1))
  }

  lemma {:induction false} TicksKeepProgress(m: ActiveMsg, n: nat)
    requires WellFormed(m) && n <= m.remaining && Progressed(m) && |m.acks| <= m.total
    ensures Progressed(AfterTicks(m, n))
  {
    if n > 0 {
      TicksKeepProgress(m, n - 1);
      AdvancedIsProgressed(AfterTicks(m, n - 1));
    }
  }

  // The main result for a path of at most 3000 hops: at every tick hop k is acknowledged exactly when it has
  // been passed, so the acknowledged hops are a prefix and no hop is skipped, and on arrival all are.
  lemma AcksFollowProgress(id: string, path: seq<string>, perHop: int, size: int, msgType: string, serial: nat,
          now: int, n: nat, k: nat)
    requires perHop >= 1 && 2 <= |path| <= MAX_TICKS + 1 && k < |path| - 1
    requires n <= TotalTicks(perHop, path)
    ensures var m := AfterTicks(Fresh(id, path, perHop, size, msgType, serial, now), n);
      && m.total >= |path| - 1
      && (m.acks[k] <==> Passed(|path| - 1, k, m.remaining, m.total))
      && (m.remaining == 0 ==> m.acks[k])
  {
    var f := Fresh(id, path, perHop, size, msgType, serial, now);
    FreshIsProgressed(id, path, perHop, size, msgType, serial, now);
    TicksKeepProgress(f, n);
    var m := AfterTicks(f, n);
    PassedIsFloor(|path| - 1, k, m.remaining, m.total);
    IndexRange(|path| - 1, 0, m.total);
  }

  // On a longer path the first hop is never acknowledged.
  lemma FirstHopSkipped(p: nat, r: int, t: int)
    requires 0 < t < p && 0 <= r < t
    ensures HopIndex(p, r, t) >= 1
  {
    PassedIsFloor(p, 1, r, t);
    MulUp(r, t - 1, p);
    assert (t - 1) * p == t * p - p && (p - 1) * t == p * t - t;
  }

  lemma {:induction false} SkippedHopStays(m: ActiveMsg, n: nat)
    requires WellFormed(m) && n <= m.remaining && m.total < |m.acks| && !m.acks[0]
    ensures !AfterTicks(m, n).acks[0]
  {
    if n > 0 {
      SkippedHopStays(m, n - 1);
      FirstHopSkipped(|m.acks|, m.remaining - n, m.total);
    }
  }

  // So a delivered message has all its hops acknowledged exactly when it has at most 3000 of them.
  lemma AllAckedExactlyUpTo3000(id: string, path: seq<string>, perHop: int, size: int, msgType: string, serial: nat,
          now: int)
    requires perHop >= 1 && |path| >= 2
    ensures var m := AfterTicks(Fresh(id, path, perHop, size, msgType, serial, now), TotalTicks(perHop, path));
      (forall k :: 0 <= k < |m.acks| ==> m.acks[k]) <==> |path| - 1 <= 3000
  {
    var t, f := TotalTicks(perHop, path), Fresh(id, path, perHop, size, msgType, serial, now);
    var m := AfterTicks(f, t);
    if |path| - 1 <= MAX_TICKS {
      forall k | 0 <= k < |m.acks|
        ensures m.acks[k]
      {
        AcksFollowProgress(id, path, perHop, size, msgType, serial, now, t, k);
      }
    } else {
      FreshIsProgressed(id, path, perHop, size, msgType, serial, now);
      SkippedHopStays(f, t);
    }
  }

  // What the ACKs of a message are at any time: up to 3000 hops they follow its progress, beyond that the first
  // hop is never acknowledged.
  ghost predicate AckState(m: ActiveMsg) {
    && |m.path| >= 2 && |m.acks| == |m.path| - 1 && 0 <= m.remaining <= m.total && m.total > 0
    && (|m.acks| <= MAX_TICKS ==> |m.acks| <= m.total && Progressed(m))
    && (|m.acks| > MAX_TICKS ==> m.total < |m.acks| && !m.acks[0])
  }

  lemma FreshAckState(id: string, path: seq<string>, perHop: int, size: int, msgType: string, serial: nat, now: int)
    requires perHop >= 1 && |path| >= 2
    ensures AckState(Fresh(id, path, perHop, size, msgType, serial, now))
  {
    FreshIsProgressed(id, path, perHop, size, msgType, serial, now);
  }

  lemma AdvancedAckState(m: ActiveMsg)
    requires WellFormed(m) && AckState(m)
    ensures AckState(Advanced(m))
  {
    if |m.acks| <= MAX_TICKS {
      AdvancedIsProgressed(m);
    } else {
      FirstHopSkipped(|m.acks|, m.remaining - 1, m.total);
    }
  }

  lemma ArrivedAcks(m: ActiveMsg)
    requires AckState(m) && m.remaining == 0
    ensures (forall k :: 0 <= k < |m.acks| ==> m.acks[k]) <==> |m.acks| <= MAX_TICKS
  {
  }
}
