// LoRa transmissions and the collision scan of simulation/world.go.
module Airwaves {
  import opened Ledger
  import opened MeshNode
  import opened Messages

  // fromNode is never null in a list of active transmissions; null only fills unused slots. serial is bookkeeping
  // of this model, the serial of the message the transmission carries; no operation looks at it.
  datatype Transmission = Transmission(msgID: string, fromNode: Node?, startTick: int, endTick: int, sf: int,
      serial: nat)

  predicate AllSent(txs: seq<Transmission>) {
    forall i :: 0 <= i < |txs| ==> txs[i].fromNode != null
  }

  // ---------- When two transmissions collide ----------

  predicate Live(t: Transmission, tick: int) {
    tick <= t.endTick
  }

  // The distance is at most the LoRa range, free of the square root.
  predicate InRange(cfg: Config, a: Node, b: Node) {
    var dx, dy := (a.x - b.x) as real * cfg.cellWidth, (a.y - b.y) as real * cfg.cellHeight;
    cfg.loRaRange >= 0.0 && dx * dx + dy * dy <= cfg.loRaRange * cfg.loRaRange
  }

  predicate Conflict(cfg: Config, s: Transmission, t: Transmission)
    requires s.fromNode != null && t.fromNode != null
  {
    && !(s.endTick < t.startTick || t.endTick < s.startTick)
    && s.sf == t.sf
    && InRange(cfg, s.fromNode, t.fromNode)
  }

  lemma ConflictSymmetric(cfg: Config, s: Transmission, t: Transmission)
    requires s.fromNode != null && t.fromNode != null
    ensures Conflict(cfg, s, t) == Conflict(cfg, t, s)
  {
  }

  // ---------- What one scan does ----------

  // The first unexpired transmission at or after j that transmission i conflicts with, or the end.
  function PartnerFrom(cfg: Config, tick: int, txs: seq<Transmission>, i: nat, j: nat): (k: nat)
    requires AllSent(txs) && i < j <= |txs|
    ensures j <= k <= |txs|
    decreases |txs| - j
  {
    if j == |txs| || (Live(txs[j], tick) && Conflict(cfg, txs[i], txs[j])) then j
    else PartnerFrom(cfg, tick, txs, i, j + 1)
  }

  lemma {:induction false} PartnerFromIs(cfg: Config, tick: int, txs: seq<Transmission>, i: nat, j: nat)
    requires AllSent(txs) && i < j <= |txs|
    ensures var k := PartnerFrom(cfg, tick, txs, i, j);
      && (k < |txs| ==> Live(txs[k], tick) && Conflict(cfg, txs[i], txs[k]))
      && (forall m :: j <= m < k ==> !(Live(txs[m], tick) && Conflict(cfg, txs[i], txs[m])))
    decreases |txs| - j
  {
    if j < |txs| && !(Live(txs[j], tick) && Conflict(cfg, txs[i], txs[j])) {
      PartnerFromIs(cfg, tick, txs, i, j + 1);
    }
  }

  function Partner(cfg: Config, tick: int, txs: seq<Transmission>, i: nat): nat
    requires AllSent(txs) && i < |txs|
  {
    PartnerFrom(cfg, tick, txs, i, i + 1)
  }

  predicate Collides(cfg: Config, tick: int, txs: seq<Transmission>, i: nat)
    requires AllSent(txs) && i < |txs|
  {
    Live(txs[i], tick) && Partner(cfg, tick, txs, i) < |txs|
  }

  predicate Survives(cfg: Config, tick: int, txs: seq<Transmission>, i: nat)
    requires AllSent(txs) && i < |txs|
  {
    Live(txs[i], tick) && Partner(cfg, tick, txs, i) == |txs|
  }

  // The first n transmissions that survive, the number of them that collide, the message ids marked for them,
  // and how often they charge a failure and a collision to a node.
  function Survivors(cfg: Config, tick: int, txs: seq<Transmission>, n: nat): (r: seq<Transmission>)
    requires AllSent(txs) && n <= |txs|
    ensures |r| <= n
  {
    if n == 0 then [] else
    Survivors(cfg, tick, txs, n - 1) + if Survives(cfg, tick, txs, n - 1) then [txs[n - 1]] else []
  }

  function Drops(cfg: Config, tick: int, txs: seq<Transmission>, n: nat): nat
    requires AllSent(txs) && n <= |txs|
  {
    if n == 0 then 0 else
    Drops(cfg, tick, txs, n - 1) + if Collides(cfg, tick, txs, n - 1) then 1 else 0
  }

  function Marks(cfg: Config, tick: int, txs: seq<Transmission>, n: nat): (r: seq<(string, string)>)
    requires AllSent(txs) && n <= |txs|
    ensures |r| == Drops(cfg, tick, txs, n)
  {
    if n == 0 then [] else
    var before := Marks(cfg, tick, txs, n - 1);
    if !Collides(cfg, tick, txs, n - 1) then before
    else before + [(txs[Partner(cfg, tick, txs, n - 1)].msgID, txs[n - 1].msgID)]
  }

  ghost function Failures(cfg: Config, tick: int, txs: seq<Transmission>, n: nat, node: Node): nat
    requires AllSent(txs) && n <= |txs|
  {
    if n == 0 then 0 else
    var before := Failures(cfg, tick, txs, n - 1, node);
    if !Collides(cfg, tick, txs, n - 1) then before else
    before + (if txs[n - 1].fromNode == node then 1 else 0)
           + (if txs[Partner(cfg, tick, txs, n - 1)].fromNode == node then 1 else 0)
  }

  // How often a node sent the later transmission of a counted pair.
  ghost function Struck(cfg: Config, tick: int, txs: seq<Transmission>, n: nat, node: Node): nat
    requires AllSent(txs) && n <= |txs|
  {
    if n == 0 then 0 else
    var before := Struck(cfg, tick, txs, n - 1, node);
    if !Collides(cfg, tick, txs, n - 1) then before else
    before + if txs[Partner(cfg, tick, txs, n - 1)].fromNode == node then 1 else 0
  }

  function LiveCount(tick: int, txs: seq<Transmission>): nat {
    if txs == [] then 0 else LiveCount(tick, txs[..|txs| - 1]) + if Live(txs[|txs| - 1], tick) then 1 else 0
  }

  // ---------- Marking messages ----------

  // The index of the first message with the property, or the length.
  function FirstIndex(msgs: seq<ActiveMsg>, p: ActiveMsg -> bool): (k: nat)
    ensures k <= |msgs|
    ensures k < |msgs| ==> p(msgs[k])
    ensures forall i :: 0 <= i < k ==> !p(msgs[i])
  {
    if msgs == [] || p(msgs[0]) then 0 else 1 + FirstIndex(msgs[1..], p)
  }

  function FirstWithId(msgs: seq<ActiveMsg>, id: string): (k: nat)
    ensures k <= |msgs|
    ensures k < |msgs| ==> msgs[k].id == id
    ensures forall i :: 0 <= i < k ==> msgs[i].id != id
  {
    FirstIndex(msgs, (m: ActiveMsg) => m.id == id)
  }

  // Only the first message with the id is marked, whether or not it already is.
  function Marked(msgs: seq<ActiveMsg>, id: string): (r: seq<ActiveMsg>)
    ensures |r| == |msgs|
  {
    var k := FirstWithId(msgs, id);
    if k < |msgs| then msgs[k := msgs[k].(collided := true)] else msgs
  }

  // For each collision the partner's id is marked, then the dropped one's.
  function AllMarked(msgs: seq<ActiveMsg>, marks: seq<(string, string)>): (r: seq<ActiveMsg>)
    ensures |r| == |msgs|
  {
    if marks == [] then msgs else
    var last := marks[|marks| - 1];
    Marked(Marked(AllMarked(msgs, marks[..|marks| - 1]), last.0), last.1)
  }

  // Marking changes nothing but the mark.
  ghost predicate OnlyMarked(a: seq<ActiveMsg>, b: seq<ActiveMsg>) {
    |a| == |b| && forall i :: 0 <= i < |a| ==> b[i] == a[i] || b[i] == a[i].(collided := true)
  }

  lemma MarkOnly(msgs: seq<ActiveMsg>, id: string)
    ensures OnlyMarked(msgs, Marked(msgs, id))
  {
  }

  lemma {:induction false} MarksOnly(msgs: seq<ActiveMsg>, marks: seq<(string, string)>)
    ensures OnlyMarked(msgs, AllMarked(msgs, marks))
  {
    if marks != [] {
      var before, last := AllMarked(msgs, marks[..|marks| - 1]), marks[|marks| - 1];
      MarksOnly(msgs, marks[..|marks| - 1]);
      MarkOnly(before, last.0);
      MarkOnly(Marked(before, last.0), last.1);
    }
  }

  method MarkMsgCollided(b: array<ActiveMsg>, n: nat, id: string)
    requires n <= b.Length
    modifies b
    ensures b[..n] == Marked(old(b[..n]), id)
    ensures b[n..] == old(b[n..])
  {
    for i := 0 to n
      invariant b[..] == old(b[..])
      invariant forall j :: 0 <= j < i ==> b[j].id != id
    {
      if b[i].id == id {
        assert FirstWithId(b[..n], id) == i;
        b[i] := b[i].(collided := true);
        return;
      }
    }
  }

  // ---------- The scan in place ----------

  // txs is the list as the scan found it; the slots from i on still hold it.
  method FindPartner(cfg: Config, tick: int, a: array<Transmission>, ghost txs: seq<Transmission>, n: nat, i: nat)
    returns (k: nat)
    requires i < n == |txs| <= a.Length && AllSent(txs)
    requires forall j :: i <= j < n ==> a[j] == txs[j]
    ensures k == Partner(cfg, tick, txs, i)
  {
    var j := i + 1;
    while j < n
      invariant i < j <= n
      invariant PartnerFrom(cfg, tick, txs, i, j) == Partner(cfg, tick, txs, i)
    {
      if Live(a[j], tick) && Conflict(cfg, a[i], a[j]) {
        return j;
      }
      j := j + 1;
    }
    return n;
  }

  // The counters of the senders of a colliding pair.
  method Blame(s: Node, t: Node, ghost senders: set<Node>)
    requires s in senders && t in senders
    modifies senders`failedCount, senders`collidedCount
    ensures forall node :: node in senders ==>
      node.failedCount == old(node.failedCount) + (if s == node then 1 else 0) + if t == node then 1 else 0
    ensures forall node :: node in senders ==>
      node.collidedCount == old(node.collidedCount) + if t == node then 1 else 0
  {
    s.failedCount := s.failedCount + 1;
    t.failedCount := t.failedCount + 1;
    t.collidedCount := t.collidedCount + 1;
  }

  // One round of the scan: transmission i is dropped as expired, dropped as collided, or moved down to slot kept.
  method ScanSlot(cfg: Config, tick: int, a: array<Transmission>, ghost txs: seq<Transmission>, n: nat, i: nat,
          kept: nat, b: array<ActiveMsg>, m: nat, ghost senders: set<Node>)
    returns (kept': nat, collided: bool)
    requires kept <= i < n == |txs| <= a.Length && AllSent(txs) && m <= b.Length
    requires forall j :: i <= j < n ==> a[j] == txs[j] && txs[j].fromNode in senders
    modifies a, b, senders`failedCount, senders`collidedCount
    ensures kept' <= i + 1
    ensures a[..kept'] == old(a[..kept]) + if Survives(cfg, tick, txs, i) then [txs[i]] else []
    ensures forall j :: i < j < a.Length ==> a[j] == old(a[j])
    ensures collided == Collides(cfg, tick, txs, i)
    ensures b[..m] == if collided then Marked(Marked(old(b[..m]), txs[Partner(cfg, tick, txs, i)].msgID), txs[i].msgID)
                      else old(b[..m])
    ensures forall node :: node in senders ==>
      && node.failedCount
        == old(node.failedCount) + Failures(cfg, tick, txs, i + 1, node) - Failures(cfg, tick, txs, i, node)
      && node.collidedCount
        == old(node.collidedCount) + Struck(cfg, tick, txs, i + 1, node) - Struck(cfg, tick, txs, i, node)
  {
    kept', collided := kept, false;
    if !Live(a[i], tick) {
      return;
    }
    var k := FindPartner(cfg, tick, a, txs, n, i);
    if k < n {
      Blame(a[i].fromNode, a[k].fromNode, senders);
      collided := true;
      MarkMsgCollided(b, m, a[k].msgID);
    }
    if !collided {
      ghost var head := a[..kept];
      a[kept] := a[i];
      kept' := kept + 1;
      assert a[..kept'] == head + [txs[i]];
    } else {
      MarkMsgCollided(b, m, a[i].msgID);
    }
  }

  // The round against the scan of the transmissions and messages as they were.
  method ScanRound(cfg: Config, tick: int, a: array<Transmission>, ghost txs: seq<Transmission>, n: nat, i: nat,
          kept: nat, b: array<ActiveMsg>, m: nat, ghost msgs: seq<ActiveMsg>, ghost senders: set<Node>)
    returns (kept': nat, collided: bool)
    requires kept <= i < n == |txs| <= a.Length && AllSent(txs) && m <= b.Length
    requires forall j :: i <= j < n ==> a[j] == txs[j] && txs[j].fromNode in senders
    requires a[..kept] == Survivors(cfg, tick, txs, i) && b[..m] == AllMarked(msgs, Marks(cfg, tick, txs, i))
    modifies a, b, senders`failedCount, senders`collidedCount
    ensures kept' <= i + 1 && collided == Collides(cfg, tick, txs, i)
    ensures forall j :: i < j < n ==> a[j] == txs[j]
    ensures a[..kept'] == Survivors(cfg, tick, txs, i + 1) && b[..m] == AllMarked(msgs, Marks(cfg, tick, txs, i + 1))
    ensures forall node :: node in senders ==>
      && node.failedCount
        == old(node.failedCount) + Failures(cfg, tick, txs, i + 1, node) - Failures(cfg, tick, txs, i, node)
      && node.collidedCount
        == old(node.collidedCount) + Struck(cfg, tick, txs, i + 1, node) - Struck(cfg, tick, txs, i, node)
  {
    kept', collided := ScanSlot(cfg, tick, a, txs, n, i, kept, b, m, senders);
    MarksStep(cfg, tick, txs, i, msgs);
  }

  // The scan of the first n transmissions, marking among the first m messages.
  method ScanInPlace(cfg: Config, tick: int, a: array<Transmission>, n: nat, b: array<ActiveMsg>, m: nat,
          ghost senders: set<Node>)
    returns (kept: nat, collisions: nat)
    requires n <= a.Length && AllSent(a[..n]) && m <= b.Length
    requires forall j :: 0 <= j < n ==> a[j].fromNode in senders
    modifies a, b, senders`failedCount, senders`collidedCount
    ensures kept <= n
    ensures a[..kept] == Survivors(cfg, tick, old(a[..n]), n)
    ensures collisions == 2 * Drops(cfg, tick, old(a[..n]), n)
    ensures b[..m] == AllMarked(old(b[..m]), Marks(cfg, tick, old(a[..n]), n))
    ensures forall node :: node in senders ==>
      && node.failedCount == old(node.failedCount) + Failures(cfg, tick, old(a[..n]), n, node)
      && node.collidedCount == old(node.collidedCount) + Struck(cfg, tick, old(a[..n]), n, node)
  {
    ghost var txs, msgs := a[..n], b[..m];
    kept, collisions := 0, 0;
    for i := 0 to n
      invariant kept <= i
      invariant forall j :: i <= j < n ==> a[j] == txs[j]
      invariant a[..kept] == Survivors(cfg, tick, txs, i)
      invariant collisions == 2 * Drops(cfg, tick, txs, i)
      invariant b[..m] == AllMarked(msgs, Marks(cfg, tick, txs, i))
      invariant forall node :: node in senders ==>
        && node.failedCount == old(node.failedCount) + Failures(cfg, tick, txs, i, node)
        && node.collidedCount == old(node.collidedCount) + Struck(cfg, tick, txs, i, node)
    {
      var collided;
      kept, collided := ScanRound(cfg, tick, a, txs, n, i, kept, b, m, msgs, senders);
      if collided {
        collisions := collisions + 2;
      }
    }
  }

  lemma MarksStep(cfg: Config, tick: int, txs: seq<Transmission>, i: nat, msgs: seq<ActiveMsg>)
    requires AllSent(txs) && i < |txs|
    ensures var before := AllMarked(msgs, Marks(cfg, tick, txs, i));
      AllMarked(msgs, Marks(cfg, tick, txs, i + 1))
        == if !Collides(cfg, tick, txs, i) then before
           else Marked(Marked(before, txs[Partner(cfg, tick, txs, i)].msgID), txs[i].msgID)
  {
  }

  // ---------- What a scan guarantees ----------

  // The survivors are unexpired and pairwise free of conflict.
  lemma {:induction false} SurvivorsDoNotConflict(cfg: Config, tick: int, txs: seq<Transmission>, n: nat)
    requires AllSent(txs) && n <= |txs|
    ensures var s := Survivors(cfg, tick, txs, n);
      && AllSent(s)
      && (forall i :: 0 <= i < |s| ==> Live(s[i], tick))
      && (forall i, j :: 0 <= i < |s| && 0 <= j < |s| && i != j ==> !Conflict(cfg, s[i], s[j]))
  {
    if n > 0 {
      SurvivorsDoNotConflict(cfg, tick, txs, n - 1);
      var s := Survivors(cfg, tick, txs, n - 1);
      if Survives(cfg, tick, txs, n - 1) {
        forall i | 0 <= i < |s|
          ensures !Conflict(cfg, s[i], txs[n - 1]) && !Conflict(cfg, txs[n - 1], s[i])
        {
          var k := SurvivorOrigin(cfg, tick, txs, n - 1, i);
          PartnerFromIs(cfg, tick, txs, k, k + 1);
          ConflictSymmetric(cfg, s[i], txs[n - 1]);
        }
      }
    }
  }

  lemma {:induction false} SurvivorOrigin(cfg: Config, tick: int, txs: seq<Transmission>, n: nat, i: nat)
    returns (k: nat)
    requires AllSent(txs) && n <= |txs| && i < |Survivors(cfg, tick, txs, n)|
    ensures k < n && txs[k] == Survivors(cfg, tick, txs, n)[i] && Survives(cfg, tick, txs, k)
  {
    if i < |Survivors(cfg, tick, txs, n - 1)| {
      k := SurvivorOrigin(cfg, tick, txs, n - 1, i);
    } else {
      k := n - 1;
    }
  }

  // An unexpired transmission is dropped exactly when a later unexpired one conflicts with it.
  lemma DroppedExactlyByLater(cfg: Config, tick: int, txs: seq<Transmission>, i: nat)
    requires AllSent(txs) && i < |txs| && Live(txs[i], tick)
    ensures !Survives(cfg, tick, txs, i)
       <==> exists j :: i < j < |txs| && Live(txs[j], tick) && Conflict(cfg, txs[i], txs[j])
  {
    PartnerFromIs(cfg, tick, txs, i, i + 1);
  }

  // The last unexpired transmission always survives, as the last survivor.
  lemma {:induction false} LastLiveSurvives(cfg: Config, tick: int, txs: seq<Transmission>, k: nat, n: nat)
    requires AllSent(txs) && k < n <= |txs| && Live(txs[k], tick)
    requires forall j :: k < j < |txs| ==> !Live(txs[j], tick)
    ensures var s := Survivors(cfg, tick, txs, n); s != [] && s[|s| - 1] == txs[k]
  {
    if k < n - 1 {
      LastLiveSurvives(cfg, tick, txs, k, n - 1);
    } else {
      PartnerFromIs(cfg, tick, txs, k, k + 1);
    }
  }

  // Every unexpired transmission either survives or is counted as dropped.
  lemma {:induction false} ScanAccounts(cfg: Config, tick: int, txs: seq<Transmission>, n: nat)
    requires AllSent(txs) && n <= |txs|
    ensures |Survivors(cfg, tick, txs, n)| + Drops(cfg, tick, txs, n) == LiveCount(tick, txs[..n])
  {
    if n > 0 {
      assert txs[..n][..n - 1] == txs[..n - 1];
      ScanAccounts(cfg, tick, txs, n - 1);
    }
  }
}
