// When a message can be sent: exactly when in every continuation under the present configuration, however long, each
// step loses a message if and only if the message's own transmission is in a counted pair.
module RightLosses {
  import opened Prelude
  import opened Ledger
  import opened MeshNode
  import opened Messages
  import opened Airwaves
  import opened Traffic
  import opened Attribution
  import opened SafeReuse

  // The next scan loses a message exactly when it counts a collision of the message's own transmission.
  ghost predicate LosesRight(cfg: Config, b: Air)
    requires Tidy(b)
  {
    forall m :: 0 <= m < |b.msgs| ==> (Scanned(cfg, b)[m].collided <==> OwnHit(cfg, b, b.msgs[m].serial))
  }

  // Every step of the continuation does.
  ghost predicate AlwaysLosesRight(b: Air, es: seq<Event>)
    decreases |es|
  {
    es == [] ||
    match es[0]
    case Step(c) => Tidy(b) && LosesRight(c, b) && AlwaysLosesRight(Stepped(c, b), es[1..])
    case Post(d) => Sendable(d) && AlwaysLosesRight(Posted(b, d), es[1..])
  }

  ghost predicate LosesRightOn(cfg: Config, b: Air, es: seq<Event>) {
    Careful(cfg, b, es) ==> AlwaysLosesRight(b, es)
  }

  // ---------- The condition ----------

  // The signal collides with a transmission that would otherwise come through the next scan.
  ghost predicate Hits(cfg: Config, a: Air, d: Draft)
    requires Tidy(a) && d.signal.Some?
  {
    exists g :: 0 <= g < |a.txs| && Survives(cfg, a.tick + 1, a.txs, g)
                && Conflict(cfg, a.txs[g], Aired(d.id, d.signal.value, a.tick, a.sent))
  }

  ghost predicate BorneOnAir(a: Air, id: string) {
    exists k :: 0 <= k < |a.txs| && Live(a.txs[k], a.tick + 1) && a.txs[k].msgID == id
  }

  // If no message in flight bears the id, then no transmission on the air does, or the send goes over the air and its
  // signal is in a pair of the next scan. If a message in flight does, the send does not go over the air and no
  // transmission of the id outlasts that message while the new one is in flight.
  ghost predicate SafeToSend(cfg: Config, a: Air, d: Draft)
    requires Tidy(a) && Sendable(d)
  {
    var first := FirstWithId(a.msgs, d.id);
    if first == |a.msgs| then BorneOnAir(a, d.id) ==> d.signal.Some? && Hits(cfg, a, d)
    else
      && d.signal.None?
      && forall k :: 0 <= k < |a.txs| && Live(a.txs[k], a.tick + 1) && a.txs[k].msgID == d.id
           ==> !Outlasts(cfg, a, k, a.msgs[first].remaining, TotalTicks(d.perHop, d.path))
  }

  // ---------- Right marks lose the right messages ----------

  lemma RightMarksLoseRight(cfg: Config, b: Air)
    requires Sane(b) && MarksOwn(cfg, b)
    ensures LosesRight(cfg, b)
  {
    forall m | 0 <= m < |b.msgs|
      ensures Scanned(cfg, b)[m].collided <==> OwnHit(cfg, b, b.msgs[m].serial)
    {
      ScanLosesOwn(cfg, b, m);
    }
  }

  lemma {:induction false} AlwaysRightLosesRight(b: Air, es: seq<Event>)
    requires Sane(b) && AlwaysRight(b, es)
    ensures AlwaysLosesRight(b, es)
    decreases |es|
  {
    if es != [] {
      match es[0]
      case Step(c) =>
        RightMarksLoseRight(c, b);
        StepKeepsSane(c, b);
        AlwaysRightLosesRight(Stepped(c, b), es[1..]);
      case Post(d) =>
        PostKeepsSane(b, d);
        AlwaysRightLosesRight(Posted(b, d), es[1..]);
    }
  }

  lemma ApartLosesRight(cfg: Config, b: Air, es: seq<Event>)
    requires Sane(b) && Apart(b) && Careful(cfg, b, es)
    ensures AlwaysLosesRight(b, es)
  {
    TameIsRight(cfg, b, es);
    AlwaysRightLosesRight(b, es);
  }

  // ---------- A second transmission of the id that is in a pair of the next scan ----------

  ghost predicate Ownerless(b: Air, k: nat)
    requires k < |b.txs|
  {
    forall o :: 0 <= o < |b.msgs| ==> b.msgs[o].serial != b.txs[k].serial
  }

  // Transmission l belongs to message i and is in a pair of the next scan; whatever else is on the air under the id of
  // i has no message left, and all other ids are told apart.
  ghost predicate Doubled(cfg: Config, b: Air, l: nat, i: nat)
    requires Tidy(b)
  {
    && l < |b.txs| && i < |b.msgs| && b.txs[l].serial == b.msgs[i].serial && InPair(NextPairs(cfg, b), l)
    && forall k, o :: 0 <= k < |b.txs| && 0 <= o < |b.msgs| && Clash(b, k, o) ==> o == i && Ownerless(b, k)
  }

  // The messages other than i are the only ones of their ids as far as the air goes.
  lemma DoubledFinds(cfg: Config, b: Air, l: nat, i: nat, k: nat)
    requires Sane(b) && Doubled(cfg, b, l, i) && k < |b.txs| && InPair(NextPairs(cfg, b), k)
    ensures FindsOwn(b.msgs, b.txs[k]) || (Ownerless(b, k) && FirstWithId(b.msgs, b.txs[k].msgID) == i)
  {
    var t := b.txs[k];
    var f, j := FirstWithId(b.msgs, t.msgID), FirstWithSerial(b.msgs, t.serial);
    assert j < |b.msgs| ==> b.msgs[j].id == t.msgID;
    if f < |b.msgs| && b.msgs[f].serial != t.serial {
      assert Clash(b, k, f);
    }
  }

  lemma DoubledLosesRight(cfg: Config, b: Air, l: nat, i: nat)
    requires Sane(b) && Doubled(cfg, b, l, i)
    ensures LosesRight(cfg, b) && Scanned(cfg, b)[i].collided
  {
    DoubledFinds(cfg, b, l, i, l);
    FirstWithSerialIs(b.msgs, i);
    forall m | 0 <= m < |b.msgs|
      ensures Scanned(cfg, b)[m].collided <==> OwnHit(cfg, b, b.msgs[m].serial)
    {
      LostExactly(cfg, b, m);
      FirstWithSerialIs(b.msgs, m);
      forall k | 0 <= k < |b.txs| && InPair(NextPairs(cfg, b), k)
        ensures FirstWithId(b.msgs, b.txs[k].msgID) == m ==> m == i || b.txs[k].serial == b.msgs[m].serial
        ensures b.txs[k].serial == b.msgs[m].serial ==> FirstWithId(b.msgs, b.txs[k].msgID) == m
      {
        DoubledFinds(cfg, b, l, i, k);
      }
    }
    LostExactly(cfg, b, i);
  }

  lemma StepAfterDoubled(cfg: Config, b: Air, l: nat, i: nat)
    requires Sane(b) && Doubled(cfg, b, l, i)
    ensures Sane(Stepped(cfg, b)) && Apart(Stepped(cfg, b))
  {
    var e := Stepped(cfg, b);
    StepKeepsSane(cfg, b);
    DoubledLosesRight(cfg, b, l, i);
    OwnerGone(cfg, b, i);
    forall k, o | 0 <= k < |e.txs| && 0 <= o < |e.msgs| && Live(e.txs[k], e.tick + 1) && e.txs[k].msgID == e.msgs[o].id
      ensures e.txs[k].serial == e.msgs[o].serial
    {
      if e.txs[k].serial != e.msgs[o].serial {
        var k', o' := ClashOrigin(cfg, b, k, o);
      }
    }
  }

  // What is in a pair stays in one when a transmission is added.
  lemma PairWithOneMore(cfg: Config, tick: int, txs: seq<Transmission>, t: Transmission, l: nat)
    requires AllSent(txs) && AllSent(txs + [t]) && InPair(Pairs(cfg, tick, txs, |txs|), l)
    ensures InPair(Pairs(cfg, tick, txs + [t], |txs + [t]|), l)
  {
    var g := PairIsCounted(cfg, tick, txs, |txs|, l);
    PartnerPrefix(cfg, tick, txs, t, g, g + 1);
    assert (txs + [t])[g] == txs[g];
    CountedIsPair(cfg, tick, txs + [t], g, l, |txs + [t]|);
  }

  lemma PostKeepsDoubled(cfg: Config, b: Air, c: Draft, l: nat, i: nat)
    requires Sane(b) && Doubled(cfg, b, l, i) && Sendable(c) && Reusable(b, c)
    ensures Sane(Posted(b, c)) && Doubled(cfg, Posted(b, c), l, i)
  {
    var e := Posted(b, c);
    PostKeepsSane(b, c);
    if c.signal.Some? {
      PairWithOneMore(cfg, b.tick + 1, b.txs, Aired(c.id, c.signal.value, b.tick, b.sent), l);
    }
    forall k, o | 0 <= k < |e.txs| && 0 <= o < |e.msgs| && Clash(e, k, o)
      ensures o == i && Ownerless(e, k)
    {
      OldClash(b, c, k, o);
    }
  }

  lemma {:induction false} DoubledIsRight(cfg: Config, b: Air, l: nat, i: nat, es: seq<Event>)
    requires Sane(b) && Doubled(cfg, b, l, i) && Careful(cfg, b, es)
    ensures AlwaysLosesRight(b, es)
    decreases |es|
  {
    if es != [] {
      match es[0]
      case Step(c) =>
        DoubledLosesRight(cfg, b, l, i);
        StepAfterDoubled(cfg, b, l, i);
        ApartLosesRight(cfg, Stepped(cfg, b), es[1..]);
      case Post(d) =>
        PostKeepsDoubled(cfg, b, d, l, i);
        DoubledIsRight(cfg, Posted(b, d), l, i, es[1..]);
    }
  }

  // ---------- The condition suffices ----------

  // The last transmission is the partner of what came through without it and conflicts with it.
  lemma PartnerOfNew(cfg: Config, tick: int, txs: seq<Transmission>, t: Transmission, g: nat)
    requires AllSent(txs) && AllSent(txs + [t]) && g < |txs| && Live(t, tick) && t.fromNode != null
    ensures Counts(cfg, tick, txs + [t], g, |txs|) <==> Survives(cfg, tick, txs, g) && Conflict(cfg, txs[g], t)
  {
    var longer := txs + [t];
    assert longer[g] == txs[g] && longer[|txs|] == t;
    PartnerPrefix(cfg, tick, txs, t, g, g + 1);
    PartnerFromIs(cfg, tick, longer, g, g + 1);
  }

  lemma NewInPair(cfg: Config, tick: int, txs: seq<Transmission>, t: Transmission)
    requires AllSent(txs) && AllSent(txs + [t]) && Live(t, tick) && t.fromNode != null
    ensures InPair(Pairs(cfg, tick, txs + [t], |txs + [t]|), |txs|)
       <==> exists g :: 0 <= g < |txs| && Survives(cfg, tick, txs, g) && Conflict(cfg, txs[g], t)
  {
    var longer, n := txs + [t], |txs|;
    if g :| 0 <= g < n && Survives(cfg, tick, txs, g) && Conflict(cfg, txs[g], t) {
      PartnerOfNew(cfg, tick, txs, t, g);
      CountedIsPair(cfg, tick, longer, g, n, n + 1);
    }
    if InPair(Pairs(cfg, tick, longer, |longer|), n) {
      var g := PairIsCounted(cfg, tick, longer, n + 1, n);
      PartnerOfNew(cfg, tick, txs, t, g);
    }
  }

  // A signal is in a pair of the next scan exactly when it hits something.
  lemma HitsIsPair(cfg: Config, a: Air, d: Draft)
    requires Tidy(a) && Sendable(d) && d.signal.Some? && Tidy(Posted(a, d))
    ensures Hits(cfg, a, d) <==> InPair(NextPairs(cfg, Posted(a, d)), |a.txs|)
  {
    NewInPair(cfg, a.tick + 1, a.txs, Aired(d.id, d.signal.value, a.tick, a.sent));
  }

  lemma SentDoubled(cfg: Config, a: Air, d: Draft)
    requires Sane(a) && Apart(a) && Sendable(d) && d.signal.Some? && Tidy(Posted(a, d))
    requires FirstWithId(a.msgs, d.id) == |a.msgs| && Hits(cfg, a, d)
    ensures Doubled(cfg, Posted(a, d), |a.txs|, |a.msgs|)
  {
    var b := Posted(a, d);
    HitsIsPair(cfg, a, d);
    forall k, o | 0 <= k < |b.txs| && 0 <= o < |b.msgs| && Clash(b, k, o)
      ensures o == |a.msgs| && Ownerless(b, k)
    {
      NewClash(a, d, k, o);
    }
  }

  lemma SafeIsRight(cfg: Config, a: Air, d: Draft, es: seq<Event>)
    requires Sane(a) && Apart(a) && Sendable(d) && SafeToSend(cfg, a, d) && Careful(cfg, Posted(a, d), es)
    ensures AlwaysLosesRight(Posted(a, d), es)
  {
    PostKeepsSane(a, d);
    if FirstWithId(a.msgs, d.id) == |a.msgs| && BorneOnAir(a, d.id) {
      SentDoubled(cfg, a, d);
      DoubledIsRight(cfg, Posted(a, d), |a.txs|, |a.msgs|, es);
    } else {
      SafeMarksAreTame(cfg, a, d);
      TameIsRight(cfg, Posted(a, d), es);
      AlwaysRightLosesRight(Posted(a, d), es);
    }
  }

  // ---------- Otherwise some continuation loses the wrong messages ----------

  lemma LosesWrongNow(cfg: Config, b: Air)
    requires Tidy(b) && !LosesRight(cfg, b)
    ensures Careful(cfg, b, [Step(cfg)]) && !AlwaysLosesRight(b, [Step(cfg)])
  {
    LastStep(cfg, b);
    var es := [Step(cfg)];
    assert es[1..] == [];
  }

  lemma LosesWrongAfter(cfg: Config, b: Air, c: Draft) returns (es: seq<Event>)
    requires Sendable(c) && Reusable(b, c) && Tidy(Posted(b, c)) && !LosesRight(cfg, Posted(b, c))
    ensures Careful(cfg, b, es) && !AlwaysLosesRight(b, es)
  {
    LosesWrongNow(cfg, Posted(b, c));
    es := [Post(c)] + [Step(cfg)];
    assert es[1..] == [Step(cfg)];
  }

  // A message that the mark of a counted transmission finds, while no transmission of its own is counted.
  lemma MarkedUnhit(cfg: Config, b: Air, k: nat, i: nat)
    requires Sane(b) && k < |b.txs| && i < |b.msgs| && InPair(NextPairs(cfg, b), k)
    requires FirstWithId(b.msgs, b.txs[k].msgID) == i && !OwnHit(cfg, b, b.msgs[i].serial)
    ensures !LosesRight(cfg, b)
  {
    LostExactly(cfg, b, i);
    assert Scanned(cfg, b)[i].collided;
  }

  // The only transmission of a message is in no pair.
  lemma NotHit(cfg: Config, b: Air, l: nat, i: nat)
    requires Sane(b) && l < |b.txs| && i < |b.msgs| && b.txs[l].serial == b.msgs[i].serial
    requires !InPair(NextPairs(cfg, b), l)
    ensures !OwnHit(cfg, b, b.msgs[i].serial)
  {
    forall h | 0 <= h < |b.txs| && b.txs[h].serial == b.msgs[i].serial
      ensures h == l
    {
    }
  }

  // The state after the rival of transmission k is sent.
  lemma RivalSent(cfg: Config, b: Air, k: nat, to: Node)
    requires Sane(b) && k < |b.txs| && Live(b.txs[k], b.tick + 1) && cfg.loRaRange >= 0.0
    ensures var c := Rival(b.txs[k], to);
      var e := Posted(b, c);
      && Sendable(c) && Sane(e) && InPair(NextPairs(cfg, e), k)
      && e.txs == b.txs + [Aired(c.id, c.signal.value, b.tick, b.sent)]
      && e.msgs[..|b.msgs|] == b.msgs
      && (FirstWithId(b.msgs, b.txs[k].msgID) < |b.msgs|
          ==> FirstWithId(e.msgs, b.txs[k].msgID) == FirstWithId(b.msgs, b.txs[k].msgID))
  {
    var c := Rival(b.txs[k], to);
    CanCollide(cfg, b, k, to);
    PostKeepsSane(b, c);
    FirstOfAppend(b.msgs, Posted(b, c).msgs[|b.msgs|], b.txs[k].msgID, 0);
  }

  // A message that was never on the air and is the first with the id of a transmission on the air.
  ghost predicate Bare(b: Air, k: nat, i: nat) {
    && k < |b.txs| && i < |b.msgs| && Live(b.txs[k], b.tick + 1)
    && FirstWithId(b.msgs, b.txs[k].msgID) == i
    && forall l :: 0 <= l < |b.txs| ==> b.txs[l].serial != b.msgs[i].serial
  }

  lemma NeverHit(cfg: Config, b: Air, serial: nat)
    requires Tidy(b) && forall l :: 0 <= l < |b.txs| ==> b.txs[l].serial != serial
    ensures !OwnHit(cfg, b, serial)
  {
  }

  lemma BareRival(cfg: Config, b: Air, k: nat, i: nat, to: Node)
    requires Sane(b) && Bare(b, k, i) && cfg.loRaRange >= 0.0
    ensures var c := Rival(b.txs[k], to);
      Sendable(c) && Tidy(Posted(b, c)) && !LosesRight(cfg, Posted(b, c))
  {
    var e := Posted(b, Rival(b.txs[k], to));
    RivalSent(cfg, b, k, to);
    assert e.msgs[i] == b.msgs[i] && e.txs[k] == b.txs[k];
    NeverHit(cfg, e, b.msgs[i].serial);
    MarkedUnhit(cfg, e, k, i);
  }

  lemma BareLosesWrong(cfg: Config, b: Air, k: nat, i: nat, to: Node) returns (es: seq<Event>)
    requires Sane(b) && Bare(b, k, i) && Free(b, to) && cfg.loRaRange >= 0.0
    ensures Careful(cfg, b, es) && !AlwaysLosesRight(b, es)
  {
    BareRival(cfg, b, k, i, to);
    es := LosesWrongAfter(cfg, b, Rival(b.txs[k], to));
  }

  // Sent over the air under the id of a message in flight, a message collides and is not lost.
  lemma BusyLosesWrong(cfg: Config, a: Air, d: Draft, to: Node) returns (es: seq<Event>)
    requires Sane(a) && Sendable(d) && d.signal.Some? && Free(Posted(a, d), to) && cfg.loRaRange >= 0.0
    requires FirstWithId(a.msgs, d.id) < |a.msgs|
    ensures Careful(cfg, Posted(a, d), es) && !AlwaysLosesRight(Posted(a, d), es)
  {
    PostKeepsSane(a, d);
    BusyRival(cfg, a, d, to);
    es := LosesWrongAfter(cfg, Posted(a, d), Rival(Posted(a, d).txs[|a.txs|], to));
  }

  lemma BusyRival(cfg: Config, a: Air, d: Draft, to: Node)
    requires Sane(a) && Sendable(d) && d.signal.Some? && Sane(Posted(a, d)) && cfg.loRaRange >= 0.0
    requires FirstWithId(a.msgs, d.id) < |a.msgs|
    ensures var c := Rival(Posted(a, d).txs[|a.txs|], to);
      Sendable(c) && Tidy(Posted(Posted(a, d), c)) && !LosesRight(cfg, Posted(Posted(a, d), c))
  {
    var b, n := Posted(a, d), |a.msgs|;
    var c := Rival(b.txs[|a.txs|], to);
    RivalSent(cfg, b, |a.txs|, to);
    BusyFinds(a, d, c);
    HitUnmarked(cfg, Posted(b, c), |a.txs|, n);
  }

  // A message that no mark finds, while its own transmission is counted.
  lemma HitUnmarked(cfg: Config, b: Air, k: nat, i: nat)
    requires Sane(b) && k < |b.txs| && i < |b.msgs| && InPair(NextPairs(cfg, b), k)
    requires b.txs[k].serial == b.msgs[i].serial
    requires forall x: string :: FirstWithId(b.msgs, x) != i
    ensures !LosesRight(cfg, b)
  {
    LostExactly(cfg, b, i);
    assert OwnHit(cfg, b, b.msgs[i].serial);
  }

  // A new signal conflicts with an old transmission exactly when it does with that one's rival.
  lemma RivalConflicts(cfg: Config, t: Transmission, u: Transmission, v: Transmission)
    requires t.fromNode != null && u.fromNode != null && v.fromNode == t.fromNode && v.sf == t.sf
    requires u.startTick == v.startTick && t.startTick <= u.startTick
    requires u.endTick >= u.startTick && v.endTick >= v.startTick && t.endTick >= u.startTick
    ensures Conflict(cfg, t, u) <==> Conflict(cfg, u, v)
  {
    ConflictSymmetric(cfg, t, u);
  }

  // Sent over the air under the id of a transmission without a message, hitting nothing: if the two conflict, the next
  // scan loses the message though its own signal is in no pair; if not, it does so after the old node sends once more.
  lemma UnhitLosesWrong(cfg: Config, a: Air, d: Draft, k: nat, to: Node) returns (es: seq<Event>)
    requires Sane(a) && Sendable(d) && d.signal.Some? && Free(Posted(a, d), to) && cfg.loRaRange >= 0.0
    requires FirstWithId(a.msgs, d.id) == |a.msgs| && !Hits(cfg, a, d)
    requires k < |a.txs| && Live(a.txs[k], a.tick + 1) && a.txs[k].msgID == d.id
    ensures Careful(cfg, Posted(a, d), es) && !AlwaysLosesRight(Posted(a, d), es)
  {
    var b, l, n := Posted(a, d), |a.txs|, |a.msgs|;
    PostKeepsSane(a, d);
    HitsIsPair(cfg, a, d);
    FirstOfAppend(a.msgs, b.msgs[n], d.id, 0);
    assert b.txs[k] == a.txs[k] && b.txs[l] == Aired(d.id, d.signal.value, a.tick, a.sent);
    if Conflict(cfg, b.txs[k], b.txs[l]) {
      UnhitNow(cfg, b, k, l, n);
      LosesWrongNow(cfg, b);
      es := [Step(cfg)];
    } else {
      var c := Rival(b.txs[k], to);
      UnhitLater(cfg, b, k, l, n, to);
      es := LosesWrongAfter(cfg, b, c);
    }
  }

  // Message n has the last transmission l, which is in no pair, and is the first with the id of transmission k.
  ghost predicate Unhit(cfg: Config, b: Air, k: nat, l: nat, n: nat)
    requires Tidy(b)
  {
    && k < l < |b.txs| && n < |b.msgs| && Live(b.txs[k], b.tick + 1)
    && b.txs[l].serial == b.msgs[n].serial && !InPair(NextPairs(cfg, b), l)
    && FirstWithId(b.msgs, b.txs[k].msgID) == n
  }

  lemma UnhitNow(cfg: Config, b: Air, k: nat, l: nat, n: nat)
    requires Sane(b) && Unhit(cfg, b, k, l, n) && Live(b.txs[l], b.tick + 1) && Conflict(cfg, b.txs[k], b.txs[l])
    ensures !LosesRight(cfg, b)
  {
    ConflictIsPair(cfg, b.tick + 1, b.txs, k, l);
    NotHit(cfg, b, l, n);
    MarkedUnhit(cfg, b, k, n);
  }

  lemma ConflictIsPair(cfg: Config, tick: int, txs: seq<Transmission>, k: nat, l: nat)
    requires AllSent(txs) && k < l < |txs| && Live(txs[k], tick) && Live(txs[l], tick) && Conflict(cfg, txs[k], txs[l])
    ensures InPair(Pairs(cfg, tick, txs, |txs|), k)
  {
    PartnerFromIs(cfg, tick, txs, k, k + 1);
    CountedIsPair(cfg, tick, txs, k, k, |txs|);
  }

  lemma UnhitLater(cfg: Config, b: Air, k: nat, l: nat, n: nat, to: Node)
    requires Sane(b) && Unhit(cfg, b, k, l, n) && l == |b.txs| - 1 && cfg.loRaRange >= 0.0
    requires b.txs[l].startTick == b.tick < b.txs[l].endTick && !Conflict(cfg, b.txs[k], b.txs[l])
    ensures var c := Rival(b.txs[k], to);
      Sendable(c) && Tidy(Posted(b, c)) && !LosesRight(cfg, Posted(b, c))
  {
    var c := Rival(b.txs[k], to);
    var e, v := Posted(b, c), Aired(c.id, c.signal.value, b.tick, b.sent);
    RivalSent(cfg, b, k, to);
    RivalConflicts(cfg, b.txs[k], b.txs[l], v);
    StillUnpaired(cfg, b.tick + 1, b.txs, v, l);
    assert e.txs[k] == b.txs[k] && e.txs[l] == b.txs[l] && e.msgs[n] == b.msgs[n];
    NotHit(cfg, e, l, n);
    MarkedUnhit(cfg, e, k, n);
  }

  lemma StillUnpaired(cfg: Config, tick: int, txs: seq<Transmission>, v: Transmission, l: nat)
    requires AllSent(txs) && AllSent(txs + [v]) && l == |txs| - 1 && v.fromNode != null && !Conflict(cfg, txs[l], v)
    requires !InPair(Pairs(cfg, tick, txs, |txs|), l)
    ensures !InPair(Pairs(cfg, tick, txs + [v], |txs + [v]|), l)
  {
    var longer := txs + [v];
    if InPair(Pairs(cfg, tick, longer, |longer|), l) {
      var g := PairIsCounted(cfg, tick, longer, |longer|, l);
      assert longer[l] == txs[l] && longer[|txs|] == v;
      PartnerFromIs(cfg, tick, longer, g, g + 1);
      PartnerPrefix(cfg, tick, txs, v, g, g + 1);
      CountedIsPair(cfg, tick, txs, g, l, |txs|);
    }
  }

  // ---------- A transmission that outlasts its message ----------

  // Message i was never on the air and has the id of transmission k, and of its message j, which comes before it; no
  // other message has that id.
  ghost predicate Behind(b: Air, k: nat, j: nat, i: nat) {
    && k < |b.txs| && j < i < |b.msgs| && Clash(b, k, i) && b.msgs[j].serial == b.txs[k].serial
    && (forall l :: 0 <= l < |b.txs| ==> b.txs[l].serial != b.msgs[i].serial)
    && (forall o :: 0 <= o < |b.msgs| && b.msgs[o].id == b.txs[k].msgID ==> o == j || o == i)
  }

  lemma StepFirstLoses(cfg: Config, b: Air, es: seq<Event>)
    requires Tidy(b) && Careful(cfg, Stepped(cfg, b), es) && !AlwaysLosesRight(Stepped(cfg, b), es)
    ensures Careful(cfg, b, [Step(cfg)] + es) && !AlwaysLosesRight(b, [Step(cfg)] + es)
  {
    assert ([Step(cfg)] + es)[1..] == es;
  }

  lemma OwnedHit(cfg: Config, b: Air, k: nat)
    requires Sane(b) && k < |b.txs|
    ensures OwnHit(cfg, b, b.txs[k].serial) <==> InPair(NextPairs(cfg, b), k)
  {
    forall l | 0 <= l < |b.txs| && b.txs[l].serial == b.txs[k].serial
      ensures l == k
    {
    }
  }

  // When the step loses the right messages.
  lemma BehindGoesOn(cfg: Config, b: Air, k: nat, j: nat, i: nat) returns (k': nat, i': nat)
    requires Sane(b) && Behind(b, k, j, i) && LosesRight(cfg, b) && Sane(Stepped(cfg, b))
    requires Outlasts(cfg, b, k, b.msgs[j].remaining, b.msgs[i].remaining)
    ensures var e := Stepped(cfg, b);
      && k' < |e.txs| && e.txs[k'] == b.txs[k] && i' < |e.msgs| && Clash(e, k', i')
      && e.msgs[i'].serial == b.msgs[i].serial && e.msgs[i'].remaining == b.msgs[i].remaining - 1
      && (forall l :: 0 <= l < |e.txs| ==> e.txs[l].serial != e.msgs[i'].serial)
      && (forall o :: 0 <= o < |e.msgs| && e.msgs[o].id == e.txs[k'].msgID && o != i'
            ==> e.msgs[o].serial == b.msgs[j].serial)
    ensures Scanned(cfg, b)[j].collided <==> InPair(NextPairs(cfg, b), k)
  {
    var e := Stepped(cfg, b);
    OutlastsLong(cfg, b, k, b.msgs[j].remaining, b.msgs[i].remaining);
    NeverHit(cfg, b, b.msgs[i].serial);
    OwnedHit(cfg, b, k);
    k', i' := ClashGoesOn(cfg, b, k, i);
    StepLeaves(cfg, b);
    forall o | 0 <= o < |e.msgs| && e.msgs[o].id == e.txs[k'].msgID && o != i'
      ensures e.msgs[o].serial == b.msgs[j].serial
    {
      var p :| 0 <= p < |b.msgs| && SameTags(e.msgs[o], b.msgs[p]);
    }
  }

  lemma {:induction false} OutlastingLoses(cfg: Config, b: Air, k: nat, j: nat, i: nat, to: Node)
    returns (es: seq<Event>)
    requires Sane(b) && Free(b, to) && cfg.loRaRange >= 0.0 && Behind(b, k, j, i)
    requires Outlasts(cfg, b, k, b.msgs[j].remaining, b.msgs[i].remaining)
    ensures Careful(cfg, b, es) && !AlwaysLosesRight(b, es)
    decreases b.msgs[j].remaining
  {
    if !LosesRight(cfg, b) {
      LosesWrongNow(cfg, b);
      return [Step(cfg)];
    }
    var e := Stepped(cfg, b);
    StepKeepsSane(cfg, b);
    FreeAfter(cfg, b, to);
    var k', i' := BehindGoesOn(cfg, b, k, j, i);
    if InPair(NextPairs(cfg, b), k) || b.msgs[j].remaining == 1 {
      OwnerGone(cfg, b, j);
      assert Bare(e, k', i');
      es := BareLosesWrong(cfg, e, k', i', to);
    } else {
      var j' := StaysOn(cfg, b, j);
      FirstWithSerialIs(e.msgs, j');
      NoPairsAfter(cfg, b);
      StillBehind(cfg, b, k, j, i, k', j', i');
      es := OutlastingLoses(cfg, e, k', j', i', to);
    }
    StepFirstLoses(cfg, b, es);
    return [Step(cfg)] + es;
  }

  lemma StillBehind(cfg: Config, b: Air, k: nat, j: nat, i: nat, k': nat, j': nat, i': nat)
    requires Sane(b) && Behind(b, k, j, i) && Sane(Stepped(cfg, b))
    requires var e := Stepped(cfg, b);
      && k' < |e.txs| && e.txs[k'] == b.txs[k] && i' < |e.msgs| && Clash(e, k', i')
      && e.msgs[i'].serial == b.msgs[i].serial && j' < |e.msgs| && e.msgs[j'].serial == b.msgs[j].serial
      && (forall l :: 0 <= l < |e.txs| ==> e.txs[l].serial != e.msgs[i'].serial)
      && (forall o :: 0 <= o < |e.msgs| && e.msgs[o].id == e.txs[k'].msgID && o != i'
            ==> e.msgs[o].serial == b.msgs[j].serial)
    ensures Behind(Stepped(cfg, b), k', j', i')
  {
    var e := Stepped(cfg, b);
    assert b.msgs[j].serial < b.msgs[i].serial;
    assert e.msgs[j'].serial < e.msgs[i'].serial;
    assert j' < i';
  }

  // ---------- The condition is needed ----------

  // The new message, not sent over the air, stands behind the message in flight.
  lemma SentBehind(cfg: Config, a: Air, d: Draft, k: nat)
    requires Sane(a) && Apart(a) && Sendable(d) && d.signal.None? && Tidy(Posted(a, d))
    requires k < |a.txs| && Live(a.txs[k], a.tick + 1) && a.txs[k].msgID == d.id
    requires FirstWithId(a.msgs, d.id) < |a.msgs|
    ensures Behind(Posted(a, d), k, FirstWithId(a.msgs, d.id), |a.msgs|)
  {
    var b, first := Posted(a, d), FirstWithId(a.msgs, d.id);
    ClashWithNew(cfg, a, d, k);
    forall o | 0 <= o < |b.msgs| && b.msgs[o].id == d.id
      ensures o == first || o == |a.msgs|
    {
      if o < |a.msgs| {
        assert a.msgs[o].serial == a.txs[k].serial == a.msgs[first].serial;
      }
    }
  }

  lemma OutlastedLosesWrong(cfg: Config, a: Air, d: Draft, k: nat, to: Node) returns (es: seq<Event>)
    requires Sane(a) && Apart(a) && Sendable(d) && d.signal.None?
    requires Free(Posted(a, d), to) && cfg.loRaRange >= 0.0
    requires k < |a.txs| && Live(a.txs[k], a.tick + 1) && a.txs[k].msgID == d.id
    requires var first := FirstWithId(a.msgs, d.id);
      first < |a.msgs| && Outlasts(cfg, a, k, a.msgs[first].remaining, TotalTicks(d.perHop, d.path))
    ensures Careful(cfg, Posted(a, d), es) && !AlwaysLosesRight(Posted(a, d), es)
  {
    var first := FirstWithId(a.msgs, d.id);
    PostKeepsSane(a, d);
    SentBehind(cfg, a, d, k);
    SameOnAir(cfg, a, d, k, a.msgs[first].remaining, TotalTicks(d.perHop, d.path));
    es := OutlastingLoses(cfg, Posted(a, d), k, first, |a.msgs|, to);
  }

  // The new message, not sent over the air, takes an id under which only transmissions remain.
  lemma SentBareLosesWrong(cfg: Config, a: Air, d: Draft, k: nat, to: Node) returns (es: seq<Event>)
    requires Sane(a) && Sendable(d) && d.signal.None? && Free(Posted(a, d), to) && cfg.loRaRange >= 0.0
    requires FirstWithId(a.msgs, d.id) == |a.msgs|
    requires k < |a.txs| && Live(a.txs[k], a.tick + 1) && a.txs[k].msgID == d.id
    ensures Careful(cfg, Posted(a, d), es) && !AlwaysLosesRight(Posted(a, d), es)
  {
    PostKeepsSane(a, d);
    FirstOfAppend(a.msgs, Posted(a, d).msgs[|a.msgs|], d.id, 0);
    assert Bare(Posted(a, d), k, |a.msgs|);
    es := BareLosesWrong(cfg, Posted(a, d), k, |a.msgs|, to);
  }

  lemma UnsafeLosesWrong(cfg: Config, a: Air, d: Draft, to: Node) returns (es: seq<Event>)
    requires Sane(a) && Apart(a) && Sendable(d) && Free(Posted(a, d), to) && cfg.loRaRange >= 0.0
    requires !SafeToSend(cfg, a, d)
    ensures Careful(cfg, Posted(a, d), es) && !AlwaysLosesRight(Posted(a, d), es)
  {
    var first := FirstWithId(a.msgs, d.id);
    if first < |a.msgs| && d.signal.Some? {
      es := BusyLosesWrong(cfg, a, d, to);
    } else if first < |a.msgs| {
      var k :| 0 <= k < |a.txs| && Live(a.txs[k], a.tick + 1) && a.txs[k].msgID == d.id
               && Outlasts(cfg, a, k, a.msgs[first].remaining, TotalTicks(d.perHop, d.path));
      es := OutlastedLosesWrong(cfg, a, d, k, to);
    } else {
      var k :| 0 <= k < |a.txs| && Live(a.txs[k], a.tick + 1) && a.txs[k].msgID == d.id;
      if d.signal.Some? {
        es := UnhitLosesWrong(cfg, a, d, k, to);
      } else {
        es := SentBareLosesWrong(cfg, a, d, k, to);
      }
    }
  }

  // The main result for a send, in any history that has reused ids only as Reusable allows: as long as some node is
  // free to be sent to, all careful continuations after the send, however long, lose the right messages in every step
  // if and only if it is safe to send.
  lemma SafeToSendExactly(cfg: Config, hs: seq<History>, es: seq<Event>, d: Draft, to: Node)
    requires CleanHistory(hs, es) && Sendable(d) && cfg.loRaRange >= 0.0 && Free(Posted(hs[|es|].air, d), to)
    ensures Tidy(hs[|es|].air)
    ensures (forall later: seq<Event> :: LosesRightOn(cfg, Posted(hs[|es|].air, d), later))
       <==> SafeToSend(cfg, hs[|es|].air, d)
  {
    var a := hs[|es|].air;
    HistoriesAreSound(hs, es, |es|);
    HistoriesKeep(hs, es, |es|);
    CleanHistoriesKeep(hs, es, |es|);
    if SafeToSend(cfg, a, d) {
      forall later: seq<Event>
        ensures LosesRightOn(cfg, Posted(a, d), later)
      {
        if Careful(cfg, Posted(a, d), later) {
          SafeIsRight(cfg, a, d, later);
        }
      }
    } else {
      var later := UnsafeLosesWrong(cfg, a, d, to);
      assert !LosesRightOn(cfg, Posted(a, d), later);
    }
  }

  // Nothing speaks against the usual repetition: after a step, a send over the air from the same node with the same
  // spreading factor as a transmission of its id that is still on the air is safe, if no message in flight bears the
  // id.
  lemma RepetitionIsSafe(cfg: Config, b: Air, d: Draft, k: nat)
    requires Sane(b) && Sendable(d) && d.signal.Some? && cfg.loRaRange >= 0.0
    requires var a := Stepped(cfg, b);
      && FirstWithId(a.msgs, d.id) == |a.msgs| && k < |a.txs| && Live(a.txs[k], a.tick + 1)
      && a.txs[k].fromNode == d.signal.value.fromNode && a.txs[k].sf == d.signal.value.sf
    ensures Tidy(Stepped(cfg, b)) && SafeToSend(cfg, Stepped(cfg, b), d)
  {
    var a := Stepped(cfg, b);
    StepKeepsSane(cfg, b);
    NoPairsAfter(cfg, b);
    SameNodeConflicts(cfg, a.txs[k], Aired(d.id, d.signal.value, a.tick, a.sent));
  }
}
