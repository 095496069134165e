// Where marks point when ids are used again: exactly when in every continuation under the present configuration,
// however long, the mark of each colliding transmission finds its own message, or nothing when that is gone.
module SafeReuse {
  import opened Prelude
  import opened Ledger
  import opened MeshNode
  import opened Messages
  import opened Airwaves
  import opened Traffic
  import opened Attribution

  // ---------- Continuations ----------

  // Steps under one configuration, and sends that use an id again only when no transmission on the air bears it nor,
  // over the air, a message in flight.
  ghost predicate Careful(cfg: Config, b: Air, es: seq<Event>)
    decreases |es|
  {
    es == [] ||
    match es[0]
    case Step(c) => c == cfg && Tidy(b) && Careful(cfg, Stepped(cfg, b), es[1..])
    case Post(d) => Sendable(d) && Reusable(b, d) && Careful(cfg, Posted(b, d), es[1..])
  }

  // In every step the marks of the scan find the messages of the colliding transmissions.
  ghost predicate AlwaysRight(b: Air, es: seq<Event>)
    decreases |es|
  {
    es == [] ||
    match es[0]
    case Step(c) => Tidy(b) && MarksOwn(c, b) && AlwaysRight(Stepped(c, b), es[1..])
    case Post(d) => Sendable(d) && AlwaysRight(Posted(b, d), es[1..])
  }

  ghost predicate RightOn(cfg: Config, b: Air, es: seq<Event>) {
    Careful(cfg, b, es) ==> AlwaysRight(b, es)
  }

  // What all states of histories are: tidy, nothing marked before the scan.
  ghost predicate Sane(b: Air) {
    Tidy(b) && Kept(b) && forall i :: 0 <= i < |b.msgs| ==> !b.msgs[i].collided
  }

  // ---------- The condition ----------

  // Transmission k comes through the next scan and is on the air when its own message, with so many ticks remaining,
  // is gone, while another message, with its ticks, is still in flight: either because its own message is lost in the
  // next scan, in a pair that k is the later one of, or because that message is delivered before the transmission
  // ends.
  ghost predicate Outlasts(cfg: Config, b: Air, k: nat, own: int, other: int)
    requires Tidy(b) && k < |b.txs|
  {
    && Survives(cfg, b.tick + 1, b.txs, k)
    && ((InPair(NextPairs(cfg, b), k) && b.txs[k].endTick >= b.tick + 2 && other >= 2)
        || (b.txs[k].endTick > b.tick + own && other > own))
  }

  // A transmission on the air bears the id of a message that is not its own.
  ghost predicate Clash(b: Air, k: nat, i: nat)
    requires k < |b.txs| && i < |b.msgs|
  {
    Live(b.txs[k], b.tick + 1) && b.txs[k].msgID == b.msgs[i].id && b.txs[k].serial != b.msgs[i].serial
  }

  // Where there is a clash, the transmission's own message comes first and the transmission does not outlast it.
  ghost predicate Harmless(cfg: Config, b: Air, k: nat, i: nat)
    requires Tidy(b) && k < |b.txs| && i < |b.msgs|
  {
    var j := FirstWithSerial(b.msgs, b.txs[k].serial);
    j < i && !Outlasts(cfg, b, k, b.msgs[j].remaining, b.msgs[i].remaining)
  }

  ghost predicate Tame(cfg: Config, b: Air)
    requires Tidy(b)
  {
    forall k, i :: 0 <= k < |b.txs| && 0 <= i < |b.msgs| && Clash(b, k, i) ==> Harmless(cfg, b, k, i)
  }

  lemma TameIsLinked(cfg: Config, b: Air)
    requires Tidy(b) && Kept(b) && Tame(cfg, b)
    ensures Linked(b)
  {
    forall k | 0 <= k < |b.txs| && Live(b.txs[k], b.tick + 1)
      ensures FindsOwn(b.msgs, b.txs[k])
    {
      var t := b.txs[k];
      var i, j := FirstWithId(b.msgs, t.msgID), FirstWithSerial(b.msgs, t.serial);
      assert j < |b.msgs| ==> b.msgs[j].id == t.msgID;
      if i < |b.msgs| && b.msgs[i].serial != t.serial {
        assert Clash(b, k, i);
      }
    }
  }

  // ---------- Sends keep it ----------

  // A transmission added at the end is no partner of what had one already.
  lemma {:induction false} PartnerPrefix(cfg: Config, tick: int, txs: seq<Transmission>, t: Transmission, i: nat,
          j: nat)
    requires AllSent(txs + [t]) && AllSent(txs) && i < j <= |txs|
    ensures var p, q := PartnerFrom(cfg, tick, txs, i, j), PartnerFrom(cfg, tick, txs + [t], i, j);
      if p < |txs| then q == p else q >= |txs|
    decreases |txs| - j
  {
    if j < |txs| {
      assert (txs + [t])[j] == txs[j] && (txs + [t])[i] == txs[i];
      PartnerPrefix(cfg, tick, txs, t, i, j + 1);
    }
  }

  lemma {:induction false} PairIsCounted(cfg: Config, tick: int, txs: seq<Transmission>, n: nat, k: nat)
    returns (g: nat)
    requires AllSent(txs) && n <= |txs| && InPair(Pairs(cfg, tick, txs, n), k)
    ensures g < n && Counts(cfg, tick, txs, g, k)
  {
    g := n - 1;
    var before, pairs := Pairs(cfg, tick, txs, n - 1), Pairs(cfg, tick, txs, n);
    var j :| 0 <= j < |pairs| && (pairs[j].0 == k || pairs[j].1 == k);
    if j < |before| {
      assert before[j] == pairs[j];
      g := PairIsCounted(cfg, tick, txs, n - 1, k);
    }
  }

  lemma CountsWithout(cfg: Config, tick: int, txs: seq<Transmission>, t: Transmission, g: nat, k: nat)
    requires AllSent(txs) && AllSent(txs + [t]) && k < |txs| && g <= |txs|
    requires Survives(cfg, tick, txs + [t], k) && Counts(cfg, tick, txs + [t], g, k)
    ensures g < |txs| && Counts(cfg, tick, txs, g, k)
  {
    var longer := txs + [t];
    assert g != k && Partner(cfg, tick, longer, g) == k && g < |txs|;
    assert longer[g] == txs[g];
    PartnerPrefix(cfg, tick, txs, t, g, g + 1);
  }

  // What comes through the scan in a pair also does so without the last transmission.
  lemma WithoutLast(cfg: Config, tick: int, txs: seq<Transmission>, t: Transmission, k: nat)
    requires AllSent(txs) && AllSent(txs + [t]) && k < |txs| && Survives(cfg, tick, txs + [t], k)
    ensures Survives(cfg, tick, txs, k)
    ensures InPair(Pairs(cfg, tick, txs + [t], |txs + [t]|), k) ==> InPair(Pairs(cfg, tick, txs, |txs|), k)
  {
    var longer := txs + [t];
    assert longer[k] == txs[k];
    PartnerPrefix(cfg, tick, txs, t, k, k + 1);
    if InPair(Pairs(cfg, tick, longer, |longer|), k) {
      var g := PairIsCounted(cfg, tick, longer, |longer|, k);
      CountsWithout(cfg, tick, txs, t, g, k);
      CountedIsPair(cfg, tick, txs, g, k, |txs|);
    }
  }

  lemma OutlastsWithout(cfg: Config, b: Air, c: Draft, k: nat, own: int, other: int)
    requires Tidy(b) && Sendable(c) && Tidy(Posted(b, c)) && k < |b.txs| && Outlasts(cfg, Posted(b, c), k, own, other)
    ensures Outlasts(cfg, b, k, own, other)
  {
    if c.signal.Some? {
      WithoutLast(cfg, b.tick + 1, b.txs, Aired(c.id, c.signal.value, b.tick, b.sent), k);
    }
  }

  lemma PostKeepsSane(b: Air, c: Draft)
    requires Sane(b) && Sendable(c)
    ensures Sane(Posted(b, c))
  {
    PostKeepsTidy(b, c);
    PostKeepsKept(b, c);
  }

  // The clashes of a send that reuses an id well are old ones.
  lemma OldClash(b: Air, c: Draft, k: nat, i: nat)
    requires Kept(b) && Sendable(c) && Reusable(b, c)
    requires k < |Posted(b, c).txs| && i < |Posted(b, c).msgs| && Clash(Posted(b, c), k, i)
    ensures k < |b.txs| && i < |b.msgs| && Clash(b, k, i)
    ensures Posted(b, c).txs[k] == b.txs[k] && Posted(b, c).msgs[i] == b.msgs[i]
  {
  }

  lemma PostKeepsTame(cfg: Config, b: Air, c: Draft)
    requires Sane(b) && Tame(cfg, b) && Sendable(c) && Reusable(b, c)
    ensures Sane(Posted(b, c)) && Tame(cfg, Posted(b, c))
  {
    var e := Posted(b, c);
    PostKeepsSane(b, c);
    forall k, i | 0 <= k < |e.txs| && 0 <= i < |e.msgs| && Clash(e, k, i)
      ensures Harmless(cfg, e, k, i)
    {
      OldClash(b, c, k, i);
      var j := FirstWithSerial(b.msgs, b.txs[k].serial);
      FirstOfAppend(b.msgs, e.msgs[|b.msgs|], "", b.txs[k].serial);
      assert Harmless(cfg, b, k, i) && e.msgs[j] == b.msgs[j];
      if Outlasts(cfg, e, k, e.msgs[j].remaining, e.msgs[i].remaining) {
        OutlastsWithout(cfg, b, c, k, b.msgs[j].remaining, b.msgs[i].remaining);
      }
    }
  }

  // ---------- Steps keep it ----------

  lemma {:induction false} StayerOrigin(msgs: seq<ActiveMsg>, i: nat) returns (o: nat)
    requires AllWellFormed(msgs) && i < |InFlight(msgs)|
    ensures o < |msgs| && Stays(msgs[o]) && InFlight(msgs)[i] == Advanced(msgs[o])
  {
    var p := msgs[..|msgs| - 1];
    if i < |InFlight(p)| {
      o := StayerOrigin(p, i);
    } else {
      o := |msgs| - 1;
    }
  }

  lemma {:induction false} StayerPlace(msgs: seq<ActiveMsg>, o: nat) returns (i: nat)
    requires AllWellFormed(msgs) && o < |msgs| && Stays(msgs[o])
    ensures i < |InFlight(msgs)| && InFlight(msgs)[i] == Advanced(msgs[o])
  {
    var p := msgs[..|msgs| - 1];
    if o < |p| {
      i := StayerPlace(p, o);
    } else {
      i := |InFlight(p)|;
    }
  }

  lemma {:induction false} SurvivorPlace(cfg: Config, tick: int, txs: seq<Transmission>, n: nat, o: nat)
    returns (k: nat)
    requires AllSent(txs) && o < n <= |txs| && Survives(cfg, tick, txs, o)
    ensures k < |Survivors(cfg, tick, txs, n)| && Survivors(cfg, tick, txs, n)[k] == txs[o]
  {
    if o < n - 1 {
      k := SurvivorPlace(cfg, tick, txs, n - 1, o);
    } else {
      k := |Survivors(cfg, tick, txs, n - 1)|;
    }
  }

  lemma StepKeepsSane(cfg: Config, b: Air)
    requires Sane(b)
    ensures Sane(Stepped(cfg, b))
  {
    var e := Stepped(cfg, b);
    StepKeepsKept(cfg, b);
    SurvivorsSent(cfg, b);
    forall i | 0 <= i < |e.msgs|
      ensures WellFormed(e.msgs[i]) && !e.msgs[i].collided
    {
      var o := StayerOrigin(Scanned(cfg, b), i);
    }
  }

  // A second scan under the same configuration finds nothing left to collide.
  lemma {:induction false} NoPairs(cfg: Config, tick: int, txs: seq<Transmission>, n: nat)
    requires AllSent(txs) && n <= |txs|
    requires forall i, j :: 0 <= i < |txs| && 0 <= j < |txs| && i != j ==> !Conflict(cfg, txs[i], txs[j])
    ensures Pairs(cfg, tick, txs, n) == []
    ensures forall k :: 0 <= k < n && Live(txs[k], tick) ==> Survives(cfg, tick, txs, k)
  {
    if n > 0 {
      NoPairs(cfg, tick, txs, n - 1);
      PartnerFromIs(cfg, tick, txs, n - 1, n);
    }
  }

  lemma NoPairsAfter(cfg: Config, b: Air)
    requires Tidy(b)
    ensures var e := Stepped(cfg, b);
      && AllSent(e.txs) && Pairs(cfg, e.tick + 1, e.txs, |e.txs|) == []
      && forall k :: 0 <= k < |e.txs| && Live(e.txs[k], e.tick + 1) ==> Survives(cfg, e.tick + 1, e.txs, k)
  {
    var e := Stepped(cfg, b);
    SurvivorsDoNotConflict(cfg, b.tick + 1, b.txs, |b.txs|);
    NoPairs(cfg, e.tick + 1, e.txs, |e.txs|);
  }

  // The message of a transmission, when the marks find their own: lost exactly when the transmission is in a pair.
  lemma OwnerFate(cfg: Config, b: Air, k: nat, j: nat)
    requires Sane(b) && MarksOwn(cfg, b) && k < |b.txs| && j < |b.msgs| && b.msgs[j].serial == b.txs[k].serial
    ensures Scanned(cfg, b)[j].collided <==> InPair(NextPairs(cfg, b), k)
  {
    ScanLosesOwn(cfg, b, j);
    forall l | 0 <= l < |b.txs| && b.txs[l].serial == b.txs[k].serial
      ensures l == k
    {
    }
  }

  lemma FirstWithSerialIs(msgs: seq<ActiveMsg>, j: nat)
    requires InOrder(msgs) && j < |msgs|
    ensures FirstWithSerial(msgs, msgs[j].serial) == j
  {
  }

  // The step of the clashing message: it stays, and its transmission comes through.
  lemma ClashOrigin(cfg: Config, b: Air, k: nat, i: nat) returns (l: nat, o: nat)
    requires Sane(b) && k < |Stepped(cfg, b).txs| && i < |Stepped(cfg, b).msgs| && Clash(Stepped(cfg, b), k, i)
    ensures l < |b.txs| && o < |b.msgs| && Clash(b, l, o)
    ensures Stepped(cfg, b).txs[k] == b.txs[l] && Survives(cfg, b.tick + 1, b.txs, l) && b.txs[l].endTick >= b.tick + 2
    ensures Stepped(cfg, b).msgs[i].serial == b.msgs[o].serial
    ensures Stepped(cfg, b).msgs[i].remaining == b.msgs[o].remaining - 1 >= 1
  {
    l := SurvivorOrigin(cfg, b.tick + 1, b.txs, |b.txs|, k);
    o := StayerOrigin(Scanned(cfg, b), i);
  }

  // A message that was not marked and had at least two ticks left is found again, one tick on.
  lemma StaysOn(cfg: Config, b: Air, o: nat) returns (i: nat)
    requires Sane(b) && o < |b.msgs| && !Scanned(cfg, b)[o].collided && b.msgs[o].remaining >= 2
    ensures var e := Stepped(cfg, b);
      && i < |e.msgs| && e.msgs[i].serial == b.msgs[o].serial && e.msgs[i].id == b.msgs[o].id
      && e.msgs[i].remaining == b.msgs[o].remaining - 1
  {
    i := StayerPlace(Scanned(cfg, b), o);
  }

  lemma StepKeepsHarmless(cfg: Config, b: Air, k: nat, i: nat)
    requires Sane(b) && Tame(cfg, b) && Sane(Stepped(cfg, b))
    requires k < |Stepped(cfg, b).txs| && i < |Stepped(cfg, b).msgs| && Clash(Stepped(cfg, b), k, i)
    ensures Harmless(cfg, Stepped(cfg, b), k, i)
  {
    var e := Stepped(cfg, b);
    var l, o := ClashOrigin(cfg, b, k, i);
    assert Harmless(cfg, b, l, o);
    var j := FirstWithSerial(b.msgs, b.txs[l].serial);
    TameIsLinked(cfg, b);
    LinkedMarksOwn(cfg, b);
    OwnerFate(cfg, b, l, j);
    var j' := StaysOn(cfg, b, j);
    FirstWithSerialIs(e.msgs, j');
    NoPairsAfter(cfg, b);
  }

  lemma StepKeepsTame(cfg: Config, b: Air)
    requires Sane(b) && Tame(cfg, b)
    ensures Sane(Stepped(cfg, b)) && Tame(cfg, Stepped(cfg, b))
  {
    StepKeepsSane(cfg, b);
    forall k, i | 0 <= k < |Stepped(cfg, b).txs| && 0 <= i < |Stepped(cfg, b).msgs| && Clash(Stepped(cfg, b), k, i)
      ensures Harmless(cfg, Stepped(cfg, b), k, i)
    {
      StepKeepsHarmless(cfg, b, k, i);
    }
  }

  lemma {:induction false} TameIsRight(cfg: Config, b: Air, es: seq<Event>)
    requires Sane(b) && Tame(cfg, b) && Careful(cfg, b, es)
    ensures AlwaysRight(b, es)
    decreases |es|
  {
    if es != [] {
      match es[0]
      case Step(c) =>
        TameIsLinked(cfg, b);
        LinkedMarksOwn(cfg, b);
        StepKeepsTame(cfg, b);
        TameIsRight(cfg, Stepped(cfg, b), es[1..]);
      case Post(d) =>
        PostKeepsTame(cfg, b, d);
        TameIsRight(cfg, Posted(b, d), es[1..]);
    }
  }

  // ---------- Otherwise some continuation goes wrong ----------

  lemma StepFirst(cfg: Config, b: Air, es: seq<Event>)
    requires Tidy(b) && Careful(cfg, Stepped(cfg, b), es)
    ensures Careful(cfg, b, [Step(cfg)] + es)
    ensures MarksOwn(cfg, b) && !AlwaysRight(Stepped(cfg, b), es) ==> !AlwaysRight(b, [Step(cfg)] + es)
  {
    assert ([Step(cfg)] + es)[1..] == es;
  }

  lemma StrayFails(cfg: Config, b: Air, to: Node) returns (es: seq<Event>)
    requires Sane(b) && !Linked(b) && Free(b, to) && cfg.loRaRange >= 0.0
    ensures Careful(cfg, b, es) && !AlwaysRight(b, es)
  {
    var c := StrayShows(cfg, b, to);
    LastStep(cfg, Posted(b, c));
    es := [Post(c)] + [Step(cfg)];
    PostFirst(cfg, b, c, [Step(cfg)]);
  }

  lemma LastStep(cfg: Config, b: Air)
    requires Tidy(b)
    ensures Careful(cfg, b, [Step(cfg)]) && (!MarksOwn(cfg, b) ==> !AlwaysRight(b, [Step(cfg)]))
  {
    var es := [Step(cfg)];
    assert es[1..] == [];
  }

  lemma PostFirst(cfg: Config, b: Air, c: Draft, es: seq<Event>)
    requires Sendable(c) && Reusable(b, c) && Careful(cfg, Posted(b, c), es) && !AlwaysRight(Posted(b, c), es)
    ensures Careful(cfg, b, [Post(c)] + es) && !AlwaysRight(b, [Post(c)] + es)
  {
    assert ([Post(c)] + es)[1..] == es;
  }

  lemma UnborneAfter(cfg: Config, b: Air, id: string)
    requires Tidy(b) && Unborne(b, id)
    ensures Unborne(Stepped(cfg, b), id)
  {
    var e := Stepped(cfg, b);
    StepLeaves(cfg, b);
    forall i | 0 <= i < |e.msgs|
      ensures e.msgs[i].id != id
    {
      var o :| 0 <= o < |b.msgs| && SameTags(e.msgs[i], b.msgs[o]);
    }
  }

  lemma FreeAfter(cfg: Config, b: Air, to: Node)
    requires Tidy(b) && Free(b, to)
    ensures Free(Stepped(cfg, b), to)
  {
    var e := Stepped(cfg, b);
    StepLeaves(cfg, b);
    forall k | 0 <= k < |e.txs| && Live(e.txs[k], e.tick + 1) && e.txs[k].fromNode != null
      ensures Unborne(e, MsgID(e.txs[k].fromNode, to))
    {
      var l :| 0 <= l < |b.txs| && b.txs[l] == e.txs[k];
      UnborneAfter(cfg, b, MsgID(b.txs[l].fromNode, to));
    }
  }

  // While its own message comes first, no mark finds the clashing one.
  lemma OtherStays(cfg: Config, b: Air, k: nat, j: nat, i: nat)
    requires Sane(b) && MarksOwn(cfg, b) && k < |b.txs| && j < i < |b.msgs| && Clash(b, k, i)
    requires b.msgs[j].serial == b.txs[k].serial
    ensures !Scanned(cfg, b)[i].collided
  {
    ScanLosesOwn(cfg, b, i);
    FirstWithSerialIs(b.msgs, i);
    forall l | 0 <= l < |b.txs| && b.txs[l].serial == b.msgs[i].serial
      ensures !InPair(NextPairs(cfg, b), l)
    {
      assert b.txs[l].msgID == b.msgs[i].id == b.txs[k].msgID == b.msgs[j].id;
      assert FirstWithId(b.msgs, b.txs[l].msgID) <= j;
      assert !FindsOwn(b.msgs, b.txs[l]);
    }
  }

  lemma OutlastsLong(cfg: Config, b: Air, k: nat, own: int, other: int)
    requires Tidy(b) && k < |b.txs| && own >= 1 && Outlasts(cfg, b, k, own, other)
    ensures Survives(cfg, b.tick + 1, b.txs, k) && b.txs[k].endTick >= b.tick + 2 && other >= 2
  {
  }

  // The state one step on, when the clashing message is still there and the transmission still on the air.
  lemma ClashGoesOn(cfg: Config, b: Air, k: nat, i: nat) returns (k': nat, i': nat)
    requires Sane(b) && k < |b.txs| && i < |b.msgs| && Clash(b, k, i)
    requires Survives(cfg, b.tick + 1, b.txs, k) && b.txs[k].endTick >= b.tick + 2
    requires !Scanned(cfg, b)[i].collided && b.msgs[i].remaining >= 2
    ensures var e := Stepped(cfg, b);
      && k' < |e.txs| && e.txs[k'] == b.txs[k] && i' < |e.msgs| && Clash(e, k', i')
      && e.msgs[i'].serial == b.msgs[i].serial && e.msgs[i'].remaining == b.msgs[i].remaining - 1
  {
    k' := SurvivorPlace(cfg, b.tick + 1, b.txs, |b.txs|, k);
    i' := StaysOn(cfg, b, i);
  }

  lemma GoneFromFlight(msgs: seq<ActiveMsg>, j: nat)
    requires AllWellFormed(msgs) && InOrder(msgs) && j < |msgs| && !Stays(msgs[j])
    ensures forall i :: 0 <= i < |InFlight(msgs)| ==> InFlight(msgs)[i].serial != msgs[j].serial
  {
    forall i | 0 <= i < |InFlight(msgs)|
      ensures InFlight(msgs)[i].serial != msgs[j].serial
    {
      var o := StayerOrigin(msgs, i);
    }
  }

  lemma OwnerGone(cfg: Config, b: Air, j: nat)
    requires Sane(b) && j < |b.msgs| && (Scanned(cfg, b)[j].collided || b.msgs[j].remaining == 1)
    ensures FirstWithSerial(Stepped(cfg, b).msgs, b.msgs[j].serial) == |Stepped(cfg, b).msgs|
  {
    MarkedSerials(b.msgs, Scanned(cfg, b));
    GoneFromFlight(Scanned(cfg, b), j);
  }

  lemma OutlastingGoesOn(cfg: Config, b: Air, k: nat, j: nat, i: nat) returns (k': nat, i': nat)
    requires Sane(b) && MarksOwn(cfg, b)
    requires k < |b.txs| && j < i < |b.msgs| && Clash(b, k, i) && b.msgs[j].serial == b.txs[k].serial
    requires Outlasts(cfg, b, k, b.msgs[j].remaining, b.msgs[i].remaining)
    ensures var e := Stepped(cfg, b);
      && k' < |e.txs| && e.txs[k'] == b.txs[k] && i' < |e.msgs| && Clash(e, k', i')
      && e.msgs[i'].serial == b.msgs[i].serial && e.msgs[i'].remaining == b.msgs[i].remaining - 1
    ensures Scanned(cfg, b)[j].collided <==> InPair(NextPairs(cfg, b), k)
  {
    OutlastsLong(cfg, b, k, b.msgs[j].remaining, b.msgs[i].remaining);
    OtherStays(cfg, b, k, j, i);
    k', i' := ClashGoesOn(cfg, b, k, i);
    OwnerFate(cfg, b, k, j);
  }

  lemma {:induction false} OutlastingFails(cfg: Config, b: Air, k: nat, j: nat, i: nat, to: Node)
    returns (es: seq<Event>)
    requires Sane(b) && Free(b, to) && cfg.loRaRange >= 0.0
    requires k < |b.txs| && j < i < |b.msgs| && Clash(b, k, i) && b.msgs[j].serial == b.txs[k].serial
    requires Outlasts(cfg, b, k, b.msgs[j].remaining, b.msgs[i].remaining)
    ensures Careful(cfg, b, es) && !AlwaysRight(b, es)
    decreases b.msgs[j].remaining
  {
    var e := Stepped(cfg, b);
    StepKeepsSane(cfg, b);
    FreeAfter(cfg, b, to);
    if !MarksOwn(cfg, b) {
      LastStep(cfg, b);
      return [Step(cfg)];
    }
    var k', i' := OutlastingGoesOn(cfg, b, k, j, i);
    if InPair(NextPairs(cfg, b), k) || b.msgs[j].remaining == 1 {
      OwnerGone(cfg, b, j);
      assert !FindsOwn(e.msgs, e.txs[k']);
      es := StrayFails(cfg, e, to);
    } else {
      var j' := StaysOn(cfg, b, j);
      NoPairsAfter(cfg, b);
      es := OutlastingFails(cfg, e, k', j', i', to);
    }
    StepFirst(cfg, b, es);
    return [Step(cfg)] + es;
  }

  // The main result for a state: as long as some node is free to be sent to, in all careful continuations, however
  // long, the marks find their own messages if and only if the state is tame.
  lemma RightForeverExactly(cfg: Config, b: Air, to: Node)
    requires Sane(b) && Free(b, to) && cfg.loRaRange >= 0.0
    ensures (forall es: seq<Event> :: RightOn(cfg, b, es)) <==> Tame(cfg, b)
  {
    if Tame(cfg, b) {
      forall es: seq<Event>
        ensures RightOn(cfg, b, es)
      {
        if Careful(cfg, b, es) {
          TameIsRight(cfg, b, es);
        }
      }
    } else {
      var k, i :| 0 <= k < |b.txs| && 0 <= i < |b.msgs| && Clash(b, k, i) && !Harmless(cfg, b, k, i);
      var es := WildFails(cfg, b, k, i, to);
      assert !RightOn(cfg, b, es);
    }
  }

  lemma WildFails(cfg: Config, b: Air, k: nat, i: nat, to: Node) returns (es: seq<Event>)
    requires Sane(b) && Free(b, to) && cfg.loRaRange >= 0.0
    requires k < |b.txs| && i < |b.msgs| && Clash(b, k, i) && !Harmless(cfg, b, k, i)
    ensures Careful(cfg, b, es) && !AlwaysRight(b, es)
  {
    var j := FirstWithSerial(b.msgs, b.txs[k].serial);
    if j < i {
      es := OutlastingFails(cfg, b, k, j, i, to);
    } else {
      assert !FindsOwn(b.msgs, b.txs[k]);
      es := StrayFails(cfg, b, to);
    }
  }

  // ---------- The condition for one send ----------

  // For marks, in terms the code has: no transmission on the air bears the id, or else the send does not go over the
  // air, a message with the id is in flight, and no transmission of that id outlasts the first such message while the
  // new one has ticks left.
  ghost predicate MarksSafe(cfg: Config, a: Air, d: Draft)
    requires Tidy(a) && Sendable(d)
  {
    var first := FirstWithId(a.msgs, d.id);
    if first == |a.msgs| then forall k :: 0 <= k < |a.txs| && Live(a.txs[k], a.tick + 1) ==> a.txs[k].msgID != d.id
    else
      && d.signal.None?
      && forall k :: 0 <= k < |a.txs| && Live(a.txs[k], a.tick + 1) && a.txs[k].msgID == d.id
           ==> !Outlasts(cfg, a, k, a.msgs[first].remaining, TotalTicks(d.perHop, d.path))
  }

  // What the clashes of a state with one more message at its end are, when there was none before.
  lemma NewClash(a: Air, d: Draft, k: nat, i: nat)
    requires Kept(a) && Apart(a) && Sendable(d)
    requires k < |Posted(a, d).txs| && i < |Posted(a, d).msgs| && Clash(Posted(a, d), k, i)
    ensures if k < |a.txs| then i == |a.msgs| && a.txs[k].msgID == d.id else i < |a.msgs| && a.msgs[i].id == d.id
  {
  }

  lemma SameOnAir(cfg: Config, a: Air, d: Draft, k: nat, own: int, other: int)
    requires Tidy(a) && Sendable(d) && d.signal.None? && Tidy(Posted(a, d)) && k < |a.txs|
    ensures Outlasts(cfg, Posted(a, d), k, own, other) <==> Outlasts(cfg, a, k, own, other)
  {
    assert Posted(a, d).txs == a.txs;
  }

  // The clash of a transmission with a new message of its id: its own message, if any, is the first with the id.
  lemma ClashWithNew(cfg: Config, a: Air, d: Draft, k: nat)
    requires Sane(a) && Apart(a) && Sendable(d) && d.signal.None? && Tidy(Posted(a, d))
    requires k < |a.txs| && Live(a.txs[k], a.tick + 1) && a.txs[k].msgID == d.id
    ensures Clash(Posted(a, d), k, |a.msgs|)
    ensures var first := FirstWithId(a.msgs, d.id);
      Harmless(cfg, Posted(a, d), k, |a.msgs|) <==>
        first < |a.msgs| && !Outlasts(cfg, a, k, a.msgs[first].remaining, TotalTicks(d.perHop, d.path))
  {
    var b, first := Posted(a, d), FirstWithId(a.msgs, d.id);
    FirstOfAppend(a.msgs, b.msgs[|a.msgs|], "", a.txs[k].serial);
    if first < |a.msgs| {
      FirstWithSerialIs(a.msgs, first);
      SameOnAir(cfg, a, d, k, a.msgs[first].remaining, TotalTicks(d.perHop, d.path));
    }
  }

  lemma SafeMarksAreTame(cfg: Config, a: Air, d: Draft)
    requires Sane(a) && Apart(a) && Sendable(d) && Tidy(Posted(a, d)) && MarksSafe(cfg, a, d)
    ensures Tame(cfg, Posted(a, d))
  {
    var b := Posted(a, d);
    forall k, i | 0 <= k < |b.txs| && 0 <= i < |b.msgs| && Clash(b, k, i)
      ensures Harmless(cfg, b, k, i)
    {
      NewClash(a, d, k, i);
      ClashWithNew(cfg, a, d, k);
    }
  }

  lemma BusyOverTheAir(cfg: Config, a: Air, d: Draft)
    requires Sane(a) && Sendable(d) && d.signal.Some? && Tidy(Posted(a, d)) && FirstWithId(a.msgs, d.id) < |a.msgs|
    ensures !Tame(cfg, Posted(a, d))
  {
    var b, first := Posted(a, d), FirstWithId(a.msgs, d.id);
    FirstOfAppend(a.msgs, b.msgs[|a.msgs|], "", a.sent);
    assert Clash(b, |a.txs|, first) && !Harmless(cfg, b, |a.txs|, first);
  }

  lemma OrphanOnAir(cfg: Config, a: Air, d: Draft, k: nat)
    requires Sane(a) && Sendable(d) && Tidy(Posted(a, d)) && FirstWithId(a.msgs, d.id) == |a.msgs|
    requires k < |a.txs| && Live(a.txs[k], a.tick + 1) && a.txs[k].msgID == d.id
    ensures !Tame(cfg, Posted(a, d))
  {
    var b := Posted(a, d);
    FirstOfAppend(a.msgs, b.msgs[|a.msgs|], "", a.txs[k].serial);
    assert b.txs[k] == a.txs[k];
    assert Clash(b, k, |a.msgs|) && !Harmless(cfg, b, k, |a.msgs|);
  }

  lemma UnsafeMarksAreWild(cfg: Config, a: Air, d: Draft)
    requires Sane(a) && Apart(a) && Sendable(d) && Tidy(Posted(a, d)) && !MarksSafe(cfg, a, d)
    ensures !Tame(cfg, Posted(a, d))
  {
    var first := FirstWithId(a.msgs, d.id);
    if first < |a.msgs| && d.signal.Some? {
      BusyOverTheAir(cfg, a, d);
    } else if first < |a.msgs| {
      var k :| 0 <= k < |a.txs| && Live(a.txs[k], a.tick + 1) && a.txs[k].msgID == d.id
               && Outlasts(cfg, a, k, a.msgs[first].remaining, TotalTicks(d.perHop, d.path));
      ClashWithNew(cfg, a, d, k);
    } else {
      var k :| 0 <= k < |a.txs| && Live(a.txs[k], a.tick + 1) && a.txs[k].msgID == d.id;
      OrphanOnAir(cfg, a, d, k);
    }
  }

  // The main result about marks for a send, in any history that has reused ids only as Reusable allows: as long as some
  // node is free to be sent to, in all careful continuations after the send the marks find their own messages if and
  // only if the condition holds.
  lemma MarksSafeExactly(cfg: Config, hs: seq<History>, es: seq<Event>, d: Draft, to: Node)
    requires CleanHistory(hs, es) && Sendable(d) && cfg.loRaRange >= 0.0 && Free(Posted(hs[|es|].air, d), to)
    ensures Tidy(hs[|es|].air)
    ensures (forall later: seq<Event> :: RightOn(cfg, Posted(hs[|es|].air, d), later))
       <==> MarksSafe(cfg, hs[|es|].air, d)
  {
    var a := hs[|es|].air;
    HistoriesAreSound(hs, es, |es|);
    HistoriesKeep(hs, es, |es|);
    CleanHistoriesKeep(hs, es, |es|);
    PostKeepsSane(a, d);
    RightForeverExactly(cfg, Posted(a, d), to);
    if MarksSafe(cfg, a, d) {
      SafeMarksAreTame(cfg, a, d);
    } else {
      UnsafeMarksAreWild(cfg, a, d);
    }
  }
}
