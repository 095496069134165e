// Spreading factors in the collision scan of simulation/world.go: transmissions on different ones never collide, so the
// scan works on each factor as if the others were not there.
module SpreadingFactors {
  import opened Ledger
  import opened MeshNode
  import opened Airwaves

  // ---------- When two transmissions collide, in terms of their fields ----------

  // For the distance d of the two nodes: same factor, common ticks, and d within the range.
  lemma ConflictInFields(cfg: Config, s: Transmission, t: Transmission, d: real)
    requires s.fromNode != null && t.fromNode != null && d >= 0.0
    requires var dx, dy := (s.fromNode.x - t.fromNode.x) as real, (s.fromNode.y - t.fromNode.y) as real;
      d * d == dx * cfg.cellWidth * (dx * cfg.cellWidth) + dy * cfg.cellHeight * (dy * cfg.cellHeight)
    ensures Conflict(cfg, s, t) <==>
      s.sf == t.sf && s.startTick <= t.endTick && t.startTick <= s.endTick && d <= cfg.loRaRange
  {
    if cfg.loRaRange >= 0.0 {
      SquaresKeepOrder(d, cfg.loRaRange);
    }
  }

  // An unexpired transmission is dropped exactly when a later unexpired one on its factor, with a common tick, comes
  // from within range. The range is compared by squares.
  lemma DroppedInFields(cfg: Config, tick: int, txs: seq<Transmission>, i: nat)
    requires AllSent(txs) && i < |txs| && txs[i].endTick >= tick
    ensures !Survives(cfg, tick, txs, i) <==>
      exists j :: i < j < |txs| && txs[j].endTick >= tick && txs[j].sf == txs[i].sf
        && txs[j].startTick <= txs[i].endTick && txs[i].startTick <= txs[j].endTick && cfg.loRaRange >= 0.0
        && var dx, dy := (txs[i].fromNode.x - txs[j].fromNode.x) as real,
            (txs[i].fromNode.y - txs[j].fromNode.y) as real;
           dx * cfg.cellWidth * (dx * cfg.cellWidth) + dy * cfg.cellHeight * (dy * cfg.cellHeight)
             <= cfg.loRaRange * cfg.loRaRange
  {
    DroppedExactlyByLater(cfg, tick, txs, i);
  }

  // ---------- The scan from the first transmission on ----------

  // A later unexpired transmission conflicts with t.
  ghost predicate HitIn(cfg: Config, tick: int, t: Transmission, later: seq<Transmission>)
    requires t.fromNode != null && AllSent(later)
  {
    exists j :: 0 <= j < |later| && Live(later[j], tick) && Conflict(cfg, t, later[j])
  }

  ghost function Left(cfg: Config, tick: int, txs: seq<Transmission>): seq<Transmission>
    requires AllSent(txs)
  {
    if txs == [] then [] else
    (if Live(txs[0], tick) && !HitIn(cfg, tick, txs[0], txs[1..]) then [txs[0]] else []) + Left(cfg, tick, txs[1..])
  }

  // How many unexpired transmissions a later one conflicts with.
  ghost function Hit(cfg: Config, tick: int, txs: seq<Transmission>): nat
    requires AllSent(txs)
  {
    if txs == [] then 0 else
    (if Live(txs[0], tick) && HitIn(cfg, tick, txs[0], txs[1..]) then 1 else 0) + Hit(cfg, tick, txs[1..])
  }

  lemma SurvivesIsUnhit(cfg: Config, tick: int, txs: seq<Transmission>, i: nat)
    requires AllSent(txs) && i < |txs|
    ensures Survives(cfg, tick, txs, i) <==> Live(txs[i], tick) && !HitIn(cfg, tick, txs[i], txs[i + 1..])
    ensures Collides(cfg, tick, txs, i) <==> Live(txs[i], tick) && HitIn(cfg, tick, txs[i], txs[i + 1..])
  {
    var later := txs[i + 1..];
    PartnerFromIs(cfg, tick, txs, i, i + 1);
    var k := Partner(cfg, tick, txs, i);
    if k < |txs| {
      assert later[k - i - 1] == txs[k];
    }
    assert forall j :: 0 <= j < |later| ==> later[j] == txs[i + 1 + j];
  }

  lemma {:induction false} SurvivorsThenLeft(cfg: Config, tick: int, txs: seq<Transmission>, n: nat)
    requires AllSent(txs) && n <= |txs|
    ensures Survivors(cfg, tick, txs, n) + Left(cfg, tick, txs[n..]) == Left(cfg, tick, txs)
    ensures Drops(cfg, tick, txs, n) + Hit(cfg, tick, txs[n..]) == Hit(cfg, tick, txs)
  {
    if n > 0 {
      SurvivorsThenLeft(cfg, tick, txs, n - 1);
      SurvivesIsUnhit(cfg, tick, txs, n - 1);
      assert txs[n - 1..][0] == txs[n - 1] && txs[n - 1..][1..] == txs[n..];
    }
  }

  lemma SurvivorsAreLeft(cfg: Config, tick: int, txs: seq<Transmission>)
    requires AllSent(txs)
    ensures Survivors(cfg, tick, txs, |txs|) == Left(cfg, tick, txs)
    ensures Drops(cfg, tick, txs, |txs|) == Hit(cfg, tick, txs)
  {
    SurvivorsThenLeft(cfg, tick, txs, |txs|);
    assert txs[|txs|..] == [];
  }

  // ---------- Some factors at a time ----------

  // The transmissions with one of these factors, in their order.
  function On(txs: seq<Transmission>, fs: set<int>): (r: seq<Transmission>)
    ensures AllSent(txs) ==> AllSent(r)
  {
    if txs == [] then [] else
    var rest := On(txs[1..], fs);
    if txs[0].sf in fs then [txs[0]] + rest else rest
  }

  lemma HitInCons(cfg: Config, tick: int, t: Transmission, u: Transmission, rest: seq<Transmission>)
    requires t.fromNode != null && u.fromNode != null && AllSent(rest)
    ensures HitIn(cfg, tick, t, [u] + rest) <==> (Live(u, tick) && Conflict(cfg, t, u)) || HitIn(cfg, tick, t, rest)
  {
    var all := [u] + rest;
    assert all[0] == u;
    assert forall j :: 0 <= j < |rest| ==> rest[j] == all[j + 1];
  }

  lemma {:induction false} HitOnFactors(cfg: Config, tick: int, t: Transmission, later: seq<Transmission>, fs: set<int>)
    requires t.fromNode != null && AllSent(later) && t.sf in fs
    ensures HitIn(cfg, tick, t, On(later, fs)) <==> HitIn(cfg, tick, t, later)
  {
    if later != [] {
      var u, rest := later[0], later[1..];
      HitOnFactors(cfg, tick, t, rest, fs);
      assert later == [u] + rest;
      HitInCons(cfg, tick, t, u, rest);
      if u.sf in fs {
        HitInCons(cfg, tick, t, u, On(rest, fs));
      }
    }
  }

  lemma LeftOnCons(cfg: Config, tick: int, t: Transmission, rest: seq<Transmission>, fs: set<int>)
    requires t.fromNode != null && AllSent(rest) && t.sf in fs
    ensures var unhit := Live(t, tick) && !HitIn(cfg, tick, t, rest);
      && Left(cfg, tick, [t] + On(rest, fs)) == (if unhit then [t] else []) + Left(cfg, tick, On(rest, fs))
      && Hit(cfg, tick, [t] + On(rest, fs))
         == (if Live(t, tick) && !unhit then 1 else 0) + Hit(cfg, tick, On(rest, fs))
  {
    HitOnFactors(cfg, tick, t, rest, fs);
    assert ([t] + On(rest, fs))[1..] == On(rest, fs);
  }

  lemma {:induction false} LeftOn(cfg: Config, tick: int, txs: seq<Transmission>, fs: set<int>)
    requires AllSent(txs)
    ensures On(Left(cfg, tick, txs), fs) == Left(cfg, tick, On(txs, fs))
  {
    if txs != [] {
      var t, rest := txs[0], txs[1..];
      var left := Left(cfg, tick, rest);
      LeftOn(cfg, tick, rest, fs);
      if t.sf in fs {
        LeftOnCons(cfg, tick, t, rest, fs);
      }
      assert ([t] + left)[1..] == left && [] + left == left;
    }
  }

  // The main result for what stays: the survivors with some factors are the survivors of the transmissions with them.
  lemma SurvivorsByFactor(cfg: Config, tick: int, txs: seq<Transmission>, fs: set<int>)
    requires AllSent(txs)
    ensures var own := On(txs, fs);
      On(Survivors(cfg, tick, txs, |txs|), fs) == Survivors(cfg, tick, own, |own|)
  {
    SurvivorsAreLeft(cfg, tick, txs);
    SurvivorsAreLeft(cfg, tick, On(txs, fs));
    LeftOn(cfg, tick, txs, fs);
  }

  // ---------- The counted collisions ----------

  lemma {:induction false} HitSplits(cfg: Config, tick: int, txs: seq<Transmission>, fs: set<int>, gs: set<int>)
    requires AllSent(txs) && fs !! gs && forall t :: t in txs ==> t.sf in fs + gs
    ensures Hit(cfg, tick, txs) == Hit(cfg, tick, On(txs, fs)) + Hit(cfg, tick, On(txs, gs))
  {
    if txs != [] {
      var t, rest := txs[0], txs[1..];
      HitSplits(cfg, tick, rest, fs, gs);
      LeftOnCons(cfg, tick, t, rest, if t.sf in fs then fs else gs);
    }
  }

  // The drops of the scans of the transmissions with each of these factors, added up.
  function DropsOver(cfg: Config, tick: int, txs: seq<Transmission>, factors: seq<int>): nat
    requires AllSent(txs)
  {
    if factors == [] then 0 else
    var own := On(txs, {factors[0]});
    Drops(cfg, tick, own, |own|) + DropsOver(cfg, tick, txs, factors[1..])
  }

  lemma {:induction false} OnTwice(txs: seq<Transmission>, fs: set<int>, gs: set<int>)
    requires gs <= fs
    ensures On(On(txs, fs), gs) == On(txs, gs)
  {
    if txs != [] {
      OnTwice(txs[1..], fs, gs);
      assert ([txs[0]] + On(txs[1..], fs))[1..] == On(txs[1..], fs);
    }
  }

  lemma {:induction false} SameDropsOver(cfg: Config, tick: int, txs: seq<Transmission>, fs: set<int>,
          factors: seq<int>)
    requires AllSent(txs) && forall f :: f in factors ==> f in fs
    ensures DropsOver(cfg, tick, On(txs, fs), factors) == DropsOver(cfg, tick, txs, factors)
  {
    if factors != [] {
      var f := factors[0];
      assert f in factors;
      assert f in fs;
      OnTwice(txs, fs, {f});
      SameDropsOver(cfg, tick, txs, fs, factors[1..]);
    }
  }

  lemma {:induction false} OnHas(txs: seq<Transmission>, fs: set<int>)
    ensures forall t :: t in On(txs, fs) ==> t in txs && t.sf in fs
  {
    if txs != [] {
      OnHas(txs[1..], fs);
    }
  }

  // The main result for what collides: the drops of a scan are those of the scans of each factor, added up.
  lemma {:induction false} DropsByFactor(cfg: Config, tick: int, txs: seq<Transmission>, factors: seq<int>)
    requires AllSent(txs) && forall i, j :: 0 <= i < j < |factors| ==> factors[i] != factors[j]
    requires forall t :: t in txs ==> t.sf in factors
    ensures Drops(cfg, tick, txs, |txs|) == DropsOver(cfg, tick, txs, factors)
    decreases |factors|
  {
    if factors == [] {
      assert txs == [];
    } else {
      var f, others := {factors[0]}, set x | x in factors[1..];
      var own, rest := On(txs, f), On(txs, others);
      forall t | t in txs
        ensures t.sf in f + others
      {
      }
      HitSplits(cfg, tick, txs, f, others);
      SurvivorsAreLeft(cfg, tick, txs);
      SurvivorsAreLeft(cfg, tick, own);
      SurvivorsAreLeft(cfg, tick, rest);
      OnHas(txs, others);
      DropsByFactor(cfg, tick, rest, factors[1..]);
      SameDropsOver(cfg, tick, txs, others, factors[1..]);
    }
  }
}
