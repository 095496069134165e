// The Proof-of-History hash chain of pkg/poh/poh.go: a generator that hashes its last hash once per tick,
// records and checkpoints taken from it, and the verifiers that replay it. The hash is any function.
module ProofOfHistory {
  import opened Prelude

  const MAX_TICK: int := 0xFFFF_FFFF_FFFF_FFFF

  type Uint64 = x: int | 0 <= x <= 0xFFFF_FFFF_FFFF_FFFF
  type Digest = b: Bytes | |b| == 32 witness seq(32, _ => 0)
  type Hash = Digest -> Digest
  type Signer = Bytes -> Bytes
  type Verifier = (Bytes, Bytes) -> bool

  datatype Record = Record(tickIndex: Uint64, tickHash: Digest, eventType: string, dataHash: Digest, signature: Bytes)

  datatype Checkpoint = Checkpoint(tickIndex: Uint64, tickHash: Digest, timestamp: int)

  // The counter is 64 bits wide and wraps.
  function Next(tick: Uint64): Uint64 {
    (tick + 1) % (MAX_TICK + 1)
  }

  // n hashes starting from h.
  function Advance(sha: Hash, h: Digest, n: nat): Digest {
    if n == 0 then h else sha(Advance(sha, h, n - 1))
  }

  function {:tailrecursion false} BigEndian(v: nat, width: nat): (b: Bytes)
    ensures |b| == width
  {
    if width == 0 then [] else BigEndian(v / 256, width - 1) + [v % 256]
  }

  // The bytes a record's signature covers.
  function ToSign(tick: Uint64, tickHash: Digest, dataHash: Digest): Bytes {
    BigEndian(tick, 8) + tickHash + dataHash
  }

  // ---------- The generator ----------

  datatype Clock = Clock(lastHash: Digest, tickIndex: Uint64)

  function Ticked(sha: Hash, s: Clock): Clock {
    Clock(sha(s.lastHash), Next(s.tickIndex))
  }

  function TickedN(sha: Hash, s: Clock, n: nat): Clock {
    if n == 0 then s else Ticked(sha, TickedN(sha, s, n - 1))
  }

  function Stamped(s: Clock, eventType: string, dataHash: Digest, sign: Option<Signer>): Record {
    Record(s.tickIndex, s.lastHash, eventType, dataHash,
           if sign.Some? then sign.value(ToSign(s.tickIndex, s.lastHash, dataHash)) else [])
  }

  class Generator {
    const sha: Hash
    const seed: Digest
    var lastHash: Digest
    var tickIndex: Uint64

    function State(): Clock
      reads this
    {
      Clock(lastHash, tickIndex)
    }

    constructor (sha: Hash, seed: Digest)
      ensures this.sha == sha && this.seed == seed
      ensures State() == Clock(seed, 0)
    {
      this.sha, this.seed := sha, seed;
      lastHash, tickIndex := seed, 0;
    }

    method Tick() returns (hash: Digest)
      modifies this
      ensures State() == Ticked(sha, old(State())) && hash == lastHash
    {
      lastHash := sha(lastHash);
      tickIndex := Next(tickIndex);
      hash := lastHash;
    }

    // A negative count ticks not at all.
    method TickN(n: int) returns (hash: Digest)
      modifies this
      ensures State() == TickedN(sha, old(State()), if n < 0 then 0 else n) && hash == lastHash
    {
      var i := 0;
      while i < n
        invariant 0 <= i && (i <= n || i == 0)
        invariant State() == TickedN(sha, old(State()), i)
      {
        lastHash := sha(lastHash);
        tickIndex := Next(tickIndex);
        i := i + 1;
      }
      hash := lastHash;
    }

    method RecordEvent(eventType: string, dataHash: Digest, sign: Option<Signer>) returns (r: Record)
      modifies this
      ensures State() == Ticked(sha, old(State()))
      ensures r == Stamped(State(), eventType, dataHash, sign)
      ensures r.tickIndex == tickIndex && r.tickHash == lastHash && r.eventType == eventType && r.dataHash == dataHash
      ensures sign.None? ==> r.signature == []
    {
      lastHash := sha(lastHash);
      tickIndex := Next(tickIndex);
      var signature := [];
      if sign.Some? {
        var toSign := BigEndian(tickIndex, 8) + lastHash + dataHash;
        signature := sign.value(toSign);
      }
      r := Record(tickIndex, lastHash, eventType, dataHash, signature);
    }

    method CreateCheckpoint(now: int) returns (c: Checkpoint)
      ensures c == Checkpoint(tickIndex, lastHash, now)
    {
      c := Checkpoint(tickIndex, lastHash, now);
    }
  }

  // ---------- The verifiers ----------

  predicate Linked(sha: Hash, startHash: Digest, startTick: Uint64, endHash: Digest, endTick: Uint64) {
    startTick < endTick && Advance(sha, startHash, endTick - startTick) == endHash
  }

  predicate SignatureAccepted(r: Record, verify: Option<Verifier>) {
    verify.Some? && |r.signature| > 0 ==> verify.value(ToSign(r.tickIndex, r.tickHash, r.dataHash), r.signature)
  }

  predicate Accepts(sha: Hash, r: Record, c: Checkpoint, verify: Option<Verifier>) {
    Linked(sha, c.tickHash, c.tickIndex, r.tickHash, r.tickIndex) && SignatureAccepted(r, verify)
  }

  // The loop counter of both verifiers after n rounds: it starts one past the start tick and wraps.
  function Counter(startTick: Uint64, n: nat): Uint64 {
    (startTick + 1 + n) % (MAX_TICK + 1)
  }

  lemma CounterSteps(startTick: Uint64, n: nat)
    ensures Counter(startTick, 0) == Next(startTick) && Counter(startTick, n + 1) == Next(Counter(startTick, n))
  {
  }

  lemma CounterBeforeWrap(startTick: Uint64, n: nat)
    requires startTick + 1 + n <= MAX_TICK
    ensures Counter(startTick, n) == startTick + 1 + n
  {
  }

  // The counter is stepped as the loops of both verifiers step it.
  lemma CounterIsStepped(startTick: Uint64)
    ensures Counter(startTick, 0) == Next(startTick)
    ensures forall n: nat :: Counter(startTick, n + 1) == Next(Counter(startTick, n))
  {
    CounterSteps(startTick, 0);
    forall n: nat
      ensures Counter(startTick, n + 1) == Next(Counter(startTick, n))
    {
      CounterSteps(startTick, n);
    }
  }

  lemma StaysWithin(startTick: Uint64, endTick: Uint64)
    requires startTick < endTick
    ensures forall n: nat :: n < endTick - startTick ==> Counter(startTick, n) <= endTick
  {
    forall n: nat | n < endTick - startTick
      ensures Counter(startTick, n) <= endTick
    {
      CounterBeforeWrap(startTick, n);
    }
  }

  // The replay loop ends exactly when the end tick is below the largest 64-bit value, and then after
  // exactly endTick - startTick hashes. At the largest value the guard can never fail.
  lemma ReplayTerminates(startTick: Uint64, endTick: Uint64)
    requires startTick < endTick
    ensures Counter(startTick, 0) == Next(startTick)
    ensures forall n: nat :: Counter(startTick, n + 1) == Next(Counter(startTick, n))
    ensures (exists n: nat :: Counter(startTick, n) > endTick) <==> endTick < MAX_TICK
    ensures forall n: nat :: n < endTick - startTick ==> Counter(startTick, n) <= endTick
    ensures endTick < MAX_TICK ==> Counter(startTick, endTick - startTick) > endTick
  {
    CounterIsStepped(startTick);
    StaysWithin(startTick, endTick);
    if endTick < MAX_TICK {
      CounterBeforeWrap(startTick, endTick - startTick);
    }
  }

  method VerifyChain(sha: Hash, startHash: Digest, startTick: Uint64, endHash: Digest, endTick: Uint64)
    returns (ok: bool, ghost hashes: nat)
    requires startTick < endTick ==> endTick < MAX_TICK  // the code does not return otherwise: ReplayTerminates
    ensures ok == Linked(sha, startHash, startTick, endHash, endTick)
    ensures hashes == if startTick < endTick then endTick - startTick else 0
  {
    hashes := 0;
    if endTick <= startTick {
      return false, 0;
    }
    var hash := startHash;
    var i := Next(startTick);
    while i <= endTick
      invariant startTick + 1 <= i <= endTick + 1
      invariant hashes == i - startTick - 1
      invariant hash == Advance(sha, startHash, hashes)
    {
      hash := sha(hash);
      i := Next(i);
      hashes := hashes + 1;
    }
    ok := hash == endHash;
  }

  method VerifyRecord(sha: Hash, r: Record, c: Checkpoint, verify: Option<Verifier>) returns (ok: bool)
    requires c.tickIndex < r.tickIndex ==> r.tickIndex < MAX_TICK
    ensures ok == Accepts(sha, r, c, verify)
  {
    if r.tickIndex <= c.tickIndex {
      return false;
    }
    var hash := c.tickHash;
    var i := Next(c.tickIndex);
    while i <= r.tickIndex
      invariant c.tickIndex + 1 <= i <= r.tickIndex + 1
      invariant hash == Advance(sha, c.tickHash, i - c.tickIndex - 1)
    {
      hash := sha(hash);
      i := Next(i);
    }
    if hash != r.tickHash {
      return false;
    }
    if verify.Some? && |r.signature| > 0 {
      var toSign := BigEndian(r.tickIndex, 8) + r.tickHash + r.dataHash;
      if !verify.value(toSign, r.signature) {
        return false;
      }
    }
    return true;
  }

  // ---------- Properties of the chain ----------

  lemma {:induction false} AdvanceAdds(sha: Hash, h: Digest, m: nat, n: nat)
    ensures Advance(sha, Advance(sha, h, m), n) == Advance(sha, h, m + n)
  {
    if n > 0 {
      AdvanceAdds(sha, h, m, n - 1);
    }
  }

  // Verification composes across any verified midpoint, and a verified midpoint loses nothing.
  lemma LinkedThroughMidpoint(sha: Hash, a: Digest, s: Uint64, b: Digest, m: Uint64, c: Digest, e: Uint64)
    requires Linked(sha, a, s, b, m) && m < e
    ensures Linked(sha, a, s, c, e) <==> Linked(sha, b, m, c, e)
  {
    AdvanceAdds(sha, a, m - s, e - m);
  }

  // ---------- Whole histories of one generator ----------

  datatype Op =
    | Tick
    | TickN(n: int)
    | RecordEvent(eventType: string, dataHash: Digest, sign: Option<Signer>)
    | CreateCheckpoint(now: int)

  function TicksOf(op: Op): nat {
    match op
    case Tick => 1
    case TickN(n) => if n < 0 then 0 else n
    case RecordEvent(_, _, _) => 1
    case CreateCheckpoint(_) => 0
  }

  function Applied(sha: Hash, s: Clock, op: Op): Clock {
    match op
    case Tick => Ticked(sha, s)
    case TickN(n) => TickedN(sha, s, if n < 0 then 0 else n)
    case RecordEvent(_, _, _) => Ticked(sha, s)
    case CreateCheckpoint(_) => s
  }

  function After(sha: Hash, seed: Digest, ops: seq<Op>): Clock {
    if ops == [] then Clock(seed, 0) else Applied(sha, After(sha, seed, ops[..|ops| - 1]), ops[|ops| - 1])
  }

  function TickCount(ops: seq<Op>): nat {
    if ops == [] then 0 else TickCount(ops[..|ops| - 1]) + TicksOf(ops[|ops| - 1])
  }

  // The record returned by the i-th operation of a history, and the checkpoint returned by the j-th.
  function RecordAt(sha: Hash, seed: Digest, ops: seq<Op>, i: nat): Record
    requires i < |ops| && ops[i].RecordEvent?
  {
    Stamped(After(sha, seed, ops[..i + 1]), ops[i].eventType, ops[i].dataHash, ops[i].sign)
  }

  function CheckpointAt(sha: Hash, seed: Digest, ops: seq<Op>, j: nat): Checkpoint
    requires j < |ops| && ops[j].CreateCheckpoint?
  {
    var s := After(sha, seed, ops[..j]);
    Checkpoint(s.tickIndex, s.lastHash, ops[j].now)
  }

  lemma {:induction false} TickedNIsAdvance(sha: Hash, s: Clock, n: nat)
    requires s.tickIndex + n <= MAX_TICK
    ensures TickedN(sha, s, n) == Clock(Advance(sha, s.lastHash, n), s.tickIndex + n)
  {
    if n > 0 {
      TickedNIsAdvance(sha, s, n - 1);
    }
  }

  lemma {:induction false} AfterIsAdvance(sha: Hash, seed: Digest, ops: seq<Op>)
    requires TickCount(ops) <= MAX_TICK
    ensures After(sha, seed, ops) == Clock(Advance(sha, seed, TickCount(ops)), TickCount(ops))
  {
    if ops != [] {
      var before, op := ops[..|ops| - 1], ops[|ops| - 1];
      AfterIsAdvance(sha, seed, before);
      var s := After(sha, seed, before);
      TickedNIsAdvance(sha, s, TicksOf(op));
      assert TickedN(sha, s, 1) == Ticked(sha, TickedN(sha, s, 0));
      AdvanceAdds(sha, seed, TickCount(before), TicksOf(op));
    }
  }

  lemma {:induction false} TickCountMonotone(ops: seq<Op>, i: nat)
    requires i <= |ops|
    ensures TickCount(ops[..i]) <= TickCount(ops)
    decreases |ops| - i
  {
    if i == |ops| {
      assert ops[..i] == ops;
    } else {
      TickCountMonotone(ops, i + 1);
      assert ops[..i + 1][..i] == ops[..i];
    }
  }

  lemma TickCountPrefixes(ops: seq<Op>, i: nat, j: nat)
    requires i <= j <= |ops|
    ensures TickCount(ops[..i]) <= TickCount(ops[..j]) <= TickCount(ops)
  {
    TickCountMonotone(ops, j);
    TickCountMonotone(ops[..j], i);
    assert ops[..j][..i] == ops[..i];
  }

  // Two points of one chain are linked exactly when the second has the larger tick.
  lemma PointsAreLinked(sha: Hash, seed: Digest, m: Uint64, n: Uint64)
    ensures Linked(sha, Advance(sha, seed, m), m, Advance(sha, seed, n), n) <==> m < n
  {
  }

  // Whether anything is linked to a point of the chain does not depend on the point.
  lemma LinkFromPoint(sha: Hash, seed: Digest, m: Uint64, endHash: Digest, endTick: Uint64)
    requires m < endTick
    ensures Linked(sha, Advance(sha, seed, m), m, endHash, endTick) <==> endHash == Advance(sha, seed, endTick)
  {
    AdvanceAdds(sha, seed, m, endTick - m);
  }

  lemma CheckpointIsPoint(sha: Hash, seed: Digest, ops: seq<Op>, j: nat)
    requires TickCount(ops) <= MAX_TICK
    requires j < |ops| && ops[j].CreateCheckpoint?
    ensures TickCount(ops[..j]) <= MAX_TICK
    ensures var c := CheckpointAt(sha, seed, ops, j);
      c.tickIndex == TickCount(ops[..j]) && c.tickHash == Advance(sha, seed, c.tickIndex)
  {
    TickCountMonotone(ops, j);
    AfterIsAdvance(sha, seed, ops[..j]);
  }

  lemma RecordIsPoint(sha: Hash, seed: Digest, ops: seq<Op>, i: nat)
    requires TickCount(ops) <= MAX_TICK
    requires i < |ops| && ops[i].RecordEvent?
    ensures var r := RecordAt(sha, seed, ops, i);
      r.tickIndex == TickCount(ops[..i]) + 1 && r.tickHash == Advance(sha, seed, r.tickIndex)
  {
    TickCountMonotone(ops, i + 1);
    AfterIsAdvance(sha, seed, ops[..i + 1]);
    assert ops[..i + 1][..i] == ops[..i];
  }

  lemma LinkedExactlyLater(sha: Hash, seed: Digest, ops: seq<Op>, i: nat, j: nat)
    requires TickCount(ops) < MAX_TICK
    requires i < |ops| && ops[i].RecordEvent?
    requires j < |ops| && ops[j].CreateCheckpoint?
    ensures var r, c := RecordAt(sha, seed, ops, i), CheckpointAt(sha, seed, ops, j);
      Linked(sha, c.tickHash, c.tickIndex, r.tickHash, r.tickIndex) <==> j < i
  {
    var r, c := RecordAt(sha, seed, ops, i), CheckpointAt(sha, seed, ops, j);
    RecordIsPoint(sha, seed, ops, i);
    CheckpointIsPoint(sha, seed, ops, j);
    PointsAreLinked(sha, seed, c.tickIndex, r.tickIndex);
    if j < i {
      TickCountPrefixes(ops, j, i);
    } else {
      TickCountPrefixes(ops, i + 1, j);
      assert ops[..i + 1][..i] == ops[..i];
    }
  }

  // The main result: over any history that stays below the largest tick, a record is accepted against a checkpoint
  // exactly when it was recorded after the checkpoint was taken and the verifying function takes its signature.
  lemma AcceptsExactlyLaterRecords(sha: Hash, seed: Digest, ops: seq<Op>, i: nat, j: nat, verify: Option<Verifier>)
    requires TickCount(ops) < MAX_TICK
    requires i < |ops| && ops[i].RecordEvent?
    requires j < |ops| && ops[j].CreateCheckpoint?
    ensures Accepts(sha, RecordAt(sha, seed, ops, i), CheckpointAt(sha, seed, ops, j), verify)
       <==> j < i && SignatureAccepted(RecordAt(sha, seed, ops, i), verify)
  {
    LinkedExactlyLater(sha, seed, ops, i, j);
  }

  // Any record whatever, genuine or forged, gets the same verdict from any two earlier checkpoints of one chain.
  lemma EarlierCheckpointsAgree(sha: Hash, seed: Digest, ops: seq<Op>, j: nat, k: nat, r: Record,
          verify: Option<Verifier>)
    requires TickCount(ops) <= MAX_TICK
    requires j < |ops| && ops[j].CreateCheckpoint?
    requires k < |ops| && ops[k].CreateCheckpoint?
    requires CheckpointAt(sha, seed, ops, j).tickIndex < r.tickIndex
    requires CheckpointAt(sha, seed, ops, k).tickIndex < r.tickIndex
    ensures Accepts(sha, r, CheckpointAt(sha, seed, ops, j), verify)
       <==> Accepts(sha, r, CheckpointAt(sha, seed, ops, k), verify)
  {
    var cj, ck := CheckpointAt(sha, seed, ops, j), CheckpointAt(sha, seed, ops, k);
    CheckpointIsPoint(sha, seed, ops, j);
    CheckpointIsPoint(sha, seed, ops, k);
    LinkFromPoint(sha, seed, cj.tickIndex, r.tickHash, r.tickIndex);
    LinkFromPoint(sha, seed, ck.tickIndex, r.tickHash, r.tickIndex);
  }

  // ---------- What a signature covers ----------

  function Pow256(n: nat): nat {
    if n == 0 then 1 else 256 * Pow256(n - 1)
  }

  lemma {:induction false} BigEndianValue(v: nat, width: nat)
    requires v < Pow256(width)
    ensures Value(BigEndian(v, width)) == v
  {
    if width > 0 {
      BigEndianValue(v / 256, width - 1);
    }
  }

  // The signed bytes are the tick in 8 bytes, the most significant first, then the 32 bytes of the tick hash and the 32
  // bytes of the data hash. So they determine all three.
  lemma SignedBytes(tick: Uint64, tickHash: Digest, dataHash: Digest)
    ensures var b := ToSign(tick, tickHash, dataHash);
      |b| == 72 && Value(b[..8]) == tick && b[8..40] == tickHash && b[40..] == dataHash
  {
    assert Pow256(8) == MAX_TICK + 1;
    BigEndianValue(tick, 8);
    assert ToSign(tick, tickHash, dataHash)[..8] == BigEndian(tick, 8);
  }

  // A signer that signs no two messages alike and leaves no signature empty, and the verifier that takes exactly its
  // signatures.
  ghost predicate Matches(sign: Signer, verify: Verifier) {
    && (forall m: Bytes, n: Bytes :: sign(m) == sign(n) ==> m == n)
    && (forall m: Bytes :: sign(m) != [])
    && (forall m: Bytes, s: Bytes :: verify(m, s) <==> s == sign(m))
  }

  // Such pairs exist.
  lemma SignersExist() returns (sign: Signer, verify: Verifier)
    ensures Matches(sign, verify)
  {
    sign, verify := m => m + [0], (m: Bytes, s: Bytes) => s == m + [0];
    forall m: Bytes, n: Bytes | sign(m) == sign(n)
      ensures m == n
    {
      assert m == sign(m)[..|m|] && n == sign(n)[..|n|];
    }
  }

  // The main result about tampering: any record that bears the signature of a recorded event is accepted against an
  // earlier checkpoint exactly when its tick, tick hash and data hash are those of the event. The event type is not
  // covered.
  lemma TamperedIsRefused(sha: Hash, seed: Digest, ops: seq<Op>, i: nat, j: nat, r: Record, sign: Signer,
          verify: Verifier)
    requires TickCount(ops) < MAX_TICK && j < i < |ops| && ops[j].CreateCheckpoint?
    requires ops[i].RecordEvent? && ops[i].sign == Some(sign) && Matches(sign, verify)
    requires r.signature == RecordAt(sha, seed, ops, i).signature
    ensures Accepts(sha, r, CheckpointAt(sha, seed, ops, j), Some(verify))
       <==> r.tickIndex == TickCount(ops[..i]) + 1 && r.tickHash == Advance(sha, seed, r.tickIndex)
            && r.dataHash == ops[i].dataHash
  {
    var e := RecordAt(sha, seed, ops, i);
    RecordIsPoint(sha, seed, ops, i);
    LinkedExactlyLater(sha, seed, ops, i, j);
    SignedBytes(r.tickIndex, r.tickHash, r.dataHash);
    SignedBytes(e.tickIndex, e.tickHash, e.dataHash);
    assert e.signature == sign(ToSign(e.tickIndex, e.tickHash, e.dataHash)) != [];
  }

  // Without a verifying function or a signature the chain alone decides.
  lemma UnsignedIsLinked(sha: Hash, r: Record, c: Checkpoint, verify: Option<Verifier>)
    requires verify.None? || r.signature == []
    ensures Accepts(sha, r, c, verify)
       <==> c.tickIndex < r.tickIndex && r.tickHash == Advance(sha, c.tickHash, r.tickIndex - c.tickIndex)
  {
  }

  // Why the histories above stop short of the largest tick: there the counter wraps, and a record made
  // right after a checkpoint is refused.
  lemma WrappedRecordIsRefused(sha: Hash, s: Clock, now: int, eventType: string, dataHash: Digest,
          sign: Option<Signer>, verify: Option<Verifier>)
    requires s.tickIndex == MAX_TICK
    ensures !Accepts(sha, Stamped(Ticked(sha, s), eventType, dataHash, sign), Checkpoint(s.tickIndex, s.lastHash, now),
        verify)
  {
  }
}
