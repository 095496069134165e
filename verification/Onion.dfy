// Onion packets, pkg/onion/onion.go: nested build, layer-by-layer peel, and the walk of a packet through
// the relays. The anonymous sealed box is a parameter; every theorem holds for all its random nonces.
module Onion {
  import opened Prelude

  const FLAG_FINAL: Byte := 0x00
  const FLAG_RELAY: Byte := 0x01
  const OVERHEAD := 48
  const NEXT_HOP_SIZE := 32

  type Id = b: Bytes | |b| == 32 witness seq(32, _ => 0)
  type Nonce = Bytes

  datatype Hop = Hop(peerID: Id, pubKey: Id)

  datatype Keys = Keys(pub: Id, priv: Id)

  // SealAnonymous and OpenAnonymous.
  datatype Box = Box(seal: (Bytes, Id, Nonce) -> Bytes, open: (Bytes, Id, Id) -> Option<Bytes>)

  // Sealing adds exactly the overhead and opening takes it off again.
  ghost predicate Sized(box: Box) {
    && (forall m: Bytes, k: Id, n: Nonce :: |box.seal(m, k, n)| == |m| + OVERHEAD)
    && (forall c: Bytes, k: Id, s: Id :: box.open(c, k, s).Some? ==> |box.open(c, k, s).value| + OVERHEAD == |c|)
  }

  // The matching key pair undoes sealing, whatever the nonce.
  ghost predicate Matching(box: Box, keys: Keys) {
    forall m: Bytes, n: Nonce :: box.open(box.seal(m, keys.pub, n), keys.pub, keys.priv) == Some(m)
  }

  // The two facts assumed of the box contradict neither themselves nor each other, for all keys at once.
  lemma BoxesExist() returns (box: Box)
    ensures Sized(box) && forall keys :: Matching(box, keys)
  {
    var pad: Bytes := seq(OVERHEAD, _ => 0);
    box := Box((m, k, n) => pad + m, (c: Bytes, k, s) => if |c| < OVERHEAD then None else Some(c[OVERHEAD..]));
    forall m: Bytes, n: Nonce, keys: Keys
      ensures box.open(box.seal(m, keys.pub, n), keys.pub, keys.priv) == Some(m)
    {
      assert (pad + m)[OVERHEAD..] == m;
    }
  }

  // ---------- Building ----------

  // The packet addressed to hop i, with all the layers below it.
  function Layered(box: Box, plaintext: Bytes, hops: seq<Hop>, nonce: nat -> Nonce, i: nat): Bytes
    requires i < |hops|
    decreases |hops| - i
  {
    var inner :=
      if i == |hops| - 1 then [FLAG_FINAL] + plaintext
      else [FLAG_RELAY] + hops[i + 1].peerID + Layered(box, plaintext, hops, nonce, i + 1);
    box.seal(inner, hops[i].pubKey, nonce(i))
  }

  function OnionSize(plaintextSize: int, hopCount: int): int {
    plaintextSize + hopCount * OVERHEAD + (hopCount - 1) * (NEXT_HOP_SIZE + 1) + 1
  }

  function Drawn(rand: nat -> Option<Nonce>): nat -> Nonce {
    i => if rand(i).Some? then rand(i).value else []
  }

  // rand(i) is what the random source gives for layer i, None when reading it fails.
  method BuildCircuit(box: Box, plaintext: Bytes, hops: seq<Hop>, rand: nat -> Option<Nonce>) returns (r: Result<Bytes>)
    ensures r.Ok? <==> hops != [] && forall i :: 0 <= i < |hops| ==> rand(i).Some?
    ensures r.Ok? ==> r.value == Layered(box, plaintext, hops, Drawn(rand), 0)
  {
    if |hops| == 0 {
      return Err("no hops provided");
    }
    var current := [FLAG_FINAL] + plaintext;
    var i := |hops| - 1;
    while i >= 0
      invariant -1 <= i < |hops|
      invariant forall j :: i < j < |hops| ==> rand(j).Some?
      invariant i == |hops| - 1 ==> current == [FLAG_FINAL] + plaintext
      invariant i < |hops| - 1 ==> current == Layered(box, plaintext, hops, Drawn(rand), i + 1)
    {
      var hop := hops[i];
      if i < |hops| - 1 {
        var nextHop := hops[i + 1].peerID;
        current := [FLAG_RELAY] + nextHop + current;
      }
      if rand(i).None? {
        return Err("encrypt layer");
      }
      current := box.seal(current, hop.pubKey, rand(i).value);
      i := i - 1;
    }
    r := Ok(current);
  }

  // ---------- Peeling ----------

  function UnwrapLayer(box: Box, packet: Bytes, keys: Keys): Result<(Byte, Bytes)> {
    if |packet| < OVERHEAD then Err("packet too short")
    else
      var plain := box.open(packet, keys.pub, keys.priv);
      if plain.None? then Err("decrypt failed")
      else if |plain.value| < 1 then Err("decrypted payload empty")
      else Ok((plain.value[0], plain.value[1..]))
  }

  function GetNextHop(payload: Bytes): Result<(Id, Bytes)> {
    if |payload| < NEXT_HOP_SIZE then Err("payload too short for next_hop")
    else Ok((payload[..NEXT_HOP_SIZE], payload[NEXT_HOP_SIZE..]))
  }

  // Peeling yields a flag and a payload exactly when the packet opens to the flag followed by the payload.
  lemma UnwrapExactly(box: Box, packet: Bytes, keys: Keys, flag: Byte, payload: Bytes)
    requires Sized(box)
    ensures UnwrapLayer(box, packet, keys) == Ok((flag, payload))
       <==> box.open(packet, keys.pub, keys.priv) == Some([flag] + payload)
  {
    var plain := box.open(packet, keys.pub, keys.priv);
    if plain.Some? && plain.value != [] {
      assert plain.value == [plain.value[0]] + plain.value[1..];
      assert ([flag] + payload)[0] == flag && ([flag] + payload)[1..] == payload;
    }
  }

  // A payload yields a next hop and an inner packet exactly when it is the 32 bytes of the one followed by the other.
  lemma NextHopExactly(payload: Bytes, next: Id, inner: Bytes)
    ensures GetNextHop(payload) == Ok((next, inner)) <==> payload == next + inner
  {
  }

  // The bytes sealed into the layer of hop i, for that hop's key and with that layer's nonce: 1, the 32 bytes of the
  // next hop's id and the packet for it; at the last hop 0 and the plaintext.
  lemma LayerBytes(box: Box, plaintext: Bytes, hops: seq<Hop>, nonce: nat -> Nonce, i: nat) returns (p: Bytes)
    requires i < |hops|
    ensures Layered(box, plaintext, hops, nonce, i) == box.seal(p, hops[i].pubKey, nonce(i))
    ensures i == |hops| - 1 ==> p == [0] + plaintext
    ensures i < |hops| - 1 ==>
      && |p| >= 33 && p[0] == 1 && p[1..33] == hops[i + 1].peerID
      && p[33..] == Layered(box, plaintext, hops, nonce, i + 1)
  {
    p := if i == |hops| - 1 then [FLAG_FINAL] + plaintext
         else [FLAG_RELAY] + hops[i + 1].peerID + Layered(box, plaintext, hops, nonce, i + 1);
  }

  // The inner onion a relay forwards is exactly 81 bytes shorter than the packet it received.
  lemma RelayRemoves81(box: Box, packet: Bytes, keys: Keys)
    requires Sized(box)
    requires UnwrapLayer(box, packet, keys).Ok?
    requires GetNextHop(UnwrapLayer(box, packet, keys).value.1).Ok?
    ensures |GetNextHop(UnwrapLayer(box, packet, keys).value.1).value.1| + 81 == |packet|
  {
  }

  // ---------- The walk of a packet ----------

  datatype Outcome = Delivered(payload: Bytes) | Dropped

  datatype Journey = Journey(visited: seq<Id>, outcome: Outcome)

  // Each peer peels one layer with its own keys, delivers a FINAL payload and forwards a RELAY one.
  function Walk(box: Box, keys: Id -> Keys, at: Id, packet: Bytes): Journey
    requires Sized(box)
    decreases |packet|
  {
    match UnwrapLayer(box, packet, keys(at))
    case Err(_) => Journey([at], Dropped)
    case Ok((flag, payload)) =>
      if flag == FLAG_FINAL then Journey([at], Delivered(payload))
      else if flag != FLAG_RELAY || GetNextHop(payload).Err? then Journey([at], Dropped)
      else
        var (nextHop, inner) := GetNextHop(payload).value;
        RelayRemoves81(box, packet, keys(at));
        var rest := Walk(box, keys, nextHop, inner);
        Journey([at] + rest.visited, rest.outcome)
  }

  function Peers(hops: seq<Hop>): seq<Id> {
    seq(|hops|, i requires 0 <= i < |hops| => hops[i].peerID)
  }

  // Opening what was sealed for these keys, as the flag and payload of a peel.
  lemma UnwrapSealed(box: Box, flag: Byte, payload: Bytes, nonce: Nonce, keys: Keys)
    requires Sized(box) && Matching(box, keys)
    ensures UnwrapLayer(box, box.seal([flag] + payload, keys.pub, nonce), keys) == Ok((flag, payload))
  {
  }

  lemma NextHopOf(next: Id, below: Bytes)
    ensures GetNextHop(next + below) == Ok((next, below))
  {
  }

  // One peel of an honest packet: FINAL with the plaintext at the last hop, else RELAY with the next hop's
  // address and the packet addressed to it.
  lemma PeelOneLayer(box: Box, plaintext: Bytes, hops: seq<Hop>, nonce: nat -> Nonce, i: nat, keys: Keys)
    requires Sized(box) && Matching(box, keys)
    requires i < |hops| && hops[i].pubKey == keys.pub
    ensures var r := UnwrapLayer(box, Layered(box, plaintext, hops, nonce, i), keys);
      && r.Ok?
      && (i == |hops| - 1 ==> r.value == (FLAG_FINAL, plaintext))
      && (i < |hops| - 1 ==>
            && r.value.0 == FLAG_RELAY
            && GetNextHop(r.value.1) == Ok((hops[i + 1].peerID, Layered(box, plaintext, hops, nonce, i + 1))))
  {
    if i == |hops| - 1 {
      UnwrapSealed(box, FLAG_FINAL, plaintext, nonce(i), keys);
    } else {
      var next: Id := hops[i + 1].peerID;
      var below: Bytes := Layered(box, plaintext, hops, nonce, i + 1);
      assert [FLAG_RELAY] + next + below == [FLAG_RELAY] + (next + below);
      UnwrapSealed(box, FLAG_RELAY, next + below, nonce(i), keys);
      NextHopOf(next, below);
    }
  }

  // The main result: the packet visits exactly the hops, in order, and the last one gets the plaintext.
  lemma {:induction false} WalkVisitsAllHops(box: Box, keys: Id -> Keys, plaintext: Bytes, hops: seq<Hop>,
          nonce: nat -> Nonce, i: nat)
    requires Sized(box) && i < |hops|
    requires forall h <- hops :: Matching(box, keys(h.peerID)) && keys(h.peerID).pub == h.pubKey
    ensures Walk(box, keys, hops[i].peerID, Layered(box, plaintext, hops, nonce, i))
         == Journey(Peers(hops)[i..], Delivered(plaintext))
    decreases |hops| - i
  {
    PeelOneLayer(box, plaintext, hops, nonce, i, keys(hops[i].peerID));
    if i < |hops| - 1 {
      WalkVisitsAllHops(box, keys, plaintext, hops, nonce, i + 1);
      assert Peers(hops)[i..] == [hops[i].peerID] + Peers(hops)[i + 1..];
    } else {
      assert Peers(hops)[i..] == [hops[i].peerID];
    }
  }

  lemma {:induction false} LayeredSize(box: Box, plaintext: Bytes, hops: seq<Hop>, nonce: nat -> Nonce, i: nat)
    requires Sized(box) && i < |hops|
    ensures |Layered(box, plaintext, hops, nonce, i)| == OnionSize(|plaintext|, |hops| - i)
    decreases |hops| - i
  {
    if i < |hops| - 1 {
      LayeredSize(box, plaintext, hops, nonce, i + 1);
    }
  }

  // Any packet at all, honest or not, is forwarded at most |packet| / 81 times.
  lemma {:induction false} WalkIsShort(box: Box, keys: Id -> Keys, at: Id, packet: Bytes)
    requires Sized(box)
    ensures var forwards := |Walk(box, keys, at, packet).visited| - 1;
      0 <= forwards <= |packet| / 81
    decreases |packet|
  {
    match UnwrapLayer(box, packet, keys(at))
    case Err(_) =>
    case Ok((flag, payload)) =>
      if flag == FLAG_RELAY && GetNextHop(payload).Ok? {
        var (nextHop, inner) := GetNextHop(payload).value;
        RelayRemoves81(box, packet, keys(at));
        WalkIsShort(box, keys, nextHop, inner);
      }
  }
}
