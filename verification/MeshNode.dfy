// The simulated node of simulation/node.go: the part of its state that payments, relaying and collisions touch.
module MeshNode {
  import opened Prelude
  import opened Ledger

  // 16 bytes of a hash in hexadecimal.
  type PeerID = s: string | |s| == 32 witness seq(32, _ => '0')

  class Node {
    const peerID: PeerID
    const x: int
    const y: int
    var online: bool
    var balance: real
    var lockedOut: real
    var reputation: real
    var ewmaWork: real
    var relayBytesOut: real
    var storageBytes: real
    var uptime: real
    var storageHours: real
    var sentCount: nat
    var receivedCount: nat
    var fileReceived: nat
    var failedCount: nat
    var collidedCount: nat

    constructor (peerID: PeerID, x: int, y: int, online: bool)
      ensures this.peerID == peerID && this.x == x && this.y == y && this.online == online
      ensures Books() == OPENING && Books() == Account(0.0, 0.0, 0.0, 0.0, 0.0, 0.0)
      ensures uptime == storageHours == 0.0
      ensures sentCount == receivedCount == fileReceived == failedCount == collidedCount == 0
    {
      this.peerID, this.x, this.y, this.online := peerID, x, y, online;
      balance, lockedOut, reputation, ewmaWork, relayBytesOut, storageBytes := 0.0, 0.0, 0.0, 0.0, 0.0, 0.0;
      uptime, storageHours := 0.0, 0.0;
      sentCount, receivedCount, fileReceived, failedCount, collidedCount := 0, 0, 0, 0, 0;
    }

    function Books(): Account
      reads this
    {
      Account(balance, lockedOut, reputation, ewmaWork, relayBytesOut, storageBytes)
    }

    method AddRelayWork(cfg: Config, bytes: real, multiplier: real)
      requires cfg.relayChunkSize > 0
      modifies `relayBytesOut, `balance, `ewmaWork
      ensures Books() == Rewarded(cfg, old(Books()), bytes, multiplier)
    {
      relayBytesOut := relayBytesOut + bytes;
      var reward := bytes / cfg.relayChunkSize as real * cfg.relayReward * multiplier;
      var burn := reward * cfg.burnRate;
      balance := balance + (reward - burn);
      ewmaWork := ewmaWork + bytes;
    }

    method UpdateReputation()
      modifies `reputation
      ensures Books() == Rated(old(Books())) && reputation * 168.0 == ewmaWork
    {
      reputation := ewmaWork / 168.0;
    }

    method Tick(cfg: Config, decay: real)
      modifies `reputation, `ewmaWork, `balance, `uptime, `storageHours
      ensures Books() == Aged(cfg, old(Books()), online, decay)
      ensures uptime == old(uptime) + if online then 1.0 / 30000.0 else 0.0
      ensures storageHours == old(storageHours) + if online && storageBytes > 0.0 then 1.0 / 30000.0 else 0.0
    {
      assert SECONDS_PER_TICK / 3600.0 == 1.0 / 30000.0;
      var repDemurrage := 0.00000022;
      if !online {
        repDemurrage := repDemurrage * 2.0;
      }
      reputation := reputation - reputation * repDemurrage;
      if reputation < 0.0 {
        reputation := 0.0;
      }
      if !online {
        return;
      }
      uptime := uptime + SECONDS_PER_TICK / 3600.0;
      ewmaWork := ewmaWork * decay;
      if storageBytes > 0.0 {
        var reward := storageBytes / (1024.0 * 1024.0) * cfg.storageReward * SECONDS_PER_TICK / 3600.0;
        assert reward == StorageReward(cfg, old(Books()));
        balance := balance + reward;
        ewmaWork := ewmaWork + reward * 0.01;
        storageHours := storageHours + SECONDS_PER_TICK / 3600.0;
      }
    }

    // The payment part of sendMsg; false when it is refused, and then nothing changes.
    method Charge(cfg: Config, relays: nat, msgBytes: nat, emits: bool) returns (ok: bool)
      requires cfg.relayChunkSize > 0
      modifies `balance, `ewmaWork
      ensures ok == Charged(cfg, old(Books()), relays, msgBytes, emits).Some?
      ensures Books() == if ok then Charged(cfg, old(Books()), relays, msgBytes, emits).value else old(Books())
    {
      var ch := relays;
      if ch < 1 {
        ch := 1;
      }
      var cn := ConfirmN(cfg, msgBytes, ch);
      if cn < 0 {
        var cost := Cost(cfg, relays, msgBytes);
        if cost > 0.0 && balance - lockedOut < cost && Overdrawn(balance - cost, reputation) {
          return false;
        }
        if cost > 0.0 {
          balance := balance - cost;
        }
      }
      if cn > 0 {
        if emits {
          balance := balance + cn as real * cfg.emissionRate;
        }
        ewmaWork := ewmaWork + (cn * cfg.relayChunkSize) as real;
      }
      ConfirmNPositive(cfg, msgBytes, ch);
      return true;
    }
  }

  // The id of a message: the beginnings of the two peer ids.
  function MsgID(from: Node, to: Node): string {
    from.peerID[..8] + "-" + to.peerID[..8]
  }

  // The first node of a list with the given peer id.
  function FirstPeer(all: seq<Node>, id: string): (r: Option<Node>)
    ensures r.Some? ==> r.value in all && r.value.peerID == id
    ensures r.None? ==> forall n :: n in all ==> n.peerID != id
  {
    if all == [] then None else if all[0].peerID == id then Some(all[0]) else FirstPeer(all[1..], id)
  }

  lemma {:induction false} FirstPeerAt(all: seq<Node>, id: string, i: nat)
    requires i < |all| && all[i].peerID == id && forall j :: 0 <= j < i ==> all[j].peerID != id
    ensures FirstPeer(all, id) == Some(all[i])
  {
    if i > 0 {
      assert all[0].peerID != id;
      FirstPeerAt(all[1..], id, i - 1);
    }
  }

  // Counts one received message for the node it is addressed to, and as a file if it is one.
  method CountReceived(all: seq<Node>, id: string, isFile: bool)
    modifies (set n | n in all)`receivedCount, (set n | n in all)`fileReceived
    ensures forall n :: n in all ==>
      n.receivedCount == old(n.receivedCount) + if FirstPeer(all, id) == Some(n) then 1 else 0
    ensures forall n :: n in all ==>
      n.fileReceived == old(n.fileReceived) + if FirstPeer(all, id) == Some(n) && isFile then 1 else 0
  {
    for i := 0 to |all|
      invariant forall n :: n in all ==>
        n.receivedCount == old(n.receivedCount) && n.fileReceived == old(n.fileReceived)
      invariant forall j :: 0 <= j < i ==> all[j].peerID != id
    {
      if all[i].peerID == id {
        FirstPeerAt(all, id, i);
        all[i].receivedCount := all[i].receivedCount + 1;
        if isFile {
          all[i].fileReceived := all[i].fileReceived + 1;
        }
        return;
      }
    }
  }
}
