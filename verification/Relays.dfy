// The obligatory relays of a message in simulation/world.go: insertion of random relays into a path that has fewer than
// the configured minimum, over an arbitrary connection relation.
module Relays {
  import opened Prelude
  import opened MeshNode

  // An online node off the path that is linked with exactly one end of it.
  predicate Candidate(n: Node, from: Node, to: Node, path: seq<string>, linked: (Node, Node) -> bool) {
    && n.peerID !in path && n.peerID != from.peerID && n.peerID != to.peerID
    && linked(from, n) != linked(n, to)
  }

  // The peer ids that can be inserted.
  function CandidateIds(from: Node, to: Node, online: seq<Node>, path: seq<string>,
          linked: (Node, Node) -> bool): set<string> {
    set n | n in online && Candidate(n, from, to, path, linked) :: n.peerID
  }

  // One of the candidates, chosen at random, if there is any.
  method FindRandomRelay(from: Node, to: Node, online: seq<Node>, path: seq<string>, linked: (Node, Node) -> bool)
    returns (relay: Option<Node>)
    ensures relay.None? <==> CandidateIds(from, to, online, path, linked) == {}
    ensures relay.Some? ==> relay.value in online && Candidate(relay.value, from, to, path, linked)
  {
    var candidates: seq<Node> := [];
    for i := 0 to |online|
      invariant forall c :: c in candidates ==> c in online && Candidate(c, from, to, path, linked)
      invariant forall k :: 0 <= k < i && Candidate(online[k], from, to, path, linked) ==> online[k] in candidates
    {
      var n := online[i];
      if n.peerID !in path && n.peerID != from.peerID && n.peerID != to.peerID {
        if !(linked(from, n) && linked(n, to)) && (linked(from, n) || linked(n, to)) {
          candidates := candidates + [n];
        }
      }
    }
    if candidates == [] {
      NoCandidates(from, to, online, path, linked);
      return None;
    }
    var r :| 0 <= r < |candidates|;
    relay := Some(candidates[r]);
    assert relay.value.peerID in CandidateIds(from, to, online, path, linked);
  }

  lemma NoCandidates(from: Node, to: Node, online: seq<Node>, path: seq<string>, linked: (Node, Node) -> bool)
    ensures CandidateIds(from, to, online, path, linked) == {}
       <==> forall k :: 0 <= k < |online| ==> !Candidate(online[k], from, to, path, linked)
  {
    var ids := CandidateIds(from, to, online, path, linked);
    if k :| 0 <= k < |online| && Candidate(online[k], from, to, path, linked) {
      assert online[k].peerID in ids;
    }
  }

  // The path with relays put in before its last entry.
  function Inserted(path: seq<string>, relays: seq<string>): seq<string>
    requires |path| >= 2
  {
    path[..|path| - 1] + relays + [path[|path| - 1]]
  }

  function Members(relays: seq<string>): set<string> {
    set r | r in relays
  }

  // After some relays have been inserted the candidates are those not yet inserted.
  lemma CandidatesLeft(from: Node, to: Node, online: seq<Node>, path: seq<string>, relays: seq<string>,
          linked: (Node, Node) -> bool)
    requires |path| >= 2
    ensures CandidateIds(from, to, online, Inserted(path, relays), linked)
         == CandidateIds(from, to, online, path, linked) - Members(relays)
  {
    assert path == path[..|path| - 1] + [path[|path| - 1]];
    forall id: string
      ensures id in Inserted(path, relays) <==> id in path || id in relays
    {
    }
  }

  function Wanted(path: seq<string>, minRelayHops: int): nat
    requires |path| >= 2
  {
    if minRelayHops > |path| - 2 then minRelayHops - (|path| - 2) else 0
  }

  lemma TakeCandidate(ids: set<string>, relays: seq<string>, id: string)
    requires (forall r :: r in relays ==> r in ids) && |Members(relays)| == |relays| <= |ids|
    requires id in ids - Members(relays)
    ensures |Members(relays + [id])| == |relays| + 1 <= |ids|
  {
    var s := Members(relays);
    assert Members(relays + [id]) == s + {id};
    SubsetSize(s + {id}, ids);
  }

  lemma AllTaken(ids: set<string>, relays: seq<string>)
    requires (forall r :: r in relays ==> r in ids) && |Members(relays)| == |relays|
    requires ids - Members(relays) == {}
    ensures |ids| == |relays|
  {
    forall id | id in ids
      ensures id in Members(relays)
    {
      assert id !in ids - Members(relays);
    }
    assert ids == Members(relays);
  }

  // Relays that have been inserted: different candidates of the path.
  ghost predicate Chosen(ids: set<string>, relays: seq<string>) {
    |Members(relays)| == |relays| && forall r :: r in relays ==> r in ids
  }

  // One round of the insertion.
  method InsertOne(from: Node, to: Node, online: seq<Node>, ghost path: seq<string>, ghost relays: seq<string>,
          longer: seq<string>, linked: (Node, Node) -> bool)
    returns (longer': seq<string>, ghost relays': seq<string>)
    requires |path| >= 2 && path[|path| - 1] == to.peerID && longer == Inserted(path, relays)
    requires Chosen(CandidateIds(from, to, online, path, linked), relays)
    ensures longer' == Inserted(path, relays') && Chosen(CandidateIds(from, to, online, path, linked), relays')
    ensures |relays'| == Min(|relays| + 1, |CandidateIds(from, to, online, path, linked)|)
  {
    ghost var ids := CandidateIds(from, to, online, path, linked);
    longer', relays' := longer, relays;
    var relay := FindRandomRelay(from, to, online, longer, linked);
    CandidatesLeft(from, to, online, path, relays, linked);
    if relay.Some? {
      assert relay.value.peerID in CandidateIds(from, to, online, longer, linked);
      SubsetSize(Members(relays), ids);
      TakeCandidate(ids, relays, relay.value.peerID);
      longer' := longer[..|longer| - 1] + [relay.value.peerID, to.peerID];
      relays' := relays + [relay.value.peerID];
    } else {
      AllTaken(ids, relays);
    }
  }

  // The insertion of sendMsg: as many rounds as relays are missing, each putting one candidate before the receiver if
  // there is one. The inserted relays are different candidates, and there are as many as wanted or as there are; so the
  // minimum is met exactly when there are enough candidates for what the path lacks.
  method InsertRelays(from: Node, to: Node, online: seq<Node>, path: seq<string>, linked: (Node, Node) -> bool,
          minRelayHops: int)
    returns (longer: seq<string>, ghost relays: seq<string>)
    requires |path| >= 2 && path[|path| - 1] == to.peerID
    ensures longer == Inserted(path, relays) && Chosen(CandidateIds(from, to, online, path, linked), relays)
    ensures |relays| == Min(Wanted(path, minRelayHops), |CandidateIds(from, to, online, path, linked)|)
    ensures |longer| - 2 >= minRelayHops
       <==> |CandidateIds(from, to, online, path, linked)| >= minRelayHops - (|path| - 2)
  {
    longer, relays := path, [];
    assert Inserted(path, []) == path;
    var rc := |path| - 2;
    if rc < minRelayHops {
      for i := 0 to minRelayHops - rc
        invariant longer == Inserted(path, relays) && Chosen(CandidateIds(from, to, online, path, linked), relays)
        invariant |relays| == Min(i, |CandidateIds(from, to, online, path, linked)|)
      {
        longer, relays := InsertOne(from, to, online, path, relays, longer, linked);
        assert |relays| == Min(i + 1, |CandidateIds(from, to, online, path, linked)|);
      }
    }
  }

  // When the path lacks a relay, none is inserted exactly when every online node off the path is linked with both its
  // ends or with neither.
  lemma NoneInsertedExactly(from: Node, to: Node, online: seq<Node>, path: seq<string>, linked: (Node, Node) -> bool,
          minRelayHops: int)
    requires |path| >= 2 && minRelayHops > |path| - 2
    ensures Min(Wanted(path, minRelayHops), |CandidateIds(from, to, online, path, linked)|) == 0
       <==> forall n :: n in online && n.peerID !in path && n.peerID != from.peerID && n.peerID != to.peerID
              ==> linked(from, n) == linked(n, to)
  {
    var ids := CandidateIds(from, to, online, path, linked);
    NoCandidates(from, to, online, path, linked);
    assert |ids| == 0 <==> ids == {};
    assert forall n :: n in online ==> exists k :: 0 <= k < |online| && online[k] == n;
  }

  // So where every node can reach every other, no relay is inserted into a direct path whatever minimum is
  // configured, and every minimum of at least one is missed.
  lemma FullMeshSendsDirectly(from: Node, to: Node, online: seq<Node>, minRelayHops: int, linked: (Node, Node) -> bool)
    requires forall n :: n in online ==> linked(from, n) && linked(n, to)
    ensures var direct := [from.peerID, to.peerID];
      && Min(Wanted(direct, minRelayHops), |CandidateIds(from, to, online, direct, linked)|) == 0
      && Inserted(direct, []) == direct
      && (minRelayHops >= 1 ==> |direct| - 2 < minRelayHops)
  {
    NoCandidates(from, to, online, [from.peerID, to.peerID], linked);
    assert |CandidateIds(from, to, online, [from.peerID, to.peerID], linked)| == 0;
  }
}
