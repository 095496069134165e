// The Kademlia routing table of pkg/dht/table.go: 160 buckets indexed by the leading zeros of the XOR
// distance to self, an eviction rule, and the k-nearest query. time.Now() is a clock argument.
module RoutingTable {
  import opened Prelude
  import opened Keys

  const BUCKET_SIZE := 20
  const STALE_AFTER := 15 * 60 * 1_000_000_000  // 15 minutes in nanoseconds

  datatype Node = Node(id: Key, peerID: string, address: string, lastSeen: int)

  // ---------- Buckets as values ----------

  function Find(b: seq<Node>, id: Key): (i: nat)
    ensures i <= |b|
    ensures i < |b| ==> b[i].id == id
    ensures forall j :: 0 <= j < i ==> b[j].id != id
  {
    if b == [] || b[0].id == id then 0 else 1 + Find(b[1..], id)
  }

  ghost predicate IsOldest(b: seq<Node>, k: nat) {
    && k < |b|
    && (forall i :: 0 <= i < |b| ==> b[k].lastSeen <= b[i].lastSeen)
    && (forall i :: 0 <= i < k ==> b[k].lastSeen < b[i].lastSeen)
  }

  function Oldest(b: seq<Node>): (k: nat)
    requires b != []
    ensures IsOldest(b, k)
  {
    if |b| == 1 then 0 else
    var k := Oldest(b[1..]) + 1;
    if b[k].lastSeen < b[0].lastSeen then k else 0
  }

  // now is the reading that stamps the node, later the reading that judges the oldest entry.
  function Added(b: seq<Node>, node: Node, now: int, later: int): (seq<Node>, bool) {
    var i := Find(b, node.id);
    if i < |b| then (b[i := b[i].(lastSeen := now)], true)
    else if |b| < BUCKET_SIZE then (b + [node.(lastSeen := now)], true)
    else
      var k := Oldest(b);
      if later - b[k].lastSeen > STALE_AFTER then (b[k := node.(lastSeen := now)], true) else (b, false)
  }

  function Removed(b: seq<Node>, id: Key): seq<Node> {
    var i := Find(b, id);
    if i < |b| then b[..i] + b[i + 1..] else b
  }

  class Bucket {
    var nodes: seq<Node>

    constructor ()
      ensures nodes == []
    {
      nodes := [];
    }

    method Add(node: Node, now: int, later: int) returns (ok: bool)
      modifies this
      ensures (nodes, ok) == Added(old(nodes), node, now, later)
    {
      for i := 0 to |nodes|
        invariant nodes == old(nodes)
        invariant forall j :: 0 <= j < i ==> nodes[j].id != node.id
      {
        if nodes[i].id == node.id {
          nodes := nodes[i := nodes[i].(lastSeen := now)];
          return true;
        }
      }
      var stamped := node.(lastSeen := now);
      if |nodes| < BUCKET_SIZE {
        nodes := nodes + [stamped];
        return true;
      }
      var oldest := 0;
      for i := 0 to |nodes|
        invariant 0 <= oldest < |nodes| && oldest <= i
        invariant forall j :: 0 <= j < i ==> nodes[oldest].lastSeen <= nodes[j].lastSeen
        invariant forall j :: 0 <= j < oldest ==> nodes[oldest].lastSeen < nodes[j].lastSeen
      {
        if nodes[i].lastSeen < nodes[oldest].lastSeen {
          oldest := i;
        }
      }
      if later - nodes[oldest].lastSeen > STALE_AFTER {
        nodes := nodes[oldest := stamped];
        return true;
      }
      return false;
    }

    method Remove(id: Key)
      modifies this
      ensures nodes == Removed(old(nodes), id)
    {
      for i := 0 to |nodes|
        invariant nodes == old(nodes)
        invariant forall j :: 0 <= j < i ==> nodes[j].id != id
      {
        if nodes[i].id == id {
          nodes := nodes[..i] + nodes[i + 1..];
          return;
        }
      }
    }
  }

  // ---------- The table as a value ----------

  type Layout = seq<seq<Node>>

  function Index(self: Key, id: Key): (i: nat)
    ensures i < MAX_BUCKETS
  {
    var z := Zeros(Distance(self, id));
    if z >= MAX_BUCKETS then MAX_BUCKETS - 1 else z
  }

  function TableAdded(self: Key, l: Layout, node: Node, now: int, later: int): (Layout, bool)
    requires |l| == MAX_BUCKETS
  {
    if node.id == self then (l, false) else
    var i := Index(self, node.id);
    var (b, ok) := Added(l[i], node, now, later);
    (l[i := b], ok)
  }

  function TableRemoved(self: Key, l: Layout, id: Key): Layout
    requires |l| == MAX_BUCKETS
  {
    l[Index(self, id) := Removed(l[Index(self, id)], id)]
  }

  ghost predicate DistinctIds(b: seq<Node>) {
    forall i, j :: 0 <= i < j < |b| ==> b[i].id != b[j].id
  }

  // Bucket i of the layout may hold, without repetition, at most 20 nodes other than self, all of index base + i.
  ghost predicate Placed(self: Key, l: Layout, base: nat) {
    forall i :: 0 <= i < |l| ==> PlacedBucket(self, l[i], base + i)
  }

  ghost predicate PlacedBucket(self: Key, b: seq<Node>, index: nat) {
    && |b| <= BUCKET_SIZE
    && DistinctIds(b)
    && forall n :: n in b ==> n.id != self && Index(self, n.id) == index
  }

  function Flat(l: Layout): seq<Node> {
    if l == [] then [] else l[0] + Flat(l[1..])
  }

  ghost function Stored(l: Layout): set<Node> {
    set n | n in Flat(l)
  }

  ghost predicate Present(self: Key, l: Layout, id: Key)
    requires |l| == MAX_BUCKETS
  {
    exists n :: n in l[Index(self, id)] && n.id == id
  }

  // ---------- One operation ----------

  lemma AddedKeepsPlaced(self: Key, b: seq<Node>, index: nat, node: Node, now: int, later: int)
    requires PlacedBucket(self, b, index)
    requires node.id != self && Index(self, node.id) == index
    ensures PlacedBucket(self, Added(b, node, now, later).0, index)
  {
    var b' := Added(b, node, now, later).0;
    assert forall n :: n in b' ==> n.id == node.id || n in b || exists m :: m in b && m.id == n.id;
  }

  lemma RemovedKeepsPlaced(self: Key, b: seq<Node>, index: nat, id: Key)
    requires PlacedBucket(self, b, index)
    ensures PlacedBucket(self, Removed(b, id), index)
  {
  }

  // The ids in a bucket after Add: the new one if accepted, and the old ones but the evicted.
  ghost predicate Evicts(b: seq<Node>, node: Node, later: int, id: Key) {
    && (forall n :: n in b ==> n.id != node.id)
    && |b| >= BUCKET_SIZE
    && var oldest := b[Oldest(b)];
       oldest.id == id && later - oldest.lastSeen > STALE_AFTER
  }

  ghost predicate HasId(b: seq<Node>, id: Key) {
    exists n :: n in b && n.id == id
  }

  lemma AddedIds(b: seq<Node>, node: Node, now: int, later: int, id: Key)
    requires DistinctIds(b)
    ensures var (b', ok) := Added(b, node, now, later);
      HasId(b', id) <==> (HasId(b, id) && !Evicts(b, node, later, id)) || (ok && id == node.id)
  {
    var (b', ok) := Added(b, node, now, later);
    var i := Find(b, node.id);
    if i < |b| {
      assert b[i] in b && b'[i] in b';
      assert forall j :: 0 <= j < |b| ==> b'[j].id == b[j].id;
      SameIds(b, b', id);
    } else if |b| < BUCKET_SIZE {
      assert b'[|b|] in b';
    } else {
      var k := Oldest(b);
      if ok {
        ReplacedIds(b, k, node.(lastSeen := now), id);
      }
    }
  }

  lemma SameIds(b: seq<Node>, b': seq<Node>, id: Key)
    requires |b| == |b'| && forall j :: 0 <= j < |b| ==> b'[j].id == b[j].id
    ensures HasId(b', id) <==> HasId(b, id)
  {
  }

  lemma ReplacedIds(b: seq<Node>, k: nat, node: Node, id: Key)
    requires k < |b| && DistinctIds(b)
    ensures HasId(b[k := node], id) <==> (HasId(b, id) && id != b[k].id) || id == node.id
  {
    var b' := b[k := node];
    assert b'[k] in b';
    if HasId(b, id) && id != b[k].id {
      var j :| 0 <= j < |b| && b[j].id == id;
      assert b'[j] in b';
    }
    if HasId(b', id) && id != node.id {
      var j :| 0 <= j < |b'| && b'[j].id == id;
      assert b[j] in b;
      assert j < k || k < j;
    }
  }

  lemma RemovedKeepsOthers(b: seq<Node>, gone: Key, j: nat)
    requires j < |b| && b[j].id != gone
    ensures b[j] in Removed(b, gone)
  {
    var i, b' := Find(b, gone), Removed(b, gone);
    if i < |b| {
      assert b' == b[..i] + b[i + 1..];
      assert (if j < i then b'[j] else b'[j - 1]) == b[j];
    }
  }

  lemma RemovedIds(b: seq<Node>, gone: Key, id: Key)
    requires DistinctIds(b)
    ensures HasId(Removed(b, gone), id) <==> HasId(b, id) && id != gone
  {
    var i, b' := Find(b, gone), Removed(b, gone);
    if HasId(b, id) && id != gone {
      var j :| 0 <= j < |b| && b[j].id == id;
      RemovedKeepsOthers(b, gone, j);
    }
    forall m | 0 <= m < |b'|
      ensures b'[m] in b && b'[m].id != gone
    {
      assert b'[m] == if m < i then b[m] else b[m + 1];
    }
  }

  // Add and Remove agree with the plain set of stored ids.
  lemma AddChangesIds(self: Key, l: Layout, node: Node, now: int, later: int, id: Key)
    requires |l| == MAX_BUCKETS && Placed(self, l, 0)
    ensures var (l', ok) := TableAdded(self, l, node, now, later);
      && Placed(self, l', 0)
      && (Present(self, l', id) <==>
            (Present(self, l, id) && !(node.id != self && Evicts(l[Index(self, node.id)], node, later, id)))
            || (ok && id == node.id))
  {
    var (l', ok) := TableAdded(self, l, node, now, later);
    if node.id != self {
      var i := Index(self, node.id);
      assert PlacedBucket(self, l[i], 0 + i);
      AddedKeepsPlaced(self, l[i], 0 + i, node, now, later);
      AddedIds(l[i], node, now, later, id);
      assert Present(self, l, id) <==> HasId(l[Index(self, id)], id);
      assert Present(self, l', id) <==> HasId(l'[Index(self, id)], id);
      assert Evicts(l[i], node, later, id) ==> HasId(l[i], id) by {
        if Evicts(l[i], node, later, id) {
          assert l[i][Oldest(l[i])] in l[i];
        }
      }
    }
  }

  lemma StepsKeepPlaced(self: Key, l: Layout, node: Node, now: int, later: int)
    requires |l| == MAX_BUCKETS && Placed(self, l, 0)
    ensures Placed(self, TableAdded(self, l, node, now, later).0, 0)
    ensures Placed(self, TableRemoved(self, l, node.id), 0)
  {
    AddChangesIds(self, l, node, now, later, self);
    RemoveChangesIds(self, l, node.id, self);
  }

  lemma RemoveChangesIds(self: Key, l: Layout, gone: Key, id: Key)
    requires |l| == MAX_BUCKETS && Placed(self, l, 0)
    ensures Placed(self, TableRemoved(self, l, gone), 0)
    ensures Present(self, TableRemoved(self, l, gone), id) <==> Present(self, l, id) && id != gone
  {
    var i, l' := Index(self, gone), TableRemoved(self, l, gone);
    assert PlacedBucket(self, l[i], 0 + i);
    RemovedKeepsPlaced(self, l[i], 0 + i, gone);
    RemovedIds(l[i], gone, id);
    assert Present(self, l, id) <==> HasId(l[Index(self, id)], id);
    assert Present(self, l', id) <==> HasId(l'[Index(self, id)], id);
  }

  // Add refuses a node other than self exactly when its bucket holds 20 other ids, all seen within 15 minutes.
  lemma AddRefusesExactly(self: Key, l: Layout, node: Node, now: int, later: int)
    requires |l| == MAX_BUCKETS && Placed(self, l, 0) && node.id != self
    ensures var b := l[Index(self, node.id)];
      !TableAdded(self, l, node, now, later).1
      <==> |b| == 20 && forall n :: n in b ==> n.id != node.id && later - n.lastSeen <= 15 * 60 * 1_000_000_000
  {
  }

  // ---------- How many nodes there can be ----------

  lemma {:induction false} IntervalSize(s: seq<nat>, lo: nat, hi: nat)
    requires lo <= hi
    requires forall i :: 0 <= i < |s| ==> lo <= s[i] < hi
    requires forall i, j :: 0 <= i < j < |s| ==> s[i] != s[j]
    ensures |s| <= hi - lo
    decreases hi - lo
  {
    if s != [] {
      assert lo <= s[0] < hi;
      if i :| 0 <= i < |s| && s[i] == hi - 1 {
        IntervalSize(s[..i] + s[i + 1..], lo, hi - 1);
      } else {
        IntervalSize(s, lo, hi - 1);
      }
    }
  }

  // Bucket i can hold at most 2^(159-i) different ids.
  lemma BucketCapacity(self: Key, b: seq<Node>, i: nat)
    requires i < MAX_BUCKETS && PlacedBucket(self, b, i)
    ensures |b| <= Pow2(159 - i) && |b| <= BUCKET_SIZE
  {
    var s: seq<nat> := seq(|b|, j requires 0 <= j < |b| => Number(Distance(self, b[j].id)));
    forall j | 0 <= j < |s|
      ensures Pow2(159 - i) <= s[j] < Pow2(160 - i)
    {
      assert b[j] in b;
      NumberInBucket(self, b[j].id);
    }
    forall j, k | 0 <= j < k < |s|
      ensures s[j] != s[k]
    {
      var u, v := Distance(self, b[j].id), Distance(self, b[k].id);
      if s[j] == s[k] {
        BelowIsNumeric(u, v);
        DistanceInjective(self, b[j].id, b[k].id);
      }
    }
    assert Pow2(160 - i) == 2 * Pow2(159 - i);
    IntervalSize(s, Pow2(159 - i), Pow2(160 - i));
  }

  lemma NumberInBucket(self: Key, id: Key)
    requires id != self
    ensures var i := Index(self, id);
      && i == Zeros(Distance(self, id))
      && Pow2(159 - i) <= Number(Distance(self, id)) < Pow2(160 - i)
  {
    var d := Distance(self, id);
    ZerosInterval(d);
    if Zeros(d) == MAX_BUCKETS {
      assert Number(d) < Pow2(0) == 1;
      var o := Distance(self, self);
      DistanceZero(self, self);
      AllZero(Digits(o));
      BelowIsNumeric(d, o);
      DistanceInjective(self, id, self);
    }
  }

  lemma {:induction false} AllZero(d: Bytes)
    requires forall i :: 0 <= i < |d| ==> d[i] == 0
    ensures Value(d) == 0
  {
    if d != [] {
      AllZero(d[..|d| - 1]);
    }
  }

  function CapacityFrom(i: nat): nat
    requires i <= MAX_BUCKETS
    decreases MAX_BUCKETS - i
  {
    if i == MAX_BUCKETS then 0
    else (if Pow2(159 - i) < BUCKET_SIZE then Pow2(159 - i) else BUCKET_SIZE) + CapacityFrom(i + 1)
  }

  lemma {:induction false} CountWithinCapacity(self: Key, l: Layout, base: nat)
    requires base + |l| == MAX_BUCKETS && Placed(self, l, base)
    ensures |Flat(l)| <= CapacityFrom(base)
  {
    if l != [] {
      assert PlacedBucket(self, l[0], base + 0);
      BucketCapacity(self, l[0], base);
      PlacedTail(self, l, base);
      CountWithinCapacity(self, l[1..], base + 1);
    }
  }

  lemma PlacedTail(self: Key, l: Layout, base: nat)
    requires l != [] && Placed(self, l, base)
    ensures Placed(self, l[1..], base + 1)
  {
  }

  lemma {:induction false} FullBuckets(i: nat)
    requires i <= 155
    ensures CapacityFrom(i) == (155 - i) * BUCKET_SIZE + CapacityFrom(155)
    decreases 155 - i
  {
    if i < 155 {
      Pow2Table();
      Pow2Monotone(5, 159 - i);
      FullBuckets(i + 1);
    }
  }

  lemma TableCapacity(self: Key, l: Layout)
    requires |l| == MAX_BUCKETS && Placed(self, l, 0)
    ensures |Flat(l)| <= 3131
  {
    CountWithinCapacity(self, l, 0);
    FullBuckets(0);
    Pow2Table();
    assert CapacityFrom(159) == 1 && CapacityFrom(158) == 3 && CapacityFrom(157) == 7;
    assert CapacityFrom(156) == 15 && CapacityFrom(155) == 31;
  }

  // The five last buckets never fill, so they never refuse and never evict.
  lemma LastBucketsNeverEvict(self: Key, l: Layout, node: Node, now: int, later: int, id: Key)
    requires |l| == MAX_BUCKETS && Placed(self, l, 0)
    requires node.id != self && Index(self, node.id) >= 155
    ensures TableAdded(self, l, node, now, later).1
    ensures !Evicts(l[Index(self, node.id)], node, later, id)
  {
    var i := Index(self, node.id);
    assert PlacedBucket(self, l[i], 0 + i);
    BucketCapacity(self, l[i], i);
    Pow2Table();
    Pow2Monotone(159 - i, 4);
  }

  // ---------- Whole histories ----------

  datatype Op = Add(node: Node, now: int, later: int) | Remove(id: Key)

  function Applied(self: Key, l: Layout, op: Op): (l': Layout)
    requires |l| == MAX_BUCKETS
    ensures |l'| == MAX_BUCKETS
  {
    match op
    case Add(node, now, later) => TableAdded(self, l, node, now, later).0
    case Remove(id) => TableRemoved(self, l, id)
  }

  function After(self: Key, l: Layout, ops: seq<Op>): (l': Layout)
    requires |l| == MAX_BUCKETS
    ensures |l'| == MAX_BUCKETS
    decreases |ops|
  {
    if ops == [] then l else After(self, Applied(self, l, ops[0]), ops[1..])
  }

  function EmptyLayout(): (l: Layout)
    ensures |l| == MAX_BUCKETS
  {
    seq(MAX_BUCKETS, _ => [])
  }

  // After any run, every bucket is placed: each id in the bucket of its distance, never twice, at most 20.
  lemma {:induction false} RunsStayPlaced(self: Key, l: Layout, ops: seq<Op>)
    requires |l| == MAX_BUCKETS && Placed(self, l, 0)
    ensures Placed(self, After(self, l, ops), 0)
    decreases |ops|
  {
    if ops != [] {
      match ops[0] {
        case Add(node, now, later) => AddChangesIds(self, l, node, now, later, self);
        case Remove(id) => RemoveChangesIds(self, l, id, self);
      }
      RunsStayPlaced(self, Applied(self, l, ops[0]), ops[1..]);
    }
  }

  // The clock readings of a history never go back and stay within [from, to].
  predicate Clocked(ops: seq<Op>, from: int, to: int)
    decreases |ops|
  {
    if ops == [] then from <= to
    else if ops[0].Remove? then Clocked(ops[1..], from, to)
    else from <= ops[0].now <= ops[0].later && Clocked(ops[1..], ops[0].later, to)
  }

  ghost predicate SeenIn(b: seq<Node>, id: Key, since: int) {
    exists n :: n in b && n.id == id && n.lastSeen >= since
  }

  ghost predicate SeenSince(self: Key, l: Layout, id: Key, since: int)
    requires |l| == MAX_BUCKETS
  {
    SeenIn(l[Index(self, id)], id, since)
  }

  lemma {:induction false} ClockedMonotone(ops: seq<Op>, from: int, to: int)
    requires Clocked(ops, from, to)
    ensures from <= to
    decreases |ops|
  {
    if ops != [] {
      ClockedMonotone(ops[1..], if ops[0].Add? then ops[0].later else from, to);
    }
  }

  lemma AddedKeepsSeen(b: seq<Node>, node: Node, now: int, later: int, id: Key, since: int)
    requires SeenIn(b, id, since) && since <= now && later <= since + STALE_AFTER
    ensures SeenIn(Added(b, node, now, later).0, id, since)
  {
    var b' := Added(b, node, now, later).0;
    var k :| 0 <= k < |b| && b[k].id == id && b[k].lastSeen >= since;
    assert b'[k] in b' && b'[k].id == id && b'[k].lastSeen >= since;
  }

  lemma RemovedKeepsSeen(b: seq<Node>, gone: Key, id: Key, since: int)
    requires SeenIn(b, id, since) && gone != id
    ensures SeenIn(Removed(b, gone), id, since)
  {
    var i, b' := Find(b, gone), Removed(b, gone);
    var k :| 0 <= k < |b| && b[k].id == id && b[k].lastSeen >= since;
    assert (if k < i then b'[k] else b'[k - 1]) == b[k];
    assert b[k] in b';
  }

  lemma StepKeepsSeen(self: Key, l: Layout, op: Op, id: Key, since: int)
    requires |l| == MAX_BUCKETS && SeenSince(self, l, id, since)
    requires op != Remove(id)
    requires op.Add? ==> since <= op.now && op.later <= since + STALE_AFTER
    ensures SeenSince(self, Applied(self, l, op), id, since)
  {
    var b := l[Index(self, id)];
    match op
    case Add(node, now, later) => AddedKeepsSeen(b, node, now, later, id, since);
    case Remove(gone) => RemovedKeepsSeen(b, gone, id, since);
  }

  // With a clock that never goes back, an entry seen at a time is still there at every moment up to 15 minutes
  // later, unless it is explicitly removed.
  lemma EntriesAreRetained(self: Key, l: Layout, ops: seq<Op>, id: Key, since: int)
    requires |l| == MAX_BUCKETS && SeenSince(self, l, id, since)
    requires Clocked(ops, since, since + 15 * 60 * 1_000_000_000) && Remove(id) !in ops
    ensures SeenSince(self, After(self, l, ops), id, since)
  {
    RetainedFrom(self, l, ops, id, since, since);
  }

  lemma {:induction false} RetainedFrom(self: Key, l: Layout, ops: seq<Op>, id: Key, since: int, from: int)
    requires |l| == MAX_BUCKETS && SeenSince(self, l, id, since)
    requires since <= from && Clocked(ops, from, since + STALE_AFTER) && Remove(id) !in ops
    ensures SeenSince(self, After(self, l, ops), id, since)
    decreases |ops|
  {
    if ops != [] {
      var next := if ops[0].Add? then ops[0].later else from;
      ClockedMonotone(ops[1..], next, since + STALE_AFTER);
      StepKeepsSeen(self, l, ops[0], id, since);
      RetainedFrom(self, Applied(self, l, ops[0]), ops[1..], id, since, next);
    }
  }

  // An accepted Add leaves its id freshly seen, so EntriesAreRetained applies from there.
  lemma AcceptedIsSeen(self: Key, l: Layout, node: Node, now: int, later: int)
    requires |l| == MAX_BUCKETS && TableAdded(self, l, node, now, later).1
    ensures SeenSince(self, TableAdded(self, l, node, now, later).0, node.id, now)
  {
    var i := Index(self, node.id);
    var b, b' := l[i], Added(l[i], node, now, later).0;
    var k := if Find(b, node.id) < |b| then Find(b, node.id) else if |b| < BUCKET_SIZE then |b| else Oldest(b);
    assert TableAdded(self, l, node, now, later).0[i] == b';
    assert b'[k] in b' && b'[k].id == node.id && b'[k].lastSeen == now;
  }

  // ---------- What the stored entries hold ----------

  // What an accepted Add leaves for its id: the old entry if there was one, else the node given, with the present
  // stamp.
  ghost predicate IsStamped(b: seq<Node>, node: Node, now: int, e: Node) {
    if HasId(b, node.id) then exists x :: x in b && x.id == node.id && e == x.(lastSeen := now)
    else e == node.(lastSeen := now)
  }

  // Add on the entries of a bucket, as whole values: those of other ids but the evicted one stay as they are.
  lemma AddedEntries(b: seq<Node>, node: Node, now: int, later: int, e: Node)
    requires DistinctIds(b)
    ensures var (b', ok) := Added(b, node, now, later);
      && (e in b'
        <==> (e in b && e.id != node.id && !Evicts(b, node, later, e.id)) || (ok && IsStamped(b, node, now, e)))
      && (!ok ==> b' == b)
  {
    var (b', ok) := Added(b, node, now, later);
    var i := Find(b, node.id);
    if i < |b| {
      assert b[i] in b;
      ReplacedEntries(b, i, b[i].(lastSeen := now), e);
      assert IsStamped(b, node, now, e) <==> e == b[i].(lastSeen := now);
    } else if |b| < BUCKET_SIZE {
      assert b' == b + [node.(lastSeen := now)];
    } else if ok {
      ReplacedEntries(b, Oldest(b), node.(lastSeen := now), e);
    }
  }

  lemma ReplacedEntries(b: seq<Node>, k: nat, x: Node, e: Node)
    requires k < |b| && DistinctIds(b)
    ensures e in b[k := x] <==> (e in b && e.id != b[k].id) || e == x
  {
    var b' := b[k := x];
    assert b'[k] == x;
    if e in b && e.id != b[k].id {
      var j :| 0 <= j < |b| && b[j] == e;
      assert b'[j] == e;
    }
    if e in b' && e != x {
      var j :| 0 <= j < |b'| && b'[j] == e;
      assert b[j] == e;
      assert j < k || k < j;
    }
  }

  lemma {:induction false} BucketOf(l: Layout, e: Node) returns (k: nat)
    requires e in Flat(l)
    ensures k < |l| && e in l[k]
  {
    k := 0;
    if e !in l[0] {
      k := BucketOf(l[1..], e);
      k := k + 1;
    }
  }

  lemma {:induction false} FlatHolds(l: Layout, k: nat, e: Node)
    requires k < |l| && e in l[k]
    ensures e in Flat(l)
  {
    if k > 0 {
      FlatHolds(l[1..], k - 1, e);
    }
  }

  // The table holds an entry exactly when the bucket of its id does.
  lemma InFlat(self: Key, l: Layout, e: Node)
    requires |l| == MAX_BUCKETS && Placed(self, l, 0)
    ensures e in Flat(l) <==> e in l[Index(self, e.id)]
  {
    if e in Flat(l) {
      var k := BucketOf(l, e);
      assert PlacedBucket(self, l[k], 0 + k);
    }
    if e in l[Index(self, e.id)] {
      FlatHolds(l, Index(self, e.id), e);
    }
  }

  lemma AddChangesEntries(self: Key, l: Layout, node: Node, now: int, later: int, e: Node)
    requires |l| == MAX_BUCKETS && Placed(self, l, 0)
    ensures var (l', ok) := TableAdded(self, l, node, now, later);
      var b := l[Index(self, node.id)];
      && (e in Stored(l') <==>
            (e in Stored(l) && e.id != node.id && !(node.id != self && Evicts(b, node, later, e.id)))
            || (ok && IsStamped(b, node, now, e)))
      && (!ok ==> l' == l)
  {
    var (l', ok) := TableAdded(self, l, node, now, later);
    var i := Index(self, node.id);
    AddChangesIds(self, l, node, now, later, self);
    InFlat(self, l, e);
    InFlat(self, l', e);
    assert PlacedBucket(self, l[i], 0 + i);
    if node.id != self {
      AddedEntries(l[i], node, now, later, e);
      EvictedIsPlaced(l[i], node, later, e.id);
      assert !ok ==> l' == l;
    }
  }

  lemma EvictedIsPlaced(b: seq<Node>, node: Node, later: int, id: Key)
    ensures Evicts(b, node, later, id) ==> HasId(b, id)
  {
    if Evicts(b, node, later, id) {
      assert b[Oldest(b)] in b;
    }
  }

  lemma RemovedEntries(b: seq<Node>, gone: Key, e: Node)
    requires DistinctIds(b)
    ensures e in Removed(b, gone) <==> e in b && e.id != gone
  {
    var i, b' := Find(b, gone), Removed(b, gone);
    if e in b && e.id != gone {
      var j :| 0 <= j < |b| && b[j] == e;
      RemovedKeepsOthers(b, gone, j);
    }
    forall m | 0 <= m < |b'|
      ensures b'[m] in b && b'[m].id != gone
    {
      assert b'[m] == if m < i then b[m] else b[m + 1];
    }
  }

  lemma RemoveChangesEntries(self: Key, l: Layout, gone: Key, e: Node)
    requires |l| == MAX_BUCKETS && Placed(self, l, 0)
    ensures e in Stored(TableRemoved(self, l, gone)) <==> e in Stored(l) && e.id != gone
  {
    var i, l' := Index(self, gone), TableRemoved(self, l, gone);
    RemoveChangesIds(self, l, gone, self);
    InFlat(self, l, e);
    InFlat(self, l', e);
    assert PlacedBucket(self, l[i], 0 + i);
    RemovedEntries(l[i], gone, e);
  }

  // The state after n operations of a run from the empty table.
  ghost function At(self: Key, ops: seq<Op>, n: nat): (l: Layout)
    requires n <= |ops|
    ensures |l| == MAX_BUCKETS
  {
    After(self, EmptyLayout(), ops[..n])
  }

  // The i-th operation of a run from the empty table is an accepted Add of the id.
  ghost predicate AcceptedAt(self: Key, ops: seq<Op>, i: nat, id: Key) {
    && i < |ops| && ops[i].Add? && ops[i].node.id == id
    && TableAdded(self, At(self, ops, i), ops[i].node, ops[i].now, ops[i].later).1
  }

  // The entry is the node that the h-th operation put in, its id having been absent before and present ever since up to
  // the n-th, with the time of the i-th, the last accepted Add of the id.
  ghost predicate GivenBy(self: Key, ops: seq<Op>, n: nat, e: Node, h: nat, i: nat)
    requires n <= |ops|
  {
    && h <= i < n && AcceptedAt(self, ops, h, e.id) && AcceptedAt(self, ops, i, e.id)
    && e == ops[h].node.(lastSeen := ops[i].now)
    && !Present(self, At(self, ops, h), e.id)
    && (forall j :: h < j <= n ==> Present(self, At(self, ops, j), e.id))
    && (forall j :: i < j < n ==> !AcceptedAt(self, ops, j, e.id))
  }

  lemma {:induction false} AfterSnoc(self: Key, l: Layout, ops: seq<Op>, op: Op)
    requires |l| == MAX_BUCKETS
    ensures After(self, l, ops + [op]) == Applied(self, After(self, l, ops), op)
    decreases |ops|
  {
    if ops != [] {
      assert (ops + [op])[1..] == ops[1..] + [op];
      AfterSnoc(self, Applied(self, l, ops[0]), ops[1..], op);
    }
  }

  lemma StoredIsPresent(self: Key, l: Layout, e: Node)
    requires |l| == MAX_BUCKETS && Placed(self, l, 0) && e in Stored(l)
    ensures Present(self, l, e.id)
  {
    InFlat(self, l, e);
  }

  lemma {:induction false} NothingInEmpty(self: Key, l: Layout, base: nat)
    requires forall i :: 0 <= i < |l| ==> l[i] == []
    ensures Placed(self, l, base) && Flat(l) == []
  {
    if l != [] {
      NothingInEmpty(self, l[1..], base + 1);
    }
  }

  // An entry that no accepted Add has just left was there before.
  lemma StayedAsItWas(self: Key, l: Layout, op: Op, e: Node)
    requires |l| == MAX_BUCKETS && Placed(self, l, 0) && e in Stored(Applied(self, l, op))
    requires op.Add? && op.node.id == e.id ==> !TableAdded(self, l, op.node, op.now, op.later).1
    ensures e in Stored(l)
  {
    match op
    case Add(node, now, later) => AddChangesEntries(self, l, node, now, later, e);
    case Remove(id) => RemoveChangesEntries(self, l, id, e);
  }

  lemma AtStep(self: Key, ops: seq<Op>, n: nat)
    requires n < |ops|
    ensures At(self, ops, n + 1) == Applied(self, At(self, ops, n), ops[n])
  {
    assert ops[..n + 1] == ops[..n] + [ops[n]];
    AfterSnoc(self, EmptyLayout(), ops[..n], ops[n]);
  }

  lemma AtIsPlaced(self: Key, ops: seq<Op>, n: nat)
    requires n <= |ops|
    ensures Placed(self, At(self, ops, n), 0)
  {
    NothingInEmpty(self, EmptyLayout(), 0);
    RunsStayPlaced(self, EmptyLayout(), ops[..n]);
  }

  lemma StoredLater(self: Key, ops: seq<Op>, n: nat, e: Node)
    requires n <= |ops| && e in Stored(At(self, ops, n))
    ensures n > 0 && Present(self, At(self, ops, n), e.id)
  {
    AtIsPlaced(self, ops, n);
    StoredIsPresent(self, At(self, ops, n), e);
    NothingInEmpty(self, EmptyLayout(), 0);
  }

  // The main result about entries: over any run from the empty table, a stored entry is the node given when its id came
  // in, and its LastSeen is the time of the last accepted Add of the id.
  lemma {:induction false} EntriesAreAsGiven(self: Key, ops: seq<Op>, n: nat, e: Node) returns (h: nat, i: nat)
    requires n <= |ops| && e in Stored(At(self, ops, n))
    ensures GivenBy(self, ops, n, e, h, i)
  {
    StoredLater(self, ops, n, e);
    var m := n - 1;
    if !AcceptedAt(self, ops, m, e.id) {
      StayedAt(self, ops, m, e);
      h, i := EntriesAreAsGiven(self, ops, m, e);
      GivenLonger(self, ops, m, e, h, i);
    } else {
      var x := OldEntryAt(self, ops, m, e);
      if x.Some? {
        h, i := EntriesAreAsGiven(self, ops, m, x.value);
        GivenAgain(self, ops, m, x.value, e, h, i);
        i := m;
      } else {
        h, i := m, m;
        GivenFirst(self, ops, m, e);
      }
    }
  }

  lemma StayedAt(self: Key, ops: seq<Op>, m: nat, e: Node)
    requires m < |ops| && e in Stored(At(self, ops, m + 1)) && !AcceptedAt(self, ops, m, e.id)
    ensures e in Stored(At(self, ops, m))
  {
    AtIsPlaced(self, ops, m);
    AtStep(self, ops, m);
    StayedAsItWas(self, At(self, ops, m), ops[m], e);
  }

  lemma OldEntryAt(self: Key, ops: seq<Op>, m: nat, e: Node) returns (x: Option<Node>)
    requires m < |ops| && e in Stored(At(self, ops, m + 1)) && AcceptedAt(self, ops, m, e.id)
    ensures x.Some? ==> x.value in Stored(At(self, ops, m)) && x.value.id == e.id
                        && e == x.value.(lastSeen := ops[m].now)
    ensures x.None? ==> !Present(self, At(self, ops, m), e.id) && e == ops[m].node.(lastSeen := ops[m].now)
  {
    AtIsPlaced(self, ops, m);
    AtStep(self, ops, m);
    x := OldEntry(self, At(self, ops, m), ops[m], e);
  }

  lemma GivenFirst(self: Key, ops: seq<Op>, m: nat, e: Node)
    requires m < |ops| && AcceptedAt(self, ops, m, e.id) && e == ops[m].node.(lastSeen := ops[m].now)
    requires !Present(self, At(self, ops, m), e.id) && Present(self, At(self, ops, m + 1), e.id)
    ensures GivenBy(self, ops, m + 1, e, m, m)
  {
  }

  lemma GivenLonger(self: Key, ops: seq<Op>, m: nat, e: Node, h: nat, i: nat)
    requires m < |ops| && GivenBy(self, ops, m, e, h, i) && !AcceptedAt(self, ops, m, e.id)
    requires Present(self, At(self, ops, m + 1), e.id)
    ensures GivenBy(self, ops, m + 1, e, h, i)
  {
  }

  lemma GivenAgain(self: Key, ops: seq<Op>, m: nat, x: Node, e: Node, h: nat, i: nat)
    requires m < |ops| && GivenBy(self, ops, m, x, h, i) && x.id == e.id && AcceptedAt(self, ops, m, e.id)
    requires e == x.(lastSeen := ops[m].now) && Present(self, At(self, ops, m + 1), e.id)
    ensures GivenBy(self, ops, m + 1, e, h, m)
  {
  }

  // The entry that an accepted Add has refreshed, if there was one.
  lemma OldEntry(self: Key, l: Layout, op: Op, e: Node) returns (x: Option<Node>)
    requires |l| == MAX_BUCKETS && Placed(self, l, 0) && e in Stored(Applied(self, l, op))
    requires op.Add? && op.node.id == e.id && TableAdded(self, l, op.node, op.now, op.later).1
    ensures x.Some? ==> x.value in Stored(l) && x.value.id == e.id && e == x.value.(lastSeen := op.now)
    ensures x.None? ==> !Present(self, l, e.id) && e == op.node.(lastSeen := op.now)
  {
    var b := l[Index(self, e.id)];
    AddChangesEntries(self, l, op.node, op.now, op.later, e);
    if HasId(b, e.id) {
      var o :| o in b && o.id == e.id && e == o.(lastSeen := op.now);
      InFlat(self, l, o);
      x := Some(o);
    } else {
      x := None;
    }
  }

  // ---------- The nearest nodes ----------

  predicate Nearer(target: Key, m: Node, n: Node) {
    Below(Distance(target, m.id), Distance(target, n.id))
  }

  ghost predicate Ascending(target: Key, r: seq<Node>) {
    forall i, j :: 0 <= i < j < |r| ==> Nearer(target, r[i], r[j])
  }

  // r lists the min(count, |s|) nodes of s nearest to the target, strictly ascending, all others strictly farther.
  ghost predicate Nearest(target: Key, count: nat, s: set<Node>, r: seq<Node>) {
    && |r| == Min(count, |s|)
    && (forall n :: n in r ==> n in s)
    && Ascending(target, r)
    && (forall m, n :: m in r && n in s && n !in r ==> Nearer(target, m, n))
  }

  lemma NearerIsOrder(target: Key, a: Node, b: Node)
    ensures !(Nearer(target, a, b) && Nearer(target, b, a))
    ensures a.id != b.id ==> Nearer(target, a, b) || Nearer(target, b, a)
  {
    var u, v := Distance(target, a.id), Distance(target, b.id);
    BelowIsNumeric(u, v);
    BelowIsNumeric(v, u);
    if u == v {
      DistanceInjective(target, a.id, b.id);
    }
  }

  lemma {:induction false} SetOfDistinct(r: seq<Node>)
    requires forall i, j :: 0 <= i < j < |r| ==> r[i] != r[j]
    ensures |set n | n in r| == |r|
  {
    if r != [] {
      SetOfDistinct(r[1..]);
      assert (set n | n in r) == {r[0]} + (set n | n in r[1..]);
      assert r[0] !in r[1..];
    }
  }

  lemma AscendingIsDistinct(target: Key, r: seq<Node>)
    requires Ascending(target, r)
    ensures forall i, j :: 0 <= i < j < |r| ==> r[i] != r[j]
  {
    forall i, j | 0 <= i < j < |r|
      ensures r[i] != r[j]
    {
      assert Nearer(target, r[i], r[j]);
      NearerIsOrder(target, r[i], r[j]);
    }
  }

  lemma NearestContains(target: Key, count: nat, s: set<Node>, p: seq<Node>, q: seq<Node>, x: Node)
    requires Nearest(target, count, s, p) && Nearest(target, count, s, q) && x in p
    ensures x in q
  {
    AscendingIsDistinct(target, p);
    AscendingIsDistinct(target, q);
    SetOfDistinct(p);
    SetOfDistinct(q);
    var ps, qs := set n | n in p, set n | n in q;
    if x !in q {
      if qs <= ps {
        assert qs <= ps - {x};
        SubsetSize(qs, ps - {x});
        assert false;
      }
      var y :| y in qs && y !in ps;
      assert Nearer(target, y, x) && Nearer(target, x, y);
      NearerIsOrder(target, x, y);
      assert false;
    }
  }

  lemma {:induction false} AscendingUnique(target: Key, p: seq<Node>, q: seq<Node>)
    requires Ascending(target, p) && Ascending(target, q)
    requires |p| == |q| && (forall n :: n in p ==> n in q) && (forall n :: n in q ==> n in p)
    ensures p == q
  {
    if p != [] {
      AscendingIsDistinct(target, p);
      AscendingIsDistinct(target, q);
      if p[0] != q[0] {
        assert p[0] in q && q[0] in p;
        assert Nearer(target, q[0], p[0]) && Nearer(target, p[0], q[0]);
        NearerIsOrder(target, p[0], q[0]);
      }
      forall n | n in p[1..]
        ensures n in q[1..]
      {
        assert n in q && n != p[0];
      }
      forall n | n in q[1..]
        ensures n in p[1..]
      {
        assert n in p && n != q[0];
      }
      AscendingUnique(target, p[1..], q[1..]);
    }
  }

  // The answer is a function of the set of stored nodes alone: insertion order, bucket layout and the way ties
  // or equal elements are sorted cannot be seen in it.
  lemma NearestIsUnique(target: Key, count: nat, s: set<Node>, p: seq<Node>, q: seq<Node>)
    requires Nearest(target, count, s, p) && Nearest(target, count, s, q)
    ensures p == q
  {
    forall n | n in p
      ensures n in q
    {
      NearestContains(target, count, s, p, q, n);
    }
    forall n | n in q
      ensures n in p
    {
      NearestContains(target, count, s, q, p, n);
    }
    AscendingUnique(target, p, q);
  }

  // Seen from self, nodes of a higher-index bucket come before nodes of a lower-index one.
  lemma HigherBucketsFirst(self: Key, count: nat, l: Layout, r: seq<Node>, i: nat, j: nat)
    requires |l| == MAX_BUCKETS && Placed(self, l, 0) && Nearest(self, count, Stored(l), r)
    requires i < j < |r|
    ensures Index(self, r[i].id) >= Index(self, r[j].id)
  {
    assert r[i] in r && r[j] in r;
    FlatPlaced(self, l, 0);
    NumberInBucket(self, r[i].id);
    NumberInBucket(self, r[j].id);
    assert Nearer(self, r[i], r[j]);
    if Index(self, r[i].id) < Index(self, r[j].id) {
      MoreZerosIsCloser(Distance(self, r[j].id), Distance(self, r[i].id));
      NearerIsOrder(self, r[i], r[j]);
    }
  }

  // The buckets together hold every id once.
  lemma {:induction false} FlatPlaced(self: Key, l: Layout, base: nat)
    requires Placed(self, l, base)
    ensures DistinctIds(Flat(l))
    ensures forall n :: n in Flat(l) ==> n.id != self && base <= Index(self, n.id) < base + |l|
  {
    if l != [] {
      assert PlacedBucket(self, l[0], base + 0);
      PlacedTail(self, l, base);
      FlatPlaced(self, l[1..], base + 1);
      var head: seq<Node>, rest: seq<Node> := l[0], Flat(l[1..]);
      var all: seq<Node> := head + rest;
      forall i, j | 0 <= i < j < |all|
        ensures all[i].id != all[j].id
      {
        if i < |head| <= j {
          assert head[i] in head && rest[j - |head|] in rest;
        }
      }
    }
  }

  lemma DistinctRearrangement(a: seq<Node>, b: seq<Node>)
    requires DistinctIds(a) && multiset(b) == multiset(a)
    ensures DistinctIds(b) && |a| == |b|
    ensures forall n :: n in a <==> n in b
  {
    assert |multiset(a)| == |multiset(b)|;
    assert forall n :: n in a <==> n in multiset(a);
    assert forall n :: n in b <==> n in multiset(b);
    forall i, j | 0 <= i < j < |b|
      ensures b[i].id != b[j].id
    {
      assert b[i] in a && b[j] in a;
      if b[i] == b[j] {
        assert b == b[..i] + [b[i]] + b[i + 1..j] + [b[j]] + b[j + 1..];
        assert multiset(a)[b[i]] >= 2;
        CountDistinct(a, b[i]);
      }
    }
  }

  lemma {:induction false} CountDistinct(a: seq<Node>, n: Node)
    requires DistinctIds(a)
    ensures multiset(a)[n] <= 1
  {
    if a != [] {
      CountDistinct(a[1..], n);
      assert a == [a[0]] + a[1..];
      assert forall j :: 0 <= j < |a[1..]| ==> a[1..][j] == a[j + 1];
    }
  }

  // Cutting off any sorted rearrangement of the stored nodes gives the nearest ones.
  lemma SortedPrefixIsNearest(self: Key, target: Key, count: nat, l: Layout, sorted: seq<Node>)
    requires Placed(self, l, 0)
    requires multiset(sorted) == multiset(Flat(l))
    requires forall i, j :: 0 <= i < j < |sorted| ==> !Nearer(target, sorted[j], sorted[i])
    ensures |Stored(l)| == |Flat(l)|
    ensures Nearest(target, count, Stored(l), sorted[..Min(count, |sorted|)])
  {
    FlatPlaced(self, l, 0);
    DistinctRearrangement(Flat(l), sorted);
    SetOfDistinct(Flat(l));
    SortedIsAscending(target, sorted);
    AscendingPrefix(target, count, Stored(l), sorted);
  }

  lemma SortedIsAscending(target: Key, sorted: seq<Node>)
    requires DistinctIds(sorted)
    requires forall i, j :: 0 <= i < j < |sorted| ==> !Nearer(target, sorted[j], sorted[i])
    ensures Ascending(target, sorted)
  {
    forall i, j | 0 <= i < j < |sorted|
      ensures Nearer(target, sorted[i], sorted[j])
    {
      NearerIsOrder(target, sorted[i], sorted[j]);
    }
  }

  lemma AscendingPrefix(target: Key, count: nat, s: set<Node>, sorted: seq<Node>)
    requires Ascending(target, sorted) && |s| == |sorted| && forall n :: n in s <==> n in sorted
    ensures Nearest(target, count, s, sorted[..Min(count, |sorted|)])
  {
  }

  // ---------- The table in memory ----------

  datatype NodeDist = NodeDist(node: Node, dist: Key)

  function NodesOf(s: seq<NodeDist>): seq<Node> {
    seq(|s|, i requires 0 <= i < |s| => s[i].node)
  }

  // How many of the list come at or before x.
  method SlotFor(sorted: seq<NodeDist>, x: NodeDist) returns (k: nat)
    ensures k <= |sorted| && (forall m :: 0 <= m < k ==> !Below(x.dist, sorted[m].dist))
    ensures k < |sorted| ==> Below(x.dist, sorted[k].dist)
  {
    k := 0;
    while k < |sorted|
      invariant 0 <= k <= |sorted|
      invariant forall m :: 0 <= m < k ==> !Below(x.dist, sorted[m].dist)
    {
      var before := Less(x.dist, sorted[k].dist);
      if before {
        return;
      }
      k := k + 1;
    }
  }

  // A stand-in for sort.Slice. The rest relies only on its contract, which any sort meets, stable or not.
  method SortByDistance(all: seq<NodeDist>) returns (sorted: seq<NodeDist>)
    ensures multiset(sorted) == multiset(all)
    ensures forall i, j :: 0 <= i < j < |sorted| ==> !Below(sorted[j].dist, sorted[i].dist)
  {
    sorted := [];
    for i := 0 to |all|
      invariant multiset(sorted) == multiset(all[..i])
      invariant forall i, j :: 0 <= i < j < |sorted| ==> !Below(sorted[j].dist, sorted[i].dist)
    {
      sorted := InsertByDistance(sorted, all[i]);
      assert all[..i + 1] == all[..i] + [all[i]];
    }
    assert all[..|all|] == all;
  }

  method InsertByDistance(sorted: seq<NodeDist>, x: NodeDist) returns (longer: seq<NodeDist>)
    requires forall i, j :: 0 <= i < j < |sorted| ==> !Below(sorted[j].dist, sorted[i].dist)
    ensures multiset(longer) == multiset(sorted) + multiset{x}
    ensures forall i, j :: 0 <= i < j < |longer| ==> !Below(longer[j].dist, longer[i].dist)
  {
    var k := SlotFor(sorted, x);
    InsertKeepsOrder(sorted, k, x);
    assert sorted == sorted[..k] + sorted[k..];
    longer := sorted[..k] + [x] + sorted[k..];
  }

  lemma InsertKeepsOrder(s: seq<NodeDist>, k: nat, x: NodeDist)
    requires k <= |s|
    requires forall i, j :: 0 <= i < j < |s| ==> !Below(s[j].dist, s[i].dist)
    requires forall m :: 0 <= m < k ==> !Below(x.dist, s[m].dist)
    requires k < |s| ==> Below(x.dist, s[k].dist)
    ensures var s' := s[..k] + [x] + s[k..];
      forall i, j :: 0 <= i < j < |s'| ==> !Below(s'[j].dist, s'[i].dist)
  {
    forall j | k <= j < |s|
      ensures !Below(s[j].dist, x.dist)
    {
      BelowIsNumeric(s[j].dist, x.dist);
      BelowIsNumeric(x.dist, s[k].dist);
      BelowIsNumeric(s[j].dist, s[k].dist);
      assert j == k || !Below(s[j].dist, s[k].dist);
    }
  }

  lemma TakeOutNode(s: seq<NodeDist>, k: nat)
    requires k < |s|
    ensures multiset(NodesOf(s)) == multiset{s[k].node} + multiset(NodesOf(s[..k] + s[k + 1..]))
  {
    TakeOut(NodesOf(s), k);
    assert NodesOf(s[..k] + s[k + 1..]) == NodesOf(s)[..k] + NodesOf(s)[k + 1..];
  }

  lemma {:induction false} NodesMultiset(a: seq<NodeDist>, b: seq<NodeDist>)
    requires multiset(a) == multiset(b)
    ensures multiset(NodesOf(a)) == multiset(NodesOf(b))
  {
    if a == [] {
      assert |multiset(b)| == 0;
    } else {
      assert a[0] in multiset(b);
      var k :| 0 <= k < |b| && b[k] == a[0];
      var a', b' := a[..0] + a[1..], b[..k] + b[k + 1..];
      TakeOutSame(a, 0, b, k);
      NodesMultiset(a', b');
      TakeOutNode(a, 0);
      TakeOutNode(b, k);
    }
  }

  lemma {:induction false} FlatAppend(l: Layout, b: seq<Node>)
    ensures Flat(l + [b]) == Flat(l) + b
  {
    if l != [] {
      assert (l + [b])[1..] == l[1..] + [b];
      FlatAppend(l[1..], b);
    }
  }

  ghost predicate Measured(target: Key, s: seq<NodeDist>) {
    forall m :: 0 <= m < |s| ==> s[m].dist == Distance(target, s[m].node.id)
  }

  lemma MeasuredRearrangement(target: Key, a: seq<NodeDist>, b: seq<NodeDist>)
    requires Measured(target, a) && multiset(b) == multiset(a)
    ensures Measured(target, b)
  {
    forall m | 0 <= m < |b|
      ensures b[m].dist == Distance(target, b[m].node.id)
    {
      assert b[m] in multiset(a);
    }
  }

  // Appends the nodes of one bucket with their distances.
  method Measure(target: Key, nodes: seq<Node>, before: seq<NodeDist>) returns (all: seq<NodeDist>)
    requires Measured(target, before)
    ensures NodesOf(all) == NodesOf(before) + nodes
    ensures Measured(target, all)
  {
    all := before;
    for j := 0 to |nodes|
      invariant NodesOf(all) == NodesOf(before) + nodes[..j]
      invariant Measured(target, all)
    {
      var d := XOR(target, nodes[j].id);
      ghost var shorter := all;
      all := all + [NodeDist(nodes[j], d)];
      assert NodesOf(all) == NodesOf(shorter) + [nodes[j]];
      assert nodes[..j + 1] == nodes[..j] + [nodes[j]];
    }
    assert nodes[..|nodes|] == nodes;
  }

  class Table {
    const selfID: Key
    const buckets: seq<Bucket>

    static ghost function Contents(bs: seq<Bucket>): (l: Layout)
      reads bs
      ensures |l| == |bs| && forall i :: 0 <= i < |bs| ==> l[i] == bs[i].nodes
    {
      if bs == [] then [] else [bs[0].nodes] + Contents(bs[1..])
    }

    ghost function State(): (l: Layout)
      reads buckets
      ensures |l| == |buckets|
    {
      Contents(buckets)
    }

    ghost predicate Valid()
      reads buckets
    {
      && |buckets| == MAX_BUCKETS
      && (forall i, j :: 0 <= i < j < |buckets| ==> buckets[i] != buckets[j])
      && Placed(selfID, State(), 0)
    }

    constructor (selfID: Key)
      ensures Valid() && fresh(buckets)
      ensures this.selfID == selfID && State() == EmptyLayout()
    {
      var bs: seq<Bucket> := [];
      for i := 0 to MAX_BUCKETS
        invariant |bs| == i && fresh(bs)
        invariant forall j :: 0 <= j < i ==> bs[j].nodes == []
        invariant forall j, k :: 0 <= j < k < i ==> bs[j] != bs[k]
      {
        var b := new Bucket();
        bs := bs + [b];
      }
      this.selfID := selfID;
      this.buckets := bs;
    }

    method BucketIndex(id: Key) returns (i: nat)
      ensures i == Index(selfID, id)
    {
      var distance := XOR(selfID, id);
      i := LeadingZeros(distance);
      if i >= MAX_BUCKETS {
        i := MAX_BUCKETS - 1;
      }
    }

    method Add(node: Node, now: int, later: int) returns (ok: bool)
      requires Valid()
      modifies buckets
      ensures Valid()
      ensures (State(), ok) == TableAdded(selfID, old(State()), node, now, later)
    {
      if node.id == selfID {
        return false;
      }
      var bucketIndex := BucketIndex(node.id);
      ghost var before := State();
      ok := buckets[bucketIndex].Add(node, now, later);
      assert State() == before[bucketIndex := buckets[bucketIndex].nodes];
      StepsKeepPlaced(selfID, before, node, now, later);
    }

    method Remove(id: Key)
      requires Valid()
      modifies buckets
      ensures Valid()
      ensures State() == TableRemoved(selfID, old(State()), id)
    {
      var bucketIndex := BucketIndex(id);
      RemoveChangesIds(selfID, State(), id, id);
      buckets[bucketIndex].Remove(id);
      assert State() == old(State())[bucketIndex := buckets[bucketIndex].nodes];
    }

    // Every stored node with its distance to the target, bucket by bucket.
    method Gather(target: Key) returns (all: seq<NodeDist>)
      requires Valid()
      ensures NodesOf(all) == Flat(State())
      ensures Measured(target, all)
    {
      all := [];
      for i := 0 to |buckets|
        invariant NodesOf(all) == Flat(State()[..i])
        invariant Measured(target, all)
      {
        var nodes := buckets[i].nodes;
        FlatAppend(State()[..i], nodes);
        assert State()[..i + 1] == State()[..i] + [nodes];
        all := Measure(target, nodes, all);
      }
      assert State()[..|buckets|] == State();
    }

    method Closest(target: Key, count: nat) returns (result: seq<Node>)
      requires Valid()
      ensures Nearest(target, count, Stored(State()), result)
    {
      var all := Gather(target);
      var sorted := SortByDistance(all);
      NodesMultiset(sorted, all);
      MeasuredRearrangement(target, all, sorted);
      SortedPrefixIsNearest(selfID, target, count, State(), NodesOf(sorted));
      ghost var whole := NodesOf(sorted);
      if |sorted| > count {
        sorted := sorted[..count];
      }
      result := NodesOf(sorted);
      assert result == whole[..Min(count, |whole|)];
    }

    method Count() returns (count: nat)
      requires Valid()
      ensures count == |Stored(State())| <= 3131
    {
      count := 0;
      for i := 0 to |buckets|
        invariant count == |Flat(State()[..i])|
      {
        FlatAppend(State()[..i], buckets[i].nodes);
        assert State()[..i + 1] == State()[..i] + [buckets[i].nodes];
        count := count + |buckets[i].nodes|;
      }
      assert State()[..|buckets|] == State();
      TableCapacity(selfID, State());
      FlatPlaced(selfID, State(), 0);
      SetOfDistinct(Flat(State()));
    }
  }
}
