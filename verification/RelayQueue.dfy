// The bounded, stable priority queue of pkg/relay/queue.go: a window sliding over a backing array.
module RelayQueue {
  import opened Prelude

  type Priority = x: int | 0 <= x < 256

  datatype Packet = Packet(id: Bytes, from: string, to: string, data: Bytes, priority: Priority, createdAt: int,
      acks: seq<bool>)

  function PriorityOf(p: Packet): Priority {
    p.priority
  }

  // ---------- The queue as a value ----------

  // The first index holding something strictly less urgent than r, or the end.
  function Slot<T>(q: seq<T>, rank: T -> Priority, r: Priority): (k: nat)
    ensures k <= |q|
    ensures forall i :: 0 <= i < k ==> rank(q[i]) <= r
    ensures k < |q| ==> r < rank(q[k])
  {
    if q == [] || r < rank(q[0]) then 0 else 1 + Slot(q[1..], rank, r)
  }

  function Inserted<T>(q: seq<T>, rank: T -> Priority, x: T): seq<T> {
    var k := Slot(q, rank, rank(x));
    q[..k] + [x] + q[k..]
  }

  lemma InsertedAt<T>(q: seq<T>, rank: T -> Priority, x: T)
    ensures var q', k := Inserted(q, rank, x), Slot(q, rank, rank(x));
      && |q'| == |q| + 1 && q'[k] == x
      && (forall i :: 0 <= i < k ==> q'[i] == q[i])
      && (forall i :: k < i < |q'| ==> q'[i] == q[i - 1])
  {
  }

  // ---------- The queue in memory ----------

  // The overlapping move of a[lo..hi] one slot up.
  method MoveUp<T>(a: array<T>, lo: nat, hi: nat)
    requires lo <= hi < a.Length
    modifies a
    ensures a[..lo + 1] == old(a[..lo + 1])
    ensures a[lo + 1..hi + 1] == old(a[lo..hi])
    ensures a[hi + 1..] == old(a[hi + 1..])
  {
    var j := hi;
    while j > lo
      invariant lo <= j <= hi
      invariant forall m :: 0 <= m <= j ==> a[m] == old(a[m])
      invariant forall m :: j < m <= hi ==> a[m] == old(a[m - 1])
      invariant forall m :: hi < m < a.Length ==> a[m] == old(a[m])
    {
      a[j] := a[j - 1];
      j := j - 1;
    }
  }

  // A larger array holding w[..upTo] + w[from..], where w is the window of len packets at start.
  method Regrown<T(0)>(a: array<T>, start: nat, len: nat, upTo: nat, from: nat) returns (b: array<T>)
    requires start + len <= a.Length && from <= upTo <= len
    ensures fresh(b) && b.Length > 2 * len
    ensures b[..upTo] == a[start..start + upTo]
    ensures b[upTo..upTo + len - from] == a[start + from..start + len]
  {
    b := new T[2 * len + 1];
    forall j | 0 <= j < upTo {
      b[j] := a[start + j];
    }
    forall j | from <= j < len {
      b[upTo - from + j] := a[start + j];
    }
  }

  // Moving up the part of a window from i on repeats its element i.
  lemma WindowMoved<T>(was: seq<T>, now: seq<T>, start: nat, len: nat, i: nat)
    requires i < len && start + len < |was| == |now|
    requires now[..start + i + 1] == was[..start + i + 1]
    requires now[start + i + 1..start + len + 1] == was[start + i..start + len]
    ensures now[start..start + len + 1] == was[start..start + len][..i + 1] + was[start..start + len][i..]
  {
    var window := was[start..start + len];
    assert now[start..start + i + 1] == window[..i + 1] by {
      assert now[start..start + i + 1] == now[..start + i + 1][start..];
      assert window[..i + 1] == was[..start + i + 1][start..];
    }
    assert now[start + i + 1..start + len + 1] == window[i..];
    assert now[start..start + len + 1] == now[start..start + i + 1] + now[start + i + 1..start + len + 1];
  }

  class Queue {
    const maxSize: nat
    var buf: array<Packet>
    var start: nat
    var len: nat

    ghost predicate Valid()
      reads this
    {
      start + len <= buf.Length && len <= maxSize
    }

    ghost function Contents(): seq<Packet>
      requires Valid()
      reads this, buf
    {
      buf[start..start + len]
    }

    constructor (maxSize: nat)
      ensures Valid() && fresh(buf)
      ensures this.maxSize == maxSize && Contents() == []
    {
      this.maxSize := maxSize;
      buf := new Packet[maxSize];
      start, len := 0, 0;
    }

    method ShiftInPlace(i: nat)
      requires Valid() && i < len < maxSize && start + len < buf.Length
      modifies this`len, buf
      ensures Valid() && len == old(len) + 1
      ensures Contents() == old(Contents()[..i + 1] + Contents()[i..])
    {
      ghost var was := buf[..];
      MoveUp(buf, start + i, start + len);
      assert buf[..][..start + i + 1] == buf[..start + i + 1] && was[..start + i + 1] == old(buf[..start + i + 1]);
      WindowMoved(was, buf[..], start, len, i);
      len := len + 1;
    }

    method ShiftRegrown(i: nat)
      requires Valid() && i < len < maxSize
      modifies this`len, this`buf, this`start
      ensures Valid() && fresh(buf) && len == old(len) + 1
      ensures Contents() == old(Contents()[..i + 1] + Contents()[i..])
    {
      buf := Regrown(buf, start, len, i + 1, i);
      start, len := 0, len + 1;
      assert Contents() == buf[..i + 1] + buf[i + 1..len];
    }

    // append(q.packets[:i+1], q.packets[i:]...): in place when the capacity allows, otherwise into a larger array.
    method DuplicateAt(i: nat)
      requires Valid() && i < len < maxSize
      modifies this, buf
      ensures Valid() && (buf == old(buf) || fresh(buf))
      ensures len == old(len) + 1
      ensures Contents() == old(Contents()[..i + 1] + Contents()[i..])
    {
      if start + len < buf.Length {
        ShiftInPlace(i);
      } else {
        ShiftRegrown(i);
      }
    }

    // Opens a gap at i and writes the packet into it.
    method PlaceAt(i: nat, pkt: Packet)
      requires Valid() && i < len < maxSize
      modifies this, buf
      ensures Valid() && (buf == old(buf) || fresh(buf))
      ensures Contents() == old(Contents()[..i] + [pkt] + Contents()[i..])
    {
      ghost var before := Contents();
      DuplicateAt(i);
      ghost var shifted := Contents();
      buf[start + i] := pkt;
      assert Contents() == shifted[i := pkt];
      assert shifted[i := pkt] == before[..i] + [pkt] + before[i..];
    }

    // append(q.packets, pkt)
    method Append(pkt: Packet)
      requires Valid() && len < maxSize
      modifies this, buf
      ensures Valid() && (buf == old(buf) || fresh(buf))
      ensures Contents() == old(Contents()) + [pkt]
    {
      if start + len == buf.Length {
        buf := Regrown(buf, start, len, len, len);
        start := 0;
      }
      buf[start + len] := pkt;
      len := len + 1;
    }

    // A full queue refuses; otherwise the packet, stamped with its hash and the time, goes behind
    // everything at least as urgent and before everything less urgent.
    method Push(pkt: Packet, sha: Bytes -> Bytes, now: int) returns (ok: bool)
      requires Valid()
      modifies this, buf
      ensures Valid() && (buf == old(buf) || fresh(buf))
      ensures ok <==> old(len) < maxSize
      ensures Contents()
           == if ok then Inserted(old(Contents()), PriorityOf, pkt.(id := sha(pkt.data), createdAt := now))
                            else old(Contents())
    {
      if len >= maxSize {
        return false;
      }
      var stamped := pkt.(id := sha(pkt.data), createdAt := now);
      ghost var before := Contents();
      for i := 0 to len
        invariant Valid() && len < maxSize && Contents() == before
        invariant buf == old(buf)
        invariant forall j :: 0 <= j < i ==> before[j].priority <= pkt.priority
      {
        if pkt.priority < buf[start + i].priority {
          assert buf[start + i] == before[i];
          SlotIs(before, PriorityOf, pkt.priority, i);
          PlaceAt(i, stamped);
          return true;
        }
        assert buf[start + i] == before[i];
      }
      SlotIs(before, PriorityOf, pkt.priority, |before|);
      Append(stamped);
      assert before[..|before|] + [stamped] + before[|before|..] == before + [stamped];
      return true;
    }

    method Pop() returns (r: Option<Packet>)
      requires Valid()
      modifies this
      ensures Valid() && buf == old(buf)
      ensures old(Contents()) == [] ==> r == None && Contents() == []
      ensures old(Contents()) != [] ==> r == Some(old(Contents())[0]) && Contents() == old(Contents())[1..]
    {
      if len == 0 {
        return None;
      }
      var pkt := buf[start];
      start, len := start + 1, len - 1;
      r := Some(pkt);
    }
  }

  lemma {:induction false} SlotIs<T>(q: seq<T>, rank: T -> Priority, r: Priority, k: nat)
    requires k <= |q|
    requires forall i :: 0 <= i < k ==> rank(q[i]) <= r
    requires k < |q| ==> r < rank(q[k])
    ensures Slot(q, rank, r) == k
  {
  }

  // ---------- Whole histories ----------

  datatype Op<T> = Push(x: T) | Pop

  datatype Reply<T> = Accepted | Full | Popped(x: T) | Empty

  function Step<T>(q: seq<T>, max: nat, rank: T -> Priority, op: Op<T>): (seq<T>, Reply<T>) {
    match op
    case Push(x) => if |q| >= max then (q, Full) else (Inserted(q, rank, x), Accepted)
    case Pop => if q == [] then (q, Empty) else (q[1..], Popped(q[0]))
  }

  function After<T>(q: seq<T>, max: nat, rank: T -> Priority, ops: seq<Op<T>>): seq<T>
    decreases |ops|
  {
    if ops == [] then q else After(Step(q, max, rank, ops[0]).0, max, rank, ops[1..])
  }

  function Replies<T>(q: seq<T>, max: nat, rank: T -> Priority, ops: seq<Op<T>>): (rs: seq<Reply<T>>)
    ensures |rs| == |ops|
    decreases |ops|
  {
    if ops == [] then [] else
    var (q', r) := Step(q, max, rank, ops[0]);
    [r] + Replies(q', max, rank, ops[1..])
  }

  // ---------- One FIFO per priority ----------

  // The reference machine keeps a separate FIFO for each of the 256 priorities.
  type Lanes<T> = seq<seq<T>>

  function Flatten<T>(lanes: Lanes<T>): seq<T> {
    if lanes == [] then [] else lanes[0] + Flatten(lanes[1..])
  }

  // Lane i holds packets of priority base + i only.
  ghost predicate Sorted<T>(lanes: Lanes<T>, rank: T -> Priority, base: nat) {
    forall i, x :: 0 <= i < |lanes| && x in lanes[i] ==> rank(x) == base + i
  }

  function FirstBusy<T>(lanes: Lanes<T>): (k: nat)
    ensures k <= |lanes|
    ensures forall i :: 0 <= i < k ==> lanes[i] == []
    ensures k < |lanes| ==> lanes[k] != []
  {
    if lanes == [] || lanes[0] != [] then 0 else 1 + FirstBusy(lanes[1..])
  }

  function LaneStep<T>(lanes: Lanes<T>, max: nat, rank: T -> Priority, op: Op<T>): (Lanes<T>, Reply<T>)
    requires |lanes| == 256
  {
    match op
    case Push(x) =>
      if |Flatten(lanes)| >= max then (lanes, Full) else (lanes[rank(x) := lanes[rank(x)] + [x]], Accepted)
    case Pop =>
      var k := FirstBusy(lanes);
      if k == |lanes| then (lanes, Empty) else (lanes[k := lanes[k][1..]], Popped(lanes[k][0]))
  }

  lemma {:induction false} FlattenRanks<T>(lanes: Lanes<T>, rank: T -> Priority, base: nat)
    requires Sorted(lanes, rank, base)
    ensures forall x :: x in Flatten(lanes) ==> base <= rank(x)
  {
    if lanes != [] {
      SortedTail(lanes, rank, base);
      HeadRanks(lanes, rank, base);
      FlattenRanks(lanes[1..], rank, base + 1);
    }
  }

  lemma {:induction false} SlotBehind<T>(head: seq<T>, rest: seq<T>, rank: T -> Priority, r: Priority)
    requires forall y :: y in head ==> rank(y) <= r
    ensures Slot(head + rest, rank, r) == |head| + Slot(rest, rank, r)
  {
    if head == [] {
      assert head + rest == rest;
    } else {
      assert head[0] in head;
      assert (head + rest)[1..] == head[1..] + rest;
      SlotBehind(head[1..], rest, rank, r);
    }
  }

  lemma InsertedBetween<T>(head: seq<T>, rest: seq<T>, rank: T -> Priority, x: T)
    requires forall y :: y in head ==> rank(y) <= rank(x)
    ensures Inserted(head + rest, rank, x) == head + Inserted(rest, rank, x)
  {
    var k := Slot(rest, rank, rank(x));
    SlotBehind(head, rest, rank, rank(x));
    SplitBehind(head, rest, k);
    Regrouped(head, rest[..k], [x], rest[k..]);
  }

  lemma Regrouped<T>(a: seq<T>, b: seq<T>, c: seq<T>, d: seq<T>)
    ensures (a + b) + c + d == a + (b + c + d)
  {
  }

  lemma SplitBehind<T>(head: seq<T>, rest: seq<T>, k: nat)
    requires k <= |rest|
    ensures (head + rest)[..|head| + k] == head + rest[..k] && (head + rest)[|head| + k..] == rest[k..]
  {
  }

  lemma SortedTail<T>(lanes: Lanes<T>, rank: T -> Priority, base: nat)
    requires lanes != [] && Sorted(lanes, rank, base)
    ensures Sorted(lanes[1..], rank, base + 1)
  {
  }

  lemma InsertedFirst<T>(rest: seq<T>, rank: T -> Priority, x: T)
    requires forall y :: y in rest ==> rank(x) < rank(y)
    ensures Inserted(rest, rank, x) == [x] + rest
  {
  }

  lemma FlattenPushHead<T>(lanes: Lanes<T>, rank: T -> Priority, base: nat, x: T)
    requires lanes != [] && Sorted(lanes, rank, base) && rank(x) == base
    ensures Flatten(lanes[0 := lanes[0] + [x]]) == Inserted(Flatten(lanes), rank, x)
  {
    var head, rest := lanes[0], Flatten(lanes[1..]);
    assert Inserted(rest, rank, x) == [x] + rest by {
      SortedTail(lanes, rank, base);
      FlattenRanks(lanes[1..], rank, base + 1);
      InsertedFirst(rest, rank, x);
    }
    HeadRanks(lanes, rank, base);
    InsertedBetween(head, rest, rank, x);
    FlattenReplaced(lanes, head + [x]);
    assert (head + [x]) + rest == head + ([x] + rest);
  }

  lemma HeadRanks<T>(lanes: Lanes<T>, rank: T -> Priority, base: nat)
    requires lanes != [] && Sorted(lanes, rank, base)
    ensures forall y :: y in lanes[0] ==> rank(y) == base
  {
  }

  lemma FlattenReplaced<T>(lanes: Lanes<T>, lane: seq<T>)
    requires lanes != []
    ensures Flatten(lanes[0 := lane]) == lane + Flatten(lanes[1..])
  {
  }

  // Appending to the FIFO of its priority is inserting into the one queue.
  lemma {:induction false} FlattenPush<T>(lanes: Lanes<T>, rank: T -> Priority, base: nat, x: T)
    requires Sorted(lanes, rank, base)
    requires base <= rank(x) < base + |lanes|
    ensures var j := rank(x) - base; Flatten(lanes[j := lanes[j] + [x]]) == Inserted(Flatten(lanes), rank, x)
  {
    var j := rank(x) - base;
    if j == 0 {
      FlattenPushHead(lanes, rank, base, x);
    } else {
      SortedTail(lanes, rank, base);
      FlattenPush(lanes[1..], rank, base + 1, x);
      HeadRanks(lanes, rank, base);
      InsertedBetween(lanes[0], Flatten(lanes[1..]), rank, x);
      assert lanes[j := lanes[j] + [x]][1..] == lanes[1..][j - 1 := lanes[1..][j - 1] + [x]];
    }
  }

  lemma {:induction false} FlattenPop<T>(lanes: Lanes<T>)
    ensures var k := FirstBusy(lanes);
      && (k == |lanes| <==> Flatten(lanes) == [])
      && (k < |lanes| ==> Flatten(lanes)[0] == lanes[k][0] && Flatten(lanes[k := lanes[k][1..]]) == Flatten(lanes)[1..])
  {
    if lanes != [] {
      var k := FirstBusy(lanes);
      if lanes[0] == [] {
        FlattenPop(lanes[1..]);
        if k < |lanes| {
          assert lanes[k := lanes[k][1..]][1..] == lanes[1..][k - 1 := lanes[1..][k - 1][1..]];
        }
      } else {
        assert lanes[0 := lanes[0][1..]][1..] == lanes[1..];
      }
    }
  }

  lemma LanePushRefines<T>(lanes: Lanes<T>, max: nat, rank: T -> Priority, x: T)
    requires |lanes| == 256 && Sorted(lanes, rank, 0)
    ensures var (lanes', r) := LaneStep(lanes, max, rank, Push(x));
      && |lanes'| == 256 && Sorted(lanes', rank, 0)
      && Step(Flatten(lanes), max, rank, Push(x)) == (Flatten(lanes'), r)
  {
    FlattenPush(lanes, rank, 0, x);
    var lanes' := lanes[rank(x) := lanes[rank(x)] + [x]];
    forall i, y | 0 <= i < |lanes| && y in lanes'[i]
      ensures rank(y) == 0 + i
    {
      assert y == x || y in lanes[i];
    }
  }

  lemma LanePopRefines<T>(lanes: Lanes<T>, max: nat, rank: T -> Priority)
    requires |lanes| == 256 && Sorted(lanes, rank, 0)
    ensures var (lanes', r) := LaneStep(lanes, max, rank, Pop);
      && |lanes'| == 256 && Sorted(lanes', rank, 0)
      && Step(Flatten(lanes), max, rank, Pop) == (Flatten(lanes'), r)
  {
    FlattenPop(lanes);
    var k := FirstBusy(lanes);
    if k < |lanes| {
      var lanes' := lanes[k := lanes[k][1..]];
      forall i, y | 0 <= i < |lanes| && y in lanes'[i]
        ensures rank(y) == 0 + i
      {
        assert y in lanes[i];
      }
    }
  }

  lemma LaneStepRefines<T>(lanes: Lanes<T>, max: nat, rank: T -> Priority, op: Op<T>)
    requires |lanes| == 256 && Sorted(lanes, rank, 0)
    ensures var (lanes', r) := LaneStep(lanes, max, rank, op);
      && |lanes'| == 256 && Sorted(lanes', rank, 0)
      && Step(Flatten(lanes), max, rank, op) == (Flatten(lanes'), r)
  {
    match op
    case Push(x) => LanePushRefines(lanes, max, rank, x);
    case Pop => LanePopRefines(lanes, max, rank);
  }

  function LanesAfter<T>(lanes: Lanes<T>, max: nat, rank: T -> Priority, ops: seq<Op<T>>): Lanes<T>
    requires |lanes| == 256
    decreases |ops|
  {
    if ops == [] then lanes else LanesAfter(LaneStep(lanes, max, rank, ops[0]).0, max, rank, ops[1..])
  }

  function LaneReplies<T>(lanes: Lanes<T>, max: nat, rank: T -> Priority, ops: seq<Op<T>>): seq<Reply<T>>
    requires |lanes| == 256
    decreases |ops|
  {
    if ops == [] then [] else
    var (lanes', r) := LaneStep(lanes, max, rank, ops[0]);
    [r] + LaneReplies(lanes', max, rank, ops[1..])
  }

  // Over any history the queue is the concatenation, by priority, of the FIFOs, and answers as they do.
  lemma {:induction false} QueueIsFifoPerPriority<T>(lanes: Lanes<T>, max: nat, rank: T -> Priority, ops: seq<Op<T>>)
    requires |lanes| == 256 && Sorted(lanes, rank, 0)
    ensures After(Flatten(lanes), max, rank, ops) == Flatten(LanesAfter(lanes, max, rank, ops))
    ensures Replies(Flatten(lanes), max, rank, ops) == LaneReplies(lanes, max, rank, ops)
    decreases |ops|
  {
    if ops != [] {
      LaneStepRefines(lanes, max, rank, ops[0]);
      QueueIsFifoPerPriority(LaneStep(lanes, max, rank, ops[0]).0, max, rank, ops[1..]);
    }
  }

  // ---------- Conservation ----------

  function Accepts<T>(q: seq<T>, max: nat, op: Op<T>): multiset<T> {
    if op.Push? && |q| < max then multiset{op.x} else multiset{}
  }

  function Gives<T>(r: Reply<T>): multiset<T> {
    if r.Popped? then multiset{r.x} else multiset{}
  }

  lemma InsertedMultiset<T>(q: seq<T>, rank: T -> Priority, x: T)
    ensures multiset(Inserted(q, rank, x)) == multiset(q) + multiset{x}
  {
    var k := Slot(q, rank, rank(x));
    assert q == q[..k] + q[k..];
  }

  lemma StepConserves<T>(q: seq<T>, max: nat, rank: T -> Priority, op: Op<T>)
    ensures var (q', r) := Step(q, max, rank, op); multiset(q') + Gives(r) == multiset(q) + Accepts(q, max, op)
  {
    if op.Push? {
      InsertedMultiset(q, rank, op.x);
    } else if q != [] {
      assert q == [q[0]] + q[1..];
    }
  }

  function AllAccepted<T>(q: seq<T>, max: nat, rank: T -> Priority, ops: seq<Op<T>>): multiset<T>
    decreases |ops|
  {
    if ops == [] then multiset{}
    else Accepts(q, max, ops[0]) + AllAccepted(Step(q, max, rank, ops[0]).0, max, rank, ops[1..])
  }

  function AllGiven<T>(rs: seq<Reply<T>>): multiset<T> {
    if rs == [] then multiset{} else Gives(rs[0]) + AllGiven(rs[1..])
  }

  lemma Regroup<T>(q: multiset<T>, a: multiset<T>, q': multiset<T>, g: multiset<T>, b: multiset<T>, f: multiset<T>,
          h: multiset<T>)
    requires q' + g == q + a && f + h == q' + b
    ensures f + (g + h) == q + (a + b)
  {
    assert f + (g + h) == (f + h) + g == (q' + g) + b;
  }

  // Nothing is lost, duplicated or over capacity.
  lemma {:induction false} QueueConserves<T>(q: seq<T>, max: nat, rank: T -> Priority, ops: seq<Op<T>>)
    requires |q| <= max
    ensures |After(q, max, rank, ops)| <= max
    ensures multiset(After(q, max, rank, ops)) + AllGiven(Replies(q, max, rank, ops))
         == multiset(q) + AllAccepted(q, max, rank, ops)
    decreases |ops|
  {
    if ops != [] {
      var (q', r) := Step(q, max, rank, ops[0]);
      StepConserves(q, max, rank, ops[0]);
      QueueConserves(q', max, rank, ops[1..]);
      var later := Replies(q', max, rank, ops[1..]);
      assert ([r] + later)[1..] == later;
      Regroup(multiset(q), Accepts(q, max, ops[0]), multiset(q'), Gives(r),
              AllAccepted(q', max, rank, ops[1..]), multiset(After(q', max, rank, ops[1..])), AllGiven(later));
    }
  }

  // ---------- The exact service position ----------

  function PopCount<T>(ops: seq<Op<T>>): nat {
    if ops == [] then 0 else (if ops[0].Pop? then 1 else 0) + PopCount(ops[1..])
  }

  predicate Overtakes<T>(q: seq<T>, max: nat, rank: T -> Priority, r: Priority, op: Op<T>) {
    op.Push? && |q| < max && rank(op.x) < r
  }

  // Accepted pushes strictly more urgent than r.
  function UrgentCount<T>(q: seq<T>, max: nat, rank: T -> Priority, r: Priority, ops: seq<Op<T>>): nat
    decreases |ops|
  {
    if ops == [] then 0 else
    var now := if Overtakes(q, max, rank, r, ops[0]) then 1 else 0;
    now + UrgentCount(Step(q, max, rank, ops[0]).0, max, rank, r, ops[1..])
  }

  ghost predicate Ordered<T>(q: seq<T>, rank: T -> Priority) {
    forall i, j :: 0 <= i < j < |q| ==> rank(q[i]) <= rank(q[j])
  }

  ghost predicate OnlyAt<T>(q: seq<T>, x: T, k: nat) {
    k < |q| && q[k] == x && forall i :: 0 <= i < |q| && i != k ==> q[i] != x
  }

  // At none of the first m operations have the pops caught up with a packet that had k ahead of it.
  ghost predicate Waiting<T>(q: seq<T>, max: nat, rank: T -> Priority, r: Priority, k: nat, ops: seq<Op<T>>, m: nat)
    requires m <= |ops|
  {
    forall l :: 0 <= l <= m ==> PopCount(ops[..l]) <= k + UrgentCount(q, max, rank, r, ops[..l])
  }

  lemma StepOrdered<T>(q: seq<T>, max: nat, rank: T -> Priority, op: Op<T>)
    requires Ordered(q, rank)
    ensures Ordered(Step(q, max, rank, op).0, rank)
  {
    if op.Push? && |q| < max {
      InsertedOrdered(q, rank, op.x);
    }
  }

  lemma InsertedOrdered<T>(q: seq<T>, rank: T -> Priority, x: T)
    requires Ordered(q, rank)
    ensures Ordered(Inserted(q, rank, x), rank)
  {
  }

  lemma InsertedOnlyAt<T>(q: seq<T>, rank: T -> Priority, x: T)
    requires x !in q
    ensures OnlyAt(Inserted(q, rank, x), x, Slot(q, rank, rank(x)))
  {
  }

  // One operation on a waiting packet: an overtaking push puts one more ahead of it, a pop one fewer.
  lemma StepMoves<T>(q: seq<T>, max: nat, rank: T -> Priority, op: Op<T>, x: T, k: nat)
    requires Ordered(q, rank) && OnlyAt(q, x, k) && op != Push(x)
    ensures op.Pop? && k == 0 ==> Step(q, max, rank, op).1 == Popped(x) && x !in Step(q, max, rank, op).0
    ensures op.Pop? && k > 0 ==> Step(q, max, rank, op).1 != Popped(x) && OnlyAt(Step(q, max, rank, op).0, x, k - 1)
    ensures op.Push? ==> OnlyAt(Step(q, max, rank, op).0, x, if Overtakes(q, max, rank, rank(x), op) then k + 1 else k)
  {
    if op.Pop? {
      if k == 0 {
        assert forall i :: 0 <= i < |q[1..]| ==> q[1..][i] == q[i + 1];
      }
    } else if |q| < max {
      var s := Slot(q, rank, rank(op.x));
      var q' := Inserted(q, rank, op.x);
      assert forall i :: 0 <= i < |q'| ==> q'[i] == if i < s then q[i] else if i == s then op.x else q[i - 1];
      assert rank(op.x) < rank(x) <==> s <= k;
    }
  }

  lemma {:induction false} NeverPopped<T>(q: seq<T>, max: nat, rank: T -> Priority, ops: seq<Op<T>>, x: T, m: nat)
    requires x !in q && Push(x) !in ops && m < |ops|
    ensures Replies(q, max, rank, ops)[m] != Popped(x)
    decreases |ops|
  {
    if m > 0 {
      var q' := Step(q, max, rank, ops[0]).0;
      assert x !in q' by {
        if ops[0].Push? && |q| < max {
          var s := Slot(q, rank, rank(ops[0].x));
          assert q == q[..s] + q[s..];
        }
      }
      NeverPopped(q', max, rank, ops[1..], x, m - 1);
    }
  }

  lemma CountsOfPrefix<T>(q: seq<T>, max: nat, rank: T -> Priority, r: Priority, ops: seq<Op<T>>, l: nat)
    requires l < |ops|
    ensures PopCount(ops[..l + 1]) == (if ops[0].Pop? then 1 else 0) + PopCount(ops[1..][..l])
    ensures UrgentCount(q, max, rank, r, ops[..l + 1])
         == (if Overtakes(q, max, rank, r, ops[0]) then 1 else 0)
          + UrgentCount(Step(q, max, rank, ops[0]).0, max, rank, r, ops[1..][..l])
  {
    assert ops[..l + 1][1..] == ops[1..][..l];
  }

  lemma WaitingStep<T>(q: seq<T>, max: nat, rank: T -> Priority, r: Priority, k: nat, ops: seq<Op<T>>, m: nat)
    requires 0 < m <= |ops|
    requires k > 0 || ops[0].Push?
    ensures var k' := if ops[0].Pop? then k - 1 else if Overtakes(q, max, rank, r, ops[0]) then k + 1 else k;
      Waiting(q, max, rank, r, k, ops, m)
      <==> Waiting(Step(q, max, rank, ops[0]).0, max, rank, r, k', ops[1..], m - 1)
  {
    var k' := if ops[0].Pop? then k - 1 else if Overtakes(q, max, rank, r, ops[0]) then k + 1 else k;
    var q' := Step(q, max, rank, ops[0]).0;
    forall l | 0 <= l < m
      ensures PopCount(ops[..l + 1]) <= k + UrgentCount(q, max, rank, r, ops[..l + 1])
         <==> PopCount(ops[1..][..l]) <= k' + UrgentCount(q', max, rank, r, ops[1..][..l])
    {
      CountsOfPrefix(q, max, rank, r, ops, l);
    }
    if Waiting(q', max, rank, r, k', ops[1..], m - 1) {
      forall l | 0 <= l <= m
        ensures PopCount(ops[..l]) <= k + UrgentCount(q, max, rank, r, ops[..l])
      {
        if l > 0 {
          assert PopCount(ops[1..][..l - 1]) <= k' + UrgentCount(q', max, rank, r, ops[1..][..l - 1]);
          assert ops[..(l - 1) + 1] == ops[..l];
        }
      }
    }
    if Waiting(q, max, rank, r, k, ops, m) {
      forall l | 0 <= l <= m - 1
        ensures PopCount(ops[1..][..l]) <= k' + UrgentCount(q', max, rank, r, ops[1..][..l])
      {
        assert PopCount(ops[..l + 1]) <= k + UrgentCount(q, max, rank, r, ops[..l + 1]);
      }
    }
  }

  // A packet with k ahead of it is returned by the m-th operation exactly when the pops up to and including it
  // are k + 1 plus the strictly more urgent pushes accepted so far, for the first time.
  lemma {:induction false} ServedByExactPop<T>(q: seq<T>, max: nat, rank: T -> Priority, x: T, k: nat,
          ops: seq<Op<T>>, m: nat)
    requires Ordered(q, rank) && OnlyAt(q, x, k) && Push(x) !in ops && m < |ops|
    ensures Replies(q, max, rank, ops)[m] == Popped(x)
       <==> PopCount(ops[..m + 1]) == k + 1 + UrgentCount(q, max, rank, rank(x), ops[..m + 1])
            && Waiting(q, max, rank, rank(x), k, ops, m)
    decreases |ops|
  {
    var op, r := ops[0], rank(x);
    var q' := Step(q, max, rank, op).0;
    StepOrdered(q, max, rank, op);
    StepMoves(q, max, rank, op, x, k);
    CountsOfPrefix(q, max, rank, r, ops, m);
    assert Replies(q, max, rank, ops)[0] == Step(q, max, rank, op).1;
    if m == 0 {
      assert ops[1..][..0] == [] && ops[..0] == [];
    } else if op.Pop? && k == 0 {
      NeverPopped(q', max, rank, ops[1..], x, m - 1);
      CountsOfPrefix(q, max, rank, r, ops, 0);
      assert ops[1..][..0] == [];
      assert PopCount(ops[..0 + 1]) > k + UrgentCount(q, max, rank, r, ops[..0 + 1]);
    } else {
      var k' := if op.Pop? then k - 1 else if Overtakes(q, max, rank, r, op) then k + 1 else k;
      ServedByExactPop(q', max, rank, x, k', ops[1..], m - 1);
      WaitingStep(q, max, rank, r, k, ops, m);
    }
  }

  // ---------- The same for every history of pushes and pops from the empty queue ----------

  // Every push gets its own serial number, so equal packets stay apart.
  datatype Tagged = Tagged(serial: nat, packet: Packet)

  function TagRank(t: Tagged): Priority {
    t.packet.priority
  }

  function Tag(ops: seq<Op<Packet>>): seq<Op<Tagged>> {
    seq(|ops|, i requires 0 <= i < |ops| => if ops[i].Push? then Push(Tagged(i, ops[i].x)) else Pop)
  }

  function Untag(q: seq<Tagged>): seq<Packet> {
    seq(|q|, i requires 0 <= i < |q| => q[i].packet)
  }

  function UntagReply(r: Reply<Tagged>): Reply<Packet> {
    match r
    case Accepted => Accepted
    case Full => Full
    case Popped(t) => Popped(t.packet)
    case Empty => Empty
  }

  function UntagOp(op: Op<Tagged>): Op<Packet> {
    if op.Push? then Push(op.x.packet) else Pop
  }

  lemma UntagSlot(q: seq<Tagged>, r: Priority)
    ensures Slot(Untag(q), PriorityOf, r) == Slot(q, TagRank, r)
  {
    var k := Slot(q, TagRank, r);
    assert forall i :: 0 <= i < |q| ==> PriorityOf(Untag(q)[i]) == TagRank(q[i]);
    SlotIs(Untag(q), PriorityOf, r, k);
  }

  lemma UntagInserted(q: seq<Tagged>, x: Tagged)
    ensures Untag(Inserted(q, TagRank, x)) == Inserted(Untag(q), PriorityOf, x.packet)
  {
    UntagSlot(q, x.packet.priority);
    InsertedAt(q, TagRank, x);
    InsertedAt(Untag(q), PriorityOf, x.packet);
    var u, v := Untag(Inserted(q, TagRank, x)), Inserted(Untag(q), PriorityOf, x.packet);
    forall i | 0 <= i < |u|
      ensures u[i] == v[i]
    {
    }
  }

  lemma UntagStep(q: seq<Tagged>, max: nat, op: Op<Tagged>)
    ensures Untag(Step(q, max, TagRank, op).0) == Step(Untag(q), max, PriorityOf, UntagOp(op)).0
    ensures UntagReply(Step(q, max, TagRank, op).1) == Step(Untag(q), max, PriorityOf, UntagOp(op)).1
  {
    if op.Push? {
      UntagInserted(q, op.x);
    } else if q != [] {
      assert Untag(q[1..]) == Untag(q)[1..];
    }
  }

  // Tags change nothing: untagged, the tagged run is the run.
  lemma {:induction false} TagsAreInvisible(q: seq<Tagged>, max: nat, ops: seq<Op<Tagged>>, m: nat)
    requires m < |ops|
    ensures var plain := seq(|ops|, i requires 0 <= i < |ops| => UntagOp(ops[i]));
      Replies(Untag(q), max, PriorityOf, plain)[m] == UntagReply(Replies(q, max, TagRank, ops)[m])
    decreases |ops|
  {
    var plain := seq(|ops|, i requires 0 <= i < |ops| => UntagOp(ops[i]));
    UntagStep(q, max, ops[0]);
    if m > 0 {
      TagsAreInvisible(Step(q, max, TagRank, ops[0]).0, max, ops[1..], m - 1);
      assert plain[1..] == seq(|ops[1..]|, i requires 0 <= i < |ops[1..]| => UntagOp(ops[1..][i]));
    }
  }

  // After the operations of a history up to a, the queue is ordered and holds serials below a only.
  lemma {:induction false} SerialsBelow(max: nat, ops: seq<Op<Packet>>, a: nat)
    requires a <= |ops|
    ensures var q := After([], max, TagRank, Tag(ops)[..a]);
      Ordered(q, TagRank) && forall t :: t in q ==> t.serial < a
  {
    if a > 0 {
      SerialsBelow(max, ops, a - 1);
      var t := Tag(ops);
      var q, op := After([], max, TagRank, t[..a - 1]), t[a - 1];
      AfterAppend([], max, TagRank, t[..a - 1], op);
      assert t[..a] == t[..a - 1] + [op];
      StepOrdered(q, max, TagRank, op);
      if op.Push? {
        InsertedMembers(q, TagRank, op.x);
      }
    }
  }

  lemma InsertedMembers<T>(q: seq<T>, rank: T -> Priority, x: T)
    ensures forall y :: y in Inserted(q, rank, x) ==> y == x || y in q
  {
    var k := Slot(q, rank, rank(x));
    assert q == q[..k] + q[k..];
  }

  lemma {:induction false} AfterAppend<T>(q: seq<T>, max: nat, rank: T -> Priority, ops: seq<Op<T>>, op: Op<T>)
    ensures After(q, max, rank, ops + [op]) == Step(After(q, max, rank, ops), max, rank, op).0
    decreases |ops|
  {
    if ops != [] {
      assert (ops + [op])[1..] == ops[1..] + [op];
      AfterAppend(Step(q, max, rank, ops[0]).0, max, rank, ops[1..], op);
    }
  }

  lemma {:induction false} RepliesSuffix<T>(q: seq<T>, max: nat, rank: T -> Priority, ops: seq<Op<T>>, a: nat)
    requires a <= |ops|
    ensures Replies(q, max, rank, ops)[a..] == Replies(After(q, max, rank, ops[..a]), max, rank, ops[a..])
    decreases |ops|
  {
    if a > 0 {
      RepliesSuffix(Step(q, max, rank, ops[0]).0, max, rank, ops[1..], a - 1);
      assert ops[..a][1..] == ops[1..][..a - 1];
    }
  }

  // Just after an accepted push, its packet is at its slot and nowhere else.
  lemma PushedOnce(max: nat, ops: seq<Op<Packet>>, a: nat)
    requires a < |ops| && ops[a].Push?
    requires |After([], max, TagRank, Tag(ops)[..a])| < max
    ensures var before := After([], max, TagRank, Tag(ops)[..a]);
      var x := Tagged(a, ops[a].x);
      var q := After([], max, TagRank, Tag(ops)[..a + 1]);
      && q == Inserted(before, TagRank, x)
      && Ordered(q, TagRank)
      && OnlyAt(q, x, Slot(before, TagRank, TagRank(x)))
  {
    var t := Tag(ops);
    var before, x := After([], max, TagRank, t[..a]), Tagged(a, ops[a].x);
    SerialsBelow(max, ops, a);
    StepOrdered(before, max, TagRank, t[a]);
    AfterAppend([], max, TagRank, t[..a], t[a]);
    assert t[..a + 1] == t[..a] + [t[a]];
    InsertedOnlyAt(before, TagRank, x);
  }

  // The untagged queue returns the packet of the tagged reply.
  lemma PlainReply(max: nat, ops: seq<Op<Packet>>, m: nat)
    requires m < |ops|
    ensures Replies([], max, PriorityOf, ops)[m] == UntagReply(Replies([], max, TagRank, Tag(ops))[m])
  {
    var t := Tag(ops);
    TagsAreInvisible([], max, t, m);
    assert Untag([]) == [];
    assert ops == seq(|t|, i requires 0 <= i < |t| => UntagOp(t[i]));
  }

  lemma ReplyAfter<T>(q: seq<T>, max: nat, rank: T -> Priority, ops: seq<Op<T>>, a: nat, m: nat)
    requires a <= m < |ops|
    ensures Replies(q, max, rank, ops)[m] == Replies(After(q, max, rank, ops[..a]), max, rank, ops[a..])[m - a]
  {
    RepliesSuffix(q, max, rank, ops, a);
    assert Replies(q, max, rank, ops)[m] == Replies(q, max, rank, ops)[a..][m - a];
  }

  lemma TagsAreFresh(ops: seq<Op<Packet>>, a: nat, x: Tagged)
    requires a < |ops| && x.serial == a
    ensures Push(x) !in Tag(ops)[a + 1..]
  {
    var later := Tag(ops)[a + 1..];
    forall i | 0 <= i < |later|
      ensures later[i] != Push(x)
    {
      assert later[i] == Tag(ops)[a + 1 + i];
    }
  }

  // The main result. In any history from the empty queue, let push a be accepted with p packets ahead of it.
  // A later operation m returns that very packet exactly when, counted from just after the push, it is the
  // pop numbered p + 1 + u, u being the accepted pushes of strictly more urgent packets meanwhile.
  lemma ServicePosition(max: nat, ops: seq<Op<Packet>>, a: nat, m: nat)
    requires a < m < |ops| && ops[a].Push?
    requires |After([], max, TagRank, Tag(ops)[..a])| < max
    ensures var r := ops[a].x.priority;
      var p := Slot(After([], max, TagRank, Tag(ops)[..a]), TagRank, r);
      var q := After([], max, TagRank, Tag(ops)[..a + 1]);
      var later := Tag(ops)[a + 1..];
      Replies([], max, TagRank, Tag(ops))[m] == Popped(Tagged(a, ops[a].x))
      <==> PopCount(later[..m - a]) == p + 1 + UrgentCount(q, max, TagRank, r, later[..m - a])
           && Waiting(q, max, TagRank, r, p, later, m - a - 1)
    ensures Replies([], max, TagRank, Tag(ops))[m] == Popped(Tagged(a, ops[a].x))
      ==> Replies([], max, PriorityOf, ops)[m] == Popped(ops[a].x)
  {
    PlainReply(max, ops, m);
    var t, x := Tag(ops), Tagged(a, ops[a].x);
    var p := Slot(After([], max, TagRank, t[..a]), TagRank, TagRank(x));
    var q, later := After([], max, TagRank, t[..a + 1]), t[a + 1..];
    PushedOnce(max, ops, a);
    ReplyAfter([], max, TagRank, t, a + 1, m);
    TagsAreFresh(ops, a, x);
    ServedByExactPop(q, max, TagRank, x, p, later, m - a - 1);
    assert later[..m - a - 1 + 1] == later[..m - a];
  }
}
