// The expiring key/value store of pkg/dht/store.go and the FIND_VALUE handler over it. time.Now() is a clock argument.
module ValueStore {
  import opened Prelude
  import opened Keys
  import opened RoutingTable

  const DAY := 24 * 60 * 60 * 1_000_000_000  // in nanoseconds

  datatype Value = Value(data: Bytes, signature: Bytes, ttl: int, storedAt: int, expiresAt: int)

  type Values = map<Key, Value>

  function Stamped(data: Bytes, signature: Bytes, ttl: int, now: int): Value {
    Value(data, signature, ttl, now, now + ttl)
  }

  predicate Expired(v: Value, now: int) {
    now > v.expiresAt
  }

  function Lookup(m: Values, key: Key, now: int): Option<Value> {
    if key in m && !Expired(m[key], now) then Some(m[key]) else None
  }

  function Cleaned(m: Values, now: int): Values {
    map k | k in m && !Expired(m[k], now) :: m[k]
  }

  class Store {
    var values: Values

    constructor ()
      ensures values == map[]
    {
      values := map[];
    }

    method Put(key: Key, data: Bytes, signature: Bytes, ttl: int, now: int)
      modifies this
      ensures values == old(values)[key := Stamped(data, signature, ttl, now)]
    {
      values := values[key := Value(data, signature, ttl, now, now + ttl)];
    }

    method Get(key: Key, now: int) returns (r: Option<Value>)
      ensures r == Lookup(values, key, now)
    {
      if key !in values {
        return None;
      }
      var val := values[key];
      if now > val.expiresAt {
        return None;
      }
      return Some(val);
    }

    method Delete(key: Key)
      modifies this
      ensures values == old(values) - {key}
    {
      values := values - {key};
    }

    // Visits the keys in any order.
    method Cleanup(now: int) returns (removed: nat)
      modifies this
      ensures values == Cleaned(old(values), now)
      ensures removed == |old(values)| - |values|
    {
      removed := 0;
      var keys := values.Keys;
      while keys != {}
        invariant keys <= values.Keys <= old(values).Keys
        invariant forall k :: k in values ==> values[k] == old(values)[k]
        invariant forall k :: k in values && k !in keys ==> !Expired(values[k], now)
        invariant forall k :: k in old(values) && k !in values ==> Expired(old(values)[k], now)
        invariant removed == |old(values)| - |values|
        decreases keys
      {
        var key :| key in keys;
        keys := keys - {key};
        if now > values[key].expiresAt {
          ghost var before := values;
          values := values - {key};
          assert before.Keys == values.Keys + {key};
          assert |before| == |before.Keys| && |values| == |values.Keys|;
          removed := removed + 1;
        }
      }
    }
  }

  // ---------- Whole histories ----------

  datatype Op =
    | Put(key: Key, data: Bytes, signature: Bytes, ttl: int, now: int)
    | Delete(key: Key)
    | Cleanup(now: int)

  function Applied(m: Values, op: Op): Values {
    match op
    case Put(key, data, signature, ttl, now) => m[key := Stamped(data, signature, ttl, now)]
    case Delete(key) => m - {key}
    case Cleanup(now) => Cleaned(m, now)
  }

  function After(ops: seq<Op>): Values {
    if ops == [] then map[] else Applied(After(ops[..|ops| - 1]), ops[|ops| - 1])
  }

  // What a log that is never cleaned answers: the latest Put not deleted since, if it has not expired.
  function LogAnswer(ops: seq<Op>, key: Key, now: int): Option<Value> {
    if ops == [] then None else
    var before, last := ops[..|ops| - 1], ops[|ops| - 1];
    if last.Put? && last.key == key then
      var v := Stamped(last.data, last.signature, last.ttl, last.now);
      if Expired(v, now) then None else Some(v)
    else if last.Delete? && last.key == key then None
    else LogAnswer(before, key, now)
  }

  // The clock readings of a history never go back, and end by the given time.
  predicate Clocked(ops: seq<Op>, until: int) {
    ops == [] ||
    var before, last := ops[..|ops| - 1], ops[|ops| - 1];
    if last.Delete? then Clocked(before, until) else last.now <= until && Clocked(before, last.now)
  }

  lemma {:induction false} ClockedLater(ops: seq<Op>, t: int, u: int)
    requires Clocked(ops, t) && t <= u
    ensures Clocked(ops, u)
  {
    if ops != [] && ops[|ops| - 1].Delete? {
      ClockedLater(ops[..|ops| - 1], t, u);
    }
  }

  // Over any history with a clock that never goes back, Get answers as the log does.
  lemma {:induction false} GetAnswersTheLog(ops: seq<Op>, key: Key, now: int)
    requires Clocked(ops, now)
    ensures Lookup(After(ops), key, now) == LogAnswer(ops, key, now)
  {
    if ops != [] {
      var before, last := ops[..|ops| - 1], ops[|ops| - 1];
      if !last.Delete? {
        ClockedLater(before, last.now, now);
      }
      GetAnswersTheLog(before, key, now);
    }
  }

  function WithoutCleanups(ops: seq<Op>): seq<Op> {
    if ops == [] then [] else
    var before, last := WithoutCleanups(ops[..|ops| - 1]), ops[|ops| - 1];
    if last.Cleanup? then before else before + [last]
  }

  lemma {:induction false} LogIgnoresCleanups(ops: seq<Op>, key: Key, now: int)
    ensures LogAnswer(WithoutCleanups(ops), key, now) == LogAnswer(ops, key, now)
  {
    if ops != [] {
      LogIgnoresCleanups(ops[..|ops| - 1], key, now);
      var before, last := WithoutCleanups(ops[..|ops| - 1]), ops[|ops| - 1];
      if !last.Cleanup? {
        assert (before + [last])[..|before|] == before;
      }
    }
  }

  // Histories that differ only in their Cleanup calls cannot be told apart by Get.
  lemma CleanupsAreUnobservable(p: seq<Op>, q: seq<Op>, key: Key, now: int)
    requires Clocked(p, now) && Clocked(q, now)
    requires WithoutCleanups(p) == WithoutCleanups(q)
    ensures Lookup(After(p), key, now) == Lookup(After(q), key, now)
  {
    GetAnswersTheLog(p, key, now);
    GetAnswersTheLog(q, key, now);
    LogIgnoresCleanups(p, key, now);
    LogIgnoresCleanups(q, key, now);
  }

  // Operation i puts the key, and none after it puts or deletes it.
  predicate IsLastPut(ops: seq<Op>, key: Key, i: nat) {
    && i < |ops| && ops[i].Put? && ops[i].key == key
    && forall j :: i < j < |ops| ==> ops[j] != Delete(key) && !(ops[j].Put? && ops[j].key == key)
  }

  // The value was put by operation i and is still live: up to and including its time plus its ttl.
  predicate LivesFrom(ops: seq<Op>, key: Key, i: nat, now: int, v: Value) {
    && IsLastPut(ops, key, i) && now <= ops[i].now + ops[i].ttl
    && v == Value(ops[i].data, ops[i].signature, ops[i].ttl, ops[i].now, ops[i].now + ops[i].ttl)
  }

  lemma {:induction false} LogIsTheLastPut(ops: seq<Op>, key: Key, now: int, v: Value)
    ensures LogAnswer(ops, key, now) == Some(v) <==> exists i :: LivesFrom(ops, key, i, now, v)
  {
    if ops != [] {
      var n := |ops| - 1;
      var before, last := ops[..n], ops[n];
      LogIsTheLastPut(before, key, now, v);
      if last == Delete(key) || (last.Put? && last.key == key) {
        assert LivesFrom(ops, key, n, now, v) <==> LogAnswer(ops, key, now) == Some(v);
        assert forall i: nat :: i < n ==> !IsLastPut(ops, key, i);
      } else {
        forall i: nat
          ensures LivesFrom(ops, key, i, now, v) <==> LivesFrom(before, key, i, now, v)
        {
        }
      }
    }
  }

  // The main result about what is answered: over any history with a clock that never goes back, Get returns a value
  // exactly when it is the one of the last Put of the key, not deleted since, and its time plus its ttl has not passed.
  lemma GetIsTheLastPut(ops: seq<Op>, key: Key, now: int, v: Value)
    requires Clocked(ops, now)
    ensures Lookup(After(ops), key, now) == Some(v) <==> exists i :: LivesFrom(ops, key, i, now, v)
  {
    GetAnswersTheLog(ops, key, now);
    LogIsTheLastPut(ops, key, now, v);
  }

  // ---------- The handlers ----------

  datatype MessageType = MsgPing | MsgPong | MsgStore | MsgFindNode | MsgFindValue | MsgNodes | MsgValue

  datatype Message = Message(msgType: MessageType, senderID: Key, target: Key, key: Key, value: Bytes, signature: Bytes,
                             nodes: seq<Node>, nonce: int)

  const ZERO_KEY: Key := seq(KEY_SIZE, _ => 0)

  class RPC {
    const table: Table
    const store: Store

    constructor (table: Table, store: Store)
      ensures this.table == table && this.store == store
    {
      this.table, this.store := table, store;
    }

    method HandleStore(msg: Message, now: int) returns (reply: Message)
      modifies store
      ensures store.values == old(store.values)[msg.key := Stamped(msg.value, msg.signature, DAY, now)]
      ensures store.values[msg.key].expiresAt == now + 24 * 60 * 60 * 1_000_000_000
      ensures reply == Message(MsgPong, table.selfID, ZERO_KEY, ZERO_KEY, [], [], [], msg.nonce)
    {
      store.Put(msg.key, msg.value, msg.signature, DAY, now);
      reply := Message(MsgPong, table.selfID, ZERO_KEY, ZERO_KEY, [], [], [], msg.nonce);
    }

    // The stored value if it is live, else the 20 nodes nearest to the key.
    method HandleFindValue(msg: Message, now: int) returns (reply: Message)
      requires table.Valid()
      ensures reply.nonce == msg.nonce && reply.senderID == table.selfID
      ensures match Lookup(store.values, msg.key, now)
              case Some(v) => reply.msgType == MsgValue && reply.key == msg.key
                              && reply.value == v.data && reply.signature == v.signature && reply.nodes == []
              case None => reply.msgType == MsgNodes && reply.value == [] && reply.signature == []
                           && Nearest(msg.key, BUCKET_SIZE, Stored(table.State()), reply.nodes)
    {
      var val := store.Get(msg.key, now);
      if val.Some? {
        return Message(MsgValue, table.selfID, ZERO_KEY, msg.key, val.value.data, val.value.signature, [], msg.nonce);
      }
      var nodes := table.Closest(msg.key, BUCKET_SIZE);
      return Message(MsgNodes, table.selfID, ZERO_KEY, ZERO_KEY, [], [], nodes, msg.nonce);
    }
  }
}
