/** The shared state of a storage server: its table, its followers' queues and its number. */
module ReplicationServer {
  import opened Wrappers
  import opened WalRecords
  import opened Storage
  import opened ReplicationCodec
  import opened Replication

  // ---------------------------------------------------------------- replacing a table

  function Puts(pairs: seq<Pair>): (ops: seq<Op>)
    ensures |ops| == |pairs| && ValidOps(ops)
  {
    seq(|pairs|, i requires 0 <= i < |pairs| => Op(OP_PUT, pairs[i].key, pairs[i].value))
  }

  function Deletes(keys: seq<Bytes>): (ops: seq<Op>)
    ensures |ops| == |keys| && ValidOps(ops)
  {
    seq(|keys|, i requires 0 <= i < |keys| => Op(OP_DELETE, keys[i], []))
  }

  lemma {:induction false} ApplyConcat(t: Table, a: seq<Op>, b: seq<Op>)
    ensures ApplyOps(t, a + b) == ApplyOps(ApplyOps(t, a), b)
  {
    if b == [] {
      assert a + b == a;
    } else {
      assert (a + b)[..|a + b| - 1] == a + b[..|b| - 1];
      ApplyConcat(t, a, b[..|b| - 1]);
    }
  }

  lemma {:induction false} DeletesApplied(t: Table, keys: seq<Bytes>)
    ensures ApplyOps(t, Deletes(keys)) == t - (set k | k in keys)
  {
    if keys == [] {
      assert (set k | k in keys) == {};
    } else {
      var front := keys[..|keys| - 1];
      DeletesApplied(t, front);
      assert Deletes(keys)[..|keys| - 1] == Deletes(front);
      assert (set k | k in keys) == (set k | k in front) + {keys[|keys| - 1]};
    }
  }

  lemma {:induction false} PutsApplied(t: Table, pairs: seq<Pair>)
    ensures ApplyOps(t, Puts(pairs)) == t + TableOf(pairs)
  {
    if pairs == [] {
      assert TableOf(pairs) == map[];
    } else {
      var front := pairs[..|pairs| - 1];
      PutsApplied(t, front);
      assert Puts(pairs)[..|pairs| - 1] == Puts(front);
    }
  }

  /** Deleting the stale keys and putting every pair leaves exactly the pairs. */
  lemma ReplaceExact(t: Table, stale: seq<Bytes>, pairs: seq<Pair>)
    requires forall k :: k in stale <==> k in t && k !in TableOf(pairs)
    ensures ApplyOps(t, Deletes(stale) + Puts(pairs)) == TableOf(pairs)
  {
    ApplyConcat(t, Deletes(stale), Puts(pairs));
    DeletesApplied(t, stale);
    PutsApplied(t - (set k | k in stale), pairs);
  }

  lemma {:induction false} TableOfKeys(pairs: seq<Pair>, key: Bytes)
    ensures key in TableOf(pairs) <==> exists i :: 0 <= i < |pairs| && pairs[i].key == key
  {
    if pairs != [] {
      TableOfKeys(pairs[..|pairs| - 1], key);
      if key in TableOf(pairs[..|pairs| - 1]) {
        var i :| 0 <= i < |pairs| - 1 && pairs[..|pairs| - 1][i].key == key;
        assert pairs[i].key == key;
      }
    }
  }

  lemma TableOfAppend(pairs: seq<Pair>, p: Pair)
    ensures TableOf(pairs + [p]) == TableOf(pairs)[p.key := p.value]
  {
    assert (pairs + [p])[..|pairs|] == pairs;
  }

  // ---------------------------------------------------------------- the server

  /** The sending end of a follower's queue; `gone` once its receiver has been dropped. */
  class Subscriber {
    var queue: seq<Bytes>
    var gone: bool

    constructor ()
      ensures queue == [] && !gone
    {
      queue := [];
      gone := false;
    }
  }

  class Server {
    var table: Table
    var seqNo: nat
    const readOnly: bool
    var subscribers: seq<Subscriber>

    ghost predicate Valid()
      reads this
    {
      forall i, j :: 0 <= i < j < |subscribers| ==> subscribers[i] != subscribers[j]
    }

    constructor (t: Table, mode: bool)
      ensures Valid() && table == t && seqNo == 0 && readOnly == mode && subscribers == []
    {
      table := t;
      seqNo := 0;
      readOnly := mode;
      subscribers := [];
    }

    function State(): Replica
      reads this
    {
      Replica(table, seqNo)
    }

    /** The record has reached the followers that were there, and those gone have been dropped. */
    twostate predicate Pushed(before: seq<Subscriber>, msg: Bytes)
      reads this, before
    {
      && (forall q :: q in before ==> q.gone == old(q.gone))
      && (forall q :: q in before ==> q.queue == old(q.queue) + (if q.gone then [] else [msg]))
      && (forall q :: q in subscribers ==> q in before && !q.gone)
      && (forall q :: q in before ==> q.gone || q in subscribers)
    }

    method Push(msg: Bytes)
      requires Valid()
      modifies this`subscribers, subscribers
      ensures Valid() && Pushed(old(subscribers), msg)
    {
      var kept: seq<Subscriber> := [];
      var i := 0;
      while i < |subscribers|
        invariant 0 <= i <= |subscribers| && subscribers == old(subscribers)
        invariant forall q :: q in subscribers ==> q.gone == old(q.gone)
        invariant forall j :: 0 <= j < i ==> subscribers[j].queue == old(subscribers[j].queue) + (if subscribers[j].gone then [] else [msg])
        invariant forall j :: i <= j < |subscribers| ==> subscribers[j].queue == old(subscribers[j].queue)
        invariant forall q :: q in kept ==> q in subscribers[..i] && !q.gone
        invariant forall j :: 0 <= j < i ==> subscribers[j].gone || subscribers[j] in kept
        invariant forall j, k :: 0 <= j < k < |kept| ==> kept[j] != kept[k]
      {
        var q := subscribers[i];
        assert q !in subscribers[..i];
        if !q.gone {
          q.queue := q.queue + [msg];
          kept := kept + [q];
        }
        i := i + 1;
      }
      assert subscribers[..i] == subscribers;
      subscribers := kept;
    }

    /** Count the commit and push it to every follower. */
    method Replicate(ops: seq<Op>)
      requires Valid() && ValidOps(ops)
      modifies this`seqNo, this`subscribers, subscribers
      ensures Valid() && seqNo == old(seqNo) + 1
      ensures Pushed(old(subscribers), EncodeMessage(BatchMsg(seqNo, ops)))
    {
      seqNo := seqNo + 1;
      Push(EncodeMessage(BatchMsg(seqNo, ops)));
    }

    /** A commit request of a client: refused by a replica, and when it does not decode. */
    method HandleCommit(body: Bytes) returns (ok: bool)
      requires Valid()
      modifies this`table, this`seqNo, this`subscribers, subscribers
      ensures Valid() && ok == (!readOnly && DecodeBatch(body).Some?)
      ensures ok ==> ValidOps(DecodeBatch(body).value) && State() == Receive(old(State()), BatchMsg(old(seqNo) + 1, DecodeBatch(body).value))
      ensures ok ==> Pushed(old(subscribers), EncodeMessage(BatchMsg(old(seqNo) + 1, DecodeBatch(body).value)))
      ensures !ok ==> State() == old(State()) && subscribers == old(subscribers)
      ensures !ok ==> forall q :: q in subscribers ==> q.queue == old(q.queue) && q.gone == old(q.gone)
    {
      hide DecodeBatch, EncodeMessage;
      if readOnly {
        return false;
      }
      var batch := DecodeBatchLoop(body);
      if batch.None? {
        return false;
      }
      BatchValid(body);
      table := ApplyOps(table, batch.value);
      Replicate(batch.value);
      ok := true;
    }

    /** A single put, replicated as a batch of one; a delete is the same with its own operation. */
    method HandleSingle(op: Op) returns (ok: bool)
      requires Valid() && ValidOp(op)
      modifies this`table, this`seqNo, this`subscribers, subscribers
      ensures Valid() && ok == !readOnly
      ensures ok ==> State() == Receive(old(State()), BatchMsg(old(seqNo) + 1, [op]))
      ensures ok ==> Pushed(old(subscribers), EncodeMessage(BatchMsg(old(seqNo) + 1, [op])))
      ensures !ok ==> State() == old(State()) && subscribers == old(subscribers)
      ensures !ok ==> forall q :: q in subscribers ==> q.queue == old(q.queue) && q.gone == old(q.gone)
    {
      hide EncodeMessage;
      if readOnly {
        return false;
      }
      OneOp(table, op);
      table := ApplyOp(table, op);
      Replicate([op]);
      ok := true;
    }

    /** Every pair of the table, in some order. */
    method Scan() returns (pairs: seq<Pair>)
      ensures TableOf(pairs) == table
    {
      hide TableOf;
      pairs := [];
      TableOfNothing();
      var left := table;
      while left != map[]
        invariant Parted(table, left, TableOf(pairs))
        decreases |left|
      {
        hide Parted;
        var key :| key in left;
        TableOfAppend(pairs, Pair(key, left[key]));
        MoveEntry(table, left, TableOf(pairs), key);
        pairs := pairs + [Pair(key, left[key])];
        SmallerMap(left, key);
        left := left - {key};
      }
    }

    /** Under one lock: the snapshot, and a queue for everything after it. */
    method Subscribe() returns (q: Subscriber, snapshot: Bytes, ghost pairs: seq<Pair>)
      requires Valid()
      modifies this`subscribers
      ensures Valid() && fresh(q) && subscribers == old(subscribers) + [q] && q.queue == [] && !q.gone
      ensures TableOf(pairs) == table && snapshot == EncodeMessage(SnapshotMsg(seqNo, pairs))
    {
      hide EncodeMessage, TableOf;
      var scanned := Scan();
      pairs := scanned;
      snapshot := EncodeMessage(SnapshotMsg(seqNo, scanned));
      q := new Subscriber();
      subscribers := subscribers + [q];
    }

    /** The batch that turns the table into the pairs of a snapshot. */
    method ReplacingBatch(pairs: seq<Pair>) returns (ops: seq<Op>)
      ensures ApplyOps(table, ops) == TableOf(pairs)
    {
      hide TableOf, ApplyOps;
      var stale: seq<Bytes> := [];
      var left := table.Keys;
      while left != {}
        invariant left <= table.Keys
        invariant forall k :: k in stale <==> k in table && k !in left && k !in TableOf(pairs)
        decreases |left|
      {
        var key :| key in left;
        var incoming := Names(pairs, key);
        if !incoming {
          stale := stale + [key];
        }
        left := left - {key};
      }
      ReplaceExact(table, stale, pairs);
      ops := Deletes(stale) + Puts(pairs);
    }

    /**
     One record of the replication stream. A snapshot replaces the state and stays here; a
     batch is applied and passed on as it came. A record that does not decode does nothing.
     */
    method ApplyRecord(msg: Bytes) returns (ok: bool)
      requires Valid()
      modifies this`table, this`seqNo, this`subscribers, subscribers
      ensures Valid() && ok == DecodeMessage(msg).Some?
      ensures ok ==> State() == Receive(old(State()), DecodeMessage(msg).value)
      ensures ok && DecodeMessage(msg).value.BatchMsg? ==> Pushed(old(subscribers), msg)
      ensures !ok ==> State() == old(State())
      ensures !ok || DecodeMessage(msg).value.SnapshotMsg? ==> subscribers == old(subscribers)
      ensures !ok || DecodeMessage(msg).value.SnapshotMsg? ==> forall q :: q in subscribers ==> q.queue == old(q.queue) && q.gone == old(q.gone)
    {
      hide DecodeMessage, ApplyOps, TableOf;
      var m := DecodeMessage(msg);
      ok := m.Some?;
      if !ok {
        return;
      }
      match m.value
      case SnapshotMsg(n, pairs) =>
        var ops := ReplacingBatch(pairs);
        table := ApplyOps(table, ops);
        seqNo := n;
      case BatchMsg(n, ops) =>
        table := ApplyOps(table, ops);
        seqNo := n;
        Push(msg);
    }
  }

  lemma BatchValid(body: Bytes)
    ensures DecodeBatch(body).Some? ==> ValidOps(DecodeBatch(body).value)
  {
    hide DecodeChanges, Read32;
    if |body| >= 4 {
      DecodedIsValid(From(body, 4), Read32(Slice(body, 0, 4)));
    }
  }

  lemma OneOp(t: Table, op: Op)
    ensures ApplyOps(t, [op]) == ApplyOp(t, op)
  {
    assert [op][..0] == [] && ApplyOps(t, []) == t;
  }

  lemma TableOfNothing()
    ensures TableOf([]) == map[]
  {
  }

  /** A table split in two parts without common keys. */
  ghost predicate Parted(whole: Table, left: Table, done: Table) {
    && (forall k :: k in whole <==> k in left || k in done)
    && (forall k :: k in left ==> k !in done && whole[k] == left[k])
    && (forall k :: k in done ==> whole[k] == done[k])
  }

  lemma MoveEntry(whole: Table, left: Table, done: Table, key: Bytes)
    requires Parted(whole, left, done) && key in left
    ensures Parted(whole, left - {key}, done[key := left[key]])
  {
  }

  lemma SmallerMap(m: Table, key: Bytes)
    requires key in m
    ensures |m - {key}| < |m|
  {
    assert (m - {key}).Keys == m.Keys - {key};
    assert |m.Keys - {key}| == |m.Keys| - 1;
  }

  /** Does a snapshot name this key? */
  method Names(pairs: seq<Pair>, key: Bytes) returns (found: bool)
    ensures found <==> key in TableOf(pairs)
  {
    hide TableOf;
    TableOfKeys(pairs, key);
    var i := 0;
    while i < |pairs|
      invariant 0 <= i <= |pairs|
      invariant forall j :: 0 <= j < i ==> pairs[j].key != key
    {
      if pairs[i].key == key {
        return true;
      }
      i := i + 1;
    }
    found := false;
  }
}
