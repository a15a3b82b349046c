/**
 The durable store: an ordered table and the log it is rebuilt from. Opening replays the
 longest sound prefix of the log, so a crash in the middle of a write loses that record
 and nothing else.
 */
module Storage {
  import opened Wrappers
  import opened Digits
  import opened WalRecords
  import Crc

  type Table = map<Bytes, Bytes>

  // ---------------------------------------------------------------- replay

  predicate Known(op: Op) {
    op.code == OP_PUT || op.code == OP_DELETE
  }

  /** Operations with an unknown code do nothing. */
  function ApplyOp(t: Table, op: Op): Table {
    if op.code == OP_PUT then t[op.key := op.value]
    else if op.code == OP_DELETE then t - {op.key}
    else t
  }

  function ApplyOps(t: Table, ops: seq<Op>): Table {
    if ops == [] then t else ApplyOp(ApplyOps(t, ops[..|ops| - 1]), ops[|ops| - 1])
  }

  function ApplyRecord(t: Table, r: Record): Table {
    match r case Single(op) => ApplyOp(t, op) case Batch(ops) => ApplyOps(t, ops)
  }

  /** Replay stops at a record that does not decode, and at a single operation with an unknown code. */
  predicate Replayable(d: Option<Decoded>) {
    d.Some? && (d.value.record.Single? ==> Known(d.value.record.op))
  }

  datatype Replayed = Replayed(table: Table, used: nat)

  function Replay(b: Bytes, t: Table): (r: Replayed)
    ensures r.used <= |b|
    decreases |b|
  {
    var d := DecodeRecord(b);
    if !Replayable(d) then Replayed(t, 0)
    else
      var rest := Replay(From(b, d.value.size), ApplyRecord(t, d.value.record));
      Replayed(rest.table, d.value.size + rest.used)
  }

  /** The whole log is sound and holds exactly this table. */
  ghost predicate GoodLog(b: Bytes, t: Table) {
    Replay(b, map[]) == Replayed(t, |b|)
  }

  lemma ReplayNothing(t: Table)
    ensures Replay([], t) == Replayed(t, 0)
  {
  }

  /** A sound log replays the same whatever is appended, and goes on from its table. */
  lemma {:induction false} ReplayAppend(b: Bytes, t0: Table, t: Table, rest: Bytes)
    requires Replay(b, t0) == Replayed(t, |b|)
    ensures Replay(b + rest, t0) == Replayed(Replay(rest, t).table, |b| + Replay(rest, t).used)
    decreases |b|
  {
    hide DecodeRecord, ApplyRecord;
    if b == [] {
      ReplayNothing(t0);
      assert b + rest == rest;
    } else {
      var d := DecodeRecord(b).value;
      var tail := From(b, d.size);
      assert b == b[..d.size] + tail;
      DecodeStable(b, tail + rest);
      assert b + rest == b[..d.size] + (tail + rest);
      assert From(b + rest, d.size) == tail + rest;
      ReplayAppend(tail, ApplyRecord(t0, d.record), t, rest);
    }
  }

  /** Cutting the log where replay stopped leaves a sound log with the same table. */
  lemma {:induction false} ReplayPrefix(b: Bytes, t: Table)
    ensures Replay(b[..Replay(b, t).used], t) == Replay(b, t)
    decreases |b|
  {
    hide DecodeRecord, ApplyRecord;
    var r := Replay(b, t);
    var d := DecodeRecord(b);
    if !Replayable(d) {
      assert b[..0] == [];
      ReplayNothing(t);
    } else {
      var size := d.value.size;
      var tail := From(b, size);
      var rest := Replay(tail, ApplyRecord(t, d.value.record));
      ReplayPrefix(tail, ApplyRecord(t, d.value.record));
      assert b[..r.used] == b[..size] + tail[..rest.used];
      DecodeStable(b, Slice(tail, 0, rest.used));
      assert From(b[..r.used], size) == tail[..rest.used];
    }
  }

  // ---------------------------------------------------------------- logs of records

  ghost predicate Writable(r: Record) {
    ValidRecord(r) && |Payload(r)| < WORD
  }

  ghost predicate AllWritable(records: seq<Record>) {
    forall i :: 0 <= i < |records| ==> Writable(records[i])
  }

  function Log(records: seq<Record>): Bytes
    requires AllWritable(records)
  {
    if records == [] then [] else EncodeRecord(records[0]) + Log(records[1..])
  }

  function TableAfter(t: Table, records: seq<Record>): Table
    decreases |records|
  {
    if records == [] then t else TableAfter(ApplyRecord(t, records[0]), records[1..])
  }

  lemma ReplayStep(b: Bytes, t: Table, d: Decoded, rest: Bytes)
    requires DecodeRecord(b) == Some(d) && Replayable(Some(d)) && From(b, d.size) == rest
    ensures var after := Replay(rest, ApplyRecord(t, d.record));
      Replay(b, t) == Replayed(after.table, d.size + after.used)
  {
    hide DecodeRecord, ApplyRecord, From;
  }

  lemma ReplayRecord(r: Record, rest: Bytes, t: Table)
    requires Writable(r)
    ensures var after := Replay(rest, ApplyRecord(t, r));
      Replay(EncodeRecord(r) + rest, t) == Replayed(after.table, |EncodeRecord(r)| + after.used)
  {
    hide DecodeRecord, ApplyRecord, EncodeRecord, Payload, Replay;
    RecordRoundTrip(r, rest);
    var e := EncodeRecord(r);
    assert From(e + rest, |e|) == rest;
    ReplayStep(e + rest, t, Decoded(|e|, r), rest);
  }

  /** The table after the first k records, and where they end. */
  function StateAt(records: seq<Record>, k: nat, t: Table): Replayed
    requires AllWritable(records) && k <= |records|
    decreases k
  {
    if k == 0 then Replayed(t, 0)
    else
      var rest := StateAt(records[1..], k - 1, ApplyRecord(t, records[0]));
      Replayed(rest.table, |EncodeRecord(records[0])| + rest.used)
  }

  lemma {:induction false} StateAtIs(records: seq<Record>, k: nat, t: Table)
    requires AllWritable(records) && k <= |records|
    ensures StateAt(records, k, t) == Replayed(TableAfter(t, records[..k]), |Log(records[..k])|)
    decreases k
  {
    if k > 0 {
      hide EncodeRecord, ApplyRecord;
      StateAtIs(records[1..], k - 1, ApplyRecord(t, records[0]));
      assert records[..k][1..] == records[1..][..k - 1];
    }
  }

  lemma LogUnfold(records: seq<Record>)
    requires AllWritable(records) && records != []
    ensures Writable(records[0]) && AllWritable(records[1..])
    ensures Log(records) == EncodeRecord(records[0]) + Log(records[1..])
  {
  }

  lemma StateUnfold(records: seq<Record>, k: nat, t: Table)
    requires AllWritable(records) && 0 < k <= |records|
    ensures Writable(records[0]) && AllWritable(records[1..])
    ensures var rest := StateAt(records[1..], k - 1, ApplyRecord(t, records[0]));
      StateAt(records, k, t) == Replayed(rest.table, |EncodeRecord(records[0])| + rest.used)
  {
    hide EncodeRecord, ApplyRecord;
  }

  /** The first k records end within n bytes, and the next one does not. */
  ghost predicate CompleteIn(records: seq<Record>, k: nat, n: nat, t: Table)
    requires AllWritable(records)
  {
    k <= |records| && StateAt(records, k, t).used <= n && (k < |records| ==> n < StateAt(records, k + 1, t).used)
  }

  /** What the cut must recover. */
  ghost predicate Recovers(records: seq<Record>, k: nat, n: nat, t: Table)
    requires AllWritable(records) && n <= |Log(records)|
  {
    CompleteIn(records, k, n, t) && Replay(Log(records)[..n], t) == StateAt(records, k, t)
  }

  /**
   Main result: replaying any byte prefix of a log gives the state after its complete
   records; no record or batch is applied in part.
   */
  lemma {:induction false} CutRecovers(records: seq<Record>, t: Table, n: nat) returns (k: nat)
    requires AllWritable(records) && n <= |Log(records)|
    ensures Recovers(records, k, n, t)
    decreases |records|
  {
    hide *;
    if records == [] {
      k := 0;
      NothingLogged(records, t, n);
    } else {
      LogUnfold(records);
      var m := n - |EncodeRecord(records[0])|;
      if m < 0 {
        k := 0;
        FirstTorn(records, t, n);
      } else {
        var j := CutRecovers(records[1..], ApplyRecord(t, records[0]), m);
        k := j + 1;
        FirstWhole(records, t, j, m, n);
      }
    }
  }

  lemma NothingLogged(records: seq<Record>, t: Table, n: nat)
    requires AllWritable(records) && records == [] && n <= |Log(records)|
    ensures Recovers(records, 0, n, t)
  {
    hide DecodeRecord;
    assert Log(records) == [] && Log(records)[..n] == [];
    ReplayNothing(t);
  }

  /** A cut inside the first record. */
  lemma FirstTorn(records: seq<Record>, t: Table, n: nat)
    requires AllWritable(records) && records != [] && n <= |Log(records)| && n < |EncodeRecord(records[0])|
    ensures Recovers(records, 0, n, t)
  {
    hide *;
    LogUnfold(records);
    StateUnfold(records, 1, t);
    StateNone(records, t);
    StateNone(records[1..], ApplyRecord(t, records[0]));
    TornStops(records[0], n, t);
    assert Log(records)[..n] == EncodeRecord(records[0])[..n];
    RecoversFrom(records, 0, n, t);
  }

  lemma StateNone(records: seq<Record>, t: Table)
    requires AllWritable(records)
    ensures StateAt(records, 0, t) == Replayed(t, 0)
  {
  }

  lemma TornStops(r: Record, n: nat, t: Table)
    requires Writable(r) && n < |EncodeRecord(r)|
    ensures Replay(EncodeRecord(r)[..n], t) == Replayed(t, 0)
  {
    TornRecord(r, n);
    hide DecodeRecord, EncodeRecord;
  }

  /** A cut after the first record. */
  lemma FirstWhole(records: seq<Record>, t: Table, j: nat, m: nat, n: nat)
    requires AllWritable(records) && records != [] && AllWritable(records[1..]) && n <= |Log(records)| && m <= |Log(records[1..])|
    requires n == |EncodeRecord(records[0])| + m && Recovers(records[1..], j, m, ApplyRecord(t, records[0]))
    ensures Recovers(records, j + 1, n, t)
  {
    hide *;
    LogUnfold(records);
    var r, rest, u := records[0], records[1..], ApplyRecord(t, records[0]);
    RecoversParts(rest, j, m, u);
    assert Log(records)[..n] == EncodeRecord(r) + Log(rest)[..m];
    ReplayRecord(r, Log(rest)[..m], t);
    StateUnfold(records, j + 1, t);
    if j + 1 < |records| {
      StateUnfold(records, j + 2, t);
    }
    RecoversFrom(records, j + 1, n, t);
  }

  lemma RecoversParts(records: seq<Record>, k: nat, n: nat, t: Table)
    requires AllWritable(records) && n <= |Log(records)| && Recovers(records, k, n, t)
    ensures k <= |records| && StateAt(records, k, t).used <= n && (k < |records| ==> n < StateAt(records, k + 1, t).used)
    ensures Replay(Log(records)[..n], t) == StateAt(records, k, t)
  {
  }

  lemma RecoversFrom(records: seq<Record>, k: nat, n: nat, t: Table)
    requires AllWritable(records) && n <= |Log(records)| && k <= |records|
    requires StateAt(records, k, t).used <= n && (k < |records| ==> n < StateAt(records, k + 1, t).used)
    requires Replay(Log(records)[..n], t) == StateAt(records, k, t)
    ensures Recovers(records, k, n, t)
  {
  }

  /**
   The same after any sound log: writes after opening, or after compaction, are recovered
   record by record, and everything written before is kept.
   */
  lemma CutAfterGoodLog(b: Bytes, t: Table, records: seq<Record>, n: nat) returns (k: nat)
    requires GoodLog(b, t) && AllWritable(records) && n <= |Log(records)|
    ensures CompleteIn(records, k, n, t)
    ensures var s := StateAt(records, k, t);
      Replay((b + Log(records))[..|b| + n], map[]) == Replayed(s.table, |b| + s.used)
  {
    hide Replay, Log, AllWritable, StateAt;
    k := CutRecovers(records, t, n);
    ReplayAppend(b, map[], t, Log(records)[..n]);
    assert (b + Log(records))[..|b| + n] == b + Log(records)[..n];
  }

  // ---------------------------------------------------------------- sizes

  /** The pair can be written as one record. */
  predicate PairFits(key: Bytes, value: Bytes) {
    9 + |key| + |value| < WORD
  }

  ghost predicate TableFits(t: Table) {
    forall k :: k in t ==> PairFits(k, t[k])
  }

  ghost predicate OpsFit(ops: seq<Op>) {
    forall i :: 0 <= i < |ops| ==> PairFits(ops[i].key, ops[i].value)
  }

  lemma {:induction false} ApplyFits(t: Table, ops: seq<Op>)
    requires TableFits(t) && OpsFit(ops)
    ensures TableFits(ApplyOps(t, ops))
  {
    if ops != [] {
      ApplyFits(t, ops[..|ops| - 1]);
    }
  }

  lemma {:induction false} EntriesFit(b: Bytes, count: nat)
    requires |b| < WORD && DecodeEntries(b, count).Some?
    ensures OpsFit(DecodeEntries(b, count).value.ops)
    decreases count
  {
    if count > 0 {
      var e := DecodeEntry(b).value;
      EntriesFit(From(b, e.size), count - 1);
      hide DecodeEntry;
    }
  }

  /** Whatever decodes can be written again. */
  lemma DecodedFits(b: Bytes)
    requires DecodeRecord(b).Some?
    ensures match DecodeRecord(b).value.record case Single(op) => PairFits(op.key, op.value) case Batch(ops) => OpsFit(ops)
  {
    hide DecodePayload, Read32, Crc.Crc32;
    PayloadFits(Slice(b, 8, 8 + Read32(Slice(b, 4, 8))));
  }

  lemma PayloadFits(p: Bytes)
    requires 5 <= |p| < WORD && DecodePayload(p).Some?
    ensures match DecodePayload(p).value case Single(op) => PairFits(op.key, op.value) case Batch(ops) => OpsFit(ops)
  {
    hide DecodeEntry, DecodeEntries, Read32;
    if p[0] == OP_BATCH {
      EntriesFit(From(p, 5), Read32(Slice(p, 1, 5)));
    }
  }

  lemma {:induction false} ReplayFits(b: Bytes, t: Table)
    requires TableFits(t)
    ensures TableFits(Replay(b, t).table)
    decreases |b|
  {
    var d := DecodeRecord(b);
    if Replayable(d) {
      DecodedFits(b);
      hide DecodeRecord;
      match d.value.record {
        case Single(op) =>
        case Batch(ops) => ApplyFits(t, ops);
      }
      ReplayFits(From(b, d.value.size), ApplyRecord(t, d.value.record));
    }
  }

  lemma PairWritable(key: Bytes, value: Bytes)
    requires PairFits(key, value)
    ensures Writable(Single(Op(OP_PUT, key, value)))
  {
  }

  // ---------------------------------------------------------------- compaction

  predicate IsPut(r: Record, t: Table) {
    r.Single? && r.op.code == OP_PUT && r.op.key in t && r.op.value == t[r.op.key]
  }

  /** Puts of stored pairs, no key twice. */
  ghost predicate PutsOnce(records: seq<Record>, t: Table) {
    && (forall i :: 0 <= i < |records| ==> IsPut(records[i], t))
    && forall i, j :: 0 <= i < j < |records| ==> records[i].op.key != records[j].op.key
  }

  /** Each stored pair as one put, in some order of the keys. */
  ghost predicate IsSnapshot(records: seq<Record>, t: Table) {
    AllWritable(records) && PutsOnce(records, t) && TableAfter(map[], records) == t
  }

  /** The pairs of t that the first k puts write. */
  ghost function FirstOf(records: seq<Record>, k: nat, t: Table): Table
    requires k <= |records| && PutsOnce(records, t)
  {
    map x | x in t && exists i :: 0 <= i < k && records[i].op.key == x :: t[x]
  }

  lemma FirstOfNext(records: seq<Record>, k: nat, t: Table)
    requires k < |records| && PutsOnce(records, t)
    ensures IsPut(records[k], t) && records[k].op.key !in FirstOf(records, k, t)
    ensures FirstOf(records, k + 1, t) == FirstOf(records, k, t)[records[k].op.key := records[k].op.value]
  {
    assert IsPut(records[k], t);
  }

  /** A part of a snapshot builds as many pairs as it has puts. */
  lemma {:induction false} SnapshotPart(records: seq<Record>, k: nat, t: Table)
    requires k <= |records| && PutsOnce(records, t)
    ensures TableAfter(map[], records[..k]) == FirstOf(records, k, t) && |FirstOf(records, k, t)| == k
    decreases k
  {
    hide PutsOnce;
    if k == 0 {
      assert FirstOf(records, 0, t) == map[];
    } else {
      hide TableAfter, FirstOf;
      FirstOfNext(records, k - 1, t);
      SnapshotPart(records, k - 1, t);
      assert records[..k] == records[..k - 1] + [records[k - 1]];
      TableAfterAppend(map[], records[..k - 1], records[k - 1]);
    }
  }

  lemma {:induction false} TableAfterAppend(t: Table, records: seq<Record>, r: Record)
    ensures TableAfter(t, records + [r]) == ApplyRecord(TableAfter(t, records), r)
    decreases |records|
  {
    hide ApplyRecord;
    if records == [] {
      assert TableAfter(t, [r]) == TableAfter(ApplyRecord(t, r), [r][1..]);
    } else {
      assert (records + [r])[1..] == records[1..] + [r];
      TableAfterAppend(ApplyRecord(t, records[0]), records[1..], r);
    }
  }

  lemma {:induction false} LogAppend(records: seq<Record>, r: Record)
    requires AllWritable(records) && Writable(r)
    ensures Log(records + [r]) == Log(records) + EncodeRecord(r)
    decreases |records|
  {
    hide EncodeRecord, Payload, ValidRecord, Writable;
    ValidOf(r);
    if records == [] {
      assert records + [r] == [r] && [r][1..] == [];
      assert Log([]) == [];
    } else {
      assert (records + [r])[1..] == records[1..] + [r];
      LogAppend(records[1..], r);
    }
  }

  lemma ValidOf(r: Record)
    requires Writable(r)
    ensures ValidRecord(r)
  {
  }

  /** A log of records is sound and holds what they build. */
  lemma LogIsGood(records: seq<Record>)
    requires AllWritable(records)
    ensures GoodLog(Log(records), TableAfter(map[], records))
  {
    var n := |Log(records)|;
    var k := CutRecovers(records, map[], n);
    StateAtIs(records, k, map[]);
    StateAtIs(records, |records|, map[]);
    assert Log(records)[..n] == Log(records) && records[..|records|] == records;
    WholeLog(records, k, n, map[]);
  }

  lemma WholeLog(records: seq<Record>, k: nat, n: nat, t: Table)
    requires AllWritable(records) && n == |Log(records)| && CompleteIn(records, k, n, t)
    ensures k == |records|
  {
    hide *;
    CompleteParts(records, k, n, t);
    if k < |records| {
      StateAtIs(records, k + 1, t);
      LogPrefixShorter(records, k + 1);
    }
  }

  lemma CompleteParts(records: seq<Record>, k: nat, n: nat, t: Table)
    requires AllWritable(records) && CompleteIn(records, k, n, t)
    ensures k <= |records| && (k < |records| ==> n < StateAt(records, k + 1, t).used)
  {
  }

  lemma {:induction false} LogPrefixShorter(records: seq<Record>, k: nat)
    requires AllWritable(records) && k <= |records|
    ensures |Log(records[..k])| <= |Log(records)|
    decreases k
  {
    hide EncodeRecord;
    if k > 0 {
      LogPrefixShorter(records[1..], k - 1);
      assert records[..k][1..] == records[1..][..k - 1];
    }
  }

  /** Appending one record to a sound log. */
  lemma AppendRecord(b: Bytes, t: Table, r: Record)
    requires GoodLog(b, t) && Writable(r)
    ensures GoodLog(b + EncodeRecord(r), ApplyRecord(t, r))
  {
    hide DecodeRecord, EncodeRecord, ApplyRecord, Replay;
    ReplayAppend(b, map[], t, EncodeRecord(r));
    ReplayRecord(r, [], t);
    ReplayNothing(ApplyRecord(t, r));
    assert EncodeRecord(r) + [] == EncodeRecord(r);
  }

  // ---------------------------------------------------------------- the store

  class Storage {
    var wal: Bytes
    var table: Table

    ghost predicate Valid()
      reads this
    {
      GoodLog(wal, table) && TableFits(table)
    }

    /** Replay the log and cut off what is torn; whatever the bytes are. */
    constructor Open(buf: Bytes)
      ensures Valid() && table == Replay(buf, map[]).table && wal == buf[..Replay(buf, map[]).used]
    {
      hide *;
      AdvanceIs();
      var t: Table := map[];
      var pos := 0;
      var done := false;
      assert buf[0..] == buf;
      while pos < |buf| && !done
        invariant 0 <= pos <= |buf|
        invariant var r := Replay(buf[pos..], t);
          Replay(buf, map[]) == Replayed(r.table, pos + r.used)
        invariant done ==> Replay(buf[pos..], t) == Replayed(t, 0)
        decreases |buf| - pos, !done
      {
        var d := DecodeRecord(buf[pos..]);
        StepOrStop(buf, pos, t);
        if !Replayable(d) {
          done := true;
        } else {
          ReplayableIsSome(d);
          t := ApplyRecord(t, d.value.record);
          pos := pos + d.value.size;
        }
      }
      if !done {
        assert buf[pos..] == [];
        ReplayNothing(t);
      }
      ReplayPrefix(buf, map[]);
      TableFitsEmpty();
      ReplayFits(buf, map[]);
      wal := buf[..pos];
      table := t;
      new;
      GoodLogIs(wal, table);
      ValidIs(wal, table);
    }

    lemma ValidIs(w: Bytes, t: Table)
      requires wal == w && table == t && GoodLog(w, t) && TableFits(t)
      ensures Valid()
    {
    }

    /** Put a pair; the log grows by one record. */
    method Put(key: Bytes, value: Bytes)
      requires Valid() && PairFits(key, value)
      modifies this
      ensures Valid() && table == old(table)[key := value]
      ensures wal == old(wal) + EncodeRecord(Single(Op(OP_PUT, key, value)))
    {
      hide EncodeRecord, GoodLog;
      var r := Single(Op(OP_PUT, key, value));
      PairWritable(key, value);
      AppendRecord(wal, table, r);
      wal := wal + EncodeRecord(r);
      table := table[key := value];
    }

    method Delete(key: Bytes)
      requires Valid() && PairFits(key, [])
      modifies this
      ensures Valid() && table == old(table) - {key}
      ensures wal == old(wal) + EncodeRecord(Single(Op(OP_DELETE, key, [])))
    {
      hide EncodeRecord, GoodLog;
      var r := Single(Op(OP_DELETE, key, []));
      DeleteWritable(key);
      AppendRecord(wal, table, r);
      wal := wal + EncodeRecord(r);
      table := table - {key};
    }

    /** A batch is one record, or a plain record if it holds one operation, or nothing. */
    method Commit(ops: seq<Op>)
      requires Valid() && OpsFit(ops) && ValidOps(ops) && |Payload(Batch(ops))| < WORD
      modifies this
      ensures Valid() && table == ApplyOps(old(table), ops)
      ensures |ops| == 0 ==> wal == old(wal)
      ensures |ops| == 1 ==> wal == old(wal) + EncodeRecord(Single(ops[0]))
      ensures |ops| > 1 ==> wal == old(wal) + EncodeRecord(Batch(ops))
    {
      hide EncodeRecord, GoodLog, Payload;
      ApplyFits(table, ops);
      if |ops| == 0 {
        return;
      }
      if |ops| == 1 {
        SingleWritable(ops[0]);
        AppendRecord(wal, table, Single(ops[0]));
        wal := wal + EncodeRecord(Single(ops[0]));
        table := ApplyOp(table, ops[0]);
        assert ops[..0] == [] && ApplyOps(old(table), ops[..0]) == old(table);
        return;
      }
      AppendRecord(wal, table, Batch(ops));
      wal := wal + EncodeRecord(Batch(ops));
      for i := 0 to |ops|
        invariant table == ApplyOps(old(table), ops[..i]) && wal == old(wal) + EncodeRecord(Batch(ops))
      {
        assert ops[..i + 1][..i] == ops[..i];
        table := ApplyOp(table, ops[i]);
      }
      assert ops[..|ops|] == ops;
    }

    /** Rewrite the log with one put for every live pair. */
    method Compact() returns (ghost records: seq<Record>)
      requires Valid()
      modifies this
      ensures Valid() && table == old(table) && IsSnapshot(records, table) && wal == Log(records)
    {
      hide EncodeRecord, GoodLog, Writable;
      var out: Bytes := [];
      records := [];
      var left := table.Keys;
      ghost var written: Table := map[];
      while left != {}
        invariant table == old(table) && TableFits(table)
        invariant left <= table.Keys && written == map k | k in table && k !in left :: table[k]
        invariant AllWritable(records) && out == Log(records) && written == TableAfter(map[], records)
        invariant PutsOnce(records, table) && forall i :: 0 <= i < |records| ==> records[i].op.key !in left
        decreases |left|
      {
        var k :| k in left;
        var r := Single(Op(OP_PUT, k, table[k]));
        PairWritable(k, table[k]);
        LogAppend(records, r);
        TableAfterAppend(map[], records, r);
        out := out + EncodeRecord(r);
        records := records + [r];
        written := written[k := table[k]];
        left := left - {k};
      }
      assert written == table;
      LogIsGood(records);
      wal := out;
    }

    method Get(key: Bytes) returns (v: Option<Bytes>)
      ensures v == if key in table then Some(table[key]) else None
    {
      v := if key in table then Some(table[key]) else None;
    }
  }

  lemma DeleteWritable(key: Bytes)
    requires PairFits(key, [])
    ensures Writable(Single(Op(OP_DELETE, key, [])))
  {
  }

  lemma SingleWritable(op: Op)
    requires ValidOp(op) && PairFits(op.key, op.value)
    ensures Writable(Single(op))
  {
  }

  lemma TableFitsEmpty()
    ensures TableFits(map[])
  {
  }

  lemma ReplayableIsSome(d: Option<Decoded>)
    requires Replayable(d)
    ensures d.Some?
  {
  }

  lemma GoodLogIs(b: Bytes, t: Table)
    ensures GoodLog(b, t) <==> Replay(b, map[]) == Replayed(t, |b|)
  {
    hide Replay;
  }

  lemma AdvanceIs()
    ensures forall r, n: nat :: Advance(r, n) == Replayed(r.table, n + r.used)
  {
  }

  function Advance(r: Replayed, n: nat): Replayed {
    Replayed(r.table, n + r.used)
  }

  /** One turn of the replay loop. */
  lemma StepOrStop(buf: Bytes, pos: nat, t: Table)
    requires pos < |buf|
    ensures !Replayable(DecodeRecord(buf[pos..])) ==> Replay(buf[pos..], t) == Replayed(t, 0)
    ensures Replayable(DecodeRecord(buf[pos..])) ==>
      var d := DecodeRecord(buf[pos..]).value;
      0 < d.size <= |buf| - pos && Replay(buf[pos..], t) == Advance(Replay(buf[pos + d.size..], ApplyRecord(t, d.record)), d.size)
  {
    hide DecodeRecord, ApplyRecord;
    var d := DecodeRecord(buf[pos..]);
    if Replayable(d) {
      assert From(buf[pos..], d.value.size) == buf[pos + d.value.size..];
    }
  }
}
