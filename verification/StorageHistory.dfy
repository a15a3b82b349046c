/**
 Whole histories of the durable store: puts, deletes, batches, compactions and crashes in any
 order, and what opening any byte prefix of the resulting log gives back.
 */
module StorageHistory {
  import opened WalRecords
  import opened Storage

  /** A crash leaves n bytes of the log, and the store is opened again. */
  datatype Event =
    | Put(key: Bytes, value: Bytes)
    | Delete(key: Bytes)
    | Commit(ops: seq<Op>)
    | Compact(records: seq<Record>)
    | Crash(n: nat)

  datatype Disk = Disk(wal: Bytes, table: Table)

  /** A batch of one operation is logged as that operation, an empty one not at all. */
  function RecordsOf(e: Event): seq<Record> {
    match e
    case Put(key, value) => [Single(Op(OP_PUT, key, value))]
    case Delete(key) => [Single(Op(OP_DELETE, key, []))]
    case Commit(ops) => if |ops| == 0 then [] else if |ops| == 1 then [Single(ops[0])] else [Batch(ops)]
    case _ => []
  }

  ghost function Do(s: Disk, e: Event): Disk {
    match e
    case Compact(records) => Disk(if AllWritable(records) then Log(records) else s.wal, s.table)
    case Crash(n) =>
      var cut := s.wal[..if n <= |s.wal| then n else |s.wal|];
      var r := Replay(cut, map[]);
      Disk(cut[..r.used], r.table)
    case _ =>
      var records := RecordsOf(e);
      Disk(s.wal + (if AllWritable(records) then Log(records) else []), TableAfter(s.table, records))
  }

  /** Pairs and batches fit their length fields; a compaction writes the live pairs. */
  ghost predicate Fits(s: Disk, e: Event) {
    match e
    case Put(key, value) => PairFits(key, value)
    case Delete(key) => PairFits(key, [])
    case Commit(ops) => ValidOps(ops) && OpsFit(ops) && |Payload(Batch(ops))| < WORD
    case Compact(records) => IsSnapshot(records, s.table)
    case Crash(n) => n <= |s.wal|
  }

  ghost function After(events: seq<Event>): Disk {
    if events == [] then Disk([], map[])
    else Do(After(events[..|events| - 1]), events[|events| - 1])
  }

  ghost predicate AllFit(events: seq<Event>) {
    forall i :: 0 <= i < |events| ==> Fits(After(events[..i]), events[i])
  }

  lemma AllFitBefore(events: seq<Event>)
    requires AllFit(events) && events != []
    ensures AllFit(events[..|events| - 1]) && Fits(After(events[..|events| - 1]), events[|events| - 1])
  {
    hide After, Fits;
    var n := |events| - 1;
    forall i | 0 <= i < n
      ensures Fits(After(events[..n][..i]), events[..n][i])
    {
      assert events[..n][..i] == events[..i];
    }
  }

  // ---------------------------------------------------------------- the records in the log

  /** The largest number of records, up to k, that end within n bytes. */
  ghost function Complete(records: seq<Record>, k: nat, n: nat): (r: nat)
    requires AllWritable(records) && k <= |records|
    ensures r <= k
    decreases k
  {
    if k == 0 || |Log(records[..k])| <= n then k else Complete(records, k - 1, n)
  }

  lemma {:induction false} CompleteIs(records: seq<Record>, m: nat, n: nat, k: nat)
    requires AllWritable(records) && k <= m <= |records| && CompleteIn(records, k, n, map[])
    ensures Complete(records, m, n) == k
    decreases m
  {
    hide StateAt, Log, AllWritable;
    StateAtIs(records, k, map[]);
    if m > k {
      StateAtIs(records, k + 1, map[]);
      PrefixWritable(records, m);
      LogPrefixShorter(records[..m], k + 1);
      assert records[..m][..k + 1] == records[..k + 1];
      CompleteIs(records, m - 1, n, k);
    }
  }

  lemma PrefixWritable(records: seq<Record>, k: nat)
    requires AllWritable(records) && k <= |records|
    ensures AllWritable(records[..k])
  {
  }

  lemma {:induction false} LogPrefix(records: seq<Record>, k: nat)
    requires AllWritable(records) && k <= |records|
    ensures AllWritable(records[..k]) && Log(records[..k]) <= Log(records)
    decreases k
  {
    hide EncodeRecord;
    if k > 0 {
      LogPrefix(records[1..], k - 1);
      assert records[..k][1..] == records[1..][..k - 1];
    }
  }

  lemma LogOne(r: Record)
    requires Writable(r)
    ensures AllWritable([r]) && Log([r]) == EncodeRecord(r)
  {
    hide EncodeRecord, Writable;
    assert [r][1..] == [] && Log([]) == [];
  }

  lemma {:induction false} LogConcat(a: seq<Record>, b: seq<Record>)
    requires AllWritable(a) && AllWritable(b)
    ensures AllWritable(a + b) && Log(a + b) == Log(a) + Log(b)
  {
    hide EncodeRecord, Writable;
    if a == [] {
      assert a + b == b;
    } else {
      assert (a + b)[1..] == a[1..] + b;
      LogConcat(a[1..], b);
    }
  }

  lemma {:induction false} TableConcat(t: Table, a: seq<Record>, b: seq<Record>)
    ensures TableAfter(t, a + b) == TableAfter(TableAfter(t, a), b)
    decreases |a|
  {
    hide ApplyRecord;
    if a == [] {
      assert a + b == b;
    } else {
      assert (a + b)[1..] == a[1..] + b;
      TableConcat(ApplyRecord(t, a[0]), a[1..], b);
    }
  }

  /** The records of the log, of which the first `base` come from the last compaction. */
  datatype Book = Book(records: seq<Record>, base: nat)

  ghost function BookAfter(b: Book, e: Event): Book {
    match e
    case Compact(records) => Book(records, |records|)
    case Crash(n) =>
      if AllWritable(b.records) then
        var k := Complete(b.records, |b.records|, n);
        Book(b.records[..k], if k < b.base then k else b.base)
      else b
    case _ => Book(b.records + RecordsOf(e), b.base)
  }

  ghost function BookOf(events: seq<Event>): Book {
    if events == [] then Book([], 0)
    else BookAfter(BookOf(events[..|events| - 1]), events[|events| - 1])
  }

  /** The log is exactly these records, and the table what they build. */
  ghost predicate Keeps(b: Book, s: Disk) {
    && AllWritable(b.records) && b.base <= |b.records|
    && s.wal == Log(b.records) && s.table == TableAfter(map[], b.records)
  }

  lemma RecordsWritable(s: Disk, e: Event)
    requires Fits(s, e) && !e.Compact? && !e.Crash?
    ensures AllWritable(RecordsOf(e))
  {
    match e {
      case Put(key, value) => PairWritable(key, value);
      case Delete(key) => DeleteWritable(key);
      case Commit(ops) => if |ops| == 1 { SingleWritable(ops[0]); }
    }
    hide Payload;
  }

  lemma CrashKeeps(b: Book, s: Disk, n: nat)
    requires Keeps(b, s) && n <= |s.wal|
    ensures Keeps(BookAfter(b, Crash(n)), Do(s, Crash(n)))
  {
    hide Replay, Log, AllWritable, StateAt, TableAfter, Complete;
    var k := CutRecovers(b.records, map[], n);
    CompleteIs(b.records, |b.records|, n, k);
    StateAtIs(b.records, k, map[]);
    LogPrefix(b.records, k);
  }

  lemma EventKeeps(b: Book, s: Disk, e: Event)
    requires Keeps(b, s) && Fits(s, e)
    ensures Keeps(BookAfter(b, e), Do(s, e))
  {
    hide Log, AllWritable, TableAfter, RecordsOf;
    if e.Crash? {
      CrashKeeps(b, s, e.n);
    } else if !e.Compact? {
      RecordsWritable(s, e);
      LogConcat(b.records, RecordsOf(e));
      TableConcat(map[], b.records, RecordsOf(e));
    }
  }

  lemma {:induction false} HistoryKeeps(events: seq<Event>)
    requires AllFit(events)
    ensures Keeps(BookOf(events), After(events))
  {
    hide AllFit, Do, BookAfter, Fits;
    if events != [] {
      AllFitBefore(events);
      HistoryKeeps(events[..|events| - 1]);
      hide Keeps;
      EventKeeps(BookOf(events[..|events| - 1]), After(events[..|events| - 1]), events[|events| - 1]);
    }
  }

  // ---------------------------------------------------------------- record by record is event by event

  lemma NextBook(b: Book, e: Event, k: nat)
    requires AllWritable(b.records) && b.base <= |b.records|
    requires var c := BookAfter(b, e); c.base <= k < |c.records|
    ensures b.base <= k <= |b.records| && b.records[..k] == BookAfter(b, e).records[..k]
  {
    hide Complete, AllWritable;
  }

  lemma LastOf(events: seq<Event>)
    requires events != []
    ensures BookOf(events) == BookAfter(BookOf(events[..|events| - 1]), events[|events| - 1])
  {
    hide BookAfter;
  }

  /** The records from the last compaction on end where the events of the history end. */
  lemma {:induction false} Traced(events: seq<Event>, k: nat) returns (j: nat)
    requires AllFit(events) && BookOf(events).base <= k <= |BookOf(events).records|
    ensures j <= |events| && TableAfter(map[], BookOf(events).records[..k]) == After(events[..j]).table
  {
    hide *;
    HistoryKeeps(events);
    KeepsParts(BookOf(events), After(events));
    if k == |BookOf(events).records| {
      j := |events|;
      assert events[..j] == events && BookOf(events).records[..k] == BookOf(events).records;
    } else {
      NoRecords(events);
      var n := |events| - 1;
      AllFitBefore(events);
      HistoryKeeps(events[..n]);
      KeepsParts(BookOf(events[..n]), After(events[..n]));
      LastOf(events);
      NextBook(BookOf(events[..n]), events[n], k);
      j := Traced(events[..n], k);
      assert events[..n][..j] == events[..j];
    }
  }

  lemma NoRecords(events: seq<Event>)
    requires BookOf(events).records != []
    ensures events != []
  {
  }

  lemma KeepsParts(b: Book, s: Disk)
    requires Keeps(b, s)
    ensures AllWritable(b.records) && b.base <= |b.records|
    ensures s.wal == Log(b.records) && s.table == TableAfter(map[], b.records)
  {
  }

  /**
   Main result: for every history and every byte cut of its log, opening gives the table after
   the complete records of the cut, and a sound log of exactly these; unless the cut falls into
   a compacted part, that is the table after some prefix of the history, no batch in part.
   */
  lemma HistoryRecovers(events: seq<Event>, n: nat) returns (k: nat, j: nat)
    requires AllFit(events) && n <= |After(events).wal|
    ensures var b, r := BookOf(events), Replay(After(events).wal[..n], map[]);
      && AllWritable(b.records) && CompleteIn(b.records, k, n, map[])
      && r.table == TableAfter(map[], b.records[..k]) && GoodLog(After(events).wal[..r.used], r.table)
      && (b.base <= k ==> j <= |events| && r.table == After(events[..j]).table)
  {
    hide *;
    HistoryKeeps(events);
    KeepsParts(BookOf(events), After(events));
    var records, wal := BookOf(events).records, After(events).wal;
    k := CutRecovers(records, map[], n);
    RecoversComplete(records, k, n);
    StateAtIs(records, k, map[]);
    ReplayPrefix(wal[..n], map[]);
    var used := Replay(wal[..n], map[]).used;
    assert wal[..n][..used] == wal[..used];
    GoodLogIs(wal[..used], Replay(wal[..n], map[]).table);
    j := 0;
    if BookOf(events).base <= k {
      j := Traced(events, k);
    }
  }

  lemma RecoversComplete(records: seq<Record>, k: nat, n: nat)
    requires AllWritable(records) && n <= |Log(records)| && Recovers(records, k, n, map[])
    ensures k <= |records| && CompleteIn(records, k, n, map[]) && Replay(Log(records)[..n], map[]) == StateAt(records, k, map[])
  {
    hide Replay, StateAt, Log;
  }

  /** Without a cut nothing is lost. */
  lemma NothingLost(events: seq<Event>)
    requires AllFit(events)
    ensures GoodLog(After(events).wal, After(events).table)
  {
    hide *;
    HistoryKeeps(events);
    KeepsParts(BookOf(events), After(events));
    LogIsGood(BookOf(events).records);
  }

  // ---------------------------------------------------------------- a cut inside a compacted part

  /** At some time in the history the store held exactly this table. */
  ghost predicate Held(events: seq<Event>, t: Table) {
    exists j :: 0 <= j <= |events| && After(events[..j]).table == t
  }

  /** Where the k-th record ends, exactly k records are complete. */
  lemma CutBetween(records: seq<Record>, k: nat)
    requires AllWritable(records) && k < |records|
    ensures var n := |Log(records[..k])|; n <= |Log(records)| && CompleteIn(records, k, n, map[])
  {
    hide *;
    PrefixWritable(records, k);
    var n := |Log(records[..k])|;
    LogPrefixShorter(records, k);
    StateAtIs(records, k, map[]);
    StateAtIs(records, k + 1, map[]);
    assert records[..k + 1] == records[..k] + [records[k]];
    RecordWritable(records, k);
    LogAppend(records[..k], records[k]);
    RecordNonempty(records[k]);
    CompleteFrom(records, k, n);
  }

  lemma RecordWritable(records: seq<Record>, k: nat)
    requires AllWritable(records) && k < |records|
    ensures Writable(records[k])
  {
  }

  lemma RecordNonempty(r: Record)
    requires Writable(r)
    ensures |EncodeRecord(r)| > 0
  {
    hide Payload;
  }

  lemma CompleteFrom(records: seq<Record>, k: nat, n: nat)
    requires AllWritable(records) && k < |records| && StateAt(records, k, map[]).used <= n < StateAt(records, k + 1, map[]).used
    ensures CompleteIn(records, k, n, map[])
  {
  }

  lemma CutTable(events: seq<Event>, n: nat, k: nat)
    requires AllFit(events) && n <= |After(events).wal|
    requires var b := BookOf(events); AllWritable(b.records) && CompleteIn(b.records, k, n, map[])
    ensures k <= |BookOf(events).records| && Replay(After(events).wal[..n], map[]).table == TableAfter(map[], BookOf(events).records[..k])
  {
    hide *;
    var k', _ := HistoryRecovers(events, n);
    var records := BookOf(events).records;
    CompleteCount(records, k, n);
    CompleteCount(records, k', n);
    CompleteIs(records, |records|, n, k);
    CompleteIs(records, |records|, n, k');
  }

  lemma CompleteCount(records: seq<Record>, k: nat, n: nat)
    requires AllWritable(records) && CompleteIn(records, k, n, map[])
    ensures k <= |records|
  {
  }

  lemma TracedHeld(events: seq<Event>, k: nat)
    requires AllFit(events) && BookOf(events).base <= k <= |BookOf(events).records|
    ensures Held(events, TableAfter(map[], BookOf(events).records[..k]))
  {
    hide AllFit, BookOf, TableAfter, After;
    var j := Traced(events, k);
  }

  /**
   Main result, for every history: every byte cut of its log gives a table that the store has
   once held if and only if it has held, for each k, what the first k records of the
   compacted part build.
   */
  lemma CutsExact(events: seq<Event>)
    requires AllFit(events)
    ensures AllWritable(BookOf(events).records) && BookOf(events).base <= |BookOf(events).records|
    ensures (forall n :: 0 <= n <= |After(events).wal| ==> Held(events, Replay(After(events).wal[..n], map[]).table))
        <==> forall k :: 0 <= k < BookOf(events).base ==> Held(events, TableAfter(map[], BookOf(events).records[..k]))
  {
    hide *;
    HistoryKeeps(events);
    KeepsParts(BookOf(events), After(events));
    var b, wal := BookOf(events), After(events).wal;
    if forall k :: 0 <= k < b.base ==> Held(events, TableAfter(map[], b.records[..k])) {
      forall n | 0 <= n <= |wal|
        ensures Held(events, Replay(wal[..n], map[]).table)
      {
        var k, _ := HistoryRecovers(events, n);
        CompleteCount(b.records, k, n);
        if b.base <= k {
          TracedHeld(events, k);
        }
      }
    }
    if forall n :: 0 <= n <= |wal| ==> Held(events, Replay(wal[..n], map[]).table) {
      forall k | 0 <= k < b.base
        ensures Held(events, TableAfter(map[], b.records[..k]))
      {
        PrefixWritable(b.records, k);
        CutBetween(b.records, k);
        CutTable(events, |Log(b.records[..k])|, k);
      }
    }
  }

  /** The compacted part is what the last compaction wrote, less what crashes have cut off. */
  lemma {:induction false} LastCompaction(events: seq<Event>) returns (c: nat)
    requires AllFit(events) && 0 < BookOf(events).base
    ensures c < |events| && events[c].Compact? && IsSnapshot(events[c].records, After(events[..c]).table)
    ensures BookOf(events).base <= |events[c].records| && BookOf(events).base <= |BookOf(events).records|
    ensures BookOf(events).records[..BookOf(events).base] == events[c].records[..BookOf(events).base]
  {
    hide *;
    SomeEvents(events);
    var n := |events| - 1;
    AllFitBefore(events);
    HistoryKeeps(events);
    HistoryKeeps(events[..n]);
    KeepsParts(BookOf(events), After(events));
    KeepsParts(BookOf(events[..n]), After(events[..n]));
    LastOf(events);
    BaseOf(BookOf(events[..n]), After(events[..n]), events[n]);
    if events[n].Compact? {
      c := n;
    } else {
      c := LastCompaction(events[..n]);
      assert events[..n][..c] == events[..c];
    }
  }

  lemma SomeEvents(events: seq<Event>)
    requires 0 < BookOf(events).base
    ensures events != []
  {
  }

  lemma BaseOf(b: Book, s: Disk, e: Event)
    requires AllWritable(b.records) && b.base <= |b.records| && Fits(s, e)
    ensures var after := BookAfter(b, e);
      && (e.Compact? ==> after == Book(e.records, |e.records|) && IsSnapshot(e.records, s.table))
      && (!e.Compact? ==> after.base <= b.base && after.base <= |after.records| && after.records[..after.base] == b.records[..after.base])
  {
    hide AllWritable, IsSnapshot, Complete;
  }

  /** What the first k records of the compacted part build: k of the pairs live at that compaction. */
  lemma CompactedCut(events: seq<Event>, k: nat) returns (c: nat)
    requires AllFit(events) && k < BookOf(events).base
    ensures c < |events| && events[c].Compact? && k <= |events[c].records| && k <= |BookOf(events).records|
    ensures var t := After(events[..c]).table;
      && PutsOnce(events[c].records, t)
      && TableAfter(map[], BookOf(events).records[..k]) == FirstOf(events[c].records, k, t)
      && |FirstOf(events[c].records, k, t)| == k
  {
    hide AllFit, BookOf, TableAfter, After, FirstOf, PutsOnce, AllWritable;
    c := LastCompaction(events);
    var base, records, written := BookOf(events).base, BookOf(events).records, events[c].records;
    assert records[..k] == records[..base][..k] && written[..k] == written[..base][..k];
    SnapshotPart(written, k, After(events[..c]).table);
  }

  function FirstPut(): Op {
    Op(OP_PUT, [1], [])
  }

  function SecondPut(): Op {
    Op(OP_PUT, [2], [])
  }

  function OnePut(): Table {
    map[[1] := []]
  }

  function BothPut(): Table {
    map[[1] := [], [2] := []]
  }

  /** One batch of two puts, then a compaction. */
  function BatchThenCompact(): seq<Event> {
    [Commit([FirstPut(), SecondPut()]), Compact([Single(FirstPut()), Single(SecondPut())])]
  }

  lemma TwoPuts()
    ensures ApplyOps(map[], [FirstPut(), SecondPut()]) == BothPut()
    ensures TableAfter(map[], [Single(FirstPut()), Single(SecondPut())]) == BothPut()
    ensures ApplyOp(map[], FirstPut()) == OnePut() && OnePut() != BothPut()
  {
    var ops := [FirstPut(), SecondPut()];
    assert ops[..1] == [FirstPut()] && ops[..1][..0] == [];
    assert ApplyOps(map[], []) == map[];
    assert ApplyOps(map[], ops[..1]) == OnePut();
    var records := [Single(FirstPut()), Single(SecondPut())];
    assert records[1..] == [Single(SecondPut())] && records[1..][1..] == [];
    assert TableAfter(OnePut(), records[1..]) == BothPut();
    assert [2] !in OnePut() && [2] in BothPut();
  }

  lemma TwoPutsWritable()
    ensures Writable(Single(FirstPut())) && Writable(Single(SecondPut())) && Writable(Batch([FirstPut(), SecondPut()]))
    ensures ValidOps([FirstPut(), SecondPut()]) && OpsFit([FirstPut(), SecondPut()]) && |Payload(Batch([FirstPut(), SecondPut()]))| < WORD
  {
    PairWritable([1], []);
    PairWritable([2], []);
    var ops := [FirstPut(), SecondPut()];
    assert ops[1..] == [SecondPut()] && ops[1..][1..] == [];
    assert EncodeEntries([]) == [];
    assert |EncodeEntries(ops[1..])| == 10 && |EncodeEntries(ops)| == 20;
  }

  /** What is on the disk before and after the compaction. */
  lemma BatchThenCompactDisks()
    ensures var e := BatchThenCompact();
      && AllFit(e) && After(e[..0]) == Disk([], map[])
      && After(e[..1]).table == BothPut() && After(e[..2]).table == BothPut()
    ensures AllWritable([Single(FirstPut()), Single(SecondPut())])
      && After(BatchThenCompact()).wal == Log([Single(FirstPut()), Single(SecondPut())])
  {
    TwoPuts();
    TwoPutsWritable();
    hide Payload, EncodeRecord, Log, ApplyOps, Writable;
    var e, batch := BatchThenCompact(), [FirstPut(), SecondPut()];
    assert e[..0] == [] && e[..1] == [Commit(batch)] && e[..2] == e;
    assert [Commit(batch)][..0] == [];
    assert RecordsOf(Commit(batch)) == [Batch(batch)] && [Batch(batch)][1..] == [];
    assert TableAfter(map[], [Batch(batch)]) == ApplyOps(map[], batch);
    assert After(e[..1]) == Do(Disk([], map[]), Commit(batch));
    assert After(e) == Do(After(e[..1]), e[1]);
    assert Fits(Disk([], map[]), e[0]) && Fits(After(e[..1]), e[1]);
    hide After, Fits, Do;
    forall i | 0 <= i < |e|
      ensures Fits(After(e[..i]), e[i])
    {
      assert i == 0 || i == 1;
    }
  }

  /** A log of two records, cut after the first one. */
  lemma TwoRecordCut(a: Record, b: Record)
    requires Writable(a) && Writable(b)
    ensures AllWritable([a, b]) && |EncodeRecord(a)| <= |Log([a, b])|
    ensures Replay(Log([a, b])[..|EncodeRecord(a)|], map[]).table == ApplyRecord(map[], a)
  {
    hide EncodeRecord, Payload, Replay, ApplyRecord;
    LogOne(b);
    assert [a, b][1..] == [b];
    assert Log([a, b]) == EncodeRecord(a) + Log([b]);
    assert Log([a, b])[..|EncodeRecord(a)|] == EncodeRecord(a) + [];
    ReplayRecord(a, [], map[]);
    ReplayNothing(ApplyRecord(map[], a));
  }

  lemma FirstPutAlone()
    ensures ApplyRecord(map[], Single(FirstPut())) == ApplyOp(map[], FirstPut()) && OnePut() != map[] && |BatchThenCompact()| == 2
  {
    assert [1] in OnePut();
  }

  /**
   A compacted log holds one record for each pair, so a cut inside it can keep half of what
   one batch has written: a table that the store has never held.
   */
  lemma CompactedCutSplitsBatch(n: nat)
    requires n == |EncodeRecord(Single(FirstPut()))|
    ensures AllFit(BatchThenCompact()) && n <= |After(BatchThenCompact()).wal|
    ensures Replay(After(BatchThenCompact()).wal[..n], map[]).table == OnePut()
    ensures |BatchThenCompact()| == 2 && forall j :: 0 <= j <= 2 ==> After(BatchThenCompact()[..j]).table != OnePut()
  {
    hide *;
    TwoPuts();
    TwoPutsWritable();
    BatchThenCompactDisks();
    FirstPutAlone();
    TwoRecordCut(Single(FirstPut()), Single(SecondPut()));
    forall j | 0 <= j <= 2
      ensures After(BatchThenCompact()[..j]).table != OnePut()
    {
      assert j == 0 || j == 1 || j == 2;
    }
  }
}
