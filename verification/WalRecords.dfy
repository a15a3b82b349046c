/** The record format of the write-ahead log: checksummed single operations and batches. */
module WalRecords {
  import opened Wrappers
  import opened NttSpec
  import opened Digits
  import Crc
  import M = Modular

  type Bytes = seq<Byte>

  const OP_PUT: Byte := 1
  const OP_DELETE: Byte := 2
  const OP_BATCH: Byte := 3
  const WORD: nat := 0x1_0000_0000

  datatype Op = Op(code: Byte, key: Bytes, value: Bytes)

  datatype Record = Single(op: Op) | Batch(ops: seq<Op>)

  // ---------------------------------------------------------------- 32-bit lengths

  lemma WordValue()
    ensures Pow(256, 4) == WORD
  {
    assert Pow(256, 2) == 65536;
    PowAdd(256, 2, 2);
  }

  /** The low 32 bits, little-endian. */
  function Le32(n: nat): (b: Bytes)
    ensures |b| == 4
  {
    OfValueIsDigits(n, 4, 256);
    OfValue(n, 4, 256)
  }

  function Read32(b: Bytes): (n: nat)
    requires |b| == 4
    ensures n < WORD
  {
    WordValue();
    ValueBound(b, 256);
    Eval(b, 256)
  }

  lemma Read32Of(n: nat)
    ensures Read32(Le32(n)) == n % WORD
  {
    WordValue();
    DigitsModulo(n, 4, 256);
  }

  // ---------------------------------------------------------------- encoding

  function EncodeEntry(op: Op): (b: Bytes)
    ensures |b| == 9 + |op.key| + |op.value|
  {
    [op.code] + Le32(|op.key|) + op.key + Le32(|op.value|) + op.value
  }

  /** PUT and DELETE only; a single operation never carries the batch code. */
  predicate ValidOp(op: Op) {
    op.code == OP_PUT || (op.code == OP_DELETE && op.value == [])
  }

  predicate ValidOps(ops: seq<Op>) {
    forall i :: 0 <= i < |ops| ==> ValidOp(ops[i])
  }

  predicate ValidRecord(r: Record) {
    match r
    case Single(op) => ValidOp(op)
    case Batch(ops) => ValidOps(ops)
  }

  function EncodeEntries(ops: seq<Op>): Bytes
    requires ValidOps(ops)
  {
    if ops == [] then [] else EncodeEntry(ops[0]) + EncodeEntries(ops[1..])
  }

  function Payload(r: Record): Bytes
    requires ValidRecord(r)
  {
    match r
    case Single(op) => EncodeEntry(op)
    case Batch(ops) => [OP_BATCH] + Le32(|ops|) + EncodeEntries(ops)
  }

  /** checksum | length | payload */
  function Frame(payload: Bytes): (b: Bytes)
    ensures |b| == 8 + |payload|
  {
    Le32(Crc.Crc32(payload)) + Le32(|payload|) + payload
  }

  function EncodeRecord(r: Record): Bytes
    requires ValidRecord(r)
  {
    Frame(Payload(r))
  }

  // ---------------------------------------------------------------- decoding

  datatype Entry = Entry(op: Op, size: nat)

  /** Decoded operations and the bytes after them. */
  datatype Split = Split(ops: seq<Op>, rest: Bytes)

  function Slice(b: Bytes, i: nat, j: nat): Bytes
    requires i <= j <= |b|
  {
    b[i..j]
  }

  function From(b: Bytes, i: nat): Bytes
    requires i <= |b|
  {
    b[i..]
  }

  function DecodeEntry(b: Bytes): (r: Option<Entry>)
    ensures r.Some? ==> r.value.size <= |b| && r.value.size == 9 + |r.value.op.key| + |r.value.op.value|
  {
    if |b| < 9 then None
    else
      var vstart := 5 + Read32(Slice(b, 1, 5));
      if |b| < vstart + 4 then None
      else
        var end := vstart + 4 + Read32(Slice(b, vstart, vstart + 4));
        if |b| < end then None
        else Some(Entry(Op(b[0], Slice(b, 5, vstart), Slice(b, vstart + 4, end)), end))
  }

  /** `count` entries from the front, and the bytes left. */
  function DecodeEntries(b: Bytes, count: nat): (r: Option<Split>)
    decreases count
  {
    if count == 0 then Some(Split([], b))
    else
      match DecodeEntry(b)
      case None => None
      case Some(e) =>
        match DecodeEntries(From(b, e.size), count - 1)
        case None => None
        case Some(rest) => Some(Split([e.op] + rest.ops, rest.rest))
  }

  function DecodePayload(p: Bytes): Option<Record>
    requires |p| >= 5
  {
    if p[0] == OP_BATCH then
      match DecodeEntries(From(p, 5), Read32(Slice(p, 1, 5)))
      case None => None
      case Some(r) => if r.rest == [] then Some(Batch(r.ops)) else None
    else
      match DecodeEntry(p)
      case None => None
      case Some(e) => if e.size == |p| then Some(Single(e.op)) else None
  }

  datatype Decoded = Decoded(size: nat, record: Record)

  function DecodeRecord(b: Bytes): (r: Option<Decoded>)
    ensures r.Some? ==> 13 <= r.value.size <= |b|
  {
    if |b| < 8 then None
    else
      var len := Read32(Slice(b, 4, 8));
      if |b| < 8 + len || len < 5 then None
      else
        var p := Slice(b, 8, 8 + len);
        if Crc.Crc32(p) != Read32(Slice(b, 0, 4)) then None
        else
          match DecodePayload(p)
          case None => None
          case Some(r) => Some(Decoded(8 + len, r))
  }

  // ---------------------------------------------------------------- round trips

  lemma Read32At(before: Bytes, n: nat, after: Bytes)
    requires n < WORD
    ensures Read32(Slice(before + Le32(n) + after, |before|, |before| + 4)) == n
  {
    hide Le32;
    var b := before + Le32(n) + after;
    assert b[|before|..|before| + 4] == Le32(n);
    Read32Of(n);
    M.Small(n, WORD);
  }

  /** The parts of an encoded entry, whatever follows it. */
  lemma EntryParts(op: Op, rest: Bytes)
    requires |op.key| < WORD && |op.value| < WORD
    ensures var b, vstart := EncodeEntry(op) + rest, 5 + |op.key|;
      && |b| >= vstart + 4 + |op.value| && b[0] == op.code && Read32(Slice(b, 1, 5)) == |op.key|
      && Read32(Slice(b, vstart, vstart + 4)) == |op.value|
  {
    hide Read32, Le32;
    var k, v := Le32(|op.key|), Le32(|op.value|);
    var b := EncodeEntry(op) + rest;
    var tail := op.key + v + op.value + rest;
    assert b == [op.code] + k + tail;
    Read32At([op.code], |op.key|, tail);
    var front := [op.code] + k + op.key;
    assert b == front + v + (op.value + rest);
    Read32At(front, |op.value|, op.value + rest);
  }

  lemma EntryFields(op: Op, rest: Bytes)
    ensures var b, vstart := EncodeEntry(op) + rest, 5 + |op.key|;
      && |b| >= vstart + 4 + |op.value|
      && b[5..vstart] == op.key && b[vstart + 4..vstart + 4 + |op.value|] == op.value
  {
    hide Le32;
    var k, v := Le32(|op.key|), Le32(|op.value|);
    assert EncodeEntry(op) + rest == ([op.code] + k) + op.key + (v + op.value + rest);
    assert EncodeEntry(op) + rest == ([op.code] + k + op.key + v) + op.value + rest;
  }

  lemma EntryRoundTrip(op: Op, rest: Bytes)
    requires |op.key| < WORD && |op.value| < WORD
    ensures DecodeEntry(EncodeEntry(op) + rest) == Some(Entry(op, |EncodeEntry(op)|))
  {
    EntryParts(op, rest);
    EntryFields(op, rest);
    hide Read32, Le32, EncodeEntry;
  }

  lemma DecodeNext(e: Bytes, op: Op, rest: Bytes, count: nat, ops: seq<Op>)
    requires DecodeEntry(e + rest) == Some(Entry(op, |e|))
    requires DecodeEntries(rest, count) == Some(Split(ops, []))
    ensures DecodeEntries(e + rest, count + 1) == Some(Split([op] + ops, []))
  {
    hide DecodeEntry;
    assert From(e + rest, |e|) == rest;
  }

  lemma {:induction false} EntriesRoundTrip(ops: seq<Op>)
    requires ValidOps(ops) && |EncodeEntries(ops)| < WORD
    ensures DecodeEntries(EncodeEntries(ops), |ops|) == Some(Split(ops, []))
  {
    if ops != [] {
      var e, rest := EncodeEntry(ops[0]), EncodeEntries(ops[1..]);
      EntryRoundTrip(ops[0], rest);
      hide DecodeEntry, EncodeEntry, DecodeEntries;
      EntriesRoundTrip(ops[1..]);
      DecodeNext(e, ops[0], rest, |ops| - 1, ops[1..]);
      assert ops == [ops[0]] + ops[1..];
    }
  }

  lemma {:induction false} CountFits(ops: seq<Op>)
    requires ValidOps(ops)
    ensures |ops| <= |EncodeEntries(ops)|
  {
    if ops != [] {
      CountFits(ops[1..]);
    }
  }

  lemma PayloadRoundTrip(r: Record)
    requires ValidRecord(r) && |Payload(r)| < WORD
    ensures |Payload(r)| >= 5 && DecodePayload(Payload(r)) == Some(r)
  {
    hide DecodeEntry, DecodeEntries, EncodeEntries, Read32, Le32;
    match r
    case Single(op) =>
      EntryRoundTrip(op, []);
      assert EncodeEntry(op) + [] == EncodeEntry(op);
    case Batch(ops) =>
      var es := EncodeEntries(ops);
      CountFits(ops);
      Read32At([OP_BATCH], |ops|, es);
      EntriesRoundTrip(ops);
      assert From(Payload(r), 5) == es;
  }

  lemma CrcFits(p: Bytes)
    ensures Crc.Crc32(p) < WORD
  {
    assert Pow(2, 8) == 256;
    hide Pow, Crc.Crc32;
    PowAdd(2, 8, 8);
    PowAdd(2, 16, 16);
  }

  /** Reading the two header words of a payload, whatever follows it. */
  lemma HeaderOf(c: nat, q: Bytes, rest: Bytes)
    requires c < WORD && |q| < WORD
    ensures var b := Le32(c) + Le32(|q|) + q + rest;
      Read32(Slice(b, 0, 4)) == c && Read32(Slice(b, 4, 8)) == |q| && Slice(b, 8, 8 + |q|) == q
  {
    hide Read32, Le32;
    var l := Le32(|q|);
    var b := Le32(c) + l + q + rest;
    assert b == [] + Le32(c) + (l + q + rest);
    Read32At([], c, l + q + rest);
    assert b == Le32(c) + l + (q + rest);
    Read32At(Le32(c), |q|, q + rest);
    assert b[8..8 + |q|] == q;
  }

  lemma FrameOf(p: Bytes, rest: Bytes)
    ensures Frame(p) + rest == Le32(Crc.Crc32(p)) + Le32(|p|) + p + rest
  {
    hide Crc.Crc32;
  }

  /** Main result: a record is read back whatever follows it, as long as its length fits 32 bits. */
  lemma RecordRoundTrip(r: Record, rest: Bytes)
    requires ValidRecord(r) && |Payload(r)| < WORD
    ensures DecodeRecord(EncodeRecord(r) + rest) == Some(Decoded(|EncodeRecord(r)|, r))
  {
    hide Payload, DecodePayload, Read32, Crc.Crc32, Frame;
    var p := Payload(r);
    CrcFits(p);
    HeaderOf(Crc.Crc32(p), p, rest);
    FrameOf(p, rest);
    PayloadRoundTrip(r);
  }

  /** A longer payload is not read back: its length field has wrapped around. */
  lemma OversizeLost(r: Record, rest: Bytes)
    requires ValidRecord(r) && |Payload(r)| >= WORD
    ensures DecodeRecord(EncodeRecord(r) + rest) != Some(Decoded(|EncodeRecord(r)|, r))
  {
    hide Payload, DecodePayload, Crc.Crc32, Le32;
  }

  /** A record is read back exactly when its length fits the 32-bit length field. */
  lemma RecordExact(r: Record, rest: Bytes)
    requires ValidRecord(r)
    ensures DecodeRecord(EncodeRecord(r) + rest) == Some(Decoded(|EncodeRecord(r)|, r)) <==> |Payload(r)| < WORD
  {
    hide Payload, DecodeRecord, EncodeRecord;
    if |Payload(r)| < WORD {
      RecordRoundTrip(r, rest);
    } else {
      OversizeLost(r, rest);
    }
  }

  /** An empty key with 2^32 zero bytes. */
  function OversizeRecord(): Record {
    Single(Op(OP_PUT, [], seq(WORD, i => 0)))
  }

  lemma OversizeRecordLost(rest: Bytes)
    ensures ValidRecord(OversizeRecord()) && |EncodeRecord(OversizeRecord())| > WORD
    ensures DecodeRecord(EncodeRecord(OversizeRecord()) + rest) != Some(Decoded(|EncodeRecord(OversizeRecord())|, OversizeRecord()))
  {
    OversizeLost(OversizeRecord(), rest);
    hide DecodeRecord, Le32, Crc.Crc32;
  }

  // ---------------------------------------------------------------- damage

  /** Every strict prefix of a record is recognised as torn. */
  lemma TornRecord(r: Record, n: nat)
    requires ValidRecord(r) && |Payload(r)| < WORD && n < |EncodeRecord(r)|
    ensures DecodeRecord(EncodeRecord(r)[..n]) == None
  {
    hide Payload, DecodePayload, Read32, Crc.Crc32, Frame;
    var b := EncodeRecord(r);
    var p := Payload(r);
    CrcFits(p);
    HeaderOf(Crc.Crc32(p), p, []);
    FrameOf(p, []);
    assert Frame(p) + [] == b;
    if n >= 8 {
      assert b[..n][4..8] == b[4..8];
    }
  }

  /** Main result: a payload altered only within four consecutive bytes is rejected. */
  lemma BurstRejected(p: Bytes, q: Bytes, i: nat, rest: Bytes)
    requires |p| == |q| < WORD && i + 4 <= |p| && p != q
    requires forall j :: 0 <= j < |p| && !(i <= j < i + 4) ==> p[j] == q[j]
    ensures DecodeRecord(Le32(Crc.Crc32(p)) + Le32(|p|) + q + rest) == None
  {
    Crc.BurstDetected(p, q, i);
    CrcFits(p);
    HeaderOf(Crc.Crc32(p), q, rest);
    WrongChecksum(Le32(Crc.Crc32(p)) + Le32(|p|) + q + rest, q);
  }

  lemma WrongChecksum(b: Bytes, q: Bytes)
    requires |b| >= 8 + |q| && Read32(Slice(b, 4, 8)) == |q| && Slice(b, 8, 8 + |q|) == q
    requires Read32(Slice(b, 0, 4)) != Crc.Crc32(q)
    ensures DecodeRecord(b) == None
  {
    hide Read32, Crc.Crc32, DecodePayload;
  }

  /** Decoding looks only at the record itself. */
  lemma DecodeStable(b: Bytes, rest: Bytes)
    requires DecodeRecord(b).Some?
    ensures var d := DecodeRecord(b).value;
      DecodeRecord(b[..d.size] + rest) == Some(d)
  {
    hide DecodePayload, Read32, Crc.Crc32;
    var d := DecodeRecord(b).value;
    var c := b[..d.size] + rest;
    assert c[0..4] == b[0..4] && c[4..8] == b[4..8] && c[8..d.size] == b[8..d.size];
  }

}
