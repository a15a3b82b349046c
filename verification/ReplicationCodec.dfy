/** The wire format of log shipping: counted batches and pairs, and numbered records. */
module ReplicationCodec {
  import opened Wrappers
  import opened NttSpec
  import opened Digits
  import opened WalRecords
  import M = Modular

  const REC_SNAPSHOT: Byte := 0
  const REC_BATCH: Byte := 1
  const NET_PUT: Byte := 0
  const NET_DELETE: Byte := 1

  datatype Pair = Pair(key: Bytes, value: Bytes)

  datatype Taken = Taken(bytes: Bytes, rest: Bytes)

  // ---------------------------------------------------------------- length-prefixed bytes

  function PutBytes(x: Bytes): Bytes {
    Le32(|x|) + x
  }

  function TakeBytes(b: Bytes): (r: Option<Taken>)
    ensures r.Some? ==> |r.value.rest| + 4 <= |b|
  {
    if |b| < 4 then None
    else
      var n := Read32(Slice(b, 0, 4));
      if |b| < 4 + n then None else Some(Taken(Slice(b, 4, 4 + n), From(b, 4 + n)))
  }

  lemma TakeOfPut(x: Bytes, rest: Bytes)
    requires |x| < WORD
    ensures TakeBytes(PutBytes(x) + rest) == Some(Taken(x, rest))
  {
    hide Le32, Read32;
    var b := PutBytes(x) + rest;
    assert b == [] + Le32(|x|) + (x + rest);
    Read32At([], |x|, x + rest);
    assert b[4..4 + |x|] == x && b[4 + |x|..] == rest;
  }

  /** The counted lists start with their length. */
  lemma CountOf(n: nat, rest: Bytes)
    requires n < WORD
    ensures |Le32(n) + rest| >= 4
    ensures Read32(Slice(Le32(n) + rest, 0, 4)) == n && From(Le32(n) + rest, 4) == rest
  {
    hide Le32, Read32;
    assert [] + Le32(n) + rest == Le32(n) + rest;
    Read32At([], n, rest);
  }

  // ---------------------------------------------------------------- batches

  function EncodeChange(op: Op): Bytes
    requires ValidOp(op)
  {
    [if op.code == OP_DELETE then NET_DELETE else NET_PUT] + PutBytes(op.key) + PutBytes(op.value)
  }

  function EncodeChanges(ops: seq<Op>): Bytes
    requires ValidOps(ops)
  {
    if ops == [] then [] else EncodeChange(ops[0]) + EncodeChanges(ops[1..])
  }

  function EncodeBatch(ops: seq<Op>): Bytes
    requires ValidOps(ops)
  {
    Le32(|ops|) + EncodeChanges(ops)
  }

  datatype Change = Change(op: Op, rest: Bytes)

  function ChangeOf(code: Byte, key: Bytes, value: Bytes): Option<Op> {
    if code == NET_PUT then Some(Op(OP_PUT, key, value))
    else if code == NET_DELETE then Some(Op(OP_DELETE, key, []))
    else None
  }

  function DecodeChange(b: Bytes): Option<Change> {
    if b == [] then None
    else
      match TakeBytes(From(b, 1))
      case None => None
      case Some(k) =>
        match TakeBytes(k.rest)
        case None => None
        case Some(v) => if ChangeOf(b[0], k.bytes, v.bytes).Some? then Some(Change(ChangeOf(b[0], k.bytes, v.bytes).value, v.rest)) else None
  }

  /** `count` changes and nothing after them. */
  function DecodeChanges(b: Bytes, count: nat): Option<seq<Op>>
    decreases count
  {
    if count == 0 then if b == [] then Some([]) else None
    else
      match DecodeChange(b)
      case None => None
      case Some(c) =>
        match DecodeChanges(c.rest, count - 1)
        case None => None
        case Some(ops) => Some([c.op] + ops)
  }

  function DecodeBatch(b: Bytes): Option<seq<Op>> {
    if |b| < 4 then None else DecodeChanges(From(b, 4), Read32(Slice(b, 0, 4)))
  }

  predicate OpFits(op: Op) {
    |op.key| < WORD && |op.value| < WORD
  }

  predicate BatchFits(ops: seq<Op>) {
    |ops| < WORD && forall i :: 0 <= i < |ops| ==> OpFits(ops[i])
  }

  lemma ChangeRoundTrip(op: Op, rest: Bytes)
    requires ValidOp(op) && OpFits(op)
    ensures DecodeChange(EncodeChange(op) + rest) == Some(Change(op, rest))
  {
    hide TakeBytes, PutBytes;
    var b := EncodeChange(op) + rest;
    assert From(b, 1) == PutBytes(op.key) + (PutBytes(op.value) + rest);
    TakeOfPut(op.key, PutBytes(op.value) + rest);
    TakeOfPut(op.value, rest);
  }

  lemma {:induction false} ChangesRoundTrip(ops: seq<Op>)
    requires ValidOps(ops) && forall i :: 0 <= i < |ops| ==> OpFits(ops[i])
    ensures DecodeChanges(EncodeChanges(ops), |ops|) == Some(ops)
  {
    hide DecodeChange, EncodeChange;
    if ops != [] {
      ChangeRoundTrip(ops[0], EncodeChanges(ops[1..]));
      ChangesRoundTrip(ops[1..]);
      assert ops == [ops[0]] + ops[1..];
    }
  }

  lemma BatchRoundTrip(ops: seq<Op>)
    requires ValidOps(ops) && BatchFits(ops)
    ensures DecodeBatch(EncodeBatch(ops)) == Some(ops)
  {
    hide Le32, Read32, DecodeChanges, EncodeChanges;
    CountOf(|ops|, EncodeChanges(ops));
    ChangesRoundTrip(ops);
  }

  /** A decoded batch holds puts and bare deletes only. */
  lemma {:induction false} DecodedIsValid(b: Bytes, count: nat)
    ensures DecodeChanges(b, count).Some? ==> ValidOps(DecodeChanges(b, count).value)
    decreases count
  {
    hide TakeBytes;
    if count > 0 && DecodeChange(b).Some? {
      DecodedIsValid(DecodeChange(b).value.rest, count - 1);
    }
  }

  method DecodeBatchLoop(body: Bytes) returns (r: Option<seq<Op>>)
    ensures r == DecodeBatch(body)
  {
    hide DecodeChange, Read32;
    if |body| < 4 {
      return None;
    }
    var count := Read32(Slice(body, 0, 4));
    var rest := From(body, 4);
    var batch: seq<Op> := [];
    assert forall ops: seq<Op> :: batch + ops == ops;
    var i := 0;
    while i < count
      invariant 0 <= i <= count
      invariant DecodeBatch(body) == match DecodeChanges(rest, count - i) case None => None case Some(ops) => Some(batch + ops)
    {
      var c := DecodeChange(rest);
      if c.None? {
        return None;
      }
      MoveOp(batch, c.value.op, DecodeChanges(c.value.rest, count - i - 1));
      batch := batch + [c.value.op];
      rest := c.value.rest;
      i := i + 1;
    }
    assert batch + [] == batch;
    r := if rest == [] then Some(batch) else None;
  }

  lemma MoveOp(done: seq<Op>, op: Op, rest: Option<seq<Op>>)
    ensures rest.Some? ==> done + ([op] + rest.value) == (done + [op]) + rest.value
  {
  }

  // ---------------------------------------------------------------- pairs

  function EncodePair(p: Pair): Bytes {
    PutBytes(p.key) + PutBytes(p.value)
  }

  function EncodePairList(pairs: seq<Pair>): Bytes {
    if pairs == [] then [] else EncodePair(pairs[0]) + EncodePairList(pairs[1..])
  }

  function EncodePairs(pairs: seq<Pair>): Bytes {
    Le32(|pairs|) + EncodePairList(pairs)
  }

  datatype TakenPair = TakenPair(pair: Pair, rest: Bytes)

  function TakePair(b: Bytes): Option<TakenPair> {
    match TakeBytes(b)
    case None => None
    case Some(k) =>
      match TakeBytes(k.rest)
      case None => None
      case Some(v) => Some(TakenPair(Pair(k.bytes, v.bytes), v.rest))
  }

  function DecodePairList(b: Bytes, count: nat): Option<seq<Pair>>
    decreases count
  {
    if count == 0 then if b == [] then Some([]) else None
    else
      match TakePair(b)
      case None => None
      case Some(p) =>
        match DecodePairList(p.rest, count - 1)
        case None => None
        case Some(pairs) => Some([p.pair] + pairs)
  }

  function DecodePairs(b: Bytes): Option<seq<Pair>> {
    if |b| < 4 then None else DecodePairList(From(b, 4), Read32(Slice(b, 0, 4)))
  }

  predicate PairsFit(pairs: seq<Pair>) {
    |pairs| < WORD && forall i :: 0 <= i < |pairs| ==> |pairs[i].key| < WORD && |pairs[i].value| < WORD
  }

  lemma PairRoundTrip(p: Pair, rest: Bytes)
    requires |p.key| < WORD && |p.value| < WORD
    ensures TakePair(EncodePair(p) + rest) == Some(TakenPair(p, rest))
  {
    hide TakeBytes, PutBytes;
    assert EncodePair(p) + rest == PutBytes(p.key) + (PutBytes(p.value) + rest);
    TakeOfPut(p.key, PutBytes(p.value) + rest);
    TakeOfPut(p.value, rest);
  }

  lemma {:induction false} PairListRoundTrip(pairs: seq<Pair>)
    requires forall i :: 0 <= i < |pairs| ==> |pairs[i].key| < WORD && |pairs[i].value| < WORD
    ensures DecodePairList(EncodePairList(pairs), |pairs|) == Some(pairs)
  {
    hide TakePair, EncodePair;
    if pairs != [] {
      PairRoundTrip(pairs[0], EncodePairList(pairs[1..]));
      PairListRoundTrip(pairs[1..]);
      assert pairs == [pairs[0]] + pairs[1..];
    }
  }

  lemma PairsRoundTrip(pairs: seq<Pair>)
    requires PairsFit(pairs)
    ensures DecodePairs(EncodePairs(pairs)) == Some(pairs)
  {
    hide Le32, Read32, DecodePairList, EncodePairList;
    CountOf(|pairs|, EncodePairList(pairs));
    PairListRoundTrip(pairs);
  }

  // ---------------------------------------------------------------- records

  /** What is streamed to a follower: one snapshot, then batches. */
  datatype Message = SnapshotMsg(seqNo: nat, pairs: seq<Pair>) | BatchMsg(seqNo: nat, ops: seq<Op>)

  ghost predicate MessageFits(m: Message) {
    m.seqNo < Pow(256, 8) && match m case SnapshotMsg(_, pairs) => PairsFit(pairs) case BatchMsg(_, ops) => ValidOps(ops) && BatchFits(ops)
  }

  function Le64(n: nat): (b: Bytes)
    ensures |b| == 8
  {
    OfValueIsDigits(n, 8, 256);
    OfValue(n, 8, 256)
  }

  function Read64(b: Bytes): (n: nat)
    requires |b| == 8
  {
    ValueBound(b, 256);
    Eval(b, 256)
  }

  lemma Read64Of(n: nat)
    requires n < Pow(256, 8)
    ensures Read64(Le64(n)) == n
  {
    ValueOfValue(n, 8, 256);
  }

  function EncodeMessage(m: Message): Bytes
    requires m.BatchMsg? ==> ValidOps(m.ops)
  {
    match m
    case SnapshotMsg(n, pairs) => [REC_SNAPSHOT] + Le64(n) + EncodePairs(pairs)
    case BatchMsg(n, ops) => [REC_BATCH] + Le64(n) + EncodeBatch(ops)
  }

  function DecodeMessage(b: Bytes): Option<Message> {
    if |b| < 9 then None
    else
      var n := Read64(Slice(b, 1, 9));
      if b[0] == REC_SNAPSHOT then
        match DecodePairs(From(b, 9)) case None => None case Some(pairs) => Some(SnapshotMsg(n, pairs))
      else if b[0] == REC_BATCH then
        match DecodeBatch(From(b, 9)) case None => None case Some(ops) => Some(BatchMsg(n, ops))
      else None
  }

  lemma MessageParts(kind: Byte, n: nat, body: Bytes)
    requires n < Pow(256, 8)
    ensures var b := [kind] + Le64(n) + body; |b| >= 9 && b[0] == kind && Read64(Slice(b, 1, 9)) == n && From(b, 9) == body
  {
    hide Le64, Read64;
    Read64Of(n);
    assert ([kind] + Le64(n) + body)[1..9] == Le64(n);
  }

  lemma MessageRoundTrip(m: Message)
    requires MessageFits(m)
    ensures DecodeMessage(EncodeMessage(m)) == Some(m)
  {
    hide Le64, Read64, EncodePairs, DecodePairs, EncodeBatch, DecodeBatch;
    match m
    case SnapshotMsg(n, pairs) =>
      MessageParts(REC_SNAPSHOT, n, EncodePairs(pairs));
      PairsRoundTrip(pairs);
    case BatchMsg(n, ops) =>
      MessageParts(REC_BATCH, n, EncodeBatch(ops));
      BatchRoundTrip(ops);
  }
}
