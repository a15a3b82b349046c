/**
 Key rotation: the whole key space is rebuilt under a new master, with the same rows, the
 same audit history, and one more entry that records the rotation.
 */
module Rotation {
  import opened Wrappers
  import opened EngineData
  import opened Predicates
  import opened Tables
  import opened RowChanges
  import opened RangeBlobs
  import opened Queries
  import opened RowStatements
  import opened DataStatements
  import opened SchemaStatements
  import opened AuditChain
  import opened Database
  import opened PlanKeys

  // ---------------------------------------------------------------- what is carried over

  /** One table as read through the old master. */
  datatype Snapshot = Snapshot(schema: Schema, next: nat, rows: seq<Found>)

  function SnapshotOf(view: View, tag: Tag): Result<Snapshot, Error> {
    var schema :- ExpectSchema(view, tag);
    var next :- LoadSequence(view, tag);
    var rows :- FetchAll(view, tag, Sorted(RowIds(view, tag)));
    Success(Snapshot(schema, next, rows))
  }

  function AsInsertions(rows: seq<Found>): (changes: seq<Change>)
    ensures |changes| == |rows|
  {
    seq(|rows|, i requires 0 <= i < |rows| => Change(rows[i].id, None, Some(rows[i].cells)))
  }

  function BlobWrites(tag: Tag, rows: seq<Found>, cols: seq<nat>, nonces: Nonces): Batch {
    if cols == [] then map[]
    else
      var n := |cols| - 1;
      PutBlob(BlobWrites(tag, rows, cols[..n], nonces), tag, cols[n], SortEntries(EntriesOf(rows, cols[n])), nonces)
  }

  /** The batch that builds one table under the new master. */
  function Rebuild(tag: Tag, s: Snapshot, nonces: Nonces): Batch {
    ChangesWrites(tag, AsInsertions(s.rows), MaintainedColumns(s.schema), nonces) + RebuildExtra(tag, s, nonces)
  }

  function RebuildExtra(tag: Tag, s: Snapshot, nonces: Nonces): Batch {
    PutSchema(PutSequence(BlobWrites(tag, s.rows, RangedColumns(s.schema), nonces), tag, s.next, nonces), tag, s.schema, nonces)
  }

  /** The fresh store after the listed tables. */
  function Rebuilt(view: View, master: nat, target: nat, names: seq<string>, nonces: Nonces): Result<View, Error> {
    if names == [] then Success(map[])
    else
      var n := |names| - 1;
      var before :- Rebuilt(view, master, target, names[..n], nonces);
      var s :- SnapshotOf(view, Tag(master, names[n]));
      Success(Apply(Rebuild(Tag(target, s.schema.name), s, nonces), before))
  }

  /** The names in the sealed catalog records; every record must open. */
  function TableNames(view: View, master: nat): Result<set<string>, Error> {
    if forall k :: k in view && k.Catalog? ==> CatalogReads(view, master, k)
    then Success(set k | k in view.Keys && k.Catalog? && view[k].plain.SchemaPlain? :: view[k].plain.schema.name)
    else Failure(CorruptError)
  }

  predicate CatalogReads(view: View, master: nat, k: Key) {
    k in view && Open(CatalogCipher(master), view[k], k).Some? && view[k].plain.SchemaPlain?
  }

  predicate AuditReads(view: View, master: nat, k: Key) {
    k in view && Open(AuditCipher(master), view[k], k).Some?
  }

  /** The audit entries under the new audit key; the chain roots are over plain entries. */
  function CarriedAudit(view: View, master: nat, target: nat, nonces: Nonces): Result<Batch, Error> {
    if forall k :: k in view && k.Audit? ==> AuditReads(view, master, k)
    then Success(map k | k in view && k.Audit? :: Some(Seal(AuditCipher(target), nonces, view[k].plain, k)))
    else Failure(CryptoError)
  }

  datatype Turned = Turned(view: View, head: Head)

  /** `names` lists the tables in the order they are rebuilt. */
  function RotateTo(view: View, head: Head, master: nat, target: nat, names: seq<string>, env: Env): Result<Turned, Error> {
    var listed :- TableNames(view, master);
    var tables :- Rebuilt(view, master, target, names, env.nonces);
    var audit :- CarriedAudit(view, master, target, env.nonces);
    var c := WithAudit(head, target, env, Rotate, None, Zeros, map[]);
    Success(Turned(Apply(c.writes, Apply(audit, tables)), c.head))
  }

  function RotationEntry(head: Head, env: Env): AuditEntry {
    NewEntry(head, env.time, Rotate, None, Zeros)
  }

  /** Every table once. */
  ghost predicate Lists(names: seq<string>, view: View, master: nat) {
    && (forall t :: t in names <==> Catalog(Tag(master, t)) in view)
    && forall i, j :: 0 <= i < j < |names| ==> names[i] != names[j]
  }

  // ---------------------------------------------------------------- one table

  /** The same rows, schema and sequence under another tag. */
  ghost predicate Copied(view: View, tag: Tag, w: View, to: Tag) {
    && TableInv(w, to) && Catalog(to) in w && SchemaAt(w, to) == SchemaAt(view, tag) && SequenceAt(w, to) == SequenceAt(view, tag)
    && Sequence(to) in w && SameRowsAs(view, tag, w, to)
  }

  ghost predicate SameRowsAs(view: View, tag: Tag, w: View, to: Tag) {
    forall id: nat :: (Row(tag, id) in view <==> Row(to, id) in w) && Contents(view, tag, id) == Contents(w, to, id)
  }


  lemma EmptyKeys(view: View, tag: Tag)
    requires Empty(view, tag)
    ensures Catalog(tag) !in view && TableInv(view, tag)
    ensures forall id :: Row(tag, id) !in view
    ensures forall c, v, id :: Index(tag, c, v, id) !in view
    ensures forall c :: Range(tag, c) !in view
    ensures Sequence(tag) !in view
  {
    assert Owner(Catalog(tag)) == Some(tag);
    NoTableKeys(view, tag);
  }

  /** Inserting the rows of a snapshot into nothing. */
  lemma InsertionsOk(view: View, tag: Tag, bare: View, to: Tag, schema: Schema, rows: seq<Found>)
    requires RowsOk(view, tag, schema) && FoundOk(view, tag, rows) && Empty(bare, to)
    ensures ChangesOk(bare, to, schema, AsInsertions(rows))
    ensures RowsOk(bare, to, schema) && IndexOk(bare, to, schema)
  {
    EmptyKeys(bare, to);
    var changes := AsInsertions(rows);
    forall i | 0 <= i < |changes|
      ensures ChangeOk(bare, to, schema, changes[i])
    {
      assert Row(tag, rows[i].id) in view;
    }
  }

  lemma InsertedRows(view: View, tag: Tag, bare: View, to: Tag, rows: seq<Found>, cols: seq<nat>, nonces: Nonces)
    requires FoundOk(view, tag, rows) && (forall id :: Row(tag, id) in view ==> IsFound(rows, id)) && Empty(bare, to)
    ensures SameRowsAs(view, tag, Apply(ChangesWrites(to, AsInsertions(rows), cols, nonces), bare), to)
  {
    EmptyKeys(bare, to);
    var changes := AsInsertions(rows);
    var w := Apply(ChangesWrites(to, changes, cols, nonces), bare);
    forall id: nat
      ensures (Row(tag, id) in view <==> Row(to, id) in w) && Contents(view, tag, id) == Contents(w, to, id)
    {
      hide ChangesWrites, Apply;
      if IsFound(rows, id) {
        var i :| 0 <= i < |rows| && rows[i].id == id;
        RowAfterChanges(bare, to, changes, cols, nonces, i);
      } else {
        RowUntouched(bare, to, changes, cols, nonces, id);
      }
    }
  }

  /** The blob of column c is written, sorted from the rows. */
  ghost predicate BlobIn(b: Batch, tag: Tag, rows: seq<Found>, c: nat, nonces: Nonces) {
    Range(tag, c) in b
    && b[Range(tag, c)] == Some(Seal(TableCipher(tag), nonces, RangePlain(SortEntries(EntriesOf(rows, c))), Range(tag, c)))
  }

  lemma {:induction false} BlobWritesAt(tag: Tag, rows: seq<Found>, cols: seq<nat>, nonces: Nonces)
    ensures forall k :: k in BlobWrites(tag, rows, cols, nonces) <==> k.Range? && k.tag == tag && k.col in cols
    ensures forall c: nat :: c in cols ==> BlobIn(BlobWrites(tag, rows, cols, nonces), tag, rows, c, nonces)
  {
    hide SortEntries, EntriesOf;
    if cols != [] {
      var n := |cols| - 1;
      BlobWritesAt(tag, rows, cols[..n], nonces);
      assert cols == cols[..n] + [cols[n]];
    }
  }

  /** The catalog, sequence and blobs of the rebuilt table. */
  lemma ExtraKeys(tag: Tag, s: Snapshot, nonces: Nonces)
    ensures var e := RebuildExtra(tag, s, nonces);
      && (forall k :: k in e <==> k == Catalog(tag) || k == Sequence(tag) || (k.Range? && k.tag == tag && Ranged(s.schema, k.col)))
      && e[Catalog(tag)] == Some(Seal(CatalogCipher(tag.master), nonces, SchemaPlain(s.schema), Catalog(tag)))
      && e[Sequence(tag)] == Some(Seal(TableCipher(tag), nonces, SequencePlain(s.next), Sequence(tag)))
      && (forall c: nat :: Ranged(s.schema, c) ==> BlobIn(e, tag, s.rows, c, nonces))
  {
    hide BlobWrites, SortEntries, EntriesOf;
    BlobWritesAt(tag, s.rows, RangedColumns(s.schema), nonces);
  }

  lemma RebuildOwn(tag: Tag, s: Snapshot, nonces: Nonces)
    ensures OwnKeys(Rebuild(tag, s, nonces), tag)
  {
    ExtraKeys(tag, s, nonces);
    hide ChangesWrites, RebuildExtra;
    forall k | k in Rebuild(tag, s, nonces)
      ensures Owner(k) == Some(tag)
    {
      if k !in RebuildExtra(tag, s, nonces) {
        ChangesWritesKeys(tag, AsInsertions(s.rows), MaintainedColumns(s.schema), nonces, k);
      }
    }
  }

  /** The inserted rows write no other keys of the table. */
  lemma BaseKeys(tag: Tag, s: Snapshot, nonces: Nonces, k: Key)
    requires k in ChangesWrites(tag, AsInsertions(s.rows), MaintainedColumns(s.schema), nonces)
    ensures k.Row? || k.Index?
  {
    ChangesWritesKeys(tag, AsInsertions(s.rows), MaintainedColumns(s.schema), nonces, k);
  }

  /** A catalog, sequence or range key after rebuilding where nothing was. */
  lemma ExtraAt(bare: View, tag: Tag, s: Snapshot, nonces: Nonces, k: Key)
    requires Empty(bare, tag) && Owner(k) == Some(tag) && !k.Row? && !k.Index?
    ensures var w, e := Apply(Rebuild(tag, s, nonces), bare), RebuildExtra(tag, s, nonces);
      (k in w <==> k in e && e[k].Some?) && (k in w ==> w[k] == e[k].value)
  {
    hide ChangesWrites, RebuildExtra, Apply, MaintainedColumns;
    ApplyAt(Rebuild(tag, s, nonces), bare, k);
    if k in ChangesWrites(tag, AsInsertions(s.rows), MaintainedColumns(s.schema), nonces) {
      BaseKeys(tag, s, nonces, k);
    }
  }

  lemma ExtraKeepsRowKeys(bare: View, tag: Tag, s: Snapshot, nonces: Nonces)
    ensures SameRowsAndIndex(Apply(ChangesWrites(tag, AsInsertions(s.rows), MaintainedColumns(s.schema), nonces), bare),
                             Apply(Rebuild(tag, s, nonces), bare), tag)
  {
    var base, e := ChangesWrites(tag, AsInsertions(s.rows), MaintainedColumns(s.schema), nonces), RebuildExtra(tag, s, nonces);
    ExtraKeys(tag, s, nonces);
    hide ChangesWrites, RebuildExtra, Apply, MaintainedColumns, BlobIn, Ranged;
    ApplyTwice(base, e, bare);
    var v := Apply(base, bare);
    forall k: Key | (k.Row? || k.Index?) && k.tag == tag
      ensures SameKey(v, Apply(e, v), k)
    {
      ApplyAt(e, v, k);
    }
  }

  /** What the extra writes put where nothing was. */
  lemma ExtraAfter(bare: View, tag: Tag, s: Snapshot, nonces: Nonces)
    requires Empty(bare, tag)
    ensures var w := Apply(Rebuild(tag, s, nonces), bare);
      && Catalog(tag) in w && w[Catalog(tag)] == Seal(CatalogCipher(tag.master), nonces, SchemaPlain(s.schema), Catalog(tag))
      && Sequence(tag) in w && w[Sequence(tag)] == Seal(TableCipher(tag), nonces, SequencePlain(s.next), Sequence(tag))
      && (forall c: nat :: Range(tag, c) in w <==> Ranged(s.schema, c))
      && (forall c: nat :: Ranged(s.schema, c) ==>
            w[Range(tag, c)] == Seal(TableCipher(tag), nonces, RangePlain(SortEntries(EntriesOf(s.rows, c))), Range(tag, c)))
  {
    ExtraKeys(tag, s, nonces);
    hide Rebuild, RebuildExtra, Apply, SortEntries, EntriesOf, Ranged;
    assert Owner(Catalog(tag)) == Some(tag) && Owner(Sequence(tag)) == Some(tag);
    ExtraAt(bare, tag, s, nonces, Catalog(tag));
    ExtraAt(bare, tag, s, nonces, Sequence(tag));
    var w := Apply(Rebuild(tag, s, nonces), bare);
    forall c: nat
      ensures Range(tag, c) in w <==> Ranged(s.schema, c)
      ensures Ranged(s.schema, c) ==> w[Range(tag, c)] == Seal(TableCipher(tag), nonces, RangePlain(SortEntries(EntriesOf(s.rows, c))), Range(tag, c))
    {
      assert Owner(Range(tag, c)) == Some(tag);
      ExtraAt(bare, tag, s, nonces, Range(tag, c));
      assert Ranged(s.schema, c) ==> BlobIn(RebuildExtra(tag, s, nonces), tag, s.rows, c, nonces);
    }
  }

  lemma CellsCarried(view: View, tag: Tag, w: View, to: Tag, c: nat)
    requires SameRowsAs(view, tag, w, to) && DistinctCells(view, tag, c)
    ensures DistinctCells(w, to, c)
  {
    forall v, id
      ensures HasCell(w, to, c, v, id) <==> HasCell(view, tag, c, v, id)
    {
      assert Contents(view, tag, id) == Contents(w, to, id);
    }
  }

  lemma RowsCarried(view: View, tag: Tag, w: View, to: Tag, rows: seq<Found>)
    requires SameRowsAs(view, tag, w, to) && FoundOk(view, tag, rows) && forall id :: Row(tag, id) in view ==> IsFound(rows, id)
    ensures FoundOk(w, to, rows) && forall id :: Row(to, id) in w ==> IsFound(rows, id)
  {
  }

  lemma FreshRangeOk(w: View, to: Tag, schema: Schema, rows: seq<Found>, c: nat, nonces: Nonces)
    requires RowsOk(w, to, schema) && FoundOk(w, to, rows) && forall id :: Row(to, id) in w ==> IsFound(rows, id)
    requires Range(to, c) in w <==> Ranged(schema, c)
    requires Ranged(schema, c) ==> w[Range(to, c)] == Seal(TableCipher(to), nonces, RangePlain(SortEntries(EntriesOf(rows, c))), Range(to, c))
    ensures RangeOk(w, to, schema, c)
  {
    hide SortEntries, EntriesOf, BlobOk, IsFound, RowsOk;
    if Ranged(schema, c) {
      FreshBlobOk(w, to, schema, rows, c);
    }
  }

  lemma SnapshotReads(view: View, tag: Tag) returns (rows: seq<Found>)
    requires TableInv(view, tag) && Catalog(tag) in view
    ensures SnapshotOf(view, tag) == Success(Snapshot(SchemaAt(view, tag), SequenceAt(view, tag), rows))
    ensures FoundOk(view, tag, rows) && forall id :: Row(tag, id) in view ==> IsFound(rows, id)
  {
    hide TableInv, RowsOk, SequenceOk, FetchAll, ExpectSchema, LoadSequence, SchemaAt, SequenceAt;
    SchemaRead(view, tag);
    TableParts(view, tag);
    SequenceRead(view, tag);
    rows := AllRows(view, tag, SchemaAt(view, tag));
  }

  /** A table rebuilt where nothing was is right, and has the same rows. */
  lemma RebuildCopies(view: View, tag: Tag, bare: View, to: Tag, nonces: Nonces)
    requires TableInv(view, tag) && Catalog(tag) in view && to.table == tag.table && Empty(bare, to)
    ensures SnapshotOf(view, tag).Success? && SnapshotOf(view, tag).value.schema.name == tag.table
    ensures Copied(view, tag, Apply(Rebuild(to, SnapshotOf(view, tag).value, nonces), bare), to)
  {
    hide *;
    var rows := SnapshotReads(view, tag);
    TableParts(view, tag);
    var schema, next := SchemaAt(view, tag), SequenceAt(view, tag);
    var s := Snapshot(schema, next, rows);
    var changes, cols := AsInsertions(rows), MaintainedColumns(schema);
    var base, w := Apply(ChangesWrites(to, changes, cols, nonces), bare), Apply(Rebuild(to, s, nonces), bare);
    InsertionsOk(view, tag, bare, to, schema, rows);
    MaintainedAre(schema);
    ChangesKeepIndex(bare, to, schema, changes, |changes|, cols, nonces);
    assert changes[..|changes|] == changes;
    InsertedRows(view, tag, bare, to, rows, cols, nonces);
    ExtraAfter(bare, to, s, nonces);
    ExtraKeepsRowKeys(bare, to, s, nonces);
    FrameRows(base, w, to, schema);
    SameThrough(view, tag, base, w, to);
    RowsCarried(view, tag, w, to, rows);
    forall c: nat
      ensures RangeOk(w, to, schema, c)
    {
      FreshRangeOk(w, to, schema, rows, c, nonces);
    }
    forall c: nat | IsPrimary(schema, c)
      ensures DistinctCells(w, to, c)
    {
      PrimaryFacts(view, tag, schema, c);
      CellsCarried(view, tag, w, to, c);
    }
    CopiedFrom(view, tag, w, to, s, nonces);
  }

  lemma MaintainedAre(schema: Schema)
    ensures ListsMaintained(MaintainedColumns(schema), schema)
  {
  }

  lemma SameThrough(view: View, tag: Tag, base: View, w: View, to: Tag)
    requires SameRowsAs(view, tag, base, to)
    requires forall id :: Row(to, id) in base <==> Row(to, id) in w
    requires forall id :: Contents(base, to, id) == Contents(w, to, id)
    ensures SameRowsAs(view, tag, w, to)
  {
  }

  lemma CopiedFrom(view: View, tag: Tag, w: View, to: Tag, s: Snapshot, nonces: Nonces)
    requires CatalogOk(view, tag) && SequenceOk(view, tag) && to.table == tag.table
    requires s.schema == SchemaAt(view, tag) && s.next == SequenceAt(view, tag)
    requires Catalog(to) in w && w[Catalog(to)] == Seal(CatalogCipher(to.master), nonces, SchemaPlain(s.schema), Catalog(to))
    requires Sequence(to) in w && w[Sequence(to)] == Seal(TableCipher(to), nonces, SequencePlain(s.next), Sequence(to))
    requires RowsOk(w, to, s.schema) && IndexOk(w, to, s.schema) && (forall c: nat :: RangeOk(w, to, s.schema, c))
    requires forall c: nat :: IsPrimary(s.schema, c) ==> DistinctCells(w, to, c)
    requires SameRowsAs(view, tag, w, to)
    ensures Copied(view, tag, w, to) && s.schema.name == tag.table
  {
    hide RowsOk, IndexOk, RangeOk, DistinctCells;
    assert SequenceOk(w, to);
    assert SchemaAt(w, to) == s.schema;
    assert CatalogOk(w, to);
    TableFrom(w, to, s.schema);
  }

  // ---------------------------------------------------------------- all tables

  lemma CopiedFrame(view: View, tag: Tag, w: View, x: View, to: Tag)
    requires Copied(view, tag, w, to) && SameTable(w, x, to)
    ensures Copied(view, tag, x, to)
  {
    hide TableInv;
    FrameTable(w, x, to);
    SameTableParts(w, x, to);
    assert Owner(Catalog(to)) == Some(to) && Owner(Sequence(to)) == Some(to);
    forall id: nat
      ensures (Row(to, id) in w <==> Row(to, id) in x) && Contents(w, to, id) == Contents(x, to, id)
    {
      assert Owner(Row(to, id)) == Some(to);
    }
  }

  /** A fresh store that holds the first tables and nothing else. */
  ghost predicate HoldsTables(view: View, master: nat, w: View, target: nat, names: seq<string>) {
    && (forall t :: t in names ==> Copied(view, Tag(master, t), w, Tag(target, t)))
    && (forall t :: t !in names ==> Empty(w, Tag(target, t)))
    && (forall k :: k in w ==> Owner(k).Some? && Owner(k).value.master == target)
  }

  lemma OthersKept(b: Batch, v: View, tag: Tag, other: Tag)
    requires OwnKeys(b, tag) && other != tag
    ensures SameTable(v, Apply(b, v), other) && (Empty(v, other) ==> Empty(Apply(b, v), other))
  {
    forall k | Owner(k) == Some(other)
      ensures SameKey(v, Apply(b, v), k)
    {
      ApplyAt(b, v, k);
    }
  }

  lemma HoldsNext(view: View, master: nat, v: View, target: nat, names: seq<string>, t: string, b: Batch)
    requires HoldsTables(view, master, v, target, names) && t !in names && OwnKeys(b, Tag(target, t))
    requires Copied(view, Tag(master, t), Apply(b, v), Tag(target, t))
    ensures HoldsTables(view, master, Apply(b, v), target, names + [t])
  {
    hide Copied, Empty, SameTable, Apply;
    var w := Apply(b, v);
    forall x | x in names + [t]
      ensures Copied(view, Tag(master, x), w, Tag(target, x))
    {
      if x != t {
        OthersKept(b, v, Tag(target, t), Tag(target, x));
        CopiedFrame(view, Tag(master, x), v, w, Tag(target, x));
      }
    }
    forall x | x !in names + [t]
      ensures Empty(w, Tag(target, x))
    {
      OthersKept(b, v, Tag(target, t), Tag(target, x));
    }
    forall k | k in w
      ensures Owner(k).Some? && Owner(k).value.master == target
    {
      ApplyAt(b, v, k);
    }
  }

  lemma {:induction false} RebuiltHolds(view: View, master: nat, target: nat, names: seq<string>, nonces: Nonces)
    requires TablesInv(view, master) && forall t :: t in names ==> Catalog(Tag(master, t)) in view
    requires forall i, j :: 0 <= i < j < |names| ==> names[i] != names[j]
    ensures Rebuilt(view, master, target, names, nonces).Success?
    ensures HoldsTables(view, master, Rebuilt(view, master, target, names, nonces).value, target, names)
  {
    hide TableInv, Apply, SnapshotOf, Rebuild, Copied;
    if names != [] {
      var n := |names| - 1;
      var t := names[n];
      RebuiltHolds(view, master, target, names[..n], nonces);
      var before := Rebuilt(view, master, target, names[..n], nonces).value;
      assert t !in names[..n];
      RebuildCopies(view, Tag(master, t), before, Tag(target, t), nonces);
      var s := SnapshotOf(view, Tag(master, t)).value;
      RebuildOwn(Tag(target, t), s, nonces);
      HoldsNext(view, master, before, target, names[..n], t, Rebuild(Tag(target, t), s, nonces));
      assert names[..n] + [t] == names;
    }
  }

  // ---------------------------------------------------------------- the audit log

  lemma CarriedAt(view: View, master: nat, head: Head, entries: seq<AuditEntry>, tables: View, target: nat, env: Env, n: nat)
    requires AuditInv(view, master, head, entries) && forall k :: k in tables ==> Owner(k).Some?
    requires CarriedAudit(view, master, target, env.nonces).Success?
    ensures var v := Apply(CarriedAudit(view, master, target, env.nonces).value, tables);
      && (Audit(n) in v <==> n < |entries|)
      && (n < |entries| ==> v[Audit(n)] == Seal(AuditCipher(target), env.nonces, AuditPlain(entries[n]), Audit(n)))
      && AuditHead !in v
  {
    hide HeadOf, Chained;
    var b := CarriedAudit(view, master, target, env.nonces).value;
    assert Owner(Audit(n)) == None && Owner(AuditHead) == None;
    ApplyAt(b, tables, Audit(n));
    ApplyAt(b, tables, AuditHead);
  }

  lemma CarriedReads(view: View, master: nat, head: Head, entries: seq<AuditEntry>, target: nat, nonces: Nonces)
    requires AuditInv(view, master, head, entries)
    ensures CarriedAudit(view, master, target, nonces).Success?
  {
    hide HeadOf, Chained;
  }

  /** The tables of the fresh store with the carried entries, and the head it would have had. */
  lemma CarriedHolds(view: View, master: nat, head: Head, entries: seq<AuditEntry>, tables: View, target: nat, env: Env)
    requires AuditInv(view, master, head, entries) && forall k :: k in tables ==> Owner(k).Some?
    ensures CarriedAudit(view, master, target, env.nonces).Success?
    ensures var v := Apply(CarriedAudit(view, master, target, env.nonces).value, tables);
      AuditInv(WithHead(v, target, entries, env), target, head, entries)
  {
    hide HeadOf, Chained, CarriedAudit, Apply, AuditInv, AuditChain.Holds, WithHead, Seal, AuditCipher;
    CarriedReads(view, master, head, entries, target, env.nonces);
    InvParts(view, master, head, entries);
    var v := Apply(CarriedAudit(view, master, target, env.nonces).value, tables);
    CarriedAt(view, master, head, entries, tables, target, env, 0);
    forall n: nat
      ensures Audit(n) in v <==> n < |entries|
      ensures n < |entries| ==> v[Audit(n)] == Seal(AuditCipher(target), env.nonces, AuditPlain(entries[n]), Audit(n))
    {
      CarriedAt(view, master, head, entries, tables, target, env, n);
    }
    HoldsWithHead(v, target, entries, env);
    InvFrom(WithHead(v, target, entries, env), target, head, entries);
  }

  lemma HoldsWithHead(v: View, target: nat, entries: seq<AuditEntry>, env: Env)
    requires AuditHead !in v && forall n: nat :: Audit(n) in v <==> n < |entries|
    requires forall n: nat :: n < |entries| ==> v[Audit(n)] == Seal(AuditCipher(target), env.nonces, AuditPlain(entries[n]), Audit(n))
    ensures AuditChain.Holds(WithHead(v, target, entries, env), target, entries)
  {
    hide HeadOf;
  }

  function WithHead(v: View, target: nat, entries: seq<AuditEntry>, env: Env): View {
    if entries == [] then v else v[AuditHead := Seal(AuditCipher(target), env.nonces, HeadPlain(HeadOf(entries)), AuditHead)]
  }

  /** The new head overwrites the old one, so carrying it over would change nothing. */
  lemma HeadOverwritten(b: Batch, v: View, target: nat, entries: seq<AuditEntry>, env: Env)
    requires AuditHead in b
    ensures Apply(b, WithHead(v, target, entries, env)) == Apply(b, v)
  {
    forall k
      ensures k in Apply(b, WithHead(v, target, entries, env)) <==> k in Apply(b, v)
      ensures k in Apply(b, v) ==> Apply(b, WithHead(v, target, entries, env))[k] == Apply(b, v)[k]
    {
      ApplyAt(b, v, k);
      ApplyAt(b, WithHead(v, target, entries, env), k);
    }
  }

  lemma RotatedAudit(view: View, master: nat, head: Head, entries: seq<AuditEntry>, tables: View, target: nat, env: Env)
    requires AuditInv(view, master, head, entries) && forall k :: k in tables ==> Owner(k).Some?
    ensures CarriedAudit(view, master, target, env.nonces).Success?
    ensures var v, c := Apply(CarriedAudit(view, master, target, env.nonces).value, tables), WithAudit(head, target, env, Rotate, None, Zeros, map[]);
      AuditInv(Apply(c.writes, v), target, c.head, entries + [RotationEntry(head, env)])
  {
    hide AuditInv, Apply, CarriedAudit, HeadOf;
    CarriedHolds(view, master, head, entries, tables, target, env);
    var v, c := Apply(CarriedAudit(view, master, target, env.nonces).value, tables), WithAudit(head, target, env, Rotate, None, Zeros, map[]);
    CommitKeepsAudit(WithHead(v, target, entries, env), target, head, entries, env, Rotate, None, Zeros, map[]);
    HeadOverwritten(c.writes, v, target, entries, env);
  }

  // ---------------------------------------------------------------- the whole database

  /** Every table key is under the current master. */
  ghost predicate OneMaster(view: View, master: nat) {
    forall k :: k in view && Owner(k).Some? ==> Owner(k).value.master == master
  }

  lemma NamesRead(view: View, master: nat)
    requires AllNamed(view, master) && OneMaster(view, master)
    ensures TableNames(view, master).Success?
    ensures forall t :: t in TableNames(view, master).value <==> Catalog(Tag(master, t)) in view
  {
    forall k | k in view && k.Catalog?
      ensures CatalogReads(view, master, k) && view[k].plain.schema.name == k.tag.table && k.tag.master == master
    {
      assert Owner(k) == Some(k.tag);
      assert Named(view, Tag(master, k.tag.table));
    }
    forall t | Catalog(Tag(master, t)) in view
      ensures t in TableNames(view, master).value
    {
      var k := Catalog(Tag(master, t));
      assert k in view.Keys && view[k].plain.schema.name == t;
    }
  }

  /** Audit keys change no table. */
  lemma AuditOnly(b: Batch, v: View, tag: Tag)
    requires forall k :: k in b ==> Owner(k).None?
    ensures SameTable(v, Apply(b, v), tag)
  {
    forall k | Owner(k) == Some(tag)
      ensures SameKey(v, Apply(b, v), k)
    {
      ApplyAt(b, v, k);
    }
  }

  lemma SameTableTwice(u: View, v: View, w: View, tag: Tag)
    requires SameTable(u, v, tag) && SameTable(v, w, tag)
    ensures SameTable(u, w, tag)
  {
  }

  ghost predicate Rotated(view: View, master: nat, w: View, target: nat) {
    && (forall t: string :: Catalog(Tag(master, t)) in view ==> Copied(view, Tag(master, t), w, Tag(target, t)))
    && (forall t: string :: Catalog(Tag(master, t)) !in view ==> Empty(w, Tag(target, t)))
  }

  lemma AuditBatches(view: View, master: nat, head: Head, target: nat, env: Env)
    requires CarriedAudit(view, master, target, env.nonces).Success?
    ensures forall k :: k in CarriedAudit(view, master, target, env.nonces).value ==> Owner(k).None?
    ensures forall k :: k in WithAudit(head, target, env, Rotate, None, Zeros, map[]).writes ==> Owner(k).None?
  {
  }

  lemma EmptyFrame(v: View, w: View, tag: Tag)
    requires SameTable(v, w, tag) && Empty(v, tag)
    ensures Empty(w, tag)
  {
  }

  /** Putting the audit log on top leaves the tables as they were rebuilt. */
  lemma TablesUnderAudit(view: View, master: nat, tables: View, w: View, target: nat, names: seq<string>)
    requires HoldsTables(view, master, tables, target, names) && Lists(names, view, master)
    requires forall t: string :: SameTable(tables, w, Tag(target, t))
    ensures Rotated(view, master, w, target) && TablesInv(w, target)
  {
    hide Copied, Empty, SameTable, TableInv;
    forall t: string
      ensures Catalog(Tag(master, t)) in view ==> Copied(view, Tag(master, t), w, Tag(target, t))
      ensures Catalog(Tag(master, t)) !in view ==> Empty(w, Tag(target, t))
      ensures TableInv(w, Tag(target, t))
    {
      if t in names {
        CopiedFrame(view, Tag(master, t), tables, w, Tag(target, t));
        CopiedInv(view, Tag(master, t), w, Tag(target, t));
      } else {
        EmptyFrame(tables, w, Tag(target, t));
        EmptyKeys(w, Tag(target, t));
      }
    }
  }

  lemma CopiedInv(view: View, tag: Tag, w: View, to: Tag)
    requires Copied(view, tag, w, to)
    ensures TableInv(w, to)
  {
  }

  /**
   Main result: rotation succeeds in every sound state, keeps the invariant under the new
   master, copies every table row for row, and appends one entry to the history.
   */
  lemma RotationKeepsInv(view: View, head: Head, master: nat, entries: seq<AuditEntry>, target: nat, names: seq<string>, env: Env)
    requires DbInv(view, master, head, entries) && OneMaster(view, master) && Lists(names, view, master)
    ensures RotateTo(view, head, master, target, names, env).Success?
    ensures var r := RotateTo(view, head, master, target, names, env).value;
      && DbInv(r.view, target, r.head, entries + [RotationEntry(head, env)]) && OneMaster(r.view, target)
      && Rotated(view, master, r.view, target)
  {
    hide TableInv, AuditInv, CarriedAudit, Rebuilt, Apply, WithAudit, Copied, Empty, TablesInv, TableNames, SameTable, DbInv, OneMaster, Rotated, AllNamed;
    DbParts(view, master, head, entries, "");
    SoundIsNamed(view, master);
    NamesRead(view, master);
    RebuiltHolds(view, master, target, names, env.nonces);
    var tables := Rebuilt(view, master, target, names, env.nonces).value;
    RotatedAudit(view, master, head, entries, tables, target, env);
    AuditBatches(view, master, head, target, env);
    var b, c := CarriedAudit(view, master, target, env.nonces).value, WithAudit(head, target, env, Rotate, None, Zeros, map[]);
    RotatedTables(view, master, tables, target, names, b, c.writes);
    RotatedDb(Apply(c.writes, Apply(b, tables)), target, c.head, entries + [RotationEntry(head, env)]);
  }

  lemma RotatedDb(w: View, target: nat, head: Head, entries: seq<AuditEntry>)
    requires TablesInv(w, target) && AuditInv(w, target, head, entries)
    ensures DbInv(w, target, head, entries)
  {
  }

  /** Two audit batches on top of the rebuilt tables. */
  lemma RotatedTables(view: View, master: nat, tables: View, target: nat, names: seq<string>, b: Batch, c: Batch)
    requires HoldsTables(view, master, tables, target, names) && Lists(names, view, master)
    requires (forall k :: k in b ==> Owner(k).None?) && forall k :: k in c ==> Owner(k).None?
    ensures var w := Apply(c, Apply(b, tables));
      Rotated(view, master, w, target) && TablesInv(w, target) && OneMaster(w, target)
  {
    hide TableInv, Apply, Copied, Empty, TablesInv, SameTable;
    var v := Apply(b, tables);
    var w := Apply(c, v);
    forall t: string
      ensures SameTable(tables, w, Tag(target, t))
    {
      AuditOnly(b, tables, Tag(target, t));
      AuditOnly(c, v, Tag(target, t));
      SameTableTwice(tables, v, w, Tag(target, t));
    }
    TablesUnderAudit(view, master, tables, w, target, names);
    forall k | k in w && Owner(k).Some?
      ensures Owner(k).value.master == target
    {
      ApplyAt(c, v, k);
      ApplyAt(b, tables, k);
    }
  }
}
