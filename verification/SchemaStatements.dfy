/** CREATE and DROP of tables and indexes: their batches, and that they keep the table invariant. */
module SchemaStatements {
  import opened Wrappers
  import opened EngineData
  import opened Predicates
  import opened Tables
  import opened RowChanges
  import opened RangeBlobs
  import opened Queries
  import opened RowStatements
  import opened DataStatements

  /** A column as CREATE TABLE declares it: no index flags yet. */
  datatype ColumnDef = ColumnDef(name: string, ty: Type, primaryKey: bool)

  function PutSchema(b: Batch, tag: Tag, schema: Schema, nonces: Nonces): Batch {
    b[Catalog(tag) := Some(Seal(CatalogCipher(tag.master), nonces, SchemaPlain(schema), Catalog(tag)))]
  }

  // ---------------------------------------------------------------- CREATE TABLE

  function NewColumns(defs: seq<ColumnDef>): (r: seq<Column>)
    ensures |r| == |defs|
  {
    seq(|defs|, i requires 0 <= i < |defs| => Column(defs[i].name, defs[i].ty, defs[i].primaryKey, false, false))
  }

  predicate HasDuplicateName(defs: seq<ColumnDef>) {
    exists i, j :: 0 <= i < j < |defs| && defs[i].name == defs[j].name
  }

  predicate HasTwoPrimaries(defs: seq<ColumnDef>) {
    exists i, j :: 0 <= i < j < |defs| && defs[i].primaryKey && defs[j].primaryKey
  }

  function CreateTablePlan(view: View, tag: Tag, defs: seq<ColumnDef>, nonces: Nonces): Result<Plan, Error> {
    var existing :- LookupSchema(view, tag);
    if existing.Some? || HasDuplicateName(defs) || HasTwoPrimaries(defs) then Failure(SchemaError)
    else Success(Plan(0, PutSchema(map[], tag, Schema(tag.table, NewColumns(defs)), nonces)))
  }

  lemma NewSchemaOk(tag: Tag, defs: seq<ColumnDef>)
    requires !HasDuplicateName(defs) && !HasTwoPrimaries(defs)
    ensures SchemaOk(Schema(tag.table, NewColumns(defs)), tag)
    ensures forall c :: !Ranged(Schema(tag.table, NewColumns(defs)), c)
  {
    var s := Schema(tag.table, NewColumns(defs));
    forall c: nat, d: nat | IsPrimary(s, c) && IsPrimary(s, d)
      ensures c == d
    {
      assert defs[c].primaryKey && defs[d].primaryKey;
    }
    forall c, d | 0 <= c < d < |s.columns|
      ensures s.columns[c].name != s.columns[d].name
    {
      assert defs[c].name != defs[d].name;
    }
  }

  lemma NoTableKeys(view: View, tag: Tag)
    requires TableInv(view, tag) && Catalog(tag) !in view
    ensures forall id :: Row(tag, id) !in view
    ensures forall c, v, id :: Index(tag, c, v, id) !in view
    ensures forall c :: Range(tag, c) !in view
    ensures Sequence(tag) !in view
  {
    assert Owner(Sequence(tag)) == Some(tag);
    assert forall id :: Owner(Row(tag, id)) == Some(tag);
    assert forall c, v, id :: Owner(Index(tag, c, v, id)) == Some(tag);
    assert forall c :: Owner(Range(tag, c)) == Some(tag);
  }

  lemma CreateTableKeeps(view: View, tag: Tag, defs: seq<ColumnDef>, nonces: Nonces)
    requires TableInv(view, tag) && CreateTablePlan(view, tag, defs, nonces).Success?
    ensures var b := CreateTablePlan(view, tag, defs, nonces).value.writes;
      TableInv(Apply(b, view), tag) && OwnKeys(b, tag)
  {
    SchemaRead(view, tag);
    NoTableKeys(view, tag);
    NewSchemaOk(tag, defs);
    var schema := Schema(tag.table, NewColumns(defs));
    var b := CreateTablePlan(view, tag, defs, nonces).value.writes;
    var w := Apply(b, view);
    assert forall k :: k in w <==> k == Catalog(tag) || k in view;
    hide NewColumns, SchemaOk, LookupSchema;
    assert SchemaAt(w, tag) == schema;
    EmptyContents(w, tag, schema);
  }

  lemma EmptyContents(w: View, tag: Tag, schema: Schema)
    requires (forall id :: Row(tag, id) !in w) && (forall c, v, id :: Index(tag, c, v, id) !in w)
    requires (forall c :: Range(tag, c) !in w) && Sequence(tag) !in w && forall c :: !Ranged(schema, c)
    ensures ContentsInv(w, tag, schema)
  {
  }

  // ---------------------------------------------------------------- CREATE INDEX and DROP INDEX

  function SetIndexed(schema: Schema, c: nat, on: bool): (r: Schema)
    requires c < |schema.columns|
    ensures |r.columns| == |schema.columns| && r.name == schema.name
  {
    schema.(columns := schema.columns[c := schema.columns[c].(indexed := on)])
  }

  function SetRanged(schema: Schema, c: nat, on: bool): (r: Schema)
    requires c < |schema.columns|
    ensures |r.columns| == |schema.columns| && r.name == schema.name
  {
    schema.(columns := schema.columns[c := schema.columns[c].(rangeIndexed := on)])
  }

  /** The index entries of existing rows. */
  function Backfill(tag: Tag, c: nat, found: seq<Found>, nonces: Nonces): Batch {
    if found == [] then map[]
    else
      var n := |found| - 1;
      var b := Backfill(tag, c, found[..n], nonces);
      if c < |found[n].cells| && found[n].cells[c] != Null then PutMarker(b, tag, c, found[n].cells[c], found[n].id, nonces) else b
  }

  function CreateIndexPlan(view: View, tag: Tag, column: string, nonces: Nonces): Result<Plan, Error> {
    var schema :- ExpectSchema(view, tag);
    var c :- Resolve(schema, column);
    if schema.columns[c].primaryKey || schema.columns[c].indexed then Failure(SchemaError)
    else
      var found :- FetchAll(view, tag, Sorted(RowIds(view, tag)));
      Success(Plan(0, PutSchema(Backfill(tag, c, found, nonces), tag, SetIndexed(schema, c, true), nonces)))
  }

  function DropIndexPlan(view: View, tag: Tag, column: string, nonces: Nonces): Result<Plan, Error> {
    var schema :- ExpectSchema(view, tag);
    var c :- Resolve(schema, column);
    if !schema.columns[c].indexed then Failure(SchemaError)
    else
      var b := map k | k in view && k.Index? && k.tag == tag && k.col == c :: None;
      Success(Plan(0, PutSchema(b, tag, SetIndexed(schema, c, false), nonces)))
  }

  /** The stored rows in id order. */
  lemma AllRows(view: View, tag: Tag, schema: Schema) returns (found: seq<Found>)
    requires RowsOk(view, tag, schema)
    ensures FetchAll(view, tag, Sorted(RowIds(view, tag))) == Success(found)
    ensures FoundOk(view, tag, found) && forall id :: Row(tag, id) in view ==> IsFound(found, id)
  {
    var ids := Sorted(RowIds(view, tag));
    FetchRead(view, tag, schema, ids);
    AscendingNoRepeats(ids);
    PresentOk(view, tag, ids);
    found := Present(view, tag, ids);
    forall id | Row(tag, id) in view
      ensures IsFound(found, id)
    {
      assert id in ids;
      PresentAll(view, tag, ids, id);
    }
  }

  ghost predicate IsFound(found: seq<Found>, id: nat) {
    exists i :: 0 <= i < |found| && found[i].id == id
  }

  lemma {:induction false} PresentAll(view: View, tag: Tag, ids: seq<nat>, id: nat)
    requires id in ids && Row(tag, id) in view
    ensures IsFound(Present(view, tag, ids), id)
  {
    var n := |ids| - 1;
    var p := Present(view, tag, ids);
    if ids[n] == id {
      assert p[|p| - 1].id == id;
    } else {
      assert ids == ids[..n] + [ids[n]];
      PresentAll(view, tag, ids[..n], id);
      var r := Present(view, tag, ids[..n]);
      var i :| 0 <= i < |r| && r[i].id == id;
      assert p[i].id == id;
    }
  }

  predicate IsCell(row: Found, c: nat, v: Value, id: nat) {
    row.id == id && c < |row.cells| && row.cells[c] == v && v != Null
  }

  ghost predicate FoundCell(found: seq<Found>, c: nat, v: Value, id: nat) {
    exists i :: 0 <= i < |found| && IsCell(found[i], c, v, id)
  }

  lemma FoundCells(view: View, tag: Tag, found: seq<Found>, c: nat)
    requires FoundOk(view, tag, found) && forall id :: Row(tag, id) in view ==> IsFound(found, id)
    ensures forall v, id :: FoundCell(found, c, v, id) <==> HasCell(view, tag, c, v, id)
  {
    forall v, id | HasCell(view, tag, c, v, id)
      ensures FoundCell(found, c, v, id)
    {
      var i :| 0 <= i < |found| && found[i].id == id;
      assert IsCell(found[i], c, v, id);
    }
  }

  lemma {:induction false} BackfillAt(tag: Tag, c: nat, found: seq<Found>, nonces: Nonces)
    ensures forall k :: k in Backfill(tag, c, found, nonces) <==> k.Index? && k.tag == tag && k.col == c && FoundCell(found, c, k.value, k.id)
    ensures forall k :: k in Backfill(tag, c, found, nonces) ==>
      Backfill(tag, c, found, nonces)[k] == Some(Seal(TableCipher(tag), nonces, Marker, k))
  {
    if found != [] {
      var n := |found| - 1;
      BackfillAt(tag, c, found[..n], nonces);
      forall v, id
        ensures FoundCell(found, c, v, id) <==> FoundCell(found[..n], c, v, id) || IsCell(found[n], c, v, id)
      {
        if FoundCell(found[..n], c, v, id) {
          var i :| 0 <= i < n && IsCell(found[..n][i], c, v, id);
          assert IsCell(found[i], c, v, id);
        }
      }
      hide FoundCell;
    }
  }

  /** The same rows, and nothing but index flags changed in the schema. */
  ghost predicate SameRows(view: View, w: View, tag: Tag) {
    forall id :: (Row(tag, id) in view <==> Row(tag, id) in w) && (Row(tag, id) in view ==> view[Row(tag, id)] == w[Row(tag, id)])
  }

  ghost predicate SameTypes(schema: Schema, s: Schema) {
    && s.name == schema.name && |s.columns| == |schema.columns|
    && forall c :: 0 <= c < |s.columns| ==> SameType(schema.columns[c], s.columns[c])
  }

  predicate SameType(a: Column, b: Column) {
    a.name == b.name && a.ty == b.ty && a.primaryKey == b.primaryKey
  }

  lemma SameRowsCells(view: View, w: View, tag: Tag)
    requires SameRows(view, w, tag)
    ensures forall id :: Contents(w, tag, id) == Contents(view, tag, id)
    ensures forall c, v, id :: HasCell(w, tag, c, v, id) <==> HasCell(view, tag, c, v, id)
  {
  }

  lemma FlagKeepsRows(view: View, w: View, tag: Tag, schema: Schema, s: Schema)
    requires SameRows(view, w, tag) && SameTypes(schema, s) && RowsOk(view, tag, schema) && PrimaryOk(view, tag, schema)
    ensures RowsOk(w, tag, s) && PrimaryOk(w, tag, s)
  {
    SameRowsCells(view, w, tag);
    forall id | Row(tag, id) in w
      ensures Typed(Contents(w, tag, id), s)
    {
      assert Typed(Contents(view, tag, id), schema);
      assert forall c :: 0 <= c < |s.columns| ==> SameType(schema.columns[c], s.columns[c]);
    }
    forall c: nat | IsPrimary(s, c)
      ensures DistinctCells(w, tag, c)
    {
      assert SameType(schema.columns[c], s.columns[c]);
      assert IsPrimary(schema, c);
    }
  }

  lemma FlagKeepsSequence(view: View, w: View, tag: Tag)
    requires SameRows(view, w, tag) && SequenceOk(view, tag)
    requires Sequence(tag) in view <==> Sequence(tag) in w
    requires Sequence(tag) in view ==> view[Sequence(tag)] == w[Sequence(tag)]
    ensures SequenceOk(w, tag)
  {
  }

  /** The index of column x is untouched. */
  ghost predicate SameIndex(view: View, w: View, tag: Tag, x: nat) {
    forall v, id :: (Index(tag, x, v, id) in view <==> Index(tag, x, v, id) in w)
      && (Index(tag, x, v, id) in view ==> view[Index(tag, x, v, id)] == w[Index(tag, x, v, id)])
  }

  /** The index of column x is right. */
  ghost predicate ColumnIndexOk(view: View, tag: Tag, schema: Schema, x: nat) {
    && (forall v, id: nat :: Index(tag, x, v, id) in view <==> Maintained(schema, x) && HasCell(view, tag, x, v, id))
    && (forall v, id: nat :: Index(tag, x, v, id) in view ==> Boxed(view, TableCipher(tag), Index(tag, x, v, id)))
  }

  lemma FlagKeepsIndex(view: View, w: View, tag: Tag, schema: Schema, s: Schema, c: nat)
    requires SameRows(view, w, tag) && IndexOk(view, tag, schema) && ColumnIndexOk(w, tag, s, c)
    requires forall x: nat :: x != c ==> SameIndex(view, w, tag, x) && Maintained(s, x) == Maintained(schema, x)
    ensures IndexOk(w, tag, s)
  {
    SameRowsCells(view, w, tag);
    forall x: nat, v, id: nat
      ensures Index(tag, x, v, id) in w <==> Maintained(s, x) && HasCell(w, tag, x, v, id)
      ensures Index(tag, x, v, id) in w ==> Boxed(w, TableCipher(tag), Index(tag, x, v, id))
    {
      if x != c {
        assert SameIndex(view, w, tag, x);
      }
    }
  }

  lemma FlagKeepsRanges(view: View, w: View, tag: Tag, schema: Schema, s: Schema, c: nat)
    requires SameRows(view, w, tag) && RangesOk(view, tag, schema) && RangeOk(w, tag, s, c)
    requires forall x: nat :: x != c ==> SameRange(view, w, tag, x) && Ranged(s, x) == Ranged(schema, x)
    ensures RangesOk(w, tag, s)
  {
    SameRowsCells(view, w, tag);
    forall x: nat
      ensures RangeOk(w, tag, s, x)
    {
      if x != c {
        assert RangeOk(view, tag, schema, x) && SameRange(view, w, tag, x);
        BlobFrame(view, w, tag, x, BlobAt(view, tag, x));
      }
    }
  }

  ghost predicate SameRange(view: View, w: View, tag: Tag, x: nat) {
    (Range(tag, x) in view <==> Range(tag, x) in w) && (Range(tag, x) in view ==> view[Range(tag, x)] == w[Range(tag, x)])
  }

  /** Only the index entries or the blob of column c, and the schema, are written. */
  ghost predicate OnlyColumn(b: Batch, tag: Tag, c: nat) {
    forall k :: k in b ==> k == Catalog(tag) || (k.Index? && k.tag == tag && k.col == c) || k == Range(tag, c)
  }

  lemma ColumnFrame(view: View, b: Batch, tag: Tag, c: nat)
    requires OnlyColumn(b, tag, c)
    ensures var w := Apply(b, view);
      && SameRows(view, w, tag) && (forall x: nat :: x != c ==> SameIndex(view, w, tag, x) && SameRange(view, w, tag, x))
      && (Sequence(tag) in view <==> Sequence(tag) in w) && (Sequence(tag) in view ==> view[Sequence(tag)] == w[Sequence(tag)])
    ensures OwnKeys(b, tag)
  {
  }

  lemma FlagSchemaOk(schema: Schema, s: Schema, tag: Tag)
    requires SchemaOk(schema, tag) && SameTypes(schema, s)
    requires forall c :: 0 <= c < |s.columns| ==> !(s.columns[c].primaryKey && s.columns[c].indexed)
    ensures SchemaOk(s, tag)
  {
    assert forall c :: 0 <= c < |s.columns| ==> SameType(schema.columns[c], s.columns[c]);
    assert forall c: nat :: IsPrimary(s, c) <==> IsPrimary(schema, c);
  }

  /** A statement about one column's index or blob, with a schema that differs in that column's flags. */
  lemma FlagKeepsTable(view: View, tag: Tag, schema: Schema, s: Schema, c: nat, b: Batch, nonces: Nonces)
    requires TableInv(view, tag) && Catalog(tag) in view && schema == SchemaAt(view, tag) && OnlyColumn(b, tag, c)
    requires SameTypes(schema, s) && forall x :: 0 <= x < |s.columns| ==> !(s.columns[x].primaryKey && s.columns[x].indexed)
    requires Catalog(tag) in b && b[Catalog(tag)] == Some(Seal(CatalogCipher(tag.master), nonces, SchemaPlain(s), Catalog(tag)))
    requires forall x: nat :: x != c ==> Maintained(s, x) == Maintained(schema, x) && Ranged(s, x) == Ranged(schema, x)
    requires ColumnIndexOk(Apply(b, view), tag, s, c) && RangeOk(Apply(b, view), tag, s, c)
    ensures TableInv(Apply(b, view), tag) && OwnKeys(b, tag)
  {
    var w := Apply(b, view);
    TableParts(view, tag);
    ApplyAt(b, view, Catalog(tag));
    assert Catalog(tag) in w && w[Catalog(tag)] == Seal(CatalogCipher(tag.master), nonces, SchemaPlain(s), Catalog(tag));
    ColumnFrame(view, b, tag, c);
    FlagSchemaOk(schema, s, tag);
    CatalogFrom(w, tag, s);
    hide *;
    FlagKeepsRows(view, w, tag, schema, s);
    FlagKeepsSequence(view, w, tag);
    FlagKeepsIndex(view, w, tag, schema, s, c);
    FlagKeepsRanges(view, w, tag, schema, s, c);
    TableFromParts(w, tag, s);
  }

  lemma CatalogFrom(w: View, tag: Tag, s: Schema)
    requires SchemaOk(s, tag) && Catalog(tag) in w && w[Catalog(tag)].plain == SchemaPlain(s)
    requires Boxed(w, CatalogCipher(tag.master), Catalog(tag))
    ensures CatalogOk(w, tag) && SchemaAt(w, tag) == s
  {
  }

  lemma TableFromParts(w: View, tag: Tag, s: Schema)
    requires Catalog(tag) in w && CatalogOk(w, tag) && SchemaAt(w, tag) == s
    requires RowsOk(w, tag, s) && IndexOk(w, tag, s) && RangesOk(w, tag, s) && SequenceOk(w, tag) && PrimaryOk(w, tag, s)
    ensures TableInv(w, tag)
  {
  }

  lemma FlagColumns(schema: Schema, tag: Tag, c: nat, on: bool)
    requires SchemaOk(schema, tag) && c < |schema.columns|
    ensures SameTypes(schema, SetIndexed(schema, c, on)) && SameTypes(schema, SetRanged(schema, c, on))
    ensures forall x: nat :: x != c ==>
      Maintained(SetIndexed(schema, c, on), x) == Maintained(schema, x) && Ranged(SetIndexed(schema, c, on), x) == Ranged(schema, x)
    ensures forall x: nat :: x != c ==>
      Maintained(SetRanged(schema, c, on), x) == Maintained(schema, x) && Ranged(SetRanged(schema, c, on), x) == Ranged(schema, x)
    ensures Ranged(SetIndexed(schema, c, on), c) == Ranged(schema, c) && Maintained(SetRanged(schema, c, on), c) == Maintained(schema, c)
    ensures Ranged(SetRanged(schema, c, on), c) == on
    ensures !schema.columns[c].primaryKey ==> Maintained(SetIndexed(schema, c, on), c) == on
    ensures var s := SetRanged(schema, c, on);
      forall x :: 0 <= x < |s.columns| ==> !(s.columns[x].primaryKey && s.columns[x].indexed)
    ensures var s := SetIndexed(schema, c, on);
      !schema.columns[c].primaryKey || !on ==> forall x :: 0 <= x < |s.columns| ==> !(s.columns[x].primaryKey && s.columns[x].indexed)
  {
  }

  /** The blob of a column that the statement does not touch. */
  lemma BlobUntouched(view: View, b: Batch, tag: Tag, schema: Schema, s: Schema, c: nat)
    requires RangesOk(view, tag, schema) && OnlyColumn(b, tag, c) && Range(tag, c) !in b && Ranged(s, c) == Ranged(schema, c)
    ensures RangeOk(Apply(b, view), tag, s, c)
  {
    var w := Apply(b, view);
    ColumnFrame(view, b, tag, c);
    SameRowsCells(view, w, tag);
    assert RangeOk(view, tag, schema, c);
    BlobFrame(view, w, tag, c, BlobAt(view, tag, c));
    ApplyAt(b, view, Range(tag, c));
  }

  /** The index of a column that the statement does not touch. */
  lemma IndexUntouched(view: View, b: Batch, tag: Tag, schema: Schema, s: Schema, c: nat)
    requires IndexOk(view, tag, schema) && OnlyColumn(b, tag, c) && Maintained(s, c) == Maintained(schema, c)
    requires forall v, id :: Index(tag, c, v, id) !in b
    ensures ColumnIndexOk(Apply(b, view), tag, s, c)
  {
    var w := Apply(b, view);
    ColumnFrame(view, b, tag, c);
    SameRowsCells(view, w, tag);
    forall v, id: nat
      ensures Index(tag, c, v, id) in w <==> Maintained(s, c) && HasCell(w, tag, c, v, id)
      ensures Index(tag, c, v, id) in w ==> Boxed(w, TableCipher(tag), Index(tag, c, v, id))
    {
      ApplyAt(b, view, Index(tag, c, v, id));
    }
  }

  /** CREATE INDEX backfills exactly the non-NULL cells and keeps the invariant. */
  lemma CreateIndexKeeps(view: View, tag: Tag, column: string, nonces: Nonces)
    requires TableInv(view, tag) && CreateIndexPlan(view, tag, column, nonces).Success?
    ensures var b := CreateIndexPlan(view, tag, column, nonces).value.writes;
      TableInv(Apply(b, view), tag) && OwnKeys(b, tag)
  {
    hide TableInv, CatalogOk, RowsOk, IndexOk, RangesOk, SequenceOk, PrimaryOk, SchemaOk, ExpectSchema, FetchAll, Backfill, SchemaAt, SetIndexed;
    SchemaRead(view, tag);
    TableParts(view, tag);
    var schema := SchemaAt(view, tag);
    var c := Resolve(schema, column).value;
    var found := AllRows(view, tag, schema);
    var b := CreateIndexPlan(view, tag, column, nonces).value.writes;
    assert b == PutSchema(Backfill(tag, c, found, nonces), tag, SetIndexed(schema, c, true), nonces);
    FlagColumns(schema, tag, c, true);
    BackfilledIndex(view, tag, schema, found, c, b, nonces);
    BlobUntouched(view, b, tag, schema, SetIndexed(schema, c, true), c);
    hide ColumnIndexOk, RangeOk, OnlyColumn;
    FlagKeepsTable(view, tag, schema, SetIndexed(schema, c, true), c, b, nonces);
  }

  lemma BackfilledIndex(view: View, tag: Tag, schema: Schema, found: seq<Found>, c: nat, b: Batch, nonces: Nonces)
    requires IndexOk(view, tag, schema) && c < |schema.columns| && !schema.columns[c].primaryKey && !schema.columns[c].indexed
    requires FoundOk(view, tag, found) && forall id :: Row(tag, id) in view ==> IsFound(found, id)
    requires b == PutSchema(Backfill(tag, c, found, nonces), tag, SetIndexed(schema, c, true), nonces)
    ensures OnlyColumn(b, tag, c) && Range(tag, c) !in b
    ensures ColumnIndexOk(Apply(b, view), tag, SetIndexed(schema, c, true), c)
  {
    var w, s := Apply(b, view), SetIndexed(schema, c, true);
    BackfillAt(tag, c, found, nonces);
    FoundCells(view, tag, found, c);
    ColumnFrame(view, b, tag, c);
    SameRowsCells(view, w, tag);
    hide HasCell, FoundCell, Backfill, FoundOk;
    forall v, id: nat
      ensures Index(tag, c, v, id) in w <==> Maintained(s, c) && HasCell(w, tag, c, v, id)
      ensures Index(tag, c, v, id) in w ==> Boxed(w, TableCipher(tag), Index(tag, c, v, id))
    {
      ApplyAt(b, view, Index(tag, c, v, id));
    }
  }

  /** DROP INDEX removes every entry of the column and keeps the invariant. */
  lemma DropIndexKeeps(view: View, tag: Tag, column: string, nonces: Nonces)
    requires TableInv(view, tag) && DropIndexPlan(view, tag, column, nonces).Success?
    ensures var b := DropIndexPlan(view, tag, column, nonces).value.writes;
      TableInv(Apply(b, view), tag) && OwnKeys(b, tag)
  {
    hide TableInv, CatalogOk, RowsOk, IndexOk, RangesOk, SequenceOk, PrimaryOk, ExpectSchema, SchemaAt, SetIndexed;
    SchemaRead(view, tag);
    TableParts(view, tag);
    var schema := SchemaAt(view, tag);
    var c := Resolve(schema, column).value;
    var b := DropIndexPlan(view, tag, column, nonces).value.writes;
    FlagColumns(schema, tag, c, false);
    assert OnlyColumn(b, tag, c) && Range(tag, c) !in b;
    forall v, id: nat
      ensures Index(tag, c, v, id) !in Apply(b, view)
    {
      ApplyAt(b, view, Index(tag, c, v, id));
    }
    BlobUntouched(view, b, tag, schema, SetIndexed(schema, c, false), c);
    hide RangeOk, OnlyColumn;
    FlagKeepsTable(view, tag, schema, SetIndexed(schema, c, false), c, b, nonces);
  }

  // ---------------------------------------------------------------- CREATE RANGE INDEX and DROP RANGE INDEX

  function EntriesOf(found: seq<Found>, c: nat): seq<Entry> {
    if found == [] then []
    else
      var n := |found| - 1;
      var rest := EntriesOf(found[..n], c);
      if c < |found[n].cells| && found[n].cells[c] != Null then rest + [Entry(found[n].cells[c], found[n].id)] else rest
  }

  function CreateRangePlan(view: View, tag: Tag, column: string, nonces: Nonces): Result<Plan, Error> {
    var schema :- ExpectSchema(view, tag);
    var c :- Resolve(schema, column);
    if schema.columns[c].rangeIndexed then Failure(SchemaError)
    else
      var found :- FetchAll(view, tag, Sorted(RowIds(view, tag)));
      var blob := SortEntries(EntriesOf(found, c));
      Success(Plan(0, PutSchema(PutBlob(map[], tag, c, blob, nonces), tag, SetRanged(schema, c, true), nonces)))
  }

  function DropRangePlan(view: View, tag: Tag, column: string, nonces: Nonces): Result<Plan, Error> {
    var schema :- ExpectSchema(view, tag);
    var c :- Resolve(schema, column);
    if !schema.columns[c].rangeIndexed then Failure(SchemaError)
    else Success(Plan(0, PutSchema(map[Range(tag, c) := None], tag, SetRanged(schema, c, false), nonces)))
  }

  lemma {:induction false} EntriesOfFound(view: View, tag: Tag, found: seq<Found>, c: nat)
    requires FoundOk(view, tag, found)
    ensures DistinctIds(EntriesOf(found, c)) && forall v, id :: Entry(v, id) in EntriesOf(found, c) <==> FoundCell(found, c, v, id)
  {
    if found != [] {
      var n := |found| - 1;
      var rest := EntriesOf(found[..n], c);
      EntriesOfFound(view, tag, found[..n], c);
      forall v, id
        ensures FoundCell(found, c, v, id) <==> FoundCell(found[..n], c, v, id) || IsCell(found[n], c, v, id)
      {
        if FoundCell(found[..n], c, v, id) {
          var i :| 0 <= i < n && IsCell(found[..n][i], c, v, id);
          assert IsCell(found[i], c, v, id);
        }
      }
      forall i | 0 <= i < |rest|
        ensures rest[i].id != found[n].id
      {
        assert rest[i] == Entry(rest[i].value, rest[i].id);
        assert FoundCell(found[..n], c, rest[i].value, rest[i].id);
      }
      hide FoundCell;
    }
  }

  lemma FreshBlobOk(view: View, tag: Tag, schema: Schema, found: seq<Found>, c: nat)
    requires RowsOk(view, tag, schema) && c < |schema.columns|
    requires FoundOk(view, tag, found) && forall id :: Row(tag, id) in view ==> IsFound(found, id)
    ensures BlobOk(view, tag, c, SortEntries(EntriesOf(found, c)))
  {
    EntriesOfFound(view, tag, found, c);
    FoundCells(view, tag, found, c);
    CellsOfType(EntriesOf(found, c), view, tag, schema, c);
    SortMembers(EntriesOf(found, c), schema.columns[c].ty);
    hide HasCell, FoundCell, EntriesOf, SortEntries, InOrder, FoundOk, IsFound;
  }

  /** CREATE RANGE INDEX writes the sorted list of the non-NULL cells and keeps the invariant. */
  lemma CreateRangeKeeps(view: View, tag: Tag, column: string, nonces: Nonces)
    requires TableInv(view, tag) && CreateRangePlan(view, tag, column, nonces).Success?
    ensures var b := CreateRangePlan(view, tag, column, nonces).value.writes;
      TableInv(Apply(b, view), tag) && OwnKeys(b, tag)
  {
    hide TableInv, CatalogOk, RowsOk, IndexOk, RangesOk, SequenceOk, PrimaryOk, SchemaOk, ExpectSchema, FetchAll, EntriesOf, SchemaAt, SetRanged,
         SortEntries;
    SchemaRead(view, tag);
    TableParts(view, tag);
    var schema := SchemaAt(view, tag);
    var c := Resolve(schema, column).value;
    var found := AllRows(view, tag, schema);
    var blob := SortEntries(EntriesOf(found, c));
    var b := CreateRangePlan(view, tag, column, nonces).value.writes;
    assert b == PutSchema(PutBlob(map[], tag, c, blob, nonces), tag, SetRanged(schema, c, true), nonces);
    assert OnlyColumn(b, tag, c);
    FlagColumns(schema, tag, c, true);
    FreshBlobOk(view, tag, schema, found, c);
    IndexUntouched(view, b, tag, schema, SetRanged(schema, c, true), c);
    NewRangeOk(view, tag, SetRanged(schema, c, true), c, blob, b, nonces);
    hide ColumnIndexOk, RangeOk, OnlyColumn;
    FlagKeepsTable(view, tag, schema, SetRanged(schema, c, true), c, b, nonces);
  }

  lemma NewRangeOk(view: View, tag: Tag, s: Schema, c: nat, blob: seq<Entry>, b: Batch, nonces: Nonces)
    requires b == PutSchema(PutBlob(map[], tag, c, blob, nonces), tag, s, nonces) && BlobOk(view, tag, c, blob) && Ranged(s, c)
    ensures RangeOk(Apply(b, view), tag, s, c)
  {
    var w := Apply(b, view);
    ColumnFrame(view, b, tag, c);
    SameRowsCells(view, w, tag);
    ApplyAt(b, view, Range(tag, c));
    BlobFrame(view, w, tag, c, blob);
  }

  lemma DropRangeKeeps(view: View, tag: Tag, column: string, nonces: Nonces)
    requires TableInv(view, tag) && DropRangePlan(view, tag, column, nonces).Success?
    ensures var b := DropRangePlan(view, tag, column, nonces).value.writes;
      TableInv(Apply(b, view), tag) && OwnKeys(b, tag)
  {
    hide TableInv, CatalogOk, RowsOk, IndexOk, RangesOk, SequenceOk, PrimaryOk, SchemaOk, ExpectSchema, SchemaAt, SetRanged;
    SchemaRead(view, tag);
    TableParts(view, tag);
    var schema := SchemaAt(view, tag);
    var c := Resolve(schema, column).value;
    var b := DropRangePlan(view, tag, column, nonces).value.writes;
    assert OnlyColumn(b, tag, c);
    FlagColumns(schema, tag, c, false);
    IndexUntouched(view, b, tag, schema, SetRanged(schema, c, false), c);
    ApplyAt(b, view, Range(tag, c));
    hide ColumnIndexOk, OnlyColumn;
    FlagKeepsTable(view, tag, schema, SetRanged(schema, c, false), c, b, nonces);
  }

  // ---------------------------------------------------------------- DROP TABLE

  function DropTablePlan(view: View, tag: Tag): Result<Plan, Error> {
    var _ :- ExpectSchema(view, tag);
    var keys := map k | k in view && (k.Row? || k.Index? || k.Range?) && k.tag == tag :: None;
    Success(Plan(0, keys[Sequence(tag) := None][Catalog(tag) := None]))
  }

  /** DROP TABLE leaves no key of the table behind. */
  lemma DropTableKeeps(view: View, tag: Tag)
    requires TableInv(view, tag) && DropTablePlan(view, tag).Success?
    ensures var b := DropTablePlan(view, tag).value.writes;
      && TableInv(Apply(b, view), tag) && Catalog(tag) !in Apply(b, view) && OwnKeys(b, tag)
      && forall k :: k in Apply(b, view) ==> Owner(k) != Some(tag)
  {
    var b := DropTablePlan(view, tag).value.writes;
    hide ExpectSchema, ContentsInv, CatalogOk;
    forall k | k in Apply(b, view)
      ensures Owner(k) != Some(tag)
    {
      ApplyAt(b, view, k);
    }
  }
}
