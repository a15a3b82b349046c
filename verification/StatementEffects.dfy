/**
 What each statement does to the rows, the sequence and the schema of its table, seen from
 outside: for every row id, whether there is a row afterwards and with which cells.
 */
module StatementEffects {
  import opened Wrappers
  import opened EngineData
  import opened Predicates
  import opened Tables
  import opened RowChanges
  import opened RangeBlobs
  import opened Queries
  import opened RowStatements
  import opened DataStatements
  import opened SchemaStatements

  // ---------------------------------------------------------------- rows after changes

  /** No row keys and no catalog. */
  ghost predicate Besides(extra: Batch, tag: Tag) {
    forall k :: k in extra ==> k.Sequence? || k.Range?
  }

  ghost predicate RowKept(view: View, w: View, tag: Tag, id: nat) {
    (Row(tag, id) in view <==> Row(tag, id) in w) && Contents(view, tag, id) == Contents(w, tag, id)
  }

  lemma BesidesKeeps(view: View, tag: Tag, changes: seq<Change>, cols: seq<nat>, nonces: Nonces, extra: Batch, id: nat)
    requires Besides(extra, tag)
    ensures RowKept(Apply(ChangesWrites(tag, changes, cols, nonces), view), Apply(ChangesWrites(tag, changes, cols, nonces) + extra, view), tag, id)
  {
    var base := ChangesWrites(tag, changes, cols, nonces);
    hide ChangesWrites;
    ApplyAt(base, view, Row(tag, id));
    ApplyAt(base + extra, view, Row(tag, id));
    hide Apply;
  }

  ghost predicate ChangeDone(w: View, tag: Tag, ch: Change) {
    (Row(tag, ch.id) in w <==> ch.after.Some?) && Contents(w, tag, ch.id) == if ch.after.Some? then ch.after.value else []
  }

  /** A changed row is what the change says, another row is what it was. */
  lemma ChangedRows(view: View, tag: Tag, changes: seq<Change>, cols: seq<nat>, nonces: Nonces, extra: Batch)
    requires Besides(extra, tag) && DistinctChanges(changes)
    ensures var w := Apply(ChangesWrites(tag, changes, cols, nonces) + extra, view);
      && (forall i :: 0 <= i < |changes| ==> ChangeDone(w, tag, changes[i]))
      && forall id: nat :: !IsChanged(changes, id) ==> RowKept(view, w, tag, id)
  {
    hide ChangesWrites, Apply;
    var w := Apply(ChangesWrites(tag, changes, cols, nonces) + extra, view);
    forall i | 0 <= i < |changes|
      ensures ChangeDone(w, tag, changes[i])
    {
      RowAfterChanges(view, tag, changes, cols, nonces, i);
      BesidesKeeps(view, tag, changes, cols, nonces, extra, changes[i].id);
    }
    forall id: nat | !IsChanged(changes, id)
      ensures RowKept(view, w, tag, id)
    {
      RowUntouched(view, tag, changes, cols, nonces, id);
      BesidesKeeps(view, tag, changes, cols, nonces, extra, id);
    }
  }

  lemma OnlyRangesBesides(ranges: Batch, tag: Tag)
    requires OnlyRanges(ranges, tag)
    ensures Besides(ranges, tag)
  {
  }

  // ---------------------------------------------------------------- INSERT

  ghost predicate NewRow(view: View, w: View, tag: Tag, id: nat, row: Cells) {
    Row(tag, id) !in view && Row(tag, id) in w && Contents(w, tag, id) == row
  }

  /** The new rows have the next ids, in the order of the statement; all others stay. */
  ghost predicate Inserted(view: View, w: View, tag: Tag, rows: seq<Cells>) {
    var first := SequenceAt(view, tag);
    && (forall i: nat :: i < |rows| ==> NewRow(view, w, tag, first + i, rows[i]))
    && (forall id: nat :: id < first || id >= first + |rows| ==> RowKept(view, w, tag, id))
    && SequenceAt(w, tag) == first + |rows|
  }

  lemma SequenceIs(base: Batch, tag: Tag, next: nat, nonces: Nonces, ranges: Batch, view: View)
    requires OnlyRanges(ranges, tag)
    ensures SequenceAt(Apply(base + PutSequence(map[], tag, next, nonces) + ranges, view), tag) == next
  {
    var b := base + PutSequence(map[], tag, next, nonces) + ranges;
    assert Sequence(tag) !in ranges;
    ApplyAt(b, view, Sequence(tag));
    hide Apply;
  }

  lemma InsertionsAt(first: nat, rows: seq<Cells>, id: nat)
    ensures DistinctChanges(Insertions(first, rows))
    ensures IsChanged(Insertions(first, rows), id) <==> first <= id < first + |rows|
  {
    var changes := Insertions(first, rows);
    if first <= id < first + |rows| {
      assert changes[id - first].id == id;
    }
  }

  lemma NewIds(view: View, tag: Tag, i: nat)
    requires SequenceOk(view, tag)
    ensures Row(tag, SequenceAt(view, tag) + i) !in view
  {
  }

  /** Main result: INSERT adds exactly its rows, coerced and filled with NULL, under fresh ids. */
  lemma InsertAdds(view: View, tag: Tag, names: Option<seq<string>>, rows: seq<Cells>, nonces: Nonces)
      returns (positions: seq<nat>, prepared: seq<Cells>)
    requires TableInv(view, tag) && InsertPlan(view, tag, names, rows, nonces).Success?
    ensures Positions(SchemaAt(view, tag), names) == Success(positions)
    ensures PrepareRows(view, tag, SchemaAt(view, tag), positions, rows, |rows|) == Success(prepared) && |prepared| == |rows|
    ensures Inserted(view, Apply(InsertPlan(view, tag, names, rows, nonces).value.writes, view), tag, prepared)
  {
    hide *;
    var schema, ranges;
    schema, positions, prepared, ranges := InsertShape(view, tag, names, rows, nonces);
    TableParts(view, tag);
    PreparedShape(view, tag, schema, positions, rows, |rows|);
    var first := SequenceAt(view, tag);
    var changes := Insertions(first, prepared);
    RangesSucceed(view, tag, schema, Inserting, changes, nonces);
    InsertedFrom(view, tag, schema, prepared, ranges, nonces, InsertPlan(view, tag, names, rows, nonces).value.writes);
  }

  lemma InsertedFrom(view: View, tag: Tag, schema: Schema, prepared: seq<Cells>, ranges: Batch, nonces: Nonces, b: Batch)
    requires SequenceOk(view, tag) && OnlyRanges(ranges, tag)
    requires b == ChangesWrites(tag, Insertions(SequenceAt(view, tag), prepared), MaintainedColumns(schema), nonces)
                  + PutSequence(map[], tag, SequenceAt(view, tag) + |prepared|, nonces) + ranges
    ensures Inserted(view, Apply(b, view), tag, prepared)
  {
    hide ChangesWrites, Apply, SequenceOk, SequenceAt, PutSequence, MaintainedColumns, OnlyRanges;
    var first := SequenceAt(view, tag);
    var changes, next := Insertions(first, prepared), first + |prepared|;
    var base := ChangesWrites(tag, changes, MaintainedColumns(schema), nonces);
    SequencePut(tag, next, nonces, base, ranges);
    SequenceBesides(tag, next, nonces, ranges);
    assert b == base + (PutSequence(map[], tag, next, nonces) + ranges);
    InsertionsAt(first, prepared, 0);
    ChangedRows(view, tag, changes, MaintainedColumns(schema), nonces, PutSequence(map[], tag, next, nonces) + ranges);
    SequenceIs(base, tag, next, nonces, ranges, view);
    InsertedOf(view, Apply(b, view), tag, prepared);
  }

  lemma InsertedOf(view: View, w: View, tag: Tag, rows: seq<Cells>)
    requires SequenceOk(view, tag) && SequenceAt(w, tag) == SequenceAt(view, tag) + |rows|
    requires var changes := Insertions(SequenceAt(view, tag), rows);
      && (forall i :: 0 <= i < |changes| ==> ChangeDone(w, tag, changes[i]))
      && forall id: nat :: !IsChanged(changes, id) ==> RowKept(view, w, tag, id)
    ensures Inserted(view, w, tag, rows)
  {
    hide SequenceOk, SequenceAt, RowKept;
    var first := SequenceAt(view, tag);
    var changes := Insertions(first, rows);
    forall i: nat | i < |rows|
      ensures NewRow(view, w, tag, first + i, rows[i])
    {
      NewIds(view, tag, i);
      assert ChangeDone(w, tag, changes[i]);
    }
    forall id: nat | id < first || id >= first + |rows|
      ensures RowKept(view, w, tag, id)
    {
      InsertionsAt(first, rows, id);
    }
    hide NewRow;
  }

  lemma SequenceBesides(tag: Tag, next: nat, nonces: Nonces, ranges: Batch)
    requires OnlyRanges(ranges, tag)
    ensures Besides(PutSequence(map[], tag, next, nonces) + ranges, tag)
  {
  }

  // ---------------------------------------------------------------- UPDATE and DELETE

  /** The rows found are gone, all others stay. */
  ghost predicate Deleted(view: View, w: View, tag: Tag, found: seq<Found>) {
    forall id: nat :: if IsFound(found, id) then Row(tag, id) !in w else RowKept(view, w, tag, id)
  }

  lemma DeletionsAt(found: seq<Found>, id: nat)
    ensures IsChanged(Deletions(found), id) <==> IsFound(found, id)
  {
    if IsFound(found, id) {
      var i :| 0 <= i < |found| && found[i].id == id;
      assert Deletions(found)[i].id == id;
    }
    if IsChanged(Deletions(found), id) {
      var i :| 0 <= i < |found| && Deletions(found)[i].id == id;
      assert found[i].id == id;
    }
  }

  /** Main result: DELETE removes exactly the rows it finds, and counts them. */
  lemma DeleteRemoves(view: View, tag: Tag, where: Option<Expr>, nonces: Nonces)
    requires TableInv(view, tag) && DeletePlan(view, tag, where, nonces).Success?
    ensures var p, found := DeletePlan(view, tag, where, nonces).value, UpdatedRows(view, tag, where);
      p.count == |found| && FoundOk(view, tag, found) && Deleted(view, Apply(p.writes, view), tag, found)
  {
    hide *;
    var schema, found, ranges := DeleteShape(view, tag, where, nonces);
    TableParts(view, tag);
    DeletionsRemove(view, tag, found);
    RangesSucceed(view, tag, schema, Deleting, Deletions(found), nonces);
    OnlyRangesBesides(ranges, tag);
    DeletionsOk(view, tag, schema, found);
    DistinctOf(view, tag, schema, Deletions(found));
    DeletedFrom(view, tag, found, MaintainedColumns(schema), nonces, ranges);
  }

  lemma DistinctOf(view: View, tag: Tag, schema: Schema, changes: seq<Change>)
    requires ChangesOk(view, tag, schema, changes)
    ensures DistinctChanges(changes)
  {
  }

  lemma DeletedFrom(view: View, tag: Tag, found: seq<Found>, cols: seq<nat>, nonces: Nonces, ranges: Batch)
    requires Besides(ranges, tag) && DistinctChanges(Deletions(found))
    ensures Deleted(view, Apply(ChangesWrites(tag, Deletions(found), cols, nonces) + ranges, view), tag, found)
  {
    hide ChangesWrites, Apply, RowKept, DistinctChanges;
    var changes := Deletions(found);
    ChangedRows(view, tag, changes, cols, nonces, ranges);
    forall id: nat
      ensures IsChanged(changes, id) <==> IsFound(found, id)
    {
      DeletionsAt(found, id);
    }
  }

  /** The rows found have their assigned cells, all others stay. */
  ghost predicate Updated(view: View, w: View, tag: Tag, found: seq<Found>, targets: seq<Target>)
    requires Fetched(found, targets)
  {
    && (forall i :: 0 <= i < |found| ==> Row(tag, found[i].id) in w && Contents(w, tag, found[i].id) == Assigned(found[i].cells, targets))
    && forall id: nat :: !IsFound(found, id) ==> RowKept(view, w, tag, id)
  }

  lemma UpdatesAt(found: seq<Found>, targets: seq<Target>, id: nat)
    requires Fetched(found, targets)
    ensures IsChanged(Updates(found, targets), id) <==> IsFound(found, id)
  {
    hide Assigned;
    if IsFound(found, id) {
      var i :| 0 <= i < |found| && found[i].id == id;
      assert Updates(found, targets)[i].id == id;
    }
    if IsChanged(Updates(found, targets), id) {
      var i :| 0 <= i < |found| && Updates(found, targets)[i].id == id;
      assert found[i].id == id;
    }
  }

  /** Main result: UPDATE assigns its targets in exactly the rows it finds, zeros or not. */
  lemma UpdateAssigns(view: View, tag: Tag, assignments: seq<Assignment>, where: Option<Expr>, nonces: Nonces) returns (targets: seq<Target>)
    requires TableInv(view, tag) && UpdatePlan(view, tag, assignments, where, nonces).Success?
    ensures ResolveTargets(SchemaAt(view, tag), assignments, |assignments|) == Success(targets)
    ensures var p, found := UpdatePlan(view, tag, assignments, where, nonces).value, UpdatedRows(view, tag, where);
      p.count == |found| && FoundOk(view, tag, found) && Fetched(found, targets) && Updated(view, Apply(p.writes, view), tag, found, targets)
  {
    hide *;
    var schema, found, ranges;
    schema, targets, found, ranges := UpdateShape(view, tag, assignments, where, nonces);
    TableParts(view, tag);
    RangesSucceed(view, tag, schema, Updating, Updates(found, targets), nonces);
    OnlyRangesBesides(ranges, tag);
    UpdatedFrom(view, tag, found, targets, MaintainedColumns(schema), nonces, ranges);
  }

  lemma UpdatedFrom(view: View, tag: Tag, found: seq<Found>, targets: seq<Target>, cols: seq<nat>, nonces: Nonces, ranges: Batch)
    requires Besides(ranges, tag) && FoundOk(view, tag, found) && Fetched(found, targets)
    ensures Updated(view, Apply(ChangesWrites(tag, Updates(found, targets), cols, nonces) + ranges, view), tag, found, targets)
  {
    hide ChangesWrites, Apply, RowKept, Assigned;
    var changes := Updates(found, targets);
    assert forall i :: 0 <= i < |found| ==> changes[i].id == found[i].id && changes[i].after == Some(Assigned(found[i].cells, targets));
    ChangedRows(view, tag, changes, cols, nonces, ranges);
    forall id: nat
      ensures IsChanged(changes, id) <==> IsFound(found, id)
    {
      UpdatesAt(found, targets, id);
    }
    hide IsFound, IsChanged, Updates;
  }

  /** With literals of their columns' types, the rows found are those that satisfy the predicate. */
  lemma FoundAreMatches(view: View, tag: Tag, where: Option<Expr>, id: nat)
    requires TableInv(view, tag) && Catalog(tag) in view && CompileOption(SchemaAt(view, tag), where).Success?
    requires var filter := CompileOption(SchemaAt(view, tag), where).value;
      ComparableOption(filter, SchemaAt(view, tag)) && PinnedTyped(filter, SchemaAt(view, tag))
    ensures IsFound(UpdatedRows(view, tag, where), id)
        <==> IsMatch(view, tag, CompileOption(SchemaAt(view, tag), where).value, id)
  {
    var schema := SchemaAt(view, tag);
    var filter := CompileOption(schema, where).value;
    hide RowsOk, IndexOk, RangesOk, IsMatch, ScannedRows, MatchingRows, TableInv, SchemaAt, CompileOption, ComparableOption, PinnedTyped;
    TableParts(view, tag);
    CandidatesAreScan(view, tag, schema, filter);
    ScanResult(view, tag, schema, filter);
    var ids := MatchIds(view, tag, filter, Sorted(RowIds(view, tag)));
    var scanned, found := ScannedRows(view, tag, filter).value, MatchingRows(view, tag, schema, filter).value;
    SameFound(found, scanned, id);
    RowsOfFound(view, tag, ids, id);
  }

  lemma SameFound(a: seq<Found>, b: seq<Found>, id: nat)
    requires multiset(a) == multiset(b)
    ensures IsFound(a, id) <==> IsFound(b, id)
  {
    if IsFound(a, id) {
      FoundOver(a, b, id);
    }
    if IsFound(b, id) {
      FoundOver(b, a, id);
    }
  }

  lemma FoundOver(a: seq<Found>, b: seq<Found>, id: nat)
    requires multiset(a) == multiset(b) && IsFound(a, id)
    ensures IsFound(b, id)
  {
    var i :| 0 <= i < |a| && a[i].id == id;
    assert a[i] in multiset(b);
    var j :| 0 <= j < |b| && b[j] == a[i];
  }

  lemma RowsOfFound(view: View, tag: Tag, ids: seq<nat>, id: nat)
    ensures IsFound(RowsOf(view, tag, ids), id) <==> id in ids
  {
    hide Contents;
    var rows := RowsOf(view, tag, ids);
    if id in ids {
      var i :| 0 <= i < |ids| && ids[i] == id;
      assert rows[i].id == id;
    }
    if IsFound(rows, id) {
      var i :| 0 <= i < |rows| && rows[i].id == id;
      assert ids[i] == id;
    }
  }

  // ---------------------------------------------------------------- schema statements

  /** Only the schema is another one. */
  ghost predicate OnlySchema(view: View, w: View, tag: Tag, schema: Schema) {
    Catalog(tag) in w && SchemaAt(w, tag) == schema && SequenceAt(w, tag) == SequenceAt(view, tag)
    && forall id: nat :: RowKept(view, w, tag, id)
  }

  ghost predicate NoRowKeys(b: Batch) {
    forall k :: k in b ==> k.Index? || k.Range?
  }

  lemma PutSchemaOnly(view: View, tag: Tag, b: Batch, schema: Schema, nonces: Nonces)
    requires NoRowKeys(b)
    ensures OnlySchema(view, Apply(PutSchema(b, tag, schema, nonces), view), tag, schema)
  {
    var c := PutSchema(b, tag, schema, nonces);
    ApplyAt(c, view, Catalog(tag));
    ApplyAt(c, view, Sequence(tag));
    forall id: nat
      ensures RowKept(view, Apply(c, view), tag, id)
    {
      ApplyAt(c, view, Row(tag, id));
    }
    hide Apply;
  }

  lemma {:induction false} BackfillKeys(tag: Tag, c: nat, found: seq<Found>, nonces: Nonces)
    ensures NoRowKeys(Backfill(tag, c, found, nonces))
  {
    if found != [] {
      BackfillKeys(tag, c, found[..|found| - 1], nonces);
    }
  }

  /** CREATE INDEX and DROP INDEX set the flag of the column and leave rows and sequence alone. */
  lemma IndexStatementsFlag(view: View, tag: Tag, column: string, nonces: Nonces)
    requires TableInv(view, tag) && Catalog(tag) in view && Resolve(SchemaAt(view, tag), column).Success?
    ensures var schema, c, p := SchemaAt(view, tag), Resolve(SchemaAt(view, tag), column).value, CreateIndexPlan(view, tag, column, nonces);
      p.Success? ==> !schema.columns[c].indexed && OnlySchema(view, Apply(p.value.writes, view), tag, SetIndexed(schema, c, true))
    ensures var schema, c, p := SchemaAt(view, tag), Resolve(SchemaAt(view, tag), column).value, DropIndexPlan(view, tag, column, nonces);
      p.Success? ==> schema.columns[c].indexed && OnlySchema(view, Apply(p.value.writes, view), tag, SetIndexed(schema, c, false))
  {
    hide TableInv, FetchAll, Sorted, Backfill, Apply, SetIndexed, OnlySchema, PutSchema, ExpectSchema, SchemaAt;
    SchemaRead(view, tag);
    var schema, c := SchemaAt(view, tag), Resolve(SchemaAt(view, tag), column).value;
    var found := FetchAll(view, tag, Sorted(RowIds(view, tag)));
    if found.Success? {
      BackfillKeys(tag, c, found.value, nonces);
      PutSchemaOnly(view, tag, Backfill(tag, c, found.value, nonces), SetIndexed(schema, c, true), nonces);
    }
    var b: Batch := map k | k in view && k.Index? && k.tag == tag && k.col == c :: None;
    PutSchemaOnly(view, tag, b, SetIndexed(schema, c, false), nonces);
  }

  /** The same for range indexes. */
  lemma RangeStatementsFlag(view: View, tag: Tag, column: string, nonces: Nonces)
    requires TableInv(view, tag) && Catalog(tag) in view && Resolve(SchemaAt(view, tag), column).Success?
    ensures var schema, c, p := SchemaAt(view, tag), Resolve(SchemaAt(view, tag), column).value, CreateRangePlan(view, tag, column, nonces);
      p.Success? ==> !schema.columns[c].rangeIndexed && OnlySchema(view, Apply(p.value.writes, view), tag, SetRanged(schema, c, true))
    ensures var schema, c, p := SchemaAt(view, tag), Resolve(SchemaAt(view, tag), column).value, DropRangePlan(view, tag, column, nonces);
      p.Success? ==> schema.columns[c].rangeIndexed && OnlySchema(view, Apply(p.value.writes, view), tag, SetRanged(schema, c, false))
  {
    hide TableInv, FetchAll, Sorted, Apply, SetRanged, OnlySchema, PutSchema, ExpectSchema, SchemaAt, SortEntries, EntriesOf;
    SchemaRead(view, tag);
    var schema, c := SchemaAt(view, tag), Resolve(SchemaAt(view, tag), column).value;
    var found := FetchAll(view, tag, Sorted(RowIds(view, tag)));
    if found.Success? {
      PutSchemaOnly(view, tag, PutBlob(map[], tag, c, SortEntries(EntriesOf(found.value, c)), nonces), SetRanged(schema, c, true), nonces);
    }
    PutSchemaOnly(view, tag, map[Range(tag, c) := None], SetRanged(schema, c, false), nonces);
  }

  /** CREATE TABLE declares the schema where no table was, and adds no row. */
  lemma CreateTableDeclares(view: View, tag: Tag, defs: seq<ColumnDef>, nonces: Nonces)
    requires TableInv(view, tag) && CreateTablePlan(view, tag, defs, nonces).Success?
    ensures Catalog(tag) !in view
    ensures var w := Apply(CreateTablePlan(view, tag, defs, nonces).value.writes, view);
      OnlySchema(view, w, tag, Schema(tag.table, NewColumns(defs))) && forall id: nat :: Row(tag, id) !in w
  {
    hide Apply, OnlySchema, PutSchema, NewColumns, LookupSchema;
    SchemaRead(view, tag);
    NoTableKeys(view, tag);
    PutSchemaOnly(view, tag, map[], Schema(tag.table, NewColumns(defs)), nonces);
    RowsKept(view, Apply(PutSchema(map[], tag, Schema(tag.table, NewColumns(defs)), nonces), view), tag, Schema(tag.table, NewColumns(defs)));
  }

  lemma RowsKept(view: View, w: View, tag: Tag, schema: Schema)
    requires OnlySchema(view, w, tag, schema)
    ensures forall id: nat :: Row(tag, id) in w <==> Row(tag, id) in view
  {
    forall id: nat
      ensures Row(tag, id) in w <==> Row(tag, id) in view
    {
      assert RowKept(view, w, tag, id);
    }
  }
}
