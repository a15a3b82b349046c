/**
 What every successful statement writes, whatever the store holds: keys of its own table
 only, and a catalog record under the table's own name or no key of the table at all. No
 index, row or sequence needs to be right for this.
 */
module PlanKeys {
  import opened Wrappers
  import opened EngineData
  import opened Predicates
  import opened Tables
  import opened RowChanges
  import opened RangeBlobs
  import opened Queries
  import opened RowStatements
  import opened DataStatements
  import opened SchemaStatements
  import opened AuditChain
  import opened Database

  /** No key of the table. */
  ghost predicate Empty(view: View, tag: Tag) {
    forall k :: k in view ==> Owner(k) != Some(tag)
  }

  /** The table has a readable catalog record with its own name, or no keys. */
  ghost predicate Named(view: View, tag: Tag) {
    if Catalog(tag) in view then
      Boxed(view, CatalogCipher(tag.master), Catalog(tag)) && view[Catalog(tag)].plain.SchemaPlain? && SchemaAt(view, tag).name == tag.table
    else Empty(view, tag)
  }

  ghost predicate AllNamed(view: View, master: nat) {
    forall table: string :: Named(view, Tag(master, table))
  }

  lemma SoundIsNamed(view: View, master: nat)
    requires TablesInv(view, master)
    ensures AllNamed(view, master)
  {
    hide ContentsInv;
    forall table: string
      ensures Named(view, Tag(master, table))
    {
      assert TableInv(view, Tag(master, table));
    }
  }

  /** The batch keeps to the table and leaves it named. */
  ghost predicate Orderly(b: Batch, view: View, tag: Tag) {
    OwnKeys(b, tag) && Named(Apply(b, view), tag)
  }

  lemma SchemaThere(view: View, tag: Tag)
    requires Named(view, tag) && ExpectSchema(view, tag).Success?
    ensures Catalog(tag) in view && ExpectSchema(view, tag).value == SchemaAt(view, tag) && SchemaAt(view, tag).name == tag.table
  {
  }

  // ---------------------------------------------------------------- rows

  lemma {:induction false} RangeWritesKeys(view: View, tag: Tag, mode: Mode, changes: seq<Change>, cols: seq<nat>, nonces: Nonces)
    requires RangeWrites(view, tag, mode, changes, cols, nonces).Success?
    ensures OnlyRanges(RangeWrites(view, tag, mode, changes, cols, nonces).value, tag)
  {
    hide LeavesBlob, NewBlob, LoadRange;
    if cols != [] {
      RangeWritesKeys(view, tag, mode, changes, cols[..|cols| - 1], nonces);
    }
  }

  /** Row and index keys, then blobs, and perhaps the sequence. */
  lemma RowPlanOrderly(view: View, tag: Tag, changes: seq<Change>, cols: seq<nat>, middle: Batch, ranges: Batch, nonces: Nonces)
    requires Named(view, tag) && Catalog(tag) in view && OnlyRanges(ranges, tag) && forall k :: k in middle ==> k == Sequence(tag)
    ensures Orderly(ChangesWrites(tag, changes, cols, nonces) + middle + ranges, view, tag)
  {
    var b := ChangesWrites(tag, changes, cols, nonces) + middle + ranges;
    hide ChangesWrites;
    forall k | k in b
      ensures Owner(k) == Some(tag) && k != Catalog(tag)
    {
      if k in ChangesWrites(tag, changes, cols, nonces) {
        ChangesWritesKeys(tag, changes, cols, nonces, k);
      }
    }
    ApplyAt(b, view, Catalog(tag));
    hide Apply;
  }

  lemma NothingBetween(a: Batch, ranges: Batch)
    ensures a + map[] + ranges == a + ranges
  {
  }

  lemma InsertOrderly(view: View, tag: Tag, names: Option<seq<string>>, rows: seq<Cells>, nonces: Nonces)
    requires Named(view, tag) && InsertPlan(view, tag, names, rows, nonces).Success?
    ensures Orderly(InsertPlan(view, tag, names, rows, nonces).value.writes, view, tag)
  {
    hide Named, Orderly, PrepareRows, Positions, RangeWrites, ChangesWrites, MaintainedColumns, RangedColumns, ExpectSchema, LoadSequence;
    SchemaThere(view, tag);
    var schema := SchemaAt(view, tag);
    var next, rows' := LoadSequence(view, tag).value, PrepareRows(view, tag, schema, Positions(schema, names).value, rows, |rows|).value;
    var changes := Insertions(next, rows');
    var ranges := RangeWrites(view, tag, Inserting, changes, RangedColumns(schema), nonces).value;
    RangeWritesKeys(view, tag, Inserting, changes, RangedColumns(schema), nonces);
    RowPlanOrderly(view, tag, changes, MaintainedColumns(schema), PutSequence(map[], tag, next + |rows|, nonces), ranges, nonces);
  }

  lemma UpdateOrderly(view: View, tag: Tag, assignments: seq<Assignment>, where: Option<Expr>, nonces: Nonces)
    requires Named(view, tag) && UpdatePlan(view, tag, assignments, where, nonces).Success?
    ensures Orderly(UpdatePlan(view, tag, assignments, where, nonces).value.writes, view, tag)
  {
    hide Named, Orderly, MatchingRows, RangeWrites, ChangesWrites, MaintainedColumns, RangedColumns, ExpectSchema, ResolveTargets, CompileOption,
         CheckNewPrimary;
    SchemaThere(view, tag);
    var schema := SchemaAt(view, tag);
    var found := MatchingRows(view, tag, schema, CompileOption(schema, where).value).value;
    var changes := Updates(found, ResolveTargets(schema, assignments, |assignments|).value);
    var base := ChangesWrites(tag, changes, MaintainedColumns(schema), nonces);
    var ranges := RangeWrites(view, tag, Updating, changes, RangedColumns(schema), nonces).value;
    RangeWritesKeys(view, tag, Updating, changes, RangedColumns(schema), nonces);
    RowPlanOrderly(view, tag, changes, MaintainedColumns(schema), map[], ranges, nonces);
    NothingBetween(base, ranges);
  }

  lemma DeleteOrderly(view: View, tag: Tag, where: Option<Expr>, nonces: Nonces)
    requires Named(view, tag) && DeletePlan(view, tag, where, nonces).Success?
    ensures Orderly(DeletePlan(view, tag, where, nonces).value.writes, view, tag)
  {
    hide Named, Orderly, MatchingRows, RangeWrites, ChangesWrites, MaintainedColumns, RangedColumns, ExpectSchema, CompileOption;
    SchemaThere(view, tag);
    var schema := SchemaAt(view, tag);
    var changes := Deletions(MatchingRows(view, tag, schema, CompileOption(schema, where).value).value);
    var base := ChangesWrites(tag, changes, MaintainedColumns(schema), nonces);
    var ranges := RangeWrites(view, tag, Deleting, changes, RangedColumns(schema), nonces).value;
    RangeWritesKeys(view, tag, Deleting, changes, RangedColumns(schema), nonces);
    RowPlanOrderly(view, tag, changes, MaintainedColumns(schema), map[], ranges, nonces);
    NothingBetween(base, ranges);
  }

  // ---------------------------------------------------------------- schemas

  /** Keys of the table, then a catalog record under its name. */
  lemma PutSchemaOrderly(view: View, tag: Tag, b: Batch, schema: Schema, nonces: Nonces)
    requires OwnKeys(b, tag) && schema.name == tag.table
    ensures Orderly(PutSchema(b, tag, schema, nonces), view, tag)
  {
    assert Owner(Catalog(tag)) == Some(tag);
    ApplyAt(PutSchema(b, tag, schema, nonces), view, Catalog(tag));
  }

  lemma {:induction false} BackfillKeys(tag: Tag, c: nat, found: seq<Found>, nonces: Nonces)
    ensures OwnKeys(Backfill(tag, c, found, nonces), tag)
  {
    if found != [] {
      BackfillKeys(tag, c, found[..|found| - 1], nonces);
    }
  }

  lemma CreateTableOrderly(view: View, tag: Tag, defs: seq<ColumnDef>, nonces: Nonces)
    requires CreateTablePlan(view, tag, defs, nonces).Success?
    ensures Orderly(CreateTablePlan(view, tag, defs, nonces).value.writes, view, tag)
  {
    hide Orderly, LookupSchema, PutSchema;
    PutSchemaOrderly(view, tag, map[], Schema(tag.table, NewColumns(defs)), nonces);
  }

  lemma IndexOrderly(view: View, tag: Tag, column: string, nonces: Nonces)
    requires Named(view, tag)
    ensures CreateIndexPlan(view, tag, column, nonces).Success? ==> Orderly(CreateIndexPlan(view, tag, column, nonces).value.writes, view, tag)
    ensures DropIndexPlan(view, tag, column, nonces).Success? ==> Orderly(DropIndexPlan(view, tag, column, nonces).value.writes, view, tag)
  {
    hide Named, Orderly, ExpectSchema, PutSchema, FetchAll, Backfill, Resolve, SetIndexed;
    if ExpectSchema(view, tag).Success? && Resolve(SchemaAt(view, tag), column).Success? {
      SchemaThere(view, tag);
      var schema, c := SchemaAt(view, tag), Resolve(SchemaAt(view, tag), column).value;
      var ids := Sorted(RowIds(view, tag));
      if FetchAll(view, tag, ids).Success? {
        var found := FetchAll(view, tag, ids).value;
        BackfillKeys(tag, c, found, nonces);
        PutSchemaOrderly(view, tag, Backfill(tag, c, found, nonces), SetIndexed(schema, c, true), nonces);
      }
      var dropped: Batch := map k | k in view && k.Index? && k.tag == tag && k.col == c :: None;
      PutSchemaOrderly(view, tag, dropped, SetIndexed(schema, c, false), nonces);
    } else if ExpectSchema(view, tag).Success? {
      SchemaThere(view, tag);
    }
  }

  lemma RangeOrderly(view: View, tag: Tag, column: string, nonces: Nonces)
    requires Named(view, tag)
    ensures CreateRangePlan(view, tag, column, nonces).Success? ==> Orderly(CreateRangePlan(view, tag, column, nonces).value.writes, view, tag)
    ensures DropRangePlan(view, tag, column, nonces).Success? ==> Orderly(DropRangePlan(view, tag, column, nonces).value.writes, view, tag)
  {
    hide Named, Orderly, ExpectSchema, PutSchema, FetchAll, SortEntries, EntriesOf, Resolve, SetRanged;
    if ExpectSchema(view, tag).Success? && Resolve(SchemaAt(view, tag), column).Success? {
      SchemaThere(view, tag);
      var schema, c := SchemaAt(view, tag), Resolve(SchemaAt(view, tag), column).value;
      var ids := Sorted(RowIds(view, tag));
      if FetchAll(view, tag, ids).Success? {
        var blob := SortEntries(EntriesOf(FetchAll(view, tag, ids).value, c));
        PutSchemaOrderly(view, tag, PutBlob(map[], tag, c, blob, nonces), SetRanged(schema, c, true), nonces);
      }
      PutSchemaOrderly(view, tag, map[Range(tag, c) := None], SetRanged(schema, c, false), nonces);
    } else if ExpectSchema(view, tag).Success? {
      SchemaThere(view, tag);
    }
  }

  lemma DropTableOrderly(view: View, tag: Tag)
    requires Named(view, tag) && DropTablePlan(view, tag).Success?
    ensures Orderly(DropTablePlan(view, tag).value.writes, view, tag)
  {
    var b := DropTablePlan(view, tag).value.writes;
    hide ExpectSchema;
    forall k | k in Apply(b, view)
      ensures Owner(k) != Some(tag)
    {
      ApplyAt(b, view, k);
    }
  }

  // ---------------------------------------------------------------- every statement

  /** Main step: no statement writes an audit key or another table's key, whatever it finds. */
  lemma PlanOrderly(view: View, master: nat, nonces: Nonces, s: Statement)
    requires !IsControl(s) && !s.SelectStmt? && Named(view, Tag(master, s.table)) && PlanOf(view, master, nonces, s).Success?
    ensures Orderly(PlanOf(view, master, nonces, s).value.writes, view, Tag(master, s.table))
  {
    var tag := Tag(master, s.table);
    hide Named, Orderly, CreateTablePlan, DropTablePlan, CreateRangePlan, CreateIndexPlan, DropRangePlan, DropIndexPlan, InsertPlan, UpdatePlan,
         DeletePlan;
    match s
    case CreateTableStmt(_, defs) => CreateTableOrderly(view, tag, defs, nonces);
    case DropTableStmt(_) => DropTableOrderly(view, tag);
    case CreateIndexStmt(_, column, range) =>
      if range {
        RangeOrderly(view, tag, column, nonces);
      } else {
        IndexOrderly(view, tag, column, nonces);
      }
    case DropIndexStmt(_, column, range) =>
      if range {
        RangeOrderly(view, tag, column, nonces);
      } else {
        IndexOrderly(view, tag, column, nonces);
      }
    case InsertStmt(_, columns, rows) => InsertOrderly(view, tag, columns, rows, nonces);
    case UpdateStmt(_, assignments, where) => UpdateOrderly(view, tag, assignments, where, nonces);
    case DeleteStmt(_, where) => DeleteOrderly(view, tag, where, nonces);
  }

  lemma NamedFrame(v: View, w: View, tag: Tag)
    requires SameTable(v, w, tag) && Named(v, tag)
    ensures Named(w, tag)
  {
    assert Owner(Catalog(tag)) == Some(tag);
  }
}
