/** INSERT, UPDATE and DELETE from their literals to their batches. */
module DataStatements {
  import opened Wrappers
  import opened EngineData
  import opened Predicates
  import opened Tables
  import opened RowChanges
  import opened RangeBlobs
  import opened Queries
  import opened RowStatements

  /** The row count a statement reports, its writes, and the row changes behind them. */
  datatype Plan = Plan(count: nat, writes: Batch)

  // ---------------------------------------------------------------- INSERT

  function ResolveAll(schema: Schema, names: seq<string>, n: nat): (r: Result<seq<nat>, Error>)
    requires n <= |names|
    ensures r.Success? ==> |r.value| == n && forall i :: 0 <= i < n ==> r.value[i] < |schema.columns|
  {
    if n == 0 then Success([])
    else
      var rest :- ResolveAll(schema, names, n - 1);
      var c :- Resolve(schema, names[n - 1]);
      Success(rest + [c])
  }

  function Positions(schema: Schema, names: Option<seq<string>>): (r: Result<seq<nat>, Error>)
    ensures r.Success? ==> forall i :: 0 <= i < |r.value| ==> r.value[i] < |schema.columns|
  {
    match names
    case None => Success(seq(|schema.columns|, i => i))
    case Some(ns) => ResolveAll(schema, ns, |ns|)
  }

  function NullRow(schema: Schema): (r: Cells)
    ensures Typed(r, schema)
  {
    seq(|schema.columns|, i => Null)
  }

  /** The first n literals put at their positions. */
  function FillRow(schema: Schema, positions: seq<nat>, literals: Cells, n: nat): (r: Result<Cells, Error>)
    requires n <= |positions| == |literals| && forall i :: 0 <= i < |positions| ==> positions[i] < |schema.columns|
    ensures r.Success? ==> Typed(r.value, schema)
  {
    if n == 0 then Success(NullRow(schema))
    else
      var row :- FillRow(schema, positions, literals, n - 1);
      var v :- Coerce(literals[n - 1], schema.columns[positions[n - 1]]);
      Success(row[positions[n - 1] := v])
  }

  predicate Holds(rows: seq<Cells>, c: nat, v: Value) {
    exists i :: 0 <= i < |rows| && c < |rows[i]| && rows[i][c] == v
  }

  /** No error, or the constraint that a new row would break. */
  function CheckPrimary(view: View, tag: Tag, schema: Schema, earlier: seq<Cells>, row: Cells): Result<bool, Error>
    requires Typed(row, schema)
  {
    match PrimaryColumn(schema)
    case None => Success(true)
    case Some(c) =>
      if row[c] == Null then Failure(ConstraintError)
      else if Holds(earlier, c, row[c]) then Failure(ConstraintError)
      else
        var ids :- IndexRowIds(view, tag, c, row[c]);
        if ids != [] then Failure(ConstraintError) else Success(true)
  }

  /** The first n rows, coerced and checked. */
  function PrepareRows(view: View, tag: Tag, schema: Schema, positions: seq<nat>, rows: seq<Cells>, n: nat): (r: Result<seq<Cells>, Error>)
    requires n <= |rows| && forall i :: 0 <= i < |positions| ==> positions[i] < |schema.columns|
    ensures r.Success? ==> |r.value| == n && forall i :: 0 <= i < n ==> Typed(r.value[i], schema)
  {
    if n == 0 then Success([])
    else
      var earlier :- PrepareRows(view, tag, schema, positions, rows, n - 1);
      if |rows[n - 1]| != |positions| then Failure(TypeError)
      else
        var row :- FillRow(schema, positions, rows[n - 1], |positions|);
        var _ :- CheckPrimary(view, tag, schema, earlier, row);
        Success(earlier + [row])
  }

  function Insertions(first: nat, rows: seq<Cells>): (changes: seq<Change>)
    ensures |changes| == |rows|
  {
    seq(|rows|, i requires 0 <= i < |rows| => Change(first + i, None, Some(rows[i])))
  }

  function PutSequence(b: Batch, tag: Tag, next: nat, nonces: Nonces): Batch {
    b[Sequence(tag) := Some(Seal(TableCipher(tag), nonces, SequencePlain(next), Sequence(tag)))]
  }

  function InsertPlan(view: View, tag: Tag, names: Option<seq<string>>, rows: seq<Cells>, nonces: Nonces): Result<Plan, Error> {
    var schema :- ExpectSchema(view, tag);
    var positions :- Positions(schema, names);
    var prepared :- PrepareRows(view, tag, schema, positions, rows, |rows|);
    var next :- LoadSequence(view, tag);
    var changes := Insertions(next, prepared);
    var ranges :- RangeWrites(view, tag, Inserting, changes, RangedColumns(schema), nonces);
    var base := ChangesWrites(tag, changes, MaintainedColumns(schema), nonces);
    Success(Plan(|rows|, base + PutSequence(map[], tag, next + |rows|, nonces) + ranges))
  }

  // ---------------------------------------------------------------- UPDATE

  datatype Assignment = Assignment(column: string, value: Value)

  datatype Target = Target(col: nat, value: Value)

  predicate Assigns(targets: seq<Target>, c: nat) {
    exists i :: 0 <= i < |targets| && targets[i].col == c
  }

  function ResolveTargets(schema: Schema, assignments: seq<Assignment>, n: nat): (r: Result<seq<Target>, Error>)
    requires n <= |assignments|
    ensures r.Success? ==> forall i :: 0 <= i < |r.value| ==>
      r.value[i].col < |schema.columns| && HasType(r.value[i].value, schema.columns[r.value[i].col].ty)
    ensures r.Success? ==> forall i, j :: 0 <= i < j < |r.value| ==> r.value[i].col != r.value[j].col
  {
    if n == 0 then Success([])
    else
      var rest :- ResolveTargets(schema, assignments, n - 1);
      var c :- Resolve(schema, assignments[n - 1].column);
      if Assigns(rest, c) then Failure(SchemaError)
      else
        var v :- Coerce(assignments[n - 1].value, schema.columns[c]);
        Success(rest + [Target(c, v)])
  }

  function Assigned(row: Cells, targets: seq<Target>): (r: Cells)
    requires forall i :: 0 <= i < |targets| ==> targets[i].col < |row|
    ensures |r| == |row|
  {
    if targets == [] then row
    else
      var n := |targets| - 1;
      Assigned(row, targets[..n])[targets[n].col := targets[n].value]
  }

  lemma {:induction false} AssignedCells(row: Cells, targets: seq<Target>, c: nat)
    requires (forall i :: 0 <= i < |targets| ==> targets[i].col < |row|) && c < |row|
    ensures !Assigns(targets, c) ==> Assigned(row, targets)[c] == row[c]
    ensures (forall i, j :: 0 <= i < j < |targets| ==> targets[i].col != targets[j].col) ==>
      forall i :: 0 <= i < |targets| && targets[i].col == c ==> Assigned(row, targets)[c] == targets[i].value
  {
    if targets != [] {
      var n := |targets| - 1;
      AssignedCells(row, targets[..n], c);
      assert forall i :: 0 <= i < n ==> targets[..n][i] == targets[i];
    }
  }

  function CompileOption(schema: Schema, where: Option<Expr>): (r: Result<Option<Filter>, Error>)
    ensures r.Success? && r.value.Some? ==> Fits(r.value.value, |schema.columns|)
  {
    match where
    case None => Success(None)
    case Some(e) => var f :- Compile(schema, e); Success(Some(f))
  }

  /** The value the statement gives the primary key, if it assigns it. */
  function NewPrimary(schema: Schema, targets: seq<Target>): (r: Option<Target>)
    ensures r.Some? ==> r.value in targets && IsPrimary(schema, r.value.col)
  {
    var pk := PrimaryColumn(schema);
    if pk.Some? then FindTarget(targets, pk.value, 0) else None
  }

  function FindTarget(targets: seq<Target>, c: nat, i: nat): (r: Option<Target>)
    requires i <= |targets|
    ensures r.Some? ==> r.value in targets && r.value.col == c
    ensures r.None? ==> forall j :: i <= j < |targets| ==> targets[j].col != c
    decreases |targets| - i
  {
    if i == |targets| then None else if targets[i].col == c then Some(targets[i]) else FindTarget(targets, c, i + 1)
  }

  predicate OnlyHolder(ids: seq<nat>, id: nat) {
    forall i :: 0 <= i < |ids| ==> ids[i] == id
  }

  function CheckNewPrimary(view: View, tag: Tag, schema: Schema, targets: seq<Target>, found: seq<Found>): Result<bool, Error> {
    match NewPrimary(schema, targets)
    case None => Success(true)
    case Some(t) =>
      if t.value == Null || |found| > 1 then Failure(ConstraintError)
      else if found == [] then Success(true)
      else
        var ids :- IndexRowIds(view, tag, t.col, t.value);
        if OnlyHolder(ids, found[0].id) then Success(true) else Failure(ConstraintError)
  }

  predicate Fetched(found: seq<Found>, targets: seq<Target>) {
    forall i, j :: 0 <= i < |found| && 0 <= j < |targets| ==> targets[j].col < |found[i].cells|
  }

  function Updates(found: seq<Found>, targets: seq<Target>): (changes: seq<Change>)
    requires Fetched(found, targets)
    ensures |changes| == |found|
  {
    seq(|found|, i requires 0 <= i < |found| => Change(found[i].id, Some(found[i].cells), Some(Assigned(found[i].cells, targets))))
  }

  function UpdatePlan(view: View, tag: Tag, assignments: seq<Assignment>, where: Option<Expr>, nonces: Nonces): Result<Plan, Error> {
    var schema :- ExpectSchema(view, tag);
    var filter :- CompileOption(schema, where);
    var targets :- ResolveTargets(schema, assignments, |assignments|);
    var found :- MatchingRows(view, tag, schema, filter);
    if !Fetched(found, targets) then Failure(CorruptError)
    else
      var changes := Updates(found, targets);
      var _ :- CheckNewPrimary(view, tag, schema, targets, found);
      var ranges :- RangeWrites(view, tag, Updating, changes, RangedColumns(schema), nonces);
      Success(Plan(|found|, ChangesWrites(tag, changes, MaintainedColumns(schema), nonces) + ranges))
  }

  // ---------------------------------------------------------------- DELETE

  function Deletions(found: seq<Found>): (changes: seq<Change>)
    ensures |changes| == |found|
  {
    seq(|found|, i requires 0 <= i < |found| => Change(found[i].id, Some(found[i].cells), None))
  }

  function DeletePlan(view: View, tag: Tag, where: Option<Expr>, nonces: Nonces): Result<Plan, Error> {
    var schema :- ExpectSchema(view, tag);
    var filter :- CompileOption(schema, where);
    var found :- MatchingRows(view, tag, schema, filter);
    var changes := Deletions(found);
    var ranges :- RangeWrites(view, tag, Deleting, changes, RangedColumns(schema), nonces);
    Success(Plan(|found|, ChangesWrites(tag, changes, MaintainedColumns(schema), nonces) + ranges))
  }

  // ---------------------------------------------------------------- INSERT keeps the invariant

  lemma NoHolder(view: View, tag: Tag, schema: Schema, c: nat, v: Value)
    requires IndexOk(view, tag, schema) && Maintained(schema, c) && IndexRowIds(view, tag, c, v) == Success([])
    ensures forall id :: !HasCell(view, tag, c, v, id)
  {
    forall id
      ensures !HasCell(view, tag, c, v, id)
    {
      assert id !in Sorted(IndexIds(view, tag, c, v));
    }
  }

  /** The checks of a prepared INSERT: present, pairwise different and unused primary keys. */
  lemma {:induction false} PreparedPrimary(view: View, tag: Tag, schema: Schema, positions: seq<nat>, rows: seq<Cells>, n: nat, c: nat)
    requires IndexOk(view, tag, schema) && SchemaOk(schema, tag) && IsPrimary(schema, c)
    requires n <= |rows| && (forall i :: 0 <= i < |positions| ==> positions[i] < |schema.columns|)
    requires PrepareRows(view, tag, schema, positions, rows, n).Success?
    ensures var p := PrepareRows(view, tag, schema, positions, rows, n).value;
      && (forall i :: 0 <= i < n ==> p[i][c] != Null)
      && (forall i, j :: 0 <= i < j < n ==> p[i][c] != p[j][c])
      && (forall i, id :: 0 <= i < n ==> !HasCell(view, tag, c, p[i][c], id))
  {
    if n > 0 {
      PreparedPrimary(view, tag, schema, positions, rows, n - 1, c);
      var p := PrepareRows(view, tag, schema, positions, rows, n).value;
      var earlier := PrepareRows(view, tag, schema, positions, rows, n - 1).value;
      assert PrimaryColumn(schema) == Some(c);
      assert CheckPrimary(view, tag, schema, earlier, p[n - 1]).Success?;
      NoHolder(view, tag, schema, c, p[n - 1][c]);
      hide PrepareRows, FillRow, CheckPrimary, IndexOk, HasCell;
      assert p == earlier + [p[n - 1]];
    }
  }

  lemma InsertionsOk(view: View, tag: Tag, schema: Schema, rows: seq<Cells>)
    requires SequenceOk(view, tag) && forall i :: 0 <= i < |rows| ==> Typed(rows[i], schema)
    ensures ChangesOk(view, tag, schema, Insertions(SequenceAt(view, tag), rows))
  {
    var changes := Insertions(SequenceAt(view, tag), rows);
    forall i | 0 <= i < |changes|
      ensures ChangeOk(view, tag, schema, changes[i])
    {
      assert Row(tag, changes[i].id) !in view;
    }
  }

  lemma InsertExtra(view: View, tag: Tag, schema: Schema, rows: seq<Cells>, changes: seq<Change>, ranges: Batch, next: nat, nonces: Nonces)
    requires changes == Insertions(SequenceAt(view, tag), rows) && next == SequenceAt(view, tag) + |rows|
    requires OnlyRanges(ranges, tag)
    requires forall c: nat :: BlobWritten(ranges, view, tag, Ranged(schema, c), Inserting, changes, nonces, c)
    ensures ExtraWrites(PutSequence(map[], tag, next, nonces) + ranges, view, tag, schema, Inserting, changes, nonces)
  {
    var extra := PutSequence(map[], tag, next, nonces) + ranges;
    assert Sequence(tag) in extra && SequenceWritten(extra, view, tag, changes, nonces, next);
    hide LeavesBlob, NewBlob, SequenceWritten;
    forall c: nat
      ensures BlobWritten(extra, view, tag, Ranged(schema, c), Inserting, changes, nonces, c)
    {
      assert BlobWritten(ranges, view, tag, Ranged(schema, c), Inserting, changes, nonces, c);
    }
  }

  lemma RangesSucceed(view: View, tag: Tag, schema: Schema, mode: Mode, changes: seq<Change>, nonces: Nonces)
    requires RangesOk(view, tag, schema)
    ensures RangeWrites(view, tag, mode, changes, RangedColumns(schema), nonces).Success?
    ensures OnlyRanges(RangeWrites(view, tag, mode, changes, RangedColumns(schema), nonces).value, tag)
    ensures forall c: nat ::
      BlobWritten(RangeWrites(view, tag, mode, changes, RangedColumns(schema), nonces).value, view, tag, Ranged(schema, c), mode, changes, nonces, c)
  {
    var cols := RangedColumns(schema);
    RangeWritesAt(view, tag, schema, mode, changes, cols, nonces);
    hide RangeWrites, RangesOk, LeavesBlob, NewBlob, BlobWritten;
    forall c: nat
      ensures BlobWritten(RangeWrites(view, tag, mode, changes, cols, nonces).value, view, tag, Ranged(schema, c), mode, changes, nonces, c)
    {
      assert Ranged(schema, c) == (c in cols);
    }
  }

  /** The pieces of a successful INSERT. */
  lemma InsertShape(view: View, tag: Tag, names: Option<seq<string>>, rows: seq<Cells>, nonces: Nonces)
      returns (schema: Schema, positions: seq<nat>, prepared: seq<Cells>, ranges: Batch)
    requires TableInv(view, tag) && InsertPlan(view, tag, names, rows, nonces).Success?
    ensures Catalog(tag) in view && schema == SchemaAt(view, tag) && Positions(schema, names) == Success(positions)
    ensures PrepareRows(view, tag, schema, positions, rows, |rows|) == Success(prepared)
    ensures RangeWrites(view, tag, Inserting, Insertions(SequenceAt(view, tag), prepared), RangedColumns(schema), nonces) == Success(ranges)
    ensures InsertPlan(view, tag, names, rows, nonces).value.writes
         == ChangesWrites(tag, Insertions(SequenceAt(view, tag), prepared), MaintainedColumns(schema), nonces)
            + PutSequence(map[], tag, SequenceAt(view, tag) + |rows|, nonces) + ranges
  {
    hide TableInv, ContentsInv, CatalogOk, RowsOk, IndexOk, RangesOk, SequenceOk, PrimaryOk, SchemaOk, SchemaAt, SequenceAt, LoadSequence, ExpectSchema, RangeWrites, PrepareRows, PutSequence,
         ChangesWrites, Positions, Insertions, MaintainedColumns, RangedColumns;
    SchemaRead(view, tag);
    schema := SchemaAt(view, tag);
    TableParts(view, tag);
    SequenceRead(view, tag);
    positions := Positions(schema, names).value;
    prepared := PrepareRows(view, tag, schema, positions, rows, |rows|).value;
    ranges := RangeWrites(view, tag, Inserting, Insertions(SequenceAt(view, tag), prepared), RangedColumns(schema), nonces).value;
  }

  lemma SequencePut(tag: Tag, next: nat, nonces: Nonces, base: Batch, ranges: Batch)
    requires OnlyRanges(ranges, tag)
    ensures base + PutSequence(map[], tag, next, nonces) + ranges == base + (PutSequence(map[], tag, next, nonces) + ranges)
    ensures Sequence(tag) in base + PutSequence(map[], tag, next, nonces) + ranges
  {
  }

  lemma InsertPrimaryKept(view: View, tag: Tag, schema: Schema, positions: seq<nat>, rows: seq<Cells>, prepared: seq<Cells>, first: nat, c: nat)
    requires IndexOk(view, tag, schema) && SchemaOk(schema, tag) && IsPrimary(schema, c)
    requires (forall i :: 0 <= i < |positions| ==> positions[i] < |schema.columns|)
    requires PrepareRows(view, tag, schema, positions, rows, |rows|) == Success(prepared)
    ensures PrimaryKept(view, tag, Insertions(first, prepared), c)
  {
    hide *;
    PreparedPrimary(view, tag, schema, positions, rows, |rows|, c);
    PreparedShape(view, tag, schema, positions, rows, |rows|);
    PrimaryFits(schema, c);
    NewCellsKept(view, tag, prepared, first, c);
  }

  lemma PrimaryFits(schema: Schema, c: nat)
    requires IsPrimary(schema, c)
    ensures c < |schema.columns|
  {
  }

  lemma PreparedShape(view: View, tag: Tag, schema: Schema, positions: seq<nat>, rows: seq<Cells>, n: nat)
    requires n <= |rows| && (forall i :: 0 <= i < |positions| ==> positions[i] < |schema.columns|)
    requires PrepareRows(view, tag, schema, positions, rows, n).Success?
    ensures var p := PrepareRows(view, tag, schema, positions, rows, n).value;
      |p| == n && forall i :: 0 <= i < n ==> |p[i]| == |schema.columns|
  {
    hide FillRow, CheckPrimary;
  }

  lemma NewCellsKept(view: View, tag: Tag, rows: seq<Cells>, first: nat, c: nat)
    requires forall i :: 0 <= i < |rows| ==> c < |rows[i]| && rows[i][c] != Null
    requires forall i, j :: 0 <= i < j < |rows| ==> rows[i][c] != rows[j][c]
    requires forall i, id :: 0 <= i < |rows| ==> !HasCell(view, tag, c, rows[i][c], id)
    ensures PrimaryKept(view, tag, Insertions(first, rows), c)
  {
    hide HasCell;
  }

  /** INSERT keeps the table invariant, always. */
  lemma InsertKeepsTable(view: View, tag: Tag, names: Option<seq<string>>, rows: seq<Cells>, nonces: Nonces)
    requires TableInv(view, tag) && InsertPlan(view, tag, names, rows, nonces).Success?
    ensures var b := InsertPlan(view, tag, names, rows, nonces).value.writes;
      Catalog(tag) in view && TableInv(Apply(b, view), tag) && OwnKeys(b, tag) && b != map[]
      && Catalog(tag) in Apply(b, view) && SchemaAt(Apply(b, view), tag) == SchemaAt(view, tag)
  {
    hide *;
    var schema, positions, prepared, ranges := InsertShape(view, tag, names, rows, nonces);
    TableParts(view, tag);
    var next := SequenceAt(view, tag) + |rows|;
    var changes := Insertions(SequenceAt(view, tag), prepared);
    var b := InsertPlan(view, tag, names, rows, nonces).value.writes;
    RangesSucceed(view, tag, schema, Inserting, changes, nonces);
    var extra := PutSequence(map[], tag, next, nonces) + ranges;
    SequencePut(tag, next, nonces, ChangesWrites(tag, changes, MaintainedColumns(schema), nonces), ranges);
    InsertExtra(view, tag, schema, prepared, changes, ranges, next, nonces);
    InsertionsOk(view, tag, schema, prepared);
    forall c: nat | IsPrimary(schema, c)
      ensures PrimaryKept(view, tag, changes, c)
    {
      InsertPrimaryKept(view, tag, schema, positions, rows, prepared, SequenceAt(view, tag), c);
    }
    GoodFrom(b, view, tag, schema, Inserting, changes, nonces, extra);
    StatementKeepsTable(view, tag, schema, Inserting, changes, nonces, b);
  }

  lemma GoodFrom(b: Batch, view: View, tag: Tag, schema: Schema, mode: Mode, changes: seq<Change>, nonces: Nonces, extra: Batch)
    requires b == ChangesWrites(tag, changes, MaintainedColumns(schema), nonces) + extra
    requires ExtraWrites(extra, view, tag, schema, mode, changes, nonces) && ChangesOk(view, tag, schema, changes)
    requires mode == Deleting ==> forall i :: 0 <= i < |changes| ==> changes[i].after.None?
    requires forall c: nat :: IsPrimary(schema, c) ==> PrimaryKept(view, tag, changes, c)
    ensures GoodStatement(b, view, tag, schema, mode, changes, nonces)
  {
    hide ExtraWrites, ChangesOk, PrimaryKept, ChangesWrites;
  }

  // ---------------------------------------------------------------- UPDATE and DELETE keep the invariant

  /** Matching rows are stored rows, each found once. */
  ghost predicate FoundOk(view: View, tag: Tag, found: seq<Found>) {
    && (forall i :: 0 <= i < |found| ==> Row(tag, found[i].id) in view && found[i].cells == Contents(view, tag, found[i].id))
    && (forall i, j :: 0 <= i < j < |found| ==> found[i].id != found[j].id)
  }

  lemma {:induction false} PresentOk(view: View, tag: Tag, ids: seq<nat>)
    requires NoRepeats(ids)
    ensures FoundOk(view, tag, Present(view, tag, ids))
    ensures forall i :: 0 <= i < |Present(view, tag, ids)| ==> Present(view, tag, ids)[i].id in ids
  {
    if ids != [] {
      var n := |ids| - 1;
      PresentOk(view, tag, ids[..n]);
      assert ids == ids[..n] + [ids[n]];
      hide Contents;
    }
  }

  lemma {:induction false} SelectOk(view: View, tag: Tag, found: seq<Found>, filter: Option<Filter>)
    requires FoundOk(view, tag, found) && Select(found, filter).Success?
    ensures FoundOk(view, tag, Select(found, filter).value)
    ensures forall i :: 0 <= i < |Select(found, filter).value| ==> Select(found, filter).value[i] in found
  {
    if found != [] {
      var n := |found| - 1;
      SelectOk(view, tag, found[..n], filter);
      assert found == found[..n] + [found[n]];
      hide Contents, RowMatches;
    }
  }

  /** Whatever path is taken, a successful search finds stored rows, each once. */
  lemma MatchingOk(view: View, tag: Tag, schema: Schema, filter: Option<Filter>)
    requires ContentsInv(view, tag, schema) && MatchingRows(view, tag, schema, filter).Success?
    ensures FoundOk(view, tag, MatchingRows(view, tag, schema, filter).value)
  {
    hide Select, FetchAll, Present, FoundOk, PickIndex, PickRange, RangeHits;
    var ids: seq<nat>;
    if filter.Some? && PickIndex(filter.value, schema).Some? {
      var p := PickIndex(filter.value, schema).value;
      IndexRead(view, tag, schema, p.col, p.value);
      ids := Sorted(IndexIds(view, tag, p.col, p.value));
      AscendingNoRepeats(ids);
    } else if filter.Some? && PickRange(filter.value, schema).Some? {
      var p := PickRange(filter.value, schema).value;
      RangeRead(view, tag, schema, p.col);
      BlobIdsDistinct(view, tag, p.col, BlobAt(view, tag, p.col));
      RangeHitsMembers(BlobAt(view, tag, p.col), p.bound);
      ids := RangeHits(BlobAt(view, tag, p.col), p.bound);
    } else {
      ids := Sorted(RowIds(view, tag));
      AscendingNoRepeats(ids);
    }
    FetchRead(view, tag, schema, ids);
    PresentOk(view, tag, ids);
    SelectOk(view, tag, Present(view, tag, ids), filter);
  }

  lemma NoSequenceExtra(view: View, tag: Tag, schema: Schema, mode: Mode, changes: seq<Change>, ranges: Batch, nonces: Nonces)
    requires OnlyRanges(ranges, tag) && forall i :: 0 <= i < |changes| ==> changes[i].before.Some?
    requires forall c: nat :: BlobWritten(ranges, view, tag, Ranged(schema, c), mode, changes, nonces, c)
    ensures ExtraWrites(ranges, view, tag, schema, mode, changes, nonces)
  {
  }

  lemma DeletionsOk(view: View, tag: Tag, schema: Schema, found: seq<Found>)
    requires FoundOk(view, tag, found)
    ensures ChangesOk(view, tag, schema, Deletions(found))
  {
    var changes := Deletions(found);
    forall i | 0 <= i < |changes|
      ensures ChangeOk(view, tag, schema, changes[i])
    {
    }
  }

  lemma DeletionsRemove(view: View, tag: Tag, found: seq<Found>)
    ensures forall i :: 0 <= i < |found| ==> Deletions(found)[i].before.Some? && Deletions(found)[i].after.None?
    ensures forall c: nat :: PrimaryKept(view, tag, Deletions(found), c)
  {
  }

  lemma DeleteShape(view: View, tag: Tag, where: Option<Expr>, nonces: Nonces)
      returns (schema: Schema, found: seq<Found>, ranges: Batch)
    requires TableInv(view, tag) && DeletePlan(view, tag, where, nonces).Success?
    ensures Catalog(tag) in view && schema == SchemaAt(view, tag) && FoundOk(view, tag, found)
    ensures RangeWrites(view, tag, Deleting, Deletions(found), RangedColumns(schema), nonces) == Success(ranges)
    ensures DeletePlan(view, tag, where, nonces).value
         == Plan(|found|, ChangesWrites(tag, Deletions(found), MaintainedColumns(schema), nonces) + ranges)
    ensures found == UpdatedRows(view, tag, where)
  {
    hide TableInv, ContentsInv, CatalogOk, RowsOk, IndexOk, RangesOk, SequenceOk, PrimaryOk, SchemaOk, SchemaAt, SequenceAt, LoadSequence, ExpectSchema, RangeWrites, ChangesWrites, CompileOption,
         MatchingRows, FoundOk, MaintainedColumns, RangedColumns, Deletions;
    SchemaRead(view, tag);
    schema := SchemaAt(view, tag);
    TableParts(view, tag);
    hide CompileOption;
    var filter := CompileOption(schema, where).value;
    found := MatchingRows(view, tag, schema, filter).value;
    MatchingOk(view, tag, schema, filter);
    ranges := RangeWrites(view, tag, Deleting, Deletions(found), RangedColumns(schema), nonces).value;
  }

  /** DELETE keeps the table invariant, always. */
  lemma DeleteKeepsTable(view: View, tag: Tag, where: Option<Expr>, nonces: Nonces)
    requires TableInv(view, tag) && DeletePlan(view, tag, where, nonces).Success?
    ensures var b := DeletePlan(view, tag, where, nonces).value.writes;
      Catalog(tag) in view && TableInv(Apply(b, view), tag) && OwnKeys(b, tag)
      && Catalog(tag) in Apply(b, view) && SchemaAt(Apply(b, view), tag) == SchemaAt(view, tag)
  {
    hide *;
    var schema, found, ranges := DeleteShape(view, tag, where, nonces);
    TableParts(view, tag);
    var changes := Deletions(found);
    DeletionsRemove(view, tag, found);
    RangesSucceed(view, tag, schema, Deleting, changes, nonces);
    NoSequenceExtra(view, tag, schema, Deleting, changes, ranges, nonces);
    DeletionsOk(view, tag, schema, found);
    var b := DeletePlan(view, tag, where, nonces).value.writes;
    GoodFrom(b, view, tag, schema, Deleting, changes, nonces, ranges);
    StatementKeepsTable(view, tag, schema, Deleting, changes, nonces, b);
  }

  lemma UpdateShape(view: View, tag: Tag, assignments: seq<Assignment>, where: Option<Expr>, nonces: Nonces)
      returns (schema: Schema, targets: seq<Target>, found: seq<Found>, ranges: Batch)
    requires TableInv(view, tag) && UpdatePlan(view, tag, assignments, where, nonces).Success?
    ensures Catalog(tag) in view && schema == SchemaAt(view, tag) && FoundOk(view, tag, found) && Fetched(found, targets)
    ensures ResolveTargets(schema, assignments, |assignments|) == Success(targets)
    ensures CheckNewPrimary(view, tag, schema, targets, found).Success?
    ensures RangeWrites(view, tag, Updating, Updates(found, targets), RangedColumns(schema), nonces) == Success(ranges)
    ensures UpdatePlan(view, tag, assignments, where, nonces).value
         == Plan(|found|, ChangesWrites(tag, Updates(found, targets), MaintainedColumns(schema), nonces) + ranges)
    ensures found == UpdatedRows(view, tag, where)
  {
    hide TableInv, ContentsInv, CatalogOk, RowsOk, IndexOk, RangesOk, SequenceOk, PrimaryOk, SchemaOk, SchemaAt, SequenceAt, LoadSequence, ExpectSchema, RangeWrites, ChangesWrites, CompileOption,
         MatchingRows, FoundOk, MaintainedColumns, RangedColumns, Deletions;
    SchemaRead(view, tag);
    schema := SchemaAt(view, tag);
    TableParts(view, tag);
    hide CompileOption, ResolveTargets,
         CheckNewPrimary, Updates, Fetched;
    var filter := CompileOption(schema, where).value;
    targets := ResolveTargets(schema, assignments, |assignments|).value;
    found := MatchingRows(view, tag, schema, filter).value;
    MatchingOk(view, tag, schema, filter);
    ranges := RangeWrites(view, tag, Updating, Updates(found, targets), RangedColumns(schema), nonces).value;
  }

  /** The rows an UPDATE or DELETE with this predicate works on. */
  function UpdatedRows(view: View, tag: Tag, where: Option<Expr>): seq<Found> {
    var schema := SchemaAt(view, tag);
    var filter := CompileOption(schema, where);
    if filter.Failure? then []
    else
      var found := MatchingRows(view, tag, schema, filter.value);
      if found.Failure? then [] else found.value
  }

  lemma AssignedTyped(row: Cells, targets: seq<Target>, schema: Schema)
    requires Typed(row, schema) && (forall i :: 0 <= i < |targets| ==> targets[i].col < |row|)
    requires forall i :: 0 <= i < |targets| ==> HasType(targets[i].value, schema.columns[targets[i].col].ty)
    ensures Typed(Assigned(row, targets), schema)
  {
    if targets != [] {
      AssignedTyped(row, targets[..|targets| - 1], schema);
    }
  }

  lemma UpdatesFit(view: View, tag: Tag, schema: Schema, assignments: seq<Assignment>, targets: seq<Target>, found: seq<Found>)
    requires RowsOk(view, tag, schema) && FoundOk(view, tag, found) && Fetched(found, targets)
    requires ResolveTargets(schema, assignments, |assignments|) == Success(targets)
    ensures ChangesFit(view, tag, schema, Updates(found, targets))
  {
    hide ResolveTargets;
    var changes := Updates(found, targets);
    forall i | 0 <= i < |changes|
      ensures ChangeFits(view, tag, schema, changes[i])
    {
      assert Row(tag, found[i].id) in view;
      AssignedTyped(found[i].cells, targets, schema);
    }
  }

  /** The primary-key checks of UPDATE: either the key is not assigned, or one row takes a value no other row holds. */
  lemma UpdatesKeepPrimary(view: View, tag: Tag, schema: Schema, assignments: seq<Assignment>, targets: seq<Target>, found: seq<Found>, c: nat)
    requires RowsOk(view, tag, schema) && IndexOk(view, tag, schema) && SchemaOk(schema, tag) && IsPrimary(schema, c)
    requires DistinctCells(view, tag, c) && FoundOk(view, tag, found) && Fetched(found, targets)
    requires ResolveTargets(schema, assignments, |assignments|) == Success(targets)
    requires CheckNewPrimary(view, tag, schema, targets, found).Success?
    ensures PrimaryKept(view, tag, Updates(found, targets), c)
  {
    hide ResolveTargets, IndexRowIds, IndexOk;
    assert PrimaryColumn(schema) == Some(c);
    var t := NewPrimary(schema, targets);
    if t.None? {
      assert !Assigns(targets, c);
      KeyNotAssigned(view, tag, schema, targets, found, c);
    } else {
      KeyAssigned(view, tag, schema, targets, found, t.value);
    }
  }

  lemma KeyNotAssigned(view: View, tag: Tag, schema: Schema, targets: seq<Target>, found: seq<Found>, c: nat)
    requires DistinctCells(view, tag, c) && FoundOk(view, tag, found) && Fetched(found, targets) && !Assigns(targets, c)
    ensures PrimaryKept(view, tag, Updates(found, targets), c)
  {
    var changes := Updates(found, targets);
    forall i | 0 <= i < |changes|
      ensures HasCell(view, tag, c, CellOf(changes[i].after, c), found[i].id)
    {
      AssignedCells(found[i].cells, targets, c);
    }
    forall i, id | 0 <= i < |changes| && HasCell(view, tag, c, CellOf(changes[i].after, c), id)
      ensures IsChanged(changes, id)
    {
      assert changes[i].id == id;
    }
    hide HasCell, Assigned;
    forall i, j | 0 <= i < j < |changes|
      ensures CellOf(changes[i].after, c) != CellOf(changes[j].after, c)
    {
      assert found[i].id != found[j].id;
    }
  }

  lemma KeyAssigned(view: View, tag: Tag, schema: Schema, targets: seq<Target>, found: seq<Found>, t: Target)
    requires RowsOk(view, tag, schema) && IndexOk(view, tag, schema) && Maintained(schema, t.col) && FoundOk(view, tag, found)
    requires Fetched(found, targets) && t in targets && t.value != Null && |found| <= 1
    requires forall i, j :: 0 <= i < j < |targets| ==> targets[i].col != targets[j].col
    requires found != [] ==> IndexRowIds(view, tag, t.col, t.value).Success?
    requires found != [] ==> OnlyHolder(IndexRowIds(view, tag, t.col, t.value).value, found[0].id)
    ensures PrimaryKept(view, tag, Updates(found, targets), t.col)
  {
    var changes := Updates(found, targets);
    if found != [] {
      AssignedCells(found[0].cells, targets, t.col);
      assert CellOf(changes[0].after, t.col) == t.value;
      forall id | HasCell(view, tag, t.col, t.value, id)
        ensures IsChanged(changes, id)
      {
        assert Index(tag, t.col, t.value, id) in view;
        assert id in Sorted(IndexIds(view, tag, t.col, t.value));
        assert changes[0].id == id;
      }
    }
  }

  /**
   Main result: UPDATE keeps the table invariant exactly when no changed row goes from
   one floating-point zero to the other in an indexed or range-indexed column.
   */
  lemma UpdateKeepsTable(view: View, tag: Tag, assignments: seq<Assignment>, where: Option<Expr>, nonces: Nonces)
      returns (targets: seq<Target>, found: seq<Found>)
    requires TableInv(view, tag) && UpdatePlan(view, tag, assignments, where, nonces).Success?
    ensures Catalog(tag) in view && found == UpdatedRows(view, tag, where) && Fetched(found, targets)
    ensures ResolveTargets(SchemaAt(view, tag), assignments, |assignments|) == Success(targets)
    ensures var b := UpdatePlan(view, tag, assignments, where, nonces).value.writes;
      && (TableInv(Apply(b, view), tag) <==> KeepsSigns(Updates(found, targets), SchemaAt(view, tag)))
      && OwnKeys(b, tag) && Catalog(tag) in Apply(b, view) && SchemaAt(Apply(b, view), tag) == SchemaAt(view, tag)
  {
    hide *;
    var schema, ranges;
    schema, targets, found, ranges := UpdateShape(view, tag, assignments, where, nonces);
    TableParts(view, tag);
    var changes := Updates(found, targets);
    var b := UpdatePlan(view, tag, assignments, where, nonces).value.writes;
    UpdatesHaveBefore(found, targets);
    RangesSucceed(view, tag, schema, Updating, changes, nonces);
    NoSequenceExtra(view, tag, schema, Updating, changes, ranges, nonces);
    UpdatesFit(view, tag, schema, assignments, targets, found);
    FittingChanges(view, tag, schema, changes);
    CatalogAfter(view, tag, schema, Updating, changes, nonces, b, ranges);
    CatalogKept(b, view, tag);
    if KeepsSigns(changes, schema) {
      forall c: nat | IsPrimary(schema, c)
        ensures PrimaryKept(view, tag, changes, c)
      {
        PrimaryFacts(view, tag, schema, c);
        UpdatesKeepPrimary(view, tag, schema, assignments, targets, found, c);
      }
      GoodFrom(b, view, tag, schema, Updating, changes, nonces, ranges);
      StatementKeepsTable(view, tag, schema, Updating, changes, nonces, b);
    } else {
      FlipBreaksTable(view, tag, schema, changes, nonces, b, ranges);
    }
  }

  lemma UpdatesHaveBefore(found: seq<Found>, targets: seq<Target>)
    requires Fetched(found, targets)
    ensures forall i :: 0 <= i < |found| ==> Updates(found, targets)[i].before.Some?
  {
  }

  lemma FlipBreaksTable(view: View, tag: Tag, schema: Schema, changes: seq<Change>, nonces: Nonces, b: Batch, extra: Batch)
    requires RowsOk(view, tag, schema) && IndexOk(view, tag, schema) && RangesOk(view, tag, schema) && ChangesFit(view, tag, schema, changes)
    requires !KeepsSigns(changes, schema) && Catalog(tag) in Apply(b, view) && SchemaAt(Apply(b, view), tag) == schema
    requires b == ChangesWrites(tag, changes, MaintainedColumns(schema), nonces) + extra
    requires ExtraWrites(extra, view, tag, schema, Updating, changes, nonces)
    ensures !TableInv(Apply(b, view), tag)
  {
    var i :| 0 <= i < |changes| && !KeepsZeroSigns(changes[i], schema);
    var c :| (Maintained(schema, c) || Ranged(schema, c)) && FlipsZero(changes[i], c);
    hide RowsOk, IndexOk, RangesOk, ChangesFit, ExtraWrites, ChangesWrites, Apply;
    if Maintained(schema, c) {
      FlipBreaksIndex(view, tag, schema, Updating, changes, nonces, b, extra, i, c);
    } else {
      FlipBreaksRange(view, tag, schema, changes, nonces, b, extra, i, c);
    }
  }

  // ---------------------------------------------------------------- a flipped zero

  function ZeroSchema(): Schema {
    Schema("t", [Column("x", RealType, false, true, false)])
  }

  /** A table with one indexed REAL column and one row that holds 0.0. */
  function ZeroTable(tag: Tag): View {
    map[Catalog(tag) := Sealed(CatalogCipher(tag.master), 0, SchemaPlain(ZeroSchema()), Catalog(tag)),
        Sequence(tag) := Sealed(TableCipher(tag), 0, SequencePlain(1), Sequence(tag)),
        Row(tag, 0) := Sealed(TableCipher(tag), 0, RowPlain([Real(0.0)]), Row(tag, 0)),
        Index(tag, 0, Real(0.0), 0) := Sealed(TableCipher(tag), 0, Marker, Index(tag, 0, Real(0.0), 0))]
  }

  /** UPDATE t SET x = -0.0 */
  function Negation(): seq<Assignment> {
    [Assignment("x", MinusZero)]
  }

  lemma ZeroTableValid(tag: Tag)
    requires tag.table == "t"
    ensures TableInv(ZeroTable(tag), tag) && Catalog(tag) in ZeroTable(tag) && SchemaAt(ZeroTable(tag), tag) == ZeroSchema()
    ensures forall id :: Row(tag, id) in ZeroTable(tag) <==> id == 0
    ensures Contents(ZeroTable(tag), tag, 0) == [Real(0.0)]
  {
    var view, schema := ZeroTable(tag), ZeroSchema();
    assert Contents(view, tag, 0) == [Real(0.0)];
    assert forall c: nat, v, id: nat :: HasCell(view, tag, c, v, id) <==> c == 0 && v == Real(0.0) && id == 0;
    assert RangesOk(view, tag, schema);
  }

  lemma ZeroRows(tag: Tag)
    requires tag.table == "t"
    ensures MatchingRows(ZeroTable(tag), tag, ZeroSchema(), None) == Success([Found(0, [Real(0.0)])])
  {
    ZeroTableValid(tag);
    var view, rows := ZeroTable(tag), [Found(0, [Real(0.0)])];
    hide ZeroTable;
    var ids := Sorted(RowIds(view, tag));
    AscendingUnique(ids, [0]);
    assert ids[..0] == [];
    FetchRead(view, tag, SchemaAt(view, tag), ids);
    assert Present(view, tag, ids) == rows;
    assert rows[..0] == [];
    assert RowMatches(None, [Real(0.0)]) == Success(true);
  }

  lemma NegationTargets()
    ensures ResolveTargets(ZeroSchema(), Negation(), |Negation()|) == Success([Target(0, MinusZero)])
  {
    var rest: seq<Target> := [];
    assert ColumnFrom(ZeroSchema().columns, "x", 0) == Some(0);
    assert ResolveTargets(ZeroSchema(), Negation(), 0) == Success(rest) && !Assigns(rest, 0);
    assert Coerce(MinusZero, ZeroSchema().columns[0]) == Success(MinusZero);
    hide Assigned, Coerce, Assigns, ColumnFrom;
    assert |Negation()| == 1 && rest + [Target(0, MinusZero)] == [Target(0, MinusZero)];
    assert ResolveTargets(ZeroSchema(), Negation(), 1) == Success(rest + [Target(0, MinusZero)]);
  }

  lemma NegationOf(row: Cells)
    requires |row| == 1
    ensures Assigned(row, [Target(0, MinusZero)]) == [MinusZero]
  {
    var targets := [Target(0, MinusZero)];
    assert targets[..0] == [];
    assert Assigned(row, targets[..0]) == row;
    assert row[0 := MinusZero] == [MinusZero];
    assert Assigned(row, targets) == row[0 := MinusZero];
  }

  /** The UPDATE succeeds and changes the one row. */
  lemma NegationPlan(view: View, tag: Tag, nonces: Nonces)
    requires ExpectSchema(view, tag) == Success(ZeroSchema()) && SchemaAt(view, tag) == ZeroSchema()
    requires MatchingRows(view, tag, ZeroSchema(), None) == Success([Found(0, [Real(0.0)])])
    ensures UpdatePlan(view, tag, Negation(), None, nonces).Success?
    ensures UpdatedRows(view, tag, None) == [Found(0, [Real(0.0)])]
  {
    NegationTargets();
    hide MatchingRows, ResolveTargets, Assigned, ChangesWrites, ExpectSchema, SchemaAt, Updates;
    assert RangedColumns(ZeroSchema()) == [];
    assert PrimaryColumn(ZeroSchema()) == None;
    assert CompileOption(ZeroSchema(), None) == Success(None);
    assert Fetched([Found(0, [Real(0.0)])], [Target(0, MinusZero)]);
  }

  lemma NegationFlips()
    ensures var found, targets := [Found(0, [Real(0.0)])], [Target(0, MinusZero)];
      Fetched(found, targets) && !KeepsSigns(Updates(found, targets), ZeroSchema())
  {
    var found, targets := [Found(0, [Real(0.0)])], [Target(0, MinusZero)];
    NegationOf([Real(0.0)]);
    hide Assigned;
    assert Fetched(found, targets);
    assert FlipsZero(Updates(found, targets)[0], 0) && Maintained(ZeroSchema(), 0);
    assert !KeepsZeroSigns(Updates(found, targets)[0], ZeroSchema());
  }

  /** Writing -0.0 over an indexed 0.0 leaves the old index entry behind. */
  lemma NegatedZeroBreaksTable(tag: Tag, nonces: Nonces)
    requires tag.table == "t"
    ensures TableInv(ZeroTable(tag), tag) && UpdatePlan(ZeroTable(tag), tag, Negation(), None, nonces).Success?
    ensures !TableInv(Apply(UpdatePlan(ZeroTable(tag), tag, Negation(), None, nonces).value.writes, ZeroTable(tag)), tag)
  {
    ZeroTableValid(tag);
    SchemaRead(ZeroTable(tag), tag);
    ZeroRows(tag);
    NegationTargets();
    NegationPlan(ZeroTable(tag), tag, nonces);
    hide *;
    NegationFlips();
    var targets, found := UpdateKeepsTable(ZeroTable(tag), tag, Negation(), None, nonces);
  }
}
