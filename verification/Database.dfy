/**
 Statements over the whole database, the invariant of every reachable state, and
 transactions: a buffered run of statements equals the same statements run one by one.
 */
module Database {
  import opened Wrappers
  import opened EngineData
  import opened Predicates
  import opened Tables
  import opened RowChanges
  import opened Queries
  import opened RowStatements
  import opened DataStatements
  import opened SchemaStatements
  import opened AuditChain

  // ---------------------------------------------------------------- statements

  datatype Statement =
    | CreateTableStmt(table: string, defs: seq<ColumnDef>)
    | DropTableStmt(table: string)
    | CreateIndexStmt(table: string, column: string, range: bool)
    | DropIndexStmt(table: string, column: string, range: bool)
    | InsertStmt(table: string, columns: Option<seq<string>>, rows: seq<Cells>)
    | UpdateStmt(table: string, assignments: seq<Assignment>, where: Option<Expr>)
    | DeleteStmt(table: string, where: Option<Expr>)
    | SelectStmt(table: string, columns: Option<seq<string>>, where: Option<Expr>)
    | BeginStmt
    | CommitStmt
    | RollbackStmt

  datatype Outcome = Changed(count: nat) | Rows(rows: seq<Cells>) | Begun | Committed | RolledBack

  predicate IsControl(s: Statement) {
    s.BeginStmt? || s.CommitStmt? || s.RollbackStmt?
  }

  function PlanOf(view: View, master: nat, nonces: Nonces, s: Statement): Result<Plan, Error>
    requires !IsControl(s) && !s.SelectStmt?
  {
    var tag := Tag(master, s.table);
    match s
    case CreateTableStmt(_, defs) => CreateTablePlan(view, tag, defs, nonces)
    case DropTableStmt(_) => DropTablePlan(view, tag)
    case CreateIndexStmt(_, column, range) =>
      if range then CreateRangePlan(view, tag, column, nonces) else CreateIndexPlan(view, tag, column, nonces)
    case DropIndexStmt(_, column, range) =>
      if range then DropRangePlan(view, tag, column, nonces) else DropIndexPlan(view, tag, column, nonces)
    case InsertStmt(_, columns, rows) => InsertPlan(view, tag, columns, rows, nonces)
    case UpdateStmt(_, assignments, where) => UpdatePlan(view, tag, assignments, where, nonces)
    case DeleteStmt(_, where) => DeletePlan(view, tag, where, nonces)
  }

  function KindOf(s: Statement): Kind
    requires !IsControl(s) && !s.SelectStmt?
  {
    match s
    case CreateTableStmt(_, _) => CreateTable
    case DropTableStmt(_) => DropTable
    case CreateIndexStmt(_, _, _) => CreateIndex
    case DropIndexStmt(_, _, _) => DropIndex
    case InsertStmt(_, _, _) => Insert
    case UpdateStmt(_, _, _) => Update
    case DeleteStmt(_, _) => Delete
  }

  function Project(row: Cells, cols: seq<nat>): Cells
    requires forall i :: 0 <= i < |cols| ==> cols[i] < |row|
  {
    seq(|cols|, i requires 0 <= i < |cols| => row[cols[i]])
  }

  predicate Projects(found: seq<Found>, cols: seq<nat>) {
    forall i, j :: 0 <= i < |found| && 0 <= j < |cols| ==> cols[j] < |found[i].cells|
  }

  function Query(view: View, master: nat, table: string, columns: Option<seq<string>>, where: Option<Expr>): Result<seq<Cells>, Error> {
    var tag := Tag(master, table);
    var schema :- ExpectSchema(view, tag);
    var filter :- CompileOption(schema, where);
    var cols :- Positions(schema, columns);
    var found :- MatchingRows(view, tag, schema, filter);
    if !Projects(found, cols) then Failure(CorruptError)
    else Success(seq(|found|, i requires 0 <= i < |found| => Project(found[i].cells, cols)))
  }

  /** What one statement answers, writes and does to the head. */
  datatype Effect = Effect(result: Result<Outcome, Error>, commit: Commit)

  function EffectOf(view: View, head: Head, master: nat, env: Env, s: Statement): Effect
    requires !IsControl(s)
  {
    if s.SelectStmt? then
      var rows := Query(view, master, s.table, s.columns, s.where);
      Effect(if rows.Failure? then Failure(rows.error) else Success(Rows(rows.value)), Commit(map[], head))
    else
      match PlanOf(view, master, env.nonces, s)
      case Failure(e) => Effect(Failure(e), Commit(map[], head))
      case Success(p) =>
        Effect(Success(Changed(p.count)), Audited(head, master, env, KindOf(s), Some(Tag(master, s.table)), p.writes))
  }

  // ---------------------------------------------------------------- the invariant of the database

  ghost predicate TablesInv(view: View, master: nat) {
    forall table: string :: TableInv(view, Tag(master, table))
  }

  /** Every table is right and the log is a chained history that ends in the head. */
  ghost predicate DbInv(view: View, master: nat, head: Head, entries: seq<AuditEntry>) {
    TablesInv(view, master) && AuditInv(view, master, head, entries)
  }

  lemma EmptyDatabase(master: nat)
    ensures DbInv(map[], master, GENESIS, [])
  {
  }

  /** v and w agree on the keys of one table. */
  ghost predicate SameTable(v: View, w: View, tag: Tag) {
    forall k :: Owner(k) == Some(tag) ==> (k in v <==> k in w) && (k in v ==> v[k] == w[k])
  }

  lemma SameTableParts(v: View, w: View, tag: Tag)
    requires SameTable(v, w, tag)
    ensures SameRowsAndIndex(v, w, tag)
    ensures SameKey(v, w, Sequence(tag)) && SameKey(v, w, Catalog(tag))
    ensures forall c: nat :: SameKey(v, w, Range(tag, c))
  {
    forall k: Key | (k.Row? || k.Index?) && k.tag == tag
      ensures SameKey(v, w, k)
    {
      assert Owner(k) == Some(tag);
    }
    assert Owner(Sequence(tag)) == Some(tag) && Owner(Catalog(tag)) == Some(tag);
    forall c: nat
      ensures SameKey(v, w, Range(tag, c))
    {
      assert Owner(Range(tag, c)) == Some(tag);
    }
  }

  ghost predicate SameKey(v: View, w: View, k: Key) {
    (k in v <==> k in w) && (k in v ==> v[k] == w[k])
  }

  lemma FrameContents(v: View, w: View, tag: Tag, schema: Schema)
    requires SameTable(v, w, tag) && ContentsInv(v, tag, schema)
    ensures ContentsInv(w, tag, schema)
  {
    SameTableParts(v, w, tag);
    FrameRows(v, w, tag, schema);
    hide RowsOk, IndexOk, HasCell, Contents, SameTable, SameRowsAndIndex;
    forall c: nat
      ensures RangeOk(w, tag, schema, c)
    {
      assert RangeOk(v, tag, schema, c) && SameKey(v, w, Range(tag, c));
      BlobFrame(v, w, tag, c, BlobAt(v, tag, c));
    }
    forall c: nat | IsPrimary(schema, c)
      ensures DistinctCells(w, tag, c)
    {
      DistinctFrame(v, w, tag, c);
    }
  }

  /** The table invariant only depends on the table's own keys. */
  lemma FrameTable(v: View, w: View, tag: Tag)
    requires SameTable(v, w, tag) && TableInv(v, tag)
    ensures TableInv(w, tag)
  {
    SameTableParts(v, w, tag);
    if Catalog(tag) in v {
      assert SchemaAt(v, tag) == SchemaAt(w, tag);
      hide ContentsInv;
      FrameContents(v, w, tag, SchemaAt(v, tag));
    }
  }

  /** Audit keys do not belong to any table. */
  lemma AuditedKeys(head: Head, master: nat, env: Env, kind: Kind, tag: Tag, writes: Batch, view: View)
    requires OwnKeys(writes, tag)
    ensures var c := Audited(head, master, env, kind, Some(tag), writes);
      && SameTable(Apply(writes, view), Apply(c.writes, view), tag)
      && (forall other :: other != tag ==> SameTable(view, Apply(c.writes, view), other))
  {
    var c := Audited(head, master, env, kind, Some(tag), writes);
    forall k | Owner(k).Some?
      ensures SameKey(Apply(writes, view), Apply(c.writes, view), k)
      ensures Owner(k) != Some(tag) ==> SameKey(view, Apply(c.writes, view), k)
    {
      ApplyAt(writes, view, k);
      ApplyAt(c.writes, view, k);
    }
  }

  // ---------------------------------------------------------------- statements keep it

  /** An UPDATE flips no zero of an indexed column; other statements have no such condition. */
  ghost predicate SignSafe(view: View, master: nat, s: Statement)
  {
    s.UpdateStmt? ==>
      var tag := Tag(master, s.table);
      var targets := ResolveTargets(SchemaAt(view, tag), s.assignments, |s.assignments|);
      var found := UpdatedRows(view, tag, s.where);
      targets.Success? && Fetched(found, targets.value) ==> KeepsSigns(Updates(found, targets.value), SchemaAt(view, tag))
  }

  /** The statement's own table. */
  lemma PlanKeepsTable(view: View, master: nat, nonces: Nonces, s: Statement)
    requires !IsControl(s) && !s.SelectStmt? && TableInv(view, Tag(master, s.table)) && PlanOf(view, master, nonces, s).Success?
    ensures var b, tag := PlanOf(view, master, nonces, s).value.writes, Tag(master, s.table);
      OwnKeys(b, tag) && (TableInv(Apply(b, view), tag) <==> SignSafe(view, master, s))
  {
    var tag := Tag(master, s.table);
    hide TableInv, Apply, OwnKeys, CreateTablePlan, DropTablePlan, CreateRangePlan, CreateIndexPlan, DropRangePlan, DropIndexPlan,
         InsertPlan, UpdatePlan, DeletePlan, KeepsSigns;
    match s
    case CreateTableStmt(_, defs) => CreateTableKeeps(view, tag, defs, nonces);
    case DropTableStmt(_) => DropTableKeeps(view, tag);
    case CreateIndexStmt(_, column, range) =>
      if range {
        CreateRangeKeeps(view, tag, column, nonces);
      } else {
        CreateIndexKeeps(view, tag, column, nonces);
      }
    case DropIndexStmt(_, column, range) =>
      if range {
        DropRangeKeeps(view, tag, column, nonces);
      } else {
        DropIndexKeeps(view, tag, column, nonces);
      }
    case InsertStmt(_, columns, rows) => InsertKeepsTable(view, tag, columns, rows, nonces);
    case UpdateStmt(_, assignments, where) => var _, _ := UpdateKeepsTable(view, tag, assignments, where, nonces);
    case DeleteStmt(_, where) => DeleteKeepsTable(view, tag, where, nonces);
  }

  /** The database after one statement. */
  function After(view: View, head: Head, master: nat, env: Env, s: Statement): (r: (View, Head))
    requires !IsControl(s)
  {
    var c := EffectOf(view, head, master, env, s).commit;
    (Apply(c.writes, view), c.head)
  }

  /** The history after one statement. */
  function HistoryAfter(entries: seq<AuditEntry>, view: View, head: Head, master: nat, env: Env, s: Statement): seq<AuditEntry>
    requires !IsControl(s)
  {
    if s.SelectStmt? then entries
    else
      match PlanOf(view, master, env.nonces, s)
      case Failure(_) => entries
      case Success(p) =>
        if p.writes == map[] then entries
        else entries + [NewEntry(head, env.time, KindOf(s), Some(Tag(master, s.table)), WritesOf(p.writes))]
  }

  ghost predicate Succeeds(view: View, master: nat, env: Env, s: Statement) {
    !IsControl(s) && !s.SelectStmt? && PlanOf(view, master, env.nonces, s).Success?
  }

  /** What a successful statement does to the view, the head and the history. */
  lemma SuccessShape(view: View, master: nat, head: Head, entries: seq<AuditEntry>, env: Env, s: Statement)
    requires Succeeds(view, master, env, s)
    ensures var tag, b := Tag(master, s.table), PlanOf(view, master, env.nonces, s).value.writes;
      var c := Audited(head, master, env, KindOf(s), Some(tag), b);
      && After(view, head, master, env, s) == (Apply(c.writes, view), c.head)
      && HistoryAfter(entries, view, head, master, env, s)
         == if b == map[] then entries else entries + [NewEntry(head, env.time, KindOf(s), Some(tag), WritesOf(b))]
  {
    hide PlanOf, Audited, NewEntry, KindOf, Apply;
  }

  lemma AuditedKeepsInv(view: View, master: nat, head: Head, entries: seq<AuditEntry>, env: Env, kind: Kind, tag: Tag, b: Batch)
    requires TablesInv(view, master) && AuditInv(view, master, head, entries)
    requires tag.master == master && TableInv(view, tag) && OwnKeys(b, tag)
    ensures var c := Audited(head, master, env, kind, Some(tag), b);
      var after := if b == map[] then entries else entries + [NewEntry(head, env.time, kind, Some(tag), WritesOf(b))];
      DbInv(Apply(c.writes, view), master, c.head, after) <==> TableInv(Apply(b, view), tag)
  {
    var c := Audited(head, master, env, kind, Some(tag), b);
    var w := Apply(c.writes, view);
    hide TableInv, AuditInv, NewEntry, SameTable, TablesInv, Apply, WithAudit;
    AuditedKeys(head, master, env, kind, tag, b, view);
    TablesAfter(view, w, Apply(b, view), master, tag);
    if b == map[] {
      ApplyNothing(view);
    } else {
      CommitKeepsAudit(view, master, head, entries, env, kind, Some(tag), WritesOf(b), b);
    }
  }

  lemma DbParts(view: View, master: nat, head: Head, entries: seq<AuditEntry>, table: string)
    requires DbInv(view, master, head, entries)
    ensures TablesInv(view, master) && TableInv(view, Tag(master, table))
    ensures AuditInv(view, master, head, entries)
  {
  }

  lemma SuccessKeepsInv(view: View, master: nat, head: Head, entries: seq<AuditEntry>, env: Env, s: Statement)
    requires DbInv(view, master, head, entries) && Succeeds(view, master, env, s)
    ensures var (w, h) := After(view, head, master, env, s);
      DbInv(w, master, h, HistoryAfter(entries, view, head, master, env, s)) <==> SignSafe(view, master, s)
  {
    assert !IsControl(s) && !s.SelectStmt? && PlanOf(view, master, env.nonces, s).Success?;
    hide *;
    var tag := Tag(master, s.table);
    DbParts(view, master, head, entries, s.table);
    SuccessShape(view, master, head, entries, env, s);
    PlanKeepsTable(view, master, env.nonces, s);
    AuditedKeepsInv(view, master, head, entries, env, KindOf(s), tag, PlanOf(view, master, env.nonces, s).value.writes);
  }

  lemma TablesAfter(view: View, w: View, own: View, master: nat, tag: Tag)
    requires TablesInv(view, master) && tag.master == master && SameTable(own, w, tag)
    requires forall other :: other != tag ==> SameTable(view, w, other)
    ensures TablesInv(w, master) <==> TableInv(own, tag)
  {
    hide TableInv, SameTable;
    if TableInv(own, tag) {
      FrameTable(own, w, tag);
      forall table: string
        ensures TableInv(w, Tag(master, table))
      {
        if table != tag.table {
          FrameTable(view, w, Tag(master, table));
        }
      }
    }
    if TablesInv(w, master) {
      assert TableInv(w, Tag(master, tag.table));
      SameTableSymmetric(own, w, tag);
      FrameTable(w, own, tag);
    }
  }

  lemma SameTableSymmetric(v: View, w: View, tag: Tag)
    requires SameTable(v, w, tag)
    ensures SameTable(w, v, tag)
  {
  }

  /**
   Main result: every statement keeps the invariant of the whole database, except an
   UPDATE that moves an indexed cell from one floating-point zero to the other.
   */
  lemma StatementKeepsInv(view: View, master: nat, head: Head, entries: seq<AuditEntry>, env: Env, s: Statement)
    requires DbInv(view, master, head, entries) && !IsControl(s)
    ensures var (w, h) := After(view, head, master, env, s);
      var kept := DbInv(w, master, h, HistoryAfter(entries, view, head, master, env, s));
      kept <==> (Succeeds(view, master, env, s) ==> SignSafe(view, master, s))
  {
    hide DbInv, SignSafe, PlanOf, Query;
    if Succeeds(view, master, env, s) {
      SuccessKeepsInv(view, master, head, entries, env, s);
    } else {
      ApplyNothing(view);
    }
  }
}
