/**
 Tables inside the key-value view: how rows, sequence, equality index and range blobs are
 read, and the invariant that ties the indexes to the rows.
 */
module Tables {
  import opened Wrappers
  import opened EngineData
  import opened Predicates

  // ---------------------------------------------------------------- keys

  /** The table a key belongs to. */
  function Owner(k: Key): Option<Tag> {
    match k
    case AuditHead => None
    case Audit(_) => None
    case Catalog(tag) => Some(tag)
    case Sequence(tag) => Some(tag)
    case Row(tag, _) => Some(tag)
    case Index(tag, _, _, _) => Some(tag)
    case Range(tag, _) => Some(tag)
  }

  function CatalogCipher(master: nat): CipherKey {
    CipherKey(master, CatalogPurpose)
  }

  function TableCipher(tag: Tag): CipherKey {
    CipherKey(tag.master, TablePurpose(tag.table))
  }

  /** The fresh nonces of one statement, one for each key it seals. */
  type Nonces = Key -> nat

  function Seal(key: CipherKey, nonces: Nonces, plain: Plain, at: Key): Sealed {
    Sealed(key, nonces(at), plain, at)
  }

  /** Read and decrypt one key. */
  function Get(view: View, key: CipherKey, at: Key): Result<Option<Plain>, Error> {
    if at !in view then Success(None)
    else match Open(key, view[at], at)
      case None => Failure(CryptoError)
      case Some(p) => Success(Some(p))
  }

  // ---------------------------------------------------------------- sets of ids in key order

  ghost predicate IsLeast(m: nat, s: set<nat>) {
    m in s && forall x :: x in s ==> m <= x
  }

  lemma {:induction false} MinExists(s: set<nat>)
    requires s != {}
    ensures exists m :: IsLeast(m, s)
    decreases |s|
  {
    var y :| y in s;
    if s == {y} {
      assert IsLeast(y, s);
    } else {
      var t := s - {y};
      assert s == t + {y};
      MinExists(t);
      var m :| IsLeast(m, t);
      assert IsLeast(if y < m then y else m, s);
    }
  }

  function Minimum(s: set<nat>): (m: nat)
    requires s != {}
    ensures m in s && forall x :: x in s ==> m <= x
  {
    MinExists(s);
    assert exists m :: m in s && forall x :: x in s ==> m <= x by {
      var m :| IsLeast(m, s);
    }
    var m :| m in s && forall x :: x in s ==> m <= x;
    m
  }

  predicate Ascending(s: seq<nat>) {
    forall i, j :: 0 <= i < j < |s| ==> s[i] < s[j]
  }

  function Sorted(s: set<nat>): (r: seq<nat>)
    ensures Ascending(r) && forall x :: x in r <==> x in s
    decreases |s|
  {
    if s == {} then [] else var m := Minimum(s); [m] + Sorted(s - {m})
  }

  lemma EmptyOrMember(s: seq<nat>)
    ensures s == [] || exists x :: x in s
  {
    if |s| > 0 {
      assert s[0] in s;
    }
  }

  lemma {:induction false} AscendingUnique(a: seq<nat>, b: seq<nat>)
    requires Ascending(a) && Ascending(b) && forall x :: x in a <==> x in b
    ensures a == b
  {
    if a == [] {
      EmptyOrMember(b);
    } else {
      assert a[0] in a && b != [];
      assert b[0] in b;
      assert a[0] == b[0];
      forall x | x in a[1..] ensures x in b[1..] { assert x in b && x != b[0]; }
      forall x | x in b[1..] ensures x in a[1..] { assert x in a && x != a[0]; }
      AscendingUnique(a[1..], b[1..]);
    }
  }

  // ---------------------------------------------------------------- reading

  function LookupSchema(view: View, tag: Tag): Result<Option<Schema>, Error> {
    var p :- Get(view, CatalogCipher(tag.master), Catalog(tag));
    match p
    case None => Success(None)
    case Some(SchemaPlain(s)) => Success(Some(s))
    case _ => Failure(CorruptError)
  }

  function ExpectSchema(view: View, tag: Tag): Result<Schema, Error> {
    var s :- LookupSchema(view, tag);
    if s.None? then Failure(SchemaError) else Success(s.value)
  }

  function LoadSequence(view: View, tag: Tag): Result<nat, Error> {
    var p :- Get(view, TableCipher(tag), Sequence(tag));
    match p
    case None => Success(0)
    case Some(SequencePlain(n)) => Success(n)
    case _ => Failure(CorruptError)
  }

  function LoadRange(view: View, tag: Tag, col: nat): Result<seq<Entry>, Error> {
    var p :- Get(view, TableCipher(tag), Range(tag, col));
    match p
    case None => Success([])
    case Some(RangePlain(entries)) => Success(entries)
    case _ => Failure(CorruptError)
  }

  function FetchRow(view: View, tag: Tag, id: nat): Result<Option<Cells>, Error> {
    var p :- Get(view, TableCipher(tag), Row(tag, id));
    match p
    case None => Success(None)
    case Some(RowPlain(cells)) => Success(Some(cells))
    case _ => Failure(CorruptError)
  }

  function RowIds(view: View, tag: Tag): (ids: set<nat>)
    ensures forall id :: id in ids <==> Row(tag, id) in view
  {
    var ids := set k | k in view.Keys && k.Row? && k.tag == tag :: k.id;
    assert forall id :: Row(tag, id) in view.Keys ==> Row(tag, id).id in ids;
    ids
  }

  function IndexIds(view: View, tag: Tag, col: nat, value: Value): (ids: set<nat>)
    ensures forall id :: id in ids <==> Index(tag, col, value, id) in view
  {
    var ids := set k | k in view.Keys && k.Index? && k.tag == tag && k.col == col && k.value == value :: k.id;
    assert forall id :: Index(tag, col, value, id) in view.Keys ==> Index(tag, col, value, id).id in ids;
    ids
  }

  /** The row ids under one value of the equality index; every marker must open. */
  function IndexRowIds(view: View, tag: Tag, col: nat, value: Value): Result<seq<nat>, Error> {
    var ids := Sorted(IndexIds(view, tag, col, value));
    if forall id :: id in ids ==> Get(view, TableCipher(tag), Index(tag, col, value, id)).Success? then Success(ids)
    else Failure(CryptoError)
  }

  datatype Found = Found(id: nat, cells: Cells)

  /** The rows with the listed ids, in that order; ids without a row are skipped. */
  function FetchAll(view: View, tag: Tag, ids: seq<nat>): Result<seq<Found>, Error> {
    if ids == [] then Success([])
    else
      var n := |ids| - 1;
      var rest :- FetchAll(view, tag, ids[..n]);
      var row :- FetchRow(view, tag, ids[n]);
      Success(if row.None? then rest else rest + [Found(ids[n], row.value)])
  }

  // ---------------------------------------------------------------- the invariant

  /** The key holds a box that opens with the given cipher key. */
  predicate Boxed(view: View, key: CipherKey, at: Key) {
    at in view && view[at].key == key && view[at].at == at
  }

  function Contents(view: View, tag: Tag, id: nat): Cells {
    if Row(tag, id) in view && view[Row(tag, id)].plain.RowPlain? then view[Row(tag, id)].plain.cells else []
  }

  predicate Maintained(schema: Schema, c: nat) {
    c < |schema.columns| && (schema.columns[c].primaryKey || schema.columns[c].indexed)
  }

  predicate Ranged(schema: Schema, c: nat) {
    c < |schema.columns| && schema.columns[c].rangeIndexed
  }

  predicate IsPrimary(schema: Schema, c: nat) {
    c < |schema.columns| && schema.columns[c].primaryKey
  }

  ghost predicate SchemaOk(schema: Schema, tag: Tag) {
    && schema.name == tag.table
    && (forall c, d :: 0 <= c < d < |schema.columns| ==> schema.columns[c].name != schema.columns[d].name)
    && (forall c, d :: IsPrimary(schema, c) && IsPrimary(schema, d) ==> c == d)
    && (forall c :: 0 <= c < |schema.columns| ==> !(schema.columns[c].primaryKey && schema.columns[c].indexed))
  }

  /** Every stored row opens and has the schema's types. */
  ghost predicate RowsOk(view: View, tag: Tag, schema: Schema) {
    forall id :: Row(tag, id) in view ==>
      Boxed(view, TableCipher(tag), Row(tag, id)) && view[Row(tag, id)].plain.RowPlain?
      && Typed(Contents(view, tag, id), schema)
  }

  /** The cell that an index entry for (c, v, id) must reflect. */
  ghost predicate HasCell(view: View, tag: Tag, c: nat, v: Value, id: nat) {
    Row(tag, id) in view && c < |Contents(view, tag, id)| && Contents(view, tag, id)[c] == v && v != Null
  }

  /** The equality entries are exactly the non-NULL cells of the maintained columns. */
  ghost predicate IndexOk(view: View, tag: Tag, schema: Schema) {
    && (forall c: nat, v, id: nat :: Index(tag, c, v, id) in view <==> Maintained(schema, c) && HasCell(view, tag, c, v, id))
    && (forall c: nat, v, id: nat :: Index(tag, c, v, id) in view ==> Boxed(view, TableCipher(tag), Index(tag, c, v, id)))
  }

  predicate EntryLess(a: Entry, b: Entry) {
    Predicates.Compare(a.value, b.value) == Less || (Predicates.Compare(a.value, b.value) == Equal && a.id < b.id)
  }

  ghost predicate InOrder(entries: seq<Entry>) {
    forall i, j :: 0 <= i < j < |entries| ==> EntryLess(entries[i], entries[j])
  }

  /** The blob of one column: the non-NULL cells in strictly increasing order. */
  ghost predicate BlobOk(view: View, tag: Tag, c: nat, entries: seq<Entry>) {
    InOrder(entries) && forall v, id :: Entry(v, id) in entries <==> HasCell(view, tag, c, v, id)
  }

  ghost predicate DistinctIds(s: seq<Entry>) {
    forall i, j :: 0 <= i < j < |s| ==> s[i].id != s[j].id
  }

  /** Each row has at most one entry in a right blob. */
  lemma BlobIdsDistinct(view: View, tag: Tag, c: nat, s: seq<Entry>)
    requires BlobOk(view, tag, c, s)
    ensures DistinctIds(s)
  {
    forall i, j | 0 <= i < j < |s|
      ensures s[i].id != s[j].id
    {
      assert EntryLess(s[i], s[j]);
      assert Entry(s[i].value, s[i].id) in s && Entry(s[j].value, s[j].id) in s;
      assert HasCell(view, tag, c, s[i].value, s[i].id) && HasCell(view, tag, c, s[j].value, s[j].id);
      CompareFlip(s[i].value, s[i].value);
    }
  }

  function BlobAt(view: View, tag: Tag, c: nat): seq<Entry> {
    if Range(tag, c) in view && view[Range(tag, c)].plain.RangePlain? then view[Range(tag, c)].plain.entries else []
  }

  /** The blob of column c exists exactly when the column is range-indexed, and is right. */
  ghost predicate RangeOk(view: View, tag: Tag, schema: Schema, c: nat) {
    && (Range(tag, c) in view <==> Ranged(schema, c))
    && (Range(tag, c) in view ==>
          Boxed(view, TableCipher(tag), Range(tag, c)) && view[Range(tag, c)].plain.RangePlain?
          && BlobOk(view, tag, c, BlobAt(view, tag, c)))
  }

  ghost predicate RangesOk(view: View, tag: Tag, schema: Schema) {
    forall c: nat :: RangeOk(view, tag, schema, c)
  }

  function SequenceAt(view: View, tag: Tag): nat {
    if Sequence(tag) in view && view[Sequence(tag)].plain.SequencePlain? then view[Sequence(tag)].plain.next else 0
  }

  /** The sequence exceeds every live id. */
  ghost predicate SequenceOk(view: View, tag: Tag) {
    && (Sequence(tag) in view ==> Boxed(view, TableCipher(tag), Sequence(tag)) && view[Sequence(tag)].plain.SequencePlain?)
    && forall id: nat :: Row(tag, id) in view ==> id < SequenceAt(view, tag)
  }

  /** Every row has a non-NULL cell in column c, and no two rows the same one. */
  ghost predicate DistinctCells(view: View, tag: Tag, c: nat) {
    && (forall id :: Row(tag, id) in view ==> c < |Contents(view, tag, id)| && Contents(view, tag, id)[c] != Null)
    && (forall i, j, v :: HasCell(view, tag, c, v, i) && HasCell(view, tag, c, v, j) ==> i == j)
  }

  ghost predicate PrimaryOk(view: View, tag: Tag, schema: Schema) {
    forall c: nat :: IsPrimary(schema, c) ==> DistinctCells(view, tag, c)
  }

  function SchemaAt(view: View, tag: Tag): Schema {
    if Catalog(tag) in view && view[Catalog(tag)].plain.SchemaPlain? then view[Catalog(tag)].plain.schema else Schema("", [])
  }

  ghost predicate CatalogOk(view: View, tag: Tag) {
    Boxed(view, CatalogCipher(tag.master), Catalog(tag)) && view[Catalog(tag)].plain.SchemaPlain?
    && SchemaOk(SchemaAt(view, tag), tag)
  }

  /** The invariant of one table name, whether or not the table exists. */
  ghost predicate TableInv(view: View, tag: Tag) {
    if Catalog(tag) in view then
      CatalogOk(view, tag) && ContentsInv(view, tag, SchemaAt(view, tag))
    else forall k :: k in view ==> Owner(k) != Some(tag)
  }

  ghost predicate ContentsInv(view: View, tag: Tag, schema: Schema) {
    RowsOk(view, tag, schema) && IndexOk(view, tag, schema) && RangesOk(view, tag, schema)
    && SequenceOk(view, tag) && PrimaryOk(view, tag, schema)
  }

  // ---------------------------------------------------------------- what reads give under the invariant

  lemma SchemaRead(view: View, tag: Tag)
    requires TableInv(view, tag)
    ensures Catalog(tag) in view ==> LookupSchema(view, tag) == Success(Some(SchemaAt(view, tag)))
    ensures Catalog(tag) !in view ==> LookupSchema(view, tag) == Success(None)
    ensures ExpectSchema(view, tag) == if Catalog(tag) in view then Success(SchemaAt(view, tag)) else Failure(SchemaError)
  {
  }

  /** The parts of the invariant of an existing table. */
  lemma TableParts(view: View, tag: Tag)
    requires TableInv(view, tag) && Catalog(tag) in view
    ensures CatalogOk(view, tag) && SchemaOk(SchemaAt(view, tag), tag) && ContentsInv(view, tag, SchemaAt(view, tag))
    ensures RowsOk(view, tag, SchemaAt(view, tag)) && IndexOk(view, tag, SchemaAt(view, tag)) && RangesOk(view, tag, SchemaAt(view, tag))
    ensures SequenceOk(view, tag) && PrimaryOk(view, tag, SchemaAt(view, tag))
  {
  }

  lemma SequenceRead(view: View, tag: Tag)
    requires SequenceOk(view, tag)
    ensures LoadSequence(view, tag) == Success(SequenceAt(view, tag))
  {
  }

  lemma RangeRead(view: View, tag: Tag, schema: Schema, c: nat)
    requires RangesOk(view, tag, schema) && Ranged(schema, c)
    ensures LoadRange(view, tag, c) == Success(BlobAt(view, tag, c)) && BlobOk(view, tag, c, BlobAt(view, tag, c))
  {
    assert RangeOk(view, tag, schema, c);
  }

  lemma IndexRead(view: View, tag: Tag, schema: Schema, c: nat, v: Value)
    requires IndexOk(view, tag, schema)
    ensures IndexRowIds(view, tag, c, v) == Success(Sorted(IndexIds(view, tag, c, v)))
  {
    var ids := Sorted(IndexIds(view, tag, c, v));
    forall id | id in ids
      ensures Get(view, TableCipher(tag), Index(tag, c, v, id)).Success?
    {
      assert id in IndexIds(view, tag, c, v);
    }
  }

  /** The stored rows among the listed ids. */
  function Present(view: View, tag: Tag, ids: seq<nat>): seq<Found> {
    if ids == [] then []
    else
      var n := |ids| - 1;
      var rest := Present(view, tag, ids[..n]);
      if Row(tag, ids[n]) in view then rest + [Found(ids[n], Contents(view, tag, ids[n]))] else rest
  }

  lemma {:induction false} FetchRead(view: View, tag: Tag, schema: Schema, ids: seq<nat>)
    requires RowsOk(view, tag, schema)
    ensures FetchAll(view, tag, ids) == Success(Present(view, tag, ids))
  {
    if ids != [] {
      var n := |ids| - 1;
      FetchRead(view, tag, schema, ids[..n]);
      assert FetchRow(view, tag, ids[n]) == Success(if Row(tag, ids[n]) in view then Some(Contents(view, tag, ids[n])) else None);
    }
  }
}
