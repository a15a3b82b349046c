/**
 The data of the encrypted store: values, schemas, storage keys, sealed boxes and audit
 entries. Cryptography is ideal: a box opens only with its own key at its own location,
 and tags and digests are free terms, so distinct inputs give distinct outputs.
 */
module EngineData {
  import opened Wrappers

  // ---------------------------------------------------------------- values and schemas

  /** REAL values are real numbers, with the negative zero of binary floating point kept apart. */
  datatype Value = Null | Int(n: int) | Real(x: real) | MinusZero | Text(s: string)

  datatype Type = IntType | RealType | TextType

  datatype Column = Column(name: string, ty: Type, primaryKey: bool, indexed: bool, rangeIndexed: bool)

  datatype Schema = Schema(name: string, columns: seq<Column>)

  type Cells = seq<Value>

  datatype Entry = Entry(value: Value, id: nat)

  // ---------------------------------------------------------------- predicates

  datatype CmpOp = Eq | Ne | Lt | Le | Gt | Ge

  /** A WHERE expression over column names. */
  datatype Expr =
    | Compare(column: string, op: CmpOp, value: Value)
    | IsNull(column: string, negated: bool)
    | Not(inner: Expr)
    | And(left: Expr, right: Expr)
    | Or(left: Expr, right: Expr)

  // ---------------------------------------------------------------- storage

  /** The keyed tag of a table name. */
  datatype Tag = Tag(master: nat, table: string)

  /** Storage keys; the value in an index key stands for its keyed tag. */
  datatype Key =
    | AuditHead
    | Audit(number: nat)
    | Catalog(tag: Tag)
    | Sequence(tag: Tag)
    | Row(tag: Tag, id: nat)
    | Index(tag: Tag, col: nat, value: Value, id: nat)
    | Range(tag: Tag, col: nat)

  datatype Purpose = CatalogPurpose | AuditPurpose | TablePurpose(table: string)

  datatype CipherKey = CipherKey(master: nat, purpose: Purpose)

  datatype Plain =
    | SchemaPlain(schema: Schema)
    | SequencePlain(next: nat)
    | RowPlain(cells: Cells)
    | Marker
    | RangePlain(entries: seq<Entry>)
    | AuditPlain(entry: AuditEntry)
    | HeadPlain(head: Head)

  datatype Sealed = Sealed(key: CipherKey, nonce: nat, plain: Plain, at: Key)

  type View = map<Key, Sealed>

  /** The net effect of a batch on each key it touches: a put, or a delete. */
  type Batch = map<Key, Option<Sealed>>

  function Open(key: CipherKey, box: Sealed, at: Key): Option<Plain> {
    if box.key == key && box.at == at then Some(box.plain) else None
  }

  // ---------------------------------------------------------------- the audit chain

  datatype Kind = CreateTable | DropTable | CreateIndex | DropIndex | Insert | Update | Delete | Rotate

  /** Hash values; Zeros is the 32 zero bytes, Other any value that is not one of the hashes. */
  datatype Digest =
    | Zeros
    | RootOf(entry: AuditEntry)
    | WritesOf(batch: Batch)
    | Leaf(entry: AuditEntry)
    | Node(left: Digest, right: Digest)
    | Other(code: nat)

  datatype AuditEntry = AuditEntry(number: nat, time: nat, kind: Kind, table: Option<Tag>, writes: Digest, prev: Digest)

  /** The number of entries and the root after the last one. */
  datatype Head = Head(number: nat, root: Digest)

  datatype Error = SchemaError | ConstraintError | TypeError | CorruptError | CryptoError | AuditError
}
