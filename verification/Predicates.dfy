/** Value order, compiled predicates, their three-valued evaluation, and what pins a column. */
module Predicates {
  import opened Wrappers
  import opened EngineData

  // ---------------------------------------------------------------- order

  datatype Ordering = Less | Equal | Greater

  predicate IsNumber(v: Value) {
    v.Int? || v.Real? || v.MinusZero?
  }

  const TWO_53: int := 0x20_0000_0000_0000

  function Pow2(e: nat): (r: nat)
    ensures r > 0
  {
    if e == 0 then 1 else 2 * Pow2(e - 1)
  }

  /** By how many bits m exceeds the 53 of a float's significand. */
  function ExtraBits(m: nat): nat {
    if m < TWO_53 then 0 else 1 + ExtraBits(m / 2)
  }

  /** To 53 significant bits, ties to even. */
  function Rounded(m: nat): int {
    var unit := Pow2(ExtraBits(m));
    var q: int, r: int := m / unit, m % unit;
    if 2 * r < unit || (2 * r == unit && q % 2 == 0) then q * unit else (q + 1) * unit
  }

  /** An integer as a 64-bit float. */
  function AsFloat(n: int): real {
    if n < 0 then -(Rounded(-n) as real) else Rounded(n) as real
  }

  lemma SmallAsFloat(n: int)
    requires -TWO_53 < n < TWO_53
    ensures AsFloat(n) == n as real
  {
    assert Pow2(0) == 1;
  }

  function FloatOf(v: Value): real
    requires IsNumber(v)
  {
    match v case Int(n) => AsFloat(n) case Real(x) => x case MinusZero => 0.0
  }

  /** Integers exactly, anything else as floats; among zeros the negative one is smaller. */
  function CompareNumbers(a: Value, b: Value): Ordering
    requires IsNumber(a) && IsNumber(b)
  {
    if a.Int? && b.Int? then if a.n < b.n then Less else if a.n > b.n then Greater else Equal
    else if FloatOf(a) < FloatOf(b) then Less
    else if FloatOf(a) > FloatOf(b) then Greater
    else if a.MinusZero? == b.MinusZero? then Equal
    else if a.MinusZero? then Less else Greater
  }

  function CompareText(a: string, b: string): Ordering {
    if a == "" then if b == "" then Equal else Less
    else if b == "" then Greater
    else if a[0] < b[0] then Less
    else if a[0] > b[0] then Greater
    else CompareText(a[1..], b[1..])
  }

  /** NULL first, then numbers, then text. */
  function Compare(a: Value, b: Value): Ordering {
    if a.Null? then if b.Null? then Equal else Less
    else if b.Null? then Greater
    else if a.Text? then if b.Text? then CompareText(a.s, b.s) else Greater
    else if b.Text? then Less
    else CompareNumbers(a, b)
  }

  function Flip(o: Ordering): Ordering {
    match o case Less => Greater case Equal => Equal case Greater => Less
  }

  lemma {:induction false} TextFlip(a: string, b: string)
    ensures CompareText(b, a) == Flip(CompareText(a, b)) && (CompareText(a, b) == Equal <==> a == b)
  {
    if a != "" && b != "" {
      TextFlip(a[1..], b[1..]);
      if a[0] == b[0] && a[1..] == b[1..] {
        assert a == [a[0]] + a[1..] && b == [b[0]] + b[1..];
      }
    }
  }

  lemma {:induction false} TextTransitive(a: string, b: string, c: string)
    requires CompareText(a, b) != Greater && CompareText(b, c) != Greater
    ensures CompareText(a, c) != Greater
    ensures CompareText(a, b) == Less || CompareText(b, c) == Less ==> CompareText(a, c) == Less
  {
    if a != "" && b != "" && c != "" && a[0] == b[0] == c[0] {
      TextTransitive(a[1..], b[1..], c[1..]);
    }
  }

  lemma CompareFlip(a: Value, b: Value)
    ensures Compare(b, a) == Flip(Compare(a, b))
  {
    if a.Text? && b.Text? {
      TextFlip(a.s, b.s);
    }
  }

  // ---------------------------------------------------------------- types

  function TypeOf(v: Value): Type
    requires v != Null
  {
    match v case Int(_) => IntType case Real(_) => RealType case MinusZero => RealType case Text(_) => TextType
  }

  predicate HasType(v: Value, ty: Type) {
    v == Null || TypeOf(v) == ty
  }

  predicate Typed(row: Cells, schema: Schema) {
    |row| == |schema.columns| && forall c :: 0 <= c < |row| ==> HasType(row[c], schema.columns[c].ty)
  }

  /** An integer that a float can hold. */
  predicate IsExact(v: Value) {
    v.Int? ==> AsFloat(v.n) == v.n as real
  }

  predicate SameKind(a: Value, b: Value) {
    a == Null || b == Null || TypeOf(a) == TypeOf(b)
  }

  /** The order is transitive within one type, and across types as long as floats hold the integers. */
  lemma CompareTransitive(a: Value, b: Value, c: Value)
    requires (SameKind(a, b) && SameKind(b, c) && SameKind(a, c)) || (IsExact(a) && IsExact(b) && IsExact(c))
    requires Compare(a, b) != Greater && Compare(b, c) != Greater
    ensures Compare(a, c) != Greater
    ensures Compare(a, b) == Less || Compare(b, c) == Less ==> Compare(a, c) == Less
  {
    hide Rounded;
    if a.Text? && b.Text? && c.Text? {
      TextTransitive(a.s, b.s, c.s);
    }
  }

  /** 2^53 + 1 equals the REAL 2^53, which equals the integer 2^53, which is less. */
  lemma MixedOrderNotTransitive()
    ensures Compare(Int(TWO_53 + 1), Real(TWO_53 as real)) == Equal
    ensures Compare(Real(TWO_53 as real), Int(TWO_53)) == Equal
    ensures Compare(Int(TWO_53 + 1), Int(TWO_53)) == Greater
  {
    assert ExtraBits(TWO_53) == 1 && ExtraBits(TWO_53 + 1) == 1 && Pow2(1) == 2;
    assert Rounded(TWO_53) == TWO_53 && Rounded(TWO_53 + 1) == TWO_53;
  }

  /** Within one type the order identifies only equal values. */
  lemma CompareExact(a: Value, b: Value, ty: Type)
    requires HasType(a, ty) && HasType(b, ty)
    ensures Compare(a, b) == Equal <==> a == b
  {
    if a.Text? && b.Text? {
      TextFlip(a.s, b.s);
    }
    if a.Int? && b.Int? {
      assert a.n < b.n || a.n == b.n || a.n > b.n;
    }
  }

  /** The `==` of Rust on values: binary floating point equates the two zeros. */
  predicate SameValue(a: Value, b: Value) {
    a == b || (a == MinusZero && b == Real(0.0)) || (a == Real(0.0) && b == MinusZero)
  }

  /** A literal as a value of the column's type. */
  function Coerce(literal: Value, column: Column): (r: Result<Value, Error>)
    ensures r.Success? ==> HasType(r.value, column.ty)
    ensures r.Success? && literal != MinusZero ==> r.value != MinusZero
  {
    if literal == Null then Success(Null)
    else if TypeOf(literal) == column.ty then Success(literal)
    else if literal.Int? && column.ty == RealType then Success(Real(AsFloat(literal.n)))
    else Failure(TypeError)
  }

  // ---------------------------------------------------------------- compiled predicates

  /** A predicate over column positions. */
  datatype Filter =
    | CompareCol(col: nat, op: CmpOp, value: Value)
    | NullCol(col: nat, negated: bool)
    | NotF(inner: Filter)
    | AndF(left: Filter, right: Filter)
    | OrF(left: Filter, right: Filter)

  function ColumnFrom(columns: seq<Column>, name: string, i: nat): (r: Option<nat>)
    requires i <= |columns|
    ensures r.Some? ==> i <= r.value < |columns| && columns[r.value].name == name
    ensures r.None? ==> forall j :: i <= j < |columns| ==> columns[j].name != name
    decreases |columns| - i
  {
    if i == |columns| then None else if columns[i].name == name then Some(i) else ColumnFrom(columns, name, i + 1)
  }

  function ColumnIndex(schema: Schema, name: string): (r: Option<nat>)
    ensures r.Some? ==> r.value < |schema.columns| && schema.columns[r.value].name == name
    ensures r.None? ==> forall j :: 0 <= j < |schema.columns| ==> schema.columns[j].name != name
  {
    ColumnFrom(schema.columns, name, 0)
  }

  function Resolve(schema: Schema, name: string): (r: Result<nat, Error>)
    ensures r.Success? ==> r.value < |schema.columns|
  {
    match ColumnIndex(schema, name) case Some(c) => Success(c) case None => Failure(SchemaError)
  }

  function Compile(schema: Schema, e: Expr): (r: Result<Filter, Error>)
    ensures r.Success? ==> Fits(r.value, |schema.columns|)
  {
    match e
    case Compare(column, op, value) => var c :- Resolve(schema, column); Success(CompareCol(c, op, value))
    case IsNull(column, negated) => var c :- Resolve(schema, column); Success(NullCol(c, negated))
    case Not(inner) => var f :- Compile(schema, inner); Success(NotF(f))
    case And(a, b) => var f :- Compile(schema, a); var g :- Compile(schema, b); Success(AndF(f, g))
    case Or(a, b) => var f :- Compile(schema, a); var g :- Compile(schema, b); Success(OrF(f, g))
  }

  /** All columns are below n. */
  predicate Fits(f: Filter, n: nat) {
    match f
    case CompareCol(c, _, _) => c < n
    case NullCol(c, _) => c < n
    case NotF(a) => Fits(a, n)
    case AndF(a, b) => Fits(a, n) && Fits(b, n)
    case OrF(a, b) => Fits(a, n) && Fits(b, n)
  }

  function Holds(op: CmpOp, o: Ordering): bool {
    match op
    case Eq => o == Equal
    case Ne => o != Equal
    case Lt => o == Less
    case Le => o != Greater
    case Gt => o == Greater
    case Ge => o != Less
  }

  /** Three-valued evaluation; None is unknown. Comparing text with a number is an error. */
  function Eval(f: Filter, row: Cells): Result<Option<bool>, Error>
    requires Fits(f, |row|)
  {
    match f
    case CompareCol(c, op, value) =>
      if row[c] == Null || value == Null then Success(None)
      else if row[c].Text? != value.Text? then Failure(TypeError)
      else Success(Some(Holds(op, Compare(row[c], value))))
    case NullCol(c, negated) => Success(Some((row[c] == Null) != negated))
    case NotF(a) =>
      var x :- Eval(a, row);
      Success(if x.Some? then Some(!x.value) else None)
    case AndF(a, b) =>
      var x :- Eval(a, row); var y :- Eval(b, row);
      Success(if x == Some(false) || y == Some(false) then Some(false)
              else if x == Some(true) && y == Some(true) then Some(true) else None)
    case OrF(a, b) =>
      var x :- Eval(a, row); var y :- Eval(b, row);
      Success(if x == Some(true) || y == Some(true) then Some(true)
              else if x == Some(false) && y == Some(false) then Some(false) else None)
  }

  function Matches(f: Filter, row: Cells): Result<bool, Error>
    requires Fits(f, |row|)
  {
    var x :- Eval(f, row);
    Success(x == Some(true))
  }

  /** Numbers are compared with numbers and text with text. */
  predicate Comparable(f: Filter, schema: Schema)
    requires Fits(f, |schema.columns|)
  {
    match f
    case CompareCol(c, _, value) => value == Null || (value.Text? <==> schema.columns[c].ty == TextType)
    case NullCol(_, _) => true
    case NotF(a) => Comparable(a, schema)
    case AndF(a, b) => Comparable(a, schema) && Comparable(b, schema)
    case OrF(a, b) => Comparable(a, schema) && Comparable(b, schema)
  }

  /** Somewhere a cell is compared with a literal of the other kind, and neither is NULL. */
  predicate Clashes(f: Filter, row: Cells)
    requires Fits(f, |row|)
  {
    match f
    case CompareCol(c, _, value) => row[c] != Null && value != Null && row[c].Text? != value.Text?
    case NullCol(_, _) => false
    case NotF(a) => Clashes(a, row)
    case AndF(a, b) => Clashes(a, row) || Clashes(b, row)
    case OrF(a, b) => Clashes(a, row) || Clashes(b, row)
  }

  /** AND and OR evaluate both sides, so evaluation fails exactly on a clash anywhere. */
  lemma {:induction false} EvalFails(f: Filter, row: Cells)
    requires Fits(f, |row|)
    ensures Eval(f, row).Failure? <==> Clashes(f, row)
    ensures Clashes(f, row) ==> Eval(f, row).error == TypeError
  {
    match f
    case CompareCol(_, _, _) =>
    case NullCol(_, _) =>
    case NotF(a) => EvalFails(a, row);
    case AndF(a, b) => EvalFails(a, row); EvalFails(b, row);
    case OrF(a, b) => EvalFails(a, row); EvalFails(b, row);
  }

  lemma {:induction false} ComparableNeverFails(f: Filter, row: Cells, schema: Schema)
    requires Fits(f, |row|) && Typed(row, schema) && Comparable(f, schema)
    ensures Eval(f, row).Success?
  {
    match f
    case CompareCol(c, _, value) => assert HasType(row[c], schema.columns[c].ty);
    case NullCol(_, _) =>
    case NotF(a) => ComparableNeverFails(a, row, schema);
    case AndF(a, b) => ComparableNeverFails(a, row, schema); ComparableNeverFails(b, row, schema);
    case OrF(a, b) => ComparableNeverFails(a, row, schema); ComparableNeverFails(b, row, schema);
  }

  /** A row of the schema without NULL. */
  function FullRow(schema: Schema): (row: Cells)
    ensures Typed(row, schema) && forall c :: 0 <= c < |row| ==> row[c] != Null
  {
    seq(|schema.columns|, c requires 0 <= c < |schema.columns| =>
      match schema.columns[c].ty case IntType => Int(0) case RealType => Real(0.0) case TextType => Text(""))
  }

  lemma {:induction false} IncomparableClashes(f: Filter, row: Cells, schema: Schema)
    requires Fits(f, |row|) && Typed(row, schema) && !Comparable(f, schema) && forall c :: 0 <= c < |row| ==> row[c] != Null
    ensures Clashes(f, row)
  {
    match f
    case CompareCol(c, _, _) => assert HasType(row[c], schema.columns[c].ty);
    case NullCol(_, _) =>
    case NotF(a) => IncomparableClashes(a, row, schema);
    case AndF(a, b) => if !Comparable(a, schema) { IncomparableClashes(a, row, schema); } else { IncomparableClashes(b, row, schema); }
    case OrF(a, b) => if !Comparable(a, schema) { IncomparableClashes(a, row, schema); } else { IncomparableClashes(b, row, schema); }
  }

  /** The check on the schema is exact: it passes if and only if no row of the schema can fail. */
  lemma ComparableExact(f: Filter, schema: Schema)
    requires Fits(f, |schema.columns|)
    ensures Comparable(f, schema) <==> forall row: Cells :: Typed(row, schema) ==> Eval(f, row).Success?
  {
    hide Eval, Comparable;
    if Comparable(f, schema) {
      forall row: Cells | Typed(row, schema)
        ensures Eval(f, row).Success?
      {
        ComparableNeverFails(f, row, schema);
      }
    } else {
      IncomparableClashes(f, FullRow(schema), schema);
      EvalFails(f, FullRow(schema));
    }
  }

  // ---------------------------------------------------------------- pinned columns

  /** The value a true predicate forces on col, looking only through AND. */
  function EqValueFor(f: Filter, col: nat): Option<Value> {
    match f
    case CompareCol(c, op, value) => if c == col && op == Eq && value != Null then Some(value) else None
    case AndF(a, b) => var x := EqValueFor(a, col); if x.Some? then x else EqValueFor(b, col)
    case _ => None
  }

  datatype Bound = Bound(op: CmpOp, value: Value)

  function RangeBoundFor(f: Filter, col: nat): Option<Bound> {
    match f
    case CompareCol(c, op, value) => if c == col && value != Null && op != Ne then Some(Bound(op, value)) else None
    case AndF(a, b) => var x := RangeBoundFor(a, col); if x.Some? then x else RangeBoundFor(b, col)
    case _ => None
  }

  /** A true predicate makes its pinned column compare equal to the pinned value. */
  lemma {:induction false} EqValueImplied(f: Filter, col: nat, row: Cells)
    requires Fits(f, |row|) && EqValueFor(f, col).Some? && Eval(f, row) == Success(Some(true))
    ensures col < |row| && row[col] != Null && Compare(row[col], EqValueFor(f, col).value) == Equal
  {
    if f.AndF? {
      if EqValueFor(f.left, col).Some? {
        EqValueImplied(f.left, col, row);
      } else {
        EqValueImplied(f.right, col, row);
      }
    }
  }

  lemma {:induction false} RangeBoundImplied(f: Filter, col: nat, row: Cells)
    requires Fits(f, |row|) && RangeBoundFor(f, col).Some? && Eval(f, row) == Success(Some(true))
    ensures var b := RangeBoundFor(f, col).value;
      col < |row| && row[col] != Null && Holds(b.op, Compare(row[col], b.value))
  {
    if f.AndF? {
      if RangeBoundFor(f.left, col).Some? {
        RangeBoundImplied(f.left, col, row);
      } else {
        RangeBoundImplied(f.right, col, row);
      }
    }
  }

  /** With a literal of the column's type, a true predicate fixes the cell itself. */
  lemma EqValueExact(f: Filter, col: nat, row: Cells, schema: Schema)
    requires Fits(f, |row|) && Typed(row, schema) && EqValueFor(f, col).Some? && Eval(f, row) == Success(Some(true))
    requires col < |row| ==> HasType(EqValueFor(f, col).value, schema.columns[col].ty)
    ensures col < |row| && row[col] == EqValueFor(f, col).value
  {
    EqValueImplied(f, col, row);
    CompareExact(row[col], EqValueFor(f, col).value, schema.columns[col].ty);
  }
}
