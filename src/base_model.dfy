/**
 * Mapped instances as the repositories see them: rows of named attribute
 * values, the column schema of a mapped class, and the declarative `Base`
 * every mapped class extends (an integer primary key `id` and the non-null
 * timestamps `created_at` and `updated_at`).
 */
module Records {
  import opened Wrappers
  import opened Jose

  /**
   * A Python `datetime`: seconds on its own wall clock and its `tzinfo` as an
   * offset from UTC in seconds, `None` when the datetime is naive.
   */
  datatype DateTime = DateTime(seconds: int, utcOffset: Option<int>)

  /** `datetime.utcnow()` at UTC instant `now`: a naive datetime. */
  function UtcNow(now: int): DateTime {
    DateTime(now, None)
  }

  /** An attribute value; `Tok` is a JWT, stored in a string column in its compact form. */
  datatype Value = Null | Str(s: string) | Int(i: int) | Bool(b: bool) | Time(t: DateTime) | Tok(token: Token)

  /** A mapped instance: its attribute values by attribute name. */
  type Row = map<string, Value>

  /** A Python `dict` of keyword arguments or updates, in insertion order. */
  type Dict = seq<(string, Value)>

  /** `getattr(row, c)`, `None` for an attribute the row does not hold. */
  function Get(r: Row, c: string): Value {
    if c in r then r[c] else Null
  }

  /** `d.get(key)`: the last value written under `key`. */
  function Lookup(d: Dict, key: string): (v: Option<Value>)
    ensures v.None? <==> forall i :: 0 <= i < |d| ==> d[i].0 != key
    ensures v.Some? ==> exists i :: 0 <= i < |d| && d[i] == (key, v.value)
    decreases |d|
  {
    if d == [] then None
    else if d[|d| - 1].0 == key then Some(d[|d| - 1].1)
    else
      var v := Lookup(d[..|d| - 1], key);
      assert forall i :: 0 <= i < |d| - 1 ==> d[..|d| - 1][i] == d[i];
      v
  }

  /** A key written once is found with the value written. */
  lemma LookupUnique(d: Dict, i: int)
    requires 0 <= i < |d| && forall j :: 0 <= j < |d| && j != i ==> d[j].0 != d[i].0
    ensures Lookup(d, d[i].0) == Some(d[i].1)
  {
  }

  /** `{**d, **e}` looked up: `e` wins where it holds the key, `d` answers elsewhere. */
  lemma {:induction false} LookupAppend(d: Dict, e: Dict, key: string)
    ensures Lookup(d + e, key) == if Lookup(e, key).Some? then Lookup(e, key) else Lookup(d, key)
    decreases |e|
  {
    if e != [] {
      var init := e[..|e| - 1];
      assert (d + e)[..|d + e| - 1] == d + init;
      LookupAppend(d, init, key);
    } else {
      assert d + e == d;
    }
  }

  datatype ColumnType = TextType | IntType | BoolType | TimeType | TokenType | EnumType(members: set<Value>)

  /** Whether the database accepts a non-null `v` in a column of type `t`. */
  predicate HasType(v: Value, t: ColumnType) {
    match t
    case TextType => v.Str?
    case IntType => v.Int?
    case BoolType => v.Bool?
    case TimeType => v.Time?
    case TokenType => v.Tok?
    case EnumType(members) => v in members
  }

  /**
   * A mapped class: its columns and their types, the NOT NULL and UNIQUE
   * columns, the Python-side column defaults, and the attributes whose
   * assignment raises `AttributeError`.
   */
  datatype Schema = Schema(
    types: map<string, ColumnType>,
    notNull: set<string>,
    unique: set<string>,
    defaults: map<string, Value>,
    readOnly: set<string>)

  const IdColumn := "id"
  const CreatedAtColumn := "created_at"
  const UpdatedAtColumn := "updated_at"

  /**
   * `class X(Base)`: the declarative base's columns, and a schema that hangs
   * together. The id comes from a sequence and the timestamps from the clock,
   * so none of the three has a constant default.
   */
  predicate ExtendsBase(schema: Schema) {
    && IdColumn in schema.types && schema.types[IdColumn] == IntType
    && CreatedAtColumn in schema.types && schema.types[CreatedAtColumn] == TimeType
    && UpdatedAtColumn in schema.types && schema.types[UpdatedAtColumn] == TimeType
    && {IdColumn, CreatedAtColumn, UpdatedAtColumn} <= schema.notNull
    && schema.notNull <= schema.types.Keys
    && schema.unique <= schema.types.Keys
    && schema.readOnly <= schema.types.Keys
    && schema.defaults.Keys <= schema.types.Keys - {IdColumn, CreatedAtColumn, UpdatedAtColumn}
    && (forall c :: c in schema.defaults ==> schema.defaults[c] != Null && HasType(schema.defaults[c], schema.types[c]))
  }

  /** A row the table can hold: exactly the schema's columns, typed, non-null where required. */
  predicate RowFits(schema: Schema, r: Row) {
    && r.Keys == schema.types.Keys
    && (forall c :: c in r && r[c] != Null ==> HasType(r[c], schema.types[c]))
    && (forall c :: c in schema.notNull ==> Get(r, c) != Null)
  }

  /** Two rows that break a UNIQUE constraint (NULLs never clash). */
  predicate Clash(schema: Schema, a: Row, b: Row) {
    exists c :: c in schema.unique && Get(a, c) != Null && Get(a, c) == Get(b, c)
  }

  lemma ClashSymmetric(schema: Schema, a: Row, b: Row)
    ensures Clash(schema, a, b) <==> Clash(schema, b, a)
  {
  }

  /** An instance found among the committed rows is stored under its own id. */
  lemma StoredUnderOwnId(schema: Schema, rows: map<int, Row>, r: Row)
    requires WellFormed(schema, rows) && exists k :: k in rows && rows[k] == r
    ensures RowFits(schema, r) && Get(r, IdColumn).Int? && Get(r, IdColumn).i in rows && rows[Get(r, IdColumn).i] == r
  {
    var k :| k in rows && rows[k] == r;
  }

  /** The committed rows of a table, keyed by primary key. */
  ghost predicate WellFormed(schema: Schema, rows: map<int, Row>) {
    && (forall k :: k in rows ==> RowFits(schema, rows[k]) && Get(rows[k], IdColumn) == Int(k))
    && (forall k, j :: k in rows && j in rows && k != j ==> !Clash(schema, rows[k], rows[j]))
  }

  /** In a well-formed table no two rows share a value of a UNIQUE column. */
  lemma UniqueColumn(schema: Schema, rows: map<int, Row>, c: string, k: int, j: int)
    requires WellFormed(schema, rows) && c in schema.unique && c in schema.notNull
    requires k in rows && j in rows && k != j
    ensures rows[k][c] != rows[j][c]
  {
    assert !Clash(schema, rows[k], rows[j]);
  }
}
