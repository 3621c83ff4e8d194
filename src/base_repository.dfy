/**
 * `BaseRepository`: the generic data access every repository inherits, over a
 * table of committed rows. The database's side of a commit (type, NOT NULL,
 * primary-key and UNIQUE checks; the id sequence) is modelled here as well,
 * since the repository's outcomes depend on it.
 */
module BaseRepository {
  import opened Wrappers
  import opened Errors
  import opened DbErrors
  import opened Records

  // ---------------------------------------------------------------- commit

  /** The database accepts row `r` beside the committed rows `others`. */
  predicate Accepted(schema: Schema, others: map<int, Row>, r: Row) {
    && RowFits(schema, r)
    && Get(r, IdColumn).Int?
    && Get(r, IdColumn).i !in others
    && (forall k :: k in others ==> !Clash(schema, r, others[k]))
  }

  /**
   * What a commit of `r` raises: `DataError` for a value of the wrong type,
   * `IntegrityError` for a NULL in a NOT NULL column, a primary key in use or
   * a UNIQUE clash, nothing when the row is accepted.
   */
  function CommitCheck(schema: Schema, others: map<int, Row>, r: Row): (f: Option<DbFailure>)
    requires ExtendsBase(schema) && r.Keys == schema.types.Keys
    ensures f.None? <==> Accepted(schema, others, r)
    ensures f == Some(DataError) <==> exists c :: c in r && r[c] != Null && !HasType(r[c], schema.types[c])
  {
    if exists c :: c in r && r[c] != Null && !HasType(r[c], schema.types[c]) then Some(DataError)
    else if exists c :: c in schema.notNull && Get(r, c) == Null then Some(IntegrityError)
    else if r[IdColumn].i in others then Some(IntegrityError)
    else if exists k :: k in others && Clash(schema, r, others[k]) then Some(IntegrityError)
    else None
  }

  /** Committing an accepted row keeps the table well formed. */
  lemma CommitKeepsWellFormed(schema: Schema, others: map<int, Row>, r: Row)
    requires ExtendsBase(schema) && WellFormed(schema, others)
    requires Accepted(schema, others, r)
    ensures WellFormed(schema, others[Get(r, IdColumn).i := r])
  {
    forall k | k in others
      ensures !Clash(schema, others[k], r)
    {
      ClashSymmetric(schema, r, others[k]);
    }
  }

  // ---------------------------------------------------------------- create

  /**
   * The value column `c` gets at INSERT: the keyword argument when it is not
   * `None` (the ORM leaves `None` attributes out of the INSERT), else the
   * column default, else `datetime.utcnow()` for the two timestamps, else NULL.
   */
  function InitialValue(schema: Schema, data: Dict, c: string, now: int): (v: Value)
    ensures Lookup(data, c).Some? && Lookup(data, c).value != Null ==> v == Lookup(data, c).value
    ensures (Lookup(data, c).None? || Lookup(data, c).value == Null) && c !in schema.defaults ==>
              (v == Null <==> c != CreatedAtColumn && c != UpdatedAtColumn)
  {
    var given := Lookup(data, c);
    if given.Some? && given.value != Null then given.value
    else if c in schema.defaults then schema.defaults[c]
    else if c == CreatedAtColumn || c == UpdatedAtColumn then Time(UtcNow(now))
    else Null
  }

  /** `self.model(**data)` as it reaches the INSERT, before the id is generated. */
  function Construct(schema: Schema, data: Dict, now: int): (r: Row)
    ensures r.Keys == schema.types.Keys
  {
    map c | c in schema.types :: InitialValue(schema, data, c, now)
  }

  /** A keyword argument that is not an attribute of the mapped class. */
  predicate UnknownKey(schema: Schema, data: Dict) {
    exists i :: 0 <= i < |data| && data[i].0 !in schema.types
  }

  /** The row an INSERT tries: the constructed row, its id drawn from the sequence when it has none. */
  function Inserted(schema: Schema, data: Dict, nextId: int, now: int): (r: Row)
    requires ExtendsBase(schema)
    ensures r.Keys == schema.types.Keys
    ensures forall c :: c in schema.types && c != IdColumn ==> r[c] == InitialValue(schema, data, c, now)
    ensures var given := InitialValue(schema, data, IdColumn, now);
      r[IdColumn] == if given == Null then Int(nextId) else given
  {
    var r0 := Construct(schema, data, now);
    if r0[IdColumn] == Null then r0[IdColumn := Int(nextId)] else r0
  }

  datatype CreateOutcome = CreateOutcome(result: Result<Row>, rows: map<int, Row>, nextId: int)

  /**
   * `create(data)`: construct, add, commit, refresh. An unknown keyword raises
   * `TypeError` before anything reaches the database; otherwise the INSERT
   * draws an id from the sequence when none is given (the draw is not given
   * back when the commit fails) and the commit either stores the row or raises.
   */
  function CreateSpec(schema: Schema, rows: map<int, Row>, nextId: int, data: Dict, now: int): (o: CreateOutcome)
    requires ExtendsBase(schema)
    ensures o.result.Err? ==> o.rows == rows
    ensures o.nextId == nextId || o.nextId == nextId + 1
    ensures UnknownKey(schema, data) ==> o == CreateOutcome(Err(Builtin("TypeError")), rows, nextId)
  {
    if UnknownKey(schema, data) then CreateOutcome(Err(Builtin("TypeError")), rows, nextId)
    else
      var r := Inserted(schema, data, nextId, now);
      var next := if Construct(schema, data, now)[IdColumn] == Null then nextId + 1 else nextId;
      match CommitCheck(schema, rows, r)
      case Some(f) => CreateOutcome(Err(Database(f)), rows, next)
      case None => CreateOutcome(Ok(r), rows[r[IdColumn].i := r], next)
  }

  /** A create either adds exactly the new row under a fresh key, or changes no row. */
  lemma CreateAddsOneRow(schema: Schema, rows: map<int, Row>, nextId: int, data: Dict, now: int)
    requires ExtendsBase(schema) && WellFormed(schema, rows)
    ensures var o := CreateSpec(schema, rows, nextId, data, now);
      && WellFormed(schema, o.rows)
      && (o.result.Err? ==> o.rows == rows)
      && (o.result.Ok? ==> IdColumn in o.result.value && o.result.value[IdColumn].Int?)
      && (o.result.Ok? ==>
            var k := o.result.value[IdColumn].i;
            k !in rows && o.rows == rows[k := o.result.value] && |o.rows| == |rows| + 1)
  {
    var o := CreateSpec(schema, rows, nextId, data, now);
    if o.result.Ok? {
      CommitKeepsWellFormed(schema, rows, o.result.value);
    }
  }

  /** Attribute `c` was not given a value other than `None`. */
  predicate NotGiven(data: Dict, c: string) {
    Lookup(data, c).None? || Lookup(data, c).value == Null
  }

  /** The key a create that goes through stores its row under. */
  lemma CreatedKey(schema: Schema, rows: map<int, Row>, nextId: int, data: Dict, now: int) returns (k: int)
    requires ExtendsBase(schema) && WellFormed(schema, rows)
    requires CreateSpec(schema, rows, nextId, data, now).result.Ok?
    ensures var o := CreateSpec(schema, rows, nextId, data, now);
      k !in rows && o.rows == rows[k := o.result.value]
  {
    CreateAddsOneRow(schema, rows, nextId, data, now);
    k := CreateSpec(schema, rows, nextId, data, now).result.value[IdColumn].i;
  }

  /** The stored row holds every non-`None` keyword argument as given. */
  lemma CreatedRowGiven(schema: Schema, rows: map<int, Row>, nextId: int, data: Dict, now: int, c: string)
    requires ExtendsBase(schema)
    requires CreateSpec(schema, rows, nextId, data, now).result.Ok?
    requires !NotGiven(data, c)
    ensures c in schema.types && c in CreateSpec(schema, rows, nextId, data, now).result.value
    ensures CreateSpec(schema, rows, nextId, data, now).result.value[c] == Lookup(data, c).value
  {
    var r0 := Construct(schema, data, now);
    assert r0[c] == InitialValue(schema, data, c, now);
  }

  /**
   * Where nothing was given the stored row holds the column default, else the
   * insert time for the two timestamps, else NULL.
   */
  lemma CreatedRowDefault(schema: Schema, rows: map<int, Row>, nextId: int, data: Dict, now: int, c: string)
    requires ExtendsBase(schema)
    requires CreateSpec(schema, rows, nextId, data, now).result.Ok?
    requires c in schema.types && c != IdColumn && NotGiven(data, c)
    ensures c in CreateSpec(schema, rows, nextId, data, now).result.value
    ensures c in schema.defaults ==> CreateSpec(schema, rows, nextId, data, now).result.value[c] == schema.defaults[c]
    ensures c == CreatedAtColumn || c == UpdatedAtColumn ==>
              CreateSpec(schema, rows, nextId, data, now).result.value[c] == Time(UtcNow(now))
    ensures c !in schema.defaults && c != CreatedAtColumn && c != UpdatedAtColumn ==>
              CreateSpec(schema, rows, nextId, data, now).result.value[c] == Null
  {
    var r0 := Construct(schema, data, now);
    assert r0[c] == InitialValue(schema, data, c, now);
  }

  /**
   * Column by column, the row an INSERT tries holds the argument when one other
   * than `None` was given, else the column default, else the insert time for
   * the two timestamps, else NULL.
   */
  lemma InsertedColumn(schema: Schema, data: Dict, nextId: int, now: int, c: string)
    requires ExtendsBase(schema) && c in schema.types && c != IdColumn
    ensures var v := Get(Inserted(schema, data, nextId, now), c);
      && (!NotGiven(data, c) ==> v == Lookup(data, c).value)
      && (NotGiven(data, c) && c in schema.defaults ==> v == schema.defaults[c])
      && (NotGiven(data, c) && c !in schema.defaults && (c == CreatedAtColumn || c == UpdatedAtColumn) ==> v == Time(UtcNow(now)))
      && (NotGiven(data, c) && c !in schema.defaults && c != CreatedAtColumn && c != UpdatedAtColumn ==> v == Null)
  {
  }

  /** A column given a non-NULL value holds that value in the row an INSERT tries. */
  lemma InsertedGiven(schema: Schema, data: Dict, nextId: int, now: int, c: string, v: Value)
    requires ExtendsBase(schema) && c in schema.types && c != IdColumn
    requires Lookup(data, c) == Some(v) && v != Null
    ensures Get(Inserted(schema, data, nextId, now), c) == v
  {
    InsertedColumn(schema, data, nextId, now, c);
  }

  /** Without an id given, the row an INSERT tries takes the next id of the sequence. */
  lemma InsertedId(schema: Schema, data: Dict, nextId: int, now: int)
    requires ExtendsBase(schema) && NotGiven(data, IdColumn)
    ensures Get(Inserted(schema, data, nextId, now), IdColumn) == Int(nextId)
  {
    assert InitialValue(schema, data, IdColumn, now) == Null;
  }

  /** A column the row an INSERT tries holds a value in is a column whose initial value is not NULL. */
  lemma InsertedFilled(schema: Schema, data: Dict, nextId: int, now: int)
    requires ExtendsBase(schema)
    requires forall c :: c in schema.notNull && c != IdColumn ==> Get(Inserted(schema, data, nextId, now), c) != Null
    ensures forall c :: c in schema.notNull && c != IdColumn ==> InitialValue(schema, data, c, now) != Null
  {
  }

  /** Without an explicit id the row gets the sequence's next value, and the sequence moves on. */
  lemma CreatedRowId(schema: Schema, rows: map<int, Row>, nextId: int, data: Dict, now: int)
    requires ExtendsBase(schema)
    requires CreateSpec(schema, rows, nextId, data, now).result.Ok?
    requires NotGiven(data, IdColumn)
    ensures IdColumn in CreateSpec(schema, rows, nextId, data, now).result.value
    ensures CreateSpec(schema, rows, nextId, data, now).result.value[IdColumn] == Int(nextId)
    ensures CreateSpec(schema, rows, nextId, data, now).nextId == nextId + 1
  {
    var r0 := Construct(schema, data, now);
    assert r0[IdColumn] == InitialValue(schema, data, IdColumn, now);
  }

  /** A create that goes through stored the row the INSERT tried, and that row fits the table. */
  lemma CreatedRowInserted(schema: Schema, rows: map<int, Row>, nextId: int, data: Dict, now: int)
    requires ExtendsBase(schema)
    requires CreateSpec(schema, rows, nextId, data, now).result.Ok?
    ensures !UnknownKey(schema, data)
    ensures CreateSpec(schema, rows, nextId, data, now).result.value == Inserted(schema, data, nextId, now)
    ensures RowFits(schema, Inserted(schema, data, nextId, now))
  {
  }

  /** Every keyword argument names a column and holds `None` or a value of the column's type. */
  predicate DataTyped(schema: Schema, data: Dict) {
    forall i :: 0 <= i < |data| ==>
      data[i].0 in schema.types && (data[i].1 == Null || HasType(data[i].1, schema.types[data[i].0]))
  }

  /** With typed arguments the row an INSERT tries is typed: the id, defaults and timestamps are. */
  lemma InsertedTyped(schema: Schema, data: Dict, nextId: int, now: int)
    requires ExtendsBase(schema) && DataTyped(schema, data)
    ensures var r := Inserted(schema, data, nextId, now);
      forall c :: c in r && r[c] != Null ==> HasType(r[c], schema.types[c])
  {
    var r := Inserted(schema, data, nextId, now);
    forall c | c in r && r[c] != Null
      ensures HasType(r[c], schema.types[c])
    {
      var given := Lookup(data, c);
      if given.Some? && given.value != Null {
        var i :| 0 <= i < |data| && data[i] == (c, given.value);
      }
    }
  }

  /**
   * Typed arguments that fill every NOT NULL column and clash with no stored
   * row are stored under the next id of the sequence, which moves on.
   */
  lemma CreateCommits(schema: Schema, rows: map<int, Row>, nextId: int, data: Dict, now: int)
    requires ExtendsBase(schema) && DataTyped(schema, data)
    requires InitialValue(schema, data, IdColumn, now) == Null && nextId !in rows
    requires forall c :: c in schema.notNull && c != IdColumn ==> InitialValue(schema, data, c, now) != Null
    requires forall k :: k in rows ==> !Clash(schema, Inserted(schema, data, nextId, now), rows[k])
    ensures var r := Inserted(schema, data, nextId, now);
      CreateSpec(schema, rows, nextId, data, now) == CreateOutcome(Ok(r), rows[nextId := r], nextId + 1)
  {
    var r := Inserted(schema, data, nextId, now);
    InsertedTyped(schema, data, nextId, now);
    assert !UnknownKey(schema, data);
    var r0 := Construct(schema, data, now);
    assert r0[IdColumn] == Null;
    forall c | c in schema.notNull
      ensures Get(r, c) != Null
    {
      if c != IdColumn {
        assert r[c] == InitialValue(schema, data, c, now);
      }
    }
    assert Accepted(schema, rows, r);
  }

  /**
   * A row of the right types that leaves a NOT NULL column empty, or that
   * breaks a UNIQUE constraint against a stored row, raises `IntegrityError`:
   * no row changes, and the sequence has still moved on when it drew the id.
   */
  lemma CreateIntegrityError(schema: Schema, rows: map<int, Row>, nextId: int, data: Dict, now: int)
    requires ExtendsBase(schema) && !UnknownKey(schema, data)
    requires var r := Inserted(schema, data, nextId, now);
      && (forall c :: c in r && r[c] != Null ==> HasType(r[c], schema.types[c]))
      && ((exists c :: c in schema.notNull && Get(r, c) == Null) || (exists k :: k in rows && Clash(schema, r, rows[k])))
    ensures CreateSpec(schema, rows, nextId, data, now)
         == CreateOutcome(Err(Database(IntegrityError)), rows,
                          if InitialValue(schema, data, IdColumn, now) == Null then nextId + 1 else nextId)
  {
    var r0 := Construct(schema, data, now);
    assert r0[IdColumn] == InitialValue(schema, data, IdColumn, now);
  }

  /** An unknown keyword raises `TypeError` and leaves the table and the sequence alone. */
  lemma CreateUnknownKey(schema: Schema, rows: map<int, Row>, nextId: int, data: Dict, now: int)
    requires ExtendsBase(schema)
    ensures UnknownKey(schema, data) <==> CreateSpec(schema, rows, nextId, data, now).result == Err(Builtin("TypeError"))
    ensures UnknownKey(schema, data) ==> CreateSpec(schema, rows, nextId, data, now) == CreateOutcome(Err(Builtin("TypeError")), rows, nextId)
  {
  }

  // ---------------------------------------------------------------- update

  /** `value.replace(tzinfo=None)` for an aware datetime; other values pass through. */
  function StripTz(v: Value): (w: Value)
    ensures w.Time? <==> v.Time?
    ensures w.Time? ==> w.t.utcOffset.None? && w.t.seconds == v.t.seconds
    ensures !v.Time? ==> w == v
  {
    if v.Time? && v.t.utcOffset.Some? then Time(DateTime(v.t.seconds, None)) else v
  }

  /** Where the assignment loop stands: still going, or stopped by `ValueError` at `key`. */
  datatype Progress = Applied(row: Row) | Stopped(row: Row, key: string)

  /**
   * One step of the loop: skip `None`; raise `ValueError` for a name the
   * instance does not have; skip an attribute whose assignment raises
   * `AttributeError`; else assign the value, naive.
   */
  function ApplyItem(schema: Schema, r: Row, item: (string, Value)): (p: Progress)
    ensures p.Stopped? <==> item.1 != Null && item.0 !in schema.types
    ensures p.Stopped? ==> p.row == r && p.key == item.0
    ensures p.Applied? ==> p.row.Keys <= r.Keys + {item.0}
    ensures forall c :: c in r && c != item.0 ==> c in p.row && p.row[c] == r[c]
  {
    var (key, value) := item;
    if value == Null then Applied(r)
    else if key !in schema.types then Stopped(r, key)
    else if key in schema.readOnly then Applied(r)
    else Applied(r[key := StripTz(value)])
  }

  /** The loop over `update_data.items()`, applied to the in-memory instance. */
  function ApplyItems(schema: Schema, instance: Row, items: Dict): (p: Progress)
    ensures instance.Keys <= p.row.Keys <= instance.Keys + schema.types.Keys
    decreases |items|
  {
    if items == [] then Applied(instance)
    else match ApplyItems(schema, instance, items[..|items| - 1])
      case Stopped(r, k) => Stopped(r, k)
      case Applied(r) => ApplyItem(schema, r, items[|items| - 1])
  }

  /** Once the loop has raised, later items make no difference. */
  lemma {:induction false} StoppedStays(schema: Schema, instance: Row, items: Dict, n: nat)
    requires n <= |items| && ApplyItems(schema, instance, items[..n]).Stopped?
    ensures ApplyItems(schema, instance, items) == ApplyItems(schema, instance, items[..n])
    decreases |items| - n
  {
    if n < |items| {
      assert items[..n + 1][..n] == items[..n];
      StoppedStays(schema, instance, items, n + 1);
    } else {
      assert items[..n] == items;
    }
  }

  /** The value the loop leaves in attribute `c`, if it assigns one: the last non-`None` item for `c`. */
  function Assigned(schema: Schema, items: Dict, c: string): Option<Value>
    decreases |items|
  {
    if items == [] then None
    else
      var (key, value) := items[|items| - 1];
      if key == c && value != Null && c in schema.types && c !in schema.readOnly then Some(StripTz(value))
      else Assigned(schema, items[..|items| - 1], c)
  }

  /**
   * When the loop finishes, each attribute holds the last non-`None` value
   * given for it (made naive) and keeps its value when none was given;
   * `None` values, unknown names never reached and read-only attributes change
   * nothing.
   */
  lemma {:induction false} AppliedFields(schema: Schema, instance: Row, items: Dict)
    requires ApplyItems(schema, instance, items).Applied?
    ensures var r := ApplyItems(schema, instance, items).row;
      forall c :: c in instance ==> r[c] == (if Assigned(schema, items, c).Some? then Assigned(schema, items, c).value else instance[c])
    decreases |items|
  {
    if items != [] {
      AppliedFields(schema, instance, items[..|items| - 1]);
    }
  }

  /** The loop raises `ValueError` exactly when some non-`None` item names an unknown attribute. */
  lemma {:induction false} StoppedIff(schema: Schema, instance: Row, items: Dict)
    ensures ApplyItems(schema, instance, items).Stopped?
      <==> exists i :: 0 <= i < |items| && items[i].1 != Null && items[i].0 !in schema.types
    decreases |items|
  {
    if items != [] {
      var init := items[..|items| - 1];
      StoppedIff(schema, instance, init);
      assert forall i :: 0 <= i < |init| ==> init[i] == items[i];
    }
  }

  /**
   * When the first offending item is at `i`, the instance keeps exactly the
   * assignments made by the items before it: `ValueError` is raised with the
   * earlier attributes already set on the in-memory instance.
   */
  lemma StoppedAtFirstUnknown(schema: Schema, instance: Row, items: Dict, i: nat)
    requires i < |items| && items[i].1 != Null && items[i].0 !in schema.types
    requires forall j :: 0 <= j < i ==> items[j].1 == Null || items[j].0 in schema.types
    ensures ApplyItems(schema, instance, items[..i]).Applied?
    ensures ApplyItems(schema, instance, items)
         == Stopped(ApplyItems(schema, instance, items[..i]).row, items[i].0)
  {
    StoppedIff(schema, instance, items[..i]);
    assert items[..i + 1][..i] == items[..i];
    StoppedStays(schema, instance, items, i + 1);
  }

  /** The update items with the `None` values left out. */
  function NonNull(items: Dict): (d: Dict)
    ensures |d| <= |items|
    ensures forall j :: 0 <= j < |d| ==> d[j].1 != Null
    decreases |items|
  {
    if items == [] then []
    else
      var init := NonNull(items[..|items| - 1]);
      if items[|items| - 1].1 == Null then init else init + [items[|items| - 1]]
  }

  /** Passing `None` for an attribute is the same as not mentioning it. */
  lemma {:induction false} NullItemsIgnored(schema: Schema, instance: Row, items: Dict)
    ensures ApplyItems(schema, instance, items) == ApplyItems(schema, instance, NonNull(items))
    decreases |items|
  {
    if items != [] {
      var init := items[..|items| - 1];
      NullItemsIgnored(schema, instance, init);
      var d := NonNull(init);
      if items[|items| - 1].1 != Null {
        assert (d + [items[|items| - 1]])[..|d|] == d;
      }
    }
  }

  datatype UpdateOutcome = UpdateOutcome(instance: Row, result: Result<Row>, rows: map<int, Row>)

  /** The instance's primary key. */
  function KeyOf(r: Row): int
    requires Get(r, IdColumn).Int?
  {
    Get(r, IdColumn).i
  }

  /**
   * The end of `update`: `updated_at = datetime.utcnow()`, then a commit of
   * the instance loaded under key `key`, which moves the row when its id was
   * assigned. A failed commit stores nothing.
   */
  function StampAndCommit(schema: Schema, rows: map<int, Row>, key: int, r: Row, now: int): (o: UpdateOutcome)
    requires ExtendsBase(schema) && r.Keys == schema.types.Keys
    ensures o.instance == r[UpdatedAtColumn := Time(UtcNow(now))]
    ensures o.result.Err? ==> o.result.error.Database? && o.rows == rows
    ensures o.result.Ok? ==> o.result.value == o.instance && Get(o.instance, IdColumn).Int?
                             && o.rows == (rows - {key})[KeyOf(o.instance) := o.instance]
  {
    var stamped := r[UpdatedAtColumn := Time(UtcNow(now))];
    var others := rows - {key};
    match CommitCheck(schema, others, stamped)
    case Some(f) => UpdateOutcome(stamped, Err(Database(f)), rows)
    case None => UpdateOutcome(stamped, Ok(stamped), others[KeyOf(stamped) := stamped])
  }

  /**
   * `update(instance, update_data)`: the assignment loop, the stamp and the
   * commit. `ValueError` leaves the partly updated instance uncommitted.
   */
  function UpdateSpec(schema: Schema, rows: map<int, Row>, instance: Row, items: Dict, now: int): (o: UpdateOutcome)
    requires ExtendsBase(schema) && RowFits(schema, instance)
    ensures o.result.Err? ==> o.rows == rows
    ensures o.result.Ok? ==> o.result.value == o.instance && Get(o.instance, UpdatedAtColumn) == Time(UtcNow(now))
    ensures ApplyItems(schema, instance, items).Stopped? <==> o.result == Err(Builtin("ValueError"))
  {
    match ApplyItems(schema, instance, items)
    case Stopped(partial, _) => UpdateOutcome(partial, Err(Builtin("ValueError")), rows)
    case Applied(r) => StampAndCommit(schema, rows, KeyOf(instance), r, now)
  }

  /** The stamp-and-commit step either replaces the row under `key` or stores nothing. */
  lemma StampAndCommitReplaces(schema: Schema, rows: map<int, Row>, key: int, r: Row, now: int)
    requires ExtendsBase(schema) && WellFormed(schema, rows) && key in rows
    requires r.Keys == schema.types.Keys
    ensures var o := StampAndCommit(schema, rows, key, r, now);
      && WellFormed(schema, o.rows)
      && (o.result.Err? ==> o.rows == rows)
      && (o.result.Ok? ==>
            && o.result.value[UpdatedAtColumn] == Time(UtcNow(now))
            && o.rows == (rows - {key})[KeyOf(o.result.value) := o.result.value]
            && |o.rows| == |rows|)
  {
    var o := StampAndCommit(schema, rows, key, r, now);
    if o.result.Ok? {
      var others := rows - {key};
      assert WellFormed(schema, others);
      CommitKeepsWellFormed(schema, others, o.result.value);
    }
  }

  /**
   * An update either replaces the instance's row by the updated one, stamped
   * with the update time, or stores nothing; the table stays well formed.
   */
  lemma UpdateReplacesRow(schema: Schema, rows: map<int, Row>, instance: Row, items: Dict, now: int)
    requires ExtendsBase(schema) && WellFormed(schema, rows)
    requires RowFits(schema, instance) && KeyOf(instance) in rows && rows[KeyOf(instance)] == instance
    ensures var o := UpdateSpec(schema, rows, instance, items, now);
      && WellFormed(schema, o.rows)
      && (o.result.Err? ==> o.rows == rows)
      && (o.result.Ok? ==>
            && o.result.value[UpdatedAtColumn] == Time(UtcNow(now))
            && o.rows == (rows - {KeyOf(instance)})[KeyOf(o.result.value) := o.result.value]
            && |o.rows| == |rows|)
  {
    var p := ApplyItems(schema, instance, items);
    if p.Applied? {
      StampAndCommitReplaces(schema, rows, KeyOf(instance), p.row, now);
    }
  }

  /** Every non-`None` item for a known column holds, once made naive, a value of that column's type. */
  predicate ItemsTyped(schema: Schema, items: Dict) {
    forall i :: 0 <= i < |items| && items[i].1 != Null && items[i].0 in schema.types ==>
      HasType(StripTz(items[i].1), schema.types[items[i].0])
  }

  /** No item sets the primary key. */
  predicate KeepsId(items: Dict) {
    forall i :: 0 <= i < |items| ==> items[i].0 != IdColumn || items[i].1 == Null
  }

  /** The assignment loop with typed items keeps the instance fitting its schema, and keeps its id when no item sets it. */
  lemma {:induction false} AppliedKeepsFit(schema: Schema, instance: Row, items: Dict)
    requires ExtendsBase(schema) && RowFits(schema, instance) && ItemsTyped(schema, items)
    ensures RowFits(schema, ApplyItems(schema, instance, items).row)
    ensures KeepsId(items) ==> Get(ApplyItems(schema, instance, items).row, IdColumn) == Get(instance, IdColumn)
    decreases |items|
  {
    if items != [] {
      var init := items[..|items| - 1];
      assert forall i :: 0 <= i < |init| ==> init[i] == items[i];
      AppliedKeepsFit(schema, instance, init);
      var p := ApplyItems(schema, instance, init);
      if p.Applied? {
        var (key, value) := items[|items| - 1];
        if value != Null && key in schema.types && key !in schema.readOnly {
          var r := p.row[key := StripTz(value)];
          assert HasType(StripTz(value), schema.types[key]);
          forall c | c in r && r[c] != Null
            ensures HasType(r[c], schema.types[c])
          {
            if c != key {
              assert r[c] == p.row[c];
            }
          }
          forall c | c in schema.notNull
            ensures Get(r, c) != Null
          {
            if c != key {
              assert Get(r, c) == Get(p.row, c);
            }
          }
        }
      }
    }
  }

  /**
   * An assignment loop that finishes with a row fitting the schema, keeping
   * the id, in a table without UNIQUE columns other than the id, always
   * commits: the row is replaced by the updated one, stamped with the time.
   */
  lemma UpdateCommits(schema: Schema, rows: map<int, Row>, instance: Row, items: Dict, now: int)
    requires ExtendsBase(schema) && WellFormed(schema, rows) && schema.unique == {}
    requires RowFits(schema, instance) && KeyOf(instance) in rows && rows[KeyOf(instance)] == instance
    requires ApplyItems(schema, instance, items).Applied?
    requires RowFits(schema, ApplyItems(schema, instance, items).row)
    requires Get(ApplyItems(schema, instance, items).row, IdColumn) == Get(instance, IdColumn)
    ensures var row := ApplyItems(schema, instance, items).row[UpdatedAtColumn := Time(UtcNow(now))];
      UpdateSpec(schema, rows, instance, items, now) == UpdateOutcome(row, Ok(row), rows[KeyOf(instance) := row])
  {
    var key := KeyOf(instance);
    var r := ApplyItems(schema, instance, items).row;
    var row := r[UpdatedAtColumn := Time(UtcNow(now))];
    forall c | c in row && row[c] != Null
      ensures HasType(row[c], schema.types[c])
    {
      if c != UpdatedAtColumn {
        assert row[c] == r[c];
      }
    }
    forall c | c in schema.notNull
      ensures Get(row, c) != Null
    {
      if c != UpdatedAtColumn {
        assert Get(row, c) == Get(r, c);
      }
    }
    var others := rows - {key};
    assert Accepted(schema, others, row);
    assert others[KeyOf(row) := row] == rows[key := row];
  }

  /** Setting one typed, non-`None` column and stamping `updated_at` keeps a row fitting its schema and its id. */
  lemma AssignedRowFits(schema: Schema, instance: Row, c: string, v: Value, now: int)
    requires ExtendsBase(schema) && RowFits(schema, instance)
    requires c in schema.types && c != IdColumn && v != Null && HasType(v, schema.types[c])
    ensures var row := instance[c := v][UpdatedAtColumn := Time(UtcNow(now))];
      RowFits(schema, row) && Get(row, IdColumn) == Get(instance, IdColumn)
  {
    var row := instance[c := v][UpdatedAtColumn := Time(UtcNow(now))];
    forall x | x in row && row[x] != Null
      ensures HasType(row[x], schema.types[x])
    {
      if x != c && x != UpdatedAtColumn {
        assert row[x] == instance[x];
      }
    }
    forall x | x in schema.notNull
      ensures Get(row, x) != Null
    {
      if x != c && x != UpdatedAtColumn {
        assert Get(row, x) == Get(instance, x);
      }
    }
  }

  /**
   * Setting one ordinary attribute of a loaded instance to a typed, non-`None`
   * value that no UNIQUE constraint watches always commits: the row is
   * replaced by the instance with that attribute set and `updated_at` stamped.
   */
  lemma AssignOneCommits(schema: Schema, rows: map<int, Row>, instance: Row, c: string, v: Value, now: int)
    requires ExtendsBase(schema) && WellFormed(schema, rows)
    requires RowFits(schema, instance) && KeyOf(instance) in rows && rows[KeyOf(instance)] == instance
    requires c in schema.types && c !in schema.readOnly && c !in schema.unique && c != IdColumn
    requires UpdatedAtColumn !in schema.unique
    requires v != Null && !v.Time? && HasType(v, schema.types[c])
    ensures var row := instance[c := v][UpdatedAtColumn := Time(UtcNow(now))];
      UpdateSpec(schema, rows, instance, [(c, v)], now) == UpdateOutcome(row, Ok(row), rows[KeyOf(instance) := row])
  {
    var key := KeyOf(instance);
    var row := instance[c := v][UpdatedAtColumn := Time(UtcNow(now))];
    assert [(c, v)][..0] == [];
    assert ApplyItems(schema, instance, [(c, v)]) == Applied(instance[c := v]);
    AssignedRowFits(schema, instance, c, v, now);
    var others := rows - {key};
    forall k | k in others
      ensures !Clash(schema, row, others[k])
    {
      assert !Clash(schema, instance, rows[k]);
      forall u | u in schema.unique
        ensures Get(row, u) == Get(instance, u)
      {
      }
    }
    assert Accepted(schema, others, row);
    assert others[KeyOf(row) := row] == rows[key := row];
  }

  // ---------------------------------------------------------------- queries

  /** A `WHERE` condition of the query `get_by_filters` builds. */
  datatype Condition = Equals(column: string, value: Value) | CreatedAtLeast(bound: DateTime)

  predicate Holds(r: Row, cond: Condition) {
    match cond
    case Equals(c, v) => Get(r, c) == v
    case CreatedAtLeast(b) => Get(r, CreatedAtColumn).Time? && Get(r, CreatedAtColumn).t.seconds >= b.seconds
  }

  predicate AllHold(r: Row, query: seq<Condition>) {
    forall i :: 0 <= i < |query| ==> Holds(r, query[i])
  }

  /** Running `select(model).filter(...)`: the rows that satisfy every condition. */
  function Execute(rows: map<int, Row>, query: seq<Condition>): map<int, Row> {
    map k | k in rows && AllHold(rows[k], query) :: rows[k]
  }

  /** The conditions the filter loop adds, one per non-`None` value. */
  function ConditionsOf(filters: Dict): seq<Condition>
    decreases |filters|
  {
    if filters == [] then []
    else
      var (column, value) := filters[|filters| - 1];
      ConditionsOf(filters[..|filters| - 1]) + (if value != Null then [Equals(column, value)] else [])
  }

  /** Row `r` equals every non-`None` filter value. */
  predicate FiltersMatch(r: Row, filters: Dict) {
    forall i :: 0 <= i < |filters| && filters[i].1 != Null ==> Get(r, filters[i].0) == filters[i].1
  }

  lemma {:induction false} ConditionsMeaning(r: Row, filters: Dict)
    ensures AllHold(r, ConditionsOf(filters)) <==> FiltersMatch(r, filters)
    decreases |filters|
  {
    if filters != [] {
      var init := filters[..|filters| - 1];
      ConditionsMeaning(r, init);
      var q := ConditionsOf(init);
      var last := filters[|filters| - 1];
      var extra := if last.1 != Null then [Equals(last.0, last.1)] else [];
      assert ConditionsOf(filters) == q + extra;
      assert forall i :: 0 <= i < |init| ==> init[i] == filters[i];
      if AllHold(r, q + extra) {
        assert forall i :: 0 <= i < |q| ==> (q + extra)[i] == q[i];
        assert AllHold(r, q);
        if last.1 != Null {
          assert Holds(r, (q + extra)[|q|]);
        }
      }
      if FiltersMatch(r, filters) {
        assert FiltersMatch(r, init);
        assert AllHold(r, q);
        forall i | 0 <= i < |q + extra|
          ensures Holds(r, (q + extra)[i])
        {
          if i < |q| {
            assert (q + extra)[i] == q[i];
          } else {
            assert filters[|filters| - 1] == last;
          }
        }
      }
    }
  }

  /** A row `get_by_filters` returns. */
  predicate Matches(r: Row, createdAfter: Option<DateTime>, filters: Option<Dict>) {
    && (filters.Some? ==> FiltersMatch(r, filters.value))
    && (createdAfter.Some? ==> Get(r, CreatedAtColumn).Time? && Get(r, CreatedAtColumn).t.seconds >= createdAfter.value.seconds)
  }

  /** What `get_by_filters` means: the rows equal to every given filter value and created no earlier than `created_after`. */
  function Select(rows: map<int, Row>, createdAfter: Option<DateTime>, filters: Option<Dict>): (r: map<int, Row>)
    ensures forall k :: k in r ==> k in rows && r[k] == rows[k]
    ensures forall k :: k in rows ==> (k in r <==> Matches(rows[k], createdAfter, filters))
  {
    map k | k in rows && Matches(rows[k], createdAfter, filters) :: rows[k]
  }

  /** With no `created_after` and only `None` filter values nothing is filtered out. */
  lemma SelectUnfiltered(rows: map<int, Row>, filters: Option<Dict>)
    requires filters.Some? ==> forall i :: 0 <= i < |filters.value| ==> filters.value[i].1 == Null
    ensures Select(rows, None, filters) == rows
  {
    assert forall k :: k in rows ==> Matches(rows[k], None, filters);
    assert Select(rows, None, filters).Keys == rows.Keys;
  }

  /** Adding a filter never returns more rows. */
  lemma SelectNarrows(rows: map<int, Row>, createdAfter: Option<DateTime>, filters: Dict, extra: (string, Value))
    ensures Select(rows, createdAfter, Some(filters + [extra])).Keys <= Select(rows, createdAfter, Some(filters)).Keys
  {
    forall k | k in Select(rows, createdAfter, Some(filters + [extra]))
      ensures k in Select(rows, createdAfter, Some(filters))
    {
      assert forall i :: 0 <= i < |filters| ==> (filters + [extra])[i] == filters[i];
    }
  }

  /**
   * The assignment loop of `update`, step by step on the in-memory instance;
   * it stops at the first non-`None` item whose name the instance lacks.
   */
  method AssignItems(schema: Schema, instance: Row, items: Dict) returns (p: Progress)
    ensures p == ApplyItems(schema, instance, items)
  {
    var current := instance;
    var i := 0;
    while i < |items|
      invariant 0 <= i <= |items|
      invariant ApplyItems(schema, instance, items[..i]) == Applied(current)
    {
      assert items[..i + 1][..i] == items[..i];
      var (key, value) := items[i];
      if value != Null {
        if key in schema.types {
          if key !in schema.readOnly {
            current := current[key := StripTz(value)];
          }
        } else {
          StoppedStays(schema, instance, items, i + 1);
          return Stopped(current, key);
        }
      }
      i := i + 1;
    }
    assert items[..i] == items;
    p := Applied(current);
  }

  // ---------------------------------------------------------------- the repository

  /** A repository bound to one table of one mapped class, and its session. */
  class Table {
    const schema: Schema
    const session: Session
    var rows: map<int, Row>
    var nextId: int

    ghost predicate Valid()
      reads this
    {
      ExtendsBase(schema) && WellFormed(schema, rows)
    }

    /** An instance loaded from this table. */
    predicate Loaded(instance: Row)
      reads this
    {
      Get(instance, IdColumn).Int? && KeyOf(instance) in rows && rows[KeyOf(instance)] == instance
    }

    constructor (schema: Schema, session: Session)
      requires ExtendsBase(schema)
      ensures Valid()
      ensures this.schema == schema && this.session == session && rows == map[] && nextId == 1
    {
      this.schema := schema;
      this.session := session;
      rows := map[];
      nextId := 1;
    }

    /** `id(model_id)`: the row with that primary key, else `NotFoundInDBError`. */
    method Id(modelId: int) returns (r: Result<Row>)
      ensures r.Ok? <==> modelId in rows
      ensures r.Ok? ==> r.value == rows[modelId]
      ensures r.Err? ==> r.error == NotFound()
    {
      var found := if modelId in rows then Ok(rows[modelId]) else Err(NotFound());
      var h := HandleDbErrors(found);
      assert !h.rollsBack;
      r := h.result;
    }

    /** `all()`: every row. */
    method All() returns (r: map<int, Row>)
      ensures r == rows
      ensures r == Select(rows, None, None)
    {
      SelectUnfiltered(rows, None);
      r := rows;
    }

    /** `create(data)`. */
    method Create(data: Dict, now: int) returns (r: Result<Row>)
      requires Valid()
      modifies this, session
      ensures Valid()
      ensures var o := CreateSpec(schema, old(rows), old(nextId), data, now);
        r == o.result && rows == o.rows && nextId == o.nextId
      ensures session.rollbacks == old(session.rollbacks) + (if r.Err? && r.error.Database? then 1 else 0)
      ensures session.open == old(session.open)
    {
      CreateAddsOneRow(schema, rows, nextId, data, now);
      ghost var o := CreateSpec(schema, rows, nextId, data, now);
      if exists i :: 0 <= i < |data| && data[i].0 !in schema.types {
        r := Finish(session, Err(Builtin("TypeError")));
        return;
      }
      var row := Inserted(schema, data, nextId, now);
      if Construct(schema, data, now)[IdColumn] == Null {
        nextId := nextId + 1;
      }
      assert nextId == o.nextId;
      var failure := CommitCheck(schema, rows, row);
      if failure.Some? {
        r := Finish(session, Err(Database(failure.value)));
      } else {
        rows := rows[row[IdColumn].i := row];
        r := Finish(session, Ok(row));
      }
    }

    /** `delete(model_id)`: look the row up through `id`, then delete it. */
    method Delete(modelId: int) returns (r: Result<int>)
      requires Valid()
      modifies this
      ensures Valid()
      ensures modelId in old(rows) ==> r == Ok(200) && rows == old(rows) - {modelId}
      ensures modelId !in old(rows) ==> r == Err(NotFound()) && rows == old(rows)
      ensures nextId == old(nextId)
    {
      var found := Id(modelId);
      if found.Err? {
        r := Err(found.error);
        return;
      }
      rows := rows - {modelId};
      r := Ok(200);
    }

    /**
     * `update(instance, update_data)`: the assignment loop on the in-memory
     * instance, the `updated_at` stamp, the commit. Returns the instance as
     * the loop left it together with the outcome.
     */
    method Update(instance: Row, items: Dict, now: int) returns (current: Row, r: Result<Row>)
      requires Valid() && Loaded(instance)
      modifies this, session
      ensures Valid()
      ensures var o := UpdateSpec(schema, old(rows), instance, items, now);
        current == o.instance && r == o.result && rows == o.rows
      ensures nextId == old(nextId)
      ensures session.rollbacks == old(session.rollbacks) + (if r.Err? && r.error.Database? then 1 else 0)
      ensures session.open == old(session.open)
    {
      var progress := AssignItems(schema, instance, items);
      if progress.Stopped? {
        current := progress.row;
        r := Finish(session, Err(Builtin("ValueError")));
        return;
      }
      var o := StampAndCommit(schema, rows, KeyOf(instance), progress.row, now);
      StampAndCommitReplaces(schema, rows, KeyOf(instance), progress.row, now);
      current := o.instance;
      rows := o.rows;
      r := Finish(session, o.result);
    }

    /**
     * `get_by_filters(created_after, filters)`: builds the query one condition
     * per non-`None` filter value, adds the `created_at` bound, runs it.
     */
    method GetByFilters(createdAfter: Option<DateTime>, filters: Option<Dict>) returns (r: map<int, Row>)
      ensures r == Select(rows, createdAfter, filters)
    {
      var query: seq<Condition> := [];
      if filters.Some? && |filters.value| > 0 {
        var f := filters.value;
        var i := 0;
        while i < |f|
          invariant 0 <= i <= |f|
          invariant query == ConditionsOf(f[..i])
        {
          assert f[..i + 1][..i] == f[..i];
          var (column, value) := f[i];
          if value != Null {
            query := query + [Equals(column, value)];
          }
          i := i + 1;
        }
        assert f[..i] == f;
      }
      var filterCount := |query|;
      if createdAfter.Some? {
        query := query + [CreatedAtLeast(createdAfter.value)];
      }
      r := Execute(rows, query);
      forall k | k in rows
        ensures AllHold(rows[k], query) <==> Matches(rows[k], createdAfter, filters)
      {
        var q := query[..filterCount];
        assert AllHold(rows[k], query) <==> AllHold(rows[k], q) && (createdAfter.Some? ==> Holds(rows[k], query[filterCount]));
        if filters.Some? {
          ConditionsMeaning(rows[k], filters.value);
        }
      }
    }
  }
}
