/**
 * The `tasks` table: its columns, their constraints and defaults.
 */
module TaskModel {
  import opened Records
  import opened TaskSchema

  const CustomerNameColumn := "customer_name"
  const UserIdColumn := "user_id"

  const StatusMembers: set<Value> := {Str("pending"), Str("done")}
  const PriorityMembers: set<Value> := {Int(1), Int(2), Int(3), Int(4), Int(5)}

  /**
   * `class Task(Base)`. A `Mapped[...]` column without an explicit `nullable`
   * is NOT NULL; `status` and `priority` are enum columns.
   */
  const TasksSchema := Schema(
    types := map[
      IdColumn := IntType, CreatedAtColumn := TimeType, UpdatedAtColumn := TimeType,
      CustomerNameColumn := TextType, TitleField := TextType, DescriptionField := TextType,
      StatusField := EnumType(StatusMembers), PriorityField := EnumType(PriorityMembers),
      UserIdColumn := IntType],
    notNull := {IdColumn, CreatedAtColumn, UpdatedAtColumn, CustomerNameColumn, TitleField,
                DescriptionField, StatusField, PriorityField, UserIdColumn},
    unique := {},
    defaults := map[StatusField := StatusColumnValue(Pending), PriorityField := PriorityColumnValue(Medium)],
    readOnly := {})

  lemma TasksSchemaExtendsBase()
    ensures ExtendsBase(TasksSchema)
  {
    assert TasksSchema.defaults.Keys == {StatusField, PriorityField};
    assert TasksSchema.defaults[StatusField] in StatusMembers;
    assert TasksSchema.defaults[PriorityField] in PriorityMembers;
  }

  /** The enum columns hold exactly the enum members. */
  lemma EnumColumns(v: Value)
    ensures HasType(v, TasksSchema.types[StatusField]) <==> exists s :: v == StatusColumnValue(s)
    ensures HasType(v, TasksSchema.types[PriorityField]) <==> exists p :: v == PriorityColumnValue(p)
  {
    if v == Str("pending") { assert v == StatusColumnValue(Pending); }
    if v == Str("done") { assert v == StatusColumnValue(Done); }
    if v == Int(1) { assert v == PriorityColumnValue(Lowest); }
    if v == Int(2) { assert v == PriorityColumnValue(Low); }
    if v == Int(3) { assert v == PriorityColumnValue(Medium); }
    if v == Int(4) { assert v == PriorityColumnValue(High); }
    if v == Int(5) { assert v == PriorityColumnValue(Highest); }
  }

  /**
   * Every stored task has an owner id, a customer name and a description, and
   * a status and a priority that are members of their enums.
   */
  lemma StoredTask(rows: map<int, Row>, k: int)
    requires WellFormed(TasksSchema, rows) && k in rows
    ensures rows[k][CustomerNameColumn] != Null && rows[k][DescriptionField] != Null && rows[k][UserIdColumn].Int?
    ensures exists s :: rows[k][StatusField] == StatusColumnValue(s)
    ensures exists p :: rows[k][PriorityField] == PriorityColumnValue(p)
  {
    var r := rows[k];
    assert RowFits(TasksSchema, r);
    assert Get(r, StatusField) != Null && Get(r, PriorityField) != Null && Get(r, UserIdColumn) != Null;
    EnumColumns(r[StatusField]);
    EnumColumns(r[PriorityField]);
  }
}
