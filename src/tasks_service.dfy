/**
 * `TasksService`: the task endpoints' access to the `tasks` table. Listing by
 * filters, searching and creating forward to the repository unchanged;
 * updating looks the task up by `int(task_id)` and applies the repository's
 * partial update to it.
 */
module TasksService {
  import opened Wrappers
  import opened Errors
  import opened Text
  import opened Records
  import opened BaseRepository
  import opened TaskSchema
  import opened TaskModel
  import TasksRepository

  /** The outcome of `update_task` and the committed task rows after it. */
  datatype TaskOutcome = TaskOutcome(result: Result<Row>, rows: map<int, Row>)

  /**
   * `update_task(data, task_id)`: `int(task_id)` raises `ValueError` for a
   * string that is not an integer; `id` raises `NotFoundInDBError` for a
   * missing task; otherwise the repository's `update` of that task.
   */
  function UpdateTaskSpec(rows: map<int, Row>, data: Dict, taskId: string, now: int): (o: TaskOutcome)
    requires WellFormed(TasksSchema, rows)
    ensures WellFormed(TasksSchema, o.rows)
    ensures o.result.Err? ==> o.rows == rows
    ensures ParseInt(taskId).None? ==> o.result == Err(Builtin("ValueError"))
    ensures ParseInt(taskId).Some? && ParseInt(taskId).value !in rows ==> o.result == Err(NotFound())
    ensures o.result.Ok? ==>
              && ParseInt(taskId).Some? && ParseInt(taskId).value in rows
              && |o.rows| == |rows|
  {
    TasksSchemaExtendsBase();
    match ParseInt(taskId)
    case None => TaskOutcome(Err(Builtin("ValueError")), rows)
    case Some(k) =>
      if k !in rows then TaskOutcome(Err(NotFound()), rows)
      else
        assert Get(rows[k], IdColumn) == Int(k);
        UpdateReplacesRow(TasksSchema, rows, rows[k], data, now);
        var o := UpdateSpec(TasksSchema, rows, rows[k], data, now);
        TaskOutcome(o.result, o.rows)
  }

  /**
   * A task with the fields of a `TaskUpdate` that are not `None` put in place,
   * in the field order of the update.
   */
  function Patched(task: Row, u: TaskUpdate): (r: Row)
    ensures forall c :: c != TitleField && c != DescriptionField && c != StatusField && c != PriorityField ==>
              (c in r <==> c in task) && (c in task ==> r[c] == task[c])
    ensures Get(r, TitleField) == if u.title.Some? then Str(u.title.value) else Get(task, TitleField)
    ensures Get(r, DescriptionField) == if u.description.Some? then Str(u.description.value) else Get(task, DescriptionField)
    ensures Get(r, StatusField) == if u.status.Some? then StatusColumnValue(u.status.value) else Get(task, StatusField)
    ensures Get(r, PriorityField) == if u.priority.Some? then PriorityColumnValue(u.priority.value) else Get(task, PriorityField)
  {
    var t1 := if u.title.Some? then task[TitleField := Str(u.title.value)] else task;
    var t2 := if u.description.Some? then t1[DescriptionField := Str(u.description.value)] else t1;
    var t3 := if u.status.Some? then t2[StatusField := StatusColumnValue(u.status.value)] else t2;
    if u.priority.Some? then t3[PriorityField := PriorityColumnValue(u.priority.value)] else t3
  }

  /** The four fields of a `TaskUpdate` are columns of the table, and assignable. */
  lemma TaskFieldsWritable()
    ensures forall c :: c in {TitleField, DescriptionField, StatusField, PriorityField} ==>
              c in TasksSchema.types && c !in TasksSchema.readOnly
  {
  }

  /**
   * Over any table where the four fields are writable columns, the assignment
   * loop over `update_data.__dict__` puts in place exactly the given fields.
   */
  lemma ApplyUpdateFields(schema: Schema, task: Row, u: TaskUpdate)
    requires forall c :: c in {TitleField, DescriptionField, StatusField, PriorityField} ==>
               c in schema.types && c !in schema.readOnly
    ensures ApplyItems(schema, task, TaskUpdateDict(u)) == Applied(Patched(task, u))
  {
    var d := TaskUpdateDict(u);
    var t1 := if u.title.Some? then task[TitleField := Str(u.title.value)] else task;
    var t2 := if u.description.Some? then t1[DescriptionField := Str(u.description.value)] else t1;
    var t3 := if u.status.Some? then t2[StatusField := StatusColumnValue(u.status.value)] else t2;
    assert d[..1][..0] == [] && d[..1][0] == d[0];
    assert ApplyItems(schema, task, d[..1]) == Applied(t1);
    assert d[..2][..1] == d[..1] && d[..2][1] == d[1];
    assert ApplyItems(schema, task, d[..2]) == Applied(t2);
    assert d[..3][..2] == d[..2] && d[..3][2] == d[2];
    assert ApplyItems(schema, task, d[..3]) == Applied(t3);
    assert d[..3] == d[..|d| - 1];
    assert ApplyItems(schema, task, d) == ApplyItem(schema, t3, d[3]);
  }

  /** The assignment loop over `update_data.__dict__` puts in place exactly the given fields. */
  lemma ApplyTaskUpdate(task: Row, u: TaskUpdate)
    ensures ApplyItems(TasksSchema, task, TaskUpdateDict(u)) == Applied(Patched(task, u))
  {
    TaskFieldsWritable();
    ApplyUpdateFields(TasksSchema, task, u);
  }

  /** The values a `TaskUpdate` carries fit their columns, and none of them is the id. */
  lemma TaskUpdateTyped(u: TaskUpdate)
    ensures ItemsTyped(TasksSchema, TaskUpdateDict(u))
    ensures KeepsId(TaskUpdateDict(u))
  {
    var d := TaskUpdateDict(u);
    if u.status.Some? {
      assert d[2].1 in StatusMembers by {
        match u.status.value
        case Pending =>
        case Done =>
      }
    }
    if u.priority.Some? {
      assert d[3].1 in PriorityMembers by {
        match u.priority.value
        case Lowest =>
        case Low =>
        case Medium =>
        case High =>
        case Highest =>
      }
    }
  }

  /** A patched task still fits the table and keeps its id. */
  lemma PatchedFits(task: Row, u: TaskUpdate)
    requires RowFits(TasksSchema, task)
    ensures ApplyItems(TasksSchema, task, TaskUpdateDict(u)) == Applied(Patched(task, u))
    ensures RowFits(TasksSchema, Patched(task, u))
    ensures Get(Patched(task, u), IdColumn) == Get(task, IdColumn)
  {
    TasksSchemaExtendsBase();
    ApplyTaskUpdate(task, u);
    TaskUpdateTyped(u);
    AppliedKeepsFit(TasksSchema, task, TaskUpdateDict(u));
  }

  /**
   * The repository's `update` of a stored task with a `TaskUpdate` always
   * commits: the task keeps its id, takes every given field, keeps every other
   * field, and its `updated_at` becomes the update time; no other task changes.
   */
  lemma UpdatePatched(rows: map<int, Row>, k: int, u: TaskUpdate, now: int)
    requires WellFormed(TasksSchema, rows) && k in rows
    ensures ExtendsBase(TasksSchema) && RowFits(TasksSchema, rows[k])
    ensures var row := Patched(rows[k], u)[UpdatedAtColumn := Time(UtcNow(now))];
      && UpdateSpec(TasksSchema, rows, rows[k], TaskUpdateDict(u), now) == UpdateOutcome(row, Ok(row), rows[k := row])
      && Get(row, IdColumn) == Int(k)
  {
    var task := rows[k];
    TasksSchemaExtendsBase();
    assert RowFits(TasksSchema, task) && Get(task, IdColumn) == Int(k);
    PatchedFits(task, u);
    UpdateCommits(TasksSchema, rows, task, TaskUpdateDict(u), now);
  }

  /**
   * `update_task` with the id of a stored task and a `TaskUpdate` returns the
   * patched task, stamped, under the same id, and stores it in place.
   */
  lemma UpdateTaskApplies(rows: map<int, Row>, u: TaskUpdate, taskId: string, now: int)
    requires WellFormed(TasksSchema, rows) && ParseInt(taskId).Some? && ParseInt(taskId).value in rows
    ensures var k := ParseInt(taskId).value;
      var row := Patched(rows[k], u)[UpdatedAtColumn := Time(UtcNow(now))];
      && UpdateTaskSpec(rows, TaskUpdateDict(u), taskId, now) == TaskOutcome(Ok(row), rows[k := row])
      && Get(row, IdColumn) == Int(k)
  {
    UpdatePatched(rows, ParseInt(taskId).value, u, now);
  }

  /** A `task_id` that is not an integer, or names no task, fails and changes nothing. */
  lemma UpdateTaskFails(rows: map<int, Row>, data: Dict, taskId: string, now: int)
    requires WellFormed(TasksSchema, rows)
    requires ParseInt(taskId).None? || ParseInt(taskId).value !in rows
    ensures UpdateTaskSpec(rows, data, taskId, now).result.Err?
    ensures UpdateTaskSpec(rows, data, taskId, now).rows == rows
  {
  }

  /** The service over one `tasks` repository. */
  class TasksService {
    const repository: Table

    ghost predicate Valid()
      reads this, repository
    {
      repository.Valid() && repository.schema == TasksSchema
    }

    constructor (repository: Table)
      requires repository.Valid() && repository.schema == TasksSchema
      ensures Valid() && this.repository == repository
    {
      this.repository := repository;
    }

    /** `get_by_filters(created_after, filters)`: forwarded unchanged, reads only. */
    method GetByFilters(createdAfter: Option<DateTime>, filters: Option<Dict>) returns (r: map<int, Row>)
      ensures r == Select(repository.rows, createdAfter, filters)
    {
      r := repository.GetByFilters(createdAfter, filters);
    }

    /** `search_tasks(search_term)`: forwarded unchanged, reads only. */
    method SearchTasks(term: string) returns (r: map<int, Row>)
      ensures r == TasksRepository.SearchTasks(repository.rows, term)
    {
      r := TasksRepository.SearchTasks(repository.rows, term);
    }

    /** `create_task(task)`: the dictionary goes to the repository's `create` as it is. */
    method CreateTask(data: Dict, now: int) returns (r: Result<Row>)
      requires Valid()
      modifies repository, repository.session
      ensures Valid()
      ensures var o := CreateSpec(TasksSchema, old(repository.rows), old(repository.nextId), data, now);
        r == o.result && repository.rows == o.rows && repository.nextId == o.nextId
    {
      r := repository.Create(data, now);
    }

    /** `update_task(data, task_id)`. */
    method UpdateTask(data: Dict, taskId: string, now: int) returns (r: Result<Row>)
      requires Valid()
      modifies repository, repository.session
      ensures Valid()
      ensures var o := UpdateTaskSpec(old(repository.rows), data, taskId, now);
        r == o.result && repository.rows == o.rows
      ensures repository.nextId == old(repository.nextId)
    {
      var id := ParseInt(taskId);
      if id.None? {
        return Err(Builtin("ValueError"));
      }
      var task := repository.Id(id.value);
      if task.Err? {
        return Err(task.error);
      }
      assert Get(task.value, IdColumn) == Int(id.value);
      var _, updated := repository.Update(task.value, data, now);
      r := updated;
    }
  }
}
