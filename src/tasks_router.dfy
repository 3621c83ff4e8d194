/**
 * The `/tasks` handlers. Each runs only once `get_me` has produced the caller
 * (`me`, its outcome, is a parameter), builds the argument of one service
 * call (the filter dictionary, or the body with the caller's name and id),
 * and turns every exception of that call into an `HTTPException` 500.
 */
module TasksRouter {
  import opened Wrappers
  import opened Errors
  import opened Text
  import opened Records
  import opened BaseRepository
  import opened TaskSchema
  import opened TaskModel
  import opened TasksService
  import opened Responses
  import TasksRepository
  import UserModel

  /** What a handler answers, and the committed task rows and id sequence after it. */
  datatype Routed<T> = Routed(response: Result<Response<T>>, rows: map<int, Row>, nextId: int)

  /**
   * What the client gets for `raise HTTPException(status_code=500, detail=e)`
   * in the `except Exception` of every handler. The detail is the exception
   * object itself, which FastAPI cannot render as JSON: rendering the error
   * raises in turn, and Starlette's outermost middleware answers its own
   * plain-text 500 instead. Whatever `e` was, the client sees the same
   * answer; the cause only reaches the log.
   */
  function ServerError(e: Error): (h: Error)
    ensures h == Http(500, InternalServerError) && StatusOf(h) == 500
  {
    Http(500, InternalServerError)
  }

  // ---------------------------------------------------------------- list and search

  /** The `filters` dictionary of `tasks_by_filter`: the two enum columns and the query values. */
  function FiltersOf(status: Option<TaskStatus>, priority: Option<TaskPriority>): (f: Dict)
    ensures |f| == 2 && f[0].0 == StatusField && f[1].0 == PriorityField
    ensures f[0].1 == OptStatus(status) && f[1].1 == OptPriority(priority)
  {
    [(StatusField, OptStatus(status)), (PriorityField, OptPriority(priority))]
  }

  /** `GET /tasks`: the tasks matching the query parameters. */
  function TasksByFilter(me: Result<Row>, rows: map<int, Row>, createdAt: Option<DateTime>,
                         status: Option<TaskStatus>, priority: Option<TaskPriority>): (r: Result<Response<map<int, Row>>>)
    ensures me.Err? <==> r.Err?
    ensures me.Err? ==> r.error == me.error
    ensures r.Ok? ==> r.value.status == 200 && r.value.body.Keys <= rows.Keys
  {
    if me.Err? then Err(me.error)
    else Ok(Plain(200, Select(rows, createdAt, Some(FiltersOf(status, priority)))))
  }

  /**
   * The list holds exactly the tasks whose status and priority equal the
   * parameters that were given and that were created at or after `created_at`
   * when it was given; a parameter left out imposes nothing.
   */
  lemma TasksByFilterMeaning(me: Result<Row>, rows: map<int, Row>, createdAt: Option<DateTime>,
                             status: Option<TaskStatus>, priority: Option<TaskPriority>, k: int)
    requires me.Ok?
    ensures var body := TasksByFilter(me, rows, createdAt, status, priority).value.body;
      k in body <==>
        && k in rows
        && (status.Some? ==> Get(rows[k], StatusField) == StatusColumnValue(status.value))
        && (priority.Some? ==> Get(rows[k], PriorityField) == PriorityColumnValue(priority.value))
        && (createdAt.Some? ==> Get(rows[k], CreatedAtColumn).Time? && Get(rows[k], CreatedAtColumn).t.seconds >= createdAt.value.seconds)
  {
    var f := FiltersOf(status, priority);
    if k in rows {
      assert FiltersMatch(rows[k], f) <==>
        (f[0].1 != Null ==> Get(rows[k], f[0].0) == f[0].1) && (f[1].1 != Null ==> Get(rows[k], f[1].0) == f[1].1);
    }
  }

  /** With no query parameter every task is listed. */
  lemma NoFiltersListAll(me: Result<Row>, rows: map<int, Row>)
    requires me.Ok?
    ensures TasksByFilter(me, rows, None, None, None) == Ok(Plain(200, rows))
  {
    SelectUnfiltered(rows, Some(FiltersOf(None, None)));
  }

  /** `GET /tasks/search`: the tasks whose title or description contains the term, ignoring case. */
  function SearchTasks(me: Result<Row>, rows: map<int, Row>, term: string): (r: Result<Response<map<int, Row>>>)
    ensures me.Err? <==> r.Err?
    ensures me.Err? ==> r.error == me.error
    ensures r.Ok? ==> r.value.status == 200
                      && forall k :: k in r.value.body <==> k in rows && TasksRepository.SearchMatch(rows[k], term)
  {
    if me.Err? then Err(me.error)
    else Ok(Plain(200, TasksRepository.SearchTasks(rows, term)))
  }

  // ---------------------------------------------------------------- create

  /** `{**task.__dict__, "customer_name": me.name, "user_id": me.id}`. */
  function OwnedTaskDict(task: CreateTask, me: Row): (d: Dict)
    ensures |d| == |CreateTaskDict(task)| + 2 && d[..|CreateTaskDict(task)|] == CreateTaskDict(task)
    ensures d[|d| - 2] == (CustomerNameColumn, Get(me, UserModel.NameColumn)) && d[|d| - 1] == (UserIdColumn, Get(me, IdColumn))
  {
    CreateTaskDict(task) + [(CustomerNameColumn, Get(me, UserModel.NameColumn)), (UserIdColumn, Get(me, IdColumn))]
  }

  /** The owner's name and id come from the caller, whatever the body says. */
  lemma OwnerFromCaller(task: CreateTask, me: Row)
    ensures Lookup(OwnedTaskDict(task, me), CustomerNameColumn) == Some(Get(me, UserModel.NameColumn))
    ensures Lookup(OwnedTaskDict(task, me), UserIdColumn) == Some(Get(me, IdColumn))
  {
    var owner := [(CustomerNameColumn, Get(me, UserModel.NameColumn)), (UserIdColumn, Get(me, IdColumn))];
    LookupAppend(CreateTaskDict(task), owner, CustomerNameColumn);
    LookupAppend(CreateTaskDict(task), owner, UserIdColumn);
    assert owner[..1] == [owner[0]];
    assert Lookup(owner[..1], CustomerNameColumn) == Some(owner[0].1);
  }

  /** `POST /tasks`: 201 with the stored task. */
  function CreateTasks(me: Result<Row>, rows: map<int, Row>, nextId: int, task: CreateTask, now: int): (o: Routed<Row>)
    ensures me.Err? ==> o == Routed(Err(me.error), rows, nextId)
    ensures me.Ok? ==> var c := CreateSpec(TasksSchema, rows, nextId, OwnedTaskDict(task, me.value), now);
      && o.rows == c.rows && o.nextId == c.nextId
      && (o.response.Ok? <==> c.result.Ok?)
      && (o.response.Ok? ==> o.response.value == Plain(201, c.result.value))
      && (o.response.Err? ==> o.response.error == ServerError(c.result.error))
  {
    TasksSchemaExtendsBase();
    if me.Err? then Routed(Err(me.error), rows, nextId)
    else
      var c := CreateSpec(TasksSchema, rows, nextId, OwnedTaskDict(task, me.value), now);
      match c.result
      case Ok(t) => Routed(Ok(Plain(201, t)), c.rows, c.nextId)
      case Err(e) => Routed(Err(ServerError(e)), c.rows, c.nextId)
  }

  /** The keys of the dictionary `POST /tasks` builds are the six columns it fills, all different. */
  lemma OwnedKeys(task: CreateTask, me: Row)
    ensures var d := OwnedTaskDict(task, me);
      && |d| == 6
      && d[0].0 == TitleField && d[1].0 == DescriptionField && d[2].0 == StatusField
      && d[3].0 == PriorityField && d[4].0 == CustomerNameColumn && d[5].0 == UserIdColumn
      && (forall i, j :: 0 <= i < j < |d| ==> d[i].0 != d[j].0)
      && forall i :: 0 <= i < |d| ==> d[i].0 != IdColumn && d[i].0 != CreatedAtColumn && d[i].0 != UpdatedAtColumn
  {
    var d := OwnedTaskDict(task, me);
    var lengths := [5, 11, 6, 8, 13, 7];
    assert forall i :: 0 <= i < |d| ==> |d[i].0| == lengths[i];
    assert |IdColumn| == 2 && |CreatedAtColumn| == 10 && |UpdatedAtColumn| == 10;
  }

  /** What the dictionary holds under each column the INSERT reads. */
  lemma OwnedLookups(task: CreateTask, me: Row)
    ensures var d := OwnedTaskDict(task, me);
      && Lookup(d, TitleField) == Some(Str(task.title)) && Lookup(d, DescriptionField) == Some(OptText(task.description))
      && Lookup(d, StatusField) == Some(StatusColumnValue(task.status))
      && Lookup(d, PriorityField) == Some(PriorityColumnValue(task.priority))
      && Lookup(d, CustomerNameColumn) == Some(Get(me, UserModel.NameColumn))
      && Lookup(d, UserIdColumn) == Some(Get(me, IdColumn))
      && Lookup(d, IdColumn).None? && Lookup(d, CreatedAtColumn).None? && Lookup(d, UpdatedAtColumn).None?
  {
    var d := OwnedTaskDict(task, me);
    OwnedKeys(task, me);
    forall i | 0 <= i < |d|
      ensures Lookup(d, d[i].0) == Some(d[i].1)
    {
      LookupUnique(d, i);
    }
  }

  /**
   * The row `POST /tasks` inserts takes the next id of the sequence and the
   * body's title, status and priority.
   */
  lemma OwnedTaskRow(task: CreateTask, me: Row, nextId: int, now: int)
    ensures ExtendsBase(TasksSchema)
    ensures var r := Inserted(TasksSchema, OwnedTaskDict(task, me), nextId, now);
      && Get(r, IdColumn) == Int(nextId) && Get(r, TitleField) == Str(task.title)
      && Get(r, StatusField) == StatusColumnValue(task.status) && Get(r, PriorityField) == PriorityColumnValue(task.priority)
  {
    TasksSchemaExtendsBase();
    TaskFieldsWritable();
    var d := OwnedTaskDict(task, me);
    OwnedLookups(task, me);
    InsertedId(TasksSchema, d, nextId, now);
    InsertedGiven(TasksSchema, d, nextId, now, TitleField, Str(task.title));
    InsertedGiven(TasksSchema, d, nextId, now, StatusField, StatusColumnValue(task.status));
    InsertedGiven(TasksSchema, d, nextId, now, PriorityField, PriorityColumnValue(task.priority));
  }

  /** The description is the body's; one left out is NULL, as the column has no default. */
  lemma OwnedTaskDescription(task: CreateTask, me: Row, nextId: int, now: int)
    ensures ExtendsBase(TasksSchema)
    ensures Get(Inserted(TasksSchema, OwnedTaskDict(task, me), nextId, now), DescriptionField) == OptText(task.description)
  {
    TasksSchemaExtendsBase();
    var d := OwnedTaskDict(task, me);
    OwnedLookups(task, me);
    assert TasksSchema.defaults.Keys == {StatusField, PriorityField};
    assert |DescriptionField| == 11 && |StatusField| == 6 && |PriorityField| == 8;
    assert |CreatedAtColumn| == 10 && |UpdatedAtColumn| == 10 && |IdColumn| == 2;
    assert DescriptionField !in TasksSchema.defaults;
    InsertedColumn(TasksSchema, d, nextId, now, DescriptionField);
    assert NotGiven(d, DescriptionField) <==> task.description.None?;
  }

  /** The owner is the caller: its name and its id. */
  lemma OwnedTaskOwner(task: CreateTask, me: Row, nextId: int, now: int)
    ensures ExtendsBase(TasksSchema)
    ensures var r := Inserted(TasksSchema, OwnedTaskDict(task, me), nextId, now);
      Get(r, CustomerNameColumn) == Get(me, UserModel.NameColumn) && Get(r, UserIdColumn) == Get(me, IdColumn)
  {
    TasksSchemaExtendsBase();
    var d := OwnedTaskDict(task, me);
    OwnedLookups(task, me);
    assert TasksSchema.defaults.Keys == {StatusField, PriorityField};
    assert |CustomerNameColumn| == 13 && |UserIdColumn| == 7 && |StatusField| == 6 && |PriorityField| == 8;
    assert |CreatedAtColumn| == 10 && |UpdatedAtColumn| == 10 && |IdColumn| == 2;
    assert CustomerNameColumn !in TasksSchema.defaults && UserIdColumn !in TasksSchema.defaults;
    InsertedColumn(TasksSchema, d, nextId, now, CustomerNameColumn);
    InsertedColumn(TasksSchema, d, nextId, now, UserIdColumn);
    assert NotGiven(d, CustomerNameColumn) <==> Get(me, UserModel.NameColumn) == Null;
    assert NotGiven(d, UserIdColumn) <==> Get(me, IdColumn) == Null;
  }

  /** Both timestamps of a new task are the time of the request. */
  lemma OwnedTaskStamped(task: CreateTask, me: Row, nextId: int, now: int)
    ensures ExtendsBase(TasksSchema)
    ensures var r := Inserted(TasksSchema, OwnedTaskDict(task, me), nextId, now);
      Get(r, CreatedAtColumn) == Time(UtcNow(now)) && Get(r, UpdatedAtColumn) == Time(UtcNow(now))
  {
    TasksSchemaExtendsBase();
    var d := OwnedTaskDict(task, me);
    OwnedLookups(task, me);
    assert TasksSchema.defaults.Keys == {StatusField, PriorityField};
    assert |CreatedAtColumn| == 10 && |UpdatedAtColumn| == 10 && |StatusField| == 6 && |PriorityField| == 8 && |IdColumn| == 2;
    InsertedColumn(TasksSchema, d, nextId, now, CreatedAtColumn);
    InsertedColumn(TasksSchema, d, nextId, now, UpdatedAtColumn);
  }

  /** A caller stored with a name and an id makes every value of the dictionary fit its column. */
  lemma OwnedTaskTyped(task: CreateTask, me: Row)
    requires Get(me, UserModel.NameColumn).Str? && Get(me, IdColumn).Int?
    ensures DataTyped(TasksSchema, OwnedTaskDict(task, me))
  {
    var d := OwnedTaskDict(task, me);
    OwnedKeys(task, me);
    EnumColumns(d[2].1);
    EnumColumns(d[3].1);
    assert forall i :: 0 <= i < |d| ==> d[i].0 in TasksSchema.types;
  }

  /** A task row with its eight columns other than the id set leaves no NOT NULL column but the id empty. */
  lemma TaskFilled(r: Row)
    requires Get(r, CreatedAtColumn) != Null && Get(r, UpdatedAtColumn) != Null
    requires Get(r, CustomerNameColumn) != Null && Get(r, TitleField) != Null && Get(r, DescriptionField) != Null
    requires Get(r, StatusField) != Null && Get(r, PriorityField) != Null && Get(r, UserIdColumn) != Null
    ensures forall c :: c in TasksSchema.notNull && c != IdColumn ==> Get(r, c) != Null
  {
  }

  /** The body cannot set the id: the sequence supplies it. */
  lemma OwnedTaskNoId(task: CreateTask, me: Row, now: int)
    ensures InitialValue(TasksSchema, OwnedTaskDict(task, me), IdColumn, now) == Null
  {
    OwnedKeys(task, me);
    assert Lookup(OwnedTaskDict(task, me), IdColumn).None?;
    assert IdColumn !in TasksSchema.defaults by {
      assert TasksSchema.defaults.Keys == {StatusField, PriorityField};
      assert |IdColumn| == 2 && |StatusField| == 6 && |PriorityField| == 8;
    }
    assert |IdColumn| == 2 && |CreatedAtColumn| == 10 && |UpdatedAtColumn| == 10;
  }

  /**
   * With a caller that has a name and an id, and a description, the dictionary
   * fills every NOT NULL column but the id, which the sequence supplies.
   */
  lemma OwnedTaskFilled(task: CreateTask, me: Row, nextId: int, now: int)
    requires Get(me, UserModel.NameColumn).Str? && Get(me, IdColumn).Int? && task.description.Some?
    ensures ExtendsBase(TasksSchema)
    ensures forall c :: c in TasksSchema.notNull && c != IdColumn ==> InitialValue(TasksSchema, OwnedTaskDict(task, me), c, now) != Null
  {
    var d := OwnedTaskDict(task, me);
    var r := Inserted(TasksSchema, d, nextId, now);
    TasksSchemaExtendsBase();
    OwnedTaskRow(task, me, nextId, now);
    OwnedTaskDescription(task, me, nextId, now);
    OwnedTaskOwner(task, me, nextId, now);
    OwnedTaskStamped(task, me, nextId, now);
    TaskFilled(r);
    InsertedFilled(TasksSchema, d, nextId, now);
  }

  /**
   * `POST /tasks` by a caller stored with a name and an id, with a description,
   * answers 201 with the new task, which is stored under the next id of the
   * sequence; the sequence moves on and no other task changes.
   */
  lemma CreateTasksStores(me: Row, rows: map<int, Row>, nextId: int, task: CreateTask, now: int)
    requires Get(me, UserModel.NameColumn).Str? && Get(me, IdColumn).Int?
    requires task.description.Some? && nextId !in rows
    ensures ExtendsBase(TasksSchema)
    ensures var r := Inserted(TasksSchema, OwnedTaskDict(task, me), nextId, now);
      CreateTasks(Ok(me), rows, nextId, task, now) == Routed(Ok(Plain(201, r)), rows[nextId := r], nextId + 1)
  {
    var d := OwnedTaskDict(task, me);
    TasksSchemaExtendsBase();
    OwnedTaskTyped(task, me);
    OwnedTaskNoId(task, me, now);
    OwnedTaskFilled(task, me, nextId, now);
    CreateCommits(TasksSchema, rows, nextId, d, now);
  }

  /** Without a description the repository's `create` raises `IntegrityError`. */
  lemma OwnedTaskRefused(me: Row, rows: map<int, Row>, nextId: int, task: CreateTask, now: int)
    requires Get(me, UserModel.NameColumn).Str? && Get(me, IdColumn).Int?
    requires task.description.None?
    ensures ExtendsBase(TasksSchema)
    ensures CreateSpec(TasksSchema, rows, nextId, OwnedTaskDict(task, me), now)
         == CreateOutcome(Err(Database(IntegrityError)), rows, nextId + 1)
  {
    var d := OwnedTaskDict(task, me);
    var r := Inserted(TasksSchema, d, nextId, now);
    TasksSchemaExtendsBase();
    OwnedTaskTyped(task, me);
    OwnedTaskNoId(task, me, now);
    OwnedTaskDescription(task, me, nextId, now);
    InsertedTyped(TasksSchema, d, nextId, now);
    assert !UnknownKey(TasksSchema, d);
    assert DescriptionField in TasksSchema.notNull && Get(r, DescriptionField) == Null;
    CreateIntegrityError(TasksSchema, rows, nextId, d, now);
  }

  /**
   * The request body lets the description be left out, but the column is NOT
   * NULL: such a `POST /tasks` fails the INSERT with `IntegrityError`, answered
   * with the plain 500; no task is stored, and the id drawn from the sequence
   * is spent.
   */
  lemma CreateTasksWithoutDescription(me: Row, rows: map<int, Row>, nextId: int, task: CreateTask, now: int)
    requires Get(me, UserModel.NameColumn).Str? && Get(me, IdColumn).Int?
    requires task.description.None?
    ensures CreateSpec(TasksSchema, rows, nextId, OwnedTaskDict(task, me), now).result == Err(Database(IntegrityError))
    ensures CreateTasks(Ok(me), rows, nextId, task, now) == Routed(Err(Http(500, InternalServerError)), rows, nextId + 1)
  {
    OwnedTaskRefused(me, rows, nextId, task, now);
  }

  /**
   * Whatever the caller sends, `POST /tasks` keeps the stored tasks well
   * formed; a failure stores nothing and answers 500, a success answers 201
   * with the one new task, stored under a key no task had.
   */
  lemma CreateTasksAddsOne(me: Result<Row>, rows: map<int, Row>, nextId: int, task: CreateTask, now: int)
    requires WellFormed(TasksSchema, rows)
    ensures var o := CreateTasks(me, rows, nextId, task, now);
      && WellFormed(TasksSchema, o.rows)
      && (o.response.Err? ==> o.rows == rows && (me.Ok? ==> StatusOf(o.response.error) == 500))
      && (o.response.Ok? ==>
            var t := o.response.value.body;
            && o.response.value.status == 201 && Get(t, IdColumn).Int?
            && t[IdColumn].i !in rows && o.rows == rows[t[IdColumn].i := t] && |o.rows| == |rows| + 1)
  {
    TasksSchemaExtendsBase();
    if me.Ok? {
      CreateAddsOneRow(TasksSchema, rows, nextId, OwnedTaskDict(task, me.value), now);
    }
  }

  // ---------------------------------------------------------------- update

  /** What `PUT /tasks/{task_id}` answers, and the committed task rows after it. */
  datatype Answered<T> = Answered(response: Result<Response<T>>, rows: map<int, Row>)

  /** `PUT /tasks/{task_id}`: 200 with the updated task. */
  function UpdateTask(me: Result<Row>, rows: map<int, Row>, taskId: string, u: TaskUpdate, now: int): (o: Answered<Row>)
    requires WellFormed(TasksSchema, rows)
    ensures WellFormed(TasksSchema, o.rows)
    ensures me.Err? ==> o == Answered(Err(me.error), rows)
    ensures o.response.Err? ==> o.rows == rows
    ensures me.Ok? ==> var s := UpdateTaskSpec(rows, TaskUpdateDict(u), taskId, now);
      && o.rows == s.rows
      && (o.response.Ok? <==> s.result.Ok?)
      && (o.response.Ok? ==> o.response.value == Plain(200, s.result.value))
      && (o.response.Err? ==> o.response.error == ServerError(s.result.error))
  {
    if me.Err? then Answered(Err(me.error), rows)
    else
      var s := UpdateTaskSpec(rows, TaskUpdateDict(u), taskId, now);
      match s.result
      case Ok(t) => Answered(Ok(Plain(200, t)), s.rows)
      case Err(e) => Answered(Err(ServerError(e)), s.rows)
  }

  /**
   * `PUT /tasks/{task_id}` on a stored task answers 200 with the task under
   * the same id, every field the body gives replaced, every other field kept,
   * and `updated_at` set to the time of the request; that task is stored in
   * place of the old one and no other task changes.
   */
  lemma UpdateTaskResponds(me: Row, rows: map<int, Row>, taskId: string, u: TaskUpdate, now: int)
    requires WellFormed(TasksSchema, rows) && ParseInt(taskId).Some? && ParseInt(taskId).value in rows
    ensures var k := ParseInt(taskId).value;
      var row := Patched(rows[k], u)[UpdatedAtColumn := Time(UtcNow(now))];
      && UpdateTask(Ok(me), rows, taskId, u, now) == Answered(Ok(Plain(200, row)), rows[k := row])
      && Get(row, IdColumn) == Int(k)
  {
    UpdateTaskApplies(rows, u, taskId, now);
  }

  /** A `task_id` that is not an integer raises `ValueError`, answered with the plain 500, and no task changes. */
  lemma UpdateTaskNotInteger(me: Row, rows: map<int, Row>, taskId: string, u: TaskUpdate, now: int)
    requires WellFormed(TasksSchema, rows) && ParseInt(taskId).None?
    ensures UpdateTaskSpec(rows, TaskUpdateDict(u), taskId, now).result == Err(Builtin("ValueError"))
    ensures UpdateTask(Ok(me), rows, taskId, u, now) == Answered(Err(Http(500, InternalServerError)), rows)
  {
  }

  /** A `task_id` that names no task raises the not-found error, answered with the plain 500, and no task changes. */
  lemma UpdateTaskMissing(me: Row, rows: map<int, Row>, taskId: string, u: TaskUpdate, now: int)
    requires WellFormed(TasksSchema, rows) && ParseInt(taskId).Some? && ParseInt(taskId).value !in rows
    ensures UpdateTaskSpec(rows, TaskUpdateDict(u), taskId, now).result == Err(NotFound())
    ensures UpdateTask(Ok(me), rows, taskId, u, now) == Answered(Err(Http(500, InternalServerError)), rows)
  {
  }
}
