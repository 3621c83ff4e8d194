/**
 * The task enums and the request bodies of the task endpoints.
 */
module TaskSchema {
  import opened Wrappers
  import opened Records

  datatype TaskStatus = Pending | Done

  /** The member's value. */
  function StatusValue(s: TaskStatus): string {
    match s
    case Pending => "pending"
    case Done => "done"
  }

  /** `TaskStatus(v)`: the member with value `v`; `ValueError` (here `None`) for any other string. */
  function ParseStatus(v: string): (s: Option<TaskStatus>)
    ensures s.Some? ==> StatusValue(s.value) == v
  {
    if v == "pending" then Some(Pending)
    else if v == "done" then Some(Done)
    else None
  }

  /** The two values are the only ones, and each names its own member. */
  lemma StatusValues(s: TaskStatus, v: string)
    ensures ParseStatus(StatusValue(s)) == Some(s)
    ensures ParseStatus(v).Some? <==> v == "pending" || v == "done"
  {
  }

  datatype TaskPriority = Lowest | Low | Medium | High | Highest

  /** The member's value. */
  function PriorityValue(p: TaskPriority): (n: int)
    ensures 1 <= n <= 5
  {
    match p
    case Lowest => 1
    case Low => 2
    case Medium => 3
    case High => 4
    case Highest => 5
  }

  /** `TaskPriority(n)`: the member with value `n`, `None` outside 1..5. */
  function ParsePriority(n: int): (p: Option<TaskPriority>)
    ensures p.Some? ==> PriorityValue(p.value) == n
  {
    if n == 1 then Some(Lowest)
    else if n == 2 then Some(Low)
    else if n == 3 then Some(Medium)
    else if n == 4 then Some(High)
    else if n == 5 then Some(Highest)
    else None
  }

  /** Priorities are exactly the values 1 to 5, one member each. */
  lemma PriorityValues(p: TaskPriority, n: int)
    ensures ParsePriority(PriorityValue(p)) == Some(p)
    ensures ParsePriority(n).Some? <==> 1 <= n <= 5
  {
  }

  /** The declaration order LOWEST, LOW, MEDIUM, HIGH, HIGHEST. */
  function Rank(p: TaskPriority): nat {
    match p
    case Lowest => 0
    case Low => 1
    case Medium => 2
    case High => 3
    case Highest => 4
  }

  /** Values increase strictly in declaration order. */
  lemma PriorityIncreasing(p: TaskPriority, q: TaskPriority)
    ensures Rank(p) < Rank(q) <==> PriorityValue(p) < PriorityValue(q)
  {
  }

  /** A status as a column value. */
  function StatusColumnValue(s: TaskStatus): Value {
    Str(StatusValue(s))
  }

  /** A priority as a column value. */
  function PriorityColumnValue(p: TaskPriority): Value {
    Int(PriorityValue(p))
  }

  /** `None` or a string, as a column value. */
  function OptText(s: Option<string>): Value {
    if s.Some? then Str(s.value) else Null
  }

  function OptStatus(s: Option<TaskStatus>): Value {
    if s.Some? then StatusColumnValue(s.value) else Null
  }

  function OptPriority(p: Option<TaskPriority>): Value {
    if p.Some? then PriorityColumnValue(p.value) else Null
  }

  const TitleField := "title"
  const DescriptionField := "description"
  const StatusField := "status"
  const PriorityField := "priority"

  /** The body of `POST /tasks`. */
  datatype CreateTask = CreateTask(title: string, description: Option<string>, status: TaskStatus, priority: TaskPriority)

  /** `CreateTask(title=title)`: every other field takes its default. */
  function NewCreateTask(title: string): (t: CreateTask)
    ensures t.title == title && t.description.None? && t.status == Pending && t.priority == Medium
  {
    CreateTask(title, None, Pending, Medium)
  }

  /** `task.__dict__`. */
  function CreateTaskDict(t: CreateTask): (d: Dict)
    ensures |d| == 4
    ensures d[0] == (TitleField, Str(t.title)) && d[1] == (DescriptionField, OptText(t.description))
    ensures d[2] == (StatusField, StatusColumnValue(t.status)) && d[3] == (PriorityField, PriorityColumnValue(t.priority))
  {
    [(TitleField, Str(t.title)), (DescriptionField, OptText(t.description)),
     (StatusField, StatusColumnValue(t.status)), (PriorityField, PriorityColumnValue(t.priority))]
  }

  /** The body of `PUT /tasks/{task_id}`. */
  datatype TaskUpdate = TaskUpdate(title: Option<string>, description: Option<string>,
                                   status: Option<TaskStatus>, priority: Option<TaskPriority>)

  /** `TaskUpdate()`: every field defaults to `None`. */
  const EmptyTaskUpdate := TaskUpdate(None, None, None, None)

  /** `update_data.__dict__`. */
  function TaskUpdateDict(u: TaskUpdate): (d: Dict)
    ensures |d| == 4 && d[0].0 == TitleField && d[1].0 == DescriptionField && d[2].0 == StatusField && d[3].0 == PriorityField
    ensures d[0].1 == OptText(u.title) && d[1].1 == OptText(u.description)
    ensures d[2].1 == OptStatus(u.status) && d[3].1 == OptPriority(u.priority)
  {
    [(TitleField, OptText(u.title)), (DescriptionField, OptText(u.description)),
     (StatusField, OptStatus(u.status)), (PriorityField, OptPriority(u.priority))]
  }

  /** The default update carries only `None` values. */
  lemma EmptyUpdateAllNone()
    ensures forall i :: 0 <= i < |TaskUpdateDict(EmptyTaskUpdate)| ==> TaskUpdateDict(EmptyTaskUpdate)[i].1 == Null
  {
  }

  /** The filter parameters of `GET /tasks`. */
  datatype TaskFilters = TaskFilters(createdAt: Option<DateTime>, status: Option<TaskStatus>, priority: Option<TaskPriority>)

  /** `TaskFilters()`: every field defaults to `None`. */
  const NoFilters := TaskFilters(None, None, None)
}
