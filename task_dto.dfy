/**
 * Tasks: the status enumeration, the stored task record, and the request and
 * response bodies of task endpoints with their field constraints.
 */
module TaskDto {
  import opened Wrappers

  /** The three statuses a task can be in. */
  datatype TaskStatus = Pending | InProgress | Done

  /** The enumeration member's value, as it appears in request and response bodies. */
  function StatusValue(s: TaskStatus): string {
    match s
    case Pending => "pending"
    case InProgress => "in_progress"
    case Done => "done"
  }

  /** Looking a member up by its value, `TaskStatus(v)`; `None` where that raises. */
  function StatusOf(v: string): (r: Option<TaskStatus>)
    ensures r.Some? ==> StatusValue(r.value) == v
    ensures r.None? ==> forall s: TaskStatus :: StatusValue(s) != v
  {
    if v == "pending" then Some(Pending)
    else if v == "in_progress" then Some(InProgress)
    else if v == "done" then Some(Done)
    else None
  }

  const MaxTitleLength := 255

  predicate ValidTitle(title: string) {
    1 <= |title| <= MaxTitleLength
  }

  /** A stored task row: id, title, optional description, status and owner. */
  datatype Task = Task(id: int, title: string, description: Option<string>, status: TaskStatus, ownerId: int)

  /**
   * One field of a request body: left out, or given (possibly as JSON null).
   * Keeping "left out" apart from "given as null" is what lets an update
   * change only the fields the client sent.
   */
  datatype Field<+T> = Absent | Present(value: T)

  /** The body of a create request. */
  datatype TaskCreate = TaskCreate(title: string, description: Option<string>)

  predicate ValidTaskCreate(c: TaskCreate) {
    ValidTitle(c.title)
  }

  /** The body of an update request: every field may be left out or be null. */
  datatype TaskUpdate = TaskUpdate(
    title: Field<Option<string>>,
    description: Field<Option<string>>,
    status: Field<Option<TaskStatus>>)

  predicate ValidTaskUpdate(u: TaskUpdate) {
    TitleInputOk(u.title)
  }

  /** An update that sends no field at all. */
  const NoChanges := TaskUpdate(Absent, Absent, Absent)

  /** A task as returned by the endpoints: a row whose title satisfies the constraints. */
  type TaskDTO = t: Task | ValidTitle(t.title) witness Task(1, "task", None, Pending, 1)

  /** Validating a stored row as a response body, `None` where validation raises. */
  function ToDto(t: Task): (r: Option<TaskDTO>)
    ensures r.Some? <==> ValidTitle(t.title)
    ensures r.Some? ==> r.value == t
  {
    if ValidTitle(t.title) then Some(t) else None
  }

  predicate TitleInputOk(title: Field<Option<string>>) {
    title.Present? && title.value.Some? ==> ValidTitle(title.value.value)
  }

  predicate StatusInputOk(status: Field<Option<string>>) {
    status.Present? && status.value.Some? ==> StatusOf(status.value.value).Some?
  }

  /**
   * Building a create body from the JSON fields `title` and `description`
   * (each absent, null or a string). The title is required, must be a string
   * and be 1 to 255 characters long; the description defaults to null.
   * A failure lists the offending fields.
   */
  function ParseTaskCreate(title: Field<Option<string>>, description: Field<Option<string>>): (r: Result<TaskCreate, seq<string>>)
    ensures r.Success? <==> title.Present? && title.value.Some? && ValidTitle(title.value.value)
    ensures r.Success? ==> ValidTaskCreate(r.value) && r.value.title == title.value.value
    ensures r.Success? ==> r.value.description == if description.Present? then description.value else None
    ensures r.Failure? ==> r.error == ["title"]
  {
    if title.Present? && title.value.Some? && ValidTitle(title.value.value) then
      Success(TaskCreate(title.value.value, if description.Present? then description.value else None))
    else
      Failure(["title"])
  }

  /**
   * Building an update body from the JSON fields `title`, `description` and
   * `status`. Every field is optional and may be null; a title that is a
   * string must be 1 to 255 characters long, and a status that is a string
   * must be one of the enumeration's values. Which fields were sent is kept.
   */
  function ParseTaskUpdate(title: Field<Option<string>>, description: Field<Option<string>>, status: Field<Option<string>>): (r: Result<TaskUpdate, seq<string>>)
    ensures r.Success? <==> TitleInputOk(title) && StatusInputOk(status)
    ensures r.Failure? ==> r.error == (if TitleInputOk(title) then [] else ["title"])
                                      + (if StatusInputOk(status) then [] else ["status"])
    ensures r.Success? ==> ValidTaskUpdate(r.value)
    ensures r.Success? ==> r.value.title == title && r.value.description == description
    ensures r.Success? ==> (r.value.status.Present? <==> status.Present?)
    ensures r.Success? && status.Present? ==> (r.value.status.value.Some? <==> status.value.Some?)
    ensures r.Success? && status.Present? && status.value.Some? ==>
      StatusValue(r.value.status.value.value) == status.value.value
  {
    if !(TitleInputOk(title) && StatusInputOk(status)) then
      Failure((if TitleInputOk(title) then [] else ["title"]) + (if StatusInputOk(status) then [] else ["status"]))
    else
      var s: Field<Option<TaskStatus>> :=
        match status
        case Absent => Absent
        case Present(None) => Present(None)
        case Present(Some(v)) => Present(StatusOf(v));
      Success(TaskUpdate(title, description, s))
  }
}
