/**
 * The `tasks` table and its repository: create with a fresh id and status
 * pending, lookup by id, owner- and status-filtered listing, partial update of
 * the fields a request sent, and delete.
 */
module TaskRepo {
  import opened Wrappers
  import opened TaskDto

  /** The exceptions raised on task requests. */
  datatype TaskError =
    | TaskNotFound          // no row with the requested id
    | TaskAccessForbidden   // the row belongs to another user
    | NotNullViolation      // an update set a non-nullable column (title, status) to null

  /** The listing filter: the owner, and the status when one is given. */
  predicate Matches(t: Task, ownerId: int, status: Option<TaskStatus>) {
    t.ownerId == ownerId && (status.None? || t.status == status.value)
  }

  /** The matching rows with ids in `[lo, hi)`, in ascending id order. */
  function Select(rows: map<int, Task>, lo: int, hi: int, ownerId: int, status: Option<TaskStatus>): (r: seq<Task>)
    requires forall id :: id in rows ==> rows[id].id == id
    ensures forall i :: 0 <= i < |r| ==>
      lo <= r[i].id < hi && r[i].id in rows && rows[r[i].id] == r[i] && Matches(r[i], ownerId, status)
    ensures forall id :: lo <= id < hi && id in rows && Matches(rows[id], ownerId, status) ==> rows[id] in r
    ensures forall i, j :: 0 <= i < j < |r| ==> r[i].id < r[j].id
    decreases hi - lo
  {
    if lo >= hi then []
    else
      (if lo in rows && Matches(rows[lo], ownerId, status) then [rows[lo]] else [])
      + Select(rows, lo + 1, hi, ownerId, status)
  }

  /** One `(field, value)` pair of the update body's `model_dump(exclude_unset=True)`. */
  datatype Assignment =
    | SetTitle(title: Option<string>)
    | SetDescription(description: Option<string>)
    | SetStatus(status: Option<TaskStatus>)

  /** The fields the update body was sent with, in declaration order, with their values. */
  function SentFields(u: TaskUpdate): (r: seq<Assignment>)
    ensures |r| == Sent(u.title) + Sent(u.description) + Sent(u.status)
    ensures forall i :: 0 <= i < |r| ==> AssignmentSent(u, r[i])
    ensures forall i, j :: 0 <= i < j < |r| ==> Rank(r[i]) < Rank(r[j])
  {
    (if u.title.Present? then [SetTitle(u.title.value)] else [])
    + (if u.description.Present? then [SetDescription(u.description.value)] else [])
    + (if u.status.Present? then [SetStatus(u.status.value)] else [])
  }

  /** 1 for a field the body was sent with, 0 for one left out. */
  function Sent<T>(f: Field<T>): nat {
    if f.Present? then 1 else 0
  }

  /** The assignment sets a field the body was sent with, to the value sent. */
  predicate AssignmentSent(u: TaskUpdate, x: Assignment) {
    match x
    case SetTitle(v) => u.title == Present(v)
    case SetDescription(v) => u.description == Present(v)
    case SetStatus(v) => u.status == Present(v)
  }

  /** The position of the assigned field in the update body. */
  function Rank(x: Assignment): nat {
    match x
    case SetTitle(_) => 0
    case SetDescription(_) => 1
    case SetStatus(_) => 2
  }

  /**
   * The attributes of a loaded task instance. Between an assignment and the
   * commit, a non-nullable column may hold null.
   */
  datatype Attributes = Attributes(title: Option<string>, description: Option<string>, status: Option<TaskStatus>)

  function AttributesOf(t: Task): Attributes {
    Attributes(Some(t.title), t.description, Some(t.status))
  }

  /** `setattr(task, key, value)`: the named attribute takes the value, the other two keep theirs. */
  function SetAttribute(a: Attributes, x: Assignment): (b: Attributes)
    ensures b.title == (if x.SetTitle? then x.title else a.title)
    ensures b.description == (if x.SetDescription? then x.description else a.description)
    ensures b.status == (if x.SetStatus? then x.status else a.status)
  {
    match x
    case SetTitle(v) => a.(title := v)
    case SetDescription(v) => a.(description := v)
    case SetStatus(v) => a.(status := v)
  }

  /** The attributes after the assignments, applied first to last. */
  function SetAll(a: Attributes, xs: seq<Assignment>): Attributes
    decreases |xs|
  {
    if xs == [] then a else SetAttribute(SetAll(a, xs[..|xs| - 1]), xs[|xs| - 1])
  }

  /** Field by field: a field the request sent takes the sent value, any other keeps its value. */
  function Patched(t: Task, u: TaskUpdate): Attributes {
    Attributes(
      if u.title.Present? then u.title.value else Some(t.title),
      if u.description.Present? then u.description.value else t.description,
      if u.status.Present? then u.status.value else Some(t.status))
  }

  /** Assigning the sent fields one by one gives exactly the field-by-field patch. */
  lemma SentFieldsArePatched(t: Task, u: TaskUpdate)
    ensures SetAll(AttributesOf(t), SentFields(u)) == Patched(t, u)
  {
    var a := AttributesOf(t);
    var xt := if u.title.Present? then [SetTitle(u.title.value)] else [];
    var xd := if u.description.Present? then [SetDescription(u.description.value)] else [];
    var xs := if u.status.Present? then [SetStatus(u.status.value)] else [];
    var at := SetAll(a, xt);
    assert at == a.(title := if u.title.Present? then u.title.value else a.title) by {
      if u.title.Present? { assert xt[..0] == []; assert SetAll(a, xt[..0]) == a; }
    }
    var ad := SetAll(a, xt + xd);
    assert ad == at.(description := if u.description.Present? then u.description.value else at.description) by {
      if u.description.Present? { assert (xt + xd)[..|xt + xd| - 1] == xt; } else { assert xt + xd == xt; }
    }
    assert SentFields(u) == xt + xd + xs;
    assert SetAll(a, xt + xd + xs) == ad.(status := if u.status.Present? then u.status.value else ad.status) by {
      if u.status.Present? { assert (xt + xd + xs)[..|xt + xd + xs| - 1] == xt + xd; } else { assert xt + xd + xs == xt + xd; }
    }
  }

  /**
   * The row an update commits, or the NOT NULL violation its commit raises
   * when the request set the title or the status to null. The id and the owner
   * never change; a field the request left out keeps its value.
   */
  function Committed(t: Task, u: TaskUpdate): (r: Result<Task, TaskError>)
    ensures r.Failure? <==> u.title == Present(None) || u.status == Present(None)
    ensures r.Failure? ==> r.error == NotNullViolation
    ensures r.Success? ==> r.value.id == t.id && r.value.ownerId == t.ownerId
    ensures r.Success? ==> r.value.title == if u.title.Present? then u.title.value.value else t.title
    ensures r.Success? ==> r.value.description == if u.description.Present? then u.description.value else t.description
    ensures r.Success? ==> r.value.status == if u.status.Present? then u.status.value.value else t.status
  {
    var a := Patched(t, u);
    if a.title.None? || a.status.None? then Failure(NotNullViolation)
    else Success(Task(t.id, a.title.value, a.description, a.status.value, t.ownerId))
  }

  /** An update that sends nothing commits the row as it was. */
  lemma NoChangesCommitsSameRow(t: Task)
    ensures Committed(t, NoChanges) == Success(t)
  {
  }

  /** Sending the same update twice has the effect of sending it once. */
  lemma CommitIdempotent(t: Task, u: TaskUpdate)
    requires Committed(t, u).Success?
    ensures Committed(Committed(t, u).value, u) == Committed(t, u)
  {
  }

  /** A validated update keeps a valid title valid. */
  lemma CommitKeepsTitleValid(t: Task, u: TaskUpdate)
    requires ValidTitle(t.title) && ValidTaskUpdate(u)
    requires Committed(t, u).Success?
    ensures ValidTitle(Committed(t, u).value.title)
  {
  }

  /** The `setattr` loop of `update`: assign each sent field in turn. */
  method AssignAll(a: Attributes, items: seq<Assignment>) returns (b: Attributes)
    ensures b == SetAll(a, items)
  {
    b := a;
    for i := 0 to |items|
      invariant b == SetAll(a, items[..i])
    {
      assert items[..i + 1][..i] == items[..i];
      b := SetAttribute(b, items[i]);
    }
    assert items[..|items|] == items;
  }

  /** The `tasks` table: rows keyed by id, and the next id the table will assign. */
  class TaskRepository {
    var rows: map<int, Task>
    var nextId: int

    /** Every row sits under its own id, below the next id, and has a valid title. */
    ghost predicate Valid()
      reads this
    {
      && nextId >= 1
      && forall id :: id in rows ==> 1 <= id < nextId && rows[id].id == id && ValidTitle(rows[id].title)
    }

    constructor ()
      ensures Valid() && rows == map[] && nextId == 1
    {
      rows := map[];
      nextId := 1;
    }

    /** `create`: a new row with a fresh id, the given owner and data, and status pending. */
    method Create(data: TaskCreate, ownerId: int) returns (t: Task)
      requires Valid() && ValidTaskCreate(data)
      modifies this
      ensures Valid()
      ensures t == Task(old(nextId), data.title, data.description, Pending, ownerId)
      ensures t.id !in old(rows) && rows == old(rows)[t.id := t] && nextId == old(nextId) + 1
    {
      t := Task(nextId, data.title, data.description, Pending, ownerId);
      rows := rows[nextId := t];
      nextId := nextId + 1;
    }

    /** `get_by_id`: the stored row, or `TaskNotFound`. */
    function GetById(taskId: int): (r: Result<Task, TaskError>)
      reads this
      ensures r.Success? <==> taskId in rows
      ensures r.Success? ==> r.value == rows[taskId]
      ensures r.Failure? ==> r.error == TaskNotFound
      ensures Valid() && r.Success? ==> r.value.id == taskId
    {
      if taskId in rows then Success(rows[taskId]) else Failure(TaskNotFound)
    }

    /**
     * `get_all_for_user`: all and only the rows of the owner, with the given
     * status when one is given, each once, in ascending id order.
     */
    function GetAllForUser(ownerId: int, status: Option<TaskStatus>): (r: seq<Task>)
      reads this
      requires Valid()
      ensures forall i :: 0 <= i < |r| ==> r[i].id in rows && rows[r[i].id] == r[i] && Matches(r[i], ownerId, status)
      ensures forall id :: id in rows && Matches(rows[id], ownerId, status) ==> rows[id] in r
      ensures forall i, j :: 0 <= i < j < |r| ==> r[i].id < r[j].id
    {
      Select(rows, 1, nextId, ownerId, status)
    }

    /**
     * `update`: load the row, assign the fields the request sent, commit.
     * A missing row raises `TaskNotFound`; a commit that would store null in
     * a non-nullable column raises and stores nothing.
     */
    method Update(taskId: int, u: TaskUpdate) returns (r: Result<Task, TaskError>)
      requires Valid() && ValidTaskUpdate(u)
      modifies this
      ensures Valid() && nextId == old(nextId)
      ensures taskId !in old(rows) ==> r == Failure(TaskNotFound)
      ensures taskId in old(rows) ==> r == Committed(old(rows)[taskId], u)
      ensures r.Success? ==> rows == old(rows)[taskId := r.value]
      ensures r.Failure? ==> rows == old(rows)
    {
      var found := GetById(taskId);
      if found.Failure? {
        return Failure(found.error);
      }
      var task := found.value;
      var attrs := AssignAll(AttributesOf(task), SentFields(u));
      SentFieldsArePatched(task, u);
      if attrs.title.None? || attrs.status.None? {
        return Failure(NotNullViolation);
      }
      var updated := Task(task.id, attrs.title.value, attrs.description, attrs.status.value, task.ownerId);
      CommitKeepsTitleValid(task, u);
      rows := rows[taskId := updated];
      r := Success(updated);
    }

    /** `delete`: remove the row, or raise `TaskNotFound` and remove nothing. */
    method Delete(taskId: int) returns (r: Result<(), TaskError>)
      requires Valid()
      modifies this
      ensures Valid() && nextId == old(nextId)
      ensures r.Success? <==> taskId in old(rows)
      ensures r.Failure? ==> r.error == TaskNotFound
      ensures rows == old(rows) - {taskId}
    {
      var found := GetById(taskId);
      if found.Failure? {
        return Failure(found.error);
      }
      rows := rows - {taskId};
      r := Success(());
    }
  }
}
