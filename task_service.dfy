/**
 * Task service: listing and creating a user's tasks, and updating and
 * deleting a task only on behalf of its owner. Every update or delete first
 * loads that task (a missing task raises `TaskNotFound`) and then compares its
 * owner with the requester (a mismatch raises `TaskAccessForbidden`) before
 * anything is changed.
 */
module TaskSvc {
  import opened Wrappers
  import opened TaskDto
  import opened TaskRepo

  /**
   * The ownership gate in front of every change: a lookup's failure passes
   * through, a task of another user is forbidden, the owner's task goes on.
   */
  function Authorize(found: Result<Task, TaskError>, userId: int): (r: Result<Task, TaskError>)
    ensures r.Success? <==> found.Success? && found.value.ownerId == userId
    ensures r.Success? ==> r == found
    ensures found.Failure? ==> r == found
    ensures found.Success? && found.value.ownerId != userId ==> r == Failure(TaskAccessForbidden)
  {
    if found.Failure? then found
    else if found.value.ownerId != userId then Failure(TaskAccessForbidden)
    else found
  }

  class TaskService {
    const repo: TaskRepository

    constructor (repo: TaskRepository)
      ensures this.repo == repo
    {
      this.repo := repo;
    }

    /**
     * `get_tasks_for_user`: one response body per task the repository lists
     * for the user and status, in the repository's order.
     */
    function GetTasksForUser(userId: int, status: Option<TaskStatus>): (r: seq<TaskDTO>)
      reads repo
      requires repo.Valid()
      ensures |r| == |repo.GetAllForUser(userId, status)|
      ensures forall i :: 0 <= i < |r| ==> r[i] == repo.GetAllForUser(userId, status)[i]
      ensures forall i :: 0 <= i < |r| ==> r[i].ownerId == userId && (status.None? || r[i].status == status.value)
    {
      var tasks := repo.GetAllForUser(userId, status);
      assert forall i :: 0 <= i < |tasks| ==> ValidTitle(tasks[i].title);
      seq(|tasks|, i requires 0 <= i < |tasks| => ToDto(tasks[i]).value)
    }

    /** `create_task_for_user`: the new task is owned by the requesting user and pending. */
    method CreateTaskForUser(data: TaskCreate, userId: int) returns (d: TaskDTO)
      requires repo.Valid() && ValidTaskCreate(data)
      modifies repo
      ensures repo.Valid()
      ensures d.ownerId == userId && d.status == Pending
      ensures d.title == data.title && d.description == data.description
      ensures d.id !in old(repo.rows) && repo.rows == old(repo.rows)[d.id := d]
      ensures repo.nextId == old(repo.nextId) + 1
    {
      var t := repo.Create(data, userId);
      d := ToDto(t).value;
    }

    /**
     * `update_task`: `TaskNotFound` for a missing task, `TaskAccessForbidden`
     * for a task of another user, and otherwise the repository's update. A
     * failure leaves the store as it was; so a non-owner never changes it.
     */
    method UpdateTask(taskId: int, u: TaskUpdate, userId: int) returns (r: Result<TaskDTO, TaskError>)
      requires repo.Valid() && ValidTaskUpdate(u)
      modifies repo
      ensures repo.Valid() && repo.nextId == old(repo.nextId)
      ensures taskId !in old(repo.rows) ==> r == Failure(TaskNotFound)
      ensures taskId in old(repo.rows) && old(repo.rows)[taskId].ownerId != userId ==>
        r == Failure(TaskAccessForbidden)
      ensures taskId in old(repo.rows) && old(repo.rows)[taskId].ownerId == userId ==>
        r == Committed(old(repo.rows)[taskId], u)
      ensures r.Success? ==> repo.rows == old(repo.rows)[taskId := r.value]
      ensures r.Failure? ==> repo.rows == old(repo.rows)
    {
      var allowed := Authorize(repo.GetById(taskId), userId);
      if allowed.Failure? {
        return Failure(allowed.error);
      }
      var updated := repo.Update(taskId, u);
      if updated.Failure? {
        return Failure(updated.error);
      }
      r := Success(ToDto(updated.value).value);
    }

    /**
     * `delete_task`: `TaskNotFound` for a missing task, `TaskAccessForbidden`
     * for a task of another user (which stays), and otherwise the owner's
     * task is removed and no other.
     */
    method DeleteTask(taskId: int, userId: int) returns (r: Result<(), TaskError>)
      requires repo.Valid()
      modifies repo
      ensures repo.Valid() && repo.nextId == old(repo.nextId)
      ensures taskId !in old(repo.rows) ==> r == Failure(TaskNotFound)
      ensures taskId in old(repo.rows) && old(repo.rows)[taskId].ownerId != userId ==>
        r == Failure(TaskAccessForbidden)
      ensures r.Success? <==> taskId in old(repo.rows) && old(repo.rows)[taskId].ownerId == userId
      ensures r.Success? ==> repo.rows == old(repo.rows) - {taskId}
      ensures r.Failure? ==> repo.rows == old(repo.rows)
    {
      var allowed := Authorize(repo.GetById(taskId), userId);
      if allowed.Failure? {
        return Failure(allowed.error);
      }
      r := repo.Delete(taskId);
    }
  }
}
