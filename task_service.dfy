/** `TaskService`: task use cases gated on the owner's existence. */
module TaskServices {
  import opened Wrappers
  import opened Timestamps
  import opened Errors
  import opened Users
  import opened Tasks

  const EmailRequired := "User email is required"
  const TitleRequired := "Task title is required"

  /** `new AppError('Task not found', 404)`. */
  function TaskNotFound(): (e: Error)
    ensures ErrorResponse(e) == Response(404, "Task not found")
  {
    NewAppError("Task not found", Some(404))
  }

  /** Every stored task satisfies the completion invariant. */
  ghost predicate AllConsistent(tasks: map<TaskId, Task>) {
    forall id :: id in tasks ==> Consistent(tasks[id])
  }

  class TaskService {
    const repository: TaskRepository
    const userService: UserService

    constructor (repository: TaskRepository, userService: UserService)
      ensures this.repository == repository && this.userService == userService
    {
      this.repository := repository;
      this.userService := userService;
    }

    ghost predicate Valid()
      reads repository, userService.repository
    {
      repository.Valid() && userService.repository.Valid()
    }

    /** `createTask`: owner email, then title, must be non-empty (checked before
        any lookup); the owner must exist (`findUser`'s error propagates); the new
        task is incomplete and is returned without an identifier. */
    method CreateTask(userEmail: string, title: string, description: Option<string>, now: Time)
      returns (r: Result<Task, Error>)
      requires Valid()
      modifies repository, userService.repository`calls
      ensures Valid()
      ensures r.Success? <==> userEmail != "" && title != "" && userEmail in userService.repository.users
      ensures userEmail == "" ==> r == Failure(BadRequestError(Some(EmailRequired)))
      ensures userEmail != "" && title == "" ==> r == Failure(BadRequestError(Some(TitleRequired)))
      ensures userEmail != "" && title != "" && userEmail !in userService.repository.users ==>
        r == Failure(FunctionsBadRequestError(Some(EmailUnknown)))
      ensures userService.repository.calls ==
        old(userService.repository.calls) +
        (if userEmail != "" && title != "" then [UserCall.FindByEmail(userEmail)] else [])
      ensures r.Success? ==>
        && r.value == NewTask(CreationData(userEmail, title, description), now)
        && r.value.id.None? && !r.value.completed && r.value.completedAt.None?
        && repository.tasks == old(repository.tasks)[old(repository.nextId) := r.value.(id := Some(old(repository.nextId)))]
        && repository.calls == old(repository.calls) + [TaskCall.Create(r.value)]
      ensures r.Failure? ==>
        && repository.tasks == old(repository.tasks) && repository.nextId == old(repository.nextId)
        && repository.calls == old(repository.calls)
      ensures old(AllConsistent(repository.tasks)) ==> AllConsistent(repository.tasks)
    {
      if userEmail == "" {
        return Failure(BadRequestError(Some(EmailRequired)));
      }
      if title == "" {
        return Failure(BadRequestError(Some(TitleRequired)));
      }
      var user := userService.FindUser(userEmail);
      if user.Failure? {
        return Failure(user.error);
      }
      var task := NewTask(CreationData(userEmail, title, description), now);
      CreatedTaskIsIncomplete(userEmail, title, description, now);
      repository.Create(task);
      r := Success(task);
    }

    /** `findById(id)`: the stored task, or 404 'Task not found'. */
    method FindById(id: TaskId) returns (r: Result<Task, Error>)
      requires Valid()
      modifies repository`calls
      ensures repository.calls == old(repository.calls) + [TaskCall.FindById(id)]
      ensures r.Success? <==> id in repository.tasks
      ensures r.Success? ==> r.value == repository.tasks[id] && r.value.id == Some(id)
      ensures r.Failure? ==> r.error == TaskNotFound()
    {
      var task := repository.FindById(id);
      if task.None? {
        return Failure(TaskNotFound());
      }
      r := Success(task.value);
    }

    /** `deleteTask(id)`: 404 without deleting when the task is absent; otherwise
        removes exactly that task. */
    method DeleteTask(id: TaskId) returns (r: Result<(), Error>)
      requires Valid()
      modifies repository
      ensures Valid() && repository.nextId == old(repository.nextId)
      ensures r.Success? <==> id in old(repository.tasks)
      ensures r.Failure? ==>
        && r.error == TaskNotFound()
        && repository.tasks == old(repository.tasks)
        && repository.calls == old(repository.calls) + [TaskCall.FindById(id)]
      ensures r.Success? ==>
        && repository.tasks == old(repository.tasks) - {id}
        && repository.calls == old(repository.calls) + [TaskCall.FindById(id), TaskCall.Delete(id)]
      ensures old(AllConsistent(repository.tasks)) ==> AllConsistent(repository.tasks)
    {
      var task := repository.FindById(id);
      if task.None? {
        return Failure(TaskNotFound());
      }
      repository.Delete(id);
      r := Success(());
    }

    /** `updateTask(id, data)`: 404 without writing when the task is absent;
        otherwise applies the supplied fields and the completion rule, writes the
        task back and returns it. */
    method UpdateTask(id: TaskId, patch: TaskPatch, now: Time) returns (r: Result<Task, Error>)
      requires Valid()
      modifies repository
      ensures Valid() && repository.nextId == old(repository.nextId)
      ensures r.Success? <==> id in old(repository.tasks)
      ensures r.Failure? ==>
        && r.error == TaskNotFound()
        && repository.tasks == old(repository.tasks)
        && repository.calls == old(repository.calls) + [TaskCall.FindById(id)]
      ensures r.Success? ==>
        && r.value == Patched(old(repository.tasks)[id], patch, now)
        && repository.tasks == old(repository.tasks)[id := r.value]
        && repository.calls == old(repository.calls) + [TaskCall.FindById(id), TaskCall.Update(r.value)]
      ensures old(AllConsistent(repository.tasks)) || patch.completed.Some? ==>
        r.Success? ==> Consistent(repository.tasks[id])
      ensures old(AllConsistent(repository.tasks)) ==> AllConsistent(repository.tasks)
    {
      var found := repository.FindById(id);
      if found.None? {
        return Failure(TaskNotFound());
      }
      var task := found.value;
      if patch.title.Some? {
        task := task.(title := patch.title.value);
      }
      if patch.description.Some? {
        task := task.(description := patch.description.value);
      }
      if patch.completed.Some? {
        task := task.(completed := patch.completed.value);
        task := task.(completedAt := if patch.completed.value then Some(now) else None);
      }
      assert task == Patched(found.value, patch, now);
      if Consistent(found.value) || patch.completed.Some? {
        PatchKeepsConsistency(found.value, patch, now);
      }
      var updated := repository.Update(task);
      r := Success(updated);
    }

    /** `findAllByUser(email)`: `findUser`'s error when the owner is unknown
        (without querying tasks); otherwise exactly the owner's stored tasks. */
    method FindAllByUser(userEmail: string) returns (r: Result<seq<Task>, Error>)
      requires Valid()
      modifies repository`calls, userService.repository`calls
      ensures userService.repository.calls == old(userService.repository.calls) + [UserCall.FindByEmail(userEmail)]
      ensures r.Success? <==> userEmail in userService.repository.users
      ensures r.Failure? ==>
        r.error == FunctionsBadRequestError(Some(EmailUnknown)) && repository.calls == old(repository.calls)
      ensures r.Success? ==>
        && r.value == TasksOf(repository.tasks, userEmail, repository.nextId)
        && repository.calls == old(repository.calls) + [TaskCall.FindAllByUser(userEmail)]
    {
      var user := userService.FindUser(userEmail);
      if user.Failure? {
        return Failure(user.error);
      }
      var tasks := repository.FindAllByUser(userEmail);
      r := Success(tasks);
    }
  }
}
